/** Which press every event of the two-button driver reports, over every run. */
module ButtonOrigins {
  import opened Prelude
  import opened Buttons
  import opened ButtonTheorems

  /** The state after the first `n` updates. */
  function At(s: State, ins: seq<Input>, n: nat): (r: State)
    requires n <= |ins|
  {
    Run(s, ins[..n]).0
  }

  lemma AtPrefix(s: State, ins: seq<Input>, n: nat)
    requires n < |ins|
    ensures At(s, ins[..|ins| - 1], n) == At(s, ins, n)
  {
    assert ins[..|ins| - 1][..n] == ins[..n];
  }

  lemma AtEnd(s: State, ins: seq<Input>)
    ensures At(s, ins, |ins|) == Run(s, ins).0
    ensures ins != [] ==> At(s, ins, |ins|) == Step(At(s, ins, |ins| - 1), ins[|ins| - 1]).0
  {
    assert ins[..|ins|] == ins;
  }

  // ----- single buttons

  /** A running press timer holds the time of the button's last accepted level change. */
  predicate TimerIsPress(s: State) {
    && (s.left.pressStart > 0 ==> s.left.pressStart == s.left.lastChange)
    && (s.right.pressStart > 0 ==> s.right.pressStart == s.right.lastChange)
  }

  lemma StepKeepsTimer(s: State, i: Input)
    requires Inv(s) && TimerIsPress(s)
    ensures TimerIsPress(Step(s, i).0)
  {
  }

  lemma {:induction false} RunKeepsTimer(leftPressed: bool, rightPressed: bool, ins: seq<Input>)
    ensures TimerIsPress(Run(Initial(leftPressed, rightPressed), ins).0)
  {
    if ins != [] {
      var before := ins[..|ins| - 1];
      RunKeepsTimer(leftPressed, rightPressed, before);
      RunKeepsInv(leftPressed, rightPressed, before);
      StepKeepsTimer(Run(Initial(leftPressed, rightPressed), before).0, ins[|ins| - 1]);
    }
  }

  /** A timer that runs after an update was started by a press accepted in it, or was running before. */
  lemma TimerStep(s: State, i: Input, id: Button)
    requires Inv(s) && id != Both
    ensures var (b, b') := (Of(s, id), Of(Step(s, i).0, id));
            b'.pressStart > 0 ==>
              && b'.hw && !Step(s, i).0.both.active
              && (b.hw ==> b.pressStart == b'.pressStart)
              && (!b.hw ==> b'.pressStart == i.now)
  {
  }

  /** After `n` updates the button is down, and no both-button press is on. */
  predicate DownAlone(s: State, ins: seq<Input>, id: Button, n: nat)
    requires n <= |ins| && id != Both
  {
    Of(At(s, ins, n), id).hw && !At(s, ins, n).both.active
  }

  /** Update `k` accepted a press of the button; since then it is down and no both-button press has begun. */
  predicate PressedSince(s: State, ins: seq<Input>, id: Button, k: nat)
    requires k < |ins| && id != Both
  {
    !Of(At(s, ins, k), id).hw && forall n | k < n <= |ins| :: DownAlone(s, ins, id, n)
  }

  lemma StillPressed(s: State, ins: seq<Input>, id: Button, k: nat)
    requires k < |ins| - 1 && id != Both && PressedSince(s, ins[..|ins| - 1], id, k)
    requires DownAlone(s, ins, id, |ins|)
    ensures PressedSince(s, ins, id, k)
  {
    hide Run;
    var before := ins[..|ins| - 1];
    AtPrefix(s, ins, k);
    forall n | k < n <= |ins|
      ensures DownAlone(s, ins, id, n)
    {
      if n < |ins| {
        assert DownAlone(s, before, id, n);
        AtPrefix(s, ins, n);
      }
    }
  }

  /** Over every run, a running press timer goes back to a press of that button, with no both-button press since. */
  lemma {:induction false} TimerHasOrigin(leftPressed: bool, rightPressed: bool, ins: seq<Input>, id: Button)
    requires id != Both
    ensures var s := Initial(leftPressed, rightPressed);
            var b := Of(Run(s, ins).0, id);
            b.pressStart > 0 ==>
              exists k | 0 <= k < |ins| :: PressedSince(s, ins, id, k) && ins[k].now == b.pressStart
  {
    hide Step, Inv;
    var s := Initial(leftPressed, rightPressed);
    AtEnd(s, ins);
    if ins == [] {
      assert Run(s, ins).0 == s;
    } else if Of(Run(s, ins).0, id).pressStart > 0 {
      var before, i := ins[..|ins| - 1], ins[|ins| - 1];
      var was := Run(s, before).0;
      RunKeepsInv(leftPressed, rightPressed, before);
      TimerStep(was, i, id);
      assert DownAlone(s, ins, id, |ins|);
      if Of(was, id).hw {
        TimerHasOrigin(leftPressed, rightPressed, before, id);
        var k :| 0 <= k < |before| && PressedSince(s, before, id, k) && before[k].now == Of(was, id).pressStart;
        StillPressed(s, ins, id, k);
      } else {
        assert PressedSince(s, ins, id, |ins| - 1);
      }
    }
  }

  /** What a single-button event says about the press timed from `start`. */
  predicate Reports(e: Event, now: U32, start: U32) {
    && e.timestamp == now
    && if e.kind == LongStart then e.duration == LONG_PRESS_MS <= Elapsed(now, start)
       else e.duration == Elapsed(now, start)
  }

  lemma EventReportsTimer(s: State, i: Input, e: Event)
    requires Inv(s) && e in Step(s, i).1 && e.button != Both
    ensures Of(s, e.button).pressStart > 0 && Reports(e, i.now, Of(s, e.button).pressStart)
  {
    StepKeepsInv(s, i);
  }

  /**
   * Over every run, a single-button event reports the time since a press of that very button was accepted, and
   * from that press on the button was down and no both-button press was under way.
   */
  lemma SingleEventsReportAPress(leftPressed: bool, rightPressed: bool, ins: seq<Input>, i: Input, e: Event)
    requires e.button != Both && e in Step(Run(Initial(leftPressed, rightPressed), ins).0, i).1
    ensures exists k | 0 <= k < |ins| ::
              PressedSince(Initial(leftPressed, rightPressed), ins, e.button, k) && Reports(e, i.now, ins[k].now)
  {
    hide Step, Inv, PressedSince, Reports;
    RunKeepsInv(leftPressed, rightPressed, ins);
    EventReportsTimer(Run(Initial(leftPressed, rightPressed), ins).0, i, e);
    TimerHasOrigin(leftPressed, rightPressed, ins, e.button);
  }

  // ----- every press, from its start to its end

  /** Some update after `k` found the press begun at `k` at least 500 ms old. */
  predicate SeenLong(ins: seq<Input>, k: nat)
    requires k < |ins|
  {
    exists n | k < n < |ins| :: Elapsed(ins[n].now, ins[k].now) >= LONG_PRESS_MS
  }

  lemma SeenLongStep(ins: seq<Input>, k: nat)
    requires k < |ins| - 1
    ensures SeenLong(ins, k) <==>
            SeenLong(ins[..|ins| - 1], k) || Elapsed(ins[|ins| - 1].now, ins[k].now) >= LONG_PRESS_MS
  {
    hide Elapsed;
    var before := ins[..|ins| - 1];
    assert forall n | 0 <= n < |before| :: before[n] == ins[n];
    if SeenLong(before, k) {
      var n :| k < n < |before| && Elapsed(before[n].now, before[k].now) >= LONG_PRESS_MS;
      assert Elapsed(ins[n].now, ins[k].now) >= LONG_PRESS_MS;
    }
    if n :| k < n < |before| && Elapsed(ins[n].now, ins[k].now) >= LONG_PRESS_MS {
      assert Elapsed(before[n].now, before[k].now) >= LONG_PRESS_MS;
    }
  }

  lemma FreshPress(s: State, i: Input, id: Button)
    requires Inv(s) && id != Both && !Of(s, id).hw
    ensures var b := Of(Step(s, i).0, id);
            b.hw && !Step(s, i).0.both.active ==> b.pressStart == i.now && !b.longSent
  {
  }

  /** What an update does to a timed press, by the levels it accepts. */
  lemma TimedPressStep(s: State, i: Input, id: Button)
    requires Inv(s) && id != Both && Of(s, id).pressStart > 0
    ensures var (s', events) := Step(s, i);
            var b, b', age := Of(s, id), Of(s', id), Elapsed(i.now, Of(s, id).pressStart);
            && (!b'.hw ==>
                  events == if age < BOTH_WINDOW_MS then []
                            else [Event(id, if b.longSent then LongStop else ShortPress, i.now, age)])
            && (b'.hw && s'.both.active ==> events == [])
            && (b'.hw && !s'.both.active ==>
                  && b'.pressStart == b.pressStart
                  && b'.longSent == (b.longSent || age >= LONG_PRESS_MS)
                  && events == if b.longSent || age < LONG_PRESS_MS then []
                               else [Event(id, LongStart, i.now, LONG_PRESS_MS)])
  {
  }

  /** A press accepted when the clock read 0 is not timed. */
  lemma UntimedPressStep(s: State, i: Input, id: Button)
    requires Inv(s) && id != Both && Of(s, id).hw && Of(s, id).pressStart == 0 && !(s.left.hw && s.right.hw)
    ensures Step(s, i).1 == []
    ensures var b := Of(Step(s, i).0, id); b.hw && !Step(s, i).0.both.active ==> b.pressStart == 0
  {
  }

  lemma BothDownIsActive(s: State, i: Input)
    ensures var s' := Step(s, i).0; s'.left.hw && s'.right.hw ==> s'.both.active
  {
  }

  lemma PressedBefore(s: State, ins: seq<Input>, id: Button, k: nat)
    requires k < |ins| - 1 && id != Both && PressedSince(s, ins, id, k)
    ensures PressedSince(s, ins[..|ins| - 1], id, k)
  {
    hide Run;
    var before := ins[..|ins| - 1];
    AtPrefix(s, ins, k);
    forall n | k < n <= |before|
      ensures DownAlone(s, before, id, n)
    {
      assert DownAlone(s, ins, id, n);
      AtPrefix(s, ins, n);
    }
  }

  /** While a press is on its timer holds its time, and its START flag says whether some update found it 500 ms old. */
  lemma {:induction false} FlagMeansSeenLong(leftPressed: bool, rightPressed: bool, ins: seq<Input>, id: Button, k: nat)
    requires k < |ins| && id != Both && PressedSince(Initial(leftPressed, rightPressed), ins, id, k)
    ensures var s := Run(Initial(leftPressed, rightPressed), ins).0;
            && Of(s, id).hw && !(s.left.hw && s.right.hw) && Of(s, id).pressStart == ins[k].now
            && (ins[k].now > 0 ==> (Of(s, id).longSent <==> SeenLong(ins, k)))
  {
    hide Step, Inv, SeenLong;
    var s := Initial(leftPressed, rightPressed);
    var before, i := ins[..|ins| - 1], ins[|ins| - 1];
    var was := Run(s, before).0;
    AtEnd(s, ins);
    assert DownAlone(s, ins, id, |ins|);
    RunKeepsInv(leftPressed, rightPressed, before);
    BothDownIsActive(was, i);
    if k == |ins| - 1 {
      AtPrefixEnd(s, ins);
      FreshPress(was, i, id);
      NotYetSeen(ins);
    } else {
      PressedBefore(s, ins, id, k);
      FlagMeansSeenLong(leftPressed, rightPressed, before, id, k);
      if ins[k].now > 0 {
        TimedPressStep(was, i, id);
        SeenLongStep(ins, k);
      } else {
        UntimedPressStep(was, i, id);
      }
    }
  }

  lemma AtPrefixEnd(s: State, ins: seq<Input>)
    requires ins != []
    ensures At(s, ins, |ins| - 1) == Run(s, ins[..|ins| - 1]).0
  {
  }

  lemma NotYetSeen(ins: seq<Input>)
    requires ins != []
    ensures !SeenLong(ins, |ins| - 1)
  {
  }

  /**
   * Over every run, from whatever state: the next update after a press reports a STOP or a short press if it
   * accepts the release after 50 ms, START if it is the first to find the press 500 ms old, and nothing otherwise;
   * a press accepted when the clock read 0 is never reported.
   */
  lemma EveryPressIsReported(leftPressed: bool, rightPressed: bool, ins: seq<Input>, i: Input, id: Button, k: nat)
    requires k < |ins| && id != Both && PressedSince(Initial(leftPressed, rightPressed), ins, id, k)
    ensures var (s, events) := Step(Run(Initial(leftPressed, rightPressed), ins).0, i);
            var age := Elapsed(i.now, ins[k].now);
            events ==
            if ins[k].now == 0 then []
            else if !Of(s, id).hw then
              if age < BOTH_WINDOW_MS then []
              else [Event(id, if SeenLong(ins, k) then LongStop else ShortPress, i.now, age)]
            else if !s.both.active && age >= LONG_PRESS_MS && !SeenLong(ins, k) then
              [Event(id, LongStart, i.now, LONG_PRESS_MS)]
            else []
  {
    hide Step, Inv, SeenLong, PressedSince;
    RunKeepsInv(leftPressed, rightPressed, ins);
    FlagMeansSeenLong(leftPressed, rightPressed, ins, id, k);
    if ins[k].now > 0 {
      TimedPressStep(Run(Initial(leftPressed, rightPressed), ins).0, i, id);
    } else {
      UntimedPressStep(Run(Initial(leftPressed, rightPressed), ins).0, i, id);
    }
  }

  // ----- both buttons

  predicate BothOn(s: State, ins: seq<Input>, n: nat)
    requires n <= |ins|
  {
    At(s, ins, n).both.active
  }

  /** Update `k` began a both-button press, which has been on since. */
  predicate BothSince(s: State, ins: seq<Input>, k: nat)
    requires k < |ins|
  {
    !At(s, ins, k).both.active && forall n | k < n <= |ins| :: BothOn(s, ins, n)
  }

  lemma BothTimerStep(s: State, i: Input)
    ensures var (b, b') := (s.both, Step(s, i).0.both);
            b'.active ==> b'.pressStart == if b.active then b.pressStart else i.now
  {
  }

  lemma BothStillOn(s: State, ins: seq<Input>, k: nat)
    requires k < |ins| - 1 && BothSince(s, ins[..|ins| - 1], k) && BothOn(s, ins, |ins|)
    ensures BothSince(s, ins, k)
  {
    hide Run;
    var before := ins[..|ins| - 1];
    AtPrefix(s, ins, k);
    forall n | k < n <= |ins|
      ensures BothOn(s, ins, n)
    {
      if n < |ins| {
        assert BothOn(s, before, n);
        AtPrefix(s, ins, n);
      }
    }
  }

  lemma {:induction false} BothHasOrigin(leftPressed: bool, rightPressed: bool, ins: seq<Input>)
    ensures var s := Initial(leftPressed, rightPressed);
            var both := Run(s, ins).0.both;
            both.active ==> exists k | 0 <= k < |ins| :: BothSince(s, ins, k) && ins[k].now == both.pressStart
  {
    hide Step;
    var s := Initial(leftPressed, rightPressed);
    AtEnd(s, ins);
    if ins == [] {
      assert Run(s, ins).0 == s;
    } else if Run(s, ins).0.both.active {
      var before, i := ins[..|ins| - 1], ins[|ins| - 1];
      var was := Run(s, before).0;
      BothTimerStep(was, i);
      assert BothOn(s, ins, |ins|);
      if was.both.active {
        BothHasOrigin(leftPressed, rightPressed, before);
        var k :| 0 <= k < |before| && BothSince(s, before, k) && before[k].now == was.both.pressStart;
        BothStillOn(s, ins, k);
      } else {
        assert BothSince(s, ins, |ins| - 1);
      }
    }
  }

  lemma BothEventReportsTimer(s: State, i: Input, e: Event)
    requires Inv(s) && e in Step(s, i).1 && e.button == Both
    ensures s.both.active && Reports(e, i.now, s.both.pressStart)
  {
    StepKeepsInv(s, i);
  }

  /** Over every run, a both-button event reports the time since both buttons were first down together. */
  lemma BothEventsReportAPress(leftPressed: bool, rightPressed: bool, ins: seq<Input>, i: Input, e: Event)
    requires e.button == Both && e in Step(Run(Initial(leftPressed, rightPressed), ins).0, i).1
    ensures exists k | 0 <= k < |ins| ::
              BothSince(Initial(leftPressed, rightPressed), ins, k) && Reports(e, i.now, ins[k].now)
  {
    hide Step, Inv, BothSince, Reports;
    RunKeepsInv(leftPressed, rightPressed, ins);
    BothEventReportsTimer(Run(Initial(leftPressed, rightPressed), ins).0, i, e);
    BothHasOrigin(leftPressed, rightPressed, ins);
  }

  /** What an update does while both buttons are held. */
  lemma BothPressStep(s: State, i: Input)
    requires Inv(s) && s.both.active
    ensures var (s', events) := Step(s, i);
            var b, b', age := s.both, s'.both, Elapsed(i.now, s.both.pressStart);
            && (b'.active <==> s'.left.hw && s'.right.hw)
            && (!b'.active ==> events == [Event(Both, if b.longSent then LongStop else ShortPress, i.now, age)])
            && (b'.active ==>
                  && b'.longSent == (b.longSent || age >= LONG_PRESS_MS)
                  && events == if b.longSent || age < LONG_PRESS_MS then []
                               else [Event(Both, LongStart, i.now, LONG_PRESS_MS)])
  {
    StepKeepsInv(s, i);
    if !Step(s, i).0.both.active { assert |Step(s, i).1| == 1; }
  }

  lemma FreshBothPress(s: State, i: Input)
    requires !s.both.active
    ensures var b := Step(s, i).0.both; b.active ==> b.pressStart == i.now && !b.longSent
  {
  }

  lemma BothOnBefore(s: State, ins: seq<Input>, k: nat)
    requires k < |ins| - 1 && BothSince(s, ins, k)
    ensures BothSince(s, ins[..|ins| - 1], k)
  {
    hide Run;
    var before := ins[..|ins| - 1];
    AtPrefix(s, ins, k);
    forall n | k < n <= |before|
      ensures BothOn(s, before, n)
    {
      assert BothOn(s, ins, n);
      AtPrefix(s, ins, n);
    }
  }

  lemma {:induction false} BothFlagMeansSeenLong(leftPressed: bool, rightPressed: bool, ins: seq<Input>, k: nat)
    requires k < |ins| && BothSince(Initial(leftPressed, rightPressed), ins, k)
    ensures var b := Run(Initial(leftPressed, rightPressed), ins).0.both;
            b.active && b.pressStart == ins[k].now && (b.longSent <==> SeenLong(ins, k))
  {
    hide Step, Inv, SeenLong;
    var s := Initial(leftPressed, rightPressed);
    var before, i := ins[..|ins| - 1], ins[|ins| - 1];
    var was := Run(s, before).0;
    AtEnd(s, ins);
    assert BothOn(s, ins, |ins|);
    RunKeepsInv(leftPressed, rightPressed, before);
    if k == |ins| - 1 {
      AtPrefixEnd(s, ins);
      FreshBothPress(was, i);
      NotYetSeen(ins);
    } else {
      BothOnBefore(s, ins, k);
      BothFlagMeansSeenLong(leftPressed, rightPressed, before, k);
      BothTimerStep(was, i);
      BothPressStep(was, i);
      SeenLongStep(ins, k);
    }
  }

  /**
   * Over every run: the next update of a both-button press reports its STOP or short press when one button comes
   * up, START if it is the first to find the press 500 ms old, and nothing otherwise.
   */
  lemma EveryBothPressIsReported(leftPressed: bool, rightPressed: bool, ins: seq<Input>, i: Input, k: nat)
    requires k < |ins| && BothSince(Initial(leftPressed, rightPressed), ins, k)
    ensures var (s, events) := Step(Run(Initial(leftPressed, rightPressed), ins).0, i);
            var age := Elapsed(i.now, ins[k].now);
            events ==
            if !(s.left.hw && s.right.hw) then
              [Event(Both, if SeenLong(ins, k) then LongStop else ShortPress, i.now, age)]
            else if age >= LONG_PRESS_MS && !SeenLong(ins, k) then [Event(Both, LongStart, i.now, LONG_PRESS_MS)]
            else []
  {
    hide Step, Inv, SeenLong, BothSince;
    RunKeepsInv(leftPressed, rightPressed, ins);
    BothFlagMeansSeenLong(leftPressed, rightPressed, ins, k);
    BothPressStep(Run(Initial(leftPressed, rightPressed), ins).0, i);
  }

  /** Released finger by finger, a press of both buttons reports once. */
  lemma StaggeredRelease()
    ensures Run(Initial(false, false), [Input(100, true, true), Input(200, true, false), Input(300, false, false)]).1
         == [Event(Both, ShortPress, 200, 100)]
  {
    var a, b, c := Input(100, true, true), Input(200, true, false), Input(300, false, false);
    assert [a, b, c][..2] == [a, b] && [a, b][..1] == [a] && [a][..0] == [];
    assert Run(Initial(false, false), [a]).1 == [];
    assert Run(Initial(false, false), [a, b]).1 == [Event(Both, ShortPress, 200, 100)];
  }
}
