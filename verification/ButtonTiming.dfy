/** Durations and debouncing of the two-button driver, over every run. */
module ButtonTiming {
  import opened Prelude
  import opened Buttons
  import opened ButtonTheorems

  /** A clock that does not wrap during the run. */
  predicate Monotone(ins: seq<Input>) {
    forall i, j | 0 <= i < j < |ins| :: ins[i].now <= ins[j].now
  }

  function LastTime(ins: seq<Input>): (t: U32) {
    if ins == [] then 0 else ins[|ins| - 1].now
  }

  // ----- durations

  predicate ClockedButton(b: ButtonState, t: U32) {
    && b.lastChange <= t && b.pressStart <= t
    && (SingleOpen(b) ==> t - b.pressStart >= LONG_PRESS_MS)
  }

  /** Stored times lie in the past, and an open long press is at least a long press old. */
  predicate Clocked(s: State, t: U32) {
    && ClockedButton(s.left, t) && ClockedButton(s.right, t)
    && s.both.pressStart <= t
    && (BothOpen(s) ==> t - s.both.pressStart >= LONG_PRESS_MS)
  }

  predicate WellTimed(e: Event) {
    match e.kind
    case LongStart => e.duration == LONG_PRESS_MS
    case LongStop => e.duration >= LONG_PRESS_MS
    case ShortPress => e.button != Both ==> e.duration >= BOTH_WINDOW_MS
  }

  lemma DebounceStaysClocked(b: ButtonState, t: U32, pressed: bool, now: U32)
    requires ClockedButton(b, t) && t <= now
    ensures ClockedButton(Debounce(b, pressed, now), now)
  {
  }

  lemma BothStaysClocked(s: State, bothPressed: bool, now: U32)
    requires s.both.pressStart <= now && (BothOpen(s) ==> now - s.both.pressStart >= LONG_PRESS_MS)
    ensures var (b, events) := BothStep(s.both, bothPressed, now);
            && b.pressStart <= now && (b.active && b.longSent ==> now - b.pressStart >= LONG_PRESS_MS)
            && forall e | e in events :: WellTimed(e) && e.timestamp == now
  {
  }

  lemma SingleStaysClocked(id: Button, b: ButtonState, bothPrev: bool, now: U32)
    requires ClockedButton(b, now)
    ensures var (b', events) := SingleStep(id, b, bothPrev, now);
            ClockedButton(b', now) && forall e | e in events :: WellTimed(e) && e.timestamp == now
  {
  }

  lemma StepStaysClocked(s: State, t: U32, i: Input)
    requires Clocked(s, t) && t <= i.now
    ensures Clocked(Step(s, i).0, i.now)
    ensures forall e | e in Step(s, i).1 :: WellTimed(e) && e.timestamp == i.now
  {
    hide Debounce, Decide;
    DebounceStaysClocked(s.left, t, i.left, i.now);
    DebounceStaysClocked(s.right, t, i.right, i.now);
    DecideStaysClocked(Debounce(s.left, i.left, i.now), Debounce(s.right, i.right, i.now), s, i.now);
  }

  lemma DecideStaysClocked(l: ButtonState, r: ButtonState, s: State, now: U32)
    requires ClockedButton(l, now) && ClockedButton(r, now)
    requires s.both.pressStart <= now && (BothOpen(s) ==> now - s.both.pressStart >= LONG_PRESS_MS)
    ensures Clocked(Decide(l, r, s.both, now).0, now)
    ensures forall e | e in Decide(l, r, s.both, now).1 :: WellTimed(e) && e.timestamp == now
  {
    hide BothStep, SingleStep, WellTimed;
    BothStaysClocked(s, l.hw && r.hw, now);
    SingleStaysClocked(Left, l, l.prevHw && r.prevHw, now);
    SingleStaysClocked(Right, r, l.prevHw && r.prevHw, now);
  }

  /** On a clock that does not wrap: STARTs report 500 ms, STOPs at least 500 ms, single short presses 50 ms or more. */
  lemma {:induction false} EventsAreWellTimed(leftPressed: bool, rightPressed: bool, ins: seq<Input>)
    requires Monotone(ins)
    ensures var (s, events) := Run(Initial(leftPressed, rightPressed), ins);
            Clocked(s, LastTime(ins)) && forall e | e in events :: WellTimed(e)
  {
    if ins != [] {
      var before := ins[..|ins| - 1];
      EventsAreWellTimed(leftPressed, rightPressed, before);
      StepStaysClocked(Run(Initial(leftPressed, rightPressed), before).0, LastTime(before), ins[|ins| - 1]);
    }
  }

  // ----- the fate of a started long press

  /** Both debounced levels of an update are down. */
  predicate BothDown(s: State, i: Input) {
    Debounce(s.left, i.left, i.now).hw && Debounce(s.right, i.right, i.now).hw
  }

  /** A both-button press begins with this update. */
  predicate BothBegins(s: State, i: Input) {
    !s.both.active && Step(s, i).0.both.active
  }

  /** The update that closes an open long press sends its STOP exactly when one button is up and the age reads 50 ms. */
  lemma OpenPressEnds(s: State, i: Input, id: Button)
    requires Inv(s) && id != Both && SingleOpen(Of(s, id)) && !SingleOpen(Of(Step(s, i).0, id))
    ensures BothBegins(s, i) <==> BothDown(s, i)
    ensures var age := Elapsed(i.now, Of(s, id).pressStart);
            var stop := [Event(id, LongStop, i.now, age)];
            Step(s, i).1 == if !BothDown(s, i) && age >= BOTH_WINDOW_MS then stop else []
  {
  }

  /** On a clock that does not wrap, only the second button takes the STOP away; the both-button window never does. */
  lemma NoStopIsSwallowed(leftPressed: bool, rightPressed: bool, ins: seq<Input>, i: Input, id: Button)
    requires Monotone(ins + [i]) && id != Both
    requires var s := Run(Initial(leftPressed, rightPressed), ins).0;
             SingleOpen(Of(s, id)) && !SingleOpen(Of(Step(s, i).0, id))
    ensures var s := Run(Initial(leftPressed, rightPressed), ins).0;
            var age := Elapsed(i.now, Of(s, id).pressStart);
            && age >= LONG_PRESS_MS
            && Step(s, i).1 == if BothDown(s, i) then [] else [Event(id, LongStop, i.now, age)]
  {
    assert Monotone(ins) by {
      assert forall k | 0 <= k < |ins| :: ins[k] == (ins + [i])[k];
    }
    assert LastTime(ins) <= i.now by {
      if ins != [] { assert (ins + [i])[|ins| - 1].now <= (ins + [i])[|ins|].now; }
    }
    EventsAreWellTimed(leftPressed, rightPressed, ins);
    RunKeepsInv(leftPressed, rightPressed, ins);
    OpenPressEnds(Run(Initial(leftPressed, rightPressed), ins).0, i, id);
  }

  /** What a run notes about one button: its events, and each both-button press that begins while its START is open. */
  datatype Note = Sent(kind: Kind) | TakenOver

  function AllSent(kinds: seq<Kind>): (r: seq<Note>) {
    seq(|kinds|, k requires 0 <= k < |kinds| => Sent(kinds[k]))
  }

  function StepNotes(s: State, i: Input, id: Button): (r: seq<Note>)
    requires id != Both
  {
    AllSent(KindsOf(Step(s, i).1, id)) + if SingleOpen(Of(s, id)) && BothBegins(s, i) then [TakenOver] else []
  }

  function Notes(s: State, ins: seq<Input>, id: Button): (r: seq<Note>)
    requires id != Both
  {
    if ins == [] then []
    else Notes(s, ins[..|ins| - 1], id) + StepNotes(Run(s, ins[..|ins| - 1]).0, ins[|ins| - 1], id)
  }

  /** Every START is followed by its STOP or its takeover, unless it is the last note; neither comes otherwise. */
  predicate Accounted(w: seq<Note>) {
    && (forall k | 0 <= k < |w| - 1 && w[k] == Sent(LongStart) :: w[k + 1] == Sent(LongStop) || w[k + 1] == TakenOver)
    && (forall k | 0 <= k < |w| && (w[k] == Sent(LongStop) || w[k] == TakenOver) ::
          k > 0 && w[k - 1] == Sent(LongStart))
  }

  predicate StartIsLast(w: seq<Note>) {
    w != [] && w[|w| - 1] == Sent(LongStart)
  }

  /** What the note of one update says about the press before and after it. */
  predicate NoteFits(was: bool, notes: seq<Note>, now: bool) {
    || (notes == [] && now == was)
    || (notes == [Sent(LongStart)] && !was && now)
    || (notes == [Sent(ShortPress)] && !was && !now)
    || ((notes == [Sent(LongStop)] || notes == [TakenOver]) && was && !now)
  }

  lemma StepNoteFits(s: State, t: U32, i: Input, id: Button)
    requires Inv(s) && Clocked(s, t) && t <= i.now && id != Both
    ensures NoteFits(SingleOpen(Of(s, id)), StepNotes(s, i, id), SingleOpen(Of(Step(s, i).0, id)))
  {
    hide Step, Inv, Clocked, KindsOf;
    var (s', events) := Step(s, i);
    StepKeepsInv(s, i);
    StepExplained(s, i);
    NoKinds();
    if events != [] {
      assert events == [events[0]];
      OneKind(events[0], id);
    }
    if SingleOpen(Of(s, id)) {
      if SingleOpen(Of(s', id)) {
        OpenPressStays(s, i, id);
      } else {
        OpenPressIsOld(s, t, i, id);
        OpenPressEnds(s, i, id);
      }
    }
  }

  lemma OpenPressIsOld(s: State, t: U32, i: Input, id: Button)
    requires Clocked(s, t) && t <= i.now && id != Both && SingleOpen(Of(s, id))
    ensures Elapsed(i.now, Of(s, id).pressStart) >= LONG_PRESS_MS
  {
  }

  lemma OpenPressStays(s: State, i: Input, id: Button)
    requires Inv(s) && id != Both && SingleOpen(Of(s, id)) && SingleOpen(Of(Step(s, i).0, id))
    ensures Step(s, i).1 == [] && !BothBegins(s, i)
  {
  }

  lemma NotesStayAccounted(was: bool, w: seq<Note>, notes: seq<Note>, now: bool)
    requires Accounted(w) && (was <==> StartIsLast(w)) && NoteFits(was, notes, now)
    ensures Accounted(w + notes) && (now <==> StartIsLast(w + notes))
  {
    if notes == [] { assert w + notes == w; }
  }

  /**
   * Over every run on a clock that does not wrap: after a START, the button's next event is its STOP, unless a
   * both-button press takes the long press over first, or it is still open at the end of the run.
   */
  lemma {:induction false} EveryStartIsAccounted(leftPressed: bool, rightPressed: bool, ins: seq<Input>, id: Button)
    requires Monotone(ins) && id != Both
    ensures var s := Initial(leftPressed, rightPressed);
            var w := Notes(s, ins, id);
            Accounted(w) && (SingleOpen(Of(Run(s, ins).0, id)) <==> StartIsLast(w))
  {
    hide Step, Accounted, StartIsLast, NoteFits, StepNotes, Clocked, Inv;
    var s := Initial(leftPressed, rightPressed);
    if ins == [] {
      NoNotes();
    } else {
      var before, i := ins[..|ins| - 1], ins[|ins| - 1];
      EveryStartIsAccounted(leftPressed, rightPressed, before, id);
      EventsAreWellTimed(leftPressed, rightPressed, before);
      RunKeepsInv(leftPressed, rightPressed, before);
      var s' := Run(s, before).0;
      StepNoteFits(s', LastTime(before), i, id);
      NotesStayAccounted(SingleOpen(Of(s', id)), Notes(s, before, id), StepNotes(s', i, id),
                         SingleOpen(Of(Step(s', i).0, id)));
    }
  }

  lemma NoNotes()
    ensures Accounted([]) && !StartIsLast([])
  {
  }

  /** The events among the notes of a button. */
  function SentKinds(w: seq<Note>): (r: seq<Kind>) {
    if w == [] then []
    else if w[|w| - 1].Sent? then SentKinds(w[..|w| - 1]) + [w[|w| - 1].kind]
    else SentKinds(w[..|w| - 1])
  }

  lemma {:induction false} SentKindsAppend(w: seq<Note>, kinds: seq<Kind>)
    ensures SentKinds(w + AllSent(kinds)) == SentKinds(w) + kinds
  {
    if kinds == [] {
      assert w + AllSent(kinds) == w;
    } else {
      var init, last := kinds[..|kinds| - 1], kinds[|kinds| - 1];
      SentKindsAppend(w, init);
      assert w + AllSent(kinds) == w + AllSent(init) + [Sent(last)];
      OneNoteMore(w + AllSent(init), Sent(last));
    }
  }

  lemma OneNoteMore(w: seq<Note>, n: Note)
    ensures SentKinds(w + [n]) == SentKinds(w) + if n.Sent? then [n.kind] else []
  {
    assert (w + [n])[..|w|] == w;
  }

  lemma {:induction false} KindsOfConcat(events: seq<Event>, more: seq<Event>, b: Button)
    ensures KindsOf(events + more, b) == KindsOf(events, b) + KindsOf(more, b)
  {
    if more == [] {
      assert events + more == events;
    } else {
      var init := more[..|more| - 1];
      KindsOfConcat(events, init, b);
      assert (events + more)[..|events + more| - 1] == events + init;
    }
  }

  /** The notes of a button hold exactly its events, in order. */
  lemma {:induction false} NotesAreTheEvents(s: State, ins: seq<Input>, id: Button)
    requires id != Both
    ensures SentKinds(Notes(s, ins, id)) == KindsOf(Run(s, ins).1, id)
  {
    hide Step, KindsOf, SentKinds, AllSent, Of;
    NoKinds();
    if ins == [] {
      NothingSent();
    } else {
      var before, i := ins[..|ins| - 1], ins[|ins| - 1];
      NotesAreTheEvents(s, before, id);
      var (s', events) := Run(s, before);
      KindsOfConcat(events, Step(s', i).1, id);
      var w, kinds := Notes(s, before, id), KindsOf(Step(s', i).1, id);
      SentKindsAppend(w, kinds);
      OneNoteMore(w + AllSent(kinds), TakenOver);
      assert w + AllSent(kinds) + [TakenOver] == w + (AllSent(kinds) + [TakenOver]);
      assert AllSent(kinds) + [] == AllSent(kinds);
      assert StepNotes(s', i, id) == AllSent(kinds) || StepNotes(s', i, id) == AllSent(kinds) + [TakenOver];
    }
  }

  lemma NothingSent()
    ensures SentKinds([]) == []
  {
  }

  /** The second button, pressed during a long press of the first, takes its STOP away on an ordinary clock. */
  lemma TakeoverLosesStop()
    ensures var ins := [Input(100, true, false), Input(600, true, false), Input(700, true, true),
                        Input(800, false, false)];
            var (s, events) := Run(Initial(false, false), ins);
            && Monotone(ins) && !SingleOpen(s.left)
            && events == [Event(Left, LongStart, 600, 500), Event(Both, ShortPress, 800, 100)]
  {
    var a, b, c := Input(100, true, false), Input(600, true, false), Input(700, true, true);
    var d, s := Input(800, false, false), Initial(false, false);
    assert [a, b, c, d][..3] == [a, b, c] && [a, b, c][..2] == [a, b] && [a, b][..1] == [a] && [a][..0] == [];
    assert Run(s, [a]).1 == [];
    assert Run(s, [a, b]).1 == [Event(Left, LongStart, 600, 500)];
    assert Run(s, [a, b, c]).1 == [Event(Left, LongStart, 600, 500)];
  }

  /** When the clock wraps back to 35 ms after the press, its STOP is lost. */
  lemma WrappedClockSwallowsStop()
    ensures Run(Initial(false, false), [Input(100, true, false), Input(600, true, false), Input(135, false, false)]).1
         == [Event(Left, LongStart, 600, 500)]
  {
    var a, b, c := Input(100, true, false), Input(600, true, false), Input(135, false, false);
    assert [a, b, c][..2] == [a, b] && [a, b][..1] == [a] && [a][..0] == [];
    assert Run(Initial(false, false), [a]).1 == [];
    assert Run(Initial(false, false), [a, b]).1 == [Event(Left, LongStart, 600, 500)];
  }

  // ----- debouncing

  /** The times at which the debounced level of a button changes. */
  function ChangeTimes(s: State, ins: seq<Input>, id: Button): (r: seq<U32>)
    requires id != Both
  {
    if ins == [] then []
    else
      var before := ins[..|ins| - 1];
      var times := ChangeTimes(s, before, id);
      if Of(Run(s, ins).0, id).hw != Of(Run(s, before).0, id).hw then times + [ins[|ins| - 1].now] else times
  }

  function PreviousChange(times: seq<U32>, k: nat): (t: U32)
    requires k <= |times|
  {
    if k == 0 then 0 else times[k - 1]
  }

  /** Consecutive changes, the start of the clock counting as one, are at least 30 ms apart. */
  predicate Spaced(times: seq<U32>) {
    forall k | 0 <= k < |times| :: Elapsed(times[k], PreviousChange(times, k)) >= DEBOUNCE_MS
  }

  lemma SingleKeepsLevel(id: Button, b: ButtonState, bothPrev: bool, now: U32)
    ensures var b' := SingleStep(id, b, bothPrev, now).0; b'.hw == b.hw && b'.lastChange == b.lastChange
  {
  }

  lemma StepChange(s: State, i: Input, id: Button)
    requires id != Both
    ensures var (b, b') := (Of(s, id), Of(Step(s, i).0, id));
            if b'.hw == b.hw then b'.lastChange == b.lastChange
            else b'.lastChange == i.now && Elapsed(i.now, b.lastChange) >= DEBOUNCE_MS
  {
    hide SingleStep, BothStep, Elapsed;
    var l, r := Debounce(s.left, i.left, i.now), Debounce(s.right, i.right, i.now);
    SingleKeepsLevel(Left, l, l.prevHw && r.prevHw, i.now);
    SingleKeepsLevel(Right, r, l.prevHw && r.prevHw, i.now);
  }

  lemma RunUnfolds(s: State, ins: seq<Input>)
    requires ins != []
    ensures Run(s, ins).0 == Step(Run(s, ins[..|ins| - 1]).0, ins[|ins| - 1]).0
  {
  }

  lemma NothingRuns(s: State)
    ensures Run(s, []).0 == s
  {
  }

  /** Accepted level changes of a button are debounced, over every run and whatever the clock does. */
  lemma {:induction false} ChangesAreSpaced(leftPressed: bool, rightPressed: bool, ins: seq<Input>, id: Button)
    requires id != Both
    ensures var s := Initial(leftPressed, rightPressed);
            var times := ChangeTimes(s, ins, id);
            Spaced(times) && Of(Run(s, ins).0, id).lastChange == PreviousChange(times, |times|)
  {
    hide Run, Step, Elapsed;
    if ins == [] {
      NothingRuns(Initial(leftPressed, rightPressed));
    } else {
      var s, before := Initial(leftPressed, rightPressed), ins[..|ins| - 1];
      RunUnfolds(s, ins);
      ChangesAreSpaced(leftPressed, rightPressed, before, id);
      StepChange(Run(s, before).0, ins[|ins| - 1], id);
      var times, times' := ChangeTimes(s, before, id), ChangeTimes(s, ins, id);
      assert forall k | 0 <= k < |times| ::
          times'[k] == times[k] && PreviousChange(times', k) == PreviousChange(times, k);
    }
  }

  lemma ChangeTimesGrow(s: State, ins: seq<Input>, id: Button)
    requires id != Both && ins != []
    ensures var times := ChangeTimes(s, ins[..|ins| - 1], id);
            ChangeTimes(s, ins, id) == times || ChangeTimes(s, ins, id) == times + [LastTime(ins)]
  {
    hide Run, Of;
  }

  /** On a clock that does not wrap, accepted level changes of a button are at least 30 ms apart. */
  lemma {:induction false} ChangesAreSpacedInTime(leftPressed: bool, rightPressed: bool, ins: seq<Input>, id: Button)
    requires id != Both && Monotone(ins)
    ensures var times := ChangeTimes(Initial(leftPressed, rightPressed), ins, id);
            forall k | 0 <= k < |times| :: PreviousChange(times, k) + DEBOUNCE_MS <= times[k] <= LastTime(ins)
  {
    if ins != [] {
      hide ChangeTimes;
      var s, before := Initial(leftPressed, rightPressed), ins[..|ins| - 1];
      ChangesAreSpacedInTime(leftPressed, rightPressed, before, id);
      ChangesAreSpaced(leftPressed, rightPressed, ins, id);
      ChangeTimesGrow(s, ins, id);
      var times, times' := ChangeTimes(s, before, id), ChangeTimes(s, ins, id);
      assert LastTime(before) <= LastTime(ins);
      forall k | 0 <= k < |times'|
        ensures PreviousChange(times', k) + DEBOUNCE_MS <= times'[k] <= LastTime(ins)
      {
        if k < |times| {
          assert times'[k] == times[k] && PreviousChange(times', k) == PreviousChange(times, k);
        } else {
          assert Elapsed(times'[k], PreviousChange(times', k)) >= DEBOUNCE_MS;
        }
      }
    }
  }
}
