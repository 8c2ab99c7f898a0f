/** One press of one button from beginning to end: which events it produces. */
module ButtonPress {
  import opened Prelude
  import opened Buttons
  import opened ButtonTheorems

  /** An update in which only `id` is down. */
  function Down(id: Button, now: U32): (i: Input) {
    Input(now, id == Left, id == Right)
  }

  function Holds(id: Button, times: seq<U32>): (r: seq<Input>)
    ensures |r| == |times|
  {
    if times == [] then [] else Holds(id, times[..|times| - 1]) + [Down(id, times[|times| - 1])]
  }

  /** The first update that finds the press at least 500 ms old. */
  function FirstLong(start: U32, times: seq<U32>): (r: Option<U32>) {
    if times == [] then None
    else
      match FirstLong(start, times[..|times| - 1])
      case Some(t) => Some(t)
      case None =>
        if Elapsed(times[|times| - 1], start) >= LONG_PRESS_MS then Some(times[|times| - 1]) else None
  }

  /** Nothing is down and nothing is being timed. */
  predicate Idle(s: State) {
    Inv(s) && !s.left.hw && !s.right.hw
  }

  function With(s: State, id: Button, b: ButtonState): (r: State)
    requires id != Both
  {
    if id == Left then State(b, s.right, s.both) else State(s.left, b, s.both)
  }

  /** The state while only `id` is down since `start`. */
  function Held(s: State, id: Button, start: U32, longSent: bool): (r: State)
    requires id != Both
  {
    With(s, id, ButtonState(true, true, start, start, longSent))
  }

  lemma PressBegins(s: State, id: Button, start: U32)
    requires Idle(s) && id != Both && Elapsed(start, Of(s, id).lastChange) >= DEBOUNCE_MS
    ensures Step(s, Down(id, start)) == (Held(s, id, start, false), [])
  {
    assert Step(s, Down(id, start)).1 == [];
  }

  lemma PressContinues(s: State, id: Button, start: U32, longSent: bool, now: U32)
    requires Idle(s) && id != Both
    ensures Step(Held(s, id, start, longSent), Down(id, now)) ==
            if start > 0 && !longSent && Elapsed(now, start) >= LONG_PRESS_MS
            then (Held(s, id, start, true), [Event(id, LongStart, now, LONG_PRESS_MS)])
            else (Held(s, id, start, longSent), [])
  {
    var events := Step(Held(s, id, start, longSent), Down(id, now)).1;
    if start > 0 && !longSent && Elapsed(now, start) >= LONG_PRESS_MS {
      assert events == [Event(id, LongStart, now, LONG_PRESS_MS)];
    } else {
      assert events == [];
    }
  }

  lemma PressEnds(s: State, id: Button, start: U32, longSent: bool, now: U32)
    requires Idle(s) && id != Both && Elapsed(now, start) >= DEBOUNCE_MS
    ensures Step(Held(s, id, start, longSent), Input(now, false, false)).1 ==
            if start > 0 && Elapsed(now, start) >= BOTH_WINDOW_MS
            then [Event(id, if longSent then LongStop else ShortPress, now, Elapsed(now, start))]
            else []
  {
  }

  /** The START of a press, when some update sees it long. */
  function StartEvents(id: Button, start: U32, times: seq<U32>): (r: seq<Event>) {
    if start > 0 && FirstLong(start, times).Some?
    then [Event(id, LongStart, FirstLong(start, times).value, LONG_PRESS_MS)]
    else []
  }

  lemma {:induction false} PressWhileHeld(s: State, id: Button, start: U32, times: seq<U32>)
    requires Idle(s) && id != Both && Elapsed(start, Of(s, id).lastChange) >= DEBOUNCE_MS
    ensures Run(s, [Down(id, start)] + Holds(id, times)) ==
            (Held(s, id, start, start > 0 && FirstLong(start, times).Some?), StartEvents(id, start, times))
  {
    hide Step, Idle, Held, Down;
    var ins := [Down(id, start)] + Holds(id, times);
    if times == [] {
      PressBegins(s, id, start);
      assert ins[..0] == [];
    } else {
      var times', now := times[..|times| - 1], times[|times| - 1];
      PressWhileHeld(s, id, start, times');
      assert ins[..|ins| - 1] == [Down(id, start)] + Holds(id, times');
      assert ins[|ins| - 1] == Down(id, now);
      PressContinues(s, id, start, start > 0 && FirstLong(start, times').Some?, now);
      var more := Step(Run(s, ins[..|ins| - 1]).0, Down(id, now)).1;
      assert Run(s, ins).1 == StartEvents(id, start, times') + more;
      assert Run(s, ins).0 == Held(s, id, start, start > 0 && FirstLong(start, times).Some?);
      assert StartEvents(id, start, times) == StartEvents(id, start, times') + more;
    }
  }

  /** All events of a press that begins at `start`, is seen held at `times` and ends at `stop`. */
  function PressReport(id: Button, start: U32, times: seq<U32>, stop: U32): (r: seq<Event>) {
    if start == 0 || Elapsed(stop, start) < BOTH_WINDOW_MS then StartEvents(id, start, times)
    else if FirstLong(start, times).Some?
    then StartEvents(id, start, times) + [Event(id, LongStop, stop, Elapsed(stop, start))]
    else [Event(id, ShortPress, stop, Elapsed(stop, start))]
  }

  /**
   * A press of one button, from idle, reports START and STOP if some update while it is held sees it 500 ms old,
   * and one short press with its full duration otherwise; shorter than 50 ms it reports nothing.
   */
  lemma PressReports(s: State, id: Button, start: U32, times: seq<U32>, stop: U32)
    requires Idle(s) && id != Both
    requires Elapsed(start, Of(s, id).lastChange) >= DEBOUNCE_MS && Elapsed(stop, start) >= DEBOUNCE_MS
    ensures Run(s, [Down(id, start)] + Holds(id, times) + [Input(stop, false, false)]).1 ==
            PressReport(id, start, times, stop)
  {
    hide Step, Idle, Held, Down, Elapsed;
    var ins := [Down(id, start)] + Holds(id, times) + [Input(stop, false, false)];
    assert ins[..|ins| - 1] == [Down(id, start)] + Holds(id, times);
    PressWhileHeld(s, id, start, times);
    PressEnds(s, id, start, start > 0 && FirstLong(start, times).Some?, stop);
  }

  /** From idle, a press of one button of at least 50 ms goes unreported exactly when it begins as the clock reads 0. */
  lemma UnreportedPress(s: State, id: Button, start: U32, times: seq<U32>, stop: U32)
    requires Idle(s) && id != Both
    requires Elapsed(start, Of(s, id).lastChange) >= DEBOUNCE_MS && Elapsed(stop, start) >= BOTH_WINDOW_MS
    ensures Run(s, [Down(id, start)] + Holds(id, times) + [Input(stop, false, false)]).1 == [] <==> start == 0
  {
    PressReports(s, id, start, times, stop);
  }

  /** After a reported press the clock wraps, and a second one, held for a second from reading 0 on, goes unreported. */
  lemma PressAtZeroGoesUnreported()
    ensures Run(Initial(false, false), [Down(Left, 100), Input(200, false, false), Down(Left, 0), Down(Left, 900),
                                        Input(1000, false, false)]).1
         == [Event(Left, ShortPress, 200, 100)]
  {
    var s := Initial(false, false);
    var a, b, c := Down(Left, 100), Input(200, false, false), Down(Left, 0);
    var d, e := Down(Left, 900), Input(1000, false, false);
    assert [a, b, c, d, e][..4] == [a, b, c, d] && [a, b, c, d][..3] == [a, b, c];
    assert [a, b, c][..2] == [a, b] && [a, b][..1] == [a] && [a][..0] == [];
    assert Run(s, [a]).1 == [];
    assert Run(s, [a, b]).1 == [Event(Left, ShortPress, 200, 100)];
    assert Run(s, [a, b, c]).1 == [Event(Left, ShortPress, 200, 100)];
    assert Run(s, [a, b, c, d]).1 == [Event(Left, ShortPress, 200, 100)];
  }

  // ----- both buttons

  function BothHolds(times: seq<U32>): (r: seq<Input>)
    ensures |r| == |times|
  {
    if times == [] then [] else BothHolds(times[..|times| - 1]) + [Input(times[|times| - 1], true, true)]
  }

  /** The state while both buttons are down since `start`. */
  function BothHeld(s: State, start: U32, longSent: bool): (r: State) {
    State(ButtonState(true, true, start, 0, s.left.longSent),
          ButtonState(true, true, start, 0, s.right.longSent),
          BothState(true, start, longSent))
  }

  lemma BothPressBegins(s: State, start: U32)
    requires Idle(s)
    requires Elapsed(start, s.left.lastChange) >= DEBOUNCE_MS && Elapsed(start, s.right.lastChange) >= DEBOUNCE_MS
    ensures Step(s, Input(start, true, true)) == (BothHeld(s, start, false), [])
  {
  }

  lemma BothPressContinues(s: State, start: U32, longSent: bool, now: U32)
    ensures Step(BothHeld(s, start, longSent), Input(now, true, true)) ==
            if !longSent && Elapsed(now, start) >= LONG_PRESS_MS
            then (BothHeld(s, start, true), [Event(Both, LongStart, now, LONG_PRESS_MS)])
            else (BothHeld(s, start, longSent), [])
  {
  }

  lemma BothPressEnds(s: State, start: U32, longSent: bool, end: Input)
    requires !(end.left && end.right) && Elapsed(end.now, start) >= DEBOUNCE_MS
    ensures Step(BothHeld(s, start, longSent), end).1 ==
            [Event(Both, if longSent then LongStop else ShortPress, end.now, Elapsed(end.now, start))]
  {
    var events := Step(BothHeld(s, start, longSent), end).1;
    assert |events| == 1;
  }

  function BothStartEvents(start: U32, times: seq<U32>): (r: seq<Event>) {
    if FirstLong(start, times).Some?
    then [Event(Both, LongStart, FirstLong(start, times).value, LONG_PRESS_MS)]
    else []
  }

  lemma {:induction false} BothWhileHeld(s: State, start: U32, times: seq<U32>)
    requires Idle(s)
    requires Elapsed(start, s.left.lastChange) >= DEBOUNCE_MS && Elapsed(start, s.right.lastChange) >= DEBOUNCE_MS
    ensures Run(s, [Input(start, true, true)] + BothHolds(times)) ==
            (BothHeld(s, start, FirstLong(start, times).Some?), BothStartEvents(start, times))
  {
    hide Step, Idle, BothHeld, Elapsed;
    var ins := [Input(start, true, true)] + BothHolds(times);
    if times == [] {
      BothPressBegins(s, start);
      assert ins[..0] == [];
    } else {
      var times', now := times[..|times| - 1], times[|times| - 1];
      BothWhileHeld(s, start, times');
      assert ins[..|ins| - 1] == [Input(start, true, true)] + BothHolds(times');
      assert ins[|ins| - 1] == Input(now, true, true);
      BothPressContinues(s, start, FirstLong(start, times').Some?, now);
      var more := Step(Run(s, ins[..|ins| - 1]).0, ins[|ins| - 1]).1;
      assert Run(s, ins).1 == BothStartEvents(start, times') + more;
      assert Run(s, ins).0 == BothHeld(s, start, FirstLong(start, times).Some?);
      assert BothStartEvents(start, times) == BothStartEvents(start, times') + more;
    }
  }

  /**
   * A press of both buttons always reports: START and STOP if some update sees it 500 ms old, else one short press,
   * and never a single-button event.
   */
  lemma BothPressReports(s: State, start: U32, times: seq<U32>, end: Input)
    requires Idle(s) && !(end.left && end.right)
    requires Elapsed(start, s.left.lastChange) >= DEBOUNCE_MS && Elapsed(start, s.right.lastChange) >= DEBOUNCE_MS
    requires Elapsed(end.now, start) >= DEBOUNCE_MS
    ensures Run(s, [Input(start, true, true)] + BothHolds(times) + [end]).1 ==
            BothStartEvents(start, times)
            + [Event(Both, if FirstLong(start, times).Some? then LongStop else ShortPress,
                     end.now, Elapsed(end.now, start))]
  {
    hide Step, Idle, BothHeld, Elapsed;
    var ins := [Input(start, true, true)] + BothHolds(times) + [end];
    assert ins[..|ins| - 1] == [Input(start, true, true)] + BothHolds(times);
    BothWhileHeld(s, start, times);
    BothPressEnds(s, start, FirstLong(start, times).Some?, end);
  }
}
