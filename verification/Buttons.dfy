/**
 * The two-button input logic as a step function: debouncing, single and
 * both-button modes, long presses.  Times are 32-bit milliseconds and
 * differences wrap, as they do in the firmware.
 */
module Buttons {
  import opened Prelude

  const DEBOUNCE_MS := 30
  const LONG_PRESS_MS: U32 := 500
  const BOTH_WINDOW_MS := 50

  datatype Button = Left | Right | Both

  datatype Kind = ShortPress | LongStart | LongStop

  datatype Event = Event(button: Button, kind: Kind, timestamp: U32, duration: U32)

  datatype ButtonState = ButtonState(hw: bool, prevHw: bool, lastChange: U32, pressStart: U32, longSent: bool)

  datatype BothState = BothState(active: bool, pressStart: U32, longSent: bool)

  datatype State = State(left: ButtonState, right: ButtonState, both: BothState)

  /** What one update reads: the clock and the raw level of each button. */
  datatype Input = Input(now: U32, left: bool, right: bool)

  /** Unsigned 32-bit subtraction. */
  function Elapsed(now: U32, since: U32): (d: U32) {
    if now >= since then now - since else now - since + 0x1_0000_0000
  }

  function Initial(leftPressed: bool, rightPressed: bool): (s: State) {
    State(ButtonState(leftPressed, leftPressed, 0, 0, false),
          ButtonState(rightPressed, rightPressed, 0, 0, false),
          BothState(false, 0, false))
  }

  /** A level change is taken over only when the last accepted change is old enough. */
  function Debounce(b: ButtonState, pressed: bool, now: U32): (r: ButtonState) {
    if pressed != b.hw && Elapsed(now, b.lastChange) >= DEBOUNCE_MS
    then b.(lastChange := now, hw := pressed)
    else b
  }

  function BothStep(b: BothState, bothPressed: bool, now: U32): (r: (BothState, seq<Event>)) {
    if bothPressed && !b.active then
      (BothState(true, now, false), [])
    else if b.active && bothPressed && !b.longSent && Elapsed(now, b.pressStart) >= LONG_PRESS_MS then
      (b.(longSent := true), [Event(Both, LongStart, now, LONG_PRESS_MS)])
    else if b.active && !bothPressed then
      (b.(active := false), [Event(Both, if b.longSent then LongStop else ShortPress, now, Elapsed(now, b.pressStart))])
    else
      (b, [])
  }

  function SingleStep(id: Button, b: ButtonState, bothPrev: bool, now: U32): (r: (ButtonState, seq<Event>)) {
    if b.hw && !b.prevHw && !bothPrev then
      (b.(pressStart := now, longSent := false), [])
    else if b.hw && b.prevHw && b.pressStart > 0 then
      if !b.longSent && Elapsed(now, b.pressStart) >= LONG_PRESS_MS
      then (b.(longSent := true), [Event(id, LongStart, now, LONG_PRESS_MS)])
      else (b, [])
    else if !b.hw && b.prevHw && b.pressStart > 0 then
      var duration := Elapsed(now, b.pressStart);
      (b.(pressStart := 0, longSent := false),
       if duration >= BOTH_WINDOW_MS
       then [Event(id, if b.longSent then LongStop else ShortPress, now, duration)]
       else [])
    else
      (b, [])
  }

  /** One call of `button_update_state`: the new state and the events it queues, in order. */
  function Step(s: State, i: Input): (r: (State, seq<Event>)) {
    Decide(Debounce(s.left, i.left, i.now), Debounce(s.right, i.right, i.now), s.both, i.now)
  }

  /** The part of a step after debouncing. */
  function Decide(l: ButtonState, r: ButtonState, b: BothState, now: U32): (q: (State, seq<Event>)) {
    var bothPressed, bothPrev := l.hw && r.hw, l.prevHw && r.prevHw;
    var (both, bothEvents) := BothStep(b, bothPressed, now);
    if bothPressed && !b.active then
      (State(l.(pressStart := 0, prevHw := l.hw), r.(pressStart := 0, prevHw := r.hw), both), bothEvents)
    else if both.active || bothPressed then
      (State(l.(prevHw := l.hw), r.(prevHw := r.hw), both), bothEvents)
    else
      var (l', leftEvents) := SingleStep(Left, l, bothPrev, now);
      var (r', rightEvents) := SingleStep(Right, r, bothPrev, now);
      (State(l'.(prevHw := l.hw), r'.(prevHw := r.hw), both), bothEvents + leftEvents + rightEvents)
  }

  /** The state after a run of updates, and all the events it queued. */
  function Run(s: State, ins: seq<Input>): (r: (State, seq<Event>)) {
    if ins == [] then (s, [])
    else
      var (before, events) := Run(s, ins[..|ins| - 1]);
      var (after, more) := Step(before, ins[|ins| - 1]);
      (after, events + more)
  }

  // ----- what every run keeps

  /** A running press timer belongs to the one button that is down, outside both-button mode. */
  predicate Timed(b: ButtonState, other: ButtonState, both: BothState) {
    b.pressStart > 0 ==> b.hw && !other.hw && !both.active
  }

  predicate Inv(s: State) {
    && s.left.hw == s.left.prevHw && s.right.hw == s.right.prevHw
    && (s.both.active ==> s.left.hw && s.right.hw)
    && Timed(s.left, s.right, s.both)
    && Timed(s.right, s.left, s.both)
  }

  lemma StepKeepsInv(s: State, i: Input)
    requires Inv(s)
    ensures Inv(Step(s, i).0)
    ensures |Step(s, i).1| <= 1
  {
  }

  lemma {:induction false} RunKeepsInv(leftPressed: bool, rightPressed: bool, ins: seq<Input>)
    ensures Inv(Run(Initial(leftPressed, rightPressed), ins).0)
  {
    if ins != [] {
      RunKeepsInv(leftPressed, rightPressed, ins[..|ins| - 1]);
      StepKeepsInv(Run(Initial(leftPressed, rightPressed), ins[..|ins| - 1]).0, ins[|ins| - 1]);
    }
  }
}
