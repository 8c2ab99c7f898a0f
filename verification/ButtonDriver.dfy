/**
 * The button driver as the firmware keeps it: static state and an eight-slot
 * ring buffer, changed in place by every call.
 */
module ButtonDriver {
  import opened Prelude
  import opened Buttons

  const CAPACITY: nat := 8

  /** Appending to a full queue drops its oldest event. */
  function Pushed(q: seq<Event>, e: Event): (r: seq<Event>)
    ensures |q| <= CAPACITY ==> |r| <= CAPACITY
  {
    (if |q| >= CAPACITY then q[1..] else q) + [e]
  }

  function PushedAll(q: seq<Event>, events: seq<Event>): (r: seq<Event>) {
    if events == [] then q else Pushed(PushedAll(q, events[..|events| - 1]), events[|events| - 1])
  }

  lemma PushOne(q: seq<Event>, e: Event)
    ensures PushedAll(q, [e]) == Pushed(q, e)
    ensures PushedAll(q, []) == q
  {
    assert [e][..0] == [];
  }

  lemma {:induction false} PushInTurn(q: seq<Event>, a: seq<Event>, b: seq<Event>)
    ensures PushedAll(q, a + b) == PushedAll(PushedAll(q, a), b)
  {
    if b == [] {
      assert a + b == a;
    } else {
      PushInTurn(q, a, b[..|b| - 1]);
      assert (a + b)[..|a + b| - 1] == a + b[..|b| - 1];
    }
  }

  lemma PushThree(q: seq<Event>, a: seq<Event>, b: seq<Event>, c: seq<Event>)
    ensures PushedAll(PushedAll(PushedAll(q, a), b), c) == PushedAll(q, a + b + c)
  {
    PushInTurn(q, a, b);
    PushInTurn(q, a + b, c);
  }

  function Slot(tail: nat, k: nat): (i: nat)
    ensures i < CAPACITY
  {
    (tail + k) % CAPACITY
  }

  lemma WrapTwice(a: nat, b: nat)
    ensures (a % CAPACITY + b) % CAPACITY == (a + b) % CAPACITY
  {
    assert a + b == CAPACITY * (a / CAPACITY) + (a % CAPACITY + b);
  }

  lemma SlotMoves(tail: nat, k: nat)
    ensures (tail + 1) % CAPACITY == Slot(tail, 1)
    ensures Slot(Slot(tail, 1), k) == Slot(tail, k + 1)
    ensures (Slot(tail, k) + 1) % CAPACITY == Slot(tail, k + 1)
  {
    WrapTwice(tail + 1, k);
    WrapTwice(tail + k, 1);
    assert tail + 1 + k == tail + (k + 1);
  }

  /** The `count` slots from `tail` on, wrapping at the end of the buffer. */
  function Ring(slots: seq<Event>, tail: nat, count: nat): (q: seq<Event>)
    requires |slots| == CAPACITY && tail < CAPACITY && count <= CAPACITY
    ensures |q| == count
  {
    seq(count, k requires 0 <= k < count => slots[Slot(tail, k)])
  }

  lemma RingDrops(slots: seq<Event>, tail: nat, count: nat)
    requires |slots| == CAPACITY && tail < CAPACITY && 0 < count <= CAPACITY
    ensures Ring(slots, tail, count)[0] == slots[tail]
    ensures Ring(slots, Slot(tail, 1), count - 1) == Ring(slots, tail, count)[1..]
  {
    assert Slot(tail, 0) == tail;
    forall k | 0 <= k < count - 1
      ensures Slot(Slot(tail, 1), k) == Slot(tail, k + 1)
    {
      WrapTwice(tail + 1, k);
    }
  }

  lemma RingAppends(slots: seq<Event>, tail: nat, count: nat, e: Event)
    requires |slots| == CAPACITY && tail < CAPACITY && count < CAPACITY
    ensures Ring(slots[Slot(tail, count) := e], tail, count + 1) == Ring(slots, tail, count) + [e]
  {
    assert forall k | 0 <= k < count :: Slot(tail, k) != Slot(tail, count);
  }

  /** The three ways a step can go, after debouncing. */
  lemma DecideCases(l: ButtonState, r: ButtonState, b: BothState, now: U32)
    ensures var bothPressed, bothPrev := l.hw && r.hw, l.prevHw && r.prevHw;
            var (both, bothEvents) := BothStep(b, bothPressed, now);
            var (l', leftEvents) := SingleStep(Left, l, bothPrev, now);
            var (r', rightEvents) := SingleStep(Right, r, bothPrev, now);
            Decide(l, r, b, now) ==
            if !both.active && !bothPressed then
              (State(l'.(prevHw := l.hw), r'.(prevHw := r.hw), both), bothEvents + leftEvents + rightEvents)
            else if bothPressed && !b.active then
              (State(l.(pressStart := 0).(prevHw := l.hw), r.(pressStart := 0).(prevHw := r.hw), both), bothEvents)
            else
              (State(l.(prevHw := l.hw), r.(prevHw := r.hw), both), bothEvents)
  {
  }

  class EventSlot {
    var event: Event

    constructor (e: Event)
      ensures event == e
    {
      event := e;
    }
  }

  class Driver {
    const buttons: array<ButtonState>
    var both: BothState
    const events: array<Event>
    var head: nat
    var tail: nat
    var count: nat

    ghost predicate Valid()
      reads this
    {
      && buttons.Length == 2 && events.Length == CAPACITY
      && head < CAPACITY && tail < CAPACITY && count <= CAPACITY
      && head == Slot(tail, count)
    }

    /** The input logic's state, without the queue. */
    ghost function Logic(): State
      requires Valid()
      reads this, buttons
    {
      State(buttons[0], buttons[1], both)
    }

    /** The queued events, oldest first. */
    ghost function Queue(): (q: seq<Event>)
      requires Valid()
      reads this, events
      ensures |q| == count
    {
      Ring(events[..], tail, count)
    }

    constructor (leftPressed: bool, rightPressed: bool)
      ensures Valid() && fresh(buttons) && fresh(events)
      ensures Logic() == Initial(leftPressed, rightPressed) && Queue() == []
    {
      buttons := new ButtonState[2](_ => ButtonState(false, false, 0, 0, false));
      events := new Event[CAPACITY](_ => Event(Left, ShortPress, 0, 0));
      both := BothState(false, 0, false);
      head, tail, count := 0, 0, 0;
      new;
      for id := 0 to 2
        invariant Valid() && both == BothState(false, 0, false) && count == 0 && buttons.Length == 2
        invariant id > 0 ==> buttons[0] == ButtonState(leftPressed, leftPressed, 0, 0, false)
        invariant id > 1 ==> buttons[1] == ButtonState(rightPressed, rightPressed, 0, 0, false)
      {
        var pressed := if id == 0 then leftPressed else rightPressed;
        buttons[id] := ButtonState(pressed, pressed, 0, 0, false);
      }
    }

    method QueueEvent(button: Button, kind: Kind, timestamp: U32, duration: U32)
      requires Valid()
      modifies this`head, this`tail, this`count, events
      ensures Valid()
      ensures Queue() == Pushed(old(Queue()), Event(button, kind, timestamp, duration))
    {
      hide Ring, Slot;
      if count >= CAPACITY {
        SlotMoves(tail, count - 1);
        RingDrops(events[..], tail, count);
        tail := (tail + 1) % CAPACITY;
        count := count - 1;
      }
      SlotMoves(tail, count);
      RingAppends(events[..], tail, count, Event(button, kind, timestamp, duration));
      events[head] := Event(button, kind, timestamp, duration);
      head := (head + 1) % CAPACITY;
      count := count + 1;
    }

    method GetEvent(out: EventSlot?) returns (ok: bool)
      requires Valid()
      modifies this`tail, this`count, out
      ensures Valid()
      ensures ok <==> out != null && old(Queue()) != []
      ensures ok ==> out.event == old(Queue())[0] && Queue() == old(Queue())[1..]
      ensures !ok ==> Queue() == old(Queue())
    {
      hide Ring, Slot;
      if out == null || count == 0 { return false; }
      SlotMoves(tail, count - 1);
      RingDrops(events[..], tail, count);
      out.event := events[tail];
      tail := (tail + 1) % CAPACITY;
      count := count - 1;
      ok := true;
    }

    method ReadHardwareState(now: U32, leftPressed: bool, rightPressed: bool)
      requires Valid()
      modifies buttons
      ensures buttons[0] == Debounce(old(buttons[0]), leftPressed, now)
      ensures buttons[1] == Debounce(old(buttons[1]), rightPressed, now)
    {
      for id := 0 to 2
        invariant buttons[0] == if id > 0 then Debounce(old(buttons[0]), leftPressed, now) else old(buttons[0])
        invariant buttons[1] == if id > 1 then Debounce(old(buttons[1]), rightPressed, now) else old(buttons[1])
      {
        var pressed := if id == 0 then leftPressed else rightPressed;
        if pressed != buttons[id].hw {
          if Elapsed(now, buttons[id].lastChange) >= DEBOUNCE_MS {
            buttons[id] := buttons[id].(lastChange := now, hw := pressed);
          }
        }
      }
    }

    method HandleBoth(now: U32, bothPressed: bool) returns (any: bool)
      requires Valid()
      modifies this, events, buttons
      ensures Valid()
      ensures both == BothStep(old(both), bothPressed, now).0
      ensures Queue() == PushedAll(old(Queue()), BothStep(old(both), bothPressed, now).1)
      ensures any <==> BothStep(old(both), bothPressed, now).1 != []
      ensures bothPressed && !old(both.active) ==>
                buttons[0] == old(buttons[0]).(pressStart := 0) && buttons[1] == old(buttons[1]).(pressStart := 0)
      ensures !(bothPressed && !old(both.active)) ==> buttons[..] == old(buttons[..])
    {
      hide Ring, Pushed, PushedAll, Elapsed;
      any := false;
      ghost var q := Queue();
      PushOne(q, Event(Both, LongStart, now, LONG_PRESS_MS));
      if bothPressed && !both.active {
        both := BothState(true, now, false);
        buttons[0] := buttons[0].(pressStart := 0);
        buttons[1] := buttons[1].(pressStart := 0);
      } else if both.active && bothPressed && !both.longSent {
        if Elapsed(now, both.pressStart) >= LONG_PRESS_MS {
          both := both.(longSent := true);
          QueueEvent(Both, LongStart, now, LONG_PRESS_MS);
          any := true;
        }
      } else if both.active && !bothPressed {
        var duration := Elapsed(now, both.pressStart);
        PushOne(q, Event(Both, if both.longSent then LongStop else ShortPress, now, duration));
        if both.longSent {
          QueueEvent(Both, LongStop, now, duration);
        } else {
          QueueEvent(Both, ShortPress, now, duration);
        }
        both := both.(active := false);
        any := true;
      }
    }

    method HandleSingle(id: nat, now: U32, bothPrev: bool) returns (any: bool)
      requires Valid() && id < 2
      modifies this`head, this`tail, this`count, events, buttons
      ensures Valid()
      ensures var button := if id == 0 then Left else Right;
              && buttons[id] == SingleStep(button, old(buttons[id]), bothPrev, now).0
              && Queue() == PushedAll(old(Queue()), SingleStep(button, old(buttons[id]), bothPrev, now).1)
              && (any <==> SingleStep(button, old(buttons[id]), bothPrev, now).1 != [])
      ensures buttons[1 - id] == old(buttons[1 - id])
    {
      hide Ring, Pushed, PushedAll, Elapsed;
      any := false;
      var button := if id == 0 then Left else Right;
      var b := buttons[id];
      ghost var q := Queue();
      PushOne(q, Event(button, LongStart, now, LONG_PRESS_MS));
      if b.hw && !b.prevHw && !bothPrev {
        buttons[id] := b.(pressStart := now, longSent := false);
      } else if b.hw && b.prevHw && b.pressStart > 0 {
        if !b.longSent && Elapsed(now, b.pressStart) >= LONG_PRESS_MS {
          buttons[id] := b.(longSent := true);
          QueueEvent(button, LongStart, now, LONG_PRESS_MS);
          any := true;
        }
      } else if !b.hw && b.prevHw && b.pressStart > 0 {
        var duration := Elapsed(now, b.pressStart);
        if duration >= BOTH_WINDOW_MS {
          PushOne(q, Event(button, if b.longSent then LongStop else ShortPress, now, duration));
          if b.longSent {
            QueueEvent(button, LongStop, now, duration);
          } else {
            QueueEvent(button, ShortPress, now, duration);
          }
          any := true;
        }
        buttons[id] := b.(pressStart := 0, longSent := false);
      }
    }

    /** The loop over the two physical buttons. */
    method HandleSingles(now: U32, bothPrev: bool) returns (any: bool)
      requires Valid()
      modifies this`head, this`tail, this`count, events, buttons
      ensures Valid()
      ensures var (l, leftEvents) := SingleStep(Left, old(buttons[0]), bothPrev, now);
              var (r, rightEvents) := SingleStep(Right, old(buttons[1]), bothPrev, now);
              && buttons[0] == l && buttons[1] == r
              && Queue() == PushedAll(PushedAll(old(Queue()), leftEvents), rightEvents)
              && (any <==> leftEvents + rightEvents != [])
    {
      hide Ring, PushedAll, SingleStep, Slot;
      any := false;
      for id := 0 to 2
        invariant Valid()
        invariant buttons[0] == if id > 0 then SingleStep(Left, old(buttons[0]), bothPrev, now).0 else old(buttons[0])
        invariant buttons[1] == if id > 1 then SingleStep(Right, old(buttons[1]), bothPrev, now).0 else old(buttons[1])
        invariant id == 0 ==> Queue() == old(Queue()) && !any
        invariant id == 1 ==> Queue() == PushedAll(old(Queue()), SingleStep(Left, old(buttons[0]), bothPrev, now).1)
                              && (any <==> SingleStep(Left, old(buttons[0]), bothPrev, now).1 != [])
        invariant id == 2 ==>
            Queue() == PushedAll(PushedAll(old(Queue()), SingleStep(Left, old(buttons[0]), bothPrev, now).1),
                                 SingleStep(Right, old(buttons[1]), bothPrev, now).1)
                              && (any <==> SingleStep(Left, old(buttons[0]), bothPrev, now).1
                                           + SingleStep(Right, old(buttons[1]), bothPrev, now).1 != [])
      {
        var queued := HandleSingle(id, now, bothPrev);
        any := any || queued;
      }
    }

    /** Everything after debouncing, before the levels are stored as the previous ones. */
    method HandleButtons(now: U32) returns (any: bool)
      requires Valid()
      modifies this, events, buttons
      ensures Valid()
      ensures var (s, more) := Decide(old(buttons[0]), old(buttons[1]), old(both), now);
              && both == s.both
              && buttons[0].(prevHw := old(buttons[0].hw)) == s.left
              && buttons[1].(prevHw := old(buttons[1].hw)) == s.right
              && Queue() == PushedAll(old(Queue()), more)
              && (any <==> more != [])
    {
      hide Ring, PushedAll, BothStep, SingleStep, Slot, Decide;
      ghost var q, b, l, r := Queue(), both, buttons[0], buttons[1];
      var bothPressed := buttons[0].hw && buttons[1].hw;
      var bothPrev := buttons[0].prevHw && buttons[1].prevHw;
      any := HandleBoth(now, bothPressed);
      if !both.active && !bothPressed {
        var queued := HandleSingles(now, bothPrev);
        any := any || queued;
        PushThree(q, BothStep(b, bothPressed, now).1, SingleStep(Left, l, bothPrev, now).1,
                  SingleStep(Right, r, bothPrev, now).1);
      }
      DecideCases(l, r, b, now);
    }

    method UpdateState(now: U32, leftPressed: bool, rightPressed: bool) returns (any: bool)
      requires Valid()
      modifies this, events, buttons
      ensures Valid()
      ensures Logic() == Step(old(Logic()), Input(now, leftPressed, rightPressed)).0
      ensures Queue() == PushedAll(old(Queue()), Step(old(Logic()), Input(now, leftPressed, rightPressed)).1)
      ensures any <==> Step(old(Logic()), Input(now, leftPressed, rightPressed)).1 != []
    {
      hide Ring, PushedAll, Debounce, Slot, Decide;
      ReadHardwareState(now, leftPressed, rightPressed);
      var leftCurr, rightCurr := buttons[0].hw, buttons[1].hw;
      any := HandleButtons(now);
      buttons[0] := buttons[0].(prevHw := leftCurr);
      buttons[1] := buttons[1].(prevHw := rightCurr);
    }
  }
}
