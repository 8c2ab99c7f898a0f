/** The button driver together with the task that takes events from its queue. */
module ButtonConsumer {
  import opened Buttons
  import opened ButtonDriver

  datatype Op = Tick(input: Input) | Take

  /** The driver, the events ever queued, the events ever taken, and the updates since the queue was last empty. */
  datatype World = World(state: State, queue: seq<Event>, emitted: seq<Event>, taken: seq<Event>, backlog: nat)

  function Start(leftPressed: bool, rightPressed: bool): (w: World) {
    World(Initial(leftPressed, rightPressed), [], [], [], 0)
  }

  function Next(w: World, op: Op): (r: World) {
    match op
    case Tick(i) =>
      var (state, events) := Step(w.state, i);
      var queue := PushedAll(w.queue, events);
      World(state, queue, w.emitted + events, w.taken, if queue == [] then 0 else w.backlog + 1)
    case Take =>
      if w.queue == [] then w
      else World(w.state, w.queue[1..], w.emitted, w.taken + [w.queue[0]], if |w.queue| == 1 then 0 else w.backlog)
  }

  function After(w: World, ops: seq<Op>): (r: World) {
    if ops == [] then w else Next(After(w, ops[..|ops| - 1]), ops[|ops| - 1])
  }

  /** The queue always holds the newest events, oldest first, and never more than eight. */
  predicate HoldsNewest(w: World) {
    && Inv(w.state)
    && |w.queue| <= CAPACITY
    && |w.queue| <= |w.emitted|
    && w.queue == w.emitted[|w.emitted| - |w.queue|..]
  }

  lemma NextHoldsNewest(w: World, op: Op)
    requires HoldsNewest(w)
    ensures HoldsNewest(Next(w, op))
  {
    hide Step, Inv, PushedAll;
    match op
    case Take =>
    case Tick(i) =>
      StepKeepsInv(w.state, i);
      var events := Step(w.state, i).1;
      if events == [] {
        PushNone(w.queue);
        assert w.emitted + events == w.emitted;
      } else {
        assert events == [events[0]];
        PushOne(w.queue, events[0]);
        SuffixPush(w.emitted, w.queue, events[0]);
      }
  }

  lemma SuffixPush(emitted: seq<Event>, queue: seq<Event>, e: Event)
    requires |queue| <= CAPACITY && |queue| <= |emitted| && queue == emitted[|emitted| - |queue|..]
    ensures var all, q := emitted + [e], Pushed(queue, e);
            |q| <= CAPACITY && |q| <= |all| && q == all[|all| - |q|..]
  {
  }

  lemma PushNone(q: seq<Event>)
    ensures PushedAll(q, []) == q
  {
  }

  lemma {:induction false} QueueHoldsNewest(leftPressed: bool, rightPressed: bool, ops: seq<Op>)
    ensures HoldsNewest(After(Start(leftPressed, rightPressed), ops))
  {
    if ops != [] {
      QueueHoldsNewest(leftPressed, rightPressed, ops[..|ops| - 1]);
      NextHoldsNewest(After(Start(leftPressed, rightPressed), ops[..|ops| - 1]), ops[|ops| - 1]);
    }
  }

  /** The consumer empties the queue at least once in every eight updates. */
  predicate Prompt(leftPressed: bool, rightPressed: bool, ops: seq<Op>) {
    forall k | 0 <= k <= |ops| :: After(Start(leftPressed, rightPressed), ops[..k]).backlog <= CAPACITY
  }

  /** Nothing is lost or reordered, and the queue is no longer than the backlog. */
  predicate Lossless(w: World) {
    Inv(w.state) && w.taken + w.queue == w.emitted && |w.queue| <= w.backlog
  }

  lemma NextIsLossless(w: World, op: Op)
    requires Lossless(w) && Next(w, op).backlog <= CAPACITY
    ensures Lossless(Next(w, op))
  {
    hide Step, Inv, PushedAll;
    match op
    case Take =>
      if w.queue != [] { assert w.taken + [w.queue[0]] + w.queue[1..] == w.taken + w.queue; }
    case Tick(i) =>
      StepKeepsInv(w.state, i);
      var events := Step(w.state, i).1;
      PushNone(w.queue);
      if events != [] {
        assert events == [events[0]];
        PushOne(w.queue, events[0]);
        assert w.taken + (w.queue + events) == w.taken + w.queue + events;
      }
  }

  /** A prompt consumer gets every event ever queued, in order: what it took and what still waits is all there was. */
  lemma {:induction false} PromptConsumerLosesNothing(leftPressed: bool, rightPressed: bool, ops: seq<Op>)
    requires Prompt(leftPressed, rightPressed, ops)
    ensures Lossless(After(Start(leftPressed, rightPressed), ops))
  {
    if ops != [] {
      hide Next;
      var before := ops[..|ops| - 1];
      assert forall k | 0 <= k <= |before| :: before[..k] == ops[..k];
      assert ops[..|ops|] == ops;
      PromptConsumerLosesNothing(leftPressed, rightPressed, before);
      NextIsLossless(After(Start(leftPressed, rightPressed), before), ops[|ops| - 1]);
    }
  }
}
