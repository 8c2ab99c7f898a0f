/** What the event stream of the two-button driver looks like, over every run. */
module ButtonTheorems {
  import opened Buttons

  function KindsOf(events: seq<Event>, b: Button): (r: seq<Kind>) {
    if events == [] then []
    else
      var init, last := events[..|events| - 1], events[|events| - 1];
      if last.button == b then KindsOf(init, b) + [last.kind] else KindsOf(init, b)
  }

  // ----- grammars

  /** (SHORT | START STOP)*, possibly followed by one START still open. */
  predicate BothGrammar(w: seq<Kind>) {
    || w == []
    || (w[0] == ShortPress && BothGrammar(w[1..]))
    || w == [LongStart]
    || (|w| >= 2 && w[0] == LongStart && w[1] == LongStop && BothGrammar(w[2..]))
  }

  predicate EndsInStart(w: seq<Kind>) {
    w != [] && w[|w| - 1] == LongStart
  }

  /** A STOP comes only right after a START. */
  predicate SingleGrammar(w: seq<Kind>) {
    forall i | 0 <= i < |w| && w[i] == LongStop :: i > 0 && w[i - 1] == LongStart
  }

  lemma {:induction false} BothGrammarExtends(w: seq<Kind>, k: Kind)
    requires BothGrammar(w) && (k == LongStop <==> EndsInStart(w))
    ensures BothGrammar(w + [k])
  {
    if w == [] {
      assert (w + [k])[1..] == [];
    } else if w[0] == ShortPress {
      BothGrammarExtends(w[1..], k);
      assert (w + [k])[1..] == w[1..] + [k];
    } else if w == [LongStart] {
      assert (w + [k])[2..] == [];
    } else {
      BothGrammarExtends(w[2..], k);
      assert (w + [k])[2..] == w[2..] + [k];
    }
  }

  lemma SingleGrammarExtends(w: seq<Kind>, k: Kind)
    requires SingleGrammar(w) && (k == LongStop ==> EndsInStart(w))
    ensures SingleGrammar(w + [k])
  {
  }

  lemma EndsAfter(w: seq<Kind>, k: Kind)
    ensures EndsInStart(w + [k]) <==> k == LongStart
  {
  }

  // ----- one step, seen from each button

  predicate BothOpen(s: State) {
    s.both.active && s.both.longSent
  }

  /** A press whose START has been sent and whose STOP is due. */
  predicate SingleOpen(b: ButtonState) {
    b.pressStart > 0 && b.longSent
  }

  function Of(s: State, id: Button): (b: ButtonState)
    requires id != Both
  {
    if id == Left then s.left else s.right
  }

  /** What an event says about the states around it. */
  predicate Explains(s: State, e: Event, s': State) {
    if e.button == Both then
      match e.kind
      case LongStart => s.both.active && !s.both.longSent && BothOpen(s')
      case LongStop => BothOpen(s) && !s'.both.active
      case ShortPress => s.both.active && !s.both.longSent && !s'.both.active
    else
      && !s.both.active && !s'.both.active
      && match e.kind
         case LongStart => !SingleOpen(Of(s, e.button)) && SingleOpen(Of(s', e.button))
         case LongStop => SingleOpen(Of(s, e.button)) && !SingleOpen(Of(s', e.button))
         case ShortPress => !SingleOpen(Of(s, e.button)) && !SingleOpen(Of(s', e.button))
  }

  /** The only event of a step explains it; without one of its own, a button's open press stays open or is given up. */
  lemma StepExplained(s: State, i: Input)
    requires Inv(s)
    ensures var (s', events) := Step(s, i);
            && (events != [] ==> Explains(s, events[0], s'))
            && (KindsOf(events, Both) == [] ==> BothOpen(s') == BothOpen(s))
            && (KindsOf(events, Left) == [] && SingleOpen(s'.left) ==> SingleOpen(s.left))
            && (KindsOf(events, Right) == [] && SingleOpen(s'.right) ==> SingleOpen(s.right))
  {
    StepKeepsInv(s, i);
    var events := Step(s, i).1;
    if events != [] { assert events == [events[0]]; }
  }

  lemma OneKind(e: Event, b: Button)
    ensures KindsOf([e], b) == if e.button == b then [e.kind] else []
  {
    assert [e][..0] == [];
  }

  lemma KindsOfAppend(events: seq<Event>, e: Event, b: Button)
    ensures KindsOf(events + [e], b) == KindsOf(events, b) + KindsOf([e], b)
  {
    assert (events + [e])[..|events|] == events;
    OneKind(e, b);
  }

  /** What holds of the events so far and the state they led to. */
  predicate Grammatical(s: State, events: seq<Event>) {
    var both, left, right := KindsOf(events, Both), KindsOf(events, Left), KindsOf(events, Right);
    && BothGrammar(both) && (BothOpen(s) <==> EndsInStart(both))
    && SingleGrammar(left) && (SingleOpen(s.left) ==> EndsInStart(left))
    && SingleGrammar(right) && (SingleOpen(s.right) ==> EndsInStart(right))
  }

  lemma StepStaysGrammatical(s: State, events: seq<Event>, i: Input)
    requires Inv(s) && Grammatical(s, events)
    ensures Grammatical(Step(s, i).0, events + Step(s, i).1)
  {
    hide Step, KindsOf, BothGrammar, SingleGrammar, EndsInStart, Inv;
    var (s', more) := Step(s, i);
    StepKeepsInv(s, i);
    StepExplained(s, i);
    if more == [] {
      NoKinds();
      assert events + more == events;
    } else {
      var e := more[0];
      assert more == [e];
      forall b: Button
        ensures KindsOf(more, b) == if e.button == b then [e.kind] else []
      {
        OneKind(e, b);
      }
      EventStaysGrammatical(s, events, e, s');
    }
  }

  lemma NoKinds()
    ensures forall b :: KindsOf([], b) == []
  {
  }

  lemma EventStaysGrammatical(s: State, events: seq<Event>, e: Event, s': State)
    requires Grammatical(s, events) && Explains(s, e, s')
    requires e.button != Both ==> BothOpen(s') == BothOpen(s)
    requires e.button != Left && SingleOpen(s'.left) ==> SingleOpen(s.left)
    requires e.button != Right && SingleOpen(s'.right) ==> SingleOpen(s.right)
    ensures Grammatical(s', events + [e])
  {
    hide KindsOf, BothGrammar, SingleGrammar, EndsInStart;
    forall b: Button
      ensures KindsOf(events + [e], b) == KindsOf(events, b) + if e.button == b then [e.kind] else []
    {
      KindsOfAppend(events, e, b);
      OneKind(e, b);
    }
    var w := KindsOf(events, e.button);
    EndsAfter(w, e.kind);
    if e.button == Both { BothGrammarExtends(w, e.kind); } else { SingleGrammarExtends(w, e.kind); }
    assert forall b | b != e.button :: KindsOf(events + [e], b) == KindsOf(events, b);
  }

  /**
   * Over every run from `button_init`: BOTH events are (SHORT | START STOP)* with an open START exactly
   * while a both-button long press is on; every single-button STOP directly follows that button's START.
   */
  lemma {:induction false} EveryRunIsGrammatical(leftPressed: bool, rightPressed: bool, ins: seq<Input>)
    ensures var (s, events) := Run(Initial(leftPressed, rightPressed), ins); Grammatical(s, events)
  {
    if ins != [] {
      var before := ins[..|ins| - 1];
      EveryRunIsGrammatical(leftPressed, rightPressed, before);
      RunKeepsInv(leftPressed, rightPressed, before);
      var (s, events) := Run(Initial(leftPressed, rightPressed), before);
      StepStaysGrammatical(s, events, ins[|ins| - 1]);
    }
  }
}
