/**
 * The chained commitment to a transaction's signatures: sort them, hash
 * backwards from a random seed, and publish the head of the chain.
 */
module Commitment {
  import opened Prelude
  import opened Lex

  type Bytes = seq<Byte>
  type Digest = b: Bytes | |b| == 32 witness seq(32, _ => 0)

  /** SHA-256, of which only the output length is used. */
  type Hash = Bytes -> Digest

  /** A PSBT input: its partial signatures by public key, in key order. */
  datatype TxInput = TxInput(partialSigs: seq<(Bytes, Bytes)>)

  datatype ChainError = NotExactlyOneSignature

  predicate OneSignatureEach(inputs: seq<TxInput>) {
    forall i | 0 <= i < |inputs| :: |inputs[i].partialSigs| == 1
  }

  function SignatureOf(input: TxInput): (b: Bytes) {
    if input.partialSigs == [] then [] else input.partialSigs[0].1
  }

  /** The signature of each input, in input order. */
  function Signatures(inputs: seq<TxInput>): (r: seq<Bytes>)
    ensures |r| == |inputs|
  {
    seq(|inputs|, i requires 0 <= i < |inputs| => SignatureOf(inputs[i]))
  }

  /** With one signature each, input `i` contributes the value beside its public key. */
  lemma SignaturesAreSecond(inputs: seq<TxInput>)
    requires OneSignatureEach(inputs)
    ensures forall i | 0 <= i < |inputs| :: Signatures(inputs)[i] == inputs[i].partialSigs[0].1
  {
  }

  // ----- sorting

  predicate SortedLex(s: seq<Bytes>) {
    forall i, j | 0 <= i < j < |s| :: Leq(s[i], s[j])
  }

  function Insert(x: Bytes, s: seq<Bytes>): (r: seq<Bytes>) {
    if s == [] || Leq(x, s[0]) then [x] + s else [s[0]] + Insert(x, s[1..])
  }

  function Sorted(s: seq<Bytes>): (r: seq<Bytes>) {
    if s == [] then [] else Insert(s[0], Sorted(s[1..]))
  }

  lemma LeqTransitive(a: Bytes, b: Bytes, c: Bytes)
    requires Leq(a, b) && Leq(b, c)
    ensures Leq(a, c)
  {
    if a != b && b != c { Transitive(a, b, c); }
  }

  lemma {:induction false} InsertAdds(x: Bytes, s: seq<Bytes>)
    ensures multiset(Insert(x, s)) == multiset(s) + multiset{x}
  {
    if s != [] && !Leq(x, s[0]) {
      InsertAdds(x, s[1..]);
      assert s == [s[0]] + s[1..];
    }
  }

  lemma BelowAll(x: Bytes, s: seq<Bytes>)
    requires SortedLex(s) && s != [] && Leq(x, s[0])
    ensures SortedLex([x] + s)
  {
    forall j | 0 <= j < |s|
      ensures Leq(x, s[j])
    {
      LeqTransitive(x, s[0], s[j]);
    }
  }

  lemma {:induction false} InsertSorts(x: Bytes, s: seq<Bytes>)
    requires SortedLex(s)
    ensures SortedLex(Insert(x, s))
  {
    if s != [] {
      if Leq(x, s[0]) {
        BelowAll(x, s);
      } else {
        Total(x, s[0]);
        InsertSorts(x, s[1..]);
        assert |s| > 1 ==> s[1..][0] == s[1];
        BelowAll(s[0], Insert(x, s[1..]));
      }
    }
  }

  /** The result of sorting: ordered, with the same elements as often. */
  lemma {:induction false} SortedSorts(s: seq<Bytes>)
    ensures SortedLex(Sorted(s)) && multiset(Sorted(s)) == multiset(s)
  {
    if s != [] {
      SortedSorts(s[1..]);
      InsertAdds(s[0], Sorted(s[1..]));
      InsertSorts(s[0], Sorted(s[1..]));
      assert s == [s[0]] + s[1..];
    }
  }

  lemma Cancel<T>(a: multiset<T>, b: multiset<T>, x: T)
    requires a + multiset{x} == b + multiset{x}
    ensures a == b
  {
    assert a == a + multiset{x} - multiset{x};
    assert b == b + multiset{x} - multiset{x};
  }

  lemma HeadAndRest<T>(s: seq<T>)
    requires s != []
    ensures multiset(s) == multiset(s[1..]) + multiset{s[0]}
  {
    assert s == [s[0]] + s[1..];
  }

  lemma SameMembers<T>(s: seq<T>, t: seq<T>, x: T)
    requires multiset(s) == multiset(t) && x in s
    ensures x in t
  {
    assert x in multiset(s) && x in multiset(t);
  }

  /** Elements determine the sorted order. */
  lemma {:induction false} SortedIsUnique(s: seq<Bytes>, t: seq<Bytes>)
    requires SortedLex(s) && SortedLex(t) && multiset(s) == multiset(t)
    ensures s == t
  {
    if s == [] {
      assert |multiset(t)| == 0;
    } else {
      SameMembers(s, t, s[0]);
      SameMembers(t, s, t[0]);
      Antisymmetric(s[0], t[0]);
      HeadAndRest(s);
      HeadAndRest(t);
      Cancel(multiset(s[1..]), multiset(t[1..]), s[0]);
      SortedIsUnique(s[1..], t[1..]);
      assert s == [s[0]] + s[1..] && t == [t[0]] + t[1..];
    }
  }

  // ----- the chain

  /** h[n] = init and h[i] = H(h[i+1] || sigs[i]); the commitment is h[0]. */
  function Chain(h: Hash, sigs: seq<Bytes>, init: Digest): (r: seq<Digest>)
    ensures |r| == |sigs| + 1
  {
    if sigs == [] then [init]
    else
      var rest := Chain(h, sigs[1..], init);
      [h(rest[0] + sigs[0])] + rest
  }

  function ChainedSighashes(h: Hash, inputs: seq<TxInput>, init: Digest): (r: Result<seq<Digest>, ChainError>) {
    if OneSignatureEach(inputs) then Ok(Chain(h, Sorted(Signatures(inputs)), init)) else Err(NotExactlyOneSignature)
  }

  /** The bytes beside the public keys, one per input. */
  function SecondComponents(inputs: seq<TxInput>): (r: seq<Bytes>)
    requires OneSignatureEach(inputs)
  {
    seq(|inputs|, i requires 0 <= i < |inputs| => inputs[i].partialSigs[0].1)
  }

  /** `c` is a backwards hash chain from `init` over `sorted`, which is the inputs' signatures in order. */
  ghost predicate Commits(h: Hash, inputs: seq<TxInput>, init: Digest, c: seq<Digest>, sorted: seq<Bytes>) {
    && OneSignatureEach(inputs)
    && SortedLex(sorted) && multiset(sorted) == multiset(SecondComponents(inputs)) && |sorted| == |inputs|
    && |c| == |inputs| + 1 && c[|inputs|] == init
    && forall i | 0 <= i < |inputs| :: c[i] == h(c[i + 1] + sorted[i])
  }

  lemma ChainCommits(h: Hash, inputs: seq<TxInput>, init: Digest)
    requires OneSignatureEach(inputs)
    ensures Commits(h, inputs, init, ChainedSighashes(h, inputs, init).value, Sorted(Signatures(inputs)))
  {
    var sorted := Sorted(Signatures(inputs));
    SignaturesAreSecond(inputs);
    assert Signatures(inputs) == SecondComponents(inputs);
    SortedSorts(Signatures(inputs));
    SameLength(sorted, Signatures(inputs));
    ChainShape(h, sorted, init);
  }

  /** The result is the only chain that commits to the inputs' signatures from `init`. */
  lemma CommittedChainIsUnique(h: Hash, inputs: seq<TxInput>, init: Digest, c: seq<Digest>, sorted: seq<Bytes>)
    requires Commits(h, inputs, init, c, sorted)
    ensures ChainedSighashes(h, inputs, init) == Ok(c)
  {
    var sorted' := Sorted(Signatures(inputs));
    SignaturesAreSecond(inputs);
    assert Signatures(inputs) == SecondComponents(inputs);
    SortedSorts(Signatures(inputs));
    SortedIsUnique(sorted, sorted');
    ChainIsUnique(h, sorted, init, c);
  }

  method VerifyInputs(inputs: seq<TxInput>) returns (ok: bool)
    ensures ok <==> OneSignatureEach(inputs)
  {
    for i := 0 to |inputs|
      invariant OneSignatureEach(inputs[..i])
    {
      assert inputs[..i + 1] == inputs[..i] + [inputs[i]];
      if |inputs[i].partialSigs| != 1 { return false; }
    }
    assert inputs[..|inputs|] == inputs;
    return true;
  }

  method ExtractSignatures(inputs: seq<TxInput>) returns (sigs: seq<Bytes>)
    requires OneSignatureEach(inputs)
    ensures |sigs| == |inputs| && forall i | 0 <= i < |inputs| :: sigs[i] == inputs[i].partialSigs[0].1
    ensures sigs == Signatures(inputs)
  {
    SignaturesAreSecond(inputs);
    sigs := [];
    for i := 0 to |inputs|
      invariant sigs == Signatures(inputs[..i])
    {
      sigs := sigs + [inputs[i].partialSigs[0].1];
    }
    assert inputs[..|inputs|] == inputs;
  }

  lemma ChainFrom(h: Hash, sigs: seq<Bytes>, init: Digest, k: nat)
    requires k < |sigs|
    ensures var rest := Chain(h, sigs[k + 1..], init); Chain(h, sigs[k..], init) == [h(rest[0] + sigs[k])] + rest
  {
    assert sigs[k..][1..] == sigs[k + 1..];
  }

  lemma ReversedGrows<T>(x: T, s: seq<T>)
    ensures Reversed([x] + s) == Reversed(s) + [x]
    ensures Reversed(Reversed(s)) == s
  {
  }

  /** The loop that hashes from the last signature to the first, newest hash last. */
  method HashBackwards(h: Hash, signatures: seq<Bytes>, init: Digest) returns (hashChain: seq<Digest>)
    ensures hashChain == Reversed(Chain(h, signatures, init))
  {
    hide Chain, Reversed;
    var n := |signatures|;
    var hnext: Digest := init;
    hashChain := [hnext];
    ChainOfNothing(h, init);
    assert signatures[n..] == [];
    for i := 0 to n
      invariant hnext == Chain(h, signatures[n - i..], init)[0]
      invariant hashChain == Reversed(Chain(h, signatures[n - i..], init))
    {
      ChainFrom(h, signatures, init, n - 1 - i);
      hnext := h(hnext + signatures[n - 1 - i]);
      ReversedGrows(hnext, Chain(h, signatures[n - i..], init));
      hashChain := hashChain + [hnext];
    }
    assert signatures[0..] == signatures;
  }

  lemma ChainOfNothing(h: Hash, init: Digest)
    ensures Chain(h, [], init) == [init] && Reversed([init]) == [init]
  {
  }

  method CalculateChainedSighashes(h: Hash, inputs: seq<TxInput>, init: Digest)
    returns (r: Result<seq<Digest>, ChainError>)
    ensures r == ChainedSighashes(h, inputs, init)
    ensures r.Ok? <==> OneSignatureEach(inputs)
    ensures r.Ok? ==> exists sorted :: Commits(h, inputs, init, r.value, sorted)
  {
    hide Commits, Chain, Reversed;
    var verified := VerifyInputs(inputs);
    if !verified { return Err(NotExactlyOneSignature); }
    ChainCommits(h, inputs, init);
    var signatures := ExtractSignatures(inputs);
    signatures := Sorted(signatures);
    var hashChain := HashBackwards(h, signatures, init);
    ReversedGrows(init, Chain(h, signatures, init));
    return Ok(Reversed(hashChain));
  }

  // ----- what the chain is

  /** Length, last element and links. */
  lemma {:induction false} ChainShape(h: Hash, sigs: seq<Bytes>, init: Digest)
    ensures var c := Chain(h, sigs, init);
            c[|sigs|] == init && forall i | 0 <= i < |sigs| :: c[i] == h(c[i + 1] + sigs[i])
  {
    if sigs != [] {
      ChainShape(h, sigs[1..], init);
      var c, rest := Chain(h, sigs, init), Chain(h, sigs[1..], init);
      forall i | 0 <= i < |sigs|
        ensures c[i] == h(c[i + 1] + sigs[i])
      {
        if i > 0 { assert c[i] == rest[i - 1] && c[i + 1] == rest[i] && sigs[i] == sigs[1..][i - 1]; }
      }
    }
  }

  /** Only the chain has that length, that last element and those links. */
  lemma {:induction false} ChainIsUnique(h: Hash, sigs: seq<Bytes>, init: Digest, c: seq<Digest>)
    requires |c| == |sigs| + 1 && c[|sigs|] == init
    requires forall i | 0 <= i < |sigs| :: c[i] == h(c[i + 1] + sigs[i])
    ensures c == Chain(h, sigs, init)
  {
    if sigs != [] {
      var rest := c[1..];
      forall i | 0 <= i < |sigs| - 1
        ensures rest[i] == h(rest[i + 1] + sigs[1..][i])
      {
        assert c[i + 1] == h(c[i + 2] + sigs[i + 1]);
      }
      ChainIsUnique(h, sigs[1..], init, rest);
      assert c == [c[0]] + rest;
    }
  }

  // ----- the order of the inputs does not matter

  lemma {:induction false} SameSignatures(inputs: seq<TxInput>, inputs': seq<TxInput>)
    requires multiset(inputs) == multiset(inputs')
    ensures multiset(Signatures(inputs)) == multiset(Signatures(inputs'))
    decreases |inputs|
  {
    if inputs == [] {
      assert |multiset(inputs')| == 0;
    } else {
      hide Signatures;
      var first, rest := inputs[0], inputs[1..];
      SameMembers(inputs, inputs', first);
      var k :| 0 <= k < |inputs'| && inputs'[k] == first;
      var a, b := inputs'[..k], inputs'[k + 1..];
      assert inputs == [] + [first] + rest && [] + rest == rest;
      assert inputs' == a + [first] + b;
      Splice([], first, rest);
      Splice(a, first, b);
      SpliceSignatures([], first, rest);
      SpliceSignatures(a, first, b);
      Cancel(multiset(rest), multiset(a + b), first);
      SameSignatures(rest, a + b);
    }
  }

  lemma Splice<T>(a: seq<T>, x: T, b: seq<T>)
    ensures multiset(a + [x] + b) == multiset(a + b) + multiset{x}
  {
    assert a + [x] + b == a + ([x] + b);
  }

  /** Taking out one input takes out its signature. */
  lemma SpliceSignatures(a: seq<TxInput>, x: TxInput, b: seq<TxInput>)
    ensures multiset(Signatures(a + [x] + b)) == multiset(Signatures(a + b)) + multiset{SignatureOf(x)}
  {
    assert Signatures(a + [x] + b) == Signatures(a) + [SignatureOf(x)] + Signatures(b);
    assert Signatures(a + b) == Signatures(a) + Signatures(b);
    Splice(Signatures(a), SignatureOf(x), Signatures(b));
  }

  lemma OneSignatureIsOrderFree(inputs: seq<TxInput>, inputs': seq<TxInput>)
    requires multiset(inputs) == multiset(inputs') && OneSignatureEach(inputs)
    ensures OneSignatureEach(inputs')
  {
    forall i | 0 <= i < |inputs'|
      ensures |inputs'[i].partialSigs| == 1
    {
      assert inputs'[i] in multiset(inputs);
    }
  }

  /** Reordering the inputs changes nothing: not the chain, not the error. */
  lemma OrderIsIrrelevant(h: Hash, inputs: seq<TxInput>, inputs': seq<TxInput>, init: Digest)
    requires multiset(inputs) == multiset(inputs')
    ensures ChainedSighashes(h, inputs, init) == ChainedSighashes(h, inputs', init)
  {
    if OneSignatureEach(inputs) {
      OneSignatureIsOrderFree(inputs, inputs');
      SameSignatures(inputs, inputs');
      SortedSorts(Signatures(inputs));
      SortedSorts(Signatures(inputs'));
      SortedIsUnique(Sorted(Signatures(inputs)), Sorted(Signatures(inputs')));
    } else if OneSignatureEach(inputs') {
      OneSignatureIsOrderFree(inputs', inputs);
    }
  }

  // ----- binding

  /** At link `i` the two chains hash different bytes to the same digest. */
  predicate CollisionAt(h: Hash, c: seq<Digest>, s: seq<Bytes>, c': seq<Digest>, s': seq<Bytes>, i: nat) {
    && i < |s| < |c| && i < |s'| < |c'|
    && c[i + 1] + s[i] != c'[i + 1] + s'[i]
    && h(c[i + 1] + s[i]) == h(c'[i + 1] + s'[i])
  }

  predicate Collides(h: Hash, c: seq<Digest>, s: seq<Bytes>, c': seq<Digest>, s': seq<Bytes>) {
    exists i | 0 <= i < |s| :: CollisionAt(h, c, s, c', s', i)
  }

  /**
   * Equal heads mean equal chains, or a collision visible in them, or a shorter chain whose seed is
   * itself a link of the longer one.
   */
  lemma {:induction false} EqualHeads(h: Hash, s: seq<Bytes>, init: Digest, s': seq<Bytes>, init': Digest)
    requires |s| <= |s'| && Chain(h, s, init)[0] == Chain(h, s', init')[0]
    ensures var c, c' := Chain(h, s, init), Chain(h, s', init');
            || (s == s' && init == init')
            || Collides(h, c, s, c', s')
            || (s < s' && init == c'[|s|])
  {
    var c, c' := Chain(h, s, init), Chain(h, s', init');
    if s != [] {
      var x, x' := c[1] + s[0], c'[1] + s'[0];
      if x != x' {
        assert CollisionAt(h, c, s, c', s', 0);
      } else {
        assert c[1] == x[..32] == c'[1] && s[0] == x[32..] == s'[0];
        assert c[1..] == Chain(h, s[1..], init) && c'[1..] == Chain(h, s'[1..], init');
        assert s == [s[0]] + s[1..] && s' == [s[0]] + s'[1..];
        EqualHeads(h, s[1..], init, s'[1..], init');
        if Collides(h, c[1..], s[1..], c'[1..], s'[1..]) {
          var i: nat :| i < |s[1..]| && CollisionAt(h, c[1..], s[1..], c'[1..], s'[1..], i);
          assert CollisionAt(h, c, s, c', s', i + 1);
        }
      }
    }
  }

  /** What two openings of one commitment must have in common, or else show. */
  predicate SameOpening(h: Hash, inputs: seq<TxInput>, init: Digest, inputs': seq<TxInput>, init': Digest)
    requires |inputs| <= |inputs'| && OneSignatureEach(inputs) && OneSignatureEach(inputs')
  {
    var s, s' := Sorted(Signatures(inputs)), Sorted(Signatures(inputs'));
    var c, c' := ChainedSighashes(h, inputs, init).value, ChainedSighashes(h, inputs', init').value;
    || (init == init' && multiset(Signatures(inputs)) == multiset(Signatures(inputs')))
    || Collides(h, c, s, c', s')
    || (|inputs| < |inputs'| && s < s' && init in c')
  }

  /**
   * One commitment, one seed and one multiset of signatures, or a hash collision visible in the two chains.
   * With fewer inputs on one side there is a third way: its seed is a link of the other chain.
   */
  lemma CommitmentBinds(h: Hash, inputs: seq<TxInput>, init: Digest, inputs': seq<TxInput>, init': Digest)
    requires |inputs| <= |inputs'| && OneSignatureEach(inputs) && OneSignatureEach(inputs')
    requires ChainedSighashes(h, inputs, init).value[0] == ChainedSighashes(h, inputs', init').value[0]
    ensures SameOpening(h, inputs, init, inputs', init')
  {
    var s, s' := Sorted(Signatures(inputs)), Sorted(Signatures(inputs'));
    SortedSorts(Signatures(inputs));
    SortedSorts(Signatures(inputs'));
    SameLength(s, Signatures(inputs));
    SameLength(s', Signatures(inputs'));
    EqualHeads(h, s, init, s', init');
  }

  lemma SameLength<T>(s: seq<T>, t: seq<T>)
    requires multiset(s) == multiset(t)
    ensures |s| == |t|
  {
    assert |multiset(s)| == |s| && |multiset(t)| == |t|;
  }

  // ----- the message that is signed

  /** A compressed public key. */
  type PublicKey = b: Bytes | |b| == 33 witness seq(33, _ => 0)

  /** "TVA1", the hardware's key and the commitment. */
  function MessagePreimage(key: PublicKey, commitment: Bytes): (b: Bytes) {
    [0x54, 0x56, 0x41, 0x31] + key + commitment
  }

  function Message(h: Hash, key: PublicKey, commitment: Bytes): (d: Digest) {
    h(MessagePreimage(key, commitment))
  }

  /** What is hashed is the tag, then the key, then the commitment. */
  lemma MessageLayout(h: Hash, key: PublicKey, commitment: Bytes)
    ensures Message(h, key, commitment) == h(Ascii("TVA1") + key + commitment)
  {
    assert MessagePreimage(key, commitment) == Ascii("TVA1") + key + commitment;
  }

  /** One message is for one key and one transaction, or shows a collision. */
  lemma MessageBinds(h: Hash, key: PublicKey, inputs: seq<TxInput>, init: Digest,
                     key': PublicKey, inputs': seq<TxInput>, init': Digest)
    requires |inputs| <= |inputs'| && OneSignatureEach(inputs) && OneSignatureEach(inputs')
    requires var m, m' := ChainedSighashes(h, inputs, init).value[0], ChainedSighashes(h, inputs', init').value[0];
             Message(h, key, m) == Message(h, key', m')
    ensures var m, m' := ChainedSighashes(h, inputs, init).value[0], ChainedSighashes(h, inputs', init').value[0];
            || (key == key' && SameOpening(h, inputs, init, inputs', init'))
            || (MessagePreimage(key, m) != MessagePreimage(key', m')
                && h(MessagePreimage(key, m)) == h(MessagePreimage(key', m')))
  {
    var m, m' := ChainedSighashes(h, inputs, init).value[0], ChainedSighashes(h, inputs', init').value[0];
    var x, x' := MessagePreimage(key, m), MessagePreimage(key', m');
    if x == x' {
      assert key == x[4..37] == key' && m == x[37..] == m';
      CommitmentBinds(h, inputs, init, inputs', init');
    }
  }
}
