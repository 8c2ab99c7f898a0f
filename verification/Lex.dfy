/** Lexicographic order of byte strings: a strict total order. */
module Lex {
  import opened Prelude

  predicate Less(a: seq<Byte>, b: seq<Byte>) {
    if b == [] then false
    else if a == [] then true
    else a[0] < b[0] || (a[0] == b[0] && Less(a[1..], b[1..]))
  }

  predicate Leq(a: seq<Byte>, b: seq<Byte>) {
    a == b || Less(a, b)
  }

  lemma {:induction false} Irreflexive(a: seq<Byte>)
    ensures !Less(a, a)
  {
    if a != [] { Irreflexive(a[1..]); }
  }

  lemma {:induction false} Total(a: seq<Byte>, b: seq<Byte>)
    ensures a == b || Less(a, b) || Less(b, a)
  {
    if a != [] && b != [] {
      Total(a[1..], b[1..]);
      assert a == [a[0]] + a[1..] && b == [b[0]] + b[1..];
    }
  }

  lemma {:induction false} Transitive(a: seq<Byte>, b: seq<Byte>, c: seq<Byte>)
    requires Less(a, b) && Less(b, c)
    ensures Less(a, c)
  {
    if a != [] && a[0] == b[0] == c[0] { Transitive(a[1..], b[1..], c[1..]); }
  }

  lemma Antisymmetric(a: seq<Byte>, b: seq<Byte>)
    requires Leq(a, b) && Leq(b, a)
    ensures a == b
  {
    if a != b {
      Transitive(a, b, a);
      Irreflexive(a);
    }
  }

  /** The two strings agree up to `i`, where the first ends or has the smaller byte. */
  predicate DecidedAt(a: seq<Byte>, b: seq<Byte>, i: nat) {
    i <= |a| && i < |b| && a[..i] == b[..i] && (i < |a| ==> a[i] < b[i])
  }

  /** The order is decided at the first difference, a proper prefix coming first. */
  lemma {:induction false} LessIff(a: seq<Byte>, b: seq<Byte>)
    ensures Less(a, b) <==> exists i | 0 <= i <= |a| :: DecidedAt(a, b, i)
  {
    if b != [] && a == [] {
      assert DecidedAt(a, b, 0);
    } else if b != [] && a != [] {
      LessIff(a[1..], b[1..]);
      if a[0] < b[0] { assert DecidedAt(a, b, 0); }
      if a[0] == b[0] {
        if i :| 0 <= i <= |a[1..]| && DecidedAt(a[1..], b[1..], i) {
          assert a[..i + 1] == [a[0]] + a[1..][..i] && b[..i + 1] == [b[0]] + b[1..][..i];
          assert DecidedAt(a, b, i + 1);
        }
        if i :| 0 < i <= |a| && DecidedAt(a, b, i) {
          assert a[1..][..i - 1] == a[..i][1..] && b[1..][..i - 1] == b[..i][1..];
          assert DecidedAt(a[1..], b[1..], i - 1);
        }
      }
      if i :| 0 < i <= |a| && DecidedAt(a, b, i) {
        assert a[..i][0] == a[0] && b[..i][0] == b[0];
      }
    }
  }
}
