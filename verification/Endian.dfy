/** Fixed-width big- and little-endian integers, with both round trips. */
module Endian {
  import opened Prelude

  /** 256 to the power of `n`. */
  function Pow256(n: nat): (r: nat)
    ensures r > 0
  {
    if n == 0 then 1 else 256 * Pow256(n - 1)
  }

  function ToBE(v: nat, n: nat): (b: seq<Byte>)
    ensures |b| == n
  {
    if n == 0 then [] else ToBE(v / 256, n - 1) + [v % 256]
  }

  function FromBE(b: seq<Byte>): (v: nat)
  {
    if b == [] then 0 else FromBE(b[..|b| - 1]) * 256 + b[|b| - 1]
  }

  lemma {:induction false} FromToBE(v: nat, n: nat)
    requires v < Pow256(n)
    ensures FromBE(ToBE(v, n)) == v
  {
    if n > 0 {
      FromToBE(v / 256, n - 1);
      assert ToBE(v, n)[..n - 1] == ToBE(v / 256, n - 1);
    }
  }

  lemma {:induction false} ToFromBE(b: seq<Byte>)
    ensures ToBE(FromBE(b), |b|) == b
  {
    if b != [] {
      var high, low := FromBE(b[..|b| - 1]), b[|b| - 1];
      ToFromBE(b[..|b| - 1]);
      assert (high * 256 + low) / 256 == high && (high * 256 + low) % 256 == low;
      assert b == b[..|b| - 1] + [low];
    }
  }

  function ToLE(v: nat, n: nat): (b: seq<Byte>)
    ensures |b| == n
  {
    if n == 0 then [] else [v % 256] + ToLE(v / 256, n - 1)
  }

  function FromLE(b: seq<Byte>): (v: nat)
  {
    if b == [] then 0 else FromLE(b[1..]) * 256 + b[0]
  }

  lemma {:induction false} FromLEBound(b: seq<Byte>)
    ensures FromLE(b) < Pow256(|b|)
  {
    if b != [] { FromLEBound(b[1..]); }
  }

  lemma {:induction false} FromToLE(v: nat, n: nat)
    requires v < Pow256(n)
    ensures FromLE(ToLE(v, n)) == v
  {
    if n > 0 {
      FromToLE(v / 256, n - 1);
      assert ToLE(v, n)[1..] == ToLE(v / 256, n - 1);
    }
  }

  lemma {:induction false} ToFromLE(b: seq<Byte>)
    ensures ToLE(FromLE(b), |b|) == b
  {
    if b != [] {
      var high, low := FromLE(b[1..]), b[0];
      ToFromLE(b[1..]);
      assert (high * 256 + low) / 256 == high && (high * 256 + low) % 256 == low;
      assert b == [low] + b[1..];
    }
  }

  lemma {:induction false} Pow256Sum(a: nat, b: nat)
    ensures Pow256(a + b) == Pow256(a) * Pow256(b)
  {
    if a > 0 { Pow256Sum(a - 1, b); }
  }

  lemma WordSizes()
    ensures Pow256(4) == 0x1_0000_0000
    ensures Pow256(8) == 0x1_0000_0000_0000_0000
    ensures Pow256(32) == 0x1_0000_0000_0000_0000_0000_0000_0000_0000_0000_0000_0000_0000_0000_0000_0000_0000
  {
    assert Pow256(4) == 0x1_0000_0000;
    Pow256Sum(4, 4);
    Pow256Sum(8, 8);
    Pow256Sum(16, 16);
  }

  // ----- which byte holds which digit

  lemma DivideTwice(v: nat, p: nat)
    requires p > 0
    ensures v / 256 / p == v / (256 * p)
  {
    var q, r := v / (256 * p), v % (256 * p);
    assert v == q * (256 * p) + r && 0 <= r < 256 * p;
    assert q * (256 * p) == 256 * (q * p);
    assert v / 256 == q * p + r / 256;
    assert 0 <= r / 256 < p;
    QuotientIs(v / 256, p, q, r / 256);
  }

  lemma QuotientIs(v: nat, p: nat, q: nat, r: nat)
    requires r < p && v == q * p + r
    ensures v / p == q
  {
    var d, r' := v / p - q, v % p;
    assert v == (v / p) * p + r';
    assert d * p == (v / p) * p - q * p;
    NonzeroMultiple(d, p);
  }

  lemma NonzeroMultiple(d: int, p: nat)
    ensures d >= 1 ==> d * p >= p
    ensures d <= -1 ==> d * p + p <= 0
  {
    if d >= 1 {
      assert d * p == (d - 1) * p + p && (d - 1) * p >= 0;
    } else if d <= -1 {
      assert d * p == (d + 1) * p - p && (d + 1) * p <= 0;
    }
  }

  lemma {:induction false} FromBEBound(b: seq<Byte>)
    ensures FromBE(b) < Pow256(|b|)
  {
    if b != [] { FromBEBound(b[..|b| - 1]); }
  }

  lemma TimesNextPower(v: nat, n: nat)
    ensures v * Pow256(n + 1) == v * Pow256(n) * 256
  {
    var p := Pow256(n);
    assert Pow256(n + 1) == 256 * p;
    assert v * (256 * p) == v * p * 256;
  }

  lemma {:induction false} FromBEConcat(a: seq<Byte>, b: seq<Byte>)
    ensures FromBE(a + b) == FromBE(a) * Pow256(|b|) + FromBE(b)
  {
    if b == [] {
      assert a + b == a;
    } else {
      hide Pow256;
      var init, last := b[..|b| - 1], b[|b| - 1];
      FromBEConcat(a, init);
      assert (a + b)[..|a + b| - 1] == a + init && (a + b)[|a + b| - 1] == last;
      TimesNextPower(FromBE(a), |init|);
    }
  }

  /** The first bytes of a big-endian number are its top digits. */
  lemma LeadingBytes(b: seq<Byte>, n: nat)
    requires n <= |b|
    ensures FromBE(b[..n]) == FromBE(b) / Pow256(|b| - n)
  {
    assert b == b[..n] + b[n..];
    FromBEConcat(b[..n], b[n..]);
    FromBEBound(b[n..]);
    QuotientIs(FromBE(b), Pow256(|b| - n), FromBE(b[..n]), FromBE(b[n..]));
  }

  /** Big-endian: the most significant digit comes first. */
  lemma {:induction false} BigEndianDigit(v: nat, n: nat, i: nat)
    requires i < n
    ensures ToBE(v, n)[i] == v / Pow256(n - 1 - i) % 256
  {
    if i < n - 1 {
      BigEndianDigit(v / 256, n - 1, i);
      DivideTwice(v, Pow256(n - 2 - i));
    }
  }

  /** Little-endian: the least significant digit comes first. */
  lemma {:induction false} LittleEndianDigit(v: nat, n: nat, i: nat)
    requires i < n
    ensures ToLE(v, n)[i] == v / Pow256(i) % 256
  {
    if i > 0 {
      LittleEndianDigit(v / 256, n - 1, i - 1);
      DivideTwice(v, Pow256(i - 1));
    }
  }
}
