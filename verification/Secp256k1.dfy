/**
 * The primitives under BIP-32 key derivation.  HMAC-SHA512 and HASH160 are
 * arbitrary functions that may fail; the curve is any cyclic group of order N
 * with a compressed SEC 1 encoding.  `Lawful` collects everything assumed of
 * them, and `LawsAreSatisfiable` exhibits an instance.
 */
module Secp256k1 {
  import opened Prelude
  import opened Endian

  /** Order of the generator (section 2.4.1 of SEC 2). */
  const N: nat := 0xFFFFFFFF_FFFFFFFF_FFFFFFFF_FFFFFFFE_BAAEDCE6_AF48A03B_BFD25E8C_D0364141

  const EVEN: Byte := 0x02
  const ODD: Byte := 0x03

  type Bytes32 = s: seq<Byte> | |s| == 32 witness seq(32, _ => 0)
  type Digest20 = s: seq<Byte> | |s| == 20 witness seq(20, _ => 0)
  type Digest64 = s: seq<Byte> | |s| == 64 witness seq(64, _ => 0)

  /** A compressed public key: a parity byte and an x coordinate. */
  type Sec1 = s: seq<Byte> | |s| == 33 && (s[0] == EVEN || s[0] == ODD)
    witness [EVEN] + seq(32, _ => 0)

  function Zeros32(): (z: Bytes32) {
    seq(32, _ => 0)
  }

  /** Addition of scalars modulo the group order. */
  function AddScalars(a: int, b: int): (r: nat) {
    (a + b) % N
  }

  datatype Crypto<!P> = Crypto(
    mulG: nat -> P,
    add: (P, P) -> P,
    infinity: P,
    encode: P -> Sec1,
    decode: seq<Byte> -> Option<P>,
    hmac: (seq<Byte>, seq<Byte>) -> Option<Digest64>,
    hash160: seq<Byte> -> Option<Digest20>)

  /** Multiplying the generator is a homomorphism from Z/N with trivial kernel, and decoding inverts encoding. */
  ghost predicate Lawful<P(!new)>(c: Crypto<P>) {
    && (forall a: nat, b: nat | a < N && b < N :: c.add(c.mulG(a), c.mulG(b)) == c.mulG(AddScalars(a, b)))
    && (forall a: nat | a < N :: c.mulG(a) == c.infinity <==> a == 0)
    && (forall a: nat | 0 < a < N :: c.decode(c.encode(c.mulG(a))) == Some(c.mulG(a)))
  }

  lemma ScalarRoundTrip(k: nat)
    requires k < N
    ensures FromBE(ToBE(k, 32)) == k
  {
    WordSizes();
    FromToBE(k, 32);
  }

  /** The residues modulo N themselves, read as points, and their encoding. */
  function EncodeResidue(k: int): (r: Sec1) {
    [EVEN] + ToBE(if k < 0 then 0 else k, 32)
  }

  function DecodeResidue(b: seq<Byte>): (r: Option<int>) {
    if b == [] then None else Some(FromBE(b[1..]))
  }

  lemma ResidueRoundTrip(k: nat)
    requires k < N
    ensures DecodeResidue(EncodeResidue(k)) == Some(k)
  {
    ScalarRoundTrip(k);
    assert EncodeResidue(k)[1..] == ToBE(k, 32);
  }

  function Residues(): (c: Crypto<int>) {
    Crypto((k: nat) => k, (a: int, b: int) => AddScalars(a, b), 0, EncodeResidue, DecodeResidue,
           (k, d) => None, d => None)
  }

  lemma LawsAreSatisfiable()
    ensures Lawful(Residues())
  {
    var c := Residues();
    assert forall a: nat :: c.mulG(a) == a;
    assert forall a: int, b: int :: c.add(a, b) == AddScalars(a, b);
    forall a: nat | 0 < a < N
      ensures c.decode(c.encode(c.mulG(a))) == Some(c.mulG(a))
    {
      ResidueRoundTrip(a);
    }
  }

  /** A private key is usable when it is a nonzero scalar below the group order. */
  predicate ValidScalar(key: Bytes32) {
    0 < FromBE(key) < N
  }

  /** The compressed public key of a private key; fails on an unusable scalar. */
  function PrivToSec<P>(c: Crypto<P>, key: Bytes32): (r: Option<Sec1>) {
    if ValidScalar(key) then Some(c.encode(c.mulG(FromBE(key)))) else None
  }

  /** Adds a tweak to a private key; fails when either is out of range or the sum is zero. */
  function PrivTweakAdd(key: Bytes32, tweak: Bytes32): (r: Option<Bytes32>) {
    if !ValidScalar(key) || FromBE(tweak) >= N then None
    else
      var sum := AddScalars(FromBE(key), FromBE(tweak));
      if sum == 0 then None else Some(ToBE(sum, 32))
  }

  /** Adds a tweak times the generator to a public key; fails on a bad encoding, a large tweak or infinity. */
  function PubTweakAdd<P(==)>(c: Crypto<P>, pub: seq<Byte>, tweak: Bytes32): (r: Option<Sec1>) {
    match c.decode(pub)
    case None => None
    case Some(point) =>
      if FromBE(tweak) >= N then None
      else
        var sum := c.add(point, c.mulG(FromBE(tweak)));
        if sum == c.infinity then None else Some(c.encode(sum))
  }

  /** Tweaking a private key and tweaking its public key agree, in value and in failure. */
  lemma TweaksAgree<P(!new)>(c: Crypto<P>, key: Bytes32, tweak: Bytes32)
    requires Lawful(c) && ValidScalar(key)
    ensures PubTweakAdd(c, PrivToSec(c, key).value, tweak) ==
            match PrivTweakAdd(key, tweak)
            case None => None
            case Some(child) => PrivToSec(c, child)
  {
    if FromBE(tweak) < N {
      var sum := AddScalars(FromBE(key), FromBE(tweak));
      assert c.add(c.mulG(FromBE(key)), c.mulG(FromBE(tweak))) == c.mulG(sum);
      ScalarRoundTrip(sum);
    }
  }

  lemma TweakedKeyIsValid(key: Bytes32, tweak: Bytes32)
    requires PrivTweakAdd(key, tweak).Some?
    ensures ValidScalar(PrivTweakAdd(key, tweak).value)
  {
    ScalarRoundTrip(AddScalars(FromBE(key), FromBE(tweak)));
  }
}
