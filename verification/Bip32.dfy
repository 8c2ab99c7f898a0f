/**
 * BIP-32 child key derivation on key values: the two private child functions,
 * the public one, walks along a path, fingerprints and the 78-byte layout.
 */
module Bip32 {
  import opened Prelude
  import opened Endian
  import opened Secp256k1

  const HARDENED_BIT: U32 := 0x8000_0000
  const PRIVKEY_PREFIX: Byte := 0x00
  const MAX_DERIVATION_DEPTH: nat := 256
  const SERIALIZED_SIZE: nat := 78

  type Fingerprint = s: seq<Byte> | |s| == 4 witness [0, 0, 0, 0]

  const NO_FINGERPRINT: Fingerprint := [0, 0, 0, 0]

  /** The packed `prefix | key | chaincode` structure. */
  datatype XKey = XKey(prefix: Byte, key: Bytes32, chaincode: Bytes32) {
    /** The first 33 bytes of the structure. */
    function Head(): (b: seq<Byte>)
      ensures |b| == 33
    {
      [prefix] + key
    }
  }

  predicate Hardened(index: U32) {
    index >= HARDENED_BIT
  }

  predicate AllUnhardened(path: seq<U32>) {
    forall i | 0 <= i < |path| :: !Hardened(path[i])
  }

  predicate PublicPrefix(prefix: Byte) {
    prefix == EVEN || prefix == ODD
  }

  /** A private key that names a public key. */
  predicate ValidPrivate(k: XKey) {
    k.prefix == PRIVKEY_PREFIX && ValidScalar(k.key)
  }

  /** The ASCII bytes of "Bitcoin seed". */
  const SEED_KEY: seq<Byte> := [0x42, 0x69, 0x74, 0x63, 0x6F, 0x69, 0x6E, 0x20, 0x73, 0x65, 0x65, 0x64]

  function MasterKey<P>(c: Crypto<P>, seed: seq<Byte>): (r: Option<XKey>) {
    match c.hmac(SEED_KEY, seed)
    case None => None
    case Some(d) => if ValidScalar(d[..32]) then Some(XKey(PRIVKEY_PREFIX, d[..32], d[32..])) else None
  }

  // ----- child key derivation

  function CkdPrivUnhardened<P>(c: Crypto<P>, k: XKey, index: U32): (r: Option<XKey>) {
    match PrivToSec(c, k.key)
    case None => None
    case Some(sec) => TweakPriv(k, c.hmac(k.chaincode, sec + ToBE(index, 4)))
  }

  function CkdPrivHardened<P>(c: Crypto<P>, k: XKey, index: U32): (r: Option<XKey>) {
    TweakPriv(k, c.hmac(k.chaincode, k.Head() + ToBE(index, 4)))
  }

  /** Left half of the digest tweaks the key, right half replaces the chain code. */
  function TweakPriv(k: XKey, digest: Option<Digest64>): (r: Option<XKey>) {
    match digest
    case None => None
    case Some(d) =>
      match PrivTweakAdd(k.key, d[..32])
      case None => None
      case Some(key) => Some(XKey(k.prefix, key, d[32..]))
  }

  function CkdPriv<P>(c: Crypto<P>, k: XKey, index: U32): (r: Option<XKey>) {
    if Hardened(index) then CkdPrivHardened(c, k, index) else CkdPrivUnhardened(c, k, index)
  }

  function CkdPub<P(==)>(c: Crypto<P>, k: XKey, index: U32): (r: Option<XKey>) {
    match c.hmac(k.chaincode, k.Head() + ToBE(index, 4))
    case None => None
    case Some(d) =>
      match PubTweakAdd(c, k.Head(), d[..32])
      case None => None
      case Some(sec) => Some(XKey(sec[0], sec[1..], d[32..]))
  }

  function PrivToPub<P>(c: Crypto<P>, k: XKey): (r: Option<XKey>) {
    match PrivToSec(c, k.key)
    case None => None
    case Some(sec) => Some(XKey(sec[0], sec[1..], k.chaincode))
  }

  // ----- paths

  function DerivePriv<P>(c: Crypto<P>, k: XKey, path: seq<U32>): (r: Option<XKey>) {
    if path == [] then Some(k)
    else
      match DerivePriv(c, k, path[..|path| - 1])
      case None => None
      case Some(parent) => CkdPriv(c, parent, path[|path| - 1])
  }

  function DerivePub<P(==)>(c: Crypto<P>, k: XKey, path: seq<U32>): (r: Option<XKey>) {
    if path == [] then Some(k)
    else
      match DerivePub(c, k, path[..|path| - 1])
      case None => None
      case Some(parent) =>
        if Hardened(path[|path| - 1]) then None else CkdPub(c, parent, path[|path| - 1])
  }

  /** `DerivePriv`, `DerivePub` and `PrivToPub` continued from a step that may have failed. */
  function ThenPriv<P>(c: Crypto<P>, r: Option<XKey>, path: seq<U32>): Option<XKey> {
    if r.None? then None else DerivePriv(c, r.value, path)
  }

  function ThenPub<P(==)>(c: Crypto<P>, r: Option<XKey>, path: seq<U32>): Option<XKey> {
    if r.None? then None else DerivePub(c, r.value, path)
  }

  function ThenNeuter<P>(c: Crypto<P>, r: Option<XKey>): Option<XKey> {
    if r.None? then None else PrivToPub(c, r.value)
  }

  // ----- fingerprints

  /** The compressed public key of a private or public extended key. */
  function PublicKeyOf<P>(c: Crypto<P>, k: XKey): (r: Option<Sec1>) {
    if k.prefix == PRIVKEY_PREFIX then PrivToSec(c, k.key)
    else if PublicPrefix(k.prefix) then Some(k.Head())
    else None
  }

  function FingerprintOf<P>(c: Crypto<P>, k: XKey): (r: Option<Fingerprint>) {
    match PublicKeyOf(c, k)
    case None => None
    case Some(s) =>
      match c.hash160(s)
      case None => None
      case Some(id) => Some(id[..4])
  }

  /** The first `n` keys along the path, starting from `k` itself, exist and have fingerprints. */
  predicate HaveFingerprints<P>(c: Crypto<P>, k: XKey, path: seq<U32>, n: nat)
    requires n <= |path|
  {
    forall i | 0 <= i < n :: HasFingerprint(c, DerivePriv(c, k, path[..i]))
  }

  predicate HasFingerprint<P>(c: Crypto<P>, r: Option<XKey>) {
    r.Some? && FingerprintOf(c, r.value).Some?
  }

  /** The fingerprint of the key one step above the `n`-th key of the path; zeros when there is none. */
  function ParentFingerprint<P>(c: Crypto<P>, k: XKey, path: seq<U32>, n: nat): (f: Fingerprint)
    requires n <= |path| && HaveFingerprints(c, k, path, n)
  {
    if n == 0 then NO_FINGERPRINT
    else
      assert HasFingerprint(c, DerivePriv(c, k, path[..n - 1]));
      FingerprintOf(c, DerivePriv(c, k, path[..n - 1]).value).value
  }

  // ----- theorems on derivation

  lemma StepCommutes<P(!new)>(c: Crypto<P>, k: XKey, index: U32)
    requires Lawful(c) && !Hardened(index)
    ensures ThenNeuter(c, CkdPriv(c, k, index)) ==
            if PrivToPub(c, k).None? then None else CkdPub(c, PrivToPub(c, k).value, index)
  {
    if ValidScalar(k.key) {
      var sec := PrivToSec(c, k.key).value;
      assert PrivToPub(c, k).value.Head() == sec;
      var digest := c.hmac(k.chaincode, sec + ToBE(index, 4));
      if digest.Some? { TweaksAgree(c, k.key, digest.value[..32]); }
    }
  }

  /**
   * Deriving `p` then an unhardened `q` privately and neutering gives exactly what deriving `p` privately,
   * neutering and deriving `q` publicly gives: same key, same chain code, same success or failure.
   */
  lemma {:induction false} PublicDerivationCommutes<P(!new)>(c: Crypto<P>, k: XKey, p: seq<U32>, q: seq<U32>)
    requires Lawful(c) && AllUnhardened(q)
    ensures ThenNeuter(c, DerivePriv(c, k, p + q)) == ThenPub(c, ThenNeuter(c, DerivePriv(c, k, p)), q)
  {
    if q == [] {
      assert p + q == p;
    } else {
      var q', last := q[..|q| - 1], q[|q| - 1];
      PublicDerivationCommutes(c, k, p, q');
      assert (p + q)[..|p + q| - 1] == p + q' && (p + q)[|p + q| - 1] == last;
      var parent := DerivePriv(c, k, p + q');
      if parent.Some? { StepCommutes(c, parent.value, last); }
    }
  }

  /** A hardened index anywhere makes public derivation fail. */
  lemma {:induction false} PublicNeedsUnhardened<P>(c: Crypto<P>, k: XKey, q: seq<U32>)
    requires DerivePub(c, k, q).Some?
    ensures AllUnhardened(q)
  {
    if q != [] { PublicNeedsUnhardened(c, k, q[..|q| - 1]); }
  }

  /** Walking `p + q` is walking `p` and then `q`, privately. */
  lemma {:induction false} PrivateComposes<P>(c: Crypto<P>, k: XKey, p: seq<U32>, q: seq<U32>)
    ensures DerivePriv(c, k, p + q) == ThenPriv(c, DerivePriv(c, k, p), q)
  {
    if q == [] {
      assert p + q == p;
    } else {
      var q', last := q[..|q| - 1], q[|q| - 1];
      PrivateComposes(c, k, p, q');
      assert (p + q)[..|p + q| - 1] == p + q' && (p + q)[|p + q| - 1] == last;
    }
  }

  /** One more index is one more child step. */
  lemma PrivateStep<P>(c: Crypto<P>, k: XKey, path: seq<U32>, i: nat)
    requires i < |path|
    ensures DerivePriv(c, k, path[..i + 1]) ==
            match DerivePriv(c, k, path[..i])
            case None => None
            case Some(parent) => CkdPriv(c, parent, path[i])
  {
    assert path[..i + 1][..i] == path[..i];
  }

  /** A walk that fails part of the way fails. */
  lemma PrivateFailsForGood<P>(c: Crypto<P>, k: XKey, path: seq<U32>, i: nat)
    requires i <= |path| && DerivePriv(c, k, path[..i]).None?
    ensures DerivePriv(c, k, path).None?
  {
    assert path == path[..i] + path[i..];
    PrivateComposes(c, k, path[..i], path[i..]);
  }

  lemma PublicStep<P>(c: Crypto<P>, k: XKey, path: seq<U32>, i: nat)
    requires i < |path|
    ensures DerivePub(c, k, path[..i + 1]) ==
            match DerivePub(c, k, path[..i])
            case None => None
            case Some(parent) => if Hardened(path[i]) then None else CkdPub(c, parent, path[i])
  {
    assert path[..i + 1][..i] == path[..i];
  }

  lemma PublicFailsForGood<P>(c: Crypto<P>, k: XKey, path: seq<U32>, i: nat)
    requires i <= |path| && DerivePub(c, k, path[..i]).None?
    ensures DerivePub(c, k, path).None?
  {
    assert path == path[..i] + path[i..];
    PublicComposes(c, k, path[..i], path[i..]);
  }

  /** Walking `p + q` is walking `p` and then `q`, publicly. */
  lemma {:induction false} PublicComposes<P>(c: Crypto<P>, k: XKey, p: seq<U32>, q: seq<U32>)
    ensures DerivePub(c, k, p + q) == ThenPub(c, DerivePub(c, k, p), q)
  {
    if q == [] {
      assert p + q == p;
    } else {
      var q', last := q[..|q| - 1], q[|q| - 1];
      PublicComposes(c, k, p, q');
      assert (p + q)[..|p + q| - 1] == p + q' && (p + q)[|p + q| - 1] == last;
    }
  }

  /** Every key a nonempty private walk reaches is a usable scalar, and so was the key it started from. */
  lemma {:induction false} DerivedKeysAreValid<P>(c: Crypto<P>, k: XKey, path: seq<U32>)
    requires path != [] && DerivePriv(c, k, path).Some?
    ensures ValidScalar(k.key) && ValidScalar(DerivePriv(c, k, path).value.key)
    ensures DerivePriv(c, k, path).value.prefix == k.prefix
  {
    var parent := DerivePriv(c, k, path[..|path| - 1]).value;
    if |path| > 1 { DerivedKeysAreValid(c, k, path[..|path| - 1]); }
    var index := path[|path| - 1];
    var data := if Hardened(index) then parent.Head() else PrivToSec(c, parent.key).value;
    TweakedKeyIsValid(parent.key, c.hmac(parent.chaincode, data + ToBE(index, 4)).value[..32]);
  }

  /** Every key of every wallet is a private key with a public form, whatever the seed and the path. */
  lemma WalletKeysAreValid<P>(c: Crypto<P>, seed: seq<Byte>, path: seq<U32>)
    requires MasterKey(c, seed).Some? && DerivePriv(c, MasterKey(c, seed).value, path).Some?
    ensures var child := DerivePriv(c, MasterKey(c, seed).value, path).value;
            ValidPrivate(child) && PrivToPub(c, child).Some?
  {
    if path != [] { DerivedKeysAreValid(c, MasterKey(c, seed).value, path); }
  }

  // ----- BIP-32's own definition, on numbers instead of bytes

  /** An extended private key as a pair of a scalar and a chain code. */
  datatype PrivatePair = PrivatePair(k: nat, c: Bytes32)

  function Abstract(k: XKey): (p: PrivatePair) {
    PrivatePair(FromBE(k.key), k.chaincode)
  }

  /** The part of CKDpriv after the digest. */
  function ReferenceTweak(p: PrivatePair, digest: Option<Digest64>): (r: Option<PrivatePair>) {
    match digest
    case None => None
    case Some(d) =>
      var left := FromBE(d[..32]);
      var child := (left + p.k) % N;
      if left >= N || child == 0 then None else Some(PrivatePair(child, d[32..]))
  }

  /** CKDpriv((k, c), i) as the standard words it. */
  function ReferenceCkd<P>(c: Crypto<P>, p: PrivatePair, index: U32): (r: Option<PrivatePair>) {
    var parent := if Hardened(index) then [0x00] + ToBE(p.k, 32) else c.encode(c.mulG(p.k));
    ReferenceTweak(p, c.hmac(p.c, parent + ToBE(index, 4)))
  }

  function ReferenceDerive<P>(c: Crypto<P>, p: PrivatePair, path: seq<U32>): (r: Option<PrivatePair>) {
    if path == [] then Some(p)
    else
      match ReferenceDerive(c, p, path[..|path| - 1])
      case None => None
      case Some(parent) => ReferenceCkd(c, parent, path[|path| - 1])
  }

  /** The byte-level result stands for the reference result: both fail, or the key is valid and abstracts to it. */
  predicate Refines(r: Option<XKey>, reference: Option<PrivatePair>) {
    r.None? == reference.None? && (r.Some? ==> ValidPrivate(r.value) && Abstract(r.value) == reference.value)
  }

  lemma TweakRefines(k: XKey, digest: Option<Digest64>)
    requires ValidPrivate(k)
    ensures Refines(TweakPriv(k, digest), ReferenceTweak(Abstract(k), digest))
  {
    hide FromBE, ToBE;
    if digest.Some? {
      var left := FromBE(digest.value[..32]);
      assert AddScalars(FromBE(k.key), left) == (left + FromBE(k.key)) % N;
      ScalarRoundTrip(AddScalars(FromBE(k.key), left));
    }
  }

  lemma StepRefines<P>(c: Crypto<P>, k: XKey, index: U32)
    requires ValidPrivate(k)
    ensures Refines(CkdPriv(c, k, index), ReferenceCkd(c, Abstract(k), index))
  {
    hide FromBE, ToBE, TweakPriv, ReferenceTweak, Refines;
    ToFromBE(k.key);
    assert k.Head() == [0x00] + ToBE(FromBE(k.key), 32);
    var data := if Hardened(index) then k.Head() else PrivToSec(c, k.key).value;
    TweakRefines(k, c.hmac(k.chaincode, data + ToBE(index, 4)));
  }

  /** Deriving on packed bytes computes what the standard defines on scalars, along every path. */
  lemma {:induction false} DerivationRefines<P>(c: Crypto<P>, k: XKey, path: seq<U32>)
    requires ValidPrivate(k)
    ensures Refines(DerivePriv(c, k, path), ReferenceDerive(c, Abstract(k), path))
  {
    if path != [] {
      hide CkdPriv, ReferenceCkd;
      DerivationRefines(c, k, path[..|path| - 1]);
      var parent := DerivePriv(c, k, path[..|path| - 1]);
      if parent.Some? { StepRefines(c, parent.value, path[|path| - 1]); }
    }
  }

  /** "Master key generation" of the standard: the left half is the scalar, the right half the chain code. */
  function ReferenceMaster<P>(c: Crypto<P>, seed: seq<Byte>): (r: Option<PrivatePair>) {
    match c.hmac(Ascii("Bitcoin seed"), seed)
    case None => None
    case Some(d) =>
      var left := FromBE(d[..32]);
      if left == 0 || left >= N then None else Some(PrivatePair(left, d[32..]))
  }

  function ReferenceWallet<P>(c: Crypto<P>, seed: seq<Byte>, path: seq<U32>): (r: Option<PrivatePair>) {
    match ReferenceMaster(c, seed)
    case None => None
    case Some(master) => ReferenceDerive(c, master, path)
  }

  /** The master key of a seed is the standard's, and is refused exactly when the standard refuses it. */
  lemma MasterRefines<P>(c: Crypto<P>, seed: seq<Byte>)
    ensures Refines(MasterKey(c, seed), ReferenceMaster(c, seed))
  {
    hide FromBE;
    assert SEED_KEY == Ascii("Bitcoin seed");
  }

  /** From the seed to the end of any path, the wallet's keys are the standard's. */
  lemma WalletRefines<P>(c: Crypto<P>, seed: seq<Byte>, path: seq<U32>)
    ensures Refines(ThenPriv(c, MasterKey(c, seed), path), ReferenceWallet(c, seed, path))
  {
    hide MasterKey, ReferenceMaster, DerivePriv, ReferenceDerive;
    MasterRefines(c, seed);
    if MasterKey(c, seed).Some? { DerivationRefines(c, MasterKey(c, seed).value, path); }
  }

  /** Public derivation reaches the point of the scalar that the standard derives privately. */
  lemma {:induction false} PublicMatchesReference<P(!new)>(c: Crypto<P>, k: XKey, q: seq<U32>)
    requires Lawful(c) && ValidPrivate(k) && AllUnhardened(q)
    ensures var pub, reference := DerivePub(c, PrivToPub(c, k).value, q), ReferenceDerive(c, Abstract(k), q);
            && pub.None? == reference.None?
            && (pub.Some? ==> pub.value.Head() == c.encode(c.mulG(reference.value.k))
                              && pub.value.chaincode == reference.value.c)
  {
    assert [] + q == q;
    PublicDerivationCommutes(c, k, [], q);
    DerivationRefines(c, k, q);
    var child := DerivePriv(c, k, q);
    if child.Some? { assert PrivToPub(c, child.value).value.Head() == PrivToSec(c, child.value.key).value; }
  }

  // ----- theorems on fingerprints

  /** "The first 32 bits of the key identifier": the top word of HASH160, read as a number. */
  predicate TopWord(f: Option<Fingerprint>, id: Option<Digest20>) {
    f.None? == id.None? && (f.Some? ==> FromBE(f.value) == FromBE(id.value) / Pow256(16))
  }

  /** A fingerprint is the top word of the HASH160 of the compressed public key, and other prefixes have none. */
  lemma FingerprintIsTopWord<P>(c: Crypto<P>, k: XKey)
    ensures ValidPrivate(k) ==> TopWord(FingerprintOf(c, k), c.hash160(c.encode(c.mulG(FromBE(k.key)))))
    ensures PublicPrefix(k.prefix) ==> TopWord(FingerprintOf(c, k), c.hash160([k.prefix] + k.key))
    ensures !ValidPrivate(k) && !PublicPrefix(k.prefix) ==> FingerprintOf(c, k).None?
  {
    hide FromBE, Pow256;
    if PublicKeyOf(c, k).Some? {
      var id := c.hash160(PublicKeyOf(c, k).value);
      if id.Some? { LeadingBytes(id.value, 4); }
    }
  }

  /** The fingerprint reported with a derived key is that of the standard's key one step above it. */
  lemma ParentFingerprintMatchesReference<P>(c: Crypto<P>, k: XKey, path: seq<U32>)
    requires ValidPrivate(k) && path != [] && HaveFingerprints(c, k, path, |path|)
    ensures var parent := ReferenceDerive(c, Abstract(k), path[..|path| - 1]);
            parent.Some?
            && TopWord(Some(ParentFingerprint(c, k, path, |path|)), c.hash160(c.encode(c.mulG(parent.value.k))))
  {
    hide FromBE, FingerprintOf, DerivePriv, ReferenceDerive, TopWord;
    var parent := DerivePriv(c, k, path[..|path| - 1]);
    assert HasFingerprint(c, parent);
    DerivationRefines(c, k, path[..|path| - 1]);
    FingerprintIsTopWord(c, parent.value);
  }

  /** A private key and its public form have the same fingerprint. */
  lemma NeuteringKeepsFingerprint<P>(c: Crypto<P>, k: XKey)
    requires k.prefix == PRIVKEY_PREFIX && PrivToPub(c, k).Some?
    ensures FingerprintOf(c, PrivToPub(c, k).value) == FingerprintOf(c, k)
  {
    assert PrivToPub(c, k).value.Head() == PrivToSec(c, k.key).value;
  }

  /** A watch-only wallet computes the fingerprints the signing device computes. */
  lemma WatchOnlyFingerprint<P(!new)>(c: Crypto<P>, k: XKey, p: seq<U32>, q: seq<U32>)
    requires Lawful(c) && ValidPrivate(k) && AllUnhardened(q)
    requires DerivePriv(c, k, p + q).Some?
    ensures var pub := ThenPub(c, ThenNeuter(c, DerivePriv(c, k, p)), q);
            pub.Some? && FingerprintOf(c, pub.value) == FingerprintOf(c, DerivePriv(c, k, p + q).value)
  {
    PublicDerivationCommutes(c, k, p, q);
    if p + q != [] { DerivedKeysAreValid(c, k, p + q); }
    NeuteringKeepsFingerprint(c, DerivePriv(c, k, p + q).value);
  }

  // ----- serialization

  datatype Version = MainnetPub | MainnetPriv | TestnetPub | TestnetPriv {
    function Code(): U32 {
      match this
      case MainnetPub => 0x0488B21E
      case MainnetPriv => 0x0488ADE4
      case TestnetPub => 0x043587CF
      case TestnetPriv => 0x04358394
    }

    predicate IsPub() {
      MainnetPub? || TestnetPub?
    }
  }

  predicate AllZero(b: seq<Byte>) {
    forall i | 0 <= i < |b| :: b[i] == 0
  }

  /** Version, depth, parent fingerprint, child number, chain code, key. */
  function Serialized(version: Version, depth: Byte, parent: Fingerprint, child: U32, k: XKey): (b: seq<Byte>)
    ensures |b| == SERIALIZED_SIZE
  {
    ToBE(version.Code(), 4) + [depth] + parent + ToBE(child, 4) + k.chaincode + k.Head()
  }

  /** The serialized form determines everything that went into it. */
  lemma SerializedIsInjective(v: Version, d: Byte, f: Fingerprint, n: U32, k: XKey,
                              v': Version, d': Byte, f': Fingerprint, n': U32, k': XKey)
    requires Serialized(v, d, f, n, k) == Serialized(v', d', f', n', k')
    ensures v == v' && d == d' && f == f' && n == n' && k == k'
  {
    SerializedFields(v, d, f, n, k);
    SerializedFields(v', d', f', n', k');
    WordSizes();
    FromToBE(v.Code(), 4);
    FromToBE(v'.Code(), 4);
    FromToBE(n, 4);
    FromToBE(n', 4);
  }

  /** Where the serialization format of the standard puts each field. */
  lemma SerializedFields(v: Version, d: Byte, f: Fingerprint, n: U32, k: XKey)
    ensures var b := Serialized(v, d, f, n, k);
            b[..4] == ToBE(v.Code(), 4) && b[4] == d && b[5..9] == f && b[9..13] == ToBE(n, 4)
            && b[13..45] == k.chaincode && b[45] == k.prefix && b[46..] == k.key
  {
  }
}
