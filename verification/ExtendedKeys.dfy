/**
 * The BIP-32 library as the firmware runs it: extended keys overwritten in
 * place, buffers filled at a running offset.  Each method is tied to the
 * functions of `Bip32`.  A firmware ASSERT is a precondition here.
 */
module ExtendedKeys {
  import opened Prelude
  import opened Endian
  import opened Secp256k1
  import opened Bip32

  class ExtendedKey {
    var prefix: Byte
    var key: Bytes32
    var chaincode: Bytes32

    constructor ()
      ensures Value() == XKey(0, Zeros32(), Zeros32())
    {
      prefix, key, chaincode := 0, Zeros32(), Zeros32();
    }

    function Value(): XKey
      reads this
    {
      XKey(prefix, key, chaincode)
    }

    method CopyFrom(other: ExtendedKey)
      modifies this
      ensures Value() == old(other.Value())
    {
      prefix, key, chaincode := other.prefix, other.key, other.chaincode;
    }
  }

  function Wiped(k: XKey): XKey {
    XKey(k.prefix, Zeros32(), k.chaincode)
  }

  /** On failure the private key is wiped, as `crypto_ecc_secp256k1_priv_to_xonly_pub` does. */
  method PrivToSecInPlace<P>(c: Crypto<P>, k: ExtendedKey) returns (r: Option<Sec1>)
    modifies k`key
    ensures r == PrivToSec(c, old(k.key))
    ensures k.key == if r.Some? then old(k.key) else Zeros32()
  {
    r := PrivToSec(c, k.key);
    if r.None? { k.key := Zeros32(); }
  }

  /** On failure the private key is wiped, as `secp256k1_ec_seckey_tweak_add` does. */
  method PrivTweakAddInPlace(k: ExtendedKey, tweak: Bytes32) returns (ok: bool)
    modifies k`key
    ensures ok == PrivTweakAdd(old(k.key), tweak).Some?
    ensures k.key == if ok then PrivTweakAdd(old(k.key), tweak).value else Zeros32()
  {
    match PrivTweakAdd(k.key, tweak)
    case None => k.key := Zeros32(); ok := false;
    case Some(sum) => k.key := sum; ok := true;
  }

  // ----- what failures leave behind

  /** A failed tweak wipes the key; without a digest it is never tried. */
  function AfterNoTweak(k: XKey, digest: Option<Digest64>): (r: XKey) {
    if digest.None? then k else Wiped(k)
  }

  function UnhardenedResidue<P>(c: Crypto<P>, k: XKey, index: U32): (r: XKey) {
    match PrivToSec(c, k.key)
    case None => Wiped(k)
    case Some(sec) => AfterNoTweak(k, c.hmac(k.chaincode, sec + ToBE(index, 4)))
  }

  function HardenedResidue<P>(c: Crypto<P>, k: XKey, index: U32): (r: XKey) {
    AfterNoTweak(k, c.hmac(k.chaincode, k.Head() + ToBE(index, 4)))
  }

  function CkdResidue<P>(c: Crypto<P>, k: XKey, index: U32): (r: XKey) {
    if Hardened(index) then HardenedResidue(c, k, index) else UnhardenedResidue(c, k, index)
  }

  /** Fingerprinting wipes a private key that names no public key. */
  function FingerprintResidue<P>(c: Crypto<P>, k: XKey): (r: XKey) {
    if k.prefix == PRIVKEY_PREFIX && !ValidScalar(k.key) then Wiped(k) else k
  }

  function StepResidue<P>(c: Crypto<P>, k: XKey, index: U32, withFingerprint: bool): (r: XKey) {
    if withFingerprint && FingerprintOf(c, k).None? then FingerprintResidue(c, k) else CkdResidue(c, k, index)
  }

  /** Whatever fails on the way, the key left behind is the one reached so far, as it was or with its key wiped. */
  lemma ResidueIsKeyOrWiped<P>(c: Crypto<P>, k: XKey, index: U32, withFingerprint: bool)
    ensures StepResidue(c, k, index, withFingerprint) in {k, Wiped(k)}
  {
  }

  // ----- child key derivation

  method CkdPrivUnhardenedInPlace<P>(c: Crypto<P>, ext: ExtendedKey, index: U32) returns (ok: bool)
    modifies ext
    ensures ok == CkdPrivUnhardened(c, old(ext.Value()), index).Some?
    ensures ok ==> ext.Value() == CkdPrivUnhardened(c, old(ext.Value()), index).value
    ensures !ok ==> ext.Value() == UnhardenedResidue(c, old(ext.Value()), index)
  {
    var sec := PrivToSecInPlace(c, ext);
    if sec.None? { return false; }
    var digest := c.hmac(ext.chaincode, sec.value + ToBE(index, 4));
    if digest.None? { return false; }
    ok := PrivTweakAddInPlace(ext, digest.value[..32]);
    if ok { ext.chaincode := digest.value[32..]; }
  }

  method CkdPrivHardenedInPlace<P>(c: Crypto<P>, ext: ExtendedKey, index: U32) returns (ok: bool)
    requires Hardened(index)
    requires ext.prefix == PRIVKEY_PREFIX
    modifies ext
    ensures ok == CkdPrivHardened(c, old(ext.Value()), index).Some?
    ensures ok ==> ext.Value() == CkdPrivHardened(c, old(ext.Value()), index).value
    ensures !ok ==> ext.Value() == HardenedResidue(c, old(ext.Value()), index)
  {
    var digest := c.hmac(ext.chaincode, ext.Value().Head() + ToBE(index, 4));
    if digest.None? { return false; }
    ok := PrivTweakAddInPlace(ext, digest.value[..32]);
    if ok { ext.chaincode := digest.value[32..]; }
  }

  method CkdPrivInPlace<P>(c: Crypto<P>, ext: ExtendedKey, index: U32) returns (ok: bool)
    requires Hardened(index) ==> ext.prefix == PRIVKEY_PREFIX
    modifies ext
    ensures ok == CkdPriv(c, old(ext.Value()), index).Some?
    ensures ok ==> ext.Value() == CkdPriv(c, old(ext.Value()), index).value && ext.prefix == old(ext.prefix)
    ensures !ok ==> ext.Value() == CkdResidue(c, old(ext.Value()), index)
  {
    if Hardened(index) {
      ok := CkdPrivHardenedInPlace(c, ext, index);
    } else {
      ok := CkdPrivUnhardenedInPlace(c, ext, index);
    }
  }

  method CkdPubInPlace<P(==)>(c: Crypto<P>, ext: ExtendedKey, index: U32) returns (ok: bool)
    requires PublicPrefix(ext.prefix)
    modifies ext
    ensures ok == CkdPub(c, old(ext.Value()), index).Some?
    ensures ok ==> ext.Value() == CkdPub(c, old(ext.Value()), index).value && PublicPrefix(ext.prefix)
    ensures !ok ==> ext.Value() == old(ext.Value())
  {
    var head := ext.Value().Head();
    var digest := c.hmac(ext.chaincode, head + ToBE(index, 4));
    if digest.None? { return false; }
    var sec := PubTweakAdd(c, head, digest.value[..32]);
    if sec.None? { return false; }
    ext.prefix, ext.key := sec.value[0], sec.value[1..];
    ext.chaincode := digest.value[32..];
    ok := true;
  }

  method DeriveMasterKey<P>(c: Crypto<P>, seed: seq<Byte>, out: ExtendedKey) returns (ok: bool)
    requires 16 <= |seed| <= 64
    modifies out
    ensures ok == MasterKey(c, seed).Some?
    ensures ok ==> out.Value() == MasterKey(c, seed).value
    ensures ok == ReferenceMaster(c, seed).Some?
    ensures ok ==> out.prefix == PRIVKEY_PREFIX && Abstract(out.Value()) == ReferenceMaster(c, seed).value
    ensures !ok && c.hmac(SEED_KEY, seed).None? ==> out.Value() == old(out.Value())
    ensures !ok && c.hmac(SEED_KEY, seed).Some? ==>
              var d := c.hmac(SEED_KEY, seed).value; out.Value() == XKey(old(out.prefix), d[..32], d[32..])
  {
    MasterRefines(c, seed);
    var digest := c.hmac(SEED_KEY, seed);
    if digest.None? { return false; }
    out.key, out.chaincode := digest.value[..32], digest.value[32..];
    if !ValidScalar(out.key) { return false; }
    out.prefix := PRIVKEY_PREFIX;
    ok := true;
  }

  method PrivToPubInPlace<P>(c: Crypto<P>, privIn: ExtendedKey, pubOut: ExtendedKey) returns (ok: bool)
    requires privIn.prefix == PRIVKEY_PREFIX
    modifies privIn`key, pubOut
    ensures ok == PrivToPub(c, old(privIn.Value())).Some?
    ensures ok ==> pubOut.Value() == PrivToPub(c, old(privIn.Value())).value && PublicPrefix(pubOut.prefix)
    ensures ok && privIn != pubOut ==> privIn.Value() == old(privIn.Value())
    ensures !ok ==> privIn.Value() == Wiped(old(privIn.Value()))
  {
    var sec := PrivToSecInPlace(c, privIn);
    if sec.None? { return false; }
    pubOut.prefix, pubOut.key := sec.value[0], sec.value[1..];
    pubOut.chaincode := privIn.chaincode;
    ok := true;
  }

  method ComputeFingerprint<P>(c: Crypto<P>, k: ExtendedKey) returns (r: Option<Fingerprint>)
    modifies k`key
    ensures r == FingerprintOf(c, old(k.Value()))
    ensures r.Some? ==> k.Value() == old(k.Value())
    ensures r.None? ==> k.Value() == FingerprintResidue(c, old(k.Value()))
  {
    var pub := new ExtendedKey();
    if k.prefix == PRIVKEY_PREFIX {
      var ok := PrivToPubInPlace(c, k, pub);
      if !ok { return None; }
      NeuteringKeepsFingerprint(c, k.Value());
    } else if PublicPrefix(k.prefix) {
      pub.CopyFrom(k);
    } else {
      return None;
    }
    match c.hash160(pub.Value().Head())
    case None => r := None;
    case Some(id) => r := Some(id[..4]);
  }

  /** `memcpy` into a buffer at an offset. */
  method Fill(dst: array<Byte>, offset: nat, src: seq<Byte>)
    requires offset + |src| <= dst.Length
    modifies dst
    ensures dst[..offset + |src|] == old(dst[..offset]) + src
    ensures forall i | offset + |src| <= i < dst.Length :: dst[i] == old(dst[i])
  {
    forall i | 0 <= i < |src| { dst[offset + i] := src[i]; }
  }

  method SetFingerprint(dst: array<Byte>, f: Fingerprint)
    requires dst.Length == 4
    modifies dst
    ensures dst[..] == f
  {
    Fill(dst, 0, f);
    assert dst[..] == dst[..4];
  }

  /** What `DerivePathPriv` reports: the walk succeeds and, when asked for, so does every fingerprint on the way. */
  predicate WalkSucceeds<P>(c: Crypto<P>, k: XKey, path: seq<U32>, withFingerprint: bool) {
    DerivePriv(c, k, path).Some? && (withFingerprint ==> HaveFingerprints(c, k, path, |path|))
  }

  lemma WalkStarts<P>(c: Crypto<P>, k: XKey, path: seq<U32>)
    ensures DerivePriv(c, k, path[..0]) == Some(k)
    ensures HaveFingerprints(c, k, path, 0) && ParentFingerprint(c, k, path, 0) == NO_FINGERPRINT
  {
  }

  lemma WalkStops<P>(c: Crypto<P>, k: XKey, path: seq<U32>, i: nat, at: XKey, withFingerprint: bool)
    requires i < |path| && DerivePriv(c, k, path[..i]) == Some(at)
    ensures CkdPriv(c, at, path[i]).None? || (withFingerprint && FingerprintOf(c, at).None?) ==>
              !WalkSucceeds(c, k, path, withFingerprint)
  {
    if CkdPriv(c, at, path[i]).None? {
      PrivateStep(c, k, path, i);
      PrivateFailsForGood(c, k, path, i + 1);
    } else if FingerprintOf(c, at).None? {
      assert !HasFingerprint(c, DerivePriv(c, k, path[..i]));
    }
  }

  lemma WalkAdvances<P>(c: Crypto<P>, k: XKey, path: seq<U32>, i: nat, at: XKey)
    requires i < |path| && DerivePriv(c, k, path[..i]) == Some(at)
    ensures DerivePriv(c, k, path[..i + 1]) == CkdPriv(c, at, path[i])
    ensures HaveFingerprints(c, k, path, i) && FingerprintOf(c, at).Some? ==>
              HaveFingerprints(c, k, path, i + 1) && ParentFingerprint(c, k, path, i + 1) == FingerprintOf(c, at).value
  {
    PrivateStep(c, k, path, i);
    assert HasFingerprint(c, DerivePriv(c, k, path[..i])) == FingerprintOf(c, at).Some?;
  }

  /** One turn of the path loop: fingerprint the key reached so far, then replace it by its child. */
  method DeriveStep<P>(c: Crypto<P>, child: ExtendedKey, fingerprintOut: array?<Byte>, index: U32) returns (ok: bool)
    requires Hardened(index) ==> child.prefix == PRIVKEY_PREFIX
    requires fingerprintOut != null ==> fingerprintOut.Length == 4
    modifies child, fingerprintOut
    ensures ok == (CkdPriv(c, old(child.Value()), index).Some?
                   && (fingerprintOut != null ==> FingerprintOf(c, old(child.Value())).Some?))
    ensures ok ==> child.Value() == CkdPriv(c, old(child.Value()), index).value && child.prefix == old(child.prefix)
    ensures !ok ==> child.Value() == StepResidue(c, old(child.Value()), index, fingerprintOut != null)
    ensures fingerprintOut != null ==>
              fingerprintOut[..] == match FingerprintOf(c, old(child.Value()))
                                    case None => old(fingerprintOut[..])
                                    case Some(f) => f
  {
    if fingerprintOut != null {
      var f := ComputeFingerprint(c, child);
      if f.None? { return false; }
      SetFingerprint(fingerprintOut, f.value);
    }
    ok := CkdPrivInPlace(c, child, index);
  }

  function OptionalFingerprint(f: array?<Byte>): Option<Fingerprint>
    requires f != null ==> f.Length == 4
    reads f
  {
    if f == null then None else Some(f[..])
  }

  /** What the buffers hold when the walk stops at index `i`, the first one at which a step fails. */
  predicate LeftAt<P>(c: Crypto<P>, k: XKey, path: seq<U32>, i: nat, child: XKey, f: Option<Fingerprint>)
    requires i < |path|
  {
    match DerivePriv(c, k, path[..i])
    case None => false
    case Some(at) =>
      && (CkdPriv(c, at, path[i]).None? || (f.Some? && FingerprintOf(c, at).None?))
      && child == StepResidue(c, at, path[i], f.Some?)
      && (f.Some? ==>
            && HaveFingerprints(c, k, path, i)
            && f == if FingerprintOf(c, at).Some? then FingerprintOf(c, at)
                    else Some(ParentFingerprint(c, k, path, i)))
  }

  method DerivePathPriv<P>(c: Crypto<P>, parent: ExtendedKey, child: ExtendedKey,
                           fingerprintOut: array?<Byte>, path: seq<U32>) returns (ok: bool)
    requires |path| <= MAX_DERIVATION_DEPTH
    requires fingerprintOut != null ==> fingerprintOut.Length == 4
    requires !AllUnhardened(path) ==> parent.prefix == PRIVKEY_PREFIX
    modifies child, fingerprintOut
    ensures ok == WalkSucceeds(c, old(parent.Value()), path, fingerprintOut != null)
    ensures ok ==> child.Value() == DerivePriv(c, old(parent.Value()), path).value
    ensures ok && fingerprintOut != null ==>
              fingerprintOut[..] == ParentFingerprint(c, old(parent.Value()), path, |path|)
    ensures !ok ==> exists i | 0 <= i < |path| ::
              LeftAt(c, old(parent.Value()), path, i, child.Value(), OptionalFingerprint(fingerprintOut))
  {
    ghost var k := parent.Value();
    child.CopyFrom(parent);
    if fingerprintOut != null { SetFingerprint(fingerprintOut, NO_FINGERPRINT); }
    WalkStarts(c, k, path);
    for i := 0 to |path|
      invariant DerivePriv(c, k, path[..i]) == Some(child.Value())
      invariant child.prefix == k.prefix
      invariant fingerprintOut != null ==>
          HaveFingerprints(c, k, path, i) && fingerprintOut[..] == ParentFingerprint(c, k, path, i)
    {
      ghost var at := child.Value();
      ok := DeriveStep(c, child, fingerprintOut, path[i]);
      if !ok {
        WalkStops(c, k, path, i, at, fingerprintOut != null);
        assert LeftAt(c, k, path, i, child.Value(), OptionalFingerprint(fingerprintOut));
        return;
      }
      WalkAdvances(c, k, path, i, at);
    }
    assert path[..|path|] == path;
    ok := true;
  }

  /** The key in the buffer is the one reached after `i` steps, and the next step fails. */
  predicate PublicLeftAt<P(==)>(c: Crypto<P>, k: XKey, path: seq<U32>, i: nat, child: XKey)
    requires i < |path|
  {
    DerivePub(c, k, path[..i]) == Some(child) && DerivePub(c, k, path[..i + 1]).None?
  }

  method DerivePathPub<P(==)>(c: Crypto<P>, parent: ExtendedKey, child: ExtendedKey, path: seq<U32>) returns (ok: bool)
    requires |path| <= MAX_DERIVATION_DEPTH
    requires path == [] || Hardened(path[0]) || PublicPrefix(parent.prefix)
    modifies child
    ensures ok == DerivePub(c, old(parent.Value()), path).Some?
    ensures ok ==> child.Value() == DerivePub(c, old(parent.Value()), path).value
    ensures !ok ==> exists i | 0 <= i < |path| :: PublicLeftAt(c, old(parent.Value()), path, i, child.Value())
  {
    ghost var k := parent.Value();
    child.CopyFrom(parent);
    for i := 0 to |path|
      invariant DerivePub(c, k, path[..i]) == Some(child.Value())
      invariant i > 0 || path == [] || Hardened(path[0]) || PublicPrefix(child.prefix)
      invariant i > 0 ==> PublicPrefix(child.prefix)
    {
      PublicStep(c, k, path, i);
      if Hardened(path[i]) {
        PublicFailsForGood(c, k, path, i + 1);
        assert PublicLeftAt(c, k, path, i, child.Value());
        return false;
      }
      ok := CkdPubInPlace(c, child, path[i]);
      if !ok {
        PublicFailsForGood(c, k, path, i + 1);
        assert PublicLeftAt(c, k, path, i, child.Value());
        return;
      }
    }
    assert path[..|path|] == path;
    ok := true;
  }

  /** The fingerprint of the key at the end of the path; zeros when the walk fails, its parent's when only it fails. */
  method FingerprintForPath<P>(c: Crypto<P>, privKey: ExtendedKey, path: seq<U32>, fingerprint: array<Byte>)
    returns (ok: bool)
    requires |path| <= MAX_DERIVATION_DEPTH
    requires fingerprint.Length == 4
    requires !AllUnhardened(path) ==> privKey.prefix == PRIVKEY_PREFIX
    modifies fingerprint
    ensures ok == (WalkSucceeds(c, privKey.Value(), path, true)
                   && HasFingerprint(c, DerivePriv(c, privKey.Value(), path)))
    ensures ok ==> Some(fingerprint[..]) == FingerprintOf(c, DerivePriv(c, privKey.Value(), path).value)
    ensures !ok ==> fingerprint[..] == if WalkSucceeds(c, privKey.Value(), path, true)
                                       then ParentFingerprint(c, privKey.Value(), path, |path|)
                                       else NO_FINGERPRINT
  {
    var child := new ExtendedKey();
    ok := DerivePathPriv(c, privKey, child, fingerprint, path);
    if !ok {
      SetFingerprint(fingerprint, NO_FINGERPRINT);
      return;
    }
    var f := ComputeFingerprint(c, child);
    if f.None? { return false; }
    SetFingerprint(fingerprint, f.value);
  }

  /** The four bytes written for the parent: zeros at depth 0, else the given or the computed fingerprint. */
  function ParentField<P>(c: Crypto<P>, depth: Byte, parentPub: Option<XKey>, given: Option<Fingerprint>)
    : (r: Option<Fingerprint>)
  {
    if depth == 0 then Some(NO_FINGERPRINT)
    else if parentPub.Some? then FingerprintOf(c, parentPub.value)
    else given
  }

  function OptionalKey(k: ExtendedKey?): Option<XKey>
    reads k
  {
    if k == null then None else Some(k.Value())
  }

  /** The field before the parent's own fingerprint is computed: the given one, or zeros. */
  function GivenField(given: Option<Fingerprint>): (f: Fingerprint) {
    if given.Some? then given.value else NO_FINGERPRINT
  }

  function Zeros(n: nat): (r: seq<Byte>) {
    seq(n, _ => 0)
  }

  method Clear(out: array<Byte>)
    modifies out
    ensures forall i | 0 <= i < out.Length :: out[i] == 0
  {
    forall i | 0 <= i < out.Length { out[i] := 0; }
  }

  /** Writes the version and the depth at the start of a cleared buffer. */
  method WriteHeader(version: Version, depth: Byte, out: array<Byte>)
    requires out.Length == SERIALIZED_SIZE
    requires forall i | 0 <= i < out.Length :: out[i] == 0
    modifies out
    ensures out[..5] == ToBE(version.Code(), 4) + [depth]
    ensures forall i | 5 <= i < out.Length :: out[i] == 0
  {
    var offset := 0;
    Fill(out, offset, ToBE(version.Code(), 4));
    offset := offset + 4;
    Fill(out, offset, [depth]);
  }

  /** Writes the parent fingerprint into four bytes that are still zero. */
  method WriteParent<P>(c: Crypto<P>, depth: Byte, parentPub: ExtendedKey?, given: array?<Byte>,
                        out: array<Byte>, offset: nat) returns (ok: bool)
    requires offset + 4 <= out.Length && out[offset..offset + 4] == NO_FINGERPRINT
    requires given != null ==> given.Length == 4 && given != out
    requires depth != 0 ==> parentPub != null || given != null
    modifies out, parentPub
    ensures ok == ParentField(c, depth, old(OptionalKey(parentPub)), old(OptionalFingerprint(given))).Some?
    ensures ok ==> out[..offset + 4] == old(out[..offset])
                   + ParentField(c, depth, old(OptionalKey(parentPub)), old(OptionalFingerprint(given))).value
    ensures ok && parentPub != null ==> parentPub.Value() == old(parentPub.Value())
    ensures !ok ==> out[..offset + 4] == old(out[..offset]) + GivenField(old(OptionalFingerprint(given)))
    ensures !ok ==> parentPub != null && parentPub.Value() == FingerprintResidue(c, old(parentPub.Value()))
    ensures forall i | offset + 4 <= i < out.Length :: out[i] == old(out[i])
  {
    assert out[..offset + 4] == out[..offset] + out[offset..offset + 4];
    if depth == 0 { return true; }
    if given != null { Fill(out, offset, given[..]); }
    if parentPub != null {
      assert out[..offset] == out[..offset + 4][..offset];
      var f := ComputeFingerprint(c, parentPub);
      if f.None? { return false; }
      Fill(out, offset, f.value);
    }
    ok := true;
  }

  /** Writes the child number, the chain code and the 33 bytes of the key. */
  method WriteChild(ext: ExtendedKey, childNum: U32, out: array<Byte>, start: nat)
    requires start + 69 == out.Length
    modifies out
    ensures out[..] == old(out[..start]) + ToBE(childNum, 4) + ext.chaincode + ext.Value().Head()
  {
    var offset := start;
    Fill(out, offset, ToBE(childNum, 4));
    offset := offset + 4;
    Fill(out, offset, ext.chaincode);
    offset := offset + 32;
    Fill(out, offset, [ext.prefix]);
    offset := offset + 1;
    Fill(out, offset, ext.key);
    offset := offset + 32;
    assert offset == out.Length && out[..] == out[..offset];
  }

  method SerializeExtKey<P>(c: Crypto<P>, ext: ExtendedKey, parentPub: ExtendedKey?, parentFingerprint: array?<Byte>,
                            version: Version, childNum: U32, depth: Byte, serialized: array<Byte>) returns (ok: bool)
    requires serialized.Length == SERIALIZED_SIZE
    requires parentFingerprint != null ==> parentFingerprint.Length == 4 && parentFingerprint != serialized
    requires if version.IsPub() then PublicPrefix(ext.prefix) else ext.prefix == PRIVKEY_PREFIX
    requires depth != 0 ==> parentPub != null || parentFingerprint != null
    requires depth != 0 && parentPub != null && parentFingerprint != null ==>
               FingerprintOf(c, parentPub.Value()) in {None, Some(parentFingerprint[..])}
    modifies serialized, parentPub
    ensures var given := old(OptionalFingerprint(parentFingerprint));
            var field := ParentField(c, depth, old(OptionalKey(parentPub)), given);
            && ok == (!AllZero(old(ext.chaincode)) && !AllZero(old(ext.key)) && field.Some?)
            && (ok ==> serialized[..] == Serialized(version, depth, field.value, childNum, old(ext.Value())))
    ensures !ok && (AllZero(old(ext.chaincode)) || AllZero(old(ext.key))) ==> serialized[..] == Zeros(SERIALIZED_SIZE)
    ensures !ok && !AllZero(old(ext.chaincode)) && !AllZero(old(ext.key)) ==>
              && serialized[..] == ToBE(version.Code(), 4) + [depth]
                                   + GivenField(old(OptionalFingerprint(parentFingerprint))) + Zeros(69)
              && parentPub != null && parentPub.Value() == FingerprintResidue(c, old(parentPub.Value()))
    ensures ok && parentPub != null ==> parentPub.Value() == old(parentPub.Value())
  {
    Clear(serialized);
    if AllZero(ext.chaincode) || AllZero(ext.key) {
      assert serialized[..] == Zeros(SERIALIZED_SIZE);
      return false;
    }
    WriteHeader(version, depth, serialized);
    var offset := 5;
    ok := WriteParent(c, depth, parentPub, parentFingerprint, serialized, offset);
    if !ok {
      assert serialized[..] == serialized[..9] + serialized[9..] && serialized[9..] == Zeros(69);
      return;
    }
    offset := offset + 4;
    WriteChild(ext, childNum, serialized, offset);
  }
}
