/**
 * Small certificates: a fixed-width codec, validation of one link and of a
 * chain from leaf to self-signed root, and issuing.  The clock is a parameter
 * and the signature scheme arbitrary.
 */
module Picocert {
  import opened Prelude
  import opened Endian

  const CURRENT_VERSION: Byte := 1
  const NAME_LEN: nat := 16
  const PUBKEY_LEN: nat := 33
  const SIG_LEN: nat := 64
  const CERT_LEN: nat := 146

  type Bytes = seq<Byte>
  type CertName = b: Bytes | |b| == NAME_LEN witness seq(NAME_LEN, _ => 0)
  type PubKey = b: Bytes | |b| == PUBKEY_LEN witness seq(PUBKEY_LEN, _ => 0)
  type Signature = b: Bytes | |b| == SIG_LEN witness seq(SIG_LEN, _ => 0)

  datatype CertError =
    | Invalid
    | Expired
    | BadSignature
    | WrongIssuer
    | WrongVersion
    | NotSelfSigned
    | InvalidValidityPeriod
    | MalformedSignatureInput
    | InvalidPublicKey
    | InvalidPrivateKey

  type Verdict = Result<(), CertError>

  datatype Certificate = Certificate(
    version: Byte,
    issuer: CertName,
    subject: CertName,
    validFrom: U64,
    validTo: U64,
    publicKey: PubKey,
    signature: Signature)

  datatype CertificateWithKey = CertificateWithKey(cert: Certificate, privateKey: Bytes)

  // ----- codec

  /** Everything but the signature. */
  function Signable(c: Certificate): (b: Bytes)
    ensures |b| == CERT_LEN - SIG_LEN
  {
    [c.version] + c.issuer + c.subject + ToLE(c.validFrom, 8) + ToLE(c.validTo, 8) + c.publicKey
  }

  function ToBytes(c: Certificate): (b: Bytes)
    ensures |b| == CERT_LEN
  {
    Signable(c) + c.signature
  }

  function U64At(b: Bytes, offset: nat): (v: U64)
    requires offset + 8 <= |b|
  {
    FromLEBound(b[offset..offset + 8]);
    WordSizes();
    FromLE(b[offset..offset + 8])
  }

  function FromBytes(b: Bytes): (r: Result<Certificate, CertError>) {
    if |b| != CERT_LEN then Err(Invalid)
    else Ok(Certificate(b[0], b[1..17], b[17..33], U64At(b, 33), U64At(b, 41), b[49..82], b[82..]))
  }

  method ParseCertificate(bytes: Bytes) returns (r: Result<Certificate, CertError>)
    ensures r == FromBytes(bytes)
  {
    if |bytes| != 1 + NAME_LEN * 2 + 8 * 2 + PUBKEY_LEN + SIG_LEN { return Err(Invalid); }
    var cursor := 0;
    var version := bytes[cursor];
    cursor := cursor + 1;
    var issuer := bytes[cursor..cursor + NAME_LEN];
    cursor := cursor + NAME_LEN;
    var subject := bytes[cursor..cursor + NAME_LEN];
    cursor := cursor + NAME_LEN;
    var validFrom := U64At(bytes, cursor);
    cursor := cursor + 8;
    var validTo := U64At(bytes, cursor);
    cursor := cursor + 8;
    var publicKey := bytes[cursor..cursor + PUBKEY_LEN];
    cursor := cursor + PUBKEY_LEN;
    var signature := bytes[cursor..cursor + SIG_LEN];
    assert signature == bytes[82..];
    return Ok(Certificate(version, issuer, subject, validFrom, validTo, publicKey, signature));
  }

  /** Where the signed bytes hold each field. */
  lemma SignableFields(c: Certificate)
    ensures var b := Signable(c);
            b[0] == c.version && b[1..17] == c.issuer && b[17..33] == c.subject && b[33..41] == ToLE(c.validFrom, 8)
            && b[41..49] == ToLE(c.validTo, 8) && b[49..82] == c.publicKey
  {
  }

  lemma U64RoundTrip(v: U64)
    ensures FromLE(ToLE(v, 8)) == v
  {
    WordSizes();
    FromToLE(v, 8);
  }

  /** Reading what was written gives the certificate back. */
  lemma FromToBytes(c: Certificate)
    ensures FromBytes(ToBytes(c)) == Ok(c)
  {
    hide ToLE, FromLE;
    SignableFields(c);
    U64RoundTrip(c.validFrom);
    U64RoundTrip(c.validTo);
    var b, s := ToBytes(c), Signable(c);
    assert b[0] == s[0] && b[1..17] == s[1..17] && b[17..33] == s[17..33];
    assert b[33..41] == s[33..41] && b[41..49] == s[41..49] && b[49..82] == s[49..82];
    assert b[82..] == c.signature;
  }

  /** Writing what was read gives the bytes back: every 146-byte string is one certificate. */
  lemma ToFromBytes(b: Bytes)
    requires |b| == CERT_LEN
    ensures FromBytes(b).Ok? && ToBytes(FromBytes(b).value) == b
  {
    hide ToLE, FromLE;
    ToFromLE(b[33..41]);
    ToFromLE(b[41..49]);
    assert b == [b[0]] + b[1..17] + b[17..33] + b[33..41] + b[41..49] + b[49..82] + b[82..];
  }

  /** The signed bytes determine every field but the signature. */
  lemma SignableIsInjective(c: Certificate, c': Certificate)
    requires Signable(c) == Signable(c')
    ensures c'.(signature := c.signature) == c
  {
    hide ToLE, FromLE, Signable;
    SignableFields(c);
    SignableFields(c');
    U64RoundTrip(c.validFrom);
    U64RoundTrip(c'.validFrom);
    U64RoundTrip(c.validTo);
    U64RoundTrip(c'.validTo);
  }

  // ----- validation

  /** ECDSA over SHA-256: parsing of signatures and keys, verification, and signing with a loaded key. */
  datatype Scheme = Scheme(
    wellFormed: Bytes -> bool,
    isPublicKey: PubKey -> bool,
    check: (PubKey, Bytes, Bytes) -> bool,
    isPrivateKey: Bytes -> bool,
    sign: (Bytes, Bytes) -> Signature)

  /** The key pair signs what it verifies. */
  ghost predicate KeyPair(s: Scheme, sk: Bytes, pk: PubKey) {
    && s.isPrivateKey(sk) && s.isPublicKey(pk)
    && forall data :: s.wellFormed(s.sign(sk, data)) && s.check(pk, data, s.sign(sk, data))
  }

  function Verify(s: Scheme, cert: Certificate, data: Bytes, sig: Bytes): (r: Verdict) {
    if !s.wellFormed(sig) then Err(MalformedSignatureInput)
    else if !s.isPublicKey(cert.publicKey) then Err(InvalidPublicKey)
    else if !s.check(cert.publicKey, data, sig) then Err(BadSignature)
    else Ok(())
  }

  predicate InWindow(c: Certificate, t: U64) {
    c.validFrom <= t <= c.validTo
  }

  /** The inner certificate's validity period lies inside the outer one's. */
  predicate Within(inner: Certificate, outer: Certificate) {
    outer.validFrom <= inner.validFrom && inner.validTo <= outer.validTo
  }

  function ValidateCert(s: Scheme, issuer: Certificate, subject: Certificate, now: U64): (r: Verdict) {
    if issuer.version != CURRENT_VERSION || subject.version != CURRENT_VERSION then Err(WrongVersion)
    else if issuer.subject != subject.issuer then Err(WrongIssuer)
    else if !InWindow(subject, now) || !InWindow(issuer, now) then Err(Expired)
    else if !Within(subject, issuer) then Err(InvalidValidityPeriod)
    else Verify(s, issuer, Signable(subject), subject.signature)
  }

  /** The chain runs from the leaf to the root; the first bad link decides. */
  function ValidateChain(s: Scheme, chain: seq<Certificate>, now: U64): (r: Verdict) {
    if chain == [] then Err(Invalid)
    else if |chain| == 1 then
      if chain[0].issuer != chain[0].subject then Err(NotSelfSigned) else ValidateCert(s, chain[0], chain[0], now)
    else
      match ValidateCert(s, chain[1], chain[0], now)
      case Err(e) => Err(e)
      case Ok(_) => ValidateChain(s, chain[1..], now)
  }

  method ValidateCertChain(s: Scheme, chain: seq<Certificate>, now: U64) returns (r: Verdict)
    ensures r == ValidateChain(s, chain, now)
  {
    if chain == [] { return Err(Invalid); }
    for i := 0 to |chain| - 1
      invariant ValidateChain(s, chain[i..], now) == ValidateChain(s, chain, now)
    {
      assert chain[i..][1..] == chain[i + 1..];
      var link := ValidateCert(s, chain[i + 1], chain[i], now);
      if link.Err? { return link; }
    }
    var root := chain[|chain| - 1];
    if root.issuer != root.subject { return Err(NotSelfSigned); }
    return ValidateCert(s, root, root, now);
  }

  function VerifyAndValidate(s: Scheme, chain: seq<Certificate>, data: Bytes, sig: Bytes, now: U64): (r: Verdict) {
    if chain == [] || data == [] then Err(Invalid)
    else
      match ValidateChain(s, chain, now)
      case Err(e) => Err(e)
      case Ok(_) => Verify(s, chain[0], data, sig)
  }

  /** What a link needs apart from the time. */
  predicate SoundLink(s: Scheme, issuer: Certificate, subject: Certificate) {
    && issuer.version == CURRENT_VERSION && subject.version == CURRENT_VERSION
    && issuer.subject == subject.issuer
    && Within(subject, issuer)
    && Verify(s, issuer, Signable(subject), subject.signature).Ok?
  }

  /** The certificate at `i` is vouched for by the next one, the root by itself. */
  predicate SoundAt(s: Scheme, chain: seq<Certificate>, i: nat)
    requires i < |chain|
  {
    if i + 1 < |chain| then SoundLink(s, chain[i + 1], chain[i])
    else chain[i].issuer == chain[i].subject && SoundLink(s, chain[i], chain[i])
  }

  predicate SoundChain(s: Scheme, chain: seq<Certificate>) {
    chain != [] && forall i | 0 <= i < |chain| :: SoundAt(s, chain, i)
  }

  /** Validity windows nest from leaf to root, across the whole chain. */
  lemma {:induction false} WindowsNest(s: Scheme, chain: seq<Certificate>, i: nat, j: nat)
    requires SoundChain(s, chain) && i <= j < |chain|
    ensures Within(chain[i], chain[j])
    decreases j - i
  {
    if i < j {
      WindowsNest(s, chain, i + 1, j);
      assert SoundAt(s, chain, i);
    }
  }

  lemma SoundSuffix(s: Scheme, chain: seq<Certificate>, k: nat)
    requires k < |chain|
    ensures SoundChain(s, chain[k..]) <==> forall i | k <= i < |chain| :: SoundAt(s, chain, i)
  {
    hide SoundLink;
    var suffix := chain[k..];
    assert forall i | 0 <= i < |suffix| :: SoundAt(s, suffix, i) == SoundAt(s, chain, k + i);
    forall i | k <= i < |chain|
      ensures SoundAt(s, chain, i) == SoundAt(s, suffix, i - k)
    {}
  }

  /** A link validates exactly when it is sound and both certificates are current. */
  lemma LinkValidIff(s: Scheme, issuer: Certificate, subject: Certificate, now: U64)
    ensures ValidateCert(s, issuer, subject, now).Ok? <==>
            SoundLink(s, issuer, subject) && InWindow(subject, now) && InWindow(issuer, now)
  {
  }

  /** A chain validates exactly when it is sound and the time lies in the leaf's own window. */
  lemma {:induction false} ChainValidIff(s: Scheme, chain: seq<Certificate>, now: U64)
    ensures ValidateChain(s, chain, now).Ok? <==> SoundChain(s, chain) && InWindow(chain[0], now)
  {
    hide ValidateCert, SoundLink, SoundChain;
    if chain == [] {
      EmptyIsUnsound(s);
    } else if |chain| == 1 {
      LinkValidIff(s, chain[0], chain[0], now);
      SoundSuffix(s, chain, 0);
      assert chain[0..] == chain;
      assert SoundAt(s, chain, 0) == (chain[0].issuer == chain[0].subject && SoundLink(s, chain[0], chain[0]));
    } else {
      LinkValidIff(s, chain[1], chain[0], now);
      ChainValidIff(s, chain[1..], now);
      SoundSuffix(s, chain, 0);
      SoundSuffix(s, chain, 1);
      assert chain[0..] == chain;
      assert SoundAt(s, chain, 0) == SoundLink(s, chain[1], chain[0]);
      if SoundLink(s, chain[1], chain[0]) { LinkNests(s, chain[1], chain[0]); }
    }
  }

  lemma EmptyIsUnsound(s: Scheme)
    ensures !SoundChain(s, [])
  {
  }

  lemma LinkNests(s: Scheme, issuer: Certificate, subject: Certificate)
    requires SoundLink(s, issuer, subject)
    ensures Within(subject, issuer)
  {
  }

  /** A chain that validates once validates again exactly when the leaf is current, and its windows nest. */
  lemma {:induction false} ValidatesAgain(s: Scheme, chain: seq<Certificate>, t: U64, t': U64)
    requires ValidateChain(s, chain, t).Ok?
    ensures ValidateChain(s, chain, t').Ok? <==> InWindow(chain[0], t')
    ensures forall i, j | 0 <= i <= j < |chain| :: Within(chain[i], chain[j])
  {
    ChainValidIff(s, chain, t);
    ChainValidIff(s, chain, t');
    forall i, j | 0 <= i <= j < |chain|
      ensures Within(chain[i], chain[j])
    {
      WindowsNest(s, chain, i, j);
    }
  }

  /** Every certificate of a valid chain heads a valid chain. */
  lemma SuffixValidates(s: Scheme, chain: seq<Certificate>, t: U64, k: nat)
    requires ValidateChain(s, chain, t).Ok? && k < |chain|
    ensures ValidateChain(s, chain[k..], t).Ok?
  {
    ChainValidIff(s, chain, t);
    ChainValidIff(s, chain[k..], t);
    SoundSuffix(s, chain, k);
    WindowsNest(s, chain, 0, k);
  }

  // ----- which error

  predicate Outside(c: Certificate, t: U64) {
    t < c.validFrom || t > c.validTo
  }

  /** Version, names and dates of a link are in order, so that its signature is looked at. */
  predicate Checkable(issuer: Certificate, subject: Certificate, now: U64) {
    && issuer.version == 1 && subject.version == 1 && issuer.subject == subject.issuer
    && !Outside(subject, now) && !Outside(issuer, now)
    && issuer.validFrom <= subject.validFrom && subject.validTo <= issuer.validTo
  }

  /** Why a link is refused: versions, then names, then dates, then nesting, then the signature. */
  predicate LinkFault(s: Scheme, issuer: Certificate, subject: Certificate, now: U64, e: CertError) {
    var versions := issuer.version == 1 && subject.version == 1;
    var names := versions && issuer.subject == subject.issuer;
    var dates := names && !Outside(subject, now) && !Outside(issuer, now);
    match e
    case WrongVersion => !versions
    case WrongIssuer => versions && !names
    case Expired => names && !dates
    case InvalidValidityPeriod =>
      dates && (subject.validFrom < issuer.validFrom || subject.validTo > issuer.validTo)
    case MalformedSignatureInput => Checkable(issuer, subject, now) && !s.wellFormed(subject.signature)
    case InvalidPublicKey =>
      Checkable(issuer, subject, now) && s.wellFormed(subject.signature) && !s.isPublicKey(issuer.publicKey)
    case BadSignature =>
      && Checkable(issuer, subject, now) && s.wellFormed(subject.signature) && s.isPublicKey(issuer.publicKey)
      && !s.check(issuer.publicKey, Signable(subject), subject.signature)
    case _ => false
  }

  lemma LinkErrorIff(s: Scheme, issuer: Certificate, subject: Certificate, now: U64, e: CertError)
    ensures ValidateCert(s, issuer, subject, now) == Err(e) <==> LinkFault(s, issuer, subject, now, e)
  {
    hide Signable;
  }

  /** The link at `i` is refused with `e` and all links before it are accepted; the root must also name itself. */
  predicate ChainFaultAt(s: Scheme, chain: seq<Certificate>, now: U64, i: nat, e: CertError)
    requires i < |chain|
  {
    && (forall j | 0 <= j < i :: ValidateCert(s, chain[j + 1], chain[j], now).Ok?)
    && if i + 1 < |chain| then LinkFault(s, chain[i + 1], chain[i], now, e)
       else if chain[i].issuer != chain[i].subject then e == NotSelfSigned
       else LinkFault(s, chain[i], chain[i], now, e)
  }

  predicate ChainFault(s: Scheme, chain: seq<Certificate>, now: U64, e: CertError) {
    if chain == [] then e == Invalid else exists i | 0 <= i < |chain| :: ChainFaultAt(s, chain, now, i, e)
  }

  lemma ChainFaultBehind(s: Scheme, chain: seq<Certificate>, now: U64, e: CertError)
    requires |chain| > 1 && ValidateCert(s, chain[1], chain[0], now).Ok? && ChainFault(s, chain[1..], now, e)
    ensures ChainFault(s, chain, now, e)
  {
    hide ValidateCert, LinkFault;
    var rest := chain[1..];
    var i :| 0 <= i < |rest| && ChainFaultAt(s, rest, now, i, e);
    forall j | 0 <= j < i + 1
      ensures ValidateCert(s, chain[j + 1], chain[j], now).Ok?
    {
      if j > 0 { assert ValidateCert(s, rest[j - 1 + 1], rest[j - 1], now).Ok?; }
    }
    assert ChainFaultAt(s, chain, now, i + 1, e);
  }

  /** A refused chain is empty, or refused for its first bad link. */
  lemma {:induction false} ChainErrorIsExplained(s: Scheme, chain: seq<Certificate>, now: U64)
    ensures ValidateChain(s, chain, now).Err? ==> ChainFault(s, chain, now, ValidateChain(s, chain, now).error)
  {
    hide ValidateCert, LinkFault;
    if chain != [] && ValidateChain(s, chain, now).Err? {
      var e := ValidateChain(s, chain, now).error;
      LinkErrorIff(s, if |chain| > 1 then chain[1] else chain[0], chain[0], now, e);
      if |chain| == 1 || ValidateCert(s, chain[1], chain[0], now).Err? {
        assert ChainFaultAt(s, chain, now, 0, e);
      } else {
        ChainErrorIsExplained(s, chain[1..], now);
        ChainFaultBehind(s, chain, now, e);
      }
    }
  }

  // ----- issuing

  /** Copies into a fixed-size array: cut off if too long, padded with zeros if too short. */
  function CopyWithZeros(src: Bytes, n: nat): (r: Bytes)
    ensures |r| == n
    ensures forall i | 0 <= i < n :: r[i] == if i < |src| then src[i] else 0
    ensures |src| == n ==> r == src
  {
    if |src| >= n then src[..n] else src + seq(n - |src|, _ => 0)
  }

  function SignWith(s: Scheme, k: CertificateWithKey, data: Bytes): (r: Result<Signature, CertError>) {
    if s.isPrivateKey(k.privateKey) then Ok(s.sign(k.privateKey, data)) else Err(InvalidPrivateKey)
  }

  /** The new certificate before it is signed. */
  function Draft(issuer: CertName, subject: Bytes, validFrom: U64, validTo: U64, pk: PubKey): (c: Certificate) {
    Certificate(CURRENT_VERSION, issuer, CopyWithZeros(subject, NAME_LEN), validFrom, validTo, pk, seq(SIG_LEN, _ => 0))
  }

  /** Issues for a fresh key pair; without an issuer the certificate signs itself. */
  function Issue(s: Scheme, issuer: Option<CertificateWithKey>, subject: Bytes, validFrom: U64, validTo: U64,
                 sk: Bytes, pk: PubKey, now: U64): (r: Result<CertificateWithKey, CertError>)
  {
    var issuerName := if issuer.Some? then issuer.value.cert.subject else CopyWithZeros(subject, NAME_LEN);
    var draft := Draft(issuerName, subject, validFrom, validTo, pk);
    var signer := if issuer.Some? then issuer.value else CertificateWithKey(draft, sk);
    match SignWith(s, signer, Signable(draft))
    case Err(e) => Err(e)
    case Ok(sig) =>
      var cert := draft.(signature := sig);
      var checker := if issuer.Some? then issuer.value.cert else cert;
      match ValidateCert(s, checker, cert, now)
      case Err(e) => Err(e)
      case Ok(_) => Ok(CertificateWithKey(cert, sk))
  }

  /** What issuing promises about the certificate it returns, field by field. */
  predicate IssuedFor(s: Scheme, issuer: Option<CertificateWithKey>, subject: Bytes, validFrom: U64, validTo: U64,
                      sk: Bytes, pk: PubKey, made: CertificateWithKey)
  {
    && made.privateKey == sk && made.cert.publicKey == pk
    && made.cert.version == CURRENT_VERSION
    && made.cert.validFrom == validFrom && made.cert.validTo == validTo
    && (forall i | 0 <= i < NAME_LEN :: made.cert.subject[i] == if i < |subject| then subject[i] else 0)
    && made.cert.issuer == (if issuer.Some? then issuer.value.cert.subject else made.cert.subject)
    && made.cert.signature == s.sign(if issuer.Some? then issuer.value.privateKey else sk, Signable(made.cert))
  }

  /** An issued certificate is for the requested name, window and key pair, and signed by the issuer's key. */
  lemma IssuedFields(s: Scheme, issuer: Option<CertificateWithKey>, subject: Bytes, validFrom: U64, validTo: U64,
                     sk: Bytes, pk: PubKey, now: U64)
    ensures var r := Issue(s, issuer, subject, validFrom, validTo, sk, pk, now);
            r.Ok? ==> IssuedFor(s, issuer, subject, validFrom, validTo, sk, pk, r.value)
  {
    hide ValidateCert;
    var r := Issue(s, issuer, subject, validFrom, validTo, sk, pk, now);
    if r.Ok? {
      var draft := r.value.cert.(signature := seq(SIG_LEN, _ => 0));
      assert Signable(draft) == Signable(r.value.cert);
      hide Signable;
    }
  }

  /** The steps of `issue`, on a certificate filled in field by field. */
  method IssueCertificate(s: Scheme, issuer: Option<CertificateWithKey>, subject: Bytes, validFrom: U64, validTo: U64,
                          sk: Bytes, pk: PubKey, now: U64) returns (r: Result<CertificateWithKey, CertError>)
    ensures r == Issue(s, issuer, subject, validFrom, validTo, sk, pk, now)
    ensures r.Ok? ==> IssuedFor(s, issuer, subject, validFrom, validTo, sk, pk, r.value)
    ensures r.Ok? ==> ValidateCert(s, if issuer.Some? then issuer.value.cert else r.value.cert, r.value.cert, now).Ok?
  {
    IssuedFields(s, issuer, subject, validFrom, validTo, sk, pk, now);
    var blank := seq(NAME_LEN, _ => 0);
    var cert := Certificate(CURRENT_VERSION, blank, blank, 0, 0, seq(PUBKEY_LEN, _ => 0), seq(SIG_LEN, _ => 0));
    cert := cert.(subject := CopyWithZeros(subject, NAME_LEN));
    cert := cert.(validFrom := validFrom);
    cert := cert.(validTo := validTo);
    cert := cert.(publicKey := pk);
    if issuer.Some? {
      cert := cert.(issuer := issuer.value.cert.subject);
      var sig := SignWith(s, issuer.value, Signable(cert));
      if sig.Err? { return Err(sig.error); }
      cert := cert.(signature := sig.value);
      var checked := ValidateCert(s, issuer.value.cert, cert, now);
      if checked.Err? { return Err(checked.error); }
    } else {
      cert := cert.(issuer := cert.subject);
      var sig := SignWith(s, CertificateWithKey(cert, sk), Signable(cert));
      if sig.Err? { return Err(sig.error); }
      cert := cert.(signature := sig.value);
      var checked := ValidateCert(s, cert, cert, now);
      if checked.Err? { return Err(checked.error); }
    }
    return Ok(CertificateWithKey(cert, sk));
  }

  /** With matching keys, issuing succeeds exactly when the windows allow it. */
  lemma IssueSucceedsIff(s: Scheme, issuer: Option<CertificateWithKey>, subject: Bytes, validFrom: U64, validTo: U64,
                         sk: Bytes, pk: PubKey, now: U64)
    requires issuer.Some? ==> KeyPair(s, issuer.value.privateKey, issuer.value.cert.publicKey)
    requires issuer.None? ==> KeyPair(s, sk, pk)
    ensures Issue(s, issuer, subject, validFrom, validTo, sk, pk, now).Ok? <==>
            validFrom <= now <= validTo
            && (issuer.Some? ==> issuer.value.cert.version == CURRENT_VERSION
                                 && issuer.value.cert.validFrom <= validFrom && validTo <= issuer.value.cert.validTo)
  {
    var issuerName := if issuer.Some? then issuer.value.cert.subject else CopyWithZeros(subject, NAME_LEN);
    var draft := Draft(issuerName, subject, validFrom, validTo, pk);
    var sig := s.sign(if issuer.Some? then issuer.value.privateKey else sk, Signable(draft));
    assert Signable(draft.(signature := sig)) == Signable(draft);
    hide Signable;
  }

  /** One successful call of `issue` made this certificate and kept this key. */
  ghost predicate Issued(s: Scheme, issuer: Option<CertificateWithKey>, made: CertificateWithKey) {
    exists subject, start, end, pk, now ::
      Issue(s, issuer, subject, start, end, made.privateKey, pk, now) == Ok(made)
  }

  /** As `Issued`, with a key pair that was freshly generated as a pair. */
  ghost predicate IssuedFresh(s: Scheme, issuer: Option<CertificateWithKey>, made: CertificateWithKey) {
    exists subject, start, end, sk, pk, now ::
      Issue(s, issuer, subject, start, end, sk, pk, now) == Ok(made) && KeyPair(s, sk, pk)
  }

  function IssuerAbove(chain: seq<CertificateWithKey>): (r: Option<CertificateWithKey>) {
    if |chain| > 1 then Some(chain[1]) else None
  }

  /** Leaf first: each certificate was issued, at some time, by the next; the last signed itself. */
  ghost predicate Grown(s: Scheme, chain: seq<CertificateWithKey>) {
    chain != []
    && Issued(s, IssuerAbove(chain), chain[0])
    && (|chain| > 1 ==> Grown(s, chain[1..]))
  }

  function Certs(chain: seq<CertificateWithKey>): (r: seq<Certificate>)
    ensures |r| == |chain| && forall i | 0 <= i < |chain| :: r[i] == chain[i].cert
  {
    seq(|chain|, i requires 0 <= i < |chain| => chain[i].cert)
  }

  lemma IssuedLinkIsSound(s: Scheme, issuer: Option<CertificateWithKey>, subject: Bytes, start: U64, end: U64,
                          sk: Bytes, pk: PubKey, now: U64)
    requires Issue(s, issuer, subject, start, end, sk, pk, now).Ok?
    ensures var cert := Issue(s, issuer, subject, start, end, sk, pk, now).value.cert;
            if issuer.Some? then SoundLink(s, issuer.value.cert, cert)
            else cert.issuer == cert.subject && SoundLink(s, cert, cert)
  {
    hide Signable;
  }

  /** However many issue calls built it, and whenever they were made, a grown chain is sound. */
  lemma {:induction false} GrownChainIsSound(s: Scheme, chain: seq<CertificateWithKey>)
    requires Grown(s, chain)
    ensures SoundChain(s, Certs(chain))
  {
    hide Issue, SoundLink;
    var subject, start, end, pk, now :|
      Issue(s, IssuerAbove(chain), subject, start, end, chain[0].privateKey, pk, now) == Ok(chain[0]);
    IssuedLinkIsSound(s, IssuerAbove(chain), subject, start, end, chain[0].privateKey, pk, now);
    assert SoundAt(s, Certs(chain), 0);
    if |chain| > 1 {
      GrownChainIsSound(s, chain[1..]);
      assert Certs(chain[1..]) == Certs(chain)[1..];
      SoundSuffix(s, Certs(chain), 1);
    }
  }

  /**
   * A grown chain validates exactly while its leaf is current, and then whatever nonempty data
   * the leaf's key signs is accepted under it.
   */
  lemma GrownChainValidates(s: Scheme, chain: seq<CertificateWithKey>, data: Bytes, t: U64)
    requires Grown(s, chain) && IssuedFresh(s, IssuerAbove(chain), chain[0])
    ensures ValidateChain(s, Certs(chain), t).Ok? <==> InWindow(chain[0].cert, t)
    ensures VerifyAndValidate(s, Certs(chain), data, s.sign(chain[0].privateKey, data), t).Ok? <==>
            data != [] && InWindow(chain[0].cert, t)
  {
    hide Issue, SoundChain, ValidateChain;
    GrownChainIsSound(s, chain);
    ChainValidIff(s, Certs(chain), t);
    var subject, start, end, sk, pk, now :|
      Issue(s, IssuerAbove(chain), subject, start, end, sk, pk, now) == Ok(chain[0]) && KeyPair(s, sk, pk);
    IssuedFields(s, IssuerAbove(chain), subject, start, end, sk, pk, now);
    assert KeyPair(s, chain[0].privateKey, chain[0].cert.publicKey);
  }
}
