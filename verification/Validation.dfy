/** Validation of an action's value: length, control bytes, invisible characters, mixed scripts. */
module Validation {
  import opened Prelude
  import opened Utf8

  const UNIT_SEPARATOR: Byte := 0x1F
  const MAX_VALUE_LENGTH: nat := 128

  datatype ValidationError =
    | ContainsDelimiter(position: nat)
    | ControlCharacter(position: nat, byte: Byte)
    | DangerousCharacter(position: nat)
    | MixedScripts
    | Empty
    | TooLong(max: nat)

  type Verdict = Result<(), ValidationError>

  predicate Control(b: Byte) {
    b < 0x20 || b == 0x7F
  }

  /** Zero-width characters, bidirectional overrides and the byte order mark. */
  predicate Dangerous(c: char) {
    '\U{200B}' <= c <= '\U{200D}' || '\U{202A}' <= c <= '\U{202E}' || c == '\U{FEFF}'
  }

  predicate Latin(c: char) {
    'a' <= c <= 'z' || 'A' <= c <= 'Z'
  }

  predicate Cyrillic(c: char) {
    '\U{0400}' <= c <= '\U{04FF}'
  }

  predicate Greek(c: char) {
    '\U{0370}' <= c <= '\U{03FF}'
  }

  predicate Armenian(c: char) {
    '\U{0530}' <= c <= '\U{058F}'
  }

  predicate Confusable(c: char) {
    Cyrillic(c) || Greek(c) || Armenian(c)
  }

  predicate MixedScriptsIn(s: string) {
    (exists c | c in s :: Latin(c)) && (exists c | c in s :: Confusable(c))
  }

  /** What the checks are for: a short, printable, visible text in one alphabet. */
  predicate ValidValue(s: string) {
    && s != ""
    && |Encode(s)| <= MAX_VALUE_LENGTH
    && (forall c | c in s :: c >= ' ' && c != '\U{7F}' && !Dangerous(c))
    && !MixedScriptsIn(s)
  }

  function FirstIndex<T>(s: seq<T>, p: T -> bool): (r: Option<nat>)
    ensures r.Some? ==> r.value < |s| && p(s[r.value]) && forall j | 0 <= j < r.value :: !p(s[j])
    ensures r.None? ==> forall j | 0 <= j < |s| :: !p(s[j])
  {
    if s == [] then None
    else if p(s[0]) then Some(0)
    else
      match FirstIndex(s[1..], p)
      case None => None
      case Some(i) => Some(i + 1)
  }

  /** There is only one first index. */
  lemma FirstIndexIs<T>(s: seq<T>, p: T -> bool, i: nat)
    requires i < |s| && p(s[i]) && forall j | 0 <= j < i :: !p(s[j])
    ensures FirstIndex(s, p) == Some(i)
  {
  }

  lemma FirstIndexNone<T>(s: seq<T>, p: T -> bool)
    requires forall j | 0 <= j < |s| :: !p(s[j])
    ensures FirstIndex(s, p) == None
  {
  }

  function SafetyVerdict(s: string): (r: Verdict) {
    match FirstIndex(s, Dangerous)
    case Some(i) => Err(DangerousCharacter(i))
    case None => if MixedScriptsIn(s) then Err(MixedScripts) else Ok(())
  }

  /** The first check that fails decides, at the first position where it fails. */
  function ValueVerdict(s: string): (r: Verdict) {
    if s == "" then Err(Empty)
    else if |Encode(s)| > MAX_VALUE_LENGTH then Err(TooLong(MAX_VALUE_LENGTH))
    else
      match FirstIndex(Encode(s), Control)
      case Some(i) =>
        if Encode(s)[i] == UNIT_SEPARATOR then Err(ContainsDelimiter(i))
        else Err(ControlCharacter(i, Encode(s)[i]))
      case None => SafetyVerdict(s)
  }

  /** An absent value and an empty one both stand for "no value". */
  function OptionalVerdict(value: Option<string>): (r: Verdict) {
    if value.None? || value.value == "" then Ok(()) else ValueVerdict(value.value)
  }

  lemma ControlBytesAreControlCharacters(s: string)
    ensures (exists b | b in Encode(s) :: Control(b)) <==> (exists c | c in s :: c < ' ' || c == '\U{7F}')
  {
    if b :| b in Encode(s) && Control(b) {
      AsciiOccurs(s, b as char);
      assert b as char in s;
    }
    if c :| c in s && (c < ' ' || c == '\U{7F}') {
      AsciiOccurs(s, c);
      var b: Byte := c as int;
      assert b in Encode(s) && Control(b);
    }
  }

  /** The verdict is Ok exactly on the valid values. */
  lemma VerdictIsExact(s: string)
    ensures ValueVerdict(s).Ok? <==> ValidValue(s)
  {
    ControlBytesAreControlCharacters(s);
    if s != "" && |Encode(s)| <= MAX_VALUE_LENGTH {
      match FirstIndex(Encode(s), Control)
      case Some(i) =>
        assert Encode(s)[i] in Encode(s);
      case None =>
        assert forall b | b in Encode(s) :: !Control(b);
        match FirstIndex(s, Dangerous)
        case Some(i) => assert s[i] in s;
        case None => assert forall c | c in s :: !Dangerous(c);
    }
  }

  // ----- which error, and where

  predicate ControlCharacterIn(s: string, k: nat)
    requires k < |s|
  {
    s[k] < ' ' || s[k] == '\U{7F}'
  }

  function ControlError(position: nat, byte: Byte): (e: ValidationError) {
    if byte == 0x1F then ContainsDelimiter(position) else ControlCharacter(position, byte)
  }

  /** The first control character, and the number of bytes in front of it. */
  predicate ControlFault(s: string, k: nat, e: ValidationError)
    requires k < |s|
  {
    && ControlCharacterIn(s, k)
    && (forall j | 0 <= j < k :: !ControlCharacterIn(s, j))
    && e == ControlError(|Encode(s[..k])|, s[k] as int)
  }

  /** The first dangerous character, and the number of characters in front of it. */
  predicate DangerFault(s: string, k: nat, e: ValidationError)
    requires k < |s|
  {
    Dangerous(s[k]) && (forall j | 0 <= j < k :: !Dangerous(s[j])) && e == DangerousCharacter(k)
  }

  /** Why a value is refused, said of its characters. */
  predicate ValueFault(s: string, e: ValidationError) {
    if s == "" then e == Empty
    else if |Encode(s)| > 128 then e == TooLong(128)
    else if exists k | 0 <= k < |s| :: ControlCharacterIn(s, k) then
      exists k | 0 <= k < |s| :: ControlFault(s, k, e)
    else if exists k | 0 <= k < |s| :: Dangerous(s[k]) then
      exists k | 0 <= k < |s| :: DangerFault(s, k, e)
    else MixedScriptsIn(s) && e == MixedScripts
  }

  /** A control character among the first `k` shows as a control byte among theirs. */
  lemma ControlByteOf(s: string, j: nat, k: nat) returns (q: nat)
    requires j < k <= |s| && ControlCharacterIn(s, j)
    ensures q < |Encode(s[..k])| <= |Encode(s)| && Control(Encode(s)[q])
  {
    hide Encode;
    AsciiOccurs(s[..k], s[j]);
    assert s[j] == s[..k][j];
    q :| 0 <= q < |Encode(s[..k])| && Encode(s[..k])[q] == s[j] as int;
    assert s == s[..k] + s[k..];
    EncodeConcat(s[..k], s[k..]);
  }

  lemma ControlIsFound(s: string, p: nat)
    requires FirstIndex(Encode(s), Control) == Some(p)
    ensures exists k | 0 <= k < |s| :: ControlFault(s, k, ControlError(p, Encode(s)[p]))
  {
    hide Encode, FirstIndex;
    var k := AsciiByteAt(s, p);
    if j :| 0 <= j < k && ControlCharacterIn(s, j) {
      var q := ControlByteOf(s, j, k);
      assert false;
    }
    assert ControlFault(s, k, ControlError(p, Encode(s)[p]));
  }

  lemma NoControlCharacters(s: string, k: nat)
    requires FirstIndex(Encode(s), Control).None? && k < |s|
    ensures !ControlCharacterIn(s, k)
  {
    hide Encode, FirstIndex;
    if ControlCharacterIn(s, k) {
      var q := ControlByteOf(s, k, k + 1);
      assert false;
    }
  }

  lemma SafetyErrorIsFault(s: string)
    requires s != "" && |Encode(s)| <= 128 && SafetyVerdict(s).Err?
    requires forall k | 0 <= k < |s| :: !ControlCharacterIn(s, k)
    ensures ValueFault(s, SafetyVerdict(s).error)
  {
    match FirstIndex(s, Dangerous)
    case Some(k) => assert DangerFault(s, k, DangerousCharacter(k));
    case None =>
  }

  lemma ErrorIsFault(s: string)
    requires ValueVerdict(s).Err?
    ensures ValueFault(s, ValueVerdict(s).error)
  {
    hide Encode, FirstIndex, SafetyVerdict;
    if s != "" && |Encode(s)| <= MAX_VALUE_LENGTH {
      match FirstIndex(Encode(s), Control)
      case Some(p) => ControlIsFound(s, p);
      case None =>
        forall k | 0 <= k < |s|
          ensures !ControlCharacterIn(s, k)
        {
          NoControlCharacters(s, k);
        }
        SafetyErrorIsFault(s);
    }
  }

  lemma FaultIsUnique(s: string, e: ValidationError, e': ValidationError)
    requires ValueFault(s, e) && ValueFault(s, e')
    ensures e == e'
  {
    hide Encode, Dangerous, MixedScriptsIn;
    if s != "" && |Encode(s)| <= 128 {
      if exists k | 0 <= k < |s| :: ControlCharacterIn(s, k) {
        var k :| 0 <= k < |s| && ControlFault(s, k, e);
        var k' :| 0 <= k' < |s| && ControlFault(s, k', e');
        assert k == k';
      } else if exists k | 0 <= k < |s| :: Dangerous(s[k]) {
        var k :| 0 <= k < |s| && DangerFault(s, k, e);
        var k' :| 0 <= k' < |s| && DangerFault(s, k', e');
        assert k == k';
      }
    }
  }

  lemma FaultIsInvalid(s: string, e: ValidationError)
    requires ValueFault(s, e)
    ensures !ValidValue(s)
  {
    hide Encode;
    if s != "" && |Encode(s)| <= 128 {
      if k :| 0 <= k < |s| && ControlCharacterIn(s, k) {
        assert s[k] in s;
      } else if k :| 0 <= k < |s| && Dangerous(s[k]) {
        assert s[k] in s;
      }
    }
  }

  /** A value is refused with exactly this error: the first check that fails, where it first fails. */
  lemma ErrorIff(s: string, e: ValidationError)
    ensures ValueVerdict(s) == Err(e) <==> ValueFault(s, e)
  {
    hide ValueVerdict, ValueFault, ValidValue;
    VerdictIsExact(s);
    if ValueVerdict(s).Err? { ErrorIsFault(s); }
    if ValueFault(s, e) {
      FaultIsInvalid(s, e);
      FaultIsUnique(s, e, ValueVerdict(s).error);
    }
  }

  method CheckUnicodeSafety(value: string) returns (r: Verdict)
    ensures r == SafetyVerdict(value)
  {
    var hasLatin, hasCyrillic, hasGreek, hasArmenian := false, false, false, false;
    for position := 0 to |value|
      invariant forall j | 0 <= j < position :: !Dangerous(value[j])
      invariant hasLatin <==> exists j | 0 <= j < position :: Latin(value[j])
      invariant hasCyrillic || hasGreek || hasArmenian <==> exists j | 0 <= j < position :: Confusable(value[j])
    {
      var c := value[position];
      if Dangerous(c) {
        FirstIndexIs(value, Dangerous, position);
        return Err(DangerousCharacter(position));
      }
      if Latin(c) {
        hasLatin := true;
      } else if Cyrillic(c) {
        hasCyrillic := true;
      } else if Greek(c) {
        hasGreek := true;
      } else if Armenian(c) {
        hasArmenian := true;
      }
    }
    FirstIndexNone(value, Dangerous);
    if hasLatin && (hasCyrillic || hasGreek || hasArmenian) {
      return Err(MixedScripts);
    }
    return Ok(());
  }

  method ValidateValue(value: string) returns (r: Verdict)
    ensures r == ValueVerdict(value)
    ensures r.Ok? <==> ValidValue(value)
    ensures r.Err? ==> ValueFault(value, r.error)
  {
    VerdictIsExact(value);
    if ValueVerdict(value).Err? { ErrorIsFault(value); }
    hide ValueFault;
    if value == "" { return Err(Empty); }
    var bytes := Encode(value);
    if |bytes| > MAX_VALUE_LENGTH { return Err(TooLong(MAX_VALUE_LENGTH)); }
    for position := 0 to |bytes|
      invariant forall j | 0 <= j < position :: !Control(bytes[j])
    {
      var byte := bytes[position];
      if byte < 0x20 || byte == 0x7F {
        FirstIndexIs(bytes, Control, position);
        if byte == UNIT_SEPARATOR { return Err(ContainsDelimiter(position)); }
        return Err(ControlCharacter(position, byte));
      }
    }
    FirstIndexNone(bytes, Control);
    r := CheckUnicodeSafety(value);
  }
}
