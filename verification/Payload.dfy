/**
 * The canonical payload of an action proof,
 * `ACTIONPROOF␟1␟Action␟Value␟key1=val1,key2=val2`: the validators, the
 * printer, the parser and the errors they report.
 */
module Payload {
  import opened Prelude
  import opened Utf8
  import opened Splitting
  import opened Validation
  import opened Actions
  import opened Lex

  const MAGIC := "ACTIONPROOF"
  const VERSION := "1"
  const SEPARATOR := '\U{1F}'

  /** A binding key and its value. */
  type Binding = (string, string)

  datatype BuildError =
    | BuildNotSorted(first: string, second: string)
    | BuildDuplicateKey(key: string)
    | EmptyBindingKey
    | InvalidBindingKey(key: string)
    | InvalidBindingValue(value: string)
    | BuildInvalidValue(error: ValidationError)

  datatype ParseError =
    | InvalidPartCount(count: nat)
    | InvalidMagic(magic: string)
    | UnsupportedVersion(version: Byte)
    | NonCanonicalVersion(text: string)
    | InvalidVersionFormat
    | InvalidAction(name: string)
    | InvalidUtf8(field: string)
    | InvalidBindingFormat(pair: string)
    | ParseDuplicateKey(key: string)
    | ParseNotSorted(first: string, second: string)
    | ParseInvalidValue(error: ValidationError)

  datatype Parsed = Parsed(action: Action, value: Option<string>, bindings: seq<Binding>)

  // ----- order of the bindings

  /** String order is the order of the UTF-8 bytes. */
  predicate KeyLess(a: string, b: string) {
    Less(Encode(a), Encode(b))
  }

  predicate StrictlySorted(bs: seq<Binding>) {
    forall i, j | 0 <= i < j < |bs| :: KeyLess(bs[i].0, bs[j].0)
  }

  datatype Order = Sorted | Swapped(first: string, second: string) | Repeated(key: string)

  /** What the window scan finds: the first adjacent pair out of order or equal. */
  function OrderOf(bs: seq<Binding>): (r: Order) {
    if |bs| < 2 then Sorted
    else if KeyLess(bs[1].0, bs[0].0) then Swapped(bs[0].0, bs[1].0)
    else if bs[0].0 == bs[1].0 then Repeated(bs[0].0)
    else OrderOf(bs[1..])
  }

  lemma KeysAreComparable(a: string, b: string)
    ensures a == b || KeyLess(a, b) || KeyLess(b, a)
    ensures !KeyLess(a, a)
    ensures KeyLess(a, b) ==> !KeyLess(b, a)
  {
    Total(Encode(a), Encode(b));
    Irreflexive(Encode(a));
    if Encode(a) == Encode(b) {
      DecodeEncode(a);
      DecodeEncode(b);
    }
    if KeyLess(a, b) && KeyLess(b, a) { Transitive(Encode(a), Encode(b), Encode(a)); }
  }

  /** Comparing neighbours only is enough. */
  lemma {:induction false} WindowScanIsExact(bs: seq<Binding>)
    ensures OrderOf(bs) == Sorted <==> StrictlySorted(bs)
  {
    if |bs| >= 2 {
      KeysAreComparable(bs[0].0, bs[1].0);
      WindowScanIsExact(bs[1..]);
      assert forall i, j | 0 < i < j < |bs| :: bs[i] == bs[1..][i - 1] && bs[j] == bs[1..][j - 1];
      if OrderOf(bs) == Sorted {
        forall j | 0 < j < |bs|
          ensures KeyLess(bs[0].0, bs[j].0)
        {
          if j > 1 { Transitive(Encode(bs[0].0), Encode(bs[1].0), Encode(bs[j].0)); }
        }
      }
    }
  }

  // ----- content of the bindings

  predicate ContainsReservedByte(s: string) {
    exists b | b in Encode(s) :: b == UNIT_SEPARATOR || b == '=' as int || b == ',' as int
  }

  lemma ReservedBytesAreReservedCharacters(s: string)
    ensures ContainsReservedByte(s) <==> SEPARATOR in s || '=' in s || ',' in s
  {
    AsciiOccurs(s, SEPARATOR);
    AsciiOccurs(s, '=');
    AsciiOccurs(s, ',');
  }

  function BindingFault(b: Binding): (r: Option<BuildError>) {
    if b.0 == "" then Some(EmptyBindingKey)
    else if ContainsReservedByte(b.0) then Some(InvalidBindingKey(b.0))
    else if ContainsReservedByte(b.1) then Some(InvalidBindingValue(b.1))
    else None
  }

  function FirstFault(bs: seq<Binding>): (r: Option<BuildError>) {
    if bs == [] then None
    else if BindingFault(bs[0]).Some? then BindingFault(bs[0])
    else FirstFault(bs[1..])
  }

  lemma {:induction false} NoFaultAnywhere(bs: seq<Binding>)
    ensures FirstFault(bs).None? <==> forall i | 0 <= i < |bs| :: BindingFault(bs[i]).None?
  {
    if bs != [] {
      NoFaultAnywhere(bs[1..]);
      assert forall i | 0 < i < |bs| :: bs[i] == bs[1..][i - 1];
    }
  }

  function BindingsVerdict(bs: seq<Binding>): (r: Result<(), BuildError>) {
    match OrderOf(bs)
    case Swapped(first, second) => Err(BuildNotSorted(first, second))
    case Repeated(key) => Err(BuildDuplicateKey(key))
    case Sorted =>
      match FirstFault(bs)
      case Some(e) => Err(e)
      case None => Ok(())
  }

  method ValidateBindings(bs: seq<Binding>) returns (r: Result<(), BuildError>)
    ensures r == BindingsVerdict(bs)
  {
    var i := 0;
    while i + 1 < |bs|
      invariant 0 <= i <= |bs|
      invariant OrderOf(bs[i..]) == OrderOf(bs)
    {
      var first, second := bs[i].0, bs[i + 1].0;
      assert bs[i..][1..] == bs[i + 1..];
      if KeyLess(second, first) { return Err(BuildNotSorted(first, second)); }
      if first == second { return Err(BuildDuplicateKey(first)); }
      i := i + 1;
    }
    for k := 0 to |bs|
      invariant FirstFault(bs[k..]) == FirstFault(bs)
    {
      assert bs[k..][1..] == bs[k + 1..];
      if bs[k].0 == "" { return Err(EmptyBindingKey); }
      if ContainsReservedByte(bs[k].0) { return Err(InvalidBindingKey(bs[k].0)); }
      if ContainsReservedByte(bs[k].1) { return Err(InvalidBindingValue(bs[k].1)); }
    }
    return Ok(());
  }

  // ----- printing

  function PairText(b: Binding): (s: string) {
    b.0 + "=" + b.1
  }

  function PairTexts(bs: seq<Binding>): (r: seq<string>)
    ensures |r| == |bs| && forall i | 0 <= i < |bs| :: r[i] == PairText(bs[i])
  {
    seq(|bs|, i requires 0 <= i < |bs| => PairText(bs[i]))
  }

  function BindingsText(bs: seq<Binding>): (s: string) {
    if bs == [] then "" else Join(PairTexts(bs), ',')
  }

  function ValueText(value: Option<string>): (s: string) {
    if value.None? then "" else value.value
  }

  /** The five fields of a payload. */
  function Parts(a: Action, value: Option<string>, bs: seq<Binding>): (r: seq<seq<Byte>>)
    ensures |r| == 5
  {
    [MagicBytes(), VersionBytes(), Encode(Name(a)), Encode(ValueText(value)), Encode(BindingsText(bs))]
  }

  function MagicBytes(): (b: seq<Byte>) { Encode(MAGIC) }

  function VersionBytes(): (b: seq<Byte>) { Encode(VERSION) }

  /** The layout alone, without the checks. */
  function Render(a: Action, value: Option<string>, bs: seq<Binding>): (r: seq<Byte>) {
    Join(Parts(a, value, bs), UNIT_SEPARATOR)
  }

  function Build(a: Action, value: Option<string>, bs: seq<Binding>): (r: Result<seq<Byte>, BuildError>) {
    match OptionalVerdict(value)
    case Err(e) => Err(BuildInvalidValue(e))
    case Ok(_) =>
      match BindingsVerdict(bs)
      case Err(e) => Err(e)
      case Ok(_) => Ok(Render(a, value, bs))
  }

  lemma BindingsTextStep(bs: seq<Binding>, i: nat)
    requires i < |bs|
    ensures BindingsText(bs[..i + 1]) == BindingsText(bs[..i]) + (if i > 0 then "," else "") + PairText(bs[i])
  {
    assert bs[..i + 1] == bs[..i] + [bs[i]];
    assert PairTexts(bs[..i + 1]) == PairTexts(bs[..i]) + [PairText(bs[i])];
    if i > 0 { JoinAppend(PairTexts(bs[..i]), PairText(bs[i]), ','); }
  }

  lemma EncodePair(b: Binding)
    ensures Encode(PairText(b)) == Encode(b.0) + ['=' as int] + Encode(b.1)
  {
    EncodeAscii('=');
    EncodeConcat(b.0 + "=", b.1);
    EncodeConcat(b.0, "=");
  }

  /** One more binding adds a comma unless it is the first, then the key, an equals sign and the value. */
  lemma BindingsBytesStep(bs: seq<Binding>, i: nat)
    requires i < |bs|
    ensures Encode(BindingsText(bs[..i + 1])) == Encode(BindingsText(bs[..i])) + (if i > 0 then [',' as int] else [])
                                                 + Encode(bs[i].0) + ['=' as int] + Encode(bs[i].1)
  {
    hide Encode;
    BindingsTextStep(bs, i);
    EncodePair(bs[i]);
    EncodeEmpty();
    var before, comma := BindingsText(bs[..i]), if i > 0 then "," else "";
    EncodeConcat(before + comma, PairText(bs[i]));
    EncodeConcat(before, comma);
    EncodeAscii(',');
  }

  lemma NoBindings()
    ensures Encode(BindingsText([])) == []
  {
  }

  lemma AppendChain<T>(a: seq<T>, b: seq<T>, c: seq<T>, d: seq<T>, e: seq<T>, f: seq<T>)
    ensures a + (b + c + d + e + f) == a + b + c + d + e + f
  {
  }

  method WriteBindings(start: seq<Byte>, bindings: seq<Binding>) returns (payload: seq<Byte>)
    ensures payload == start + Encode(BindingsText(bindings))
  {
    hide Encode, BindingsText;
    payload := start;
    NoBindings();
    for i := 0 to |bindings|
      invariant payload == start + Encode(BindingsText(bindings[..i]))
    {
      BindingsBytesStep(bindings, i);
      var comma := if i > 0 then [',' as int] else [];
      AppendChain(start, Encode(BindingsText(bindings[..i])), comma,
                  Encode(bindings[i].0), ['=' as int], Encode(bindings[i].1));
      payload := payload + comma;
      payload := payload + Encode(bindings[i].0);
      payload := payload + ['=' as int];
      payload := payload + Encode(bindings[i].1);
    }
    assert bindings[..|bindings|] == bindings;
  }

  lemma RenderLayout(a: Action, value: Option<string>, bs: seq<Binding>)
    ensures Render(a, value, bs) ==
            MagicBytes() + [UNIT_SEPARATOR] + VersionBytes() + [UNIT_SEPARATOR] + Encode(Name(a)) + [UNIT_SEPARATOR]
            + Encode(ValueText(value)) + [UNIT_SEPARATOR] + Encode(BindingsText(bs))
  {
    hide Encode, MagicBytes, VersionBytes, Name, BindingsText;
    JoinFive(MagicBytes(), VersionBytes(), Encode(Name(a)), Encode(ValueText(value)), Encode(BindingsText(bs)),
             UNIT_SEPARATOR);
  }

  method BuildPayload(action: Action, value: Option<string>, bindings: seq<Binding>)
    returns (r: Result<seq<Byte>, BuildError>)
    ensures r == Build(action, value, bindings)
  {
    hide Encode, MagicBytes, VersionBytes, Name, BindingsText, Render;
    EncodeEmpty();
    if value.Some? && value.value != "" {
      var verdict := ValidateValue(value.value);
      if verdict.Err? { return Err(BuildInvalidValue(verdict.error)); }
    }
    var checked := ValidateBindings(bindings);
    if checked.Err? { return Err(checked.error); }
    var payload := MagicBytes();
    payload := payload + [UNIT_SEPARATOR];
    payload := payload + VersionBytes();
    payload := payload + [UNIT_SEPARATOR];
    payload := payload + Encode(Name(action));
    payload := payload + [UNIT_SEPARATOR];
    ghost var before := payload;
    if value.Some? { payload := payload + Encode(value.value); }
    assert payload == before + Encode(ValueText(value));
    payload := payload + [UNIT_SEPARATOR];
    payload := WriteBindings(payload, bindings);
    RenderLayout(action, value, bindings);
    return Ok(payload);
  }

  // ----- parsing

  function DigitsValue(s: string, acc: nat): (r: Option<Byte>)
    requires acc < 256
  {
    if s == "" then Some(acc)
    else if !('0' <= s[0] <= '9') then None
    else
      var next := acc * 10 + (s[0] as int - '0' as int);
      if next < 256 then DigitsValue(s[1..], next) else None
  }

  /** `str::parse::<u8>`: an optional plus sign, then digits, without overflow. */
  function ParseU8(s: string): (r: Option<Byte>) {
    var digits := if s != "" && s[0] == '+' then s[1..] else s;
    if digits == "" then None else DigitsValue(digits, 0)
  }

  function VersionError(text: string): (e: ParseError) {
    match ParseU8(text)
    case None => InvalidVersionFormat
    case Some(v) => if v == 1 then NonCanonicalVersion(text) else UnsupportedVersion(v)
  }

  function ParsePairs(texts: seq<string>): (r: Result<seq<Binding>, ParseError>) {
    if texts == [] then Ok([])
    else
      match SplitOnce(texts[0], '=')
      case None => Err(InvalidBindingFormat(texts[0]))
      case Some(pair) =>
        match ParsePairs(texts[1..])
        case Err(e) => Err(e)
        case Ok(rest) => Ok([pair] + rest)
  }

  function CheckOrder(bs: seq<Binding>): (r: Result<seq<Binding>, ParseError>) {
    match OrderOf(bs)
    case Swapped(first, second) => Err(ParseNotSorted(first, second))
    case Repeated(key) => Err(ParseDuplicateKey(key))
    case Sorted => Ok(bs)
  }

  function ParseBindingsText(s: string): (r: Result<seq<Binding>, ParseError>) {
    if s == "" then Ok([])
    else
      match ParsePairs(Split(s, ','))
      case Err(e) => Err(e)
      case Ok(bs) => CheckOrder(bs)
  }

  function ParseField(part: seq<Byte>, field: string): (r: Result<string, ParseError>) {
    match Decode(part)
    case None => Err(InvalidUtf8(field))
    case Some(text) => Ok(text)
  }

  function ParseMagic(part: seq<Byte>): (r: Result<(), ParseError>) {
    match ParseField(part, "magic")
    case Err(e) => Err(e)
    case Ok(text) => if text == MAGIC then Ok(()) else Err(InvalidMagic(text))
  }

  function ParseVersion(part: seq<Byte>): (r: Result<(), ParseError>) {
    match ParseField(part, "version")
    case Err(e) => Err(e)
    case Ok(text) => if text == VERSION then Ok(()) else Err(VersionError(text))
  }

  function ParseAction(part: seq<Byte>): (r: Result<Action, ParseError>) {
    match ParseField(part, "action")
    case Err(e) => Err(e)
    case Ok(text) =>
      match FromStr(text)
      case None => Err(InvalidAction(text))
      case Some(a) => Ok(a)
  }

  function ParseValue(part: seq<Byte>): (r: Result<Option<string>, ParseError>) {
    match ParseField(part, "value")
    case Err(e) => Err(e)
    case Ok(text) =>
      if text == "" then Ok(None)
      else
        match ValueVerdict(text)
        case Err(e) => Err(ParseInvalidValue(e))
        case Ok(_) => Ok(Some(text))
  }

  function ParseBindingsField(part: seq<Byte>): (r: Result<seq<Binding>, ParseError>) {
    match ParseField(part, "bindings")
    case Err(e) => Err(e)
    case Ok(text) => ParseBindingsText(text)
  }

  /** Fields are read left to right; the first one that fails decides the error. */
  function ParseParts(parts: seq<seq<Byte>>): (r: Result<Parsed, ParseError>)
    requires |parts| == 5
  {
    match ParseMagic(parts[0])
    case Err(e) => Err(e)
    case Ok(_) =>
      match ParseVersion(parts[1])
      case Err(e) => Err(e)
      case Ok(_) =>
        match ParseAction(parts[2])
        case Err(e) => Err(e)
        case Ok(action) =>
          match ParseValue(parts[3])
          case Err(e) => Err(e)
          case Ok(value) =>
            match ParseBindingsField(parts[4])
            case Err(e) => Err(e)
            case Ok(bindings) => Ok(Parsed(action, value, bindings))
  }

  function Parse(payload: seq<Byte>): (r: Result<Parsed, ParseError>) {
    var parts := Split(payload, UNIT_SEPARATOR);
    if |parts| != 5 then Err(InvalidPartCount(|parts|)) else ParseParts(parts)
  }

  method ValidateParsedBindings(bs: seq<Binding>) returns (r: Result<seq<Binding>, ParseError>)
    ensures r == CheckOrder(bs)
  {
    var i := 0;
    while i + 1 < |bs|
      invariant 0 <= i <= |bs|
      invariant OrderOf(bs[i..]) == OrderOf(bs)
    {
      var first, second := bs[i].0, bs[i + 1].0;
      assert bs[i..][1..] == bs[i + 1..];
      if KeyLess(second, first) { return Err(ParseNotSorted(first, second)); }
      if first == second { return Err(ParseDuplicateKey(first)); }
      i := i + 1;
    }
    return Ok(bs);
  }

  /** The bindings read so far in front of what is still to be read. */
  function Prefixed(bs: seq<Binding>, r: Result<seq<Binding>, ParseError>): Result<seq<Binding>, ParseError> {
    if r.Err? then r else Ok(bs + r.value)
  }

  lemma PairStep(texts: seq<string>, i: nat, read: seq<Binding>)
    requires i < |texts| && SplitOnce(texts[i], '=').Some?
    ensures Prefixed(read, ParsePairs(texts[i..])) ==
            Prefixed(read + [SplitOnce(texts[i], '=').value], ParsePairs(texts[i + 1..]))
  {
    assert texts[i..][1..] == texts[i + 1..];
    var rest := ParsePairs(texts[i + 1..]);
    if rest.Ok? {
      var pair := SplitOnce(texts[i], '=').value;
      assert read + ([pair] + rest.value) == read + [pair] + rest.value;
    }
  }

  method ParseBindings(s: string) returns (r: Result<seq<Binding>, ParseError>)
    ensures r == ParseBindingsText(s)
  {
    if s == "" { return Ok([]); }
    var texts := Split(s, ',');
    var bindings: seq<Binding> := [];
    assert texts[0..] == texts;
    assert ParsePairs(texts).Ok? ==> bindings + ParsePairs(texts).value == ParsePairs(texts).value;
    for i := 0 to |texts|
      invariant ParsePairs(texts) == Prefixed(bindings, ParsePairs(texts[i..]))
    {
      var pair := SplitOnce(texts[i], '=');
      if pair.None? { return Err(InvalidBindingFormat(texts[i])); }
      PairStep(texts, i, bindings);
      bindings := bindings + [pair.value];
    }
    assert bindings + [] == bindings;
    r := ValidateParsedBindings(bindings);
  }
}
