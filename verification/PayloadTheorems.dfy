/**
 * What the action-proof payload is for: the bytes that are signed determine
 * the action, the value and the bindings, and are determined by them.
 */
module PayloadTheorems {
  import opened Prelude
  import opened Utf8
  import opened Splitting
  import opened Validation
  import opened Actions
  import opened Payload

  // ----- the bindings field

  predicate CleanKey(key: string) {
    SEPARATOR !in key && '=' !in key && ',' !in key
  }

  predicate CleanValue(value: string) {
    SEPARATOR !in value && ',' !in value
  }

  predicate CleanBindings(bs: seq<Binding>) {
    StrictlySorted(bs) && forall i | 0 <= i < |bs| :: CleanKey(bs[i].0) && CleanValue(bs[i].1)
  }

  lemma {:induction false} ReadPairs(bs: seq<Binding>)
    requires forall i | 0 <= i < |bs| :: CleanKey(bs[i].0)
    ensures ParsePairs(PairTexts(bs)) == Ok(bs)
  {
    if bs != [] {
      SplitOnceFinds(bs[0].0, '=', bs[0].1);
      assert PairTexts(bs)[1..] == PairTexts(bs[1..]);
      ReadPairs(bs[1..]);
      assert bs == [bs[0]] + bs[1..];
    }
  }

  lemma ReadBindings(bs: seq<Binding>)
    requires CleanBindings(bs)
    ensures ParseBindingsText(BindingsText(bs)) == Ok(bs)
  {
    if bs != [] {
      var texts := PairTexts(bs);
      SplitJoin(texts, ',');
      ReadPairs(bs);
      WindowScanIsExact(bs);
      JoinOccurs(texts, ',', '=');
      assert '=' in texts[0];
    }
  }

  lemma {:induction false} ReprintPairs(texts: seq<string>)
    requires ParsePairs(texts).Ok?
    ensures var bs := ParsePairs(texts).value;
            PairTexts(bs) == texts && forall i | 0 <= i < |bs| :: '=' !in bs[i].0
  {
    var bs := ParsePairs(texts).value;
    if texts != [] {
      SplitOnceRejoins(texts[0], '=');
      ReprintPairs(texts[1..]);
      assert bs == [bs[0]] + ParsePairs(texts[1..]).value;
      assert texts == [texts[0]] + texts[1..];
      assert PairTexts(bs) == [PairText(bs[0])] + PairTexts(bs[1..]);
    }
  }

  lemma ReprintBindings(s: string)
    requires ParseBindingsText(s).Ok? && SEPARATOR !in s
    ensures BindingsText(ParseBindingsText(s).value) == s
    ensures CleanBindings(ParseBindingsText(s).value)
  {
    if s != "" {
      var texts := Split(s, ',');
      JoinSplit(s, ',');
      ReprintPairs(texts);
      var bs := ParseBindingsText(s).value;
      WindowScanIsExact(bs);
      JoinOccurs(texts, ',', SEPARATOR);
      forall i | 0 <= i < |bs|
        ensures CleanKey(bs[i].0) && CleanValue(bs[i].1)
      {
        assert PairText(bs[i]) == texts[i];
      }
    }
  }

  // ----- whole payloads

  /** The field values a parser can return. */
  predicate Acceptable(value: Option<string>, bs: seq<Binding>) {
    (value.Some? ==> ValidValue(value.value)) && CleanBindings(bs)
  }

  lemma TextIsFree(s: string)
    requires SEPARATOR !in s
    ensures UNIT_SEPARATOR !in Encode(s)
  {
    AsciiOccurs(s, SEPARATOR);
  }

  lemma PartsAreFree(a: Action, value: Option<string>, bs: seq<Binding>)
    requires Acceptable(value, bs)
    ensures Free(Parts(a, value, bs), UNIT_SEPARATOR)
  {
    hide Encode, Name;
    TextIsFree(MAGIC);
    TextIsFree(VERSION);
    NamesAreProper(a);
    TextIsFree(Name(a));
    TextIsFree(ValueText(value));
    if bs != [] { JoinOccurs(PairTexts(bs), ',', SEPARATOR); }
    TextIsFree(BindingsText(bs));
  }

  lemma HeadReads(a: Action)
    ensures ParseMagic(MagicBytes()).Ok? && ParseVersion(VersionBytes()).Ok? && ParseAction(Encode(Name(a))) == Ok(a)
  {
    hide Encode, Decode, Name;
    DecodeEncode(MAGIC);
    DecodeEncode(VERSION);
    DecodeEncode(Name(a));
    FromStrInverts(a);
  }

  lemma ValueReads(value: Option<string>)
    requires value.Some? ==> ValidValue(value.value)
    ensures ParseValue(Encode(ValueText(value))) == Ok(value)
  {
    hide Encode, Decode, ValueVerdict;
    DecodeEncode(ValueText(value));
    if value.Some? { VerdictIsExact(value.value); }
  }

  lemma BindingsFieldReads(bs: seq<Binding>)
    requires CleanBindings(bs)
    ensures ParseBindingsField(Encode(BindingsText(bs))) == Ok(bs)
  {
    hide Encode, Decode, BindingsText, CleanBindings, ParseBindingsText;
    DecodeEncode(BindingsText(bs));
    ReadBindings(bs);
  }

  /** Every payload laid out from acceptable fields parses back to those fields. */
  lemma ParseInvertsRender(a: Action, value: Option<string>, bs: seq<Binding>)
    requires Acceptable(value, bs)
    ensures Parse(Render(a, value, bs)) == Ok(Parsed(a, value, bs))
  {
    hide Encode, Name, BindingsText, ValueText, CleanBindings, ValidValue, MagicBytes, VersionBytes, Split,
         ParseMagic, ParseVersion, ParseAction, ParseValue, ParseBindingsField;
    PartsAreFree(a, value, bs);
    SplitJoin(Parts(a, value, bs), UNIT_SEPARATOR);
    HeadReads(a);
    ValueReads(value);
    BindingsFieldReads(bs);
  }

  lemma HeadReprints(part: seq<Byte>)
    ensures ParseMagic(part).Ok? ==> part == MagicBytes()
    ensures ParseVersion(part).Ok? ==> part == VersionBytes()
    ensures ParseAction(part).Ok? ==> part == Encode(Name(ParseAction(part).value))
  {
    hide Encode, Decode, Name;
    if Decode(part).Some? { EncodeDecode(part); }
  }

  lemma ValueReprints(part: seq<Byte>)
    requires ParseValue(part).Ok?
    ensures var value := ParseValue(part).value;
            Encode(ValueText(value)) == part && (value.Some? ==> ValidValue(value.value))
  {
    hide Encode, Decode, ValueVerdict, ValidValue;
    EncodeDecode(part);
    VerdictIsExact(Decode(part).value);
  }

  lemma BindingsFieldReprints(part: seq<Byte>)
    requires ParseBindingsField(part).Ok? && UNIT_SEPARATOR !in part
    ensures var bs := ParseBindingsField(part).value;
            Encode(BindingsText(bs)) == part && CleanBindings(bs)
  {
    hide Encode, Decode, BindingsText, CleanBindings;
    EncodeDecode(part);
    AsciiOccurs(Decode(part).value, SEPARATOR);
    ReprintBindings(Decode(part).value);
  }

  /** Every payload the parser accepts is the layout of the fields it returns, and those are acceptable. */
  lemma RenderInvertsParse(payload: seq<Byte>)
    ensures Parse(payload).Ok? ==>
              var p := Parse(payload).value;
              Acceptable(p.value, p.bindings) && Render(p.action, p.value, p.bindings) == payload
  {
    hide Encode, Name, BindingsText, ValueText, CleanBindings, ValidValue, MagicBytes, VersionBytes, Split,
         ParseMagic, ParseVersion, ParseAction, ParseValue, ParseBindingsField;
    if Parse(payload).Ok? {
      var p := Parse(payload).value;
      var parts := Split(payload, UNIT_SEPARATOR);
      JoinSplit(payload, UNIT_SEPARATOR);
      HeadReprints(parts[0]);
      HeadReprints(parts[1]);
      HeadReprints(parts[2]);
      ValueReprints(parts[3]);
      BindingsFieldReprints(parts[4]);
      assert Parts(p.action, p.value, p.bindings) == parts;
    }
  }

  /** The parser accepts exactly the layouts of acceptable fields. */
  lemma AcceptedIff(payload: seq<Byte>)
    ensures Parse(payload).Ok? <==> exists a, value, bs :: Acceptable(value, bs) && Render(a, value, bs) == payload
  {
    hide Parse, Render, Acceptable;
    if Parse(payload).Ok? { RenderInvertsParse(payload); }
    if a, value, bs :| Acceptable(value, bs) && Render(a, value, bs) == payload { ParseInvertsRender(a, value, bs); }
  }

  /** Two payloads that parse alike are the same bytes. */
  lemma ParseIsInjective(p: seq<Byte>, q: seq<Byte>)
    ensures Parse(p).Ok? && Parse(p) == Parse(q) ==> p == q
  {
    hide Parse, Render;
    RenderInvertsParse(p);
    RenderInvertsParse(q);
  }

  /** An empty value and no value are the same request. */
  function Normalized(value: Option<string>): (r: Option<string>) {
    if value == Some("") then None else value
  }

  /** What the printer demands of a binding beyond what the parser does. */
  predicate Buildable(bs: seq<Binding>) {
    forall i | 0 <= i < |bs| :: bs[i].0 != "" && '=' !in bs[i].1
  }

  lemma BindingsVerdictIsExact(bs: seq<Binding>)
    ensures BindingsVerdict(bs).Ok? <==> CleanBindings(bs) && Buildable(bs)
  {
    hide ContainsReservedByte, KeyLess;
    WindowScanIsExact(bs);
    NoFaultAnywhere(bs);
    forall i | 0 <= i < |bs|
      ensures BindingFault(bs[i]).None? <==>
              CleanKey(bs[i].0) && CleanValue(bs[i].1) && bs[i].0 != "" && '=' !in bs[i].1
    {
      ReservedBytesAreReservedCharacters(bs[i].0);
      ReservedBytesAreReservedCharacters(bs[i].1);
    }
  }

  /** The printer succeeds exactly on acceptable, buildable fields, and then prints their layout. */
  lemma BuildIsExact(a: Action, value: Option<string>, bs: seq<Binding>)
    ensures Build(a, value, bs).Ok? <==> Acceptable(Normalized(value), bs) && Buildable(bs)
    ensures Build(a, value, bs).Ok? ==> Build(a, value, bs).value == Render(a, Normalized(value), bs)
  {
    hide Encode, Name, BindingsText, BindingsVerdict, ValueVerdict, ValidValue, CleanBindings, Buildable;
    BindingsVerdictIsExact(bs);
    if value.Some? { VerdictIsExact(value.value); }
    assert Parts(a, value, bs) == Parts(a, Normalized(value), bs);
  }

  /** Whatever the printer prints, the parser reads back. */
  lemma RoundTrip(a: Action, value: Option<string>, bs: seq<Binding>)
    ensures Build(a, value, bs).Ok? ==> Parse(Build(a, value, bs).value) == Ok(Parsed(a, Normalized(value), bs))
  {
    hide Build, Parse, Render, Acceptable;
    BuildIsExact(a, value, bs);
    if Build(a, value, bs).Ok? { ParseInvertsRender(a, Normalized(value), bs); }
  }

  /** One signature covers one request: equal payloads mean equal actions, values and bindings. */
  lemma PayloadDeterminesRequest(a: Action, value: Option<string>, bs: seq<Binding>,
                                 a': Action, value': Option<string>, bs': seq<Binding>)
    ensures Build(a, value, bs).Ok? && Build(a', value', bs') == Build(a, value, bs) ==>
              a == a' && Normalized(value) == Normalized(value') && bs == bs'
  {
    hide Build, Parse;
    RoundTrip(a, value, bs);
    RoundTrip(a', value', bs');
  }

  /** The bytes the printer can produce are the accepted ones with nonempty keys and no '=' in a value. */
  lemma ImageOfBuild(payload: seq<Byte>)
    ensures (exists a, value, bs :: Build(a, value, bs) == Ok(payload)) <==>
            Parse(payload).Ok? && Buildable(Parse(payload).value.bindings)
  {
    hide Build, Parse, Render, Buildable, CleanBindings, Encode;
    if a, value, bs :| Build(a, value, bs) == Ok(payload) {
      RoundTrip(a, value, bs);
      BuildIsExact(a, value, bs);
    }
    if Parse(payload).Ok? && Buildable(Parse(payload).value.bindings) {
      var p := Parse(payload).value;
      RenderInvertsParse(payload);
      BuildIsExact(p.action, p.value, p.bindings);
      assert Build(p.action, p.value, p.bindings) == Ok(payload);
    }
  }

  /** The parser is wider than the printer: an empty key, or an '=' inside a value, is read but never printed. */
  lemma ParserIsWiderThanPrinter(a: Action)
    ensures var payload := Render(a, None, [("", "a=b")]);
            Parse(payload) == Ok(Parsed(a, None, [("", "a=b")]))
            && !exists a', value, bs :: Build(a', value, bs) == Ok(payload)
  {
    hide Build, Parse, Render, Encode;
    var bs: seq<Binding> := [("", "a=b")];
    ParseInvertsRender(a, None, bs);
    ImageOfBuild(Render(a, None, bs));
    assert bs[0].0 == "";
  }

  // ----- the errors

  predicate AllDigits(s: string) {
    forall i | 0 <= i < |s| :: '0' <= s[i] <= '9'
  }

  function Digit(c: char): (d: nat)
    requires '0' <= c <= '9'
  {
    c as int - '0' as int
  }

  /** The number a digit string denotes. */
  function DecimalValue(s: string): (v: nat)
    requires AllDigits(s)
  {
    if s == "" then 0 else DecimalValue(s[..|s| - 1]) * 10 + Digit(s[|s| - 1])
  }

  lemma AppendDigit(s: string, c: char)
    requires AllDigits(s) && '0' <= c <= '9'
    ensures AllDigits(s + [c]) && DecimalValue(s + [c]) == DecimalValue(s) * 10 + Digit(c)
  {
    assert (s + [c])[..|s|] == s;
  }

  lemma {:induction false} ValuesGrow(a: string, b: string)
    requires AllDigits(a) && AllDigits(b)
    ensures AllDigits(a + b) && DecimalValue(a + b) >= DecimalValue(a)
  {
    hide DecimalValue;
    if b == "" {
      assert a + b == a;
    } else {
      var b', last := b[..|b| - 1], b[|b| - 1];
      ValuesGrow(a, b');
      AppendDigit(a + b', last);
      assert a + b == a + b' + [last];
    }
  }

  /** Digit by digit from the left, with the digits read so far worth `acc`. */
  lemma {:induction false} DigitsAreRead(before: string, s: string, acc: nat)
    requires AllDigits(before) && DecimalValue(before) == acc < 256
    ensures AllDigits(s) ==> AllDigits(before + s)
    ensures DigitsValue(s, acc) ==
            if AllDigits(s) && DecimalValue(before + s) < 256 then Some(DecimalValue(before + s)) else None
    decreases |s|
  {
    hide DecimalValue;
    if s == "" {
      assert before + s == before;
    } else if '0' <= s[0] <= '9' {
      var next := before + [s[0]];
      AppendDigit(before, s[0]);
      assert before + s == next + s[1..];
      assert s == [s[0]] + s[1..];
      assert AllDigits(s) <==> AllDigits(s[1..]);
      if DecimalValue(next) < 256 {
        DigitsAreRead(next, s[1..], DecimalValue(next));
      } else if AllDigits(s) {
        ValuesGrow(next, s[1..]);
      }
    }
  }

  /** The version text after an optional plus sign. */
  function Unsigned(text: string): (digits: string) {
    if text != "" && text[0] == '+' then text[1..] else text
  }

  /** A wrong version text is malformed, another spelling of 1, or another version, by its decimal value. */
  lemma VersionErrors(text: string)
    ensures VersionError(text) ==
            var digits := Unsigned(text);
            if digits == "" || !AllDigits(digits) || DecimalValue(digits) >= 256 then InvalidVersionFormat
            else if DecimalValue(digits) == 1 then NonCanonicalVersion(text)
            else UnsupportedVersion(DecimalValue(digits))
  {
    assert DecimalValue("") == 0;
    DigitsAreRead("", Unsigned(text), 0);
    assert "" + Unsigned(text) == Unsigned(text);
  }

  /** The neighbours at `i` carry these keys, and everything up to them is in order. */
  predicate FaultAt(bs: seq<Binding>, i: nat, first: string, second: string)
    requires i + 1 < |bs|
  {
    bs[i].0 == first && bs[i + 1].0 == second && StrictlySorted(bs[..i + 1])
  }

  predicate OrderFault(bs: seq<Binding>, first: string, second: string) {
    exists i | 0 <= i < |bs| - 1 :: FaultAt(bs, i, first, second)
  }

  lemma FaultBehind(bs: seq<Binding>, first: string, second: string)
    requires |bs| >= 2 && KeyLess(bs[0].0, bs[1].0) && OrderFault(bs[1..], first, second)
    ensures OrderFault(bs, first, second)
  {
    hide KeyLess, StrictlySorted;
    var rest := bs[1..];
    var i :| 0 <= i < |rest| - 1 && FaultAt(rest, i, first, second);
    assert bs[..i + 2][1..] == rest[..i + 1] && bs[..i + 2][0] == bs[0];
    WindowScanIsExact(rest[..i + 1]);
    WindowScanIsExact(bs[..i + 2]);
    KeysAreComparable(bs[0].0, bs[1].0);
    assert FaultAt(bs, i + 1, first, second);
  }

  lemma {:induction false} OrderIsFound(bs: seq<Binding>)
    ensures match OrderOf(bs)
            case Sorted => true
            case Swapped(first, second) => KeyLess(second, first) && OrderFault(bs, first, second)
            case Repeated(key) => OrderFault(bs, key, key)
  {
    if |bs| >= 2 {
      hide KeyLess;
      assert FaultAt(bs, 0, bs[0].0, bs[1].0);
      KeysAreComparable(bs[0].0, bs[1].0);
      if KeyLess(bs[0].0, bs[1].0) {
        OrderIsFound(bs[1..]);
        match OrderOf(bs[1..])
        case Sorted =>
        case Swapped(first, second) => FaultBehind(bs, first, second);
        case Repeated(key) => FaultBehind(bs, key, key);
      }
    }
  }

  // ----- why the printer refuses

  predicate FreeOfReserved(s: string) {
    SEPARATOR !in s && '=' !in s && ',' !in s
  }

  predicate Printable(b: Binding) {
    b.0 != "" && FreeOfReserved(b.0) && FreeOfReserved(b.1)
  }

  /** The binding at `i` is the first that cannot be printed, and this is what is wrong with it. */
  predicate UnprintableAt(bs: seq<Binding>, i: nat, e: BuildError)
    requires i < |bs|
  {
    && (forall j | 0 <= j < i :: Printable(bs[j]))
    && if bs[i].0 == "" then e == EmptyBindingKey
       else if !FreeOfReserved(bs[i].0) then e == InvalidBindingKey(bs[i].0)
       else !FreeOfReserved(bs[i].1) && e == InvalidBindingValue(bs[i].1)
  }

  /** Why bindings are refused: the first neighbours out of order, or else the first that cannot be printed. */
  predicate BuildFault(bs: seq<Binding>, e: BuildError) {
    match e
    case BuildNotSorted(first, second) => KeyLess(second, first) && OrderFault(bs, first, second)
    case BuildDuplicateKey(key) => OrderFault(bs, key, key)
    case BuildInvalidValue(_) => false
    case _ => StrictlySorted(bs) && exists i | 0 <= i < |bs| :: UnprintableAt(bs, i, e)
  }

  lemma FaultOfBinding(b: Binding)
    ensures BindingFault(b).None? <==> Printable(b)
    ensures BindingFault(b).Some? ==> UnprintableAt([b], 0, BindingFault(b).value)
  {
    hide ContainsReservedByte;
    ReservedBytesAreReservedCharacters(b.0);
    ReservedBytesAreReservedCharacters(b.1);
  }

  lemma {:induction false} UnprintableIsFound(bs: seq<Binding>)
    requires Payload.FirstFault(bs).Some?
    ensures exists i | 0 <= i < |bs| :: UnprintableAt(bs, i, Payload.FirstFault(bs).value)
    ensures var e := Payload.FirstFault(bs).value;
            e.EmptyBindingKey? || e.InvalidBindingKey? || e.InvalidBindingValue?
  {
    hide BindingFault, Printable, FreeOfReserved;
    var e := Payload.FirstFault(bs).value;
    FaultOfBinding(bs[0]);
    if BindingFault(bs[0]).Some? {
      assert UnprintableAt(bs, 0, e);
    } else {
      var rest := bs[1..];
      UnprintableIsFound(rest);
      var i :| 0 <= i < |rest| && UnprintableAt(rest, i, e);
      assert forall j | 0 < j <= i :: bs[j] == rest[j - 1];
      assert UnprintableAt(bs, i + 1, e);
    }
  }

  lemma BindingsVerdictIsExplained(bs: seq<Binding>)
    ensures BindingsVerdict(bs).Err? ==> BuildFault(bs, BindingsVerdict(bs).error)
  {
    hide KeyLess, UnprintableAt, OrderFault, StrictlySorted;
    OrderIsFound(bs);
    WindowScanIsExact(bs);
    if OrderOf(bs) == Sorted && Payload.FirstFault(bs).Some? { UnprintableIsFound(bs); }
  }

  /** A refused request is refused for its value first, else for its bindings, with the error and place that say so. */
  lemma BuildErrorsAreExplained(a: Action, value: Option<string>, bs: seq<Binding>)
    ensures Build(a, value, bs).Err? ==>
              var e := Build(a, value, bs).error;
              if value.Some? && value.value != "" && !ValidValue(value.value)
              then e.BuildInvalidValue? && ValueFault(value.value, e.error)
              else BuildFault(bs, e)
  {
    hide ValueVerdict, ValidValue, ValueFault, BindingsVerdict, BuildFault, Render;
    BindingsVerdictIsExplained(bs);
    if value.Some? {
      VerdictIsExact(value.value);
      if ValueVerdict(value.value).Err? { ErrorIsFault(value.value); }
    }
  }

  // ----- why the parser refuses

  /** The text at `i` is the first without '='. */
  predicate BadPairAt(texts: seq<string>, i: nat)
    requires i < |texts|
  {
    '=' !in texts[i] && forall j | 0 <= j < i :: '=' in texts[j]
  }

  predicate FirstBadPair(texts: seq<string>, pair: string) {
    exists i | 0 <= i < |texts| :: texts[i] == pair && BadPairAt(texts, i)
  }

  lemma {:induction false} BadPairIsFound(texts: seq<string>)
    requires ParsePairs(texts).Err?
    ensures ParsePairs(texts).error.InvalidBindingFormat? && FirstBadPair(texts, ParsePairs(texts).error.pair)
  {
    SplitOnceRejoins(texts[0], '=');
    if SplitOnce(texts[0], '=').Some? {
      var rest := texts[1..];
      BadPairIsFound(rest);
      var pair := ParsePairs(rest).error.pair;
      var i :| 0 <= i < |rest| && rest[i] == pair && BadPairAt(rest, i);
      assert forall j | 0 < j <= i :: texts[j] == rest[j - 1];
      assert texts[i + 1] == pair && BadPairAt(texts, i + 1);
    } else {
      assert BadPairAt(texts, 0);
    }
  }

  /** Why a bindings text was refused: the first pair without '=', or else the first neighbours out of order. */
  predicate BindingsFault(text: string, e: ParseError) {
    var texts := Split(text, ',');
    match e
    case InvalidBindingFormat(pair) => FirstBadPair(texts, pair)
    case ParseNotSorted(first, second) =>
      KeyLess(second, first) && ParsePairs(texts).Ok? && OrderFault(ParsePairs(texts).value, first, second)
    case ParseDuplicateKey(key) => ParsePairs(texts).Ok? && OrderFault(ParsePairs(texts).value, key, key)
    case _ => false
  }

  lemma BindingsErrorIsExplained(text: string)
    requires ParseBindingsText(text).Err?
    ensures BindingsFault(text, ParseBindingsText(text).error)
  {
    hide KeyLess;
    var texts := Split(text, ',');
    if ParsePairs(texts).Err? { BadPairIsFound(texts); } else { OrderIsFound(ParsePairs(texts).value); }
  }

  /** Why a payload split into these parts was refused: the fault is in the first bad field, and the error names it. */
  predicate Explained(parts: seq<seq<Byte>>, e: ParseError) {
    if |parts| != 5 then e == InvalidPartCount(|parts|)
    else if parts[0] != MagicBytes() then
      match Decode(parts[0]) case None => e == InvalidUtf8("magic") case Some(text) => e == InvalidMagic(text)
    else if parts[1] != VersionBytes() then
      match Decode(parts[1]) case None => e == InvalidUtf8("version") case Some(text) => e == VersionError(text)
    else if ParseAction(parts[2]).Err? then
      match Decode(parts[2])
      case None => e == InvalidUtf8("action")
      case Some(text) => e == InvalidAction(text) && forall a: Action :: Name(a) != text
    else if ParseValue(parts[3]).Err? then
      match Decode(parts[3])
      case None => e == InvalidUtf8("value")
      case Some(text) => text != "" && e.ParseInvalidValue? && ValueFault(text, e.error)
    else
      match Decode(parts[4])
      case None => e == InvalidUtf8("bindings")
      case Some(text) => BindingsFault(text, e)
  }

  lemma FieldErrors(part: seq<Byte>)
    ensures ParseMagic(part).Err? <==> part != MagicBytes()
    ensures ParseVersion(part).Err? <==> part != VersionBytes()
  {
    hide Encode, Decode, VersionError;
    DecodeEncode(MAGIC);
    DecodeEncode(VERSION);
    if Decode(part).Some? { EncodeDecode(part); }
  }

  /** Every refused payload is refused for its first bad field, with the error that says so. */
  lemma ErrorsAreExplained(payload: seq<Byte>)
    requires Parse(payload).Err?
    ensures Explained(Split(payload, UNIT_SEPARATOR), Parse(payload).error)
  {
    hide Encode, Decode, Name, MagicBytes, VersionBytes, Split, ValueVerdict, ValidValue, VersionError,
         BindingsFault, FromStr, ValueFault;
    var parts := Split(payload, UNIT_SEPARATOR);
    if |parts| == 5 {
      FieldErrors(parts[0]);
      FieldErrors(parts[1]);
      forall a: Action
        ensures FromStr(Name(a)) == Some(a)
      {
        FromStrInverts(a);
      }
      if Decode(parts[3]).Some? && ValueVerdict(Decode(parts[3]).value).Err? {
        ErrorIsFault(Decode(parts[3]).value);
      }
      if Decode(parts[4]).Some? && ParseBindingsText(Decode(parts[4]).value).Err? {
        BindingsErrorIsExplained(Decode(parts[4]).value);
      }
    }
  }
}
