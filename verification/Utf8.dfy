/**
 * UTF-8 as section 3 of RFC 3629 defines it.  A Dafny `char` is a Unicode
 * scalar value, so `string` is what a Rust `&str` denotes and `Encode` gives
 * its bytes; `Decode` is the strict decoder behind `std::str::from_utf8`.
 */
module Utf8 {
  import opened Prelude

  function EncodeChar(c: char): (b: seq<Byte>)
    ensures 1 <= |b| <= 4
  {
    var v := c as int;
    if v < 0x80 then [v]
    else if v < 0x800 then [0xC0 + v / 64, 0x80 + v % 64]
    else if v < 0x10000 then [0xE0 + v / 64 / 64, 0x80 + v / 64 % 64, 0x80 + v % 64]
    else [0xF0 + v / 64 / 64 / 64, 0x80 + v / 64 / 64 % 64, 0x80 + v / 64 % 64, 0x80 + v % 64]
  }

  function Encode(s: string): (b: seq<Byte>) {
    if s == "" then [] else EncodeChar(s[0]) + Encode(s[1..])
  }

  predicate Tail(b: Byte) {
    0x80 <= b <= 0xBF
  }

  predicate Form2(b: seq<Byte>) {
    |b| >= 2 && 0xC2 <= b[0] <= 0xDF && Tail(b[1])
  }

  /** Three bytes: no overlong form, no surrogate. */
  predicate Form3(b: seq<Byte>) {
    |b| >= 3 && Tail(b[2])
    && (|| (b[0] == 0xE0 && 0xA0 <= b[1] <= 0xBF)
        || (0xE1 <= b[0] <= 0xEC && Tail(b[1]))
        || (b[0] == 0xED && 0x80 <= b[1] <= 0x9F)
        || (0xEE <= b[0] <= 0xEF && Tail(b[1])))
  }

  /** Four bytes: no overlong form, nothing above U+10FFFF. */
  predicate Form4(b: seq<Byte>) {
    |b| >= 4 && Tail(b[2]) && Tail(b[3])
    && (|| (b[0] == 0xF0 && 0x90 <= b[1] <= 0xBF)
        || (0xF1 <= b[0] <= 0xF3 && Tail(b[1]))
        || (b[0] == 0xF4 && 0x80 <= b[1] <= 0x8F))
  }

  /** The scalar value spelled by base-64 digits: the payload bits of a lead byte and of up to three tail bytes. */
  function Digits2(a: int, b: int): int { a * 64 + b - 0x80 }

  function Digits3(a: int, b: int, c: int): int { Digits2(Digits2(a, b), c) }

  function Digits4(a: int, b: int, c: int, d: int): int { Digits2(Digits3(a, b, c), d) }

  /** The first character and the number of bytes it takes. */
  function DecodeChar(b: seq<Byte>): (r: Option<(char, nat)>)
    ensures r.Some? ==> 1 <= r.value.1 <= |b|
  {
    if |b| >= 1 && b[0] < 0x80 then Some((b[0] as char, 1))
    else if Form2(b) then Some((Digits2(b[0] - 0xC0, b[1]) as char, 2))
    else if Form3(b) then Some((Digits3(b[0] - 0xE0, b[1], b[2]) as char, 3))
    else if Form4(b) then Some((Digits4(b[0] - 0xF0, b[1], b[2], b[3]) as char, 4))
    else None
  }

  function Decode(b: seq<Byte>): (r: Option<string>) {
    if b == [] then Some("")
    else
      match DecodeChar(b)
      case None => None
      case Some((c, n)) =>
        match Decode(b[n..])
        case None => None
        case Some(s) => Some([c] + s)
  }

  lemma DecodeCharInverts(c: char, rest: seq<Byte>)
    ensures DecodeChar(EncodeChar(c) + rest) == Some((c, |EncodeChar(c)|))
  {
  }

  lemma LastDigit(a: int, b: Byte)
    requires Tail(b)
    ensures Digits2(a, b) / 64 == a && Digits2(a, b) % 64 == b - 0x80
  {
  }

  lemma EncodeCharInverts(b: seq<Byte>)
    requires DecodeChar(b).Some?
    ensures var (c, n) := DecodeChar(b).value; EncodeChar(c) == b[..n]
  {
    if Form2(b) {
      LastDigit(b[0] - 0xC0, b[1]);
    } else if Form3(b) {
      LastDigit(b[0] - 0xE0, b[1]);
      LastDigit(Digits2(b[0] - 0xE0, b[1]), b[2]);
    } else if Form4(b) {
      LastDigit(b[0] - 0xF0, b[1]);
      LastDigit(Digits2(b[0] - 0xF0, b[1]), b[2]);
      LastDigit(Digits3(b[0] - 0xF0, b[1], b[2]), b[3]);
    }
  }

  /** Decoding inverts encoding, on every string. */
  lemma {:induction false} DecodeEncode(s: string)
    ensures Decode(Encode(s)) == Some(s)
  {
    hide EncodeChar, DecodeChar;
    if s != "" {
      DecodeCharInverts(s[0], Encode(s[1..]));
      DecodeEncode(s[1..]);
      assert Encode(s)[|EncodeChar(s[0])|..] == Encode(s[1..]);
      assert s == [s[0]] + s[1..];
    }
  }

  /** Encoding inverts decoding: a string has one encoding only. */
  lemma {:induction false} EncodeDecode(b: seq<Byte>)
    requires Decode(b).Some?
    ensures Encode(Decode(b).value) == b
    decreases |b|
  {
    hide EncodeChar, DecodeChar;
    if b != [] {
      EncodeCharInverts(b);
      var (c, n) := DecodeChar(b).value;
      EncodeDecode(b[n..]);
      assert b == b[..n] + b[n..];
    }
  }

  lemma {:induction false} EncodeConcat(s: string, t: string)
    ensures Encode(s + t) == Encode(s) + Encode(t)
  {
    hide EncodeChar;
    if s == "" {
      assert s + t == t;
    } else {
      EncodeConcat(s[1..], t);
      assert (s + t)[1..] == s[1..] + t;
    }
  }

  lemma EncodeEmpty()
    ensures Encode("") == []
  {
  }

  lemma EncodeAscii(c: char)
    requires c < 0x80 as char
    ensures Encode([c]) == [c as int]
  {
    assert Encode([c]) == EncodeChar(c) + Encode("");
  }

  /** An ASCII byte occurs in the encoding exactly when its character occurs in the string. */
  lemma {:induction false} AsciiOccurs(s: string, c: char)
    requires c < 0x80 as char
    ensures c as int in Encode(s) <==> c in s
  {
    if s != "" {
      AsciiOccurs(s[1..], c);
      assert s == [s[0]] + s[1..];
      assert c as int in EncodeChar(s[0]) <==> c == s[0];
    }
  }

  lemma AsciiStandsAlone(c: char, p: nat)
    requires p < |EncodeChar(c)| && EncodeChar(c)[p] < 0x80
    ensures p == 0 && |EncodeChar(c)| == 1 && EncodeChar(c)[0] == c as int
  {
  }

  /** An ASCII byte of an encoding is a whole character, and the bytes before it encode the text before that. */
  lemma {:induction false} AsciiByteAt(s: string, p: nat) returns (k: nat)
    requires p < |Encode(s)| && Encode(s)[p] < 0x80
    ensures k < |s| && s[k] as int == Encode(s)[p] && |Encode(s[..k])| == p
  {
    hide EncodeChar;
    var first, rest := EncodeChar(s[0]), s[1..];
    if p < |first| {
      AsciiStandsAlone(s[0], p);
      k := 0;
    } else {
      var j := AsciiByteAt(rest, p - |first|);
      k := j + 1;
      assert s[..k][1..] == rest[..j];
    }
  }
}
