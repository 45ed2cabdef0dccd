/** The header codec of the program: `serde_json::to_string` on one side, `std::str::from_utf8` and
    `serde_json::from_str` on the other. */
module JsonCodec {
  import opened Structs
  import opened HeaderText
  import opened Framing

  predicate ContinuesFor(s: seq<byte>, n: nat) {
    1 + n <= |s| && forall i :: 1 <= i <= n ==> 0x80 <= s[i] <= 0xBF
  }

  /** The length of the character that `s` starts with, 0 if there is none (section 4 of RFC 3629). */
  function CharLength(s: seq<byte>): (n: nat)
    ensures n <= |s|
  {
    if s == [] then 0
    else if s[0] < 0x80 then 1
    else if 0xC2 <= s[0] <= 0xDF && ContinuesFor(s, 1) then 2
    else if 0xE0 <= s[0] <= 0xEF && ContinuesFor(s, 2)
            && (s[0] == 0xE0 ==> s[1] >= 0xA0) && (s[0] == 0xED ==> s[1] <= 0x9F) then 3
    else if 0xF0 <= s[0] <= 0xF4 && ContinuesFor(s, 3)
            && (s[0] == 0xF0 ==> s[1] >= 0x90) && (s[0] == 0xF4 ==> s[1] <= 0x8F) then 4
    else 0
  }

  predicate IsUtf8(s: seq<byte>) {
    s == [] || (CharLength(s) > 0 && IsUtf8(s[CharLength(s)..]))
  }

  lemma {:induction false} AsciiIsUtf8(s: seq<byte>)
    requires forall i :: 0 <= i < |s| ==> s[i] < 128
    ensures IsUtf8(s)
  {
    if s != [] {
      AsciiIsUtf8(s[1..]);
    }
  }

  // ---- What IsUtf8 accepts ----

  /** A Unicode scalar value: a code point that is not a surrogate. */
  predicate IsScalar(n: nat) {
    n < 0xD800 || 0xE000 <= n < 0x110000
  }

  /** All but the last six bits, and the byte that stands for the last six. */
  function Rest(n: nat): nat {
    n / 0x40
  }

  function LastSix(n: nat): byte {
    0x80 + n % 0x40
  }

  /** The bytes of one scalar value (section 3 of RFC 3629). */
  function CharBytes(n: nat): seq<byte>
    requires IsScalar(n)
  {
    if n < 0x80 then [n]
    else if n < 0x800 then [0xC0 + Rest(n), LastSix(n)]
    else if n < 0x10000 then [0xE0 + Rest(Rest(n)), LastSix(Rest(n)), LastSix(n)]
    else [0xF0 + Rest(Rest(Rest(n))), LastSix(Rest(Rest(n))), LastSix(Rest(n)), LastSix(n)]
  }

  function TextBytes(chars: seq<nat>): seq<byte>
    requires forall n <- chars :: IsScalar(n)
  {
    if chars == [] then [] else CharBytes(chars[0]) + TextBytes(chars[1..])
  }

  lemma CharLengthOfBytes(n: nat, rest: seq<byte>)
    requires IsScalar(n)
    ensures CharLength(CharBytes(n) + rest) == |CharBytes(n)|
  {
  }

  function SixMore(n: nat, next: byte): nat
    requires next >= 0x80
  {
    n * 0x40 + (next - 0x80)
  }

  lemma SixLess(n: nat, next: byte)
    requires 0x80 <= next <= 0xBF
    ensures Rest(SixMore(n, next)) == n && LastSix(SixMore(n, next)) == next
    ensures SixMore(n, next) == 0x40 * n + (next as int - 0x80)
  {
  }

  lemma BytesOfChar(s: seq<byte>) returns (n: nat)
    requires CharLength(s) > 0
    ensures IsScalar(n) && s[..CharLength(s)] == CharBytes(n)
  {
    match CharLength(s)
    case 1 => n := s[0];
    case 2 => n := CharOfTwo(s);
    case 3 => n := CharOfThree(s);
    case _ => n := CharOfFour(s);
  }

  lemma CharOfTwo(s: seq<byte>) returns (n: nat)
    requires CharLength(s) == 2
    ensures IsScalar(n) && s[..2] == CharBytes(n)
  {
    n := SixMore(s[0] - 0xC0, s[1]);
    SixLess(s[0] - 0xC0, s[1]);
  }

  lemma CharOfThree(s: seq<byte>) returns (n: nat)
    requires CharLength(s) == 3
    ensures IsScalar(n) && s[..3] == CharBytes(n)
  {
    var m := SixMore(s[0] - 0xE0, s[1]);
    n := SixMore(m, s[2]);
    hide SixMore, Rest, LastSix;
    SixLess(s[0] - 0xE0, s[1]);
    SixLess(m, s[2]);
  }

  lemma CharOfFour(s: seq<byte>) returns (n: nat)
    requires CharLength(s) == 4
    ensures IsScalar(n) && s[..4] == CharBytes(n)
  {
    n := JoinFour(s[0], s[1], s[2], s[3]);
    assert s[..4] == [s[0], s[1], s[2], s[3]];
  }

  lemma JoinFour(a: byte, b: byte, c: byte, d: byte) returns (n: nat)
    requires 0xF0 <= a <= 0xF4 && (a == 0xF0 ==> b >= 0x90) && (a == 0xF4 ==> b <= 0x8F)
    requires 0x80 <= b <= 0xBF && 0x80 <= c <= 0xBF && 0x80 <= d <= 0xBF
    ensures IsScalar(n) && [a, b, c, d] == CharBytes(n)
  {
    hide SixMore, Rest, LastSix, CharBytes;
    var l := SixMore(a - 0xF0, b);
    var m := SixMore(l, c);
    n := SixMore(m, d);
    SixLess(a - 0xF0, b);
    SixLess(l, c);
    SixLess(m, d);
    InRangeOfFour(a - 0xF0, b - 0x80, l, c - 0x80, m, d - 0x80, n);
    BytesOfFour(n);
  }

  lemma BytesOfFour(n: nat)
    requires 0x10000 <= n < 0x110000
    ensures 0xF0 + Rest(Rest(Rest(n))) < 0x100
    ensures CharBytes(n) == [0xF0 + Rest(Rest(Rest(n))), LastSix(Rest(Rest(n))), LastSix(Rest(n)), LastSix(n)]
  {
  }

  lemma InRangeOfFour(top: nat, b: nat, l: nat, c: nat, m: nat, d: nat, n: nat)
    requires l == 0x40 * top + b && m == 0x40 * l + c && n == 0x40 * m + d
    requires b < 0x40 && c < 0x40 && d < 0x40 && top <= 4 && (top == 0 ==> b >= 0x10) && (top == 4 ==> b < 0x10)
    ensures 0x10000 <= n < 0x110000 && IsScalar(n)
  {
  }

  ghost predicate IsTextBytes(s: seq<byte>, chars: seq<nat>) {
    (forall n <- chars :: IsScalar(n)) && s == TextBytes(chars)
  }

  /** Exactly the encodings of texts are valid. */
  lemma {:induction false} IsUtf8Iff(s: seq<byte>)
    ensures IsUtf8(s) <==> exists chars :: IsTextBytes(s, chars)
  {
    if IsUtf8(s) {
      var chars := TextOf(s);
    }
    if chars :| IsTextBytes(s, chars) {
      TextIsUtf8(chars);
    }
  }

  lemma {:induction false} TextIsUtf8(chars: seq<nat>)
    requires forall n <- chars :: IsScalar(n)
    ensures IsUtf8(TextBytes(chars))
  {
    hide CharLength;
    if chars != [] {
      TextIsUtf8(chars[1..]);
      var first, rest := CharBytes(chars[0]), TextBytes(chars[1..]);
      CharLengthOfBytes(chars[0], rest);
      assert (first + rest)[|first|..] == rest;
    }
  }

  lemma {:induction false} TextOf(s: seq<byte>) returns (chars: seq<nat>)
    requires IsUtf8(s)
    ensures IsTextBytes(s, chars)
    decreases |s|
  {
    hide CharLength, CharBytes;
    if s == [] {
      chars := [];
    } else {
      var n := BytesOfChar(s);
      var rest := TextOf(s[CharLength(s)..]);
      chars := [n] + rest;
      assert chars[1..] == rest;
    }
  }

  function ReadHeader(text: seq<byte>): HeaderRead {
    if !IsUtf8(text) then NotUtf8
    else
      match ParseHeader(text)
      case None => Malformed
      case Some(h) => Header(h)
  }

  /** The three outcomes: a panic on what is not the encoding of a text, the header of which the text
      is the printed form, or an error for all other texts. */
  lemma {:induction false} ReadHeaderIff(text: seq<byte>)
    ensures ReadHeader(text) == NotUtf8 <==> !exists chars :: IsTextBytes(text, chars)
    ensures forall h :: ReadHeader(text) == Header(h) <==> text == PrintHeader(h)
  {
    hide HeaderText.PrintHeader, HeaderText.ParseHeader;
    IsUtf8Iff(text);
    forall h ensures ReadHeader(text) == Header(h) <==> text == PrintHeader(h) {
      ParseIffPrinted(text, h);
      if text == PrintHeader(h) {
        PrintedIsBraced(h);
        AsciiIsUtf8(text);
      }
    }
  }

  const JSON := Codec(PrintHeader, ReadHeader)

  /** The JSON text of headers is a lawful codec: reading is the inverse of showing, and a header cut
      short never reads as one. This parser is strict besides. */
  lemma {:induction false} JsonIsLawful()
    ensures JSON.Lawful() && JSON.Strict()
  {
    hide HeaderText.PrintHeader, HeaderText.ParseHeader;
    forall h ensures JSON.Separable(h) && JSON.ReadsBack(h) {
      PrintedIsBraced(h);
      ParseIffPrinted(PrintHeader(h), h);
      AsciiIsUtf8(PrintHeader(h));
    }
    forall text, h ensures JSON.ReadsOnly(text, h) {
      ParseIffPrinted(text, h);
    }
    forall h, k ensures JSON.PrefixIsMalformed(h, k) {
      if 0 <= k < |PrintHeader(h)| {
        PrintedIsBraced(h);
        AsciiIsUtf8(PrintHeader(h)[..k]);
        ProperPrefixDoesNotParse(h, k);
      }
    }
  }
}
