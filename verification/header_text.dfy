/** The JSON text of a transit header, as serde_json prints it, and a strict parser for that
    layout (RFC 8259, sections 4 to 7):
    `{"action":"Forward","destination":[1,2,3,4],"length":5}`. */
module HeaderText {
  import opened Structs

  const COMMA: byte := 44
  const QUOTE: byte := 34
  const CLOSE: byte := 125

  function Ascii(s: string): seq<byte>
    requires forall i :: 0 <= i < |s| ==> s[i] as int < 128
  {
    seq(|s|, i requires 0 <= i < |s| => s[i] as int)
  }

  // ---- Decimal numbers ----

  predicate IsDigit(b: byte) {
    48 <= b <= 57
  }

  predicate AllDigits(s: seq<byte>) {
    forall i :: 0 <= i < |s| ==> IsDigit(s[i])
  }

  /** Digits without a leading zero: the only form in which a JSON integer may be written. */
  predicate Numeral(s: seq<byte>) {
    s != [] && AllDigits(s) && (|s| > 1 ==> s[0] != 48)
  }

  function PrintNat(n: nat): (s: seq<byte>)
    ensures Numeral(s) && (n > 0 ==> s[0] != 48) && ValueOf(s) == n
  {
    if n < 10 then [48 + n] else PrintNat(n / 10) + [48 + n % 10]
  }

  function ValueOf(s: seq<byte>): nat
    requires AllDigits(s)
  {
    if s == [] then 0 else ValueOf(s[..|s| - 1]) * 10 + (s[|s| - 1] - 48)
  }

  lemma {:induction false} ValueIsPositive(s: seq<byte>)
    requires AllDigits(s) && s != [] && s[0] != 48
    ensures ValueOf(s) > 0
  {
    if |s| > 1 {
      ValueIsPositive(s[..|s| - 1]);
    }
  }

  lemma {:induction false} PrintOfValue(s: seq<byte>)
    requires Numeral(s)
    ensures PrintNat(ValueOf(s)) == s
  {
    if |s| > 1 {
      var front := s[..|s| - 1];
      PrintOfValue(front);
      var n, last := ValueOf(front), s[|s| - 1] - 48;
      assert (n * 10 + last) / 10 == n && (n * 10 + last) % 10 == last;
      assert s == front + [s[|s| - 1]];
      ValueIsPositive(front);
    }
  }

  function DigitSpan(s: seq<byte>): (k: nat)
    ensures k <= |s| && AllDigits(s[..k]) && (k < |s| ==> !IsDigit(s[k]))
  {
    if s == [] || !IsDigit(s[0]) then 0
    else
      var k := 1 + DigitSpan(s[1..]);
      assert s[..k] == [s[0]] + s[1..][..k - 1];
      k
  }

  lemma {:induction false} SpanOfDigits(digits: seq<byte>, rest: seq<byte>)
    requires AllDigits(digits) && (rest == [] || !IsDigit(rest[0]))
    ensures DigitSpan(digits + rest) == |digits|
  {
    if digits == [] {
      assert digits + rest == rest;
    } else {
      assert (digits + rest)[1..] == digits[1..] + rest;
      SpanOfDigits(digits[1..], rest);
    }
  }

  function ParseNat(s: seq<byte>): (r: Option<(nat, seq<byte>)>)
    ensures r.Some? ==> s == PrintNat(r.value.0) + r.value.1
  {
    var k := DigitSpan(s);
    if Numeral(s[..k]) then
      PrintOfValue(s[..k]);
      Some((ValueOf(s[..k]), s[k..]))
    else None
  }

  lemma ParseOfPrintedNat(n: nat, rest: seq<byte>)
    requires rest == [] || !IsDigit(rest[0])
    ensures ParseNat(PrintNat(n) + rest) == Some((n, rest))
  {
    var digits := PrintNat(n);
    var s := digits + rest;
    var k := DigitSpan(s);
    SpanOfDigits(digits, rest);
    assert s[..k] == digits && s[k..] == rest;
  }

  // ---- Actions ----

  function ActionName(a: GdpAction): seq<byte> {
    match a
    case Noop => Ascii("Noop")
    case Forward => Ascii("Forward")
    case Advertise => Ascii("Advertise")
    case RibGet => Ascii("RibGet")
    case RibReply => Ascii("RibReply")
    case Nack => Ascii("Nack")
    case Control => Ascii("Control")
  }

  const ACTIONS: seq<GdpAction> := [Noop, Forward, Advertise, RibGet, RibReply, Nack, Control]

  function Position(a: GdpAction): (i: nat)
    ensures i < |ACTIONS| && ACTIONS[i] == a
  {
    match a
    case Noop => 0
    case Forward => 1
    case Advertise => 2
    case RibGet => 3
    case RibReply => 4
    case Nack => 5
    case Control => 6
  }

  /** Reads an action name and the quotation mark that closes it. */
  function ParseAction(s: seq<byte>, from: nat := 0): (r: Option<(GdpAction, seq<byte>)>)
    requires from <= |ACTIONS|
    ensures r.Some? ==> s == ActionName(r.value.0) + ([QUOTE] + r.value.1)
    decreases |ACTIONS| - from
  {
    if from == |ACTIONS| then None
    else
      var name := ActionName(ACTIONS[from]) + [QUOTE];
      if name <= s then
        assert s == ActionName(ACTIONS[from]) + ([QUOTE] + s[|name|..]);
        Some((ACTIONS[from], s[|name|..]))
      else ParseAction(s, from + 1)
  }

  /** The quotation mark after a name keeps one name from being read as another. */
  lemma QuotedNamesDiffer(a: GdpAction, b: GdpAction, s: seq<byte>)
    requires ActionName(a) + [QUOTE] <= s && ActionName(b) + [QUOTE] <= s
    ensures a == b
  {
    var m, n := ActionName(a), ActionName(b);
    assert s[|m|] == QUOTE && s[|n|] == QUOTE;
    assert forall i :: 0 <= i < |m| ==> s[i] == (m + [QUOTE])[i] == m[i];
    assert forall i :: 0 <= i < |n| ==> s[i] == (n + [QUOTE])[i] == n[i];
    assert |m| == |n|;
    assert m[0] == s[0] == n[0] && m[1] == s[1] == n[1];
  }

  lemma {:induction false} ParseOfPrintedAction(a: GdpAction, rest: seq<byte>, from: nat := 0)
    requires from <= |ACTIONS|
    requires from <= Position(a)
    ensures ParseAction(ActionName(a) + ([QUOTE] + rest), from) == Some((a, rest))
    decreases |ACTIONS| - from
  {
    var s := ActionName(a) + ([QUOTE] + rest);
    assert s == ActionName(a) + [QUOTE] + rest;
    if ActionName(ACTIONS[from]) + [QUOTE] <= s {
      QuotedNamesDiffer(a, ACTIONS[from], s);
      assert s[|ActionName(a) + [QUOTE]|..] == rest;
    } else {
      ParseOfPrintedAction(a, rest, from + 1);
    }
  }

  // ---- Headers ----

  function Expect(literal: seq<byte>, s: seq<byte>): (r: Option<seq<byte>>)
    ensures r.Some? <==> literal <= s
    ensures r.Some? ==> s == literal + r.value
  {
    if literal <= s then Some(s[|literal|..]) else None
  }

  function PrintName(n: GDPName, rest: seq<byte>): seq<byte> {
    PrintNat(n.a) + ([COMMA] + (PrintNat(n.b) + ([COMMA] + (PrintNat(n.c) + ([COMMA] + (PrintNat(n.d) + rest))))))
  }

  const OPEN_ACTION := Ascii("{\"action\":\"")
  const OPEN_DESTINATION := Ascii(",\"destination\":[")
  const OPEN_LENGTH := Ascii("],\"length\":")

  /** A header laid out between three literals. */
  function Layout(action: seq<byte>, destination: seq<byte>, length: seq<byte>, h: GDPPacketInTransit): seq<byte> {
    action + (ActionName(h.action) + ([QUOTE] + (destination +
    PrintName(h.destination, length + (PrintNat(h.length) + [CLOSE])))))
  }

  /** The text that `serde_json::to_string` yields for a transit header. */
  function PrintHeader(h: GDPPacketInTransit): seq<byte> {
    Layout(OPEN_ACTION, OPEN_DESTINATION, OPEN_LENGTH, h)
  }

  /** The names of the actions, byte by byte: those of the enumeration's variants. */
  lemma ActionNames()
    ensures ActionName(Noop) == [78, 111, 111, 112]
    ensures ActionName(Forward) == [70, 111, 114, 119, 97, 114, 100]
    ensures ActionName(Advertise) == [65, 100, 118, 101, 114, 116, 105, 115, 101]
    ensures ActionName(RibGet) == [82, 105, 98, 71, 101, 116]
    ensures ActionName(RibReply) == [82, 105, 98, 82, 101, 112, 108, 121]
    ensures ActionName(Nack) == [78, 97, 99, 107]
    ensures ActionName(Control) == [67, 111, 110, 116, 114, 111, 108]
  {
  }

  /** Numbers are written in decimal, the most significant digit first. */
  lemma DecimalDigits(n: nat)
    ensures n < 10 ==> PrintNat(n) == [48 + n]
    ensures n >= 10 ==> PrintNat(n) == PrintNat(n / 10) + [48 + n % 10]
  {
  }

  /** The whole text of a header, byte by byte. */
  lemma {:induction false} HeaderTextBytes(h: GDPPacketInTransit)
    ensures var n := h.destination;
            PrintHeader(h) ==
            [123, 34, 97, 99, 116, 105, 111, 110, 34, 58, 34] + ActionName(h.action) +
            [34, 44, 34, 100, 101, 115, 116, 105, 110, 97, 116, 105, 111, 110, 34, 58, 91] +
            PrintNat(n.a) + [44] + PrintNat(n.b) + [44] + PrintNat(n.c) + [44] + PrintNat(n.d) +
            [93, 44, 34, 108, 101, 110, 103, 116, 104, 34, 58] + PrintNat(h.length) + [125]
  {
    hide Ascii, ActionName, PrintNat, Layout;
    LayoutIsFlat(OPEN_ACTION, OPEN_DESTINATION, OPEN_LENGTH, h);
    LiteralBytes();
  }

  lemma LiteralBytes()
    ensures OPEN_ACTION == [123, 34, 97, 99, 116, 105, 111, 110, 34, 58, 34]
    ensures [QUOTE] + OPEN_DESTINATION == [34, 44, 34, 100, 101, 115, 116, 105, 110, 97, 116, 105, 111, 110, 34, 58, 91]
    ensures OPEN_LENGTH == [93, 44, 34, 108, 101, 110, 103, 116, 104, 34, 58]
  {
  }

  lemma LayoutIsFlat(action: seq<byte>, destination: seq<byte>, length: seq<byte>, h: GDPPacketInTransit)
    ensures var n := h.destination;
            Layout(action, destination, length, h) ==
            action + ActionName(h.action) + ([QUOTE] + destination) +
            PrintNat(n.a) + [COMMA] + PrintNat(n.b) + [COMMA] + PrintNat(n.c) + [COMMA] + PrintNat(n.d) +
            length + PrintNat(h.length) + [CLOSE]
  {
    hide ActionName, PrintNat;
  }

  lemma ExpectAfter(literal: seq<byte>, rest: seq<byte>)
    ensures Expect(literal, literal + rest) == Some(rest)
  {
  }

  function ParseOctet(s: seq<byte>): (r: Option<(byte, seq<byte>)>)
    ensures r.Some? ==> s == PrintNat(r.value.0) + r.value.1
  {
    var (n, rest) :- ParseNat(s);
    if n < 256 then Some((n, rest)) else None
  }

  function ParseName(s: seq<byte>): (r: Option<(GDPName, seq<byte>)>)
    ensures r.Some? ==> s == PrintName(r.value.0, r.value.1)
  {
    var (a, s1) :- ParseOctet(s);
    var s2 :- Expect([COMMA], s1);
    var (b, s3) :- ParseOctet(s2);
    var s4 :- Expect([COMMA], s3);
    var (c, s5) :- ParseOctet(s4);
    var s6 :- Expect([COMMA], s5);
    var (d, s7) :- ParseOctet(s6);
    Some((GDPName(a, b, c, d), s7))
  }

  function ParseLayout(
    action: seq<byte>, destination: seq<byte>, length: seq<byte>, text: seq<byte>): (r: Option<GDPPacketInTransit>)
    ensures r.Some? ==> text == Layout(action, destination, length, r.value)
  {
    var s1 :- Expect(action, text);
    var (a, s2) :- ParseAction(s1);
    var s3 :- Expect(destination, s2);
    var (name, s4) :- ParseName(s3);
    var s5 :- Expect(length, s4);
    var (n, s6) :- ParseNat(s5);
    if s6 == [CLOSE] && n < USIZE_LIMIT then Some(GDPPacketInTransit(a, name, n)) else None
  }

  /** `serde_json::from_str`, on the layout above and nothing else. */
  function ParseHeader(text: seq<byte>): Option<GDPPacketInTransit> {
    ParseLayout(OPEN_ACTION, OPEN_DESTINATION, OPEN_LENGTH, text)
  }

  lemma {:induction false} ParseOfPrintedName(n: GDPName, rest: seq<byte>)
    requires rest != [] && !IsDigit(rest[0])
    ensures ParseName(PrintName(n, rest)) == Some((n, rest))
  {
    hide PrintNat, ParseNat, Expect;
    var s6 := PrintNat(n.d) + rest;
    var s4 := PrintNat(n.c) + ([COMMA] + s6);
    var s2 := PrintNat(n.b) + ([COMMA] + s4);
    ParseOfPrintedNat(n.a, [COMMA] + s2);
    ExpectAfter([COMMA], s2);
    ParseOfPrintedNat(n.b, [COMMA] + s4);
    ExpectAfter([COMMA], s4);
    ParseOfPrintedNat(n.c, [COMMA] + s6);
    ExpectAfter([COMMA], s6);
    ParseOfPrintedNat(n.d, rest);
  }

  lemma {:induction false} ParseOfLayout(
    action: seq<byte>, destination: seq<byte>, length: seq<byte>, h: GDPPacketInTransit)
    requires length != [] && !IsDigit(length[0])
    ensures ParseLayout(action, destination, length, Layout(action, destination, length, h)) == Some(h)
  {
    var s6 := PrintNat(h.length) + [CLOSE];
    var s4 := PrintName(h.destination, length + s6);
    var s2 := [QUOTE] + (destination + s4);
    ExpectAfter(action, ActionName(h.action) + s2);
    ParseOfPrintedAction(h.action, destination + s4);
    ExpectAfter(destination, s4);
    ParseOfPrintedName(h.destination, length + s6);
    ExpectAfter(length, s6);
    ParseOfPrintedNat(h.length, [CLOSE]);
  }

  /** The parser accepts exactly the printed headers, each with its own value. */
  lemma {:induction false} ParseIffPrinted(text: seq<byte>, h: GDPPacketInTransit)
    ensures ParseHeader(text) == Some(h) <==> text == PrintHeader(h)
  {
    ParseOfLayout(OPEN_ACTION, OPEN_DESTINATION, OPEN_LENGTH, h);
  }

  // ---- The shape of a printed header ----

  /** No NUL, nothing outside ASCII, and a closing brace nowhere but at the end. */
  predicate Braced(s: seq<byte>) {
    && s != [] && s[|s| - 1] == CLOSE
    && forall i :: 0 <= i < |s| - 1 ==> Plain(s[i])
  }

  predicate Plain(b: byte) {
    0 < b < 128 && b != CLOSE
  }

  predicate AllPlain(s: seq<byte>) {
    forall i :: 0 <= i < |s| ==> Plain(s[i])
  }

  lemma BracedAfter(s: seq<byte>, t: seq<byte>)
    requires AllPlain(s) && Braced(t)
    ensures Braced(s + t)
  {
  }

  lemma NumberBracedAfter(n: nat, t: seq<byte>)
    requires Braced(t)
    ensures Braced(PrintNat(n) + t)
  {
    var digits := PrintNat(n);
    assert forall i :: 0 <= i < |digits| ==> IsDigit(digits[i]);
    BracedAfter(digits, t);
  }

  lemma NameBracedAfter(n: GDPName, t: seq<byte>)
    requires Braced(t)
    ensures Braced(PrintName(n, t))
  {
    NumberBracedAfter(n.d, t);
    var s6 := [COMMA] + (PrintNat(n.d) + t);
    BracedAfter([COMMA], PrintNat(n.d) + t);
    NumberBracedAfter(n.c, s6);
    var s4 := [COMMA] + (PrintNat(n.c) + s6);
    BracedAfter([COMMA], PrintNat(n.c) + s6);
    NumberBracedAfter(n.b, s4);
    BracedAfter([COMMA], PrintNat(n.b) + s4);
    NumberBracedAfter(n.a, [COMMA] + (PrintNat(n.b) + s4));
  }

  lemma LayoutIsBraced(action: seq<byte>, destination: seq<byte>, length: seq<byte>, h: GDPPacketInTransit)
    requires AllPlain(action) && AllPlain(destination) && AllPlain(length) && AllPlain(ActionName(h.action))
    ensures Braced(Layout(action, destination, length, h))
  {
    NumberBracedAfter(h.length, [CLOSE]);
    BracedAfter(length, PrintNat(h.length) + [CLOSE]);
    var s4 := PrintName(h.destination, length + (PrintNat(h.length) + [CLOSE]));
    NameBracedAfter(h.destination, length + (PrintNat(h.length) + [CLOSE]));
    BracedAfter(destination, s4);
    BracedAfter([QUOTE], destination + s4);
    BracedAfter(ActionName(h.action), [QUOTE] + (destination + s4));
    BracedAfter(action, ActionName(h.action) + ([QUOTE] + (destination + s4)));
  }

  lemma NameIsPlain(a: GdpAction)
    ensures AllPlain(ActionName(a))
  {
  }

  lemma LiteralsArePlain()
    ensures AllPlain(OPEN_ACTION) && AllPlain(OPEN_DESTINATION) && AllPlain(OPEN_LENGTH)
  {
  }

  lemma {:induction false} PrintedIsBraced(h: GDPPacketInTransit)
    ensures Braced(PrintHeader(h))
  {
    hide AllPlain, ActionName, Braced, Layout, Ascii;
    NameIsPlain(h.action);
    LiteralsArePlain();
    LayoutIsBraced(OPEN_ACTION, OPEN_DESTINATION, OPEN_LENGTH, h);
  }

  /** No proper prefix of a printed header parses, so on a well-formed stream "does not parse"
      means "not all here yet". */
  lemma {:induction false} ProperPrefixDoesNotParse(h: GDPPacketInTransit, k: nat)
    requires k < |PrintHeader(h)|
    ensures ParseHeader(PrintHeader(h)[..k]).None?
  {
    var text := PrintHeader(h)[..k];
    PrintedIsBraced(h);
    if k > 0 {
      assert text[k - 1] == PrintHeader(h)[k - 1];
    }
    match ParseHeader(text)
    case Some(g) =>
      PrintedIsBraced(g);
      assert false;
    case None =>
  }
}
