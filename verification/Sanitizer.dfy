/** UTF-8 as in section 3 of RFC 3629, and the sanitiser that escapes unprintable characters. */
module Sanitizer {
  import opened Text

  /** A code point that UTF-8 can carry. */
  predicate Scalar(c: int) {
    0 <= c < 0xD800 || 0xE000 <= c <= 0x10FFFF
  }

  function Tail(n: int): char {
    (0x80 + n % 64) as char
  }

  function Utf8(c: int): (s: string)
    requires Scalar(c)
    ensures 1 <= |s| <= 4
  {
    if c < 0x80 then [c as char]
    else if c < 0x800 then [(0xC0 + c / 64) as char, Tail(c)]
    else if c < 0x10000 then [(0xE0 + c / 4096) as char, Tail(c / 64), Tail(c)]
    else [(0xF0 + c / 262144) as char, Tail(c / 4096), Tail(c / 64), Tail(c)]
  }

  function TailBits(c: char): Option<int> {
    if 0x80 <= c as int < 0xC0 then Some(c as int - 0x80) else None
  }

  /** The bits of the tails of a sequence whose lead byte contributes `high`. */
  function Tails(high: int, s: string): Option<int>
    decreases |s|
  {
    if s == "" then Some(high)
    else match TailBits(s[0])
      case None => None
      case Some(bits) => Tails(high * 64 + bits, s[1..])
  }

  datatype Lead = Lead(count: nat, high: int, least: int)

  /** What a first byte announces: the tails, its own bits, and the least code point that
      needs so many bytes. */
  function LeadOf(c: char): Option<Lead> {
    var n := c as int;
    if n < 0x80 then Some(Lead(0, n, 0))
    else if n < 0xC0 then None
    else if n < 0xE0 then Some(Lead(1, n - 0xC0, 0x80))
    else if n < 0xF0 then Some(Lead(2, n - 0xE0, 0x800))
    else if n < 0xF8 then Some(Lead(3, n - 0xF0, 0x10000))
    else None
  }

  datatype First = First(point: int, length: nat)

  /** The first code point of s; overlong forms, surrogates and values above U+10FFFF are invalid. */
  function DecodeFirst(s: string): (r: Option<First>)
    ensures r.Some? ==> 0 < r.value.length <= |s| && Scalar(r.value.point)
  {
    if s == "" then None
    else match LeadOf(s[0])
      case None => None
      case Some(lead) =>
        if |s| < 1 + lead.count then None
        else match Tails(lead.high, s[1..1 + lead.count])
          case None => None
          case Some(point) => if lead.least <= point && Scalar(point) then Some(First(point, 1 + lead.count)) else None
  }

  predicate Scalars(points: seq<int>) {
    forall i | 0 <= i < |points| :: Scalar(points[i])
  }

  /** The code points of s, or None if it is not valid UTF-8. */
  function Decode(s: string): (r: Option<seq<int>>)
    ensures r.Some? ==> Scalars(r.value)
    decreases |s|
  {
    if s == "" then Some([])
    else match DecodeFirst(s)
      case None => None
      case Some(first) =>
        match Decode(s[first.length..])
        case None => None
        case Some(points) => Some([first.point] + points)
  }

  function Encode(points: seq<int>): string
    requires Scalars(points)
  {
    if points == [] then "" else Utf8(points[0]) + Encode(points[1..])
  }

  // ---------------------------------------------------------------- the sanitiser

  predicate Printable(c: int) {
    0x20 <= c <= 0x7E || 0xA0 <= c <= 0x10FFFF
  }

  function HexDigit(n: int): (c: char)
    requires 0 <= n < 16
  {
    if n < 10 then '0' + n as char else 'a' + (n - 10) as char
  }

  /** `std::hex` of a number. */
  function Hex(n: nat): (s: string)
    ensures s != ""
  {
    if n < 16 then [HexDigit(n)] else Hex(n / 16) + [HexDigit(n % 16)]
  }

  /** `std::setw(width)` with the fill character '0'. */
  function Padded(s: string, width: nat): string {
    if |s| >= width then s else seq(width - |s|, _ => '0') + s
  }

  function Escape(c: nat): string {
    "\\u" + Padded(Hex(c), 4)
  }

  const REPLACEMENT := 0xFFFD

  /** The code points that are rendered: the whole of an invalid input becomes one U+FFFD. */
  function Points(input: string): (points: seq<int>)
    ensures Scalars(points)
  {
    match Decode(input)
    case None => [REPLACEMENT]
    case Some(points) => points
  }

  function RenderOne(c: int): string
    requires Scalar(c)
  {
    if Printable(c) then Utf8(c) else Escape(c)
  }

  function Render(points: seq<int>): string
    requires Scalars(points)
  {
    if points == [] then "" else RenderOne(points[0]) + Render(points[1..])
  }

  function Sanitized(input: string): string {
    Render(Points(input))
  }

  lemma {:induction false} RenderPush(points: seq<int>, c: int)
    requires Scalars(points) && Scalar(c)
    ensures Render(points + [c]) == Render(points) + RenderOne(c)
  {
    hide RenderOne;
    if points == [] {
      assert points + [c] == [c];
      assert RenderOne(c) + "" == "" + RenderOne(c);
    } else {
      assert (points + [c])[1..] == points[1..] + [c];
      RenderPush(points[1..], c);
      assert RenderOne(points[0]) + (Render(points[1..]) + RenderOne(c)) == RenderOne(points[0]) + Render(points[1..]) + RenderOne(c);
    }
  }

  lemma RenderNothing()
    ensures Render([]) == ""
  {
  }

  method Sanitize(input: string) returns (result: string)
    ensures result == Sanitized(input)
  {
    hide Utf8, Escape, Points, Printable, Render;
    var points := Points(input);
    RenderNothing();
    result := "";
    for i := 0 to |points|
      invariant result == Render(points[..i])
    {
      var ch := points[i];
      RenderPush(points[..i], ch);
      assert points[..i] + [ch] == points[..i + 1];
      if Printable(ch) {
        result := result + Utf8(ch);
      } else {
        result := result + Escape(ch);
      }
    }
    assert points[..|points|] == points;
  }

  // ---------------------------------------------------------------- the codec inverts

  lemma Tails1(high: int, a: char)
    ensures Tails(high, [a]) == if TailBits(a).None? then None else Some(high * 64 + TailBits(a).value)
  {
    assert [a][1..] == "";
  }

  lemma Tails2(high: int, a: char, b: char)
    ensures Tails(high, [a, b]) == if TailBits(a).None? then None else Tails(high * 64 + TailBits(a).value, [b])
  {
    assert [a, b][1..] == [b];
  }

  lemma Tails3(high: int, a: char, b: char, c: char)
    ensures Tails(high, [a, b, c]) == if TailBits(a).None? then None else Tails(high * 64 + TailBits(a).value, [b, c])
  {
    assert [a, b, c][1..] == [b, c];
  }

  lemma SplitSix(c: int)
    requires 0 <= c
    ensures c / 64 * 64 + c % 64 == c && TailBits(Tail(c)) == Some(c % 64)
    ensures c / 64 / 64 == c / 4096 && c / 4096 / 64 == c / 262144
  {
  }

  lemma JoinSix(high: int, a: char)
    requires 0 <= high && TailBits(a).Some?
    ensures var c := high * 64 + TailBits(a).value; c / 64 == high && c % 64 == TailBits(a).value && Tail(c) == a
  {
  }

  /** The shape of a decoded sequence: a lead byte, then tails that join to the code point. */
  lemma DecodeFirstBy(s: string, lead: Lead, point: int)
    requires s != "" && LeadOf(s[0]) == Some(lead) && 1 + lead.count <= |s|
    requires Tails(lead.high, s[1..1 + lead.count]) == Some(point) && lead.least <= point && Scalar(point)
    ensures DecodeFirst(s) == Some(First(point, 1 + lead.count))
  {
  }

  lemma Utf8Tails(c: int)
    requires Scalar(c)
    ensures var u := Utf8(c);
            var high := if c < 0x80 then c else if c < 0x800 then c / 64 else if c < 0x10000 then c / 4096 else c / 262144;
            Tails(high, u[1..]) == Some(c)
  {
    var u := Utf8(c);
    SplitSix(c);
    SplitSix(c / 64);
    SplitSix(c / 4096);
    hide Tail, TailBits;
    if c < 0x80 {
    } else if c < 0x800 {
      assert u[1..] == [Tail(c)];
      Tails1(c / 64, Tail(c));
    } else if c < 0x10000 {
      assert u[1..] == [Tail(c / 64), Tail(c)];
      Tails2(c / 4096, Tail(c / 64), Tail(c));
      Tails1(c / 64, Tail(c));
    } else {
      assert u[1..] == [Tail(c / 4096), Tail(c / 64), Tail(c)];
      Tails3(c / 262144, Tail(c / 4096), Tail(c / 64), Tail(c));
      Tails2(c / 4096, Tail(c / 64), Tail(c));
      Tails1(c / 64, Tail(c));
    }
  }

  lemma DecodeFirstOfUtf8(c: int, rest: string)
    requires Scalar(c)
    ensures DecodeFirst(Utf8(c) + rest) == Some(First(c, |Utf8(c)|))
  {
    var u := Utf8(c);
    var s := u + rest;
    assert s[0] == u[0] && s[1..|u|] == u[1..];
    SplitSix(c);
    SplitSix(c / 64);
    SplitSix(c / 4096);
    Utf8Tails(c);
    hide DecodeFirst, Tails, Tail;
    if c < 0x80 {
      DecodeFirstBy(s, Lead(0, c, 0), c);
    } else if c < 0x800 {
      DecodeFirstBy(s, Lead(1, c / 64, 0x80), c);
    } else if c < 0x10000 {
      DecodeFirstBy(s, Lead(2, c / 4096, 0x800), c);
    } else {
      DecodeFirstBy(s, Lead(3, c / 262144, 0x10000), c);
    }
  }

  lemma JoinTwo(high: int, a: char)
    requires 0 <= high < 0x20 && Tails(high, [a]).Some? && 0x80 <= Tails(high, [a]).value && Scalar(Tails(high, [a]).value)
    ensures Utf8(Tails(high, [a]).value) == [(0xC0 + high) as char, a]
  {
    Tails1(high, a);
    JoinSix(high, a);
  }

  lemma JoinThree(high: int, a: char, b: char)
    requires 0 <= high < 0x10 && Tails(high, [a, b]).Some?
    requires 0x800 <= Tails(high, [a, b]).value && Scalar(Tails(high, [a, b]).value)
    ensures Utf8(Tails(high, [a, b]).value) == [(0xE0 + high) as char, a, b]
  {
    Tails2(high, a, b);
    var h := high * 64 + TailBits(a).value;
    Tails1(h, b);
    JoinSix(high, a);
    JoinSix(h, b);
    SplitSix(h * 64 + TailBits(b).value);
  }

  lemma JoinFour(high: int, a: char, b: char, c: char)
    requires 0 <= high < 8 && Tails(high, [a, b, c]).Some?
    requires 0x10000 <= Tails(high, [a, b, c]).value && Scalar(Tails(high, [a, b, c]).value)
    ensures Utf8(Tails(high, [a, b, c]).value) == [(0xF0 + high) as char, a, b, c]
  {
    Tails3(high, a, b, c);
    var h := high * 64 + TailBits(a).value;
    Tails2(h, b, c);
    var k := h * 64 + TailBits(b).value;
    Tails1(k, c);
    JoinSix(high, a);
    JoinSix(h, b);
    JoinSix(k, c);
    SplitSix(k * 64 + TailBits(c).value);
  }

  /** Only the encoding of a code point decodes to it. */
  lemma Utf8OfDecodeFirst(s: string)
    requires DecodeFirst(s).Some?
    ensures var first := DecodeFirst(s).value; s[..first.length] == Utf8(first.point)
  {
    var first := DecodeFirst(s).value;
    var lead := LeadOf(s[0]).value;
    assert s[..first.length] == [s[0]] + s[1..first.length];
    hide DecodeFirst;
    if lead.count == 0 {
      assert s[1..1] == "";
    } else if lead.count == 1 {
      assert s[1..2] == [s[1]];
      JoinTwo(lead.high, s[1]);
    } else if lead.count == 2 {
      assert s[1..3] == [s[1], s[2]];
      JoinThree(lead.high, s[1], s[2]);
    } else {
      assert s[1..4] == [s[1], s[2], s[3]];
      JoinFour(lead.high, s[1], s[2], s[3]);
    }
  }

  lemma {:induction false} DecodeOfEncode(points: seq<int>)
    requires Scalars(points)
    ensures Decode(Encode(points)) == Some(points)
  {
    if points != [] {
      var u, rest := Utf8(points[0]), Encode(points[1..]);
      DecodeFirstOfUtf8(points[0], rest);
      DecodeOfEncode(points[1..]);
      assert (u + rest)[|u|..] == rest;
      assert [points[0]] + points[1..] == points;
    }
  }

  lemma DecodeStep(s: string)
    requires s != "" && Decode(s).Some?
    ensures DecodeFirst(s).Some? && Decode(s[DecodeFirst(s).value.length..]).Some?
    ensures Decode(s).value == [DecodeFirst(s).value.point] + Decode(s[DecodeFirst(s).value.length..]).value
  {
    hide DecodeFirst;
  }

  lemma CutAnywhere(s: string, n: nat)
    requires n <= |s|
    ensures s[..n] + s[n..] == s
  {
  }

  lemma EncodeStep(point: int, points: seq<int>)
    requires Scalar(point) && Scalars(points)
    ensures Scalars([point] + points) && Encode([point] + points) == Utf8(point) + Encode(points)
  {
    hide Utf8;
    assert ([point] + points)[1..] == points;
  }

  lemma {:induction false} EncodeOfDecode(s: string)
    requires Decode(s).Some?
    ensures Encode(Decode(s).value) == s
    decreases |s|
  {
    if s != "" {
      hide DecodeFirst, Utf8, Decode, Encode, Scalars, Scalar;
      DecodeStep(s);
      var First(point, length) := DecodeFirst(s).value;
      Utf8OfDecodeFirst(s);
      CutAnywhere(s, length);
      EncodeOfDecode(s[length..]);
      EncodeStep(point, Decode(s[length..]).value);
    }
  }

  // ---------------------------------------------------------------- what the sanitiser promises

  predicate AllPrintable(points: seq<int>) {
    forall i | 0 <= i < |points| :: Printable(points[i])
  }

  predicate PlainText(s: string) {
    forall i | 0 <= i < |s| :: 0x20 <= s[i] as int <= 0x7E
  }

  function Codes(s: string): seq<int> {
    seq(|s|, i requires 0 <= i < |s| => s[i] as int)
  }

  lemma {:induction false} EncodeConcat(a: seq<int>, b: seq<int>)
    requires Scalars(a) && Scalars(b)
    ensures Scalars(a + b) && Encode(a + b) == Encode(a) + Encode(b)
  {
    if a == [] {
      assert a + b == b;
    } else {
      assert (a + b)[1..] == a[1..] + b;
      EncodeConcat(a[1..], b);
      assert Utf8(a[0]) + (Encode(a[1..]) + Encode(b)) == Utf8(a[0]) + Encode(a[1..]) + Encode(b);
    }
  }

  lemma {:induction false} PlainTextEncodesItself(s: string)
    requires PlainText(s)
    ensures Scalars(Codes(s)) && AllPrintable(Codes(s)) && Encode(Codes(s)) == s
  {
    if s != "" {
      PlainTextEncodesItself(s[1..]);
      assert Codes(s)[1..] == Codes(s[1..]);
      assert Utf8(s[0] as int) == [s[0]];
      assert [s[0]] + s[1..] == s;
    }
  }

  function HexValue(c: char): int {
    if '0' <= c <= '9' then c as int - '0' as int else c as int - 'a' as int + 10
  }

  /** The number that a run of hexadecimal digits denotes. */
  function HexNumber(s: string): int {
    if s == "" then 0
    else HexNumber(s[..|s| - 1]) * 16 + HexValue(s[|s| - 1])
  }

  predicate HexText(s: string) {
    forall i | 0 <= i < |s| :: '0' <= s[i] <= '9' || 'a' <= s[i] <= 'f'
  }

  lemma SmallHex(c: nat)
    requires c < 256
    ensures Padded(Hex(c), 4) == ['0', '0', HexDigit(c / 16), HexDigit(c % 16)]
  {
    if c < 16 {
      assert Padded(Hex(c), 4) == ['0', '0', '0'] + [HexDigit(c)];
    } else {
      assert Hex(c / 16) == [HexDigit(c / 16)];
      assert Padded(Hex(c), 4) == ['0', '0'] + ([HexDigit(c / 16)] + [HexDigit(c % 16)]);
    }
  }

  lemma HexDigitValue(n: int)
    requires 0 <= n < 16
    ensures HexValue(HexDigit(n)) == n && HexText([HexDigit(n)]) && PlainText([HexDigit(n)])
  {
  }

  lemma FourHex(p: char, q: char)
    ensures HexNumber(['0', '0', p, q]) == HexValue(p) * 16 + HexValue(q)
  {
    var s := ['0', '0', p, q];
    assert s[..3] == ['0', '0', p] && ['0', '0', p][..2] == ['0', '0'];
    assert ['0', '0'][..1] == ['0'] && ['0'][..0] == "";
    assert HexNumber(['0']) == 0;
    assert HexNumber(['0', '0']) == 0;
    assert HexNumber(['0', '0', p]) == HexValue(p);
  }

  /** An unprintable code point becomes a backslash, a 'u' and four hex digits of its value. */
  lemma EscapeShape(c: int)
    requires Scalar(c) && !Printable(c)
    ensures |RenderOne(c)| == 6 && RenderOne(c)[..2] == "\\u"
    ensures HexText(RenderOne(c)[2..]) && HexNumber(RenderOne(c)[2..]) == c
    ensures PlainText(RenderOne(c))
  {
    SmallHex(c);
    var p, q := HexDigit(c / 16), HexDigit(c % 16);
    FourHex(p, q);
    HexDigitValue(c / 16);
    HexDigitValue(c % 16);
    assert RenderOne(c) == "\\u" + ['0', '0', p, q];
    hide RenderOne, Escape, HexDigit, HexNumber, HexValue;
    assert RenderOne(c)[2..] == ['0', '0', p, q];
  }

  /** The code points of the output: unprintable ones replaced by the text of their escape. */
  function Expanded(points: seq<int>): seq<int>
    requires Scalars(points)
  {
    if points == [] then []
    else (if Printable(points[0]) then [points[0]] else Codes(Escape(points[0]))) + Expanded(points[1..])
  }

  lemma {:induction false} RenderEncodesExpanded(points: seq<int>)
    requires Scalars(points)
    ensures Scalars(Expanded(points)) && AllPrintable(Expanded(points))
    ensures Render(points) == Encode(Expanded(points))
  {
    if points != [] {
      var c := points[0];
      var first := if Printable(c) then [c] else Codes(Escape(c));
      RenderEncodesExpanded(points[1..]);
      if Printable(c) {
        assert [c][1..] == [] && Encode([c]) == Utf8(c) + "" == Utf8(c);
      } else {
        EscapeShape(c);
        PlainTextEncodesItself(Escape(c));
      }
      EncodeConcat(first, Expanded(points[1..]));
    }
  }

  lemma {:induction false} PrintableRendersItself(points: seq<int>)
    requires Scalars(points) && AllPrintable(points)
    ensures Render(points) == Encode(points)
  {
    if points != [] {
      PrintableRendersItself(points[1..]);
    }
  }

  /** Whatever the input, valid UTF-8 or not, the output is valid UTF-8 made only of
      printable code points. */
  lemma OutputPrintable(input: string)
    ensures Decode(Sanitized(input)).Some? && AllPrintable(Decode(Sanitized(input)).value)
  {
    RenderEncodesExpanded(Points(input));
    DecodeOfEncode(Expanded(Points(input)));
  }

  /** The sanitiser returns its input unchanged exactly when the input is valid UTF-8 made
      only of printable code points. */
  lemma UnchangedExactly(input: string)
    ensures Sanitized(input) == input <==> Decode(input).Some? && AllPrintable(Decode(input).value)
  {
    OutputPrintable(input);
    if Decode(input).Some? && AllPrintable(Decode(input).value) {
      PrintableRendersItself(Decode(input).value);
      EncodeOfDecode(input);
    }
  }

  /** Sanitising twice is sanitising once. */
  lemma Idempotent(input: string)
    ensures Sanitized(Sanitized(input)) == Sanitized(input)
  {
    OutputPrintable(input);
    UnchangedExactly(Sanitized(input));
  }

  /** An invalid input is replaced as a whole by the three bytes of U+FFFD. */
  lemma InvalidReplaced(input: string)
    requires Decode(input).None?
    ensures Sanitized(input) == [0xEF as char, 0xBF as char, 0xBD as char]
  {
    assert [REPLACEMENT][1..] == [];
    assert Render([]) == "";
  }

  // ---------------------------------------------------------------- in plain bytes

  lemma OneCharacter(c: int)
    requires Scalar(c)
    ensures Decode(Utf8(c)) == Some([c])
  {
    hide Utf8;
    assert [c][1..] == [] && Encode([]) == "" && Utf8(c) + "" == Utf8(c);
    DecodeOfEncode([c]);
  }

  /** Of the characters that UTF-8 can carry, exactly the 65 control characters are escaped. */
  lemma ControlsEscapedExactly(c: int)
    requires Scalar(c)
    ensures Sanitized(Utf8(c)) == Utf8(c) <==> !(c < 0x20 || 0x7F <= c <= 0x9F)
  {
    hide Utf8, Decode, Sanitized;
    OneCharacter(c);
    UnchangedExactly(Utf8(c));
    assert [c][0] == c;
    assert AllPrintable([c]) <==> Printable([c][0]);
  }

  predicate TailByte(c: char) {
    0x80 <= c as int <= 0xBF
  }

  /** The length of the character at the start of s by the syntax of section 4 of RFC 3629, 0 if
      there is none. */
  function SyntaxLength(s: string): (n: nat)
    ensures n <= |s|
  {
    if s == "" then 0
    else if s[0] as int <= 0x7F then 1
    else if |s| < 2 || !TailByte(s[1]) then 0
    else if 0xC2 <= s[0] as int <= 0xDF then 2
    else if |s| < 3 || !TailByte(s[2]) then 0
    else if s[0] as int == 0xE0 && s[1] as int >= 0xA0 then 3
    else if 0xE1 <= s[0] as int <= 0xEC then 3
    else if s[0] as int == 0xED && s[1] as int <= 0x9F then 3
    else if 0xEE <= s[0] as int <= 0xEF then 3
    else if |s| < 4 || !TailByte(s[3]) then 0
    else if s[0] as int == 0xF0 && s[1] as int >= 0x90 then 4
    else if 0xF1 <= s[0] as int <= 0xF3 then 4
    else if s[0] as int == 0xF4 && s[1] as int <= 0x8F then 4
    else 0
  }

  /** A string of such characters. */
  predicate Utf8Text(s: string)
    decreases |s|
  {
    s == "" || (SyntaxLength(s) > 0 && Utf8Text(s[SyntaxLength(s)..]))
  }

  lemma OneTail(s: string)
    requires |s| >= 2 && 0xC0 <= s[0] as int < 0xE0
    ensures var point := (s[0] as int - 0xC0) * 64 + (s[1] as int - 0x80);
            DecodeFirst(s) == if TailByte(s[1]) && 0x80 <= point then Some(First(point, 2)) else None
  {
    assert s[1..2] == [s[1]];
    Tails1(s[0] as int - 0xC0, s[1]);
  }

  lemma TwoTails(s: string)
    requires |s| >= 3 && 0xE0 <= s[0] as int < 0xF0
    ensures var point := ((s[0] as int - 0xE0) * 64 + (s[1] as int - 0x80)) * 64 + (s[2] as int - 0x80);
            DecodeFirst(s) == if TailByte(s[1]) && TailByte(s[2]) && 0x800 <= point && Scalar(point) then Some(First(point, 3)) else None
  {
    assert s[1..3] == [s[1], s[2]];
    var high := s[0] as int - 0xE0;
    Tails2(high, s[1], s[2]);
    Tails1(high * 64 + (s[1] as int - 0x80), s[2]);
  }

  lemma ThreeTails(s: string)
    requires |s| >= 4 && 0xF0 <= s[0] as int < 0xF8
    ensures var point := (((s[0] as int - 0xF0) * 64 + (s[1] as int - 0x80)) * 64 + (s[2] as int - 0x80)) * 64 + (s[3] as int - 0x80);
            DecodeFirst(s) == if TailByte(s[1]) && TailByte(s[2]) && TailByte(s[3]) && 0x10000 <= point && Scalar(point)
                              then Some(First(point, 4)) else None
  {
    assert s[1..4] == [s[1], s[2], s[3]];
    var high := s[0] as int - 0xF0;
    var more := high * 64 + (s[1] as int - 0x80);
    Tails3(high, s[1], s[2], s[3]);
    Tails2(more, s[2], s[3]);
    Tails1(more * 64 + (s[2] as int - 0x80), s[3]);
  }

  lemma FirstBySyntax(s: string)
    ensures DecodeFirst(s).Some? <==> SyntaxLength(s) > 0
    ensures DecodeFirst(s).Some? ==> DecodeFirst(s).value.length == SyntaxLength(s)
  {
    if |s| >= 2 && 0xC0 <= s[0] as int < 0xE0 {
      OneTail(s);
      hide DecodeFirst;
    } else if |s| >= 3 && 0xE0 <= s[0] as int < 0xF0 {
      TwoTails(s);
      hide DecodeFirst;
    } else if |s| >= 4 && 0xF0 <= s[0] as int < 0xF8 {
      ThreeTails(s);
      hide DecodeFirst;
    }
  }

  /** An input is decoded exactly when it follows that syntax; every other input is replaced. */
  lemma {:induction false} ValidExactly(s: string)
    ensures Decode(s).Some? <==> Utf8Text(s)
    decreases |s|
  {
    if s != "" {
      hide DecodeFirst, SyntaxLength;
      FirstBySyntax(s);
      if SyntaxLength(s) > 0 {
        ValidExactly(s[SyntaxLength(s)..]);
      }
    }
  }

  /** The bytes of a character carry its value in their low bits, behind the marks that tell
      lead bytes of two, three and four from tails. */
  lemma Utf8Exactly(c: int)
    requires Scalar(c)
    ensures var u := Utf8(c);
            && SyntaxLength(u) == |u|
            && c == if |u| == 1 then u[0] as int
                    else if |u| == 2 then (u[0] as int - 0xC0) * 64 + (u[1] as int - 0x80)
                    else if |u| == 3 then ((u[0] as int - 0xE0) * 64 + (u[1] as int - 0x80)) * 64 + (u[2] as int - 0x80)
                    else (((u[0] as int - 0xF0) * 64 + (u[1] as int - 0x80)) * 64 + (u[2] as int - 0x80)) * 64 + (u[3] as int - 0x80)
  {
    var u := Utf8(c);
    DecodeFirstOfUtf8(c, "");
    assert u + "" == u;
    FirstBySyntax(u);
    if c < 0x80 {
    } else if c < 0x800 {
      hide DecodeFirst, SyntaxLength, Scalar;
      OneTail(u);
    } else if c < 0x10000 {
      hide DecodeFirst, SyntaxLength, Scalar;
      TwoTails(u);
    } else {
      hide DecodeFirst, SyntaxLength, Scalar;
      ThreeTails(u);
    }
  }
}
