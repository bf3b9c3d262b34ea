/** Percent decoding of a request uri. */
module UrlCodec {
  import opened Text

  /** `is >> std::hex >> value` on the two characters after a '%', cut to a byte. What the
      stream library makes of a pair that is not two hex digits is left open. */
  type HexReader = (char, char) -> Option<char>

  function HexDigit(c: char): (d: Option<int>)
    ensures d.Some? ==> 0 <= d.value < 16
  {
    if '0' <= c <= '9' then Some(c as int - '0' as int)
    else if 'a' <= c <= 'f' then Some(c as int - 'a' as int + 10)
    else if 'A' <= c <= 'F' then Some(c as int - 'A' as int + 10)
    else None
  }

  /** The digits in both cases, and nothing else. */
  lemma HexDigitsExactly(c: char, d: nat)
    requires d < 16
    ensures HexDigit(c) == Some(d as int) <==> c == "0123456789abcdef"[d] || c == "0123456789ABCDEF"[d]
    ensures HexDigit(c).Some? <==> c in "0123456789abcdefABCDEF"
  {
  }

  predicate HexPair(hi: char, lo: char) {
    HexDigit(hi).Some? && HexDigit(lo).Some?
  }

  function PairValue(hi: char, lo: char): (n: int)
    requires HexPair(hi, lo)
    ensures 0 <= n < 256
  {
    HexDigit(hi).value * 16 + HexDigit(lo).value
  }

  /** A pair of digits, in either case, is read as a number of base 16, the first digit higher. */
  lemma PairValueExactly(hi: char, lo: char, a: nat, b: nat)
    requires a < 16 && b < 16
    requires hi == "0123456789abcdef"[a] || hi == "0123456789ABCDEF"[a]
    requires lo == "0123456789abcdef"[b] || lo == "0123456789ABCDEF"[b]
    ensures HexPair(hi, lo) && PairValue(hi, lo) == 16 * a + b
  {
    HexDigitsExactly(hi, a);
    HexDigitsExactly(lo, b);
    hide HexDigit;
  }

  /** All that is assumed of the library: two hex digits read as the byte they denote. */
  ghost predicate ReadsHex(read: HexReader) {
    forall hi, lo :: HexPair(hi, lo) ==> read(hi, lo) == Some(PairValue(hi, lo) as char)
  }

  /** Two results one after the other; a failure of either is a failure of both. */
  function Both(a: Option<string>, b: Option<string>): Option<string> {
    if a.Some? && b.Some? then Some(a.value + b.value) else None
  }

  function Decode(read: HexReader, url: string): Option<string>
    decreases |url|
  {
    if url == "" then Some("")
    else if url[0] != '%' then Both(Some([if url[0] == '+' then ' ' else url[0]]), Decode(read, url[1..]))
    else if |url| < 3 then None
    else match read(url[1], url[2])
      case None => None
      case Some(c) => Both(Some([c]), Decode(read, url[3..]))
  }

  lemma BothAssociates(a: Option<string>, b: Option<string>, c: Option<string>)
    ensures Both(Both(a, b), c) == Both(a, Both(b, c))
  {
    if a.Some? && b.Some? && c.Some? {
      assert a.value + b.value + c.value == a.value + (b.value + c.value);
    }
  }

  lemma NothingBefore(o: Option<string>)
    ensures Both(Some(""), o) == o
  {
    if o.Some? {
      assert "" + o.value == o.value;
    }
  }

  method UrlDecode(read: HexReader, url: string) returns (decoded: Option<string>)
    ensures decoded == Decode(read, url)
  {
    var result := "";
    var i := 0;
    NothingBefore(Decode(read, url));
    assert url[0..] == url;
    while i < |url|
      invariant 0 <= i <= |url|
      invariant Decode(read, url) == Both(Some(result), Decode(read, url[i..]))
    {
      ghost var rest := url[i..];
      ghost var was := result;
      assert rest[1..] == url[i + 1..];
      if url[i] == '%' {
        if i + 3 <= |url| {
          assert rest[3..] == url[i + 3..];
          var value := read(url[i + 1], url[i + 2]);
          if value.None? {
            return None;
          }
          result := result + [value.value];
          i := i + 2;
        } else {
          return None;
        }
      } else if url[i] == '+' {
        result := result + [' '];
      } else {
        result := result + [url[i]];
      }
      i := i + 1;
      BothAssociates(Some(was), Some(result[|was|..]), Decode(read, url[i..]));
      assert was + result[|was|..] == result;
    }
    assert result + "" == result;
    return Some(result);
  }

  // ---------------------------------------------------------------- cutting the input

  /** No escape runs past the end of a. */
  predicate Whole(a: string)
    decreases |a|
  {
    if a == "" then true
    else if a[0] != '%' then Whole(a[1..])
    else |a| >= 3 && Whole(a[3..])
  }

  /** Decoding distributes over every cut that is not inside an escape. */
  lemma {:induction false} DecodeConcat(read: HexReader, a: string, b: string)
    requires Whole(a)
    ensures Decode(read, a + b) == Both(Decode(read, a), Decode(read, b))
    decreases |a|
  {
    var c := a + b;
    if a == "" {
      assert c == b;
      NothingBefore(Decode(read, b));
    } else {
      var n := if a[0] == '%' then 3 else 1;
      assert c[n..] == a[n..] + b;
      DecodeConcat(read, a[n..], b);
      var first := if a[0] == '+' then Some([' '])
                   else if a[0] != '%' then Some([a[0]])
                   else if read(a[1], a[2]).Some? then Some([read(a[1], a[2]).value]) else None;
      BothAssociates(first, Decode(read, a[n..]), Decode(read, b));
    }
  }

  /** A '%' with fewer than two bytes after it makes the whole decode fail, wherever it stands. */
  lemma TruncatedEscapeFails(read: HexReader, a: string, tail: string)
    requires Whole(a) && |tail| < 2
    ensures Decode(read, a + "%" + tail) == None
  {
    assert a + "%" + tail == a + ("%" + tail);
    DecodeConcat(read, a, "%" + tail);
  }

  // ---------------------------------------------------------------- encoders

  /** How an encoder may write one byte. */
  datatype Form = Literal | Plus | Escape(hi: char, lo: char)

  predicate Writes(f: Form, c: char) {
    match f
    case Literal => c != '%' && c != '+'
    case Plus => c == ' '
    case Escape(hi, lo) => HexPair(hi, lo) && PairValue(hi, lo) == c as int
  }

  predicate Valid(s: string, forms: seq<Form>) {
    |forms| == |s| && forall i | 0 <= i < |s| :: Writes(forms[i], s[i])
  }

  function Written(f: Form, c: char): string {
    match f
    case Literal => [c]
    case Plus => "+"
    case Escape(hi, lo) => ['%', hi, lo]
  }

  function Encode(s: string, forms: seq<Form>): string
    requires |forms| == |s|
    decreases |s|
  {
    if s == "" then "" else Written(forms[0], s[0]) + Encode(s[1..], forms[1..])
  }

  /** Every escape is two hex digits. */
  predicate HexEscapes(url: string)
    decreases |url|
  {
    if url == "" then true
    else if url[0] != '%' then HexEscapes(url[1..])
    else |url| >= 3 && HexPair(url[1], url[2]) && HexEscapes(url[3..])
  }

  lemma DecodeWritten(read: HexReader, f: Form, c: char, rest: string)
    requires ReadsHex(read) && Writes(f, c)
    ensures Decode(read, Written(f, c) + rest) == Both(Some([c]), Decode(read, rest))
  {
    var w := Written(f, c);
    assert (w + rest)[|w|..] == rest;
  }

  /** Decoding undoes every encoder: each byte may be written literally, escaped in either
      case of hex digit, or as '+' for a space. */
  lemma {:induction false} DecodeUndoesEncode(read: HexReader, s: string, forms: seq<Form>)
    requires ReadsHex(read) && Valid(s, forms)
    ensures Decode(read, Encode(s, forms)) == Some(s)
    decreases |s|
  {
    if s != "" {
      DecodeUndoesEncode(read, s[1..], forms[1..]);
      DecodeWritten(read, forms[0], s[0], Encode(s[1..], forms[1..]));
      assert [s[0]] + s[1..] == s;
    }
  }

  /** Every input whose escapes are hex pairs was written by one of those encoders. */
  lemma {:induction false} HexEscapesAreEncodings(url: string) returns (s: string, forms: seq<Form>)
    requires HexEscapes(url)
    ensures Valid(s, forms) && Encode(s, forms) == url
    decreases |url|
  {
    if url == "" {
      s, forms := "", [];
    } else {
      var n := if url[0] == '%' then 3 else 1;
      var s', forms' := HexEscapesAreEncodings(url[n..]);
      var f := if url[0] == '%' then Escape(url[1], url[2]) else if url[0] == '+' then Plus else Literal;
      var c := if url[0] == '%' then PairValue(url[1], url[2]) as char else if url[0] == '+' then ' ' else url[0];
      s, forms := [c] + s', [f] + forms';
      assert s[1..] == s' && forms[1..] == forms';
      assert url == url[..n] + url[n..];
      assert url[..n] == Written(f, c);
    }
  }

  /** For inputs whose escapes are hex pairs, the decoded string is exactly the one that some
      encoder wrote as the input. */
  lemma DecodeExactlyInvertsEncoders(read: HexReader, url: string, s: string)
    requires ReadsHex(read) && HexEscapes(url)
    ensures Decode(read, url) == Some(s) <==> exists forms :: Valid(s, forms) && Encode(s, forms) == url
  {
    var t, forms := HexEscapesAreEncodings(url);
    DecodeUndoesEncode(read, t, forms);
    forall forms' | Valid(s, forms') && Encode(s, forms') == url
      ensures Decode(read, url) == Some(s)
    {
      DecodeUndoesEncode(read, s, forms');
    }
  }
}
