/** Concrete inputs with which the server does other than the received bytes ask for. */
module Shortfalls {
  import opened Text
  import opened Http
  import opened RequestParser
  import opened Acceptance
  import opened NormalForm
  import opened UrlCodec
  import opened Replies
  import opened RequestHandler
  import opened Connections

  const REQUEST := "GET / HTTP/1.0\r\n\r\n"
  const PARSED := RequestData("GET", "/", 1, 0, [])

  lemma RequestAccepted(q0: RequestData)
    requires Fresh(q0)
    ensures Accepted(q0, REQUEST, PARSED)
  {
    assert Print(PARSED) == REQUEST;
    ParseOfPrint(q0, PARSED);
  }

  lemma RequestCut()
    ensures |REQUEST| == 18 && REQUEST[..4] == "GET " && REQUEST[4..] == "/ HTTP/1.0\r\n\r\n"
  {
  }

  lemma WholeThenCut(site: Site, q0: RequestData, status: int, text: string, parsed: RequestData, k: nat)
    requires Fresh(q0) && Accepted(q0, text, parsed) && k < |text| < BUFFER_SIZE
    ensures Run(site, Initial(q0, status), [Received(text)]).handled == 1
    ensures EffectOf(Run(site, Initial(q0, status), [Received(text[..k]), Received(text[k..])])) == REFUSED
  {
    hide Parse, Run, OnRead, Handle, Serialize, StockReply;
    FirstReadExact(site, q0, status, text);
    SplitRequest(site, q0, status, text, parsed, k);
  }

  /** This request reaches the handler in one read, and is refused when it arrives cut after
      "GET ". */
  lemma CutRequestRefused(site: Site, q0: RequestData, status: int)
    requires Fresh(q0)
    ensures Run(site, Initial(q0, status), [Received(REQUEST)]).handled == 1
    ensures EffectOf(Run(site, Initial(q0, status), [Received("GET "), Received("/ HTTP/1.0\r\n\r\n")])) == REFUSED
  {
    RequestAccepted(q0);
    RequestCut();
    WholeThenCut(site, q0, status, REQUEST, PARSED, 4);
  }

  /** A first read that fills the buffer: the start of a request with a long uri. */
  function LongStart(): (s: string)
    ensures |s| == BUFFER_SIZE
  {
    "GET /" + seq(BUFFER_SIZE - 5, _ => 'a')
  }

  lemma ParseByte(st: State, q: RequestData, c: char, rest: string)
    requires Coherent(st, q) && Step(st, q, c).result == Indeterminate
    ensures Parse(st, q, [c] + rest) == Later(Parse(Step(st, q, c).state, Step(st, q, c).request, rest), 1)
  {
    assert ([c] + rest)[1..] == rest;
  }

  lemma ParseDecided(st: State, q: RequestData, c: char, rest: string)
    requires Coherent(st, q) && Step(st, q, c).result != Indeterminate
    ensures Parse(st, q, [c] + rest).result == Step(st, q, c).result
  {
    assert ([c] + rest)[0] == c;
    hide Step;
  }

  lemma {:induction false} UriContinues(q: RequestData, t: string)
    requires UriText(t)
    ensures Parse(Uri, q, t).result == Indeterminate && Parse(Uri, q, t).state == Uri
    decreases |t|
  {
    if t != "" {
      UriContinues(q.(uri := q.uri + [t[0]]), t[1..]);
    }
  }

  lemma LongStartUndecided(q0: RequestData)
    requires Fresh(q0)
    ensures Parse(MethodStart, q0, LongStart()).result == Indeterminate && Parse(MethodStart, q0, LongStart()).state == Uri
  {
    var a := seq(BUFFER_SIZE - 5, _ => 'a');
    var u := "/" + a;
    assert LongStart() == ['G'] + (['E'] + (['T'] + ([' '] + u)));
    var q1 := q0.(httpMethod := q0.httpMethod + ['G']);
    var q2 := q1.(httpMethod := q1.httpMethod + ['E']);
    var q3 := q2.(httpMethod := q2.httpMethod + ['T']);
    ParseByte(MethodStart, q0, 'G', ['E'] + (['T'] + ([' '] + u)));
    ParseByte(Method, q1, 'E', ['T'] + ([' '] + u));
    ParseByte(Method, q2, 'T', [' '] + u);
    ParseByte(Method, q3, ' ', u);
    UriContinues(q3, u);
  }

  lemma SpaceThenLetter(q: RequestData, rest: string)
    ensures Parse(Uri, q, " ") == Parsed(Indeterminate, VersionH, q, 1)
    ensures Parse(Uri, q, [' '] + (['E'] + rest)).result == Bad
  {
    ParseByte(Uri, q, ' ', ['E'] + rest);
    assert " "[1..] == "";
    assert (['E'] + rest)[0] == 'E';
  }

  lemma PaddedTwo(buffer: string, a: string, b: string)
    requires |buffer| == BUFFER_SIZE && |a| <= BUFFER_SIZE && |b| <= BUFFER_SIZE
    ensures Padded(buffer, [a, b]) == Overwrite(buffer, a) + Overwrite(Overwrite(buffer, a), b)
  {
    assert [a, b][1..] == [b];
    OneRead(Overwrite(buffer, a), b);
    hide Overwrite;
  }

  /** What is fed by one, two and three reads, the first of which fills the buffer. */
  lemma PaddedReads(buffer: string, a: string, b: string, c: string)
    requires |buffer| == |a| == BUFFER_SIZE && |b| <= BUFFER_SIZE && |c| <= BUFFER_SIZE
    ensures Padded(buffer, [a]) == a
    ensures Padded(buffer, [a, b]) == a + Overwrite(a, b)
    ensures Padded(buffer, [a, b, c]) == a + Overwrite(a, b) + Overwrite(Overwrite(a, b), c)
  {
    assert Overwrite(buffer, a) == a;
    hide Overwrite, Padded;
    OneRead(buffer, a);
    PaddedTwo(buffer, a, b);
    PaddedTwo(a, b, c);
    PaddedFull(buffer, [a, b, c]);
    assert [a, b, c][1..] == [b, c];
    var x, y := Overwrite(a, b), Overwrite(Overwrite(a, b), c);
    assert a + (x + y) == a + x + y;
  }

  lemma SpaceAfterUri(q0: RequestData, d: string)
    requires Fresh(q0) && |d| == BUFFER_SIZE && d[1] == 'E'
    requires Parse(MethodStart, q0, d).result == Indeterminate && Parse(MethodStart, q0, d).state == Uri
    ensures Parse(MethodStart, q0, d + " ").result == Indeterminate
    ensures Parse(MethodStart, q0, d + Overwrite(d, " ")).result == Bad
  {
    hide Parse;
    var q := Parse(MethodStart, q0, d).request;
    SpaceThenLetter(q, d[2..]);
    ParseConcat(MethodStart, q0, d, " ");
    ParseConcat(MethodStart, q0, d, Overwrite(d, " "));
    assert Overwrite(d, " ") == [' '] + (['E'] + d[2..]);
  }

  lemma SecondReadDecides(site: Site, q0: RequestData, status: int, a: string, b: string)
    requires Fresh(q0) && |a| == BUFFER_SIZE && |b| <= BUFFER_SIZE
    requires Parse(MethodStart, q0, a).result == Indeterminate && Parse(MethodStart, q0, a + Overwrite(a, b)).result == Bad
    ensures Run(site, Initial(q0, status), [Received(a)]).phase == Reading
    ensures EffectOf(Run(site, Initial(q0, status), [Received(a), Received(b)])) == REFUSED
  {
    hide Parse, Run, Handle, Serialize, StockReply, Padded, Overwrite;
    var s := Initial(q0, status);
    PaddedReads(s.buffer, a, b, "");
    AnyRun(site, s, [a]);
    AnyRun(site, s, [a, b]);
    assert Reads([a]) == [Received(a)] && Reads([a, b]) == [Received(a), Received(b)];
  }

  /** After that read the connection waits, as it should. The next read brings the single space
      that ends the uri, which decides nothing; but the parser goes on with the "ET /a..." that
      is still in the buffer, and the request is refused. */
  lemma StaleBytesRefuse(site: Site, q0: RequestData, status: int)
    requires Fresh(q0)
    ensures Run(site, Initial(q0, status), [Received(LongStart())]).phase == Reading
    ensures Parse(MethodStart, q0, LongStart() + " ").result == Indeterminate
    ensures EffectOf(Run(site, Initial(q0, status), [Received(LongStart()), Received(" ")])) == REFUSED
  {
    LongStartUndecided(q0);
    assert LongStart()[1] == 'E';
    hide LongStart, Parse, Run, Overwrite, Handle, Serialize, StockReply;
    SpaceAfterUri(q0, LongStart());
    SecondReadDecides(site, q0, status, LongStart(), " ");
  }

  // ---------------------------------------------------------------- stale bytes that decide nothing

  function WithHeader(value: string): RequestData {
    RequestData("GET", "/", 1, 0, [Header("A", value)])
  }

  lemma OneHeaderPrinted(value: string)
    ensures Print(WithHeader(value)) == "GET / HTTP/1.0\r\nA: " + value + CRLF + CRLF
  {
    var h := Header("A", value);
    assert [h][1..] == [];
    assert HeadersText([h]) == "A" + ": " + value + CRLF + HeadersText([]) == "A: " + value + CRLF;
    hide HeadersText;
    assert Print(WithHeader(value)) == "GET / HTTP/1.0\r\n" + ("A: " + value + CRLF) + CRLF;
  }

  lemma OneHeaderAccepted(q0: RequestData, value: string)
    requires Fresh(q0) && CtlFree(value)
    ensures Accepted(q0, "GET / HTTP/1.0\r\nA: " + value + CRLF + CRLF, WithHeader(value))
  {
    OneHeaderPrinted(value);
    assert TokenByte('A') && WellFormedHeader(Header("A", value));
    hide Print, Accepted;
    ParseOfPrint(q0, WithHeader(value));
  }

  lemma LineEndCompletes(st: State, any: bool, any': bool)
    ensures Next(st, any, '\r').0 != Good
    ensures Next(st, any, '\r').0 == Indeterminate && Next(Next(st, any, '\r').1, any', '\n').0 == Good ==> st == LineStart
  {
  }

  lemma ParseOne(st: State, q: RequestData, c: char)
    requires Coherent(st, q)
    ensures Parse(st, q, [c]).result == Step(st, q, c).result
    ensures Parse(st, q, [c]).state == Step(st, q, c).state && Parse(st, q, [c]).request == Step(st, q, c).request
  {
    assert [c][1..] == "";
    hide Step;
  }

  lemma GoodInTwo(st: State, q: RequestData, c: char, d: char)
    requires Coherent(st, q) && Parse(st, q, [c] + [d]).result == Good
    ensures var m := Step(st, q, c);
            m.result == Good || (m.result == Indeterminate && Step(m.state, m.request, d).result == Good)
  {
    hide Parse, Step;
    ParseConcat(st, q, [c], [d]);
    ParseOne(st, q, c);
    var m := Step(st, q, c);
    ParseOne(m.state, m.request, d);
  }

  lemma OnlyLineStart(st: State, q: RequestData)
    requires Coherent(st, q) && Parse(st, q, CRLF).result == Good
    ensures st == LineStart
  {
    hide Parse, Next, Store;
    assert CRLF == ['\r'] + ['\n'];
    GoodInTwo(st, q, '\r', '\n');
    LineEndCompletes(st, q.headers != [], Step(st, q, '\r').request.headers != []);
  }

  /** If an empty line completes a request, the parser is at the start of a line. */
  lemma EmptyLineCompletes(q0: RequestData, text: string, q: RequestData)
    requires Fresh(q0) && Accepted(q0, text + CRLF, q)
    ensures Parse(MethodStart, q0, text).result == Indeterminate && Parse(MethodStart, q0, text).state == LineStart
  {
    hide Parse;
    StopsAtFirstDecidingByte(MethodStart, q0, text + CRLF, |text|, "");
    assert (text + CRLF)[..|text|] == text;
    ParseConcat(MethodStart, q0, text, CRLF);
    var p := Parse(MethodStart, q0, text);
    OnlyLineStart(p.state, p.request);
  }

  lemma {:induction false} NameContinues(q: RequestData, t: string)
    requires Token(t) && q.headers != []
    ensures Parse(Name, q, t).result == Indeterminate && Parse(Name, q, t).state == Name
    decreases |t|
  {
    if t != "" {
      NameContinues(q.(headers := ExtendName(q.headers, t[0])), t[1..]);
    }
  }

  lemma NameBegins(q: RequestData, t: string)
    requires Token(t) && t != ""
    ensures Parse(LineStart, q, t).result == Indeterminate && Parse(LineStart, q, t).state == Name
  {
    assert [t[0]] + t[1..] == t;
    ParseByte(LineStart, q, t[0], t[1..]);
    NameContinues(Step(LineStart, q, t[0]).request, t[1..]);
  }

  lemma StepsAtLineEnd(q: RequestData)
    requires q.headers != []
    ensures Step(Value, q, '\r') == Move(Indeterminate, Newline2, q)
    ensures Step(Newline2, q, '\n') == Move(Indeterminate, LineStart, q)
    ensures Step(Name, q, '\r').result == Bad
  {
  }

  lemma StepsOfEmptyLine(q: RequestData)
    ensures Step(LineStart, q, '\r') == Move(Indeterminate, Newline3, q)
    ensures Step(Newline3, q, '\n').result == Good
    ensures Step(LineStart, q, ':').result == Bad
  {
  }

  lemma StepsToValue(q: RequestData)
    requires q.headers != []
    ensures Step(Name, q, ':') == Move(Indeterminate, SpaceBeforeValue, q)
    ensures Step(SpaceBeforeValue, q, ' ') == Move(Indeterminate, Value, q)
  {
  }

  /** An empty line cannot follow part of a name, but completes a request at the start of a line. */
  lemma EmptyLine(q: RequestData, q': RequestData, rest: string)
    requires q'.headers != []
    ensures Parse(LineStart, q, CRLF + rest).result == Good
    ensures Parse(Name, q', CRLF + rest).result == Bad
  {
    hide Parse, Step;
    assert CRLF + rest == ['\r'] + (['\n'] + rest);
    StepsOfEmptyLine(q);
    StepsAtLineEnd(q');
    ParseByte(LineStart, q, '\r', ['\n'] + rest);
    ParseDecided(Newline3, q, '\n', rest);
    ParseDecided(Name, q', '\r', ['\n'] + rest);
  }

  lemma ValueByte(q: RequestData, rest: string) returns (q1: RequestData)
    requires q.headers != []
    ensures q1.headers != [] && Parse(Value, q, ['x'] + rest).result == Parse(Value, q1, rest).result
  {
    q1 := q.(headers := ExtendValue(q.headers, 'x'));
    assert Step(Value, q, 'x') == Move(Indeterminate, Value, q1);
    hide Parse, Step;
    ParseByte(Value, q, 'x', rest);
  }

  lemma LineEnd(q: RequestData, rest: string)
    requires q.headers != []
    ensures Parse(Value, q, CRLF + rest).result == Parse(LineStart, q, rest).result
  {
    hide Parse, Step;
    StepsAtLineEnd(q);
    assert CRLF + rest == ['\r'] + (['\n'] + rest);
    ParseByte(Value, q, '\r', ['\n'] + rest);
    ParseByte(Newline2, q, '\n', rest);
  }

  const COLON_LINE := ": x\r\n\r\n"

  /** A colon ends a name, but cannot start a line. */
  lemma ColonLine(q: RequestData, q': RequestData, rest: string)
    requires q'.headers != []
    ensures Parse(LineStart, q, COLON_LINE).result == Bad
    ensures Parse(Name, q', COLON_LINE + rest).result == Good
  {
    hide Parse, Step;
    StepsOfEmptyLine(q);
    ParseDecided(LineStart, q, ':', COLON_LINE[1..]);
    assert [':'] + COLON_LINE[1..] == COLON_LINE;
    assert COLON_LINE + rest == [':'] + ([' '] + (['x'] + (CRLF + (CRLF + rest))));
    StepsToValue(q');
    ParseByte(Name, q', ':', [' '] + (['x'] + (CRLF + (CRLF + rest))));
    ParseByte(SpaceBeforeValue, q', ' ', ['x'] + (CRLF + (CRLF + rest)));
    var q1 := ValueByte(q', CRLF + (CRLF + rest));
    LineEnd(q1, CRLF + rest);
    EmptyLine(q1, q1, rest);
  }

  const FILLER := seq(BUFFER_SIZE - 19, _ => 'a')

  /** A first read that fills the buffer: a request line and the start of a header value. */
  const HEADER_START := "GET / HTTP/1.0\r\nA: " + FILLER

  /** The second read: the rest of the value and the end of the header line. */
  const HEADER_END := "bbbbbbbbbbbbbbbbb\r\n"

  lemma HeaderReads(q0: RequestData)
    requires Fresh(q0)
    ensures |HEADER_START| == BUFFER_SIZE && |HEADER_END| == 19 && HEADER_START[19..] == FILLER
    ensures Token(FILLER) && FILLER != ""
    ensures exists q :: Accepted(q0, HEADER_START + HEADER_END + CRLF, q)
  {
    var head, end := "GET / HTTP/1.0\r\nA: ", "bbbbbbbbbbbbbbbbb";
    assert |head| == 19 && |end| == 17;
    assert TokenByte('a') && CtlFree(end);
    var value := FILLER + end;
    assert CtlFree(value);
    OneHeaderAccepted(q0, value);
    hide Accepted, FILLER;
    assert HEADER_END == end + CRLF;
    assert head + value + CRLF + CRLF == HEADER_START + HEADER_END + CRLF;
  }

  /** After these two reads: at the start of a line by the received bytes, inside a name by the
      padded ones. */
  lemma InsideName(q0: RequestData, a: string, b: string, q: RequestData)
    requires Fresh(q0) && Accepted(q0, a + b + CRLF, q) && |b| < |a| == BUFFER_SIZE && Token(a[|b|..])
    ensures var p, f := Parse(MethodStart, q0, a + b), Parse(MethodStart, q0, a + Overwrite(a, b));
            p.result == f.result == Indeterminate && p.state == LineStart && f.state == Name
  {
    hide Parse, Accepted;
    EmptyLineCompletes(q0, a + b, q);
    NameBegins(Parse(MethodStart, q0, a + b).request, a[|b|..]);
    ParseConcat(MethodStart, q0, a + b, a[|b|..]);
    assert a + b + a[|b|..] == a + Overwrite(a, b);
  }

  lemma ThirdPiece(q0: RequestData, t: string, u: string, b: string, c: string)
    requires Fresh(q0) && |b| == BUFFER_SIZE && c in {COLON_LINE, CRLF}
    requires Parse(MethodStart, q0, t).result == Parse(MethodStart, q0, u).result == Indeterminate
    requires Parse(MethodStart, q0, t).state == LineStart && Parse(MethodStart, q0, u).state == Name
    ensures |c| <= BUFFER_SIZE
    ensures Parse(MethodStart, q0, t + c).result == if c == CRLF then Good else Bad
    ensures Parse(MethodStart, q0, u + Overwrite(b, c)).result == if c == CRLF then Bad else Good
  {
    hide Parse;
    var p, f := Parse(MethodStart, q0, t).request, Parse(MethodStart, q0, u).request;
    ParseConcat(MethodStart, q0, t, c);
    ParseConcat(MethodStart, q0, u, Overwrite(b, c));
    if c == CRLF {
      EmptyLine(p, f, "");
      EmptyLine(p, f, b[|c|..]);
      assert CRLF + "" == CRLF;
    } else {
      ColonLine(p, f, b[|c|..]);
    }
  }

  /** Two and three reads, the first of which fills the buffer. */
  lemma RunOfReads(site: Site, s: Session, a: string, b: string, c: string)
    requires Live(s) && s.phase == Reading && |a| == BUFFER_SIZE && |b| <= BUFFER_SIZE && |c| <= BUFFER_SIZE
    ensures var two := Run(site, s, [Received(a), Received(b)]);
            && Follows(site, s, two, Parse(s.state, s.request, a + Overwrite(a, b)))
    ensures var three := Run(site, s, [Received(a), Received(b), Received(c)]);
            && Follows(site, s, three, Parse(s.state, s.request, a + Overwrite(a, b) + Overwrite(Overwrite(a, b), c)))
  {
    hide Parse, Run, Follows, Padded, Overwrite;
    PaddedReads(s.buffer, a, b, c);
    AnyRun(site, s, [a, b]);
    AnyRun(site, s, [a, b, c]);
    assert Reads([a, b]) == [Received(a), Received(b)];
    assert Reads([a, b, c]) == [Received(a), Received(b), Received(c)];
  }

  lemma ThirdRead(site: Site, q0: RequestData, status: int, a: string, b: string, q: RequestData, c: string)
    requires Fresh(q0) && Accepted(q0, a + b + CRLF, q) && |b| < |a| == BUFFER_SIZE && Token(a[|b|..])
    requires c in {COLON_LINE, CRLF}
    ensures |c| <= BUFFER_SIZE
    ensures var s := Initial(q0, status);
            var p, r := Parse(MethodStart, q0, a + b), Run(site, s, [Received(a), Received(b)]);
            EffectOf(r) == Expected(site, s, p) && p.state == LineStart && r.state == Name
    ensures var s := Initial(q0, status);
            var p, r := Parse(MethodStart, q0, a + b + c), Run(site, s, [Received(a), Received(b), Received(c)]);
            if c == CRLF then p.result == Good && EffectOf(r) == REFUSED else p.result == Bad && r.handled == 1
  {
    InsideName(q0, a, b, q);
    assert |Overwrite(a, b)| == BUFFER_SIZE;
    hide Parse, Run, Handle, Serialize, StockReply, Overwrite, Accepted, Token;
    ThirdPiece(q0, a + b, a + Overwrite(a, b), Overwrite(a, b), c);
    RunOfReads(site, Initial(q0, status), a, b, c);
  }

  /** After these two reads the connection waits, as it should, but its parser is inside a header
      name made of stale bytes instead of at the start of a line. The third read then decides
      wrongly in both ways: a malformed request reaches the handler, and the empty line that
      completes a well-formed one is refused. */
  lemma StaleBytesBecomeName(site: Site, q0: RequestData, status: int)
    requires Fresh(q0)
    ensures var s, text := Initial(q0, status), HEADER_START + HEADER_END;
            && |HEADER_START| == BUFFER_SIZE && |HEADER_END| == 19
            && (var p, r := Parse(MethodStart, q0, text), Run(site, s, [Received(HEADER_START), Received(HEADER_END)]);
                EffectOf(r) == Expected(site, s, p) && p.state == LineStart && r.state == Name)
            && Parse(MethodStart, q0, text + COLON_LINE).result == Bad
            && Run(site, s, [Received(HEADER_START), Received(HEADER_END), Received(COLON_LINE)]).handled == 1
            && Parse(MethodStart, q0, text + CRLF).result == Good
            && EffectOf(Run(site, s, [Received(HEADER_START), Received(HEADER_END), Received(CRLF)])) == REFUSED
  {
    HeaderReads(q0);
    var q :| Accepted(q0, HEADER_START + HEADER_END + CRLF, q);
    hide FILLER;
    ThirdRead(site, q0, status, HEADER_START, HEADER_END, q, COLON_LINE);
    ThirdRead(site, q0, status, HEADER_START, HEADER_END, q, CRLF);
  }

  // ---------------------------------------------------------------- a zero byte in a path

  lemma LiteralFirst(read: HexReader, c: char, rest: string)
    requires ReadsHex(read) && c != '%' && c != '+' && Decode(read, rest).Some?
    ensures Decode(read, [c] + rest) == Some([c] + Decode(read, rest).value)
  {
    DecodeWritten(read, Literal, c, rest);
  }

  lemma ZeroByteDecoded(read: HexReader)
    requires ReadsHex(read)
    ensures Decode(read, "/a%00.h") == Some("/a\0.h")
  {
    assert Decode(read, "") == Some("");
    DecodeWritten(read, Escape('0', '0'), '\0', ".h");
    assert ['%', '0', '0'] + ".h" == "%00.h";
    hide Decode;
    LiteralFirst(read, 'h', "");
    LiteralFirst(read, '.', "h");
    LiteralFirst(read, 'a', "%00.h");
    LiteralFirst(read, '/', "a%00.h");
    assert ['h'] + "" == "h" && ['.'] + "h" == ".h" && ['\0'] + ".h" == "\0.h";
    assert ['a'] + "%00.h" == "a%00.h" && ['/'] + "a%00.h" == "/a%00.h" && "/" + ("a" + "\0.h") == "/a\0.h";
  }

  /** The uri "/a%00.h" names a path with extension "h", and serves the file "/a". */
  lemma ZeroByteServesOther(site: Site, rep: ReplyData)
    requires ReadsHex(site.read) && '\0' !in site.root && site.root + "/a" in site.files
    ensures Decode(site.read, "/a%00.h") == Some("/a\0.h") && Servable("/a\0.h")
    ensures RouteOf(site, "/a%00.h") == Found(site.root + "/a", site.files[site.root + "/a"])
  {
    ZeroByteDecoded(site.read);
    CutAtZero(site, "/a", ".h");
    assert "/a" + "\0" + ".h" == "/a\0.h";
    CStringWholeExactly(site.root + "/a");
  }
}
