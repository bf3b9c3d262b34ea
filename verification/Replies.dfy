/** Replies, the buffers they are sent as, and the reader that recovers them. */
module Replies {
  import opened Text
  import opened Http

  /** The status codes that have a name; the underlying type admits any 16-bit number. */
  predicate Named(code: int) {
    code in {200, 201, 202, 204, 300, 301, 302, 304, 400, 401, 403, 404, 500, 501, 502, 503}
  }

  function StatusText(code: int): string {
    if code == 200 then "200 " + "OK"
    else if code == 201 then "201 " + "Created"
    else if code == 202 then "202 " + "Accepted"
    else if code == 204 then "204 " + "No Content"
    else if code == 300 then "300 " + "Multiple Choices"
    else if code == 301 then "301 " + "Moved Permanently"
    else if code == 302 then "302 " + "Moved Temporarily"
    else if code == 304 then "304 " + "Not Modified"
    else if code == 400 then "400 " + "Bad Request"
    else if code == 401 then "401 " + "Unauthorized"
    else if code == 403 then "403 " + "Forbidden"
    else if code == 404 then "404 " + "Not Found"
    else if code == 500 then "500 " + "Internal Server Error"
    else if code == 501 then "501 " + "Not Implemented"
    else if code == 502 then "502 " + "Bad Gateway"
    else if code == 503 then "503 " + "Service Unavailable"
    else "500 " + "Internal Server Error"
  }

  function StatusLine(code: int): string {
    "HTTP/1.0 " + StatusText(code) + CRLF
  }

  function Page(title: string, heading: string): string {
    "<html><head><title>" + title + "</title></head><body><h1>" + heading + "</h1></body></html>"
  }

  /** The fixed body of a stock reply. */
  function StockBody(code: int): string {
    if code == 200 then ""
    else if code == 201 then Page("Created", "201 " + "Created")
    else if code == 202 then Page("Accepted", "202 " + "Accepted")
    else if code == 204 then Page("No Content", "204 Content")
    else if code == 300 then Page("Multiple Choices", "300 " + "Multiple Choices")
    else if code == 301 then Page("Moved Permanently", "301 " + "Moved Permanently")
    else if code == 302 then Page("Moved Temporarily", "302 " + "Moved Temporarily")
    else if code == 304 then Page("Not Modified", "304 " + "Not Modified")
    else if code == 400 then Page("Bad Request", "400 " + "Bad Request")
    else if code == 401 then Page("Unauthorized", "401 " + "Unauthorized")
    else if code == 403 then Page("Forbidden", "403 " + "Forbidden")
    else if code == 404 then Page("Not Found", "200 Default Text")
    else if code == 500 then Page("Internal Server Error", "500 " + "Internal Server Error")
    else if code == 501 then Page("Not Implemented", "501 " + "Not Implemented")
    else if code == 502 then Page("Bad Gateway", "502 " + "Bad Gateway")
    else if code == 503 then Page("Service Unavailable", "503 " + "Service Unavailable")
    else Page("Internal Server Error", "500 " + "Internal Server Error")
  }

  /** The two headers that describe a body. */
  function BodyHeaders(content: string): seq<Header> {
    [Header("Content-Length", Decimal(|content|)), Header("Content-Type", "text/html")]
  }

  function StockReply(code: int): ReplyData {
    ReplyData(code, BodyHeaders(StockBody(code)), StockBody(code))
  }

  // ---------------------------------------------------------------- sending

  /** What the peer receives: status line, headers, blank line, body. */
  function Serialize(r: ReplyData): string {
    StatusLine(r.status) + HeadersText(r.headers) + CRLF + r.content
  }

  /** A scatter-gather write sends its buffers one after the other. */
  function Gather(buffers: seq<string>): string {
    if buffers == [] then "" else Gather(buffers[..|buffers| - 1]) + buffers[|buffers| - 1]
  }

  lemma GatherPush(buffers: seq<string>, b: string)
    ensures Gather(buffers + [b]) == Gather(buffers) + b
  {
    assert (buffers + [b])[..|buffers|] == buffers;
  }

  lemma GatherHeader(buffers: seq<string>, h: Header)
    ensures Gather(buffers + [h.name] + [": "] + [h.value] + [CRLF])
         == Gather(buffers) + (h.name + ": " + h.value + CRLF)
  {
    var b := buffers + [h.name];
    GatherPush(buffers, h.name);
    GatherPush(b, ": ");
    GatherPush(b + [": "], h.value);
    GatherPush(b + [": "] + [h.value], CRLF);
    hide Gather;
    assert Gather(buffers) + h.name + ": " + h.value + CRLF == Gather(buffers) + (h.name + ": " + h.value + CRLF);
  }

  method ToBuffers(r: ReplyData) returns (buffers: seq<string>)
    ensures Gather(buffers) == Serialize(r)
  {
    hide StatusLine, StatusText;
    ghost var top := StatusLine(r.status);
    buffers := [StatusLine(r.status)];
    assert buffers[..0] == [] && "" + top == top + HeadersText(r.headers[..0]);
    for i := 0 to |r.headers|
      invariant Gather(buffers) == top + HeadersText(r.headers[..i])
    {
      var h := r.headers[i];
      GatherHeader(buffers, h);
      buffers := buffers + [h.name];
      buffers := buffers + [": "];
      buffers := buffers + [h.value];
      buffers := buffers + [CRLF];
      HeadersTextPush(r.headers[..i], h);
      assert r.headers[..i] + [h] == r.headers[..i + 1];
      assert top + HeadersText(r.headers[..i]) + (h.name + ": " + h.value + CRLF)
          == top + (HeadersText(r.headers[..i]) + (h.name + ": " + h.value + CRLF));
    }
    assert r.headers[..|r.headers|] == r.headers;
    GatherPush(buffers, CRLF);
    buffers := buffers + [CRLF];
    GatherPush(buffers, r.content);
    buffers := buffers + [r.content];
  }

  // ---------------------------------------------------------------- reading a reply

  /** The length of the line at the start of s: up to its first CRLF. */
  function LineLength(s: string): (n: nat)
    ensures n <= |s|
  {
    if s == "" || CRLF <= s then 0 else 1 + LineLength(s[1..])
  }

  function ColonAt(line: string): (n: nat)
    ensures n <= |line| && ':' !in line[..n]
    ensures n < |line| ==> line[n] == ':'
  {
    if line == "" || line[0] == ':' then 0
    else
      var n := ColonAt(line[1..]);
      assert line[..n + 1] == [line[0]] + line[1..][..n];
      n + 1
  }

  function ReadStatus(line: string): Option<int> {
    if |line| >= 12 && line[..9] == "HTTP/1.0 " && Digits(line[9..12]) then Some(Number(line[9..12])) else None
  }

  function ReadHeader(line: string): Option<Header> {
    var n := ColonAt(line);
    if n + 1 < |line| && line[n + 1] == ' ' then Some(Header(line[..n], line[n + 2..])) else None
  }

  datatype Block = Block(headers: seq<Header>, rest: string)

  /** Header lines up to the blank line, and what follows it. */
  function ReadHeaders(s: string): Option<Block>
    decreases |s|
  {
    var n := LineLength(s);
    if |s| < n + 2 then None
    else if n == 0 then Some(Block([], s[2..]))
    else
      match ReadHeader(s[..n])
      case None => None
      case Some(h) =>
        match ReadHeaders(s[n + 2..])
        case None => None
        case Some(b) => Some(Block([h] + b.headers, b.rest))
  }

  /** A reader of the response format of RFC 1945 section 6: status line, header lines,
      blank line; the rest is the body. */
  function ReadReply(s: string): Option<ReplyData> {
    var n := LineLength(s);
    if |s| < n + 2 then None
    else
      match ReadStatus(s[..n])
      case None => None
      case Some(status) =>
        match ReadHeaders(s[n + 2..])
        case None => None
        case Some(b) => Some(ReplyData(status, b.headers, b.rest))
  }

  // ---------------------------------------------------------------- round trip

  /** A header that a line-based reader can recover. */
  predicate Clean(h: Header) {
    ':' !in h.name && OneLine(h.name) && OneLine(h.value)
  }

  predicate AllClean(headers: seq<Header>) {
    forall i | 0 <= i < |headers| :: Clean(headers[i])
  }

  lemma {:induction false} LineEndsAtFirstCrlf(line: string, rest: string)
    requires OneLine(line)
    ensures LineLength(line + CRLF + rest) == |line|
  {
    var s := line + CRLF + rest;
    if line != "" {
      assert s[1..] == line[1..] + CRLF + rest;
      LineEndsAtFirstCrlf(line[1..], rest);
      assert s[0] == line[0] && s[1] == if |line| > 1 then line[1] else '\r';
      assert !(CRLF <= s);
    }
  }

  lemma {:induction false} LineHasNoCrlf(s: string)
    ensures OneLine(s[..LineLength(s)])
  {
    if s != "" && !(CRLF <= s) {
      LineHasNoCrlf(s[1..]);
      var line, tail := s[..LineLength(s)], s[1..][..LineLength(s[1..])];
      assert line == [s[0]] + tail;
      assert |line| > 1 ==> line[0] == s[0] && line[1] == s[1];
      forall i | 0 <= i < |line| - 1
        ensures !(line[i] == '\r' && line[i + 1] == '\n')
      {
        assert i > 0 ==> line[i] == tail[i - 1] && line[i + 1] == tail[i];
      }
    }
  }

  /** A part of a line contains no line end. */
  lemma PartOfLine(line: string, lo: nat, hi: nat)
    requires OneLine(line) && lo <= hi <= |line|
    ensures OneLine(line[lo..hi])
  {
  }

  lemma {:induction false} ColonAfterName(name: string, rest: string)
    requires ':' !in name
    ensures ColonAt(name + ":" + rest) == |name|
  {
    if name != "" {
      assert (name + ":" + rest)[1..] == name[1..] + ":" + rest;
      ColonAfterName(name[1..], rest);
    }
  }

  lemma HeaderLineClean(h: Header)
    requires Clean(h)
    ensures OneLine(h.name + ": " + h.value)
    ensures ReadHeader(h.name + ": " + h.value) == Some(h)
  {
    var line := h.name + ": " + h.value;
    var n := |h.name|;
    forall i | 0 <= i < |line| - 1
      ensures !(line[i] == '\r' && line[i + 1] == '\n')
    {
      if i < n {
        assert line[i] == h.name[i] && line[i + 1] == if i + 1 < n then h.name[i + 1] else ':';
      } else if i >= n + 2 {
        assert line[i] == h.value[i - n - 2] && line[i + 1] == h.value[i - n - 1];
      }
    }
    assert line == h.name + ":" + (" " + h.value);
    ColonAfterName(h.name, " " + h.value);
    assert line[..n] == h.name && line[n + 1] == ' ' && line[n + 2..] == h.value;
  }

  lemma ReadHeadersStep(line: string, h: Header, rest: string)
    requires line != "" && OneLine(line) && ReadHeader(line) == Some(h)
    ensures ReadHeaders(line + CRLF + rest) == match ReadHeaders(rest)
                                               case None => None
                                               case Some(b) => Some(Block([h] + b.headers, b.rest))
  {
    var s := line + CRLF + rest;
    LineEndsAtFirstCrlf(line, rest);
    assert s[..|line|] == line && s[|line| + 2..] == rest;
  }

  lemma {:induction false} ReadOfHeadersText(headers: seq<Header>, body: string)
    requires AllClean(headers)
    ensures ReadHeaders(HeadersText(headers) + CRLF + body) == Some(Block(headers, body))
    decreases |headers|
  {
    var s := HeadersText(headers) + CRLF + body;
    if headers == [] {
      assert s == CRLF + body;
      assert s[2..] == body;
    } else {
      var line := headers[0].name + ": " + headers[0].value;
      var rest := HeadersText(headers[1..]) + CRLF + body;
      assert s == line + CRLF + rest;
      assert Clean(headers[0]);
      hide ReadHeaders, HeadersText, Clean, ReadHeader;
      HeaderLineClean(headers[0]);
      ReadHeadersStep(line, headers[0], rest);
      ReadOfHeadersText(headers[1..], body);
      assert [headers[0]] + headers[1..] == headers;
    }
  }

  lemma {:induction false} ReadHeadersAreClean(s: string)
    requires ReadHeaders(s).Some?
    ensures AllClean(ReadHeaders(s).value.headers)
    decreases |s|
  {
    var n := LineLength(s);
    if n > 0 {
      ReadHeadersAreClean(s[n + 2..]);
      var line := s[..n];
      var k := ColonAt(line);
      LineHasNoCrlf(s);
      PartOfLine(line, 0, k);
      PartOfLine(line, k + 2, n);
      assert line[..k] == line[0..k] && line[k + 2..] == line[k + 2..n];
      var h := ReadHeader(line).value;
      assert Clean(h);
      hide ReadHeader, LineLength;
    }
  }

  lemma ThreeDigits(a: char, b: char, c: char)
    ensures Number([a, b, c]) == 100 * DigitOf(a) + 10 * DigitOf(b) + DigitOf(c)
  {
    assert [a, b, c][..2] == [a, b] && [a, b][..1] == [a] && [a][..0] == "";
    assert Number([a]) == DigitOf(a);
    assert Number([a, b]) == Number([a]) * 10 + DigitOf(b);
  }

  /** Three digits, then a phrase without a carriage return. */
  predicate StatusShape(text: string, a: char, b: char, c: char) {
    && |text| >= 3 && text[0] == a && text[1] == b && text[2] == c
    && IsDigit(a as int) && IsDigit(b as int) && IsDigit(c as int)
    && forall i | 0 <= i < |text| :: text[i] != '\r'
  }

  lemma ReadStatusShape(code: int, a: char, b: char, c: char, rest: string)
    requires StatusShape(StatusText(code), a, b, c)
    ensures var line := StatusLine(code);
            && LineLength(line + rest) == |line| - 2
            && ReadStatus(line[..|line| - 2]) == Some(100 * DigitOf(a) + 10 * DigitOf(b) + DigitOf(c))
  {
    hide StatusText;
    var text := "HTTP/1.0 " + StatusText(code);
    var line := StatusLine(code);
    assert line + rest == text + CRLF + rest;
    assert OneLine(text);
    LineEndsAtFirstCrlf(text, rest);
    assert line[..|line| - 2] == text;
    assert text[..9] == "HTTP/1.0 " && text[9..12] == [a, b, c];
    ThreeDigits(a, b, c);
  }

  predicate CodeDigits(code: int, a: char, b: char, c: char) {
    StatusShape(StatusText(code), a, b, c)
    && 100 * DigitOf(a) + 10 * DigitOf(b) + DigitOf(c) == if Named(code) then code else 500
  }

  lemma TwoHundreds()
    ensures CodeDigits(200, '2', '0', '0') && CodeDigits(201, '2', '0', '1')
    ensures CodeDigits(202, '2', '0', '2') && CodeDigits(204, '2', '0', '4')
  {
  }

  lemma ThreeHundreds()
    ensures CodeDigits(300, '3', '0', '0') && CodeDigits(301, '3', '0', '1')
    ensures CodeDigits(302, '3', '0', '2') && CodeDigits(304, '3', '0', '4')
  {
  }

  lemma FourHundreds()
    ensures CodeDigits(400, '4', '0', '0') && CodeDigits(401, '4', '0', '1')
    ensures CodeDigits(403, '4', '0', '3') && CodeDigits(404, '4', '0', '4')
  {
  }

  lemma FiveHundreds(code: int)
    ensures CodeDigits(500, '5', '0', '0') && CodeDigits(501, '5', '0', '1')
    ensures CodeDigits(502, '5', '0', '2') && CodeDigits(503, '5', '0', '3')
    ensures !Named(code) ==> CodeDigits(code, '5', '0', '0')
  {
  }

  lemma StatusDigits(code: int) returns (a: char, b: char, c: char)
    ensures CodeDigits(code, a, b, c)
  {
    TwoHundreds();
    ThreeHundreds();
    FourHundreds();
    FiveHundreds(code);
    hide CodeDigits;
    a, b, c :| CodeDigits(code, a, b, c);
  }

  /** The number a reader finds in the status line: the code if it has a name, else 500. */
  lemma ReadStatusLine(code: int, rest: string)
    ensures var line := StatusLine(code);
            && LineLength(line + rest) == |line| - 2
            && ReadStatus(line[..|line| - 2]) == Some(if Named(code) then code else 500)
  {
    var a, b, c := StatusDigits(code);
    hide StatusText, StatusLine, ReadStatus, LineLength, Number;
    ReadStatusShape(code, a, b, c, rest);
  }

  lemma ReadReplyParts(r: ReplyData)
    ensures ReadReply(Serialize(r)) == match ReadHeaders(HeadersText(r.headers) + CRLF + r.content)
                                       case None => None
                                       case Some(b) => Some(ReplyData(if Named(r.status) then r.status else 500, b.headers, b.rest))
  {
    var line := StatusLine(r.status);
    var rest := HeadersText(r.headers) + CRLF + r.content;
    assert |line| >= 2;
    ReadStatusLine(r.status, rest);
    hide StatusLine, HeadersText, ReadHeaders, ReadStatus, LineLength, Named;
    assert Serialize(r) == line + rest;
    var s := line + rest;
    assert s[..|line| - 2] == line[..|line| - 2] && s[|line|..] == rest;
  }

  /** A reader recovers a reply from its bytes exactly when its status has a name and its
      headers are ones a line-based reader can recover. */
  lemma ReadsBackExactly(r: ReplyData)
    ensures ReadReply(Serialize(r)) == Some(r) <==> Named(r.status) && AllClean(r.headers)
  {
    hide ReadReply, Serialize, HeadersText, ReadHeaders, AllClean;
    ReadReplyParts(r);
    var rest := HeadersText(r.headers) + CRLF + r.content;
    if AllClean(r.headers) {
      ReadOfHeadersText(r.headers, r.content);
    }
    if ReadHeaders(rest).Some? {
      ReadHeadersAreClean(rest);
    }
  }

  lemma DecimalClean(name: string, n: nat)
    requires ':' !in name && OneLine(name)
    ensures Clean(Header(name, Decimal(n)))
  {
  }

  lemma BodyHeadersClean(content: string)
    ensures AllClean(BodyHeaders(content))
  {
    DecimalClean("Content-Length", |content|);
  }

  /** The status, header and body of every named stock reply survive the wire, and its
      Content-Length is the length of its body. */
  lemma StockReplyReadsBack(code: int)
    requires Named(code)
    ensures ReadReply(Serialize(StockReply(code))) == Some(StockReply(code))
    ensures Number(StockReply(code).headers[0].value) == |StockReply(code).content|
  {
    BodyHeadersClean(StockBody(code));
    ReadsBackExactly(StockReply(code));
    NumberOfDecimal(|StockBody(code)|);
  }

  // ---------------------------------------------------------------- what the pages say

  /** The reason phrases of section 6.1.1 of RFC 1945, and that of 300 from its section 9.3. */
  function ReasonPhrase(code: int): string
    requires Named(code)
  {
    match code
    case 200 => "OK"
    case 201 => "Created"
    case 202 => "Accepted"
    case 204 => "No Content"
    case 300 => "Multiple Choices"
    case 301 => "Moved Permanently"
    case 302 => "Moved Temporarily"
    case 304 => "Not Modified"
    case 400 => "Bad Request"
    case 401 => "Unauthorized"
    case 403 => "Forbidden"
    case 404 => "Not Found"
    case 500 => "Internal Server Error"
    case 501 => "Not Implemented"
    case 502 => "Bad Gateway"
    case _ => "Service Unavailable"
  }

  /** The status text is a number and the phrase of the code. */
  predicate Phrased(code: int, number: string)
    requires Named(code)
  {
    StatusText(code) == number + ReasonPhrase(code) && |number| == 4 && number[3] == ' '
  }

  /** The page has the phrase of the code as its title, under which stands the heading. */
  predicate Titled(code: int, heading: string)
    requires Named(code)
  {
    StockBody(code) == "<html><head><title>" + ReasonPhrase(code) + "</title></head><body><h1>" + heading + "</h1></body></html>"
  }

  lemma SuccessPhrases()
    ensures Phrased(200, "200 ")
    ensures Phrased(201, "201 ")
    ensures Phrased(202, "202 ")
    ensures Phrased(204, "204 ")
  {
  }

  lemma RedirectionPhrases()
    ensures Phrased(300, "300 ")
    ensures Phrased(301, "301 ")
    ensures Phrased(302, "302 ")
    ensures Phrased(304, "304 ")
  {
  }

  lemma ClientErrorPhrases()
    ensures Phrased(400, "400 ")
    ensures Phrased(401, "401 ")
    ensures Phrased(403, "403 ")
    ensures Phrased(404, "404 ")
  {
  }

  lemma ServerErrorPhrases()
    ensures Phrased(500, "500 ")
    ensures Phrased(501, "501 ")
    ensures Phrased(502, "502 ")
    ensures Phrased(503, "503 ")
  {
  }

  lemma SuccessPages()
    ensures StockBody(200) == ""
    ensures Titled(201, StatusText(201))
    ensures Titled(202, StatusText(202))
    ensures Titled(204, "204 Content")
  {
  }

  lemma RedirectionPages()
    ensures Titled(300, StatusText(300))
    ensures Titled(301, StatusText(301))
    ensures Titled(302, StatusText(302))
    ensures Titled(304, StatusText(304))
  {
  }

  lemma ClientErrorPages()
    ensures Titled(400, StatusText(400))
    ensures Titled(401, StatusText(401))
    ensures Titled(403, StatusText(403))
    ensures Titled(404, "200 Default Text")
  {
  }

  lemma ServerErrorPages()
    ensures Titled(500, StatusText(500))
    ensures Titled(501, StatusText(501))
    ensures Titled(502, StatusText(502))
    ensures Titled(503, StatusText(503))
  {
  }

  /** Every named code has the phrase of the standard in its status line and in the title of its
      page. The heading is the status text, but for 204 and 404; the page of 200 is empty. */
  lemma PageOfCode(code: int)
    requires Named(code)
    ensures Phrased(code, StatusText(code)[..4])
    ensures if code == 200 then StockBody(code) == ""
            else Titled(code, if code == 204 then "204 Content" else if code == 404 then "200 Default Text" else StatusText(code))
  {
    hide StatusText, StockBody, ReasonPhrase;
    SuccessPhrases();
    SuccessPages();
    RedirectionPhrases();
    RedirectionPages();
    ClientErrorPhrases();
    ClientErrorPages();
    ServerErrorPhrases();
    ServerErrorPages();
  }

  /** Any other number is sent as an internal server error. */
  lemma OtherCodes(code: int)
    requires !Named(code)
    ensures StatusText(code) == StatusText(500) && StockBody(code) == StockBody(500)
  {
  }

  lemma HeadingNumber(code: int)
    requires Named(code)
    ensures code != 404 ==> StatusText(code)[..3] == (if code == 204 then "204 Content" else StatusText(code))[..3]
    ensures |StatusText(404)| == 13 && |StatusText(204)| == 14 && StatusText(404)[..3] == "404"
  {
    if code == 204 {
      assert StatusText(204)[..3] == "204";
    }
  }

  lemma HeadingAt(code: int, heading: string)
    requires Named(code) && Titled(code, heading) && |heading| >= 3
    ensures var at := 44 + |ReasonPhrase(code)|;
            at + 3 <= |StockBody(code)| && StockBody(code)[at..at + 3] == heading[..3]
    ensures Titled(code, StatusText(code)) ==> |StatusText(code)| == |heading|
  {
    hide StockBody, StatusText, ReasonPhrase;
    var front := "<html><head><title>" + ReasonPhrase(code) + "</title></head><body><h1>";
    assert StockBody(code) == front + heading + "</h1></body></html>";
    assert |front| == 44 + |ReasonPhrase(code)|;
  }

  /** The three bytes behind the heading tag are the code for every page but that of 404, which
      says 200; the whole heading is the status text for every page but those of 204 and 404. */
  lemma HeadingExactly(code: int)
    requires Named(code) && code != 200
    ensures var at := 44 + |ReasonPhrase(code)|;
            at + 3 <= |StockBody(code)| && (StockBody(code)[at..at + 3] == StatusText(code)[..3] <==> code != 404)
    ensures Titled(code, StatusText(code)) <==> code != 204 && code != 404
  {
    PageOfCode(code);
    HeadingNumber(code);
    HeadingAt(code, if code == 204 then "204 Content" else if code == 404 then "200 Default Text" else StatusText(code));
    assert "200 Default Text"[..3] == "200";
    hide StockBody, StatusText, ReasonPhrase;
  }

  lemma TwoHeaderLines(first: Header, second: Header)
    ensures HeadersText([first, second])
         == first.name + ": " + first.value + CRLF + (second.name + ": " + second.value + CRLF)
  {
    assert [first, second][1..] == [second] && [second][1..] == [];
    assert HeadersText([second]) == second.name + ": " + second.value + CRLF + HeadersText([]);
    assert HeadersText([]) == "";
  }

  /** The header lines of every reply, and with them the whole reply. */
  lemma OnTheWire(code: int, body: string)
    ensures Serialize(ReplyData(code, BodyHeaders(body), body))
         == "HTTP/1.0 " + StatusText(code) + "\r\n"
            + ("Content-Length" + ": " + Decimal(|body|) + "\r\n" + ("Content-Type" + ": " + "text/html" + "\r\n"))
            + "\r\n" + body
  {
    hide StatusText, Decimal, HeadersText;
    TwoHeaderLines(Header("Content-Length", Decimal(|body|)), Header("Content-Type", "text/html"));
  }
}
