/** Printing a request and parsing it back, and what every stored request looks like. */
module NormalForm {
  import opened Text
  import opened Http
  import opened RequestParser
  import opened Grammar
  import opened Acceptance

  predicate WellFormedHeader(h: Header) {
    h.name != "" && Token(h.name) && CtlFree(h.value)
  }

  predicate WellFormedHeaders(headers: seq<Header>) {
    forall i | 0 <= i < |headers| :: WellFormedHeader(headers[i])
  }

  predicate WellFormedRequest(q: RequestData) {
    q.httpMethod != "" && Token(q.httpMethod) && UriText(q.uri) && WellFormedHeaders(q.headers)
  }

  /** One text for a request: decimal versions, every header on one line. */
  function Print(q: RequestData): string {
    q.httpMethod + " " + q.uri + " HTTP/" + Decimal(q.major) + "." + Decimal(q.minor) + CRLF
    + HeadersText(q.headers) + CRLF
  }

  function UnfoldedLine(h: Header): Line {
    Line(h.name, h.value, [])
  }

  function UnfoldedLines(headers: seq<Header>): seq<Line> {
    seq(|headers|, i requires 0 <= i < |headers| => UnfoldedLine(headers[i]))
  }

  function Canonical(q: RequestData): Pieces {
    Pieces(q.httpMethod, q.uri, Decimal(q.major), Decimal(q.minor), UnfoldedLines(q.headers))
  }

  lemma {:induction false} HeadersTextIsLines(headers: seq<Header>)
    ensures HeadersText(headers) == LinesText(UnfoldedLines(headers))
    decreases |headers|
  {
    if headers != [] {
      var n := |headers| - 1;
      var h := headers[n];
      HeadersTextIsLines(headers[..n]);
      HeadersTextPush(headers[..n], h);
      assert headers[..n] + [h] == headers;
      assert UnfoldedLines(headers)[..n] == UnfoldedLines(headers[..n]);
      assert LineText(UnfoldedLine(h)) == h.name + ": " + h.value;
      var before := HeadersText(headers[..n]);
      assert before + (h.name + ": " + h.value) + CRLF == before + (h.name + ": " + h.value + CRLF);
    }
  }

  lemma UnfoldedMeans(headers: seq<Header>)
    ensures HeadersOf(UnfoldedLines(headers)) == headers
    ensures WellFormedHeaders(headers) ==> WellFormedLines(UnfoldedLines(headers))
  {
    assert FoldedValue([]) == "";
    forall i | 0 <= i < |headers|
      ensures HeaderOf(UnfoldedLine(headers[i])) == headers[i]
      ensures WellFormedHeaders(headers) ==> WellFormedLine(UnfoldedLines(headers)[i])
    {
      assert WellFormedHeaders(headers) ==> WellFormedHeader(headers[i]);
    }
  }

  lemma CanonicalMeans(q: RequestData)
    ensures Meaning(Canonical(q)) == q
    ensures WellFormedRequest(q) ==> WellFormed(Canonical(q))
  {
    NumberOfDecimal(q.major);
    NumberOfDecimal(q.minor);
    UnfoldedMeans(q.headers);
    hide Number, Decimal, WellFormedLines, WellFormedHeaders, HeadersOf, UnfoldedLines;
  }

  /** Printing then parsing gives the request back, deciding at exactly the last byte. */
  lemma ParseOfPrint(q0: RequestData, q: RequestData)
    requires Fresh(q0) && WellFormedRequest(q)
    ensures Accepted(q0, Print(q), q)
  {
    var p := Canonical(q);
    CanonicalMeans(q);
    HeadersTextIsLines(q.headers);
    assert Print(q) == TextOf(p) by {
      assert RequestLine(p) == q.httpMethod + " " + q.uri + " HTTP/" + Decimal(q.major) + "." + Decimal(q.minor) + CRLF;
    }
    Completeness(q0, p);
  }

  lemma {:induction false} FoldedValueCtlFree(folds: seq<Fold>)
    requires forall i | 0 <= i < |folds| :: WellFormedFold(folds[i])
    ensures CtlFree(FoldedValue(folds))
    decreases |folds|
  {
    if folds != [] {
      assert WellFormedFold(folds[|folds| - 1]);
      FoldedValueCtlFree(folds[..|folds| - 1]);
    }
  }

  lemma MeaningWellFormed(p: Pieces)
    requires WellFormed(p)
    ensures WellFormedRequest(Meaning(p))
  {
    forall i | 0 <= i < |p.lines|
      ensures WellFormedHeader(HeadersOf(p.lines)[i])
    {
      assert WellFormedLine(p.lines[i]);
      FoldedValueCtlFree(p.lines[i].folds);
    }
  }

  /** Reprinting an accepted request, however it was folded, and parsing it again changes nothing. */
  lemma Reprint(q0: RequestData, s: string, q: RequestData, q1: RequestData)
    requires Fresh(q0) && Fresh(q1) && Accepted(q0, s, q)
    ensures WellFormedRequest(q) && Accepted(q1, Print(q), q)
  {
    var p := Soundness(q0, s);
    MeaningWellFormed(p);
    ParseOfPrint(q1, q);
  }

  /** The requests the parser can produce are exactly the well-formed ones. */
  lemma ProducedExactlyWellFormed(q0: RequestData, q: RequestData)
    requires Fresh(q0)
    ensures WellFormedRequest(q) <==> exists s :: Accepted(q0, s, q)
  {
    if WellFormedRequest(q) {
      ParseOfPrint(q0, q);
    }
    if exists s :: Accepted(q0, s, q) {
      var s :| Accepted(q0, s, q);
      Reprint(q0, s, q, q0);
    }
  }

  // ---------------------------------------------------------------- every reachable request

  /** What holds of the record after any bytes at all, also after rejected ones. */
  predicate Sane(q: RequestData) {
    Token(q.httpMethod) && UriText(q.uri) && WellFormedHeaders(q.headers)
  }

  function HeadersSize(headers: seq<Header>): nat {
    if headers == [] then 0
    else
      var h := headers[|headers| - 1];
      HeadersSize(headers[..|headers| - 1]) + |h.name| + |h.value|
  }

  /** The bytes stored in the record. */
  function Stored(q: RequestData): nat {
    |q.httpMethod| + |q.uri| + HeadersSize(q.headers)
  }

  lemma ExtendGrowsByOne(headers: seq<Header>, c: char)
    requires headers != []
    ensures HeadersSize(ExtendName(headers, c)) == HeadersSize(headers) + 1
    ensures HeadersSize(ExtendValue(headers, c)) == HeadersSize(headers) + 1
    ensures HeadersSize(headers + [Header([c], "")]) == HeadersSize(headers) + 1
  {
    var n := |headers| - 1;
    assert ExtendName(headers, c)[..n] == headers[..n];
    assert ExtendValue(headers, c)[..n] == headers[..n];
    assert (headers + [Header([c], "")])[..n + 1] == headers;
  }

  lemma FirstHeaderSize(c: char)
    ensures HeadersSize([Header([c], "")]) == 1
  {
    assert [Header([c], "")][..0] == [];
  }

  lemma HeadersStepStoresOne(st: State, q: RequestData, c: char)
    requires Coherent(st, q) && st in {LineStart, Lws, Name, Value}
    ensures HeadersSize(Store(st, q, c).headers) <= HeadersSize(q.headers) + 1
  {
    FirstHeaderSize(c);
    assert q.headers == [] ==> q.headers + [Header([c], "")] == [Header([c], "")];
    hide HeadersSize, ExtendName, ExtendValue;
    if q.headers != [] {
      ExtendGrowsByOne(q.headers, c);
    }
  }

  lemma StepStoresAtMostOne(st: State, q: RequestData, c: char)
    requires Coherent(st, q)
    ensures Stored(Step(st, q, c).request) <= Stored(q) + 1
  {
    var q' := Step(st, q, c).request;
    if q'.headers != q.headers {
      assert st in {LineStart, Lws, Name, Value} && q' == q.(headers := q'.headers);
      HeadersStepStoresOne(st, q, c);
    } else {
      assert |q'.httpMethod| + |q'.uri| <= |q.httpMethod| + |q.uri| + 1;
    }
  }

  lemma StepSane(st: State, q: RequestData, c: char)
    requires Coherent(st, q) && Sane(q)
    ensures Sane(Step(st, q, c).request)
  {
    var q' := Step(st, q, c).request;
    if q.headers != [] {
      assert WellFormedHeader(q.headers[|q.headers| - 1]);
    }
    forall i | 0 <= i < |q'.headers|
      ensures WellFormedHeader(q'.headers[i])
    {
    }
  }

  /** After any bytes: method and names are tokens, names are non-empty, the uri has no
      control byte or space, values have no control byte, and no more was stored than read. */
  lemma {:induction false} EveryRunStaysSane(st: State, q: RequestData, s: string)
    requires Coherent(st, q) && Sane(q)
    ensures var p := Parse(st, q, s); Sane(p.request) && Stored(p.request) <= Stored(q) + p.consumed
    decreases |s|
  {
    if s != "" {
      var m := Step(st, q, s[0]);
      StepSane(st, q, s[0]);
      StepStoresAtMostOne(st, q, s[0]);
      hide Step, Sane, Stored;
      if m.result == Indeterminate {
        EveryRunStaysSane(m.state, m.request, s[1..]);
      }
    }
  }
}
