/** The language the parser accepts, written as a grammar, and the proof that the machine
    accepts exactly that language and stores exactly the pieces of the text. */
module Grammar {
  import opened Text
  import opened Http
  import opened RequestParser

  /** A continuation of a header value: the run of blanks that opens the line, then its text. */
  datatype Fold = Fold(lead: string, text: string)

  datatype Line = Line(name: string, first: string, folds: seq<Fold>)

  /** A request, split into the pieces of its text. */
  datatype Pieces = Pieces(httpMethod: string, uri: string, major: string, minor: string, lines: seq<Line>)

  predicate WellFormedFold(f: Fold) {
    f.lead != "" && Blanks(f.lead) && CtlFree(f.text) && (f.text != "" ==> f.text[0] != ' ')
  }

  predicate WellFormedLine(l: Line) {
    && l.name != "" && Token(l.name) && CtlFree(l.first)
    && forall i | 0 <= i < |l.folds| :: WellFormedFold(l.folds[i])
  }

  predicate WellFormedLines(lines: seq<Line>) {
    forall i | 0 <= i < |lines| :: WellFormedLine(lines[i])
  }

  predicate WellFormed(p: Pieces) {
    && p.httpMethod != "" && Token(p.httpMethod) && UriText(p.uri)
    && p.major != "" && Digits(p.major) && p.minor != "" && Digits(p.minor)
    && WellFormedLines(p.lines)
  }

  // ---------------------------------------------------------------- text of the pieces

  function FoldsText(folds: seq<Fold>): string {
    if folds == [] then ""
    else
      var f := folds[|folds| - 1];
      FoldsText(folds[..|folds| - 1]) + CRLF + f.lead + f.text
  }

  /** A header with its continuations, without the line end that closes it. */
  function LineText(l: Line): string {
    l.name + ": " + l.first + FoldsText(l.folds)
  }

  function LinesText(lines: seq<Line>): string {
    if lines == [] then ""
    else LinesText(lines[..|lines| - 1]) + LineText(lines[|lines| - 1]) + CRLF
  }

  function RequestLine(p: Pieces): string {
    p.httpMethod + " " + p.uri + " HTTP/" + p.major + "." + p.minor + CRLF
  }

  /** method SP uri SP "HTTP/" digits "." digits CRLF, the header lines, CRLF. */
  function TextOf(p: Pieces): string {
    RequestLine(p) + LinesText(p.lines) + CRLF
  }

  // ---------------------------------------------------------------- meaning of the pieces

  /** The value of a header: its parts joined, every line end and leading blank dropped. */
  function FoldedValue(folds: seq<Fold>): string {
    if folds == [] then ""
    else FoldedValue(folds[..|folds| - 1]) + folds[|folds| - 1].text
  }

  function HeaderOf(l: Line): Header {
    Header(l.name, l.first + FoldedValue(l.folds))
  }

  function HeadersOf(lines: seq<Line>): seq<Header> {
    seq(|lines|, i requires 0 <= i < |lines| => HeaderOf(lines[i]))
  }

  /** The version bytes keep the value of their digit run modulo 256. */
  function Meaning(p: Pieces): RequestData {
    RequestData(p.httpMethod, p.uri, Number(p.major) % 256, Number(p.minor) % 256, HeadersOf(p.lines))
  }

  // ---------------------------------------------------------------- growing the pieces byte by byte

  /** The states that work on the last header line. */
  predicate OnLine(st: State) {
    st in {Lws, Name, SpaceBeforeValue, Value, Newline2}
  }

  /** The line at hand; in the states that work on a line there is always one. */
  function LastLine(p: Pieces): Line {
    if p.lines == [] then Line("", "", []) else p.lines[|p.lines| - 1]
  }

  function Earlier(p: Pieces): seq<Line> {
    if p.lines == [] then [] else p.lines[..|p.lines| - 1]
  }

  function SetLastLine(p: Pieces, l: Line): Pieces {
    p.(lines := Earlier(p) + [l])
  }

  function AddBlank(l: Line, c: char): Line
  {
    if l.folds == [] then l
    else
      var f := l.folds[|l.folds| - 1];
      l.(folds := l.folds[|l.folds| - 1 := f.(lead := f.lead + [c])])
  }

  function AddText(l: Line, c: char): Line {
    if l.folds == [] then l.(first := l.first + [c])
    else
      var f := l.folds[|l.folds| - 1];
      l.(folds := l.folds[|l.folds| - 1 := f.(text := f.text + [c])])
  }

  /** A header line after one more accepted byte. */
  function GrowLine(st: State, l: Line, c: char): Line {
    if st == Lws && Blank(c) then AddBlank(l, c)
    else if st == Name && c != ':' then l.(name := l.name + [c])
    else if st in {Lws, Value} && c != '\r' then AddText(l, c)
    else l
  }

  /** The pieces after one more accepted byte. */
  function Grow(st: State, p: Pieces, c: char): Pieces
  {
    match st
    case MethodStart => p.(httpMethod := p.httpMethod + [c])
    case Method => if c == ' ' then p else p.(httpMethod := p.httpMethod + [c])
    case Uri => if c == ' ' then p else p.(uri := p.uri + [c])
    case MajorStart => p.(major := p.major + [c])
    case Major => if c == '.' then p else p.(major := p.major + [c])
    case MinorStart => p.(minor := p.minor + [c])
    case Minor => if c == '\r' then p else p.(minor := p.minor + [c])
    case LineStart =>
      if c == '\r' then p
      else if p.lines != [] && Blank(c) then
        var l := LastLine(p);
        SetLastLine(p, l.(folds := l.folds + [Fold([c], "")]))
      else p.(lines := p.lines + [Line([c], "", [])])
    case Lws => SetLastLine(p, GrowLine(st, LastLine(p), c))
    case Name => SetLastLine(p, GrowLine(st, LastLine(p), c))
    case Value => SetLastLine(p, GrowLine(st, LastLine(p), c))
    case _ => p
  }

  /** The bytes that led to state st with pieces p. */
  function SoFar(st: State, p: Pieces): string {
    var start := p.httpMethod + " " + p.uri;
    match st
    case MethodStart => ""
    case Method => p.httpMethod
    case Uri => start
    case VersionH => start + " "
    case VersionT1 => start + " H"
    case VersionT2 => start + " HT"
    case VersionP => start + " HTT"
    case VersionSlash => start + " HTTP"
    case MajorStart => start + " HTTP/"
    case Major => start + " HTTP/" + p.major
    case MinorStart => start + " HTTP/" + p.major + "."
    case Minor => start + " HTTP/" + p.major + "." + p.minor
    case Newline1 => start + " HTTP/" + p.major + "." + p.minor + "\r"
    case LineStart => RequestLine(p) + LinesText(p.lines)
    case Name => RequestLine(p) + LinesText(Earlier(p)) + LastLine(p).name
    case SpaceBeforeValue => RequestLine(p) + LinesText(Earlier(p)) + LastLine(p).name + ":"
    case Value => RequestLine(p) + LinesText(Earlier(p)) + LineText(LastLine(p))
    case Lws => RequestLine(p) + LinesText(Earlier(p)) + LineText(LastLine(p))
    case Newline2 => RequestLine(p) + LinesText(Earlier(p)) + LineText(LastLine(p)) + "\r"
    case Newline3 => RequestLine(p) + LinesText(p.lines) + "\r"
  }

  // ---------------------------------------------------------------- what holds between bytes

  /** How far the machine is: the place of each state along the text. */
  function Rank(st: State): nat {
    match st
    case MethodStart => 0 case Method => 1 case Uri => 2 case VersionH => 3 case VersionT1 => 4
    case VersionT2 => 5 case VersionP => 6 case VersionSlash => 7 case MajorStart => 8 case Major => 9
    case MinorStart => 10 case Minor => 11 case Newline1 => 12
    case _ => 13
  }

  predicate TopShaped(st: State, p: Pieces) {
    && Token(p.httpMethod) && (p.httpMethod == "" <==> st == MethodStart)
    && UriText(p.uri) && (Rank(st) < 2 ==> p.uri == "")
    && Digits(p.major) && (p.major == "" <==> Rank(st) <= 8)
    && Digits(p.minor) && (p.minor == "" <==> Rank(st) <= 10)
  }

  function LastFold(l: Line): Fold
    requires l.folds != []
  {
    l.folds[|l.folds| - 1]
  }

  /** How the header line at hand looks in each state that works on it. */
  predicate LineShaped(st: State, l: Line) {
    && WellFormedLine(l)
    && (st in {Name, SpaceBeforeValue} ==> l.first == "" && l.folds == [])
    && (st == Lws ==> l.folds != [] && LastFold(l).text == "")
    && (st == Value && l.folds != [] ==> LastFold(l).text != "")
  }

  predicate LinesShaped(st: State, lines: seq<Line>) {
    && WellFormedLines(lines)
    && (Rank(st) <= 12 ==> lines == [])
    && (OnLine(st) ==> lines != [] && LineShaped(st, lines[|lines| - 1]))
  }

  /** The pieces collected so far are well formed as far as the state has come. */
  predicate Shaped(st: State, p: Pieces) {
    TopShaped(st, p) && LinesShaped(st, p.lines)
  }

  /** The stored request is what the pieces mean; the version bytes only once '/' was read. */
  predicate Stores(st: State, q: RequestData, p: Pieces) {
    && q.httpMethod == p.httpMethod && q.uri == p.uri && q.headers == HeadersOf(p.lines)
    && (8 <= Rank(st) ==> q.major == Number(p.major) % 256 && q.minor == Number(p.minor) % 256)
  }

  const NOTHING := Pieces("", "", "", "", [])

  lemma AppendDigit(s: string, c: char)
    ensures Number(s + [c]) == Number(s) * 10 + DigitOf(c)
  {
    assert (s + [c])[..|s|] == s;
  }

  lemma FoldsTextAppend(folds: seq<Fold>, f: Fold)
    ensures FoldsText(folds + [f]) == FoldsText(folds) + CRLF + f.lead + f.text
    ensures FoldedValue(folds + [f]) == FoldedValue(folds) + f.text
  {
    assert (folds + [f])[..|folds|] == folds;
  }

  lemma AddTextAppends(l: Line, c: char)
    ensures LineText(AddText(l, c)) == LineText(l) + [c]
    ensures HeaderOf(AddText(l, c)).value == HeaderOf(l).value + [c]
  {
    if l.folds != [] {
      var n := |l.folds| - 1;
      assert AddText(l, c).folds[..n] == l.folds[..n];
    } else {
      assert FoldsText(l.folds) == "" && FoldedValue(l.folds) == "";
      assert l.first + [c] + "" == l.first + "" + [c];
    }
  }

  lemma AddBlankAppends(l: Line, c: char)
    requires l.folds != [] && l.folds[|l.folds| - 1].text == ""
    ensures LineText(AddBlank(l, c)) == LineText(l) + [c]
    ensures HeaderOf(AddBlank(l, c)) == HeaderOf(l)
  {
    var n := |l.folds| - 1;
    assert AddBlank(l, c).folds[..n] == l.folds[..n];
  }

  lemma ConcatExtend(a: string, b: string, b': string, c: string)
    requires b' == b + c
    ensures a + b' == a + b + c
  {
    assert a + (b + c) == a + b + c;
  }

  lemma GrowAppendsToTarget(st: State, p: Pieces, c: char)
    requires TopShaped(st, p) && Next(st, false, c).0 == Indeterminate && Rank(st) < 3
    ensures SoFar(Next(st, false, c).1, Grow(st, p, c)) == SoFar(st, p) + [c]
  {
    if st == Method && c == ' ' {
      assert p.httpMethod + " " + p.uri == p.httpMethod + " ";
    } else if st == Uri && c != ' ' {
      ConcatExtend(p.httpMethod + " ", p.uri, Grow(st, p, c).uri, [c]);
    }
  }

  lemma GrowAppendsToVersion(st: State, p: Pieces, c: char)
    requires TopShaped(st, p) && p.lines == [] && Next(st, false, c).0 == Indeterminate && 8 <= Rank(st) < 13
    ensures SoFar(Next(st, false, c).1, Grow(st, p, c)) == SoFar(st, p) + [c]
  {
    var p' := Grow(st, p, c);
    var start := p.httpMethod + " " + p.uri + " HTTP/";
    if st in {MajorStart, Major} && c != '.' {
      ConcatExtend(start, p.major, p'.major, [c]);
    } else if st in {MinorStart, Minor} && c != '\r' {
      ConcatExtend(start + p.major + ".", p.minor, p'.minor, [c]);
    } else if st == Newline1 {
      assert LinesText(p.lines) == "";
    }
  }

  lemma GrowAppendsToRequestLine(st: State, p: Pieces, c: char)
    requires TopShaped(st, p) && p.lines == [] && Next(st, false, c).0 == Indeterminate && Rank(st) < 13
    ensures SoFar(Next(st, false, c).1, Grow(st, p, c)) == SoFar(st, p) + [c]
  {
    if Rank(st) < 3 {
      GrowAppendsToTarget(st, p, c);
    } else if Rank(st) < 8 {
      assert Grow(st, p, c) == p;
    } else {
      GrowAppendsToVersion(st, p, c);
    }
  }

  lemma SetLastKeeps(p: Pieces, l: Line)
    requires p.lines != []
    ensures Earlier(SetLastLine(p, l)) == Earlier(p) && LastLine(SetLastLine(p, l)) == l
    ensures RequestLine(SetLastLine(p, l)) == RequestLine(p)
    ensures SetLastLine(p, LastLine(p)) == p
    ensures LinesText(p.lines) == LinesText(Earlier(p)) + LineText(LastLine(p)) + CRLF
  {
    hide LineText;
    assert Earlier(p) + [LastLine(p)] == p.lines;
  }

  lemma SoFarOnLastLine(p: Pieces, l: Line)
    requires p.lines != []
    ensures SoFar(Lws, SetLastLine(p, l)) == RequestLine(p) + LinesText(Earlier(p)) + LineText(l)
    ensures SoFar(Value, SetLastLine(p, l)) == SoFar(Lws, SetLastLine(p, l))
    ensures SoFar(Newline2, SetLastLine(p, l)) == SoFar(Lws, SetLastLine(p, l)) + "\r"
    ensures SetLastLine(p, LastLine(p)) == p
    ensures SoFar(LineStart, p) == RequestLine(p) + (LinesText(Earlier(p)) + LineText(LastLine(p)) + CRLF)
  {
    hide RequestLine, LineText, LinesText, SetLastLine, Earlier, LastLine;
    SetLastKeeps(p, l);
  }

  lemma JoinFold(top: string, before: string, line: string, c: string)
    ensures top + before + (line + CRLF + c) == top + (before + line + CRLF) + c
  {
  }

  lemma StartFold(l: Line, c: char)
    ensures LineText(l.(folds := l.folds + [Fold([c], "")])) == LineText(l) + CRLF + [c]
  {
    FoldsTextAppend(l.folds, Fold([c], ""));
  }

  lemma GrowAppendsFold(p: Pieces, c: char)
    requires p.lines != [] && Blank(c)
    ensures SoFar(Lws, Grow(LineStart, p, c)) == SoFar(LineStart, p) + [c]
  {
    var l := LastLine(p);
    var l' := l.(folds := l.folds + [Fold([c], "")]);
    assert c != '\r' && Grow(LineStart, p, c) == SetLastLine(p, l');
    hide SoFar, Grow, RequestLine, LinesText, LineText;
    StartFold(l, c);
    SoFarOnLastLine(p, l');
    JoinFold(RequestLine(p), LinesText(Earlier(p)), LineText(l), [c]);
  }

  lemma GrowAppendsAtLineStart(p: Pieces, c: char)
    requires Next(LineStart, p.lines != [], c).0 == Indeterminate
    ensures var next := Next(LineStart, p.lines != [], c).1;
            SoFar(next, Grow(LineStart, p, c)) == SoFar(LineStart, p) + [c]
  {
    if c != '\r' {
      if p.lines != [] && Blank(c) {
        GrowAppendsFold(p, c);
      } else {
        assert Earlier(Grow(LineStart, p, c)) == p.lines;
      }
    }
  }

  lemma GrowAppendsOnName(st: State, p: Pieces, c: char)
    requires p.lines != [] && st in {Name, SpaceBeforeValue} && Next(st, true, c).0 == Indeterminate
    requires LineShaped(st, LastLine(p))
    ensures SoFar(Next(st, true, c).1, Grow(st, p, c)) == SoFar(st, p) + [c]
  {
    var p' := Grow(st, p, c);
    assert Earlier(p') == Earlier(p);
    var before := RequestLine(p) + LinesText(Earlier(p));
    if st == SpaceBeforeValue {
      ConcatExtend(before, LastLine(p).name + ":", LineText(LastLine(p)), " ");
      assert before + (LastLine(p).name + ":") == before + LastLine(p).name + ":";
    } else if c != ':' {
      ConcatExtend(before, LastLine(p).name, LastLine(p').name, [c]);
    }
  }

  lemma EndLine(p: Pieces)
    requires p.lines != []
    ensures SoFar(LineStart, p) == SoFar(Newline2, p) + "\n"
  {
    var line := LineText(LastLine(p));
    ConcatExtend(RequestLine(p), LinesText(Earlier(p)) + line, LinesText(p.lines), CRLF);
    var before := RequestLine(p) + LinesText(Earlier(p));
    assert RequestLine(p) + (LinesText(Earlier(p)) + line) == before + line;
    assert before + line + CRLF == before + line + "\r" + "\n";
  }

  lemma GrowLineAppends(st: State, l: Line, c: char)
    requires st in {Value, Lws} && c != '\r' && LineShaped(st, l)
    ensures LineText(GrowLine(st, l, c)) == LineText(l) + [c]
  {
    if st == Lws && Blank(c) {
      AddBlankAppends(l, c);
    } else {
      AddTextAppends(l, c);
    }
  }

  lemma GrowLineEnd(st: State, l: Line)
    ensures st != Name ==> GrowLine(st, l, '\r') == l
  {
  }

  lemma GrowAppendsOnValue(st: State, p: Pieces, c: char)
    requires p.lines != [] && st in {Value, Lws} && Next(st, true, c).0 == Indeterminate
    requires LineShaped(st, LastLine(p))
    ensures SoFar(Next(st, true, c).1, Grow(st, p, c)) == SoFar(st, p) + [c]
  {
    hide SoFar, LineText, GrowLine, RequestLine, LinesText, LineShaped, SetLastLine;
    SoFarOnLastLine(p, LastLine(p));
    if c == '\r' {
      GrowLineEnd(st, LastLine(p));
    } else {
      var l' := GrowLine(st, LastLine(p), c);
      GrowLineAppends(st, LastLine(p), c);
      SoFarOnLastLine(p, l');
      ConcatExtend(RequestLine(p) + LinesText(Earlier(p)), LineText(LastLine(p)), LineText(l'), [c]);
    }
  }

  lemma GrowAppendsOnLine(st: State, p: Pieces, c: char)
    requires Shaped(st, p) && Next(st, p.lines != [], c).0 == Indeterminate && OnLine(st)
    ensures var next := Next(st, p.lines != [], c).1;
            SoFar(next, Grow(st, p, c)) == SoFar(st, p) + [c]
  {
    if st == Name || st == SpaceBeforeValue {
      GrowAppendsOnName(st, p, c);
    } else if st == Newline2 {
      EndLine(p);
    } else {
      GrowAppendsOnValue(st, p, c);
    }
  }

  lemma GrowAppendsToHeaders(st: State, p: Pieces, c: char)
    requires Shaped(st, p) && Next(st, p.lines != [], c).0 == Indeterminate && Rank(st) == 13
    ensures var next := Next(st, p.lines != [], c).1;
            SoFar(next, Grow(st, p, c)) == SoFar(st, p) + [c]
  {
    if st == LineStart {
      GrowAppendsAtLineStart(p, c);
    } else if OnLine(st) {
      GrowAppendsOnLine(st, p, c);
    }
  }

  /** The accepted byte is exactly what the text of the pieces gains. */
  lemma GrowAppends(st: State, p: Pieces, c: char)
    requires Shaped(st, p) && Next(st, p.lines != [], c).0 == Indeterminate
    ensures var next := Next(st, p.lines != [], c).1;
            SoFar(next, Grow(st, p, c)) == SoFar(st, p) + [c]
  {
    if Rank(st) < 13 {
      GrowAppendsToRequestLine(st, p, c);
    } else {
      GrowAppendsToHeaders(st, p, c);
    }
  }

  lemma HeadersOfAppend(lines: seq<Line>, l: Line)
    ensures HeadersOf(lines + [l]) == HeadersOf(lines) + [HeaderOf(l)]
  {
  }

  lemma HeadersOfUpdate(p: Pieces, l: Line)
    requires p.lines != []
    ensures HeadersOf(SetLastLine(p, l).lines) == HeadersOf(p.lines)[|p.lines| - 1 := HeaderOf(l)]
  {
  }

  lemma GrowLineShaped(st: State, l: Line, c: char)
    requires OnLine(st) && LineShaped(st, l) && Next(st, true, c).0 == Indeterminate
    ensures WellFormedLine(GrowLine(st, l, c))
    ensures OnLine(Next(st, true, c).1) ==> LineShaped(Next(st, true, c).1, GrowLine(st, l, c))
  {
  }

  lemma GrowLineStores(st: State, l: Line, c: char)
    requires OnLine(st) && LineShaped(st, l) && Next(st, true, c).0 == Indeterminate
    ensures [HeaderOf(GrowLine(st, l, c))] == if st == Name && c != ':' then ExtendName([HeaderOf(l)], c)
                                             else if st in {Lws, Value} && c != '\r' && !(st == Lws && Blank(c)) then ExtendValue([HeaderOf(l)], c)
                                             else [HeaderOf(l)]
  {
    if st in {Lws, Value} {
      AddTextAppends(l, c);
      if l.folds != [] && LastFold(l).text == "" {
        AddBlankAppends(l, c);
      }
    }
  }

  lemma SetLastShaped(p: Pieces, l: Line)
    requires p.lines != [] && WellFormedLines(p.lines) && WellFormedLine(l)
    ensures WellFormedLines(SetLastLine(p, l).lines)
    ensures LastLine(SetLastLine(p, l)) == l
  {
  }

  lemma GrowLineStartShaped(p: Pieces, c: char)
    requires WellFormedLines(p.lines) && Next(LineStart, p.lines != [], c).0 == Indeterminate
    ensures LinesShaped(Next(LineStart, p.lines != [], c).1, Grow(LineStart, p, c).lines)
  {
    if c == '\r' {
    } else if p.lines != [] && Blank(c) {
      var l := LastLine(p).(folds := LastLine(p).folds + [Fold([c], "")]);
      assert WellFormedLine(l);
      SetLastShaped(p, l);
    } else {
      assert WellFormedLine(Line([c], "", []));
    }
  }

  lemma GrowOnLine(st: State, p: Pieces, c: char)
    requires OnLine(st) && p.lines != []
    ensures Grow(st, p, c).lines == SetLastLine(p, GrowLine(st, LastLine(p), c)).lines
  {
    assert Earlier(p) + [LastLine(p)] == p.lines;
  }

  lemma NextOnLine(st: State, c: char)
    requires OnLine(st) && Next(st, true, c).0 == Indeterminate
    ensures Rank(Next(st, true, c).1) == 13
  {
  }

  lemma GrowOnLineShaped(st: State, p: Pieces, c: char)
    requires LinesShaped(st, p.lines) && Next(st, true, c).0 == Indeterminate && OnLine(st)
    ensures LinesShaped(Next(st, true, c).1, Grow(st, p, c).lines)
  {
    hide GrowLine, WellFormedLine, Grow, SetLastLine, Next, Rank;
    var l := GrowLine(st, LastLine(p), c);
    NextOnLine(st, c);
    GrowOnLine(st, p, c);
    GrowLineShaped(st, LastLine(p), c);
    SetLastShaped(p, l);
  }

  lemma GrowLinesShaped(st: State, p: Pieces, c: char)
    requires LinesShaped(st, p.lines) && Next(st, p.lines != [], c).0 == Indeterminate && Rank(st) == 13
    ensures LinesShaped(Next(st, p.lines != [], c).1, Grow(st, p, c).lines)
  {
    hide WellFormedLine;
    if OnLine(st) {
      GrowOnLineShaped(st, p, c);
    } else if st == LineStart {
      GrowLineStartShaped(p, c);
    }
  }

  lemma GrowTopShaped(st: State, p: Pieces, c: char)
    requires TopShaped(st, p) && Rank(st) < 13 && Next(st, false, c).0 == Indeterminate
    requires p.lines == []
    ensures TopShaped(Next(st, false, c).1, Grow(st, p, c))
  {
    match st
    case MethodStart =>
    case Method =>
    case Uri =>
    case MajorStart =>
    case Major =>
    case MinorStart =>
    case Minor =>
    case _ =>
  }

  /** Every accepted byte keeps the pieces well formed. */
  lemma GrowShaped(st: State, p: Pieces, c: char)
    requires Shaped(st, p) && Next(st, p.lines != [], c).0 == Indeterminate
    ensures Shaped(Next(st, p.lines != [], c).1, Grow(st, p, c))
  {
    if Rank(st) == 13 {
      GrowLinesShaped(st, p, c);
    } else {
      GrowTopShaped(st, p, c);
    }
  }

  lemma GrowMajor(st: State, q: RequestData, p: Pieces, c: char)
    requires Stores(st, q, p) && st in {MajorStart, Major} && Next(st, false, c).0 == Indeterminate
    ensures Stores(Next(st, false, c).1, Store(st, q, c), Grow(st, p, c))
  {
    AppendDigit(p.major, c);
    WrapStep(Number(p.major), q.major, DigitOf(c));
  }

  lemma GrowMinor(st: State, q: RequestData, p: Pieces, c: char)
    requires Stores(st, q, p) && st in {MinorStart, Minor} && Next(st, false, c).0 == Indeterminate
    ensures Stores(Next(st, false, c).1, Store(st, q, c), Grow(st, p, c))
  {
    AppendDigit(p.minor, c);
    WrapStep(Number(p.minor), q.minor, DigitOf(c));
  }

  lemma GrowTop(st: State, q: RequestData, p: Pieces, c: char)
    requires TopShaped(st, p) && Stores(st, q, p) && Next(st, false, c).0 == Indeterminate
    requires Rank(st) < 13
    ensures Stores(Next(st, false, c).1, Store(st, q, c), Grow(st, p, c))
  {
    if st in {MajorStart, Major} {
      GrowMajor(st, q, p, c);
    } else if st in {MinorStart, Minor} {
      GrowMinor(st, q, p, c);
    } else if st == VersionSlash {
      assert Number(p.major) == 0 && Number(p.minor) == 0;
    } else if Rank(st) < 3 {
      assert Grow(st, p, c).lines == p.lines && Store(st, q, c).headers == q.headers;
    } else {
      assert Grow(st, p, c) == p && Store(st, q, c) == q;
    }
  }

  lemma LastOnly(headers: seq<Header>, h: Header, c: char)
    requires headers != [] && headers[|headers| - 1] == h
    ensures ExtendName(headers, c) == headers[|headers| - 1 := ExtendName([h], c)[0]]
    ensures ExtendValue(headers, c) == headers[|headers| - 1 := ExtendValue([h], c)[0]]
  {
  }

  lemma GrowHeadersOnLine(st: State, q: RequestData, p: Pieces, c: char)
    requires p.lines != [] && q.headers == HeadersOf(p.lines) && LineShaped(st, LastLine(p))
    requires st in {Lws, Name, Value} && Next(st, true, c).0 == Indeterminate
    ensures Store(st, q, c) == q.(headers := HeadersOf(Grow(st, p, c).lines))
  {
    var l, l', n := LastLine(p), GrowLine(st, LastLine(p), c), |p.lines| - 1;
    GrowLineStores(st, l, c);
    HeadersOfUpdate(p, l');
    LastOnly(q.headers, HeaderOf(l), c);
    assert HeaderOf(l') == [HeaderOf(l')][0];
    assert HeadersOf(p.lines)[n := HeaderOf(l)] == q.headers;
  }

  lemma GrowHeadersAtLineStart(q: RequestData, p: Pieces, c: char)
    requires q.headers == HeadersOf(p.lines) && Next(LineStart, p.lines != [], c).0 == Indeterminate
    ensures Store(LineStart, q, c).headers == HeadersOf(Grow(LineStart, p, c).lines)
  {
    if c == '\r' {
    } else if p.lines != [] && Blank(c) {
      var l := LastLine(p);
      FoldsTextAppend(l.folds, Fold([c], ""));
      var l' := l.(folds := l.folds + [Fold([c], "")]);
      assert HeaderOf(l').value == HeaderOf(l).value;
      HeadersOfUpdate(p, l');
    } else {
      HeadersOfAppend(p.lines, Line([c], "", []));
      assert HeaderOf(Line([c], "", [])).value == "";
    }
  }

  lemma GrowHeaders(st: State, q: RequestData, p: Pieces, c: char)
    requires LinesShaped(st, p.lines) && q.headers == HeadersOf(p.lines)
    requires Next(st, p.lines != [], c).0 == Indeterminate && Rank(st) == 13
    ensures Coherent(st, q)
    ensures Store(st, q, c) == q.(headers := HeadersOf(Grow(st, p, c).lines))
    ensures Grow(st, p, c) == p.(lines := Grow(st, p, c).lines)
  {
    if st in {Lws, Name, Value} {
      GrowHeadersOnLine(st, q, p, c);
    } else if st == LineStart {
      GrowHeadersAtLineStart(q, p, c);
    }
  }

  /** Every accepted byte is stored in the request where the pieces say. */
  lemma GrowStores(st: State, q: RequestData, p: Pieces, c: char)
    requires Shaped(st, p) && Stores(st, q, p) && Next(st, p.lines != [], c).0 == Indeterminate
    ensures Coherent(st, q)
    ensures Stores(Next(st, p.lines != [], c).1, Store(st, q, c), Grow(st, p, c))
  {
    if Rank(st) < 13 {
      GrowTop(st, q, p, c);
    } else {
      GrowHeaders(st, q, p, c);
    }
  }
}
