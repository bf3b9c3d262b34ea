/** The machine against the grammar: soundness, completeness and unambiguity. */
module Acceptance {
  import opened Text
  import opened Http
  import opened RequestParser
  import opened Grammar

  /** Where the machine is after bytes that were all accepted, and the pieces they formed. */
  datatype Progress = Stuck | At(state: State, pieces: Pieces)

  function Drive(st: State, p: Pieces, s: string): Progress
    decreases |s|
  {
    if s == "" then At(st, p)
    else
      var (result, next) := Next(st, p.lines != [], s[0]);
      if result != Indeterminate then Stuck else Drive(next, Grow(st, p, s[0]), s[1..])
  }

  lemma DriveNothing(st: State, p: Pieces)
    ensures Drive(st, p, "") == At(st, p)
  {
  }

  lemma DriveStep(st: State, p: Pieces, c: char, rest: string)
    ensures Drive(st, p, [c] + rest) == if Next(st, p.lines != [], c).0 != Indeterminate then Stuck
                                        else Drive(Next(st, p.lines != [], c).1, Grow(st, p, c), rest)
  {
    assert ([c] + rest)[1..] == rest;
  }

  lemma {:induction false} DriveConcat(st: State, p: Pieces, a: string, b: string, st': State, p': Pieces)
    requires Drive(st, p, a) == At(st', p')
    ensures Drive(st, p, a + b) == Drive(st', p', b)
    decreases |a|
  {
    if a == "" {
      assert a + b == b;
    } else {
      assert (a + b)[1..] == a[1..] + b;
      DriveConcat(Next(st, p.lines != [], a[0]).1, Grow(st, p, a[0]), a[1..], b, st', p');
    }
  }

  /** The parser and the piece collector move in lockstep. */
  predicate Aligned(st: State, q: RequestData, p: Pieces) {
    Shaped(st, p) && Stores(st, q, p)
  }

  lemma StartAligned(q0: RequestData)
    requires Fresh(q0)
    ensures Aligned(MethodStart, q0, NOTHING)
  {
  }

  lemma AlignedStep(st: State, q: RequestData, p: Pieces, c: char)
    requires Aligned(st, q, p)
    ensures Coherent(st, q) && (q.headers != [] <==> p.lines != [])
    ensures Step(st, q, c).result == Next(st, p.lines != [], c).0
    ensures Step(st, q, c).result == Indeterminate ==>
              && Step(st, q, c).state == Next(st, p.lines != [], c).1
              && Aligned(Step(st, q, c).state, Step(st, q, c).request, Grow(st, p, c))
              && SoFar(Step(st, q, c).state, Grow(st, p, c)) == SoFar(st, p) + [c]
  {
    assert |q.headers| == |p.lines|;
    if Next(st, p.lines != [], c).0 == Indeterminate {
      GrowShaped(st, p, c);
      GrowStores(st, q, p, c);
      GrowAppends(st, p, c);
    }
  }

  /** The parser is undecided exactly while the collector is not stuck, in the same state, and the
      bytes fed are the text of the pieces. */
  lemma {:induction false} DriveFollowsParse(st: State, q: RequestData, p: Pieces, s: string)
    requires Aligned(st, q, p) && Coherent(st, q)
    ensures var r, d := Parse(st, q, s), Drive(st, p, s);
            && (r.result == Indeterminate <==> d.At?)
            && (d.At? ==> r.state == d.state && Aligned(d.state, r.request, d.pieces)
                          && SoFar(d.state, d.pieces) == SoFar(st, p) + s)
    decreases |s|
  {
    hide SoFar, Shaped, Stores, Next, Grow;
    if s == "" {
      assert SoFar(st, p) + s == SoFar(st, p);
    } else {
      var m := Step(st, q, s[0]);
      AlignedStep(st, q, p, s[0]);
      if m.result == Indeterminate {
        DriveFollowsParse(m.state, m.request, Grow(st, p, s[0]), s[1..]);
        assert SoFar(st, p) + [s[0]] + s[1..] == SoFar(st, p) + s;
      }
    }
  }

  // ---------------------------------------------------------------- soundness

  lemma AtLastByte(q: RequestData, p: Pieces)
    requires Aligned(Newline3, q, p)
    ensures WellFormed(p) && q == Meaning(p) && SoFar(Newline3, p) + "\n" == TextOf(p)
  {
  }

  lemma OneMoreDecides(st: State, q: RequestData, b: string)
    requires Coherent(st, q) && b != "" && Parse(st, q, b).result == Good && Parse(st, q, b).consumed == 1
    ensures st == Newline3 && b[0] == '\n' && Parse(st, q, b).request == q
  {
  }

  /** The byte that completes a request is the newline of the closing line end. */
  lemma BeforeLastByte(q0: RequestData, s: string) returns (q: RequestData)
    requires Fresh(q0) && Parse(MethodStart, q0, s).result == Good
    ensures Aligned(MethodStart, q0, NOTHING)
    ensures var r := Parse(MethodStart, q0, s);
            && Parse(MethodStart, q0, s[..r.consumed - 1]) == Parsed(Indeterminate, Newline3, q, r.consumed - 1)
            && r.request == q && s[r.consumed - 1] == '\n'
  {
    var r := Parse(MethodStart, q0, s);
    StartAligned(q0);
    hide Next, Grow, Aligned;
    var a, b := s[..r.consumed - 1], s[r.consumed - 1..];
    StopsAtFirstDecidingByte(MethodStart, q0, s, r.consumed - 1, "");
    assert a + b == s;
    ParseConcat(MethodStart, q0, a, b);
    var mid := Parse(MethodStart, q0, a);
    q := mid.request;
    OneMoreDecides(mid.state, mid.request, b);
  }

  /** Whatever the parser accepts is a text of the grammar, and the request holds its meaning. */
  lemma Soundness(q0: RequestData, s: string) returns (p: Pieces)
    requires Fresh(q0) && Parse(MethodStart, q0, s).result == Good
    ensures WellFormed(p)
    ensures s[..Parse(MethodStart, q0, s).consumed] == TextOf(p)
    ensures Parse(MethodStart, q0, s).request == Meaning(p)
  {
    var r := Parse(MethodStart, q0, s);
    var n := r.consumed - 1;
    hide Parse, Drive, Aligned, SoFar, TextOf, Meaning;
    var q := BeforeLastByte(q0, s);
    DriveFollowsParse(MethodStart, q0, NOTHING, s[..n]);
    p := Drive(MethodStart, NOTHING, s[..n]).pieces;
    assert s[..r.consumed] == s[..n] + "\n";
    AtLastByte(q, p);
  }

  // ---------------------------------------------------------------- completeness

  lemma {:induction false} DriveMethod(p: Pieces, t: string)
    requires Token(t)
    ensures Drive(Method, p, t) == At(Method, p.(httpMethod := p.httpMethod + t))
    decreases |t|
  {
    if t == "" {
      assert p.httpMethod + t == p.httpMethod;
    } else {
      DriveMethod(Grow(Method, p, t[0]), t[1..]);
      assert p.httpMethod + [t[0]] + t[1..] == p.httpMethod + t;
    }
  }

  lemma {:induction false} DriveUri(p: Pieces, t: string)
    requires UriText(t)
    ensures Drive(Uri, p, t) == At(Uri, p.(uri := p.uri + t))
    decreases |t|
  {
    if t == "" {
      assert p.uri + t == p.uri;
    } else {
      DriveUri(Grow(Uri, p, t[0]), t[1..]);
      assert p.uri + [t[0]] + t[1..] == p.uri + t;
    }
  }

  lemma {:induction false} DriveMajor(p: Pieces, t: string)
    requires Digits(t)
    ensures Drive(Major, p, t) == At(Major, p.(major := p.major + t))
    decreases |t|
  {
    if t == "" {
      assert p.major + t == p.major;
    } else {
      DriveMajor(Grow(Major, p, t[0]), t[1..]);
      assert p.major + [t[0]] + t[1..] == p.major + t;
    }
  }

  lemma {:induction false} DriveMinor(p: Pieces, t: string)
    requires Digits(t)
    ensures Drive(Minor, p, t) == At(Minor, p.(minor := p.minor + t))
    decreases |t|
  {
    if t == "" {
      assert p.minor + t == p.minor;
    } else {
      DriveMinor(Grow(Minor, p, t[0]), t[1..]);
      assert p.minor + [t[0]] + t[1..] == p.minor + t;
    }
  }

  function WithLine(p: Pieces, l: Line): Pieces {
    p.(lines := p.lines + [l])
  }

  function WithFold(l: Line, f: Fold): Line {
    l.(folds := l.folds + [f])
  }

  lemma SetWithLine(p: Pieces, l: Line, l': Line)
    ensures LastLine(WithLine(p, l)) == l && SetLastLine(WithLine(p, l), l') == WithLine(p, l')
  {
  }

  lemma NameStep(p: Pieces, l: Line, c: char, rest: string)
    requires TokenByte(c)
    ensures Drive(Name, WithLine(p, l), [c] + rest) == Drive(Name, WithLine(p, l.(name := l.name + [c])), rest)
  {
    SetWithLine(p, l, l.(name := l.name + [c]));
    DriveStep(Name, WithLine(p, l), c, rest);
  }

  lemma {:induction false} DriveName(p: Pieces, l: Line, t: string)
    requires Token(t)
    ensures Drive(Name, WithLine(p, l), t) == At(Name, WithLine(p, l.(name := l.name + t)))
    decreases |t|
  {
    hide Drive, WithLine;
    if t == "" {
      DriveNothing(Name, WithLine(p, l));
      assert l.name + t == l.name;
    } else {
      assert [t[0]] + t[1..] == t;
      NameStep(p, l, t[0], t[1..]);
      DriveName(p, l.(name := l.name + [t[0]]), t[1..]);
      assert l.name + [t[0]] + t[1..] == l.name + t;
    }
  }

  lemma ValueStep(st: State, p: Pieces, l: Line, c: char, rest: string)
    requires st == Value || (st == Lws && !Blank(c))
    requires !IsCtl(c as int)
    ensures Drive(st, WithLine(p, l), [c] + rest) == Drive(Value, WithLine(p, AddText(l, c)), rest)
  {
    SetWithLine(p, l, AddText(l, c));
    DriveStep(st, WithLine(p, l), c, rest);
  }

  lemma {:induction false} DriveFirst(p: Pieces, l: Line, t: string)
    requires CtlFree(t) && l.folds == []
    ensures Drive(Value, WithLine(p, l), t) == At(Value, WithLine(p, l.(first := l.first + t)))
    decreases |t|
  {
    hide Drive, WithLine;
    if t == "" {
      DriveNothing(Value, WithLine(p, l));
      assert l.first + t == l.first;
    } else {
      assert [t[0]] + t[1..] == t;
      ValueStep(Value, p, l, t[0], t[1..]);
      assert AddText(l, t[0]) == l.(first := l.first + [t[0]]);
      DriveFirst(p, AddText(l, t[0]), t[1..]);
      assert l.first + [t[0]] + t[1..] == l.first + t;
    }
  }

  /** The blanks that open a continuation. */
  lemma LeadStep(p: Pieces, l: Line, f: Fold, c: char, rest: string)
    requires Blank(c)
    ensures Drive(Lws, WithLine(p, WithFold(l, f)), [c] + rest)
         == Drive(Lws, WithLine(p, WithFold(l, f.(lead := f.lead + [c]))), rest)
  {
    var l' := WithFold(l, f.(lead := f.lead + [c]));
    assert AddBlank(WithFold(l, f), c) == l';
    SetWithLine(p, WithFold(l, f), l');
    DriveStep(Lws, WithLine(p, WithFold(l, f)), c, rest);
  }

  lemma {:induction false} DriveLead(p: Pieces, l: Line, f: Fold, t: string)
    requires Blanks(t)
    ensures Drive(Lws, WithLine(p, WithFold(l, f)), t)
         == At(Lws, WithLine(p, WithFold(l, f.(lead := f.lead + t))))
    decreases |t|
  {
    hide Drive, WithLine, WithFold;
    if t == "" {
      DriveNothing(Lws, WithLine(p, WithFold(l, f)));
      assert f.lead + t == f.lead;
    } else {
      assert [t[0]] + t[1..] == t;
      LeadStep(p, l, f, t[0], t[1..]);
      DriveLead(p, l, f.(lead := f.lead + [t[0]]), t[1..]);
      assert f.lead + [t[0]] + t[1..] == f.lead + t;
    }
  }

  lemma AddTextToFold(l: Line, f: Fold, c: char)
    ensures AddText(WithFold(l, f), c) == WithFold(l, f.(text := f.text + [c]))
  {
  }

  /** The text of a continuation. */
  lemma {:induction false} DriveFoldText(p: Pieces, l: Line, f: Fold, t: string)
    requires CtlFree(t)
    ensures Drive(Value, WithLine(p, WithFold(l, f)), t)
         == At(Value, WithLine(p, WithFold(l, f.(text := f.text + t))))
    decreases |t|
  {
    hide Drive, AddText, WithFold, WithLine;
    if t == "" {
      DriveNothing(Value, WithLine(p, WithFold(l, f)));
      assert f.text + t == f.text;
    } else {
      var f' := f.(text := f.text + [t[0]]);
      AddTextToFold(l, f, t[0]);
      assert [t[0]] + t[1..] == t;
      ValueStep(Value, p, WithFold(l, f), t[0], t[1..]);
      DriveFoldText(p, l, f', t[1..]);
      assert f.text + [t[0]] + t[1..] == f.text + t;
    }
  }

  lemma FoldStep(p: Pieces, l: Line, c: char, rest: string)
    requires Blank(c)
    ensures Drive(LineStart, WithLine(p, l), [c] + rest) == Drive(Lws, WithLine(p, WithFold(l, Fold([c], ""))), rest)
  {
    SetWithLine(p, l, WithFold(l, Fold([c], "")));
    DriveStep(LineStart, WithLine(p, l), c, rest);
  }

  lemma DriveLineEnd(st: State, p: Pieces, l: Line)
    requires st in {Value, Lws}
    ensures Drive(st, WithLine(p, l), CRLF) == At(LineStart, WithLine(p, l))
  {
    SetWithLine(p, l, l);
    assert CRLF[1..] == "\n";
    assert "\n"[1..] == "";
  }

  lemma DriveFoldRest(p: Pieces, l: Line, f: Fold)
    requires WellFormedFold(f)
    ensures Drive(Lws, WithLine(p, WithFold(l, Fold(f.lead, ""))), f.text + CRLF)
         == At(LineStart, WithLine(p, WithFold(l, f)))
  {
    var led := WithFold(l, Fold(f.lead, ""));
    if f.text == "" {
      assert f.text + CRLF == CRLF;
      DriveLineEnd(Lws, p, led);
    } else {
      var c, t := f.text[0], f.text[1..];
      var begun := Fold(f.lead, [c]);
      assert "" + [c] == [c];
      AddTextToFold(l, Fold(f.lead, ""), c);
      assert f.text + CRLF == [c] + (t + CRLF);
      ValueStep(Lws, p, led, c, t + CRLF);
      DriveFoldText(p, l, begun, t);
      assert [c] + t == f.text;
      DriveConcat(Value, WithLine(p, WithFold(l, begun)), t, CRLF, Value, WithLine(p, WithFold(l, f)));
      DriveLineEnd(Value, p, WithFold(l, f));
    }
  }

  /** From a line start, one continuation adds one fold to the last header. */
  lemma DriveFold(p: Pieces, l: Line, f: Fold)
    requires WellFormedFold(f)
    ensures Drive(LineStart, WithLine(p, l), f.lead + f.text + CRLF) == At(LineStart, WithLine(p, WithFold(l, f)))
  {
    var c, blanks := f.lead[0], f.lead[1..];
    var start, led := Fold([c], ""), Fold(f.lead, "");
    assert f.lead + f.text + CRLF == [c] + (blanks + (f.text + CRLF));
    DriveFoldRest(p, l, f);
    assert Blank(c) && Blanks(blanks);
    hide Drive, WithLine, WithFold, WellFormedFold;
    FoldStep(p, l, c, blanks + (f.text + CRLF));
    DriveLead(p, l, start, blanks);
    assert [c] + blanks == f.lead;
    DriveConcat(Lws, WithLine(p, WithFold(l, start)), blanks, f.text + CRLF, Lws, WithLine(p, WithFold(l, led)));
  }

  lemma LineTextWithFold(l: Line, f: Fold)
    ensures LineText(WithFold(l, f)) + CRLF == LineText(l) + CRLF + (f.lead + f.text + CRLF)
  {
    FoldsTextAppend(l.folds, f);
  }

  lemma UnfoldedCut(l: Line)
    requires l.name != "" && l.folds == []
    ensures LineText(l) + CRLF == [l.name[0]] + (l.name[1..] + (": " + (l.first + CRLF)))
  {
    assert [l.name[0]] + l.name[1..] == l.name;
    assert LineText(l) == l.name + ": " + l.first;
  }

  lemma NameStart(p: Pieces, c: char, rest: string)
    requires TokenByte(c)
    ensures Drive(LineStart, p, [c] + rest) == Drive(Name, WithLine(p, Line([c], "", [])), rest)
  {
    DriveStep(LineStart, p, c, rest);
  }

  lemma DriveColon(p: Pieces, l: Line, rest: string)
    ensures Drive(Name, WithLine(p, l), ": " + rest) == Drive(Value, WithLine(p, l), rest)
  {
    SetWithLine(p, l, l);
    assert (": " + rest)[1..] == " " + rest;
    assert (" " + rest)[1..] == rest;
  }

  lemma DriveUnfolded(p: Pieces, l: Line)
    requires WellFormedLine(l) && l.folds == []
    ensures Drive(LineStart, p, LineText(l) + CRLF) == At(LineStart, WithLine(p, l))
  {
    var c, t := l.name[0], l.name[1..];
    assert TokenByte(c) && Token(t);
    hide Drive, WithLine, LineText, WellFormedLine, TokenByte;
    var start, named := Line([c], "", []), Line(l.name, "", []);
    UnfoldedCut(l);
    NameStart(p, c, t + (": " + (l.first + CRLF)));
    DriveName(p, start, t);
    assert [c] + t == l.name;
    DriveConcat(Name, WithLine(p, start), t, ": " + (l.first + CRLF), Name, WithLine(p, named));
    DriveColon(p, named, l.first + CRLF);
    DriveFirst(p, named, l.first);
    assert "" + l.first == l.first;
    DriveConcat(Value, WithLine(p, named), l.first, CRLF, Value, WithLine(p, l));
    DriveLineEnd(Value, p, l);
  }

  /** From a line start, a header with all its continuations adds one line. */
  lemma {:induction false} DriveLine(p: Pieces, l: Line)
    requires WellFormedLine(l)
    ensures Drive(LineStart, p, LineText(l) + CRLF) == At(LineStart, WithLine(p, l))
    decreases |l.folds|
  {
    if l.folds == [] {
      DriveUnfolded(p, l);
    } else {
      var n := |l.folds| - 1;
      var f := l.folds[n];
      var shorter := l.(folds := l.folds[..n]);
      assert WellFormedLine(shorter) && WellFormedFold(f);
      assert WithFold(shorter, f) == l;
      hide WellFormedLine, WellFormedFold, Drive, WithFold, LineText;
      DriveLine(p, shorter);
      DriveFold(p, shorter, f);
      DriveConcat(LineStart, p, LineText(shorter) + CRLF, f.lead + f.text + CRLF, LineStart, WithLine(p, shorter));
      LineTextWithFold(shorter, f);
    }
  }

  lemma {:induction false} DriveLines(p: Pieces, lines: seq<Line>)
    requires WellFormedLines(lines) && p.lines == []
    ensures Drive(LineStart, p, LinesText(lines)) == At(LineStart, p.(lines := lines))
    decreases |lines|
  {
    if lines != [] {
      var n := |lines| - 1;
      var before := p.(lines := lines[..n]);
      assert WithLine(before, lines[n]) == p.(lines := lines) by { assert lines[..n] + [lines[n]] == lines; }
      assert LinesText(lines[..n]) + (LineText(lines[n]) + CRLF) == LinesText(lines);
      hide LineText, Drive, WellFormedLine;
      DriveLines(p, lines[..n]);
      DriveLine(before, lines[n]);
      DriveConcat(LineStart, p, LinesText(lines[..n]), LineText(lines[n]) + CRLF, LineStart, before);
    }
  }

  lemma RequestLineCut(p: Pieces)
    ensures RequestLine(p) == p.httpMethod + (" " + (p.uri + (" HTTP/" + (p.major + ("." + (p.minor + CRLF))))))
  {
  }

  lemma DriveMark(p: Pieces, rest: string)
    ensures Drive(Method, p, " " + rest) == Drive(Uri, p, rest)
    ensures Drive(Major, p, "." + rest) == Drive(MinorStart, p, rest)
  {
    DriveStep(Method, p, ' ', rest);
    DriveStep(Major, p, '.', rest);
  }

  lemma DriveMethodRun(t: string, rest: string)
    requires t != "" && Token(t)
    ensures Drive(MethodStart, NOTHING, t + rest) == Drive(Method, NOTHING.(httpMethod := t), rest)
  {
    var m0 := NOTHING.(httpMethod := [t[0]]);
    assert t + rest == [t[0]] + (t[1..] + rest);
    DriveStep(MethodStart, NOTHING, t[0], t[1..] + rest);
    assert "" + [t[0]] == [t[0]];
    DriveMethod(m0, t[1..]);
    assert [t[0]] + t[1..] == t;
    DriveConcat(Method, m0, t[1..], rest, Method, NOTHING.(httpMethod := t));
  }

  lemma DriveVersionMark(u: Pieces, rest: string)
    ensures Drive(Uri, u, " HTTP/" + rest) == Drive(MajorStart, u, rest)
  {
    hide Drive;
    assert " HTTP/" + rest == [' '] + ("HTTP/" + rest);
    DriveStep(Uri, u, ' ', "HTTP/" + rest);
    assert "HTTP/" + rest == ['H'] + ("TTP/" + rest);
    DriveStep(VersionH, u, 'H', "TTP/" + rest);
    assert "TTP/" + rest == ['T'] + ("TP/" + rest);
    DriveStep(VersionT1, u, 'T', "TP/" + rest);
    assert "TP/" + rest == ['T'] + ("P/" + rest);
    DriveStep(VersionT2, u, 'T', "P/" + rest);
    assert "P/" + rest == ['P'] + ("/" + rest);
    DriveStep(VersionP, u, 'P', "/" + rest);
    assert "/" + rest == ['/'] + rest;
    DriveStep(VersionSlash, u, '/', rest);
  }

  lemma DriveMajorRun(u: Pieces, t: string, rest: string)
    requires t != "" && Digits(t) && u.major == ""
    ensures Drive(MajorStart, u, t + rest) == Drive(Major, u.(major := t), rest)
  {
    assert (t + rest)[1..] == t[1..] + rest;
    assert "" + [t[0]] == [t[0]];
    var u0 := u.(major := [t[0]]);
    DriveMajor(u0, t[1..]);
    assert [t[0]] + t[1..] == t;
    DriveConcat(Major, u0, t[1..], rest, Major, u.(major := t));
  }

  lemma DriveMinorRun(u: Pieces, t: string)
    requires t != "" && Digits(t) && u.minor == ""
    ensures Drive(MinorStart, u, t + CRLF) == At(LineStart, u.(minor := t))
  {
    assert (t + CRLF)[1..] == t[1..] + CRLF;
    assert "" + [t[0]] == [t[0]];
    var u0 := u.(minor := [t[0]]);
    DriveMinor(u0, t[1..]);
    assert [t[0]] + t[1..] == t;
    DriveConcat(Minor, u0, t[1..], CRLF, Minor, u.(minor := t));
    assert CRLF[1..] == "\n";
    assert "\n"[1..] == "";
  }

  lemma DriveRequestLine(p: Pieces)
    requires WellFormed(p) && p.lines == []
    ensures Drive(MethodStart, NOTHING, RequestLine(p)) == At(LineStart, p)
  {
    var m, u := Pieces(p.httpMethod, "", "", "", []), Pieces(p.httpMethod, p.uri, "", "", []);
    var v := u.(major := p.major);
    var majors := p.major + ("." + (p.minor + CRLF));
    var uris := p.uri + (" HTTP/" + majors);
    hide Drive, RequestLine;
    RequestLineCut(p);
    DriveMethodRun(p.httpMethod, " " + uris);
    DriveMark(m, uris);
    DriveUri(m, p.uri);
    assert "" + p.uri == p.uri;
    DriveConcat(Uri, m, p.uri, " HTTP/" + majors, Uri, u);
    DriveVersionMark(u, majors);
    DriveMajorRun(u, p.major, "." + (p.minor + CRLF));
    DriveMark(v, p.minor + CRLF);
    DriveMinorRun(v, p.minor);
  }

  /** Every text of the grammar drives the machine to its last state, and the pieces
      collected on the way are the ones the text was made of. */
  lemma DriveText(p: Pieces)
    requires WellFormed(p)
    ensures Drive(MethodStart, NOTHING, RequestLine(p) + LinesText(p.lines) + "\r") == At(Newline3, p)
  {
    var top := p.(lines := []);
    DriveRequestLine(top);
    DriveLines(top, p.lines);
    DriveConcat(MethodStart, NOTHING, RequestLine(p), LinesText(p.lines) + "\r", LineStart, top);
    assert top.(lines := p.lines) == p;
    DriveConcat(LineStart, top, LinesText(p.lines), "\r", LineStart, p);
    assert "\r"[1..] == "";
    assert RequestLine(p) + (LinesText(p.lines) + "\r") == RequestLine(p) + LinesText(p.lines) + "\r";
  }

  /** Every text of the grammar is accepted at exactly its last byte with its own meaning,
      whatever the uninitialised version bytes were. */
  lemma Completeness(q0: RequestData, p: Pieces)
    requires Fresh(q0) && WellFormed(p)
    ensures Parse(MethodStart, q0, TextOf(p)) == Parsed(Good, Newline3, Meaning(p), |TextOf(p)|)
  {
    hide Drive, RequestLine, LinesText, Aligned, SoFar, Meaning, WellFormed;
    var a := RequestLine(p) + LinesText(p.lines) + "\r";
    assert TextOf(p) == a + "\n";
    DriveText(p);
    StartAligned(q0);
    DriveFollowsParse(MethodStart, q0, NOTHING, a);
    AtLastByte(Parse(MethodStart, q0, a).request, p);
    ParseConcat(MethodStart, q0, a, "\n");
  }

  // ---------------------------------------------------------------- the language

  predicate Accepted(q0: RequestData, s: string, q: RequestData)
    requires Fresh(q0)
  {
    Parse(MethodStart, q0, s) == Parsed(Good, Newline3, q, |s|)
  }

  /** A fresh parser accepts exactly the texts of the grammar, with exactly their meaning. */
  lemma AcceptsExactlyTheGrammar(q0: RequestData, s: string, q: RequestData)
    requires Fresh(q0)
    ensures Accepted(q0, s, q) <==> exists p :: WellFormed(p) && TextOf(p) == s && Meaning(p) == q
  {
    if Accepted(q0, s, q) {
      var p := Soundness(q0, s);
      assert s[..|s|] == s;
      assert WellFormed(p) && TextOf(p) == s && Meaning(p) == q;
    }
    if exists p :: WellFormed(p) && TextOf(p) == s && Meaning(p) == q {
      var p :| WellFormed(p) && TextOf(p) == s && Meaning(p) == q;
      Completeness(q0, p);
    }
  }

  /** The grammar is unambiguous: a text has one division into pieces. */
  lemma Unambiguous(p: Pieces, p': Pieces)
    requires WellFormed(p) && WellFormed(p') && TextOf(p) == TextOf(p')
    ensures p == p'
  {
    DriveText(p);
    DriveText(p');
    var a, a' := RequestLine(p) + LinesText(p.lines) + "\r", RequestLine(p') + LinesText(p'.lines) + "\r";
    assert TextOf(p) == a + "\n" && TextOf(p') == a' + "\n";
    assert a == TextOf(p)[..|TextOf(p)| - 1] == TextOf(p')[..|TextOf(p')| - 1] == a';
  }

  /** No accepted input is a proper prefix of another. */
  lemma PrefixFree(q0: RequestData, s: string, t: string, q: RequestData, q': RequestData)
    requires Fresh(q0) && Accepted(q0, s, q) && Accepted(q0, s + t, q')
    ensures t == "" && q == q'
  {
    ParseConcat(MethodStart, q0, s, t);
  }

  /** The version bytes are the version numbers of the text exactly when those fit a byte. */
  lemma VersionExact(q0: RequestData, p: Pieces)
    requires Fresh(q0) && WellFormed(p)
    ensures var q := Parse(MethodStart, q0, TextOf(p)).request;
            && (q.major == Number(p.major) <==> Number(p.major) <= 255)
            && (q.minor == Number(p.minor) <==> Number(p.minor) <= 255)
  {
    hide Parse, TextOf, WellFormedLines, HeadersOf, Token, CtlFree, Digits, UriText;
    Completeness(q0, p);
  }
}
