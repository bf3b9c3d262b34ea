/** The resumable request parser: a 20-state machine that takes one byte at a time. */
module RequestParser {
  import opened Text
  import opened Http

  datatype Result = Good | Bad | Indeterminate

  datatype State =
    | MethodStart | Method | Uri
    | VersionH | VersionT1 | VersionT2 | VersionP | VersionSlash
    | MajorStart | Major | MinorStart | Minor
    | Newline1 | LineStart | Lws | Name | SpaceBeforeValue | Value | Newline2 | Newline3

  // ---------------------------------------------------------------- specification

  function Stay(st: State, ok: bool): (Result, State) {
    (if ok then Indeterminate else Bad, st)
  }

  function Expect(st: State, c: char, wanted: char, target: State): (Result, State) {
    if c == wanted then (Indeterminate, target) else (Bad, st)
  }

  /** The control half of one step. Of the request it looks only at whether a header exists. */
  function Next(st: State, anyHeader: bool, c: char): (Result, State) {
    match st
    case MethodStart => if TokenByte(c) then (Indeterminate, Method) else (Bad, st)
    case Method => if c == ' ' then (Indeterminate, Uri) else if TokenByte(c) then (Indeterminate, st) else (Bad, st)
    case Uri => if c == ' ' then (Indeterminate, VersionH) else Stay(st, !IsCtl(c as int))
    case VersionH => Expect(st, c, 'H', VersionT1)
    case VersionT1 => Expect(st, c, 'T', VersionT2)
    case VersionT2 => Expect(st, c, 'T', VersionP)
    case VersionP => Expect(st, c, 'P', VersionSlash)
    case VersionSlash => Expect(st, c, '/', MajorStart)
    case MajorStart => if IsDigit(c as int) then (Indeterminate, Major) else (Bad, st)
    case Major => if c == '.' then (Indeterminate, MinorStart) else Stay(st, IsDigit(c as int))
    case MinorStart => if IsDigit(c as int) then (Indeterminate, Minor) else (Bad, st)
    case Minor => if c == '\r' then (Indeterminate, Newline1) else Stay(st, IsDigit(c as int))
    case Newline1 => Expect(st, c, '\n', LineStart)
    case LineStart =>
      if c == '\r' then (Indeterminate, Newline3)
      else if anyHeader && Blank(c) then (Indeterminate, Lws)
      else if TokenByte(c) then (Indeterminate, Name)
      else (Bad, st)
    case Lws =>
      if c == '\r' then (Indeterminate, Newline2)
      else if Blank(c) then (Indeterminate, st)
      else if IsCtl(c as int) then (Bad, st)
      else (Indeterminate, Value)
    case Name => if c == ':' then (Indeterminate, SpaceBeforeValue) else Stay(st, TokenByte(c))
    case SpaceBeforeValue => Expect(st, c, ' ', Value)
    case Value => if c == '\r' then (Indeterminate, Newline2) else Stay(st, !IsCtl(c as int))
    case Newline2 => Expect(st, c, '\n', LineStart)
    case Newline3 => (if c == '\n' then Good else Bad, st)
  }

  /** `headers.back()` is applied in these states, so the vector must not be empty there. */
  predicate Coherent(st: State, q: RequestData) {
    st in {Lws, Name, SpaceBeforeValue, Value, Newline2} ==> q.headers != []
  }

  function ExtendName(headers: seq<Header>, c: char): seq<Header>
    requires headers != []
  {
    var last := headers[|headers| - 1];
    headers[|headers| - 1 := last.(name := last.name + [c])]
  }

  function ExtendValue(headers: seq<Header>, c: char): seq<Header>
    requires headers != []
  {
    var last := headers[|headers| - 1];
    headers[|headers| - 1 := last.(value := last.value + [c])]
  }

  /** The data half of one accepted step: where the byte is stored. */
  function Store(st: State, q: RequestData, c: char): RequestData
    requires Coherent(st, q)
  {
    match st
    case MethodStart => q.(httpMethod := q.httpMethod + [c])
    case Method => if c == ' ' then q else q.(httpMethod := q.httpMethod + [c])
    case Uri => if c == ' ' then q else q.(uri := q.uri + [c])
    case VersionSlash => q.(major := 0, minor := 0)
    case MajorStart => q.(major := (q.major * 10 + DigitOf(c)) % 256)
    case Major => if c == '.' then q else q.(major := (q.major * 10 + DigitOf(c)) % 256)
    case MinorStart => q.(minor := (q.minor * 10 + DigitOf(c)) % 256)
    case Minor => if c == '\r' then q else q.(minor := (q.minor * 10 + DigitOf(c)) % 256)
    case LineStart =>
      if c == '\r' || (q.headers != [] && Blank(c)) then q
      else q.(headers := q.headers + [Header([c], "")])
    case Lws => if c == '\r' || Blank(c) then q else q.(headers := ExtendValue(q.headers, c))
    case Name => if c == ':' then q else q.(headers := ExtendName(q.headers, c))
    case Value => if c == '\r' then q else q.(headers := ExtendValue(q.headers, c))
    case _ => q
  }

  /** What one byte does: its verdict, the next state and the next request. */
  datatype Move = Move(result: Result, state: State, request: RequestData)

  function Step(st: State, q: RequestData, c: char): (m: Move)
    requires Coherent(st, q)
    ensures Coherent(m.state, m.request)
    ensures m.result != Indeterminate ==> m.state == st && m.request == q
  {
    var (result, next) := Next(st, q.headers != [], c);
    Move(result, next, if result == Indeterminate then Store(st, q, c) else q)
  }

  /** The outcome of one call of `parse`; `consumed` is how far the iterator moved. */
  datatype Parsed = Parsed(result: Result, state: State, request: RequestData, consumed: nat)

  /** The same outcome, seen by an iterator that had already moved n bytes. */
  function Later(p: Parsed, n: nat): Parsed {
    p.(consumed := n + p.consumed)
  }

  function Parse(st: State, q: RequestData, s: string): (p: Parsed)
    requires Coherent(st, q)
    ensures Coherent(p.state, p.request)
    ensures p.consumed <= |s|
    ensures p.result == Indeterminate ==> p.consumed == |s|
    ensures p.result != Indeterminate ==> 0 < p.consumed
    decreases |s|
  {
    if s == "" then Parsed(Indeterminate, st, q, 0)
    else
      var m := Step(st, q, s[0]);
      if m.result != Indeterminate then Parsed(m.result, m.state, m.request, 1)
      else Later(Parse(m.state, m.request, s[1..]), 1)
  }

  // ---------------------------------------------------------------- the bytes of each state

  /** Methods and header names are made of these bytes, and end at a space or a colon. */
  lemma NameBytesExactly(q: RequestData, c: char)
    requires q.headers != []
    ensures var token := 'A' <= c <= 'Z' || 'a' <= c <= 'z' || '0' <= c <= '9' || c in "!#$%&'*+-.^_`|~";
            && (Step(MethodStart, q, c).result == Indeterminate <==> token)
            && (Step(Method, q, c).result == Indeterminate <==> token || c == ' ')
            && (Step(Name, q, c).result == Indeterminate <==> token || c == ':')
            && (Step(LineStart, q, c).result == Indeterminate <==> token || c in "\r \t")
            && (Step(LineStart, q.(headers := []), c).result == Indeterminate <==> token || c == '\r')
  {
    hide Store;
  }

  /** A uri takes every byte but the control bytes and ends at a space. A value also takes spaces
      and ends at a carriage return; a tab is only legal among the blanks before a continuation. */
  lemma UriAndValueBytesExactly(q: RequestData, c: char)
    requires q.headers != []
    ensures Step(Uri, q, c).result == Indeterminate <==> c as int >= 0x20 && c as int != 0x7F
    ensures Step(Value, q, c).result == Indeterminate <==> (c as int >= 0x20 && c as int != 0x7F) || c == '\r'
    ensures Step(Lws, q, c).result == Indeterminate <==> (c as int >= 0x20 && c as int != 0x7F) || c == '\r' || c == '\t'
    ensures Step(Uri, q, c).state == VersionH <==> c == ' '
    ensures Step(Lws, q, c).state == Lws <==> c as int == 0x7F || (c as int <= 0x20 && c != '\r')
  {
    hide Store;
  }

  /** The bytes of the version numbers. */
  lemma VersionBytesExactly(q: RequestData, c: char)
    ensures Step(MajorStart, q, c).result == Indeterminate <==> c in "0123456789"
    ensures Step(Major, q, c).result == Indeterminate <==> c in "0123456789."
    ensures Step(MinorStart, q, c).result == Indeterminate <==> c in "0123456789"
    ensures Step(Minor, q, c).result == Indeterminate <==> c in "0123456789\r"
  {
    hide Store;
  }

  // ---------------------------------------------------------------- the parser object

  class Parser {
    var state: State

    constructor ()
      ensures state == MethodStart
    {
      state := MethodStart;
    }

    method Reset()
      modifies this
      ensures state == MethodStart
    {
      state := MethodStart;
    }

    /** The states that accept a single byte and store nothing. */
    method Literal(input: char, wanted: char, next: State) returns (result: Result)
      modifies this
      ensures (result, state) == old(Expect(state, input, wanted, next))
    {
      if input != wanted { return Bad; }
      state := next;
      return Indeterminate;
    }

    method Consume(req: Request, input: char) returns (result: Result)
      requires Coherent(state, req.Data())
      modifies this, req
      ensures Move(result, state, req.Data()) == old(Step(state, req.Data(), input))
    {
      var token := IsChar(input as int) && !IsCtl(input as int) && !IsTspecial(input as int);
      match state {
        case MethodStart =>
          if !token { return Bad; }
          state := Method;
          req.httpMethod := req.httpMethod + [input];
          return Indeterminate;
        case Method =>
          if input == ' ' {
            state := Uri;
            return Indeterminate;
          } else if !token {
            return Bad;
          }
          req.httpMethod := req.httpMethod + [input];
          return Indeterminate;
        case Uri =>
          if input == ' ' {
            state := VersionH;
            return Indeterminate;
          } else if IsCtl(input as int) {
            return Bad;
          }
          req.uri := req.uri + [input];
          return Indeterminate;
        case VersionH =>
          result := Literal(input, 'H', VersionT1);
        case VersionT1 =>
          result := Literal(input, 'T', VersionT2);
        case VersionT2 =>
          result := Literal(input, 'T', VersionP);
        case VersionP =>
          result := Literal(input, 'P', VersionSlash);
        case VersionSlash =>
          if input != '/' { return Bad; }
          req.major := 0;
          req.minor := 0;
          state := MajorStart;
          return Indeterminate;
        case MajorStart =>
          if !IsDigit(input as int) { return Bad; }
          req.major := (req.major * 10 + DigitOf(input)) % 256;
          state := Major;
          return Indeterminate;
        case Major =>
          if input == '.' {
            state := MinorStart;
            return Indeterminate;
          } else if !IsDigit(input as int) {
            return Bad;
          }
          req.major := (req.major * 10 + DigitOf(input)) % 256;
          return Indeterminate;
        case MinorStart =>
          if !IsDigit(input as int) { return Bad; }
          req.minor := (req.minor * 10 + DigitOf(input)) % 256;
          state := Minor;
          return Indeterminate;
        case Minor =>
          if input == '\r' {
            state := Newline1;
            return Indeterminate;
          } else if !IsDigit(input as int) {
            return Bad;
          }
          req.minor := (req.minor * 10 + DigitOf(input)) % 256;
          return Indeterminate;
        case Newline1 =>
          result := Literal(input, '\n', LineStart);
        case LineStart =>
          if input == '\r' {
            state := Newline3;
            return Indeterminate;
          } else if req.headers != [] && (input == ' ' || input == '\t') {
            state := Lws;
            return Indeterminate;
          } else if !token {
            return Bad;
          }
          req.headers := req.headers + [Header("", "")];
          req.headers := ExtendName(req.headers, input);
          assert "" + [input] == [input];
          assert req.headers == old(req.headers) + [Header([input], "")];
          state := Name;
          return Indeterminate;
        case Lws =>
          if input == '\r' {
            state := Newline2;
            return Indeterminate;
          } else if input == ' ' || input == '\t' {
            return Indeterminate;
          } else if IsCtl(input as int) {
            return Bad;
          }
          state := Value;
          req.headers := ExtendValue(req.headers, input);
          return Indeterminate;
        case Name =>
          if input == ':' {
            state := SpaceBeforeValue;
            return Indeterminate;
          } else if !token {
            return Bad;
          }
          req.headers := ExtendName(req.headers, input);
          return Indeterminate;
        case SpaceBeforeValue =>
          result := Literal(input, ' ', Value);
        case Value =>
          if input == '\r' {
            state := Newline2;
            return Indeterminate;
          } else if IsCtl(input as int) {
            return Bad;
          }
          req.headers := ExtendValue(req.headers, input);
          return Indeterminate;
        case Newline2 =>
          result := Literal(input, '\n', LineStart);
        case Newline3 =>
          return if input == '\n' then Good else Bad;
      }
    }

    /** `begin` returns as the iterator position: one past the byte that decided. */
    method ParseRange(req: Request, input: string) returns (result: Result, begin: nat)
      requires Coherent(state, req.Data())
      modifies this, req
      ensures Parsed(result, state, req.Data(), begin) == old(Parse(state, req.Data(), input))
    {
      begin := 0;
      ghost var whole := Parse(state, req.Data(), input);
      while begin < |input|
        invariant begin <= |input|
        invariant Coherent(state, req.Data())
        invariant whole == Later(Parse(state, req.Data(), input[begin..]), begin)
      {
        assert input[begin..][1..] == input[begin + 1..];
        result := Consume(req, input[begin]);
        begin := begin + 1;
        if result == Good || result == Bad {
          return;
        }
      }
      result := Indeterminate;
    }
  }

  // ---------------------------------------------------------------- resumption

  /** Feeding a ++ b is feeding a and then, only if a decided nothing, resuming with b:
      bytes after the deciding one have no influence. */
  lemma {:induction false} ParseConcat(st: State, q: RequestData, a: string, b: string)
    requires Coherent(st, q)
    ensures var p := Parse(st, q, a);
            Parse(st, q, a + b) == if p.result == Indeterminate
                                   then Later(Parse(p.state, p.request, b), |a|) else p
    decreases |a|
  {
    if a == "" {
      assert a + b == b;
    } else {
      var m := Step(st, q, a[0]);
      assert (a + b)[1..] == a[1..] + b;
      if m.result == Indeterminate {
        ParseConcat(m.state, m.request, a[1..], b);
      }
    }
  }

  /** A caller that holds its input in pieces and keeps calling `parse` while the answer
      is `indeterminate`. */
  function ParsePieces(st: State, q: RequestData, pieces: seq<string>): (p: Parsed)
    requires Coherent(st, q)
    ensures Coherent(p.state, p.request)
    decreases |pieces|
  {
    if pieces == [] then Parsed(Indeterminate, st, q, 0)
    else
      var p := Parse(st, q, pieces[0]);
      if p.result != Indeterminate then p
      else Later(ParsePieces(p.state, p.request, pieces[1..]), p.consumed)
  }

  function Flatten(pieces: seq<string>): string {
    if pieces == [] then "" else pieces[0] + Flatten(pieces[1..])
  }

  /** How the input is cut into pieces makes no difference to anything observable. */
  lemma {:induction false} ChunkInvariance(st: State, q: RequestData, pieces: seq<string>)
    requires Coherent(st, q)
    ensures ParsePieces(st, q, pieces) == Parse(st, q, Flatten(pieces))
    decreases |pieces|
  {
    if pieces != [] {
      ParseConcat(st, q, pieces[0], Flatten(pieces[1..]));
      var p := Parse(st, q, pieces[0]);
      if p.result == Indeterminate {
        ChunkInvariance(p.state, p.request, pieces[1..]);
      }
    }
  }

  /** The iterator stops one past the first deciding byte: every shorter prefix is still
      undecided, and any other tail gives the same outcome. */
  lemma {:induction false} StopsAtFirstDecidingByte(st: State, q: RequestData, s: string, k: nat, tail: string)
    requires Coherent(st, q) && Parse(st, q, s).result != Indeterminate
    ensures k < Parse(st, q, s).consumed ==> Parse(st, q, s[..k]).result == Indeterminate
    ensures Parse(st, q, s[..Parse(st, q, s).consumed] + tail) == Parse(st, q, s)
  {
    var n := Parse(st, q, s).consumed;
    if k < n {
      assert s[..k] + s[k..] == s;
      ParseConcat(st, q, s[..k], s[k..]);
    }
    assert s[..n] + s[n..] == s;
    ParseConcat(st, q, s[..n], s[n..]);
    ParseConcat(st, q, s[..n], tail);
  }
}
