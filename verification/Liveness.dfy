/** How far every state is from acceptance, and which bytes can never be part of a request. */
module Liveness {
  import opened Http
  import opened RequestParser

  /** The least number of bytes that complete a request from each state. */
  function Distance(st: State): nat {
    match st
    case MethodStart => 15
    case Method => 14
    case Uri => 13
    case VersionH => 12
    case VersionT1 => 11
    case VersionT2 => 10
    case VersionP => 9
    case VersionSlash => 8
    case MajorStart => 7
    case Major => 6
    case MinorStart => 5
    case Minor => 4
    case Newline1 => 3
    case LineStart => 2
    case Lws => 4
    case Name => 6
    case SpaceBeforeValue => 5
    case Value => 4
    case Newline2 => 3
    case Newline3 => 1
  }

  /** A byte that takes each state one step nearer. */
  function Toward(st: State): char {
    match st
    case MethodStart => 'G'
    case Method => ' '
    case Uri => ' '
    case VersionH => 'H'
    case VersionT1 => 'T'
    case VersionT2 => 'T'
    case VersionP => 'P'
    case VersionSlash => '/'
    case MajorStart => '1'
    case Major => '.'
    case MinorStart => '0'
    case Name => ':'
    case SpaceBeforeValue => ' '
    case Newline1 => '\n'
    case Newline2 => '\n'
    case Newline3 => '\n'
    case _ => '\r'
  }

  lemma StepDistance(st: State, any: bool, c: char)
    ensures Next(st, any, c).0 == Indeterminate ==> Distance(st) <= Distance(Next(st, any, c).1) + 1
    ensures Next(st, any, c).0 == Good ==> Distance(st) == 1
  {
  }

  /** No input shorter than the distance is accepted. */
  lemma {:induction false} NoShorterWay(st: State, q: RequestData, s: string)
    requires Coherent(st, q) && Parse(st, q, s).result == Good
    ensures Distance(st) <= Parse(st, q, s).consumed
    decreases |s|
  {
    var m := Step(st, q, s[0]);
    StepDistance(st, q.headers != [], s[0]);
    if m.result == Indeterminate {
      hide Distance, Next;
      NoShorterWay(m.state, m.request, s[1..]);
    }
  }

  lemma TowardIsNearer(st: State, any: bool)
    ensures var (result, next) := Next(st, any, Toward(st));
            if Distance(st) == 1 then result == Good
            else result == Indeterminate && Distance(next) == Distance(st) - 1
  {
  }

  /** From every state, whatever has been stored, some input of exactly that length is accepted:
      nothing that is not yet rejected is lost. */
  lemma {:induction false} AlwaysCompletable(st: State, q: RequestData) returns (s: string)
    requires Coherent(st, q)
    ensures |s| == Distance(st) && Parse(st, q, s).result == Good && Parse(st, q, s).consumed == |s|
    decreases Distance(st)
  {
    var c := Toward(st);
    var m := Step(st, q, c);
    TowardIsNearer(st, q.headers != []);
    if m.result == Good {
      s := [c];
    } else {
      hide Distance, Next;
      var rest := AlwaysCompletable(m.state, m.request);
      s := [c] + rest;
      assert s[1..] == rest;
    }
  }

  /** A request has at least 15 bytes, and there is one with 15. */
  lemma ShortestRequest(q0: RequestData, s: string) returns (shortest: string)
    requires Fresh(q0)
    ensures Parse(MethodStart, q0, s).result == Good ==> 15 <= Parse(MethodStart, q0, s).consumed
    ensures |shortest| == 15 && Parse(MethodStart, q0, shortest).result == Good
  {
    if Parse(MethodStart, q0, s).result == Good {
      NoShorterWay(MethodStart, q0, s);
    }
    shortest := AlwaysCompletable(MethodStart, q0);
  }

  lemma NextOfZero(st: State, any: bool)
    ensures Next(st, any, '\0') == (Bad, st)
  {
  }

  /** The zero byte is rejected in all states, so no undecided input contains one. */
  lemma ZeroByteDecides(st: State, q: RequestData, a: string, b: string)
    requires Coherent(st, q)
    ensures Parse(st, q, a + "\0" + b).result != Indeterminate
    ensures Parse(st, q, a).result == Indeterminate ==>
              && Parse(st, q, a + "\0" + b).result == Bad
              && Parse(st, q, a + "\0" + b).consumed == |a| + 1
  {
    assert a + "\0" + b == a + ("\0" + b);
    ParseConcat(st, q, a, "\0" + b);
    var p := Parse(st, q, a);
    NextOfZero(p.state, p.request.headers != []);
    assert ("\0" + b)[0] == '\0';
    hide Next;
    if p.result == Indeterminate {
      assert Parse(p.state, p.request, "\0" + b) == Parsed(Bad, p.state, p.request, 1);
    }
  }
}
