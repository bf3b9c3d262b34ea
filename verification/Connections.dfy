/** One connection: read into a fixed buffer, parse the whole buffer, reply once, close. */
module Connections {
  import opened Text
  import opened Http
  import opened RequestParser
  import opened Acceptance
  import opened Liveness
  import opened Replies
  import opened RequestHandler

  const BUFFER_SIZE := 8192

  /** How an outstanding read completes: with an error, or with bytes at the front of the buffer. */
  datatype Completion = Failure | Received(bytes: string)

  predicate Fits(e: Completion) {
    e.Received? ==> |e.bytes| <= BUFFER_SIZE
  }

  /** Reading: one read is outstanding. Answered: the reply was written, the socket shut down.
      Dropped: a read failed and no callback keeps the connection alive. */
  datatype Phase = Reading | Answered | Dropped

  /** Everything a connection holds, and what it has done: `sent` are the writes on the socket,
      `handled` counts the calls of the request handler. */
  datatype Session = Session(
    buffer: string,
    state: State,
    request: RequestData,
    reply: ReplyData,
    phase: Phase,
    sent: seq<string>,
    handled: nat)

  predicate Live(s: Session) {
    |s.buffer| == BUFFER_SIZE && Coherent(s.state, s.request)
  }

  function Overwrite(buffer: string, bytes: string): string
    requires |bytes| <= |buffer|
  {
    bytes + buffer[|bytes|..]
  }

  function Answer(s: Session, p: Parsed, buffer: string, r: ReplyData, runs: nat): Session {
    Session(buffer, p.state, p.request, r, Answered, s.sent + [Serialize(r)], s.handled + runs)
  }

  /** What the completion of a read does. The count of transferred bytes is ignored: the parser
      is given the whole buffer. */
  function OnRead(site: Site, s: Session, e: Completion): (s': Session)
    requires Live(s) && Fits(e)
    ensures Live(s')
  {
    match e
    case Failure => s.(phase := Dropped)
    case Received(bytes) =>
      var buffer := Overwrite(s.buffer, bytes);
      var p := Parse(s.state, s.request, buffer);
      match p.result
      case Good => Answer(s, p, buffer, Handle(site, p.request.uri, s.reply), 1)
      case Bad => Answer(s, p, buffer, StockReply(400), 0)
      case Indeterminate => s.(buffer := buffer, state := p.state, request := p.request)
  }

  predicate AllFit(events: seq<Completion>) {
    forall i | 0 <= i < |events| :: Fits(events[i])
  }

  /** A whole run: completions are delivered as long as a read is outstanding. */
  function Run(site: Site, s: Session, events: seq<Completion>): (s': Session)
    requires Live(s) && AllFit(events)
    ensures Live(s')
    decreases |events|
  {
    if events == [] || s.phase != Reading then s
    else Run(site, OnRead(site, s, events[0]), events[1..])
  }

  /** A new connection after `start`; the unset bytes of its records are arbitrary. */
  function Initial(q: RequestData, status: int): (s: Session)
    requires Fresh(q)
    ensures Live(s)
  {
    Session(seq(BUFFER_SIZE, _ => '\0'), MethodStart, q, ReplyData(status, [], ""), Reading, [], 0)
  }

  // ---------------------------------------------------------------- the connection object

  class Connection {
    const handler: Handler
    const buffer: array<char>
    const request: Request
    const parser: Parser
    const reply: Reply
    var phase: Phase
    var sent: seq<string>
    ghost var handled: nat

    ghost predicate Valid()
      reads this, request, parser
    {
      buffer.Length == BUFFER_SIZE && Coherent(parser.state, request.Data())
    }

    ghost function Now(): (s: Session)
      requires Valid()
      reads this, buffer, request, parser, reply
      ensures Live(s)
    {
      Session(buffer[..], parser.state, request.Data(), reply.Data(), phase, sent, handled)
    }

    /** Construction and `start`: the buffer is zeroed and the first read is issued. */
    constructor (handler: Handler, major: UInt8, minor: UInt8, status: int)
      ensures Valid() && fresh(buffer) && fresh(request) && fresh(parser) && fresh(reply)
      ensures this.handler == handler
      ensures Now() == Initial(RequestData("", "", major, minor, []), status)
      ensures buffer.Length == 8192 && forall i | 0 <= i < 8192 :: buffer[i] == '\0'
      ensures parser.state == MethodStart && phase == Reading && sent == [] && handled == 0
    {
      this.handler := handler;
      buffer := new char[BUFFER_SIZE](_ => '\0');
      request := new Request(major, minor);
      parser := new Parser();
      reply := new Reply(status);
      phase, sent, handled := Reading, [], 0;
      new;
      assert buffer[..] == seq(BUFFER_SIZE, _ => '\0');
    }

    /** The transferred bytes overwrite the front of the buffer. */
    method Fill(bytes: string)
      requires |bytes| <= buffer.Length
      modifies buffer
      ensures buffer[..] == Overwrite(old(buffer[..]), bytes)
    {
      for i := 0 to |bytes|
        invariant forall k | 0 <= k < i :: buffer[k] == bytes[k]
        invariant forall k | i <= k < buffer.Length :: buffer[k] == old(buffer[k])
      {
        buffer[i] := bytes[i];
      }
    }

    /** One write of all the buffers of the reply, then the socket is shut down. */
    method Write()
      modifies this
      ensures phase == Answered && sent == old(sent) + [Serialize(reply.Data())] && handled == old(handled)
    {
      var buffers := ToBuffers(reply.Data());
      sent := sent + [Gather(buffers)];
      phase := Answered;
    }

    /** The completion handler of an outstanding read. */
    method Complete(e: Completion)
      requires Valid() && phase == Reading && Fits(e)
      modifies this, buffer, request, parser, reply
      ensures Valid() && Now() == OnRead(handler.site, old(Now()), e)
    {
      if e.Failure? {
        phase := Dropped;
        return;
      }
      hide Parse, Handle, Serialize, StockReply;
      Fill(e.bytes);
      var result, _ := parser.ParseRange(request, buffer[..]);
      if result == Good {
        handler.HandleRequest(request, reply);
        handled := handled + 1;
        Write();
      } else if result == Bad {
        reply.Assign(StockReply(400));
        Write();
      }
    }

    /** The event loop of one connection. */
    method Serve(events: seq<Completion>)
      requires Valid() && AllFit(events)
      modifies this, buffer, request, parser, reply
      ensures Valid() && Now() == Run(handler.site, old(Now()), events)
    {
      var i := 0;
      while phase == Reading && i < |events|
        invariant 0 <= i <= |events| && Valid()
        invariant Run(handler.site, old(Now()), events) == Run(handler.site, Now(), events[i..])
        decreases |events| - i
      {
        assert events[i..][1..] == events[i + 1..];
        Complete(events[i]);
        i := i + 1;
      }
    }
  }

  // ---------------------------------------------------------------- what a run does

  /** What the outside sees of a session. */
  datatype Effect = Effect(phase: Phase, sent: seq<string>, handled: nat)

  function EffectOf(s: Session): Effect {
    Effect(s.phase, s.sent, s.handled)
  }

  /** The effect the design asks for, given the verdict of the parser on the received bytes:
      good runs the handler once and sends its reply, bad sends the 400 page, and an undecided
      input leaves the connection reading. */
  function Expected(site: Site, s: Session, p: Parsed): Effect {
    match p.result
    case Good => Effect(Answered, s.sent + [Serialize(Handle(site, p.request.uri, s.reply))], s.handled + 1)
    case Bad => Effect(Answered, s.sent + [Serialize(StockReply(400))], s.handled)
    case Indeterminate => EffectOf(s)
  }

  /** From s the session r has come to where the outcome p leads: to its effect, and with the
      parser and the record where p left them. */
  predicate Follows(site: Site, s: Session, r: Session, p: Parsed) {
    EffectOf(r) == Expected(site, s, p) && r.state == p.state && r.request == p.request
  }

  /** The bytes the parser is given during a run: each read feeds the whole buffer. */
  function Fed(site: Site, s: Session, events: seq<Completion>): string
    requires Live(s) && AllFit(events)
    decreases |events|
  {
    if events == [] || s.phase != Reading || events[0].Failure? then ""
    else Overwrite(s.buffer, events[0].bytes) + Fed(site, OnRead(site, s, events[0]), events[1..])
  }

  lemma OnReadEffect(site: Site, s: Session, bytes: string)
    requires Live(s) && s.phase == Reading && |bytes| <= BUFFER_SIZE
    ensures var p, s' := Parse(s.state, s.request, Overwrite(s.buffer, bytes)), OnRead(site, s, Received(bytes));
            && Follows(site, s, s', p)
            && s'.buffer == Overwrite(s.buffer, bytes)
            && (p.result == Indeterminate ==> s'.reply == s.reply)
            && (p.result != Indeterminate ==> s'.sent == s.sent + [Serialize(s'.reply)])
  {
    hide Parse, Handle, Serialize, StockReply;
  }

  /** Over every run the connection does what the verdict on the bytes it fed asks for,
      unless a read failed first, when it does nothing more. */
  lemma {:induction false} RunFollowsVerdict(site: Site, s: Session, events: seq<Completion>)
    requires Live(s) && AllFit(events) && s.phase == Reading
    ensures var p, r := Parse(s.state, s.request, Fed(site, s, events)), Run(site, s, events);
            && r.state == p.state && r.request == p.request
            && (EffectOf(r) == Expected(site, s, p)
                || (p.result == Indeterminate && EffectOf(r) == EffectOf(s).(phase := Dropped)))
            && (p.result != Indeterminate ==> r.sent == s.sent + [Serialize(r.reply)])
    decreases |events|
  {
    if events != [] && events[0].Received? {
      var buffer := Overwrite(s.buffer, events[0].bytes);
      var s' := OnRead(site, s, events[0]);
      OnReadEffect(site, s, events[0].bytes);
      var p := Parse(s.state, s.request, buffer);
      ParseConcat(s.state, s.request, buffer, Fed(site, s', events[1..]));
      hide Parse, Handle, Serialize, StockReply, OnRead, Overwrite;
      if p.result == Indeterminate {
        RunFollowsVerdict(site, s', events[1..]);
      } else {
        assert Run(site, s, events) == s';
      }
    }
  }

  /** Over every run of a new connection: at most one reply is written, exactly when the
      parser decided; the handler runs at most once, exactly when it said `good`; and what was
      written reads back as the reply. */
  lemma RepliesOnce(site: Site, q: RequestData, status: int, events: seq<Completion>)
    requires Fresh(q) && AllFit(events)
    ensures var s := Initial(q, status);
            var p, r := Parse(MethodStart, q, Fed(site, s, events)), Run(site, s, events);
            && |r.sent| == (if p.result == Indeterminate then 0 else 1)
            && r.handled == (if p.result == Good then 1 else 0)
            && (r.phase == Answered <==> p.result != Indeterminate)
            && (p.result != Indeterminate ==> r.sent == [Serialize(r.reply)])
            && (p.result == Good ==> ReadReply(r.sent[0]) == Some(Handle(site, r.request.uri, s.reply)))
            && (p.result == Bad ==> ReadReply(r.sent[0]) == Some(StockReply(400)))
  {
    var s := Initial(q, status);
    RunFollowsVerdict(site, s, events);
    var p := Parse(MethodStart, q, Fed(site, s, events));
    FramedAndReadable(site, p.request.uri, s.reply);
    StockReplyReadsBack(400);
    hide Parse, Handle, Serialize, StockReply, Run, Fed, ReadReply;
  }

  /** A run in two parts; once it is answered or dropped, further completions change nothing. */
  lemma {:induction false} RunConcat(site: Site, s: Session, a: seq<Completion>, b: seq<Completion>)
    requires Live(s) && AllFit(a) && AllFit(b)
    ensures AllFit(a + b) && Run(site, s, a + b) == Run(site, Run(site, s, a), b)
    ensures Run(site, s, a).phase != Reading ==> Run(site, s, a + b) == Run(site, s, a)
    decreases |a|
  {
    hide OnRead;
    if a == [] {
      assert a + b == b;
    } else {
      assert (a + b)[1..] == a[1..] + b;
      if s.phase == Reading {
        RunConcat(site, OnRead(site, s, a[0]), a[1..], b);
      }
    }
  }

  // ---------------------------------------------------------------- against the received bytes

  predicate WithinBuffer(pieces: seq<string>) {
    forall i | 0 <= i < |pieces| :: |pieces[i]| <= BUFFER_SIZE
  }

  /** Every read but the last fills the buffer. */
  predicate Filling(pieces: seq<string>) {
    WithinBuffer(pieces) && forall i | 0 <= i < |pieces| - 1 :: |pieces[i]| == BUFFER_SIZE
  }

  function Reads(pieces: seq<string>): (events: seq<Completion>)
    ensures WithinBuffer(pieces) ==> AllFit(events)
  {
    seq(|pieces|, i requires 0 <= i < |pieces| => Received(pieces[i]))
  }

  /** What the buffer holds after these reads. */
  function BufferAfter(buffer: string, pieces: seq<string>): (b: string)
    requires |buffer| == BUFFER_SIZE && WithinBuffer(pieces)
    ensures |b| == BUFFER_SIZE
    decreases |pieces|
  {
    if pieces == [] then buffer else BufferAfter(Overwrite(buffer, pieces[0]), pieces[1..])
  }

  /** The received bytes, each read padded with what is behind it in the buffer. */
  function Padded(buffer: string, pieces: seq<string>): string
    requires |buffer| == BUFFER_SIZE && WithinBuffer(pieces)
    decreases |pieces|
  {
    if pieces == [] then ""
    else
      var b := Overwrite(buffer, pieces[0]);
      b + Padded(b, pieces[1..])
  }

  lemma ParseNothing(st: State, q: RequestData)
    requires Coherent(st, q)
    ensures Parse(st, q, "") == Parsed(Indeterminate, st, q, 0)
  {
  }

  lemma StopsAfter(site: Site, s: Session, events: seq<Completion>)
    requires Live(s) && AllFit(events) && events != [] && s.phase == Reading
    requires |events| == 1 || OnRead(site, s, events[0]).phase != Reading
    ensures Run(site, s, events) == OnRead(site, s, events[0])
  {
    hide OnRead;
  }

  /** Whatever the reads, the connection is where the padded bytes lead. */
  lemma {:induction false} AnyRun(site: Site, s: Session, pieces: seq<string>)
    requires Live(s) && s.phase == Reading && WithinBuffer(pieces)
    ensures var f, r := Parse(s.state, s.request, Padded(s.buffer, pieces)), Run(site, s, Reads(pieces));
            && Follows(site, s, r, f)
            && (f.result == Indeterminate ==> r.reply == s.reply && r.buffer == BufferAfter(s.buffer, pieces))
    decreases |pieces|
  {
    hide Handle, Serialize, StockReply, OnRead, Parse, Overwrite;
    if pieces == [] {
      ParseNothing(s.state, s.request);
    } else {
      var d, rest := pieces[0], pieces[1..];
      var buffer := Overwrite(s.buffer, d);
      OnReadEffect(site, s, d);
      var s' := OnRead(site, s, Received(d));
      ParseConcat(s.state, s.request, buffer, Padded(buffer, rest));
      assert Reads(pieces)[0] == Received(d) && Reads(pieces)[1..] == Reads(rest);
      if Parse(s.state, s.request, buffer).result == Indeterminate {
        AnyRun(site, s', rest);
      } else {
        StopsAfter(site, s, Reads(pieces));
      }
    }
  }

  /** While the padded bytes decide nothing the connection goes on reading, and a failed read then
      ends it with nothing sent; once they decide, a failed read and whatever follows change nothing. */
  lemma FailedReadDrops(site: Site, s: Session, pieces: seq<string>, events: seq<Completion>)
    requires Live(s) && s.phase == Reading && WithinBuffer(pieces) && AllFit(events)
    ensures AllFit(Reads(pieces) + ([Failure] + events))
    ensures var f, r := Parse(s.state, s.request, Padded(s.buffer, pieces)), Run(site, s, Reads(pieces));
            var r' := Run(site, s, Reads(pieces) + ([Failure] + events));
            if f.result == Indeterminate
            then EffectOf(r) == Effect(Reading, s.sent, s.handled) && EffectOf(r') == Effect(Dropped, s.sent, s.handled)
            else r.phase == Answered && r' == r
  {
    hide Parse, Handle, Serialize, StockReply, Padded, Reads;
    AnyRun(site, s, pieces);
    var r := Run(site, s, Reads(pieces));
    RunConcat(site, s, Reads(pieces), [Failure] + events);
    if r.phase == Reading {
      assert ([Failure] + events)[1..] == events;
    }
  }

  /** Two outcomes have the same effect exactly when verdict and reply of the handler agree. */
  lemma SameEffectExactly(site: Site, s: Session, p: Parsed, f: Parsed)
    ensures Expected(site, s, p) == Expected(site, s, f)
            <==> p.result == f.result
                 && (p.result == Good ==> Handle(site, p.request.uri, s.reply) == Handle(site, f.request.uri, s.reply))
  {
    FramedAndReadable(site, p.request.uri, s.reply);
    FramedAndReadable(site, f.request.uri, s.reply);
    hide Handle, Serialize, ReadReply, StockReply;
    var r, r' := Handle(site, p.request.uri, s.reply), Handle(site, f.request.uri, s.reply);
    assert Serialize(r) == Serialize(r') <==> r == r';
    assert Expected(site, s, p) == Expected(site, s, f) ==> p.result == f.result by {
      assert |Expected(site, s, p).sent| == |s.sent| <==> p.result == Indeterminate;
    }
    if p.result == f.result == Good {
      var sent, sent' := Expected(site, s, p).sent, Expected(site, s, f).sent;
      assert sent[|s.sent|] == Serialize(r) && sent'[|s.sent|] == Serialize(r');
    }
  }

  /** Reads of any number and sizes: the connection does what the received bytes ask for if and
      only if padding the reads with the stale bytes changes neither the verdict nor the reply of
      the handler. It also ends with the right parser state and record if and only if the padding
      changes neither of these. */
  lemma AnyRunExact(site: Site, s: Session, pieces: seq<string>)
    requires Live(s) && s.phase == Reading && WithinBuffer(pieces)
    ensures var p, f, r := Parse(s.state, s.request, Flatten(pieces)),
                           Parse(s.state, s.request, Padded(s.buffer, pieces)), Run(site, s, Reads(pieces));
            && (EffectOf(r) == Expected(site, s, p)
                <==> p.result == f.result
                     && (p.result == Good ==> Handle(site, p.request.uri, s.reply) == Handle(site, f.request.uri, s.reply)))
            && (Follows(site, s, r, p) <==> p.result == f.result && p.state == f.state && p.request == f.request)
  {
    hide Handle, Serialize, StockReply, Parse, Run, OnRead, Padded, Flatten, Reads, Expected;
    AnyRun(site, s, pieces);
    var p, f := Parse(s.state, s.request, Flatten(pieces)), Parse(s.state, s.request, Padded(s.buffer, pieces));
    SameEffectExactly(site, s, p, f);
  }

  // ---------------------------------------------------------------- reads that fill the buffer

  /** A read whose bytes decide the request, or that fills the buffer, has the expected effect. */
  lemma DecidedRead(site: Site, s: Session, d: string)
    requires Live(s) && s.phase == Reading && |d| <= BUFFER_SIZE
    requires |d| == BUFFER_SIZE || Parse(s.state, s.request, d).result != Indeterminate
    ensures var p, s' := Parse(s.state, s.request, d), OnRead(site, s, Received(d));
            && Follows(site, s, s', p)
            && s'.buffer == Overwrite(s.buffer, d) && (p.result == Indeterminate ==> s'.reply == s.reply)
  {
    OnReadEffect(site, s, d);
    ParseConcat(s.state, s.request, d, s.buffer[|d|..]);
    assert |d| == BUFFER_SIZE ==> Overwrite(s.buffer, d) == d;
    hide Parse, OnRead;
  }

  /** A first read that fills the buffer is fed as it is. */
  lemma PaddedFull(buffer: string, pieces: seq<string>)
    requires |buffer| == BUFFER_SIZE && WithinBuffer(pieces)
    requires pieces != [] && |pieces[0]| == BUFFER_SIZE
    ensures Padded(buffer, pieces) == pieces[0] + Padded(pieces[0], pieces[1..])
    ensures BufferAfter(buffer, pieces) == BufferAfter(pieces[0], pieces[1..])
  {
    assert Overwrite(buffer, pieces[0]) == pieces[0];
  }

  /** Reads that fill the buffer leave nothing stale behind them. */
  lemma {:induction false} NothingStale(buffer: string, pieces: seq<string>)
    requires |buffer| == BUFFER_SIZE && Filling(pieces)
    requires pieces != [] ==> |pieces[|pieces| - 1]| == BUFFER_SIZE
    ensures Padded(buffer, pieces) == Flatten(pieces)
    ensures BufferAfter(buffer, pieces) == if pieces == [] then buffer else pieces[|pieces| - 1]
    decreases |pieces|
  {
    if pieces != [] {
      PaddedFull(buffer, pieces);
      NothingStale(pieces[0], pieces[1..]);
    }
  }

  /** After reads that all fill the buffer the connection is where the received bytes lead. */
  lemma FullRun(site: Site, s: Session, pieces: seq<string>)
    requires Live(s) && s.phase == Reading && Filling(pieces)
    requires pieces != [] ==> |pieces[|pieces| - 1]| == BUFFER_SIZE
    ensures var p, r := Parse(s.state, s.request, Flatten(pieces)), Run(site, s, Reads(pieces));
            && Follows(site, s, r, p)
            && (p.result == Indeterminate ==>
                  r.reply == s.reply && r.buffer == if pieces == [] then s.buffer else pieces[|pieces| - 1])
  {
    hide Handle, Serialize, StockReply, Parse, Run;
    NothingStale(s.buffer, pieces);
    AnyRun(site, s, pieces);
  }

  /** For any read: with the bytes left in the buffer from earlier reads as `stale`, the
      connection does what the received bytes ask for exactly when they decide the request or
      the parser finds nothing to decide in the stale bytes either. Its parser and record are
      then right exactly when the stale bytes also change neither of them. */
  lemma StaleBytesExact(site: Site, s: Session, d: string)
    requires Live(s) && s.phase == Reading && |d| <= BUFFER_SIZE
    ensures var p, stale, r := Parse(s.state, s.request, d), s.buffer[|d|..], OnRead(site, s, Received(d));
            var after := Parse(p.state, p.request, stale);
            && (EffectOf(r) == Expected(site, s, p) <==> p.result != Indeterminate || after.result == Indeterminate)
            && (Follows(site, s, r, p)
                <==> p.result != Indeterminate
                     || (after.result == Indeterminate && after.state == p.state && after.request == p.request))
  {
    hide Handle, Serialize, StockReply, Parse, OnRead;
    var stale := s.buffer[|d|..];
    OnReadEffect(site, s, d);
    ParseConcat(s.state, s.request, d, stale);
    var p := Parse(s.state, s.request, d);
    if p.result == Indeterminate {
      assert Expected(site, s, Parse(s.state, s.request, d + stale)).phase == Reading
        <==> Parse(p.state, p.request, stale).result == Indeterminate;
    }
  }

  lemma OneRead(buffer: string, d: string)
    requires |buffer| == BUFFER_SIZE && |d| <= BUFFER_SIZE
    ensures Padded(buffer, [d]) == Overwrite(buffer, d) && Flatten([d]) == d
  {
    assert [d][1..] == [];
    assert Padded(Overwrite(buffer, d), []) == "" && Flatten([]) == "";
  }

  /** When only the last read may be short, the bytes behind it are from the read before. */
  lemma {:induction false} StaleAtTheEnd(buffer: string, pieces: seq<string>)
    requires |buffer| == BUFFER_SIZE && Filling(pieces) && pieces != []
    ensures var n := |pieces| - 1;
            var before := if n == 0 then buffer else pieces[n - 1];
            Padded(buffer, pieces) == Flatten(pieces) + before[|pieces[n]|..]
    decreases |pieces|
  {
    var d, rest := pieces[0], pieces[1..];
    if rest == [] {
      assert pieces == [d];
      OneRead(buffer, d);
    } else {
      var n := |pieces| - 1;
      var before := if n == 1 then d else rest[n - 2];
      assert Flatten(pieces) == d + Flatten(rest);
      hide Overwrite, Padded, Flatten;
      PaddedFull(buffer, pieces);
      StaleAtTheEnd(d, rest);
      assert d + (Flatten(rest) + before[|pieces[n]|..]) == d + Flatten(rest) + before[|pieces[n]|..];
    }
  }

  /** A run in which every read but the last fills the buffer does what the received bytes ask
      for if and only if they decide the request, or the parser finds nothing to decide in the
      bytes of the read before that are still behind them in the buffer. */
  lemma FullReadsExact(site: Site, s: Session, pieces: seq<string>)
    requires Live(s) && s.phase == Reading && Filling(pieces) && pieces != []
    ensures var n := |pieces| - 1;
            var p, before := Parse(s.state, s.request, Flatten(pieces)), if n == 0 then s.buffer else pieces[n - 1];
            && |pieces[n]| <= |before|
            && (EffectOf(Run(site, s, Reads(pieces))) == Expected(site, s, p)
                <==> p.result != Indeterminate || Parse(p.state, p.request, before[|pieces[n]|..]).result == Indeterminate)
  {
    var n := |pieces| - 1;
    var before := if n == 0 then s.buffer else pieces[n - 1];
    StaleAtTheEnd(s.buffer, pieces);
    AnyRunExact(site, s, pieces);
    ParseConcat(s.state, s.request, Flatten(pieces), before[|pieces[n]|..]);
    hide Handle, Serialize, StockReply, Parse, Run, Flatten, Padded, Reads;
  }

  /** In particular the stale part of the buffer does not matter when the received bytes decide
      the request, or when the last read fills the buffer too. */
  lemma FullReadsRefine(site: Site, s: Session, pieces: seq<string>)
    requires Live(s) && s.phase == Reading && Filling(pieces)
    requires || pieces == [] || |pieces[|pieces| - 1]| == BUFFER_SIZE
             || Parse(s.state, s.request, Flatten(pieces)).result != Indeterminate
    ensures EffectOf(Run(site, s, Reads(pieces))) == Expected(site, s, Parse(s.state, s.request, Flatten(pieces)))
  {
    hide Handle, Serialize, StockReply, OnRead, Parse, Run, Flatten;
    if pieces == [] || |pieces[|pieces| - 1]| == BUFFER_SIZE {
      FullRun(site, s, pieces);
    } else {
      FullReadsExact(site, s, pieces);
    }
  }

  // ---------------------------------------------------------------- from a new connection

  /** The 400 page was sent and the handler never ran. */
  const REFUSED := Effect(Answered, [Serialize(StockReply(400))], 0)

  /** The first read: the connection does what the received bytes ask for exactly when the
      read filled the buffer or already decided the request. Otherwise the zero byte after the
      received ones is parsed too, and the 400 page is sent. */
  lemma FirstReadExact(site: Site, q: RequestData, status: int, d: string)
    requires Fresh(q) && |d| <= BUFFER_SIZE
    ensures var s := Initial(q, status);
            var r, p := Run(site, s, [Received(d)]), Parse(MethodStart, q, d);
            && (EffectOf(r) == Expected(site, s, p) <==> |d| == BUFFER_SIZE || p.result != Indeterminate)
            && (EffectOf(r) != Expected(site, s, p) ==> EffectOf(r) == REFUSED)
  {
    hide Handle, Serialize, StockReply, Parse;
    var s := Initial(q, status);
    var buffer := Overwrite(s.buffer, d);
    OnReadEffect(site, s, d);
    assert [Received(d)][1..] == [];
    if |d| == BUFFER_SIZE {
      assert buffer == d;
    } else {
      assert buffer == d + "\0" + s.buffer[|d| + 1..];
      ZeroByteDecides(MethodStart, q, d, s.buffer[|d| + 1..]);
      ParseConcat(MethodStart, q, d, s.buffer[|d|..]);
    }
  }

  /** A run whose first read neither fills the buffer nor decides the request is refused, however
      many reads follow. It does what the received bytes ask for exactly when they are malformed. */
  lemma ShortFirstRead(site: Site, q: RequestData, status: int, pieces: seq<string>)
    requires Fresh(q) && WithinBuffer(pieces) && pieces != []
    requires |pieces[0]| < BUFFER_SIZE && Parse(MethodStart, q, pieces[0]).result == Indeterminate
    ensures var s := Initial(q, status);
            var r, p := Run(site, s, Reads(pieces)), Parse(MethodStart, q, Flatten(pieces));
            EffectOf(r) == REFUSED && (EffectOf(r) == Expected(site, s, p) <==> p.result == Bad)
  {
    hide Handle, Serialize, StockReply, OnRead, Parse, Run, Flatten;
    var s, d := Initial(q, status), pieces[0];
    FirstReadExact(site, q, status, d);
    StopsAfter(site, s, [Received(d)]);
    StopsAfter(site, s, Reads(pieces));
  }

  /** A well-formed request that arrives in two reads reaches the handler exactly when the
      first read fills the 8192 bytes of the buffer; otherwise the 400 page is sent. */
  lemma SplitRequest(site: Site, q: RequestData, status: int, text: string, parsed: RequestData, k: nat)
    requires Fresh(q) && Accepted(q, text, parsed)
    requires k < |text| && k <= 8192 && |text| - k <= 8192
    ensures var r := Run(site, Initial(q, status), [Received(text[..k]), Received(text[k..])]);
            && (r.handled == 1 <==> k == 8192)
            && (k != 8192 ==> EffectOf(r) == REFUSED)
            && (k == 8192 ==> r.sent == [Serialize(Handle(site, parsed.uri, ReplyData(status, [], "")))])
  {
    var s := Initial(q, status);
    var a, b := text[..k], text[k..];
    assert a + b == text;
    StopsAtFirstDecidingByte(MethodStart, q, text, k, "");
    hide Parse, Handle, Serialize, StockReply, OnRead, Run;
    if k == BUFFER_SIZE {
      assert Flatten([a, b]) == text by {
        assert [a, b][1..] == [b] && [b][1..] == [];
        assert Flatten([b]) == b + Flatten([]) == b;
      }
      assert Reads([a, b]) == [Received(a), Received(b)];
      FullReadsRefine(site, s, [a, b]);
    } else {
      FirstReadExact(site, q, status, a);
      assert [Received(a)] + [Received(b)] == [Received(a), Received(b)];
      RunConcat(site, s, [Received(a)], [Received(b)]);
    }
  }
}
