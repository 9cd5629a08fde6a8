/** The response relay: one coroutine reads the upstream's headers and body and queues
    tasks on a bounded channel, another drains them in batches to the client. Every
    await is a step, taken in any order, with any number of octets read, any batch
    drained, reads abandoned by a lost race, and failures of either socket at any
    octet. */
module Relay {
  import opened Bytes
  import opened Framing
  import opened WriterModel
  import opened FramingChoice
  import opened Responding
  import opened UpstreamHead
  import R = ReaderModel
  import Runs = ReaderRuns

  const BUFFER_SIZE: nat := 32

  // octets: all that the upstream will send.
  datatype Exchange = Exchange(req: Request, parse: Parser, octets: seq<byte>)

  datatype Phase = AwaitingHeader | Relaying | Left

  // holding: the task read but not yet queued. Answered: the client side returned
  // Ok(true); Stopped: an error, or the other half failed.
  datatype Status = Running | Answered | Stopped

  // gathered: octets of a header in the buffer of the read under way. header: the
  // last one read.
  datatype Sys = Sys(phase: Phase, gathered: seq<byte>, header: Option<Response>, reader: R.Reader,
                     unread: seq<byte>, holding: Option<Task>, chan: seq<Task>, down: Down,
                     out: seq<byte>, status: Status)

  datatype Event =
    | ReadHeader(n: nat)          // n octets arrive, none at end of stream
    | ReadBody(n: nat)            // n octets arrive during the call
    | AbandonRead
    | Enqueue
    | Drain(k: nat)               // k tasks are taken and answered
    | DrainBroken(k: nat, j: nat) // the socket fails after j octets
    | RequestDone                 // an upgrade request's body ended: no more tasks are taken
    | Halt                        // either half fails, or the client leaves

  function Final(x: Exchange): Option<(Response, seq<byte>)> {
    Heard(x.parse, x.octets)
  }

  function TheMode(x: Exchange): Mode {
    if Final(x).Some? && WriteMode(x.req, Final(x).value.0).Some? then WriteMode(x.req, Final(x).value.0).value
    else ToEnd
  }

  // What the upstream's body means; no final response, no body.
  ghost function Source(x: Exchange): Decoded {
    match Final(x)
    case None => Decoded([], Truncated)
    case Some((_, body)) => Received(TheMode(x), body)
  }

  // The final response is no switch of protocols, and no interim one precedes the
  // answer to a HEAD request.
  ghost predicate ValidExchange(x: Exchange) {
    && Stable(x.parse)
    && (Final(x).Some? ==> !Informational(Final(x).value.0.status))
    && (x.req.head ==> !InterimFirst(x.parse, x.octets))
    && |Source(x).payload| < USIZE_LIMIT
  }

  function Init(x: Exchange): Sys {
    Sys(AwaitingHeader, [], None, R.Start, x.octets, None, [], Fresh(x.req), [], Running)
  }

  // set_response_body_reader, given the octets read past the header.
  function OpenReader(req: Request, resp: Response, reader: R.Reader, past: seq<byte>): R.Reader {
    if !reader.Start? then reader
    else match ReadMode(req, resp) case Some(m) => Opened(m, past) case None => R.Start
  }

  // read_upstream_response when a header was due.
  function HeaderRead(x: Exchange, s: Sys, n: nat): Sys
    requires n <= |s.unread|
  {
    var got, rest := s.gathered + s.unread[..n], s.unread[n..];
    if n == 0 then
      if s.gathered != [] then s.(gathered := [], holding := Some(Task.Failed))
      else if s.header.None? then s.(status := Stopped)
      else s.(holding := Some(Header(s.header.value, s.reader.Finished())))
    else
      var h := x.parse(got);
      if Recognised(h, got) then
        var reader := OpenReader(x.req, h.resp, s.reader, got[h.size..]);
        s.(gathered := [], unread := rest, header := Some(h.resp), reader := reader,
           holding := Some(Header(h.resp, reader.Finished())),
           phase := if Interim(h.resp) then AwaitingHeader else Relaying)
      else if h.Partial? && |got| <= MAX_BUFFER_SIZE then s.(gathered := got, unread := rest)
      else s.(gathered := [], unread := rest, holding := Some(Task.Failed))
  }

  // read_upstream_response after the header.
  function BodyTask(r: R.Reader, o: R.Outcome): Task {
    match o
    case Data(slice) => Body(Some(slice), r.Finished())
    case NoMore => Body(None, r.Finished())
    case Failed(_) => Task.Failed
  }

  predicate MayDeliver(s: Sys, n: nat) {
    && n <= |s.unread|
    && (n > 0 ==> s.reader.NeedsInput())
    && (s.reader.NeedsInput() && n == 0 ==> s.unread == [])
  }

  // The future of the read is dropped, and with it what only it held.
  function Abandoned(s: Sys): Sys {
    if s.phase == AwaitingHeader then s.(gathered := []) else s.(reader := Runs.Abandon(s.reader))
  }

  // The state after k tasks were answered.
  function Drained(s: Sys, k: nat): Sys
    requires k <= |s.chan|
  {
    var (d, sent, reply) := Respond(s.down, s.chan[..k]);
    s.(chan := s.chan[k..], down := d, out := s.out + sent,
       status := if reply == Go(true) then Answered else if reply == Stop then Stopped else Running)
  }

  predicate Next(x: Exchange, s: Sys, e: Event, s': Sys) {
    match e
    case ReadHeader(n) =>
      && s.phase == AwaitingHeader && s.holding.None? && s.status != Stopped
      && n <= |s.unread| && (n == 0 ==> s.unread == [])
      && s' == HeaderRead(x, s, n)
    case ReadBody(n) =>
      && s.phase == Relaying && s.holding.None? && !s.reader.Start?
      && if s.reader.Finished() then s' == s.(holding := Some(Task.Done))
         else
           && MayDeliver(s, n)
           && var (r, o) := R.Deliver(s.reader, s.unread[..n]);
              s' == s.(reader := r, unread := s.unread[n..], holding := Some(BodyTask(r, o)))
    case AbandonRead => s.phase != Left && s.holding.None? && s' == Abandoned(s)
    case Enqueue =>
      && s.holding.Some? && |s.chan| < BUFFER_SIZE
      && s' == s.(chan := s.chan + [s.holding.value], holding := None,
                  phase := if s.holding.value.IsEnd() then Left else s.phase)
    case Drain(k) =>
      && s.status == Running && 1 <= k <= |s.chan|
      && s' == Drained(s, k)
    case DrainBroken(k, j) =>
      && s.status == Running && 1 <= k <= |s.chan|
      && var (_, sent, _) := Respond(s.down, s.chan[..k]);
         && j <= |sent|
         && s' == s.(chan := s.chan[k..], out := s.out + sent[..j], status := Stopped)
    case RequestDone => x.req.upgrade && s.status == Running && s' == s.(status := Stopped)
    case Halt => s.status == Running && s' == s.(status := Stopped)
  }

  /** The steps that lose nothing: a read is abandoned only with no header octets in
      hand and where the body's reader survives it, and nothing arrives together with
      an interim header. */
  ghost predicate Calm(x: Exchange, s: Sys, e: Event) {
    match e
    case AbandonRead => if s.phase == AwaitingHeader then s.gathered == [] else Runs.Survives(s.reader)
    case ReadHeader(n) =>
      n <= |s.unread| ==>
        var got := s.gathered + s.unread[..n];
        InterimFirst(x.parse, got) ==> x.parse(got).size == |got|
    case _ => true
  }

  // ---- the invariant ----

  function Pipe(s: Sys): seq<Task> {
    s.chan + if s.holding.Some? then [s.holding.value] else []
  }

  predicate Live(s: Sys) {
    s.phase != Left && (s.holding.Some? ==> !s.holding.value.IsEnd())
  }

  // The header still to come is the one of the exchange.
  ghost predicate Listening(x: Exchange, s: Sys) {
    && Heard(x.parse, s.gathered + s.unread) == Final(x)
    && (s.gathered == [] || x.parse(s.gathered).Partial?)
    && s.reader == R.Start && (s.header.Some? ==> Interim(s.header.value))
    && (x.req.head ==> s.header.None? && !InterimFirst(x.parse, s.gathered + s.unread))
  }

  // What has been handed to the client side, what is queued and what is still to
  // be read make up the upstream's payload, in that order.
  ghost predicate Flow(x: Exchange, s: Sys, acc: seq<byte>) {
    Flows(x, s, acc + Payload(Pipe(s)))
  }

  ghost predicate Flows(x: Exchange, s: Sys, all: seq<byte>) {
    && (Live(s) && s.phase == AwaitingHeader ==> Listening(x, s) && all == [])
    && (Live(s) && s.phase == Relaying ==>
          && s.reader.Sound() && !s.reader.Start? && !s.reader.Done? && !s.reader.Finished()
          && s.reader.Rest(s.unread).Prepend(all) == Source(x))
    && all <= Source(x).payload
    && (!Live(s) && Pipe(s) != [] && !Pipe(s)[|Pipe(s)| - 1].Failed? ==>
          Source(x) == Decoded(all, Framing.Finished))
  }

  ghost predicate Queue(x: Exchange, s: Sys) {
    var started := !s.down.writer.Start?;
    && Conforming(x.req, TheMode(x), started, Pipe(s))
    && (s.phase == AwaitingHeader && Live(s) ==> !Opens(started, Pipe(s)))
    && (s.phase == Relaying && Live(s) ==> Opens(started, Pipe(s)))
    && (s.phase != Left ==> forall t :: t in s.chan ==> !t.IsEnd())
    && (s.phase == Left ==> s.holding.None? && s.chan != [])
    && (!Live(s) ==> Pipe(s) != [] && Pipe(s)[|Pipe(s)| - 1].IsEnd())
    && |s.chan| <= BUFFER_SIZE
  }

  // The header that opens the body; any interim one when there is none.
  function FinalHeader(x: Exchange): Response {
    match Final(x)
    case Some((resp, _)) => resp
    case None => Response(100, true, false, None)
  }

  ghost predicate ClientSafe(x: Exchange, s: Sys) {
    && Received(TheMode(x), s.out).payload <= Source(x).payload
    && (s.status == Answered ==>
          && Received(TheMode(x), s.out) == Source(x) && Source(x).ending == Framing.Finished
          && Final(x).Some? && s.down.header == Some(Final(x).value.0))
  }

  ghost predicate Inv(x: Exchange, s: Sys, acc: seq<byte>) {
    && ClientSafe(x, s)
    && (s.status == Running ==>
          && Flow(x, s, acc) && Queue(x, s) && s.down.req == x.req
          && Heads(FinalHeader(x), Pipe(s)) && SentOnly(FinalHeader(x), s.down)
          && Tracks(TheMode(x), !s.down.writer.Start?, s.down, acc, s.out))
  }

  // ---- base case ----

  lemma OpenedRest(mode: Mode, got: seq<byte>, rest: seq<byte>)
    ensures Opened(mode, got).Rest(rest) == Received(mode, got + rest)
    ensures Opened(mode, got).Sound()
  {
    assert [] + (got + rest) == got + rest;
  }

  lemma InitInv(x: Exchange)
    requires ValidExchange(x)
    ensures Inv(x, Init(x), [])
  {
    NothingReceived(TheMode(x));
    assert Payload(Pipe(Init(x))) == [];
    assert [] + x.octets == x.octets;
  }

  // ---- sequence facts ----

  lemma {:induction false} ConformingAppend(req: Request, mode: Mode, started: bool, a: seq<Task>, t: Task)
    requires Conforming(req, mode, started, a) && Opens(started, a)
    requires forall u :: u in a ==> !u.IsEnd()
    requires !t.Header?
    ensures Conforming(req, mode, started, a + [t])
    ensures Opens(started, a + [t])
    decreases |a|
  {
    if a == [] {
      assert (a + [t]) == [t] && [t][1..] == [];
    } else {
      assert (a + [t])[0] == a[0] && (a + [t])[1..] == a[1..] + [t];
      ConformingAppend(req, mode, After(started, a[0]), a[1..], t);
    }
  }

  lemma {:induction false} OpensJoin(started: bool, a: seq<Task>, b: seq<Task>)
    ensures Opens(started, a + b) == Opens(Opens(started, a), b)
    decreases |a|
  {
    if a == [] {
      assert a + b == b;
    } else {
      assert (a + b)[0] == a[0] && (a + b)[1..] == a[1..] + b;
      OpensJoin(After(started, a[0]), a[1..], b);
    }
  }

  lemma PayloadOne(a: seq<Task>, t: Task)
    ensures Payload(a + [t]) == Payload(a) + t.Octets()
    decreases |a|
  {
    if a == [] {
      assert a + [t] == [t] && [t][1..] == [];
    } else {
      assert (a + [t])[0] == a[0] && (a + [t])[1..] == a[1..] + [t];
      PayloadOne(a[1..], t);
    }
  }

  // ---- steps ----

  lemma {:induction false} ConformingHeader(req: Request, mode: Mode, started: bool, a: seq<Task>, resp: Response,
                                            end: bool)
    requires Conforming(req, mode, started, a) && !Opens(started, a)
    requires forall u :: u in a ==> !u.IsEnd()
    requires if Interim(resp) then !end else WriteMode(req, resp) == Some(mode) && !Ignored(req, resp)
    ensures Conforming(req, mode, started, a + [Header(resp, end)])
    ensures Opens(started, a + [Header(resp, end)]) == !Interim(resp)
    decreases |a|
  {
    var t := Header(resp, end);
    if a == [] {
      assert a + [t] == [t] && [t][1..] == [] && Opens(After(started, t), []) == After(started, t);
    } else {
      assert (a + [t])[0] == a[0] && (a + [t])[1..] == a[1..] + [t];
      ConformingHeader(req, mode, After(started, a[0]), a[1..], resp, end);
    }
  }

  lemma {:induction false} ConformingFailed(req: Request, mode: Mode, started: bool, a: seq<Task>)
    requires Conforming(req, mode, started, a)
    requires forall u :: u in a ==> !u.IsEnd()
    ensures Conforming(req, mode, started, a + [Task.Failed])
    decreases |a|
  {
    var t := Task.Failed;
    if a == [] {
      assert a + [t] == [t] && [t][1..] == [];
    } else {
      assert (a + [t])[0] == a[0] && (a + [t])[1..] == a[1..] + [t];
      ConformingFailed(req, mode, After(started, a[0]), a[1..]);
    }
  }

  // What a header read leaves behind it, the header t in hand.
  ghost predicate Introduced(x: Exchange, s: Sys, t: Task) {
    && t.Header?
    && (Interim(t.resp) ==> !t.end && s.phase == AwaitingHeader && Listening(x, s))
    && (!Interim(t.resp) ==>
          && s.phase == Relaying && Final(x).Some? && t.resp == Final(x).value.0
          && t.end == s.reader.Finished() && !s.reader.Start? && !s.reader.Done?
          && s.reader.Sound() && s.reader.Rest(s.unread) == Source(x))
  }

  ghost predicate SameElse(s: Sys, s': Sys) {
    s'.chan == s.chan && s'.down == s.down && s'.out == s.out
  }

  lemma HeaderFrame(x: Exchange, s: Sys, n: nat)
    requires n <= |s.unread|
    ensures SameElse(s, HeaderRead(x, s, n))
    ensures HeaderRead(x, s, n).holding.None? || HeaderRead(x, s, n).holding.value.Header?
         || HeaderRead(x, s, n).holding == Some(Task.Failed) || HeaderRead(x, s, n).holding == s.holding
    ensures HeaderRead(x, s, n).status == s.status || HeaderRead(x, s, n).status == Stopped
    ensures HeaderRead(x, s, n).holding == Some(Task.Failed) && s.holding.None? ==> HeaderRead(x, s, n).phase == s.phase
  {
  }

  // The whole header is in hand.
  lemma HeaderHeard(x: Exchange, s: Sys, n: nat)
    requires ValidExchange(x) && Listening(x, s) && s.phase == AwaitingHeader && s.holding.None?
    requires 0 < n <= |s.unread| && Recognised(x.parse(s.gathered + s.unread[..n]), s.gathered + s.unread[..n])
    requires Calm(x, s, ReadHeader(n))
    ensures var s' := HeaderRead(x, s, n); s'.holding.Some? && Introduced(x, s', s'.holding.value)
  {
    var (got, rest) := (s.gathered + s.unread[..n], s.unread[n..]);
    assert s.gathered + s.unread == got + rest;
    HeardSoFar(x.parse, got, rest);
    var h := x.parse(got);
    hide Heard, Stable, Received;
    if Interim(h.resp) {
      assert got[h.size..] + rest == rest && [] + rest == rest;
    } else {
      FinalHeard(x, h, got, rest);
    }
  }

  lemma FinalHeard(x: Exchange, h: Head, got: seq<byte>, rest: seq<byte>)
    requires ValidExchange(x) && h.Complete? && h.size <= |got| && Final(x) == Some((h.resp, got[h.size..] + rest))
    ensures var r := OpenReader(x.req, h.resp, R.Start, got[h.size..]);
      !r.Start? && !r.Done? && r.Sound() && r.Rest(rest) == Source(x)
  {
    ModesAgreeExactly(x.req, h.resp);
    OpenedRest(TheMode(x), got[h.size..], rest);
    hide Heard, Received;
  }

  lemma HeaderFlow(x: Exchange, s: Sys, n: nat)
    requires ValidExchange(x) && Listening(x, s) && s.phase == AwaitingHeader && s.holding.None? && s.status == Running
    requires n <= |s.unread| && Calm(x, s, ReadHeader(n))
    ensures var s' := HeaderRead(x, s, n);
      s'.holding.Some? && s'.holding.value.Header? ==> Introduced(x, s', s'.holding.value)
  {
    if n > 0 && Recognised(x.parse(s.gathered + s.unread[..n]), s.gathered + s.unread[..n]) {
      HeaderHeard(x, s, n);
    }
    hide Heard, Stable, Source;
  }

  lemma HeaderPartial(x: Exchange, s: Sys, n: nat)
    requires Listening(x, s) && s.phase == AwaitingHeader && s.holding.None? && s.status == Running
    requires n <= |s.unread|
    ensures var s' := HeaderRead(x, s, n);
      s'.holding.None? && s'.status == Running ==> Listening(x, s') && s'.phase == AwaitingHeader
  {
    hide Heard;
    if n > 0 {
      assert s.gathered + s.unread == s.gathered + s.unread[..n] + s.unread[n..];
    }
  }

  lemma HoldFlow(x: Exchange, s: Sys, s': Sys, t: Task, acc: seq<byte>)
    requires Flow(x, s, acc) && s.phase == AwaitingHeader && s.holding.None?
    requires SameElse(s, s') && s'.holding == Some(t) && Introduced(x, s', t)
    ensures Flow(x, s', acc)
  {
    assert Pipe(s) == s.chan && Pipe(s') == s.chan + [t];
    PayloadOne(s.chan, t);
    hide Listening, Source, Payload;
    assert acc + (Payload(s.chan) + []) == acc + Payload(s.chan);
    if !Interim(t.resp) {
      var d := Source(x);
      assert [] + d.payload == d.payload;
      assert s'.reader.Finished() ==> s'.reader.Rest(s'.unread) == Decoded([], Framing.Finished);
    }
  }

  lemma HoldQueue(x: Exchange, s: Sys, s': Sys, t: Task)
    requires ValidExchange(x) && Queue(x, s) && s.phase == AwaitingHeader && s.holding.None?
    requires SameElse(s, s') && s'.holding == Some(t) && Introduced(x, s', t)
    ensures Queue(x, s')
  {
    hide Listening, Source;
    assert Pipe(s) == s.chan && Pipe(s') == s.chan + [t];
    ModesAgreeExactly(x.req, t.resp);
    ConformingHeader(x.req, TheMode(x), !s.down.writer.Start?, s.chan, t.resp, t.end);
  }

  lemma HoldFailed(x: Exchange, s: Sys, s': Sys, acc: seq<byte>)
    requires Flow(x, s, acc) && Queue(x, s) && s.phase == AwaitingHeader && s.holding.None?
    requires SameElse(s, s') && s'.holding == Some(Task.Failed) && s'.phase == s.phase
    ensures Flow(x, s', acc) && Queue(x, s')
  {
    hide Listening, Source;
    assert Pipe(s) == s.chan && Pipe(s') == s.chan + [Task.Failed];
    PayloadOne(s.chan, Task.Failed);
    assert acc + (Payload(s.chan) + []) == acc + Payload(s.chan);
    ConformingFailed(x.req, TheMode(x), !s.down.writer.Start?, s.chan);
  }

  lemma HoldNothing(x: Exchange, s: Sys, s': Sys, acc: seq<byte>)
    requires Flow(x, s, acc) && Queue(x, s) && s.phase == AwaitingHeader && s.holding.None?
    requires SameElse(s, s') && s'.holding.None? && s'.phase == s.phase && Listening(x, s')
    ensures Flow(x, s', acc) && Queue(x, s')
  {
    assert Pipe(s') == Pipe(s);
  }

  lemma ReadHeaderKeeps(x: Exchange, s: Sys, n: nat, s': Sys, acc: seq<byte>)
    requires ValidExchange(x) && Inv(x, s, acc) && Next(x, s, ReadHeader(n), s') && Calm(x, s, ReadHeader(n))
    ensures Inv(x, s', acc)
  {
    HeaderFrame(x, s, n);
    hide HeaderRead, Source, Calm, Received;
    if s.status == Running && s'.status == Running {
      assert Pipe(s) == s.chan && Listening(x, s);
      HeaderPartial(x, s, n);
      HeaderFlow(x, s, n);
      hide Flow, Queue, Listening, Tracks;
      if s'.holding.None? {
        HoldNothing(x, s, s', acc);
      } else if s'.holding.value.Header? {
        var t := s'.holding.value;
        HoldFlow(x, s, s', t, acc);
        HoldQueue(x, s, s', t);
        assert Pipe(s') == s.chan + [t];
      } else {
        HoldFailed(x, s, s', acc);
      }
    }
  }

  // One read against what had been read before it.
  lemma ReadExtends(r: R.Reader, got: seq<byte>, rest: seq<byte>, all: seq<byte>, source: Decoded)
    requires !r.Start? && !r.Done? && r.Sound() && (got != [] ==> r.NeedsInput())
    requires r.NeedsInput() && got == [] ==> rest == []
    requires r.Rest(got + rest).Prepend(all) == source
    ensures var (r', o) := R.Deliver(r, got); var t := BodyTask(r', o); var all' := all + t.Octets();
      && all' <= source.payload && !r'.Start?
      && (o.Data? ==> r'.Sound() && !r'.Done? && r'.Rest(rest).Prepend(all') == source)
      && (t.IsEnd() && !t.Failed? ==> source == Decoded(all', Framing.Finished))
      && (o.NoMore? ==> t.IsEnd())
  {
    R.DeliverAccounts(r, got, rest);
    var (r', o) := R.Deliver(r, got);
    if o.Data? {
      var d := r'.Rest(rest);
      assert all + (o.slice + d.payload) == all + o.slice + d.payload;
      assert r'.Completed? ==> all + o.slice + [] == all + o.slice;
    } else {
      assert all + [] == all;
    }
  }

  lemma ReadBodyFlow(x: Exchange, s: Sys, n: nat, s': Sys, acc: seq<byte>)
    requires Flow(x, s, acc) && Live(s) && Next(x, s, ReadBody(n), s') && s.status == Running
    ensures Flow(x, s', acc)
    ensures !s'.holding.value.Header? && (!Live(s') <==> s'.holding.value.IsEnd())
  {
    hide Source, R.Deliver;
    var got, rest := s.unread[..n], s.unread[n..];
    assert got + rest == s.unread;
    var (r, o) := R.Deliver(s.reader, got);
    var t := BodyTask(r, o);
    assert Pipe(s) == s.chan && Pipe(s') == s.chan + [t];
    PayloadOne(s.chan, t);
    assert acc + (Payload(s.chan) + t.Octets()) == acc + Payload(s.chan) + t.Octets();
    ReadExtends(s.reader, got, rest, acc + Payload(s.chan), Source(x));
  }

  lemma ReadBodyKeeps(x: Exchange, s: Sys, n: nat, s': Sys, acc: seq<byte>)
    requires Inv(x, s, acc) && Next(x, s, ReadBody(n), s')
    ensures Inv(x, s', acc)
  {
    if s.status == Running {
      ReadBodyFlow(x, s, n, s', acc);
      assert Pipe(s) == s.chan && Pipe(s') == s.chan + [s'.holding.value];
      ConformingAppend(x.req, TheMode(x), !s.down.writer.Start?, s.chan, s'.holding.value);
    }
  }

  lemma EnqueueKeeps(x: Exchange, s: Sys, s': Sys, acc: seq<byte>)
    requires Inv(x, s, acc) && Next(x, s, Enqueue, s')
    ensures Inv(x, s', acc)
  {
    assert Pipe(s') == Pipe(s);
  }

  // What draining k tasks does to the queue and to the flow through it.
  lemma DrainMoves(x: Exchange, s: Sys, k: nat, s': Sys, acc: seq<byte>)
    requires Flow(x, s, acc) && Queue(x, s) && 1 <= k <= |s.chan|
    requires s' == s.(chan := s.chan[k..], down := s'.down, out := s'.out, status := s'.status)
    requires !s'.down.writer.Start? == Opens(!s.down.writer.Start?, s.chan[..k])
    requires !s.chan[k - 1].IsEnd()
    ensures Flow(x, s', acc + Payload(s.chan[..k])) && Queue(x, s')
  {
    assert Pipe(s) == s.chan[..k] + Pipe(s');
    DrainFlow(x, s, s', s.chan[..k], acc);
    DrainQueue(x, s, k, s');
  }

  lemma DrainFlow(x: Exchange, s: Sys, s': Sys, a: seq<Task>, acc: seq<byte>)
    requires Flow(x, s, acc) && Pipe(s) == a + Pipe(s') && a != [] && !a[|a| - 1].IsEnd()
    requires s' == s.(chan := s'.chan, down := s'.down, out := s'.out, status := s'.status)
    ensures Flow(x, s', acc + Payload(a))
  {
    hide Flows, Payload, Pipe;
    var b := Pipe(s');
    PayloadJoin(a, b);
    Reassociate(acc, Payload(a), Payload(b));
    LastOf(a, b);
    FlowsOn(x, s, s', acc + Payload(Pipe(s)));
  }

  lemma Reassociate(a: seq<byte>, b: seq<byte>, c: seq<byte>)
    ensures a + b + c == a + (b + c)
  {
  }

  lemma LastOf(a: seq<Task>, b: seq<Task>)
    ensures b != [] ==> a + b != [] && (a + b)[|a + b| - 1] == b[|b| - 1]
  {
  }

  // Draining leaves what is to come as it was.
  lemma FlowsOn(x: Exchange, s: Sys, s': Sys, all: seq<byte>)
    requires Flows(x, s, all)
    requires s' == s.(chan := s'.chan, down := s'.down, out := s'.out, status := s'.status)
    requires Pipe(s') != [] ==> Pipe(s) != [] && Pipe(s')[|Pipe(s')| - 1] == Pipe(s)[|Pipe(s)| - 1]
    ensures Flows(x, s', all)
  {
    hide Source, Received, Heard;
  }

  lemma DrainQueue(x: Exchange, s: Sys, k: nat, s': Sys)
    requires Queue(x, s) && 1 <= k <= |s.chan|
    requires s' == s.(chan := s.chan[k..], down := s'.down, out := s'.out, status := s'.status)
    requires !s'.down.writer.Start? == Opens(!s.down.writer.Start?, s.chan[..k])
    requires !s.chan[k - 1].IsEnd()
    ensures Queue(x, s')
  {
    var a, b := s.chan[..k], Pipe(s');
    assert Pipe(s) == a + b;
    ConformingSplit(x.req, TheMode(x), !s.down.writer.Start?, a, b);
    OpensJoin(!s.down.writer.Start?, a, b);
    if b != [] {
      assert b[|b| - 1] == Pipe(s)[|Pipe(s)| - 1];
    } else {
      assert Pipe(s) == a;
      assert Conforming(x.req, TheMode(x), !s'.down.writer.Start?, b);
    }
  }

  // How the drained tasks are answered.
  lemma DrainAnswers(x: Exchange, s: Sys, k: nat, acc: seq<byte>)
    requires ValidExchange(x) && Flow(x, s, acc) && Queue(x, s) && 1 <= k <= |s.chan|
    requires s.down.req == x.req && Tracks(TheMode(x), !s.down.writer.Start?, s.down, acc, s.out)
    ensures var (d, sent, reply) := Respond(s.down, s.chan[..k]);
      && d.req == x.req
      && Received(TheMode(x), s.out + sent).payload <= Source(x).payload
      && (reply == Go(true) ==>
            Received(TheMode(x), s.out + sent) == Source(x) && Source(x).ending == Framing.Finished && FinalSent(d))
      && (reply == Go(false) <==> !s.chan[k - 1].IsEnd())
      && (reply == Go(false) ==>
            Tracks(TheMode(x), Opens(!s.down.writer.Start?, s.chan[..k]), d, acc + Payload(s.chan[..k]), s.out + sent))
  {
    hide Source, Received, Respond, Conforming;
    var mode, started := TheMode(x), !s.down.writer.Start?;
    var a := s.chan[..k];
    DrainedPart(x, s, k, acc);
    RespondTracks(mode, started, s.down, acc, s.out, a);
    CappedWithin(x, acc + Payload(a));
  }

  lemma DrainedPart(x: Exchange, s: Sys, k: nat, acc: seq<byte>)
    requires Flow(x, s, acc) && Queue(x, s) && 1 <= k <= |s.chan|
    ensures var a := s.chan[..k]; var all := acc + Payload(a);
      && Conforming(x.req, TheMode(x), !s.down.writer.Start?, a)
      && all <= Source(x).payload
      && (a[k - 1].IsEnd() && !a[k - 1].Failed? ==> Source(x) == Decoded(all, Framing.Finished))
      && (TheMode(x).Length? && Source(x).ending == Framing.Finished ==> |Source(x).payload| == TheMode(x).n)
  {
    hide Source, TheMode, Final;
    var a, b := s.chan[..k], Pipe(s)[k..];
    assert Pipe(s) == a + b;
    ConformingSplit(x.req, TheMode(x), !s.down.writer.Start?, a, b);
    if a[k - 1].IsEnd() {
      assert Pipe(s) == a;
    }
    FlowedPart(x, s, a, b, acc);
    WholeLength(x);
    hide Flow, Conforming;
  }

  lemma FlowedPart(x: Exchange, s: Sys, a: seq<Task>, b: seq<Task>, acc: seq<byte>)
    requires Flow(x, s, acc) && Pipe(s) == a + b
    ensures acc + Payload(a) <= Source(x).payload
    ensures Pipe(s) == a && !Live(s) && a != [] && !a[|a| - 1].Failed? ==>
      Source(x) == Decoded(acc + Payload(a), Framing.Finished)
  {
    hide Source, Pipe, Payload;
    PayloadJoin(a, b);
    Reassociate(acc, Payload(a), Payload(b));
  }

  lemma DrainKeeps(x: Exchange, s: Sys, k: nat, s': Sys, acc: seq<byte>) returns (acc': seq<byte>)
    requires ValidExchange(x) && Inv(x, s, acc) && Next(x, s, Drain(k), s')
    ensures Inv(x, s', acc')
  {
    hide Source, Received, Respond, Conforming, Heads, SentOnly, Flow, Queue, Tracks;
    acc' := acc + Payload(s.chan[..k]);
    DrainAnswers(x, s, k, acc);
    DrainHeads(x, s, k);
    if !s.chan[k - 1].IsEnd() {
      TracksStarted(TheMode(x), Opens(!s.down.writer.Start?, s.chan[..k]), s'.down, acc', s'.out);
      DrainMoves(x, s, k, s', acc);
    }
  }

  lemma DrainHeads(x: Exchange, s: Sys, k: nat)
    requires Heads(FinalHeader(x), Pipe(s)) && SentOnly(FinalHeader(x), s.down) && 1 <= k <= |s.chan|
    ensures SentOnly(FinalHeader(x), Respond(s.down, s.chan[..k]).0)
    ensures Heads(FinalHeader(x), s.chan[k..] + if s.holding.Some? then [s.holding.value] else [])
  {
    var (a, b) := (s.chan[..k], s.chan[k..] + if s.holding.Some? then [s.holding.value] else []);
    assert Pipe(s) == a + b;
    assert forall t :: t in a || t in b ==> t in Pipe(s);
    RespondHeads(FinalHeader(x), s.down, a);
  }

  lemma TracksStarted(mode: Mode, started: bool, d: Down, acc: seq<byte>, out: seq<byte>)
    requires Tracks(mode, started, d, acc, out)
    ensures started == !d.writer.Start?
  {
  }

  // The payload never exceeds what the announced length lets through.
  lemma CappedWithin(x: Exchange, acc: seq<byte>)
    requires acc <= Source(x).payload
    ensures Capped(TheMode(x), acc) == acc
  {
    if TheMode(x).Length? {
      assert |Source(x).payload| <= TheMode(x).n;
      assert acc[..|acc|] == acc;
    }
  }

  lemma WholeLength(x: Exchange)
    ensures TheMode(x).Length? && Source(x).ending == Framing.Finished ==>
      |Source(x).payload| == TheMode(x).n
  {
  }

  lemma DrainBrokenKeeps(x: Exchange, s: Sys, k: nat, j: nat, s': Sys, acc: seq<byte>)
    requires ValidExchange(x) && Inv(x, s, acc) && Next(x, s, DrainBroken(k, j), s')
    ensures Inv(x, s', acc)
  {
    hide Flow, Queue, Tracks, Source, Received, Respond, Conforming, Heads, SentOnly;
    DrainAnswers(x, s, k, acc);
    var sent := Respond(s.down, s.chan[..k]).1;
    assert s.out + sent == s.out + sent[..j] + sent[j..];
    BrokenSafe(x, s.out + sent, s'.out, sent[j..]);
  }

  lemma BrokenSafe(x: Exchange, full: seq<byte>, out: seq<byte>, rest: seq<byte>)
    requires Received(TheMode(x), full).payload <= Source(x).payload && full == out + rest
    ensures Received(TheMode(x), out).payload <= Source(x).payload
  {
    ReceivedExtends(TheMode(x), out, rest);
  }

  lemma AbandonReadKeeps(x: Exchange, s: Sys, s': Sys, acc: seq<byte>)
    requires Inv(x, s, acc) && Next(x, s, AbandonRead, s') && Calm(x, s, AbandonRead)
    ensures Inv(x, s', acc)
  {
    assert Pipe(s') == Pipe(s);
    if s.status == Running && s.phase == Relaying {
      Runs.AbandonKeeps(s.reader, s.unread);
    }
  }

  /** Every calm step keeps the invariant. */
  lemma StepKeeps(x: Exchange, s: Sys, e: Event, s': Sys, acc: seq<byte>) returns (acc': seq<byte>)
    requires ValidExchange(x) && Inv(x, s, acc) && Next(x, s, e, s') && Calm(x, s, e)
    ensures Inv(x, s', acc')
  {
    acc' := acc;
    match e
    case ReadHeader(n) => ReadHeaderKeeps(x, s, n, s', acc);
    case ReadBody(n) => ReadBodyKeeps(x, s, n, s', acc);
    case AbandonRead => AbandonReadKeeps(x, s, s', acc);
    case Enqueue => EnqueueKeeps(x, s, s', acc);
    case Drain(k) => acc' := DrainKeeps(x, s, k, s', acc);
    case DrainBroken(k, j) => DrainBrokenKeeps(x, s, k, j, s', acc);
    case RequestDone =>
    case Halt =>
  }

  // ---- whole runs ----

  predicate Run(x: Exchange, states: seq<Sys>, events: seq<Event>) {
    && |states| == |events| + 1
    && states[0] == Init(x)
    && forall i :: 0 <= i < |events| ==> Next(x, states[i], events[i], states[i + 1])
  }

  lemma {:induction false} RunInv(x: Exchange, states: seq<Sys>, events: seq<Event>, i: nat) returns (acc: seq<byte>)
    requires ValidExchange(x) && Run(x, states, events) && i < |states|
    requires forall k :: 0 <= k < |events| ==> Calm(x, states[k], events[k])
    ensures Inv(x, states[i], acc)
  {
    if i == 0 {
      InitInv(x);
      acc := [];
    } else {
      acc := RunInv(x, states, events, i - 1);
      acc := StepKeeps(x, states[i - 1], events[i - 1], states[i], acc);
    }
  }

  /** In every state of every run, whatever first part of the octets the client has
      received decodes to a first part of the upstream's payload; and when the client
      side answers Ok(true), the client was sent the upstream's final header, the
      upstream's body was whole and the client decodes exactly it, end included. */
  lemma RelaySafe(x: Exchange, states: seq<Sys>, events: seq<Event>, i: nat, j: nat)
    requires ValidExchange(x) && Run(x, states, events) && i < |states| && j <= |states[i].out|
    requires forall k :: 0 <= k < |events| ==> Calm(x, states[k], events[k])
    ensures Received(TheMode(x), states[i].out[..j]).payload <= Source(x).payload
    ensures states[i].status == Answered ==>
      && Final(x).Some? && states[i].down.header == Some(Final(x).value.0)
      && Received(TheMode(x), states[i].out) == Received(TheMode(x), Final(x).value.1)
      && Received(TheMode(x), Final(x).value.1).ending == Framing.Finished
    ensures |states[i].chan| <= BUFFER_SIZE || states[i].status != Running
  {
    var acc := RunInv(x, states, events, i);
    var out := states[i].out;
    assert out[..j] + out[j..] == out;
    ReceivedExtends(TheMode(x), out[..j], out[j..]);
  }
}
