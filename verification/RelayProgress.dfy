/** The response relay gets to its end: when the upstream's body is whole and
    nothing fails, the two coroutines and their bounded channel never block each
    other for good, and the client side answers Ok(true) after a bounded number of
    steps, in whatever order they are taken. */
module RelayProgress {
  import opened Bytes
  import opened Framing
  import opened WriterModel
  import opened FramingChoice
  import opened Responding
  import opened Relay
  import opened UpstreamHead
  import R = ReaderModel
  import Runs = ReaderRuns

  // The upstream sends a final response with a whole body, its headers and chunk heads
  // within the limits; the request is no upgrade, whose end would end the relay.
  ghost predicate WholeExchange(x: Exchange) {
    && ValidExchange(x) && !x.req.upgrade
    && Final(x).Some? && HeadersFit(x.parse, x.octets)
    && Runs.Completable(Opened(TheMode(x), []), Final(x).value.1)
  }

  // No socket fails, nothing is cancelled, and what is lost to a race is harmless.
  ghost predicate Smooth(x: Exchange, s: Sys, e: Event) {
    !e.Halt? && !e.DrainBroken? && Calm(x, s, e)
  }

  // A lost read is taken up again where it was; every other step does something.
  predicate Productive(e: Event) {
    !e.AbandonRead?
  }

  ghost predicate Good(x: Exchange, s: Sys) {
    match s.status
    case Running =>
      && (Live(s) && s.phase == AwaitingHeader ==> HeadersFit(x.parse, s.gathered + s.unread))
      && (Live(s) && s.phase == Relaying ==> Runs.Completable(s.reader, s.unread))
      && forall t :: t in Pipe(s) ==> !t.Failed?
    case Answered => s.phase == Left && s.holding.None?
    case Stopped => false
  }

  function Work(s: Sys): nat {
    3 * Runs.Fuel(s.reader, s.unread) + if s.phase == AwaitingHeader then 6 * |s.unread| + 3 else 0
  }

  function Measure(s: Sys): nat {
    Work(s) + (if s.holding.Some? then 2 else 0) + |s.chan|
  }

  // ---- one step ----

  // Where the reader opens makes no difference to what it can complete.
  lemma OpenedAnywhere(mode: Mode, past: seq<byte>, rest: seq<byte>)
    requires Runs.Completable(Opened(mode, []), past + rest)
    ensures Runs.Completable(Opened(mode, past), rest)
    ensures Runs.Fuel(Opened(mode, past), rest) <= 2 + 2 * |rest| + |past|
  {
    assert [] + (past + rest) == past + rest;
  }

  // What has arrived of a header that will be complete is a header or part of one.
  lemma HeaderComing(x: Exchange, got: seq<byte>, rest: seq<byte>)
    requires Stable(x.parse) && Heard(x.parse, got + rest).Some? && HeadersFit(x.parse, got + rest)
    ensures x.parse(got).Partial? ==> |got| <= MAX_BUFFER_SIZE && rest != []
    ensures !x.parse(got).Partial? ==> Recognised(x.parse(got), got)
    ensures InterimFirst(x.parse, got) && x.parse(got).size == |got| ==> HeadersFit(x.parse, rest)
  {
    var (all, h) := (got + rest, x.parse(got + rest));
    assert all[..|got|] == got;
    assert rest == [] ==> all == got;
    if InterimFirst(x.parse, got) && x.parse(got).size == |got| {
      HeardSoFar(x.parse, got, rest);
      assert all[h.size..] == rest;
    }
    hide Heard;
  }

  lemma ReadHeaderGood(x: Exchange, s: Sys, n: nat, s': Sys, acc: seq<byte>)
    requires WholeExchange(x) && Inv(x, s, acc) && Good(x, s) && s.status == Running
    requires Next(x, s, ReadHeader(n), s') && Calm(x, s, ReadHeader(n))
    ensures Good(x, s') && Measure(s') < Measure(s)
  {
    hide Source, Queue, Tracks, Received, Heard, HeadersFit, Stable, Heads, SentOnly;
    var (got, rest) := (s.gathered + s.unread[..n], s.unread[n..]);
    assert s.gathered + s.unread == got + rest;
    HeaderComing(x, got, rest);
    assert n == 0 ==> got == s.gathered;
    if n == 0 {
      assert false;
    }
    assert Pipe(s) == s.chan && Pipe(s') == s.chan + if s'.holding.Some? then [s'.holding.value] else [];
    if Recognised(x.parse(got), got) {
      HeardSoFar(x.parse, got, rest);
      HeaderIn(x, s, n);
      HeardNow(x.parse, s.gathered, got);
      ReaderReady(x, s, n);
    }
  }

  lemma HeaderIn(x: Exchange, s: Sys, n: nat)
    requires 0 < n <= |s.unread|
    requires Recognised(x.parse(s.gathered + s.unread[..n]), s.gathered + s.unread[..n])
    ensures HeaderRead(x, s, n).holding.Some? && HeaderRead(x, s, n).holding.value.Header?
  {
  }

  lemma ReaderReady(x: Exchange, s: Sys, n: nat)
    requires WholeExchange(x) && s.reader.Start? && 0 < n <= |s.unread|
    requires Heard(x.parse, s.gathered + s.unread) == Final(x)
    requires var got := s.gathered + s.unread[..n];
      && Recognised(x.parse(got), got) && x.parse(got).size > |s.gathered|
      && got + s.unread[n..] == s.gathered + s.unread
    ensures var s' := HeaderRead(x, s, n);
      s'.phase == Relaying ==>
        Runs.Completable(s'.reader, s'.unread) && 3 * Runs.Fuel(s'.reader, s'.unread) < 6 * |s.unread| + 1
  {
    var (got, rest) := (s.gathered + s.unread[..n], s.unread[n..]);
    var h := x.parse(got);
    HeardSoFar(x.parse, got, rest);
    if !Interim(h.resp) {
      ModesAgreeExactly(x.req, h.resp);
      OpenedAnywhere(TheMode(x), got[h.size..], rest);
    }
    hide Heard, Runs.Completable, Runs.Fuel;
  }

  lemma ReadBodyGood(x: Exchange, s: Sys, n: nat, s': Sys, acc: seq<byte>)
    requires Inv(x, s, acc) && Good(x, s) && Next(x, s, ReadBody(n), s') && s.status == Running
    ensures Good(x, s') && Measure(s') < Measure(s)
  {
    var got, rest := s.unread[..n], s.unread[n..];
    assert s.unread == got + rest;
    Runs.DeliverProgress(s.reader, got, rest);
    R.DeliverAccounts(s.reader, got, rest);
    assert Pipe(s) == s.chan && Pipe(s') == s.chan + [s'.holding.value];
  }

  lemma EnqueueGood(x: Exchange, s: Sys, s': Sys, acc: seq<byte>)
    requires Inv(x, s, acc) && Good(x, s) && Next(x, s, Enqueue, s') && s.status == Running
    ensures Good(x, s') && Measure(s') < Measure(s)
  {
    assert Pipe(s') == Pipe(s);
  }

  /** A batch that ends the body is answered Ok(true): the writer was given all that
      the announced length asks for. */
  lemma DrainVerdict(x: Exchange, s: Sys, k: nat, acc: seq<byte>)
    requires ValidExchange(x) && Inv(x, s, acc) && s.status == Running && Good(x, s)
    requires 1 <= k <= |s.chan|
    ensures Respond(s.down, s.chan[..k]).2 == Go(s.chan[k - 1].IsEnd())
  {
    hide Source, Received, Respond, Conforming, Listening, Runs.Completable, HeadersFit;
    var mode, started := TheMode(x), !s.down.writer.Start?;
    var a := s.chan[..k];
    DrainedPart(x, s, k, acc);
    RespondTracks(mode, started, s.down, acc, s.out, a);
    NotFailed(s, k);
    hide Tracks, Flow, Queue, Payload;
  }

  lemma NotFailed(s: Sys, k: nat)
    requires 1 <= k <= |s.chan| && forall t :: t in Pipe(s) ==> !t.Failed?
    ensures !s.chan[..k][k - 1].Failed?
    ensures forall t :: t in s.chan[k..] + (if s.holding.Some? then [s.holding.value] else []) ==> !t.Failed?
  {
    var b := s.chan[k..] + if s.holding.Some? then [s.holding.value] else [];
    assert Pipe(s) == s.chan[..k] + b;
    assert s.chan[..k][k - 1] in Pipe(s);
    forall t | t in b ensures !t.Failed? {
      assert t in Pipe(s);
    }
  }

  // Only a queue whose reader has left ends.
  lemma EndLeft(x: Exchange, s: Sys, k: nat)
    requires Queue(x, s) && 1 <= k <= |s.chan| && s.chan[k - 1].IsEnd()
    ensures s.phase == Left && s.holding.None?
  {
    assert s.chan[k - 1] in s.chan;
  }

  lemma DrainGood(x: Exchange, s: Sys, k: nat, s': Sys, acc: seq<byte>)
    requires ValidExchange(x) && Inv(x, s, acc) && Good(x, s) && Next(x, s, Drain(k), s')
    ensures Good(x, s') && Measure(s') < Measure(s)
  {
    hide Source, Received, Respond, Listening, Tracks, Flow, Queue, Runs.Completable, HeadersFit;
    DrainVerdict(x, s, k, acc);
    NotFailed(s, k);
    if s.chan[k - 1].IsEnd() {
      EndLeft(x, s, k);
    }
  }

  // After the answer nothing is left to do.
  lemma AnsweredRests(x: Exchange, s: Sys, e: Event, s': Sys)
    requires Good(x, s) && s.status == Answered
    ensures !Next(x, s, e, s')
  {
  }

  lemma AbandonGood(x: Exchange, s: Sys, s': Sys, acc: seq<byte>)
    requires Inv(x, s, acc) && Good(x, s) && s.status == Running
    requires Next(x, s, AbandonRead, s') && Calm(x, s, AbandonRead)
    ensures Good(x, s') && Measure(s') == Measure(s)
  {
    assert Pipe(s') == Pipe(s);
    if s.phase == Relaying {
      Runs.AbandonKeeps(s.reader, s.unread);
    }
  }

  lemma StepGood(x: Exchange, s: Sys, e: Event, s': Sys, acc: seq<byte>)
    requires WholeExchange(x) && Inv(x, s, acc) && Good(x, s) && Next(x, s, e, s') && Smooth(x, s, e)
    ensures Good(x, s')
    ensures if Productive(e) then Measure(s') < Measure(s) else Measure(s') == Measure(s)
  {
    if s.status == Answered {
      AnsweredRests(x, s, e, s');
    }
    hide Inv, Good, Measure, Next;
    match e
    case ReadHeader(n) => ReadHeaderGood(x, s, n, s', acc);
    case ReadBody(n) => ReadBodyGood(x, s, n, s', acc);
    case AbandonRead => AbandonGood(x, s, s', acc);
    case Enqueue => EnqueueGood(x, s, s', acc);
    case Drain(k) => DrainGood(x, s, k, s', acc);
    case RequestDone => NoUpgrade(x, s, s');
  }

  lemma NoUpgrade(x: Exchange, s: Sys, s': Sys)
    requires WholeExchange(x)
    ensures !Next(x, s, RequestDone, s')
  {
  }

  // ---- never stuck ----

  ghost predicate Enabled(x: Exchange, s: Sys) {
    exists e, s' :: Next(x, s, e, s') && Productive(e) && Smooth(x, s, e)
  }

  function ReadSome(s: Sys, n: nat): Sys
    requires n <= |s.unread| && !s.reader.Start? && (n > 0 ==> s.reader.NeedsInput())
  {
    var (r, o) := R.Deliver(s.reader, s.unread[..n]);
    s.(reader := r, unread := s.unread[n..], holding := Some(BodyTask(r, o)))
  }

  // One more octet of a header is always a calm read.
  lemma HeaderGoesOn(x: Exchange, s: Sys)
    requires WholeExchange(x) && Listening(x, s) && HeadersFit(x.parse, s.gathered + s.unread)
    ensures s.unread != [] && Calm(x, s, ReadHeader(1))
  {
    hide Source;
    if s.unread == [] {
      HeaderComing(x, s.gathered, []);
      assert false;
    }
    var got := s.gathered + s.unread[..1];
    if InterimFirst(x.parse, got) {
      HeardNow(x.parse, s.gathered, got);
    }
  }

  /** While the client has not been answered some coroutine can go on. */
  lemma NeverStuck(x: Exchange, s: Sys, acc: seq<byte>)
    requires WholeExchange(x) && Inv(x, s, acc) && Good(x, s)
    ensures Enabled(x, s) <==> s.status == Running
  {
    hide Source, Received, Tracks, Heads, SentOnly, Conforming, Respond;
    if s.status != Running {
      NothingLeft(x, s);
    } else if s.chan != [] {
      assert Next(x, s, Drain(1), Drained(s, 1));
    } else if s.holding.Some? {
      var s' := s.(chan := s.chan + [s.holding.value], holding := None,
                   phase := if s.holding.value.IsEnd() then Left else s.phase);
      assert Next(x, s, Enqueue, s');
    } else if s.phase == AwaitingHeader {
      HeaderGoesOn(x, s);
      assert Next(x, s, ReadHeader(1), HeaderRead(x, s, 1));
    } else {
      BodyGoesOn(x, s);
    }
  }

  lemma BodyGoesOn(x: Exchange, s: Sys)
    requires s.phase == Relaying && s.holding.None? && !s.reader.Start? && !s.reader.Finished()
    ensures Enabled(x, s)
  {
    hide R.Deliver;
    var n := if s.reader.NeedsInput() && s.unread != [] then 1 else 0;
    assert Next(x, s, ReadBody(n), ReadSome(s, n));
  }

  lemma NothingLeft(x: Exchange, s: Sys)
    requires WholeExchange(x) && s.status != Running && Good(x, s)
    ensures !Enabled(x, s)
  {
  }

  // ---- whole runs ----

  function Steps(events: seq<Event>): nat {
    if events == [] then 0 else Steps(events[..|events| - 1]) + if Productive(events[|events| - 1]) then 1 else 0
  }

  lemma {:induction false} RunGood(x: Exchange, states: seq<Sys>, events: seq<Event>, i: nat) returns (acc: seq<byte>)
    requires WholeExchange(x) && Run(x, states, events) && i < |states|
    requires forall k :: 0 <= k < |events| ==> Smooth(x, states[k], events[k])
    ensures Inv(x, states[i], acc) && Good(x, states[i])
    ensures Measure(states[i]) + Steps(events[..i]) <= Measure(Init(x))
  {
    if i == 0 {
      InitInv(x);
      InitGood(x);
      acc := [];
    } else {
      var before := RunGood(x, states, events, i - 1);
      assert events[..i][..i - 1] == events[..i - 1];
      assert Next(x, states[i - 1], events[i - 1], states[i - 1 + 1]);
      StepGood(x, states[i - 1], events[i - 1], states[i], before);
      acc := StepKeeps(x, states[i - 1], events[i - 1], states[i], before);
    }
  }

  lemma InitGood(x: Exchange)
    requires WholeExchange(x)
    ensures Good(x, Init(x)) && Measure(Init(x)) == 6 * |x.octets| + 3
  {
    assert Pipe(Init(x)) == [] && [] + x.octets == x.octets;
  }

  /** Every smooth run of an exchange with a whole body takes a bounded number of
      steps, is never stopped, and can only rest where the client has been answered
      Ok(true), having been sent the final header and decoded exactly the upstream's
      payload. Whatever the request's side does to end the relay is `Halt`. */
  lemma RelayCompletes(x: Exchange, states: seq<Sys>, events: seq<Event>)
    requires WholeExchange(x) && Run(x, states, events)
    requires forall k :: 0 <= k < |events| ==> Smooth(x, states[k], events[k])
    ensures Steps(events) <= 6 * |x.octets| + 3
    ensures var s := states[|events|];
      && s.status != Stopped
      && (Enabled(x, s) <==> s.status != Answered)
      && (s.status == Answered ==>
            && s.down.header == Some(Final(x).value.0)
            && Received(TheMode(x), s.out) == Received(TheMode(x), Final(x).value.1))
  {
    var acc := RunGood(x, states, events, |events|);
    InitGood(x);
    assert events[..|events|] == events;
    NeverStuck(x, states[|events|], acc);
  }
}
