/** Where the relay goes wrong, exactly: header octets dropped by a lost race or with an
    interim header, and HEAD requests answered by an interim header first. */
module RelayHazards {
  import opened Bytes
  import opened Framing
  import opened WriterModel
  import opened FramingChoice
  import opened Responding
  import opened Relay
  import opened UpstreamHead
  import R = ReaderModel

  // The same exchange, had the upstream begun here.
  function From(x: Exchange, octets: seq<byte>): Exchange {
    x.(octets := octets)
  }

  lemma {:induction false} InterimsAnyMode(req: Request, a: Mode, b: Mode, tasks: seq<Task>)
    requires Conforming(req, a, false, tasks) && !Opens(false, tasks)
    ensures Conforming(req, b, false, tasks)
    ensures Heads(Response(100, true, false, None), tasks)
    decreases |tasks|
  {
    if tasks != [] {
      NotOpened(After(false, tasks[0]), tasks[1..]);
      if !tasks[0].Failed? {
        InterimsAnyMode(req, a, b, tasks[1..]);
      }
      assert forall t :: t in tasks ==> t == tasks[0] || t in tasks[1..];
    }
  }

  lemma NotOpened(started: bool, tasks: seq<Task>)
    ensures started ==> Opens(started, tasks)
    decreases |tasks|
  {
    if tasks != [] {
      NotOpened(After(started, tasks[0]), tasks[1..]);
    }
  }

  // With nothing of the body gone out, the relay is one of an upstream that begins
  // with whatever is still to be read.
  lemma Rebased(x: Exchange, s: Sys, acc: seq<byte>, unread: seq<byte>)
    requires Inv(x, s, acc) && s.status == Running && s.phase == AwaitingHeader && s.holding.None?
    requires ValidExchange(From(x, unread))
    ensures Inv(From(x, unread), s.(gathered := [], unread := unread), [])
  {
    var (x', s') := (From(x, unread), s.(gathered := [], unread := unread));
    assert Pipe(s) == Pipe(s') == s.chan;
    NotOpened(!s.down.writer.Start?, Pipe(s));
    InterimsAnyMode(x.req, TheMode(x), TheMode(x'), Pipe(s));
    NothingReceived(TheMode(x'));
    AnyFinal(FinalHeader(x'), Pipe(s), s.down);
    RebasedFlow(x, s, acc, unread);
    hide Flow, Listening, Source;
  }

  lemma RebasedFlow(x: Exchange, s: Sys, acc: seq<byte>, unread: seq<byte>)
    requires Flow(x, s, acc) && s.phase == AwaitingHeader && Live(s) && s.holding.None?
    requires ValidExchange(From(x, unread))
    ensures acc == [] && Flow(From(x, unread), s.(gathered := [], unread := unread), [])
  {
    assert [] + unread == unread && Pipe(s) == Pipe(s.(gathered := [], unread := unread));
    assert acc == [] && Payload(Pipe(s)) == [];
    hide Source, Heard;
  }

  /** A header read abandoned with octets in hand makes the relay, from there on, that
      of an upstream that never sent those octets: it is safe for what is heard in the
      rest, and for that only. */
  lemma HeaderLost(x: Exchange, s: Sys, s': Sys, acc: seq<byte>)
    requires Inv(x, s, acc) && s.status == Running && s.phase == AwaitingHeader
    requires Next(x, s, AbandonRead, s') && ValidExchange(From(x, s.unread))
    ensures Inv(From(x, s.unread), s', []) && Calm(From(x, s.unread), s', AbandonRead)
  {
    Rebased(x, s, acc, s.unread);
    hide Inv;
  }

  /** And so does an interim header: what arrives together with it is never seen. */
  lemma InterimLost(x: Exchange, s: Sys, n: nat, s': Sys, acc: seq<byte>)
    requires Inv(x, s, acc) && s.status == Running && s.phase == AwaitingHeader && !x.req.head
    requires Next(x, s, ReadHeader(n), s') && n > 0 && ValidExchange(From(x, s'.unread))
    requires InterimFirst(x.parse, s.gathered + s.unread[..n])
    ensures s'.unread == s.unread[n..] && Inv(From(x, s'.unread), s', [])
  {
    var (x', t) := (From(x, s'.unread), s'.holding.value);
    Rebased(x, s, acc, s'.unread);
    var s1 := s.(gathered := [], unread := s'.unread);
    assert [] + s'.unread == s'.unread;
    assert Listening(x, s) && Introduced(x', s', t);
    hide Listening, Introduced, Source, HeaderRead;
    HoldFlow(x', s1, s', t, []);
    HoldQueue(x', s1, s', t);
    assert Pipe(s1) == s.chan && Pipe(s') == s.chan + [t];
    hide Flow, Queue, Tracks, Received;
  }

  lemma AnyFinal(final: Response, tasks: seq<Task>, d: Down)
    requires Heads(Response(100, true, false, None), tasks) && (d.header.Some? ==> Interim(d.header.value))
    ensures Heads(final, tasks) && SentOnly(final, d)
  {
  }

  // ---- exactly when they make the relay unsafe ----

  // A run in which only these steps need not be calm.
  ghost predicate RashRun(x: Exchange, rash: (Exchange, Sys, Event) -> bool, states: seq<Sys>, events: seq<Event>) {
    && Run(x, states, events)
    && forall k :: 0 <= k < |events| ==> Calm(x, states[k], events[k]) || rash(x, states[k], events[k])
  }

  ghost predicate Reaches(x: Exchange, rash: (Exchange, Sys, Event) -> bool, s: Sys) {
    exists states, events :: RashRun(x, rash, states, events) && states[|events|] == s
  }

  // A valid exchange, and such a run of it at whose end what RelaySafe promises does not hold.
  ghost predicate Breaks(x: Exchange, rash: (Exchange, Sys, Event) -> bool) {
    ValidExchange(x) && exists s :: Reaches(x, rash, s) && !ClientSafe(x, s)
  }

  lemma ReachesInit(x: Exchange, rash: (Exchange, Sys, Event) -> bool)
    ensures Reaches(x, rash, Init(x))
  {
    assert RashRun(x, rash, [Init(x)], []);
  }

  lemma ReachesNext(x: Exchange, rash: (Exchange, Sys, Event) -> bool, s: Sys, e: Event, s': Sys)
    requires Reaches(x, rash, s) && Next(x, s, e, s') && (Calm(x, s, e) || rash(x, s, e))
    ensures Reaches(x, rash, s')
  {
    hide Next, Calm;
    var states, events :| RashRun(x, rash, states, events) && states[|events|] == s;
    assert RashRun(x, rash, states + [s'], events + [e]);
  }

  // A header read is abandoned with the octets g in hand.
  function Abandons(g: seq<byte>): (Exchange, Sys, Event) -> bool {
    (x: Exchange, s: Sys, e: Event) => e.AbandonRead? && s.phase == AwaitingHeader && s.gathered == g
  }

  // The octets g arrive together with an interim header.
  function Overruns(g: seq<byte>): (Exchange, Sys, Event) -> bool {
    (x: Exchange, s: Sys, e: Event) =>
      && e.ReadHeader? && e.n <= |s.unread|
      && var got := s.gathered + s.unread[..e.n];
         InterimFirst(x.parse, got) && got[x.parse(got).size..] == g
  }

  lemma CalmNeverBreaks(x: Exchange, rash: (Exchange, Sys, Event) -> bool, states: seq<Sys>, events: seq<Event>)
    requires ValidExchange(x) && RashRun(x, rash, states, events)
    requires forall k :: 0 <= k < |events| && rash(x, states[k], events[k]) ==> Calm(x, states[k], events[k])
    ensures ClientSafe(x, states[|events|])
  {
    hide Next, Calm, ClientSafe;
    var _ := RunInv(x, states, events, |events|);
  }

  lemma {:induction false} GatheredFits(x: Exchange, states: seq<Sys>, events: seq<Event>, i: nat)
    requires Run(x, states, events) && i < |states|
    ensures |states[i].gathered| <= MAX_BUFFER_SIZE
  {
    if i > 0 {
      GatheredFits(x, states, events, i - 1);
      assert Next(x, states[i - 1], events[i - 1], states[i - 1 + 1]);
      hide Respond;
    }
  }

  // ---- the exchanges that go wrong ----

  const PLAIN: Request := Request(false, false, false)
  const FINAL: Response := Response(200, true, false, Some(1))
  const INTERIM: Response := Response(103, true, false, None)

  // The header is in hand, the body is the octet b; what follows if all goes well.
  ghost predicate AtBody(s: Sys, b: byte) {
    && s.phase == Relaying && s.status == Running && s.holding == Some(Header(FINAL, false))
    && s.reader == R.Sized(0, 1, []) && s.unread == [b] && s.down == Fresh(PLAIN) && s.out == []
    && (s.chan == [] || s.chan == [Header(INTERIM, false)])
  }

  function HeaderQueued(s: Sys): Sys {
    s.(chan := s.chan + [Header(FINAL, false)], holding := None)
  }

  function BodyRead(s: Sys, b: byte): Sys {
    HeaderQueued(s).(reader := R.Completed(1), unread := [], holding := Some(Body(Some([b]), true)))
  }

  function BodyQueued(s: Sys, b: byte): Sys {
    BodyRead(s, b).(chan := s.chan + [Header(FINAL, false), Body(Some([b]), true)], holding := None, phase := Left)
  }

  lemma BodyFollows(x: Exchange, s: Sys, b: byte)
    requires AtBody(s, b)
    ensures Next(x, s, Enqueue, HeaderQueued(s))
    ensures Next(x, HeaderQueued(s), ReadBody(1), BodyRead(s, b))
    ensures Next(x, BodyRead(s, b), Enqueue, BodyQueued(s, b))
  {
    assert [b][..1] == [b] && [] + [b] == [b] && [b][1..] == [];
    assert s.chan + [Header(FINAL, false)] + [Body(Some([b]), true)]
        == s.chan + [Header(FINAL, false), Body(Some([b]), true)];
  }

  lemma BodyAnswered(x: Exchange, s: Sys, b: byte)
    requires AtBody(s, b)
    ensures var (q, k) := (BodyQueued(s, b), |s.chan| + 2);
      Next(x, q, Drain(k), Drained(q, k)) && Drained(q, k).status == Answered && Drained(q, k).out == [b]
  {
    var (q, k) := (BodyQueued(s, b), |s.chan| + 2);
    var (h, t) := (Header(FINAL, false), Body(Some([b]), true));
    assert q.chan[..k] == q.chan;
    var d := OneOctet(s.chan, h, t, b);
    assert [] + [b] == [b];
  }

  lemma OneOctet(interims: seq<Task>, h: Task, t: Task, b: byte) returns (d: Down)
    requires h == Header(FINAL, false) && t == Body(Some([b]), true)
    requires interims == [] || interims == [Header(INTERIM, false)]
    ensures Respond(Fresh(PLAIN), interims + [h, t]) == (d, [b], Go(true))
  {
    var (d0, tasks) := (Fresh(PLAIN), interims + [h, t]);
    var d1 := if interims == [] then d0 else WriteHead(d0, INTERIM);
    var d2 := WriteHead(d1, FINAL);
    assert d2.writer == ContentLength(1, 0);
    assert [h, t][1..] == [t] && [t][1..] == [] && [] + [b] == [b];
    var g2 := Gathered(d2, [], false, false);
    assert Gather(g2, [t]) == Gathered(d2, [b], true, false);
    assert Gather(Gathered(d1, [], false, false), [h, t]) == Gather(g2, [t]);
    if interims == [] {
      assert tasks == [h, t];
    } else {
      assert tasks[0] == interims[0] && tasks[1..] == [h, t];
    }
    assert Gather(Gathered(d0, [], false, false), tasks) == Gathered(d2, [b], true, false);
    hide Gather, WriteHead;
    assert [b][..1] == [b] && [b] + [] == [b];
    d := Respond(d0, tasks).0;
  }

  // What such an exchange should have meant.
  lemma Meant(x: Exchange, a: byte, b: byte, rest: seq<byte>, s: Sys)
    requires x.req == PLAIN && Final(x) == Some((FINAL, [a] + rest)) && a != b && s.out == [b]
    ensures !ClientSafe(x, s)
  {
    OneMeant(x, a, rest);
    OneReceived(b, []);
    assert [b] + [] == [b] && [a][0] != [b][0];
    hide Received, Source, TheMode, Final;
  }

  lemma OneMeant(x: Exchange, a: byte, rest: seq<byte>)
    requires x.req == PLAIN && Final(x) == Some((FINAL, [a] + rest))
    ensures TheMode(x) == Length(1) && Source(x).payload == [a]
    ensures Stable(x.parse) ==> ValidExchange(x)
  {
    hide Received, Heard, Stable;
    OneReceived(a, rest);
    assert TheMode(x) == Length(1);
  }

  lemma OneReceived(a: byte, rest: seq<byte>)
    ensures Received(Length(1), [a] + rest) == Decoded([a], Framing.Finished)
  {
    assert [] + ([a] + rest) == [a] + rest && ([a] + rest)[..1] == [a];
  }

  // From there the client is answered Ok(true), and with the octet b.
  lemma ReachesAnswer(x: Exchange, rash: (Exchange, Sys, Event) -> bool, s: Sys, a: byte, rest: seq<byte>, b: byte)
    requires ValidExchange(x) && x.req == PLAIN && Final(x) == Some((FINAL, [a] + rest)) && a != b
    requires Reaches(x, rash, s) && AtBody(s, b)
    ensures Breaks(x, rash)
  {
    hide Reaches, ValidExchange, Final, ClientSafe, Next, AtBody, Drained, HeaderQueued, BodyRead, BodyQueued;
    BodyFollows(x, s, b);
    BodyAnswered(x, s, b);
    ReachesNext(x, rash, s, Enqueue, HeaderQueued(s));
    ReachesNext(x, rash, HeaderQueued(s), ReadBody(1), BodyRead(s, b));
    ReachesNext(x, rash, BodyRead(s, b), Enqueue, BodyQueued(s, b));
    var end := Drained(BodyQueued(s, b), |s.chan| + 2);
    ReachesNext(x, rash, BodyQueued(s, b), Drain(|s.chan| + 2), end);
    Meant(x, a, b, rest, end);
  }

  // ---- abandoned header reads ----

  // Headers are |g| + 1 octets; the body follows in one octet, 2.
  function AbandonedExchange(g: seq<byte>): Exchange {
    Exchange(PLAIN, ByLength(|g| + 1, FINAL), g + AfterLoss(g) + [2])
  }

  function AfterLoss(g: seq<byte>): (a: seq<byte>)
    ensures |a| == |g| + 1
  {
    seq(|g| + 1, i requires 0 <= i < |g| + 1 => 1 as byte)
  }

  lemma AbandonedMeans(g: seq<byte>)
    requires g != []
    ensures var x := AbandonedExchange(g);
      ValidExchange(x) && x.req == PLAIN && exists rest :: Final(x) == Some((FINAL, [1] + rest))
  {
    var x := AbandonedExchange(g);
    var a := AfterLoss(g);
    ParsersStable(|g| + 1, 0, INTERIM, FINAL);
    assert x.octets[|g| + 1..] == [1] + (a[2..] + [2]);
    assert Final(x) == Some((FINAL, [1] + (a[2..] + [2])));
    hide Stable, Heard;
    OneMeant(x, 1, a[2..] + [2]);
  }

  lemma AbandonedSteps(g: seq<byte>)
    requires 0 < |g| <= MAX_BUFFER_SIZE
    ensures var x := AbandonedExchange(g);
      var s1 := HeaderRead(x, Init(x), |g|);
      var s2 := Abandoned(s1);
      && |g| <= |x.octets| && Next(x, Init(x), ReadHeader(|g|), s1) && Calm(x, Init(x), ReadHeader(|g|))
      && Next(x, s1, AbandonRead, s2) && Abandons(g)(x, s1, AbandonRead)
      && |g| + 1 <= |s2.unread| && AtBody(HeaderRead(x, s2, |g| + 1), 2) && HeaderRead(x, s2, |g| + 1).chan == []
      && Next(x, s2, ReadHeader(|g| + 1), HeaderRead(x, s2, |g| + 1)) && Calm(x, s2, ReadHeader(|g| + 1))
  {
    var (x, a) := (AbandonedExchange(g), AfterLoss(g));
    var s1 := HeaderRead(x, Init(x), |g|);
    assert x.octets == g + (a + [2]);
    assert x.octets[..|g|] == g && [] + g == g && x.octets[|g|..] == a + [2];
    assert s1 == Init(x).(gathered := g, unread := a + [2]);
    assert (a + [2])[..|g| + 1] == a && [] + a == a && (a + [2])[|g| + 1..] == [2] && a[|g| + 1..] == [];
  }

  lemma AbandonedBreaks(g: seq<byte>)
    requires 0 < |g| <= MAX_BUFFER_SIZE
    ensures Breaks(AbandonedExchange(g), Abandons(g))
  {
    hide HeaderRead, Abandoned, Next, Calm, AtBody, ValidExchange, Final, Reaches, Breaks, Abandons;
    var (x, rash) := (AbandonedExchange(g), Abandons(g));
    AbandonedMeans(g);
    AbandonedSteps(g);
    var s1 := HeaderRead(x, Init(x), |g|);
    var s2 := Abandoned(s1);
    ReachesInit(x, rash);
    ReachesNext(x, rash, Init(x), ReadHeader(|g|), s1);
    ReachesNext(x, rash, s1, AbandonRead, s2);
    ReachesNext(x, rash, s2, ReadHeader(|g| + 1), HeaderRead(x, s2, |g| + 1));
    var rest :| Final(x) == Some((FINAL, [1] + rest));
    ReachesAnswer(x, rash, HeaderRead(x, s2, |g| + 1), 1, rest, 2);
  }

  /** Runs whose only rash steps abandon a header read with the octets g in hand can
      break the promise of RelaySafe exactly when g is not empty (and short enough to be
      in hand at all). */
  lemma AbandonedHeaderExactly(g: seq<byte>)
    ensures (exists x :: Breaks(x, Abandons(g))) <==> 0 < |g| <= MAX_BUFFER_SIZE
  {
    hide Next, ClientSafe, ValidExchange;
    if 0 < |g| <= MAX_BUFFER_SIZE {
      AbandonedBreaks(g);
    } else {
      forall x, states, events | ValidExchange(x) && RashRun(x, Abandons(g), states, events)
        ensures ClientSafe(x, states[|events|])
      {
        forall k | 0 <= k < |events| && Abandons(g)(x, states[k], events[k]) ensures Calm(x, states[k], events[k]) {
          GatheredFits(x, states, events, k);
        }
        CalmNeverBreaks(x, Abandons(g), states, events);
      }
    }
  }

  // ---- octets that arrive with an interim header ----

  function Other(b: byte): (o: byte)
    ensures o != b
  {
    if b == 0 then 1 else 0
  }

  // An interim header and g in one read; then a header, and the body b.
  function OverrunExchange(g: seq<byte>, b: byte): Exchange
    requires g != []
  {
    Exchange(PLAIN, Tagged(Other(g[0]), INTERIM, FINAL), [Other(g[0])] + g + [g[0], b])
  }

  function OverrunBody(g: seq<byte>): (b: byte)
    requires g != []
  {
    Other((g[1..] + [g[0]])[0])
  }

  lemma OverrunMeans(g: seq<byte>)
    requires g != []
    ensures var (b, body) := (OverrunBody(g), g[1..] + [g[0]]);
      var x := OverrunExchange(g, b);
      && ValidExchange(x) && x.req == PLAIN && body[0] != b
      && Final(x) == Some((FINAL, [body[0]] + (body[1..] + [b])))
  {
    hide Stable, ValidExchange;
    var (b, body) := (OverrunBody(g), g[1..] + [g[0]]);
    var (x, t) := (OverrunExchange(g, b), Other(g[0]));
    ParsersStable(1, t, INTERIM, FINAL);
    var more := g + [g[0], b];
    assert x.octets == [t] + more && x.octets[1..] == more;
    assert more[1..] == [body[0]] + (body[1..] + [b]);
    assert Heard(x.parse, more) == Some((FINAL, more[1..]));
    OneMeant(x, body[0], body[1..] + [b]);
  }

  // The interim header has been queued, what came with it is gone.
  function OverrunQueued(g: seq<byte>, b: byte): Sys
    requires g != []
  {
    var x := OverrunExchange(g, b);
    Init(x).(unread := [g[0], b], header := Some(INTERIM), chan := [Header(INTERIM, false)])
  }

  lemma OverrunSteps(g: seq<byte>, b: byte)
    requires g != []
    ensures var (x, n, s2) := (OverrunExchange(g, b), 1 + |g|, OverrunQueued(g, b));
      && n <= |x.octets| && Next(x, Init(x), ReadHeader(n), HeaderRead(x, Init(x), n))
      && Overruns(g)(x, Init(x), ReadHeader(n))
      && Next(x, HeaderRead(x, Init(x), n), Enqueue, s2) && Calm(x, HeaderRead(x, Init(x), n), Enqueue)
      && Next(x, s2, ReadHeader(1), HeaderRead(x, s2, 1)) && Calm(x, s2, ReadHeader(1))
      && AtBody(HeaderRead(x, s2, 1), b) && HeaderRead(x, s2, 1).chan == [Header(INTERIM, false)]
  {
    var (x, t, n) := (OverrunExchange(g, b), Other(g[0]), 1 + |g|);
    assert x.octets[..n] == [t] + g && [] + ([t] + g) == [t] + g && ([t] + g)[1..] == g && x.octets[n..] == [g[0], b];
    var s1 := HeaderRead(x, Init(x), n);
    assert s1 == Init(x).(unread := [g[0], b], header := Some(INTERIM), holding := Some(Header(INTERIM, false)));
    assert s1.chan + [Header(INTERIM, false)] == [Header(INTERIM, false)];
    assert [g[0], b][..1] == [g[0]] && [] + [g[0]] == [g[0]] && [g[0], b][1..] == [b] && [g[0]][1..] == [];
  }

  lemma OverrunBreaks(g: seq<byte>)
    requires g != []
    ensures Breaks(OverrunExchange(g, OverrunBody(g)), Overruns(g))
  {
    hide HeaderRead, Next, Calm, AtBody, ValidExchange, Final, Reaches, Breaks, Overruns;
    var (b, body) := (OverrunBody(g), g[1..] + [g[0]]);
    var (x, rash, n, s2) := (OverrunExchange(g, b), Overruns(g), 1 + |g|, OverrunQueued(g, b));
    OverrunMeans(g);
    OverrunSteps(g, b);
    ReachesInit(x, rash);
    ReachesNext(x, rash, Init(x), ReadHeader(n), HeaderRead(x, Init(x), n));
    ReachesNext(x, rash, HeaderRead(x, Init(x), n), Enqueue, s2);
    ReachesNext(x, rash, s2, ReadHeader(1), HeaderRead(x, s2, 1));
    ReachesAnswer(x, rash, HeaderRead(x, s2, 1), body[0], body[1..] + [b], b);
  }

  /** The same for the octets that arrive with an interim header. */
  lemma OverrunExactly(g: seq<byte>)
    ensures (exists x :: Breaks(x, Overruns(g))) <==> g != []
  {
    hide Next, ClientSafe, ValidExchange;
    if g != [] {
      OverrunBreaks(g);
    } else {
      forall x, states, events | ValidExchange(x) && RashRun(x, Overruns(g), states, events)
        ensures ClientSafe(x, states[|events|])
      {
        CalmNeverBreaks(x, Overruns(g), states, events);
      }
    }
  }

  // ---- HEAD ----

  // All that RelaySafe asks of an exchange, the HEAD condition apart.
  ghost predicate Proper(x: Exchange) {
    && Stable(x.parse) && Final(x).Some? && !Informational(Final(x).value.0.status)
    && |Source(x).payload| < USIZE_LIMIT
  }

  // Some calm run answers the client Ok(true) without the final header.
  ghost predicate AnsweredWithout(x: Exchange) {
    exists states, events :: Bare(x, states, events)
  }

  ghost predicate Bare(x: Exchange, states: seq<Sys>, events: seq<Event>) {
    && Run(x, states, events)
    && (forall k :: 0 <= k < |events| ==> Calm(x, states[k], events[k]))
    && Final(x).Some? && states[|events|].status == Answered
    && states[|events|].down.header != Some(Final(x).value.0)
  }

  /** The client can be told that all is well without having been sent the final header
      exactly when an interim header is the first answer to a HEAD request. */
  lemma HeadInterimExactly(x: Exchange)
    requires Proper(x)
    ensures AnsweredWithout(x) <==> x.req.head && InterimFirst(x.parse, x.octets)
  {
    if x.req.head && InterimFirst(x.parse, x.octets) {
      HeadInterimRun(x);
    } else {
      forall states, events ensures !Bare(x, states, events) {
        if Bare(x, states, events) {
          RelaySafe(x, states, events, |events|, 0);
        }
      }
    }
  }

  lemma HeadInterimRun(x: Exchange)
    requires Proper(x) && x.req.head && InterimFirst(x.parse, x.octets)
    ensures AnsweredWithout(x)
  {
    var h := x.parse(x.octets);
    var (s0, t) := (Init(x), Header(h.resp, true));
    var s1 := HeaderRead(x, s0, h.size);
    var s2 := s1.(chan := [t], holding := None, phase := Left);
    var s3 := Drained(s2, 1);
    assert [] + x.octets[..h.size] == x.octets[..h.size];
    assert s1.holding == Some(t) && s1.chan + [t] == [t];
    assert s2.chan[..1] == [t];
    assert s3.status == Answered && s3.down.header != Some(Final(x).value.0);
    var (states, events) := ([s0, s1, s2, s3], [ReadHeader(h.size), Enqueue, Drain(1)]);
    assert Next(x, s0, events[0], s1) && Next(x, s1, events[1], s2) && Next(x, s2, events[2], s3);
    assert Bare(x, states, events);
  }

  // An interim header, then the final one, in answer to HEAD.
  function HeadExchange(): Exchange {
    Exchange(Request(true, false, false), Tagged(1, INTERIM, FINAL), [1, 0])
  }

  /** There is such an exchange. */
  lemma HeadInterimHappens()
    ensures Proper(HeadExchange()) && AnsweredWithout(HeadExchange())
  {
    var x := HeadExchange();
    ParsersStable(1, 1, INTERIM, FINAL);
    assert x.octets[1..] == [0] && [0 as byte][1..] == [];
    assert Heard(x.parse, [0]) == Some((FINAL, []));
    HeadInterimExactly(x);
  }
}
