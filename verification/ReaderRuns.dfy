/** Whole runs of the body reader: every segmentation of the octets gives the
    reference payload, in a bounded number of calls; and what an abandoned read
    (a lost race in a `select!`, or a read error) leaves behind. */
module ReaderRuns {
  import opened Bytes
  import opened Framing
  import opened ReaderModel
  import ChunkHead
  import opened HeadKnowledge

  // ---- progress ----

  // A bound on the calls left: octets to read count twice, once for arriving.
  function Fuel(r: Reader, unread: seq<byte>): nat {
    match r
    case Sized(_, _, p) => 1 + 2 * |unread| + |p| + (if r.NeedsInput() then 0 else 1)
    case Chunked(_, _, p, _, _) => 1 + 2 * |unread| + |p| + (if r.NeedsInput() then 0 else 1)
    case UntilClosed(_, p) => 1 + 2 * |unread| + |p| + (if r.NeedsInput() then 0 else 1)
    case _ => 0
  }

  ghost predicate Completable(r: Reader, unread: seq<byte>) {
    && !r.Start? && !r.Done? && r.Sound()
    && r.Rest(unread).ending == Framing.Finished && r.Fits(unread)
  }

  lemma DeliverProgress(r: Reader, got: seq<byte>, rest: seq<byte>)
    requires Completable(r, got + rest) && (got != [] ==> r.NeedsInput())
    requires r.NeedsInput() && got == [] ==> rest == []
    ensures var (r', o) := Deliver(r, got);
      && !o.Failed?
      && (o.Data? ==> Completable(r', rest) && Fuel(r', rest) < Fuel(r, got + rest))
  {
    DeliverAccounts(r, got, rest);
    if r.Chunked? && r.NeedsInput() && got == [] {
      assert r.pending + (got + rest) == r.pending;
    }
  }

  // calls: how often read_body was called, the last one answering None.
  datatype Delivery = Delivery(payload: seq<byte>, final: Reader, calls: nat)

  // Call read_body until it answers None; net(i) picks how much the network
  // delivers to the i-th call, at least one octet while there is one.
  function Drain(r: Reader, unread: seq<byte>, net: nat -> nat, i: nat): (d: Delivery)
    requires Completable(r, unread)
    ensures d.payload == r.Rest(unread).payload
    ensures d.final == Completed(r.Count() + |d.payload|)
    ensures d.calls <= Fuel(r, unread) + 1
    decreases Fuel(r, unread)
  {
    var n := if r.NeedsInput() && unread != [] then 1 + net(i) % |unread| else 0;
    var got, rest := unread[..n], unread[n..];
    assert got + rest == unread;
    DeliverProgress(r, got, rest);
    DeliverAccounts(r, got, rest);
    var (r', o) := Deliver(r, got);
    if o.NoMore? then Delivery([], r', 1)
    else
      var d := Drain(r', rest, net, i + 1);
      Delivery(o.slice + d.payload, d.final, d.calls + 1)
  }

  // The states set by with_chunked_read, with_content_length_read and
  // with_until_closed_read, given the octets read past the header.
  function Chunking(rewind: seq<byte>): Reader {
    Chunked(0, 0, rewind, 0, false)
  }

  function Counting(length: nat, rewind: seq<byte>): Reader {
    if length == 0 then Completed(0) else Sized(0, length, rewind)
  }

  function UntilEnd(rewind: seq<byte>): Reader {
    UntilClosed(0, rewind)
  }

  lemma EncodedRest(bufs: seq<seq<byte>>, trail: seq<byte>, w: seq<byte>, cut: nat)
    requires forall b :: b in bufs ==> 0 < |b| < USIZE_LIMIT
    requires w == EncodeAll(bufs) + LAST_CHUNK + trail && cut <= |w|
    ensures Completable(Chunking(w[..cut]), w[cut..])
    ensures Chunking(w[..cut]).Rest(w[cut..]) == Decoded(Concat(bufs), Framing.Finished)
  {
    assert w[..cut] + w[cut..] == w;
    EncodeAllCarries(bufs);
    CarriesMeans(EncodeAll(bufs), Concat(bufs), trail);
    EncodedHeadsFit(bufs, trail, PARTIAL_CHUNK_HEAD_LIMIT);
  }

  /** Whatever buffers the writer was given, however the network cuts its octets
      and wherever the header's read happened to stop, the reader hands out
      exactly those buffers' octets, ends Completed with their number, and needs
      at most two calls per octet of the coding. */
  lemma ChunkedRoundTrip(bufs: seq<seq<byte>>, trail: seq<byte>, cut: nat, net: nat -> nat)
    requires forall b :: b in bufs ==> 0 < |b| < USIZE_LIMIT
    requires cut <= |EncodeAll(bufs) + LAST_CHUNK + trail|
    ensures var w := EncodeAll(bufs) + LAST_CHUNK + trail;
      && Completable(Chunking(w[..cut]), w[cut..])
      && var d := Drain(Chunking(w[..cut]), w[cut..], net, 0);
         && d.payload == Concat(bufs)
         && d.final == Completed(|Concat(bufs)|)
         && d.calls <= 2 * |w| + 3
  {
    var w := EncodeAll(bufs) + LAST_CHUNK + trail;
    EncodedRest(bufs, trail, w, cut);
  }

  /** With Content-Length the reader hands out exactly the first `length` octets. */
  lemma SizedRoundTrip(length: nat, w: seq<byte>, cut: nat, net: nat -> nat)
    requires cut <= |w| && length <= |w|
    ensures Completable(Counting(length, w[..cut]), w[cut..])
    ensures var d := Drain(Counting(length, w[..cut]), w[cut..], net, 0);
      d.payload == w[..length] && d.final == Completed(length)
  {
    hide Drain, Deliver;
    assert w[..cut] + w[cut..] == w;
  }

  // ---- the head limit, exactly ----

  /** The limit on partial heads makes the verdict depend on the network exactly
      for heads longer than the limit by two octets or more: such a head is
      accepted when it arrives whole and refused when cut one octet short. */
  lemma LimitDependsOnCut(s: seq<byte>)
    requires ChunkHead.ParseHead(s).Complete?
    ensures var i := ChunkHead.ParseHead(s).payloadIndex;
      && !Deliver(Chunking([]), s).1.Failed?
      && ((exists k :: 0 < k <= |s| && Deliver(Chunking([]), s[..k]).1 == Failed(OverLimit))
          <==> i > PARTIAL_CHUNK_HEAD_LIMIT + 1)
  {
    var i := ChunkHead.ParseHead(s).payloadIndex;
    assert [] + s == s;
    forall k | 0 < k <= |s|
      ensures Deliver(Chunking([]), s[..k]).1 == Failed(OverLimit) <==> PARTIAL_CHUNK_HEAD_LIMIT < k < i
    {
      assert [] + s[..k] == s[..k];
      ChunkHead.HeadCut(s, k);
    }
    if i > PARTIAL_CHUNK_HEAD_LIMIT + 1 {
      assert Deliver(Chunking([]), s[..i - 1]).1 == Failed(OverLimit);
    }
  }

  // ---- abandoned reads ----

  // The partial head lies at `at` in the buffer and was moved to the front, but
  // the state still says it lies at `at`: what the next call finds there.
  function Shifted(head: seq<byte>, at: nat): (s: seq<byte>)
    ensures |s| == |head|
  {
    seq(|head|, i requires 0 <= i < |head| => if at + i < |head| then head[at + i] else head[i])
  }

  // What a read_body abandoned while waiting for the network leaves behind.
  function Abandon(r: Reader): Reader {
    if r.Chunked? && r.scanned then
      Chunked(r.read, r.owed, Shifted(r.pending, r.at), r.at, true)
    else r
  }

  // The scanner knows after the moved head what it knew after the head.
  predicate Survives(r: Reader) {
    r.Chunked? && r.scanned ==> Knows(Shifted(r.pending, r.at)) == Knows(r.pending)
  }

  lemma ShiftedStays(head: seq<byte>, d: nat)
    requires d == 0 || d >= |head|
    ensures Shifted(head, d) == head
  {
  }

  /** Abandoning a read loses nothing of the body, whatever is still to come, exactly
      when the scanner knows the same after the head as it was moved: the size so far,
      whether CR came last, whether an extension has begun and whether more digits may
      follow. Heads at the front of the buffer, or clear of it, always survive. */
  lemma AbandonExactly(r: Reader)
    requires r.Sound()
    ensures (forall u :: Abandon(r).Rest(u) == r.Rest(u)) <==> Survives(r)
    ensures r.Chunked? && (r.at == 0 || r.at >= |r.pending|) ==> Abandon(r) == r && Survives(r)
  {
    if r.Chunked? && r.scanned {
      var (b, c) := (r.pending, Shifted(r.pending, r.at));
      KnowledgeExactly(b, c);
      if r.at == 0 || r.at >= |b| {
        ShiftedStays(b, r.at);
      }
      if !Survives(r) {
        var u :| Decode(0, b + u) != Decode(0, c + u);
        assert !(Abandon(r).Rest(u) == r.Rest(u));
      }
    }
  }

  // A surviving reader goes on as if nothing had happened.
  lemma AbandonKeeps(r: Reader, unread: seq<byte>)
    requires r.Sound() && Survives(r)
    ensures var r' := Abandon(r);
      && r'.Sound() && r'.Rest(unread) == r.Rest(unread) && (r'.Fits(unread) <==> r.Fits(unread))
      && r'.Finished() == r.Finished() && Fuel(r', unread) == Fuel(r, unread)
  {
    if r.Chunked? && r.scanned {
      var (b, c) := (r.pending, Shifted(r.pending, r.at));
      KnowsWhere(b, 0, ChunkHead.FRESH);
      KnowsWhere(c, 0, ChunkHead.FRESH);
      KnownHeadsDecode(b, c, unread, PARTIAL_CHUNK_HEAD_LIMIT);
    }
  }

  // `1 CRLF A CR`, then `LF 1 0`: the second read ends inside the head `10`.
  const FIRST: seq<byte> := [49, 13, 10, 65, 13]
  const SECOND: seq<byte> := [10, 49, 48]
  const AFTER_FIRST: Reader := Chunked(1, 1, [], 0, false)
  const AFTER_SECOND: Reader := Chunked(1, 0, [49, 48], 1, false)
  const WAITING: Reader := Chunked(1, 0, [49, 48], 1, true)

  /** The overlap matters: sixteen octets follow the head `10`, the read is cut
      inside that head, the next read is abandoned once, and the body is reported
      complete without them. */
  lemma AbandonTruncates(body: seq<byte>)
    requires |body| == 16
    ensures var third := CRLF + body + CRLF + LAST_CHUNK;
      && Chunking([]).Rest(FIRST + SECOND + third) == Decoded([65] + body, Framing.Finished)
      && Deliver(Chunking([]), FIRST) == (AFTER_FIRST, Data([65]))
      && Deliver(AFTER_FIRST, SECOND) == (AFTER_SECOND, Data([]))
      && Deliver(AFTER_SECOND, []) == (WAITING, Data([]))
      && !Survives(WAITING)
      && Deliver(Abandon(WAITING), third) == (Completed(1), NoMore)
  {
    var third := CRLF + body + CRLF + LAST_CHUNK;
    TruncatedPayload(body);
    FirstReads();
    assert Shifted([49, 48], 1) == [48, 48];
    ZeroHead(third);
    DigitsKnown(49, 48);
    DigitsKnown(48, 48);
  }

  lemma DigitsKnown(a: byte, b: byte)
    requires 48 <= a <= 57 && 48 <= b <= 57
    ensures Knows([a, b]) == Some(Reading(16 * (a - 48) as nat + (b - 48) as nat, false, true))
  {
    var (s, one) := ([a, b], ChunkHead.Scan(1, (a - 48) as nat, true, false));
    var two := ChunkHead.Scan(2, 16 * (a - 48) as nat + (b - 48) as nat, true, false);
    assert KnowsFrom(s, 2, two) == Some(Reading(two.size, false, true));
    assert KnowsFrom(s, 1, one) == KnowsFrom(s, 2, two);
  }

  lemma ZeroHead(third: seq<byte>)
    requires |third| >= 2 && third[0] == CR && third[1] == LF
    ensures ChunkHead.ParseHead([48, 48] + third) == ChunkHead.Complete(4, 0)
  {
    var s := [48, 48] + third;
    assert ChunkHead.ScanHead(s, 2, ChunkHead.Scan(2, 0, true, false)) == ChunkHead.Complete(4, 0);
    assert ChunkHead.ScanHead(s, 1, ChunkHead.Scan(1, 0, true, false)) == ChunkHead.Complete(4, 0);
  }

  lemma SizeLines()
    ensures ChunkHead.HexUpper(1) == [49] && ChunkHead.HexUpper(16) == [49, 48]
  {
    assert ChunkHead.HexUpper(1) == [49];
  }

  lemma TruncatedPayload(body: seq<byte>)
    requires |body| == 16
    ensures Chunking([]).Rest(FIRST + SECOND + (CRLF + body + CRLF + LAST_CHUNK))
         == Decoded([65] + body, Framing.Finished)
  {
    var bufs: seq<seq<byte>> := [[65], body];
    var w := FIRST + SECOND + (CRLF + body + CRLF + LAST_CHUNK);
    assert w == EncodeAll(bufs) + LAST_CHUNK + [] by { TruncatedOctets(body); }
    EncodedRest(bufs, [], w, 0);
    assert w[..0] == [] && w[0..] == w;
    assert Concat(bufs) == [65] + body by {
      assert bufs[1..] == [body];
      assert Concat([body]) == body + Concat([]);
    }
  }

  lemma TruncatedOctets(body: seq<byte>)
    requires |body| == 16
    ensures FIRST + SECOND + (CRLF + body + CRLF + LAST_CHUNK) == EncodeAll([[65], body]) + LAST_CHUNK
  {
    SizeLines();
    assert [[65], body][1..] == [body];
    assert EncodeAll([body]) == EncodeChunk(body) + EncodeAll([]);
    assert EncodeChunk([65]) == FIRST + [10];
    assert [10] + EncodeChunk(body) == SECOND + (CRLF + body + CRLF);
  }

  lemma FirstReads()
    ensures Deliver(Chunking([]), FIRST) == (AFTER_FIRST, Data([65]))
    ensures Deliver(AFTER_FIRST, SECOND) == (AFTER_SECOND, Data([]))
    ensures Deliver(AFTER_SECOND, []) == (WAITING, Data([]))
  {
    var s1 := ChunkHead.Scan(1, 1, true, false);
    assert [] + FIRST == FIRST;
    var tail := FIRST[3..];
    assert tail == [65, 13] && tail[..1] == [65] && tail[2..] == [];
    assert ChunkHead.ScanHead(FIRST, 1, s1) == ChunkHead.Complete(3, 1);
    assert ChunkHead.ParseHead(FIRST) == ChunkHead.Complete(3, 1);
    assert Take(0, 3, tail, 3) == (AFTER_FIRST, Data([65]));
    assert [] + SECOND == SECOND && SECOND[1..] == [49, 48];
    var head: seq<byte> := [49, 48];
    assert head + [] == head;
    assert ChunkHead.ScanHead(head, 2, ChunkHead.Scan(2, 16, true, false)) == ChunkHead.Partial;
    assert ChunkHead.ScanHead(head, 1, s1) == ChunkHead.Partial;
    assert ChunkHead.ParseHead(head) == ChunkHead.Partial;
  }
}
