/** The body reader on values: what one call of `read_body` hands back and what
    it keeps, with the octets in hand as a sequence instead of four indices into
    a buffer. The class in BodyReader.dfy is proved to do exactly this in place;
    here the calls are proved to spell out the reference decoding, however the
    network cuts the octets. */
module ReaderModel {
  import opened Bytes
  import opened Framing
  import ChunkHead

  const PARTIAL_CHUNK_HEAD_LIMIT: nat := 1024 * 8

  datatype ReadError = Closed | OverLimit | BadChunk

  // Data: `Ok(Some(offset))`; NoMore: `Ok(None)`.
  datatype Outcome = Data(slice: seq<byte>) | NoMore | Failed(error: ReadError)

  // pending: octets in hand not handed out yet. owed: what the current chunk
  // still owes, CRLF included. scanned: pending is an incomplete head, and at
  // is where in the buffer it (or the next chunk) begins.
  datatype Reader =
    | Start
    | Completed(total: nat)
    | Done(total: nat)
    | Sized(read: nat, left: nat, pending: seq<byte>)
    | Chunked(read: nat, owed: nat, pending: seq<byte>, at: nat, scanned: bool)
    | UntilClosed(read: nat, pending: seq<byte>)
  {
    predicate Finished() {
      Completed? || Done?
    }

    predicate NeedsInput() {
      (Sized? && pending == []) || (UntilClosed? && pending == []) ||
      (Chunked? && (pending == [] || scanned))
    }

    // Payload octets handed out so far.
    function Count(): nat {
      match this
      case Start => 0
      case Completed(n) => n
      case Done(n) => n
      case Sized(n, _, _) => n
      case Chunked(n, _, _, _, _) => n
      case UntilClosed(n, _) => n
    }

    // Holds of every reader the program can be in between calls.
    ghost predicate Sound() {
      match this
      case Sized(_, left, _) => left > 0
      case Chunked(_, owed, p, _, scanned) =>
        && (owed > 0 ==> p == [])
        && (scanned ==> p != [] && |p| <= PARTIAL_CHUNK_HEAD_LIMIT && ChunkHead.ParseHead(p).Partial?)
      case _ => true
    }

    // The payload this reader still has to hand out when `unread` is all the
    // network will deliver, and how the body ends.
    ghost function Rest(unread: seq<byte>): Decoded {
      match this
      case Sized(_, left, p) =>
        var s := p + unread;
        if |s| >= left then Decoded(s[..left], Framing.Finished) else Decoded(s, Truncated)
      case Chunked(_, owed, p, _, _) => Decode(owed, p + unread)
      case UntilClosed(_, p) => Decoded(p + unread, Framing.Finished)
      case Completed(_) => Decoded([], Framing.Finished)
      case _ => Decoded([], Truncated)
    }

    ghost predicate Fits(unread: seq<byte>) {
      Chunked? ==> HeadsFit(owed, pending + unread, PARTIAL_CHUNK_HEAD_LIMIT)
    }
  }

  // Hand out what s holds of the current chunk; s begins at `at` in the buffer.
  function Take(read: nat, owed: nat, s: seq<byte>, at: nat): (Reader, Outcome) {
    var used := Min(owed, |s|);
    var slice := s[..PayloadPart(owed, used)];
    (Chunked(read + |slice|, owed - used, s[used..], if used == |s| then 0 else at + used, false), Data(slice))
  }

  // Serve one slice of the chunked coding from s, which begins at `at`.
  function Serve(read: nat, owed: nat, s: seq<byte>, at: nat): (Reader, Outcome) {
    if s == [] then (Done(read), Failed(Closed))
    else if owed > 0 then Take(read, owed, s, at)
    else
      match ChunkHead.ParseHead(s)
      case Invalid => (Done(read), Failed(BadChunk))
      case Partial =>
        if |s| > PARTIAL_CHUNK_HEAD_LIMIT then (Done(read), Failed(OverLimit))
        else (Chunked(read, 0, s, at, true), Data([]))
      case Complete(i, size) =>
        if size == 0 then (Completed(read), NoMore) else Take(read, size + 2, s[i..], at + i)
  }

  // One call of read_body, when the network delivers `got` ([] at end of stream,
  // or when the reader works on what it has).
  function Deliver(r: Reader, got: seq<byte>): (Reader, Outcome)
    requires !r.Start? && (got != [] ==> r.NeedsInput())
  {
    match r
    case Sized(read, left, p) =>
      var s := p + got;
      if s == [] then (Done(read), Failed(Closed))
      else if |s| >= left then (Completed(read + left), Data(s[..left]))
      else (Sized(read + |s|, left - |s|, []), Data(s))
    case UntilClosed(read, p) =>
      var s := p + got;
      if s == [] then (Completed(read), NoMore) else (UntilClosed(read + |s|, []), Data(s))
    case Chunked(read, owed, p, at, _) =>
      Serve(read, owed, p + got, if r.NeedsInput() then 0 else at)
    case _ => (r, NoMore)
  }

  // ---- one call against the reference decoding ----

  // What a call on reader r, with `all` still to come before it and `rest` after
  // it, must satisfy: r' and o against the reference decoding.
  ghost predicate Accounted(r: Reader, all: seq<byte>, r': Reader, o: Outcome, rest: seq<byte>) {
    && r'.Sound() && !r'.Start?
    && match o
       case Data(slice) =>
         && r.Rest(all) == r'.Rest(rest).Prepend(slice)
         && r'.Count() == r.Count() + |slice|
         && !r'.Done?
         && (r.Fits(all) ==> r'.Fits(rest))
       case NoMore =>
         r.Rest(all) == Decoded([], Framing.Finished) && r' == Completed(r.Count())
       case Failed(e) =>
         && r' == Done(r.Count())
         && (e == Closed ==> r.Rest(all) == Decoded([], Truncated))
         && (e == BadChunk ==> r.Rest(all) == Decoded([], Malformed))
         && (e == OverLimit ==> r.Rest(all) == Decoded([], Malformed) || !r.Fits(all))
  }

  lemma TakeAccounts(r: Reader, all: seq<byte>, owed: nat, s: seq<byte>, at: nat, rest: seq<byte>)
    requires r.Chunked? && r.Rest(all) == Decode(owed, s + rest)
    requires r.Fits(all) ==> HeadsFit(owed, s + rest, PARTIAL_CHUNK_HEAD_LIMIT)
    ensures var (r', o) := Take(r.read, owed, s, at); Accounted(r, all, r', o, rest)
  {
    TakeDecodes(owed, s, rest);
    hide Decode, HeadsFit;
  }

  // What is taken, then what is left.
  lemma TakeDecodes(owed: nat, s: seq<byte>, rest: seq<byte>)
    ensures var used := Min(owed, |s|);
      && Decode(owed, s + rest) == Decode(owed - used, s[used..] + rest).Prepend(s[..PayloadPart(owed, used)])
      && (HeadsFit(owed, s + rest, PARTIAL_CHUNK_HEAD_LIMIT) ==>
            HeadsFit(owed - used, s[used..] + rest, PARTIAL_CHUNK_HEAD_LIMIT))
  {
    var used := Min(owed, |s|);
    var a, b := s[..used], s[used..];
    assert s + rest == a + (b + rest);
    DecodeOwed(owed, a, b + rest);
    HeadsFitOwed(owed, a, b + rest, PARTIAL_CHUNK_HEAD_LIMIT);
    assert a[..PayloadPart(owed, used)] == s[..PayloadPart(owed, used)];
    hide Decode, HeadsFit;
  }

  lemma PartialHeadAccounts(r: Reader, all: seq<byte>, s: seq<byte>, start: nat, rest: seq<byte>)
    requires r.Chunked? && r.owed == 0 && s != [] && ChunkHead.ParseHead(s).Partial?
    requires r.pending + all == s + rest
    ensures |s| <= PARTIAL_CHUNK_HEAD_LIMIT ==>
      Accounted(r, all, Chunked(r.read, 0, s, start, true), Data([]), rest)
    ensures |s| > PARTIAL_CHUNK_HEAD_LIMIT ==>
      Accounted(r, all, Done(r.read), Failed(OverLimit), rest)
  {
    var d := Decode(0, s + rest);
    assert d == d.Prepend([]);
    if ChunkHead.ParseHead(s + rest).Complete? {
      ChunkHead.HeadCut(s + rest, |s|);
      assert (s + rest)[..|s|] == s;
    }
  }

  lemma WholeHeadAccounts(r: Reader, all: seq<byte>, s: seq<byte>, start: nat, rest: seq<byte>)
    requires r.Chunked? && r.owed == 0 && !ChunkHead.ParseHead(s).Partial?
    requires r.pending + all == s + rest
    ensures match ChunkHead.ParseHead(s)
      case Complete(i, size) =>
        if size == 0 then Accounted(r, all, Completed(r.read), NoMore, rest)
        else var (r', o) := Take(r.read, size + 2, s[i..], start + i); Accounted(r, all, r', o, rest)
      case _ => Accounted(r, all, Done(r.read), Failed(BadChunk), rest)
  {
    hide ChunkHead.ParseHead, Take;
    ChunkHead.HeadStable(s, rest);
    if ChunkHead.ParseHead(s).Complete? {
      var i, size := ChunkHead.ParseHead(s).payloadIndex, ChunkHead.ParseHead(s).size;
      if size > 0 {
        assert (s + rest)[i..] == s[i..] + rest;
        TakeAccounts(r, all, size + 2, s[i..], start + i, rest);
      }
    }
  }

  // Serving s, with rest still to come.
  lemma ServeAccounts(r: Reader, all: seq<byte>, s: seq<byte>, start: nat, rest: seq<byte>)
    requires r.Chunked? && s != [] && r.pending + all == s + rest
    ensures var (r', o) := Serve(r.read, r.owed, s, start); Accounted(r, all, r', o, rest)
  {
    hide Take, Accounted, ChunkHead.ParseHead;
    if r.owed > 0 {
      TakeAccounts(r, all, r.owed, s, start, rest);
    } else if ChunkHead.ParseHead(s).Partial? {
      PartialHeadAccounts(r, all, s, start, rest);
    } else {
      WholeHeadAccounts(r, all, s, start, rest);
    }
  }

  lemma ChunkedAccounts(r: Reader, got: seq<byte>, rest: seq<byte>)
    requires r.Chunked? && r.Sound() && (got != [] ==> r.NeedsInput())
    requires r.NeedsInput() && got == [] ==> rest == []
    ensures var (r', o) := Deliver(r, got); Accounted(r, got + rest, r', o, rest)
  {
    var s := r.pending + got;
    assert r.pending + (got + rest) == s + rest;
    if s == [] {
      assert got + rest == [];
    } else {
      hide Serve, Accounted;
      ServeAccounts(r, got + rest, s, if r.NeedsInput() then 0 else r.at, rest);
    }
  }

  lemma SizedAccounts(r: Reader, got: seq<byte>, rest: seq<byte>)
    requires r.Sized? && r.Sound() && (got != [] ==> r.NeedsInput())
    requires r.NeedsInput() && got == [] ==> rest == []
    ensures var (r', o) := Deliver(r, got); Accounted(r, got + rest, r', o, rest)
  {
    var s := r.pending + got;
    assert r.pending + (got + rest) == s + rest;
    assert [] + rest == rest;
    if |s| >= r.left {
      assert (s + rest)[..r.left] == s[..r.left] + [];
    }
  }

  lemma UntilClosedAccounts(r: Reader, got: seq<byte>, rest: seq<byte>)
    requires r.UntilClosed? && (got != [] ==> r.NeedsInput())
    requires r.NeedsInput() && got == [] ==> rest == []
    ensures var (r', o) := Deliver(r, got); Accounted(r, got + rest, r', o, rest)
  {
    assert r.pending + (got + rest) == r.pending + got + rest;
    assert [] + rest == rest;
  }

  /** What one call hands out, followed by what is left, is what there was: in
      every mode, for every reader state and whatever arrives. An error or the
      end is reported only where the reference decoding has nothing more to give. */
  lemma DeliverAccounts(r: Reader, got: seq<byte>, rest: seq<byte>)
    requires !r.Start? && !r.Done? && r.Sound() && (got != [] ==> r.NeedsInput())
    requires r.NeedsInput() && got == [] ==> rest == []
    ensures var (r', o) := Deliver(r, got); Accounted(r, got + rest, r', o, rest)
  {
    if r.Chunked? {
      ChunkedAccounts(r, got, rest);
    } else if r.Sized? {
      SizedAccounts(r, got, rest);
    } else if r.UntilClosed? {
      UntilClosedAccounts(r, got, rest);
    }
  }
}
