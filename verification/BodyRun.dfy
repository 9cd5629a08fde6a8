/** Whole bodies read by the class: calling `read_body` until it answers None. */
module BodyRun {
  import opened Bytes
  import opened Framing
  import B = BodyReading
  import M = ReaderModel
  import R = ReaderRuns

  // Payload was handed out since the reader was `first` and the stream held `octets`.
  ghost predicate Sofar(first: M.Reader, octets: seq<byte>, payload: seq<byte>, now: M.Reader, unread: seq<byte>) {
    && R.Completable(now, unread)
    && payload + now.Rest(unread).payload == first.Rest(octets).payload
    && now.Count() == first.Count() + |payload|
  }

  // A call when the body is whole: it goes on or ends.
  lemma CallGoesOn(first: M.Reader, octets: seq<byte>, payload: seq<byte>, was: M.Reader, before: seq<byte>,
                   now: M.Reader, after: seq<byte>, o: M.Outcome)
    requires Sofar(first, octets, payload, was, before) && B.Taken(was, before, after)
    requires M.Deliver(was, B.Arrived(before, after)) == (now, o)
    ensures !o.Failed?
    ensures o.Data? ==>
      Sofar(first, octets, payload + o.slice, now, after) && R.Fuel(now, after) < R.Fuel(was, before)
    ensures o.NoMore? ==> payload == first.Rest(octets).payload && now == M.Completed(first.Count() + |payload|)
  {
    var got := B.Arrived(before, after);
    assert |after| < |before| <==> got != [];
    Answered(was, got, after, now, o);
    hide M.Deliver, R.Fuel, R.Completable, M.Reader.Rest, M.Reader.Count;
    if o.Data? {
      var rest := now.Rest(after).payload;
      assert payload + (o.slice + rest) == payload + o.slice + rest;
    } else {
      assert payload + [] == payload;
    }
  }

  lemma Answered(was: M.Reader, got: seq<byte>, after: seq<byte>, now: M.Reader, o: M.Outcome)
    requires R.Completable(was, got + after) && (got != [] ==> was.NeedsInput())
    requires was.NeedsInput() && got == [] ==> after == []
    requires M.Deliver(was, got) == (now, o)
    ensures !o.Failed?
    ensures o.Data? ==>
      && R.Completable(now, after) && R.Fuel(now, after) < R.Fuel(was, got + after)
      && was.Rest(got + after) == now.Rest(after).Prepend(o.slice)
      && now.Count() == was.Count() + |o.slice|
    ensures o.NoMore? ==> was.Rest(got + after).payload == [] && now == M.Completed(was.Count())
  {
    R.DeliverProgress(was, got, after);
    M.DeliverAccounts(was, got, after);
    hide M.Deliver, R.Fuel;
  }

  // One more call.
  method ReadOn(reader: B.BodyReader, stream: B.ByteStream, ghost first: M.Reader, ghost octets: seq<byte>,
                payload: seq<byte>)
    returns (more: seq<byte>, r: B.ReadResult)
    requires reader.Valid() && Sofar(first, octets, payload, reader.View(), stream.unread)
    modifies reader, reader.bodyBuffer, stream
    ensures reader.Valid() && reader.bodyBuffer == old(reader.bodyBuffer) && !r.Failure?
    ensures r.Got? ==>
      && Sofar(first, octets, more, reader.View(), stream.unread)
      && R.Fuel(reader.View(), stream.unread) < old(R.Fuel(reader.View(), stream.unread))
    ensures r.NoMore? ==>
      more == payload == first.Rest(octets).payload && reader.View() == M.Completed(first.Count() + |payload|)
    ensures r.Abandoned? ==> more == payload
  {
    hide M.Deliver, R.Fuel, R.Completable, B.Taken, B.ViewOf, Sofar;
    ghost var (was, before) := (reader.View(), stream.unread);
    NotStart(reader.readState, reader.bodyBuffer[..], reader.rewindBufSize, first, octets, payload, before);
    more := payload;
    r := reader.ReadBody(stream);
    if r.Abandoned? {
      return;
    }
    CallGoesOn(first, octets, payload, was, before, reader.View(), stream.unread, reader.Outcome(r));
    if r.Got? {
      more := payload + reader.bodyBuffer[..][r.offset.start..r.offset.end];
    }
  }

  /** Whatever the stream does, the slices handed out are a first part of the body's
      payload, and all of it once the reader answers None; unless a read is abandoned
      it does so after finitely many calls. */
  method ReadToEnd(reader: B.BodyReader, stream: B.ByteStream) returns (payload: seq<byte>, r: B.ReadResult)
    requires reader.Valid() && R.Completable(reader.View(), stream.unread)
    modifies reader, reader.bodyBuffer, stream
    ensures reader.Valid() && (r.NoMore? || r.Abandoned?)
    ensures payload <= old(reader.View().Rest(stream.unread).payload)
    ensures r.NoMore? ==>
      && payload == old(reader.View().Rest(stream.unread).payload)
      && reader.View() == M.Completed(old(reader.View().Count()) + |payload|)
  {
    payload := [];
    ghost var (first, octets) := (reader.View(), stream.unread);
    SofarNothing(first, octets);
    hide *;
    while true
      invariant reader.Valid() && reader.bodyBuffer == old(reader.bodyBuffer)
      invariant Sofar(first, octets, payload, reader.View(), stream.unread)
      decreases R.Fuel(reader.View(), stream.unread)
    {
      SofarFirst(first, octets, payload, reader.View(), stream.unread);
      payload, r := ReadOn(reader, stream, first, octets, payload);
      if !r.Got? {
        return;
      }
    }
  }

  lemma SofarNothing(first: M.Reader, octets: seq<byte>)
    requires R.Completable(first, octets)
    ensures Sofar(first, octets, [], first, octets)
  {
    var all := first.Rest(octets).payload;
    assert [] + all == all;
  }

  lemma SofarFirst(first: M.Reader, octets: seq<byte>, payload: seq<byte>, now: M.Reader, unread: seq<byte>)
    requires Sofar(first, octets, payload, now, unread)
    ensures payload <= first.Rest(octets).payload
  {
  }

  lemma NotStart(state: B.ReadState, b: seq<byte>, rewind: nat,
                 first: M.Reader, octets: seq<byte>, payload: seq<byte>, unread: seq<byte>)
    requires B.Consistent(state, |b|, rewind) && Sofar(first, octets, payload, B.ViewOf(state, b, rewind), unread)
    ensures !state.Start?
  {
  }

  /** The octets the writer sends for some buffers, read back by the class: exactly
      those buffers, wherever the header's read stopped and however the rest arrives. */
  method RoundTrip(bufs: seq<seq<byte>>, trail: seq<byte>, cut: nat) returns (payload: seq<byte>, r: B.ReadResult)
    requires forall b :: b in bufs ==> 0 < |b| < USIZE_LIMIT
    requires cut <= |EncodeAll(bufs) + LAST_CHUNK + trail|
    ensures payload <= Concat(bufs)
    ensures r.NoMore? || r.Abandoned?
    ensures r.NoMore? ==> payload == Concat(bufs)
  {
    var w := EncodeAll(bufs) + LAST_CHUNK + trail;
    R.EncodedRest(bufs, trail, w, cut);
    var stream := new B.ByteStream(w[cut..]);
    var reader := new B.BodyReader();
    reader.WithChunkedRead(w[..cut]);
    payload, r := ReadToEnd(reader, stream);
  }
}
