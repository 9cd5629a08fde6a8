/** The body reader in place: one fixed buffer, octets left over from the header's
    read, and a state of up to four numbers that index the buffer. */
module BodyReading {
  import opened Bytes
  import M = ReaderModel
  import R = ReaderRuns
  import ChunkHead

  const BODY_BUFFER_SIZE: nat := 1024 * 64

  datatype Offset = Offset(start: nat, end: nat)

  function NewOffset(start: nat, len: nat): Offset {
    Offset(start, start + len)
  }

  // Partial(size read, remaining); Chunked(size read, next chunk or head in the
  // buffer, end of the octets in the buffer, octets expected).
  datatype ReadState =
    | Start
    | Completed(read: nat)
    | Done(read: nat)
    | Partial(read: nat, toRead: nat)
    | Chunked(read: nat, bufStart: nat, bufEnd: nat, expecting: nat)
    | HTTP10(read: nat)
  {
    function Finish(additional: nat): ReadState {
      match this
      case Partial(read, toRead) => Completed(read + toRead)
      case Chunked(read, _, _, _) => Completed(read + additional)
      case HTTP10(read) => Completed(read + additional)
      case _ => this
    }

    function Interrupt(additional: nat): ReadState {
      match this
      case Partial(read, _) => Done(read + additional)
      case Chunked(read, _, _, _) => Done(read + additional)
      case HTTP10(read) => Done(read + additional)
      case _ => this
    }

    function PartialChunk(bytesRead: nat, bytesToRead: nat): ReadState {
      match this
      case Chunked(read, _, _, _) => Chunked(read + bytesRead, 0, 0, bytesToRead)
      case _ => this
    }

    function MultiChunk(bytesRead: nat, bufStartIndex: nat): ReadState {
      match this
      case Chunked(read, _, bufEnd, _) => Chunked(read + bytesRead, bufStartIndex, bufEnd, 0)
      case _ => this
    }

    function PartialChunkHead(headEnd: nat, headSize: nat): ReadState {
      match this
      case Chunked(read, _, _, _) => Chunked(read, 0, headEnd, headSize)
      case _ => this
    }

    function NewBuf(bufEnd: nat): ReadState {
      match this
      case Chunked(read, _, _, _) => Chunked(read, 0, bufEnd, 0)
      case _ => this
    }
  }

  // bufStart < bufEnd bounds octets in hand; with bufStart 0, `expecting` is
  // either the size of the partial head that ends at bufEnd, or, when bufEnd
  // is 0 too, the rest of the current chunk and its CRLF.
  ghost predicate Consistent(state: ReadState, length: nat, rewind: nat) {
    match state
    case Start => rewind == 0
    case Partial(_, toRead) => toRead > 0 && rewind <= length && BODY_BUFFER_SIZE <= length
    case HTTP10(_) => rewind <= length && BODY_BUFFER_SIZE <= length
    case Chunked(_, s, e, x) =>
      && BODY_BUFFER_SIZE <= length && e <= length && rewind <= length
      && (s > 0 || e > 0 || x > 0 ==> rewind == 0)
      && (s > 0 ==> s < e && x == 0)
      && (s == 0 && e > 0 ==> 1 <= x <= e && x <= M.PARTIAL_CHUNK_HEAD_LIMIT)
    case _ => true
  }

  ghost function ViewOf(state: ReadState, b: seq<byte>, rewind: nat): M.Reader
    requires Consistent(state, |b|, rewind)
  {
    match state
    case Start => M.Start
    case Completed(n) => M.Completed(n)
    case Done(n) => M.Done(n)
    case Partial(read, left) => M.Sized(read, left, b[..rewind])
    case HTTP10(read) => M.UntilClosed(read, b[..rewind])
    case Chunked(read, s, e, x) =>
      if s > 0 then M.Chunked(read, 0, b[s..e], s, false)
      else if e > 0 then M.Chunked(read, 0, b[e - x..e], e - x, true)
      else M.Chunked(read, x, b[..rewind], 0, false)
  }

  // Ok(Some(offset)), Ok(None), an error the reader raised itself, or a call
  // that ended inside the stream's read (a stream error, or a dropped future).
  datatype ReadResult = Got(offset: Offset) | NoMore | Failure(error: M.ReadError) | Abandoned

  // The connection: `unread` is what the peer will still deliver before closing.
  class ByteStream {
    var unread: seq<byte>

    constructor (octets: seq<byte>)
      ensures unread == octets
    {
      unread := octets;
    }

    // Some(n): n octets were stored from `from` on, 0 only at end of stream.
    method Read(buf: array<byte>, from: nat) returns (n: Option<nat>)
      requires from < buf.Length
      modifies this, buf
      ensures n.None? ==> unread == old(unread) && buf[..] == old(buf[..])
      ensures n.Some? ==>
        && n.value <= buf.Length - from && n.value <= |old(unread)|
        && (n.value == 0 <==> old(unread) == [])
        && unread == old(unread)[n.value..]
        && buf[..from] == old(buf[..from])
        && buf[from..from + n.value] == old(unread)[..n.value]
    {
      var reachable: bool := *;
      if !reachable {
        return None;
      }
      if unread == [] {
        return Some(0);
      }
      var k: nat :| 1 <= k <= buf.Length - from && k <= |unread|;
      forall i | 0 <= i < k {
        buf[from + i] := unread[i];
      }
      unread := unread[k..];
      return Some(k);
    }
  }

  // The octets that arrived between two states of a stream.
  ghost function Arrived(before: seq<byte>, after: seq<byte>): seq<byte> {
    if |after| <= |before| then before[..|before| - |after|] else []
  }

  // What a reader takes off the stream: nothing when it has work in hand, else
  // something while there is something.
  ghost predicate Taken(was: M.Reader, before: seq<byte>, after: seq<byte>) {
    && |after| <= |before| && before == Arrived(before, after) + after
    && (|after| < |before| ==> was.NeedsInput())
    && (was.NeedsInput() && after == before ==> before == [])
  }

  lemma SubSlice(b: seq<byte>, from: nat, to: nat, i: nat, j: nat)
    requires i <= j && from + j <= to <= |b|
    ensures b[from..to][i..j] == b[from + i..from + j]
    ensures i == 0 ==> b[from..to][..j] == b[from..from + j]
    ensures j == to - from ==> b[from..to][i..] == b[from + i..to]
  {
    var (x, y) := (b[from..to][i..j], b[from + i..from + j]);
    assert |x| == |y| && forall k :: 0 <= k < |x| ==> x[k] == b[from + i + k] == y[k];
  }

  // The octets at the front of the buffer after the rewind octets, or a read.
  lemma InHand(was: seq<byte>, now: seq<byte>, rewind: nat, n: nat, before: seq<byte>, after: seq<byte>)
    requires rewind <= |was| == |now| && n <= |now|
    requires rewind > 0 ==> n == rewind && now == was && after == before
    requires rewind == 0 ==> n <= |before| && after == before[n..] && now[..n] == before[..n]
    ensures now[0..n] == was[..rewind] + Arrived(before, after)
    ensures |after| <= |before| && before == Arrived(before, after) + after
    ensures |after| < |before| ==> rewind == 0
    ensures rewind == 0 && after == before ==> n == 0
  {
    if rewind > 0 {
      assert Arrived(before, after) == [] && was[..rewind] + [] == now[0..n];
    } else {
      assert Arrived(before, after) == before[..n] && was[..0] + now[..n] == now[0..n];
    }
  }

  // One Content-Length read on the values.
  lemma PartlyServed(was: seq<byte>, now: seq<byte>, rewind: nat, n: nat, before: seq<byte>, after: seq<byte>,
                     read: nat, toRead: nat)
    requires rewind <= |was| == |now| && n <= |now| && toRead > 0
    requires rewind > 0 ==> n == rewind && now == was && after == before
    requires rewind == 0 ==>
      n <= |before| && after == before[n..] && now[..n] == before[..n] && (n == 0 ==> before == [])
    ensures var r := M.Sized(read, toRead, was[..rewind]);
      && Taken(r, before, after)
      && M.Deliver(r, Arrived(before, after)) ==
           if n == 0 then (M.Done(read), M.Failed(M.Closed))
           else if n >= toRead then (M.Completed(read + toRead), M.Data(now[0..toRead]))
           else (M.Sized(read + n, toRead - n, []), M.Data(now[0..n]))
  {
    InHand(was, now, rewind, n, before, after);
    assert rewind == 0 ==> was[..rewind] == [];
    if n >= toRead {
      SubSlice(now, 0, n, 0, toRead);
    }
    hide Arrived;
  }

  lemma UntilClosedServed(was: seq<byte>, now: seq<byte>, rewind: nat, n: nat, before: seq<byte>, after: seq<byte>,
                          read: nat)
    requires rewind <= |was| == |now| && n <= |now|
    requires rewind > 0 ==> n == rewind && now == was && after == before
    requires rewind == 0 ==>
      n <= |before| && after == before[n..] && now[..n] == before[..n] && (n == 0 ==> before == [])
    ensures var r := M.UntilClosed(read, was[..rewind]);
      && Taken(r, before, after)
      && M.Deliver(r, Arrived(before, after)) ==
           if n == 0 then (M.Completed(read), M.NoMore) else (M.UntilClosed(read + n, []), M.Data(now[0..n]))
  {
    InHand(was, now, rewind, n, before, after);
    assert rewind == 0 ==> was[..rewind] == [];
    hide Arrived;
  }

  // The first chunk of what is in hand on the values.
  lemma FirstServed(b: seq<byte>, from: nat, bufEnd: nat, chunkSize: nat, read: nat)
    requires 0 < from <= bufEnd <= |b| && chunkSize > 0
    ensures M.Take(read, chunkSize + 2, b[from..bufEnd], from) ==
      if from + chunkSize + 2 >= bufEnd then
        var actual := if from + chunkSize > bufEnd then bufEnd - from else chunkSize;
        (M.Chunked(read + actual, from + chunkSize + 2 - bufEnd, [], 0, false), M.Data(b[from..from + actual]))
      else
        (M.Chunked(read + chunkSize, 0, b[from + chunkSize + 2..bufEnd], from + chunkSize + 2, false),
         M.Data(b[from..from + chunkSize]))
  {
    var length := bufEnd - from;
    if chunkSize + 2 >= length {
      SubSlice(b, from, bufEnd, 0, if chunkSize > length then length else chunkSize);
      SubSlice(b, from, bufEnd, length, length);
    } else {
      SubSlice(b, from, bufEnd, 0, chunkSize);
      SubSlice(b, from, bufEnd, chunkSize + 2, length);
    }
  }

  class BodyReader {
    var readState: ReadState
    var bodyBuffer: array<byte>
    var rewindBufSize: nat

    ghost predicate Valid()
      reads this
    {
      Consistent(readState, bodyBuffer.Length, rewindBufSize)
    }

    // The reader's state as a value.
    ghost function View(): M.Reader
      requires Valid()
      reads this, bodyBuffer
    {
      ViewOf(readState, bodyBuffer[..], rewindBufSize)
    }

    ghost function Outcome(r: ReadResult): M.Outcome
      requires r.Got? ==> r.offset.start <= r.offset.end <= bodyBuffer.Length
      reads this, bodyBuffer
    {
      match r
      case Got(o) => M.Data(bodyBuffer[..][o.start..o.end])
      case Failure(e) => M.Failed(e)
      case _ => M.NoMore
    }

    constructor ()
      ensures Valid() && View() == M.Start && fresh(bodyBuffer)
    {
      readState := Start;
      bodyBuffer := new byte[0];
      rewindBufSize := 0;
    }

    method SetBuffer(bufToRewind: seq<byte>)
      requires rewindBufSize == 0
      modifies this
      ensures fresh(bodyBuffer) && readState == old(readState)
      ensures BODY_BUFFER_SIZE <= bodyBuffer.Length
      ensures rewindBufSize == |bufToRewind| <= bodyBuffer.Length
      ensures bodyBuffer[..][..rewindBufSize] == bufToRewind
    {
      var buffer := new byte[if BODY_BUFFER_SIZE > |bufToRewind| then BODY_BUFFER_SIZE else |bufToRewind|];
      if bufToRewind != [] {
        rewindBufSize := |bufToRewind|;
        forall i | 0 <= i < |bufToRewind| {
          buffer[i] := bufToRewind[i];
        }
      }
      bodyBuffer := buffer;
    }

    method WithChunkedRead(bufToRewind: seq<byte>)
      requires Valid() && readState.Start?
      modifies this
      ensures Valid() && View() == R.Chunking(bufToRewind) && fresh(bodyBuffer)
    {
      readState := Chunked(0, 0, 0, 0);
      SetBuffer(bufToRewind);
    }

    /** Length 0 also ends a body that was being read. */
    method WithContentLengthRead(length: nat, bufToRewind: seq<byte>)
      requires Valid() && (readState.Start? || length == 0)
      modifies this
      ensures Valid() && View() == R.Counting(length, bufToRewind)
      ensures bodyBuffer == old(bodyBuffer) || fresh(bodyBuffer)
    {
      if length == 0 {
        readState := Completed(0);
      } else {
        SetBuffer(bufToRewind);
        readState := Partial(0, length);
      }
    }

    method WithUntilClosedRead(bufToRewind: seq<byte>)
      requires Valid() && readState.Start?
      modifies this
      ensures Valid() && View() == R.UntilEnd(bufToRewind) && fresh(bodyBuffer)
    {
      SetBuffer(bufToRewind);
      readState := HTTP10(0);
    }

    /** One call answers as the reader on values does for the octets the network
        delivered during the call; an abandoned call leaves what Abandon says. */
    method ReadBody(stream: ByteStream) returns (r: ReadResult)
      requires Valid() && !readState.Start?
      modifies this, bodyBuffer, stream
      ensures Valid() && bodyBuffer == old(bodyBuffer)
      ensures r.Got? ==> r.offset.start <= r.offset.end <= bodyBuffer.Length
      ensures r.Abandoned? ==> stream.unread == old(stream.unread) && View() == R.Abandon(old(View()))
      ensures !r.Abandoned? ==>
        && Taken(old(View()), old(stream.unread), stream.unread)
        && M.Deliver(old(View()), Arrived(old(stream.unread), stream.unread)) == (View(), Outcome(r))
    {
      match readState
      case Completed(_) => r := NoMore;
      case Done(_) => r := NoMore;
      case Partial(_, _) => r := ReadPartially(stream);
      case Chunked(_, _, _, _) => r := ReadChunked(stream);
      case HTTP10(_) => r := ReadUntilClosed(stream);
      case Start => assert false;
    }

    method ReadPartially(stream: ByteStream) returns (r: ReadResult)
      requires Valid() && readState.Partial?
      modifies this, bodyBuffer, stream
      ensures Valid() && bodyBuffer == old(bodyBuffer)
      ensures r.Got? ==> r.offset.start <= r.offset.end <= bodyBuffer.Length
      ensures r.Abandoned? ==> stream.unread == old(stream.unread) && View() == old(View())
      ensures !r.Abandoned? ==>
        && Taken(old(View()), old(stream.unread), stream.unread)
        && M.Deliver(old(View()), Arrived(old(stream.unread), stream.unread)) == (View(), Outcome(r))
    {
      ghost var (was, rewind) := (bodyBuffer[..], rewindBufSize);
      var n := rewindBufSize;
      rewindBufSize := 0;
      if n == 0 {
        var got := stream.Read(bodyBuffer, 0);
        if got.None? {
          return Abandoned;
        }
        n := got.value;
      }
      var read, toRead := readState.read, readState.toRead;
      PartlyServed(was, bodyBuffer[..], rewind, n, old(stream.unread), stream.unread, read, toRead);
      hide M.Deliver, Taken, Arrived;
      assert bodyBuffer[..][..0] == [];
      if n == 0 {
        readState := Done(read);
        return Failure(M.Closed);
      } else if n >= toRead {
        readState := Completed(read + toRead);
        return Got(NewOffset(0, toRead));
      } else {
        readState := Partial(read + n, toRead - n);
        return Got(NewOffset(0, n));
      }
    }

    method ReadUntilClosed(stream: ByteStream) returns (r: ReadResult)
      requires Valid() && readState.HTTP10?
      modifies this, bodyBuffer, stream
      ensures Valid() && bodyBuffer == old(bodyBuffer)
      ensures r.Got? ==> r.offset.start <= r.offset.end <= bodyBuffer.Length
      ensures r.Abandoned? ==> stream.unread == old(stream.unread) && View() == old(View())
      ensures !r.Abandoned? ==>
        && Taken(old(View()), old(stream.unread), stream.unread)
        && M.Deliver(old(View()), Arrived(old(stream.unread), stream.unread)) == (View(), Outcome(r))
    {
      ghost var (was, rewind) := (bodyBuffer[..], rewindBufSize);
      var n := rewindBufSize;
      rewindBufSize := 0;
      if n == 0 {
        var got := stream.Read(bodyBuffer, 0);
        if got.None? {
          return Abandoned;
        }
        n := got.value;
      }
      var read := readState.read;
      UntilClosedServed(was, bodyBuffer[..], rewind, n, old(stream.unread), stream.unread, read);
      hide M.Deliver, Taken, Arrived;
      assert bodyBuffer[..][..0] == [];
      if n == 0 {
        readState := Completed(read);
        return NoMore;
      } else {
        readState := HTTP10(read + n);
        return Got(NewOffset(0, n));
      }
    }

    method ReadChunked(stream: ByteStream) returns (r: ReadResult)
      requires Valid() && readState.Chunked?
      modifies this, bodyBuffer, stream
      ensures Valid() && bodyBuffer == old(bodyBuffer)
      ensures r.Got? ==> r.offset.start <= r.offset.end <= bodyBuffer.Length
      ensures r.Abandoned? ==> stream.unread == old(stream.unread) && View() == R.Abandon(old(View()))
      ensures !r.Abandoned? ==>
        && Taken(old(View()), old(stream.unread), stream.unread)
        && M.Deliver(old(View()), Arrived(old(stream.unread), stream.unread)) == (View(), Outcome(r))
    {
      ghost var before := View();
      var existingStart, existingEnd, expectingFromIo := readState.bufStart, readState.bufEnd, readState.expecting;
      if existingStart == 0 {
        var filled := Fill(stream, existingEnd, expectingFromIo);
        if filled.None? {
          return Abandoned;
        }
        if existingEnd > 0 {
          expectingFromIo := 0;
        }
        existingEnd := filled.value;
        readState := readState.NewBuf(existingEnd);
      }
      ghost var got := Arrived(old(stream.unread), stream.unread);
      assert bodyBuffer[..][existingStart..existingEnd] == before.pending + got;
      assert M.Deliver(before, got) == M.Serve(before.read, before.owed, before.pending + got, existingStart);
      if existingEnd == 0 {
        readState := readState.Interrupt(0);
        return Failure(M.Closed);
      }
      if expectingFromIo > 0 {
        r := Continue(existingEnd, expectingFromIo);
      } else {
        r := ParseChunkedBuf(existingStart, existingEnd);
      }
    }

    // A new buffer from the octets left over or from the stream; a partial head
    // is first moved to the front. Some(end): buffer[..end] is what is in hand.
    method Fill(stream: ByteStream, bufEnd: nat, headSize: nat) returns (end: Option<nat>)
      requires Valid() && readState.Chunked? && readState.bufStart == 0
      requires bufEnd == readState.bufEnd && headSize == readState.expecting
      modifies this`rewindBufSize, bodyBuffer, stream
      ensures end.None? ==>
        Valid() && stream.unread == old(stream.unread) && View() == R.Abandon(old(View()))
      ensures end.Some? ==>
        && Taken(old(View()), old(stream.unread), stream.unread)
        && rewindBufSize == 0 && end.value <= bodyBuffer.Length
        && bodyBuffer[..][0..end.value] == old(View()).pending + Arrived(old(stream.unread), stream.unread)
    {
      if bufEnd == 0 {
        var n := rewindBufSize;
        rewindBufSize := 0;
        if n == 0 {
          end := stream.Read(bodyBuffer, 0);
        } else {
          end := Some(n);
        }
      } else {
        end := FillAfterHead(stream, bufEnd, headSize);
      }
    }

    method FillAfterHead(stream: ByteStream, bufEnd: nat, headSize: nat) returns (end: Option<nat>)
      requires Valid() && readState.Chunked? && readState.bufStart == 0
      requires bufEnd == readState.bufEnd && headSize == readState.expecting && bufEnd > 0
      modifies bodyBuffer, stream
      ensures end.None? ==>
        Valid() && stream.unread == old(stream.unread) && View() == R.Abandon(old(View()))
      ensures end.Some? ==>
        && Taken(old(View()), old(stream.unread), stream.unread)
        && end.value <= bodyBuffer.Length
        && bodyBuffer[..][0..end.value] == old(View()).pending + Arrived(old(stream.unread), stream.unread)
    {
      ghost var was := bodyBuffer[..];
      var from := bufEnd - headSize;
      CopyWithin(from, headSize);
      ghost var moved := bodyBuffer[..];
      HeadMoved(was, moved, from, headSize);
      end := stream.Read(bodyBuffer, headSize);
      if end.Some? {
        ReadBehind(moved, bodyBuffer[..], headSize, old(stream.unread)[..end.value]);
        end := Some(headSize + end.value);
      }
    }

    // The head lies at the front; its old place holds it shifted.
    lemma HeadMoved(was: seq<byte>, moved: seq<byte>, from: nat, size: nat)
      requires from + size <= |was| == |moved| && moved[..size] == was[from..from + size]
      requires forall i :: size <= i < |was| ==> moved[i] == was[i]
      ensures moved[from..from + size] == R.Shifted(was[from..from + size], from)
    {
      assert forall i :: 0 <= i < size ==> moved[..size][i] == was[from..from + size][i];
    }

    lemma ReadBehind(moved: seq<byte>, now: seq<byte>, size: nat, got: seq<byte>)
      requires size + |got| <= |moved| == |now|
      requires now[..size] == moved[..size] && now[size..size + |got|] == got
      ensures now[0..size + |got|] == moved[..size] + got
    {
      assert now[0..size + |got|] == now[..size] + now[size..size + |got|];
    }

    method CopyWithin(from: nat, size: nat)
      requires from + size <= bodyBuffer.Length
      modifies bodyBuffer
      ensures bodyBuffer[..size] == old(bodyBuffer[from..from + size])
      ensures forall i :: size <= i < bodyBuffer.Length ==> bodyBuffer[i] == old(bodyBuffer[i])
    {
      forall i | 0 <= i < size {
        bodyBuffer[i] := bodyBuffer[from + i];
      }
    }

    // The rest of a chunk's payload, or of its CRLF, from the front of the buffer.
    method Continue(bufEnd: nat, expecting: nat) returns (r: ReadResult)
      requires readState.Chunked? && readState.bufStart == 0 && readState.bufEnd == bufEnd
      requires rewindBufSize == 0 && BODY_BUFFER_SIZE <= bodyBuffer.Length
      requires 0 < bufEnd <= bodyBuffer.Length && expecting > 0
      modifies this`readState
      ensures Valid() && r.Got? && r.offset.start <= r.offset.end <= bodyBuffer.Length
      ensures M.Take(old(readState).read, expecting, bodyBuffer[..][0..bufEnd], 0) == (View(), Outcome(r))
    {
      ghost var b := bodyBuffer[..];
      ghost var s := b[0..bufEnd];
      if expecting >= bufEnd + 2 {
        readState := readState.PartialChunk(bufEnd, expecting - bufEnd);
        assert s[..bufEnd] == b[0..bufEnd] && s[bufEnd..] == b[..0];
        return Got(NewOffset(0, bufEnd));
      }
      var payloadSize := if expecting > 2 then expecting - 2 else 0;
      assert s[..payloadSize] == b[0..payloadSize];
      if expecting >= bufEnd {
        readState := readState.PartialChunk(payloadSize, expecting - bufEnd);
        assert s[bufEnd..] == b[..0];
        return Got(NewOffset(0, payloadSize));
      }
      readState := readState.MultiChunk(payloadSize, expecting);
      assert s[expecting..] == b[expecting..bufEnd];
      return Got(NewOffset(0, payloadSize));
    }

    method ParseChunkedBuf(bufStart: nat, bufEnd: nat) returns (r: ReadResult)
      requires readState.Chunked? && readState.bufEnd == bufEnd
      requires rewindBufSize == 0 && BODY_BUFFER_SIZE <= bodyBuffer.Length
      requires bufStart < bufEnd <= bodyBuffer.Length
      modifies this`readState
      ensures Valid() && !r.Abandoned?
      ensures r.Got? ==> r.offset.start <= r.offset.end <= bodyBuffer.Length
      ensures M.Serve(old(readState).read, 0, bodyBuffer[..][bufStart..bufEnd], bufStart) == (View(), Outcome(r))
    {
      hide M.Take, ChunkHead.ScanHead;
      ghost var b := bodyBuffer[..];
      var buffer := bodyBuffer[bufStart..bufEnd];
      assert buffer == b[bufStart..bufEnd];
      match ChunkHead.ParseHead(buffer)
      case Complete(payloadIndex, chunkSize) =>
        if chunkSize == 0 {
          readState := readState.Finish(0);
          return NoMore;
        }
        r := FirstChunk(bufStart, bufEnd, payloadIndex, chunkSize);
        assert buffer[payloadIndex..] == b[bufStart + payloadIndex..bufEnd];
      case Partial =>
        if |buffer| > M.PARTIAL_CHUNK_HEAD_LIMIT {
          readState := readState.Interrupt(0);
          return Failure(M.OverLimit);
        }
        readState := readState.PartialChunkHead(bufEnd, |buffer|);
        return Got(NewOffset(0, 0));
      case Invalid =>
        readState := readState.Interrupt(0);
        return Failure(M.BadChunk);
    }

    method FirstChunk(bufStart: nat, bufEnd: nat, payloadIndex: nat, chunkSize: nat) returns (r: ReadResult)
      requires readState.Chunked? && readState.bufEnd == bufEnd
      requires rewindBufSize == 0 && BODY_BUFFER_SIZE <= bodyBuffer.Length
      requires bufStart + payloadIndex <= bufEnd <= bodyBuffer.Length && payloadIndex > 0 && chunkSize > 0
      modifies this`readState
      ensures Valid() && r.Got? && r.offset.start <= r.offset.end <= bodyBuffer.Length
      ensures var from := bufStart + payloadIndex;
        M.Take(old(readState).read, chunkSize + 2, bodyBuffer[..][from..bufEnd], from) == (View(), Outcome(r))
    {
      FirstServed(bodyBuffer[..], bufStart + payloadIndex, bufEnd, chunkSize, readState.read);
      hide M.Take;
      var length := bufEnd - bufStart;
      var dataEnd := payloadIndex + chunkSize;
      var chunkEnd := dataEnd + 2;
      if chunkEnd >= length {
        var actualSize := if dataEnd > length then length - payloadIndex else chunkSize;
        readState := readState.PartialChunk(actualSize, chunkEnd - length);
        assert bodyBuffer[..][..0] == [];
        return Got(NewOffset(bufStart + payloadIndex, actualSize));
      }
      readState := readState.MultiChunk(chunkSize, bufStart + chunkEnd);
      return Got(NewOffset(bufStart + payloadIndex, chunkSize));
    }
  }
}
