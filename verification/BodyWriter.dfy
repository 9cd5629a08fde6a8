/** The body writer on a socket that may take less than it is offered, or fail. */
module BodyWriting {
  import opened Bytes
  import opened Framing
  import ChunkHead
  import W = WriterModel

  datatype WriteResult = Written | WriteZero | Broken

  // All that left, of octets meant to leave, is some first part of them.
  ghost predicate SentPart(was: seq<byte>, now: seq<byte>, out: seq<byte>) {
    exists k :: 0 <= k <= |out| && now == was + out[..k]
  }

  class ByteSink {
    var sent: seq<byte>
    const vectored: bool

    constructor (vectored: bool)
      ensures sent == [] && this.vectored == vectored
    {
      sent := [];
      this.vectored := vectored;
    }

    // One write: Some(n) when the first n octets were taken.
    method Write(data: seq<byte>) returns (n: Option<nat>)
      modifies this
      ensures n.None? ==> sent == old(sent)
      ensures n.Some? ==> n.value <= |data| && sent == old(sent) + data[..n.value]
    {
      var up: bool := *;
      if !up {
        return None;
      }
      var k: nat :| k <= |data|;
      sent := sent + data[..k];
      return Some(k);
    }

    // write_all of the I/O library: everything, or a part and an error.
    method WriteAll(data: seq<byte>) returns (ok: bool)
      modifies this
      ensures ok ==> sent == old(sent) + data
      ensures SentPart(old(sent), sent, data)
    {
      var up: bool := *;
      var k: nat :| k <= |data|;
      ghost var was := sent;
      if up {
        k := |data|;
        assert data[..k] == data;
      }
      sent := sent + data[..k];
      assert sent == was + data[..k];
      return up;
    }

    method Flush() returns (ok: bool) {
      ok := *;
    }
  }

  // ---- write_vec_all: a chain of segments and short writes ----

  // The first segment with octets in it.
  function Chunk(parts: seq<seq<byte>>): seq<byte> {
    if parts == [] then [] else if parts[0] != [] then parts[0] else Chunk(parts[1..])
  }

  function Advance(parts: seq<seq<byte>>, n: nat): (rest: seq<seq<byte>>)
    requires n <= |Concat(parts)|
    ensures Concat(rest) == Concat(parts)[n..]
  {
    if parts == [] then []
    else if n < |parts[0]| then
      assert Concat([parts[0][n..]] + parts[1..]) == parts[0][n..] + Concat(parts[1..]) by {
        assert ([parts[0][n..]] + parts[1..])[1..] == parts[1..];
      }
      [parts[0][n..]] + parts[1..]
    else Advance(parts[1..], n - |parts[0]|)
  }

  lemma {:induction false} ChunkFirst(parts: seq<seq<byte>>)
    ensures Chunk(parts) <= Concat(parts)
    ensures Concat(parts) != [] ==> Chunk(parts) != []
  {
    if parts != [] && parts[0] == [] {
      ChunkFirst(parts[1..]);
    }
  }

  method PollWriteVec(sink: ByteSink, parts: seq<seq<byte>>) returns (n: Option<nat>, rest: seq<seq<byte>>)
    modifies sink
    ensures n.None? ==> rest == parts && sink.sent == old(sink.sent)
    ensures n.Some? ==>
      && n.value <= |Concat(parts)| && Concat(rest) == Concat(parts)[n.value..]
      && sink.sent == old(sink.sent) + Concat(parts)[..n.value]
  {
    if Concat(parts) == [] {
      return Some(0), parts;
    }
    ChunkFirst(parts);
    if sink.vectored {
      n := sink.Write(Concat(parts));
    } else {
      n := sink.Write(Chunk(parts));
    }
    if n.None? {
      return None, parts;
    }
    assert !sink.vectored ==> Chunk(parts)[..n.value] == Concat(parts)[..n.value];
    return n, Advance(parts, n.value);
  }

  /** However short the writes, on the vectored path or one segment at a time:
      every octet of the chain in order, or a proper prefix and an error. */
  method WriteVecAll(sink: ByteSink, parts: seq<seq<byte>>) returns (r: WriteResult)
    modifies sink
    ensures r.Written? ==> sink.sent == old(sink.sent) + Concat(parts)
    ensures !r.Written? ==>
      exists k :: 0 <= k < |Concat(parts)| && sink.sent == old(sink.sent) + Concat(parts)[..k]
  {
    var rest := parts;
    ghost var k: nat := 0;
    ghost var all := Concat(parts);
    while Concat(rest) != []
      invariant k <= |all| && Concat(rest) == all[k..]
      invariant sink.sent == old(sink.sent) + all[..k]
      decreases |Concat(rest)|
    {
      var n;
      n, rest := PollWriteVec(sink, rest);
      if n.None? {
        return Broken;
      }
      if n.value == 0 {
        return WriteZero;
      }
      assert all[..k] + all[k..][..n.value] == all[..k + n.value];
      k := k + n.value;
    }
    assert all[..k] == all;
    return Written;
  }

  // ---- the writer ----

  // Done(None) is `Ok(None)`; Premature is raised by finish.
  datatype Result = Done(n: Option<nat>) | IoError | Premature

  class BodyWriter {
    var writeState: W.Writer

    constructor ()
      ensures writeState == W.Start
    {
      writeState := W.Start;
    }

    method WithContentLengthWrite(cl: nat)
      modifies this
      ensures writeState == W.OpenedWriter(W.Length(cl))
    {
      writeState := W.ContentLength(cl, 0);
    }

    method WithChunkedEncodingWrite()
      modifies this
      ensures writeState == W.OpenedWriter(W.Chunks)
    {
      writeState := W.ChunkedEncoding(0);
    }

    method WithUntilClosedWrite()
      modifies this
      ensures writeState == W.OpenedWriter(W.ToEnd)
    {
      writeState := W.HTTP10(0);
    }

    /** Success sends exactly what Put says and moves to its state; after an error
        a prefix of it has been sent. */
    method WriteBody(sink: ByteSink, buffer: seq<byte>) returns (r: Result)
      requires !writeState.Start?
      modifies this, sink
      ensures !r.Premature?
      ensures var (w, out) := W.Put(old(writeState), buffer);
        if r.Done? then writeState == w && sink.sent == old(sink.sent) + out
        else (writeState == w || writeState == old(writeState)) && SentPart(old(sink.sent), sink.sent, out)
    {
      match writeState
      case Completed(_) => return Done(None);
      case ContentLength(_, _) => r := WriteByContentLength(sink, buffer);
      case ChunkedEncoding(_) => r := WriteByChunkedEncoding(sink, buffer);
      case HTTP10(_) => r := WriteUntilClosed(sink, buffer);
      case Start => assert false;
    }

    method WriteByContentLength(sink: ByteSink, buffer: seq<byte>) returns (r: Result)
      requires writeState.ContentLength?
      modifies this, sink
      ensures !r.Premature?
      ensures var (w, out) := W.Put(old(writeState), buffer);
        if r.Done? then writeState == w && sink.sent == old(sink.sent) + out
        else (writeState == w || writeState == old(writeState)) && SentPart(old(sink.sent), sink.sent, out)
    {
      var total, written := writeState.total, writeState.written;
      if written >= total {
        return Done(None);
      }
      var toWrite := total - written;
      if toWrite >= |buffer| {
        toWrite := |buffer|;
      }
      var ok := sink.WriteAll(buffer[..toWrite]);
      if !ok {
        return IoError;
      }
      writeState := W.ContentLength(total, written + toWrite);
      if writeState.Finished() {
        ok := sink.Flush();
        if !ok {
          return IoError;
        }
      }
      return Done(Some(toWrite));
    }

    method WriteByChunkedEncoding(sink: ByteSink, buffer: seq<byte>) returns (r: Result)
      requires writeState.ChunkedEncoding?
      modifies this, sink
      ensures !r.Premature?
      ensures var (w, out) := W.Put(old(writeState), buffer);
        if r.Done? then writeState == w && sink.sent == old(sink.sent) + out
        else (writeState == w || writeState == old(writeState)) && SentPart(old(sink.sent), sink.sent, out)
    {
      var chunkSize := |buffer|;
      var chunkSizeBuf := ChunkHead.HexUpper(chunkSize) + CRLF;
      var outputBuf := [chunkSizeBuf, buffer, CRLF];
      assert Concat(outputBuf) == EncodeChunk(buffer) by {
        assert outputBuf[1..][1..] == [CRLF];
        assert Concat([CRLF]) == CRLF;
      }
      var written := WriteVecAll(sink, outputBuf);
      if !written.Written? {
        return IoError;
      }
      ghost var out := EncodeChunk(buffer);
      assert out[..|out|] == out;
      var ok := sink.Flush();
      if !ok {
        return IoError;
      }
      writeState := W.ChunkedEncoding(writeState.written + chunkSize);
      return Done(Some(chunkSize));
    }

    method WriteUntilClosed(sink: ByteSink, buffer: seq<byte>) returns (r: Result)
      requires writeState.HTTP10?
      modifies this, sink
      ensures !r.Premature?
      ensures var (w, out) := W.Put(old(writeState), buffer);
        if r.Done? then writeState == w && sink.sent == old(sink.sent) + out
        else (writeState == w || writeState == old(writeState)) && SentPart(old(sink.sent), sink.sent, out)
    {
      var ok := sink.WriteAll(buffer);
      if !ok {
        return IoError;
      }
      writeState := W.HTTP10(writeState.written + |buffer|);
      ok := sink.Flush();
      if !ok {
        return IoError;
      }
      return Done(Some(|buffer|));
    }

    /** A premature body is reported exactly when Close calls it not whole. */
    method Finish(sink: ByteSink) returns (r: Result)
      modifies this, sink
      ensures var (w, out, whole) := W.Close(old(writeState));
        && writeState == w
        && (r.Premature? <==> !whole)
        && if r.Done? then sink.sent == old(sink.sent) + out
           else SentPart(old(sink.sent), sink.sent, out)
    {
      match writeState
      case Completed(_) => return Done(None);
      case Start => return Done(None);
      case ContentLength(total, written) =>
        writeState := W.Completed(written);
        if written < total {
          ghost var none: seq<byte> := [];
          assert none[..0] == none;
          return Premature;
        }
        return Done(Some(written));
      case ChunkedEncoding(written) =>
        var ok := sink.WriteAll(LAST_CHUNK);
        writeState := W.Completed(written);
        return if ok then Done(Some(written)) else IoError;
      case HTTP10(written) =>
        writeState := W.Completed(written);
        return Done(Some(written));
    }
  }
}
