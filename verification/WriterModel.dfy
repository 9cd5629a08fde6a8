/** The body writer on values, and the proof that a client reading its octets by
    the same framing gets exactly what was written. */
module WriterModel {
  import opened Bytes
  import opened Framing
  import R = ReaderModel
  import Runs = ReaderRuns

  // How the end of a body is found: section 6.3 of RFC 9112.
  datatype Mode = Length(n: nat) | Chunks | ToEnd

  // A reader for the mode, with octets already in hand.
  function Opened(mode: Mode, rewind: seq<byte>): R.Reader {
    match mode
    case Length(n) => Runs.Counting(n, rewind)
    case Chunks => Runs.Chunking(rewind)
    case ToEnd => Runs.UntilEnd(rewind)
  }

  // What a client recovers from the octets sent so far.
  ghost function Received(mode: Mode, out: seq<byte>): Decoded {
    Opened(mode, []).Rest(out)
  }

  lemma ReceivedExtends(mode: Mode, s: seq<byte>, t: seq<byte>)
    ensures Received(mode, s).payload <= Received(mode, s + t).payload
  {
    assert [] + s == s && [] + (s + t) == s + t;
    if mode.Chunks? {
      DecodeExtends(0, s, t);
    }
  }

  datatype Writer =
    | Start
    | Completed(size: nat)
    | ContentLength(total: nat, written: nat)
    | ChunkedEncoding(written: nat)
    | HTTP10(written: nat)
  {
    predicate Finished() {
      match this
      case Completed(_) => true
      case ContentLength(total, written) => written >= total
      case _ => false
    }
  }

  function OpenedWriter(mode: Mode): Writer {
    match mode
    case Length(n) => ContentLength(n, 0)
    case Chunks => ChunkedEncoding(0)
    case ToEnd => HTTP10(0)
  }

  // write_body: the new state and the octets sent.
  function Put(w: Writer, b: seq<byte>): (Writer, seq<byte>) {
    match w
    case ContentLength(total, written) =>
      if written >= total then (w, [])
      else
        var n := Min(total - written, |b|);
        (ContentLength(total, written + n), b[..n])
    case ChunkedEncoding(written) => (ChunkedEncoding(written + |b|), EncodeChunk(b))
    case HTTP10(written) => (HTTP10(written + |b|), b)
    case _ => (w, [])
  }

  // finish: the new state, the octets sent, and whether the body was whole.
  function Close(w: Writer): (Writer, seq<byte>, bool) {
    match w
    case ContentLength(total, written) => (Completed(written), [], written >= total)
    case ChunkedEncoding(written) => (Completed(written), LAST_CHUNK, true)
    case HTTP10(written) => (Completed(written), [], true)
    case _ => (w, [], true)
  }

  function Capped(mode: Mode, acc: seq<byte>): seq<byte> {
    if mode.Length? then acc[..Min(mode.n, |acc|)] else acc
  }

  // The writer was handed acc and has sent out.
  ghost predicate Wrote(mode: Mode, w: Writer, acc: seq<byte>, out: seq<byte>) {
    match mode
    case Length(n) => out == Capped(mode, acc) && w == ContentLength(n, |out|)
    case Chunks => Carries(out, acc) && w == ChunkedEncoding(|acc|)
    case ToEnd => out == acc && w == HTTP10(|acc|)
  }

  lemma WroteNothing(mode: Mode)
    ensures Wrote(mode, OpenedWriter(mode), [], [])
  {
    CarriesNothing();
  }

  lemma PutKeeps(mode: Mode, w: Writer, acc: seq<byte>, out: seq<byte>, b: seq<byte>)
    requires Wrote(mode, w, acc, out) && 0 < |b| < USIZE_LIMIT
    ensures var (w', sent) := Put(w, b); Wrote(mode, w', acc + b, out + sent)
  {
    if mode.Chunks? {
      CarriesOne(b);
      CarriesJoin(out, acc, EncodeChunk(b), b);
    }
  }

  /** At any moment the client has exactly the octets handed over (up to the
      announced length); it has the whole body once finish succeeds, which it does
      unless a Content-Length body fell short. */
  lemma WroteMeans(mode: Mode, w: Writer, acc: seq<byte>, out: seq<byte>)
    requires Wrote(mode, w, acc, out)
    ensures Received(mode, out).payload == Capped(mode, acc)
    ensures var (w', sent, whole) := Close(w);
      && w'.Completed?
      && Received(mode, out + sent) ==
           Decoded(Capped(mode, acc), if whole then Framing.Finished else Truncated)
      && (whole <==> mode.Length? ==> mode.n <= |acc|)
  {
    assert forall s: seq<byte> :: [] + s == s;
    assert out + [] == out;
    if mode.Chunks? {
      CarriesMeans(out, acc, []);
      assert out + LAST_CHUNK + [] == out + LAST_CHUNK;
    }
  }
}
