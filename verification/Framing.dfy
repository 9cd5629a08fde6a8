/** What a body's octets mean. `Decode` is the reference reading of the chunked
    coding (section 7.1 of RFC 9112) as one function of the whole octet string,
    with no buffer, no state and no reads; the reader, the writer and the relay
    are all measured against it. */
module Framing {
  import opened Bytes
  import opened ChunkHead

  // Finished: the terminating chunk was met. Truncated: more octets are needed.
  datatype Ending = Finished | Truncated | Malformed

  datatype Decoded = Decoded(payload: seq<byte>, ending: Ending) {
    function Prepend(front: seq<byte>): Decoded {
      Decoded(front + payload, ending)
    }
  }

  // Of the next n octets of a chunk that still owes `owed` octets, its final
  // CRLF included, this many are payload.
  function PayloadPart(owed: nat, n: nat): (k: nat)
    ensures k <= n
  {
    Min(if owed > 2 then owed - 2 else 0, n)
  }

  // `owed` octets of the current chunk come first, then further chunks.
  function Decode(owed: nat, s: seq<byte>): Decoded
    decreases |s|
  {
    if owed > 0 then
      if |s| < owed then Decoded(s[..PayloadPart(owed, |s|)], Truncated)
      else Decode(0, s[owed..]).Prepend(s[..PayloadPart(owed, owed)])
    else
      match ParseHead(s)
      case Partial => Decoded([], Truncated)
      case Invalid => Decoded([], Malformed)
      case Complete(i, size) =>
        if size == 0 then Decoded([], Finished) else Decode(size + 2, s[i..])
  }

  // Every head of the stream is short enough to be completed by the reader:
  // it gives up on a partial head of more than `limit` octets.
  ghost predicate HeadsFit(owed: nat, s: seq<byte>, limit: nat)
    decreases |s|
  {
    if owed > 0 then |s| < owed || HeadsFit(0, s[owed..], limit)
    else
      match ParseHead(s)
      case Partial => |s| <= limit
      case Invalid => true
      case Complete(i, size) => i <= limit + 1 && (size == 0 || HeadsFit(size + 2, s[i..], limit))
  }

  /** Octets of the current chunk can be taken off the front one read at a time. */
  lemma DecodeOwed(owed: nat, a: seq<byte>, t: seq<byte>)
    requires |a| <= owed
    ensures Decode(owed, a + t) == Decode(owed - |a|, t).Prepend(a[..PayloadPart(owed, |a|)])
  {
    if a == [] {
      assert a + t == t;
    } else if |a| == owed {
      assert (a + t)[owed..] == t;
      assert (a + t)[..PayloadPart(owed, owed)] == a[..PayloadPart(owed, owed)];
    } else {
      var left := owed - |a|;
      if |a + t| < owed {
        assert (a + t)[..PayloadPart(owed, |a + t|)]
            == a[..PayloadPart(owed, |a|)] + t[..PayloadPart(left, |t|)];
      } else {
        assert (a + t)[owed..] == t[left..];
        assert (a + t)[..PayloadPart(owed, owed)]
            == a[..PayloadPart(owed, |a|)] + t[..PayloadPart(left, left)];
      }
    }
  }

  lemma HeadsFitOwed(owed: nat, a: seq<byte>, t: seq<byte>, limit: nat)
    requires |a| <= owed
    ensures HeadsFit(owed, a + t, limit) ==> HeadsFit(owed - |a|, t, limit)
  {
    if a == [] {
      assert a + t == t;
    } else if |a + t| >= owed {
      assert (a + t)[owed..] == t[owed - |a|..];
      assert owed == |a| ==> t[owed - |a|..] == t;
    }
  }

  /** A longer stream never takes back payload, and a verdict once reached stands. */
  lemma {:induction false} DecodeExtends(owed: nat, s: seq<byte>, t: seq<byte>)
    ensures Decode(owed, s).payload <= Decode(owed, s + t).payload
    ensures Decode(owed, s).ending != Truncated ==> Decode(owed, s + t) == Decode(owed, s)
    decreases |s|
  {
    if owed > 0 {
      if |s| < owed {
        DecodeOwed(owed, s, t);
      } else {
        assert (s + t)[owed..] == s[owed..] + t;
        assert (s + t)[..PayloadPart(owed, owed)] == s[..PayloadPart(owed, owed)];
        DecodeExtends(0, s[owed..], t);
      }
    } else if !ParseHead(s).Partial? {
      HeadStable(s, t);
      if ParseHead(s).Complete? && ParseHead(s).size != 0 {
        var i := ParseHead(s).payloadIndex;
        assert (s + t)[i..] == s[i..] + t;
        DecodeExtends(ParseHead(s).size + 2, s[i..], t);
      }
    }
  }

  // ---- the writer's side ----

  const LAST_CHUNK: seq<byte> := [48] + CRLF + CRLF

  function EncodeChunk(b: seq<byte>): seq<byte> {
    HexUpper(|b|) + CRLF + b + CRLF
  }

  // s is a whole number of chunks carrying p: decoding resumes cleanly after it.
  ghost predicate Carries(s: seq<byte>, p: seq<byte>) {
    forall t :: Decode(0, s + t) == Decode(0, t).Prepend(p)
  }

  lemma DecodeChunk(b: seq<byte>, t: seq<byte>)
    requires 0 < |b| < USIZE_LIMIT
    ensures Decode(0, EncodeChunk(b) + t) == Decode(0, t).Prepend(b)
  {
    var head := HexUpper(|b|) + CRLF;
    var s := EncodeChunk(b) + t;
    assert s == head + (b + CRLF + t);
    SizeLineRoundTrip(|b|, b + CRLF + t);
    assert s[|head|..] == (b + CRLF) + t;
    DecodeOwed(|b| + 2, b + CRLF, t);
    assert (b + CRLF)[..PayloadPart(|b| + 2, |b| + 2)] == b;
  }

  lemma CarriesNothing()
    ensures Carries([], [])
  {
    forall t ensures Decode(0, [] + t) == Decode(0, t).Prepend([]) {
      assert [] + t == t;
    }
  }

  lemma JoinAt(f: seq<byte> -> Decoded, s: seq<byte>, p: seq<byte>, u: seq<byte>, q: seq<byte>, t: seq<byte>)
    requires f(s + (u + t)) == f(u + t).Prepend(p)
    requires f(u + t) == f(t).Prepend(q)
    ensures f(s + u + t) == f(t).Prepend(p + q)
  {
    assert s + u + t == s + (u + t);
    assert p + (q + f(t).payload) == p + q + f(t).payload;
  }

  lemma CarriesJoin(s: seq<byte>, p: seq<byte>, u: seq<byte>, q: seq<byte>)
    requires Carries(s, p) && Carries(u, q)
    ensures Carries(s + u, p + q)
  {
    forall t ensures Decode(0, s + u + t) == Decode(0, t).Prepend(p + q) {
      assert Decode(0, s + (u + t)) == Decode(0, u + t).Prepend(p);
      assert Decode(0, u + t) == Decode(0, t).Prepend(q);
      JoinAt(x => Decode(0, x), s, p, u, q, t);
    }
  }

  lemma CarriesOne(b: seq<byte>)
    requires 0 < |b| < USIZE_LIMIT
    ensures Carries(EncodeChunk(b), b)
  {
    forall t ensures Decode(0, EncodeChunk(b) + t) == Decode(0, t).Prepend(b) {
      DecodeChunk(b, t);
    }
  }

  lemma DecodeLast(t: seq<byte>)
    ensures Decode(0, LAST_CHUNK + t) == Decoded([], Finished)
  {
    assert LAST_CHUNK + t == HexUpper(0) + CRLF + (CRLF + t);
    SizeLineRoundTrip(0, CRLF + t);
  }

  /** What the client has been given after some chunks, before and after the
      terminating one. */
  lemma CarriesMeans(s: seq<byte>, p: seq<byte>, t: seq<byte>)
    requires Carries(s, p)
    ensures Decode(0, s) == Decoded(p, Truncated)
    ensures Decode(0, s + LAST_CHUNK + t) == Decoded(p, Finished)
  {
    assert s + [] == s;
    assert Decode(0, []) == Decoded([], Truncated);
    assert Decode(0, s + []) == Decode(0, []).Prepend(p);
    assert s + LAST_CHUNK + t == s + (LAST_CHUNK + t);
    DecodeLast(t);
    assert Decode(0, s + (LAST_CHUNK + t)) == Decode(0, LAST_CHUNK + t).Prepend(p);
  }

  function EncodeAll(bufs: seq<seq<byte>>): seq<byte> {
    if bufs == [] then [] else EncodeChunk(bufs[0]) + EncodeAll(bufs[1..])
  }

  lemma {:induction false} EncodeAllCarries(bufs: seq<seq<byte>>)
    requires forall b :: b in bufs ==> 0 < |b| < USIZE_LIMIT
    ensures Carries(EncodeAll(bufs), Concat(bufs))
  {
    if bufs == [] {
      CarriesNothing();
    } else {
      EncodeAllCarries(bufs[1..]);
      CarriesOne(bufs[0]);
      CarriesJoin(EncodeChunk(bufs[0]), bufs[0], EncodeAll(bufs[1..]), Concat(bufs[1..]));
    }
  }

  // The heads the writer emits are far below the reader's limit.
  lemma {:induction false} EncodedHeadsFit(bufs: seq<seq<byte>>, t: seq<byte>, limit: nat)
    requires forall b :: b in bufs ==> 0 < |b| < USIZE_LIMIT
    requires limit >= MAX_DIGITS + 1
    ensures HeadsFit(0, EncodeAll(bufs) + LAST_CHUNK + t, limit)
  {
    var s := EncodeAll(bufs) + LAST_CHUNK + t;
    if bufs == [] {
      assert s == HexUpper(0) + CRLF + (CRLF + t);
      SizeLineRoundTrip(0, CRLF + t);
    } else {
      var b, rest := bufs[0], EncodeAll(bufs[1..]) + LAST_CHUNK + t;
      var head := HexUpper(|b|) + CRLF;
      assert s == head + (b + CRLF + rest);
      SizeLineRoundTrip(|b|, b + CRLF + rest);
      UsizeDigits(|b|);
      assert s[|head|..] == b + CRLF + rest;
      assert (b + CRLF + rest)[|b| + 2..] == rest;
      EncodedHeadsFit(bufs[1..], t, limit);
    }
  }
}
