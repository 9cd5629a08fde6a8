/** The limit on partial chunk heads over a whole body: exactly which streams can be
    refused for it under some segmentation. */
module HeadLimit {
  import opened Bytes
  import opened Framing
  import opened ReaderModel
  import opened ReaderRuns
  import opened ChunkHead

  // Some head of the stream is still unfinished one octet past the limit.
  ghost predicate Trips(owed: nat, s: seq<byte>)
    decreases |s|
  {
    if owed > 0 then |s| >= owed && Trips(0, s[owed..])
    else
      || (|s| > PARTIAL_CHUNK_HEAD_LIMIT && ParseHead(s[..PARTIAL_CHUNK_HEAD_LIMIT + 1]).Partial?)
      || (ParseHead(s).Complete? && ParseHead(s).size > 0
          && Trips(ParseHead(s).size + 2, s[ParseHead(s).payloadIndex..]))
  }

  // The error that ends the reading of a chunked body: net(i) picks how much
  // arrives during call i. None: it ends well, or waits inside a head for ever.
  function Fate(r: Reader, unread: seq<byte>, net: nat -> nat, i: nat): Option<ReadError>
    requires r.Chunked? && r.Sound()
    decreases Fuel(r, unread)
  {
    if r.NeedsInput() && unread == [] then if r.pending == [] then Some(Closed) else None
    else
      var n := if r.NeedsInput() then 1 + net(i) % |unread| else 0;
      var (got, rest) := (unread[..n], unread[n..]);
      var (r', o) := Deliver(r, got);
      ReadOn(r, got, rest);
      assert got + rest == unread;
      match o
      case Failed(e) => Some(e)
      case NoMore => None
      case Data(_) => Fate(r', rest, net, i + 1)
  }

  // Any call that reads or has work in hand gets on.
  lemma ReadOn(r: Reader, got: seq<byte>, rest: seq<byte>)
    requires r.Chunked? && r.Sound() && (got != [] <==> r.NeedsInput())
    ensures var (r', o) := Deliver(r, got);
      o.Data? ==> r'.Chunked? && r'.Sound() && Fuel(r', rest) < Fuel(r, got + rest)
  {
    DeliverAccounts(r, got, rest);
    hide Accounted;
  }

  lemma TripsOwed(owed: nat, a: seq<byte>, t: seq<byte>)
    requires |a| <= owed
    ensures Trips(owed, a + t) <==> Trips(owed - |a|, t)
  {
    if a == [] {
      assert a + t == t;
    } else if |a + t| >= owed {
      assert (a + t)[owed..] == t[owed - |a|..];
      assert owed == |a| ==> t[owed - |a|..] == t;
    }
  }

  // What Take leaves behind trips when all of it did.
  lemma TripsTaken(owed: nat, s: seq<byte>, rest: seq<byte>)
    ensures var used := Min(owed, |s|);
      Trips(owed, s + rest) <==> Trips(owed - used, s[used..] + rest)
  {
    var used := Min(owed, |s|);
    assert s + rest == s[..used] + (s[used..] + rest);
    TripsOwed(owed, s[..used], s[used..] + rest);
  }

  lemma TripsComplete(s: seq<byte>, rest: seq<byte>)
    requires ParseHead(s).Complete? && ParseHead(s).size > 0
    ensures Trips(ParseHead(s).size + 2, s[ParseHead(s).payloadIndex..] + rest) ==> Trips(0, s + rest)
  {
    HeadStable(s, rest);
    assert (s + rest)[ParseHead(s).payloadIndex..] == s[ParseHead(s).payloadIndex..] + rest;
  }

  lemma TripsPartial(s: seq<byte>, rest: seq<byte>)
    requires ParseHead(s).Partial? && |s| > PARTIAL_CHUNK_HEAD_LIMIT
    ensures Trips(0, s + rest)
  {
    var (k, all) := (PARTIAL_CHUNK_HEAD_LIMIT + 1, s + rest);
    assert all[..k] == s[..k] && s[..k] + s[k..] == s;
    if !ParseHead(s[..k]).Partial? {
      HeadStable(s[..k], s[k..]);
    }
  }

  // One call: what is refused trips, and what trips after it tripped before.
  lemma RefusedStep(r: Reader, got: seq<byte>, rest: seq<byte>)
    requires r.Chunked? && r.Sound() && (got != [] <==> r.NeedsInput())
    ensures var ((r', o), all) := (Deliver(r, got), r.pending + got + rest);
      && (o == Failed(OverLimit) ==> Trips(r.owed, all))
      && (o.Data? && Trips(r'.owed, r'.pending + rest) ==> Trips(r.owed, all))
  {
    hide Trips;
    var s := r.pending + got;
    if r.owed > 0 {
      TripsTaken(r.owed, s, rest);
    } else if ParseHead(s).Partial? {
      if |s| > PARTIAL_CHUNK_HEAD_LIMIT {
        TripsPartial(s, rest);
      }
    } else if ParseHead(s).Complete? && ParseHead(s).size > 0 {
      TripsTaken(ParseHead(s).size + 2, s[ParseHead(s).payloadIndex..], rest);
      TripsComplete(s, rest);
    }
  }

  /** However the stream is cut, a refusal over the limit means that it trips. */
  lemma {:induction false} RefusedTrips(r: Reader, unread: seq<byte>, net: nat -> nat, i: nat)
    requires r.Chunked? && r.Sound() && Fate(r, unread, net, i) == Some(OverLimit)
    ensures Trips(r.owed, r.pending + unread)
    decreases Fuel(r, unread)
  {
    var n := if r.NeedsInput() then 1 + net(i) % |unread| else 0;
    var (got, rest) := (unread[..n], unread[n..]);
    assert got + rest == unread && r.pending + got + rest == r.pending + unread;
    ReadOn(r, got, rest);
    RefusedStep(r, got, rest);
    hide Deliver, Trips, Fuel;
    if Deliver(r, got).1.Data? {
      RefusedTrips(Deliver(r, got).0, rest, net, i + 1);
    }
  }

  // A stream that trips does not do so before its next octet.
  lemma TripsWaits(owed: nat, p: seq<byte>)
    requires p == [] || (owed == 0 && ParseHead(p).Partial? && |p| <= PARTIAL_CHUNK_HEAD_LIMIT)
    ensures !Trips(owed, p)
  {
  }

  // With a head settled within the limit the stream trips later or not at all.
  lemma TripsSettled(s: seq<byte>, rest: seq<byte>)
    requires !ParseHead(s).Partial? && |s| <= PARTIAL_CHUNK_HEAD_LIMIT + 1 && Trips(0, s + rest)
    ensures ParseHead(s).Complete? && ParseHead(s).size > 0
    ensures Trips(ParseHead(s).size + 2, s[ParseHead(s).payloadIndex..] + rest)
  {
    HeadStable(s, rest);
    var (k, all) := (PARTIAL_CHUNK_HEAD_LIMIT + 1, s + rest);
    if |all| > PARTIAL_CHUNK_HEAD_LIMIT {
      assert all[..k] == s + rest[..k - |s|];
      HeadStable(s, rest[..k - |s|]);
    }
    if ParseHead(s).Complete? {
      assert all[ParseHead(s).payloadIndex..] == s[ParseHead(s).payloadIndex..] + rest;
    }
  }

  function OneByOne(i: nat): nat {
    0
  }

  // A head that was unfinished without its last octet ends with it.
  lemma EndsNow(p: seq<byte>, s: seq<byte>)
    requires ParseHead(s).Complete? && s != [] && p == s[..|s| - 1] && (p == [] || ParseHead(p).Partial?)
    ensures ParseHead(s).payloadIndex == |s|
  {
    HeadCut(s, |p|);
    assert p == [] ==> |s| == 1;
  }

  // One octet more: refused, or it still trips.
  lemma SettledStep(r: Reader, got: seq<byte>, rest: seq<byte>)
    requires r.Chunked? && r.Sound() && (r.pending == [] || r.scanned) && |got| == 1
    requires Trips(r.owed, r.pending + got + rest)
    ensures var (r', o) := Deliver(r, got);
      && (o == Failed(OverLimit) || o.Data?)
      && (o.Data? ==> (r'.pending == [] || r'.scanned) && Trips(r'.owed, r'.pending + rest))
  {
    hide Trips;
    var s := r.pending + got;
    if r.owed > 0 {
      TripsTaken(r.owed, s, rest);
    } else if !ParseHead(s).Partial? {
      TripsSettled(s, rest);
      assert s[..|s| - 1] == r.pending;
      EndsNow(r.pending, s);
      TripsTaken(ParseHead(s).size + 2, s[|s|..], rest);
    }
  }

  lemma FateOne(r: Reader, unread: seq<byte>, i: nat)
    requires r.Chunked? && r.Sound() && r.NeedsInput() && unread != []
    ensures var (r', o) := Deliver(r, unread[..1]);
      && (o.Failed? ==> Fate(r, unread, OneByOne, i) == Some(o.error))
      && (o.Data? ==>
            r'.Chunked? && r'.Sound() && Fate(r, unread, OneByOne, i) == Fate(r', unread[1..], OneByOne, i + 1))
  {
    assert OneByOne(i) % |unread| == 0;
    ReadOn(r, unread[..1], unread[1..]);
    hide Deliver, Fuel;
  }

  /** A stream that trips is refused when it arrives octet by octet. */
  lemma {:induction false} TripsRefused(r: Reader, unread: seq<byte>, i: nat)
    requires r.Chunked? && r.Sound() && (r.pending == [] || r.scanned)
    requires Trips(r.owed, r.pending + unread)
    ensures Fate(r, unread, OneByOne, i) == Some(OverLimit)
    decreases Fuel(r, unread)
  {
    assert r.pending + [] == r.pending;
    TripsWaits(r.owed, r.pending);
    var (got, rest) := (unread[..1], unread[1..]);
    assert got + rest == unread && r.pending + got + rest == r.pending + unread;
    ReadOn(r, got, rest);
    SettledStep(r, got, rest);
    FateOne(r, unread, i);
    hide Deliver, Trips, Fuel, Fate;
    if Deliver(r, got).1.Data? {
      TripsRefused(Deliver(r, got).0, rest, i + 1);
    }
  }

  /** Some segmentation of a stream gets it refused over the limit exactly when one of
      its heads is unfinished one octet past the limit. */
  lemma LimitExactly(w: seq<byte>)
    ensures (exists net: nat -> nat :: Fate(Chunking([]), w, net, 0) == Some(OverLimit)) <==> Trips(0, w)
  {
    assert [] + w == w;
    if Trips(0, w) {
      TripsRefused(Chunking([]), w, 0);
    }
    forall net: nat -> nat | Fate(Chunking([]), w, net, 0) == Some(OverLimit) ensures Trips(0, w) {
      RefusedTrips(Chunking([]), w, net, 0);
    }
  }

  /** For a stream whose heads are well formed that is exactly when its heads do not
      fit the limit. */
  lemma {:induction false} TripsIsMisfit(owed: nat, s: seq<byte>)
    ensures !HeadsFit(owed, s, PARTIAL_CHUNK_HEAD_LIMIT) ==> Trips(owed, s)
    ensures Decode(owed, s).ending != Malformed && Trips(owed, s) ==> !HeadsFit(owed, s, PARTIAL_CHUNK_HEAD_LIMIT)
    decreases |s|
  {
    var k := PARTIAL_CHUNK_HEAD_LIMIT + 1;
    if owed > 0 {
      if |s| >= owed {
        TripsIsMisfit(0, s[owed..]);
      }
    } else if ParseHead(s).Complete? {
      if |s| >= k {
        HeadCut(s, k);
      }
      if ParseHead(s).size > 0 {
        TripsIsMisfit(ParseHead(s).size + 2, s[ParseHead(s).payloadIndex..]);
      }
    } else if ParseHead(s).Partial? && |s| >= k {
      assert s + [] == s;
      TripsPartial(s, []);
    }
  }
}
