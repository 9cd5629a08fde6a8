/** The fixed-window limiter. INCR and EXPIRE are two commands, so other callers'
    INCRs may come in between; only the caller that saw 1 sends the EXPIRE, once,
    at any later time. A key without a lifetime stays. */
module FixedWindow {
  import opened Bytes

  // since: when the count became 1; deadline: when the key runs out.
  datatype Counter = Gone | Counting(count: nat, since: int, deadline: Option<int>)

  // lapsed: Redis finds the key expired when it is incremented.
  datatype Event = Incr(now: int, lapsed: bool) | Expire(now: int)

  function Step(limit: nat, period: nat, w: Counter, e: Event): (Counter, bool) {
    match e
    case Incr(now, lapsed) =>
      if lapsed || w.Gone? then (Counting(1, now, None), 1 <= limit)
      else (w.(count := w.count + 1), w.count + 1 <= limit)
    case Expire(now) =>
      (if w.Gone? then w else w.(deadline := Some(now + period)), false)
  }

  predicate MayHappen(w: Counter, e: Event) {
    match e
    case Incr(now, lapsed) =>
      if lapsed then w.Counting? && w.deadline.Some? && w.deadline.value <= now
      else w.Counting? && w.deadline.Some? ==> now <= w.deadline.value
    case Expire(_) => w.Counting? && w.deadline.None?
  }

  // A possible course of events from counter w at time c.
  predicate Possible(limit: nat, period: nat, w: Counter, c: int, events: seq<Event>)
    decreases |events|
  {
    events == [] ||
    (c <= events[0].now && MayHappen(w, events[0]) &&
     Possible(limit, period, Step(limit, period, w, events[0]).0, events[0].now, events[1..]))
  }

  // Requests let through at a time in [from, to).
  function Admitted(limit: nat, period: nat, w: Counter, events: seq<Event>, from: int, to: int): nat
    decreases |events|
  {
    if events == [] then 0
    else
      var (w', yes) := Step(limit, period, w, events[0]);
      (if yes && from <= events[0].now < to then 1 else 0)
      + Admitted(limit, period, w', events[1..], from, to)
  }

  function Room(limit: nat, w: Counter): nat {
    if w.Gone? then limit else if w.count >= limit then 0 else limit - w.count
  }

  ghost predicate Sane(period: nat, w: Counter, c: int) {
    w.Counting? ==>
      (w.count >= 1 && w.since <= c && (w.deadline.Some? ==> w.since + period <= w.deadline.value))
  }

  // A window opened inside the interval outlasts it.
  lemma {:induction false} OneWindow(limit: nat, period: nat, w: Counter, c: int, events: seq<Event>, from: int)
    requires Sane(period, w, c) && Possible(limit, period, w, c, events)
    requires w.Gone? ==> from <= c
    requires w.Counting? ==> from <= w.since
    ensures Admitted(limit, period, w, events, from, from + period) <= Room(limit, w)
    decreases |events|
  {
    if events != [] {
      var e := events[0];
      if e.now >= from + period {
        NothingAfter(limit, period, w, c, events, from, from + period);
      } else {
        OneWindow(limit, period, Step(limit, period, w, e).0, e.now, events[1..], from);
      }
    }
  }

  lemma {:induction false} NothingAfter(limit: nat, period: nat, w: Counter, c: int, events: seq<Event>, from: int,
                                        to: int)
    requires Possible(limit, period, w, c, events) && (events != [] ==> events[0].now >= to)
    ensures Admitted(limit, period, w, events, from, to) == 0
    decreases |events|
  {
    if events != [] {
      NothingAfter(limit, period, Step(limit, period, w, events[0]).0, events[0].now, events[1..], from, to);
    }
  }

  // A window opened before the interval leaves room for one more.
  lemma {:induction false} TwoWindows(limit: nat, period: nat, w: Counter, c: int, events: seq<Event>, from: int)
    requires Sane(period, w, c) && Possible(limit, period, w, c, events)
    requires from <= c && w.Counting? && w.since < from
    ensures Admitted(limit, period, w, events, from, from + period) <= Room(limit, w) + limit
    decreases |events|
  {
    if events != [] {
      var e := events[0];
      var w' := Step(limit, period, w, e).0;
      if from <= w'.since {
        OneWindow(limit, period, w', e.now, events[1..], from);
      } else {
        TwoWindows(limit, period, w', e.now, events[1..], from);
      }
    }
  }

  lemma {:induction false} AnyInterval(limit: nat, period: nat, w: Counter, c: int, events: seq<Event>, from: int)
    requires limit >= 1 && Sane(period, w, c) && Possible(limit, period, w, c, events)
    requires w.Counting? ==> w.since < from
    ensures Admitted(limit, period, w, events, from, from + period) <= 2 * limit - 1
    decreases |events|
  {
    if events != [] {
      var e := events[0];
      var w' := Step(limit, period, w, e).0;
      if e.now < from {
        AnyInterval(limit, period, w', e.now, events[1..], from);
      } else if w'.Counting? && w'.since < from {
        TwoWindows(limit, period, w', e.now, events[1..], from);
      } else {
        OneWindow(limit, period, w', e.now, events[1..], from);
      }
    }
  }

  // ---- the bound is reached ----

  function Burst(n: nat, now: int): seq<Event> {
    if n == 0 then [] else [Incr(now, false)] + Burst(n - 1, now)
  }

  lemma {:induction false} BurstCounts(limit: nat, period: nat, w: Counter, n: nat, now: int, rest: seq<Event>,
                                       from: int, to: int)
    requires w.Counting? && w.count + n <= limit && from <= now < to
    requires w.deadline.Some? ==> now <= w.deadline.value
    ensures var w' := w.(count := w.count + n);
      && Admitted(limit, period, w, Burst(n, now) + rest, from, to)
           == n + Admitted(limit, period, w', rest, from, to)
      && (Possible(limit, period, w, now, Burst(n, now) + rest) <==> Possible(limit, period, w', now, rest))
    decreases n
  {
    var events := Burst(n, now) + rest;
    if n == 0 {
      assert events == rest;
    } else {
      assert events[0] == Incr(now, false) && events[1..] == Burst(n - 1, now) + rest;
      BurstCounts(limit, period, w.(count := w.count + 1), n - 1, now, rest, from, to);
    }
  }

  // One request opens a window; the rest of its limit, and all of the next
  // window's, arrive together when it runs out.
  function Straddle(limit: nat, period: nat): seq<Event>
    requires limit >= 1
  {
    [Incr(0, false), Expire(0)] + (Burst(limit - 1, period) + ([Incr(period, true)] + (Burst(limit - 1, period) + [])))
  }

  lemma StraddleAdmits(limit: nat, period: nat)
    requires limit >= 1 && period >= 1
    ensures Possible(limit, period, Gone, 0, Straddle(limit, period))
    ensures Admitted(limit, period, Gone, Straddle(limit, period), period, period + period) == 2 * limit - 1
  {
    var next := [Incr(period, true)] + (Burst(limit - 1, period) + []);
    var tail := Burst(limit - 1, period) + next;
    var events := Straddle(limit, period);
    var to := period + period;
    assert events[0] == Incr(0, false) && events[1..] == [Expire(0)] + tail;
    assert events[1..][1..] == tail;
    var w1 := Counting(1, 0, Some(period));
    BurstCounts(limit, period, w1, limit - 1, period, next, period, to);
    assert next[1..] == Burst(limit - 1, period) + [];
    BurstCounts(limit, period, Counting(1, period, None), limit - 1, period, [], period, to);
    var full := Counting(limit, 0, Some(period));
    assert Step(limit, period, full, next[0]) == (Counting(1, period, None), true);
    assert Admitted(limit, period, full, next, period, to) == limit;
    assert Possible(limit, period, full, period, next);
    PossibleFrom(limit, period, w1, 0, period, tail);
    assert Step(limit, period, Gone, events[0]).0 == Counting(1, 0, None);
    assert Step(limit, period, Counting(1, 0, None), Expire(0)).0 == w1;
    assert Possible(limit, period, Counting(1, 0, None), 0, events[1..]);
  }

  lemma PossibleFrom(limit: nat, period: nat, w: Counter, c: int, d: int, events: seq<Event>)
    requires c <= d && Possible(limit, period, w, d, events)
    ensures Possible(limit, period, w, c, events)
  {
  }

  ghost predicate Sees(limit: nat, period: nat, events: seq<Event>, from: int, n: nat) {
    Admitted(limit, period, Gone, events, from, from + period) == n
  }

  /** No interval of `period` seconds sees more than twice the limit less one, and
      for every limit and period some course of events reaches that. */
  lemma FixedWindowExactly(limit: nat, period: nat)
    requires limit >= 1 && period >= 1
    ensures forall c, events, from, n: nat ::
      Possible(limit, period, Gone, c, events) && Sees(limit, period, events, from, n) ==> n <= 2 * limit - 1
    ensures exists events, from, n: nat ::
      Possible(limit, period, Gone, 0, events) && Sees(limit, period, events, from, n) && n == 2 * limit - 1
  {
    forall c, events, from, n: nat | Possible(limit, period, Gone, c, events) && Sees(limit, period, events, from, n)
      ensures n <= 2 * limit - 1
    {
      AnyInterval(limit, period, Gone, c, events, from);
    }
    StraddleAdmits(limit, period);
    assert Sees(limit, period, Straddle(limit, period), period, 2 * limit - 1);
  }
}
