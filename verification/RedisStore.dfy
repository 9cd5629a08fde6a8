/** The limiters as the gateway runs them: scripts and commands that read, compute
    and overwrite keys of a store whose keys may carry a lifetime. */
module RedisStore {
  import opened Bytes
  import L = Limiters
  import T = LeakyTicks
  import F = FixedWindow

  datatype Entry = Entry(value: real, deadline: Option<int>)

  type Store = map<string, Entry>

  const LAST_REFILL: string := ":last_refill"
  const LAST_CHECK: string := ":last_check"

  function GetIn(s: Store, key: string, default: real): real {
    if key in s then s[key].value else default
  }

  // ---- a bucket's two keys as the limiters' values ----

  // They are written and given their lifetime together.
  ghost predicate Paired(s: Store, key: string, suffix: string) {
    && (key in s <==> key + suffix in s)
    && (key in s ==> L.Whole(s[key + suffix].value))
    && (key in s ==> s[key].deadline == s[key + suffix].deadline)
  }

  ghost function TokenIn(s: Store, key: string): L.Bucket
    requires Paired(s, key, LAST_REFILL)
  {
    if key in s then L.Bucket(s[key].value, s[key + LAST_REFILL].value.Floor) else L.Absent
  }

  ghost function LeakyIn(s: Store, key: string): L.Leaky
    requires Paired(s, key, LAST_CHECK)
  {
    if key in s then L.Leaky(s[key].value, s[key + LAST_CHECK].value.Floor) else L.Dry
  }

  // The bucket's keys live for `period` from its last admission on.
  ghost predicate Lives(s: Store, key: string, period: nat) {
    Paired(s, key, LAST_REFILL) &&
    (key in s ==> s[key].deadline == Some(s[key + LAST_REFILL].value.Floor + period))
  }

  // All other keys are as they were.
  ghost predicate OthersSame(s: Store, s': Store, a: string, b: string) {
    s' - {a, b} == s - {a, b}
  }

  lemma KeysApart(key: string, suffix: string)
    requires suffix != []
    ensures key + suffix != key
  {
    assert |key + suffix| > |key|;
  }

  // Seconds since a whole number of seconds, times a rate.
  lemma Elapsed(rate: real, now: int, last: real)
    requires L.Whole(last)
    ensures (now as real - last) * rate == L.Gain(rate, now - last.Floor)
  {
    var seconds := now - last.Floor;
    L.GainIsProduct(rate, seconds);
    hide L.Gain;
    assert now as real - last == seconds as real;
  }

  lemma Refilled(s: Store, key: string, capacity: nat, rate: real, now: nat)
    requires Paired(s, key, LAST_REFILL)
    ensures L.Least(capacity as real,
                    GetIn(s, key, capacity as real) + (now as real - GetIn(s, key + LAST_REFILL, 0.0)) * rate)
         == L.Available(capacity, rate, TokenIn(s, key), now)
  {
    hide L.Gain, L.Least;
    L.WholeInt(0);
    Elapsed(rate, now, GetIn(s, key + LAST_REFILL, 0.0));
  }

  lemma Drained(s: Store, key: string, rate: real, now: nat)
    requires Paired(s, key, LAST_CHECK)
    ensures L.Greatest(0.0, GetIn(s, key, 0.0) - (now as real - GetIn(s, key + LAST_CHECK, now as real)) * rate)
         == L.Leaked(rate, LeakyIn(s, key), now)
  {
    L.WholeInt(now);
    Elapsed(rate, now, GetIn(s, key + LAST_CHECK, now as real));
    assert L.Gain(rate, 0) == 0.0;
    hide L.Gain, L.Whole;
  }

  // Both keys of a bucket written.
  function Write(s: Store, key: string, suffix: string, value: real, now: int, deadline: Option<int>): Store {
    s[key := Entry(value, deadline)][key + suffix := Entry(now as real, deadline)]
  }

  lemma Written(s: Store, key: string, suffix: string, value: real, now: int, deadline: Option<int>)
    requires suffix != []
    ensures var s' := Write(s, key, suffix, value, now, deadline);
      && Paired(s', key, suffix) && OthersSame(s, s', key, key + suffix)
      && key in s' && s'[key] == Entry(value, deadline) && s'[key + suffix].value.Floor == now
  {
    KeysApart(key, suffix);
    L.WholeInt(now);
  }

  // SET, SET, EXPIRE, EXPIRE.
  lemma WrittenInSteps(s: Store, key: string, lastKey: string, a: Entry, b: Entry, c: Entry, d: Entry)
    requires key != lastKey
    ensures s[key := a][lastKey := b][key := c][lastKey := d] == s[key := c][lastKey := d]
  {
  }

  class Redis {
    var store: Store

    constructor ()
      ensures store == map[]
    {
      store := map[];
    }

    function Get(key: string, default: real): (v: real)
      reads this
      ensures v == GetIn(store, key, default)
    {
      if key in store then store[key].value else default
    }

    /** Redis drops keys on access when their lifetime has run out. Its own clock is
        finer than the caller's seconds, so in the second in which a lifetime ends the
        keys may be found either way. */
    method Access(key: string, lastKey: string, now: int) returns (lapsed: bool)
      requires key in store && lastKey in store ==> store[key].deadline == store[lastKey].deadline
      modifies this
      ensures store == if lapsed then old(store) - {key, lastKey} else old(store)
      ensures lapsed ==> key in old(store) && old(store)[key].deadline.Some? && old(store)[key].deadline.value <= now
      ensures !lapsed && key in store && store[key].deadline.Some? ==> now <= store[key].deadline.value
    {
      if key !in store || store[key].deadline.None? {
        return false;
      }
      var deadline := store[key].deadline.value;
      lapsed := *;
      lapsed := deadline < now || (deadline == now && lapsed);
      if lapsed {
        store := store - {key, lastKey};
      }
    }

    /** The script answers as a step of the token bucket does and leaves its state in
        the two keys; on a refusal it writes nothing. What it finds expired is decided
        by the lifetime it gave the keys when it last admitted. */
    method TokenBucketRateLimit(key: string, capacity: nat, refillRate: real, period: nat, now: nat)
      returns (ok: bool, ghost lapsed: bool)
      requires Paired(store, key, LAST_REFILL)
      modifies this
      ensures Paired(store, key, LAST_REFILL) && OthersSame(old(store), store, key, key + LAST_REFILL)
      ensures (TokenIn(store, key), ok) ==
        L.TokenCall(capacity, refillRate, old(TokenIn(store, key)), L.Request(now, lapsed))
      ensures old(Lives(store, key, period)) ==>
        Lives(store, key, period) && L.MayLapse(period, old(TokenIn(store, key)), L.Request(now, lapsed))
      ensures ok ==> store[key].deadline == Some(now + period)
      ensures !ok && !lapsed ==> store == old(store)
    {
      hide L.Gain, L.Available, L.Whole;
      var lastKey := key + LAST_REFILL;
      KeysApart(key, LAST_REFILL);
      var gone := Access(key, lastKey, now);
      lapsed := gone;
      ghost var found := store;
      var lastRefill := Get(lastKey, 0.0);
      var tokens := Get(key, capacity as real);
      var elapsed := now as real - lastRefill;
      var refill := L.Least(capacity as real, tokens + elapsed * refillRate);
      Refilled(found, key, capacity, refillRate, now);
      Admits(capacity, refillRate, TokenIn(found, key), now, refill);
      hide L.Least, L.TokenStep;
      if refill >= 1.0 {
        store := store[key := Entry(refill - 1.0, None)];
        store := store[lastKey := Entry(now as real, None)];
        Expire(key, now, period);
        Expire(lastKey, now, period);
        TokenWritten(found, store, key, refill - 1.0, now, period);
        return true, lapsed;
      } else {
        return false, lapsed;
      }
    }

    lemma Admits(cap: nat, rate: real, b: L.Bucket, now: nat, refill: real)
      requires refill == L.Available(cap, rate, b, now)
      ensures L.TokenStep(cap, rate, b, now)
           == if refill >= 1.0 then (L.Bucket(refill - 1.0, now), true) else (b, false)
    {
    }

    lemma LetsIn(cap: nat, rate: real, l: L.Leaky, now: nat, leaked: real)
      requires leaked == L.Leaked(rate, l, now)
      ensures L.LeakyStep(cap, rate, l, now) ==
        if leaked < cap as real then (L.Leaky(leaked + 1.0, now), true) else (L.Leaky(cap as real, now), false)
    {
    }

    // What the four commands leave.
    lemma TokenWritten(found: Store, s: Store, key: string, value: real, now: int, period: nat)
      requires var (lastKey, d) := (key + LAST_REFILL, Some(now + period));
        s == found[key := Entry(value, None)][lastKey := Entry(now as real, None)]
                  [key := Entry(value, d)][lastKey := Entry(now as real, d)]
      ensures Lives(s, key, period) && TokenIn(s, key) == L.Bucket(value, now) && key in s
      ensures s[key].deadline == Some(now + period) && OthersSame(found, s, key, key + LAST_REFILL)
    {
      KeysApart(key, LAST_REFILL);
      var d := Some(now + period);
      WrittenInSteps(found, key, key + LAST_REFILL, Entry(value, None), Entry(now as real, None),
                     Entry(value, d), Entry(now as real, d));
      Written(found, key, LAST_REFILL, value, now, d);
    }

    /** The same for the leaky bucket, which writes both keys on every call and gives
        them no lifetime. */
    method LeakyBucketRateLimit(key: string, capacity: nat, leakRate: real, now: nat) returns (ok: bool)
      requires Paired(store, key, LAST_CHECK)
      modifies this
      ensures Paired(store, key, LAST_CHECK) && OthersSame(old(store), store, key, key + LAST_CHECK)
      ensures (LeakyIn(store, key), ok) == L.LeakyStep(capacity, leakRate, old(LeakyIn(store, key)), now)
      ensures key in store && store[key].deadline == None
    {
      hide L.Gain, L.Leaked, L.Whole;
      var lastKey := key + LAST_CHECK;
      ghost var found := store;
      var lastCheck := Get(lastKey, now as real);
      var level := Get(key, 0.0);
      var elapsed := now as real - lastCheck;
      var leaked := L.Greatest(0.0, level - elapsed * leakRate);
      Drained(found, key, leakRate, now);
      LetsIn(capacity, leakRate, LeakyIn(found, key), now, leaked);
      hide L.Greatest, L.LeakyStep;
      if leaked < capacity as real {
        store := store[key := Entry(leaked + 1.0, None)];
        store := store[lastKey := Entry(now as real, None)];
        Written(found, key, LAST_CHECK, leaked + 1.0, now, None);
        return true;
      } else {
        store := store[key := Entry(capacity as real, None)];
        store := store[lastKey := Entry(now as real, None)];
        Written(found, key, LAST_CHECK, capacity as real, now, None);
        return false;
      }
    }

    // EXPIRE: a lifetime for a key that exists.
    method Expire(key: string, now: int, period: nat)
      modifies this
      ensures store == if key in old(store)
        then old(store)[key := old(store)[key].(deadline := Some(now + period))] else old(store)
    {
      if key in store {
        store := store[key := store[key].(deadline := Some(now + period))];
      }
    }

    // INCR: the count after it.
    method Incr(key: string, now: int) returns (count: real, ghost lapsed: bool)
      modifies this
      ensures lapsed ==> key in old(store) && old(store)[key].deadline.Some? && old(store)[key].deadline.value <= now
      ensures !lapsed && key in old(store) && old(store)[key].deadline.Some? ==> now <= old(store)[key].deadline.value
      ensures count == if lapsed || key !in old(store) then 1.0 else old(store)[key].value + 1.0
      ensures key in store && store[key].value == count
      ensures store[key].deadline == if lapsed || key !in old(store) then None else old(store)[key].deadline
      ensures store - {key} == old(store) - {key}
    {
      var gone := Access(key, key, now);
      lapsed := gone;
      count := Get(key, 0.0) + 1.0;
      store := store[key := Entry(count, if key in store then store[key].deadline else None)];
    }

    // What the counter key holds, for a window that began at `since`.
    ghost predicate CounterIs(key: string, w: F.Counter)
      reads this
    {
      if w.Gone? then key !in store
      else key in store && store[key].value == w.count as real && store[key].deadline == w.deadline
    }

    /** With no caller in between, the two commands are two steps of the counter that
        may happen to it. */
    method FixedWindowRateLimit(key: string, limit: nat, period: nat, now: int, ghost w: F.Counter)
      returns (ok: bool, ghost lapsed: bool, ghost after: F.Counter)
      requires CounterIs(key, w) && (w.Counting? ==> w.count >= 1)
      modifies this
      ensures CounterIs(key, after) && store - {key} == old(store) - {key}
      ensures F.MayHappen(w, F.Incr(now, lapsed))
      ensures var (w1, yes) := F.Step(limit, period, w, F.Incr(now, lapsed));
        && ok == yes
        && after == if w1.count == 1 then F.Step(limit, period, w1, F.Expire(now)).0 else w1
    {
      var currentCount;
      currentCount, lapsed := Incr(key, now);
      after := F.Step(limit, period, w, F.Incr(now, lapsed)).0;
      if currentCount == 1.0 {
        Expire(key, now, period);
        after := F.Step(limit, period, after, F.Expire(now)).0;
      }
      return currentCount <= limit as real, lapsed, after;
    }

    // ---- whole traces ----

    ghost predicate InOrder(times: seq<nat>) {
      forall i, j :: 0 <= i < j < |times| ==> times[i] <= times[j]
    }

    ghost predicate At(trace: seq<L.Request>, times: seq<nat>) {
      |trace| == |times| && forall i :: 0 <= i < |trace| ==> trace[i].now == times[i]
    }

    // One more call of a trace.
    lemma TokenGoesOn(cap: nat, rate: real, period: nat, trace: seq<L.Request>, q: L.Request)
      requires L.Possible(cap, rate, period, trace)
      requires L.MayLapse(period, L.TokenEnd(cap, rate, L.Absent, trace), q)
      requires 0 <= q.now && (trace != [] ==> trace[|trace| - 1].now <= q.now)
      ensures L.Possible(cap, rate, period, trace + [q])
      ensures L.TokenEnd(cap, rate, L.Absent, trace + [q])
           == L.TokenCall(cap, rate, L.TokenEnd(cap, rate, L.Absent, trace), q).0
      ensures L.TokenRun(cap, rate, L.Absent, trace + [q])
           == L.TokenRun(cap, rate, L.Absent, trace)
            + [L.TokenCall(cap, rate, L.TokenEnd(cap, rate, L.Absent, trace), q).1]
    {
      hide L.TokenCall, L.MayLapse, L.TokenEnd, L.TokenRun;
      L.TokenRunAppend(cap, rate, L.Absent, trace, q);
      L.FeasibleAppend(cap, rate, period, L.Absent, trace, q);
      L.OrderedAppend(0, trace, q);
    }

    /** Any calls at non-decreasing times, on a key that starts out absent, are answered
        as a possible trace of the token bucket, and so keep to its bound when the keys
        live long enough. */
    method ServeTokenBucket(key: string, capacity: nat, refillRate: real, period: nat, times: seq<nat>)
      returns (answers: seq<bool>, ghost trace: seq<L.Request>)
      requires key !in store && key + LAST_REFILL !in store && InOrder(times)
      modifies this
      ensures At(trace, times) && L.Possible(capacity, refillRate, period, trace)
      ensures answers == L.TokenRun(capacity, refillRate, L.Absent, trace)
      ensures refillRate >= 0.0 && period as real * refillRate >= capacity as real ==>
        forall from, to :: 0 <= from <= to ==> L.Bounded(capacity, refillRate, trace, from, to)
    {
      answers, trace := [], [];
      for i := 0 to |times|
        invariant At(trace, times[..i]) && L.Possible(capacity, refillRate, period, trace)
        invariant answers == L.TokenRun(capacity, refillRate, L.Absent, trace)
        invariant Lives(store, key, period)
        invariant TokenIn(store, key) == L.TokenEnd(capacity, refillRate, L.Absent, trace)
      {
        hide L.TokenCall, L.MayLapse, L.TokenEnd, L.TokenRun, L.Possible;
        ghost var lapsed;
        var ok;
        ok, lapsed := TokenBucketRateLimit(key, capacity, refillRate, period, times[i]);
        ghost var q := L.Request(times[i], lapsed);
        TokenGoesOn(capacity, refillRate, period, trace, q);
        answers, trace := answers + [ok], trace + [q];
      }
      assert times[..|times|] == times;
      if refillRate >= 0.0 && period as real * refillRate >= capacity as real {
        L.TokenBoundExactly(capacity, refillRate, period);
      }
    }

    /** The same for the leaky bucket. */
    method ServeLeakyBucket(key: string, capacity: nat, leakRate: real, times: seq<nat>)
      returns (answers: seq<bool>, ghost trace: seq<L.Request>)
      requires key !in store && key + LAST_CHECK !in store && InOrder(times)
      modifies this
      ensures At(trace, times) && L.Ordered(0, trace)
      ensures answers == L.LeakyRun(capacity, leakRate, L.Dry, trace)
      ensures leakRate >= 0.0 && L.Even(capacity, leakRate) ==>
        forall from, to :: T.LetsWithin(capacity, leakRate, trace, from, to)
    {
      answers, trace := [], [];
      for i := 0 to |times|
        invariant At(trace, times[..i]) && L.Ordered(0, trace)
        invariant answers == L.LeakyRun(capacity, leakRate, L.Dry, trace)
        invariant Paired(store, key, LAST_CHECK)
        invariant LeakyIn(store, key) == L.LeakyEnd(capacity, leakRate, L.Dry, trace)
      {
        hide L.LeakyStep, L.LeakyEnd, L.LeakyRun, L.Ordered;
        var ok := LeakyBucketRateLimit(key, capacity, leakRate, times[i]);
        ghost var q := L.Request(times[i], false);
        L.LeakyRunAppend(capacity, leakRate, L.Dry, trace, q);
        L.OrderedAppend(0, trace, q);
        answers, trace := answers + [ok], trace + [q];
      }
      assert times[..|times|] == times;
      if leakRate >= 0.0 && L.Even(capacity, leakRate) {
        T.LeakyBoundExactly(capacity, leakRate);
      }
    }
  }
}
