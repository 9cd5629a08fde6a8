/** Evictions across threads: exactly when a thread that evicts a record takes away a
    connection that another thread has added since. */
module PoolEvictions {
  import P = Pool
  import N = PoolNode
  import opened PoolThreads

  // Thread t is about to remove m, which is pooled by the addition of another.
  ghost predicate Steals(s: Sys, e: Event, m: Metadata) {
    && Can(s, e) && e.Evict? && s.pending[e.t].replaced == m
    && m in s.pooled && s.pooled[m] != e.t
  }

  // On this run, before it is added again, m is stolen.
  ghost predicate Stolen(cap: nat, s: Sys, es: seq<Event>, m: Metadata)
    decreases |es|
  {
    && es != [] && Can(s, es[0]) && !(es[0].StartAdd? && es[0].m == m)
    && (Steals(s, es[0], m) || Stolen(cap, After(cap, s, es[0]), es[1..], m))
  }

  // No thread but u records m, or is about to remove it.
  ghost predicate OnlyBy(s: Sys, u: nat, m: Metadata) {
    |s.lrus| == |s.pending| && forall t :: 0 <= t < |s.lrus| && t != u ==> !Keeps(s.lrus[t], s.pending[t], m)
  }

  // ---- where no other thread records it, it is safe ----

  lemma OnlyByKeeps(cap: nat, s: Sys, e: Event, u: nat, m: Metadata)
    requires 1 <= cap && Inv(cap, s) && Can(s, e) && OnlyBy(s, u, m)
    requires e.StartAdd? && e.m == m ==> e.t == u
    ensures OnlyBy(After(cap, s, e), u, m)
  {
    var (t, s') := (e.t, After(cap, s, e));
    if t != u {
      assert ThreadOk(cap, s.lrus[t], s.pending[t]);
      match e
      case StartAdd(_, x) =>
        PutLast(s.lrus[t], x);
        DropFirst(P.Without(s.lrus[t], x.id) + [(x.id, x)]);
      case Forget(_) => P.WithoutExactly(s.lrus[t], s.pending[t].id);
      case _ =>
    }
  }

  lemma OnlyBySafe(s: Sys, e: Event, u: nat, m: Metadata)
    requires OnlyBy(s, u, m) && (m in s.pooled ==> s.pooled[m] == u)
    ensures !Steals(s, e, m)
  {
  }

  lemma {:induction false} NeverStolen(cap: nat, s: Sys, es: seq<Event>, u: nat, m: Metadata)
    requires 1 <= cap && Inv(cap, s) && Runs(cap, s, es) && OnlyBy(s, u, m) && (m in s.pooled ==> s.pooled[m] == u)
    requires forall t :: 0 <= t < |s.pending| && t != u ==> !Adding(s.pending[t], m)
    ensures !Stolen(cap, s, es, m)
    decreases |es|
  {
    if es != [] && !(es[0].StartAdd? && es[0].m == m) {
      var s' := After(cap, s, es[0]);
      OnlyBySafe(s, es[0], u, m);
      OnlyByKeeps(cap, s, es[0], u, m);
      StepKeeps(cap, s, es[0]);
      OwnerKeeps(cap, s, es[0], u, m);
      NeverStolen(cap, s', es[1..], u, m);
    }
  }

  predicate Adding(p: Pending, m: Metadata) {
    (p.Evicting? || p.Storing?) && p.adding == m
  }

  lemma OwnerKeeps(cap: nat, s: Sys, e: Event, u: nat, m: Metadata)
    requires Can(s, e) && (m in s.pooled ==> s.pooled[m] == u) && !(e.StartAdd? && e.m == m)
    requires forall t :: 0 <= t < |s.pending| && t != u ==> !Adding(s.pending[t], m)
    ensures var s' := After(cap, s, e);
      && (m in s'.pooled ==> s'.pooled[m] == u)
      && forall t :: 0 <= t < |s'.pending| && t != u ==> !Adding(s'.pending[t], m)
  {
  }

  // ---- where another thread records it, it can be stolen ----

  ghost predicate CanBeStolen(cap: nat, s: Sys, m: Metadata) {
    exists es :: Runs(cap, s, es) && Stolen(cap, s, es, m)
  }

  lemma StolenNow(cap: nat, s: Sys, t: nat, m: Metadata)
    requires Steals(s, Evict(t), m)
    ensures CanBeStolen(cap, s, m)
  {
    assert Runs(cap, s, [Evict(t)]) && Stolen(cap, s, [Evict(t)], m);
  }

  lemma StolenLater(cap: nat, s: Sys, e: Event, m: Metadata)
    requires Can(s, e) && !(e.StartAdd? && e.m == m) && CanBeStolen(cap, After(cap, s, e), m)
    ensures CanBeStolen(cap, s, m)
  {
    var s' := After(cap, s, e);
    var es :| Runs(cap, s', es) && Stolen(cap, s', es, m);
    assert ([e] + es)[1..] == es && ([e] + es)[0] == e;
    assert Runs(cap, s, [e] + es) && Stolen(cap, s, [e] + es, m);
  }

  // ---- an id that is nowhere in use ----

  lemma Above(ids: set<int>) returns (n: int)
    ensures forall i :: i in ids ==> i < n
    decreases |ids|
  {
    if ids == {} {
      return 0;
    }
    N.SomeMember(ids);
    var i :| i in ids;
    var m := Above(ids - {i});
    n := if m > i then m else i + 1;
    assert forall j :: j in ids ==> j == i || j in ids - {i};
  }

  ghost function IdsInUse(s: Sys, t: nat): set<int>
    requires t < |s.lrus|
  {
    (set x | x in s.pooled :: x.id)
    + (set u | 0 <= u < |s.pending| && (s.pending[u].Evicting? || s.pending[u].Storing?) :: s.pending[u].adding.id)
    + (set e | e in s.lrus[t] :: e.0)
  }

  lemma Fresh(s: Sys, t: nat, m: Metadata) returns (f: Metadata)
    requires |s.lrus| == |s.pending| && t < |s.lrus| && s.pending[t] == Nothing
    ensures Can(s, StartAdd(t, f)) && f.id != m.id && forall e :: e in s.lrus[t] ==> e.0 != f.id
  {
    var ids := IdsInUse(s, t) + {m.id};
    var n := Above(ids);
    f := P.Metadata(0, n);
    forall x | x in s.pooled ensures x.id != n {
      assert x.id in ids;
    }
    forall u | 0 <= u < |s.pending| ensures !InFlight(s.pending[u], n) {
      if s.pending[u].Evicting? || s.pending[u].Storing? {
        assert s.pending[u].adding.id in ids;
      }
    }
    forall e | e in s.lrus[t] ensures e.0 != n {
      assert e.0 in ids;
    }
  }

  // ---- t ages its own record until it evicts it ----

  // m is pooled by u, and t, another thread, still records it.
  ghost predicate Exposed(cap: nat, s: Sys, t: nat, u: nat, m: Metadata) {
    && Inv(cap, s) && t < |s.lrus| && u != t
    && m in s.pooled && s.pooled[m] == u && Keeps(s.lrus[t], s.pending[t], m)
  }

  ghost predicate Recorded(s: Sys, t: nat, m: Metadata) {
    t < |s.lrus| && (m.id, m) in s.lrus[t]
  }

  // Additions until t's record of m is the oldest one over the capacity.
  ghost function Turns(cap: nat, lru: Order, m: Metadata): nat {
    if |lru| <= cap then cap - |lru| + N.Find(lru, m.id) else 0
  }

  function Rank(p: Pending): nat {
    match p
    case Nothing => 0
    case Storing(_) => 1
    case Forgetting(_) => 1
    case Evicting(_, _) => 2
  }

  // What t has begun it finishes; its record of m stays.
  lemma Finishes(cap: nat, s: Sys, t: nat, u: nat, m: Metadata) returns (e: Event)
    requires 1 <= cap && Exposed(cap, s, t, u, m) && s.pending[t] != Nothing
    requires !(s.pending[t].Evicting? && s.pending[t].replaced == m)
    ensures Can(s, e) && !e.StartAdd? && Exposed(cap, After(cap, s, e), t, u, m)
    ensures var s' := After(cap, s, e);
      && (!s.pending[t].Forgetting? ==>
            s'.lrus[t] == s.lrus[t] && Rank(s'.pending[t]) < Rank(s.pending[t]) && !s'.pending[t].Forgetting?)
      && (s.pending[t].Forgetting? ==> s'.pending[t] == Nothing)
  {
    var p := s.pending[t];
    e := if p.Evicting? then Evict(t) else if p.Storing? then Store(t) else Forget(t);
    StepKeeps(cap, s, e);
    assert ThreadOk(cap, s.lrus[t], p);
    if p.Storing? {
      assert !InFlight(p, m.id);
    }
    if p.Forgetting? {
      P.WithoutExactly(s.lrus[t], p.id);
    }
  }

  lemma FindsIt(lru: Order, m: Metadata)
    requires P.Distinct(lru) && (m.id, m) in lru
    ensures N.Find(lru, m.id) < |lru| && lru[N.Find(lru, m.id)] == (m.id, m)
  {
    var i :| 0 <= i < |lru| && lru[i] == (m.id, m);
    var j := N.Find(lru, m.id);
    assert lru[j].0 == lru[i].0;
  }

  lemma {:induction false} FindAppend(lru: Order, e: (int, Metadata), id: int)
    requires N.Find(lru, id) < |lru|
    ensures N.Find(lru + [e], id) == N.Find(lru, id)
  {
    if lru[0].0 != id {
      assert (lru + [e])[1..] == lru[1..] + [e];
      FindAppend(lru[1..], e, id);
    }
  }

  // An addition brings the record of m one turn nearer to its eviction, or evicts it.
  lemma TurnsFall(cap: nat, lru: Order, m: Metadata, f: Metadata)
    requires P.Distinct(lru) && (m.id, m) in lru && |lru| <= cap && f.id != m.id
    ensures var all := lru + [(f.id, f)];
      var lru' := if |all| > cap then all[1..] else all;
      (|all| > cap && all[0].1 == m) || ((m.id, m) in lru' && Turns(cap, lru', m) < Turns(cap, lru, m))
  {
    FindsIt(lru, m);
    hide P.Distinct;
    var (i, all) := (N.Find(lru, m.id), lru + [(f.id, f)]);
    FindAppend(lru, (f.id, f), m.id);
    assert all[i] == lru[i];
    if |all| > cap && i > 0 {
      assert all[1..][i - 1] == all[i] && N.Find(all, m.id) == 1 + N.Find(all[1..], m.id);
    }
  }

  // One more addition on t: its record of m ages, or is the one evicted.
  lemma Ages(cap: nat, s: Sys, t: nat, u: nat, m: Metadata, f: Metadata)
    requires 1 <= cap && Exposed(cap, s, t, u, m) && s.pending[t] == Nothing
    requires Can(s, StartAdd(t, f)) && f.id != m.id && forall e :: e in s.lrus[t] ==> e.0 != f.id
    ensures var s' := After(cap, s, StartAdd(t, f));
      && Exposed(cap, s', t, u, m)
      && (!(s'.pending[t].Evicting? && s'.pending[t].replaced == m) ==>
            Recorded(s', t, m) && Turns(cap, s'.lrus[t], m) < Turns(cap, s.lrus[t], m))
      && !s'.pending[t].Forgetting? && s'.pending[t] != Nothing
  {
    StepKeeps(cap, s, StartAdd(t, f));
    var (s', lru) := (After(cap, s, StartAdd(t, f)), s.lrus[t]);
    assert ThreadOk(cap, lru, Nothing);
    P.WithoutExactly(lru, f.id);
    TurnsFall(cap, lru, m, f);
    hide P.Distinct, P.Without, Turns;
  }

  /** A pooled connection that another thread still records can be stolen by it. */
  lemma {:induction false} ExposedIsStolen(cap: nat, s: Sys, t: nat, u: nat, m: Metadata)
    requires 1 <= cap && Exposed(cap, s, t, u, m)
    ensures CanBeStolen(cap, s, m)
    decreases s.pending[t].Forgetting?, if (m.id, m) in s.lrus[t] then Turns(cap, s.lrus[t], m) else 0,
              Rank(s.pending[t])
  {
    var p := s.pending[t];
    if p.Evicting? && p.replaced == m {
      StolenNow(cap, s, t, m);
    } else if p != Nothing {
      var e := Finishes(cap, s, t, u, m);
      ExposedIsStolen(cap, After(cap, s, e), t, u, m);
      StolenLater(cap, s, e, m);
    } else {
      var f := Fresh(s, t, m);
      Ages(cap, s, t, u, m, f);
      var s' := After(cap, s, StartAdd(t, f));
      if s'.pending[t].Evicting? && s'.pending[t].replaced == m {
        StolenNow(cap, s', t, m);
      } else {
        ExposedIsStolen(cap, s', t, u, m);
      }
      StolenLater(cap, s, StartAdd(t, f), m);
    }
  }

  // u finishes its addition of m; t's state is not touched.
  lemma {:induction false} AdditionExposes(cap: nat, s: Sys, t: nat, u: nat, m: Metadata)
    requires 1 <= cap && Inv(cap, s) && t < |s.lrus| && u < |s.lrus| && u != t
    requires Adding(s.pending[u], m) && Keeps(s.lrus[t], s.pending[t], m)
    ensures CanBeStolen(cap, s, m)
    decreases Rank(s.pending[u])
  {
    var e := if s.pending[u].Evicting? then Evict(u) else Store(u);
    var s' := After(cap, s, e);
    StepKeeps(cap, s, e);
    if e.Evict? {
      AdditionExposes(cap, s', t, u, m);
    } else {
      ExposedIsStolen(cap, s', t, u, m);
    }
    StolenLater(cap, s, e, m);
  }

  /** In every reachable state, adding a connection is safe, that is, no interleaving
      from there on has another thread's eviction take it, exactly when no other thread
      records it in its LRU for good or is about to remove it. */
  lemma AddSafeExactly(cap: nat, s: Sys, u: nat, m: Metadata)
    requires 1 <= cap && Inv(cap, s) && Can(s, StartAdd(u, m))
    ensures !CanBeStolen(cap, After(cap, s, StartAdd(u, m)), m) <==> OnlyBy(s, u, m)
  {
    var s' := After(cap, s, StartAdd(u, m));
    StepKeeps(cap, s, StartAdd(u, m));
    if OnlyBy(s, u, m) {
      OnlyByKeeps(cap, s, StartAdd(u, m), u, m);
      forall t | 0 <= t < |s'.pending| && t != u ensures !Adding(s'.pending[t], m) {
        assert !InFlight(s.pending[t], m.id);
      }
      forall es | Runs(cap, s', es) ensures !Stolen(cap, s', es, m) {
        NeverStolen(cap, s', es, u, m);
      }
    } else {
      var t :| 0 <= t < |s.lrus| && t != u && Keeps(s.lrus[t], s.pending[t], m);
      AdditionExposes(cap, s', t, u, m);
    }
  }

  // ---- runs all of whose additions are safe ----

  ghost predicate Careful(cap: nat, s: Sys, es: seq<Event>)
    decreases |es|
  {
    es == [] || (&& Can(s, es[0]) && (es[0].StartAdd? ==> OnlyBy(s, es[0].t, es[0].m))
                 && Careful(cap, After(cap, s, es[0]), es[1..]))
  }

  // Whatever is pooled or being added is recorded by no other thread.
  ghost predicate Private(s: Sys) {
    && |s.lrus| == |s.pending|
    && (forall m :: m in s.pooled ==> OnlyBy(s, s.pooled[m], m))
    && (forall u :: 0 <= u < |s.pending| && (s.pending[u].Evicting? || s.pending[u].Storing?) ==>
          OnlyBy(s, u, s.pending[u].adding))
  }

  lemma PrivateKeeps(cap: nat, s: Sys, e: Event)
    requires 1 <= cap && Inv(cap, s) && Private(s) && Can(s, e) && (e.StartAdd? ==> OnlyBy(s, e.t, e.m))
    ensures Private(After(cap, s, e))
  {
    var s' := After(cap, s, e);
    forall m | m in s'.pooled ensures OnlyBy(s', s'.pooled[m], m) {
      OnlyByKeeps(cap, s, e, s'.pooled[m], m);
    }
    forall u | 0 <= u < |s'.pending| && (s'.pending[u].Evicting? || s'.pending[u].Storing?)
      ensures OnlyBy(s', u, s'.pending[u].adding)
    {
      if e.StartAdd? && u != e.t {
        assert !InFlight(s.pending[u], e.m.id);
      }
      OnlyByKeeps(cap, s, e, u, s'.pending[u].adding);
    }
  }

  // At each step, what leaves the pool is taken, or evicted by the thread that added it.
  ghost predicate OwnLeave(cap: nat, s: Sys, es: seq<Event>)
    requires Runs(cap, s, es)
    decreases |es|
  {
    es == [] || (OwnLeaves(s, es[0], After(cap, s, es[0])) && OwnLeave(cap, After(cap, s, es[0]), es[1..]))
  }

  ghost predicate OwnLeaves(s: Sys, e: Event, s': Sys) {
    forall m :: m in s.pooled && m !in s'.pooled ==>
      (e.TakeOne? && e.m == m) || (e.Evict? && e.t == s.pooled[m])
  }

  lemma {:induction false} CarefulFrom(cap: nat, s: Sys, es: seq<Event>)
    requires 1 <= cap && Inv(cap, s) && Private(s) && Careful(cap, s, es)
    ensures Runs(cap, s, es) && OwnLeave(cap, s, es)
    decreases |es|
  {
    if es != [] {
      var s' := After(cap, s, es[0]);
      StepKeeps(cap, s, es[0]);
      PrivateKeeps(cap, s, es[0]);
      CarefulFrom(cap, s', es[1..]);
      forall m | m in s.pooled && m !in s'.pooled
        ensures (es[0].TakeOne? && es[0].m == m) || (es[0].Evict? && es[0].t == s.pooled[m])
      {
        OnlyBySafe(s, es[0], s.pooled[m], m);
      }
    }
  }

  /** On every run all of whose additions are safe, a connection leaves the pool only
      when it is taken or when the thread that added it evicts it. */
  lemma CarefulRuns(threads: nat, cap: nat, es: seq<Event>)
    requires 1 <= cap && Careful(cap, Start(threads), es)
    ensures Runs(cap, Start(threads), es) && OwnLeave(cap, Start(threads), es)
  {
    CarefulFrom(cap, Start(threads), es);
  }

  // ---- two such runs ----

  // a is found by thread 1, which adds it again while thread 0 is evicting it.
  function RaceRun(a: Metadata, b: Metadata): seq<Event> {
    [StartAdd(0, a), Store(0), TakeOne(1, a), Forget(1), StartAdd(0, b), StartAdd(1, a), Store(1)]
  }

  // The same, but thread 0 only comes to evict it afterwards.
  function StaleRun(a: Metadata, b: Metadata): seq<Event> {
    [StartAdd(0, a), Store(0), TakeOne(1, a), Forget(1), StartAdd(1, a), Store(1), StartAdd(0, b)]
  }

  function Two(l0: Order, p0: Pending, l1: Order, p1: Pending, pooled: map<Metadata, nat>): Sys {
    Sys([l0, l1], [p0, p1], pooled)
  }

  // a is pooled by thread 1, which records it, and thread 0 is about to remove it.
  function AboutToSteal(a: Metadata, b: Metadata): Sys {
    Two([(b.id, b)], Evicting(a, b), [(a.id, a)], Nothing, map[a := 1])
  }

  /** Both runs lead to the eviction that takes the connection although no LRU has
      evicted its new record, whether the addition came during the eviction or before. */
  lemma StaleEviction(a: Metadata, b: Metadata)
    requires a.id != b.id
    ensures RunsTo(1, Start(2), RaceRun(a, b), AboutToSteal(a, b))
    ensures RunsTo(1, Start(2), StaleRun(a, b), AboutToSteal(a, b))
    ensures var s := AboutToSteal(a, b);
      && Steals(s, Evict(0), a)
      && After(1, s, Evict(0)) == Two([(b.id, b)], Storing(b), [(a.id, a)], Nothing, map[])
  {
    var (n, none, la, lb) := (Nothing, [], [(a.id, a)], [(b.id, b)]);
    var s := AboutToSteal(a, b);
    StaleAdds(a, b);
    StaleSteps(a, b);
    assert Start(2) == Two(none, n, none, n, map[]);
    assert RunsTo(1, s, [], s);
    hide Leads, RunsTo, Start, AboutToSteal, Two;
    // the race
    var r6 := Then(1, Two(lb, Evicting(a, b), la, Storing(a), map[]), Store(1), s, [], s);
    var r5 := Then(1, Two(lb, Evicting(a, b), none, n, map[]), StartAdd(1, a),
                   Two(lb, Evicting(a, b), la, Storing(a), map[]), r6, s);
    var r4 := Then(1, Two(la, n, none, n, map[]), StartAdd(0, b), Two(lb, Evicting(a, b), none, n, map[]), r5, s);
    var r0 := Prelude(a, b, r4, s);
    // the stale record
    var q6 := Then(1, Two(la, n, la, n, map[a := 1]), StartAdd(0, b), s, [], s);
    var q5 := Then(1, Two(la, n, la, Storing(a), map[]), Store(1), Two(la, n, la, n, map[a := 1]), q6, s);
    var q4 := Then(1, Two(la, n, none, n, map[]), StartAdd(1, a), Two(la, n, la, Storing(a), map[]), q5, s);
    var q0 := Prelude(a, b, q4, s);
    assert r0 == RaceRun(a, b) && q0 == StaleRun(a, b);
  }

  // a is added by thread 0 and found by thread 1.
  lemma Prelude(a: Metadata, b: Metadata, rest: seq<Event>, end: Sys) returns (es: seq<Event>)
    requires a.id != b.id && RunsTo(1, Two([(a.id, a)], Nothing, [], Nothing, map[]), rest, end)
    ensures es == [StartAdd(0, a), Store(0), TakeOne(1, a), Forget(1)] + rest
    ensures RunsTo(1, Two([], Nothing, [], Nothing, map[]), es, end)
  {
    var (n, none, la) := (Nothing, [], [(a.id, a)]);
    StaleAdds(a, b);
    StaleSteps(a, b);
    hide Leads, RunsTo, Two;
    var r3 := Then(1, Two(la, n, none, Forgetting(a.id), map[]), Forget(1), Two(la, n, none, n, map[]), rest, end);
    var r2 := Then(1, Two(la, n, none, n, map[a := 0]), TakeOne(1, a),
                   Two(la, n, none, Forgetting(a.id), map[]), r3, end);
    var r1 := Then(1, Two(la, Storing(a), none, n, map[]), Store(0), Two(la, n, none, n, map[a := 0]), r2, end);
    es := Then(1, Two(none, n, none, n, map[]), StartAdd(0, a), Two(la, Storing(a), none, n, map[]), r1, end);
  }

  lemma StaleAdds(a: Metadata, b: Metadata)
    requires a.id != b.id
    ensures var (n, la, lb) := (Nothing, [(a.id, a)], [(b.id, b)]);
      && Leads(1, Two([], n, [], n, map[]), StartAdd(0, a), Two(la, Storing(a), [], n, map[]))
      && Leads(1, Two(la, n, [], n, map[]), StartAdd(0, b), Two(lb, Evicting(a, b), [], n, map[]))
      && Leads(1, Two(lb, Evicting(a, b), [], n, map[]), StartAdd(1, a), Two(lb, Evicting(a, b), la, Storing(a), map[]))
      && Leads(1, Two(la, n, [], n, map[]), StartAdd(1, a), Two(la, n, la, Storing(a), map[]))
      && Leads(1, Two(la, n, la, n, map[a := 1]), StartAdd(0, b), AboutToSteal(a, b))
  {
    var (la, lb) := ([(a.id, a)], [(b.id, b)]);
    assert P.Without<Metadata>([], a.id) + la == la;
    assert P.Without(la, b.id) == la by {
      assert P.Without(la[1..], b.id) == [];
    }
    assert (la + lb)[1..] == lb;
  }

  lemma StaleSteps(a: Metadata, b: Metadata)
    requires a.id != b.id
    ensures var (n, la, lb) := (Nothing, [(a.id, a)], [(b.id, b)]);
      && Leads(1, Two(la, Storing(a), [], n, map[]), Store(0), Two(la, n, [], n, map[a := 0]))
      && Leads(1, Two(la, n, [], n, map[a := 0]), TakeOne(1, a), Two(la, n, [], Forgetting(a.id), map[]))
      && Leads(1, Two(la, n, [], Forgetting(a.id), map[]), Forget(1), Two(la, n, [], n, map[]))
      && Leads(1, Two(lb, Evicting(a, b), la, Storing(a), map[]), Store(1), AboutToSteal(a, b))
      && Leads(1, Two(la, n, la, Storing(a), map[]), Store(1), Two(la, n, la, n, map[a := 1]))
  {
    assert P.Without<Metadata>([], a.id) == [];
    var gone: map<Metadata, nat> := map[a := 0] - {a};
    assert gone == map[];
  }

  ghost predicate Leads(cap: nat, s: Sys, e: Event, s': Sys) {
    Can(s, e) && After(cap, s, e) == s'
  }

  ghost predicate RunsTo(cap: nat, s: Sys, es: seq<Event>, s': Sys) {
    Runs(cap, s, es) && End(cap, s, es) == s'
  }

  lemma Then(cap: nat, s: Sys, e: Event, s1: Sys, es: seq<Event>, end: Sys) returns (all: seq<Event>)
    requires Leads(cap, s, e, s1) && RunsTo(cap, s1, es, end)
    ensures all == [e] + es && RunsTo(cap, s, all, end)
  {
    all := [e] + es;
    assert all[1..] == es;
  }
}
