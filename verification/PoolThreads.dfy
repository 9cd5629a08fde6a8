/** The pool shared by several threads, each with its own LRU: every call is the
    steps it takes on the LRU and on the nodes, and the steps of different threads
    interleave freely. */
module PoolThreads {
  import P = Pool

  type Metadata = P.Metadata
  type Order = seq<(int, Metadata)>

  // What a thread has still to do of the call it is in.
  datatype Pending =
    | Nothing
    | Evicting(replaced: Metadata, adding: Metadata)   // remove the replaced one, then store
    | Storing(adding: Metadata)
    | Forgetting(id: int)                               // drop the id from its own LRU

  // pooled: with each connection, for the record, the thread whose addition stored it.
  datatype Sys = Sys(lrus: seq<Order>, pending: seq<Pending>, pooled: map<Metadata, nat>)

  datatype Event =
    | StartAdd(t: nat, m: Metadata)
    | Evict(t: nat)
    | Store(t: nat)
    | TakeOne(t: nat, m: Metadata)   // a find or a close, having removed m from its node
    | Miss(t: nat, id: int)          // a close of what is not pooled
    | Forget(t: nat)

  predicate InFlight(p: Pending, id: int) {
    (p.Evicting? || p.Storing?) && p.adding.id == id
  }

  /** An id is a descriptor: it is not added while it is pooled or being added. A
      close names the group its id is pooled under. */
  ghost predicate Can(s: Sys, e: Event) {
    && |s.lrus| == |s.pending| && e.t < |s.lrus|
    && var p := s.pending[e.t];
       match e
       case StartAdd(_, m) =>
         && p == Nothing && (forall x :: x in s.pooled ==> x.id != m.id)
         && forall u :: 0 <= u < |s.pending| ==> !InFlight(s.pending[u], m.id)
       case Evict(_) => p.Evicting?
       case Store(_) => p.Storing?
       case TakeOne(_, m) => p == Nothing && m in s.pooled
       case Miss(_, id) => p == Nothing && forall x :: x in s.pooled ==> x.id != id
       case Forget(_) => p.Forgetting?
  }

  ghost function After(cap: nat, s: Sys, e: Event): Sys
    requires Can(s, e)
  {
    var (t, p) := (e.t, s.pending[e.t]);
    match e
    case StartAdd(_, m) =>
      var all := P.Without(s.lrus[t], m.id) + [(m.id, m)];
      if |all| > cap
      then s.(lrus := s.lrus[t := all[1..]], pending := s.pending[t := Evicting(all[0].1, m)])
      else s.(lrus := s.lrus[t := all], pending := s.pending[t := Storing(m)])
    case Evict(_) => s.(pooled := s.pooled - {p.replaced}, pending := s.pending[t := Storing(p.adding)])
    case Store(_) => s.(pooled := s.pooled[p.adding := t], pending := s.pending[t := Nothing])
    case TakeOne(_, m) => s.(pooled := s.pooled - {m}, pending := s.pending[t := Forgetting(m.id)])
    case Miss(_, id) => s.(pending := s.pending[t := Forgetting(id)])
    case Forget(_) => s.(lrus := s.lrus[t := P.Without(s.lrus[t], p.id)], pending := s.pending[t := Nothing])
  }

  // ---- invariant ----

  // Thread t's LRU records the connection and is not about to forget it, or t is
  // about to remove it.
  ghost predicate Keeps(lru: Order, p: Pending, m: Metadata) {
    ((m.id, m) in lru && p != Forgetting(m.id)) || (p.Evicting? && p.replaced == m)
  }

  // The very thread that added it does.
  ghost predicate Kept(s: Sys, m: Metadata)
    requires |s.lrus| == |s.pending| && m in s.pooled
  {
    var t := s.pooled[m];
    t < |s.lrus| && Keeps(s.lrus[t], s.pending[t], m)
  }

  ghost predicate ThreadOk(cap: nat, lru: Order, p: Pending) {
    && |lru| <= cap && P.Distinct(lru)
    && (forall e :: e in lru ==> e.1.id == e.0)
    && (p.Evicting? || p.Storing? ==> (p.adding.id, p.adding) in lru)
  }

  ghost predicate FlightsApart(s: Sys) {
    && (forall t, x :: 0 <= t < |s.pending| && x in s.pooled ==> !InFlight(s.pending[t], x.id))
    && (forall t, u :: 0 <= t < u < |s.pending| && (s.pending[t].Evicting? || s.pending[t].Storing?) ==>
        !InFlight(s.pending[u], s.pending[t].adding.id))
  }

  ghost predicate OneEach(pooled: map<Metadata, nat>) {
    forall x, y :: x in pooled && y in pooled && x.id == y.id ==> x == y
  }

  ghost predicate Inv(cap: nat, s: Sys) {
    && |s.lrus| == |s.pending|
    && (forall t :: 0 <= t < |s.lrus| ==> ThreadOk(cap, s.lrus[t], s.pending[t]))
    && FlightsApart(s) && OneEach(s.pooled)
    && (forall m :: m in s.pooled ==> Kept(s, m))
  }

  function Start(threads: nat): Sys {
    Sys(seq(threads, _ => []), seq(threads, _ => Nothing), map[])
  }

  // What is kept stays kept when its thread's state still does it.
  lemma KeptStill(s: Sys, s': Sys, t: nat, m: Metadata)
    requires |s.lrus| == |s.pending| == |s'.lrus| == |s'.pending| && t < |s.lrus|
    requires forall u :: 0 <= u < |s.lrus| && u != t ==> s'.lrus[u] == s.lrus[u] && s'.pending[u] == s.pending[u]
    requires m in s.pooled && m in s'.pooled && s'.pooled[m] == s.pooled[m] && Kept(s, m)
    requires Keeps(s.lrus[t], s.pending[t], m) ==> Keeps(s'.lrus[t], s'.pending[t], m)
    ensures Kept(s', m)
  {
  }

  lemma StartAddKeeps(cap: nat, s: Sys, t: nat, m: Metadata)
    requires 1 <= cap && Inv(cap, s) && Can(s, StartAdd(t, m))
    ensures Inv(cap, After(cap, s, StartAdd(t, m)))
  {
    var s' := After(cap, s, StartAdd(t, m));
    PutLast(s.lrus[t], m);
    DropFirst(P.Without(s.lrus[t], m.id) + [(m.id, m)]);
    forall x | x in s'.pooled ensures Kept(s', x) {
      KeptStill(s, s', t, x);
    }
  }

  // The order with an entry put last.
  lemma PutLast(lru: Order, m: Metadata)
    requires P.Distinct(lru) && forall e :: e in lru ==> e.1.id == e.0
    ensures var all := P.Without(lru, m.id) + [(m.id, m)];
      && P.Distinct(all) && (forall e :: e in all ==> e.1.id == e.0)
      && (forall e :: e in all <==> (e in lru && e.0 != m.id) || e == (m.id, m))
      && all[|all| - 1] == (m.id, m) && |all| <= |lru| + 1
  {
    P.WithoutExactly(lru, m.id);
    AppendOne(P.Without(lru, m.id), (m.id, m));
    hide P.Without, P.Distinct;
  }

  lemma AppendOne(rest: Order, e: (int, Metadata))
    requires P.Distinct(rest) && forall f :: f in rest ==> f.0 != e.0
    ensures P.Distinct(rest + [e]) && (forall f :: f in rest + [e] <==> f in rest || f == e)
  {
    assert forall i :: 0 <= i < |rest| ==> (rest + [e])[i] == rest[i] && rest[i] in rest;
  }

  lemma DropFirst(all: Order)
    requires P.Distinct(all) && all != []
    ensures P.Distinct(all[1..]) && (forall e :: e in all[1..] <==> e in all && e != all[0])
    ensures |all| > 1 ==> all[1..][|all| - 2] == all[|all| - 1]
    ensures forall e :: e in all[1..] ==> e.0 != all[0].0
  {
    forall e | e in all && e != all[0] ensures e in all[1..] {
      var i :| 0 <= i < |all| && all[i] == e;
      assert all[1..][i - 1] == e;
    }
  }

  lemma EvictKeeps(cap: nat, s: Sys, t: nat)
    requires Inv(cap, s) && Can(s, Evict(t))
    ensures Inv(cap, After(cap, s, Evict(t)))
  {
    var s' := After(cap, s, Evict(t));
    forall x | x in s'.pooled ensures Kept(s', x) {
      KeptStill(s, s', t, x);
    }
  }

  lemma StoreKeeps(cap: nat, s: Sys, t: nat)
    requires Inv(cap, s) && Can(s, Store(t))
    ensures Inv(cap, After(cap, s, Store(t)))
  {
    var s' := After(cap, s, Store(t));
    forall x | x in s'.pooled ensures Kept(s', x) {
      if x == s.pending[t].adding {
        assert Keeps(s'.lrus[t], s'.pending[t], x);
      } else {
        KeptStill(s, s', t, x);
      }
    }
  }

  lemma TakeOneKeeps(cap: nat, s: Sys, t: nat, m: Metadata)
    requires Inv(cap, s) && Can(s, TakeOne(t, m))
    ensures Inv(cap, After(cap, s, TakeOne(t, m)))
  {
    var s' := After(cap, s, TakeOne(t, m));
    forall x | x in s'.pooled ensures Kept(s', x) {
      KeptStill(s, s', t, x);
    }
  }

  lemma MissKeeps(cap: nat, s: Sys, t: nat, id: int)
    requires Inv(cap, s) && Can(s, Miss(t, id))
    ensures Inv(cap, After(cap, s, Miss(t, id)))
  {
    var s' := After(cap, s, Miss(t, id));
    forall x | x in s'.pooled ensures Kept(s', x) {
      KeptStill(s, s', t, x);
    }
  }

  lemma ForgetKeeps(cap: nat, s: Sys, t: nat)
    requires Inv(cap, s) && Can(s, Forget(t))
    ensures Inv(cap, After(cap, s, Forget(t)))
  {
    var s' := After(cap, s, Forget(t));
    P.WithoutExactly(s.lrus[t], s.pending[t].id);
    forall x | x in s'.pooled ensures Kept(s', x) {
      KeptStill(s, s', t, x);
    }
  }

  lemma StepKeeps(cap: nat, s: Sys, e: Event)
    requires 1 <= cap && Inv(cap, s) && Can(s, e)
    ensures Inv(cap, After(cap, s, e))
  {
    match e
    case StartAdd(t, m) => StartAddKeeps(cap, s, t, m);
    case Evict(t) => EvictKeeps(cap, s, t);
    case Store(t) => StoreKeeps(cap, s, t);
    case TakeOne(t, m) => TakeOneKeeps(cap, s, t, m);
    case Miss(t, id) => MissKeeps(cap, s, t, id);
    case Forget(t) => ForgetKeeps(cap, s, t);
  }

  // ---- runs ----

  ghost predicate Runs(cap: nat, s: Sys, es: seq<Event>)
    decreases |es|
  {
    es == [] || (Can(s, es[0]) && Runs(cap, After(cap, s, es[0]), es[1..]))
  }

  ghost function End(cap: nat, s: Sys, es: seq<Event>): Sys
    requires Runs(cap, s, es)
    decreases |es|
  {
    if es == [] then s else End(cap, After(cap, s, es[0]), es[1..])
  }

  lemma {:induction false} RunInv(cap: nat, s: Sys, es: seq<Event>)
    requires 1 <= cap && Inv(cap, s) && Runs(cap, s, es)
    ensures Inv(cap, End(cap, s, es)) && |End(cap, s, es).lrus| == |s.lrus|
    decreases |es|
  {
    if es != [] {
      StepKeeps(cap, s, es[0]);
      RunInv(cap, After(cap, s, es[0]), es[1..]);
    }
  }

  // ---- bound ----

  ghost function MetasOf(order: Order): (r: set<Metadata>)
    ensures |r| <= |order| && forall e :: e in order ==> e.1 in r
  {
    if order == [] then {} else {order[0].1} + MetasOf(order[1..])
  }

  // The connections the first n threads record or are about to remove.
  ghost function Recorded(s: Sys, n: nat): (r: set<Metadata>)
    requires |s.lrus| == |s.pending| && n <= |s.lrus|
    ensures forall t, m :: 0 <= t < n && Keeps(s.lrus[t], s.pending[t], m) ==> m in r
  {
    if n == 0 then {} else
      Recorded(s, n - 1) + MetasOf(s.lrus[n - 1])
      + if s.pending[n - 1].Evicting? then {s.pending[n - 1].replaced} else {}
  }

  function Evictions(pending: seq<Pending>): (n: nat)
    ensures n <= |pending|
  {
    if pending == [] then 0 else Evictions(pending[..|pending| - 1]) + if pending[|pending| - 1].Evicting? then 1 else 0
  }

  lemma {:induction false} RecordedBound(cap: nat, s: Sys, n: nat)
    requires |s.lrus| == |s.pending| && n <= |s.lrus|
    requires forall t :: 0 <= t < n ==> |s.lrus[t]| <= cap
    ensures |Recorded(s, n)| <= n * cap + Evictions(s.pending[..n])
  {
    if n > 0 {
      RecordedBound(cap, s, n - 1);
      assert s.pending[..n][..n - 1] == s.pending[..n - 1];
      RecordedStep(s, n);
      hide Recorded;
      OneMore(n, cap);
    }
  }

  lemma RecordedStep(s: Sys, n: nat)
    requires |s.lrus| == |s.pending| && 0 < n <= |s.lrus|
    ensures |Recorded(s, n)| <= |Recorded(s, n - 1)| + |s.lrus[n - 1]| + if s.pending[n - 1].Evicting? then 1 else 0
  {
  }

  lemma OneMore(n: nat, cap: nat)
    requires n > 0
    ensures n * cap == (n - 1) * cap + cap
  {
  }

  lemma SubsetSize<T>(a: set<T>, b: set<T>)
    requires a <= b
    ensures |a| <= |b|
  {
    assert b == a + (b - a);
  }

  /** In every interleaving: each pooled connection is recorded under its own group by
      the LRU of the thread that added it, or that thread is about to remove it, so the
      pooled ones are at most threads times capacity, and one for each thread amid an
      eviction. */
  lemma PooledBound(threads: nat, cap: nat, es: seq<Event>)
    requires 1 <= cap && Runs(cap, Start(threads), es)
    ensures var s := End(cap, Start(threads), es);
      && |s.lrus| == |s.pending| == threads
      && (forall m :: m in s.pooled ==> Kept(s, m))
      && |s.pooled| <= threads * cap + Evictions(s.pending)
      && Evictions(s.pending) <= threads
  {
    hide Runs, End;
    RunInv(cap, Start(threads), es);
    var s := End(cap, Start(threads), es);
    RecordedBound(cap, s, threads);
    assert s.pending[..threads] == s.pending;
    forall m | m in s.pooled ensures m in Recorded(s, threads) {
      assert Kept(s, m);
    }
    SubsetSize(s.pooled.Keys, Recorded(s, threads));
    assert |s.pooled| == |s.pooled.Keys|;
  }
}
