/** Message headers: one map from names to spellings and one from names to values,
    edited side by side, iterated side by side into the octets of the head. */
module Headers {
  import opened Bytes

  type Octets = seq<byte>

  // ---- the header map: entries in order, each name with all of its values ----

  type HeaderMap<V> = seq<(Octets, seq<V>)>

  function Index<V>(m: HeaderMap<V>, n: Octets): (i: nat)
    ensures i <= |m| && (i < |m| ==> m[i].0 == n)
    ensures forall k :: 0 <= k < i ==> m[k].0 != n
  {
    if m == [] then 0 else if m[0].0 == n then 0 else 1 + Index(m[1..], n)
  }

  function Append<V>(m: HeaderMap<V>, n: Octets, v: V): HeaderMap<V> {
    var i := Index(m, n);
    if i < |m| then m[i := (n, m[i].1 + [v])] else m + [(n, [v])]
  }

  // The entry keeps its place and loses its other values.
  function Insert<V>(m: HeaderMap<V>, n: Octets, v: V): HeaderMap<V> {
    var i := Index(m, n);
    if i < |m| then m[i := (n, [v])] else m + [(n, [v])]
  }

  // The last entry takes the place of the removed one.
  function Remove<V>(m: HeaderMap<V>, n: Octets): HeaderMap<V> {
    var i := Index(m, n);
    if i < |m| then m[i := m[|m| - 1]][..|m| - 1] else m
  }

  function GetAll<V>(m: HeaderMap<V>, n: Octets): seq<V> {
    var i := Index(m, n);
    if i < |m| then m[i].1 else []
  }

  function Tagged<V>(n: Octets, vs: seq<V>): seq<(Octets, V)> {
    seq(|vs|, i requires 0 <= i < |vs| => (n, vs[i]))
  }

  function Iter<V>(m: HeaderMap<V>): seq<(Octets, V)> {
    if m == [] then [] else Iter(m[..|m| - 1]) + Tagged(m[|m| - 1].0, m[|m| - 1].1)
  }

  ghost predicate Unique<V>(m: HeaderMap<V>) {
    forall i, j :: 0 <= i < j < |m| ==> m[i].0 != m[j].0
  }

  // ---- two maps as one ----

  ghost predicate Aligned<C, V>(c: HeaderMap<C>, v: HeaderMap<V>) {
    |c| == |v| && forall i :: 0 <= i < |c| ==> c[i].0 == v[i].0 && |c[i].1| == |v[i].1|
  }

  function Both<C, V>(cs: seq<C>, vs: seq<V>): seq<(C, V)>
    requires |cs| == |vs|
  {
    seq(|cs|, i requires 0 <= i < |cs| => (cs[i], vs[i]))
  }

  ghost function Pair<C, V>(c: HeaderMap<C>, v: HeaderMap<V>): HeaderMap<(C, V)>
    requires Aligned(c, v)
  {
    seq(|c|, i requires 0 <= i < |c| => (c[i].0, Both(c[i].1, v[i].1)))
  }

  // Where a name is found is decided by the names alone.
  lemma {:induction false} IndexIs<V>(m: HeaderMap<V>, n: Octets, i: nat)
    requires i <= |m| && (i < |m| ==> m[i].0 == n) && forall k :: 0 <= k < i ==> m[k].0 != n
    ensures Index(m, n) == i
  {
  }

  lemma SameIndex<C, V>(c: HeaderMap<C>, v: HeaderMap<V>, n: Octets)
    requires Aligned(c, v)
    ensures Index(c, n) == Index(v, n) == Index(Pair(c, v), n)
  {
    IndexIs(v, n, Index(c, n));
    IndexIs(Pair(c, v), n, Index(c, n));
  }

  /** The two maps edited alike are the map of pairs edited once: same names, same
      order, same counts. */
  lemma AppendPairs<C, V>(c: HeaderMap<C>, v: HeaderMap<V>, n: Octets, x: C, y: V)
    requires Aligned(c, v)
    ensures Aligned(Append(c, n, x), Append(v, n, y))
    ensures Pair(Append(c, n, x), Append(v, n, y)) == Append(Pair(c, v), n, (x, y))
  {
    SameIndex(c, v, n);
    var i := Index(c, n);
    if i < |c| {
      assert Both(c[i].1 + [x], v[i].1 + [y]) == Both(c[i].1, v[i].1) + [(x, y)];
    } else {
      assert Both([x], [y]) == [(x, y)];
    }
  }

  lemma InsertPairs<C, V>(c: HeaderMap<C>, v: HeaderMap<V>, n: Octets, x: C, y: V)
    requires Aligned(c, v)
    ensures Aligned(Insert(c, n, x), Insert(v, n, y))
    ensures Pair(Insert(c, n, x), Insert(v, n, y)) == Insert(Pair(c, v), n, (x, y))
  {
    SameIndex(c, v, n);
    assert Both([x], [y]) == [(x, y)];
  }

  lemma RemovePairs<C, V>(c: HeaderMap<C>, v: HeaderMap<V>, n: Octets)
    requires Aligned(c, v)
    ensures Aligned(Remove(c, n), Remove(v, n))
    ensures Pair(Remove(c, n), Remove(v, n)) == Remove(Pair(c, v), n)
  {
    SameIndex(c, v, n);
    var (i, last) := (Index(c, n), |c| - 1);
    if i < |c| {
      assert Pair(c, v)[last] == (c[last].0, Both(c[last].1, v[last].1));
      hide Index, Both;
    }
  }

  // Iterated together the two maps show the same name at every turn.
  lemma {:induction false} IterPairs<C, V>(c: HeaderMap<C>, v: HeaderMap<V>)
    requires Aligned(c, v)
    ensures |Iter(c)| == |Iter(v)| == |Iter(Pair(c, v))|
    ensures forall k :: 0 <= k < |Iter(c)| ==>
      Iter(c)[k].0 == Iter(v)[k].0 && Iter(Pair(c, v))[k] == (Iter(c)[k].0, (Iter(c)[k].1, Iter(v)[k].1))
  {
    if c != [] {
      var last := |c| - 1;
      IterPairs(c[..last], v[..last]);
      assert Pair(c, v)[..last] == Pair(c[..last], v[..last]);
    }
  }

  // ---- what each name is left with ----

  lemma AppendGets<V>(m: HeaderMap<V>, n: Octets, v: V, k: Octets)
    requires Unique(m)
    ensures Unique(Append(m, n, v))
    ensures GetAll(Append(m, n, v), k) == if k == n then GetAll(m, n) + [v] else GetAll(m, k)
  {
    var r := Append(m, n, v);
    IndexIs(r, k, if k == n then Index(m, n) else if Index(m, k) < |m| then Index(m, k) else |r|);
  }

  lemma InsertGets<V>(m: HeaderMap<V>, n: Octets, v: V, k: Octets)
    requires Unique(m)
    ensures Unique(Insert(m, n, v))
    ensures GetAll(Insert(m, n, v), k) == if k == n then [v] else GetAll(m, k)
  {
    var r := Insert(m, n, v);
    IndexIs(r, k, if k == n then Index(m, n) else if Index(m, k) < |m| then Index(m, k) else |r|);
  }

  lemma RemoveGets<V>(m: HeaderMap<V>, n: Octets, k: Octets)
    requires Unique(m)
    ensures Unique(Remove(m, n))
    ensures GetAll(Remove(m, n), k) == if k == n then [] else GetAll(m, k)
  {
    var (i, j, r) := (Index(m, n), Index(m, k), Remove(m, n));
    if i < |m| {
      IndexIs(r, k, if k == n || j == |m| then |r| else if j == |m| - 1 then i else j);
    }
  }

  // The entries iterated under one name.
  function Of<V>(it: seq<(Octets, V)>, n: Octets): seq<V> {
    if it == [] then [] else Of(it[..|it| - 1], n) + if it[|it| - 1].0 == n then [it[|it| - 1].1] else []
  }

  lemma {:induction false} OfAppend<V>(a: seq<(Octets, V)>, b: seq<(Octets, V)>, n: Octets)
    ensures Of(a + b, n) == Of(a, n) + Of(b, n)
  {
    if b == [] {
      assert a + b == a;
    } else {
      assert (a + b)[..|a + b| - 1] == a + b[..|b| - 1];
      OfAppend(a, b[..|b| - 1], n);
    }
  }

  lemma {:induction false} OfTagged<V>(n: Octets, vs: seq<V>, k: Octets)
    ensures Of(Tagged(n, vs), k) == if k == n then vs else []
  {
    if vs != [] {
      assert Tagged(n, vs)[..|vs| - 1] == Tagged(n, vs[..|vs| - 1]);
      OfTagged(n, vs[..|vs| - 1], k);
    }
  }

  // The last name's values come last.
  lemma GetLast<V>(m: HeaderMap<V>, n: Octets)
    requires Unique(m) && m != []
    ensures var (front, last) := (m[..|m| - 1], m[|m| - 1]);
      Unique(front) && GetAll(m, n) == GetAll(front, n) + if last.0 == n then last.1 else []
  {
    var (front, last) := (m[..|m| - 1], m[|m| - 1]);
    IndexIs(m, n, if last.0 == n then |m| - 1 else if Index(front, n) < |front| then Index(front, n) else |m|);
  }

  /** Iteration yields under each name exactly its values, in their order. */
  lemma {:induction false} IterGets<V>(m: HeaderMap<V>, n: Octets)
    requires Unique(m)
    ensures Of(Iter(m), n) == GetAll(m, n)
  {
    if m != [] {
      var (front, last) := (m[..|m| - 1], m[|m| - 1]);
      GetLast(m, n);
      IterGets(front, n);
      OfAppend(Iter(front), Tagged(last.0, last.1), n);
      OfTagged(last.0, last.1, n);
    }
    hide Unique, Of, Tagged;
  }
}
