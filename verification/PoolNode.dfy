/** One group's idle connections: a ring of sixteen and an overflow map. */
module PoolNode {
  import opened Bytes

  const HOT_QUEUE_SIZE: nat := 16

  // Position of the first entry with this id, or |q|.
  function Find<T>(q: seq<(int, T)>, id: int): (i: nat)
    ensures i <= |q|
    ensures forall k :: 0 <= k < i ==> q[k].0 != id
    ensures i < |q| ==> q[i].0 == id
  {
    if q == [] then 0 else if q[0].0 == id then 0 else 1 + Find(q[1..], id)
  }

  // ---- both stores as one table ----

  // Each id is in one store, once.
  ghost predicate Unique<T>(c: map<int, T>, q: seq<(int, T)>) {
    && (forall i, j :: 0 <= i < j < |q| ==> q[i].0 != q[j].0)
    && (forall i :: 0 <= i < |q| ==> q[i].0 !in c)
  }

  ghost function Ids<T>(q: seq<(int, T)>): set<int> {
    set i | 0 <= i < |q| :: q[i].0
  }

  ghost function TableOf<T>(c: map<int, T>, q: seq<(int, T)>): map<int, T> {
    if q == [] then c else TableOf(c, q[..|q| - 1])[q[|q| - 1].0 := q[|q| - 1].1]
  }

  lemma {:induction false} TableAt<T>(c: map<int, T>, q: seq<(int, T)>)
    requires Unique(c, q)
    ensures TableOf(c, q).Keys == c.Keys + Ids(q)
    ensures forall id :: id in c ==> TableOf(c, q)[id] == c[id]
    ensures forall i :: 0 <= i < |q| ==> q[i].0 in TableOf(c, q) && TableOf(c, q)[q[i].0] == q[i].1
  {
    if q != [] {
      var front, last := q[..|q| - 1], q[|q| - 1];
      TableAt(c, front);
      assert Ids(q) == Ids(front) + {last.0} by {
        assert q[|q| - 1] == last;
        assert forall i :: 0 <= i < |front| ==> q[i] == front[i];
      }
      assert forall i :: 0 <= i < |front| ==> q[i] == front[i] && q[i].0 != last.0;
    }
  }

  // A map is the table when it has the right ids and agrees with both stores.
  lemma TableIs<T>(c: map<int, T>, q: seq<(int, T)>, t: map<int, T>)
    requires Unique(c, q) && t.Keys == c.Keys + Ids(q)
    requires forall id :: id in c ==> t[id] == c[id]
    requires forall i :: 0 <= i < |q| ==> q[i].0 in t && t[q[i].0] == q[i].1
    ensures t == TableOf(c, q)
  {
    TableAt(c, q);
    forall id | id in t ensures t[id] == TableOf(c, q)[id] {
      if id !in c {
        assert id in Ids(q);
        var i :| 0 <= i < |q| && q[i].0 == id;
      }
    }
  }

  lemma TableAddHot<T>(c: map<int, T>, q: seq<(int, T)>, id: int, x: T)
    requires Unique(c, q) && id !in TableOf(c, q)
    ensures Unique(c, q + [(id, x)]) && TableOf(c, q + [(id, x)]) == TableOf(c, q)[id := x]
  {
    TableAt(c, q);
    assert (q + [(id, x)])[..|q|] == q;
  }

  lemma TableAddMap<T>(c: map<int, T>, q: seq<(int, T)>, id: int, x: T)
    requires Unique(c, q) && id !in TableOf(c, q)
    ensures Unique(c[id := x], q) && TableOf(c[id := x], q) == TableOf(c, q)[id := x]
  {
    TableAt(c, q);
    TableIs(c[id := x], q, TableOf(c, q)[id := x]);
  }

  lemma TableDropMap<T>(c: map<int, T>, q: seq<(int, T)>, id: int)
    requires Unique(c, q) && id in c
    ensures Unique(c - {id}, q) && TableOf(c - {id}, q) == TableOf(c, q) - {id}
  {
    TableAt(c, q);
    TableIs(c - {id}, q, TableOf(c, q) - {id});
  }

  // Taking entry i out of the ring turns it.
  function Turned<T>(q: seq<(int, T)>, i: nat): (t: seq<(int, T)>)
    requires i < |q|
    ensures |t| == |q| - 1
    ensures forall k :: 0 <= k < |t| ==> t[k] == q[Source(q, i, k)]
  {
    q[i + 1..] + q[..i]
  }

  // Where entry k of the turned ring was before.
  function Source<T>(q: seq<(int, T)>, i: nat, k: nat): (n: nat)
    requires i < |q| && k < |q| - 1
    ensures n < |q| && n != i
  {
    if k < |q| - i - 1 then k + i + 1 else k - (|q| - i - 1)
  }

  lemma TurnedIds<T>(q: seq<(int, T)>, i: nat)
    requires i < |q| && forall k, j :: 0 <= k < j < |q| ==> q[k].0 != q[j].0
    ensures Ids(Turned(q, i)) == Ids(q) - {q[i].0}
  {
    var t := Turned(q, i);
    forall id | id in Ids(q) - {q[i].0} ensures id in Ids(t) {
      var k :| 0 <= k < |q| && q[k].0 == id;
      assert t[if k < i then k + (|q| - i - 1) else k - i - 1].0 == id;
    }
    forall id | id in Ids(t) ensures id in Ids(q) - {q[i].0} {
      var k :| 0 <= k < |t| && t[k].0 == id;
      assert q[Source(q, i, k)].0 == id;
      assert id != q[i].0;
    }
  }

  lemma TableDropHot<T>(c: map<int, T>, q: seq<(int, T)>, i: nat)
    requires Unique(c, q) && i < |q|
    ensures Unique(c, Turned(q, i)) && TableOf(c, Turned(q, i)) == TableOf(c, q) - {q[i].0}
  {
    var t := Turned(q, i);
    forall k, j | 0 <= k < j < |t| ensures t[k].0 != t[j].0 {
      assert Source(q, i, k) != Source(q, i, j);
    }
    TableAt(c, q);
    TurnedIds(q, i);
    forall k | 0 <= k < |t| ensures t[k].0 in (TableOf(c, q) - {q[i].0}) && TableOf(c, q)[t[k].0] == t[k].1 {
      assert t[k].0 in Ids(t);
      assert q[Source(q, i, k)] == t[k];
    }
    TableIs(c, t, TableOf(c, q) - {q[i].0});
  }

  // Both ways of removing an id, and of not finding it.
  lemma TableRemove<T>(c: map<int, T>, q: seq<(int, T)>, id: int)
    requires Unique(c, q)
    ensures id in TableOf(c, q) <==> id in c || Find(q, id) < |q|
    ensures id in c ==>
      && Unique(c - {id}, q) && TableOf(c - {id}, q) == TableOf(c, q) - {id} && TableOf(c, q)[id] == c[id]
    ensures var i := Find(q, id); id !in c && i < |q| ==>
      && Unique(c, Turned(q, i)) && TableOf(c, Turned(q, i)) == TableOf(c, q) - {id} && TableOf(c, q)[id] == q[i].1
    ensures id !in TableOf(c, q) ==> TableOf(c, q) == TableOf(c, q) - {id}
  {
    TableAt(c, q);
    if id in c {
      TableDropMap(c, q, id);
    }
    if Find(q, id) < |q| {
      TableDropHot(c, q, Find(q, id));
    }
  }

  lemma NoMember(s: set<int>)
    requires forall k :: k !in s
    ensures s == {}
  {
    var none: set<int> := {};
    assert forall k :: k in s <==> k in none;
  }

  lemma SomeMember(s: set<int>)
    requires s != {}
    ensures exists k :: k in s
  {
    if !(exists k :: k in s) {
      NoMember(s);
    }
  }

  // The first key in the map's iteration order, which is not specified.
  method AnyKey<T>(m: map<int, T>) returns (id: Option<int>)
    ensures if m == map[] then id == None else id.Some? && id.value in m
  {
    if m.Keys == {} {
      return None;
    }
    SomeMember(m.Keys);
    var k :| k in m;
    return Some(k);
  }

  class ConnectionNode<T> {
    var connections: map<int, T>
    var hotQueue: seq<(int, T)>

    ghost predicate Valid()
      reads this
    {
      |hotQueue| <= HOT_QUEUE_SIZE
    }

    ghost predicate Ok()
      reads this
    {
      Valid() && Unique(connections, hotQueue)
    }

    // Every connection of the node, in either store.
    ghost function Table(): map<int, T>
      reads this
    {
      TableOf(connections, hotQueue)
    }

    constructor ()
      ensures Ok() && Table() == map[]
      ensures Valid() && connections == map[] && hotQueue == []
    {
      connections, hotQueue := map[], [];
    }

    method Push(entry: (int, T)) returns (ok: bool)
      requires Valid()
      modifies this`hotQueue
      ensures Valid() && (ok <==> |old(hotQueue)| < HOT_QUEUE_SIZE)
      ensures hotQueue == if ok then old(hotQueue) + [entry] else old(hotQueue)
    {
      ok := |hotQueue| < HOT_QUEUE_SIZE;
      if ok {
        hotQueue := hotQueue + [entry];
      }
    }

    method Pop() returns (entry: Option<(int, T)>)
      requires Valid()
      modifies this`hotQueue
      ensures Valid()
      ensures old(hotQueue) == [] ==> entry == None && hotQueue == []
      ensures old(hotQueue) != [] ==> entry == Some(old(hotQueue)[0]) && hotQueue == old(hotQueue)[1..]
    {
      if hotQueue == [] {
        return None;
      }
      entry := Some(hotQueue[0]);
      hotQueue := hotQueue[1..];
    }

    /** The longest-queued hot connection, else any of the others; none only when
        the node is empty. */
    method GetAvailableConnection() returns (r: Option<(int, T)>)
      requires Ok()
      modifies this
      ensures Ok()
      ensures old(hotQueue) != [] ==> r == Some(old(hotQueue)[0]) && hotQueue == old(hotQueue)[1..]
      ensures old(hotQueue) == [] ==> hotQueue == []
      ensures r == None ==> old(Table()) == map[] && Table() == map[]
      ensures r.Some? ==> var (id, x) := r.value;
        id in old(Table()) && x == old(Table())[id] && Table() == old(Table()) - {id}
    {
      TableAt(connections, hotQueue);
      if hotQueue != [] {
        TableDropHot(connections, hotQueue, 0);
        assert Turned(hotQueue, 0) == hotQueue[1..];
      }
      r := Pop();
      if r.Some? {
        return;
      }
      var next := AnyKey(connections);
      if next.None? {
        return None;
      }
      var id := next.value;
      TableDropMap(connections, hotQueue, id);
      r := Some((id, connections[id]));
      connections := connections - {id};
    }

    /** Into the ring while it has room, else into the map. */
    method AddNewConnection(id: int, connection: T)
      requires Ok() && id !in Table()
      modifies this
      ensures Ok() && Table() == old(Table())[id := connection]
      ensures hotQueue == if |old(hotQueue)| < HOT_QUEUE_SIZE then old(hotQueue) + [(id, connection)] else old(hotQueue)
    {
      TableAddHot(connections, hotQueue, id, connection);
      TableAddMap(connections, hotQueue, id, connection);
      PutBack(id, connection);
    }

    method PutBack(id: int, connection: T)
      requires Valid()
      modifies this
      ensures Valid()
      ensures if |old(hotQueue)| < HOT_QUEUE_SIZE
        then hotQueue == old(hotQueue) + [(id, connection)] && connections == old(connections)
        else hotQueue == old(hotQueue) && connections == old(connections)[id := connection]
    {
      var ok := Push((id, connection));
      if !ok {
        connections := connections[id := connection];
      }
    }

    /** Exactly the connection named leaves, whichever store held it, and is what is
        returned. */
    method RemoveConnection(id: int) returns (r: Option<T>)
      requires Ok()
      modifies this
      ensures Ok() && Table() == old(Table()) - {id}
      ensures r == if id in old(Table()) then Some(old(Table())[id]) else None
      ensures var i := Find(old(hotQueue), id);
        hotQueue == if id in old(connections) || i == |old(hotQueue)| then old(hotQueue) else Turned(old(hotQueue), i)
    {
      TableRemove(connections, hotQueue, id);
      if id in connections {
        r := Some(connections[id]);
        connections := connections - {id};
        return;
      }
      r := RemoveByRotation(id);
    }

    /** The ring is turned until the entry is found: the entries behind it come to
        the front in their order. An absent id costs one full turn and changes
        nothing. No entry is ever put back into the map. */
    method RemoveByRotation(id: int) returns (r: Option<T>)
      requires Valid()
      modifies this
      ensures Valid() && connections == old(connections)
      ensures var i := Find(old(hotQueue), id);
        if i < |old(hotQueue)|
        then r == Some(old(hotQueue)[i].1) && hotQueue == Turned(old(hotQueue), i)
        else r == None && hotQueue == old(hotQueue)
    {
      ghost var was := hotQueue;
      var totalQueue := |hotQueue|;
      for n := 0 to totalQueue
        invariant Valid() && connections == old(connections)
        invariant hotQueue == was[n..] + was[..n]
        invariant n <= Find(was, id)
      {
        var entry := Pop();
        assert entry.value == was[n] && hotQueue == was[n + 1..] + was[..n];
        if entry.value.0 == id {
          return Some(entry.value.1);
        }
        PutBack(entry.value.0, entry.value.1);
        assert was[n + 1..] + was[..n] + [was[n]] == was[n + 1..] + was[..n + 1];
      }
      assert was[totalQueue..] + was[..totalQueue] == was;
      return None;
    }
  }
}
