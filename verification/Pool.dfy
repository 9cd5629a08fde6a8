/** The connection pool on one thread: per-group nodes and one LRU that must agree
    on which connections are idle. Everything the pool does is stated on the list
    of idle connections, longest idle first. */
module Pool {
  import opened Bytes
  import N = PoolNode

  datatype Metadata = Metadata(group: nat, id: int)

  // ---- the LRU ----

  // The order without the entry for id.
  function Without<M>(order: seq<(int, M)>, id: int): (r: seq<(int, M)>)
    ensures |r| <= |order|
    ensures forall e :: e in r ==> e in order
  {
    if order == [] then []
    else if order[0].0 == id then order[1..]
    else [order[0]] + Without(order[1..], id)
  }

  // The cache is walked from its newest entry.
  function NewestFirst<M>(order: seq<(int, M)>): seq<int> {
    if order == [] then [] else [order[|order| - 1].0] + NewestFirst(order[..|order| - 1])
  }

  class ConnectionLru<M> {
    const sizeCapacity: nat
    var order: seq<(int, M)>   // longest idle first
    var draining: bool
    var notified: seq<int>     // whose removal notifier was fired

    constructor (lruSize: nat)
      ensures order == [] && !draining && notified == [] && sizeCapacity == lruSize
    {
      sizeCapacity := lruSize;
      order, draining, notified := [], false, [];
    }

    /** The entry goes last; when that exceeds the capacity the first one leaves and
        its notifier fires. While draining the new entry itself is turned away. */
    method AddNewConnection(id: int, metadata: M) returns (evicted: Option<M>)
      modifies this
      ensures draining == old(draining)
      ensures old(draining) ==> order == old(order) && evicted == None && notified == old(notified) + [id]
      ensures !old(draining) ==>
        var all := Without(old(order), id) + [(id, metadata)];
        if |all| > sizeCapacity
        then order == all[1..] && evicted == Some(all[0].1) && notified == old(notified) + [all[0].0]
        else order == all && evicted == None && notified == old(notified)
    {
      if draining {
        notified := notified + [id];
        return None;
      }
      order := Without(order, id) + [(id, metadata)];
      if |order| > sizeCapacity {
        var (oldest, meta) := order[0];
        order := order[1..];
        notified := notified + [oldest];
        return Some(meta);
      }
      return None;
    }

    method PopConnection(id: int)
      modifies this`order
      ensures order == Without(old(order), id)
    {
      order := Without(order, id);
    }

    /** Every notifier fires, the order is cleared and stays so: later additions are
        turned away. */
    method DrainConnections()
      modifies this
      ensures order == [] && draining
      ensures notified == old(notified) + NewestFirst(old(order))
    {
      draining := true;
      assert order[..|order|] == order;
      var i := |order|;
      while i > 0
        invariant 0 <= i <= |order| && draining && order == old(order)
        invariant notified + NewestFirst(order[..i]) == old(notified) + NewestFirst(order)
      {
        i := i - 1;
        assert order[..i + 1][..i] == order[..i];
        notified := notified + [order[i].0];
      }
      order := [];
    }
  }

  // ---- the idle list ----

  datatype Idle<S> = Idle(id: int, group: nat, connection: S)

  function Drop<S>(idle: seq<Idle<S>>, id: int): seq<Idle<S>> {
    if idle == [] then [] else if idle[0].id == id then idle[1..] else [idle[0]] + Drop(idle[1..], id)
  }

  function Trim<S>(idle: seq<Idle<S>>, capacity: nat): seq<Idle<S>> {
    if |idle| > capacity then idle[1..] else idle
  }

  ghost predicate Distinct<M>(order: seq<(int, M)>) {
    forall i, j :: 0 <= i < j < |order| ==> order[i].0 != order[j].0
  }

  // Entry e of the order is held by the table of the group its metadata names.
  ghost predicate Held<S>(e: (int, Metadata), tables: map<nat, map<int, S>>) {
    e.1.id == e.0 && e.1.group in tables && e.0 in tables[e.1.group]
  }

  // The groups' tables hold exactly the connections the order lists, each in the
  // group its metadata names, once.
  ghost predicate Agrees<S>(order: seq<(int, Metadata)>, tables: map<nat, map<int, S>>) {
    && Distinct(order)
    && (forall e :: e in order ==> Held(e, tables))
    && (forall g, id :: g in tables && id in tables[g] ==> (id, Metadata(g, id)) in order)
  }

  // The idle connections, longest idle first.
  ghost function Listed<S>(order: seq<(int, Metadata)>, tables: map<nat, map<int, S>>): seq<Idle<S>>
    requires forall e :: e in order ==> Held(e, tables)
  {
    if order == [] then []
    else
      var e := order[0];
      assert e in order && Held(e, tables);
      [Idle(e.0, e.1.group, tables[e.1.group][e.0])] + Listed(order[1..], tables)
  }

  // The tables after one connection came or went.
  ghost function Put<S>(tables: map<nat, map<int, S>>, g: nat, id: int, x: S): map<nat, map<int, S>> {
    tables[g := (if g in tables then tables[g] else map[])[id := x]]
  }

  ghost function Take<S>(tables: map<nat, map<int, S>>, g: nat, id: int): map<nat, map<int, S>> {
    if g in tables then tables[g := tables[g] - {id}] else tables
  }

  lemma {:induction false} ListedIds<S>(order: seq<(int, Metadata)>, tables: map<nat, map<int, S>>)
    requires forall e :: e in order ==> Held(e, tables)
    ensures |Listed(order, tables)| == |order|
    ensures forall i :: 0 <= i < |order| ==>
      Listed(order, tables)[i].id == order[i].0 && Listed(order, tables)[i].group == order[i].1.group
  {
    if order != [] {
      ListedIds(order[1..], tables);
    }
  }

  lemma {:induction false} ListedSame<S>(order: seq<(int, Metadata)>, a: map<nat, map<int, S>>,
                                         b: map<nat, map<int, S>>)
    requires forall e :: e in order ==> Held(e, a) && Held(e, b) && a[e.1.group][e.0] == b[e.1.group][e.0]
    ensures Listed(order, a) == Listed(order, b)
  {
    if order != [] {
      assert order[0] in order;
      ListedSame(order[1..], a, b);
    }
  }

  lemma {:induction false} ListedAppend<S>(order: seq<(int, Metadata)>, e: (int, Metadata),
                                           tables: map<nat, map<int, S>>)
    requires forall f :: f in order + [e] ==> Held(f, tables)
    ensures forall f :: f in order ==> f in order + [e]
    ensures e in order + [e]
    ensures Listed(order + [e], tables) == Listed(order, tables) + [Idle(e.0, e.1.group, tables[e.1.group][e.0])]
  {
    assert e == (order + [e])[|order|];
    assert forall f :: f in order ==> f in order + [e];
    if order != [] {
      assert (order + [e])[1..] == order[1..] + [e];
      ListedAppend(order[1..], e, tables);
    }
  }

  lemma {:induction false} ListedWithout<S>(order: seq<(int, Metadata)>, id: int, tables: map<nat, map<int, S>>)
    requires forall e :: e in order ==> Held(e, tables)
    ensures Listed(Without(order, id), tables) == Drop(Listed(order, tables), id)
    ensures |Listed(order, tables)| == |order|
  {
    if order != [] {
      ListedWithout(order[1..], id, tables);
      if order[0].0 != id {
        assert Without(order, id)[1..] == Without(order[1..], id);
      }
    }
  }

  lemma WithoutExactly<M>(order: seq<(int, M)>, id: int)
    requires Distinct(order)
    ensures Distinct(Without(order, id))
    ensures forall e :: e in Without(order, id) <==> e in order && e.0 != id
    ensures (forall e :: e in order ==> e.0 != id) ==> Without(order, id) == order
  {
    WithoutMembers(order, id);
    if forall e :: e in order ==> e.0 != id {
      WithoutSame(order, id);
    }
    hide Without, Distinct;
  }

  lemma {:induction false} WithoutSame<M>(order: seq<(int, M)>, id: int)
    requires forall e :: e in order ==> e.0 != id
    ensures Without(order, id) == order
  {
    if order != [] {
      WithoutSame(order[1..], id);
    }
  }

  lemma {:induction false} WithoutMembers<M>(order: seq<(int, M)>, id: int)
    requires Distinct(order)
    ensures Distinct(Without(order, id))
    ensures forall e :: e in Without(order, id) <==> e in order && e.0 != id
  {
    if order != [] {
      var (first, more) := (order[0], order[1..]);
      assert forall e :: e in order <==> e == first || e in more;
      assert forall e :: e in more ==> e.0 != first.0;
      if first.0 != id {
        WithoutMembers(more, id);
        var rest := Without(more, id);
        assert Without(order, id) == [first] + rest;
        hide Without;
        DistinctCons(first, rest);
      }
    }
  }

  lemma DistinctCons<M>(e: (int, M), rest: seq<(int, M)>)
    requires Distinct(rest) && forall f :: f in rest ==> f.0 != e.0
    ensures Distinct([e] + rest)
  {
  }

  /** Taking one id out of the order and out of its group's table keeps the two in
      agreement and takes exactly its entry off the idle list. */
  lemma AgreesTake<S>(order: seq<(int, Metadata)>, tables: map<nat, map<int, S>>, g: nat, id: int)
    requires Agrees(order, tables)
    requires forall e :: e in order && e.0 == id ==> e.1.group == g
    ensures var order' := Without(order, id);
      && Agrees(order', Take(tables, g, id))
      && Listed(order', Take(tables, g, id)) == Drop(Listed(order, tables), id)
  {
    var order', tables' := Without(order, id), Take(tables, g, id);
    WithoutExactly(order, id);
    ListedWithout(order, id, tables);
    forall e | e in order' ensures Held(e, tables') && tables'[e.1.group][e.0] == tables[e.1.group][e.0] {
      assert Held(e, tables);
    }
    forall h, k | h in tables' && k in tables'[h] ensures (k, Metadata(h, k)) in order' {
      assert (k, Metadata(h, k)) in order;
    }
    ListedSame(order', tables, tables');
  }

  /** A new id put last in the order and into its group's table. */
  lemma AgreesPut<S>(order: seq<(int, Metadata)>, tables: map<nat, map<int, S>>, g: nat, id: int, x: S)
    requires Agrees(order, tables)
    requires forall e :: e in order ==> e.0 != id
    ensures var order' := order + [(id, Metadata(g, id))];
      && Agrees(order', Put(tables, g, id, x))
      && Listed(order', Put(tables, g, id, x)) == Listed(order, tables) + [Idle(id, g, x)]
  {
    var e := (id, Metadata(g, id));
    var order', tables' := order + [e], Put(tables, g, id, x);
    forall f | f in order' ensures Held(f, tables') {
      if f in order {
        assert Held(f, tables);
      }
    }
    forall h, k | h in tables' && k in tables'[h] ensures (k, Metadata(h, k)) in order' {
      if k != id || h != g {
        assert (k, Metadata(h, k)) in order;
      } else {
        assert order'[|order|] == e;
      }
    }
    ListedAppend(order, e, tables');
    ListedSame(order, tables, tables');
  }

  // Entry i was idle in the group and alone has left the list.
  ghost predicate Picked<S>(was: seq<Idle<S>>, i: nat, group: nat, x: S, now: seq<Idle<S>>) {
    i < |was| && was[i].group == group && was[i].connection == x && now == was[..i] + was[i + 1..]
  }

  // The close names the group of whatever is idle under its id.
  ghost predicate Names<S>(idle: seq<Idle<S>>, m: Metadata) {
    forall e :: e in idle && e.id == m.id ==> e.group == m.group
  }

  // ---- one call, as seen from outside ----

  // notified, pickedUp: whose removal and whose pickup notifier has fired, in order.
  datatype Shelf<S> = Shelf(idle: seq<Idle<S>>, notified: seq<int>, pickedUp: seq<int>)

  datatype Call<S> =
    | Add(metadata: Metadata, connection: S)
    | FindIn(group: nat, found: Option<S>)
    | Close(metadata: Metadata)

  // An id is a descriptor its idle connection still owns.
  ghost predicate May<S>(shelf: Shelf<S>, call: Call<S>) {
    match call
    case Add(m, _) => forall e :: e in shelf.idle ==> e.id != m.id
    case FindIn(_, _) => true
    case Close(m) => Names(shelf.idle, m)
  }

  /** An added connection joins the end of the list; if that exceeds the capacity the
      one longest idle leaves and its notifier fires. A connection found was idle in
      the group asked for, and only it leaves; none is found only when the group has
      none. A connection closed leaves if it was there. The one found has its pickup
      notifier fired; no other notifier fires. */
  ghost predicate Next<S>(capacity: nat, was: Shelf<S>, call: Call<S>, now: Shelf<S>) {
    match call
    case Add(m, x) =>
      var all := was.idle + [Idle(m.id, m.group, x)];
      && now.idle == Trim(all, capacity)
      && now.notified == (if |all| > capacity then was.notified + [all[0].id] else was.notified)
      && now.pickedUp == was.pickedUp
    case FindIn(g, None) => now == was && forall e :: e in was.idle ==> e.group != g
    case FindIn(g, Some(x)) =>
      && now.notified == was.notified
      && exists i: nat :: Picked(was.idle, i, g, x, now.idle) && now.pickedUp == was.pickedUp + [was.idle[i].id]
    case Close(m) => now == was.(idle := Drop(was.idle, m.id))
  }

  class ConnectionPool<S> {
    var pool: map<nat, N.ConnectionNode<S>>
    const lru: ConnectionLru<Metadata>
    var pickedUp: seq<int>
    ghost var nodes: set<N.ConnectionNode<S>>
    ghost var tables: map<nat, map<int, S>>   // what each group's node holds

    ghost predicate Stored()
      reads this`pool, this`nodes, this`tables, nodes
    {
      && Placed()
      && (forall g :: g in pool ==> pool[g].Table() == tables[g])
    }

    // One sound node of its own for each group.
    ghost predicate Placed()
      reads this`pool, this`nodes, this`tables, nodes
    {
      && tables.Keys == pool.Keys
      && (forall g :: g in pool ==> pool[g] in nodes && pool[g].Ok())
      && (forall g, h :: g in pool && h in pool && g != h ==> pool[g] != pool[h])
    }

    lemma SameGroups()
      requires Stored()
      ensures pool.Keys == tables.Keys
    {
    }

    // The group's node has changed what it holds.
    ghost method Record(group: nat)
      requires Placed() && group in pool
      requires forall g :: g in pool && g != group ==> pool[g].Table() == tables[g]
      modifies this`tables
      ensures Stored() && tables == old(tables)[group := old(pool[group].Table())]
    {
      hide N.ConnectionNode.Table, N.ConnectionNode.Ok;
      tables := tables[group := pool[group].Table()];
    }

    ghost predicate Valid()
      reads this, lru, nodes
    {
      Stored() && Agrees(lru.order, tables) && |lru.order| <= lru.sizeCapacity
    }

    ghost function View(): seq<Idle<S>>
      requires Valid()
      reads this, lru, nodes
    {
      Listed(lru.order, tables)
    }

    ghost function Now(): Shelf<S>
      requires Valid()
      reads this, lru, nodes
    {
      Shelf(View(), lru.notified, pickedUp)
    }

    constructor (poolNodeSize: nat)
      ensures Valid() && Now() == Shelf([], [], []) && !lru.draining && lru.sizeCapacity == poolNodeSize && fresh(lru)
      ensures nodes == {}
    {
      pool, pickedUp := map[], [];
      lru := new ConnectionLru<Metadata>(poolNodeSize);
      nodes, tables := {}, map[];
    }

    method GetConnectionNode(group: nat) returns (node: N.ConnectionNode<S>)
      requires Stored()
      modifies this`pool, this`nodes, this`tables
      ensures Stored() && group in pool && node == pool[group] && fresh(nodes - old(nodes))
      ensures tables == if group in old(tables) then old(tables) else old(tables)[group := map[]]
    {
      if group in pool {
        return pool[group];
      }
      node := new N.ConnectionNode();
      pool, nodes, tables := pool[group := node], nodes + {node}, tables[group := map[]];
    }

    method RemoveConnectionFromPool(metadata: Metadata)
      requires Stored()
      modifies this`tables, nodes
      ensures Stored() && tables == Take(old(tables), metadata.group, metadata.id)
    {
      if metadata.group !in pool {
        return;
      }
      var node := pool[metadata.group];
      var _ := node.RemoveConnection(metadata.id);
      Record(metadata.group);
    }

    /** When the LRU is draining or has no room at all, the new connection is pooled
        although the LRU has turned it away: nothing will ever evict it. */
    method AddConnection(metadata: Metadata, connection: S)
      requires Valid() && May(Now(), Add(metadata, connection))
      modifies this, lru, nodes
      ensures Stored() && fresh(nodes - old(nodes)) && lru.draining == old(lru.draining)
      ensures Valid() <==> !lru.draining && 1 <= lru.sizeCapacity
      ensures Valid() ==> Next(lru.sizeCapacity, old(Now()), Add(metadata, connection), Now())
      ensures !Valid() ==>
        && tables == Put(old(tables), metadata.group, metadata.id, connection)
        && lru.order == old(lru.order) && lru.notified == old(lru.notified) + [metadata.id] && pickedUp == old(pickedUp)
    {
      hide Stored, Agrees, Next;
      AddFresh(lru.order, tables, metadata);
      AddIsNext(lru.order, tables, lru.sizeCapacity, lru.draining, metadata, connection, lru.notified, pickedUp);
      var replaced := lru.AddNewConnection(metadata.id, metadata);
      if replaced.Some? {
        RemoveConnectionFromPool(replaced.value);
      }
      Insert(metadata, connection);
    }

    // The node of the group, made if need be, takes the connection.
    method Insert(metadata: Metadata, connection: S)
      requires Stored()
      requires metadata.group in tables ==> metadata.id !in tables[metadata.group]
      modifies this`pool, this`nodes, this`tables, nodes
      ensures Stored() && fresh(nodes - old(nodes))
      ensures tables == Put(old(tables), metadata.group, metadata.id, connection)
    {
      hide Put, N.ConnectionNode.Table, N.ConnectionNode.Ok;
      var node := GetConnectionNode(metadata.group);
      node.AddNewConnection(metadata.id, connection);
      PutMade(old(tables), tables, metadata.group, metadata.id, connection);
      Record(metadata.group);
    }

    method FindConnection(group: nat) returns (r: Option<S>)
      requires Valid()
      modifies this`tables, this`pickedUp, lru, nodes
      ensures Valid() && Next(lru.sizeCapacity, old(Now()), FindIn(group, r), Now())
    {
      hide Stored, Agrees, Next;
      SameGroups();
      if group !in pool {
        NoneIn(lru.sizeCapacity, lru.order, tables, group, lru.notified, pickedUp);
        return None;
      }
      var found := TakeAny(group);
      if found.None? {
        NoneIn(lru.sizeCapacity, lru.order, tables, group, lru.notified, pickedUp);
        return None;
      }
      var (id, connection) := found.value;
      OneFound(lru.sizeCapacity, lru.order, old(tables), group, id, lru.notified, pickedUp);
      lru.PopConnection(id);
      pickedUp := pickedUp + [id];
      return Some(connection);
    }

    method TakeAny(group: nat) returns (found: Option<(int, S)>)
      requires Stored() && group in pool
      modifies this`tables, nodes
      ensures Stored()
      ensures found.None? ==> tables == old(tables) && tables[group] == map[]
      ensures found.Some? ==> var (id, x) := found.value;
        id in old(tables)[group] && x == old(tables)[group][id] && tables == Take(old(tables), group, id)
    {
      hide N.ConnectionNode.Table, N.ConnectionNode.Ok;
      var node := pool[group];
      found := node.GetAvailableConnection();
      Record(group);
    }

    /** A close that names another group than its id's removes only the LRU's record:
        the connection stays pooled with nothing to evict it. */
    method CloseConnection(metadata: Metadata)
      requires Valid()
      modifies this`tables, lru, nodes
      ensures Stored() && (Valid() <==> May(old(Now()), Close(metadata)))
      ensures Valid() ==> Next(lru.sizeCapacity, old(Now()), Close(metadata), Now())
    {
      hide Stored, Agrees;
      CloseAgrees(lru.order, tables, metadata);
      RemoveConnectionFromPool(metadata);
      lru.PopConnection(metadata.id);
    }
  }

  lemma NoneIn<S>(cap: nat, order: seq<(int, Metadata)>, tables: map<nat, map<int, S>>, g: nat, notified: seq<int>,
                  pickedUp: seq<int>)
    requires Agrees(order, tables) && (g in tables ==> tables[g] == map[])
    ensures var now := Shelf(Listed(order, tables), notified, pickedUp); Next(cap, now, FindIn(g, None), now)
  {
    GroupEmpty(order, tables, g);
  }

  lemma OneFound<S>(cap: nat, order: seq<(int, Metadata)>, tables: map<nat, map<int, S>>, g: nat, id: int,
                    notified: seq<int>, pickedUp: seq<int>)
    requires Agrees(order, tables) && g in tables && id in tables[g]
    ensures var order', tables' := Without(order, id), Take(tables, g, id);
      && Agrees(order', tables')
      && Next(cap, Shelf(Listed(order, tables), notified, pickedUp), FindIn(g, Some(tables[g][id])),
              Shelf(Listed(order', tables'), notified, pickedUp + [id]))
  {
    var i := AgreesFound(order, tables, g, id);
    assert Picked(Listed(order, tables), i, g, tables[g][id], Listed(Without(order, id), Take(tables, g, id)));
  }

  lemma CloseAgrees<S>(order: seq<(int, Metadata)>, tables: map<nat, map<int, S>>, m: Metadata)
    requires Agrees(order, tables)
    ensures var order', tables' := Without(order, m.id), Take(tables, m.group, m.id);
      && (Agrees(order', tables') <==> Names(Listed(order, tables), m))
      && (Agrees(order', tables') ==> Listed(order', tables') == Drop(Listed(order, tables), m.id))
  {
    if Names(Listed(order, tables), m) {
      OneGroup(order, tables, m);
      AgreesTake(order, tables, m.group, m.id);
    } else {
      ListedIds(order, tables);
      var i :| 0 <= i < |order| && Listed(order, tables)[i].id == m.id && Listed(order, tables)[i].group != m.group;
      assert order[i] in order && Held(order[i], tables);
      WithoutExactly(order, m.id);
      assert (m.id, Metadata(order[i].1.group, m.id)) !in Without(order, m.id);
    }
  }

  // What the LRU's answer and the nodes' changes add up to.
  lemma AddIsNext<S>(order: seq<(int, Metadata)>, tables: map<nat, map<int, S>>, cap: nat, draining: bool,
                     m: Metadata, x: S,
                     notified: seq<int>, pickedUp: seq<int>)
    requires Agrees(order, tables) && |order| <= cap
    requires |Listed(order, tables)| == |order| && forall e :: e in order ==> e.0 != m.id
    requires order != [] ==> Listed(order, tables)[0].id == order[0].0
    ensures !draining && 1 <= cap ==>
      var (order', tables') := (AddOrder(order, cap, m), AddTables(order, tables, cap, m, x));
      && Agrees(order', tables') && |order'| <= cap
      && Next(cap, Shelf(Listed(order, tables), notified, pickedUp), Add(m, x),
              Shelf(Listed(order', tables'), if |order| + 1 > cap then notified + [order[0].0] else notified, pickedUp))
    ensures draining || cap == 0 ==> !Agrees(order, Put(tables, m.group, m.id, x))
    ensures cap == 0 ==> Put(Take(tables, m.group, m.id), m.group, m.id, x) == Put(tables, m.group, m.id, x)
  {
    if !draining && 1 <= cap {
      AddAgrees(order, tables, cap, m, x);
      hide Agrees;
    } else {
      assert (m.id, Metadata(m.group, m.id)) !in order;
      if m.group in tables {
        assert (tables[m.group] - {m.id})[m.id := x] == tables[m.group][m.id := x];
      }
    }
  }

  // A group's table may be made empty before it is put into.
  lemma PutMade<S>(tables: map<nat, map<int, S>>, made: map<nat, map<int, S>>, g: nat, id: int, x: S)
    requires made == if g in tables then tables else tables[g := map[]]
    ensures made[g := made[g][id := x]] == Put(tables, g, id, x)
  {
  }

  // The order and tables after one more connection.
  ghost function AddOrder(order: seq<(int, Metadata)>, cap: nat, m: Metadata): seq<(int, Metadata)> {
    var all := order + [(m.id, m)];
    if |all| > cap then all[1..] else all
  }

  ghost function AddTables<S>(order: seq<(int, Metadata)>, tables: map<nat, map<int, S>>, cap: nat, m: Metadata, x: S)
    : map<nat, map<int, S>>
  {
    var kept := if |order| + 1 > cap && order != [] then Take(tables, order[0].1.group, order[0].1.id) else tables;
    Put(kept, m.group, m.id, x)
  }

  lemma AddAgrees<S>(order: seq<(int, Metadata)>, tables: map<nat, map<int, S>>, cap: nat, m: Metadata, x: S)
    requires Agrees(order, tables) && |order| <= cap && 1 <= cap
    requires |Listed(order, tables)| == |order| && forall e :: e in order ==> e.0 != m.id
    ensures var order', tables' := AddOrder(order, cap, m), AddTables(order, tables, cap, m, x);
      && Agrees(order', tables')
      && Listed(order', tables') == Trim(Listed(order, tables) + [Idle(m.id, m.group, x)], cap)
  {
    hide Agrees, Listed;
    assert m == Metadata(m.group, m.id);
    if |order| + 1 > cap {
      AddFull(order, tables, m, x);
    } else {
      AgreesPut(order, tables, m.group, m.id, x);
    }
  }

  lemma AddFresh<S>(order: seq<(int, Metadata)>, tables: map<nat, map<int, S>>, m: Metadata)
    requires Agrees(order, tables)
    requires forall e :: e in Listed(order, tables) ==> e.id != m.id
    ensures forall e :: e in order ==> e.0 != m.id
    ensures Without(order, m.id) == order
    ensures forall g :: g in tables ==> m.id !in tables[g]
    ensures forall e :: e in order ==> Held(e, tables)
    ensures |Listed(order, tables)| == |order|
    ensures order != [] ==> Listed(order, tables)[0].id == order[0].0 == order[0].1.id
  {
    NewId(order, tables, m.id);
    ListedIds(order, tables);
    if order != [] {
      assert order[0] in order && Held(order[0], tables);
    }
  }

  lemma AddFull<S>(order: seq<(int, Metadata)>, tables: map<nat, map<int, S>>, m: Metadata, x: S)
    requires Agrees(order, tables) && order != []
    requires forall e :: e in order ==> e.0 != m.id
    ensures var (e, all) := (order[0], order + [(m.id, m)]);
      var tables' := Put(Take(tables, e.1.group, e.1.id), m.group, m.id, x);
      && e.0 == e.1.id && Agrees(all[1..], tables')
      && Listed(all[1..], tables') == Listed(order, tables)[1..] + [Idle(m.id, m.group, x)]
  {
    AgreesOldest(order, tables);
    AgreesPut(order[1..], Take(tables, order[0].1.group, order[0].0), m.group, m.id, x);
    assert m == Metadata(m.group, m.id);
    assert (order + [(m.id, m)])[1..] == order[1..] + [(m.id, m)];
  }

  lemma NewId<S>(order: seq<(int, Metadata)>, tables: map<nat, map<int, S>>, id: int)
    requires Agrees(order, tables)
    requires forall e :: e in Listed(order, tables) ==> e.id != id
    ensures forall e :: e in order ==> e.0 != id
    ensures Without(order, id) == order
  {
    ListedIds(order, tables);
    forall e | e in order ensures e.0 != id {
      var i :| 0 <= i < |order| && order[i] == e;
      assert Listed(order, tables)[i] in Listed(order, tables);
    }
    WithoutExactly(order, id);
  }

  lemma OneGroup<S>(order: seq<(int, Metadata)>, tables: map<nat, map<int, S>>, m: Metadata)
    requires Agrees(order, tables)
    requires forall e :: e in Listed(order, tables) && e.id == m.id ==> e.group == m.group
    ensures forall e :: e in order && e.0 == m.id ==> e.1.group == m.group
  {
    ListedIds(order, tables);
    forall e | e in order && e.0 == m.id ensures e.1.group == m.group {
      var i :| 0 <= i < |order| && order[i] == e;
      assert Listed(order, tables)[i] in Listed(order, tables);
    }
  }

  // The first entry of the order, evicted.
  lemma AgreesOldest<S>(order: seq<(int, Metadata)>, tables: map<nat, map<int, S>>)
    requires Agrees(order, tables) && order != []
    ensures var e := order[0]; var tables' := Take(tables, e.1.group, e.0);
      && e.1 == Metadata(e.1.group, e.0)
      && Agrees(order[1..], tables')
      && Listed(order[1..], tables') == Listed(order, tables)[1..]
      && (forall f :: f in order[1..] ==> f in order)
  {
    var e := order[0];
    assert e in order && Held(e, tables);
    assert forall f :: f in order && f.0 == e.0 ==> f == e by {
      forall f | f in order && f.0 == e.0 ensures f == e {
        var i :| 0 <= i < |order| && order[i] == f;
      }
    }
    AgreesTake(order, tables, e.1.group, e.0);
  }

  lemma GroupEmpty<S>(order: seq<(int, Metadata)>, tables: map<nat, map<int, S>>, group: nat)
    requires Agrees(order, tables) && (group in tables ==> tables[group] == map[])
    ensures forall e :: e in Listed(order, tables) ==> e.group != group
  {
    ListedIds(order, tables);
    forall e | e in Listed(order, tables) ensures e.group != group {
      var i :| 0 <= i < |order| && Listed(order, tables)[i] == e;
      assert order[i] in order && Held(order[i], tables);
    }
  }

  lemma {:induction false} DropAt<S>(idle: seq<Idle<S>>, i: nat)
    requires i < |idle| && forall k :: 0 <= k < i ==> idle[k].id != idle[i].id
    ensures Drop(idle, idle[i].id) == idle[..i] + idle[i + 1..]
  {
    if i > 0 {
      DropAt(idle[1..], i - 1);
      assert idle[0].id != idle[i].id;
      assert idle[..i] + idle[i + 1..] == [idle[0]] + (idle[1..][..i - 1] + idle[1..][i..]);
    }
  }

  lemma AgreesFound<S>(order: seq<(int, Metadata)>, tables: map<nat, map<int, S>>, g: nat, id: int) returns (i: nat)
    requires Agrees(order, tables) && g in tables && id in tables[g]
    ensures var idle := Listed(order, tables); var tables' := Take(tables, g, id);
      && Agrees(Without(order, id), tables')
      && i < |idle| && idle[i] == Idle(id, g, tables[g][id])
      && Listed(Without(order, id), tables') == idle[..i] + idle[i + 1..]
  {
    var e := (id, Metadata(g, id));
    assert e in order;
    i :| 0 <= i < |order| && order[i] == e;
    ListedIds(order, tables);
    forall f | f in order && f.0 == id ensures f.1.group == g {
      var j :| 0 <= j < |order| && order[j] == f;
      assert i == j;
    }
    AgreesTake(order, tables, g, id);
    ListedAt(order, tables, i);
    DropAt(Listed(order, tables), i);
  }

  lemma {:induction false} ListedAt<S>(order: seq<(int, Metadata)>, tables: map<nat, map<int, S>>, i: nat)
    requires i < |order| && forall e :: e in order ==> Held(e, tables)
    ensures Held(order[i], tables) && i < |Listed(order, tables)|
    ensures Listed(order, tables)[i] == Idle(order[i].0, order[i].1.group, tables[order[i].1.group][order[i].0])
  {
    assert order[i] in order;
    if i > 0 {
      ListedAt(order[1..], tables, i - 1);
    }
  }
}
