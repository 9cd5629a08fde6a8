/** Whole runs of the pool on one thread: where every added connection went. */
module PoolRuns {
  import opened Bytes
  import opened Pool

  // The idle list with the history of who came and where they went.
  datatype Book<S> = Book(
    shelf: Shelf<S>,
    added: seq<Idle<S>>,
    found: seq<Idle<S>>,
    evicted: seq<Idle<S>>,
    closed: seq<Idle<S>>)

  function Named<S>(idle: seq<Idle<S>>, id: int): seq<Idle<S>> {
    if idle == [] then [] else if idle[0].id == id then [idle[0]] else Named(idle[1..], id)
  }

  /** One call of the pool, entered in the book. */
  ghost predicate Entered<S>(cap: nat, b: Book<S>, call: Call<S>, b': Book<S>) {
    && May(b.shelf, call) && Next(cap, b.shelf, call, b'.shelf)
    && match call
       case Add(m, x) =>
         var e := Idle(m.id, m.group, x);
         var all := b.shelf.idle + [e];
         && b'.added == b.added + [e] && b'.found == b.found && b'.closed == b.closed
         && b'.evicted == b.evicted + if |all| > cap then [all[0]] else []
       case FindIn(g, r) =>
         && b'.added == b.added && b'.evicted == b.evicted && b'.closed == b.closed
         && (r == None ==> b'.found == b.found)
         && (r.Some? ==> exists i: nat :: Picked(b.shelf.idle, i, g, r.value, b'.shelf.idle) && Handed(b, i, b'))
       case Close(m) =>
         && b'.added == b.added && b'.evicted == b.evicted && b'.found == b.found
         && b'.closed == b.closed + Named(b.shelf.idle, m.id)
  }

  // Entry i was handed out, its pickup notifier fired.
  ghost predicate Handed<S>(b: Book<S>, i: nat, b': Book<S>) {
    && i < |b.shelf.idle| && b'.found == b.found + [b.shelf.idle[i]]
    && b'.shelf.pickedUp == b.shelf.pickedUp + [b.shelf.idle[i].id]
  }

  function OpenBook<S>(): Book<S> {
    Book(Shelf([], [], []), [], [], [], [])
  }

  ghost predicate Run<S>(cap: nat, calls: seq<Call<S>>, books: seq<Book<S>>) {
    && |books| == |calls| + 1 && books[0] == OpenBook()
    && forall n :: 0 <= n < |calls| ==> Entered(cap, books[n], calls[n], books[n + 1])
  }

  ghost predicate OneEach<S>(idle: seq<Idle<S>>) {
    forall i, j :: 0 <= i < j < |idle| ==> idle[i].id != idle[j].id
  }

  // The listed ones, in the order in which they were added.
  ghost predicate InOrder<S>(idle: seq<Idle<S>>, added: seq<Idle<S>>, at: seq<nat>) {
    && |at| == |idle|
    && (forall i :: 0 <= i < |at| ==> at[i] < |added| && idle[i] == added[at[i]])
    && (forall i, j :: 0 <= i < j < |at| ==> at[i] < at[j])
  }

  ghost predicate Oldest<S>(idle: seq<Idle<S>>, added: seq<Idle<S>>) {
    exists at: seq<nat> :: InOrder(idle, added, at)
  }

  function IdsOf<S>(es: seq<Idle<S>>): seq<int> {
    seq(|es|, i requires 0 <= i < |es| => es[i].id)
  }

  /** Every connection added is, as often as it was added, exactly one of: pooled,
      handed out, evicted, closed. */
  ghost predicate Balanced<S>(b: Book<S>) {
    multiset(b.added) == multiset(b.shelf.idle) + multiset(b.found) + multiset(b.evicted) + multiset(b.closed)
  }

  ghost predicate Sound<S>(cap: nat, b: Book<S>) {
    && Balanced(b)
    && OneEach(b.shelf.idle) && |b.shelf.idle| <= cap
    && b.shelf.notified == IdsOf(b.evicted) && b.shelf.pickedUp == IdsOf(b.found)
    && Oldest(b.shelf.idle, b.added)
  }

  // ---- lists ----

  lemma Removed<T>(s: seq<T>, i: nat)
    requires i < |s|
    ensures multiset(s) == multiset(s[..i] + s[i + 1..]) + multiset([s[i]])
  {
    assert s == s[..i] + [s[i]] + s[i + 1..];
  }

  ghost predicate OutAt<S>(idle: seq<Idle<S>>, id: int, i: nat) {
    i < |idle| && Drop(idle, id) == idle[..i] + idle[i + 1..] && Named(idle, id) == [idle[i]]
  }

  lemma OutLater<S>(idle: seq<Idle<S>>, id: int, i: nat)
    requires idle != [] && idle[0].id != id && OutAt(idle[1..], id, i)
    ensures OutAt(idle, id, i + 1)
  {
    assert [idle[0]] + (idle[1..][..i] + idle[1..][i + 1..]) == idle[..i + 1] + idle[i + 2..];
  }

  lemma {:induction false} DropSplits<S>(idle: seq<Idle<S>>, id: int)
    ensures (Drop(idle, id) == idle && Named(idle, id) == []) || exists i: nat :: OutAt(idle, id, i)
  {
    if idle != [] {
      if idle[0].id == id {
        assert OutAt(idle, id, 0);
      } else {
        DropSplits(idle[1..], id);
        if Named(idle[1..], id) != [] {
          var i: nat :| OutAt(idle[1..], id, i);
          OutLater(idle, id, i);
        }
      }
    }
  }

  // Taking entry i out keeps the list distinct and in order.
  lemma OutKeeps<S>(idle: seq<Idle<S>>, added: seq<Idle<S>>, i: nat)
    requires i < |idle| && OneEach(idle) && Oldest(idle, added)
    ensures var rest := idle[..i] + idle[i + 1..]; OneEach(rest) && Oldest(rest, added)
  {
    var at: seq<nat> :| InOrder(idle, added, at);
    assert InOrder(idle[..i] + idle[i + 1..], added, at[..i] + at[i + 1..]);
  }

  lemma InKeeps<S>(idle: seq<Idle<S>>, added: seq<Idle<S>>, e: Idle<S>)
    requires OneEach(idle) && Oldest(idle, added) && forall f :: f in idle ==> f.id != e.id
    ensures OneEach(idle + [e]) && Oldest(idle + [e], added + [e])
  {
    var at: seq<nat> :| InOrder(idle, added, at);
    assert InOrder(idle + [e], added + [e], at + [|added|]);
  }

  // ---- one call ----

  lemma Moved<T>(idle: multiset<T>, found: multiset<T>, evicted: multiset<T>, closed: multiset<T>,
                 come: multiset<T>, left: multiset<T>, gone: multiset<T>)
    requires idle + come == left + gone
    ensures idle + found + evicted + closed + come == left + found + (evicted + gone) + closed
  {
    var (a, b) := (idle + found + evicted + closed + come, left + found + (evicted + gone) + closed);
    forall x ensures a[x] == b[x] {
      assert (idle + come)[x] == (left + gone)[x];
    }
  }

  lemma EvictBalances<T>(added: seq<T>, idle: seq<T>, found: multiset<T>, evicted: seq<T>, closed: multiset<T>, e: T)
    requires multiset(added) == multiset(idle) + found + multiset(evicted) + closed
    ensures var all := idle + [e];
      multiset(added + [e]) == multiset(all[1..]) + found + multiset(evicted + [all[0]]) + closed
  {
    var all := idle + [e];
    Removed(all, 0);
    assert all[..0] + all[0 + 1..] == all[1..];
    Moved(multiset(idle), found, multiset(evicted), closed, multiset([e]), multiset(all[1..]), multiset([all[0]]));
  }

  lemma AddBalances<S>(cap: nat, b: Book<S>, m: Metadata, x: S, b': Book<S>)
    requires Balanced(b) && Entered(cap, b, Add(m, x), b')
    ensures Balanced(b')
  {
    var e := Idle(m.id, m.group, x);
    if |b.shelf.idle + [e]| > cap {
      EvictBalances(b.added, b.shelf.idle, multiset(b.found), b.evicted, multiset(b.closed), e);
    } else {
      assert b'.evicted == b.evicted;
    }
  }

  lemma AddKeeps<S>(cap: nat, b: Book<S>, m: Metadata, x: S, b': Book<S>)
    requires Sound(cap, b) && Entered(cap, b, Add(m, x), b')
    ensures Sound(cap, b')
  {
    AddBalances(cap, b, m, x, b');
    hide Balanced;
    var e := Idle(m.id, m.group, x);
    var all := b.shelf.idle + [e];
    InKeeps(b.shelf.idle, b.added, e);
    if |all| > cap {
      OutKeeps(all, b'.added, 0);
      assert all[..0] + all[0 + 1..] == all[1..];
      assert IdsOf(b.evicted + [all[0]]) == IdsOf(b.evicted) + [all[0].id];
    }
  }

  lemma FindBalances<S>(b: Book<S>, i: nat, g: nat, x: S, b': Book<S>)
    requires Balanced(b) && Picked(b.shelf.idle, i, g, x, b'.shelf.idle)
    requires b'.found == b.found + [b.shelf.idle[i]]
    requires b'.added == b.added && b'.evicted == b.evicted && b'.closed == b.closed
    ensures Balanced(b')
  {
    Removed(b.shelf.idle, i);
    assert multiset(b'.found) == multiset(b.found) + multiset([b.shelf.idle[i]]);
  }

  lemma FindKeeps<S>(cap: nat, b: Book<S>, g: nat, r: Option<S>, b': Book<S>)
    requires Sound(cap, b) && Entered(cap, b, FindIn(g, r), b')
    ensures Sound(cap, b')
  {
    if r.Some? {
      var i: nat :| Picked(b.shelf.idle, i, g, r.value, b'.shelf.idle) && Handed(b, i, b');
      assert IdsOf(b.found + [b.shelf.idle[i]]) == IdsOf(b.found) + [b.shelf.idle[i].id];
      FindBalances(b, i, g, r.value, b');
      hide Balanced;
      OutKeeps(b.shelf.idle, b.added, i);
    }
  }

  lemma CloseKeeps<S>(cap: nat, b: Book<S>, m: Metadata, b': Book<S>)
    requires Sound(cap, b) && Entered(cap, b, Close(m), b')
    ensures Sound(cap, b')
  {
    hide OneEach, Oldest;
    var idle := b.shelf.idle;
    DropSplits(idle, m.id);
    if Named(idle, m.id) != [] {
      var i: nat :| OutAt(idle, m.id, i);
      OutKeeps(idle, b.added, i);
      Removed(idle, i);
    }
  }

  lemma StepSound<S>(cap: nat, b: Book<S>, call: Call<S>, b': Book<S>)
    requires 1 <= cap && Sound(cap, b) && Entered(cap, b, call, b')
    ensures Sound(cap, b')
  {
    match call
    case Add(m, x) => AddKeeps(cap, b, m, x, b');
    case FindIn(g, r) => FindKeeps(cap, b, g, r, b');
    case Close(m) => CloseKeeps(cap, b, m, b');
  }

  /** Over any run: nothing is lost or handed out twice, the list keeps within the
      capacity and in order of arrival, one entry an id; the removal notifiers fired
      are those of the evicted and the pickup notifiers those of the found, in order. */
  lemma {:induction false} RunSound<S>(cap: nat, calls: seq<Call<S>>, books: seq<Book<S>>, n: nat)
    requires 1 <= cap && Run(cap, calls, books) && n <= |calls|
    ensures Sound(cap, books[n])
  {
    if n == 0 {
      assert InOrder<S>([], [], []);
    } else {
      RunSound(cap, calls, books, n - 1);
      assert Entered(cap, books[n - 1], calls[n - 1], books[n - 1 + 1]);
      StepSound(cap, books[n - 1], calls[n - 1], books[n]);
    }
  }

  /** A connection found was added under the group asked for, and was still pooled. */
  lemma FoundWasAdded<S>(cap: nat, b: Book<S>, g: nat, x: S, b': Book<S>)
    requires Sound(cap, b) && Entered(cap, b, FindIn(g, Some(x)), b')
    ensures exists e :: e in b.added && e in b.shelf.idle && e.group == g
                        && e.connection == x && b'.found == b.found + [e]
  {
    var i: nat :| Picked(b.shelf.idle, i, g, x, b'.shelf.idle) && Handed(b, i, b');
    var at: seq<nat> :| InOrder(b.shelf.idle, b.added, at);
    assert b.added[at[i]] == b.shelf.idle[i];
  }

  /** The one evicted was added before every other that was still pooled. */
  lemma EvictedWasOldest<S>(cap: nat, b: Book<S>, m: Metadata, x: S, b': Book<S>)
    requires 1 <= cap && Sound(cap, b) && Entered(cap, b, Add(m, x), b') && b'.evicted != b.evicted
    ensures |b.shelf.idle| == cap && b'.evicted == b.evicted + [b.shelf.idle[0]]
    ensures exists first: nat :: first < |b.added| && b.added[first] == b.shelf.idle[0]
                                 && Later(b'.shelf.idle, b'.added, first)
  {
    InKeeps(b.shelf.idle, b.added, Idle(m.id, m.group, x));
    var at: seq<nat> :| InOrder(b.shelf.idle, b.added, at);
    assert InOrder(b'.shelf.idle, b'.added, at[1..] + [|b.added|]);
    assert Later(b'.shelf.idle, b'.added, at[0]);
  }

  // The listed ones were all added after entry n.
  ghost predicate Later<S>(idle: seq<Idle<S>>, added: seq<Idle<S>>, n: nat) {
    exists at: seq<nat> :: InOrder(idle, added, at) && forall i :: 0 <= i < |at| ==> n < at[i]
  }
}
