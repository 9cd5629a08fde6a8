/** One node shared by threads, step by step. The ring takes pushes and pops at any
    time; the map is behind a lock, which a removal by rotation holds throughout. */
module NodeSteps {
  import opened Bytes
  import N = PoolNode

  // Rotating: who holds the lock looks for id, with `left` turns to go and perhaps an
  // entry in hand. Dead: it waits for the lock it holds.
  datatype Lock = Free | Rotating(id: int, left: nat, hand: Option<int>) | Dead(stuck: int)

  // Connections by their ids.
  datatype Node = Node(ring: seq<int>, others: set<int>, lock: Lock)

  datatype Event =
    | Push(id: int)        // an addition finds room in the ring
    | Overflow(id: int)    // an addition that found none gets the lock
    | Pop                  // a find takes the front of the ring
    | PopOther(id: int)    // a find that found the ring empty gets the lock
    | Remove(id: int)      // a removal gets the lock
    | Turn                 // the rotation pops
    | PutBack              // and puts back, by way of an addition of its own

  predicate Can(s: Node, e: Event) {
    match e
    case Push(_) => |s.ring| < N.HOT_QUEUE_SIZE
    case Overflow(_) => s.lock.Free?
    case Pop => s.ring != []
    case PopOther(id) => s.lock.Free? && id in s.others
    case Remove(_) => s.lock.Free?
    case Turn => s.lock.Rotating? && s.lock.hand.None?
    case PutBack => s.lock.Rotating? && s.lock.hand.Some? && s.lock.left > 0
  }

  function After(s: Node, e: Event): Node
    requires Can(s, e)
  {
    match e
    case Push(id) => s.(ring := s.ring + [id])
    case Overflow(id) => s.(others := s.others + {id})
    case Pop => s.(ring := s.ring[1..])
    case PopOther(id) => s.(others := s.others - {id})
    case Remove(id) =>
      if id in s.others then s.(others := s.others - {id}) else s.(lock := Rotating(id, |s.ring|, None))
    case Turn =>
      if s.lock.left == 0 || s.ring == [] then s.(lock := Free)
      else if s.ring[0] == s.lock.id then Node(s.ring[1..], s.others, Free)
      else Node(s.ring[1..], s.others, s.lock.(hand := Some(s.ring[0])))
    case PutBack =>
      if |s.ring| < N.HOT_QUEUE_SIZE
      then Node(s.ring + [s.lock.hand.value], s.others, Rotating(s.lock.id, s.lock.left - 1, None))
      else s.(lock := Dead(s.lock.hand.value))
  }

  ghost predicate Runs(s: Node, es: seq<Event>)
    decreases |es|
  {
    es == [] || (Can(s, es[0]) && Runs(After(s, es[0]), es[1..]))
  }

  ghost function End(s: Node, es: seq<Event>): Node
    requires Runs(s, es)
    decreases |es|
  {
    if es == [] then s else End(After(s, es[0]), es[1..])
  }

  // ---- when a rotation blocks itself ----

  function InHand(s: Node): nat {
    if s.lock.Rotating? && s.lock.hand.Some? then 1 else 0
  }

  // The ring has a place for the entry in hand.
  predicate Room(s: Node) {
    !s.lock.Dead? && |s.ring| + InHand(s) <= N.HOT_QUEUE_SIZE
  }

  predicate Sane(s: Node) {
    s.lock.Rotating? && s.lock.hand.Some? ==> s.lock.left > 0
  }

  // A push into the place of the entry in hand.
  predicate Crowds(s: Node, e: Event) {
    Can(s, e) && e.Push? && |s.ring| + InHand(s) == N.HOT_QUEUE_SIZE
  }

  lemma RoomKeeps(s: Node, e: Event)
    requires Room(s) && Sane(s) && Can(s, e)
    ensures Sane(After(s, e)) && (Room(After(s, e)) <==> !Crowds(s, e))
  {
  }

  ghost predicate Crowded(s: Node, es: seq<Event>)
    decreases |es|
  {
    es != [] && Can(s, es[0]) && (Crowds(s, es[0]) || Crowded(After(s, es[0]), es[1..]))
  }

  lemma {:induction false} UncrowdedLives(s: Node, es: seq<Event>)
    requires Room(s) && Sane(s) && Runs(s, es) && !Crowded(s, es)
    ensures Room(End(s, es))
    decreases |es|
  {
    if es != [] {
      RoomKeeps(s, es[0]);
      UncrowdedLives(After(s, es[0]), es[1..]);
    }
  }

  ghost predicate CanDie(s: Node) {
    exists es :: Runs(s, es) && End(s, es).lock.Dead?
  }

  /** A step of any thread leaves the node such that the rotation's very next step
      blocks it for good exactly when the step is a push into the place of the entry in
      hand; and no run without such a push blocks. */
  lemma BlocksExactly(s: Node, e: Event)
    requires Room(s) && Sane(s) && Can(s, e)
    ensures var s' := After(s, e);
      (Can(s', PutBack) && After(s', PutBack).lock.Dead?) <==> Crowds(s, e)
    ensures Crowds(s, e) ==> CanDie(After(s, e))
    ensures forall es :: Runs(s, es) && End(s, es).lock.Dead? ==> Crowded(s, es)
  {
    var s' := After(s, e);
    if Crowds(s, e) {
      assert Runs(s', [PutBack]) && End(s', [PutBack]) == After(s', PutBack);
    }
    forall es | Runs(s, es) && End(s, es).lock.Dead? ensures Crowded(s, es) {
      if !Crowded(s, es) {
        UncrowdedLives(s, es);
      }
    }
  }

  /** From then on nobody gets the lock: no removal, no overflowing addition and no find
      beyond the ring ever happens again. */
  lemma {:induction false} DeadForGood(s: Node, es: seq<Event>, k: nat)
    requires s.lock.Dead? && Runs(s, es) && k < |es|
    ensures es[k].Push? || es[k].Pop?
    ensures End(s, es).others == s.others && End(s, es).lock == s.lock
    decreases |es|
  {
    var s' := After(s, es[0]);
    if |es| > 1 {
      DeadForGood(s', es[1..], if k > 0 then k - 1 else 0);
    }
  }

  // ---- what a rotation does while others push and pop ----

  ghost function Held(s: Node): multiset<int> {
    multiset(s.ring) + match s.lock
      case Rotating(_, _, Some(h)) => multiset{h}
      case Dead(h) => multiset{h}
      case _ => multiset{}
  }

  /** Turning neither loses nor adds an entry; only the one sought leaves. */
  lemma RotationConserves(s: Node, e: Event)
    requires Can(s, e) && (e.Turn? || e.PutBack?)
    ensures var s' := After(s, e);
      if e.Turn? && s'.lock.Free? && s.lock.left > 0 && s.ring != []
      then s.ring[0] == s.lock.id && Held(s) == Held(s') + multiset{s.lock.id}
      else Held(s') == Held(s)
  {
    if e.Turn? && s.ring != [] {
      assert s.ring == [s.ring[0]] + s.ring[1..];
    }
  }

  // The entry sought lies within the turns still to go.
  ghost predicate Ahead(s: Node, id: int) {
    && s.lock.Rotating? && s.lock.id == id && Sane(s)
    && exists i :: 0 <= i < s.lock.left - InHand(s) && i < |s.ring| && s.ring[i] == id
  }

  // The rotation finds the entry, or blocks.
  ghost predicate Finds(s: Node, es: seq<Event>, id: int)
    decreases |es|
  {
    es != [] && Can(s, es[0]) &&
    var s' := After(s, es[0]);
    || s'.lock.Dead?
    || (s'.lock.Free? && es[0].Turn? && s.ring != [] && s.ring[0] == id)
    || (s'.lock.Rotating? && Finds(s', es[1..], id))
  }

  // How often the rotation has turned.
  function Turns(es: seq<Event>): nat {
    if es == [] then 0 else (if es[0].Turn? then 1 else 0) + Turns(es[1..])
  }

  // Some find takes the entry first.
  ghost predicate Snatched(s: Node, es: seq<Event>, id: int)
    decreases |es|
  {
    es != [] && Can(s, es[0]) && ((es[0].Pop? && s.ring[0] == id) || Snatched(After(s, es[0]), es[1..], id))
  }

  lemma AheadKeeps(s: Node, e: Event, id: int)
    requires Ahead(s, id) && Can(s, e) && !(e.Pop? && s.ring[0] == id)
    ensures var s' := After(s, e);
      || s'.lock.Dead?
      || (s'.lock.Free? && e.Turn? && s.ring != [] && s.ring[0] == id)
      || (Ahead(s', id) && s'.lock.left - InHand(s') == s.lock.left - InHand(s) - if e.Turn? then 1 else 0)
  {
    var i :| 0 <= i < s.lock.left - InHand(s) && i < |s.ring| && s.ring[i] == id;
    var s' := After(s, e);
    if e.Pop? || (e.Turn? && s'.lock.Rotating?) {
      assert s'.ring[i - 1] == id;
    } else if s'.lock.Rotating? {
      assert s'.ring[i] == id;
    }
  }

  /** However other threads push and pop meanwhile, a rotation whose entry lies ahead
      finds it within the turns it has left, unless a find takes that very entry first
      or the rotation blocks. */
  lemma {:induction false} RotationFinds(s: Node, es: seq<Event>, id: int)
    requires Ahead(s, id) && Runs(s, es) && !Snatched(s, es, id)
    requires Turns(es) >= s.lock.left - InHand(s)
    ensures Finds(s, es, id)
    decreases |es|
  {
    AheadKeeps(s, es[0], id);
    var s' := After(s, es[0]);
    if s'.lock.Rotating? {
      RotationFinds(s', es[1..], id);
    }
  }

  /** So a removal that gets the lock while its entry is in the ring finds it within as
      many turns as the ring then had entries. */
  lemma RemovalFinds(s: Node, es: seq<Event>, id: int)
    requires s.lock.Free? && id !in s.others && id in s.ring
    requires var s' := After(s, Remove(id));
      Runs(s', es) && !Snatched(s', es, id) && Turns(es) >= |s.ring|
    ensures Finds(After(s, Remove(id)), es, id)
  {
    var i :| 0 <= i < |s.ring| && s.ring[i] == id;
    var s' := After(s, Remove(id));
    assert s'.ring[i] == id && i < s'.lock.left - InHand(s');
    RotationFinds(s', es, id);
  }

  // ---- a run that blocks ----

  function Fill(n: nat): seq<Event> {
    if n == 0 then [] else Fill(n - 1) + [Push(n)]
  }

  // The ring is filled; a removal pops, an addition takes the place, and the removal
  // cannot put back.
  function DeadlyRun(): seq<Event> {
    Fill(N.HOT_QUEUE_SIZE) + [Remove(0), Turn, Push(17), PutBack]
  }

  lemma {:induction false} RunsOn(s: Node, a: seq<Event>, b: seq<Event>)
    requires Runs(s, a) && Runs(End(s, a), b)
    ensures Runs(s, a + b) && End(s, a + b) == End(End(s, a), b)
    decreases |a|
  {
    if a == [] {
      assert a + b == b;
    } else {
      assert (a + b)[0] == a[0] && (a + b)[1..] == a[1..] + b;
      RunsOn(After(s, a[0]), a[1..], b);
    }
  }

  lemma {:induction false} Filled(n: nat)
    requires n <= N.HOT_QUEUE_SIZE
    ensures var start := Node([], {}, Free);
      && Runs(start, Fill(n)) && End(start, Fill(n)) == Node(seq(n, i requires 0 <= i < n => i + 1), {}, Free)
  {
    if n > 0 {
      Filled(n - 1);
      var start := Node([], {}, Free);
      var s := End(start, Fill(n - 1));
      RunsOn(start, Fill(n - 1), [Push(n)]);
    }
  }

  /** From an empty node, four steps after its ring is full it is dead. */
  lemma DeadlyRunBlocks()
    ensures Runs(Node([], {}, Free), DeadlyRun()) && End(Node([], {}, Free), DeadlyRun()).lock == Dead(1)
  {
    var n := N.HOT_QUEUE_SIZE;
    var (start, full) := (Node([], {}, Free), seq(n, i requires 0 <= i < n => i + 1));
    Filled(n);
    var s0 := Node(full, {}, Free);
    var s1 := Node(full, {}, Rotating(0, n, None));
    var s2 := Node(full[1..], {}, Rotating(0, n, Some(1)));
    var s3 := Node(full[1..] + [17], {}, Rotating(0, n, Some(1)));
    var s4 := Node(full[1..] + [17], {}, Dead(1));
    assert After(s0, Remove(0)) == s1 && After(s1, Turn) == s2 && After(s2, Push(17)) == s3 && After(s3, PutBack) == s4;
    var es := [Remove(0), Turn, Push(17), PutBack];
    assert es[1..] == [Turn, Push(17), PutBack];
    assert es[1..][1..] == [Push(17), PutBack] && es[1..][1..][1..] == [PutBack];
    FourSteps(s0, s1, s2, s3, s4, es);
    hide Runs, End, Fill;
    RunsOn(start, Fill(n), es);
  }

  lemma FourSteps(s0: Node, s1: Node, s2: Node, s3: Node, s4: Node, es: seq<Event>)
    requires |es| == 4 && Can(s0, es[0]) && After(s0, es[0]) == s1 && Can(s1, es[1]) && After(s1, es[1]) == s2
    requires Can(s2, es[2]) && After(s2, es[2]) == s3 && Can(s3, es[3]) && After(s3, es[3]) == s4
    ensures Runs(s0, es) && End(s0, es) == s4
  {
    assert es[3..][1..] == [] && es[2..][1..] == es[3..] && es[1..][1..] == es[2..];
    assert Runs(s3, es[3..]) && End(s3, es[3..]) == s4;
    assert Runs(s2, es[2..]) && End(s2, es[2..]) == s4;
    assert Runs(s1, es[1..]) && End(s1, es[1..]) == s4;
  }
}
