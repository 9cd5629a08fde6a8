/** The header block of a message: edits by name, and the octets written for it. */
module HeaderBlock {
  import opened Bytes
  import opened H = Headers

  const COLON: byte := 58

  // A header as it was spelled, with its value.
  type Field = (Octets, Octets)

  function Lower(name: Octets): (n: Octets)
    ensures |n| == |name|
  {
    seq(|name|, i requires 0 <= i < |name| => if 65 <= name[i] <= 90 then name[i] + 32 else name[i])
  }

  // ---- octets ----

  function Line(f: Field): Octets {
    f.0 + [COLON, SP] + f.1 + CRLF
  }

  function Block(fs: seq<Field>): Octets {
    if fs == [] then CRLF else Line(fs[0]) + Block(fs[1..])
  }

  // CRLF and white space at i: the value goes on.
  predicate Folds(s: Octets, i: nat) {
    i + 2 < |s| && s[i] == CR && s[i + 1] == LF && (s[i + 2] == SP || s[i + 2] == TAB)
  }

  // What the parser of the upstream's headers lets in: values may be folded.
  ghost predicate Legal(f: Field) {
    && f.0 != [] && CR !in f.0 && COLON !in f.0 && f.0[0] != SP && f.0[0] != TAB
    && forall i :: 0 <= i < |f.1| && f.1[i] == CR ==> Folds(f.1, i)
  }

  method PutLine(buffer: Octets, name: Octets, value: Octets, ghost rest: Octets) returns (r: Octets)
    ensures r + rest == buffer + (Line((name, value)) + rest)
  {
    r := buffer + name + [COLON, SP] + value + CRLF;
  }

  lemma BlockFrom(fs: seq<Field>, i: nat)
    requires i <= |fs|
    ensures fs[0..] == fs
    ensures Block(fs[i..]) == if i < |fs| then Line(fs[i]) + Block(fs[i + 1..]) else CRLF
  {
    assert i < |fs| ==> fs[i..][1..] == fs[i + 1..];
  }

  function First(s: Octets, b: byte): (i: nat)
    ensures i <= |s| && (i < |s| ==> s[i] == b)
    ensures b !in s[..i]
  {
    if s == [] then 0 else if s[0] == b then 0 else
      var i := 1 + First(s[1..], b);
      assert s[..i] == [s[0]] + s[1..][..i - 1];
      i
  }

  // Where a value ends: at the first CR that does not fold it.
  function ValueEnd(s: Octets): (i: nat)
    ensures i <= |s|
  {
    if s == [] || (s[0] == CR && !Folds(s, 0)) then 0 else 1 + ValueEnd(s[1..])
  }

  function ReadLine(s: Octets): (r: Option<(Field, Octets)>)
    ensures r.Some? ==> |r.value.1| < |s|
  {
    var i := First(s, COLON);
    if i + 2 > |s| || s[i + 1] != SP then None
    else
      var v := s[i + 2..];
      var j := ValueEnd(v);
      if j + 2 > |v| || v[j + 1] != LF then None else Some(((s[..i], v[..j]), v[j + 2..]))
  }

  /** A reader of header blocks: the fields up to the empty line, and what follows. */
  function ReadBlock(s: Octets): Option<(seq<Field>, Octets)>
    decreases |s|
  {
    if CRLF <= s then Some(([], s[2..]))
    else
      match ReadLine(s)
      case None => None
      case Some((f, after)) =>
        match ReadBlock(after)
        case None => None
        case Some((fs, rest)) => Some(([f] + fs, rest))
  }

  lemma {:induction false} FirstIs(a: Octets, b: byte, rest: Octets)
    requires b !in a
    ensures First(a + [b] + rest, b) == |a|
  {
    var s := a + [b] + rest;
    if a != [] {
      assert s[0] == a[0];
      assert s[1..] == a[1..] + [b] + rest;
      FirstIs(a[1..], b, rest);
    }
  }

  lemma LineParts(f: Field, after: Octets)
    ensures var s := Line(f) + after; var n := |f.0|;
      && |s| >= n + 2 && s == f.0 + [COLON] + s[n + 1..] && s[n + 1] == SP && s[..n] == f.0
      && s[n + 2..] == f.1 + [CR] + ([LF] + after)
  {
    var s := Line(f) + after;
    assert s == f.0 + [COLON] + ([SP] + f.1 + CRLF + after);
    assert s[|f.0| + 1..] == [SP] + f.1 + CRLF + after;
  }

  lemma ValueParts(v: Octets, after: Octets)
    ensures var t := v + [CR] + ([LF] + after);
      |t| >= |v| + 2 && t[|v| + 1] == LF && t[..|v|] == v && t[|v| + 2..] == after
  {
  }

  lemma FoldsOn(v: Octets, i: nat)
    requires 0 < i
    ensures v != [] ==> (Folds(v, i) <==> Folds(v[1..], i - 1))
  {
  }

  lemma {:induction false} ValueEndIs(v: Octets, after: Octets)
    requires forall i :: 0 <= i < |v| && v[i] == CR ==> Folds(v, i)
    requires after != [] ==> after[0] != SP && after[0] != TAB
    ensures ValueEnd(v + [CR] + ([LF] + after)) == |v|
  {
    var s := v + [CR] + ([LF] + after);
    if v == [] {
      assert s == [CR, LF] + after;
    } else {
      assert s[1..] == v[1..] + [CR] + ([LF] + after);
      forall i | 0 <= i < |v[1..]| && v[1..][i] == CR ensures Folds(v[1..], i) {
        assert v[i + 1] == CR;
        FoldsOn(v, i + 1);
      }
      assert v[0] == CR ==> Folds(v, 0) && s[..|v|] == v;
      ValueEndIs(v[1..], after);
    }
  }

  lemma LineRoundTrip(f: Field, after: Octets)
    requires Legal(f) && (after != [] ==> after[0] != SP && after[0] != TAB)
    ensures var s := Line(f) + after; !(CRLF <= s) && ReadLine(s) == Some((f, after))
  {
    var s := Line(f) + after;
    LineParts(f, after);
    ValueParts(f.1, after);
    hide Line;
    FirstIs(f.0, COLON, s[|f.0| + 1..]);
    ValueEndIs(f.1, after);
    assert s[0] == s[..|f.0|][0] && f.0[0] in f.0;
  }

  // No block begins like a folded line.
  lemma BlockBegins(fs: seq<Field>, rest: Octets)
    requires forall f :: f in fs ==> Legal(f)
    ensures var s := Block(fs) + rest; s != [] && s[0] != SP && s[0] != TAB
  {
    if fs != [] {
      assert Legal(fs[0]) && (Block(fs) + rest)[0] == fs[0].0[0];
    }
  }

  /** The fields written are the fields read, in order, and nothing after the empty
      line is touched. */
  lemma {:induction false} BlockRoundTrip(fs: seq<Field>, rest: Octets)
    requires forall f :: f in fs ==> Legal(f)
    ensures ReadBlock(Block(fs) + rest) == Some((fs, rest))
  {
    if fs == [] {
      assert (CRLF + rest)[2..] == rest;
    } else {
      var after := Block(fs[1..]) + rest;
      BlockBegins(fs[1..], rest);
      LineRoundTrip(fs[0], after);
      assert Block(fs) + rest == Line(fs[0]) + after;
      BlockRoundTrip(fs[1..], rest);
      assert [fs[0]] + fs[1..] == fs;
    }
  }

  // ---- edits ----

  datatype Edit = Append(spelled: Octets, value: Octets) | Insert(spelled: Octets, value: Octets) | Remove(name: Octets)

  function Apply(m: HeaderMap<Field>, e: Edit): HeaderMap<Field> {
    match e
    case Append(c, v) => H.Append(m, Lower(c), (c, v))
    case Insert(c, v) => H.Insert(m, Lower(c), (c, v))
    case Remove(n) => H.Remove(m, Lower(n))
  }

  function Edited(edits: seq<Edit>): HeaderMap<Field> {
    if edits == [] then [] else Apply(Edited(edits[..|edits| - 1]), edits[|edits| - 1])
  }

  /** What the edits leave under a name, whatever its case: an insertion replaces, a
      removal clears, an addition goes last. */
  function Left(edits: seq<Edit>, n: Octets): seq<Field> {
    if edits == [] then []
    else
      var before := Left(edits[..|edits| - 1], n);
      match edits[|edits| - 1]
      case Append(c, v) => if Lower(c) == n then before + [(c, v)] else before
      case Insert(c, v) => if Lower(c) == n then [(c, v)] else before
      case Remove(k) => if Lower(k) == n then [] else before
  }

  lemma {:induction false} EditedIsLeft(edits: seq<Edit>, n: Octets)
    ensures Unique(Edited(edits)) && GetAll(Edited(edits), n) == Left(edits, n)
  {
    if edits != [] {
      var (front, e) := (edits[..|edits| - 1], edits[|edits| - 1]);
      EditedIsLeft(front, n);
      match e
      case Append(c, v) => AppendGets(Edited(front), Lower(c), (c, v), n);
      case Insert(c, v) => InsertGets(Edited(front), Lower(c), (c, v), n);
      case Remove(k) => RemoveGets(Edited(front), Lower(k), n);
    }
  }

  // Each entry is filed under its own name.
  ghost predicate Filed(it: seq<(Octets, Field)>) {
    forall e :: e in it ==> e.0 == Lower(e.1.0)
  }

  function Named(fs: seq<Field>, n: Octets): seq<Field> {
    if fs == [] then [] else Named(fs[..|fs| - 1], n) + if Lower(fs[|fs| - 1].0) == n then [fs[|fs| - 1]] else []
  }

  function Strip(it: seq<(Octets, Field)>): seq<Field> {
    seq(|it|, i requires 0 <= i < |it| => it[i].1)
  }

  lemma {:induction false} NamedIsOf(it: seq<(Octets, Field)>, n: Octets)
    requires Filed(it)
    ensures Named(Strip(it), n) == Of(it, n)
  {
    if it != [] {
      assert Strip(it)[..|it| - 1] == Strip(it[..|it| - 1]);
      assert it[|it| - 1] in it;
      NamedIsOf(it[..|it| - 1], n);
    }
  }

  ghost predicate FiledMap(m: HeaderMap<Field>) {
    forall i, k :: 0 <= i < |m| && 0 <= k < |m[i].1| ==> m[i].0 == Lower(m[i].1[k].0)
  }

  lemma {:induction false} EditedFiled(edits: seq<Edit>)
    ensures FiledMap(Edited(edits))
  {
    if edits != [] {
      EditedFiled(edits[..|edits| - 1]);
    }
  }

  lemma {:induction false} IterFiled(m: HeaderMap<Field>)
    requires FiledMap(m)
    ensures Filed(Iter(m))
  {
    if m != [] {
      IterFiled(m[..|m| - 1]);
    }
  }

  ghost predicate LegalEdits(edits: seq<Edit>) {
    forall e :: e in edits && !e.Remove? ==> Legal((e.spelled, e.value))
  }

  ghost predicate LegalMap(m: HeaderMap<Field>) {
    forall i, k :: 0 <= i < |m| && 0 <= k < |m[i].1| ==> Legal(m[i].1[k])
  }

  lemma {:induction false} EditedLegal(edits: seq<Edit>)
    requires LegalEdits(edits)
    ensures LegalMap(Edited(edits))
  {
    if edits != [] {
      assert edits[|edits| - 1] in edits;
      EditedLegal(edits[..|edits| - 1]);
      hide Legal;
    }
  }

  lemma {:induction false} IterLegal(m: HeaderMap<Field>)
    requires LegalMap(m)
    ensures forall f :: f in Strip(Iter(m)) ==> Legal(f)
  {
    if m != [] {
      IterLegal(m[..|m| - 1]);
      var (front, last) := (Iter(m[..|m| - 1]), Tagged(m[|m| - 1].0, m[|m| - 1].1));
      assert Strip(front + last) == Strip(front) + m[|m| - 1].1;
    }
  }

  /** After any edits, a reader of the octets written finds the fields of the map, and
      under each name exactly what the edits left there, each once, as spelled. */
  lemma WrittenIsLeft(edits: seq<Edit>, rest: Octets, n: Octets)
    requires LegalEdits(edits)
    ensures var fs := Strip(Iter(Edited(edits)));
      && ReadBlock(Block(fs) + rest) == Some((fs, rest))
      && Named(fs, n) == Left(edits, n)
  {
    var m := Edited(edits);
    EditedLegal(edits);
    IterLegal(m);
    BlockRoundTrip(Strip(Iter(m)), rest);
    EditedFiled(edits);
    IterFiled(m);
    NamedIsOf(Iter(m), n);
    EditedIsLeft(edits, n);
    IterGets(m, n);
  }

  // ---- the maps of a message ----

  /** The headers of a request or a response. */
  class MessageHeader {
    var headerCase: HeaderMap<Octets>   // names as spelled
    var headers: HeaderMap<Octets>      // values

    ghost predicate Valid()
      reads this
    {
      Aligned(headerCase, headers)
    }

    ghost function View(): HeaderMap<Field>
      requires Valid()
      reads this
    {
      Pair(headerCase, headers)
    }

    constructor ()
      ensures Valid() && View() == Edited([])
    {
      headerCase, headers := [], [];
    }

    method AppendHeader(spelled: Octets, value: Octets)
      requires Valid()
      modifies this
      ensures Valid() && View() == Apply(old(View()), Append(spelled, value))
    {
      AppendPairs(headerCase, headers, Lower(spelled), spelled, value);
      headerCase := H.Append(headerCase, Lower(spelled), spelled);
      headers := H.Append(headers, Lower(spelled), value);
    }

    method InsertHeader(spelled: Octets, value: Octets)
      requires Valid()
      modifies this
      ensures Valid() && View() == Apply(old(View()), Insert(spelled, value))
    {
      InsertPairs(headerCase, headers, Lower(spelled), spelled, value);
      headerCase := H.Insert(headerCase, Lower(spelled), spelled);
      headers := H.Insert(headers, Lower(spelled), value);
    }

    method RemoveHeader(name: Octets)
      requires Valid()
      modifies this
      ensures Valid() && View() == Apply(old(View()), Remove(name))
    {
      RemovePairs(headerCase, headers, Lower(name));
      headerCase := H.Remove(headerCase, Lower(name));
      headers := H.Remove(headers, Lower(name));
    }

    /** The start line and then every header. None is the panic over two iterators
        that disagree on a name, which is never reached. */
    method BuildToBuffer(startLine: Octets) returns (r: Option<Octets>)
      requires Valid()
      ensures r == Some(startLine + Block(Strip(Iter(View()))))
    {
      IterPairs(headerCase, headers);
      r := PutLines(startLine, Iter(headerCase), Iter(headers), Strip(Iter(View())));
    }
  }

  // The two iterators side by side.
  method PutLines(start: Octets, names: seq<Field>, values: seq<Field>,
                  ghost fs: seq<Field>) returns (r: Option<Octets>)
    requires |names| == |values| == |fs|
    requires forall k :: 0 <= k < |fs| ==> names[k].0 == values[k].0 && fs[k] == (names[k].1, values[k].1)
    ensures r == Some(start + Block(fs))
  {
    hide Line, Block;
    var buffer := start;
    var i := 0;
    BlockFrom(fs, i);
    while i < |names| && i < |values|
      invariant 0 <= i <= |fs|
      invariant buffer + Block(fs[i..]) == start + Block(fs)
    {
      if names[i].0 != values[i].0 {
        return None;
      }
      BlockFrom(fs, i);
      buffer := PutLine(buffer, names[i].1, values[i].1, Block(fs[i + 1..]));
      i := i + 1;
    }
    BlockFrom(fs, i);
    return Some(buffer + CRLF);
  }
}
