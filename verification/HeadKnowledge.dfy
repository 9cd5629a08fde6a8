/** What the scanner of chunk heads knows after a head that is not complete yet, and
    that nothing else about the head matters to the octets that follow. */
module HeadKnowledge {
  import opened Bytes
  import opened ChunkHead
  import opened Framing

  // After CR, or before it: the size so far, whether an extension has begun, and
  // whether a further digit would be taken.
  datatype Known = Ending(size: nat) | Reading(size: nat, ext: bool, digits: bool)

  function TakesDigits(s: Scan): bool {
    s.inSize && s.digits < MAX_DIGITS
  }

  function Knows(b: seq<byte>): Option<Known> {
    KnowsFrom(b, 0, FRESH)
  }

  // None: the head is complete or malformed.
  function KnowsFrom(b: seq<byte>, i: nat, s: Scan): Option<Known>
    requires i <= |b|
    decreases |b| - i
  {
    if i == |b| then Some(Reading(s.size, s.inExt, TakesDigits(s)))
    else if b[i] == CR then if i + 1 == |b| then Some(Ending(s.size)) else None
    else
      match Accept(s, b[i])
      case None => None
      case Some(next) => KnowsFrom(b, i + 1, next)
  }

  // Where the scanner stands at the end of b, or at its final CR.
  function Stands(b: seq<byte>, i: nat, s: Scan): Scan
    requires i <= |b|
    decreases |b| - i
  {
    if i == |b| || b[i] == CR || Accept(s, b[i]).None? then s else Stands(b, i + 1, Accept(s, b[i]).value)
  }

  ghost predicate Reachable(s: Scan, i: nat) {
    (s.inExt ==> !s.inSize) && (s.inSize ==> s.digits == i)
  }

  lemma {:induction false} KnowsWhere(b: seq<byte>, i: nat, s: Scan)
    requires i <= |b| && Reachable(s, i)
    ensures KnowsFrom(b, i, s).Some? <==> ScanHead(b, i, s).Partial?
    ensures var (k, e) := (KnowsFrom(b, i, s), Stands(b, i, s));
      k.Some? ==> if k.value.Ending? then b != [] && b[|b| - 1] == CR && k.value.size == e.size && |b| > i
                  else Reachable(e, |b|) && k.value == Reading(e.size, e.inExt, TakesDigits(e))
    decreases |b| - i
  {
    if i < |b| && b[i] != CR && Accept(s, b[i]).Some? {
      KnowsWhere(b, i + 1, Accept(s, b[i]).value);
    }
  }

  // Scanning goes on from where it stands.
  lemma {:induction false} ScanOn(b: seq<byte>, u: seq<byte>, i: nat, s: Scan)
    requires i <= |b| && KnowsFrom(b, i, s).Some?
    ensures var (k, e) := (KnowsFrom(b, i, s).value, Stands(b, i, s));
      ScanHead(b + u, i, s) ==
        if k.Ending? then
          if u == [] then Partial else if u[0] == LF then Complete(|b| + 1, e.size) else Invalid
        else ScanHead(b + u, |b|, e)
    decreases |b| - i
  {
    if i < |b| {
      assert (b + u)[i] == b[i];
      if b[i] == CR {
        assert u != [] ==> (b + u)[i + 1] == u[0];
      } else {
        ScanOn(b, u, i + 1, Accept(s, b[i]).value);
      }
    }
  }

  ghost predicate Alike(s: Scan, t: Scan, i: nat) {
    && Reachable(s, i) && Reachable(t, i)
    && s.size == t.size && s.inExt == t.inExt && TakesDigits(s) == TakesDigits(t)
  }

  lemma AcceptAlike(s: Scan, t: Scan, b: byte, i: nat)
    requires Alike(s, t, i)
    ensures Accept(s, b).Some? <==> Accept(t, b).Some?
    ensures Accept(s, b).Some? ==> Alike(Accept(s, b).value, Accept(t, b).value, i + 1)
  {
  }

  lemma {:induction false} ScanAlike(b: seq<byte>, c: seq<byte>, u: seq<byte>, i: nat, s: Scan, t: Scan)
    requires |b| == |c| <= i <= |b| + |u| && Alike(s, t, i)
    ensures ScanHead(b + u, i, s) == ScanHead(c + u, i, t)
    decreases |b| + |u| - i
  {
    if i < |b| + |u| {
      assert (b + u)[i] == (c + u)[i] == u[i - |b|];
      if i + 1 < |b| + |u| {
        assert (b + u)[i + 1] == (c + u)[i + 1] == u[i + 1 - |b|];
      }
      AcceptAlike(s, t, u[i - |b|], i);
      if u[i - |b|] != CR && Accept(s, u[i - |b|]).Some? {
        ScanAlike(b, c, u, i + 1, Accept(s, u[i - |b|]).value, Accept(t, u[i - |b|]).value);
      }
    }
  }

  /** Two unfinished heads of one length about which the same is known are told
      apart by nothing that follows. */
  lemma KnownHeadsParse(b: seq<byte>, c: seq<byte>, u: seq<byte>)
    requires |b| == |c| && Knows(b).Some? && Knows(b) == Knows(c)
    ensures ParseHead(b + u) == ParseHead(c + u)
  {
    KnowsWhere(b, 0, FRESH);
    KnowsWhere(c, 0, FRESH);
    ScanOn(b, u, 0, FRESH);
    ScanOn(c, u, 0, FRESH);
    if Knows(b).value.Reading? {
      ScanAlike(b, c, u, |b|, Stands(b, 0, FRESH), Stands(c, 0, FRESH));
    }
  }

  // A head unfinished at the end of b ends in u.
  lemma EndsLater(b: seq<byte>, u: seq<byte>)
    requires Knows(b).Some?
    ensures ParseHead(b).Partial?
    ensures ParseHead(b + u).Complete? ==> ParseHead(b + u).payloadIndex > |b|
  {
    KnowsWhere(b, 0, FRESH);
    if ParseHead(b + u).Complete? {
      HeadCut(b + u, |b|);
      assert (b + u)[..|b|] == b;
    }
  }

  lemma KnownHeadsDecode(b: seq<byte>, c: seq<byte>, u: seq<byte>, limit: nat)
    requires |b| == |c| && Knows(b).Some? && Knows(b) == Knows(c)
    ensures Decode(0, b + u) == Decode(0, c + u)
    ensures HeadsFit(0, b + u, limit) <==> HeadsFit(0, c + u, limit)
  {
    KnownHeadsParse(b, c, u);
    EndsLater(b, u);
    if ParseHead(b + u).Complete? {
      var i := ParseHead(b + u).payloadIndex;
      assert (b + u)[i..] == u[i - |b|..] == (c + u)[i..];
    }
  }

  // ---- telling heads apart ----

  function Zeros(n: nat): (s: seq<byte>)
    ensures |s| == n
  {
    seq(n, i requires 0 <= i < n => 0 as byte)
  }

  // What follows a head that ends with u and announces n octets.
  lemma DecodeEnded(b: seq<byte>, u: seq<byte>, f: seq<byte>, n: nat)
    requires ParseHead(b + u + f) == Complete(|b + u|, n)
    ensures Decode(0, b + u + f) == if n == 0 then Decoded([], Finished) else Decode(n + 2, f)
  {
    assert (b + u + f)[|b + u|..] == f;
  }

  lemma SizesDiffer(m: nat, n: nat)
    requires m < n
    ensures var f := Zeros(m + 1);
      (if m == 0 then Decoded([], Finished) else Decode(m + 2, f)) != Decode(n + 2, f)
  {
    var f := Zeros(m + 1);
    assert |Decode(n + 2, f).payload| == m + 1;
    assert m > 0 ==> |Decode(m + 2, f).payload| == m;
  }

  lemma EndsWith(b: seq<byte>, f: seq<byte>)
    requires Knows(b).Some?
    ensures Knows(b).value.Ending? ==>
      ParseHead(b + [LF] + f) == Complete(|b| + 1, Knows(b).value.size)
    ensures Knows(b).value.Reading? ==>
      ParseHead(b + CRLF + f) == Complete(|b| + 2, Knows(b).value.size)
  {
    KnowsWhere(b, 0, FRESH);
    if Knows(b).value.Ending? {
      assert b + [LF] + f == b + ([LF] + f);
      ScanOn(b, [LF] + f, 0, FRESH);
    } else {
      var s := b + (CRLF + f);
      assert b + CRLF + f == s;
      ScanOn(b, CRLF + f, 0, FRESH);
      assert s[|b|] == CR && s[|b| + 1] == LF;
    }
  }

  ghost predicate Apart(b: seq<byte>, c: seq<byte>, u: seq<byte>) {
    Decode(0, b + u) != Decode(0, c + u)
  }

  // Same kind of end, different sizes.
  lemma ApartBySize(b: seq<byte>, c: seq<byte>, u: seq<byte>, m: nat, n: nat)
    requires m < n && |b| == |c|
    requires ParseHead(b + u + Zeros(m + 1)) == Complete(|b + u|, m)
    requires ParseHead(c + u + Zeros(m + 1)) == Complete(|c + u|, n)
    ensures Apart(b, c, u + Zeros(m + 1)) && Apart(c, b, u + Zeros(m + 1))
  {
    var f := Zeros(m + 1);
    DecodeEnded(b, u, f, m);
    DecodeEnded(c, u, f, n);
    SizesDiffer(m, n);
    assert b + u + f == b + (u + f) && c + u + f == c + (u + f);
  }

  // One of them waits for LF, the other does not.
  lemma ApartByEnd(b: seq<byte>, c: seq<byte>)
    requires |b| == |c| && Knows(b).Some? && Knows(c).Some?
    requires Knows(b).value.Ending? && Knows(c).value.Reading?
    ensures Apart(b, c, [LF, LF])
  {
    var (u, n) := ([LF, LF], Knows(b).value.size);
    assert b + [LF] + [LF] == b + u;
    EndsWith(b, [LF]);
    DecodeEnded(b, [LF], [LF], n);
    assert n > 0 ==> |Decode(n + 2, [LF]).payload| == 1;
    KnowsWhere(c, 0, FRESH);
    ScanOn(c, u, 0, FRESH);
    var (s, e) := (c + u, Stands(c, 0, FRESH));
    assert s[|c|] == LF && s[|c| + 1] == LF;
    assert !ScanHead(s, |c|, e).Complete?;
  }

  lemma ApartByOctet(b: seq<byte>, c: seq<byte>, x: byte)
    requires |b| == |c| && Knows(b).Some? && Knows(c).Some? && x != CR
    requires Knows(b).value.Reading? && Knows(c).value.Reading?
    requires Accept(Stands(b, 0, FRESH), x).Some? && Accept(Stands(c, 0, FRESH), x).None?
    ensures Apart(b, c, [x]) && Apart(c, b, [x])
  {
    KnowsWhere(b, 0, FRESH);
    KnowsWhere(c, 0, FRESH);
    ScanOn(b, [x], 0, FRESH);
    ScanOn(c, [x], 0, FRESH);
    assert (b + [x])[|b|] == x && (c + [x])[|c|] == x;
  }

  // c is no longer an unfinished head.
  lemma ApartFromEnded(b: seq<byte>, c: seq<byte>)
    requires |b| == |c| && Knows(b).Some? && Knows(c).None?
    ensures Apart(b, c, []) || Apart(b, c, [0])
  {
    KnowsWhere(b, 0, FRESH);
    KnowsWhere(c, 0, FRESH);
    assert b + [] == b && c + [] == c;
    if ParseHead(c).Complete? && ParseHead(c).size > 0 {
      var (i, n) := (ParseHead(c).payloadIndex, ParseHead(c).size);
      HeadStable(c, [0]);
      EndsLater(b, [0]);
      assert Decode(0, b + [0]).payload == [] by {
        if ParseHead(b + [0]).Complete? {
          assert (b + [0])[ParseHead(b + [0]).payloadIndex..] == [];
        }
      }
      assert |Decode(n + 2, (c + [0])[i..]).payload| > 0;
    }
  }

  /** The heads are told apart by some continuation exactly when something different
      is known about them. */
  lemma KnowledgeExactly(b: seq<byte>, c: seq<byte>)
    requires |b| == |c| && ParseHead(b).Partial?
    ensures (forall u :: Decode(0, b + u) == Decode(0, c + u)) <==> Knows(b) == Knows(c)
  {
    KnowsWhere(b, 0, FRESH);
    if Knows(b) == Knows(c) {
      forall u ensures Decode(0, b + u) == Decode(0, c + u) {
        KnownHeadsDecode(b, c, u, 0);
      }
    } else {
      var u := TellsApart(b, c);
      assert !(Decode(0, b + u) == Decode(0, c + u));
    }
  }

  lemma TellsApart(b: seq<byte>, c: seq<byte>) returns (u: seq<byte>)
    requires |b| == |c| && Knows(b).Some? && Knows(b) != Knows(c)
    ensures Apart(b, c, u)
  {
    if Knows(c).None? {
      ApartFromEnded(b, c);
      return if Apart(b, c, []) then [] else [0];
    }
    var (k, l) := (Knows(b).value, Knows(c).value);
    if k.Ending? && l.Reading? {
      ApartByEnd(b, c);
      return [LF, LF];
    } else if k.Reading? && l.Ending? {
      ApartByEnd(c, b);
      return [LF, LF];
    } else if k.size != l.size {
      u := TellsSizes(b, c);
    } else {
      KnowsWhere(b, 0, FRESH);
      KnowsWhere(c, 0, FRESH);
      var x: byte := if k.ext != l.ext then 122 else 48;
      if Accept(Stands(b, 0, FRESH), x).Some? {
        ApartByOctet(b, c, x);
      } else {
        ApartByOctet(c, b, x);
      }
      return [x];
    }
  }

  lemma TellsSizes(b: seq<byte>, c: seq<byte>) returns (u: seq<byte>)
    requires |b| == |c| && Knows(b).Some? && Knows(c).Some?
    requires Knows(b).value.Ending? == Knows(c).value.Ending? && Knows(b).value.size != Knows(c).value.size
    ensures Apart(b, c, u)
  {
    var (m, n) := (Knows(b).value.size, Knows(c).value.size);
    var end := if Knows(b).value.Ending? then [LF] else CRLF;
    var f := Zeros(Min(m, n) + 1);
    EndsWith(b, f);
    EndsWith(c, f);
    if m < n {
      ApartBySize(b, c, end, m, n);
    } else {
      ApartBySize(c, b, end, n, m);
    }
    return end + f;
  }
}
