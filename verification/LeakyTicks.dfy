/** The leaky bucket against one that leaks a drop's worth every second, and exactly
    when its refusals lose nothing. */
module LeakyTicks {
  import opened Limiters

  // A bucket that leaks once a second.
  function Drip(rate: real, level: real, seconds: nat): real
    decreases seconds
  {
    if seconds == 0 then level else Drip(rate, Greatest(0.0, level - rate), seconds - 1)
  }

  // A refused request adds nothing and takes nothing away.
  function DripRun(cap: nat, rate: real, level: real, clock: int, trace: seq<Request>): (answers: seq<bool>)
    requires Ordered(clock, trace)
    ensures |answers| == |trace|
    decreases |trace|
  {
    if trace == [] then []
    else
      var left := Drip(rate, level, trace[0].now - clock);
      var yes := left < cap as real;
      [yes] + DripRun(cap, rate, if yes then left + 1.0 else left, trace[0].now, trace[1..])
  }

  lemma {:induction false} DripAtOnce(rate: real, level: real, n: nat)
    requires rate >= 0.0 && level >= 0.0
    ensures Drip(rate, level, n) == Greatest(0.0, level - Gain(rate, n))
    decreases n
  {
    if n > 0 {
      DripAtOnce(rate, Greatest(0.0, level - rate), n - 1);
      MoreTime(rate, 0, n - 1);
    }
  }

  // Whether some refusal of the trace finds more than the capacity, which it then
  // overwrites with the capacity.
  predicate Loses(cap: nat, rate: real, l: Leaky, trace: seq<Request>)
    decreases |trace|
  {
    trace != [] &&
    (|| Leaked(rate, l, trace[0].now) > cap as real
     || Loses(cap, rate, LeakyStep(cap, rate, l, trace[0].now).0, trace[1..]))
  }

  ghost predicate Reached(l: Leaky, clock: int) {
    l.Leaky? ==> 0.0 <= l.level && l.last <= clock
  }

  /** As long as no refusal loses anything, leaking lazily from the last request
      answers as a bucket that leaks every second. */
  lemma {:induction false} LazyLeakIsTicking(cap: nat, rate: real, l: Leaky, clock: int, trace: seq<Request>)
    requires rate >= 0.0 && Reached(l, clock) && Ordered(clock, trace) && !Loses(cap, rate, l, trace)
    ensures LeakyRun(cap, rate, l, trace) == DripRun(cap, rate, Leaked(rate, l, clock), clock, trace)
    decreases |trace|
  {
    if trace != [] {
      var now := trace[0].now;
      LeakedShrinks(rate, l, clock, now);
      DripAtOnce(rate, Leaked(rate, l, clock), now - clock);
      var (l', yes) := LeakyStep(cap, rate, l, now);
      assert Gain(rate, 0) == 0.0;
      LazyLeakIsTicking(cap, rate, l', now, trace[1..]);
    }
  }

  // The level an even rate keeps to.
  ghost predicate Full(cap: nat, l: Leaky) {
    l.Leaky? ==> 0.0 <= l.level <= cap as real && Whole(l.level)
  }

  lemma LeakedWhole(cap: nat, rate: real, l: Leaky, now: int)
    requires rate >= 0.0 && Even(cap, rate) && Full(cap, l) && (l.Leaky? ==> l.last <= now)
    ensures 0.0 <= Leaked(rate, l, now) <= cap as real && Whole(Leaked(rate, l, now))
  {
    WholeInt(0);
    if l.Leaky? {
      var n := now - l.last;
      MoreTime(rate, 0, n);
      if Whole(rate) {
        WholeGain(rate, n);
        WholeSum(l.level, Gain(rate, n));
      } else if n > 0 {
        MoreTime(rate, 1, n);
        assert Gain(rate, 1) == rate;
      }
    }
  }

  lemma EvenStep(cap: nat, rate: real, l: Leaky, now: int)
    requires rate >= 0.0 && Even(cap, rate) && Full(cap, l) && (l.Leaky? ==> l.last <= now)
    ensures Leaked(rate, l, now) <= cap as real
    ensures var l' := LeakyStep(cap, rate, l, now).0; Full(cap, l') && l'.Leaky? && l'.last == now
  {
    LeakedWhole(cap, rate, l, now);
    WholeInt(cap);
    if Leaked(rate, l, now) < cap as real {
      WholeNext(Leaked(rate, l, now), cap);
    }
    hide Leaked, Whole, Even;
  }

  lemma WholeNext(a: real, n: nat)
    requires Whole(a) && a < n as real
    ensures Whole(a + 1.0) && a + 1.0 <= n as real
  {
    var k := a.Floor;
    assert k + 1 <= n && (k + 1) as real == a + 1.0;
    WholeInt(k + 1);
  }

  lemma {:induction false} EvenLosesNothing(cap: nat, rate: real, l: Leaky, clock: int, trace: seq<Request>)
    requires rate >= 0.0 && Even(cap, rate) && Full(cap, l) && (l.Leaky? ==> l.last <= clock)
    requires Ordered(clock, trace)
    ensures !Loses(cap, rate, l, trace)
    decreases |trace|
  {
    if trace != [] {
      var now := trace[0].now;
      EvenStep(cap, rate, l, now);
      hide Leaked, LeakyStep, Full, Even;
      EvenLosesNothing(cap, rate, LeakyStep(cap, rate, l, now).0, now, trace[1..]);
    }
  }

  lemma {:induction false} LosesLater(cap: nat, rate: real, level: real, n: nat, now: int, rest: seq<Request>)
    requires 0.0 <= level && level + n as real < cap as real + 1.0
    requires Loses(cap, rate, Leaky(level + n as real, now), rest)
    ensures Loses(cap, rate, Leaky(level, now), Burst(n, now) + rest)
    decreases n
  {
    var trace := Burst(n, now) + rest;
    if n == 0 {
      assert trace == rest;
    } else {
      assert trace[0] == Request(now, false) && trace[1..] == Burst(n - 1, now) + rest;
      assert (level + 1.0) + (n - 1) as real == level + n as real;
      LosesLater(cap, rate, level + 1.0, n - 1, now, rest);
      assert Gain(rate, now - now) == 0.0;
      assert LeakyStep(cap, rate, Leaky(level, now), now).0 == Leaky(level + 1.0, now);
    }
  }

  // Fill the bucket, wait one second, let in what fits, and ask once more.
  function Overfill(cap: nat, whole: nat): seq<Request>
    requires cap >= 1
  {
    Burst(cap, 0) + (Burst(whole + 1, 1) + [Request(1, false)])
  }

  // A full bucket, one second on: the last request but one is let in over the
  // capacity, and the last one is refused.
  lemma FullThenLoses(cap: nat, rate: real, whole: nat)
    requires cap >= 1 && 0.0 <= rate < cap as real && !Whole(rate) && whole == rate.Floor
    ensures Loses(cap, rate, Leaky(cap as real, 0), Burst(whole + 1, 1) + [Request(1, false)])
  {
    var last := [Request(1, false)];
    var second := Burst(whole + 1, 1) + last;
    assert Gain(rate, 1) == rate && Gain(rate, 0) == 0.0;
    var l1 := Leaky(cap as real - rate + 1.0, 1);
    var l2 := Leaky(l1.level + whole as real, 1);
    assert Loses(cap, rate, l2, last);
    LosesLater(cap, rate, l1.level, whole, 1, last);
    assert second[0] == Request(1, false) && second[1..] == Burst(whole, 1) + last;
    assert LeakyStep(cap, rate, Leaky(cap as real, 0), 1) == (l1, true);
  }

  lemma OverfillLoses(cap: nat, rate: real)
    requires cap >= 1 && 0.0 <= rate < cap as real && !Whole(rate)
    ensures Loses(cap, rate, Dry, Overfill(cap, rate.Floor))
  {
    var second := Burst(rate.Floor + 1, 1) + [Request(1, false)];
    FullThenLoses(cap, rate, rate.Floor);
    LosesLater(cap, rate, 1.0, cap - 1, 0, second);
    assert (Burst(cap, 0) + second)[1..] == Burst(cap - 1, 0) + second;
  }

  lemma {:induction false} BurstOrdered(n: nat, now: int, rest: seq<Request>)
    requires Ordered(now, rest)
    ensures Ordered(now, Burst(n, now) + rest)
  {
    if n == 0 {
      assert Burst(n, now) + rest == rest;
    } else {
      BurstOrdered(n - 1, now, rest);
      assert (Burst(n, now) + rest)[1..] == Burst(n - 1, now) + rest;
    }
  }

  ghost predicate Lossless(cap: nat, rate: real, trace: seq<Request>) {
    Ordered(0, trace) ==> !Loses(cap, rate, Dry, trace)
  }

  /** Refusals, which write the capacity over the level, lose nothing on every trace
      exactly when the rate is a whole number or empties the bucket in a second. */
  lemma RefusalsExactly(cap: nat, rate: real)
    requires rate >= 0.0
    ensures (forall trace :: Lossless(cap, rate, trace)) <==> Even(cap, rate)
  {
    if Even(cap, rate) {
      forall trace ensures Lossless(cap, rate, trace) {
        if Ordered(0, trace) {
          EvenLosesNothing(cap, rate, Dry, 0, trace);
        }
      }
    } else {
      OverfillLoses(cap, rate);
      var whole := rate.Floor;
      BurstOrdered(whole + 1, 1, [Request(1, false)]);
      var second := Burst(whole + 1, 1) + [Request(1, false)];
      assert Ordered(0, second);
      BurstOrdered(cap, 0, second);
      assert !Lossless(cap, rate, Overfill(cap, whole));
    }
  }

  /** So with such a rate the script answers every trace as the bucket that leaks
      every second. */
  lemma EvenLeakIsTicking(cap: nat, rate: real, trace: seq<Request>)
    requires rate >= 0.0 && Even(cap, rate) && Ordered(0, trace)
    ensures LeakyRun(cap, rate, Dry, trace) == DripRun(cap, rate, 0.0, 0, trace)
  {
    EvenLosesNothing(cap, rate, Dry, 0, trace);
    LazyLeakIsTicking(cap, rate, Dry, 0, trace);
  }

  // ---- how much is let in ----

  lemma {:induction false} NoneLetLater(cap: nat, rate: real, l: Leaky, trace: seq<Request>, from: int, to: int)
    requires trace != [] ==> trace[0].now > to && Ordered(trace[0].now, trace)
    ensures Admitted(trace, LeakyRun(cap, rate, l, trace), from, to) == 0
    decreases |trace|
  {
    if trace != [] {
      NoneLetLater(cap, rate, LeakyStep(cap, rate, l, trace[0].now).0, trace[1..], from, to);
    }
  }

  // Seen through the level it finds, a step lets in at most what fits.
  lemma LevelStep(cap: nat, rate: real, l: Leaky, now: int)
    requires rate >= 0.0 && Even(cap, rate) && Full(cap, l) && (l.Leaky? ==> l.last <= now)
    ensures var (l', yes) := LeakyStep(cap, rate, l, now);
      Leaked(rate, l', now) == Leaked(rate, l, now) + (if yes then 1.0 else 0.0)
  {
    LeakedWhole(cap, rate, l, now);
    assert Gain(rate, 0) == 0.0;
  }

  lemma {:induction false} LetInside(cap: nat, rate: real, l: Leaky, trace: seq<Request>, from: int, to: int, c: int)
    requires rate >= 0.0 && Even(cap, rate) && Full(cap, l) && (l.Leaky? ==> l.last <= c)
    requires from <= c <= to && Ordered(c, trace)
    ensures Admitted(trace, LeakyRun(cap, rate, l, trace), from, to) as real
         <= cap as real - Leaked(rate, l, c) + Gain(rate, to - c)
    decreases |trace|
  {
    LeakedWhole(cap, rate, l, c);
    MoreTime(rate, 0, to - c);
    if trace != [] {
      var now := trace[0].now;
      if now > to {
        NoneLetLater(cap, rate, l, trace, from, to);
      } else {
        LeakedShrinks(rate, l, c, now);
        MoreTime(rate, to - now, to - c);
        LevelStep(cap, rate, l, now);
        EvenStep(cap, rate, l, now);
        hide Leaked, LeakyStep, Full, Even, Gain;
        LetInside(cap, rate, LeakyStep(cap, rate, l, now).0, trace[1..], from, to, now);
      }
    }
  }

  lemma {:induction false} LetIn(cap: nat, rate: real, l: Leaky, trace: seq<Request>, from: int, to: int, c: int)
    requires rate >= 0.0 && Even(cap, rate) && Full(cap, l) && (l.Leaky? ==> l.last <= c)
    requires from <= to && Ordered(c, trace)
    ensures Admitted(trace, LeakyRun(cap, rate, l, trace), from, to) as real <= cap as real + Gain(rate, to - from)
    decreases |trace|
  {
    MoreTime(rate, 0, to - from);
    if trace != [] {
      var now := trace[0].now;
      if now < from {
        EvenStep(cap, rate, l, now);
        LetIn(cap, rate, LeakyStep(cap, rate, l, now).0, trace[1..], from, to, now);
      } else if now > to {
        NoneLetLater(cap, rate, l, trace, from, to);
      } else {
        LetInside(cap, rate, l, trace, from, to, now);
        LeakedWhole(cap, rate, l, now);
        MoreTime(rate, to - now, to - from);
        hide Leaked, LeakyStep, Full, Even, Gain, Admitted, LeakyRun;
      }
    }
  }

  // What the bucket lets into a window of an ordered trace.
  ghost predicate LetsWithin(cap: nat, rate: real, trace: seq<Request>, from: int, to: int) {
    Ordered(0, trace) && from <= to ==>
      Admitted(trace, LeakyRun(cap, rate, Dry, trace), from, to) as real <= cap as real + (to - from) as real * rate
  }

  lemma LetsWithinEven(cap: nat, rate: real, trace: seq<Request>, from: int, to: int)
    requires rate >= 0.0 && Even(cap, rate)
    ensures LetsWithin(cap, rate, trace, from, to)
  {
    hide Admitted, LeakyRun, Gain, Even;
    if Ordered(0, trace) && from <= to {
      LetIn(cap, rate, Dry, trace, from, to, 0);
      GainIsProduct(rate, to - from);
    }
  }

  lemma LeftoverLetIn(cap: nat, rate: real)
    requires cap >= 1 && 0.0 <= rate < cap as real && !Whole(rate)
    ensures var trace := Leftover(cap, rate.Floor);
      && Ordered(0, trace)
      && Admitted(trace, LeakyRun(cap, rate, Dry, trace), 0, 1) == cap + rate.Floor + 1
  {
    var whole := rate.Floor;
    var last := [Request(1, false)];
    var tail := Burst(whole, 1) + last;
    LeakyLeftover(cap, rate);
    TokenLeftover(cap, rate, 1);
    BurstAdmitted(whole, 1, last, [true], 0, 1);
    FirstBurstAdmitted(cap, 0, false, tail, Yes(whole) + [true], 0, 1);
    assert last[1..] == [] && [true][1..] == [];
  }

  /** The leaky bucket admits at most `capacity + leak_rate * seconds` requests in every
      window of every trace exactly when the rate is whole or empties it in a second. */
  lemma LeakyBoundExactly(cap: nat, rate: real)
    requires rate >= 0.0
    ensures (forall trace, from, to :: LetsWithin(cap, rate, trace, from, to)) <==> Even(cap, rate)
  {
    if Even(cap, rate) {
      forall trace, from, to ensures LetsWithin(cap, rate, trace, from, to) {
        LetsWithinEven(cap, rate, trace, from, to);
      }
    } else {
      LeftoverLetIn(cap, rate);
      var n := cap + rate.Floor + 1;
      assert n as real == cap as real + (rate.Floor + 1) as real > cap as real + rate;
      assert (1 - 0) as real * rate == rate;
      assert !LetsWithin(cap, rate, Leftover(cap, rate.Floor), 0, 1);
    }
  }
}
