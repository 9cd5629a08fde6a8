/** The rate limiters on values: one call of a script is one step, time is the
    caller's clock in whole seconds, and a trace of requests is answered call by
    call. Redis keeps a finer clock: at the very second a key's lifetime runs out
    the key may be found present or gone. */
module Limiters {

  function Least(a: real, b: real): real {
    if a <= b then a else b
  }

  function Greatest(a: real, b: real): real {
    if a >= b then a else b
  }

  // What a rate adds up to over some seconds: their product, one second at a time.
  function Gain(rate: real, seconds: int): real
    decreases if seconds < 0 then -seconds else seconds
  {
    if seconds == 0 then 0.0
    else if seconds > 0 then Gain(rate, seconds - 1) + rate
    else Gain(rate, seconds + 1) - rate
  }

  lemma {:induction false} GainIsProduct(rate: real, seconds: int)
    ensures Gain(rate, seconds) == seconds as real * rate
    decreases if seconds < 0 then -seconds else seconds
  {
    if seconds > 0 {
      GainIsProduct(rate, seconds - 1);
      assert seconds as real == (seconds - 1) as real + 1.0;
    } else if seconds < 0 {
      GainIsProduct(rate, seconds + 1);
      assert seconds as real == (seconds + 1) as real - 1.0;
    }
  }

  // Gain over a <= b seconds.
  lemma {:induction false} MoreTime(rate: real, a: int, b: int)
    requires rate >= 0.0 && a <= b
    ensures Gain(rate, a) <= Gain(rate, b)
    ensures Gain(rate, b) == Gain(rate, a) + Gain(rate, b - a)
    decreases b - a
  {
    if a < b {
      MoreTime(rate, a, b - 1);
      assert Gain(rate, b) == Gain(rate, b - 1) + rate;
    }
  }

  // now: the caller's clock; lapsed: Redis finds the bucket's keys expired.
  datatype Request = Request(now: int, lapsed: bool)

  predicate Ordered(c: int, trace: seq<Request>)
    decreases |trace|
  {
    trace == [] || (c <= trace[0].now && Ordered(trace[0].now, trace[1..]))
  }

  // How many yes answers fall into [from, to].
  function Admitted(trace: seq<Request>, answers: seq<bool>, from: int, to: int): nat
    requires |answers| == |trace|
    decreases |trace|
  {
    if trace == [] then 0
    else (if answers[0] && from <= trace[0].now <= to then 1 else 0)
         + Admitted(trace[1..], answers[1..], from, to)
  }

  // ---- token bucket ----

  datatype Bucket = Absent | Bucket(tokens: real, last: int)

  // The tokens a request at `now` would find.
  function Available(cap: nat, rate: real, b: Bucket, now: int): real {
    match b
    case Absent => Least(cap as real, cap as real + Gain(rate, now))
    case Bucket(tokens, last) => Least(cap as real, tokens + Gain(rate, now - last))
  }

  function TokenStep(cap: nat, rate: real, b: Bucket, now: int): (Bucket, bool) {
    var refill := Available(cap, rate, b, now);
    if refill >= 1.0 then (Bucket(refill - 1.0, now), true) else (b, false)
  }

  function TokenCall(cap: nat, rate: real, b: Bucket, q: Request): (Bucket, bool) {
    TokenStep(cap, rate, if q.lapsed then Absent else b, q.now)
  }

  function TokenRun(cap: nat, rate: real, b: Bucket, trace: seq<Request>): (answers: seq<bool>)
    ensures |answers| == |trace|
    decreases |trace|
  {
    if trace == [] then []
    else
      var (b', yes) := TokenCall(cap, rate, b, trace[0]);
      [yes] + TokenRun(cap, rate, b', trace[1..])
  }

  // The bucket after a trace.
  function TokenEnd(cap: nat, rate: real, b: Bucket, trace: seq<Request>): Bucket
    decreases |trace|
  {
    if trace == [] then b else TokenEnd(cap, rate, TokenCall(cap, rate, b, trace[0]).0, trace[1..])
  }

  lemma {:induction false} TokenRunAppend(cap: nat, rate: real, b: Bucket, trace: seq<Request>, q: Request)
    ensures var (end, more) := (TokenEnd(cap, rate, b, trace), trace + [q]);
      && TokenEnd(cap, rate, b, more) == TokenCall(cap, rate, end, q).0
      && TokenRun(cap, rate, b, more) == TokenRun(cap, rate, b, trace) + [TokenCall(cap, rate, end, q).1]
    decreases |trace|
  {
    hide TokenCall;
    var more := trace + [q];
    if trace == [] {
      assert more == [q] && [q][1..] == [];
    } else {
      assert more[0] == trace[0] && more[1..] == trace[1..] + [q];
      TokenRunAppend(cap, rate, TokenCall(cap, rate, b, trace[0]).0, trace[1..], q);
    }
  }

  lemma {:induction false} FeasibleAppend(cap: nat, rate: real, period: nat, b: Bucket, trace: seq<Request>, q: Request)
    requires Feasible(cap, rate, period, b, trace) && MayLapse(period, TokenEnd(cap, rate, b, trace), q)
    ensures Feasible(cap, rate, period, b, trace + [q])
    decreases |trace|
  {
    hide TokenCall, MayLapse;
    var more := trace + [q];
    if trace == [] {
      assert more == [q] && [q][1..] == [];
    } else {
      assert more[0] == trace[0] && more[1..] == trace[1..] + [q];
      FeasibleAppend(cap, rate, period, TokenCall(cap, rate, b, trace[0]).0, trace[1..], q);
    }
  }

  lemma {:induction false} OrderedAppend(c: int, trace: seq<Request>, q: Request)
    requires Ordered(c, trace) && (if trace == [] then c else trace[|trace| - 1].now) <= q.now
    ensures Ordered(c, trace + [q])
    decreases |trace|
  {
    var more := trace + [q];
    if trace == [] {
      assert more == [q] && [q][1..] == [];
    } else {
      assert more[0] == trace[0] && more[1..] == trace[1..] + [q];
      OrderedAppend(trace[0].now, trace[1..], q);
    }
  }

  // When Redis may, and when it must, find the keys gone.
  predicate MayLapse(period: nat, b: Bucket, q: Request) {
    match b
    case Absent => true
    case Bucket(_, last) => if q.lapsed then last + period <= q.now else q.now <= last + period
  }

  predicate Feasible(cap: nat, rate: real, period: nat, b: Bucket, trace: seq<Request>)
    decreases |trace|
  {
    trace == [] ||
    (MayLapse(period, b, trace[0]) &&
     Feasible(cap, rate, period, TokenCall(cap, rate, b, trace[0]).0, trace[1..]))
  }

  ghost predicate Holdable(cap: nat, b: Bucket, c: int) {
    b.Bucket? ==> 0.0 <= b.tokens <= cap as real && b.last <= c
  }

  lemma AvailableGrows(cap: nat, rate: real, b: Bucket, c: int, now: int)
    requires rate >= 0.0 && 0 <= c <= now && Holdable(cap, b, c)
    ensures 0.0 <= Available(cap, rate, b, c) <= Available(cap, rate, b, now) <= cap as real
    ensures Available(cap, rate, b, now) == Least(cap as real, Available(cap, rate, b, c) + Gain(rate, now - c))
  {
    MoreTime(rate, 0, c);
    MoreTime(rate, c, now);
    if b.Bucket? {
      MoreTime(rate, 0, c - b.last);
      MoreTime(rate, c - b.last, now - b.last);
    }
  }

  /** A key whose lifetime has run out makes no difference: by then the bucket
      would have been full. */
  lemma LapseHarmless(cap: nat, rate: real, period: nat, b: Bucket, q: Request)
    requires rate >= 0.0 && Gain(rate, period) >= cap as real
    requires 0 <= q.now && Holdable(cap, b, q.now) && q.lapsed && MayLapse(period, b, q)
    ensures Available(cap, rate, Absent, q.now) == Available(cap, rate, b, q.now) == cap as real
  {
    MoreTime(rate, 0, q.now);
    if b.Bucket? {
      MoreTime(rate, period, q.now - b.last);
    }
  }

  // One call, seen through what it finds available.
  lemma TokenCallFinds(cap: nat, rate: real, period: nat, b: Bucket, q: Request)
    requires rate >= 0.0 && Gain(rate, period) >= cap as real
    requires 0 <= q.now && Holdable(cap, b, q.now) && MayLapse(period, b, q)
    ensures var a := Available(cap, rate, b, q.now); var (b', yes) := TokenCall(cap, rate, b, q);
      && yes == (a >= 1.0) && Holdable(cap, b', q.now)
      && Available(cap, rate, b', q.now) == if yes then a - 1.0 else a
  {
    AvailableGrows(cap, rate, b, q.now, q.now);
    if q.lapsed {
      LapseHarmless(cap, rate, period, b, q);
    }
  }

  lemma {:induction false} InsideWindow(cap: nat, rate: real, period: nat, b: Bucket, trace: seq<Request>, from: int,
                                        to: int, c: int)
    requires rate >= 0.0 && Gain(rate, period) >= cap as real
    requires 0 <= c <= to && from <= c && Holdable(cap, b, c)
    requires Ordered(c, trace) && Feasible(cap, rate, period, b, trace)
    ensures Admitted(trace, TokenRun(cap, rate, b, trace), from, to) as real
         <= Available(cap, rate, b, c) + Gain(rate, to - c)
    decreases |trace|
  {
    AvailableGrows(cap, rate, b, c, c);
    MoreTime(rate, 0, to - c);
    if trace != [] {
      var q := trace[0];
      if q.now > to {
        NoneLater(cap, rate, b, trace, from, to);
      } else {
        AvailableGrows(cap, rate, b, c, q.now);
        TokenCallFinds(cap, rate, period, b, q);
        InsideWindow(cap, rate, period, TokenCall(cap, rate, b, q).0, trace[1..], from, to, q.now);
        MoreTime(rate, to - q.now, to - c);
      }
    }
  }

  lemma {:induction false} NoneLater(cap: nat, rate: real, b: Bucket, trace: seq<Request>, from: int, to: int)
    requires trace != [] ==> trace[0].now > to && Ordered(trace[0].now, trace)
    ensures Admitted(trace, TokenRun(cap, rate, b, trace), from, to) == 0
    decreases |trace|
  {
    if trace != [] {
      NoneLater(cap, rate, TokenCall(cap, rate, b, trace[0]).0, trace[1..], from, to);
    }
  }

  lemma {:induction false} WindowBound(cap: nat, rate: real, period: nat, b: Bucket, trace: seq<Request>, from: int,
                                       to: int, c: int)
    requires rate >= 0.0 && Gain(rate, period) >= cap as real
    requires 0 <= c && 0 <= from <= to && Holdable(cap, b, c)
    requires Ordered(c, trace) && Feasible(cap, rate, period, b, trace)
    ensures Admitted(trace, TokenRun(cap, rate, b, trace), from, to) as real
         <= cap as real + Gain(rate, to - from)
    decreases |trace|
  {
    MoreTime(rate, 0, to - from);
    if trace != [] {
      var q := trace[0];
      if q.now < from {
        TokenCallFinds(cap, rate, period, b, q);
        WindowBound(cap, rate, period, TokenCall(cap, rate, b, q).0, trace[1..], from, to, q.now);
      } else if q.now > to {
        NoneLater(cap, rate, b, trace, from, to);
      } else {
        InsideWindow(cap, rate, period, b, trace, from, to, q.now);
        AvailableGrows(cap, rate, b, q.now, q.now);
        MoreTime(rate, to - q.now, to - from);
      }
    }
  }

  // What a token bucket promises of a trace and a window.
  ghost predicate Bounded(cap: nat, rate: real, trace: seq<Request>, from: int, to: int) {
    Admitted(trace, TokenRun(cap, rate, Absent, trace), from, to) as real
      <= cap as real + (to - from) as real * rate
  }

  ghost predicate Possible(cap: nat, rate: real, period: nat, trace: seq<Request>) {
    Ordered(0, trace) && Feasible(cap, rate, period, Absent, trace)
  }

  function Burst(n: nat, now: int): seq<Request> {
    if n == 0 then [] else [Request(now, false)] + Burst(n - 1, now)
  }

  function Yes(n: nat): seq<bool> {
    if n == 0 then [] else [true] + Yes(n - 1)
  }

  lemma {:induction false} TokenBurst(cap: nat, rate: real, period: nat, tokens: real, n: nat, now: int,
                                      rest: seq<Request>)
    requires n as real <= tokens <= cap as real
    ensures var (b, b') := (Bucket(tokens, now), Bucket(tokens - n as real, now));
      && TokenRun(cap, rate, b, Burst(n, now) + rest) == Yes(n) + TokenRun(cap, rate, b', rest)
      && (Feasible(cap, rate, period, b, Burst(n, now) + rest) <==> Feasible(cap, rate, period, b', rest))
      && (Ordered(now, Burst(n, now) + rest) <==> Ordered(now, rest))
    decreases n
  {
    var trace := Burst(n, now) + rest;
    if n == 0 {
      assert trace == rest && Yes(0) + TokenRun(cap, rate, Bucket(tokens, now), rest)
        == TokenRun(cap, rate, Bucket(tokens, now), rest);
    } else {
      assert trace[0] == Request(now, false) && trace[1..] == Burst(n - 1, now) + rest;
      assert Gain(rate, now - now) == 0.0;
      TokenBurst(cap, rate, period, tokens - 1.0, n - 1, now, rest);
      assert [true] + (Yes(n - 1) + TokenRun(cap, rate, Bucket(tokens - n as real, now), rest))
        == Yes(n) + TokenRun(cap, rate, Bucket(tokens - n as real, now), rest);
    }
  }

  // A full bucket emptied at `now`, found absent.
  lemma FirstBurst(cap: nat, rate: real, period: nat, b: Bucket, now: int, lapsed: bool, rest: seq<Request>)
    requires cap >= 1 && rate >= 0.0 && 0 <= now
    requires MayLapse(period, b, Request(now, lapsed)) && (lapsed || b == Absent)
    ensures var trace := [Request(now, lapsed)] + (Burst(cap - 1, now) + rest);
      && TokenRun(cap, rate, b, trace) == Yes(cap) + TokenRun(cap, rate, Bucket(0.0, now), rest)
      && (Feasible(cap, rate, period, b, trace) <==> Feasible(cap, rate, period, Bucket(0.0, now), rest))
      && (Ordered(now, trace) <==> Ordered(now, rest))
  {
    var (q, more) := (Request(now, lapsed), Burst(cap - 1, now) + rest);
    FirstOfBurst(cap, rate, b, q);
    TokenBurst(cap, rate, period, cap as real - 1.0, cap - 1, now, rest);
    assert ([q] + more)[1..] == more;
    hide TokenCall, Burst, Gain;
    YesFirst(cap, TokenRun(cap, rate, Bucket(0.0, now), rest));
    hide Yes;
  }

  lemma FirstOfBurst(cap: nat, rate: real, b: Bucket, q: Request)
    requires cap >= 1 && rate >= 0.0 && 0 <= q.now && (q.lapsed || b == Absent)
    ensures TokenCall(cap, rate, b, q) == (Bucket(cap as real - 1.0, q.now), true)
  {
    MoreTime(rate, 0, q.now);
  }

  lemma {:induction false} BurstAdmitted(n: nat, now: int, rest: seq<Request>, answers: seq<bool>, from: int, to: int)
    requires |answers| == |rest| && from <= now <= to
    ensures |Burst(n, now)| == |Yes(n)| == n
    ensures Admitted(Burst(n, now) + rest, Yes(n) + answers, from, to) == n + Admitted(rest, answers, from, to)
    decreases n
  {
    if n == 0 {
      assert Burst(0, now) + rest == rest && Yes(0) + answers == answers;
    } else {
      BurstAdmitted(n - 1, now, rest, answers, from, to);
      AdmittedFirst(Request(now, false), Burst(n - 1, now) + rest, Yes(n - 1) + answers, from, to);
      assert Burst(n, now) + rest == [Request(now, false)] + (Burst(n - 1, now) + rest);
      assert Yes(n) + answers == [true] + (Yes(n - 1) + answers);
      hide Admitted;
    }
  }

  // Two bursts, one period apart, the keys having expired in between.
  function TwoBursts(cap: nat, period: nat): seq<Request>
    requires cap >= 1
  {
    [Request(0, false)] + (Burst(cap - 1, 0) + SecondBurst(cap, period))
  }

  lemma YesFirst(n: nat, answers: seq<bool>)
    requires n >= 1
    ensures |Yes(n)| == |Yes(n - 1)| + 1 && Yes(n) + answers == [true] + (Yes(n - 1) + answers)
  {
    assert Yes(n) == [true] + Yes(n - 1);
  }

  lemma AdmittedFirst(q: Request, more: seq<Request>, answers: seq<bool>, from: int, to: int)
    requires |answers| == |more| && from <= q.now <= to
    ensures Admitted([q] + more, [true] + answers, from, to) == 1 + Admitted(more, answers, from, to)
  {
    assert ([q] + more)[1..] == more && ([true] + answers)[1..] == answers;
  }

  lemma FirstBurstAdmitted(n: nat, now: int, lapsed: bool, rest: seq<Request>, answers: seq<bool>, from: int, to: int)
    requires |answers| == |rest| && from <= now <= to && n >= 1
    ensures |Burst(n - 1, now)| + 1 == |Yes(n)| == n
    ensures Admitted([Request(now, lapsed)] + (Burst(n - 1, now) + rest), Yes(n) + answers, from, to)
         == n + Admitted(rest, answers, from, to)
  {
    hide Burst, Admitted, Yes;
    BurstAdmitted(n - 1, now, rest, answers, from, to);
    YesFirst(n, answers);
    AdmittedFirst(Request(now, lapsed), Burst(n - 1, now) + rest, Yes(n - 1) + answers, from, to);
  }

  function SecondBurst(cap: nat, period: nat): seq<Request>
    requires cap >= 1
  {
    [Request(period, true)] + (Burst(cap - 1, period) + [])
  }

  lemma TwoBurstsAnswers(cap: nat, rate: real, period: nat)
    requires cap >= 1 && rate >= 0.0
    ensures Possible(cap, rate, period, TwoBursts(cap, period))
    ensures TokenRun(cap, rate, Absent, TwoBursts(cap, period)) == Yes(cap) + (Yes(cap) + [])
  {
    var second := SecondBurst(cap, period);
    FirstBurst(cap, rate, period, Absent, 0, false, second);
    FirstBurst(cap, rate, period, Bucket(0.0, 0), period, true, []);
    assert Ordered(0, second) by {
      assert second[0].now == period;
    }
  }

  lemma TwoBurstsAdmitted(cap: nat, rate: real, period: nat)
    requires cap >= 1 && rate >= 0.0
    ensures Possible(cap, rate, period, TwoBursts(cap, period))
    ensures var trace := TwoBursts(cap, period);
      Admitted(trace, TokenRun(cap, rate, Absent, trace), 0, period) == 2 * cap
  {
    var second := SecondBurst(cap, period);
    TwoBurstsAnswers(cap, rate, period);
    FirstBurstAdmitted(cap, period, true, [], [], 0, period);
    FirstBurstAdmitted(cap, 0, false, second, Yes(cap) + [], 0, period);
  }

  lemma BoundHolds(cap: nat, rate: real, period: nat, trace: seq<Request>, from: int, to: int)
    requires rate >= 0.0 && Gain(rate, period) >= cap as real
    requires Possible(cap, rate, period, trace) && 0 <= from <= to
    ensures Bounded(cap, rate, trace, from, to)
  {
    hide Admitted, TokenRun, Gain, Feasible, Ordered;
    WindowBound(cap, rate, period, Absent, trace, from, to, 0);
    GainIsProduct(rate, to - from);
  }

  lemma BoundFails(cap: nat, rate: real, period: nat)
    requires rate >= 0.0 && period as real * rate < cap as real && cap >= 1
    ensures Possible(cap, rate, period, TwoBursts(cap, period))
    ensures !Bounded(cap, rate, TwoBursts(cap, period), 0, period)
  {
    TwoBurstsAdmitted(cap, rate, period);
    assert (2 * cap) as real == cap as real + cap as real;
  }

  /** The token bucket admits at most `capacity + refill_rate * seconds` requests in
      every window of every possible trace exactly when the keys live long enough
      for an empty bucket to fill up. */
  lemma TokenBoundExactly(cap: nat, rate: real, period: nat)
    requires rate >= 0.0
    ensures (forall trace, from, to :: Possible(cap, rate, period, trace) && 0 <= from <= to ==>
               Bounded(cap, rate, trace, from, to))
       <==> period as real * rate >= cap as real
  {
    GainIsProduct(rate, period);
    if period as real * rate >= cap as real {
      forall trace, from, to | Possible(cap, rate, period, trace) && 0 <= from <= to
        ensures Bounded(cap, rate, trace, from, to)
      {
        BoundHolds(cap, rate, period, trace, from, to);
      }
    } else {
      MoreTime(rate, 0, period);
      BoundFails(cap, rate, period);
    }
  }

  // ---- the reference: a bucket that ticks every second and never expires ----

  function Tick(cap: nat, rate: real, tokens: real, seconds: nat): real
    decreases seconds
  {
    if seconds == 0 then tokens else Tick(cap, rate, Least(cap as real, tokens + rate), seconds - 1)
  }

  function TickRun(cap: nat, rate: real, tokens: real, clock: int, trace: seq<Request>): (answers: seq<bool>)
    requires Ordered(clock, trace)
    ensures |answers| == |trace|
    decreases |trace|
  {
    if trace == [] then []
    else
      var full := Tick(cap, rate, tokens, trace[0].now - clock);
      var left := if full >= 1.0 then full - 1.0 else full;
      [full >= 1.0] + TickRun(cap, rate, left, trace[0].now, trace[1..])
  }

  lemma {:induction false} TickAtOnce(cap: nat, rate: real, tokens: real, n: nat)
    requires rate >= 0.0 && tokens <= cap as real
    ensures Tick(cap, rate, tokens, n) == Least(cap as real, tokens + Gain(rate, n))
    decreases n
  {
    if n > 0 {
      var next := Least(cap as real, tokens + rate);
      TickAtOnce(cap, rate, next, n - 1);
      MoreTime(rate, 0, n - 1);
      MoreTime(rate, n - 1, n);
      assert Gain(rate, 1) == rate;
    }
  }

  /** Refilling lazily from the last admission, through keys that may expire,
      answers every trace as a bucket that ticks every second. */
  lemma {:induction false} LazyIsTicking(cap: nat, rate: real, period: nat, b: Bucket, clock: int, trace: seq<Request>)
    requires rate >= 0.0 && Gain(rate, period) >= cap as real
    requires 0 <= clock && Holdable(cap, b, clock)
    requires Ordered(clock, trace) && Feasible(cap, rate, period, b, trace)
    ensures TokenRun(cap, rate, b, trace) == TickRun(cap, rate, Available(cap, rate, b, clock), clock, trace)
    decreases |trace|
  {
    if trace != [] {
      var q := trace[0];
      AvailableGrows(cap, rate, b, clock, q.now);
      TickAtOnce(cap, rate, Available(cap, rate, b, clock), q.now - clock);
      TokenCallFinds(cap, rate, period, b, q);
      LazyIsTicking(cap, rate, period, TokenCall(cap, rate, b, q).0, q.now, trace[1..]);
    }
  }

  // ---- leaky bucket ----

  datatype Leaky = Dry | Leaky(level: real, last: int)

  function Leaked(rate: real, l: Leaky, now: int): real {
    match l
    case Dry => 0.0
    case Leaky(level, last) => Greatest(0.0, level - Gain(rate, now - last))
  }

  function LeakyStep(cap: nat, rate: real, l: Leaky, now: int): (Leaky, bool) {
    var leaked := Leaked(rate, l, now);
    if leaked < cap as real then (Leaky(leaked + 1.0, now), true) else (Leaky(cap as real, now), false)
  }

  function LeakyRun(cap: nat, rate: real, l: Leaky, trace: seq<Request>): (answers: seq<bool>)
    ensures |answers| == |trace|
    decreases |trace|
  {
    if trace == [] then []
    else
      var (l', yes) := LeakyStep(cap, rate, l, trace[0].now);
      [yes] + LeakyRun(cap, rate, l', trace[1..])
  }

  function LeakyEnd(cap: nat, rate: real, l: Leaky, trace: seq<Request>): Leaky
    decreases |trace|
  {
    if trace == [] then l else LeakyEnd(cap, rate, LeakyStep(cap, rate, l, trace[0].now).0, trace[1..])
  }

  lemma {:induction false} LeakyRunAppend(cap: nat, rate: real, l: Leaky, trace: seq<Request>, q: Request)
    ensures var (end, more) := (LeakyEnd(cap, rate, l, trace), trace + [q]);
      && LeakyEnd(cap, rate, l, more) == LeakyStep(cap, rate, end, q.now).0
      && LeakyRun(cap, rate, l, more) == LeakyRun(cap, rate, l, trace) + [LeakyStep(cap, rate, end, q.now).1]
    decreases |trace|
  {
    hide LeakyStep;
    var more := trace + [q];
    if trace == [] {
      assert more == [q] && [q][1..] == [];
    } else {
      assert more[0] == trace[0] && more[1..] == trace[1..] + [q];
      LeakyRunAppend(cap, rate, LeakyStep(cap, rate, l, trace[0].now).0, trace[1..], q);
    }
  }

  predicate Whole(x: real) {
    x == x.Floor as real
  }

  // A rate that never leaves part of a token behind.
  predicate Even(cap: nat, rate: real) {
    Whole(rate) || rate >= cap as real
  }

  lemma WholeInt(n: int)
    ensures Whole(n as real)
  {
  }

  lemma WholeSum(a: real, b: real)
    requires Whole(a) && Whole(b)
    ensures Whole(a + b) && Whole(a - b)
  {
    var m, n := a.Floor, b.Floor;
    assert a + b == (m + n) as real && a - b == (m - n) as real;
    WholeInt(m + n);
    WholeInt(m - n);
  }

  lemma {:induction false} WholeGain(rate: real, seconds: nat)
    requires Whole(rate)
    ensures Whole(Gain(rate, seconds))
    decreases seconds
  {
    WholeInt(0);
    if seconds > 0 {
      WholeGain(rate, seconds - 1);
      WholeSum(Gain(rate, seconds - 1), rate);
    }
  }

  lemma AvailableWhole(cap: nat, rate: real, b: Bucket, now: int)
    requires rate >= 0.0 && Even(cap, rate) && 0 <= now && Holdable(cap, b, now)
    requires b.Bucket? ==> Whole(b.tokens)
    ensures Whole(Available(cap, rate, b, now))
  {
    WholeInt(cap);
    MoreTime(rate, 0, now);
    if b.Bucket? {
      var n := now - b.last;
      if Whole(rate) {
        WholeGain(rate, n);
        WholeSum(b.tokens, Gain(rate, n));
      } else if n > 0 {
        MoreTime(rate, 1, n);
        assert Gain(rate, 1) == rate;
      } else {
        assert Gain(rate, 0) == 0.0;
      }
    }
  }

  // The two scripts' states describe the same bucket from time c on.
  ghost predicate Linked(cap: nat, rate: real, b: Bucket, l: Leaky, c: int) {
    && Holdable(cap, b, c) && (b.Bucket? ==> Whole(b.tokens))
    && (l.Leaky? ==> l.last <= c && l.level <= cap as real)
    && Available(cap, rate, b, c) == cap as real - Leaked(rate, l, c)
  }

  lemma LeakedShrinks(rate: real, l: Leaky, c: int, now: int)
    requires rate >= 0.0 && c <= now && (l.Leaky? ==> l.last <= c)
    ensures Leaked(rate, l, now) == Greatest(0.0, Leaked(rate, l, c) - Gain(rate, now - c))
  {
    MoreTime(rate, 0, now - c);
    if l.Leaky? {
      MoreTime(rate, c - l.last, now - l.last);
    }
  }

  lemma LinkedStep(cap: nat, rate: real, period: nat, b: Bucket, l: Leaky, c: int, q: Request)
    requires rate >= 0.0 && Gain(rate, period) >= cap as real && Even(cap, rate)
    requires 0 <= c <= q.now && Linked(cap, rate, b, l, c) && MayLapse(period, b, q)
    ensures var (b', yes) := TokenCall(cap, rate, b, q); var (l', yes') := LeakyStep(cap, rate, l, q.now);
      yes == yes' && Linked(cap, rate, b', l', q.now)
  {
    AvailableGrows(cap, rate, b, c, q.now);
    LeakedShrinks(rate, l, c, q.now);
    var a := Available(cap, rate, b, q.now);
    AvailableWhole(cap, rate, b, q.now);
    TokenCallFinds(cap, rate, period, b, q);
    if q.lapsed {
      LapseHarmless(cap, rate, period, b, q);
    }
    assert Whole(a - 1.0) by { WholeInt(1); WholeSum(a, 1.0); }
    assert Gain(rate, 0) == 0.0;
    hide Whole, Gain;
  }

  lemma {:induction false} LinkedRun(cap: nat, rate: real, period: nat, b: Bucket, l: Leaky, c: int,
                                     trace: seq<Request>)
    requires rate >= 0.0 && Gain(rate, period) >= cap as real && Even(cap, rate)
    requires 0 <= c && Linked(cap, rate, b, l, c)
    requires Ordered(c, trace) && Feasible(cap, rate, period, b, trace)
    ensures TokenRun(cap, rate, b, trace) == LeakyRun(cap, rate, l, trace)
    decreases |trace|
  {
    if trace != [] {
      var q := trace[0];
      LinkedStep(cap, rate, period, b, l, c, q);
      LinkedRun(cap, rate, period, TokenCall(cap, rate, b, q).0, LeakyStep(cap, rate, l, q.now).0, q.now, trace[1..]);
    }
  }

  lemma {:induction false} LeakyBurst(cap: nat, rate: real, level: real, n: nat, now: int, rest: seq<Request>)
    requires 0.0 <= level && level + n as real < cap as real + 1.0
    ensures LeakyRun(cap, rate, Leaky(level, now), Burst(n, now) + rest)
         == Yes(n) + LeakyRun(cap, rate, Leaky(level + n as real, now), rest)
    decreases n
  {
    var trace := Burst(n, now) + rest;
    if n == 0 {
      assert trace == rest;
      assert Yes(0) + LeakyRun(cap, rate, Leaky(level, now), rest) == LeakyRun(cap, rate, Leaky(level, now), rest);
    } else {
      assert trace[0] == Request(now, false) && trace[1..] == Burst(n - 1, now) + rest;
      assert Gain(rate, now - now) == 0.0;
      LeakyBurst(cap, rate, level + 1.0, n - 1, now, rest);
      assert [true] + (Yes(n - 1) + LeakyRun(cap, rate, Leaky(level + n as real, now), rest))
        == Yes(n) + LeakyRun(cap, rate, Leaky(level + n as real, now), rest);
    }
  }

  // Empty the bucket, wait one second, spend the whole tokens, ask once more.
  function Leftover(cap: nat, whole: nat): seq<Request>
    requires cap >= 1
  {
    [Request(0, false)] + (Burst(cap - 1, 0) + (Burst(whole, 1) + [Request(1, false)]))
  }

  lemma TokenLeftover(cap: nat, rate: real, period: nat)
    requires cap >= 1 && 0.0 <= rate < cap as real && !Whole(rate) && period >= 1
    ensures var whole := rate.Floor; var trace := Leftover(cap, whole);
      && Possible(cap, rate, period, trace)
      && TokenRun(cap, rate, Absent, trace) == Yes(cap) + (Yes(whole) + [false])
  {
    var whole := rate.Floor;
    FirstBurst(cap, rate, period, Absent, 0, false, Burst(whole, 1) + [Request(1, false)]);
    TokenTail(cap, rate, period, whole);
  }

  lemma TokenTail(cap: nat, rate: real, period: nat, whole: nat)
    requires cap >= 1 && 0.0 <= rate < cap as real && !Whole(rate) && period >= 1 && whole == rate.Floor
    ensures var tail := Burst(whole, 1) + [Request(1, false)];
      && Ordered(0, tail) && Feasible(cap, rate, period, Bucket(0.0, 0), tail)
      && TokenRun(cap, rate, Bucket(0.0, 0), tail) == Yes(whole) + [false]
  {
    var last := [Request(1, false)];
    var tail := Burst(whole, 1) + last;
    var b0 := Bucket(0.0, 0);
    assert Gain(rate, 1) == rate && Gain(rate, 0) == 0.0;
    assert last[1..] == [];
    if whole == 0 {
      assert tail == last && Yes(0) + [false] == [false];
      assert TokenCall(cap, rate, b0, last[0]) == (b0, false);
    } else {
      assert tail[0] == Request(1, false) && tail[1..] == Burst(whole - 1, 1) + last;
      var b1 := Bucket(rate - 1.0, 1);
      assert TokenCall(cap, rate, b0, tail[0]) == (b1, true);
      TokenBurst(cap, rate, period, rate - 1.0, whole - 1, 1, last);
      var b2 := Bucket(rate - 1.0 - (whole - 1) as real, 1);
      assert TokenCall(cap, rate, b2, last[0]) == (b2, false);
      assert TokenRun(cap, rate, b2, last) == [false];
      assert [true] + (Yes(whole - 1) + [false]) == Yes(whole) + [false];
    }
  }

  lemma LeakyLeftover(cap: nat, rate: real)
    requires cap >= 1 && 0.0 <= rate < cap as real && !Whole(rate)
    ensures var whole := rate.Floor;
      LeakyRun(cap, rate, Dry, Leftover(cap, whole)) == Yes(cap) + (Yes(whole) + [true])
  {
    var whole := rate.Floor;
    var last := [Request(1, false)];
    var tail := Burst(whole, 1) + last;
    var trace := Leftover(cap, whole);
    assert trace[1..] == Burst(cap - 1, 0) + tail;
    LeakyBurst(cap, rate, 1.0, cap - 1, 0, tail);
    assert Gain(rate, 1) == rate && Gain(rate, 0) == 0.0;
    var l0 := Leaky(cap as real, 0);
    var rest := Burst(whole, 1) + last;
    LeakyTail(cap, rate, whole);
    assert [true] + (Yes(cap - 1) + (Yes(whole) + [true])) == Yes(cap) + (Yes(whole) + [true]);
  }

  lemma LeakyTail(cap: nat, rate: real, whole: nat)
    requires cap >= 1 && 0.0 <= rate < cap as real && !Whole(rate) && whole == rate.Floor
    ensures LeakyRun(cap, rate, Leaky(cap as real, 0), Burst(whole, 1) + [Request(1, false)]) == Yes(whole) + [true]
  {
    var last := [Request(1, false)];
    var l0 := Leaky(cap as real, 0);
    assert Gain(rate, 1) == rate && Gain(rate, 0) == 0.0;
    assert last[1..] == [];
    var tail := Burst(whole, 1) + last;
    if whole == 0 {
      assert tail == last && Yes(0) + [true] == [true];
      assert LeakyStep(cap, rate, l0, 1).1;
    } else {
      assert tail[0] == Request(1, false) && tail[1..] == Burst(whole - 1, 1) + last;
      var l1 := Leaky(cap as real - rate + 1.0, 1);
      assert LeakyStep(cap, rate, l0, 1) == (l1, true);
      LeakyBurst(cap, rate, l1.level, whole - 1, 1, last);
      var l2 := Leaky(l1.level + (whole - 1) as real, 1);
      assert LeakyStep(cap, rate, l2, 1).1;
      assert LeakyRun(cap, rate, l2, last) == [true];
      assert [true] + (Yes(whole - 1) + [true]) == Yes(whole) + [true];
    }
  }

  /** With keys that live long enough, the token bucket and the leaky bucket answer
      every possible trace alike exactly when the rate is a whole number or refills
      the whole bucket within a second. */
  lemma TokenIsLeakyExactly(cap: nat, rate: real, period: nat)
    requires rate >= 0.0 && period as real * rate >= cap as real
    ensures (forall trace :: Possible(cap, rate, period, trace) ==>
               TokenRun(cap, rate, Absent, trace) == LeakyRun(cap, rate, Dry, trace))
       <==> Even(cap, rate)
  {
    GainIsProduct(rate, period);
    if Even(cap, rate) {
      forall trace | Possible(cap, rate, period, trace)
        ensures TokenRun(cap, rate, Absent, trace) == LeakyRun(cap, rate, Dry, trace)
      {
        assert Gain(rate, 0) == 0.0;
        LinkedRun(cap, rate, period, Absent, Dry, 0, trace);
      }
    } else {
      assert Gain(rate, 0) == 0.0;
      TokenLeftover(cap, rate, period);
      LeakyLeftover(cap, rate);
      var trace := Leftover(cap, rate.Floor);
      var n := |Yes(cap)| + |Yes(rate.Floor)|;
      assert TokenRun(cap, rate, Absent, trace)[n] != LeakyRun(cap, rate, Dry, trace)[n];
    }
  }
}
