// The round-robin quorum backoff: how often and how long a call sleeps.
module QuorumBackoff {
  import opened Common
  import opened Retry
  import opened UnaryRetry

  /** Whether the client sleeps before attempt j. */
  predicate Sleeps(b: Backoff, env: nat -> Attempt, j: nat) { WaitTime(b, j, env(j).pause) > 0.0 }

  /** The number of attempts from lo up to, but not including, hi before which it does. */
  function CountSleeps(b: Backoff, env: nat -> Attempt, lo: nat, hi: nat): nat
    decreases hi
  {
    if hi <= lo then 0 else CountSleeps(b, env, lo, hi - 1) + (if Sleeps(b, env, hi - 1) then 1 else 0)
  }

  function Waits(es: seq<Event>): seq<real> {
    if es == [] then [] else (if es[0].Waited? then [es[0].time] else []) + Waits(es[1..])
  }

  function Total(ts: seq<real>): real {
    if ts == [] then 0.0 else ts[0] + Total(ts[1..])
  }

  /** A fixed number of endpoints, and the range of rand.Float64(). */
  ghost predicate Steady(env: nat -> Attempt, n: nat) {
    forall j :: env(j).pause.endpoints == n && 0.0 <= env(j).pause.rand < 1.0
  }

  predicate Sensible(b: Backoff) { b.RoundRobinQuorum? && b.wait > 0.0 && 0.0 <= b.jitter < 1.0 }

  function LongestWait(b: Backoff): real { b.wait * (1.0 + b.jitter) }

  function ShortestWait(b: Backoff): real { b.wait * (1.0 - b.jitter) }

  // ---------- arithmetic ----------

  lemma AtLeastOne(q: nat, k: int)
    requires k >= 1
    ensures q * k >= q
  {
    assert q * k == q * (k - 1) + q && q * (k - 1) >= 0;
  }

  lemma Unique(q: nat, d: int, r: nat, e: int, f: nat)
    requires r < q && f < q && q * d + r == q * e + f
    ensures d == e && r == f
  {
    assert q * d - q * e == q * (d - e) && q * e - q * d == q * (e - d);
    if d > e { AtLeastOne(q, d - e); }
    if e > d { AtLeastOne(q, e - d); }
  }

  lemma DivIs(x: nat, q: nat, d: nat, r: nat)
    requires q >= 1 && x == q * d + r && r < q
    ensures x / q == d && x % q == r
  {
    var e, f := x / q, x % q;
    assert x == q * e + f;
    Unique(q, d, r, e, f);
  }

  lemma NextQuotient(x: nat, q: nat)
    requires q >= 1
    ensures (x + 1) / q == x / q + (if (x + 1) % q == 0 then 1 else 0)
  {
    var d, r := x / q, x % q;
    assert x == q * d + r;
    if r + 1 < q {
      DivIs(x + 1, q, d, r + 1);
    } else {
      assert x + 1 == q * (d + 1) + 0;
      DivIs(x + 1, q, d + 1, 0);
    }
  }

  lemma AddQuorum(x: nat, q: nat)
    requires q >= 1
    ensures (x + q) / q == x / q + 1
  {
    var d, r := x / q, x % q;
    assert x + q == q * (d + 1) + r by { assert x == q * d + r; }
    DivIs(x + q, q, d + 1, r);
  }

  lemma Swing(j: real, x: real)
    requires 0.0 <= j < 1.0 && -1.0 <= x <= 1.0
    ensures -1.0 < -j <= j * x <= j
  {
    assert j * (1.0 - x) >= 0.0;
    assert j * (1.0 + x) >= 0.0;
  }

  lemma Stretch(w: real, x: real, y: real, z: real)
    requires w > 0.0 && -1.0 < x <= y <= z
    ensures 0.0 < w * (1.0 + x) <= w * (1.0 + y) <= w * (1.0 + z)
  {
    assert w * (y - x) >= 0.0 && w * (z - y) >= 0.0;
  }

  lemma JitterBounds(w: real, j: real, x: real)
    requires w > 0.0 && 0.0 <= j < 1.0 && -1.0 <= x <= 1.0
    ensures 0.0 < Scaled(w, j, -1.0) <= Scaled(w, j, x) <= Scaled(w, j, 1.0)
  {
    Swing(j, x);
    Stretch(w, j * -1.0, j * x, j * 1.0);
  }

  lemma WaitEnds(b: Backoff)
    ensures ShortestWait(b) == Scaled(b.wait, b.jitter, -1.0) && LongestWait(b) == Scaled(b.wait, b.jitter, 1.0)
  {
  }

  // A jittered wait lies between wait * (1 - jitter) and wait * (1 + jitter).
  lemma Jittered(b: Backoff, p: Pause)
    requires Sensible(b) && 0.0 <= p.rand < 1.0
    ensures 0.0 < ShortestWait(b) <= JitterUp(b.wait, b.jitter, p.rand) <= LongestWait(b)
  {
    hide Scaled, ShortestWait, LongestWait;
    JitterBounds(b.wait, b.jitter, p.rand * 2.0 - 1.0);
    WaitEnds(b);
  }

  // ---------- counting ----------

  lemma SleepsWhen(b: Backoff, env: nat -> Attempt, n: nat, j: nat)
    requires Sensible(b) && Steady(env, n)
    ensures Sleeps(b, env, j) <==> j >= 1 && j % (n / 2 + 1) == 0
    ensures WaitTime(b, j, env(j).pause) <= LongestWait(b)
    ensures Sleeps(b, env, j) ==> ShortestWait(b) <= WaitTime(b, j, env(j).pause)
  {
    Jittered(b, env(j).pause);
  }

  // Between two attempts after the first, the sleeps are the multiples of the quorum.
  lemma {:induction false} SleepsBetween(b: Backoff, env: nat -> Attempt, n: nat, lo: nat, hi: nat)
    requires Sensible(b) && Steady(env, n) && 1 <= lo <= hi
    ensures CountSleeps(b, env, lo, hi) == (hi - 1) / (n / 2 + 1) - (lo - 1) / (n / 2 + 1)
    decreases hi
  {
    hide Sleeps;
    if lo < hi {
      SleepsBetween(b, env, n, lo, hi - 1);
      SleepsWhen(b, env, n, hi - 1);
      NextQuotient(hi - 2, n / 2 + 1);
    }
  }

  lemma {:induction false} FirstNeverSleeps(b: Backoff, env: nat -> Attempt, m: nat)
    requires m >= 1
    ensures CountSleeps(b, env, 0, m) == CountSleeps(b, env, 1, m)
    decreases m
  {
    if m > 1 {
      FirstNeverSleeps(b, env, m - 1);
    } else {
      assert !Sleeps(b, env, 0);
    }
  }

  // Main result: any quorum of consecutive attempts after the first contains
  // exactly one sleep, for every number of endpoints, none included.
  lemma OneSleepPerQuorum(b: Backoff, env: nat -> Attempt, n: nat, lo: nat)
    requires Sensible(b) && Steady(env, n) && lo >= 1
    ensures CountSleeps(b, env, lo, lo + (n / 2 + 1)) == 1
  {
    var q := n / 2 + 1;
    SleepsBetween(b, env, n, lo, lo + q);
    AddQuorum(lo - 1, q);
    assert lo + q - 1 == lo - 1 + q;
  }

  // ---------- what a call does ----------

  lemma {:induction false} WaitsAppend(a: seq<Event>, b: seq<Event>)
    ensures Waits(a + b) == Waits(a) + Waits(b)
  {
    if a == [] {
      assert a + b == b;
    } else {
      assert (a + b)[1..] == a[1..] + b && (a + b)[0] == a[0];
      WaitsAppend(a[1..], b);
    }
  }

  lemma {:induction false} WaitsHere(o: Options, i: nat, a: Attempt, rest: seq<Event>)
    ensures var t := WaitTime(o.backoff, i, a.pause);
            Waits(WaitEvents(o, i, a) + [Invoked(a.outcome)] + rest) == (if t > 0.0 then [t] else []) + Waits(rest)
  {
    var waits := WaitEvents(o, i, a);
    var t := WaitTime(o.backoff, i, a.pause);
    assert Waits(waits) == if t > 0.0 then [t] else [] by {
      if waits != [] { assert waits[1..] == []; }
    }
    assert [Invoked(a.outcome)][1..] == [];
    WaitsAppend(waits + [Invoked(a.outcome)], rest);
    WaitsAppend(waits, [Invoked(a.outcome)]);
    assert Waits([Invoked(a.outcome)]) == [] && Waits(waits) + [] == Waits(waits);
  }

  lemma {:induction false} CountFromFront(b: Backoff, env: nat -> Attempt, lo: nat, hi: nat)
    requires lo < hi
    ensures CountSleeps(b, env, lo, hi) == (if Sleeps(b, env, lo) then 1 else 0) + CountSleeps(b, env, lo + 1, hi)
    decreases hi
  {
    hide Sleeps;
    if lo + 1 < hi {
      CountFromFront(b, env, lo, hi - 1);
    } else {
      assert CountSleeps(b, env, lo, lo) == 0;
    }
  }

  ghost predicate Within(ts: seq<real>, b: Backoff) { forall t <- ts :: ShortestWait(b) <= t <= LongestWait(b) }

  lemma {:induction false} WaitsOfRun(o: Options, env: nat -> Attempt, n: nat, i: nat, lastErr: Option<Error>)
    requires Sensible(o.backoff) && Steady(env, n) && i <= o.max
    ensures var trace := Run(o, env, i, lastErr).1;
            && |Waits(trace)| == CountSleeps(o.backoff, env, i, i + |Invocations(trace)|)
            && Within(Waits(trace), o.backoff)
    decreases o.max - i
  {
    hide Licensed, Stopped, WaitEvents, WaitTime, WaitRetryBackoff, IsSafeRetry, CountSleeps, LongestWait, ShortestWait, Sensible, Steady;
    NoSleeps(o.backoff, env, i);
    if i < o.max && !Stopped(o, i, env(i)) {
      var (err, rest) := if Licensed(o, env(i)) then Run(o, env, i + 1, env(i).outcome) else (None, []);
      var trace := Run(o, env, i, lastErr).1;
      assert trace == WaitEvents(o, i, env(i)) + [Invoked(env(i).outcome)] + rest;
      WaitsHere(o, i, env(i), rest);
      InvocationsHere(o, i, env(i), rest);
      if Licensed(o, env(i)) {
        WaitsOfRun(o, env, n, i + 1, env(i).outcome);
      } else {
        NoSleeps(o.backoff, env, i + 1);
      }
      CountFromFront(o.backoff, env, i, i + 1 + |Invocations(rest)|);
      SleepsWhen(o.backoff, env, n, i);
    } else if i < o.max {
      assert [Interrupted][1..] == [];
    }
  }

  lemma {:induction false} NoSleeps(b: Backoff, env: nat -> Attempt, i: nat)
    ensures CountSleeps(b, env, i, i) == 0
  {
  }

  function Times(n: nat, x: real): real { n as real * x }

  lemma OneMore(n: nat, x: real)
    ensures Times(0, x) == 0.0 && Times(n + 1, x) == Times(n, x) + x
  {
    assert (n + 1) as real == n as real + 1.0;
  }

  lemma {:induction false} TotalWithin(ts: seq<real>, low: real, high: real)
    requires forall t <- ts :: low <= t <= high
    ensures Times(|ts|, low) <= Total(ts) <= Times(|ts|, high)
  {
    hide Times;
    OneMore(0, low);
    OneMore(0, high);
    if ts != [] {
      assert forall t <- ts[1..] :: t in ts;
      TotalWithin(ts[1..], low, high);
      OneMore(|ts[1..]|, high);
      OneMore(|ts[1..]|, low);
      assert ts[0] in ts;
    }
  }

  lemma {:induction false} TotalOfWithin(ts: seq<real>, b: Backoff)
    requires Within(ts, b)
    ensures |ts| as real * ShortestWait(b) <= Total(ts) <= |ts| as real * LongestWait(b)
  {
    hide ShortestWait, LongestWait;
    TotalWithin(ts, ShortestWait(b), LongestWait(b));
  }

  // Main result: with n endpoints a call of m attempts sleeps exactly (m - 1) / q
  // times, q = n / 2 + 1, each time between wait * (1 - jitter) and wait * (1 + jitter).
  lemma SleepsOfCall(o: Options, env: nat -> Attempt, n: nat)
    requires Sensible(o.backoff) && Steady(env, n)
    ensures var trace := Call(o, env).1;
            var sleeps := (|Invocations(trace)| - 1) / (n / 2 + 1);
            && |Waits(trace)| == sleeps
            && Within(Waits(trace), o.backoff)
            && sleeps as real * ShortestWait(o.backoff) <= Total(Waits(trace)) <= sleeps as real * LongestWait(o.backoff)
  {
    hide *;
    NoSleepWithoutRetry(o, env, n);
    SomeAttempt(o, env);
    if o.max > 0 {
      SleepsOfLoop(o, env, n);
    }
  }

  lemma {:induction false} SomeAttempt(o: Options, env: nat -> Attempt)
    ensures Invocations(Call(o, env).1) != [] && (o.max > 0 ==> Call(o, env) == Run(o, env, 0, None))
  {
    BoundedAndLicensed(o, env);
  }

  lemma NoSleepWithoutRetry(o: Options, env: nat -> Attempt, n: nat)
    ensures var trace := Call(o, env).1;
            o.max == 0 ==> Waits(trace) == [] && Within([], o.backoff) && (|Invocations(trace)| - 1) / (n / 2 + 1) == 0 && Total(Waits(trace)) == 0.0
  {
    if o.max == 0 {
      assert [Invoked(env(0).outcome)][1..] == [];
      DivIs(0, n / 2 + 1, 0, 0);
    }
  }

  lemma {:induction false} SleepsOfLoop(o: Options, env: nat -> Attempt, n: nat)
    requires Sensible(o.backoff) && Steady(env, n) && o.max > 0
    requires Invocations(Run(o, env, 0, None).1) != []
    ensures var trace := Run(o, env, 0, None).1;
            var sleeps := (|Invocations(trace)| - 1) / (n / 2 + 1);
            && |Waits(trace)| == sleeps
            && Within(Waits(trace), o.backoff)
            && sleeps as real * ShortestWait(o.backoff) <= Total(Waits(trace)) <= sleeps as real * LongestWait(o.backoff)
  {
    hide Run, LongestWait, ShortestWait, Sensible, Steady, Sleeps, Within, Total, Invocations, Waits, CountSleeps;
    DivIs(0, n / 2 + 1, 0, 0);
    var trace := Run(o, env, 0, None).1;
    var m := |Invocations(trace)|;
    WaitsOfRun(o, env, n, 0, None);
    FirstNeverSleeps(o.backoff, env, m);
    SleepsBetween(o.backoff, env, n, 1, m);
    TotalOfWithin(Waits(trace), o.backoff);
  }

  // ---------- the client's own backoff ----------

  // Main result: a call of the client waits before every (n / 2 + 1)-th attempt after
  // the first, n the number of endpoints then, for 22.5 to 27.5 milliseconds, and
  // before no other.
  lemma WaitOfClient(rpc: Rpc, opts: seq<CallOption>, attempt: nat, p: Pause)
    requires forall o <- opts :: o.GrpcOption?
    requires 0.0 <= p.rand < 1.0
    ensures WaitTime(EffectiveOptions(rpc, opts).backoff, attempt, p) ==
            if attempt >= 1 && attempt % (p.endpoints / 2 + 1) == 0 then 0.0225 + 0.005 * p.rand else 0.0
  {
    EffectiveOptionsOf(rpc, opts);
    hide EffectiveOptions;
  }

  lemma SleepsOfClient(rpc: Rpc, opts: seq<CallOption>, env: nat -> Attempt, n: nat)
    requires rpc != IterateRangeCall && forall o <- opts :: o.GrpcOption?
    requires Steady(env, n)
    ensures var trace := Call(EffectiveOptions(rpc, opts), env).1;
            && |Waits(trace)| == (|Invocations(trace)| - 1) / (n / 2 + 1)
            && forall t <- Waits(trace) :: 0.0225 <= t <= 0.0275
  {
    EffectiveOptionsOf(rpc, opts);
    var o := EffectiveOptions(rpc, opts);
    assert ShortestWait(o.backoff) == 0.0225 && LongestWait(o.backoff) == 0.0275;
    SomeAttempt(o, env);
    hide EffectiveOptions, ShortestWait, LongestWait, Call, Waits, Invocations, Steady;
    SleepsOfCall(o, env, n);
  }
}
