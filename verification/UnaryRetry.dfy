// The retrying unary interceptor: a bounded loop around the invoker, over every
// sequence of outcomes.
module UnaryRetry {
  import opened Common
  import opened Retry

  /** What attempt i meets: the wait before it, what the invoker returns (None for
      success), and whether the call context is still live after it. */
  datatype Attempt = Attempt(pause: Pause, outcome: Option<Error>, live: bool)

  datatype Event =
    | Waited(time: real)
    | Interrupted
    | Invoked(outcome: Option<Error>)

  /** Whether the loop goes on after attempt a. */
  predicate Licensed(o: Options, a: Attempt) {
    a.outcome.Some? && if IsContextError(a.outcome.value) then a.live else IsSafeRetry(o.policy, a.outcome.value)
  }

  predicate Stopped(o: Options, i: nat, a: Attempt) { WaitRetryBackoff(o.backoff, i, a.pause).Some? }

  /** The wait before attempt i, if there is one. */
  function WaitEvents(o: Options, i: nat, a: Attempt): seq<Event> {
    var t := WaitTime(o.backoff, i, a.pause);
    if t > 0.0 then [Waited(t)] else []
  }

  /** The loop from attempt i on: the error returned and what happened. */
  function Run(o: Options, env: nat -> Attempt, i: nat, lastErr: Option<Error>): (Option<Error>, seq<Event>)
    decreases o.max - i
  {
    if i >= o.max then (lastErr, [])
    else if Stopped(o, i, env(i)) then (WaitRetryBackoff(o.backoff, i, env(i).pause), [Interrupted])
    else
      var here := WaitEvents(o, i, env(i)) + [Invoked(env(i).outcome)];
      if Licensed(o, env(i)) then
        var (err, rest) := Run(o, env, i + 1, env(i).outcome);
        (err, here + rest)
      else (env(i).outcome, here)
  }

  /** A call; max == 0 means a single invocation outside the loop. */
  function Call(o: Options, env: nat -> Attempt): (Option<Error>, seq<Event>) {
    if o.max == 0 then (env(0).outcome, [Invoked(env(0).outcome)]) else Run(o, env, 0, None)
  }

  method UnaryCall(o: Options, env: nat -> Attempt) returns (err: Option<Error>, trace: seq<Event>)
    ensures err == Call(o, env).0
    ensures trace == Call(o, env).1
  {
    trace := [];
    if o.max == 0 {
      err := env(0).outcome;
      trace := [Invoked(err)];
      return;
    }
    var lastErr: Option<Error> := None;
    var attempt := 0;
    assert [] + Run(o, env, 0, None).1 == Run(o, env, 0, None).1;
    while attempt < o.max
      invariant 0 <= attempt <= o.max
      invariant Call(o, env) == (Run(o, env, attempt, lastErr).0, trace + Run(o, env, attempt, lastErr).1)
    {
      ghost var done := trace;
      var a := env(attempt);
      var stop := WaitRetryBackoff(o.backoff, attempt, a.pause);
      if stop.Some? {
        return stop, trace + [Interrupted];
      }
      lastErr := a.outcome;
      trace := trace + (WaitEvents(o, attempt, a) + [Invoked(lastErr)]);
      if lastErr.None? {
        return None, trace;
      }
      if IsContextError(lastErr.value) {
        if !a.live {
          return lastErr, trace;
        }
      } else if !IsSafeRetry(o.policy, lastErr.value) {
        return lastErr, trace;
      }
      assert done + ((WaitEvents(o, attempt, a) + [Invoked(lastErr)]) + Run(o, env, attempt + 1, lastErr).1)
          == trace + Run(o, env, attempt + 1, lastErr).1;
      attempt := attempt + 1;
    }
    assert trace + [] == trace;
    return lastErr, trace;
  }

  // ---------- reading a trace ----------

  /** The outcomes of the invocations, in order. */
  function Invocations(es: seq<Event>): seq<Option<Error>> {
    if es == [] then [] else (if es[0].Invoked? then [es[0].outcome] else []) + Invocations(es[1..])
  }

  lemma {:induction false} InvocationsAppend(a: seq<Event>, b: seq<Event>)
    ensures Invocations(a + b) == Invocations(a) + Invocations(b)
  {
    if a == [] {
      assert a + b == b;
    } else {
      assert (a + b)[1..] == a[1..] + b && (a + b)[0] == a[0];
      InvocationsAppend(a[1..], b);
    }
  }

  lemma {:induction false} InvocationsHere(o: Options, i: nat, a: Attempt, rest: seq<Event>)
    ensures Invocations(WaitEvents(o, i, a) + [Invoked(a.outcome)] + rest) == [a.outcome] + Invocations(rest)
  {
    var waits := WaitEvents(o, i, a);
    assert Invocations(waits) == [] by {
      if waits != [] { assert waits[1..] == []; }
    }
    assert [Invoked(a.outcome)][1..] == [];
    InvocationsAppend(waits + [Invoked(a.outcome)], rest);
    InvocationsAppend(waits, [Invoked(a.outcome)]);
  }

  /** How a run from attempt i on must look: the attempts made are i, ..., end - 1;
      each but the last licenses the next; and it ends where it has to. */
  ghost predicate Shape(o: Options, env: nat -> Attempt, i: nat, lastErr: Option<Error>, err: Option<Error>, inv: seq<Option<Error>>) {
    var end := i + |inv|;
    && end <= o.max
    && (forall n :: i <= n < end ==> inv[n - i] == env(n).outcome && !Stopped(o, n, env(n)))
    && (forall n :: i <= n < end - 1 ==> Licensed(o, env(n)))
    && (if end > i && !Licensed(o, env(end - 1)) then err == env(end - 1).outcome
        else if end == o.max then err == (if end > i then env(end - 1).outcome else lastErr)
        else Stopped(o, end, env(end)) && err == WaitRetryBackoff(o.backoff, end, env(end).pause))
  }

  lemma ShapeStep(o: Options, env: nat -> Attempt, i: nat, lastErr: Option<Error>, err: Option<Error>, rest: seq<Option<Error>>)
    requires i < o.max && Licensed(o, env(i)) && !Stopped(o, i, env(i))
    requires Shape(o, env, i + 1, env(i).outcome, err, rest)
    ensures Shape(o, env, i, lastErr, err, [env(i).outcome] + rest)
  {
    hide Licensed, Stopped, WaitRetryBackoff;
    var inv := [env(i).outcome] + rest;
    assert inv[1..] == rest;
    forall n | i <= n < i + |inv| ensures inv[n - i] == env(n).outcome && !Stopped(o, n, env(n)) {
      if n > i { assert inv[n - i] == rest[n - (i + 1)]; }
    }
  }

  lemma ShapeEnd(o: Options, env: nat -> Attempt, i: nat, lastErr: Option<Error>)
    requires i <= o.max
    ensures i == o.max ==> Shape(o, env, i, lastErr, lastErr, [])
    ensures i < o.max && Stopped(o, i, env(i)) ==> Shape(o, env, i, lastErr, WaitRetryBackoff(o.backoff, i, env(i).pause), [])
    ensures i < o.max && !Stopped(o, i, env(i)) && !Licensed(o, env(i)) ==> Shape(o, env, i, lastErr, env(i).outcome, [env(i).outcome])
  {
    hide Licensed, Stopped, WaitRetryBackoff;
  }

  lemma {:induction false} RunShape(o: Options, env: nat -> Attempt, i: nat, lastErr: Option<Error>)
    requires i <= o.max
    ensures Shape(o, env, i, lastErr, Run(o, env, i, lastErr).0, Invocations(Run(o, env, i, lastErr).1))
    decreases o.max - i
  {
    ShapeEnd(o, env, i, lastErr);
    hide Licensed, Stopped, WaitRetryBackoff, WaitEvents, Shape;
    if i < o.max && !Stopped(o, i, env(i)) {
      var here := WaitEvents(o, i, env(i)) + [Invoked(env(i).outcome)];
      if Licensed(o, env(i)) {
        var (err, rest) := Run(o, env, i + 1, env(i).outcome);
        RunShape(o, env, i + 1, env(i).outcome);
        InvocationsHere(o, i, env(i), rest);
        ShapeStep(o, env, i, lastErr, err, Invocations(rest));
      } else {
        InvocationsHere(o, i, env(i), []);
        assert here + [] == here && [env(i).outcome] + [] == [env(i).outcome];
      }
    } else if i < o.max {
      assert [Interrupted][1..] == [];
    }
  }

  // Main result: a call makes between 1 and max attempts (one if max is 0); each
  // failed attempt but the last licenses the next; the call ends at the first
  // attempt that does not, at the bound, or when its context ends during a wait.
  lemma BoundedAndLicensed(o: Options, env: nat -> Attempt)
    ensures var (err, trace) := Call(o, env);
            var inv := Invocations(trace);
            var k := |inv|;
            && 1 <= k <= (if o.max == 0 then 1 else o.max)
            && (forall j :: 0 <= j < k ==> inv[j] == env(j).outcome)
            && (forall j :: 0 <= j < k - 1 ==> Licensed(o, env(j)))
            && (if o.max == 0 || k == o.max || !Licensed(o, env(k - 1)) then err == inv[k - 1]
                else Stopped(o, k, env(k)) && err == WaitRetryBackoff(o.backoff, k, env(k).pause))
  {
    hide Licensed;
    if o.max == 0 {
      assert [Invoked(env(0).outcome)][1..] == [];
    } else {
      RunShape(o, env, 0, None);
      assert !Stopped(o, 0, env(0));
      hide Stopped, WaitRetryBackoff, Run;
      var (err, trace) := Call(o, env);
      assert Shape(o, env, 0, None, err, Invocations(trace));
    }
  }

  /** Attempt i + 1 is made: every attempt up to i licenses the next, and no wait
      up to it ends the call. */
  ghost predicate GoesOnAfter(o: Options, env: nat -> Attempt, i: nat) {
    && i + 1 < o.max
    && (forall j: nat :: j <= i ==> Licensed(o, env(j)))
    && (forall j: nat :: j <= i + 1 ==> !Stopped(o, j, env(j)))
  }

  lemma GoesOnWhen(o: Options, env: nat -> Attempt, i: nat)
    ensures i < |Invocations(Call(o, env).1)| - 1 <==> GoesOnAfter(o, env, i)
  {
    hide Licensed, Stopped;
    BoundedAndLicensed(o, env);
    NoEarlierStop(o, env);
    var k := |Invocations(Call(o, env).1)|;
    assert i >= k - 1 ==> !GoesOnAfter(o, env, i);
  }

  lemma NoEarlierStop(o: Options, env: nat -> Attempt)
    ensures o.max > 0 ==> forall j: nat :: j < |Invocations(Call(o, env).1)| ==> !Stopped(o, j, env(j))
  {
    hide Licensed, Stopped;
    if o.max > 0 {
      RunShape(o, env, 0, None);
    }
  }

  // Main result: attempt j is followed by another if and only if the bound and the
  // wait allow it and its error is one of those listed in Repeats.
  lemma FollowedWhen(o: Options, env: nat -> Attempt, j: nat)
    requires j < |Invocations(Call(o, env).1)|
    ensures j + 1 < |Invocations(Call(o, env).1)| <==>
              && env(j).outcome.Some? && Repeats(o.policy, env(j).outcome.value, env(j).live)
              && j + 1 < o.max && !Interrupts(o.backoff, j + 1, env(j + 1).pause)
  {
    BoundedAndLicensed(o, env);
    LicensedWhen(o, env(j));
    StoppedWhen(o, j + 1, env(j + 1));
    hide Licensed, Stopped, WaitRetryBackoff, Repeats, Interrupts, Call, Invocations;
    NotStopped(o, env, j + 1);
  }

  lemma LicensedWhen(o: Options, a: Attempt)
    ensures Licensed(o, a) <==> a.outcome.Some? && Repeats(o.policy, a.outcome.value, a.live)
  {
    if a.outcome.Some? { RepeatsWhen(o.policy, a.outcome.value, a.live); }
  }

  lemma StoppedWhen(o: Options, i: nat, a: Attempt)
    ensures Stopped(o, i, a) <==> Interrupts(o.backoff, i, a.pause)
    ensures Stopped(o, i, a) ==> Reports(WaitRetryBackoff(o.backoff, i, a.pause).value, a.pause.done.value)
  {
    InterruptedWait(o.backoff, i, a.pause);
  }

  lemma NotStopped(o: Options, env: nat -> Attempt, j: nat)
    ensures o.max > 0 && j < |Invocations(Call(o, env).1)| ==> !Stopped(o, j, env(j))
  {
    NoEarlierStop(o, env);
  }

  // Main result: a call returns the outcome of its last attempt, or the status of
  // the context that ended the wait after it.
  lemma ErrorOfCall(o: Options, env: nat -> Attempt)
    ensures var (err, trace) := Call(o, env);
            var k := |Invocations(trace)|;
            k >= 1 &&
            if k < o.max && env(k - 1).outcome.Some? && Repeats(o.policy, env(k - 1).outcome.value, env(k - 1).live)
            then Interrupts(o.backoff, k, env(k).pause) && err.Some? && Reports(err.value, env(k).pause.done.value)
            else err == env(k - 1).outcome
  {
    BoundedAndLicensed(o, env);
    var k := |Invocations(Call(o, env).1)|;
    LicensedWhen(o, env(k - 1));
    StoppedWhen(o, k, env(k));
    hide Licensed, Repeats, Interrupts, Reports, Call, Invocations;
  }

  /** The waits and invocations of the attempts from lo up to, but not including, hi. */
  function Made(o: Options, env: nat -> Attempt, lo: nat, hi: nat): seq<Event>
    decreases hi - lo
  {
    if lo >= hi then []
    else
      var t := WaitTime(o.backoff, lo, env(lo).pause);
      (if t > 0.0 then [Waited(t), Invoked(env(lo).outcome)] else [Invoked(env(lo).outcome)]) + Made(o, env, lo + 1, hi)
  }

  // Main result: the events of a call are those of its attempts in order, each wait
  // before its invocation, and an interrupted wait only at the end.
  lemma {:induction false} EventsOfCall(o: Options, env: nat -> Attempt)
    requires o.max > 0
    ensures var trace := Call(o, env).1;
            var k := |Invocations(trace)|;
            k >= 1 && trace == Made(o, env, 0, k) +
              if k < o.max && env(k - 1).outcome.Some? && Repeats(o.policy, env(k - 1).outcome.value, env(k - 1).live) then [Interrupted] else []
  {
    BoundedAndLicensed(o, env);
    var k := |Invocations(Call(o, env).1)|;
    LicensedWhen(o, env(k - 1));
    EventsOfRun(o, env, 0, None);
    assert Ending(o, env, 0, k) == if k < o.max && Licensed(o, env(k - 1)) then [Interrupted] else [];
    hide Licensed, Repeats, Run, Invocations, Made, Ending;
  }

  /** The last event of a run that made the attempts up to end. */
  function Ending(o: Options, env: nat -> Attempt, i: nat, end: nat): seq<Event> {
    if end < o.max && (end <= i || Licensed(o, env(end - 1))) then [Interrupted] else []
  }

  lemma {:induction false} EventsOfRun(o: Options, env: nat -> Attempt, i: nat, lastErr: Option<Error>)
    requires i <= o.max
    ensures var trace := Run(o, env, i, lastErr).1;
            var end := i + |Invocations(trace)|;
            trace == Made(o, env, i, end) + Ending(o, env, i, end)
    decreases o.max - i
  {
    hide Licensed, Stopped, WaitRetryBackoff, WaitEvents, Made, Ending;
    if i < o.max && !Stopped(o, i, env(i)) {
      var rest := if Licensed(o, env(i)) then Run(o, env, i + 1, env(i).outcome).1 else [];
      var here := WaitEvents(o, i, env(i)) + [Invoked(env(i).outcome)];
      assert Run(o, env, i, lastErr).1 == here + rest;
      InvocationsHere(o, i, env(i), rest);
      if Licensed(o, env(i)) {
        EventsOfRun(o, env, i + 1, env(i).outcome);
      }
      EventsHere(o, env, i, rest);
    } else if i < o.max {
      assert [Interrupted][1..] == [];
      NothingMade(o, env, i);
    } else {
      NothingMade(o, env, i);
    }
  }

  lemma {:induction false} NothingMade(o: Options, env: nat -> Attempt, i: nat)
    requires i <= o.max
    ensures Made(o, env, i, i) == [] && Ending(o, env, i, i) == if i < o.max then [Interrupted] else []
  {
  }

  lemma {:induction false} EventsHere(o: Options, env: nat -> Attempt, i: nat, rest: seq<Event>)
    requires i < o.max
    requires var end := i + 1 + |Invocations(rest)|;
             if Licensed(o, env(i)) then rest == Made(o, env, i + 1, end) + Ending(o, env, i + 1, end) else rest == []
    ensures var end := i + 1 + |Invocations(rest)|;
            WaitEvents(o, i, env(i)) + [Invoked(env(i).outcome)] + rest == Made(o, env, i, end) + Ending(o, env, i, end)
  {
    hide Licensed, WaitEvents;
    var end := i + 1 + |Invocations(rest)|;
    var here := WaitEvents(o, i, env(i)) + [Invoked(env(i).outcome)];
    MadeHere(o, env, i, end);
    var made, ending := Made(o, env, i + 1, end), Ending(o, env, i, end);
    if Licensed(o, env(i)) {
      assert Ending(o, env, i + 1, end) == ending;
      hide *;
      assert here + (made + ending) == here + made + ending;
    } else {
      assert end == i + 1 && made == [] && ending == [];
      hide *;
      assert here + [] == here + [] + [];
    }
  }

  lemma MadeHere(o: Options, env: nat -> Attempt, lo: nat, hi: nat)
    requires lo < hi
    ensures Made(o, env, lo, hi) == WaitEvents(o, lo, env(lo)) + [Invoked(env(lo).outcome)] + Made(o, env, lo + 1, hi)
  {
  }

  /** What a write may be repeated after: the client found nowhere to send it. */
  predicate NoEndpoint(e: Option<Error>) {
    e.Some? && (e.value.Plain? || e.value.code == Unavailable) &&
    (e.value.message == "there is no address available" || e.value.message == "there is no connection available")
  }

  // Main result: of a call that must not be repeated, every attempt but the last
  // found no endpoint, if and only if the call never goes on after an attempt
  // that is context-coded. (Those are licensed by a live call context, whatever
  // the policy.)
  lemma NonRepeatableSendsOnceWhen(o: Options, env: nat -> Attempt)
    requires o.policy == NonRepeatable
    ensures var inv := Invocations(Call(o, env).1);
            (forall j :: 0 <= j < |inv| - 1 ==> NoEndpoint(inv[j])) <==>
            !exists i: nat :: GoesOnAfter(o, env, i) && IsContextError(env(i).outcome.value)
  {
    BoundedAndLicensed(o, env);
    var inv := Invocations(Call(o, env).1);
    forall j: nat ensures j < |inv| - 1 <==> GoesOnAfter(o, env, j) { GoesOnWhen(o, env, j); }
    forall j: nat | j < |inv| - 1 ensures NoEndpoint(inv[j]) <==> !IsContextError(env(j).outcome.value) {
      assert Licensed(o, env(j)) && inv[j] == env(j).outcome;
    }
    hide Licensed, Stopped, NoEndpoint, IsContextError, IsSafeRetry;
    if i: nat :| GoesOnAfter(o, env, i) && IsContextError(env(i).outcome.value) {
      assert !NoEndpoint(inv[i]);
    }
  }

  // So without such an attempt a write is invoked again only after attempts that
  // found no endpoint.
  lemma WritesAtMostOnceWhenNoDeadline(o: Options, env: nat -> Attempt)
    requires o.policy == NonRepeatable
    requires forall i :: env(i).outcome.Some? && IsContextError(env(i).outcome.value) ==> !env(i).live
    ensures var inv := Invocations(Call(o, env).1);
            forall j :: 0 <= j < |inv| - 1 ==> NoEndpoint(inv[j])
  {
    BoundedAndLicensed(o, env);
    var inv := Invocations(Call(o, env).1);
    forall j | 0 <= j < |inv| - 1 ensures NoEndpoint(inv[j]) {
      assert Licensed(o, env(j)) && inv[j] == env(j).outcome;
    }
  }

  // A Put whose first attempt ends in the server's DeadlineExceeded is sent again.
  lemma DeadlineIsRetried(opts: seq<CallOption>)
    requires forall o <- opts :: o.GrpcOption?
    ensures var env := (i: nat) => Attempt(Pause(3, 0.5, None), if i == 0 then Some(Status(DeadlineExceeded, "timeout")) else None, true);
            Invocations(Call(EffectiveOptions(PutCall, opts), env).1) == [Some(Status(DeadlineExceeded, "timeout")), None]
  {
    EffectiveOptionsOf(PutCall, opts);
    var o := EffectiveOptions(PutCall, opts);
    var env := (i: nat) => Attempt(Pause(3, 0.5, None), if i == 0 then Some(Status(DeadlineExceeded, "timeout")) else None, true);
    BoundedAndLicensed(o, env);
    var inv := Invocations(Call(o, env).1);
    assert !Licensed(o, env(1)) && !Stopped(o, 1, env(1)) && Licensed(o, env(0));
    assert |inv| == 2;
    assert inv == [inv[0], inv[1]];
  }

  // Main result: every call of the client that does not stream makes at most ten
  // attempts.
  lemma ClientCallsAreBounded(rpc: Rpc, opts: seq<CallOption>, env: nat -> Attempt)
    requires rpc != IterateRangeCall && forall o <- opts :: o.GrpcOption?
    ensures |Invocations(Call(EffectiveOptions(rpc, opts), env).1)| <= 10
  {
    EffectiveOptionsOf(rpc, opts);
    BoundedAndLicensed(EffectiveOptions(rpc, opts), env);
  }

  /** The server's own deadline or cancellation: the call's context is still live. */
  predicate ServerGaveUp(a: Attempt) {
    a.outcome.Some? && a.outcome.value.Status? && a.outcome.value.code in {DeadlineExceeded, Canceled} && a.live
  }

  // Main result: when a Get goes on, and when a Put, a Delete or a Txn does.
  lemma ReadGoesOnWhen(opts: seq<CallOption>, env: nat -> Attempt, j: nat)
    requires forall o <- opts :: o.GrpcOption?
    requires j < |Invocations(Call(EffectiveOptions(RangeCall, opts), env).1)|
    ensures var o := EffectiveOptions(RangeCall, opts); var a := env(j);
            j + 1 < |Invocations(Call(o, env).1)| <==>
              && (ServerGaveUp(a) || (a.outcome.Some? && a.outcome.value.Status? && a.outcome.value.code == Unavailable))
              && j + 1 < 10 && !Interrupts(o.backoff, j + 1, env(j + 1).pause)
  {
    EffectiveOptionsOf(RangeCall, opts);
    hide EffectiveOptions, Call, Invocations, Interrupts;
    FollowedWhen(EffectiveOptions(RangeCall, opts), env, j);
  }

  lemma WriteGoesOnWhen(rpc: Rpc, opts: seq<CallOption>, env: nat -> Attempt, j: nat)
    requires rpc in {PutCall, DeleteRangeCall, TxnCall} && forall o <- opts :: o.GrpcOption?
    requires j < |Invocations(Call(EffectiveOptions(rpc, opts), env).1)|
    ensures var o := EffectiveOptions(rpc, opts);
            j + 1 < |Invocations(Call(o, env).1)| <==>
              && (ServerGaveUp(env(j)) || NoEndpoint(env(j).outcome))
              && j + 1 < 10 && !Interrupts(o.backoff, j + 1, env(j + 1).pause)
  {
    EffectiveOptionsOf(rpc, opts);
    hide EffectiveOptions, Call, Invocations, Interrupts;
    FollowedWhen(EffectiveOptions(rpc, opts), env, j);
  }
}
