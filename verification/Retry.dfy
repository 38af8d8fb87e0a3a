// What the retry interceptors share: errors and their codes, the retry policies,
// call options, and the wait between attempts.
module Retry {
  import opened Common

  // ---------- errors ----------

  datatype Code = Canceled | DeadlineExceeded | Unavailable | UnknownCode | OtherCode(number: nat)

  /** A gRPC status error, or an error of any other type. */
  datatype Error = Status(code: Code, message: string) | Plain(message: string)

  /** status.Code: Unknown for an error that is no status. */
  function CodeOf(e: Error): Code { if e.Status? then e.code else UnknownCode }

  predicate IsContextError(e: Error) { CodeOf(e) == DeadlineExceeded || CodeOf(e) == Canceled }

  /** ctx.Err() of a context that is done. */
  datatype CtxErr = CtxDeadlineExceeded | CtxCanceled | CtxOther(message: string)

  function ContextErrToGrpcErr(e: CtxErr): Error {
    match e
    case CtxDeadlineExceeded => Status(DeadlineExceeded, "context deadline exceeded")
    case CtxCanceled => Status(Canceled, "context canceled")
    case CtxOther(m) => Status(UnknownCode, m)
  }

  // ---------- retry policies ----------

  datatype Policy = Repeatable | NonRepeatable | Unrecognized

  const NO_ADDRESS := "there is no address available"
  const NO_CONNECTION := "there is no connection available"

  predicate IsSafeRetryImmutableRPC(e: Error) { e.Status? && e.code == Unavailable }

  predicate IsSafeRetryMutableRPC(e: Error) {
    !(e.Status? && e.code != Unavailable) && (e.message == NO_ADDRESS || e.message == NO_CONNECTION)
  }

  predicate IsSafeRetry(p: Policy, e: Error) {
    !IsContextError(e) &&
    match p
    case Repeatable => IsSafeRetryImmutableRPC(e)
    case NonRepeatable => IsSafeRetryMutableRPC(e)
    case Unrecognized => false
  }

  // The policies once more, by code and message.

  /** Whether another attempt may follow error e; live tells whether the call
      context was still live when it was returned. */
  predicate Repeats(p: Policy, e: Error, live: bool) {
    match e
    case Status(DeadlineExceeded, _) => live
    case Status(Canceled, _) => live
    case Status(Unavailable, m) =>
      p == Repeatable || (p == NonRepeatable && (m == "there is no address available" || m == "there is no connection available"))
    case Status(UnknownCode, _) => false
    case Status(OtherCode(_), _) => false
    case Plain(m) =>
      p == NonRepeatable && (m == "there is no address available" || m == "there is no connection available")
  }

  lemma RepeatsWhen(p: Policy, e: Error, live: bool)
    ensures (if IsContextError(e) then live else IsSafeRetry(p, e)) <==> Repeats(p, e, live)
  {
  }

  /** e is the status of a context that is done. */
  predicate Reports(e: Error, c: CtxErr) {
    match c
    case CtxDeadlineExceeded => e == Status(DeadlineExceeded, "context deadline exceeded")
    case CtxCanceled => e == Status(Canceled, "context canceled")
    case CtxOther(m) => e == Status(UnknownCode, m)
  }

  // ---------- the wait between attempts ----------

  /** Time in seconds; random numbers are inputs. */
  datatype Backoff =
    | LinearWithJitter(wait: real, jitter: real)
    | RoundRobinQuorum(wait: real, jitter: real)

  /** What the surroundings are like before an attempt: the number of endpoints,
      rand.Float64(), and whether the context ends while the client waits. */
  datatype Pause = Pause(endpoints: nat, rand: real, done: Option<CtxErr>)

  function Scaled(wait: real, jitter: real, x: real): real { wait * (1.0 + jitter * x) }

  function JitterUp(wait: real, jitter: real, rand: real): real { Scaled(wait, jitter, rand * 2.0 - 1.0) }

  function Quorum(n: nat): (q: nat)
    ensures q >= 1
  {
    n / 2 + 1
  }

  function WaitTime(b: Backoff, attempt: nat, p: Pause): real {
    if attempt == 0 then 0.0
    else match b
      case LinearWithJitter(w, j) => JitterUp(w, j, p.rand)
      case RoundRobinQuorum(w, j) => if attempt % Quorum(p.endpoints) == 0 then JitterUp(w, j, p.rand) else 0.0
  }

  /** waitRetryBackoff: an error if the context ends while the timer runs. */
  function WaitRetryBackoff(b: Backoff, attempt: nat, p: Pause): Option<Error> {
    if WaitTime(b, attempt, p) > 0.0 && p.done.Some? then Some(ContextErrToGrpcErr(p.done.value)) else None
  }

  /** The timer is set and the context ends before it fires. */
  predicate Interrupts(b: Backoff, attempt: nat, p: Pause) { WaitTime(b, attempt, p) > 0.0 && p.done.Some? }

  lemma InterruptedWait(b: Backoff, attempt: nat, p: Pause)
    ensures WaitRetryBackoff(b, attempt, p).Some? <==> Interrupts(b, attempt, p)
    ensures Interrupts(b, attempt, p) ==> Reports(WaitRetryBackoff(b, attempt, p).value, p.done.value)
  {
    hide WaitTime;
  }

  // ---------- call options ----------

  datatype Options = Options(policy: Policy, max: nat, backoff: Backoff)

  const DEFAULT_OPTIONS := Options(NonRepeatable, 0, LinearWithJitter(0.05, 0.1))

  datatype RetryOption = WithRepeatable | WithMax(max: nat) | WithBackoff(backoff: Backoff)

  /** A gRPC call option is passed on; its content does not matter here. */
  datatype CallOption = GrpcOption(id: int) | RetryCallOption(option: RetryOption)

  function ApplyOption(o: Options, f: RetryOption): Options {
    match f
    case WithRepeatable => o.(policy := Repeatable)
    case WithMax(m) => o.(max := m)
    case WithBackoff(b) => o.(backoff := b)
  }

  function ReuseOrNewWithCallOptions(o: Options, fs: seq<RetryOption>): Options
    decreases fs
  {
    if fs == [] then o else ReuseOrNewWithCallOptions(ApplyOption(o, fs[0]), fs[1..])
  }

  function GrpcOf(o: CallOption): seq<CallOption> { if o.GrpcOption? then [o] else [] }

  function RetryOf(o: CallOption): seq<RetryOption> { if o.GrpcOption? then [] else [o.option] }

  function GrpcOptions(opts: seq<CallOption>): seq<CallOption> {
    if opts == [] then [] else GrpcOf(opts[0]) + GrpcOptions(opts[1..])
  }

  function RetryOptions(opts: seq<CallOption>): seq<RetryOption> {
    if opts == [] then [] else RetryOf(opts[0]) + RetryOptions(opts[1..])
  }

  lemma FromHere(opts: seq<CallOption>, i: nat)
    requires i < |opts|
    ensures GrpcOptions(opts[i..]) == GrpcOf(opts[i]) + GrpcOptions(opts[i + 1..])
    ensures RetryOptions(opts[i..]) == RetryOf(opts[i]) + RetryOptions(opts[i + 1..])
  {
    assert opts[i..][1..] == opts[i + 1..];
  }

  /** filterCallOptions: an order-preserving partition. */
  method FilterCallOptions(opts: seq<CallOption>) returns (grpcOptions: seq<CallOption>, retryOptions: seq<RetryOption>)
    ensures grpcOptions == GrpcOptions(opts) && retryOptions == RetryOptions(opts)
  {
    grpcOptions, retryOptions := [], [];
    for i := 0 to |opts|
      invariant grpcOptions + GrpcOptions(opts[i..]) == GrpcOptions(opts)
      invariant retryOptions + RetryOptions(opts[i..]) == RetryOptions(opts)
    {
      FromHere(opts, i);
      hide GrpcOptions, RetryOptions;
      ghost var g, r := GrpcOptions(opts[i + 1..]), RetryOptions(opts[i + 1..]);
      assert grpcOptions + (GrpcOf(opts[i]) + g) == grpcOptions + GrpcOf(opts[i]) + g;
      assert retryOptions + (RetryOf(opts[i]) + r) == retryOptions + RetryOf(opts[i]) + r;
      if opts[i].RetryCallOption? {
        retryOptions := retryOptions + [opts[i].option];
        assert grpcOptions + [] == grpcOptions;
      } else {
        grpcOptions := grpcOptions + [opts[i]];
        assert retryOptions + [] == retryOptions;
      }
    }
  }

  lemma {:induction false} OptionsAppend(a: seq<CallOption>, b: seq<CallOption>)
    ensures GrpcOptions(a + b) == GrpcOptions(a) + GrpcOptions(b)
    ensures RetryOptions(a + b) == RetryOptions(a) + RetryOptions(b)
  {
    hide GrpcOf, RetryOf;
    if a == [] {
      assert a + b == b;
    } else {
      assert (a + b)[1..] == a[1..] + b && (a + b)[0] == a[0];
      OptionsAppend(a[1..], b);
    }
  }

  lemma {:induction false} OnlyGrpcOptions(opts: seq<CallOption>)
    requires forall o <- opts :: o.GrpcOption?
    ensures GrpcOptions(opts) == opts && RetryOptions(opts) == []
  {
    if opts != [] {
      OnlyGrpcOptions(opts[1..]);
    }
  }

  // ---------- the options of each call ----------

  datatype Rpc = RangeCall | IterateRangeCall | PutCall | DeleteRangeCall | TxnCall

  const UNARY_MAX_RETRIES := 10
  const ITERATE_RANGE_RETRIES := 5
  const BACKOFF := RoundRobinQuorum(0.025, 0.1)

  /** What retryKVClient adds to the options of a call. */
  function AddedOptions(rpc: Rpc): seq<CallOption> {
    match rpc
    case RangeCall => [RetryCallOption(WithRepeatable)]
    case IterateRangeCall => [RetryCallOption(WithRepeatable), RetryCallOption(WithMax(ITERATE_RANGE_RETRIES))]
    case _ => []
  }

  /** The options dialSetupOpts gives the interceptor of the call. */
  function InterceptorOptions(rpc: Rpc): seq<RetryOption> {
    [WithMax(if rpc == IterateRangeCall then 0 else UNARY_MAX_RETRIES), WithBackoff(BACKOFF)]
  }

  function EffectiveOptions(rpc: Rpc, opts: seq<CallOption>): Options {
    var intOpts := ReuseOrNewWithCallOptions(DEFAULT_OPTIONS, InterceptorOptions(rpc));
    ReuseOrNewWithCallOptions(intOpts, RetryOptions(opts + AddedOptions(rpc)))
  }

  // Main result: with which policy and bound each call of the client is retried;
  // the gRPC options the caller gave reach the invoker in order.
  lemma {:induction false} EffectiveOptionsOf(rpc: Rpc, opts: seq<CallOption>)
    requires forall o <- opts :: o.GrpcOption?
    ensures EffectiveOptions(rpc, opts) == match rpc {
              case RangeCall => Options(Repeatable, 10, RoundRobinQuorum(0.025, 0.1))
              case IterateRangeCall => Options(Repeatable, 5, RoundRobinQuorum(0.025, 0.1))
              case _ => Options(NonRepeatable, 10, RoundRobinQuorum(0.025, 0.1))
            }
    ensures GrpcOptions(opts + AddedOptions(rpc)) == opts
  {
    var intOpts := Options(NonRepeatable, if rpc == IterateRangeCall then 0 else 10, BACKOFF);
    assert ReuseOrNewWithCallOptions(DEFAULT_OPTIONS, InterceptorOptions(rpc)) == intOpts by {
      TwoOptions(DEFAULT_OPTIONS, InterceptorOptions(rpc));
    }
    OptionsAppend(opts, AddedOptions(rpc));
    OnlyGrpcOptions(opts);
    WhatIsAdded(rpc);
    hide GrpcOptions, RetryOptions, AddedOptions, InterceptorOptions;
    assert opts + [] == opts && [] + RetryOptions(AddedOptions(rpc)) == RetryOptions(AddedOptions(rpc));
    if rpc == IterateRangeCall {
      TwoOptions(intOpts, [WithRepeatable, WithMax(5)]);
    } else if rpc == RangeCall {
      OneOption(intOpts, WithRepeatable);
    }
  }

  lemma WhatIsAdded(rpc: Rpc)
    ensures GrpcOptions(AddedOptions(rpc)) == []
    ensures RetryOptions(AddedOptions(rpc)) == match rpc {
              case RangeCall => [WithRepeatable]
              case IterateRangeCall => [WithRepeatable, WithMax(5)]
              case _ => []
            }
  {
    var added := AddedOptions(rpc);
    if rpc == RangeCall {
      assert added[1..] == [];
    } else if rpc == IterateRangeCall {
      assert added[1..] == [added[1]] && [added[1]][1..] == [];
      assert GrpcOptions([added[1]]) == GrpcOf(added[1]) + GrpcOptions([]) == [];
      assert RetryOptions([added[1]]) == RetryOf(added[1]) + RetryOptions([]) == [WithMax(5)];
      assert GrpcOptions(added) == GrpcOf(added[0]) + GrpcOptions([added[1]]) == [];
      assert RetryOptions(added) == RetryOf(added[0]) + RetryOptions([added[1]]) == [WithRepeatable, WithMax(5)];
    }
  }

  lemma {:induction false} OneOption(o: Options, f: RetryOption)
    ensures ReuseOrNewWithCallOptions(o, [f]) == ApplyOption(o, f)
  {
    assert [f][1..] == [];
    assert ReuseOrNewWithCallOptions(o, [f]) == ReuseOrNewWithCallOptions(ApplyOption(o, f), []);
  }

  lemma {:induction false} TwoOptions(o: Options, fs: seq<RetryOption>)
    requires |fs| == 2
    ensures ReuseOrNewWithCallOptions(o, fs) == ApplyOption(ApplyOption(o, fs[0]), fs[1])
  {
    assert fs[1..] == [fs[1]];
    OneOption(ApplyOption(o, fs[0]), fs[1]);
  }
}
