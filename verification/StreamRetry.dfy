// The retrying server stream: a proxy that buffers what the client sends and, as
// long as nothing good has been received, replays it on new streams. The claims
// hold over every run of calls and every behaviour of the underlying streams.
module StreamRetry {
  import opened Common
  import opened Retry

  type Msg = int

  /** What the client side of an underlying stream has been given. */
  datatype Input = Sent(m: Msg) | HalfClosed

  /** What RecvMsg on an underlying stream answers. */
  datatype Recv = Message(m: Msg) | Eof | Failed(err: Error)

  /** The history of an underlying stream. */
  datatype Log = Log(input: seq<Input>, received: seq<Recv>)

  /** How the surroundings behave: for the k-th new stream, the n-th input and the
      n-th receive of stream i, and the k-th wait and look at the call context. */
  datatype Env = Env(
    open: nat -> Option<Error>, accept: (nat, nat) -> Option<Error>, recv: (nat, nat) -> Recv,
    pause: nat -> Pause, live: nat -> bool)

  /** The proxy's fields, and what has happened around it: every stream opened,
      those made current, and the numbers of streamer calls, receives and waits. */
  datatype State = State(
    stream: nat, bufferedSends: seq<Msg>, receivedGood: bool, wasClosedSend: bool,
    streams: seq<Log>, currents: seq<nat>, opens: nat, receives: nat, waits: nat)

  const START := State(0, [], false, false, [Log([], [])], [0], 0, 0, 0)

  predicate Good(r: Recv) { !r.Failed? }

  function IfGood(r: Recv): seq<Recv> { if Good(r) then [r] else [] }

  /** Messages or the end of the stream, in order. */
  function GoodOf(rs: seq<Recv>): seq<Recv> {
    if rs == [] then [] else IfGood(rs[0]) + GoodOf(rs[1..])
  }

  ghost predicate Valid(s: State) { s.stream < |s.streams| }

  // ---------- steps on an underlying stream ----------

  function Give(env: Env, s: State, id: nat, x: Input): (State, Option<Error>)
    requires id < |s.streams|
  {
    var log := s.streams[id];
    (s.(streams := s.streams[id := log.(input := log.input + [x])]), env.accept(id, |log.input|))
  }

  function SendMsg(env: Env, s: State, m: Msg): (State, Option<Error>)
    requires Valid(s)
  {
    Give(env, s.(bufferedSends := s.bufferedSends + [m]), s.stream, Sent(m))
  }

  function CloseSend(env: Env, s: State): (State, Option<Error>)
    requires Valid(s)
  {
    Give(env, s.(wasClosedSend := true), s.stream, HalfClosed)
  }

  /** receiveMsgAndIndicateRetry */
  function ReceiveOnce(env: Env, o: Options, s: State): (State, bool, Recv)
    requires Valid(s)
  {
    var log := s.streams[s.stream];
    var r := env.recv(s.stream, |log.received|);
    var s' := s.(streams := s.streams[s.stream := log.(received := log.received + [r])], receives := s.receives + 1);
    if Good(r) then (s'.(receivedGood := true), false, r)
    else if s.receivedGood then (s', false, r)
    else if IsContextError(r.err) then (s', env.live(s.receives), r)
    else (s', IsSafeRetry(o.policy, r.err), r)
  }

  /** The replay of the buffer on the last stream, which stops at the first error. */
  function Resend(env: Env, s: State, msgs: seq<Msg>): (State, Option<Error>)
    requires s.streams != []
    decreases msgs
  {
    var id := |s.streams| - 1;
    if msgs == [] then Give(env, s, id, HalfClosed)
    else
      var (s', err) := Give(env, s, id, Sent(msgs[0]));
      if err.Some? then (s', err) else Resend(env, s', msgs[1..])
  }

  /** reestablishStreamAndResendBuffer */
  function Reestablish(env: Env, s: State): (State, Option<Error>) {
    var s' := s.(opens := s.opens + 1);
    var err := env.open(s.opens);
    if err.Some? then (s', err) else Resend(env, s'.(streams := s.streams + [Log([], [])]), s.bufferedSends)
  }

  function SetStream(s: State, id: nat): State { s.(stream := id, currents := s.currents + [id]) }

  lemma {:induction false} ResendKeeps(env: Env, s: State, msgs: seq<Msg>)
    requires s.streams != []
    ensures var s' := Resend(env, s, msgs).0;
            && |s'.streams| == |s.streams| && s'.streams[..|s.streams| - 1] == s.streams[..|s.streams| - 1]
            && s' == s.(streams := s'.streams)
            && s'.streams[|s.streams| - 1].received == s.streams[|s.streams| - 1].received
    decreases msgs
  {
    if msgs != [] {
      var (s1, err) := Give(env, s, |s.streams| - 1, Sent(msgs[0]));
      ResendKeeps(env, s1, msgs[1..]);
    }
  }

  lemma ReestablishKeeps(env: Env, s: State)
    ensures var (s', err) := Reestablish(env, s);
            && s' == s.(opens := s.opens + 1, streams := s'.streams)
            && |s.streams| <= |s'.streams| <= |s.streams| + 1 && s'.streams[..|s.streams|] == s.streams
            && (err.None? ==> |s'.streams| == |s.streams| + 1)
            && (|s'.streams| > |s.streams| ==> s'.streams[|s.streams|].received == [])
  {
    if env.open(s.opens).None? {
      var s1 := s.(opens := s.opens + 1, streams := s.streams + [Log([], [])]);
      ResendKeeps(env, s1, s.bufferedSends);
      assert s1.streams[..|s.streams|] == s.streams;
    }
  }

  /** The retries of RecvMsg, from the given attempt on. */
  function RecvLoop(env: Env, o: Options, s: State, attempt: nat, last: Recv): (State, Recv)
    requires Valid(s)
    decreases o.max - attempt
  {
    if attempt >= o.max then (s, last)
    else
      var stop := WaitRetryBackoff(o.backoff, attempt, env.pause(s.waits));
      var s1 := s.(waits := s.waits + 1);
      if stop.Some? then (s1, Failed(stop.value))
      else
        var (s2, err) := Reestablish(env, s1);
        if err.Some? then (s2, Failed(err.value))
        else
          assert Valid(SetStream(s2, |s2.streams| - 1)) by { ReestablishKeeps(env, s1); }
          var (s3, again, r) := ReceiveOnce(env, o, SetStream(s2, |s2.streams| - 1));
          if again then RecvLoop(env, o, s3, attempt + 1, r) else (s3, r)
  }

  function RecvMsg(env: Env, o: Options, s: State): (State, Recv)
    requires Valid(s)
  {
    var (s1, again, r) := ReceiveOnce(env, o, s);
    if again then RecvLoop(env, o, s1, 1, r) else (s1, r)
  }

  // ---------- runs ----------

  datatype Call = SendCall(m: Msg) | CloseCall | RecvCall

  datatype Answer = Done(err: Option<Error>) | Received(r: Recv)

  function Step(env: Env, o: Options, s: State, c: Call): (State, Answer)
    requires Valid(s)
  {
    match c
    case SendCall(m) => var (s', err) := SendMsg(env, s, m); (s', Done(err))
    case CloseCall => var (s', err) := CloseSend(env, s); (s', Done(err))
    case RecvCall => var (s', r) := RecvMsg(env, o, s); (s', Received(r))
  }

  function Run(env: Env, o: Options, s: State, calls: seq<Call>): (r: (State, seq<Answer>))
    requires Valid(s)
    ensures Valid(r.0)
    decreases calls
  {
    if calls == [] then (s, [])
    else
      var (s1, a) := Step(env, o, s, calls[0]);
      assert Valid(s1) by { StepKeepsValid(env, o, s, calls[0]); }
      var (s2, rest) := Run(env, o, s1, calls[1..]);
      (s2, [a] + rest)
  }

  lemma StepKeepsValid(env: Env, o: Options, s: State, c: Call)
    requires Valid(s)
    ensures Valid(Step(env, o, s, c).0)
  {
    if c == RecvCall {
      var (s1, again, r) := ReceiveOnce(env, o, s);
      if again { LoopKeepsValid(env, o, s1, 1, r); }
    }
  }

  lemma {:induction false} LoopKeepsValid(env: Env, o: Options, s: State, attempt: nat, last: Recv)
    requires Valid(s)
    ensures Valid(RecvLoop(env, o, s, attempt, last).0)
    decreases o.max - attempt
  {
    hide WaitRetryBackoff, Reestablish, IsSafeRetry;
    var s1 := s.(waits := s.waits + 1);
    ReestablishKeeps(env, s1);
    if attempt < o.max && WaitRetryBackoff(o.backoff, attempt, env.pause(s.waits)).None? && Reestablish(env, s1).1.None? {
      var s2 := Reestablish(env, s1).0;
      var (s3, again, r) := ReceiveOnce(env, o, SetStream(s2, |s2.streams| - 1));
      if again { LoopKeepsValid(env, o, s3, attempt + 1, r); }
    }
  }

  // ---------- single-source delivery ----------

  /** The good answers of the RecvMsg calls, in order. */
  function Delivered(answers: seq<Answer>): seq<Recv> {
    if answers == [] then []
    else (if answers[0].Received? && Good(answers[0].r) then [answers[0].r] else []) + Delivered(answers[1..])
  }

  /** What each stream has answered is what it had to answer, from the start on. */
  ghost predicate Faithful(env: Env, streams: seq<Log>) {
    forall i, j :: 0 <= i < |streams| && 0 <= j < |streams[i].received| ==> streams[i].received[j] == env.recv(i, j)
  }

  /** Everything delivered came from stream id. */
  ghost predicate Source(env: Env, streams: seq<Log>, id: nat, delivered: seq<Recv>) {
    && id < |streams| && Faithful(env, streams)
    && GoodOf(streams[id].received) == delivered
    && (forall i :: 0 <= i < |streams| && i != id ==> GoodOf(streams[i].received) == [])
  }

  ghost predicate SingleSource(env: Env, s: State, delivered: seq<Recv>) {
    Source(env, s.streams, s.stream, delivered) && (s.receivedGood <==> delivered != [])
  }

  lemma {:induction false} GoodAppend(rs: seq<Recv>, r: Recv)
    ensures GoodOf(rs + [r]) == GoodOf(rs) + IfGood(r)
  {
    hide IfGood;
    if rs == [] {
      assert [] + [r] == [r] && [r][1..] == [];
      assert GoodOf([r]) == IfGood(r) + [] == [] + IfGood(r);
    } else {
      assert (rs + [r])[1..] == rs[1..] + [r] && (rs + [r])[0] == rs[0];
      GoodAppend(rs[1..], r);
    }
  }

  function Also(d: seq<Recv>, r: Recv): seq<Recv> { if Good(r) then d + [r] else d }

  lemma ReceivedFrom(env: Env, streams: seq<Log>, id: nat, d: seq<Recv>)
    requires Source(env, streams, id, d)
    ensures var log := streams[id]; var r := env.recv(id, |log.received|);
            Source(env, streams[id := log.(received := log.received + [r])], id, Also(d, r))
  {
    var log := streams[id];
    GoodAppend(log.received, env.recv(id, |log.received|));
    assert GoodOf(log.received) + [] == GoodOf(log.received);
  }

  lemma ReceiveOnceDelivers(env: Env, o: Options, s: State, d: seq<Recv>)
    requires SingleSource(env, s, d)
    ensures var (s', again, r) := ReceiveOnce(env, o, s);
            SingleSource(env, s', Also(d, r)) && (again ==> !s'.receivedGood && !Good(r))
  {
    ReceivedFrom(env, s.streams, s.stream, d);
    hide IsSafeRetry, IsContextError, Source;
  }

  lemma GiveDelivers(env: Env, s: State, id: nat, x: Input, d: seq<Recv>)
    requires id < |s.streams| && SingleSource(env, s, d)
    ensures SingleSource(env, Give(env, s, id, x).0, d)
  {
  }

  // A new stream made current in place of one that has given nothing good.
  lemma SwitchDelivers(env: Env, s: State)
    requires SingleSource(env, s, [])
    ensures var (s', err) := Reestablish(env, s);
            SingleSource(env, s', []) && (err.None? ==> SingleSource(env, SetStream(s', |s'.streams| - 1), []))
  {
    ReestablishKeeps(env, s);
    hide Reestablish;
    var s' := Reestablish(env, s).0;
    assert forall i :: 0 <= i < |s.streams| ==> s'.streams[i] == s'.streams[..|s.streams|][i];
  }

  lemma {:induction false} LoopDelivers(env: Env, o: Options, s: State, attempt: nat, last: Recv)
    requires SingleSource(env, s, []) && !Good(last)
    ensures var (s', r) := RecvLoop(env, o, s, attempt, last); SingleSource(env, s', Also([], r))
    decreases o.max - attempt
  {
    hide WaitRetryBackoff, Reestablish, ReceiveOnce;
    var s1 := s.(waits := s.waits + 1);
    SwitchDelivers(env, s1);
    hide SingleSource;
    if attempt < o.max && WaitRetryBackoff(o.backoff, attempt, env.pause(s.waits)).None? && Reestablish(env, s1).1.None? {
      var s2 := SetStream(Reestablish(env, s1).0, |Reestablish(env, s1).0.streams| - 1);
      ReceiveOnceDelivers(env, o, s2, []);
      var (s3, again, r) := ReceiveOnce(env, o, s2);
      if again { LoopDelivers(env, o, s3, attempt + 1, r); }
    }
  }

  lemma StepDelivers(env: Env, o: Options, s: State, c: Call, d: seq<Recv>)
    requires SingleSource(env, s, d)
    ensures var (s', a) := Step(env, o, s, c); SingleSource(env, s', if a.Received? then Also(d, a.r) else d)
  {
    match c {
      case SendCall(m) => GiveDelivers(env, s.(bufferedSends := s.bufferedSends + [m]), s.stream, Sent(m), d);
      case CloseCall => GiveDelivers(env, s.(wasClosedSend := true), s.stream, HalfClosed, d);
      case RecvCall =>
        ReceiveOnceDelivers(env, o, s, d);
        var (s1, again, r) := ReceiveOnce(env, o, s);
        if again { LoopDelivers(env, o, s1, 1, r); }
    }
  }

  lemma {:induction false} DeliveredNext(d: seq<Recv>, a: Answer, rest: seq<Answer>)
    ensures d + Delivered([a] + rest) == (if a.Received? then Also(d, a.r) else d) + Delivered(rest)
  {
    assert ([a] + rest)[1..] == rest;
    if a.Received? && Good(a.r) {
      assert d + ([a.r] + Delivered(rest)) == d + [a.r] + Delivered(rest);
    } else {
      assert [] + Delivered(rest) == Delivered(rest);
    }
  }

  lemma {:induction false} RunDelivers(env: Env, o: Options, s: State, calls: seq<Call>, d: seq<Recv>)
    requires SingleSource(env, s, d)
    ensures var (s', answers) := Run(env, o, s, calls); SingleSource(env, s', d + Delivered(answers))
    decreases calls
  {
    assert Valid(s);
    hide Step, SingleSource, Delivered, Also;
    if calls == [] {
      assert Delivered([]) == [] && d + [] == d;
    } else {
      var (s1, a) := Step(env, o, s, calls[0]);
      StepDelivers(env, o, s, calls[0], d);
      var d1 := if a.Received? then Also(d, a.r) else d;
      StepKeepsValid(env, o, s, calls[0]);
      RunDelivers(env, o, s1, calls[1..], d1);
      var rest := Run(env, o, s1, calls[1..]).1;
      DeliveredNext(d, a, rest);
    }
  }

  // Main result: over every run, the messages (and the end) that RecvMsg returns
  // are those of one underlying stream, in its order, none skipped or repeated.
  lemma {:induction false} SingleSourceDelivery(env: Env, o: Options, calls: seq<Call>)
    ensures var (s, answers) := Run(env, o, START, calls);
            && Delivered(answers) == GoodOf(s.streams[s.stream].received)
            && Faithful(env, s.streams)
            && forall i :: 0 <= i < |s.streams| && i != s.stream ==> GoodOf(s.streams[i].received) == []
  {
    RunDelivers(env, o, START, calls, []);
    var (s, answers) := Run(env, o, START, calls);
    assert [] + Delivered(answers) == Delivered(answers);
  }

  // Main result: once a receive has returned a message or the end, no new stream
  // is opened and the current one stays current.
  lemma {:induction false} NoNewStreamAfterGood(env: Env, o: Options, s: State, calls: seq<Call>)
    requires Valid(s) && s.receivedGood
    ensures var s' := Run(env, o, s, calls).0;
            && s'.receivedGood && s'.opens == s.opens && |s'.streams| == |s.streams|
            && s'.stream == s.stream && s'.currents == s.currents
    decreases calls
  {
    if calls != [] {
      var s1 := Step(env, o, s, calls[0]).0;
      StepKeepsValid(env, o, s, calls[0]);
      assert s1.receivedGood && s1.opens == s.opens && |s1.streams| == |s.streams| && s1.stream == s.stream && s1.currents == s.currents;
      NoNewStreamAfterGood(env, o, s1, calls[1..]);
    }
  }

  // ---------- bounds ----------

  lemma {:induction false} LoopBound(env: Env, o: Options, s: State, attempt: nat, last: Recv)
    requires Valid(s) && attempt <= o.max
    ensures var s' := RecvLoop(env, o, s, attempt, last).0;
            && s.receives <= s'.receives <= s.receives + (o.max - attempt)
            && s.opens <= s'.opens <= s.opens + (o.max - attempt)
    decreases o.max - attempt
  {
    hide WaitRetryBackoff, Reestablish, IsSafeRetry, IsContextError;
    var s1 := s.(waits := s.waits + 1);
    ReestablishKeeps(env, s1);
    if attempt < o.max && WaitRetryBackoff(o.backoff, attempt, env.pause(s.waits)).None? && Reestablish(env, s1).1.None? {
      var s2 := Reestablish(env, s1).0;
      var (s3, again, r) := ReceiveOnce(env, o, SetStream(s2, |s2.streams| - 1));
      if again { LoopBound(env, o, s3, attempt + 1, r); }
    }
  }

  // Main result: a RecvMsg receives at most max times (once if max is 0 or 1) and
  // tries to re-establish the stream at most max - 1 times.
  lemma RecvIsBounded(env: Env, o: Options, s: State)
    requires Valid(s)
    ensures var s' := RecvMsg(env, o, s).0;
            && s.receives + 1 <= s'.receives <= s.receives + (if o.max == 0 then 1 else o.max)
            && s.opens <= s'.opens <= s.opens + (if o.max == 0 then 0 else o.max - 1)
  {
    hide IsSafeRetry, IsContextError;
    var (s1, again, r) := ReceiveOnce(env, o, s);
    if again && o.max > 0 {
      LoopBound(env, o, s1, 1, r);
    }
  }

  // An IterateRange of the client receives at most five times per message.
  lemma IterateRangeIsBounded(env: Env, opts: seq<CallOption>, s: State)
    requires Valid(s) && forall o <- opts :: o.GrpcOption?
    ensures var s' := RecvMsg(env, EffectiveOptions(IterateRangeCall, opts), s).0;
            s'.receives <= s.receives + 5 && s'.opens <= s.opens + 4
  {
    EffectiveOptionsOf(IterateRangeCall, opts);
    RecvIsBounded(env, EffectiveOptions(IterateRangeCall, opts), s);
  }

  // ---------- faithful replay ----------

  function Inputs(msgs: seq<Msg>): seq<Input> {
    if msgs == [] then [] else [Sent(msgs[0])] + Inputs(msgs[1..])
  }

  lemma {:induction false} ResendGives(env: Env, s: State, msgs: seq<Msg>)
    requires s.streams != []
    ensures var (s', err) := Resend(env, s, msgs);
            err.None? ==> (&& |s'.streams| == |s.streams|
                           && s'.streams[|s.streams| - 1].input == s.streams[|s.streams| - 1].input + Inputs(msgs) + [HalfClosed])
    decreases msgs
  {
    var input := s.streams[|s.streams| - 1].input;
    if msgs == [] {
      assert input + [] == input;
    } else {
      var (s1, err) := Give(env, s, |s.streams| - 1, Sent(msgs[0]));
      if err.None? {
        ResendGives(env, s1, msgs[1..]);
        assert input + [Sent(msgs[0])] + Inputs(msgs[1..]) == input + Inputs(msgs);
      }
    }
  }

  // A stream that is made current has been sent exactly the buffered messages, in
  // order, and then one half-close.
  lemma ReplayIsTheBuffer(env: Env, s: State)
    ensures var (s', err) := Reestablish(env, s);
            err.None? ==> (&& |s'.streams| == |s.streams| + 1
                           && s'.streams[|s.streams|].input == Inputs(s.bufferedSends) + [HalfClosed])
  {
    if env.open(s.opens).None? {
      ResendGives(env, s.(opens := s.opens + 1, streams := s.streams + [Log([], [])]), s.bufferedSends);
      assert [] + Inputs(s.bufferedSends) == Inputs(s.bufferedSends);
    }
  }

  predicate Only(c: Call, calls: seq<Call>) { forall i :: 0 <= i < |calls| ==> calls[i] == c }

  /** msgs were sent before the first receive; first is what the original stream got. */
  ghost predicate Replayed(s: State, msgs: seq<Msg>, first: seq<Input>) {
    && Valid(s) && s.bufferedSends == msgs && s.streams[0].input == first
    && s.currents != [] && s.currents[0] == 0
    && forall k :: 1 <= k < |s.currents| ==>
         0 < s.currents[k] < |s.streams| && s.streams[s.currents[k]].input == Inputs(msgs) + [HalfClosed]
  }

  lemma ReceiveReplays(env: Env, o: Options, s: State, msgs: seq<Msg>, first: seq<Input>)
    requires Replayed(s, msgs, first)
    ensures Replayed(ReceiveOnce(env, o, s).0, msgs, first)
  {
    hide IsSafeRetry, IsContextError;
  }

  lemma SwitchReplays(env: Env, s: State, msgs: seq<Msg>, first: seq<Input>)
    requires Replayed(s, msgs, first)
    ensures var (s', err) := Reestablish(env, s);
            Replayed(s', msgs, first) && (err.None? ==> Replayed(SetStream(s', |s'.streams| - 1), msgs, first))
  {
    ReestablishKeeps(env, s);
    ReplayIsTheBuffer(env, s);
    hide Reestablish;
    var s' := Reestablish(env, s).0;
    assert forall i :: 0 <= i < |s.streams| ==> s'.streams[i] == s'.streams[..|s.streams|][i];
  }

  lemma {:induction false} LoopReplays(env: Env, o: Options, s: State, attempt: nat, last: Recv, msgs: seq<Msg>, first: seq<Input>)
    requires Replayed(s, msgs, first)
    ensures Replayed(RecvLoop(env, o, s, attempt, last).0, msgs, first)
    decreases o.max - attempt
  {
    hide WaitRetryBackoff, Reestablish, ReceiveOnce;
    var s1 := s.(waits := s.waits + 1);
    SwitchReplays(env, s1, msgs, first);
    hide Replayed;
    if attempt < o.max && WaitRetryBackoff(o.backoff, attempt, env.pause(s.waits)).None? && Reestablish(env, s1).1.None? {
      var s2 := SetStream(Reestablish(env, s1).0, |Reestablish(env, s1).0.streams| - 1);
      ReceiveReplays(env, o, s2, msgs, first);
      var (s3, again, r) := ReceiveOnce(env, o, s2);
      if again { LoopReplays(env, o, s3, attempt + 1, r, msgs, first); }
    }
  }

  lemma {:induction false} ReceivesReplay(env: Env, o: Options, s: State, calls: seq<Call>, msgs: seq<Msg>, first: seq<Input>)
    requires Replayed(s, msgs, first) && Only(RecvCall, calls)
    ensures Replayed(Run(env, o, s, calls).0, msgs, first)
    decreases calls
  {
    assert Valid(s);
    hide Replayed, RecvLoop, ReceiveOnce;
    if calls != [] {
      ReceiveReplays(env, o, s, msgs, first);
      var (s1, again, r) := ReceiveOnce(env, o, s);
      if again { LoopReplays(env, o, s1, 1, r, msgs, first); }
      assert calls[0] == RecvCall;
      StepKeepsValid(env, o, s, calls[0]);
      ReceivesReplay(env, o, Step(env, o, s, calls[0]).0, calls[1..], msgs, first);
    }
  }

  function Sends(msgs: seq<Msg>): seq<Call> {
    if msgs == [] then [] else [SendCall(msgs[0])] + Sends(msgs[1..])
  }

  /** Before any receive, with the given input on the one stream. */
  ghost predicate Fresh(s: State, msgs: seq<Msg>, input: seq<Input>) {
    s.stream == 0 && s.bufferedSends == msgs && s.streams == [Log(input, [])] && s.currents == [0]
  }

  lemma SendKeepsFresh(env: Env, o: Options, s: State, before: seq<Msg>, input: seq<Input>, m: Msg)
    requires Fresh(s, before, input)
    ensures Fresh(Step(env, o, s, SendCall(m)).0, before + [m], input + [Sent(m)])
  {
  }

  lemma {:induction false} SendsRun(env: Env, o: Options, s: State, before: seq<Msg>, input: seq<Input>, msgs: seq<Msg>)
    requires Fresh(s, before, input)
    ensures Fresh(Run(env, o, s, Sends(msgs)).0, before + msgs, input + Inputs(msgs))
    decreases msgs
  {
    assert Valid(s);
    SendsNext(before, input, msgs);
    hide Step, Fresh, Sends, Inputs;
    if msgs != [] {
      var s1 := Step(env, o, s, SendCall(msgs[0])).0;
      SendKeepsFresh(env, o, s, before, input, msgs[0]);
      StepKeepsValid(env, o, s, SendCall(msgs[0]));
      SendsRun(env, o, s1, before + [msgs[0]], input + [Sent(msgs[0])], msgs[1..]);
    }
  }

  lemma {:induction false} SendsNext(before: seq<Msg>, input: seq<Input>, msgs: seq<Msg>)
    ensures if msgs == [] then Sends(msgs) == [] && before + msgs == before && input + Inputs(msgs) == input
            else && Sends(msgs) != [] && Sends(msgs)[0] == SendCall(msgs[0]) && Sends(msgs)[1..] == Sends(msgs[1..])
                 && before + [msgs[0]] + msgs[1..] == before + msgs
                 && input + [Sent(msgs[0])] + Inputs(msgs[1..]) == input + Inputs(msgs)
  {
    if msgs == [] {
      assert before + msgs == before && input + Inputs(msgs) == input;
    } else {
      assert msgs == [msgs[0]] + msgs[1..];
      var rest, inputs := Sends(msgs[1..]), Inputs(msgs[1..]);
      assert Sends(msgs) == [SendCall(msgs[0])] + rest && Inputs(msgs) == [Sent(msgs[0])] + inputs;
      hide *;
      Assoc(before, msgs[0], msgs[1..]);
      Assoc(input, Sent(msgs[0]), inputs);
    }
  }

  lemma Assoc<T>(a: seq<T>, x: T, rest: seq<T>)
    ensures a + [x] + rest == a + ([x] + rest) && ([x] + rest)[0] == x && ([x] + rest)[1..] == rest
  {
  }

  lemma {:induction false} ClosesRun(env: Env, o: Options, s: State, msgs: seq<Msg>, input: seq<Input>, calls: seq<Call>)
    requires Fresh(s, msgs, input) && Only(CloseCall, calls)
    ensures Fresh(Run(env, o, s, calls).0, msgs, input + seq(|calls|, _ => HalfClosed))
    decreases calls
  {
    if calls == [] {
      assert input + [] == input;
    } else {
      var s1 := Step(env, o, s, CloseCall).0;
      assert calls[0] == CloseCall;
      ClosesRun(env, o, s1, msgs, input + [HalfClosed], calls[1..]);
      assert input + [HalfClosed] + seq(|calls| - 1, _ => HalfClosed) == input + seq(|calls|, _ => HalfClosed);
    }
  }

  lemma {:induction false} RunAppend(env: Env, o: Options, s: State, a: seq<Call>, b: seq<Call>)
    requires Valid(s)
    ensures Run(env, o, s, a + b).0 == Run(env, o, Run(env, o, s, a).0, b).0
    decreases a
  {
    hide Step;
    if a == [] {
      assert a + b == b;
    } else {
      assert (a + b)[1..] == a[1..] + b;
      StepKeepsValid(env, o, s, a[0]);
      RunAppend(env, o, Step(env, o, s, a[0]).0, a[1..], b);
    }
  }

  // Main result: when a client sends its messages, half-closes and then receives,
  // every stream made current by a retry has been given the messages in order and
  // one half-close. That is the input of the original stream if and only if the
  // client half-closed exactly once (or there was no retry).
  lemma {:induction false} FaithfulReplay(env: Env, o: Options, msgs: seq<Msg>, closes: seq<Call>, receives: seq<Call>)
    requires Only(CloseCall, closes) && Only(RecvCall, receives)
    ensures var s := Run(env, o, START, Sends(msgs) + closes + receives).0;
            && Replayed(s, msgs, Inputs(msgs) + seq(|closes|, _ => HalfClosed))
            && ((forall i <- s.currents :: i < |s.streams| && s.streams[i].input == s.streams[0].input)
                <==> |closes| == 1 || s.currents == [0])
  {
    RunAppend(env, o, START, Sends(msgs) + closes, receives);
    RunAppend(env, o, START, Sends(msgs), closes);
    SendsRun(env, o, START, [], [], msgs);
    assert [] + msgs == msgs && [] + Inputs(msgs) == Inputs(msgs);
    var s1 := Run(env, o, START, Sends(msgs)).0;
    ClosesRun(env, o, s1, msgs, Inputs(msgs), closes);
    var s2 := Run(env, o, s1, closes).0;
    var first := Inputs(msgs) + seq(|closes|, _ => HalfClosed);
    assert Replayed(s2, msgs, first);
    ReceivesReplay(env, o, s2, receives, msgs, first);
    SameInputWhen(Run(env, o, s2, receives).0, msgs, |closes|);
  }

  lemma {:induction false} SameInputWhen(s: State, msgs: seq<Msg>, n: nat)
    requires Replayed(s, msgs, Inputs(msgs) + seq(n, _ => HalfClosed))
    ensures (forall i <- s.currents :: i < |s.streams| && s.streams[i].input == s.streams[0].input) <==> n == 1 || s.currents == [0]
  {
    if n == 1 {
      assert seq(n, _ => HalfClosed) == [HalfClosed];
    }
    if n != 1 && s.currents != [0] {
      assert s.currents[1] in s.currents;
      assert |s.streams[s.currents[1]].input| != |s.streams[0].input|;
    }
  }

  // The generated stub of a server stream sends one message and half-closes once
  // before it receives, so there every replay is the original's input.
  lemma {:induction false} StubReplaysFaithfully(env: Env, o: Options, m: Msg, receives: seq<Call>)
    requires Only(RecvCall, receives)
    ensures var s := Run(env, o, START, [SendCall(m), CloseCall] + receives).0;
            forall i <- s.currents :: i < |s.streams| && s.streams[i].input == [Sent(m), HalfClosed]
  {
    FaithfulReplay(env, o, [m], [CloseCall], receives);
    assert Sends([m]) == [SendCall(m)] + Sends([m][1..]) && [m][1..] == [] && Inputs([m]) == [Sent(m)];
    assert Sends([m]) + [CloseCall] + receives == [SendCall(m), CloseCall] + receives;
    assert Inputs([m]) + seq(1, _ => HalfClosed) == [Sent(m), HalfClosed];
  }

  const DOWN := Failed(Status(Unavailable, "down"))

  /** The first stream fails, every later one answers with messages. */
  const ONE_FAILURE := Env(
    (k: nat) => None, (i: nat, j: nat) => None, (i: nat, j: nat) => if i == 0 then DOWN else Message(1),
    (k: nat) => Pause(3, 0.5, None), (k: nat) => true)

  const RETRY_FIVE := Options(Repeatable, 5, BACKOFF)

  // The states of that run: one message sent, one receive failed, replayed, received.
  const SENT := START.(bufferedSends := [7], streams := [Log([Sent(7)], [])])
  const FAILED_ONCE := SENT.(streams := [Log([Sent(7)], [DOWN])], receives := 1)
  const REPLAYED := FAILED_ONCE.(waits := 1, opens := 1, streams := [Log([Sent(7)], [DOWN]), Log([Sent(7), HalfClosed], [])])
  const ANSWERED := REPLAYED.(stream := 1, currents := [0, 1], receivedGood := true, receives := 2,
                              streams := [Log([Sent(7)], [DOWN]), Log([Sent(7), HalfClosed], [Message(1)])])

  lemma SendAndFail()
    ensures Step(ONE_FAILURE, RETRY_FIVE, START, SendCall(7)).0 == SENT
    ensures ReceiveOnce(ONE_FAILURE, RETRY_FIVE, SENT) == (FAILED_ONCE, true, DOWN)
  {
    assert [] + [Sent(7)] == [Sent(7)] && [] + [7] == [7];
    assert [] + [DOWN] == [DOWN];
    assert ReceiveOnce(ONE_FAILURE, RETRY_FIVE, SENT).0.streams == FAILED_ONCE.streams;
  }

  lemma ReplayAndReceive()
    ensures Reestablish(ONE_FAILURE, FAILED_ONCE.(waits := 1)) == (REPLAYED, None)
    ensures ReceiveOnce(ONE_FAILURE, RETRY_FIVE, SetStream(REPLAYED, 1)) == (ANSWERED, false, Message(1))
  {
    var s3 := FAILED_ONCE.(waits := 1);
    var s4 := Reestablish(ONE_FAILURE, s3).0;
    ReplayIsTheBuffer(ONE_FAILURE, s3);
    ReestablishKeeps(ONE_FAILURE, s3);
    ResendAccepted(ONE_FAILURE, s3.(opens := 1, streams := s3.streams + [Log([], [])]), [7]);
    assert Inputs([7]) == [Sent(7)] && [7][1..] == [];
    assert Reestablish(ONE_FAILURE, s3).1.None?;
    assert s4.streams[1] == Log([Sent(7), HalfClosed], []) && s4.streams[..1] == s3.streams;
    assert s4.streams == s4.streams[..1] + [s4.streams[1]];
    assert s4.streams == REPLAYED.streams;
    assert [] + [Message(1)] == [Message(1)] && [0] + [1] == [0, 1];
    assert ReceiveOnce(ONE_FAILURE, RETRY_FIVE, SetStream(REPLAYED, 1)).0.streams == ANSWERED.streams;
  }

  // A client that receives without having half-closed: the stream that replaces
  // the first one is half-closed all the same.
  lemma ReplayHalfClosesAnyway()
    ensures var s := Run(ONE_FAILURE, RETRY_FIVE, START, [SendCall(7), RecvCall]).0;
            s.currents == [0, 1] && s.streams == [Log([Sent(7)], [DOWN]), Log([Sent(7), HalfClosed], [Message(1)])]
  {
    var calls := [SendCall(7), RecvCall];
    assert calls[1..] == [RecvCall] && [RecvCall][1..] == [];
    SendAndFail();
    ReplayAndReceive();
    assert WaitRetryBackoff(BACKOFF, 1, ONE_FAILURE.pause(0)).None?;
    hide ReceiveOnce, Reestablish, WaitRetryBackoff;
    assert RecvLoop(ONE_FAILURE, RETRY_FIVE, FAILED_ONCE, 1, DOWN) == (ANSWERED, Message(1));
    assert Step(ONE_FAILURE, RETRY_FIVE, SENT, RecvCall).0 == ANSWERED;
    assert Run(ONE_FAILURE, RETRY_FIVE, SENT, [RecvCall]).0 == ANSWERED;
  }

  lemma {:induction false} ResendAccepted(env: Env, s: State, msgs: seq<Msg>)
    requires s.streams != [] && forall i: nat, j: nat :: env.accept(i, j).None?
    ensures Resend(env, s, msgs).1.None?
    decreases msgs
  {
    if msgs != [] {
      ResendAccepted(env, Give(env, s, |s.streams| - 1, Sent(msgs[0])).0, msgs[1..]);
    }
  }
}
