// When RecvMsg of the retrying stream makes another receive and what it answers,
// by what the surroundings do and nothing else.
module StreamAttempts {
  import opened Common
  import opened Retry
  import opened StreamRetry

  /** The receive of attempt a: attempt 0 is on the current stream, attempt a >= 1 on
      the a-th stream opened from here on. */
  function AttemptRecv(env: Env, s: State, a: nat): Recv
    requires Valid(s)
  {
    if a == 0 then env.recv(s.stream, |s.streams[s.stream].received|) else env.recv(|s.streams| + a - 1, 0)
  }

  /** What attempt a received may be followed by another attempt. */
  predicate MayRepeat(env: Env, o: Options, s: State, a: nat)
    requires Valid(s)
  {
    !s.receivedGood && AttemptRecv(env, s, a).Failed? && Repeats(o.policy, AttemptRecv(env, s, a).err, env.live(s.receives + a))
  }

  /** The wait before attempt a >= 1 is cut short. */
  predicate CutShort(env: Env, o: Options, s: State, a: nat)
    requires a >= 1
  {
    Interrupts(o.backoff, a, env.pause(s.waits + a - 1))
  }

  /** The first error a stream answers to its inputs i, ..., last. */
  function FirstError(env: Env, id: nat, i: nat, last: nat): Option<Error>
    decreases last - i
  {
    if env.accept(id, i).Some? || i >= last then env.accept(id, i) else FirstError(env, id, i + 1, last)
  }

  /** Stream id takes its inputs 0, ..., last without an error. */
  ghost predicate TakesAll(env: Env, id: nat, last: nat) { forall i :: 0 <= i <= last ==> env.accept(id, i).None? }

  /** What goes wrong while the stream of attempt a >= 1 is opened and given the
      buffered messages and a half-close. */
  function ReplayError(env: Env, s: State, a: nat): Option<Error>
    requires a >= 1
  {
    if env.open(s.opens + a - 1).Some? then env.open(s.opens + a - 1)
    else FirstError(env, |s.streams| + a - 1, 0, |s.bufferedSends|)
  }

  /** Attempt a is followed by another. */
  predicate GoesOn(env: Env, o: Options, s: State, a: nat)
    requires Valid(s)
  {
    MayRepeat(env, o, s, a) && a + 1 < o.max && !CutShort(env, o, s, a + 1) && ReplayError(env, s, a + 1).None?
  }

  /** The answer when attempt a is the last. */
  predicate Answers(env: Env, o: Options, s: State, a: nat, r: Recv)
    requires Valid(s)
  {
    if !MayRepeat(env, o, s, a) || a + 1 >= o.max then r == AttemptRecv(env, s, a)
    else if CutShort(env, o, s, a + 1) then r.Failed? && Reports(r.err, env.pause(s.waits + a).done.value)
    else ReplayError(env, s, a + 1).Some? && r == Failed(ReplayError(env, s, a + 1).value)
  }

  lemma {:induction false} FirstErrorIs(env: Env, id: nat, i: nat, last: nat)
    requires i <= last
    ensures FirstError(env, id, i, last).None? <==> forall k :: i <= k <= last ==> env.accept(id, k).None?
    ensures FirstError(env, id, i, last).Some? ==>
              exists k :: i <= k <= last && FirstError(env, id, i, last) == env.accept(id, k) && forall h :: i <= h < k ==> env.accept(id, h).None?
    decreases last - i
  {
    if env.accept(id, i).None? && i < last {
      FirstErrorIs(env, id, i + 1, last);
    }
  }

  lemma {:induction false} ResendErrors(env: Env, s: State, msgs: seq<Msg>)
    requires s.streams != []
    ensures var id := |s.streams| - 1; var i := |s.streams[id].input|;
            Resend(env, s, msgs).1 == FirstError(env, id, i, i + |msgs|)
    decreases msgs
  {
    if msgs != [] {
      ResendErrors(env, Give(env, s, |s.streams| - 1, Sent(msgs[0])).0, msgs[1..]);
    }
  }

  lemma ReestablishErrors(env: Env, s: State)
    ensures Reestablish(env, s).1 == ReplayError(env, s, 1)
  {
    if env.open(s.opens).None? {
      ResendErrors(env, s.(opens := s.opens + 1, streams := s.streams + [Log([], [])]), s.bufferedSends);
    }
  }

  /** t is s after the receive of attempt a, which may be followed by another. */
  ghost predicate After(env: Env, o: Options, s: State, a: nat, t: State, last: Recv)
    requires Valid(s)
  {
    && Valid(t) && MayRepeat(env, o, s, a) && last == AttemptRecv(env, s, a)
    && t.receives == s.receives + a + 1 && t.waits == s.waits + a && t.opens == s.opens + a
    && |t.streams| == |s.streams| + a && t.bufferedSends == s.bufferedSends && !t.receivedGood
  }

  lemma ReceiveOnceIs(env: Env, o: Options, s: State)
    requires Valid(s)
    ensures var (s', again, r) := ReceiveOnce(env, o, s);
            && r == AttemptRecv(env, s, 0) && (again <==> MayRepeat(env, o, s, 0))
            && s'.receives == s.receives + 1
            && (again ==> After(env, o, s, 0, s', r))
  {
    if AttemptRecv(env, s, 0).Failed? { RepeatsWhen(o.policy, AttemptRecv(env, s, 0).err, env.live(s.receives)); }
    hide IsSafeRetry, IsContextError, Repeats;
  }

  /** The state in which attempt a + 1 receives. */
  ghost function Switched(env: Env, t: State): State {
    var t2 := Reestablish(env, t.(waits := t.waits + 1)).0;
    SetStream(t2, if |t2.streams| > 0 then |t2.streams| - 1 else 0)
  }

  lemma SwitchedIs(env: Env, o: Options, s: State, a: nat, t: State, last: Recv)
    requires Valid(s) && After(env, o, s, a, t, last)
    ensures Reestablish(env, t.(waits := t.waits + 1)).1 == ReplayError(env, s, a + 1)
    ensures var t3 := Switched(env, t);
            ReplayError(env, s, a + 1).None? ==>
              && Valid(t3) && !t3.receivedGood && t3.bufferedSends == s.bufferedSends
              && t3.receives == t.receives && t3.waits == t.waits + 1 && t3.opens == t.opens + 1 && |t3.streams| == |t.streams| + 1
              && t3.stream == |t.streams| && t3.streams[t3.stream].received == []
  {
    hide Reestablish, MayRepeat, AttemptRecv;
    var t1 := t.(waits := t.waits + 1);
    ReestablishErrors(env, t1);
    ReestablishKeeps(env, t1);
  }

  lemma ReceiveNext(env: Env, o: Options, s: State, a: nat, t: State, last: Recv)
    requires Valid(s) && After(env, o, s, a, t, last) && ReplayError(env, s, a + 1).None? && Valid(Switched(env, t))
    ensures var (t4, again, r) := ReceiveOnce(env, o, Switched(env, t));
            && r == AttemptRecv(env, s, a + 1) && (again <==> MayRepeat(env, o, s, a + 1))
            && t4.receives == s.receives + a + 2
            && (again ==> After(env, o, s, a + 1, t4, r))
  {
    SwitchedIs(env, o, s, a, t, last);
    ReceiveOnceIs(env, o, Switched(env, t));
    hide ReceiveOnce, Switched, Repeats, ReplayError;
  }

  // One turn of the loop after attempt a: it answers, or receives again.

  lemma {:induction false} TurnAnswers(env: Env, o: Options, s: State, a: nat, t: State, last: Recv)
    requires Valid(s) && After(env, o, s, a, t, last) && !GoesOn(env, o, s, a)
    ensures RecvLoop(env, o, t, a + 1, last).0.receives == t.receives && Answers(env, o, s, a, RecvLoop(env, o, t, a + 1, last).1)
  {
    SwitchedIs(env, o, s, a, t, last);
    ReestablishKeeps(env, t.(waits := t.waits + 1));
    InterruptedWait(o.backoff, a + 1, env.pause(t.waits));
    hide Reestablish, WaitRetryBackoff, Interrupts, Reports, MayRepeat, ReplayError, AttemptRecv, ReceiveOnce;
  }

  lemma {:induction false} TurnReceives(env: Env, o: Options, s: State, a: nat, t: State, last: Recv)
    requires Valid(s) && After(env, o, s, a, t, last) && GoesOn(env, o, s, a)
    ensures Valid(Switched(env, t))
    ensures var (t4, again, r) := ReceiveOnce(env, o, Switched(env, t));
            RecvLoop(env, o, t, a + 1, last) == if again then RecvLoop(env, o, t4, a + 2, r) else (t4, r)
  {
    SwitchedIs(env, o, s, a, t, last);
    ReestablishKeeps(env, t.(waits := t.waits + 1));
    InterruptedWait(o.backoff, a + 1, env.pause(t.waits));
    hide Reestablish, WaitRetryBackoff, Interrupts, Reports, MayRepeat, ReplayError, AttemptRecv, ReceiveOnce, Answers;
  }

  /** The attempts from a on, up to n: all but the last go on, and the last answers r. */
  ghost predicate Attempts(env: Env, o: Options, s: State, a: nat, n: nat, r: Recv)
    requires Valid(s)
  {
    && a < n && (forall k :: a <= k < n - 1 ==> GoesOn(env, o, s, k))
    && !GoesOn(env, o, s, n - 1) && Answers(env, o, s, n - 1, r)
  }

  lemma NextAttempt(env: Env, o: Options, s: State, a: nat, t: State, last: Recv) returns (t4: State, again: bool, r: Recv)
    requires Valid(s) && After(env, o, s, a, t, last) && GoesOn(env, o, s, a)
    ensures r == AttemptRecv(env, s, a + 1) && again == MayRepeat(env, o, s, a + 1) && t4.receives == s.receives + a + 2
    ensures again ==> After(env, o, s, a + 1, t4, r)
    ensures RecvLoop(env, o, t, a + 1, last) == if again then RecvLoop(env, o, t4, a + 2, r) else (t4, r)
  {
    TurnReceives(env, o, s, a, t, last);
    NoReplayError(env, o, s, a);
    ReceiveNext(env, o, s, a, t, last);
    hide *;
    t4, again, r := ReceiveOnce(env, o, Switched(env, t)).0, ReceiveOnce(env, o, Switched(env, t)).1, ReceiveOnce(env, o, Switched(env, t)).2;
  }

  lemma {:induction false} LoopAttempts(env: Env, o: Options, s: State, a: nat, t: State, last: Recv)
    requires Valid(s) && After(env, o, s, a, t, last)
    ensures var (s', r) := RecvLoop(env, o, t, a + 1, last);
            s'.receives >= s.receives && Attempts(env, o, s, a, s'.receives - s.receives, r)
    decreases o.max - a
  {
    hide Answers, RecvLoop, Attempts, AttemptRecv, MayRepeat, CutShort, ReplayError;
    var (s', r') := RecvLoop(env, o, t, a + 1, last);
    if GoesOn(env, o, s, a) {
      var t4, again, r := NextAttempt(env, o, s, a, t, last);
      if again {
        LoopAttempts(env, o, s, a + 1, t4, r);
      } else {
        AnswersAtOnce(env, o, s, a + 1);
        LastAttempt(env, o, s, a + 1, r);
      }
      OneMoreAttempt(env, o, s, a, s'.receives - s.receives, r');
    } else {
      TurnAnswers(env, o, s, a, t, last);
      LastAttempt(env, o, s, a, r');
    }
  }

  lemma NoReplayError(env: Env, o: Options, s: State, a: nat)
    requires Valid(s) && GoesOn(env, o, s, a)
    ensures ReplayError(env, s, a + 1).None?
  {
  }

  lemma LastAttempt(env: Env, o: Options, s: State, a: nat, r: Recv)
    requires Valid(s) && !GoesOn(env, o, s, a) && Answers(env, o, s, a, r)
    ensures Attempts(env, o, s, a, a + 1, r)
  {
  }

  lemma OneMoreAttempt(env: Env, o: Options, s: State, a: nat, n: nat, r: Recv)
    requires Valid(s) && GoesOn(env, o, s, a) && Attempts(env, o, s, a + 1, n, r)
    ensures Attempts(env, o, s, a, n, r)
  {
    hide GoesOn, Answers;
  }

  lemma AnswersAtOnce(env: Env, o: Options, s: State, a: nat)
    requires Valid(s) && !MayRepeat(env, o, s, a)
    ensures !GoesOn(env, o, s, a) && Answers(env, o, s, a, AttemptRecv(env, s, a))
  {
  }

  lemma RecvAttempts(env: Env, o: Options, s: State)
    requires Valid(s)
    ensures var (s', r) := RecvMsg(env, o, s);
            s'.receives >= s.receives && Attempts(env, o, s, 0, s'.receives - s.receives, r)
  {
    ReceiveOnceIs(env, o, s);
    hide ReceiveOnce, Answers, GoesOn, MayRepeat, AttemptRecv, After;
    var (s1, again, r) := ReceiveOnce(env, o, s);
    if again {
      LoopAttempts(env, o, s, 0, s1, r);
    } else {
      AnswersAtOnce(env, o, s, 0);
    }
  }

  // Main result: attempt a of a RecvMsg is followed by another if and only if nothing
  // good was received before, its error is one Repeats allows, the bound is not
  // reached, the wait is not cut short, and the new stream takes the whole replay.
  lemma AnotherReceiveWhen(env: Env, o: Options, s: State, a: nat)
    requires Valid(s) && a < RecvMsg(env, o, s).0.receives - s.receives
    ensures a + 1 < RecvMsg(env, o, s).0.receives - s.receives <==>
              && !s.receivedGood
              && AttemptRecv(env, s, a).Failed?
              && Repeats(o.policy, AttemptRecv(env, s, a).err, env.live(s.receives + a))
              && a + 1 < o.max
              && !Interrupts(o.backoff, a + 1, env.pause(s.waits + a))
              && env.open(s.opens + a).None?
              && TakesAll(env, |s.streams| + a, |s.bufferedSends|)
  {
    RecvAttempts(env, o, s);
    GoesOnWhen(env, o, s, a);
    hide RecvMsg, Repeats, Interrupts, GoesOn, Answers, AttemptRecv;
  }

  lemma GoesOnWhen(env: Env, o: Options, s: State, a: nat)
    requires Valid(s)
    ensures GoesOn(env, o, s, a) <==>
              && !s.receivedGood
              && AttemptRecv(env, s, a).Failed?
              && Repeats(o.policy, AttemptRecv(env, s, a).err, env.live(s.receives + a))
              && a + 1 < o.max
              && !Interrupts(o.backoff, a + 1, env.pause(s.waits + a))
              && env.open(s.opens + a).None?
              && TakesAll(env, |s.streams| + a, |s.bufferedSends|)
  {
    FirstErrorIs(env, |s.streams| + a, 0, |s.bufferedSends|);
    hide Repeats, Interrupts, AttemptRecv, FirstError;
  }

  // Main result: what RecvMsg answers at each ending: what the last attempt received,
  // the status of the context that cut a wait short, or the error of the replay.
  lemma AnswerOfRecv(env: Env, o: Options, s: State)
    requires Valid(s)
    ensures var (s', r) := RecvMsg(env, o, s);
            s'.receives > s.receives && Answers(env, o, s, s'.receives - s.receives - 1, r)
  {
    RecvAttempts(env, o, s);
    hide RecvMsg, Answers;
  }

  // The same for IterateRange, with its own bound and codes.
  lemma IterateRangeGoesOnWhen(opts: seq<CallOption>, env: Env, s: State, a: nat)
    requires forall o <- opts :: o.GrpcOption?
    requires Valid(s) && a < RecvMsg(env, EffectiveOptions(IterateRangeCall, opts), s).0.receives - s.receives
    ensures var o := EffectiveOptions(IterateRangeCall, opts); var x := AttemptRecv(env, s, a);
            a + 1 < RecvMsg(env, o, s).0.receives - s.receives <==>
              && !s.receivedGood && x.Failed? && x.err.Status?
              && (x.err.code == Unavailable || (x.err.code in {DeadlineExceeded, Canceled} && env.live(s.receives + a)))
              && a + 1 < 5 && !Interrupts(o.backoff, a + 1, env.pause(s.waits + a))
              && env.open(s.opens + a).None?
              && TakesAll(env, |s.streams| + a, |s.bufferedSends|)
  {
    EffectiveOptionsOf(IterateRangeCall, opts);
    AnotherReceiveWhen(env, EffectiveOptions(IterateRangeCall, opts), s, a);
    hide EffectiveOptions, RecvMsg, Interrupts, AttemptRecv;
  }
}
