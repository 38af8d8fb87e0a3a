// serverStreamingRetryingStream as an object, over streams whose behaviour is
// given by an environment.
module StreamProxy {
  import opened Common
  import opened Retry
  import opened StreamRetry

  /** The streamer, its streams, the clock and the call context. */
  class Network {
    const env: Env
    var streams: seq<Log>
    var opens: nat
    var receives: nat
    var waits: nat

    constructor (env: Env)
      ensures this.env == env && streams == [Log([], [])] && opens == receives == waits == 0
    {
      this.env := env;
      streams, opens, receives, waits := [Log([], [])], 0, 0, 0;
    }

    /** streamerCall: the new stream is the last one. */
    method Open() returns (err: Option<Error>)
      modifies this`streams, this`opens
      ensures err == env.open(old(opens)) && opens == old(opens) + 1
      ensures streams == if err.None? then old(streams) + [Log([], [])] else old(streams)
    {
      err := env.open(opens);
      opens := opens + 1;
      if err.None? {
        streams := streams + [Log([], [])];
      }
    }

    method Accept(id: nat, x: Input) returns (err: Option<Error>)
      requires id < |streams|
      modifies this`streams
      ensures err == env.accept(id, |old(streams)[id].input|)
      ensures streams == old(streams)[id := old(streams)[id].(input := old(streams)[id].input + [x])]
    {
      err := env.accept(id, |streams[id].input|);
      streams := streams[id := streams[id].(input := streams[id].input + [x])];
    }

    /** The answer, and whether the call context is live after it. */
    method Answer(id: nat) returns (r: Recv, live: bool)
      requires id < |streams|
      modifies this`streams, this`receives
      ensures r == env.recv(id, |old(streams)[id].received|) && live == env.live(old(receives))
      ensures receives == old(receives) + 1
      ensures streams == old(streams)[id := old(streams)[id].(received := old(streams)[id].received + [r])]
    {
      r := env.recv(id, |streams[id].received|);
      live := env.live(receives);
      receives := receives + 1;
      streams := streams[id := streams[id].(received := streams[id].received + [r])];
    }

    method Wait(o: Options, attempt: nat) returns (err: Option<Error>)
      modifies this`waits
      ensures err == WaitRetryBackoff(o.backoff, attempt, env.pause(old(waits))) && waits == old(waits) + 1
    {
      err := WaitRetryBackoff(o.backoff, attempt, env.pause(waits));
      waits := waits + 1;
    }
  }

  class RetryingStream {
    const net: Network
    const callOpts: Options
    var clientStream: nat
    var bufferedSends: seq<Msg>
    var receivedGood: bool
    var wasClosedSend: bool
    ghost var currents: seq<nat>

    ghost function View(): State
      reads this, net
    {
      State(clientStream, bufferedSends, receivedGood, wasClosedSend, net.streams, currents, net.opens, net.receives, net.waits)
    }

    constructor (net: Network, o: Options)
      requires net.streams == [Log([], [])] && net.opens == net.receives == net.waits == 0
      ensures this.net == net && callOpts == o && View() == START
    {
      this.net, callOpts := net, o;
      clientStream, bufferedSends, receivedGood, wasClosedSend, currents := 0, [], false, false, [0];
    }

    method SendMsg(m: Msg) returns (err: Option<Error>)
      requires Valid(View())
      modifies this`bufferedSends, net
      ensures (View(), err) == StreamRetry.SendMsg(net.env, old(View()), m)
    {
      bufferedSends := bufferedSends + [m];
      err := net.Accept(clientStream, Sent(m));
    }

    method CloseSend() returns (err: Option<Error>)
      requires Valid(View())
      modifies this`wasClosedSend, net
      ensures (View(), err) == StreamRetry.CloseSend(net.env, old(View()))
    {
      wasClosedSend := true;
      err := net.Accept(clientStream, HalfClosed);
    }

    method ReceiveMsgAndIndicateRetry() returns (again: bool, r: Recv)
      requires Valid(View())
      modifies this`receivedGood, net
      ensures Valid(View()) && (View(), again, r) == ReceiveOnce(net.env, callOpts, old(View()))
    {
      var wasGood := receivedGood;
      var live;
      r, live := net.Answer(clientStream);
      if Good(r) {
        receivedGood := true;
        return false, r;
      } else if wasGood {
        return false, r;
      }
      if IsContextError(r.err) {
        return live, r;
      }
      return IsSafeRetry(callOpts.policy, r.err), r;
    }

    method ReestablishStreamAndResendBuffer() returns (err: Option<Error>)
      modifies net
      ensures (View(), err) == Reestablish(net.env, old(View()))
    {
      err := net.Open();
      if err.Some? {
        return err;
      }
      var newStream := |net.streams| - 1;
      ghost var s1 := View();
      var i := 0;
      while i < |bufferedSends|
        invariant 0 <= i <= |bufferedSends| && newStream == |net.streams| - 1
        invariant Resend(net.env, View(), bufferedSends[i..]) == Resend(net.env, s1, bufferedSends)
        invariant View() == s1.(streams := net.streams)
      {
        assert bufferedSends[i..][1..] == bufferedSends[i + 1..];
        err := net.Accept(newStream, Sent(bufferedSends[i]));
        if err.Some? {
          return err;
        }
        i := i + 1;
      }
      err := net.Accept(newStream, HalfClosed);
    }

    method SetStream(id: nat)
      modifies this`clientStream, this`currents
      ensures View() == StreamRetry.SetStream(old(View()), id)
    {
      clientStream, currents := id, currents + [id];
    }

    method RecvMsg() returns (r: Recv)
      requires Valid(View())
      modifies this, net
      ensures (View(), r) == StreamRetry.RecvMsg(net.env, callOpts, old(View()))
    {
      hide WaitRetryBackoff, Reestablish, ReceiveOnce;
      ghost var s0 := View();
      var attemptRetry;
      attemptRetry, r := ReceiveMsgAndIndicateRetry();
      if !attemptRetry {
        return r;
      }
      var attempt := 1;
      while attempt < callOpts.max
        invariant attempt >= 1 && Valid(View())
        invariant RecvLoop(net.env, callOpts, View(), attempt, r) == StreamRetry.RecvMsg(net.env, callOpts, s0)
        decreases callOpts.max - attempt
      {
        var err := net.Wait(callOpts, attempt);
        if err.Some? {
          return Failed(err.value);
        }
        ReestablishKeeps(net.env, View());
        err := ReestablishStreamAndResendBuffer();
        if err.Some? {
          return Failed(err.value);
        }
        SetStream(|net.streams| - 1);
        attemptRetry, r := ReceiveMsgAndIndicateRetry();
        if !attemptRetry {
          return r;
        }
        attempt := attempt + 1;
      }
    }
  }
}
