// The answers to a transaction's operations: what a client gets back from the
// list a server builds out of its own answers.
module Responses {
  import opened Common
  import opened Messages

  datatype ResponseHeader = ResponseHeader(shardId: u64, replicaId: u64, revision: u64, raftTerm: u64, raftLeaderId: u64)

  datatype GetResponse = GetResponse(header: Option<ResponseHeader>, kvs: seq<Option<KeyValue>>, more: bool, count: i64)
  datatype PutResponse = PutResponse(header: Option<ResponseHeader>, prevKv: Option<KeyValue>)
  datatype DeleteResponse = DeleteResponse(header: Option<ResponseHeader>, deleted: i64, prevKvs: seq<Option<KeyValue>>)

  /** Three pointers, of which one should be set. */
  datatype ResponseOp = ResponseOp(get: Option<GetResponse>, put: Option<PutResponse>, del: Option<DeleteResponse>)

  // The bodies of the oneof of the wire message; a body may be nil.
  datatype RangeBody = RangeBody(kvs: seq<Option<KeyValue>>, more: bool, count: i64)
  datatype PutBody = PutBody(prevKv: Option<KeyValue>)
  datatype DeleteBody = DeleteBody(deleted: i64, prevKvs: seq<Option<KeyValue>>)

  datatype Response =
    | NoResponse
    | ResponseRange(range: Option<RangeBody>)
    | ResponsePut(put: Option<PutBody>)
    | ResponseDeleteRange(del: Option<DeleteBody>)

  /** One step of convResponsesToProto: the first pointer set decides. */
  function ToProto(op: ResponseOp): seq<Option<Response>> {
    if op.get.Some? then [Some(ResponseRange(Some(RangeBody(op.get.value.kvs, op.get.value.more, op.get.value.count))))]
    else if op.put.Some? then [Some(ResponsePut(Some(PutBody(op.put.value.prevKv))))]
    else if op.del.Some? then [Some(ResponseDeleteRange(Some(DeleteBody(op.del.value.deleted, op.del.value.prevKvs))))]
    else []
  }

  /** One step of convResponseOps, with the getters' defaults for nil. */
  function FromProto(r: Option<Response>): seq<ResponseOp> {
    match OrElse(r, NoResponse)
    case ResponseRange(b) =>
      var x := OrElse(b, RangeBody([], false, 0));
      [ResponseOp(Some(GetResponse(None, x.kvs, x.more, x.count)), None, None)]
    case ResponsePut(b) => [ResponseOp(None, Some(PutResponse(None, OrElse(b, PutBody(None)).prevKv)), None)]
    case ResponseDeleteRange(b) =>
      var x := OrElse(b, DeleteBody(0, []));
      [ResponseOp(None, None, Some(DeleteResponse(None, x.deleted, x.prevKvs)))]
    case NoResponse => []
  }

  function AllToProto(ops: seq<ResponseOp>): seq<Option<Response>> {
    if ops == [] then [] else ToProto(ops[0]) + AllToProto(ops[1..])
  }

  function AllFromProto(rs: seq<Option<Response>>): seq<ResponseOp> {
    if rs == [] then [] else FromProto(rs[0]) + AllFromProto(rs[1..])
  }

  lemma FromHere(ops: seq<ResponseOp>, rs: seq<Option<Response>>, i: nat)
    ensures i < |ops| ==> AllToProto(ops[i..]) == ToProto(ops[i]) + AllToProto(ops[i + 1..])
    ensures i < |rs| ==> AllFromProto(rs[i..]) == FromProto(rs[i]) + AllFromProto(rs[i + 1..])
  {
    hide ToProto, FromProto;
    assert i < |ops| ==> ops[i..][1..] == ops[i + 1..];
    assert i < |rs| ==> rs[i..][1..] == rs[i + 1..];
  }

  lemma Regroup<T>(a: seq<T>, b: seq<T>, c: seq<T>)
    ensures a + (b + c) == a + b + c
  {
  }

  // Both conversions append to a list that starts out nil.

  method ConvResponsesToProto(ops: seq<ResponseOp>) returns (out: seq<Option<Response>>)
    ensures out == AllToProto(ops)
  {
    out := [];
    for i := 0 to |ops|
      invariant out + AllToProto(ops[i..]) == AllToProto(ops)
    {
      FromHere(ops, [], i);
      hide *;
      Regroup(out, ToProto(ops[i]), AllToProto(ops[i + 1..]));
      out := out + ToProto(ops[i]);
    }
  }

  method ConvResponseOps(rs: seq<Option<Response>>) returns (out: seq<ResponseOp>)
    ensures out == AllFromProto(rs)
  {
    out := [];
    for i := 0 to |rs|
      invariant out + AllFromProto(rs[i..]) == AllFromProto(rs)
    {
      FromHere([], rs, i);
      hide *;
      Regroup(out, FromProto(rs[i]), AllFromProto(rs[i + 1..]));
      out := out + FromProto(rs[i]);
    }
  }

  /** Exactly one answer, without a header. */
  predicate OneAnswer(op: ResponseOp) {
    || (op.get.Some? && op.put.None? && op.del.None? && op.get.value.header.None?)
    || (op.get.None? && op.put.Some? && op.del.None? && op.put.value.header.None?)
    || (op.get.None? && op.put.None? && op.del.Some? && op.del.value.header.None?)
  }

  lemma {:induction false} NoMoreThanSent(ops: seq<ResponseOp>)
    ensures |AllFromProto(AllToProto(ops))| <= |ops|
  {
    hide ToProto, FromProto, OneAnswer;
    if ops != [] {
      NoMoreThanSent(ops[1..]);
      SendFirst(ops);
    }
  }

  lemma SendOne(op: ResponseOp)
    ensures |ToProto(op)| <= 1
    ensures ToProto(op) != [] ==> |FromProto(ToProto(op)[0])| == 1
    ensures ToProto(op) != [] && FromProto(ToProto(op)[0]) == [op] <==> OneAnswer(op)
  {
    if op.get.Some? {
    } else if op.put.Some? {
    } else if op.del.Some? {
    }
  }

  lemma {:induction false} SendFirst(ops: seq<ResponseOp>)
    requires ops != []
    ensures AllFromProto(AllToProto(ops)) == AllFromProto(ToProto(ops[0])) + AllFromProto(AllToProto(ops[1..]))
    ensures |AllFromProto(ToProto(ops[0]))| <= 1
    ensures AllFromProto(ToProto(ops[0])) == [ops[0]] <==> OneAnswer(ops[0])
  {
    hide ToProto, FromProto, OneAnswer;
    SendOne(ops[0]);
    var first := ToProto(ops[0]);
    if first == [] {
      assert first + AllToProto(ops[1..]) == AllToProto(ops[1..]);
    } else {
      assert first[1..] == [] && AllToProto(ops)[0] == first[0] && AllToProto(ops)[1..] == AllToProto(ops[1..]);
      assert AllFromProto(first) == FromProto(first[0]);
    }
  }

  // Main result: the client gets back the server's list unchanged if and only if
  // each of its elements holds exactly one answer, without a header.
  lemma {:induction false} ResponsesRoundTripWhen(ops: seq<ResponseOp>)
    ensures AllFromProto(AllToProto(ops)) == ops <==> forall op <- ops :: OneAnswer(op)
  {
    hide ToProto, FromProto, OneAnswer;
    if ops != [] {
      ResponsesRoundTripWhen(ops[1..]);
      NoMoreThanSent(ops[1..]);
      SendFirst(ops);
      var first, rest := AllFromProto(ToProto(ops[0])), AllFromProto(AllToProto(ops[1..]));
      assert ops == [ops[0]] + ops[1..];
      if first + rest == ops {
        assert |first| == 1 && first == [ops[0]] && (first + rest)[1..] == rest;
      }
    }
  }

  /** The first answer of the three, alone and without its header. */
  function FirstAnswer(op: ResponseOp): seq<ResponseOp> {
    match op
    case ResponseOp(Some(GetResponse(_, kvs, more, count)), _, _) => [ResponseOp(Some(GetResponse(None, kvs, more, count)), None, None)]
    case ResponseOp(None, Some(PutResponse(_, prevKv)), _) => [ResponseOp(None, Some(PutResponse(None, prevKv)), None)]
    case ResponseOp(None, None, Some(DeleteResponse(_, deleted, prevKvs))) =>
      [ResponseOp(None, None, Some(DeleteResponse(None, deleted, prevKvs)))]
    case ResponseOp(None, None, None) => []
  }

  function FirstAnswers(ops: seq<ResponseOp>): seq<ResponseOp> {
    if ops == [] then [] else FirstAnswer(ops[0]) + FirstAnswers(ops[1..])
  }

  // Main result: what the client gets back of any list the server builds.
  lemma {:induction false} WhatArrives(ops: seq<ResponseOp>)
    ensures AllFromProto(AllToProto(ops)) == FirstAnswers(ops)
  {
    hide ToProto, FromProto, OneAnswer, FirstAnswer;
    if ops != [] {
      WhatArrives(ops[1..]);
      SendFirst(ops);
      SendsFirstAnswer(ops[0]);
    }
  }

  lemma SendsFirstAnswer(op: ResponseOp)
    ensures AllFromProto(ToProto(op)) == FirstAnswer(op)
  {
    var sent := ToProto(op);
    if sent != [] {
      assert sent[1..] == [];
      assert AllFromProto(sent) == FromProto(sent[0]);
    }
  }

  /** A wire answer with the body the getters make of a nil one; none without a case. */
  function Filled(r: Option<Response>): seq<Option<Response>> {
    match r
    case Some(ResponseRange(None)) => [Some(ResponseRange(Some(RangeBody([], false, 0))))]
    case Some(ResponsePut(None)) => [Some(ResponsePut(Some(PutBody(None))))]
    case Some(ResponseDeleteRange(None)) => [Some(ResponseDeleteRange(Some(DeleteBody(0, []))))]
    case Some(NoResponse) => []
    case Some(x) => [Some(x)]
    case None => []
  }

  function AllFilled(rs: seq<Option<Response>>): seq<Option<Response>> {
    if rs == [] then [] else Filled(rs[0]) + AllFilled(rs[1..])
  }

  lemma FillOne(r: Option<Response>)
    ensures AllToProto(FromProto(r)) == Filled(r)
  {
    var got := FromProto(r);
    if got != [] {
      assert got[1..] == [];
      assert AllToProto(got) == ToProto(got[0]);
    }
  }

  lemma {:induction false} AllToProtoAppend(a: seq<ResponseOp>, b: seq<ResponseOp>)
    ensures AllToProto(a + b) == AllToProto(a) + AllToProto(b)
  {
    hide ToProto;
    if a == [] {
      assert a + b == b;
    } else {
      assert (a + b)[1..] == a[1..] + b && (a + b)[0] == a[0];
      AllToProtoAppend(a[1..], b);
    }
  }

  // The other way round: what was read off the wire says what stood there, nil
  // bodies being empty ones.
  lemma {:induction false} WhatWasSent(rs: seq<Option<Response>>)
    ensures AllToProto(AllFromProto(rs)) == AllFilled(rs)
  {
    hide ToProto, FromProto, Filled;
    if rs != [] {
      WhatWasSent(rs[1..]);
      FillOne(rs[0]);
      AllToProtoAppend(FromProto(rs[0]), AllFromProto(rs[1..]));
    }
  }

  // An answer with a header comes back without it.
  lemma HeaderIsLost()
    ensures var h := ResponseHeader(1, 1, 1, 1, 1);
            AllFromProto(AllToProto([ResponseOp(Some(GetResponse(Some(h), [], false, 0)), None, None)]))
            == [ResponseOp(Some(GetResponse(None, [], false, 0)), None, None)]
  {
    var op := ResponseOp(Some(GetResponse(Some(ResponseHeader(1, 1, 1, 1, 1)), [], false, 0)), None, None);
    assert [op][1..] == [] && AllToProto([op]) == ToProto(op);
    var r := ToProto(op);
    assert r[1..] == [] && AllFromProto(r) == FromProto(r[0]);
  }
}
