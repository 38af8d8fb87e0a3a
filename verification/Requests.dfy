// TxnRequest on the wire, and the translation between a transaction operation
// and the request: toTxnRequest in the client, convTxnToRequest in the server
// that answers it.
module Requests {
  import opened Common
  import opened Varint
  import opened Wire
  import opened Decoding
  import opened Messages
  import opened RoundTrip
  import opened KeyRange
  import opened Ops
  import opened Writer
  import Marshal
  import UnmarshalLoops

  datatype TxnRequest = TxnRequest(
    table: Option<bytes>, compare: seq<Option<Compare>>, success: seq<Option<RequestOp>>, failure: seq<Option<RequestOp>>,
    unknown: bytes)

  const TXN_REQUEST := TxnRequest(None, [], [], [], [])

  // ---------- the codec ----------

  function EncodeTxnRequest(m: TxnRequest): bytes {
    OptBytes(1, m.table) + (Repeated(2, ComparePayloads(m.compare)) + (Repeated(3, RequestOpPayloads(m.success)) +
    (Repeated(4, RequestOpPayloads(m.failure)) + m.unknown)))
  }

  function SizeTxnRequest(m: TxnRequest): nat {
    SizeBytes(m.table) + SizeCompares(m.compare) + SizeRequestOps(m.success) + SizeRequestOps(m.failure) + |m.unknown|
  }

  function ApplyTxnRequest(m: TxnRequest, r: Record): Result<TxnRequest, DecodeError> {
    match r
    case Payload(1, p) => Ok(m.(table := Some(p)))
    case Payload(2, p) => var x :- UnmarshalCompare(COMPARE, p); Ok(m.(compare := m.compare + [Some(x)]))
    case Payload(3, p) => var x :- UnmarshalRequestOp(REQUEST_OP, p); Ok(m.(success := m.success + [Some(x)]))
    case Payload(4, p) => var x :- UnmarshalRequestOp(REQUEST_OP, p); Ok(m.(failure := m.failure + [Some(x)]))
    case Unknown(raw) => Ok(m.(unknown := m.unknown + raw))
    case _ => Ok(m)
  }

  function UnmarshalTxnRequest(m: TxnRequest, b: bytes): Result<TxnRequest, DecodeError> {
    Unmarshal(ApplyTxnRequest, TTxnRequest, m, b)
  }

  method MarshalTxnRequest(m: TxnRequest, dAtA: array<byte>, hi: nat) returns (n: nat)
    requires SizeTxnRequest(m) <= hi <= dAtA.Length <= MAX_INT
    modifies dAtA
    ensures n == SizeTxnRequest(m) && Wrote(old(dAtA[..]), dAtA[..], hi - n, hi, EncodeTxnRequest(m))
  {
    hide Wrote, SizeBytes, SizeCompares, SizeRequestOps, OptBytes, Repeated, ComparePayloads, RequestOpPayloads;
    ghost var s0 := dAtA[..];
    var i := CopyBefore(dAtA, hi, m.unknown);
    ghost var out := m.unknown;
    i := Marshal.MarshalRequestOps(m.failure, dAtA, i, 0x22, s0, hi, out);
    out := Repeated(4, RequestOpPayloads(m.failure)) + out;
    i := Marshal.MarshalRequestOps(m.success, dAtA, i, 0x1a, s0, hi, out);
    out := Repeated(3, RequestOpPayloads(m.success)) + out;
    i := Marshal.MarshalCompares(m.compare, dAtA, i, 0x12, s0, hi, out);
    out := Repeated(2, ComparePayloads(m.compare)) + out;
    i := PutBytes(dAtA, i, 0xa, m.table, s0, hi, out);
    n := hi - i;
  }

  method UnmarshalTxnRequestAt(m: TxnRequest, dAtA: array<byte>, lo: nat, hi: nat) returns (r: Result<TxnRequest, DecodeError>)
    requires lo <= hi <= dAtA.Length <= MAX_INT
    ensures r == UnmarshalTxnRequest(m, dAtA[lo..hi])
  {
    hide ReadRecord, UnmarshalCompare, UnmarshalRequestOp;
    var cur, iNdEx := m, lo;
    while iNdEx < hi
      invariant lo <= iNdEx <= hi
      invariant Decode(ApplyTxnRequest, TTxnRequest, cur, dAtA[iNdEx..hi], iNdEx - lo) == Decode(ApplyTxnRequest, TTxnRequest, m, dAtA[lo..hi], 0)
    {
      var s, next := UnmarshalLoops.NextRecord(TTxnRequest, dAtA, lo, hi, iNdEx);
      if s.Err? {
        return Err(s.error);
      }
      SubSlice(dAtA[..], iNdEx, hi, next - iNdEx, hi - iNdEx);
      match s.value {
        case PayloadSlot(field, from, to) =>
          match field {
            case 1 => cur := cur.(table := Some(dAtA[from..to]));
            case 2 =>
              var x := UnmarshalLoops.UnmarshalCompareAt(COMPARE, dAtA, from, to);
              if x.Err? {
                return Err(x.error);
              }
              cur := cur.(compare := cur.compare + [Some(x.value)]);
            case 3 =>
              var x := UnmarshalLoops.UnmarshalRequestOpAt(REQUEST_OP, dAtA, from, to);
              if x.Err? {
                return Err(x.error);
              }
              cur := cur.(success := cur.success + [Some(x.value)]);
            case 4 =>
              var x := UnmarshalLoops.UnmarshalRequestOpAt(REQUEST_OP, dAtA, from, to);
              if x.Err? {
                return Err(x.error);
              }
              cur := cur.(failure := cur.failure + [Some(x.value)]);
            case _ =>
          }
        case NumberSlot(field, v) =>
        case UnknownSlot(from, to) =>
          cur := cur.(unknown := cur.unknown + dAtA[from..to]);
      }
      iNdEx := next;
    }
    return Ok(cur);
  }

  // ---------- round trip of the request ----------

  function NormTxnRequest(m: TxnRequest): TxnRequest {
    TxnRequest(Plain(m.table), NormCompares(m.compare), NormRequestOps(m.success), NormRequestOps(m.failure), m.unknown)
  }

  predicate TxnRequestOk(m: TxnRequest) {
    && WholeUnknown(TTxnRequest, m.unknown)
    && (forall e <- m.compare :: CompareOk(e))
    && (forall e <- m.success :: RequestOpOk(e))
    && (forall e <- m.failure :: RequestOpOk(e))
  }

  lemma {:induction false} ApplyCompareList(m: TxnRequest, s: seq<Option<Compare>>)
    requires (forall e <- s :: CompareOk(e)) && |Repeated(2, ComparePayloads(s))| <= MAX_INT
    ensures ApplyAll(ApplyTxnRequest, m, 2, ComparePayloads(s)) == Ok(m.(compare := m.compare + NormCompares(s)))
  {
    hide UnmarshalCompare, NormCompares, ComparePayloads, Repeated, ApplyAll;
    ComparesDecode(s, 2);
    ApplyAllAdds(ApplyTxnRequest, 2, ComparePayloads(s), (zs: seq<Option<Compare>>) => m.(compare := zs), m.compare, NormCompares(s));
  }

  lemma {:induction false} ApplySuccessList(m: TxnRequest, s: seq<Option<RequestOp>>)
    requires (forall e <- s :: RequestOpOk(e)) && |Repeated(3, RequestOpPayloads(s))| <= MAX_INT
    ensures ApplyAll(ApplyTxnRequest, m, 3, RequestOpPayloads(s)) == Ok(m.(success := m.success + NormRequestOps(s)))
  {
    hide UnmarshalRequestOp, NormRequestOps, RequestOpPayloads, Repeated, ApplyAll;
    RequestOpsDecode(s, 3);
    ApplyAllAdds(ApplyTxnRequest, 3, RequestOpPayloads(s), (zs: seq<Option<RequestOp>>) => m.(success := zs), m.success, NormRequestOps(s));
  }

  lemma {:induction false} ApplyFailureList(m: TxnRequest, s: seq<Option<RequestOp>>)
    requires (forall e <- s :: RequestOpOk(e)) && |Repeated(4, RequestOpPayloads(s))| <= MAX_INT
    ensures ApplyAll(ApplyTxnRequest, m, 4, RequestOpPayloads(s)) == Ok(m.(failure := m.failure + NormRequestOps(s)))
  {
    hide UnmarshalRequestOp, NormRequestOps, RequestOpPayloads, Repeated, ApplyAll;
    RequestOpsDecode(s, 4);
    ApplyAllAdds(ApplyTxnRequest, 4, RequestOpPayloads(s), (zs: seq<Option<RequestOp>>) => m.(failure := zs), m.failure, NormRequestOps(s));
  }

  lemma KeepsUnknownBytes(m: TxnRequest)
    ensures KeepsUnknown(ApplyTxnRequest, (u: bytes) => m.(unknown := u))
  {
  }

  function MergeTxnRequest(m: TxnRequest, x: TxnRequest): TxnRequest {
    TxnRequest(OverBytes(m.table, x.table), m.compare + NormCompares(x.compare), m.success + NormRequestOps(x.success),
      m.failure + NormRequestOps(x.failure), m.unknown + x.unknown)
  }

  lemma DecodeOntoTxnRequest(m: TxnRequest, x: TxnRequest)
    requires TxnRequestOk(x) && |EncodeTxnRequest(x)| <= MAX_INT
    ensures UnmarshalTxnRequest(m, EncodeTxnRequest(x)) == Ok(MergeTxnRequest(m, x))
  {
    hide Decode, ApplyAll, Repeated, OptBytes, CompareOk, RequestOpOk, WholeUnknown;
    hide ComparePayloads, RequestOpPayloads, NormCompares, NormRequestOps;
    var r := MergeTxnRequest(m, x);
    var m1 := m.(table := r.table); var m2 := m1.(compare := r.compare); var m3 := m2.(success := r.success); var m4 := m3.(failure := r.failure);
    var s4 := x.unknown;
    var s3 := Repeated(4, RequestOpPayloads(x.failure)) + s4;
    var s2 := Repeated(3, RequestOpPayloads(x.success)) + s3;
    var s1 := Repeated(2, ComparePayloads(x.compare)) + s2;
    TableAssigned(m, OrElse(x.table, []));
    hide ApplyTxnRequest;
    ApplyCompareList(m1, x.compare);
    ApplySuccessList(m2, x.success);
    ApplyFailureList(m3, x.failure);
    KeepsUnknownBytes(m4);
    StepUnknown(ApplyTxnRequest, TTxnRequest, m4, (u: bytes) => m4.(unknown := u), m.unknown, s4, r);
    StepRepeated(ApplyTxnRequest, TTxnRequest, m3, m4, 4, RequestOpPayloads(x.failure), s4, r);
    StepRepeated(ApplyTxnRequest, TTxnRequest, m2, m3, 3, RequestOpPayloads(x.success), s3, r);
    StepRepeated(ApplyTxnRequest, TTxnRequest, m1, m2, 2, ComparePayloads(x.compare), s2, r);
    StepOptBytes(ApplyTxnRequest, TTxnRequest, m, m1, 1, x.table, s1, r);
  }

  lemma TableAssigned(m: TxnRequest, p: bytes)
    ensures ApplyTxnRequest(m, Payload(1, p)) == Ok(m.(table := Some(p)))
  {
  }

  lemma RoundTripTxnRequest(x: TxnRequest)
    requires TxnRequestOk(x) && |EncodeTxnRequest(x)| <= MAX_INT
    ensures UnmarshalTxnRequest(TXN_REQUEST, EncodeTxnRequest(x)) == Ok(NormTxnRequest(x))
  {
    hide UnmarshalTxnRequest, EncodeTxnRequest, NormCompares, NormRequestOps;
    DecodeOntoTxnRequest(TXN_REQUEST, x);
    NothingBefore(NormCompares(x.compare)); NothingBefore(NormRequestOps(x.success)); NothingBefore(NormRequestOps(x.failure));
    NothingBefore(x.unknown);
  }

  // ---------- operation to request ----------

  /** toRequestOp; operations a transaction cannot hold panic. */
  function ToRequestOp(op: Op): Result<RequestOp, Panic> {
    match op.t
    case Get => Ok(RequestOp(RequestRange(Some(Range(op.key, op.end, op.limit, op.keysOnly, op.countOnly, []))), []))
    case PutOp => Ok(RequestOp(RequestPut(Some(Put(op.key, op.val, op.prevKV, []))), []))
    case Delete => Ok(RequestOp(RequestDeleteRange(Some(DeleteRange(op.key, op.end, op.prevKV, op.count, []))), []))
    case _ => Err(UnsupportedTxnOp)
  }

  function ToRequestOps(ops: seq<Op>): Result<seq<Option<RequestOp>>, Panic> {
    if ops == [] then Ok([])
    else
      var r :- ToRequestOp(ops[0]);
      var rs :- ToRequestOps(ops[1..]);
      Ok([Some(r)] + rs)
  }

  function ToTxnRequest(table: bytes, op: Op): Result<TxnRequest, Panic> {
    var thenOps :- ToRequestOps(op.thenOps);
    var elseOps :- ToRequestOps(op.elseOps);
    Ok(TxnRequest(Some(table), op.cmps, thenOps, elseOps, []))
  }

  // ---------- request to operation ----------

  /** convToOp; a request without a body panics. */
  function ConvToOp(m: Option<RequestOp>): Result<Op, Panic> {
    if m.None? then Err(Panic.NilBody)
    else match m.value.request {
      case RequestRange(Some(b)) =>
        Ok(OP.(t := Get, key := b.key, end := b.rangeEnd, limit := b.limit, keysOnly := b.keysOnly, countOnly := b.countOnly))
      case RequestPut(Some(b)) => Ok(OP.(t := PutOp, key := b.key, val := b.value, prevKV := b.prevKv))
      case RequestDeleteRange(Some(b)) =>
        Ok(OP.(t := Delete, key := b.key, end := b.rangeEnd, prevKV := b.prevKv, count := b.count))
      case NoRequest => Err(UnsupportedTxnOp)
      case _ => Err(Panic.NilBody)
    }
  }

  function ConvToOps(ms: seq<Option<RequestOp>>): Result<seq<Op>, Panic> {
    if ms == [] then Ok([])
    else
      var op :- ConvToOp(ms[0]);
      var ops :- ConvToOps(ms[1..]);
      Ok([op] + ops)
  }

  /** RecordedRequest: the table and the operation. */
  function ConvTxnToRequest(m: TxnRequest): Result<(bytes, Op), Panic> {
    var thenOps :- ConvToOps(m.success);
    var elseOps :- ConvToOps(m.failure);
    Ok((OrElse(m.table, []), OpTxn(m.compare, thenOps, elseOps)))
  }

  function Prepend<T>(done: seq<T>, r: Result<seq<T>, Panic>): Result<seq<T>, Panic> {
    match r
    case Ok(rest) => Ok(done + rest)
    case Err(e) => Err(e)
  }

  lemma PrependMore<T>(done: seq<T>, x: T, r: Result<seq<T>, Panic>)
    ensures Prepend([], r) == r && Prepend(done, Ok([])) == Ok(done)
    ensures Prepend(done, Prepend([x], r)) == Prepend(done + [x], r)
  {
    if r.Ok? {
      assert [] + r.value == r.value;
      assert done + ([x] + r.value) == done + [x] + r.value;
    }
    assert done + [] == done;
  }

  /** The loops that fill a slice made beforehand; the first panic ends them. */
  method ToRequestOpsLoop(ops: seq<Op>) returns (r: Result<seq<Option<RequestOp>>, Panic>)
    ensures r == ToRequestOps(ops)
  {
    var out := new Option<RequestOp>[|ops|](_ => None);
    PrependMore([], None, ToRequestOps(ops));
    for i := 0 to |ops|
      invariant ToRequestOps(ops) == Prepend(out[..i], ToRequestOps(ops[i..]))
    {
      assert ops[i..][1..] == ops[i + 1..];
      var x := ToRequestOp(ops[i]);
      if x.Err? {
        return Err(x.error);
      }
      PrependMore(out[..i], Some(x.value), ToRequestOps(ops[i + 1..]));
      assert ToRequestOps(ops[i..]) == Prepend([Some(x.value)], ToRequestOps(ops[i + 1..]));
      ghost var done := out[..i];
      out[i] := Some(x.value);
      assert out[..i + 1] == done + [Some(x.value)];
    }
    PrependMore(out[..], None, Ok([]));
    assert out[..] == out[..|ops|];
    return Ok(out[..]);
  }

  method ConvToOpsLoop(ms: seq<Option<RequestOp>>) returns (r: Result<seq<Op>, Panic>)
    ensures r == ConvToOps(ms)
  {
    var out := new Op[|ms|](_ => OP);
    PrependMore([], OP, ConvToOps(ms));
    for i := 0 to |ms|
      invariant ConvToOps(ms) == Prepend(out[..i], ConvToOps(ms[i..]))
    {
      assert ms[i..][1..] == ms[i + 1..];
      var x := ConvToOp(ms[i]);
      if x.Err? {
        return Err(x.error);
      }
      PrependMore(out[..i], x.value, ConvToOps(ms[i + 1..]));
      assert ConvToOps(ms[i..]) == Prepend([x.value], ConvToOps(ms[i + 1..]));
      ghost var done := out[..i];
      out[i] := x.value;
      assert out[..i + 1] == done + [x.value];
    }
    PrependMore(out[..], OP, Ok([]));
    assert out[..] == out[..|ms|];
    return Ok(out[..]);
  }

  // ---------- what a request carries of the options ----------

  // Main result: the request of a Get has the limit of its last WithLimit and
  // exactly the flags its options ask for.
  lemma {:induction false} RequestOfGet(key: bytes, opts: seq<OpOption>)
    requires OpGet(key, opts).Ok?
    ensures var op := OpGet(key, opts).value;
            var key' := if Raised(key, opts) then [0] else key;
            ToRequestOp(op) ==
              Ok(RequestOp(RequestRange(Some(Range(Some(key'), op.end, LastLimit(opts, 0), WithKeysOnly in opts, WithCountOnly in opts, []))), []))
  {
    var op := OP.(t := Get, key := Some(key));
    OptionsSet(op, opts);
    KeyAfter(op, opts);
    hide ApplyOpts;
  }

  lemma RequestOfPut(key: bytes, val: bytes, opts: seq<OpOption>)
    requires OpPut(key, val, opts).Ok?
    ensures ToRequestOp(OpPut(key, val, opts).value) ==
              Ok(RequestOp(RequestPut(Some(Put(Some(key), Some(val), WithPrevKV in opts, []))), []))
  {
    PutAcceptsWhen(key, val, opts);
    hide OpPut;
  }

  lemma RequestOfDelete(key: bytes, opts: seq<OpOption>)
    requires OpDelete(key, opts).Ok?
    ensures var op := OpDelete(key, opts).value;
            var key' := if Raised(key, opts) then [0] else key;
            ToRequestOp(op) ==
              Ok(RequestOp(RequestDeleteRange(Some(DeleteRange(Some(key'), op.end, WithPrevKV in opts, WithCount in opts, []))), []))
  {
    var op := OP.(t := Delete, key := Some(key));
    OptionsSet(op, opts);
    KeyAfter(op, opts);
    hide ApplyOpts;
  }

  // The bytes of a request: which field of the message each field of the operation is.
  lemma BytesOfRequest(op: Op)
    requires ToRequestOp(op).Ok?
    ensures op.t in {Get, PutOp, Delete}
    ensures op.t == Get ==>
      EncodeRequestOp(ToRequestOp(op).value) == PayloadField(1, OptBytes(1, op.key) + OptBytes(2, op.end) + OptNumber(3, op.limit) + OptBool(4, op.keysOnly) + OptBool(5, op.countOnly))
    ensures op.t == PutOp ==>
      EncodeRequestOp(ToRequestOp(op).value) == PayloadField(2, OptBytes(1, op.key) + OptBytes(2, op.val) + OptBool(3, op.prevKV))
    ensures op.t == Delete ==>
      EncodeRequestOp(ToRequestOp(op).value) == PayloadField(3, OptBytes(1, op.key) + OptBytes(2, op.end) + OptBool(4, op.prevKV) + OptBool(5, op.count))
  {
    hide PayloadField, OptBytes, OptNumber, OptBool;
    if op.t == Get {
      assert EncodeRange(ToRequestOp(op).value.request.range.value) ==
        OptBytes(1, op.key) + OptBytes(2, op.end) + OptNumber(3, op.limit) + OptBool(4, op.keysOnly) + OptBool(5, op.countOnly);
    } else if op.t == PutOp {
      assert EncodePut(ToRequestOp(op).value.request.put.value) == OptBytes(1, op.key) + OptBytes(2, op.val) + OptBool(3, op.prevKV);
    } else {
      assert EncodeDeleteRange(ToRequestOp(op).value.request.del.value) ==
        OptBytes(1, op.key) + OptBytes(2, op.end) + OptBool(4, op.prevKV) + OptBool(5, op.count);
    }
  }

  // ---------- the two translations undo each other ----------

  predicate InTxn(op: Op) { op.t in {Get, PutOp, Delete} }

  /** What of an operation a transaction carries: the fields of its kind, with
      empty keys and values as nil. */
  function Carried(op: Op): Op {
    match op.t
    case Get => OP.(t := Get, key := Plain(op.key), end := Plain(op.end), limit := op.limit, keysOnly := op.keysOnly, countOnly := op.countOnly)
    case PutOp => OP.(t := PutOp, key := Plain(op.key), val := Plain(op.val), prevKV := op.prevKV)
    case _ => OP.(t := op.t, key := Plain(op.key), end := Plain(op.end), prevKV := op.prevKV, count := op.count)
  }

  function CarriedAll(ops: seq<Op>): seq<Op> {
    if ops == [] then [] else [Carried(ops[0])] + CarriedAll(ops[1..])
  }

  lemma {:induction false} TranslatedOps(ops: seq<Op>)
    ensures ToRequestOps(ops).Ok? <==> forall op <- ops :: InTxn(op)
    ensures ToRequestOps(ops).Ok? ==> ConvToOps(NormRequestOps(ToRequestOps(ops).value)) == Ok(CarriedAll(ops))
    ensures ToRequestOps(ops).Ok? ==> forall e <- ToRequestOps(ops).value :: RequestOpOk(e)
  {
    if ops != [] {
      TranslatedOps(ops[1..]);
      assert InTxn(ops[0]) <==> ToRequestOp(ops[0]).Ok?;
      assert ops == [ops[0]] + ops[1..];
      if ToRequestOps(ops).Ok? {
        var r := ToRequestOp(ops[0]).value;
        var rs := ToRequestOps(ops).value;
        OneTranslated(ops[0]);
        assert rs[0] == Some(r) && NormRequestOps(rs) == [Some(NormRequestOp(r))] + NormRequestOps(rs[1..]);
        assert NormRequestOps(rs)[1..] == NormRequestOps(rs[1..]);
      }
    }
  }

  lemma OneTranslated(op: Op)
    requires InTxn(op)
    ensures ConvToOp(Some(NormRequestOp(ToRequestOp(op).value))) == Ok(Carried(op))
    ensures RequestOpOk(Some(ToRequestOp(op).value))
  {
    EmptyIsWhole(TRequestOp); EmptyIsWhole(TRange); EmptyIsWhole(TPut); EmptyIsWhole(TDeleteRange);
  }

  // Main result: a transaction sent through toTxnRequest, MarshalVT, UnmarshalVT
  // and convTxnToRequest arrives with the same comparisons and operations in
  // order; it is refused exactly when some operation cannot be in a transaction.
  lemma EndToEnd(table: bytes, op: Op)
    requires op.t == TxnOp && forall c <- op.cmps :: CompareOk(c)
    requires ToTxnRequest(table, op).Ok? ==> |EncodeTxnRequest(ToTxnRequest(table, op).value)| <= MAX_INT
    ensures ToTxnRequest(table, op).Ok? <==> forall o <- op.thenOps + op.elseOps :: InTxn(o)
    ensures ToTxnRequest(table, op).Ok? ==>
              var received := UnmarshalTxnRequest(TXN_REQUEST, EncodeTxnRequest(ToTxnRequest(table, op).value));
              received.Ok? && ConvTxnToRequest(received.value) ==
                Ok((table, OpTxn(NormCompares(op.cmps), CarriedAll(op.thenOps), CarriedAll(op.elseOps))))
  {
    TranslatedOps(op.thenOps);
    TranslatedOps(op.elseOps);
    if ToTxnRequest(table, op).Ok? {
      var x := ToTxnRequest(table, op).value;
      EmptyIsWhole(TTxnRequest);
      RoundTripTxnRequest(x);
    }
  }

  // What arrives selects the same keys and writes just as the original did.
  lemma {:induction false} CarriedMeansTheSame(op: Op, k: bytes)
    requires InTxn(op)
    ensures IsWrite(Carried(op)) <==> IsWrite(op)
    ensures op.t != PutOp ==> (Selects(Carried(op), k) <==> Selects(op, k))
  {
    hide Below;
  }

  predicate HasBody(r: Request) {
    r != RequestRange(None) && r != RequestPut(None) && r != RequestDeleteRange(None)
  }

  // The other way round: a request made from a recognised request is that
  // request, but for unknown fields.
  lemma RequestOfConverted(m: RequestOp)
    ensures ConvToOp(Some(m)).Ok? <==> m.request != NoRequest && HasBody(m.request)
    ensures ConvToOp(Some(m)).Ok? ==>
              var back := ToRequestOp(ConvToOp(Some(m)).value);
              back.Ok? && (back.value == m <==> m.unknown == [] && match m.request {
                case RequestRange(Some(b)) => b.unknown == []
                case RequestPut(Some(b)) => b.unknown == []
                case RequestDeleteRange(Some(b)) => b.unknown == []
                case _ => false
              })
  {
  }
}
