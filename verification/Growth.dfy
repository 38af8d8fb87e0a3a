// How much longer the re-encoding of a decoded message can be than the input:
// at most twice as long (a five byte negative enum takes ten bytes).
module Growth {
  import opened Common
  import opened Varint
  import opened Wire
  import opened Messages

  // ---------- lengths of varints ----------

  function L(v: nat): nat { |EncodeVarint(v)| }

  lemma {:induction false} LMonotone(x: nat, y: nat)
    requires x <= y
    ensures 1 <= L(x) <= L(y)
    decreases y
  {
    if y >= 128 && x >= 128 { LMonotone(x / 128, y / 128); }
  }

  lemma LPadded(x: nat)
    ensures L(128 * x + 127) <= 1 + L(x)
  {
    assert (128 * x + 127) / 128 == x;
  }

  lemma LSum(x: nat, y: nat)
    ensures L(x + y) <= L(x) + L(y)
    ensures L(2 * x) <= L(x) + 1
  {
    var z := if x < y then y else x;
    LMonotone(0, x); LMonotone(0, y);
    LMonotone(x + y, 128 * z + 127);
    LPadded(z);
    LMonotone(2 * x, 128 * x + 127);
    LPadded(x);
  }

  // A varint that was read is at least as long as the shortest one of its value.
  lemma {:induction false} ReadIsNoShorter(b: bytes, k: nat)
    requires k <= 10 && RawVarint(b, k).Ok?
    ensures L(RawVarint(b, k).value.0) <= RawVarint(b, k).value.1
    decreases 10 - k
  {
    if b[0] >= 128 {
      var (v, n) := RawVarint(b[1..], k + 1).value;
      ReadIsNoShorter(b[1..], k + 1);
      LMonotone(b[0] - 128 + 128 * v, 128 * v + 127);
      LPadded(v);
    }
  }

  lemma VarintIsNoShorter(b: bytes, width: Width)
    requires ReadVarint(b, width).Ok?
    ensures L(ReadVarint(b, width).value.0) <= ReadVarint(b, width).value.1
  {
    ReadIsNoShorter(b, 0);
    var raw := RawVarint(b, 0).value.0;
    assert Cut(raw, width) <= raw;
    LMonotone(Cut(raw, width), raw);
  }

  // ---------- what a record took on the wire, at least ----------

  function Weight(r: Record): nat {
    match r
    case Number(_, v) => 1 + L(v)
    case Payload(_, p) => 1 + L(|p|) + |p|
    case Unknown(raw) => |raw|
  }

  lemma RecordWeighs(t: MsgType, b: bytes, pos: nat)
    requires pos + |b| <= MAX_INT && ReadRecord(t, b, pos).Ok?
    ensures Weight(ReadRecord(t, b, pos).value.0) <= ReadRecord(t, b, pos).value.1
  {
    hide ReadVarint, FieldNum, WireType, L, KindOf;
    var (wire, k) := ReadVarint(b, W64).value;
    if ReadVarint(b[k..], W64).Ok? {
      VarintIsNoShorter(b[k..], W64);
      LengthWeighs(b, k, pos);
    }
    if ReadVarint(b[k..], W32).Ok? { VarintIsNoShorter(b[k..], W32); }
  }

  lemma LengthWeighs(b: bytes, k: nat, pos: nat)
    requires k <= |b| && pos + |b| <= MAX_INT && ReadVarint(b[k..], W64).Ok?
    ensures ReadLength(b, k, pos).Ok? ==>
              var (from, to) := ReadLength(b, k, pos).value; k + L(to - from) <= from
  {
    VarintIsNoShorter(b[k..], W64);
    hide ReadVarint, L;
    if ReadLength(b, k, pos).Ok? {
      var (len, n) := ReadVarint(b[k..], W64).value;
      assert Int64(len) == len;
    }
  }

  ghost predicate Bounded<M(!new)>(apply: (M, Record) -> Result<M, DecodeError>, size: M -> nat) {
    forall m: M, r: Record :: apply(m, r).Ok? ==> size(apply(m, r).value) <= size(m) + 2 * Weight(r)
  }

  lemma {:induction false} DecodeIsBounded<M(!new)>(apply: (M, Record) -> Result<M, DecodeError>, t: MsgType, size: M -> nat, m: M, b: bytes, pos: nat)
    requires pos + |b| <= MAX_INT && Bounded(apply, size) && Decode(apply, t, m, b, pos).Ok?
    ensures size(Decode(apply, t, m, b, pos).value) <= size(m) + 2 * |b|
    decreases |b|
  {
    hide ReadRecord, Weight;
    if b != [] {
      var (r, n) := ReadRecord(t, b, pos).value;
      RecordWeighs(t, b, pos);
      DecodeIsBounded(apply, t, size, apply(m, r).value, b[n..], pos + n);
    }
  }

  // ---------- fields ----------

  lemma FieldLengths(field: nat, v: u64, p: bytes)
    requires 1 <= field < 16
    ensures |NumberField(field, v)| == 1 + L(v) && |PayloadField(field, p)| == 1 + L(|p|) + |p|
  {
    assert |Tag(field, 0)| == |Tag(field, 2)| == 1;
  }

  lemma RangeEndLength(p: bytes)
    ensures |PayloadField(64, p)| == 2 + L(|p|) + |p|
  {
    assert EncodeVarint(514) == [130] + EncodeVarint(4);
  }

  // A number that was read, written again as an int64 or as a sign-extended enum.
  lemma NumberBounded(v: u64)
    ensures L(UInt64(Int64(v))) <= 1 + 2 * L(v) && L(UInt64(Int32(v))) <= 1 + 2 * L(v) && L(1) == 1 && L(v) >= 1
  {
    LMonotone(0, v);
    assert UInt64(Int64(v)) == v;
    if Int32(v) >= 0 {
      assert UInt64(Int32(v)) <= v;
      LMonotone(UInt64(Int32(v)), v);
    } else {
      assert v >= TWO_31;
      FiveBytes(v);
      TenBytes(UInt64(Int32(v)));
    }
  }

  lemma FiveBytes(v: nat)
    requires v >= TWO_31
    ensures L(v) >= 5
  {
    LMonotone(TWO_31, v);
    assert TWO_31 / 128 / 128 / 128 / 128 == 8;
    assert L(8) == 1 && L(TWO_31 / 128 / 128 / 128) == 2 && L(TWO_31 / 128 / 128) == 3 && L(TWO_31 / 128) == 4;
  }

  lemma TenBytes(v: u64)
    ensures L(v) <= 10
  {
    SizeOfVarintIsLength(v);
    LMonotone(v, TWO_64 - 1);
    TopBitTakesTen(TWO_64 - 1);
  }

  // A nested message that grew by at most twice its payload p.
  lemma NestedBounded(prior: nat, now: nat, p: nat)
    requires now <= prior + 2 * p
    ensures L(now) + now <= L(prior) + prior + 2 * (1 + L(p) + p)
    ensures prior == 0 ==> 1 + L(now) + now <= 2 * (1 + L(p) + p)
  {
    LMonotone(now, prior + 2 * p);
    LSum(prior, 2 * p); LSum(p, p);
    if prior == 0 { LMonotone(now, 2 * p); }
  }

  lemma {:induction false} RepeatedAppend(field: nat, ps: seq<bytes>, p: bytes)
    ensures |Repeated(field, ps + [p])| == |Repeated(field, ps)| + |PayloadField(field, p)|
    decreases |ps|
  {
    hide PayloadField;
    if ps == [] {
      assert ([] + [p])[1..] == [] && ([] + [p])[0] == p;
      assert Repeated(field, [p]) == PayloadField(field, p) + Repeated(field, [p][1..]);
    } else {
      assert (ps + [p])[1..] == ps[1..] + [p] && (ps + [p])[0] == ps[0];
      RepeatedAppend(field, ps[1..], p);
    }
  }

  // ---------- leaf messages ----------

  lemma OptLengths(field: nat, p: Option<bytes>, v: i64, b: bool)
    requires 1 <= field < 16
    ensures |OptBytes(field, p)| == (if p.Some? && |p.value| > 0 then 1 + L(|p.value|) + |p.value| else 0)
    ensures |OptPayload(field, p)| == (if p.Some? then 1 + L(|p.value|) + |p.value| else 0)
    ensures |OptNumber(field, v)| == (if v != 0 then 1 + L(UInt64(v)) else 0)
    ensures |OptBool(field, b)| == (if b then 1 + L(1) else 0)
  {
    hide NumberField, PayloadField, L;
    FieldLengths(field, UInt64(v), OrElse(p, []));
    FieldLengths(field, 1, []);
  }

  // What a record adds to a field it is assigned to.
  lemma AssignBounded(field: nat, p: bytes, v: u64)
    requires 1 <= field < 16
    ensures |OptBytes(field, Some(p))| <= 2 * Weight(Payload(field, p)) && |OptPayload(field, Some(p))| <= 2 * Weight(Payload(field, p))
    ensures |OptNumber(field, Int64(v))| <= 2 * Weight(Number(field, v)) && |OptNumber(field, Int32(v))| <= 2 * Weight(Number(field, v))
    ensures |OptBool(field, v != 0)| <= 2 * Weight(Number(field, v))
    ensures |NumberField(field, v)| <= 2 * Weight(Number(field, v))
  {
    hide OptBytes, OptPayload, OptNumber, OptBool, L, NumberField;
    NumberBounded(v);
    OptLengths(field, Some(p), Int64(v), v != 0);
    OptLengths(field, Some(p), Int32(v), v != 0);
    FieldLengths(field, v, p);
  }

  lemma KeyValueBounded(m: KeyValue, r: Record)
    requires ApplyKeyValue(m, r).Ok?
    ensures |EncodeKeyValue(ApplyKeyValue(m, r).value)| <= |EncodeKeyValue(m)| + 2 * Weight(r)
  {
    hide OptBytes, OptNumber, Weight, Int64;
    match r {
      case Payload(1, p) => AssignBounded(1, p, 0);
      case Number(2, v) => AssignBounded(2, [], v);
      case Number(3, v) => AssignBounded(3, [], v);
      case Payload(4, p) => AssignBounded(4, p, 0);
      case Unknown(raw) => RawBounded(raw);
      case _ =>
    }
  }

  lemma RawBounded(raw: bytes)
    ensures |raw| <= 2 * Weight(Unknown(raw))
  {
  }

  lemma RangeBounded(m: Range, r: Record)
    requires ApplyRange(m, r).Ok?
    ensures |EncodeRange(ApplyRange(m, r).value)| <= |EncodeRange(m)| + 2 * Weight(r)
  {
    hide OptBytes, OptNumber, OptBool, Weight, Int64;
    match r {
      case Payload(1, p) => AssignBounded(1, p, 0);
      case Payload(2, p) => AssignBounded(2, p, 0);
      case Number(3, v) => AssignBounded(3, [], v);
      case Number(4, v) => AssignBounded(4, [], v);
      case Number(5, v) => AssignBounded(5, [], v);
      case Unknown(raw) => RawBounded(raw);
      case _ =>
    }
  }

  lemma PutBounded(m: Put, r: Record)
    requires ApplyPut(m, r).Ok?
    ensures |EncodePut(ApplyPut(m, r).value)| <= |EncodePut(m)| + 2 * Weight(r)
  {
    hide OptBytes, OptBool, Weight;
    match r {
      case Payload(1, p) => AssignBounded(1, p, 0);
      case Payload(2, p) => AssignBounded(2, p, 0);
      case Number(3, v) => AssignBounded(3, [], v);
      case Unknown(raw) => RawBounded(raw);
      case _ =>
    }
  }

  lemma DeleteRangeBounded(m: DeleteRange, r: Record)
    requires ApplyDeleteRange(m, r).Ok?
    ensures |EncodeDeleteRange(ApplyDeleteRange(m, r).value)| <= |EncodeDeleteRange(m)| + 2 * Weight(r)
  {
    hide OptBytes, OptBool, Weight;
    match r {
      case Payload(1, p) => AssignBounded(1, p, 0);
      case Payload(2, p) => AssignBounded(2, p, 0);
      case Number(4, v) => AssignBounded(4, [], v);
      case Number(5, v) => AssignBounded(5, [], v);
      case Unknown(raw) => RawBounded(raw);
      case _ =>
    }
  }

  lemma CompareBounded(m: Compare, r: Record)
    requires ApplyCompare(m, r).Ok?
    ensures |EncodeCompare(ApplyCompare(m, r).value)| <= |EncodeCompare(m)| + 2 * Weight(r)
  {
    hide OptBytes, OptNumber, Weight, Int32, EncodeTargetUnion;
    match r {
      case Number(1, v) => AssignBounded(1, [], v);
      case Number(2, v) => AssignBounded(2, [], v);
      case Payload(3, p) => AssignBounded(3, p, 0);
      case Payload(4, p) => AssignBounded(4, p, 0); TargetBounded(p);
      case Payload(64, p) => RangeEnd64Bounded(p);
      case Unknown(raw) => RawBounded(raw);
      case _ =>
    }
  }

  lemma TargetBounded(p: bytes)
    ensures EncodeTargetUnion(Some(Some(p))) == OptPayload(4, Some(p))
  {
  }

  lemma RangeEnd64Bounded(p: bytes)
    ensures |OptBytes(64, Some(p))| <= 2 * Weight(Payload(64, p))
  {
    RangeEndLength(p);
    LMonotone(0, |p|);
    hide L, PayloadField;
  }

  // ---------- messages with messages inside ----------

  // A decoded message is at most as long as the one decoded into plus twice the input.

  lemma LeavesBounded()
    ensures Bounded(ApplyKeyValue, (m: KeyValue) => |EncodeKeyValue(m)|)
    ensures Bounded(ApplyRange, (m: Range) => |EncodeRange(m)|)
    ensures Bounded(ApplyPut, (m: Put) => |EncodePut(m)|)
    ensures Bounded(ApplyDeleteRange, (m: DeleteRange) => |EncodeDeleteRange(m)|)
    ensures Bounded(ApplyCompare, (m: Compare) => |EncodeCompare(m)|)
  {
    hide Weight, EncodeKeyValue, EncodeRange, EncodePut, EncodeDeleteRange, EncodeCompare;
    hide ApplyKeyValue, ApplyRange, ApplyPut, ApplyDeleteRange, ApplyCompare;
    forall m: KeyValue, r: Record | ApplyKeyValue(m, r).Ok? ensures |EncodeKeyValue(ApplyKeyValue(m, r).value)| <= |EncodeKeyValue(m)| + 2 * Weight(r) { KeyValueBounded(m, r); }
    forall m: Range, r: Record | ApplyRange(m, r).Ok? ensures |EncodeRange(ApplyRange(m, r).value)| <= |EncodeRange(m)| + 2 * Weight(r) { RangeBounded(m, r); }
    forall m: Put, r: Record | ApplyPut(m, r).Ok? ensures |EncodePut(ApplyPut(m, r).value)| <= |EncodePut(m)| + 2 * Weight(r) { PutBounded(m, r); }
    forall m: DeleteRange, r: Record | ApplyDeleteRange(m, r).Ok? ensures |EncodeDeleteRange(ApplyDeleteRange(m, r).value)| <= |EncodeDeleteRange(m)| + 2 * Weight(r) { DeleteRangeBounded(m, r); }
    forall m: Compare, r: Record | ApplyCompare(m, r).Ok? ensures |EncodeCompare(ApplyCompare(m, r).value)| <= |EncodeCompare(m)| + 2 * Weight(r) { CompareBounded(m, r); }
  }

  lemma UnmarshalIsBounded<M(!new)>(apply: (M, Record) -> Result<M, DecodeError>, t: MsgType, size: M -> nat, m: M, b: bytes)
    requires Bounded(apply, size) && Unmarshal(apply, t, m, b).Ok?
    ensures size(Unmarshal(apply, t, m, b).value) <= size(m) + 2 * |b|
  {
    hide Decode;
    DecodeIsBounded(apply, t, size, m, b, 0);
  }

  // A written nested message after a decode of p into it: it was absent (now <= 2 |p|)
  // or present.
  lemma NestedField(field: nat, was: Option<bytes>, now: bytes, p: bytes)
    requires 1 <= field < 16 && |now| <= |OrElse(was, [])| + 2 * |p|
    ensures |PayloadField(field, now)| <= |OptPayload(field, was)| + 2 * Weight(Payload(field, p))
  {
    hide PayloadField, L;
    FieldLengths(field, 0, now);
    FieldLengths(field, 0, OrElse(was, []));
    NestedBounded(|OrElse(was, [])|, |now|, |p|);
  }

  lemma RequestOpBounded(m: RequestOp, r: Record)
    requires ApplyRequestOp(m, r).Ok?
    ensures |EncodeRequestOp(ApplyRequestOp(m, r).value)| <= |EncodeRequestOp(m)| + 2 * Weight(r)
  {
    LeavesBounded();
    EmptyEncodings();
    hide Bounded, Unmarshal, PayloadField, Weight, EncodeRange, EncodePut, EncodeDeleteRange, IntoNil;
    match r {
      case Payload(1, p) =>
        var was := if m.request.RequestRange? && m.request.range.Some? then m.request.range.value else RANGE;
        if m.request != RequestRange(None) {
          UnmarshalIsBounded(ApplyRange, TRange, (m: Range) => |EncodeRange(m)|, was, p);
          NestedField(1, if m.request.RequestRange? then Some(EncodeRange(was)) else None, EncodeRange(UnmarshalRange(was, p).value), p);
        }
      case Payload(2, p) =>
        var was := if m.request.RequestPut? && m.request.put.Some? then m.request.put.value else PUT;
        if m.request != RequestPut(None) {
          UnmarshalIsBounded(ApplyPut, TPut, (m: Put) => |EncodePut(m)|, was, p);
          NestedField(2, if m.request.RequestPut? then Some(EncodePut(was)) else None, EncodePut(UnmarshalPut(was, p).value), p);
        }
      case Payload(3, p) =>
        var was := if m.request.RequestDeleteRange? && m.request.del.Some? then m.request.del.value else DELETE_RANGE;
        if m.request != RequestDeleteRange(None) {
          UnmarshalIsBounded(ApplyDeleteRange, TDeleteRange, (m: DeleteRange) => |EncodeDeleteRange(m)|, was, p);
          NestedField(3, if m.request.RequestDeleteRange? then Some(EncodeDeleteRange(was)) else None, EncodeDeleteRange(UnmarshalDeleteRange(was, p).value), p);
        }
      case Unknown(raw) => RawBounded(raw);
      case _ =>
    }
  }

  lemma EmptyEncodings()
    ensures EncodeRange(RANGE) == [] && EncodePut(PUT) == [] && EncodeDeleteRange(DELETE_RANGE) == []
    ensures EncodeKeyValue(KEY_VALUE) == [] && EncodeCompare(COMPARE) == [] && EncodeRequestOp(REQUEST_OP) == []
    ensures EncodeTxn(TXN) == [] && EncodeCommand(COMMAND) == []
  {
  }

  lemma {:induction false} ComparesAppend(s: seq<Option<Compare>>, e: Option<Compare>)
    ensures ComparePayloads(s + [e]) == ComparePayloads(s) + [EncodeCompareElement(e)]
    decreases |s|
  {
    hide EncodeCompareElement;
    if s == [] {
      assert ([] + [e])[1..] == [] && ([] + [e])[0] == e;
    } else {
      assert (s + [e])[1..] == s[1..] + [e] && (s + [e])[0] == s[0];
      ComparesAppend(s[1..], e);
    }
  }

  lemma {:induction false} RequestOpsAppend(s: seq<Option<RequestOp>>, e: Option<RequestOp>)
    ensures RequestOpPayloads(s + [e]) == RequestOpPayloads(s) + [EncodeRequestOpElement(e)]
    decreases |s|
  {
    hide EncodeRequestOpElement;
    if s == [] {
      assert ([] + [e])[1..] == [] && ([] + [e])[0] == e;
    } else {
      assert (s + [e])[1..] == s[1..] + [e] && (s + [e])[0] == s[0];
      RequestOpsAppend(s[1..], e);
    }
  }

  lemma {:induction false} KeyValuesAppend(s: seq<Option<KeyValue>>, e: Option<KeyValue>)
    ensures KeyValuePayloads(s + [e]) == KeyValuePayloads(s) + [EncodeKeyValueElement(e)]
    decreases |s|
  {
    hide EncodeKeyValueElement;
    if s == [] {
      assert ([] + [e])[1..] == [] && ([] + [e])[0] == e;
    } else {
      assert (s + [e])[1..] == s[1..] + [e] && (s + [e])[0] == s[0];
      KeyValuesAppend(s[1..], e);
    }
  }

  lemma {:induction false} CommandsAppend(s: seq<Option<Command>>, e: Option<Command>)
    ensures CommandPayloads(s + [e]) == CommandPayloads(s) + [EncodeCommandElement(e)]
    decreases |s|
  {
    hide EncodeCommandElement;
    if s == [] {
      assert ([] + [e])[1..] == [] && ([] + [e])[0] == e;
    } else {
      assert (s + [e])[1..] == s[1..] + [e] && (s + [e])[0] == s[0];
      CommandsAppend(s[1..], e);
    }
  }

  // One more element, decoded from p into an empty message.
  lemma {:induction false} ElementBounded(field: nat, ps: seq<bytes>, now: bytes, p: bytes)
    requires 1 <= field < 16 && |now| <= 2 * |p|
    ensures |Repeated(field, ps + [now])| <= |Repeated(field, ps)| + 2 * Weight(Payload(field, p))
  {
    hide PayloadField, Repeated, Weight;
    RepeatedAppend(field, ps, now);
    NestedField(field, None, now, p);
  }

  lemma MiddleBounded()
    ensures Bounded(ApplyRequestOp, (m: RequestOp) => |EncodeRequestOp(m)|)
  {
    hide Weight, EncodeRequestOp, ApplyRequestOp;
    forall m: RequestOp, r: Record | ApplyRequestOp(m, r).Ok? ensures |EncodeRequestOp(ApplyRequestOp(m, r).value)| <= |EncodeRequestOp(m)| + 2 * Weight(r) { RequestOpBounded(m, r); }
  }

  lemma TxnBounded(m: Txn, r: Record)
    requires ApplyTxn(m, r).Ok?
    ensures |EncodeTxn(ApplyTxn(m, r).value)| <= |EncodeTxn(m)| + 2 * Weight(r)
  {
    LeavesBounded();
    MiddleBounded();
    EmptyEncodings();
    hide Bounded, Unmarshal, Repeated, Weight, ComparePayloads, RequestOpPayloads, EncodeCompare, EncodeRequestOp;
    match r {
      case Payload(1, p) =>
        UnmarshalIsBounded(ApplyCompare, TCompare, (m: Compare) => |EncodeCompare(m)|, COMPARE, p);
        var x := UnmarshalCompare(COMPARE, p).value;
        ComparesAppend(m.compare, Some(x));
        ElementBounded(1, ComparePayloads(m.compare), EncodeCompare(x), p);
      case Payload(2, p) =>
        UnmarshalIsBounded(ApplyRequestOp, TRequestOp, (m: RequestOp) => |EncodeRequestOp(m)|, REQUEST_OP, p);
        var x := UnmarshalRequestOp(REQUEST_OP, p).value;
        RequestOpsAppend(m.success, Some(x));
        ElementBounded(2, RequestOpPayloads(m.success), EncodeRequestOp(x), p);
      case Payload(3, p) =>
        UnmarshalIsBounded(ApplyRequestOp, TRequestOp, (m: RequestOp) => |EncodeRequestOp(m)|, REQUEST_OP, p);
        var x := UnmarshalRequestOp(REQUEST_OP, p).value;
        RequestOpsAppend(m.failure, Some(x));
        ElementBounded(3, RequestOpPayloads(m.failure), EncodeRequestOp(x), p);
      case Unknown(raw) => RawBounded(raw);
      case _ =>
    }
  }

  lemma TxnsBounded()
    ensures Bounded(ApplyTxn, (m: Txn) => |EncodeTxn(m)|)
  {
    hide Weight, EncodeTxn, ApplyTxn;
    forall m: Txn, r: Record | ApplyTxn(m, r).Ok? ensures |EncodeTxn(ApplyTxn(m, r).value)| <= |EncodeTxn(m)| + 2 * Weight(r) { TxnBounded(m, r); }
  }

  lemma {:induction false} CommandScalarBounded(m: Command, r: Record)
    requires ApplyCommand(m, r).Ok? && (r.Payload? ==> r.field !in {3, 6, 7, 10})
    ensures |EncodeCommand(ApplyCommand(m, r).value)| <= |EncodeCommand(m)| + 2 * Weight(r)
  {
    hide OptBytes, OptNumber, OptBool, OptPayload, Repeated, NumberField, Weight, Int32, EncodeKv, EncodeTxnField, KeyValuePayloads, CommandPayloads;
    hide UnmarshalKeyValue, UnmarshalTxn, UnmarshalCommand;
    match r {
      case Payload(1, p) => AssignBounded(1, p, 0);
      case Payload(8, p) => AssignBounded(8, p, 0);
      case Number(2, v) => AssignBounded(2, [], v);
      case Number(5, v) => AssignBounded(5, [], v);
      case Number(9, v) => AssignBounded(9, [], v);
      case Number(11, v) => AssignBounded(11, [], v);
      case Unknown(raw) => RawBounded(raw);
      case _ =>
    }
  }

  lemma {:induction false} KvBounded(m: Command, p: bytes)
    requires ApplyCommand(m, Payload(3, p)).Ok?
    ensures |EncodeCommand(ApplyCommand(m, Payload(3, p)).value)| <= |EncodeCommand(m)| + 2 * Weight(Payload(3, p))
  {
    LeavesBounded();
    EmptyEncodings();
    hide Bounded, Unmarshal, EncodeKeyValue, OptBytes, OptNumber, OptBool, OptPayload, Repeated, EncodeLeaderIndex, EncodeTxnField, Weight;
    hide KeyValuePayloads, CommandPayloads;
    var was := OrElse(m.kv, KEY_VALUE);
    UnmarshalIsBounded(ApplyKeyValue, TKeyValue, (m: KeyValue) => |EncodeKeyValue(m)|, was, p);
    NestedField(3, if m.kv.Some? then Some(EncodeKeyValue(was)) else None, EncodeKeyValue(UnmarshalKeyValue(was, p).value), p);
    assert OptPayload(3, if m.kv.Some? then Some(EncodeKeyValue(was)) else None) == EncodeKv(m.kv) by { KvIsOpt(m.kv); }
  }

  lemma KvIsOpt(kv: Option<KeyValue>)
    ensures EncodeKv(kv) == OptPayload(3, if kv.Some? then Some(EncodeKeyValue(kv.value)) else None)
  {
  }

  lemma {:induction false} TxnFieldBounded(m: Command, p: bytes)
    requires ApplyCommand(m, Payload(7, p)).Ok?
    ensures |EncodeCommand(ApplyCommand(m, Payload(7, p)).value)| <= |EncodeCommand(m)| + 2 * Weight(Payload(7, p))
  {
    TxnsBounded();
    EmptyEncodings();
    hide Bounded, Unmarshal, EncodeTxn, OptBytes, OptNumber, OptBool, OptPayload, Repeated, EncodeLeaderIndex, EncodeKv, Weight;
    hide KeyValuePayloads, CommandPayloads;
    var was := OrElse(m.txn, TXN);
    UnmarshalIsBounded(ApplyTxn, TTxn, (m: Txn) => |EncodeTxn(m)|, was, p);
    NestedField(7, if m.txn.Some? then Some(EncodeTxn(was)) else None, EncodeTxn(UnmarshalTxn(was, p).value), p);
    assert OptPayload(7, if m.txn.Some? then Some(EncodeTxn(was)) else None) == EncodeTxnField(m.txn) by { TxnIsOpt(m.txn); }
  }

  lemma TxnIsOpt(txn: Option<Txn>)
    ensures EncodeTxnField(txn) == OptPayload(7, if txn.Some? then Some(EncodeTxn(txn.value)) else None)
  {
  }

  lemma {:induction false} BatchBounded(m: Command, p: bytes)
    requires ApplyCommand(m, Payload(6, p)).Ok?
    ensures |EncodeCommand(ApplyCommand(m, Payload(6, p)).value)| <= |EncodeCommand(m)| + 2 * Weight(Payload(6, p))
  {
    LeavesBounded();
    EmptyEncodings();
    hide Bounded, Unmarshal, EncodeKeyValue, OptBytes, OptNumber, OptBool, OptPayload, Repeated, EncodeLeaderIndex, EncodeKv, EncodeTxnField, Weight;
    hide KeyValuePayloads, CommandPayloads;
    UnmarshalIsBounded(ApplyKeyValue, TKeyValue, (m: KeyValue) => |EncodeKeyValue(m)|, KEY_VALUE, p);
    var x := UnmarshalKeyValue(KEY_VALUE, p).value;
    KeyValuesAppend(m.batch, Some(x));
    ElementBounded(6, KeyValuePayloads(m.batch), EncodeKeyValue(x), p);
  }

  lemma {:induction false} SequenceBounded(m: Command, p: bytes)
    requires ApplyCommand(m, Payload(10, p)).Ok?
    ensures |EncodeCommand(ApplyCommand(m, Payload(10, p)).value)| <= |EncodeCommand(m)| + 2 * Weight(Payload(10, p))
    decreases |p|, 2
  {
    hide OptBytes, OptNumber, OptBool, OptPayload, Repeated, EncodeLeaderIndex, EncodeKv, EncodeTxnField, Weight;
    hide KeyValuePayloads, CommandPayloads, UnmarshalCommand;
    var x := UnmarshalCommand(COMMAND, p).value;
    ReencodingIsBounded(p);
    CommandsAppend(m.sequence, Some(x));
    ElementBounded(10, CommandPayloads(m.sequence), EncodeCommand(x), p);
  }

  lemma {:induction false} CommandBounded(m: Command, r: Record)
    requires ApplyCommand(m, r).Ok?
    ensures |EncodeCommand(ApplyCommand(m, r).value)| <= |EncodeCommand(m)| + 2 * Weight(r)
    decreases RecordSize(r), 3
  {
    hide EncodeCommand, ApplyCommand, Weight;
    match r {
      case Payload(3, p) => KvBounded(m, p);
      case Payload(6, p) => BatchBounded(m, p);
      case Payload(7, p) => TxnFieldBounded(m, p);
      case Payload(10, p) => SequenceBounded(m, p);
      case _ => CommandScalarBounded(m, r);
    }
  }

  lemma {:induction false} DecodeCommandIsBounded(m: Command, b: bytes, pos: nat)
    requires pos + |b| <= MAX_INT && DecodeCommand(m, b, pos).Ok?
    ensures |EncodeCommand(DecodeCommand(m, b, pos).value)| <= |EncodeCommand(m)| + 2 * |b|
    decreases |b|, 0
  {
    hide ReadRecord, ApplyCommand, EncodeCommand, Weight;
    if b != [] {
      var (r, n) := ReadRecord(TCommand, b, pos).value;
      RecordWeighs(TCommand, b, pos);
      CommandBounded(m, r);
      DecodeCommandIsBounded(ApplyCommand(m, r).value, b[n..], pos + n);
    }
  }

  // Main result: re-encoding an accepted input at most doubles its length.
  lemma {:induction false} ReencodingIsBounded(b: bytes)
    requires UnmarshalCommand(COMMAND, b).Ok?
    ensures |EncodeCommand(UnmarshalCommand(COMMAND, b).value)| <= 2 * |b|
    decreases |b|, 1
  {
    EmptyEncodings();
    hide DecodeCommand, EncodeCommand;
    DecodeCommandIsBounded(COMMAND, b, 0);
  }
}
