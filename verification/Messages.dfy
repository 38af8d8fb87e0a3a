// The messages of the replicated command log, what MarshalVT writes for them,
// SizeVT, and what UnmarshalVT assigns for each record read.
// A nil and an empty []byte are told apart: None and Some([]).
module Messages {
  import opened Common
  import opened Varint
  import opened Wire

  datatype KeyValue = KeyValue(
    key: Option<bytes>, createRevision: i64, modRevision: i64, value: Option<bytes>, unknown: bytes)

  datatype Range = Range(
    key: Option<bytes>, rangeEnd: Option<bytes>, limit: i64, keysOnly: bool, countOnly: bool, unknown: bytes)

  datatype Put = Put(key: Option<bytes>, value: Option<bytes>, prevKv: bool, unknown: bytes)

  datatype DeleteRange = DeleteRange(
    key: Option<bytes>, rangeEnd: Option<bytes>, prevKv: bool, count: bool, unknown: bytes)

  /** The oneof of RequestOp; the body of a case may be a nil pointer. */
  datatype Request =
    | NoRequest
    | RequestRange(range: Option<Range>)
    | RequestPut(put: Option<Put>)
    | RequestDeleteRange(del: Option<DeleteRange>)

  datatype RequestOp = RequestOp(request: Request, unknown: bytes)

  /** targetUnion: no case set, or Compare_Value with its (possibly nil) bytes. */
  datatype Compare = Compare(
    result: i32, target: i32, key: Option<bytes>, targetUnion: Option<Option<bytes>>, rangeEnd: Option<bytes>, unknown: bytes)

  datatype Txn = Txn(
    compare: seq<Option<Compare>>, success: seq<Option<RequestOp>>, failure: seq<Option<RequestOp>>, unknown: bytes)

  datatype Command = Command(
    table: Option<bytes>, typ: i32, kv: Option<KeyValue>, leaderIndex: Option<u64>,
    batch: seq<Option<KeyValue>>, txn: Option<Txn>, rangeEnd: Option<bytes>, prevKvs: bool,
    sequence: seq<Option<Command>>, count: bool, unknown: bytes)

  // The zero values: &KeyValue{} and so on.
  const KEY_VALUE := KeyValue(None, 0, 0, None, [])
  const RANGE := Range(None, None, 0, false, false, [])
  const PUT := Put(None, None, false, [])
  const DELETE_RANGE := DeleteRange(None, None, false, false, [])
  const REQUEST_OP := RequestOp(NoRequest, [])
  const COMPARE := Compare(0, 0, None, None, None, [])
  const TXN := Txn([], [], [], [])
  const COMMAND := Command(None, 0, None, None, [], None, None, false, [], false, [])

  function OrElse<T>(x: Option<T>, default: T): T {
    if x.Some? then x.value else default
  }

  // ---------- what MarshalVT writes ----------

  function EncodeKeyValue(m: KeyValue): bytes {
    OptBytes(1, m.key) + (OptNumber(2, m.createRevision) + (OptNumber(3, m.modRevision) + (OptBytes(4, m.value) + m.unknown)))
  }

  function EncodeRange(m: Range): bytes {
    OptBytes(1, m.key) + (OptBytes(2, m.rangeEnd) + (OptNumber(3, m.limit) + (OptBool(4, m.keysOnly) +
    (OptBool(5, m.countOnly) + m.unknown))))
  }

  function EncodePut(m: Put): bytes {
    OptBytes(1, m.key) + (OptBytes(2, m.value) + (OptBool(3, m.prevKv) + m.unknown))
  }

  function EncodeDeleteRange(m: DeleteRange): bytes {
    OptBytes(1, m.key) + (OptBytes(2, m.rangeEnd) + (OptBool(4, m.prevKv) + (OptBool(5, m.count) + m.unknown)))
  }

  function EncodeRequest(r: Request): bytes {
    match r
    case NoRequest => []
    case RequestRange(body) => if body.Some? then PayloadField(1, EncodeRange(body.value)) else []
    case RequestPut(body) => if body.Some? then PayloadField(2, EncodePut(body.value)) else []
    case RequestDeleteRange(body) => if body.Some? then PayloadField(3, EncodeDeleteRange(body.value)) else []
  }

  function EncodeRequestOp(m: RequestOp): bytes { EncodeRequest(m.request) + m.unknown }

  function EncodeTargetUnion(u: Option<Option<bytes>>): bytes {
    if u.Some? then PayloadField(4, OrElse(u.value, [])) else []
  }

  function EncodeCompare(m: Compare): bytes {
    OptNumber(1, m.result) + (OptNumber(2, m.target) + (OptBytes(3, m.key) +
    (OptBytes(64, m.rangeEnd) + (EncodeTargetUnion(m.targetUnion) + m.unknown))))
  }

  // A nil element of a repeated field is written as an empty message.

  function KeyValuePayloads(s: seq<Option<KeyValue>>): seq<bytes> {
    if s == [] then []
    else [EncodeKeyValueElement(s[0])] + KeyValuePayloads(s[1..])
  }

  function EncodeKeyValueElement(m: Option<KeyValue>): bytes {
    if m.Some? then EncodeKeyValue(m.value) else []
  }

  function ComparePayloads(s: seq<Option<Compare>>): seq<bytes> {
    if s == [] then []
    else [EncodeCompareElement(s[0])] + ComparePayloads(s[1..])
  }

  function EncodeCompareElement(m: Option<Compare>): bytes {
    if m.Some? then EncodeCompare(m.value) else []
  }

  function RequestOpPayloads(s: seq<Option<RequestOp>>): seq<bytes> {
    if s == [] then []
    else [EncodeRequestOpElement(s[0])] + RequestOpPayloads(s[1..])
  }

  function EncodeRequestOpElement(m: Option<RequestOp>): bytes {
    if m.Some? then EncodeRequestOp(m.value) else []
  }

  function EncodeTxn(m: Txn): bytes {
    Repeated(1, ComparePayloads(m.compare)) + (Repeated(2, RequestOpPayloads(m.success)) +
    (Repeated(3, RequestOpPayloads(m.failure)) + m.unknown))
  }

  function EncodeKv(kv: Option<KeyValue>): bytes {
    if kv.Some? then PayloadField(3, EncodeKeyValue(kv.value)) else []
  }

  function EncodeLeaderIndex(v: Option<u64>): bytes {
    if v.Some? then NumberField(5, v.value) else []
  }

  function EncodeTxnField(txn: Option<Txn>): bytes {
    if txn.Some? then PayloadField(7, EncodeTxn(txn.value)) else []
  }

  function EncodeCommand(m: Command): bytes
    decreases m, 1
  {
    OptBytes(1, m.table) + (OptNumber(2, m.typ) + (EncodeKv(m.kv) + (EncodeLeaderIndex(m.leaderIndex) +
    (Repeated(6, KeyValuePayloads(m.batch)) + (EncodeTxnField(m.txn) + EncodeLaterFields(m))))))
  }

  // The fields after txn.
  function EncodeLaterFields(m: Command): bytes
    decreases m, 0
  {
    OptPayload(8, m.rangeEnd) + (OptBool(9, m.prevKvs) +
    (Repeated(10, CommandPayloads(m.sequence)) + (OptBool(11, m.count) + m.unknown)))
  }

  function CommandPayloads(s: seq<Option<Command>>): seq<bytes> {
    if s == [] then [] else [EncodeCommandElement(s[0])] + CommandPayloads(s[1..])
  }

  function EncodeCommandElement(m: Option<Command>): bytes {
    if m.Some? then EncodeCommand(m.value) else []
  }

  // ---------- SizeVT ----------

  function SizeBytes(p: Option<bytes>): nat {
    if p.Some? && |p.value| > 0 then 1 + |p.value| + SizeOfVarint(|p.value|) else 0
  }

  function SizeNumber(v: i64): nat {
    if v != 0 then 1 + SizeOfVarint(UInt64(v)) else 0
  }

  function SizeBool(b: bool): nat { if b then 2 else 0 }

  function SizeMessage(l: nat): nat { 1 + l + SizeOfVarint(l) }

  function SizeKeyValue(m: KeyValue): nat {
    SizeBytes(m.key) + SizeNumber(m.createRevision) + SizeNumber(m.modRevision) + SizeBytes(m.value) + |m.unknown|
  }

  function SizeRange(m: Range): nat {
    SizeBytes(m.key) + SizeBytes(m.rangeEnd) + SizeNumber(m.limit) + SizeBool(m.keysOnly) + SizeBool(m.countOnly) + |m.unknown|
  }

  function SizePut(m: Put): nat {
    SizeBytes(m.key) + SizeBytes(m.value) + SizeBool(m.prevKv) + |m.unknown|
  }

  function SizeDeleteRange(m: DeleteRange): nat {
    SizeBytes(m.key) + SizeBytes(m.rangeEnd) + SizeBool(m.prevKv) + SizeBool(m.count) + |m.unknown|
  }

  function SizeRequest(r: Request): nat {
    match r
    case NoRequest => 0
    case RequestRange(body) => if body.Some? then SizeMessage(SizeRange(body.value)) else 0
    case RequestPut(body) => if body.Some? then SizeMessage(SizePut(body.value)) else 0
    case RequestDeleteRange(body) => if body.Some? then SizeMessage(SizeDeleteRange(body.value)) else 0
  }

  function SizeRequestOp(m: RequestOp): nat { SizeRequest(m.request) + |m.unknown| }

  function SizeCompare(m: Compare): nat {
    SizeNumber(m.result) + SizeNumber(m.target) + SizeBytes(m.key) +
    (if m.targetUnion.Some? then SizeMessage(|OrElse(m.targetUnion.value, [])|) else 0) +
    (if m.rangeEnd.Some? && |m.rangeEnd.value| > 0 then 2 + |m.rangeEnd.value| + SizeOfVarint(|m.rangeEnd.value|) else 0) +
    |m.unknown|
  }

  function SizeKeyValues(s: seq<Option<KeyValue>>): nat {
    if s == [] then 0
    else SizeMessage(SizeKeyValueElement(s[0])) + SizeKeyValues(s[1..])
  }

  function SizeKeyValueElement(m: Option<KeyValue>): nat {
    if m.Some? then SizeKeyValue(m.value) else 0
  }

  function SizeCompares(s: seq<Option<Compare>>): nat {
    if s == [] then 0
    else SizeMessage(SizeCompareElement(s[0])) + SizeCompares(s[1..])
  }

  function SizeCompareElement(m: Option<Compare>): nat {
    if m.Some? then SizeCompare(m.value) else 0
  }

  function SizeRequestOps(s: seq<Option<RequestOp>>): nat {
    if s == [] then 0
    else SizeMessage(SizeRequestOpElement(s[0])) + SizeRequestOps(s[1..])
  }

  function SizeRequestOpElement(m: Option<RequestOp>): nat {
    if m.Some? then SizeRequestOp(m.value) else 0
  }

  function SizeTxn(m: Txn): nat {
    SizeCompares(m.compare) + SizeRequestOps(m.success) + SizeRequestOps(m.failure) + |m.unknown|
  }

  function SizeCommand(m: Command): nat
    decreases m, 1
  {
    SizeBytes(m.table) + SizeNumber(m.typ) +
    (if m.kv.Some? then SizeMessage(SizeKeyValue(m.kv.value)) else 0) +
    (if m.leaderIndex.Some? then 1 + SizeOfVarint(m.leaderIndex.value) else 0) +
    SizeKeyValues(m.batch) +
    (if m.txn.Some? then SizeMessage(SizeTxn(m.txn.value)) else 0) +
    SizeLaterFields(m)
  }

  function SizeLaterFields(m: Command): nat
    decreases m, 0
  {
    (if m.rangeEnd.Some? then SizeMessage(|m.rangeEnd.value|) else 0) +
    SizeBool(m.prevKvs) + SizeCommands(m.sequence) + SizeBool(m.count) + |m.unknown|
  }

  function SizeCommands(s: seq<Option<Command>>): nat {
    if s == [] then 0 else SizeMessage(SizeCommandElement(s[0])) + SizeCommands(s[1..])
  }

  function SizeCommandElement(m: Option<Command>): nat {
    if m.Some? then SizeCommand(m.value) else 0
  }

  // ---------- what UnmarshalVT assigns ----------
  // Records a message type cannot be given (see KindOf) leave it unchanged.

  function ApplyKeyValue(m: KeyValue, r: Record): Result<KeyValue, DecodeError> {
    match r
    case Payload(1, p) => Ok(m.(key := Some(p)))
    case Number(2, v) => Ok(m.(createRevision := Int64(v)))
    case Number(3, v) => Ok(m.(modRevision := Int64(v)))
    case Payload(4, p) => Ok(m.(value := Some(p)))
    case Unknown(raw) => Ok(m.(unknown := m.unknown + raw))
    case _ => Ok(m)
  }

  function ApplyRange(m: Range, r: Record): Result<Range, DecodeError> {
    match r
    case Payload(1, p) => Ok(m.(key := Some(p)))
    case Payload(2, p) => Ok(m.(rangeEnd := Some(p)))
    case Number(3, v) => Ok(m.(limit := Int64(v)))
    case Number(4, v) => Ok(m.(keysOnly := v != 0))
    case Number(5, v) => Ok(m.(countOnly := v != 0))
    case Unknown(raw) => Ok(m.(unknown := m.unknown + raw))
    case _ => Ok(m)
  }

  function ApplyPut(m: Put, r: Record): Result<Put, DecodeError> {
    match r
    case Payload(1, p) => Ok(m.(key := Some(p)))
    case Payload(2, p) => Ok(m.(value := Some(p)))
    case Number(3, v) => Ok(m.(prevKv := v != 0))
    case Unknown(raw) => Ok(m.(unknown := m.unknown + raw))
    case _ => Ok(m)
  }

  function ApplyDeleteRange(m: DeleteRange, r: Record): Result<DeleteRange, DecodeError> {
    match r
    case Payload(1, p) => Ok(m.(key := Some(p)))
    case Payload(2, p) => Ok(m.(rangeEnd := Some(p)))
    case Number(4, v) => Ok(m.(prevKv := v != 0))
    case Number(5, v) => Ok(m.(count := v != 0))
    case Unknown(raw) => Ok(m.(unknown := m.unknown + raw))
    case _ => Ok(m)
  }

  function UnmarshalKeyValue(m: KeyValue, b: bytes): Result<KeyValue, DecodeError> { Unmarshal(ApplyKeyValue, TKeyValue, m, b) }
  function UnmarshalRange(m: Range, b: bytes): Result<Range, DecodeError> { Unmarshal(ApplyRange, TRange, m, b) }
  function UnmarshalPut(m: Put, b: bytes): Result<Put, DecodeError> { Unmarshal(ApplyPut, TPut, m, b) }
  function UnmarshalDeleteRange(m: DeleteRange, b: bytes): Result<DeleteRange, DecodeError> { Unmarshal(ApplyDeleteRange, TDeleteRange, m, b) }

  // A oneof case already set is merged into, any other is replaced. Merging
  // into a case whose body is nil runs UnmarshalVT on a nil receiver.

  /** The tag announces a scalar that is read straight into its field. */
  predicate ZeroedFirst(t: MsgType, p: bytes) {
    t == TRange && ReadVarint(p, W64).Ok? && FieldNum(ReadVarint(p, W64).value.0) == 3 && WireType(ReadVarint(p, W64).value.0) == 0
  }

  /** The first record is read, and the assignment that follows panics: NilBody.
      An error met before it is returned. */
  function IntoNil(t: MsgType, p: bytes): DecodeError {
    if |p| > MAX_INT then InvalidLength
    else match ReadRecord(t, p, 0)
      case Ok(_) => NilBody
      case Err(e) => if ZeroedFirst(t, p) then NilBody else e
  }

  function MergeRange(was: Request, p: bytes): Result<Request, DecodeError> {
    if was == RequestRange(None) then (if p == [] then Ok(was) else Err(IntoNil(TRange, p)))
    else
      var x :- UnmarshalRange(if was.RequestRange? then was.range.value else RANGE, p);
      Ok(RequestRange(Some(x)))
  }

  function MergePut(was: Request, p: bytes): Result<Request, DecodeError> {
    if was == RequestPut(None) then (if p == [] then Ok(was) else Err(IntoNil(TPut, p)))
    else
      var x :- UnmarshalPut(if was.RequestPut? then was.put.value else PUT, p);
      Ok(RequestPut(Some(x)))
  }

  function MergeDeleteRange(was: Request, p: bytes): Result<Request, DecodeError> {
    if was == RequestDeleteRange(None) then (if p == [] then Ok(was) else Err(IntoNil(TDeleteRange, p)))
    else
      var x :- UnmarshalDeleteRange(if was.RequestDeleteRange? then was.del.value else DELETE_RANGE, p);
      Ok(RequestDeleteRange(Some(x)))
  }

  function ApplyRequestOp(m: RequestOp, r: Record): Result<RequestOp, DecodeError> {
    match r
    case Payload(1, p) => var x :- MergeRange(m.request, p); Ok(m.(request := x))
    case Payload(2, p) => var x :- MergePut(m.request, p); Ok(m.(request := x))
    case Payload(3, p) => var x :- MergeDeleteRange(m.request, p); Ok(m.(request := x))
    case Unknown(raw) => Ok(m.(unknown := m.unknown + raw))
    case _ => Ok(m)
  }

  function ApplyCompare(m: Compare, r: Record): Result<Compare, DecodeError> {
    match r
    case Number(1, v) => Ok(m.(result := Int32(v)))
    case Number(2, v) => Ok(m.(target := Int32(v)))
    case Payload(3, p) => Ok(m.(key := Some(p)))
    case Payload(4, p) => Ok(m.(targetUnion := Some(Some(p))))
    case Payload(64, p) => Ok(m.(rangeEnd := Some(p)))
    case Unknown(raw) => Ok(m.(unknown := m.unknown + raw))
    case _ => Ok(m)
  }

  function UnmarshalRequestOp(m: RequestOp, b: bytes): Result<RequestOp, DecodeError> { Unmarshal(ApplyRequestOp, TRequestOp, m, b) }
  function UnmarshalCompare(m: Compare, b: bytes): Result<Compare, DecodeError> { Unmarshal(ApplyCompare, TCompare, m, b) }

  function ApplyTxn(m: Txn, r: Record): Result<Txn, DecodeError> {
    match r
    case Payload(1, p) => var x :- UnmarshalCompare(COMPARE, p); Ok(m.(compare := m.compare + [Some(x)]))
    case Payload(2, p) => var x :- UnmarshalRequestOp(REQUEST_OP, p); Ok(m.(success := m.success + [Some(x)]))
    case Payload(3, p) => var x :- UnmarshalRequestOp(REQUEST_OP, p); Ok(m.(failure := m.failure + [Some(x)]))
    case Unknown(raw) => Ok(m.(unknown := m.unknown + raw))
    case _ => Ok(m)
  }

  function UnmarshalTxn(m: Txn, b: bytes): Result<Txn, DecodeError> { Unmarshal(ApplyTxn, TTxn, m, b) }

  function RecordSize(r: Record): nat {
    if r.Payload? then |r.payload| else 0
  }

  function ApplyCommand(m: Command, r: Record): Result<Command, DecodeError>
    decreases RecordSize(r), 2
  {
    match r
    case Payload(1, p) => Ok(m.(table := Some(p)))
    case Number(2, v) => Ok(m.(typ := Int32(v)))
    case Payload(3, p) => var x :- UnmarshalKeyValue(OrElse(m.kv, KEY_VALUE), p); Ok(m.(kv := Some(x)))
    case Number(5, v) => Ok(m.(leaderIndex := Some(v)))
    case Payload(6, p) => var x :- UnmarshalKeyValue(KEY_VALUE, p); Ok(m.(batch := m.batch + [Some(x)]))
    case Payload(7, p) => var x :- UnmarshalTxn(OrElse(m.txn, TXN), p); Ok(m.(txn := Some(x)))
    case Payload(8, p) => Ok(m.(rangeEnd := Some(p)))
    case Number(9, v) => Ok(m.(prevKvs := v != 0))
    case Payload(10, p) => var x :- UnmarshalCommand(COMMAND, p); Ok(m.(sequence := m.sequence + [Some(x)]))
    case Number(11, v) => Ok(m.(count := v != 0))
    case Unknown(raw) => Ok(m.(unknown := m.unknown + raw))
    case _ => Ok(m)
  }

  // Decode(ApplyCommand, ...), written out because Command nests in itself.
  function DecodeCommand(m: Command, b: bytes, pos: nat): Result<Command, DecodeError>
    requires pos + |b| <= MAX_INT
    decreases |b|, 0
  {
    if b == [] then Ok(m)
    else
      var (r, n) :- ReadRecord(TCommand, b, pos);
      var m' :- ApplyCommand(m, r);
      DecodeCommand(m', b[n..], pos + n)
  }

  function UnmarshalCommand(m: Command, b: bytes): Result<Command, DecodeError>
    decreases |b|, 1
  {
    if |b| > MAX_INT then Err(InvalidLength) else DecodeCommand(m, b, 0)
  }

  lemma {:induction false} DecodeCommandIsDecode(m: Command, b: bytes, pos: nat)
    requires pos + |b| <= MAX_INT
    ensures DecodeCommand(m, b, pos) == Decode(ApplyCommand, TCommand, m, b, pos)
    decreases |b|
  {
    hide ReadRecord, ApplyCommand;
    if b != [] && ReadRecord(TCommand, b, pos).Ok? {
      var (r, n) := ReadRecord(TCommand, b, pos).value;
      if ApplyCommand(m, r).Ok? {
        DecodeCommandIsDecode(ApplyCommand(m, r).value, b[n..], pos + n);
      }
    }
  }

  lemma {:induction false} UnmarshalCommandIsUnmarshal(m: Command, b: bytes)
    ensures UnmarshalCommand(m, b) == Unmarshal(ApplyCommand, TCommand, m, b)
  {
    if |b| <= MAX_INT {
      DecodeCommandIsDecode(m, b, 0);
    }
  }
}
