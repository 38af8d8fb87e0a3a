// MarshalVT followed by UnmarshalVT: what a message becomes when the encoding of
// another is decoded into it, and what comes back into a fresh one.
module RoundTrip {
  import opened Common
  import opened Varint
  import opened Wire
  import opened Decoding
  import opened Messages

  // ---------- the normal form that survives the wire ----------

  /** An empty plain []byte is not written, so it comes back as nil. */
  function Plain(p: Option<bytes>): Option<bytes> {
    if p == Some([]) then None else p
  }

  function NormKeyValue(m: KeyValue): KeyValue { m.(key := Plain(m.key), value := Plain(m.value)) }
  function NormRange(m: Range): Range { m.(key := Plain(m.key), rangeEnd := Plain(m.rangeEnd)) }
  function NormPut(m: Put): Put { m.(key := Plain(m.key), value := Plain(m.value)) }
  function NormDeleteRange(m: DeleteRange): DeleteRange { m.(key := Plain(m.key), rangeEnd := Plain(m.rangeEnd)) }

  /** A oneof case with a nil body is not written at all. */
  function NormRequest(r: Request): Request {
    match r
    case RequestRange(Some(x)) => RequestRange(Some(NormRange(x)))
    case RequestPut(Some(x)) => RequestPut(Some(NormPut(x)))
    case RequestDeleteRange(Some(x)) => RequestDeleteRange(Some(NormDeleteRange(x)))
    case _ => NoRequest
  }

  function NormRequestOp(m: RequestOp): RequestOp { m.(request := NormRequest(m.request)) }

  /** Compare_Value is written even when empty. */
  function NormCompare(m: Compare): Compare {
    m.(key := Plain(m.key), rangeEnd := Plain(m.rangeEnd),
       targetUnion := if m.targetUnion.Some? then Some(Some(OrElse(m.targetUnion.value, []))) else None)
  }

  // A nil element of a repeated field comes back as an empty message.

  function NormKeyValues(s: seq<Option<KeyValue>>): seq<Option<KeyValue>> {
    if s == [] then [] else [Some(NormKeyValue(OrElse(s[0], KEY_VALUE)))] + NormKeyValues(s[1..])
  }

  function NormCompares(s: seq<Option<Compare>>): seq<Option<Compare>> {
    if s == [] then [] else [Some(NormCompare(OrElse(s[0], COMPARE)))] + NormCompares(s[1..])
  }

  function NormRequestOps(s: seq<Option<RequestOp>>): seq<Option<RequestOp>> {
    if s == [] then [] else [Some(NormRequestOp(OrElse(s[0], REQUEST_OP)))] + NormRequestOps(s[1..])
  }

  function NormTxn(m: Txn): Txn {
    m.(compare := NormCompares(m.compare), success := NormRequestOps(m.success), failure := NormRequestOps(m.failure))
  }

  /** Presence of rangeEnd and leaderIndex survives even when empty or zero. */
  function NormCommand(m: Command): Command {
    m.(table := Plain(m.table),
       kv := if m.kv.Some? then Some(NormKeyValue(m.kv.value)) else None,
       batch := NormKeyValues(m.batch),
       txn := if m.txn.Some? then Some(NormTxn(m.txn.value)) else None,
       sequence := NormCommands(m.sequence))
  }

  function NormCommands(s: seq<Option<Command>>): seq<Option<Command>> {
    if s == [] then [] else [Some(NormElement(s[0]))] + NormCommands(s[1..])
  }

  function NormElement(m: Option<Command>): Command {
    if m.Some? then NormCommand(m.value) else COMMAND
  }

  // ---------- unknown bytes are whole records, at every level ----------

  predicate KeyValueOk(m: Option<KeyValue>) { m.Some? ==> WholeUnknown(TKeyValue, m.value.unknown) }

  predicate RequestOpOk(m: Option<RequestOp>) {
    m.Some? ==>
      && WholeUnknown(TRequestOp, m.value.unknown)
      && match m.value.request {
        case RequestRange(Some(x)) => WholeUnknown(TRange, x.unknown)
        case RequestPut(Some(x)) => WholeUnknown(TPut, x.unknown)
        case RequestDeleteRange(Some(x)) => WholeUnknown(TDeleteRange, x.unknown)
        case _ => true
      }
  }

  predicate CompareOk(m: Option<Compare>) { m.Some? ==> WholeUnknown(TCompare, m.value.unknown) }

  predicate TxnOk(m: Option<Txn>) {
    m.Some? ==>
      && WholeUnknown(TTxn, m.value.unknown)
      && (forall e <- m.value.compare :: CompareOk(e))
      && (forall e <- m.value.success :: RequestOpOk(e))
      && (forall e <- m.value.failure :: RequestOpOk(e))
  }

  predicate CommandOk(m: Command) {
    && WholeUnknown(TCommand, m.unknown)
    && KeyValueOk(m.kv)
    && TxnOk(m.txn)
    && (forall e <- m.batch :: KeyValueOk(e))
    && CommandsOk(m.sequence)
  }

  predicate CommandsOk(s: seq<Option<Command>>) {
    s == [] || (ElementOk(s[0]) && CommandsOk(s[1..]))
  }

  predicate ElementOk(m: Option<Command>) { m.Some? ==> CommandOk(m.value) }

  // ---------- scalars ----------

  lemma Int64Back(v: i64)
    ensures Int64(Cut(UInt64(v), W64)) == v
  {
  }

  lemma Int32Back(v: i32)
    ensures Int32(Cut(UInt64(v), W32)) == v
  {
    Int32OfUInt64(v);
    Int32OfCut(UInt64(v));
  }

  lemma Int32OfCut(x: u64)
    ensures Int32(Cut(x, W32)) == Int32(x)
  {
  }

  // ---------- merging ("Last One Wins") ----------
  // What decoding the encoding of x into m makes of m: a field that is written
  // replaces the old value, repeated fields are appended, unknown records too.

  function OverBytes(m: Option<bytes>, x: Option<bytes>): Option<bytes> {
    if x.Some? && |x.value| > 0 then x else m
  }

  function OverNumber(m: i64, x: i64): i64 { if x != 0 then x else m }

  function OverEnum(m: i32, x: i32): i32 { if x != 0 then x else m }

  function MergeKeyValue(m: KeyValue, x: KeyValue): KeyValue {
    KeyValue(OverBytes(m.key, x.key), OverNumber(m.createRevision, x.createRevision),
      OverNumber(m.modRevision, x.modRevision), OverBytes(m.value, x.value), m.unknown + x.unknown)
  }

  function MergeRangeBody(m: Range, x: Range): Range {
    Range(OverBytes(m.key, x.key), OverBytes(m.rangeEnd, x.rangeEnd), OverNumber(m.limit, x.limit),
      m.keysOnly || x.keysOnly, m.countOnly || x.countOnly, m.unknown + x.unknown)
  }

  function MergePutBody(m: Put, x: Put): Put {
    Put(OverBytes(m.key, x.key), OverBytes(m.value, x.value), m.prevKv || x.prevKv, m.unknown + x.unknown)
  }

  function MergeDeleteRangeBody(m: DeleteRange, x: DeleteRange): DeleteRange {
    DeleteRange(OverBytes(m.key, x.key), OverBytes(m.rangeEnd, x.rangeEnd), m.prevKv || x.prevKv, m.count || x.count,
      m.unknown + x.unknown)
  }

  function MergeCompare(m: Compare, x: Compare): Compare {
    Compare(OverEnum(m.result, x.result), OverEnum(m.target, x.target), OverBytes(m.key, x.key),
      if x.targetUnion.Some? then Some(TargetBytes(x.targetUnion)) else m.targetUnion,
      OverBytes(m.rangeEnd, x.rangeEnd), m.unknown + x.unknown)
  }

  /** The same oneof case is merged into, another one replaced. */
  function MergeRequest(m: Request, x: Request): Request {
    match x
    case RequestRange(Some(b)) => RequestRange(Some(MergeRangeBody(if m.RequestRange? && m.range.Some? then m.range.value else RANGE, b)))
    case RequestPut(Some(b)) => RequestPut(Some(MergePutBody(if m.RequestPut? && m.put.Some? then m.put.value else PUT, b)))
    case RequestDeleteRange(Some(b)) =>
      RequestDeleteRange(Some(MergeDeleteRangeBody(if m.RequestDeleteRange? && m.del.Some? then m.del.value else DELETE_RANGE, b)))
    case _ => m
  }

  function MergeRequestOp(m: RequestOp, x: RequestOp): RequestOp {
    RequestOp(MergeRequest(m.request, x.request), m.unknown + x.unknown)
  }

  function MergeTxn(m: Txn, x: Txn): Txn {
    Txn(m.compare + NormCompares(x.compare), m.success + NormRequestOps(x.success), m.failure + NormRequestOps(x.failure),
      m.unknown + x.unknown)
  }

  function MergeCommand(m: Command, x: Command): Command {
    Command(OverBytes(m.table, x.table), OverEnum(m.typ, x.typ),
      if x.kv.Some? then Some(MergeKeyValue(OrElse(m.kv, KEY_VALUE), x.kv.value)) else m.kv,
      if x.leaderIndex.Some? then x.leaderIndex else m.leaderIndex,
      m.batch + NormKeyValues(x.batch),
      if x.txn.Some? then Some(MergeTxn(OrElse(m.txn, TXN), x.txn.value)) else m.txn,
      if x.rangeEnd.Some? then x.rangeEnd else m.rangeEnd,
      m.prevKvs || x.prevKvs, m.sequence + NormCommands(x.sequence), m.count || x.count, m.unknown + x.unknown)
  }

  lemma NothingBefore<T>(s: seq<T>)
    ensures [] + s == s
  {
  }

  // Into a fresh message, merging is the normal form.
  lemma MergeIntoFresh()
    ensures forall x: KeyValue :: MergeKeyValue(KEY_VALUE, x) == NormKeyValue(x)
    ensures forall x: RequestOp :: MergeRequestOp(REQUEST_OP, x) == NormRequestOp(x)
    ensures forall x: Compare :: MergeCompare(COMPARE, x) == NormCompare(x)
    ensures forall x: Txn :: MergeTxn(TXN, x) == NormTxn(x)
    ensures forall x: Command :: MergeCommand(COMMAND, x) == NormCommand(x)
  {
    hide NormKeyValues, NormCompares, NormRequestOps, NormCommands;
    forall x: bytes ensures [] + x == x { NothingBefore(x); }
    forall x: Txn ensures MergeTxn(TXN, x) == NormTxn(x) {
      NothingBefore(NormCompares(x.compare)); NothingBefore(NormRequestOps(x.success)); NothingBefore(NormRequestOps(x.failure));
    }
    forall x: Command ensures MergeCommand(COMMAND, x) == NormCommand(x) {
      NothingBefore(NormKeyValues(x.batch)); NothingBefore(NormCommands(x.sequence));
    }
  }

  // ---------- leaf messages ----------

  lemma DecodeOntoKeyValue(m: KeyValue, x: KeyValue)
    requires KeyValueOk(Some(x)) && |EncodeKeyValue(x)| <= MAX_INT
    ensures UnmarshalKeyValue(m, EncodeKeyValue(x)) == Ok(MergeKeyValue(m, x))
  {
    hide Decode, OptBytes, OptNumber, Int64, UInt64, Cut;
    Int64Back(x.createRevision); Int64Back(x.modRevision);
    var r := MergeKeyValue(m, x);
    var m1 := m.(key := r.key); var m2 := m1.(createRevision := r.createRevision);
    var m3 := m2.(modRevision := r.modRevision); var m4 := m3.(value := r.value);
    var s4 := x.unknown;
    var s3 := OptBytes(4, x.value) + s4;
    var s2 := OptNumber(3, x.modRevision) + s3;
    var s1 := OptNumber(2, x.createRevision) + s2;
    StepUnknown(ApplyKeyValue, TKeyValue, m4, (u: bytes) => m4.(unknown := u), m.unknown, s4, r);
    StepOptBytes(ApplyKeyValue, TKeyValue, m3, m4, 4, x.value, s4, r);
    StepOptNumber(ApplyKeyValue, TKeyValue, m2, m3, 3, x.modRevision, s3, r);
    StepOptNumber(ApplyKeyValue, TKeyValue, m1, m2, 2, x.createRevision, s2, r);
    StepOptBytes(ApplyKeyValue, TKeyValue, m, m1, 1, x.key, s1, r);
  }

  lemma DecodeOntoRange(m: Range, x: Range)
    requires WholeUnknown(TRange, x.unknown) && |EncodeRange(x)| <= MAX_INT
    ensures UnmarshalRange(m, EncodeRange(x)) == Ok(MergeRangeBody(m, x))
  {
    hide Decode, OptBytes, OptNumber, OptBool, Int64, UInt64, Cut;
    Int64Back(x.limit);
    var r := MergeRangeBody(m, x);
    var m1 := m.(key := r.key); var m2 := m1.(rangeEnd := r.rangeEnd); var m3 := m2.(limit := r.limit);
    var m4 := m3.(keysOnly := r.keysOnly); var m5 := m4.(countOnly := r.countOnly);
    var s5 := x.unknown;
    var s4 := OptBool(5, x.countOnly) + s5;
    var s3 := OptBool(4, x.keysOnly) + s4;
    var s2 := OptNumber(3, x.limit) + s3;
    var s1 := OptBytes(2, x.rangeEnd) + s2;
    StepUnknown(ApplyRange, TRange, m5, (u: bytes) => m5.(unknown := u), m.unknown, s5, r);
    StepOptBool(ApplyRange, TRange, m4, m5, 5, x.countOnly, s5, r);
    StepOptBool(ApplyRange, TRange, m3, m4, 4, x.keysOnly, s4, r);
    StepOptNumber(ApplyRange, TRange, m2, m3, 3, x.limit, s3, r);
    StepOptBytes(ApplyRange, TRange, m1, m2, 2, x.rangeEnd, s2, r);
    StepOptBytes(ApplyRange, TRange, m, m1, 1, x.key, s1, r);
  }

  lemma DecodeOntoPut(m: Put, x: Put)
    requires WholeUnknown(TPut, x.unknown) && |EncodePut(x)| <= MAX_INT
    ensures UnmarshalPut(m, EncodePut(x)) == Ok(MergePutBody(m, x))
  {
    hide Decode, OptBytes, OptBool;
    var r := MergePutBody(m, x);
    var m1 := m.(key := r.key); var m2 := m1.(value := r.value); var m3 := m2.(prevKv := r.prevKv);
    var s3 := x.unknown;
    var s2 := OptBool(3, x.prevKv) + s3;
    var s1 := OptBytes(2, x.value) + s2;
    StepUnknown(ApplyPut, TPut, m3, (u: bytes) => m3.(unknown := u), m.unknown, s3, r);
    StepOptBool(ApplyPut, TPut, m2, m3, 3, x.prevKv, s3, r);
    StepOptBytes(ApplyPut, TPut, m1, m2, 2, x.value, s2, r);
    StepOptBytes(ApplyPut, TPut, m, m1, 1, x.key, s1, r);
  }

  lemma DecodeOntoDeleteRange(m: DeleteRange, x: DeleteRange)
    requires WholeUnknown(TDeleteRange, x.unknown) && |EncodeDeleteRange(x)| <= MAX_INT
    ensures UnmarshalDeleteRange(m, EncodeDeleteRange(x)) == Ok(MergeDeleteRangeBody(m, x))
  {
    hide Decode, OptBytes, OptBool;
    var r := MergeDeleteRangeBody(m, x);
    var m1 := m.(key := r.key); var m2 := m1.(rangeEnd := r.rangeEnd); var m3 := m2.(prevKv := r.prevKv); var m4 := m3.(count := r.count);
    var s4 := x.unknown;
    var s3 := OptBool(5, x.count) + s4;
    var s2 := OptBool(4, x.prevKv) + s3;
    var s1 := OptBytes(2, x.rangeEnd) + s2;
    StepUnknown(ApplyDeleteRange, TDeleteRange, m4, (u: bytes) => m4.(unknown := u), m.unknown, s4, r);
    StepOptBool(ApplyDeleteRange, TDeleteRange, m3, m4, 5, x.count, s4, r);
    StepOptBool(ApplyDeleteRange, TDeleteRange, m2, m3, 4, x.prevKv, s3, r);
    StepOptBytes(ApplyDeleteRange, TDeleteRange, m1, m2, 2, x.rangeEnd, s2, r);
    StepOptBytes(ApplyDeleteRange, TDeleteRange, m, m1, 1, x.key, s1, r);
  }

  lemma DecodeOntoCompare(m: Compare, x: Compare)
    requires CompareOk(Some(x)) && |EncodeCompare(x)| <= MAX_INT
    ensures UnmarshalCompare(m, EncodeCompare(x)) == Ok(MergeCompare(m, x))
  {
    hide Decode, OptBytes, OptNumber, OptPayload, Int32, UInt64, Cut;
    Int32Back(x.result); Int32Back(x.target);
    var r := MergeCompare(m, x);
    var m1 := m.(result := r.result); var m2 := m1.(target := r.target); var m3 := m2.(key := r.key);
    var m4 := m3.(rangeEnd := r.rangeEnd); var m5 := m4.(targetUnion := r.targetUnion);
    var s5 := x.unknown;
    var s4 := EncodeTargetUnion(x.targetUnion) + s5;
    var s3 := OptBytes(64, x.rangeEnd) + s4;
    var s2 := OptBytes(3, x.key) + s3;
    var s1 := OptNumber(2, x.target) + s2;
    StepUnknown(ApplyCompare, TCompare, m5, (u: bytes) => m5.(unknown := u), m.unknown, s5, r);
    TargetUnionAsPayload(x.targetUnion);
    StepOptPayload(ApplyCompare, TCompare, m4, m5, 4, TargetBytes(x.targetUnion), s5, r);
    StepOptBytes(ApplyCompare, TCompare, m3, m4, 64, x.rangeEnd, s4, r);
    StepOptBytes(ApplyCompare, TCompare, m2, m3, 3, x.key, s3, r);
    StepOptNumber(ApplyCompare, TCompare, m1, m2, 2, x.target, s2, r);
    StepOptNumber(ApplyCompare, TCompare, m, m1, 1, x.result, s1, r);
  }

  function TargetBytes(u: Option<Option<bytes>>): Option<bytes> {
    if u.Some? then Some(OrElse(u.value, [])) else None
  }

  lemma TargetUnionAsPayload(u: Option<Option<bytes>>)
    ensures EncodeTargetUnion(u) == OptPayload(4, TargetBytes(u))
  {
  }

  // ---------- messages with messages inside ----------

  /** x is written into a case of m that has no body. */
  predicate NilTarget(m: Request, x: Request) {
    match x
    case RequestRange(Some(_)) => m == RequestRange(None)
    case RequestPut(Some(_)) => m == RequestPut(None)
    case RequestDeleteRange(Some(_)) => m == RequestDeleteRange(None)
    case _ => false
  }

  function EncodeBody(x: Request): bytes {
    match x
    case RequestRange(Some(b)) => EncodeRange(b)
    case RequestPut(Some(b)) => EncodePut(b)
    case RequestDeleteRange(Some(b)) => EncodeDeleteRange(b)
    case _ => []
  }

  // Decoding a written oneof case: merged into the same case, replacing another.
  lemma DecodeOntoRequest(m: Request, x: Request)
    requires RequestOpOk(Some(RequestOp(x, []))) && |EncodeRequest(x)| <= MAX_INT && !NilTarget(m, x)
    ensures match x
            case RequestRange(Some(b)) => MergeRange(m, EncodeRange(b)) == Ok(MergeRequest(m, x))
            case RequestPut(Some(b)) => MergePut(m, EncodePut(b)) == Ok(MergeRequest(m, x))
            case RequestDeleteRange(Some(b)) => MergeDeleteRange(m, EncodeDeleteRange(b)) == Ok(MergeRequest(m, x))
            case _ => EncodeRequest(x) == []
  {
    hide UnmarshalRange, UnmarshalPut, UnmarshalDeleteRange, EncodeRange, EncodePut, EncodeDeleteRange, IntoNil;
    hide MergeRangeBody, MergePutBody, MergeDeleteRangeBody;
    match x {
      case RequestRange(Some(b)) => DecodeOntoRange(if m.RequestRange? then m.range.value else RANGE, b);
      case RequestPut(Some(b)) => DecodeOntoPut(if m.RequestPut? then m.put.value else PUT, b);
      case RequestDeleteRange(Some(b)) => DecodeOntoDeleteRange(if m.RequestDeleteRange? then m.del.value else DELETE_RANGE, b);
      case _ =>
    }
  }

  // Into a nil body nothing can be written but nothing.
  lemma DecodeOntoNil(m: Request, x: Request)
    requires RequestOpOk(Some(RequestOp(x, []))) && |EncodeRequest(x)| <= MAX_INT && NilTarget(m, x)
    ensures var r: Result<Request, DecodeError> := if EncodeBody(x) == [] then Ok(m) else Err(NilBody);
            match x
            case RequestRange(Some(b)) => MergeRange(m, EncodeRange(b)) == r
            case RequestPut(Some(b)) => MergePut(m, EncodePut(b)) == r
            case RequestDeleteRange(Some(b)) => MergeDeleteRange(m, EncodeDeleteRange(b)) == r
            case _ => true
  {
    hide EncodeRange, EncodePut, EncodeDeleteRange, ReadRecord, MergeRangeBody, MergePutBody, MergeDeleteRangeBody;
    match x {
      case RequestRange(Some(b)) => DecodeOntoRange(RANGE, b);
      case RequestPut(Some(b)) => DecodeOntoPut(PUT, b);
      case RequestDeleteRange(Some(b)) => DecodeOntoDeleteRange(DELETE_RANGE, b);
      case _ =>
    }
  }

  /** What decoding the encoding of x into m gives, nil bodies included. */
  function WriteInto(m: RequestOp, x: RequestOp): Result<RequestOp, DecodeError> {
    if !NilTarget(m.request, x.request) then Ok(MergeRequestOp(m, x))
    else if EncodeBody(x.request) == [] then Ok(m.(unknown := m.unknown + x.unknown))
    else Err(NilBody)
  }

  lemma DecodeOntoRequestOp(m: RequestOp, x: RequestOp)
    requires RequestOpOk(Some(x)) && |EncodeRequestOp(x)| <= MAX_INT
    ensures UnmarshalRequestOp(m, EncodeRequestOp(x)) == WriteInto(m, x)
  {
    hide Decode, PayloadField, EncodeRange, EncodePut, EncodeDeleteRange, MergeRange, MergePut, MergeDeleteRange, MergeRequest;
    EmptyIsWhole(TRequestOp);
    var u := x.unknown;
    if WriteInto(m, x).Ok? {
      if NilTarget(m.request, x.request) { DecodeOntoNil(m.request, x.request); } else { DecodeOntoRequest(m.request, x.request); }
      var r := WriteInto(m, x).value;
      var m1 := r.(unknown := m.unknown);
      RequestOpKeepsUnknown(m1);
      StepUnknown(ApplyRequestOp, TRequestOp, m1, (u: bytes) => m1.(unknown := u), m.unknown, u, r);
      match x.request {
        case RequestRange(Some(b)) => StepPayload(ApplyRequestOp, TRequestOp, m, m1, 1, EncodeRange(b), u, r);
        case RequestPut(Some(b)) => StepPayload(ApplyRequestOp, TRequestOp, m, m1, 2, EncodePut(b), u, r);
        case RequestDeleteRange(Some(b)) => StepPayload(ApplyRequestOp, TRequestOp, m, m1, 3, EncodeDeleteRange(b), u, r);
        case _ => NothingBefore(u); NothingWritten(m.request, x.request);
      }
    } else {
      DecodeOntoNil(m.request, x.request);
      match x.request {
        case RequestRange(Some(b)) => StepPayloadFails(ApplyRequestOp, TRequestOp, m, 1, EncodeRange(b), u);
        case RequestPut(Some(b)) => StepPayloadFails(ApplyRequestOp, TRequestOp, m, 2, EncodePut(b), u);
        case RequestDeleteRange(Some(b)) => StepPayloadFails(ApplyRequestOp, TRequestOp, m, 3, EncodeDeleteRange(b), u);
        case _ =>
      }
    }
  }

  lemma NothingWritten(m: Request, x: Request)
    requires !(x.RequestRange? && x.range.Some?) && !(x.RequestPut? && x.put.Some?) && !(x.RequestDeleteRange? && x.del.Some?)
    ensures MergeRequest(m, x) == m && EncodeRequest(x) == []
  {
  }

  lemma {:induction false} EmptyIsWhole(t: MsgType)
    ensures WholeUnknown(t, [])
  {
  }

  lemma RequestOpKeepsUnknown(m: RequestOp)
    ensures KeepsUnknown(ApplyRequestOp, (u: bytes) => m.(unknown := u))
  {
  }

  // Nothing decodes to the empty message.
  lemma EmptyDecodes()
    ensures UnmarshalCompare(COMPARE, []) == Ok(NormCompare(COMPARE))
    ensures UnmarshalRequestOp(REQUEST_OP, []) == Ok(NormRequestOp(REQUEST_OP))
    ensures UnmarshalKeyValue(KEY_VALUE, []) == Ok(NormKeyValue(KEY_VALUE))
    ensures UnmarshalCommand(COMMAND, []) == Ok(COMMAND)
  {
  }

  lemma RequestOpElement(e: Option<RequestOp>, p: bytes)
    requires RequestOpOk(e) && |p| <= MAX_INT && p == EncodeRequestOpElement(e)
    ensures UnmarshalRequestOp(REQUEST_OP, p) == Ok(NormRequestOp(OrElse(e, REQUEST_OP)))
  {
    MergeIntoFresh();
    if e.Some? { DecodeOntoRequestOp(REQUEST_OP, e.value); } else { EmptyDecodes(); }
  }

  lemma CompareElement(e: Option<Compare>, p: bytes)
    requires CompareOk(e) && |p| <= MAX_INT && p == EncodeCompareElement(e)
    ensures UnmarshalCompare(COMPARE, p) == Ok(NormCompare(OrElse(e, COMPARE)))
  {
    MergeIntoFresh();
    if e.Some? { DecodeOntoCompare(COMPARE, e.value); } else { EmptyDecodes(); }
  }

  // The payloads of a repeated field decode to the elements in normal form.

  lemma {:induction false} ComparesDecode(s: seq<Option<Compare>>, field: nat)
    requires (forall e <- s :: CompareOk(e)) && |Repeated(field, ComparePayloads(s))| <= MAX_INT
    ensures |ComparePayloads(s)| == |NormCompares(s)| == |s|
    ensures forall i :: 0 <= i < |s| ==>
      NormCompares(s)[i].Some? && UnmarshalCompare(COMPARE, ComparePayloads(s)[i]) == Ok(NormCompares(s)[i].value)
    decreases |s|
  {
    hide EncodeCompare, UnmarshalCompare, NormCompare;
    if s != [] {
      CompareElement(s[0], ComparePayloads(s)[0]);
      ComparesDecode(s[1..], field);
    }
  }

  lemma {:induction false} RequestOpsDecode(s: seq<Option<RequestOp>>, field: nat)
    requires (forall e <- s :: RequestOpOk(e)) && |Repeated(field, RequestOpPayloads(s))| <= MAX_INT
    ensures |RequestOpPayloads(s)| == |NormRequestOps(s)| == |s|
    ensures forall i :: 0 <= i < |s| ==>
      NormRequestOps(s)[i].Some? && UnmarshalRequestOp(REQUEST_OP, RequestOpPayloads(s)[i]) == Ok(NormRequestOps(s)[i].value)
    decreases |s|
  {
    hide EncodeRequestOp, UnmarshalRequestOp, NormRequestOp;
    if s != [] {
      RequestOpElement(s[0], RequestOpPayloads(s)[0]);
      RequestOpsDecode(s[1..], field);
    }
  }

  lemma {:induction false} ApplyCompares(m: Txn, s: seq<Option<Compare>>)
    requires (forall e <- s :: CompareOk(e)) && |Repeated(1, ComparePayloads(s))| <= MAX_INT
    ensures ApplyAll(ApplyTxn, m, 1, ComparePayloads(s)) == Ok(m.(compare := m.compare + NormCompares(s)))
  {
    hide UnmarshalCompare, NormCompares, ComparePayloads, Repeated, ApplyAll;
    ComparesDecode(s, 1);
    ApplyAllAdds(ApplyTxn, 1, ComparePayloads(s), (zs: seq<Option<Compare>>) => m.(compare := zs), m.compare, NormCompares(s));
  }

  lemma {:induction false} ApplySuccess(m: Txn, s: seq<Option<RequestOp>>)
    requires (forall e <- s :: RequestOpOk(e)) && |Repeated(2, RequestOpPayloads(s))| <= MAX_INT
    ensures ApplyAll(ApplyTxn, m, 2, RequestOpPayloads(s)) == Ok(m.(success := m.success + NormRequestOps(s)))
  {
    hide UnmarshalRequestOp, NormRequestOps, RequestOpPayloads, Repeated, ApplyAll;
    RequestOpsDecode(s, 2);
    ApplyAllAdds(ApplyTxn, 2, RequestOpPayloads(s), (zs: seq<Option<RequestOp>>) => m.(success := zs), m.success, NormRequestOps(s));
  }

  lemma {:induction false} ApplyFailure(m: Txn, s: seq<Option<RequestOp>>)
    requires (forall e <- s :: RequestOpOk(e)) && |Repeated(3, RequestOpPayloads(s))| <= MAX_INT
    ensures ApplyAll(ApplyTxn, m, 3, RequestOpPayloads(s)) == Ok(m.(failure := m.failure + NormRequestOps(s)))
  {
    hide UnmarshalRequestOp, NormRequestOps, RequestOpPayloads, Repeated, ApplyAll;
    RequestOpsDecode(s, 3);
    ApplyAllAdds(ApplyTxn, 3, RequestOpPayloads(s), (zs: seq<Option<RequestOp>>) => m.(failure := zs), m.failure, NormRequestOps(s));
  }

  lemma DecodeOntoTxn(m: Txn, x: Txn)
    requires TxnOk(Some(x)) && |EncodeTxn(x)| <= MAX_INT
    ensures UnmarshalTxn(m, EncodeTxn(x)) == Ok(MergeTxn(m, x))
  {
    hide Decode, ApplyAll, Repeated, ApplyTxn, CompareOk, RequestOpOk, WholeUnknown;
    hide ComparePayloads, RequestOpPayloads, NormCompares, NormRequestOps;
    var r := MergeTxn(m, x);
    var m1 := m.(compare := r.compare); var m2 := m1.(success := r.success); var m3 := m2.(failure := r.failure);
    var s3 := x.unknown;
    var s2 := Repeated(3, RequestOpPayloads(x.failure)) + s3;
    var s1 := Repeated(2, RequestOpPayloads(x.success)) + s2;
    ApplyCompares(m, x.compare);
    ApplySuccess(m1, x.success);
    ApplyFailure(m2, x.failure);
    TxnKeepsUnknown(m3);
    StepUnknown(ApplyTxn, TTxn, m3, (u: bytes) => m3.(unknown := u), m.unknown, s3, r);
    StepRepeated(ApplyTxn, TTxn, m2, m3, 3, RequestOpPayloads(x.failure), s3, r);
    StepRepeated(ApplyTxn, TTxn, m1, m2, 2, RequestOpPayloads(x.success), s2, r);
    StepRepeated(ApplyTxn, TTxn, m, m1, 1, ComparePayloads(x.compare), s1, r);
  }

  lemma TxnKeepsUnknown(m: Txn)
    ensures KeepsUnknown(ApplyTxn, (u: bytes) => m.(unknown := u))
  {
  }

  lemma {:induction false} ApplyBatch(m: Command, s: seq<Option<KeyValue>>)
    requires (forall e <- s :: KeyValueOk(e)) && |Repeated(6, KeyValuePayloads(s))| <= MAX_INT
    ensures ApplyAll(ApplyCommand, m, 6, KeyValuePayloads(s)) == Ok(m.(batch := m.batch + NormKeyValues(s)))
    decreases |s|
  {
    hide EncodeKeyValue, UnmarshalKeyValue, NormKeyValue;
    if s == [] {
      assert m.batch + [] == m.batch;
    } else {
      var p := KeyValuePayloads(s)[0];
      var x := NormKeyValue(OrElse(s[0], KEY_VALUE));
      assert UnmarshalKeyValue(KEY_VALUE, p) == Ok(x) by {
        MergeIntoFresh();
        if s[0].Some? { DecodeOntoKeyValue(KEY_VALUE, s[0].value); } else { EmptyDecodes(); }
      }
      var m' := m.(batch := m.batch + [Some(x)]);
      ApplyBatch(m', s[1..]);
      assert m'.batch + NormKeyValues(s[1..]) == m.batch + NormKeyValues(s);
    }
  }

  lemma {:induction false} ApplySequence(m: Command, s: seq<Option<Command>>)
    requires CommandsOk(s) && |Repeated(10, CommandPayloads(s))| <= MAX_INT
    ensures ApplyAll(ApplyCommand, m, 10, CommandPayloads(s)) == Ok(m.(sequence := m.sequence + NormCommands(s)))
    decreases s
  {
    hide EncodeCommandElement, UnmarshalCommand, NormElement, ElementOk;
    if s == [] {
      assert m.sequence + [] == m.sequence;
    } else {
      RoundTripElement(s[0]);
      var m' := m.(sequence := m.sequence + [Some(NormElement(s[0]))]);
      ApplySequence(m', s[1..]);
      assert m'.sequence + NormCommands(s[1..]) == m.sequence + NormCommands(s);
    }
  }

  lemma {:induction false} RoundTripElement(m: Option<Command>)
    requires ElementOk(m) && |EncodeCommandElement(m)| <= MAX_INT
    ensures UnmarshalCommand(COMMAND, EncodeCommandElement(m)) == Ok(NormElement(m))
    decreases m
  {
    if m.Some? {
      DecodeOntoCommand(COMMAND, m.value);
      MergeIntoFresh();
    } else {
      EmptyDecodes();
    }
  }

  lemma CommandKeepsUnknown(m: Command)
    ensures KeepsUnknown(ApplyCommand, (u: bytes) => m.(unknown := u))
  {
  }

  // m with the fields up to txn merged, the later ones as they were.
  function FirstFields(m: Command, x: Command): Command {
    MergeCommand(m, x).(rangeEnd := m.rangeEnd, prevKvs := m.prevKvs, sequence := m.sequence, count := m.count, unknown := m.unknown)
  }

  lemma {:induction false} DecodeLaterFields(m: Command, x: Command)
    requires CommandOk(x) && |EncodeLaterFields(x)| <= MAX_INT
    ensures Decode(ApplyCommand, TCommand, FirstFields(m, x), EncodeLaterFields(x), 0) == Ok(MergeCommand(m, x))
    decreases x, 0
  {
    hide Decode, ApplyAll, Repeated, WholeUnknown, CommandsOk, KeyValueOk, TxnOk, OverBytes, OverEnum;
    hide OptBool, OptPayload, MergeKeyValue, MergeTxn, NormKeyValues, CommandPayloads, NormCommands;
    var r := MergeCommand(m, x);
    var m1 := FirstFields(m, x).(rangeEnd := r.rangeEnd); var m2 := m1.(prevKvs := r.prevKvs);
    var m3 := m2.(sequence := r.sequence); var m4 := m3.(count := r.count);
    var s4 := x.unknown;
    var s3 := OptBool(11, x.count) + s4;
    var s2 := Repeated(10, CommandPayloads(x.sequence)) + s3;
    var s1 := OptBool(9, x.prevKvs) + s2;
    CommandKeepsUnknown(m4);
    StepUnknown(ApplyCommand, TCommand, m4, (u: bytes) => m4.(unknown := u), m.unknown, s4, r);
    StepOptBool(ApplyCommand, TCommand, m3, m4, 11, x.count, s4, r);
    ApplySequence(m2, x.sequence);
    StepRepeated(ApplyCommand, TCommand, m2, m3, 10, CommandPayloads(x.sequence), s3, r);
    StepOptBool(ApplyCommand, TCommand, m1, m2, 9, x.prevKvs, s2, r);
    StepOptPayload(ApplyCommand, TCommand, FirstFields(m, x), m1, 8, x.rangeEnd, s1, r);
  }

  lemma {:induction false} DecodeFirstFields(m: Command, x: Command)
    requires CommandOk(x) && |EncodeCommand(x)| <= MAX_INT
    requires Decode(ApplyCommand, TCommand, FirstFields(m, x), EncodeLaterFields(x), 0) == Ok(MergeCommand(m, x))
    ensures Decode(ApplyCommand, TCommand, m, EncodeCommand(x), 0) == Ok(MergeCommand(m, x))
  {
    hide Decode, ApplyAll, Repeated, WholeUnknown, CommandsOk, KeyValueOk, TxnOk, EncodeLaterFields;
    hide OptBytes, OptNumber, NumberField, PayloadField, Int32, UInt64, Cut, EncodeKv, EncodeLeaderIndex, EncodeTxnField;
    hide MergeKeyValue, MergeTxn, UnmarshalKeyValue, UnmarshalTxn, KeyValuePayloads, NormKeyValues, NormCommands;
    var r := MergeCommand(m, x);
    var m1 := m.(table := r.table); var m2 := m1.(typ := r.typ); var m3 := m2.(kv := r.kv); var m4 := m3.(leaderIndex := r.leaderIndex);
    var m5 := m4.(batch := r.batch); var m6 := m5.(txn := r.txn);
    var s6 := EncodeLaterFields(x);
    var s5 := EncodeTxnField(x.txn) + s6;
    var s4 := Repeated(6, KeyValuePayloads(x.batch)) + s5;
    var s3 := EncodeLeaderIndex(x.leaderIndex) + s4;
    var s2 := EncodeKv(x.kv) + s3;
    var s1 := OptNumber(2, x.typ) + s2;
    StepTxnField(m5, m6, x.txn, s6, r);
    ApplyBatch(m4, x.batch);
    StepRepeated(ApplyCommand, TCommand, m4, m5, 6, KeyValuePayloads(x.batch), s5, r);
    StepLeaderIndex(m3, m4, x.leaderIndex, s4, r);
    StepKv(m2, m3, x.kv, s3, r);
    Int32Back(x.typ);
    StepOptNumber(ApplyCommand, TCommand, m1, m2, 2, x.typ, s2, r);
    StepOptBytes(ApplyCommand, TCommand, m, m1, 1, x.table, s1, r);
  }

  // Main result ("Last One Wins"): decoding the encoding of any command tree x
  // into any command m merges x into m.
  lemma {:induction false} DecodeOntoCommand(m: Command, x: Command)
    requires CommandOk(x) && |EncodeCommand(x)| <= MAX_INT
    ensures UnmarshalCommand(m, EncodeCommand(x)) == Ok(MergeCommand(m, x))
    decreases x, 1
  {
    hide EncodeCommand, EncodeLaterFields, MergeCommand, CommandOk, FirstFields, Decode;
    LaterFieldsFit(x);
    DecodeLaterFields(m, x);
    DecodeFirstFields(m, x);
    UnmarshalCommandIsUnmarshal(m, EncodeCommand(x));
  }

  lemma {:induction false} LaterFieldsFit(x: Command)
    ensures |EncodeLaterFields(x)| <= |EncodeCommand(x)|
  {
  }

  lemma {:induction false} StepTxnField(m: Command, m': Command, txn: Option<Txn>, rest: bytes, r: Command)
    requires TxnOk(txn) && |EncodeTxnField(txn) + rest| <= MAX_INT
    requires m' == m.(txn := if txn.Some? then Some(MergeTxn(OrElse(m.txn, TXN), txn.value)) else m.txn)
    requires Decode(ApplyCommand, TCommand, m', rest, 0) == Ok(r)
    ensures Decode(ApplyCommand, TCommand, m, EncodeTxnField(txn) + rest, 0) == Ok(r)
  {
    hide Decode, EncodeTxn, MergeTxn, UnmarshalTxn, TxnOk;
    if txn.Some? {
      DecodeOntoTxn(OrElse(m.txn, TXN), txn.value);
      StepPayload(ApplyCommand, TCommand, m, m', 7, EncodeTxn(txn.value), rest, r);
    } else {
      assert [] + rest == rest;
    }
  }

  lemma {:induction false} StepKv(m: Command, m': Command, kv: Option<KeyValue>, rest: bytes, r: Command)
    requires KeyValueOk(kv) && |EncodeKv(kv) + rest| <= MAX_INT
    requires m' == m.(kv := if kv.Some? then Some(MergeKeyValue(OrElse(m.kv, KEY_VALUE), kv.value)) else m.kv)
    requires Decode(ApplyCommand, TCommand, m', rest, 0) == Ok(r)
    ensures Decode(ApplyCommand, TCommand, m, EncodeKv(kv) + rest, 0) == Ok(r)
  {
    hide Decode, EncodeKeyValue, MergeKeyValue, UnmarshalKeyValue;
    if kv.Some? {
      DecodeOntoKeyValue(OrElse(m.kv, KEY_VALUE), kv.value);
      StepPayload(ApplyCommand, TCommand, m, m', 3, EncodeKeyValue(kv.value), rest, r);
    } else {
      assert [] + rest == rest;
    }
  }

  lemma {:induction false} StepLeaderIndex(m: Command, m': Command, v: Option<u64>, rest: bytes, r: Command)
    requires |EncodeLeaderIndex(v) + rest| <= MAX_INT
    requires m' == m.(leaderIndex := if v.Some? then v else m.leaderIndex)
    requires Decode(ApplyCommand, TCommand, m', rest, 0) == Ok(r)
    ensures Decode(ApplyCommand, TCommand, m, EncodeLeaderIndex(v) + rest, 0) == Ok(r)
  {
    hide Decode;
    if v.Some? {
      StepNumber(ApplyCommand, TCommand, m, m', 5, v.value, rest, r);
    } else {
      assert [] + rest == rest;
    }
  }

  // ---------- the round trip ----------

  // Main result: MarshalVT then UnmarshalVT into a fresh Command gives the tree
  // back in normal form, whatever the nesting of Sequence, Batch and Txn.
  lemma {:induction false} RoundTripCommand(m: Command)
    requires CommandOk(m) && |EncodeCommand(m)| <= MAX_INT
    ensures UnmarshalCommand(COMMAND, EncodeCommand(m)) == Ok(NormCommand(m))
  {
    hide CommandOk, EncodeCommand, UnmarshalCommand, MergeCommand, NormCommand;
    DecodeOntoCommand(COMMAND, m);
    MergeIntoFresh();
  }

  /** m and r hold the same optional fields, at every level of the tree; a nil
      element of a list stands for an empty one. */
  predicate SamePresence(m: Command, r: Command)
    decreases m
  {
    && r.rangeEnd == m.rangeEnd && r.leaderIndex == m.leaderIndex
    && (r.txn.Some? <==> m.txn.Some?) && (r.kv.Some? <==> m.kv.Some?)
    && (m.txn.Some? && r.txn.Some? ==> SameTargets(m.txn.value.compare, r.txn.value.compare))
    && SamePresences(m.sequence, r.sequence)
  }

  predicate SameTargets(s: seq<Option<Compare>>, t: seq<Option<Compare>>) {
    |s| == |t| && forall i :: 0 <= i < |s| ==>
      t[i].Some? && (t[i].value.targetUnion.Some? <==> s[i].Some? && s[i].value.targetUnion.Some?)
  }

  predicate SamePresences(s: seq<Option<Command>>, t: seq<Option<Command>>)
    decreases s
  {
    |s| == |t| && (s == [] || (SameElement(s[0], t[0]) && SamePresences(s[1..], t[1..])))
  }

  predicate SameElement(m: Option<Command>, r: Option<Command>)
    decreases m
  {
    r.Some? && if m.Some? then SamePresence(m.value, r.value) else r.value == COMMAND
  }

  lemma {:induction false} NormKeepsPresence(m: Command)
    ensures SamePresence(m, NormCommand(m))
    decreases m
  {
    hide NormCommands, SamePresences, NormKeyValues, NormRequestOps;
    if m.txn.Some? { NormComparesAt(m.txn.value.compare); }
    NormsKeepPresence(m.sequence);
  }

  lemma {:induction false} NormsKeepPresence(s: seq<Option<Command>>)
    ensures SamePresences(s, NormCommands(s))
    decreases s
  {
    hide NormElement, SameElement;
    if s != [] {
      NormElementKeepsPresence(s[0]);
      NormsKeepPresence(s[1..]);
      assert NormCommands(s)[1..] == NormCommands(s[1..]);
    }
  }

  lemma {:induction false} NormElementKeepsPresence(m: Option<Command>)
    ensures SameElement(m, Some(NormElement(m)))
    decreases m
  {
    if m.Some? { NormKeepsPresence(m.value); }
  }

  // Presence survives, at every level: an empty range end, a zero leader index
  // and an empty comparison value are told apart from absent ones.
  lemma {:induction false} PresenceSurvives(m: Command)
    requires CommandOk(m) && |EncodeCommand(m)| <= MAX_INT
    ensures UnmarshalCommand(COMMAND, EncodeCommand(m)).Ok?
    ensures SamePresence(m, UnmarshalCommand(COMMAND, EncodeCommand(m)).value)
  {
    hide *;
    RoundTripCommand(m);
    NormKeepsPresence(m);
  }

  lemma {:induction false} NormComparesAt(s: seq<Option<Compare>>)
    ensures |NormCompares(s)| == |s|
    ensures forall i :: 0 <= i < |s| ==> NormCompares(s)[i] == Some(NormCompare(OrElse(s[i], COMPARE)))
    decreases |s|
  {
    if s != [] { NormComparesAt(s[1..]); }
  }

  // ---------- concatenated input ----------

  // Main result: for arbitrary bytes, decoding a ++ b into m is decoding a and
  // then b; the error differs only where a declared length nears the largest int.
  lemma {:induction false} CommandMergeLaw(m: Command, a: bytes, b: bytes)
    requires |a| + |b| <= MAX_INT && UnmarshalCommand(m, a).Ok?
    ensures var m1 := UnmarshalCommand(m, a).value;
            && SameUpToEnd(UnmarshalCommand(m1, b), UnmarshalCommand(m, a + b))
            && (UnmarshalCommand(m, a + b) == UnmarshalCommand(m1, b) <==>
                !(StoppingEnd(ApplyCommand, TCommand, m1, b, 0) <= MAX_INT < StoppingEnd(ApplyCommand, TCommand, m1, b, 0) + |a|))
  {
    hide Decode, StoppingEnd, ApplyCommand, DecodeCommand;
    UnmarshalCommandIsUnmarshal(m, a);
    UnmarshalCommandIsUnmarshal(m, a + b);
    UnmarshalCommandIsUnmarshal(UnmarshalCommand(m, a).value, b);
    MergeLaw(ApplyCommand, TCommand, m, a, b);
  }

  // Two encodings one after the other decode to the merge of the two messages.
  lemma {:induction false} ConcatenationMerges(x: Command, y: Command)
    requires CommandOk(x) && CommandOk(y) && |EncodeCommand(x)| + |EncodeCommand(y)| <= MAX_INT
    ensures UnmarshalCommand(COMMAND, EncodeCommand(x) + EncodeCommand(y)) == Ok(MergeCommand(NormCommand(x), y))
  {
    hide CommandOk, EncodeCommand, UnmarshalCommand, MergeCommand, NormCommand, StoppingEnd;
    RoundTripCommand(x);
    DecodeOntoCommand(NormCommand(x), y);
    CommandMergeLaw(COMMAND, EncodeCommand(x), EncodeCommand(y));
  }

  // The error of the concatenation can differ: after a two byte field, a table
  // announced to have 2^63 - 11 bytes is an InvalidLength; alone it is an
  // UnexpectedEOF.
  lemma MergeLawErrorsCanDiffer()
    ensures var a, b := PayloadField(1, []), Tag(1, 2) + EncodeVarint(MAX_INT - 10);
            && UnmarshalCommand(COMMAND, a) == Ok(COMMAND.(table := Some([])))
            && UnmarshalCommand(COMMAND.(table := Some([])), b) == Err(UnexpectedEOF)
            && UnmarshalCommand(COMMAND, a + b) == Err(InvalidLength)
  {
    hide ReadRecord, EncodeVarint, Tag, PayloadField;
    var a, b := PayloadField(1, []), Tag(1, 2) + EncodeVarint(MAX_INT - 10);
    var m1 := COMMAND.(table := Some([]));
    assert |a| == 2 && |b| == 10 by { HugeLengthSizes(); }
    ReadPayloadField(TCommand, 1, [], [], 0);
    ReadPayloadField(TCommand, 1, [], b, 0);
    assert a + [] == a && (a + b)[2..] == b && a[2..] == [];
    ReadHugeLength(0);
    ReadHugeLength(2);
    assert DecodeCommand(COMMAND, a + b, 0) == DecodeCommand(m1, b, 2);
  }

  lemma HugeLengthSizes()
    ensures |PayloadField(1, [])| == 2 && |Tag(1, 2)| == 1 && |EncodeVarint(MAX_INT - 10)| == 9
  {
    var v1 := (MAX_INT - 10) / 128; var v2 := v1 / 128; var v3 := v2 / 128; var v4 := v3 / 128;
    var v5 := v4 / 128; var v6 := v5 / 128; var v7 := v6 / 128;
    assert 128 <= v7 && v7 / 128 < 128;
    assert |EncodeVarint(v7)| == 2 && |EncodeVarint(v6)| == 3 && |EncodeVarint(v5)| == 4;
    assert |EncodeVarint(v4)| == 5 && |EncodeVarint(v3)| == 6 && |EncodeVarint(v2)| == 7 && |EncodeVarint(v1)| == 8;
  }

  lemma ReadHugeLength(pos: nat)
    requires pos == 0 || pos == 2
    ensures var b := Tag(1, 2) + EncodeVarint(MAX_INT - 10);
            |b| == 10 && ReadRecord(TCommand, b, pos) == Err(if pos == 0 then UnexpectedEOF else InvalidLength)
  {
    hide ReadVarint, EncodeVarint, FieldNum, WireType, Tag, AddInt, Int64, Cut;
    var size := MAX_INT - 10;
    HugeLengthSizes();
    ReadTag(1, 2, EncodeVarint(size));
    ReadInvertsEncode(size, [], W64);
    assert EncodeVarint(size) + [] == EncodeVarint(size);
    CutLength(size);
  }
}
