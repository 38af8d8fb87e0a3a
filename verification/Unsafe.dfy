// UnmarshalVTUnsafe: the same decoders, but every []byte field becomes a
// sub-slice of the input buffer instead of a copy.
module Unsafe {
  import opened Common
  import opened Varint
  import opened Wire
  import opened Messages

  /** The sub-slice dAtA[from:to]. */
  datatype Ref = Ref(from: nat, to: nat)

  datatype KeyValueRef = KeyValueRef(
    key: Option<Ref>, createRevision: i64, modRevision: i64, value: Option<Ref>, unknown: bytes)
  datatype RangeRef = RangeRef(
    key: Option<Ref>, rangeEnd: Option<Ref>, limit: i64, keysOnly: bool, countOnly: bool, unknown: bytes)
  datatype PutRef = PutRef(key: Option<Ref>, value: Option<Ref>, prevKv: bool, unknown: bytes)
  datatype DeleteRef = DeleteRef(key: Option<Ref>, rangeEnd: Option<Ref>, prevKv: bool, count: bool, unknown: bytes)
  datatype BodyRef = NoBody | RangeBody(range: RangeRef) | PutBody(put: PutRef) | DeleteBody(del: DeleteRef)
  datatype RequestOpRef = RequestOpRef(request: BodyRef, unknown: bytes)
  datatype CompareRef = CompareRef(
    result: i32, target: i32, key: Option<Ref>, targetUnion: Option<Ref>, rangeEnd: Option<Ref>, unknown: bytes)
  datatype TxnRef = TxnRef(compare: seq<CompareRef>, success: seq<RequestOpRef>, failure: seq<RequestOpRef>, unknown: bytes)
  datatype CommandRef = CommandRef(
    table: Option<Ref>, typ: i32, kv: Option<KeyValueRef>, leaderIndex: Option<u64>,
    batch: seq<KeyValueRef>, txn: Option<TxnRef>, rangeEnd: Option<Ref>, prevKvs: bool,
    sequence: seq<CommandRef>, count: bool, unknown: bytes)

  const KEY_VALUE_REF := KeyValueRef(None, 0, 0, None, [])
  const RANGE_REF := RangeRef(None, None, 0, false, false, [])
  const PUT_REF := PutRef(None, None, false, [])
  const DELETE_REF := DeleteRef(None, None, false, false, [])
  const REQUEST_OP_REF := RequestOpRef(NoBody, [])
  const COMPARE_REF := CompareRef(0, 0, None, None, None, [])
  const TXN_REF := TxnRef([], [], [], [])
  const COMMAND_REF := CommandRef(None, 0, None, None, [], None, None, false, [], false, [])

  /** A record by its place in the buffer; unknown bytes are appended, so copied. */
  datatype RefSlot =
    | NumberSlot(field: int, value: u64)
    | PayloadSlot(field: int, at: Ref)
    | UnknownSlot(raw: bytes)

  function SlotOf(r: Record, end: nat): RefSlot {
    match r
    case Number(f, v) => NumberSlot(f, v)
    case Payload(f, p) => PayloadSlot(f, Ref(if |p| <= end then end - |p| else 0, end))
    case Unknown(raw) => UnknownSlot(raw)
  }

  // ---------- decoding ----------

  /** The loop on dAtA[lo..hi], its cursor at i. */
  function Decode<M>(apply: (M, RefSlot) -> Result<M, DecodeError>, t: MsgType, m: M, dAtA: bytes, lo: nat, hi: nat, i: nat): Result<M, DecodeError>
    requires lo <= i <= hi <= |dAtA| <= MAX_INT
    decreases hi - i
  {
    if i == hi then Ok(m)
    else
      var (r, n) :- ReadRecord(t, dAtA[i..hi], i - lo);
      var m' :- apply(m, SlotOf(r, i + n));
      Decode(apply, t, m', dAtA, lo, hi, i + n)
  }

  // A reference outside the buffer does not exist; it decodes to nothing.
  function UnmarshalAt<M>(apply: (M, RefSlot) -> Result<M, DecodeError>, t: MsgType, m: M, dAtA: bytes, at: Ref): Result<M, DecodeError> {
    if at.from <= at.to <= |dAtA| <= MAX_INT then Decode(apply, t, m, dAtA, at.from, at.to, at.from) else Err(InvalidLength)
  }

  function ApplyKeyValueRef(m: KeyValueRef, s: RefSlot): Result<KeyValueRef, DecodeError> {
    match s
    case PayloadSlot(1, p) => Ok(m.(key := Some(p)))
    case NumberSlot(2, v) => Ok(m.(createRevision := Int64(v)))
    case NumberSlot(3, v) => Ok(m.(modRevision := Int64(v)))
    case PayloadSlot(4, p) => Ok(m.(value := Some(p)))
    case UnknownSlot(raw) => Ok(m.(unknown := m.unknown + raw))
    case _ => Ok(m)
  }

  function ApplyRangeRef(m: RangeRef, s: RefSlot): Result<RangeRef, DecodeError> {
    match s
    case PayloadSlot(1, p) => Ok(m.(key := Some(p)))
    case PayloadSlot(2, p) => Ok(m.(rangeEnd := Some(p)))
    case NumberSlot(3, v) => Ok(m.(limit := Int64(v)))
    case NumberSlot(4, v) => Ok(m.(keysOnly := v != 0))
    case NumberSlot(5, v) => Ok(m.(countOnly := v != 0))
    case UnknownSlot(raw) => Ok(m.(unknown := m.unknown + raw))
    case _ => Ok(m)
  }

  function ApplyPutRef(m: PutRef, s: RefSlot): Result<PutRef, DecodeError> {
    match s
    case PayloadSlot(1, p) => Ok(m.(key := Some(p)))
    case PayloadSlot(2, p) => Ok(m.(value := Some(p)))
    case NumberSlot(3, v) => Ok(m.(prevKv := v != 0))
    case UnknownSlot(raw) => Ok(m.(unknown := m.unknown + raw))
    case _ => Ok(m)
  }

  function ApplyDeleteRef(m: DeleteRef, s: RefSlot): Result<DeleteRef, DecodeError> {
    match s
    case PayloadSlot(1, p) => Ok(m.(key := Some(p)))
    case PayloadSlot(2, p) => Ok(m.(rangeEnd := Some(p)))
    case NumberSlot(4, v) => Ok(m.(prevKv := v != 0))
    case NumberSlot(5, v) => Ok(m.(count := v != 0))
    case UnknownSlot(raw) => Ok(m.(unknown := m.unknown + raw))
    case _ => Ok(m)
  }

  function ApplyCompareRef(m: CompareRef, s: RefSlot): Result<CompareRef, DecodeError> {
    match s
    case NumberSlot(1, v) => Ok(m.(result := Int32(v)))
    case NumberSlot(2, v) => Ok(m.(target := Int32(v)))
    case PayloadSlot(3, p) => Ok(m.(key := Some(p)))
    case PayloadSlot(4, p) => Ok(m.(targetUnion := Some(p)))
    case PayloadSlot(64, p) => Ok(m.(rangeEnd := Some(p)))
    case UnknownSlot(raw) => Ok(m.(unknown := m.unknown + raw))
    case _ => Ok(m)
  }

  function ApplyRequestOpRef(dAtA: bytes, m: RequestOpRef, s: RefSlot): Result<RequestOpRef, DecodeError> {
    match s
    case PayloadSlot(1, p) =>
      var x :- UnmarshalAt(ApplyRangeRef, TRange, if m.request.RangeBody? then m.request.range else RANGE_REF, dAtA, p);
      Ok(m.(request := RangeBody(x)))
    case PayloadSlot(2, p) =>
      var x :- UnmarshalAt(ApplyPutRef, TPut, if m.request.PutBody? then m.request.put else PUT_REF, dAtA, p);
      Ok(m.(request := PutBody(x)))
    case PayloadSlot(3, p) =>
      var x :- UnmarshalAt(ApplyDeleteRef, TDeleteRange, if m.request.DeleteBody? then m.request.del else DELETE_REF, dAtA, p);
      Ok(m.(request := DeleteBody(x)))
    case UnknownSlot(raw) => Ok(m.(unknown := m.unknown + raw))
    case _ => Ok(m)
  }

  function UnmarshalRequestOpAt(dAtA: bytes, at: Ref): Result<RequestOpRef, DecodeError> {
    UnmarshalAt((m: RequestOpRef, s: RefSlot) => ApplyRequestOpRef(dAtA, m, s), TRequestOp, REQUEST_OP_REF, dAtA, at)
  }

  function ApplyTxnRef(dAtA: bytes, m: TxnRef, s: RefSlot): Result<TxnRef, DecodeError> {
    match s
    case PayloadSlot(1, p) => var x :- UnmarshalAt(ApplyCompareRef, TCompare, COMPARE_REF, dAtA, p); Ok(m.(compare := m.compare + [x]))
    case PayloadSlot(2, p) => var x :- UnmarshalRequestOpAt(dAtA, p); Ok(m.(success := m.success + [x]))
    case PayloadSlot(3, p) => var x :- UnmarshalRequestOpAt(dAtA, p); Ok(m.(failure := m.failure + [x]))
    case UnknownSlot(raw) => Ok(m.(unknown := m.unknown + raw))
    case _ => Ok(m)
  }

  function UnmarshalTxnAt(dAtA: bytes, m: TxnRef, at: Ref): Result<TxnRef, DecodeError> {
    UnmarshalAt((m: TxnRef, s: RefSlot) => ApplyTxnRef(dAtA, m, s), TTxn, m, dAtA, at)
  }

  function SlotSize(s: RefSlot): nat {
    if s.PayloadSlot? && s.at.from <= s.at.to then s.at.to - s.at.from else 0
  }

  function ApplyCommandRef(dAtA: bytes, m: CommandRef, s: RefSlot): Result<CommandRef, DecodeError>
    decreases SlotSize(s), 2
  {
    match s
    case PayloadSlot(1, p) => Ok(m.(table := Some(p)))
    case NumberSlot(2, v) => Ok(m.(typ := Int32(v)))
    case PayloadSlot(3, p) => var x :- UnmarshalAt(ApplyKeyValueRef, TKeyValue, OrElse(m.kv, KEY_VALUE_REF), dAtA, p); Ok(m.(kv := Some(x)))
    case NumberSlot(5, v) => Ok(m.(leaderIndex := Some(v)))
    case PayloadSlot(6, p) => var x :- UnmarshalAt(ApplyKeyValueRef, TKeyValue, KEY_VALUE_REF, dAtA, p); Ok(m.(batch := m.batch + [x]))
    case PayloadSlot(7, p) => var x :- UnmarshalTxnAt(dAtA, OrElse(m.txn, TXN_REF), p); Ok(m.(txn := Some(x)))
    case PayloadSlot(8, p) => Ok(m.(rangeEnd := Some(p)))
    case NumberSlot(9, v) => Ok(m.(prevKvs := v != 0))
    case PayloadSlot(10, p) =>
      if !(p.from <= p.to <= |dAtA| <= MAX_INT) then Err(InvalidLength)
      else
        var x :- DecodeCommandRef(COMMAND_REF, dAtA, p.from, p.to, p.from);
        Ok(m.(sequence := m.sequence + [x]))
    case NumberSlot(11, v) => Ok(m.(count := v != 0))
    case UnknownSlot(raw) => Ok(m.(unknown := m.unknown + raw))
    case _ => Ok(m)
  }

  function DecodeCommandRef(m: CommandRef, dAtA: bytes, lo: nat, hi: nat, i: nat): Result<CommandRef, DecodeError>
    requires lo <= i <= hi <= |dAtA| <= MAX_INT
    decreases hi - i, 1
  {
    if i == hi then Ok(m)
    else
      var (r, n) :- ReadRecord(TCommand, dAtA[i..hi], i - lo);
      var m' :- ApplyCommandRef(dAtA, m, SlotOf(r, i + n));
      DecodeCommandRef(m', dAtA, lo, hi, i + n)
  }

  /** UnmarshalVTUnsafe into a fresh Command. */
  function UnmarshalUnsafe(dAtA: bytes): Result<CommandRef, DecodeError> {
    if |dAtA| > MAX_INT then Err(InvalidLength) else DecodeCommandRef(COMMAND_REF, dAtA, 0, |dAtA|, 0)
  }

  // ---------- reading the references ----------

  function Get(dAtA: bytes, r: Ref): bytes {
    if r.from <= r.to <= |dAtA| then dAtA[r.from..r.to] else []
  }

  function GetOpt(dAtA: bytes, r: Option<Ref>): Option<bytes> {
    if r.Some? then Some(Get(dAtA, r.value)) else None
  }

  function SeeKeyValue(d: bytes, m: KeyValueRef): KeyValue {
    KeyValue(GetOpt(d, m.key), m.createRevision, m.modRevision, GetOpt(d, m.value), m.unknown)
  }

  function SeeRange(d: bytes, m: RangeRef): Range {
    Range(GetOpt(d, m.key), GetOpt(d, m.rangeEnd), m.limit, m.keysOnly, m.countOnly, m.unknown)
  }

  function SeePut(d: bytes, m: PutRef): Put { Put(GetOpt(d, m.key), GetOpt(d, m.value), m.prevKv, m.unknown) }

  function SeeDelete(d: bytes, m: DeleteRef): DeleteRange {
    DeleteRange(GetOpt(d, m.key), GetOpt(d, m.rangeEnd), m.prevKv, m.count, m.unknown)
  }

  function SeeRequestOp(d: bytes, m: RequestOpRef): RequestOp {
    RequestOp(match m.request
              case NoBody => NoRequest
              case RangeBody(x) => RequestRange(Some(SeeRange(d, x)))
              case PutBody(x) => RequestPut(Some(SeePut(d, x)))
              case DeleteBody(x) => RequestDeleteRange(Some(SeeDelete(d, x))), m.unknown)
  }

  function SeeCompare(d: bytes, m: CompareRef): Compare {
    Compare(m.result, m.target, GetOpt(d, m.key), if m.targetUnion.Some? then Some(GetOpt(d, m.targetUnion)) else None,
      GetOpt(d, m.rangeEnd), m.unknown)
  }

  function SeeTxn(d: bytes, m: TxnRef): Txn {
    Txn(seq(|m.compare|, i requires 0 <= i < |m.compare| => Some(SeeCompare(d, m.compare[i]))),
        seq(|m.success|, i requires 0 <= i < |m.success| => Some(SeeRequestOp(d, m.success[i]))),
        seq(|m.failure|, i requires 0 <= i < |m.failure| => Some(SeeRequestOp(d, m.failure[i]))), m.unknown)
  }

  function SeeCommand(d: bytes, m: CommandRef): Command {
    Command(GetOpt(d, m.table), m.typ, if m.kv.Some? then Some(SeeKeyValue(d, m.kv.value)) else None, m.leaderIndex,
      seq(|m.batch|, i requires 0 <= i < |m.batch| => Some(SeeKeyValue(d, m.batch[i]))),
      if m.txn.Some? then Some(SeeTxn(d, m.txn.value)) else None, GetOpt(d, m.rangeEnd), m.prevKvs,
      SeeCommands(d, m.sequence), m.count, m.unknown)
  }

  function SeeCommands(d: bytes, s: seq<CommandRef>): seq<Option<Command>> {
    if s == [] then [] else [Some(SeeCommand(d, s[0]))] + SeeCommands(d, s[1..])
  }

  function SeeResult<U, M>(see: U -> M, r: Result<U, DecodeError>): Result<M, DecodeError> {
    match r case Ok(u) => Ok(see(u)) case Err(e) => Err(e)
  }

  // ---------- the two decoders agree ----------

  function RecordOf(d: bytes, s: RefSlot): Record {
    match s
    case NumberSlot(f, v) => Number(f, v)
    case PayloadSlot(f, at) => Payload(f, Get(d, at))
    case UnknownSlot(raw) => Unknown(raw)
  }

  predicate InBuffer(d: bytes, s: RefSlot) { s.PayloadSlot? ==> s.at.from <= s.at.to <= |d| }

  ghost predicate Commutes<U(!new), M>(d: bytes, applyRef: (U, RefSlot) -> Result<U, DecodeError>, apply: (M, Record) -> Result<M, DecodeError>, see: U -> M) {
    forall u: U, s: RefSlot :: InBuffer(d, s) ==> SeeResult(see, applyRef(u, s)) == apply(see(u), RecordOf(d, s))
  }

  lemma SlotOfRecord(t: MsgType, d: bytes, lo: nat, hi: nat, i: nat)
    requires lo <= i < hi <= |d| <= MAX_INT && ReadRecord(t, d[i..hi], i - lo).Ok?
    ensures var (r, n) := ReadRecord(t, d[i..hi], i - lo).value;
            InBuffer(d, SlotOf(r, i + n)) && RecordOf(d, SlotOf(r, i + n)) == r && SlotSize(SlotOf(r, i + n)) <= n
    ensures var n := ReadRecord(t, d[i..hi], i - lo).value.1; d[i..hi][n..] == d[i + n..hi]
  {
    hide ReadRecord;
    var (r, n) := ReadRecord(t, d[i..hi], i - lo).value;
    SubSlice(d, i, hi, n, hi - i);
    if r.Payload? {
      PayloadIsSuffix(t, d[i..hi], i - lo);
      SubSlice(d, i, hi, n - |r.payload|, n);
    }
  }

  lemma CommutesAt<U(!new), M>(d: bytes, applyRef: (U, RefSlot) -> Result<U, DecodeError>, apply: (M, Record) -> Result<M, DecodeError>, see: U -> M, u: U, s: RefSlot)
    requires Commutes(d, applyRef, apply, see) && InBuffer(d, s)
    ensures SeeResult(see, applyRef(u, s)) == apply(see(u), RecordOf(d, s))
  {
  }

  // One turn of each loop.

  lemma {:induction false} WireTurn<M>(apply: (M, Record) -> Result<M, DecodeError>, t: MsgType, m: M, b: bytes, pos: nat)
    requires pos + |b| <= MAX_INT && b != [] && ReadRecord(t, b, pos).Ok?
    ensures var (r, n) := ReadRecord(t, b, pos).value;
            Wire.Decode(apply, t, m, b, pos) ==
            match apply(m, r) case Err(e) => Err(e) case Ok(m') => Wire.Decode(apply, t, m', b[n..], pos + n)
  {
    hide ReadRecord;
  }

  lemma {:induction false} RefTurn<U>(apply: (U, RefSlot) -> Result<U, DecodeError>, t: MsgType, u: U, d: bytes, lo: nat, hi: nat, i: nat)
    requires lo <= i < hi <= |d| <= MAX_INT && ReadRecord(t, d[i..hi], i - lo).Ok?
    ensures var (r, n) := ReadRecord(t, d[i..hi], i - lo).value;
            Decode(apply, t, u, d, lo, hi, i) ==
            match apply(u, SlotOf(r, i + n)) case Err(e) => Err(e) case Ok(u') => Decode(apply, t, u', d, lo, hi, i + n)
  {
    hide ReadRecord, SlotOf;
  }

  lemma {:induction false} NoTurn<U, M>(applyRef: (U, RefSlot) -> Result<U, DecodeError>, apply: (M, Record) -> Result<M, DecodeError>, see: U -> M,
                     t: MsgType, u: U, d: bytes, lo: nat, hi: nat, i: nat)
    requires lo <= i <= hi <= |d| <= MAX_INT && (i == hi || ReadRecord(t, d[i..hi], i - lo).Err?)
    ensures SeeResult(see, Decode(applyRef, t, u, d, lo, hi, i)) == Wire.Decode(apply, t, see(u), d[i..hi], i - lo)
  {
    hide ReadRecord, SlotOf;
  }

  lemma {:induction false} DecodeCommutes<U(!new), M>(
      applyRef: (U, RefSlot) -> Result<U, DecodeError>, apply: (M, Record) -> Result<M, DecodeError>, see: U -> M,
      t: MsgType, u: U, d: bytes, lo: nat, hi: nat, i: nat)
    requires lo <= i <= hi <= |d| <= MAX_INT && Commutes(d, applyRef, apply, see)
    ensures SeeResult(see, Decode(applyRef, t, u, d, lo, hi, i)) == Wire.Decode(apply, t, see(u), d[i..hi], i - lo)
    decreases hi - i
  {
    hide ReadRecord, RecordOf, SlotOf, Commutes, InBuffer, Decode, Wire.Decode;
    if i == hi || ReadRecord(t, d[i..hi], i - lo).Err? {
      NoTurn(applyRef, apply, see, t, u, d, lo, hi, i);
    } else {
      var (r, n) := ReadRecord(t, d[i..hi], i - lo).value;
      var s := SlotOf(r, i + n);
      SlotOfRecord(t, d, lo, hi, i);
      CommutesAt(d, applyRef, apply, see, u, s);
      WireTurn(apply, t, see(u), d[i..hi], i - lo);
      RefTurn(applyRef, t, u, d, lo, hi, i);
      if applyRef(u, s).Ok? {
        DecodeCommutes(applyRef, apply, see, t, applyRef(u, s).value, d, lo, hi, i + n);
      }
    }
  }

  lemma UnmarshalCommutes<U(!new), M>(
      applyRef: (U, RefSlot) -> Result<U, DecodeError>, apply: (M, Record) -> Result<M, DecodeError>, see: U -> M,
      t: MsgType, u: U, d: bytes, at: Ref)
    requires |d| <= MAX_INT && at.from <= at.to <= |d| && Commutes(d, applyRef, apply, see)
    ensures SeeResult(see, UnmarshalAt(applyRef, t, u, d, at)) == Unmarshal(apply, t, see(u), Get(d, at))
  {
    hide Decode;
    DecodeCommutes(applyRef, apply, see, t, u, d, at.from, at.to, at.from);
  }

  lemma LeavesCommute(d: bytes)
    ensures Commutes(d, ApplyKeyValueRef, ApplyKeyValue, (m: KeyValueRef) => SeeKeyValue(d, m))
    ensures Commutes(d, ApplyRangeRef, ApplyRange, (m: RangeRef) => SeeRange(d, m))
    ensures Commutes(d, ApplyPutRef, ApplyPut, (m: PutRef) => SeePut(d, m))
    ensures Commutes(d, ApplyDeleteRef, ApplyDeleteRange, (m: DeleteRef) => SeeDelete(d, m))
    ensures Commutes(d, ApplyCompareRef, ApplyCompare, (m: CompareRef) => SeeCompare(d, m))
  {
    hide *;
    KeyValueCommutes(d); RangeCommutes(d); PutCommutes(d); DeleteCommutes(d); CompareCommutes(d);
  }

  lemma KeyValueCommutes(d: bytes)
    ensures Commutes(d, ApplyKeyValueRef, ApplyKeyValue, (m: KeyValueRef) => SeeKeyValue(d, m))
  {
    hide Int64, Get;
  }

  lemma RangeCommutes(d: bytes)
    ensures Commutes(d, ApplyRangeRef, ApplyRange, (m: RangeRef) => SeeRange(d, m))
  {
    hide Int64, Get;
  }

  lemma PutCommutes(d: bytes)
    ensures Commutes(d, ApplyPutRef, ApplyPut, (m: PutRef) => SeePut(d, m))
  {
    hide Get;
  }

  lemma DeleteCommutes(d: bytes)
    ensures Commutes(d, ApplyDeleteRef, ApplyDeleteRange, (m: DeleteRef) => SeeDelete(d, m))
  {
    hide Get;
  }

  lemma CompareCommutes(d: bytes)
    ensures Commutes(d, ApplyCompareRef, ApplyCompare, (m: CompareRef) => SeeCompare(d, m))
  {
    hide Int32, Get;
  }

  lemma RequestOpCommutes(d: bytes, m: RequestOpRef, s: RefSlot)
    requires |d| <= MAX_INT && InBuffer(d, s)
    ensures SeeResult((x: RequestOpRef) => SeeRequestOp(d, x), ApplyRequestOpRef(d, m, s)) == ApplyRequestOp(SeeRequestOp(d, m), RecordOf(d, s))
  {
    hide Unmarshal, UnmarshalAt, SeeRange, SeePut, SeeDelete;
    FreshSeen(d);
    LeavesCommute(d);
    match s
    case PayloadSlot(1, p) =>
      UnmarshalCommutes(ApplyRangeRef, ApplyRange, (m: RangeRef) => SeeRange(d, m), TRange,
        if m.request.RangeBody? then m.request.range else RANGE_REF, d, p);
    case PayloadSlot(2, p) =>
      UnmarshalCommutes(ApplyPutRef, ApplyPut, (m: PutRef) => SeePut(d, m), TPut,
        if m.request.PutBody? then m.request.put else PUT_REF, d, p);
    case PayloadSlot(3, p) =>
      UnmarshalCommutes(ApplyDeleteRef, ApplyDeleteRange, (m: DeleteRef) => SeeDelete(d, m), TDeleteRange,
        if m.request.DeleteBody? then m.request.del else DELETE_REF, d, p);
    case _ =>
  }

  lemma {:induction false} FreshSeen(d: bytes)
    ensures SeeRange(d, RANGE_REF) == RANGE && SeePut(d, PUT_REF) == PUT && SeeDelete(d, DELETE_REF) == DELETE_RANGE
    ensures SeeRequestOp(d, REQUEST_OP_REF) == REQUEST_OP && SeeCompare(d, COMPARE_REF) == COMPARE
    ensures SeeKeyValue(d, KEY_VALUE_REF) == KEY_VALUE && SeeTxn(d, TXN_REF) == TXN && SeeCommand(d, COMMAND_REF) == COMMAND
  {
  }

  lemma UnmarshalRequestOpCommutes(d: bytes, at: Ref)
    requires |d| <= MAX_INT && at.from <= at.to <= |d|
    ensures SeeResult((x: RequestOpRef) => SeeRequestOp(d, x), UnmarshalRequestOpAt(d, at)) == UnmarshalRequestOp(REQUEST_OP, Get(d, at))
  {
    hide Unmarshal, UnmarshalAt, ApplyRequestOpRef, ApplyRequestOp, SeeRequestOp;
    FreshSeen(d);
    forall u: RequestOpRef, s: RefSlot | InBuffer(d, s)
      ensures SeeResult((x: RequestOpRef) => SeeRequestOp(d, x), ApplyRequestOpRef(d, u, s)) == ApplyRequestOp(SeeRequestOp(d, u), RecordOf(d, s))
    {
      RequestOpCommutes(d, u, s);
    }
    UnmarshalCommutes((m: RequestOpRef, s: RefSlot) => ApplyRequestOpRef(d, m, s), ApplyRequestOp,
      (x: RequestOpRef) => SeeRequestOp(d, x), TRequestOp, REQUEST_OP_REF, d, at);
  }

  lemma TxnCommutes(d: bytes, m: TxnRef, s: RefSlot)
    requires |d| <= MAX_INT && InBuffer(d, s)
    ensures SeeResult((x: TxnRef) => SeeTxn(d, x), ApplyTxnRef(d, m, s)) == ApplyTxn(SeeTxn(d, m), RecordOf(d, s))
  {
    hide Unmarshal, UnmarshalAt, UnmarshalRequestOpAt, UnmarshalRequestOp, SeeRequestOp, SeeCompare;
    FreshSeen(d);
    match s
    case PayloadSlot(1, p) =>
      LeavesCommute(d);
      UnmarshalCommutes(ApplyCompareRef, ApplyCompare, (m: CompareRef) => SeeCompare(d, m), TCompare, COMPARE_REF, d, p);
      var f := ApplyTxnRef(d, m, s);
      if f.Ok? { assert SeeTxn(d, f.value).compare == SeeTxn(d, m).compare + [Some(SeeCompare(d, f.value.compare[|m.compare|]))]; }
    case PayloadSlot(2, p) =>
      UnmarshalRequestOpCommutes(d, p);
      var f := ApplyTxnRef(d, m, s);
      if f.Ok? { assert SeeTxn(d, f.value).success == SeeTxn(d, m).success + [Some(SeeRequestOp(d, f.value.success[|m.success|]))]; }
    case PayloadSlot(3, p) =>
      UnmarshalRequestOpCommutes(d, p);
      var f := ApplyTxnRef(d, m, s);
      if f.Ok? { assert SeeTxn(d, f.value).failure == SeeTxn(d, m).failure + [Some(SeeRequestOp(d, f.value.failure[|m.failure|]))]; }
    case _ =>
  }

  lemma UnmarshalTxnCommutes(d: bytes, m: TxnRef, at: Ref)
    requires |d| <= MAX_INT && at.from <= at.to <= |d|
    ensures SeeResult((x: TxnRef) => SeeTxn(d, x), UnmarshalTxnAt(d, m, at)) == UnmarshalTxn(SeeTxn(d, m), Get(d, at))
  {
    hide Unmarshal, UnmarshalAt, ApplyTxnRef, ApplyTxn, SeeTxn;
    forall u: TxnRef, s: RefSlot | InBuffer(d, s)
      ensures SeeResult((x: TxnRef) => SeeTxn(d, x), ApplyTxnRef(d, u, s)) == ApplyTxn(SeeTxn(d, u), RecordOf(d, s))
    {
      TxnCommutes(d, u, s);
    }
    UnmarshalCommutes((m: TxnRef, s: RefSlot) => ApplyTxnRef(d, m, s), ApplyTxn, (x: TxnRef) => SeeTxn(d, x), TTxn, m, d, at);
  }

  lemma {:induction false} SeeCommandsAppend(d: bytes, s: seq<CommandRef>, x: CommandRef)
    ensures SeeCommands(d, s + [x]) == SeeCommands(d, s) + [Some(SeeCommand(d, x))]
    decreases |s|
  {
    hide SeeCommand;
    if s == [] {
      assert ([] + [x])[1..] == [];
    } else {
      assert (s + [x])[1..] == s[1..] + [x];
      SeeCommandsAppend(d, s[1..], x);
    }
  }

  lemma {:induction false} ScalarCommutes(d: bytes, m: CommandRef, s: RefSlot)
    requires InBuffer(d, s) && (s.PayloadSlot? ==> s.field !in {3, 6, 7, 10})
    ensures SeeResult((x: CommandRef) => SeeCommand(d, x), ApplyCommandRef(d, m, s)) == ApplyCommand(SeeCommand(d, m), RecordOf(d, s))
  {
    hide SeeTxn, SeeKeyValue, SeeCommands, Int32, Get;
    match s
    case PayloadSlot(1, p) =>
    case PayloadSlot(8, p) =>
    case PayloadSlot(f, p) =>
    case NumberSlot(2, v) =>
    case NumberSlot(5, v) =>
    case NumberSlot(9, v) =>
    case NumberSlot(11, v) =>
    case NumberSlot(f, v) =>
    case UnknownSlot(raw) =>
  }

  lemma {:induction false} KvCommutes(d: bytes, m: CommandRef, p: Ref)
    requires |d| <= MAX_INT && p.from <= p.to <= |d|
    ensures SeeResult((x: CommandRef) => SeeCommand(d, x), ApplyCommandRef(d, m, PayloadSlot(3, p))) == ApplyCommand(SeeCommand(d, m), Payload(3, Get(d, p)))
  {
    hide Unmarshal, UnmarshalAt, SeeTxn, SeeKeyValue, SeeCommands, Commutes;
    FreshSeen(d);
    LeavesCommute(d);
    UnmarshalCommutes(ApplyKeyValueRef, ApplyKeyValue, (m: KeyValueRef) => SeeKeyValue(d, m), TKeyValue, OrElse(m.kv, KEY_VALUE_REF), d, p);
  }

  lemma {:induction false} BatchCommutes(d: bytes, m: CommandRef, p: Ref)
    requires |d| <= MAX_INT && p.from <= p.to <= |d|
    ensures SeeResult((x: CommandRef) => SeeCommand(d, x), ApplyCommandRef(d, m, PayloadSlot(6, p))) == ApplyCommand(SeeCommand(d, m), Payload(6, Get(d, p)))
  {
    hide Unmarshal, UnmarshalAt, SeeTxn, SeeKeyValue, SeeCommands, Commutes;
    FreshSeen(d);
    LeavesCommute(d);
    UnmarshalCommutes(ApplyKeyValueRef, ApplyKeyValue, (m: KeyValueRef) => SeeKeyValue(d, m), TKeyValue, KEY_VALUE_REF, d, p);
    var f := ApplyCommandRef(d, m, PayloadSlot(6, p));
    if f.Ok? { assert SeeCommand(d, f.value).batch == SeeCommand(d, m).batch + [Some(SeeKeyValue(d, f.value.batch[|m.batch|]))]; }
  }

  lemma {:induction false} CommandCommutes(d: bytes, m: CommandRef, s: RefSlot)
    requires |d| <= MAX_INT && InBuffer(d, s)
    ensures SeeResult((x: CommandRef) => SeeCommand(d, x), ApplyCommandRef(d, m, s)) == ApplyCommand(SeeCommand(d, m), RecordOf(d, s))
    decreases SlotSize(s), 2
  {
    hide UnmarshalAt, UnmarshalKeyValue, UnmarshalTxn, UnmarshalTxnAt, SeeTxn, SeeKeyValue, DecodeCommandRef, DecodeCommand, SeeCommands, Int32;
    match s
    case PayloadSlot(3, p) => KvCommutes(d, m, p);
    case PayloadSlot(6, p) => BatchCommutes(d, m, p);
    case PayloadSlot(7, p) =>
      FreshSeen(d);
      UnmarshalTxnCommutes(d, OrElse(m.txn, TXN_REF), p);
    case PayloadSlot(10, p) =>
      FreshSeen(d);
      DecodeCommandCommutes(d, COMMAND_REF, p.from, p.to, p.from);
      var f := DecodeCommandRef(COMMAND_REF, d, p.from, p.to, p.from);
      if f.Ok? { SeeCommandsAppend(d, m.sequence, f.value); }
    case _ => ScalarCommutes(d, m, s);
  }

  lemma {:induction false} DecodeCommandCommutes(d: bytes, m: CommandRef, lo: nat, hi: nat, i: nat)
    requires lo <= i <= hi <= |d| <= MAX_INT
    ensures SeeResult((x: CommandRef) => SeeCommand(d, x), DecodeCommandRef(m, d, lo, hi, i)) == DecodeCommand(SeeCommand(d, m), d[i..hi], i - lo)
    decreases hi - i, 1
  {
    hide ReadRecord, ApplyCommandRef, ApplyCommand, SeeCommand;
    if i < hi && ReadRecord(TCommand, d[i..hi], i - lo).Ok? {
      var (r, n) := ReadRecord(TCommand, d[i..hi], i - lo).value;
      SlotOfRecord(TCommand, d, lo, hi, i);
      var s := SlotOf(r, i + n);
      SlotShorter(TCommand, d, lo, hi, i);
      CommandCommutes(d, m, s);
      if ApplyCommandRef(d, m, s).Ok? {
        DecodeCommandCommutes(d, ApplyCommandRef(d, m, s).value, lo, hi, i + n);
      }
    }
  }

  lemma SlotShorter(t: MsgType, d: bytes, lo: nat, hi: nat, i: nat)
    requires lo <= i < hi <= |d| <= MAX_INT && ReadRecord(t, d[i..hi], i - lo).Ok?
    ensures var (r, n) := ReadRecord(t, d[i..hi], i - lo).value; SlotSize(SlotOf(r, i + n)) < hi - i
  {
    hide ReadRecord;
  }

  // Main result: on every input the safe and the unsafe decoder both fail, with
  // the same error, or both succeed; read in the buffer as it was, the
  // references of the unsafe result are the copies of the safe one.
  lemma {:induction false} SafeAndUnsafeAgree(dAtA: bytes)
    ensures SeeResult((x: CommandRef) => SeeCommand(dAtA, x), UnmarshalUnsafe(dAtA)) == UnmarshalCommand(COMMAND, dAtA)
  {
    hide DecodeCommandRef, DecodeCommand, SeeCommand;
    FreshSeen(dAtA);
    if |dAtA| <= MAX_INT {
      DecodeCommandCommutes(dAtA, COMMAND_REF, 0, |dAtA|, 0);
      assert dAtA[0..|dAtA|] == dAtA;
    }
  }

  // ---------- later writes to the buffer ----------
  // Whether some reference in a decoded message covers byte i of a buffer of n bytes.

  predicate Hits(r: Option<Ref>, i: nat, n: nat) { r.Some? && r.value.from <= i < r.value.to <= n }

  predicate HitsKeyValue(m: KeyValueRef, i: nat, n: nat) { Hits(m.key, i, n) || Hits(m.value, i, n) }

  predicate HitsRequestOp(m: RequestOpRef, i: nat, n: nat) {
    match m.request
    case NoBody => false
    case RangeBody(x) => Hits(x.key, i, n) || Hits(x.rangeEnd, i, n)
    case PutBody(x) => Hits(x.key, i, n) || Hits(x.value, i, n)
    case DeleteBody(x) => Hits(x.key, i, n) || Hits(x.rangeEnd, i, n)
  }

  predicate HitsCompare(m: CompareRef, i: nat, n: nat) { Hits(m.key, i, n) || Hits(m.targetUnion, i, n) || Hits(m.rangeEnd, i, n) }

  predicate HitsTxn(m: TxnRef, i: nat, n: nat) {
    || (exists k :: 0 <= k < |m.compare| && HitsCompare(m.compare[k], i, n))
    || (exists k :: 0 <= k < |m.success| && HitsRequestOp(m.success[k], i, n))
    || (exists k :: 0 <= k < |m.failure| && HitsRequestOp(m.failure[k], i, n))
  }

  predicate HitsCommand(m: CommandRef, i: nat, n: nat) {
    || Hits(m.table, i, n) || Hits(m.rangeEnd, i, n)
    || (m.kv.Some? && HitsKeyValue(m.kv.value, i, n))
    || (exists k :: 0 <= k < |m.batch| && HitsKeyValue(m.batch[k], i, n))
    || (m.txn.Some? && HitsTxn(m.txn.value, i, n))
    || HitsCommands(m.sequence, i, n)
  }

  predicate HitsCommands(s: seq<CommandRef>, i: nat, n: nat) {
    s != [] && (HitsCommand(s[0], i, n) || HitsCommands(s[1..], i, n))
  }

  lemma WriteShowsInBytes(d: bytes, r: Option<Ref>, i: nat, b: byte)
    requires i < |d| && d[i] != b
    ensures GetOpt(d[i := b], r) != GetOpt(d, r) <==> Hits(r, i, |d|)
  {
    if r.Some? && r.value.from <= r.value.to <= |d| {
      var x, y := d[i := b][r.value.from..r.value.to], d[r.value.from..r.value.to];
      if Hits(r, i, |d|) {
        assert x[i - r.value.from] == b && y[i - r.value.from] == d[i];
      } else {
        assert x == y;
      }
    }
  }

  lemma WriteShowsInKeyValue(d: bytes, m: KeyValueRef, i: nat, b: byte)
    requires i < |d| && d[i] != b
    ensures SeeKeyValue(d[i := b], m) != SeeKeyValue(d, m) <==> HitsKeyValue(m, i, |d|)
  {
    hide GetOpt, Hits;
    WriteShowsInBytes(d, m.key, i, b); WriteShowsInBytes(d, m.value, i, b);
  }

  lemma WriteShowsInRequestOp(d: bytes, m: RequestOpRef, i: nat, b: byte)
    requires i < |d| && d[i] != b
    ensures SeeRequestOp(d[i := b], m) != SeeRequestOp(d, m) <==> HitsRequestOp(m, i, |d|)
  {
    hide GetOpt, Hits;
    match m.request {
      case NoBody =>
      case RangeBody(x) => WriteShowsInBytes(d, x.key, i, b); WriteShowsInBytes(d, x.rangeEnd, i, b);
      case PutBody(x) => WriteShowsInBytes(d, x.key, i, b); WriteShowsInBytes(d, x.value, i, b);
      case DeleteBody(x) => WriteShowsInBytes(d, x.key, i, b); WriteShowsInBytes(d, x.rangeEnd, i, b);
    }
  }

  lemma WriteShowsInCompare(d: bytes, m: CompareRef, i: nat, b: byte)
    requires i < |d| && d[i] != b
    ensures SeeCompare(d[i := b], m) != SeeCompare(d, m) <==> HitsCompare(m, i, |d|)
  {
    WriteShowsInBytes(d, m.key, i, b); WriteShowsInBytes(d, m.targetUnion, i, b); WriteShowsInBytes(d, m.rangeEnd, i, b);
    hide GetOpt, Hits;
  }

  // A list of parts read element by element changes when one of them does.
  lemma ListsDiffer<T>(x: seq<T>, y: seq<T>, hit: int -> bool)
    requires |x| == |y| && forall k :: 0 <= k < |x| ==> (x[k] != y[k] <==> hit(k))
    ensures x != y <==> exists k :: 0 <= k < |x| && hit(k)
  {
    if x != y {
      var k :| 0 <= k < |x| && x[k] != y[k];
      assert hit(k);
    }
  }

  lemma WriteShowsInTxn(d: bytes, m: TxnRef, i: nat, b: byte)
    requires i < |d| && d[i] != b
    ensures SeeTxn(d[i := b], m) != SeeTxn(d, m) <==> HitsTxn(m, i, |d|)
  {
    hide SeeCompare, SeeRequestOp, HitsCompare, HitsRequestOp;
    var x, y, n := SeeTxn(d[i := b], m), SeeTxn(d, m), |d|;
    forall k | 0 <= k < |m.compare| ensures x.compare[k] != y.compare[k] <==> HitsCompare(m.compare[k], i, n) {
      WriteShowsInCompare(d, m.compare[k], i, b);
    }
    forall k | 0 <= k < |m.success| ensures x.success[k] != y.success[k] <==> HitsRequestOp(m.success[k], i, n) {
      WriteShowsInRequestOp(d, m.success[k], i, b);
    }
    forall k | 0 <= k < |m.failure| ensures x.failure[k] != y.failure[k] <==> HitsRequestOp(m.failure[k], i, n) {
      WriteShowsInRequestOp(d, m.failure[k], i, b);
    }
    ListsDiffer(x.compare, y.compare, k => 0 <= k < |m.compare| && HitsCompare(m.compare[k], i, n));
    ListsDiffer(x.success, y.success, k => 0 <= k < |m.success| && HitsRequestOp(m.success[k], i, n));
    ListsDiffer(x.failure, y.failure, k => 0 <= k < |m.failure| && HitsRequestOp(m.failure[k], i, n));
  }

  // A byte written later changes what the decoded message shows if and only if
  // some reference in the tree covers it.
  lemma {:induction false} WriteShowsInCommand(d: bytes, m: CommandRef, i: nat, b: byte)
    requires i < |d| && d[i] != b
    ensures SeeCommand(d[i := b], m) != SeeCommand(d, m) <==> HitsCommand(m, i, |d|)
    decreases m
  {
    hide GetOpt, Hits, SeeKeyValue, HitsKeyValue, SeeTxn, HitsTxn, SeeCommands, HitsCommands;
    var x, y, n := SeeCommand(d[i := b], m), SeeCommand(d, m), |d|;
    WriteShowsInBytes(d, m.table, i, b); WriteShowsInBytes(d, m.rangeEnd, i, b);
    if m.kv.Some? { WriteShowsInKeyValue(d, m.kv.value, i, b); }
    if m.txn.Some? { WriteShowsInTxn(d, m.txn.value, i, b); }
    forall k | 0 <= k < |m.batch| ensures x.batch[k] != y.batch[k] <==> HitsKeyValue(m.batch[k], i, n) {
      WriteShowsInKeyValue(d, m.batch[k], i, b);
    }
    ListsDiffer(x.batch, y.batch, k => 0 <= k < |m.batch| && HitsKeyValue(m.batch[k], i, n));
    WriteShowsInCommands(d, m.sequence, i, b);
  }

  lemma {:induction false} WriteShowsInCommands(d: bytes, s: seq<CommandRef>, i: nat, b: byte)
    requires i < |d| && d[i] != b
    ensures SeeCommands(d[i := b], s) != SeeCommands(d, s) <==> HitsCommands(s, i, |d|)
    decreases s
  {
    hide SeeCommand, HitsCommand;
    if s != [] {
      WriteShowsInCommand(d, s[0], i, b);
      WriteShowsInCommands(d, s[1..], i, b);
      var x, y := SeeCommands(d[i := b], s), SeeCommands(d, s);
      assert x[1..] == SeeCommands(d[i := b], s[1..]) && y[1..] == SeeCommands(d, s[1..]);
      assert x == [x[0]] + x[1..] && y == [y[0]] + y[1..];
    }
  }

  // Main result: the safe result stays what the buffer held when it was decoded.
  // The unsafe one differs from it after a write to byte i if and only if one of
  // its references, anywhere in the tree, covers that byte.
  lemma {:induction false} LaterWriteShowsWhen(dAtA: bytes, i: nat, b: byte)
    requires UnmarshalUnsafe(dAtA).Ok? && i < |dAtA| && dAtA[i] != b
    ensures UnmarshalCommand(COMMAND, dAtA) == Ok(SeeCommand(dAtA, UnmarshalUnsafe(dAtA).value))
    ensures Ok(SeeCommand(dAtA[i := b], UnmarshalUnsafe(dAtA).value)) != UnmarshalCommand(COMMAND, dAtA)
            <==> HitsCommand(UnmarshalUnsafe(dAtA).value, i, |dAtA|)
  {
    hide UnmarshalUnsafe, UnmarshalCommand, SeeCommand, HitsCommand;
    SafeAndUnsafeAgree(dAtA);
    WriteShowsInCommand(dAtA, UnmarshalUnsafe(dAtA).value, i, b);
  }
}
