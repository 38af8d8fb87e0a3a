// What the generated `switch fieldNum` does with a tag, by the numbers themselves:
// which fields are undeclared and kept, which tags are refused and how, and that
// no accepted field is dropped.
module Dispatch {
  import opened Common
  import opened Varint
  import opened Wire
  import opened Messages
  import opened Status
  import opened Requests

  /** b starts with a tag of this wire type; the field number is cut to 32 bits. */
  predicate HasTag(b: bytes, field: nat, wireType: nat) {
    match ReadVarint(b, W64)
    case Ok((wire, _)) => wire / 8 % TWO_32 == field && wire % 8 == wireType
    case Err(_) => false
  }

  lemma TagRead(b: bytes, field: nat, wireType: nat)
    requires HasTag(b, field, wireType)
    ensures ReadVarint(b, W64).Ok? && WireType(ReadVarint(b, W64).value.0) == wireType
    ensures FieldNum(ReadVarint(b, W64).value.0) == if field < TWO_31 then field else field - TWO_32
  {
    hide ReadVarint;
  }

  // A canonical tag is one.
  lemma TagHasTag(field: nat, wireType: nat, rest: bytes)
    requires 1 <= field < MAX_FIELD && wireType < 8
    ensures HasTag(Tag(field, wireType) + rest, field, wireType)
  {
    hide ReadVarint, EncodeVarint, FieldNum, WireType;
    ReadTag(field, wireType, rest);
    assert (8 * field + wireType) / 8 == field && (8 * field + wireType) % 8 == wireType;
  }

  // ---------- varints and lengths that are refused ----------

  predicate AllContinue(b: bytes, n: nat) { n <= |b| && forall i :: 0 <= i < n ==> b[i] >= 128 }

  lemma {:induction false} RawVarintFrom(b: bytes, k: nat)
    requires k <= 10
    ensures RawVarint(b, k) == Err(IntOverflow) <==> AllContinue(b, 10 - k)
    ensures RawVarint(b, k) == Err(UnexpectedEOF) <==> |b| < 10 - k && AllContinue(b, |b|)
    ensures RawVarint(b, k).Err? ==> RawVarint(b, k).error in {IntOverflow, UnexpectedEOF}
    ensures RawVarint(b, k).Ok? ==> var n := RawVarint(b, k).value.1; AllContinue(b, n - 1) && b[n - 1] < 128
    decreases 10 - k
  {
    if k < 10 && b != [] && b[0] >= 128 {
      RawVarintFrom(b[1..], k + 1);
      assert forall i :: 1 <= i < |b| ==> b[i] == b[1..][i - 1];
      assert forall n: nat :: n <= |b[1..]| ==> (AllContinue(b, n + 1) <==> AllContinue(b[1..], n)) by {
        forall n: nat | n <= |b[1..]| ensures AllContinue(b, n + 1) <==> AllContinue(b[1..], n) {
          assert forall i :: 0 <= i < n ==> b[1..][i] == b[i + 1];
        }
      }
    }
  }

  // A varint ends at its first byte below 128; ten bytes without one overflow,
  // fewer are an early end of the input.
  lemma VarintEnds(b: bytes, width: Width)
    ensures ReadVarint(b, width) == Err(IntOverflow) <==> AllContinue(b, 10)
    ensures ReadVarint(b, width) == Err(UnexpectedEOF) <==> |b| < 10 && AllContinue(b, |b|)
    ensures ReadVarint(b, width).Ok? ==> var n := ReadVarint(b, width).value.1; AllContinue(b, n - 1) && b[n - 1] < 128
  {
    RawVarintFrom(b, 0);
  }

  // A length is refused as invalid when it is negative as an int or its end is no
  // int, else as an early end when it passes the input, and is accepted otherwise.
  lemma LengthTests(b: bytes, k: nat, pos: nat)
    requires k <= |b| && pos + |b| <= MAX_INT && ReadVarint(b[k..], W64).Ok?
    ensures var (len, n) := ReadVarint(b[k..], W64).value;
            ReadLength(b, k, pos) == if len > MAX_INT || pos + k + n + len > MAX_INT then Err(InvalidLength)
                                     else if k + n + len > |b| then Err(UnexpectedEOF)
                                     else Ok((k + n, k + n + len))
  {
    hide ReadVarint;
  }

  // ---------- tags that are refused ----------

  // A field number that is zero or negative as an int32, and an end-group tag, are
  // refused by every decoder; end-group first.
  lemma IllegalTags<M>(apply: (M, Record) -> Result<M, DecodeError>, t: MsgType, m: M, b: bytes, field: nat, wireType: nat)
    requires |b| <= MAX_INT && HasTag(b, field, wireType)
    ensures wireType == 4 ==> Unmarshal(apply, t, m, b) == Err(EndGroup)
    ensures wireType != 4 && (field == 0 || field >= TWO_31) ==>
              Unmarshal(apply, t, m, b) ==
              Err(IllegalTag(if field == 0 then 0 else field - TWO_32, ReadVarint(b, W64).value.0))
  {
    TagRead(b, field, wireType);
    hide ReadVarint, FieldNum, WireType;
    assert b != [] by { TagIsNotEmpty(b, field, wireType); }
  }

  lemma TagIsNotEmpty(b: bytes, field: nat, wireType: nat)
    requires HasTag(b, field, wireType)
    ensures b != []
  {
  }

  // The fields of Command under a wrong wire type.
  lemma {:induction false} WrongWireTypes(m: Command, b: bytes, field: nat, wireType: nat)
    requires |b| <= MAX_INT && HasTag(b, field, wireType) && wireType != 4
    ensures field in {1, 3, 6, 7, 8, 10} && wireType != 2 ==> UnmarshalCommand(m, b) == Err(WrongWireType(wireType, field))
    ensures field in {2, 5, 9, 11} && wireType != 0 ==> UnmarshalCommand(m, b) == Err(WrongWireType(wireType, field))
  {
    TagRead(b, field, wireType);
    TagIsNotEmpty(b, field, wireType);
    hide ReadVarint, FieldNum, WireType, ApplyCommand;
  }

  // Decoding into a nil message: the error met by the first record, or the panic of
  // the first assignment; a limit is assigned while it is being read.
  lemma NilBodyWhen(t: MsgType, p: bytes)
    requires |p| <= MAX_INT
    ensures IntoNil(t, p) == (if ReadRecord(t, p, 0).Ok? || (t == TRange && HasTag(p, 3, 0)) then NilBody else ReadRecord(t, p, 0).error)
  {
    LimitTag(p);
    hide ReadRecord, ReadVarint, FieldNum, WireType, HasTag;
  }

  lemma LimitTag(p: bytes)
    ensures HasTag(p, 3, 0) <==>
            ReadVarint(p, W64).Ok? && FieldNum(ReadVarint(p, W64).value.0) == 3 && WireType(ReadVarint(p, W64).value.0) == 0
  {
    hide ReadVarint;
  }

  // ---------- undeclared fields are kept ----------

  // A single skipped record that starts with the tag.
  predicate Skipped(b: bytes, field: nat, wireType: nat) {
    |b| <= MAX_INT && HasTag(b, field, wireType) && 1 <= field < TWO_31 && wireType != 4 && Skip(b) == Ok(|b|)
  }

  lemma Kept<M>(apply: (M, Record) -> Result<M, DecodeError>, t: MsgType, m: M, b: bytes, field: nat, wireType: nat, kept: M)
    requires Skipped(b, field, wireType) && KindOf(t, field) == Undeclared
    requires apply(m, Unknown(b)) == Ok(kept)
    ensures Unmarshal(apply, t, m, b) == Ok(kept)
  {
    KeptRecord(t, b, field, wireType);
    OneRecord(apply, t, m, b, Unknown(b), kept);
  }

  lemma OneRecord<M>(apply: (M, Record) -> Result<M, DecodeError>, t: MsgType, m: M, b: bytes, r: Record, m': M)
    requires b != [] && |b| <= MAX_INT && ReadRecord(t, b, 0) == Ok((r, |b|)) && apply(m, r) == Ok(m')
    ensures Unmarshal(apply, t, m, b) == Ok(m')
  {
    hide ReadRecord;
    assert Decode(apply, t, m', b[|b|..], |b|) == Ok(m');
  }

  lemma KeptRecord(t: MsgType, b: bytes, field: nat, wireType: nat)
    requires Skipped(b, field, wireType) && KindOf(t, field) == Undeclared
    ensures b != [] && ReadRecord(t, b, 0) == Ok((Unknown(b), |b|))
  {
    TagRead(b, field, wireType);
    TagIsNotEmpty(b, field, wireType);
    hide ReadVarint, FieldNum, WireType;
    assert b[..|b|] == b;
  }

  // Main result: in every message, a record of a field number its encoder does not
  // write is kept verbatim.

  lemma KeptByKeyValue(m: KeyValue, b: bytes, field: nat, wireType: nat)
    requires Skipped(b, field, wireType) && field !in {1, 2, 3, 4}
    ensures UnmarshalKeyValue(m, b) == Ok(m.(unknown := m.unknown + b))
  {
    hide Unmarshal, Skipped;
    Kept(ApplyKeyValue, TKeyValue, m, b, field, wireType, m.(unknown := m.unknown + b));
  }

  lemma KeptByRange(m: Range, b: bytes, field: nat, wireType: nat)
    requires Skipped(b, field, wireType) && field !in {1, 2, 3, 4, 5}
    ensures UnmarshalRange(m, b) == Ok(m.(unknown := m.unknown + b))
  {
    hide Unmarshal, Skipped;
    Kept(ApplyRange, TRange, m, b, field, wireType, m.(unknown := m.unknown + b));
  }

  lemma KeptByPut(m: Put, b: bytes, field: nat, wireType: nat)
    requires Skipped(b, field, wireType) && field !in {1, 2, 3}
    ensures UnmarshalPut(m, b) == Ok(m.(unknown := m.unknown + b))
  {
    hide Unmarshal, Skipped;
    Kept(ApplyPut, TPut, m, b, field, wireType, m.(unknown := m.unknown + b));
  }

  lemma KeptByDeleteRange(m: DeleteRange, b: bytes, field: nat, wireType: nat)
    requires Skipped(b, field, wireType) && field !in {1, 2, 4, 5}
    ensures UnmarshalDeleteRange(m, b) == Ok(m.(unknown := m.unknown + b))
  {
    hide Unmarshal, Skipped;
    Kept(ApplyDeleteRange, TDeleteRange, m, b, field, wireType, m.(unknown := m.unknown + b));
  }

  lemma KeptByRequestOp(m: RequestOp, b: bytes, field: nat, wireType: nat)
    requires Skipped(b, field, wireType) && field !in {1, 2, 3}
    ensures UnmarshalRequestOp(m, b) == Ok(m.(unknown := m.unknown + b))
  {
    hide Unmarshal, Skipped;
    Kept(ApplyRequestOp, TRequestOp, m, b, field, wireType, m.(unknown := m.unknown + b));
  }

  lemma KeptByCompare(m: Compare, b: bytes, field: nat, wireType: nat)
    requires Skipped(b, field, wireType) && field !in {1, 2, 3, 4, 64}
    ensures UnmarshalCompare(m, b) == Ok(m.(unknown := m.unknown + b))
  {
    hide Unmarshal, Skipped;
    Kept(ApplyCompare, TCompare, m, b, field, wireType, m.(unknown := m.unknown + b));
  }

  lemma KeptByTxn(m: Txn, b: bytes, field: nat, wireType: nat)
    requires Skipped(b, field, wireType) && field !in {1, 2, 3}
    ensures UnmarshalTxn(m, b) == Ok(m.(unknown := m.unknown + b))
  {
    hide Unmarshal, Skipped;
    Kept(ApplyTxn, TTxn, m, b, field, wireType, m.(unknown := m.unknown + b));
  }

  lemma {:induction false} KeptByCommand(m: Command, b: bytes, field: nat, wireType: nat)
    requires Skipped(b, field, wireType) && field !in {1, 2, 3, 5, 6, 7, 8, 9, 10, 11}
    ensures UnmarshalCommand(m, b) == Ok(m.(unknown := m.unknown + b))
  {
    UnmarshalCommandIsUnmarshal(m, b);
    hide Unmarshal, Skipped, UnmarshalCommand;
    Kept(ApplyCommand, TCommand, m, b, field, wireType, m.(unknown := m.unknown + b));
  }

  lemma KeptByTxnRequest(m: TxnRequest, b: bytes, field: nat, wireType: nat)
    requires Skipped(b, field, wireType) && field !in {1, 2, 3, 4}
    ensures UnmarshalTxnRequest(m, b) == Ok(m.(unknown := m.unknown + b))
  {
    hide Unmarshal, Skipped;
    Kept(ApplyTxnRequest, TTxnRequest, m, b, field, wireType, m.(unknown := m.unknown + b));
  }

  lemma KeptByTableStatus(m: TableStatus, b: bytes, field: nat, wireType: nat)
    requires Skipped(b, field, wireType) && field !in {2, 3, 4, 5, 6, 7}
    ensures UnmarshalTableStatus(m, b) == Ok(m.(unknown := m.unknown + b))
  {
    hide Unmarshal, Skipped;
    Kept(ApplyTableStatus, TTableStatus, m, b, field, wireType, m.(unknown := m.unknown + b));
  }

  lemma KeptByStatusResponse(m: StatusResponse, b: bytes, field: nat, wireType: nat)
    requires Skipped(b, field, wireType) && field !in {1, 2, 3, 4, 5, 8}
    ensures UnmarshalStatus(m, b) == Ok(m.(unknown := m.unknown + b))
  {
    KeptRecord(TStatusResponse, b, field, wireType);
    hide ReadRecord, ReadEntry;
    DecodeStatusTurn(m, b, 0);
    DecodeStatusEmpty(m.(unknown := m.unknown + b), b[|b|..], |b|);
  }

  // ---------- no accepted field is dropped ----------

  lemma RecordKind(t: MsgType, b: bytes, pos: nat)
    requires pos + |b| <= MAX_INT && ReadRecord(t, b, pos).Ok?
    ensures var r := ReadRecord(t, b, pos).value.0;
            && (r.Number? ==> KindOf(t, r.field) in {Scalar, Enum})
            && (r.Payload? ==> KindOf(t, r.field) == Delimited)
  {
    hide ReadVarint, FieldNum, WireType, ReadLength, KindOf;
  }

  predicate Accepted(t: MsgType, b: bytes, pos: nat, r: Record) {
    pos + |b| <= MAX_INT && ReadRecord(t, b, pos).Ok? && ReadRecord(t, b, pos).value.0 == r && !r.Unknown?
  }

  // Main result: a declared field that was read is assigned: it changes the
  // message m given back, or the assignment refuses it.

  lemma {:induction false} AssignedByKeyValue(b: bytes, pos: nat, r: Record) returns (m: KeyValue)
    requires Accepted(TKeyValue, b, pos, r)
    ensures ApplyKeyValue(m, r) != Ok(m)
  {
    RecordKind(TKeyValue, b, pos);
    m := if r.Number? && Int64(r.value) == 0 then KEY_VALUE.(createRevision := 1, modRevision := 1) else KEY_VALUE;
  }

  lemma {:induction false} AssignedByRange(b: bytes, pos: nat, r: Record) returns (m: Range)
    requires Accepted(TRange, b, pos, r)
    ensures ApplyRange(m, r) != Ok(m)
  {
    RecordKind(TRange, b, pos);
    m := if r.Number? && r.value == 0 then RANGE.(limit := 1, keysOnly := true, countOnly := true) else RANGE;
  }

  lemma {:induction false} AssignedByPut(b: bytes, pos: nat, r: Record) returns (m: Put)
    requires Accepted(TPut, b, pos, r)
    ensures ApplyPut(m, r) != Ok(m)
  {
    RecordKind(TPut, b, pos);
    m := if r.Number? && r.value == 0 then PUT.(prevKv := true) else PUT;
  }

  lemma {:induction false} AssignedByDeleteRange(b: bytes, pos: nat, r: Record) returns (m: DeleteRange)
    requires Accepted(TDeleteRange, b, pos, r)
    ensures ApplyDeleteRange(m, r) != Ok(m)
  {
    RecordKind(TDeleteRange, b, pos);
    m := if r.Number? && r.value == 0 then DELETE_RANGE.(prevKv := true, count := true) else DELETE_RANGE;
  }

  lemma {:induction false} AssignedByRequestOp(b: bytes, pos: nat, r: Record) returns (m: RequestOp)
    requires Accepted(TRequestOp, b, pos, r)
    ensures ApplyRequestOp(m, r) != Ok(m)
  {
    RecordKind(TRequestOp, b, pos);
    hide Unmarshal;
    m := REQUEST_OP;
  }

  lemma {:induction false} AssignedByCompare(b: bytes, pos: nat, r: Record) returns (m: Compare)
    requires Accepted(TCompare, b, pos, r)
    ensures ApplyCompare(m, r) != Ok(m)
  {
    RecordKind(TCompare, b, pos);
    m := if r.Number? && Int32(r.value) == 0 then COMPARE.(result := 1, target := 1) else COMPARE;
  }

  lemma {:induction false} AssignedByTxn(b: bytes, pos: nat, r: Record) returns (m: Txn)
    requires Accepted(TTxn, b, pos, r)
    ensures ApplyTxn(m, r) != Ok(m)
  {
    RecordKind(TTxn, b, pos);
    hide Unmarshal;
    m := TXN;
  }

  lemma {:induction false} AssignedByCommand(b: bytes, pos: nat, r: Record) returns (m: Command)
    requires Accepted(TCommand, b, pos, r)
    ensures ApplyCommand(m, r) != Ok(m)
  {
    RecordKind(TCommand, b, pos);
    hide Unmarshal, UnmarshalCommand;
    m := if r.Number? && Int32(r.value) == 0 then COMMAND.(typ := 1, prevKvs := r.value == 0, count := r.value == 0) else COMMAND;
  }

  lemma {:induction false} AssignedByTxnRequest(b: bytes, pos: nat, r: Record) returns (m: TxnRequest)
    requires Accepted(TTxnRequest, b, pos, r)
    ensures ApplyTxnRequest(m, r) != Ok(m)
  {
    RecordKind(TTxnRequest, b, pos);
    hide Unmarshal;
    m := TXN_REQUEST;
  }

  lemma {:induction false} AssignedByTableStatus(b: bytes, pos: nat, r: Record) returns (m: TableStatus)
    requires Accepted(TTableStatus, b, pos, r)
    ensures ApplyTableStatus(m, r) != Ok(m)
  {
    RecordKind(TTableStatus, b, pos);
    var v := if r.Number? && r.value == 0 then 1 else 0;
    m := TableStatus(v, v, if r.Payload? && r.payload == [] then [0] else [], v, v, v, []);
  }

  // Field 4 of StatusResponse is the entry of a map; the others are assigned.
  lemma {:induction false} AssignedByStatusResponse(b: bytes, pos: nat, r: Record) returns (m: StatusResponse)
    requires Accepted(TStatusResponse, b, pos, r) && |b| == ReadRecord(TStatusResponse, b, pos).value.1
    ensures DecodeStatus(m, b, pos) != Ok(m)
  {
    RecordKind(TStatusResponse, b, pos);
    hide ReadRecord, ReadEntry, DecodeStatus;
    var x := if r.payload == [] then [0] else [];
    m := STATUS_RESPONSE.(id := x, version := x, info := x);
    if r.field == 4 {
      EntryAssigned(m, b, pos);
    } else {
      DecodeStatusTurn(m, b, pos);
      DecodeStatusEmpty(ApplyStatus(m, r).value, b[|b|..], pos + |b|);
    }
  }

  // A single entry puts its key into an empty map, or is refused.
  lemma {:induction false} EntryAssigned(m: StatusResponse, b: bytes, pos: nat)
    requires pos + |b| <= MAX_INT && b != [] && ReadRecord(TStatusResponse, b, pos).Ok?
    requires var (r, n) := ReadRecord(TStatusResponse, b, pos).value; r.Payload? && r.field == 4 && n == |b|
    requires m.tables == map[]
    ensures DecodeStatus(m, b, pos) != Ok(m)
  {
    hide ReadRecord, ReadEntry;
    DecodeStatusTurn(m, b, pos);
    var x := ReadEntry(b, |b| - |ReadRecord(TStatusResponse, b, pos).value.0.payload|, |b|, pos, [], None);
    if x.Ok? {
      EntryAdds(m, b, pos, x.value.0, x.value.1);
    }
  }

  lemma {:induction false} EntryAdds(m: StatusResponse, b: bytes, pos: nat, k: bytes, v: Option<TableStatus>)
    requires pos + |b| <= MAX_INT && m.tables == map[]
    requires DecodeStatus(m, b, pos) == DecodeStatus(m.(tables := m.tables[k := v]), b[|b|..], pos + |b|)
    ensures DecodeStatus(m, b, pos) != Ok(m)
  {
    hide DecodeStatus;
    var m' := m.(tables := m.tables[k := v]);
    assert k in m'.tables;
    DecodeStatusEmpty(m', b[|b|..], pos + |b|);
  }

  // ---------- what one field assigns, for every way of writing it ----------

  /** b is a tag and a varint worth v before it is cut. */
  predicate OneNumber(b: bytes, field: nat, v: nat) {
    |b| <= MAX_INT && HasTag(b, field, 0) &&
    var k := ReadVarint(b, W64).value.1;
    RawVarint(b[k..], 0) == Ok((v, |b| - k))
  }

  /** b is a tag, a length and the payload of that length. */
  predicate OnePayload(b: bytes, field: nat, p: bytes) {
    |b| <= MAX_INT && HasTag(b, field, 2) &&
    var k := ReadVarint(b, W64).value.1;
    ReadVarint(b[k..], W64).Ok? &&
    var (len, n) := ReadVarint(b[k..], W64).value;
    len == |p| && k + n + |p| == |b| && b[k + n..] == p
  }

  // ReadRecord by the parts it reads.
  lemma RecordBy(t: MsgType, b: bytes, wire: u64, k: nat, field: nat)
    requires |b| <= MAX_INT && ReadVarint(b, W64) == Ok((wire, k)) && FieldNum(wire) == field > 0
    ensures WireType(wire) == 0 && KindOf(t, field) == Scalar && ReadVarint(b[k..], W64).Ok? ==>
              ReadRecord(t, b, 0) == Ok((Number(field, ReadVarint(b[k..], W64).value.0), k + ReadVarint(b[k..], W64).value.1))
    ensures WireType(wire) == 0 && KindOf(t, field) == Enum && ReadVarint(b[k..], W32).Ok? ==>
              ReadRecord(t, b, 0) == Ok((Number(field, ReadVarint(b[k..], W32).value.0), k + ReadVarint(b[k..], W32).value.1))
    ensures WireType(wire) == 2 && KindOf(t, field) == Delimited && ReadLength(b, k, 0).Ok? ==>
              var (x, y) := ReadLength(b, k, 0).value; ReadRecord(t, b, 0) == Ok((Payload(field, b[x..y]), y))
  {
    hide ReadVarint, FieldNum, WireType, KindOf, ReadLength, SkipRecord;
  }

  lemma NumberRead(t: MsgType, b: bytes, field: nat, v: nat)
    requires OneNumber(b, field, v) && 1 <= field < 100 && KindOf(t, field) in {Scalar, Enum}
    ensures b != [] && ReadRecord(t, b, 0) == Ok((Number(field, if KindOf(t, field) == Scalar then v % TWO_64 else v % TWO_32), |b|))
  {
    hide HasTag, ReadVarint, RawVarint, FieldNum, WireType, KindOf, ReadRecord;
    TagRead(b, field, 0);
    TagIsNotEmpty(b, field, 0);
    var (wire, k) := ReadVarint(b, W64).value;
    VarintIs(b[k..], v, |b| - k);
    RecordBy(t, b, wire, k, field);
  }

  lemma {:induction false} VarintIs(b: bytes, v: nat, n: nat)
    requires RawVarint(b, 0) == Ok((v, n))
    ensures ReadVarint(b, W64) == Ok((v % TWO_64, n)) && ReadVarint(b, W32) == Ok((v % TWO_32, n))
  {
    hide RawVarint;
  }

  lemma PayloadRead(t: MsgType, b: bytes, field: nat, p: bytes)
    requires OnePayload(b, field, p) && 1 <= field < 100 && KindOf(t, field) == Delimited
    ensures b != [] && ReadRecord(t, b, 0) == Ok((Payload(field, p), |b|))
  {
    hide HasTag, ReadVarint, FieldNum, WireType, KindOf, ReadLength, ReadRecord;
    TagRead(b, field, 2);
    TagIsNotEmpty(b, field, 2);
    var (wire, k) := ReadVarint(b, W64).value;
    LengthTests(b, k, 0);
    RecordBy(t, b, wire, k, field);
    assert b[|b| - |p|..|b|] == p;
  }

  // Cutting twice is cutting once.
  lemma CutTwice(v: int)
    ensures Int64(v % TWO_64) == Int64(v) && Int32(v % TWO_32) == Int32(v)
  {
  }

  // Main result: a bool is true when any of its 64 bits is set, an enum is the
  // low 32 bits, an int64 the low 64 bits, however long the varint is.

  lemma NumbersOfKeyValue(m: KeyValue, b: bytes, field: nat, v: nat)
    requires OneNumber(b, field, v) && field in {2, 3}
    ensures UnmarshalKeyValue(m, b) == Ok(if field == 2 then m.(createRevision := Int64(v)) else m.(modRevision := Int64(v)))
  {
    NumberRead(TKeyValue, b, field, v);
    CutTwice(v);
    hide Unmarshal, OneNumber, ReadRecord, Int64, Int32;
    OneRecord(ApplyKeyValue, TKeyValue, m, b, Number(field, v % TWO_64),
              if field == 2 then m.(createRevision := Int64(v)) else m.(modRevision := Int64(v)));
  }

  lemma NumbersOfRange(m: Range, b: bytes, field: nat, v: nat)
    requires OneNumber(b, field, v) && field in {3, 4, 5}
    ensures UnmarshalRange(m, b) == Ok(if field == 3 then m.(limit := Int64(v))
                                       else if field == 4 then m.(keysOnly := v % TWO_64 != 0)
                                       else m.(countOnly := v % TWO_64 != 0))
  {
    NumberRead(TRange, b, field, v);
    CutTwice(v);
    hide Unmarshal, OneNumber, ReadRecord, Int64, Int32;
    OneRecord(ApplyRange, TRange, m, b, Number(field, v % TWO_64), ApplyRange(m, Number(field, v % TWO_64)).value);
  }

  lemma NumbersOfPut(m: Put, b: bytes, field: nat, v: nat)
    requires OneNumber(b, field, v) && field == 3
    ensures UnmarshalPut(m, b) == Ok(m.(prevKv := v % TWO_64 != 0))
  {
    NumberRead(TPut, b, field, v);
    CutTwice(v);
    hide Unmarshal, OneNumber, ReadRecord, Int64, Int32;
    OneRecord(ApplyPut, TPut, m, b, Number(field, v % TWO_64), m.(prevKv := v % TWO_64 != 0));
  }

  lemma NumbersOfDeleteRange(m: DeleteRange, b: bytes, field: nat, v: nat)
    requires OneNumber(b, field, v) && field in {4, 5}
    ensures UnmarshalDeleteRange(m, b) == Ok(if field == 4 then m.(prevKv := v % TWO_64 != 0) else m.(count := v % TWO_64 != 0))
  {
    NumberRead(TDeleteRange, b, field, v);
    CutTwice(v);
    hide Unmarshal, OneNumber, ReadRecord, Int64, Int32;
    OneRecord(ApplyDeleteRange, TDeleteRange, m, b, Number(field, v % TWO_64),
              if field == 4 then m.(prevKv := v % TWO_64 != 0) else m.(count := v % TWO_64 != 0));
  }

  lemma NumbersOfCompare(m: Compare, b: bytes, field: nat, v: nat)
    requires OneNumber(b, field, v) && field in {1, 2}
    ensures UnmarshalCompare(m, b) == Ok(if field == 1 then m.(result := Int32(v)) else m.(target := Int32(v)))
  {
    NumberRead(TCompare, b, field, v);
    CutTwice(v);
    hide Unmarshal, OneNumber, ReadRecord, Int64, Int32;
    OneRecord(ApplyCompare, TCompare, m, b, Number(field, v % TWO_32),
              if field == 1 then m.(result := Int32(v)) else m.(target := Int32(v)));
  }

  lemma {:induction false} NumbersOfCommand(m: Command, b: bytes, field: nat, v: nat)
    requires OneNumber(b, field, v) && field in {2, 5, 9, 11}
    ensures UnmarshalCommand(m, b) == Ok(if field == 2 then m.(typ := Int32(v))
                                         else if field == 5 then m.(leaderIndex := Some(v % TWO_64))
                                         else if field == 9 then m.(prevKvs := v % TWO_64 != 0)
                                         else m.(count := v % TWO_64 != 0))
  {
    NumberRead(TCommand, b, field, v);
    UnmarshalCommandIsUnmarshal(m, b);
    CutTwice(v);
    hide Unmarshal, OneNumber, ReadRecord, Int64, Int32, UnmarshalCommand;
    var r := Number(field, if field == 2 then v % TWO_32 else v % TWO_64);
    OneRecord(ApplyCommand, TCommand, m, b, r, ApplyCommand(m, r).value);
  }

  lemma NumbersOfTableStatus(m: TableStatus, b: bytes, field: nat, v: nat)
    requires OneNumber(b, field, v) && field in {2, 3, 5, 6, 7}
    ensures UnmarshalTableStatus(m, b) == Ok(if field == 2 then m.(logSize := Int64(v))
                                             else if field == 3 then m.(dbSize := Int64(v))
                                             else if field == 5 then m.(raftIndex := v % TWO_64)
                                             else if field == 6 then m.(raftTerm := v % TWO_64)
                                             else m.(raftAppliedIndex := v % TWO_64))
  {
    NumberRead(TTableStatus, b, field, v);
    CutTwice(v);
    hide Unmarshal, OneNumber, ReadRecord, Int64, Int32;
    OneRecord(ApplyTableStatus, TTableStatus, m, b, Number(field, v % TWO_64), ApplyTableStatus(m, Number(field, v % TWO_64)).value);
  }

  // Main result: bytes that were written are present, empty or not; a nested
  // message is merged or appended, and its error is the error of the whole.

  lemma BytesOfKeyValue(m: KeyValue, b: bytes, field: nat, p: bytes)
    requires OnePayload(b, field, p) && field in {1, 4}
    ensures UnmarshalKeyValue(m, b) == Ok(if field == 1 then m.(key := Some(p)) else m.(value := Some(p)))
  {
    PayloadRead(TKeyValue, b, field, p);
    hide Unmarshal, OnePayload, ReadRecord;
    OneRecord(ApplyKeyValue, TKeyValue, m, b, Payload(field, p), if field == 1 then m.(key := Some(p)) else m.(value := Some(p)));
  }

  lemma BytesOfRange(m: Range, b: bytes, field: nat, p: bytes)
    requires OnePayload(b, field, p) && field in {1, 2}
    ensures UnmarshalRange(m, b) == Ok(if field == 1 then m.(key := Some(p)) else m.(rangeEnd := Some(p)))
  {
    PayloadRead(TRange, b, field, p);
    hide Unmarshal, OnePayload, ReadRecord;
    OneRecord(ApplyRange, TRange, m, b, Payload(field, p), if field == 1 then m.(key := Some(p)) else m.(rangeEnd := Some(p)));
  }

  lemma BytesOfPut(m: Put, b: bytes, field: nat, p: bytes)
    requires OnePayload(b, field, p) && field in {1, 2}
    ensures UnmarshalPut(m, b) == Ok(if field == 1 then m.(key := Some(p)) else m.(value := Some(p)))
  {
    PayloadRead(TPut, b, field, p);
    hide Unmarshal, OnePayload, ReadRecord;
    OneRecord(ApplyPut, TPut, m, b, Payload(field, p), if field == 1 then m.(key := Some(p)) else m.(value := Some(p)));
  }

  lemma BytesOfDeleteRange(m: DeleteRange, b: bytes, field: nat, p: bytes)
    requires OnePayload(b, field, p) && field in {1, 2}
    ensures UnmarshalDeleteRange(m, b) == Ok(if field == 1 then m.(key := Some(p)) else m.(rangeEnd := Some(p)))
  {
    PayloadRead(TDeleteRange, b, field, p);
    hide Unmarshal, OnePayload, ReadRecord;
    OneRecord(ApplyDeleteRange, TDeleteRange, m, b, Payload(field, p), if field == 1 then m.(key := Some(p)) else m.(rangeEnd := Some(p)));
  }

  lemma BytesOfCompare(m: Compare, b: bytes, field: nat, p: bytes)
    requires OnePayload(b, field, p) && field in {3, 4, 64}
    ensures UnmarshalCompare(m, b) == Ok(if field == 3 then m.(key := Some(p))
                                         else if field == 4 then m.(targetUnion := Some(Some(p)))
                                         else m.(rangeEnd := Some(p)))
  {
    PayloadRead(TCompare, b, field, p);
    hide Unmarshal, OnePayload, ReadRecord;
    OneRecord(ApplyCompare, TCompare, m, b, Payload(field, p), ApplyCompare(m, Payload(field, p)).value);
  }

  lemma OneRefused<M>(apply: (M, Record) -> Result<M, DecodeError>, t: MsgType, m: M, b: bytes, r: Record)
    requires b != [] && |b| <= MAX_INT && ReadRecord(t, b, 0) == Ok((r, |b|)) && apply(m, r).Err?
    ensures Unmarshal(apply, t, m, b) == Err(apply(m, r).error)
  {
    hide ReadRecord;
  }

  /** The result of the nested decoder, put into its place. */
  function Into<T, M>(x: Result<T, DecodeError>, put: T -> M): Result<M, DecodeError> {
    if x.Ok? then Ok(put(x.value)) else Err(x.error)
  }

  lemma {:induction false} PayloadsOfCommand(m: Command, b: bytes, field: nat, p: bytes)
    requires OnePayload(b, field, p) && field in {1, 3, 6, 7, 8, 10}
    ensures field == 1 ==> UnmarshalCommand(m, b) == Ok(m.(table := Some(p)))
    ensures field == 8 ==> UnmarshalCommand(m, b) == Ok(m.(rangeEnd := Some(p)))
    ensures field == 3 ==>
      UnmarshalCommand(m, b) == Into(UnmarshalKeyValue(OrElse(m.kv, KeyValue(None, 0, 0, None, [])), p), (x: KeyValue) => m.(kv := Some(x)))
    ensures field == 6 ==>
      UnmarshalCommand(m, b) == Into(UnmarshalKeyValue(KeyValue(None, 0, 0, None, []), p), (x: KeyValue) => m.(batch := m.batch + [Some(x)]))
    ensures field == 7 ==>
      UnmarshalCommand(m, b) == Into(UnmarshalTxn(OrElse(m.txn, Txn([], [], [], [])), p), (x: Txn) => m.(txn := Some(x)))
    ensures field == 10 ==>
      UnmarshalCommand(m, b) == Into(UnmarshalCommand(COMMAND, p), (x: Command) => m.(sequence := m.sequence + [Some(x)]))
  {
    PayloadRead(TCommand, b, field, p);
    UnmarshalCommandIsUnmarshal(m, b);
    hide Unmarshal, OnePayload, ReadRecord, UnmarshalCommand;
    var r := Payload(field, p);
    if ApplyCommand(m, r).Ok? {
      OneRecord(ApplyCommand, TCommand, m, b, r, ApplyCommand(m, r).value);
    } else {
      OneRefused(ApplyCommand, TCommand, m, b, r);
    }
  }

  lemma PayloadsOfTxn(m: Txn, b: bytes, field: nat, p: bytes)
    requires OnePayload(b, field, p) && field in {1, 2, 3}
    ensures field == 1 ==>
      UnmarshalTxn(m, b) == Into(UnmarshalCompare(Compare(0, 0, None, None, None, []), p), (x: Compare) => m.(compare := m.compare + [Some(x)]))
    ensures field == 2 ==>
      UnmarshalTxn(m, b) == Into(UnmarshalRequestOp(RequestOp(NoRequest, []), p), (x: RequestOp) => m.(success := m.success + [Some(x)]))
    ensures field == 3 ==>
      UnmarshalTxn(m, b) == Into(UnmarshalRequestOp(RequestOp(NoRequest, []), p), (x: RequestOp) => m.(failure := m.failure + [Some(x)]))
  {
    PayloadRead(TTxn, b, field, p);
    hide Unmarshal, OnePayload, ReadRecord;
    var r := Payload(field, p);
    if ApplyTxn(m, r).Ok? {
      OneRecord(ApplyTxn, TTxn, m, b, r, ApplyTxn(m, r).value);
    } else {
      OneRefused(ApplyTxn, TTxn, m, b, r);
    }
  }

  // The oneof: another case or none is replaced, the same case is merged into.
  lemma PayloadsOfRequestOp(m: RequestOp, b: bytes, field: nat, p: bytes)
    requires OnePayload(b, field, p) && field in {1, 2, 3}
    ensures field == 1 && m.request != RequestRange(None) ==>
      UnmarshalRequestOp(m, b) == Into(UnmarshalRange(if m.request.RequestRange? then m.request.range.value else Range(None, None, 0, false, false, []), p),
           (x: Range) => m.(request := RequestRange(Some(x))))
    ensures field == 2 && m.request != RequestPut(None) ==>
      UnmarshalRequestOp(m, b) == Into(UnmarshalPut(if m.request.RequestPut? then m.request.put.value else Put(None, None, false, []), p),
           (x: Put) => m.(request := RequestPut(Some(x))))
    ensures field == 3 && m.request != RequestDeleteRange(None) ==>
      UnmarshalRequestOp(m, b) == Into(UnmarshalDeleteRange(if m.request.RequestDeleteRange? then m.request.del.value else DeleteRange(None, None, false, false, []), p),
           (x: DeleteRange) => m.(request := RequestDeleteRange(Some(x))))
  {
    PayloadRead(TRequestOp, b, field, p);
    hide Unmarshal, OnePayload, ReadRecord;
    var r := Payload(field, p);
    if ApplyRequestOp(m, r).Ok? {
      OneRecord(ApplyRequestOp, TRequestOp, m, b, r, ApplyRequestOp(m, r).value);
    } else {
      OneRefused(ApplyRequestOp, TRequestOp, m, b, r);
    }
  }

  lemma PayloadsOfTxnRequest(m: TxnRequest, b: bytes, field: nat, p: bytes)
    requires OnePayload(b, field, p) && field in {1, 2, 3, 4}
    ensures field == 1 ==> UnmarshalTxnRequest(m, b) == Ok(m.(table := Some(p)))
    ensures field == 2 ==>
      UnmarshalTxnRequest(m, b) == Into(UnmarshalCompare(Compare(0, 0, None, None, None, []), p), (x: Compare) => m.(compare := m.compare + [Some(x)]))
    ensures field == 3 ==>
      UnmarshalTxnRequest(m, b) == Into(UnmarshalRequestOp(RequestOp(NoRequest, []), p), (x: RequestOp) => m.(success := m.success + [Some(x)]))
    ensures field == 4 ==>
      UnmarshalTxnRequest(m, b) == Into(UnmarshalRequestOp(RequestOp(NoRequest, []), p), (x: RequestOp) => m.(failure := m.failure + [Some(x)]))
  {
    PayloadRead(TTxnRequest, b, field, p);
    hide Unmarshal, OnePayload, ReadRecord;
    var r := Payload(field, p);
    if ApplyTxnRequest(m, r).Ok? {
      OneRecord(ApplyTxnRequest, TTxnRequest, m, b, r, ApplyTxnRequest(m, r).value);
    } else {
      OneRefused(ApplyTxnRequest, TTxnRequest, m, b, r);
    }
  }

  lemma BytesOfTableStatus(m: TableStatus, b: bytes, p: bytes)
    requires OnePayload(b, 4, p)
    ensures UnmarshalTableStatus(m, b) == Ok(m.(leader := p))
  {
    PayloadRead(TTableStatus, b, 4, p);
    hide Unmarshal, OnePayload, ReadRecord;
    OneRecord(ApplyTableStatus, TTableStatus, m, b, Payload(4, p), m.(leader := p));
  }

  // The bytes of a config are those of all its occurrences, which is how its codec merges them.
  lemma BytesOfStatusResponse(m: StatusResponse, b: bytes, field: nat, p: bytes)
    requires OnePayload(b, field, p) && field in {1, 2, 3, 5, 8}
    ensures UnmarshalStatus(m, b) == Ok(if field == 1 then m.(id := p)
                                        else if field == 2 then m.(version := p)
                                        else if field == 3 then m.(info := p)
                                        else if field == 5 then m.(config := Some(if m.config.Some? then m.config.value + p else p))
                                        else m.(errors := m.errors + [p]))
  {
    PayloadRead(TStatusResponse, b, field, p);
    hide OnePayload, ReadRecord, ReadEntry;
    DecodeStatusTurn(m, b, 0);
    DecodeStatusEmpty(ApplyStatus(m, Payload(field, p)).value, b[|b|..], |b|);
    assert m.config.None? ==> [] + p == p;
  }

  // An entry of the map, laid out in any way: its last key gets its last value.
  lemma {:induction false} EntryOfStatusResponse(m: StatusResponse, b: bytes, p: bytes, xs: seq<Item>)
    requires OnePayload(b, 4, p) && p == Items(xs) && ItemsOk(xs)
    ensures UnmarshalStatus(m, b) == Ok(m.(tables := m.tables[LastKey(xs, []) := LastValue(xs, None)]))
  {
    PayloadAtEnd(b, 4, p);
    EntryPart(b, p, xs);
    EntryIsPayload(b, p);
    hide *;
    OneEntry(m, b, p, LastKey(xs, []), LastValue(xs, None));
  }

  lemma EntryIsPayload(b: bytes, p: bytes)
    requires OnePayload(b, 4, p)
    ensures b != [] && |b| <= MAX_INT && ReadRecord(TStatusResponse, b, 0) == Ok((Payload(4, p), |b|))
  {
    hide ReadRecord, ReadVarint, HasTag;
    PayloadRead(TStatusResponse, b, 4, p);
  }

  lemma {:induction false} EntryPart(b: bytes, p: bytes, xs: seq<Item>)
    requires |p| <= |b| <= MAX_INT && b[|b| - |p|..] == p && p == Items(xs) && ItemsOk(xs)
    ensures ReadEntry(b, |b| - |p|, |b|, 0, [], None) == Ok((LastKey(xs, []), LastValue(xs, None)))
  {
    hide *;
    ReadItems(b, |b| - |p|, xs, 0, [], None);
  }

  lemma {:induction false} PayloadAtEnd(b: bytes, field: nat, p: bytes)
    requires OnePayload(b, field, p)
    ensures |p| <= |b| <= MAX_INT && b[|b| - |p|..] == p
  {
    var k := ReadVarint(b, W64).value.1;
    var n := ReadVarint(b[k..], W64).value.1;
    assert b[k + n..] == p && k + n == |b| - |p|;
  }

  lemma {:induction false} OneEntry(m: StatusResponse, b: bytes, p: bytes, k: bytes, v: Option<TableStatus>)
    requires b != [] && |p| <= |b| <= MAX_INT && ReadRecord(TStatusResponse, b, 0) == Ok((Payload(4, p), |b|))
    requires ReadEntry(b, |b| - |p|, |b|, 0, [], None) == Ok((k, v))
    ensures UnmarshalStatus(m, b) == Ok(m.(tables := m.tables[k := v]))
  {
    DecodeStatusTurn(m, b, 0);
    DecodeStatusEmpty(m.(tables := m.tables[k := v]), b[|b|..], |b|);
    hide ReadRecord, ReadEntry, DecodeStatus;
  }
}
