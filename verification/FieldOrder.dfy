// The order in which the writers lay the fields out.
module FieldOrder {
  import opened Common
  import opened Varint
  import opened Wire
  import opened Messages
  import opened Requests

  /** b is a run of records of declared fields, their numbers not descending from low on. */
  ghost predicate Ascending(t: MsgType, b: bytes, low: nat)
    decreases |b|
  {
    |b| <= MAX_INT &&
    (b == [] ||
     (ReadRecord(t, b, 0).Ok? &&
      var (r, n) := ReadRecord(t, b, 0).value;
      !r.Unknown? && r.field >= low && Ascending(t, b[n..], r.field)))
  }

  lemma {:induction false} Lower(t: MsgType, b: bytes, low: nat, high: nat)
    requires Ascending(t, b, high) && low <= high
    ensures Ascending(t, b, low)
  {
    hide ReadRecord;
  }

  lemma {:induction false} RecordFirst(t: MsgType, c: bytes, rest: bytes, r: Record, low: nat)
    requires c != [] && |c + rest| <= MAX_INT && ReadRecord(t, c + rest, 0) == Ok((r, |c|))
    requires !r.Unknown? && r.field >= low && Ascending(t, rest, r.field)
    ensures Ascending(t, c + rest, low)
  {
    hide ReadRecord;
    assert (c + rest)[|c|..] == rest;
  }

  lemma {:induction false} NumberFirst(t: MsgType, field: nat, v: u64, rest: bytes, low: nat)
    requires low <= field && 1 <= field < MAX_FIELD && KindOf(t, field) in {Scalar, Enum}
    requires |NumberField(field, v) + rest| <= MAX_INT && Ascending(t, rest, field)
    ensures Ascending(t, NumberField(field, v) + rest, low)
  {
    assert NumberField(field, v) != [];
    hide ReadRecord, NumberField, ScalarWidth, KindOf, Cut, Ascending;
    ReadNumberField(t, field, v, rest, 0);
    RecordFirst(t, NumberField(field, v), rest, Number(field, Cut(v, ScalarWidth(t, field))), low);
  }

  lemma {:induction false} PayloadFirst(t: MsgType, field: nat, p: bytes, rest: bytes, low: nat)
    requires low <= field && 1 <= field < MAX_FIELD && KindOf(t, field) == Delimited
    requires |PayloadField(field, p) + rest| <= MAX_INT && Ascending(t, rest, field)
    ensures Ascending(t, PayloadField(field, p) + rest, low)
  {
    assert PayloadField(field, p) != [];
    hide ReadRecord, PayloadField, KindOf, Ascending;
    ReadPayloadField(t, field, p, rest, 0);
    RecordFirst(t, PayloadField(field, p), rest, Payload(field, p), low);
  }

  // The optional fields: nothing, or a field in front.

  lemma {:induction false} OptNumberFirst(t: MsgType, field: nat, v: i64, rest: bytes, low: nat)
    requires low <= field && 1 <= field < MAX_FIELD && KindOf(t, field) in {Scalar, Enum}
    requires |OptNumber(field, v) + rest| <= MAX_INT && Ascending(t, rest, field)
    ensures Ascending(t, OptNumber(field, v) + rest, low)
  {
    hide Ascending, NumberField, KindOf;
    assert [] + rest == rest;
    if v != 0 { NumberFirst(t, field, UInt64(v), rest, low); } else { Lower(t, rest, low, field); }
  }

  lemma {:induction false} OptBoolFirst(t: MsgType, field: nat, v: bool, rest: bytes, low: nat)
    requires low <= field && 1 <= field < MAX_FIELD && KindOf(t, field) in {Scalar, Enum}
    requires |OptBool(field, v) + rest| <= MAX_INT && Ascending(t, rest, field)
    ensures Ascending(t, OptBool(field, v) + rest, low)
  {
    hide Ascending, NumberField, KindOf;
    assert [] + rest == rest;
    if v { NumberFirst(t, field, 1, rest, low); } else { Lower(t, rest, low, field); }
  }

  lemma {:induction false} OptBytesFirst(t: MsgType, field: nat, p: Option<bytes>, rest: bytes, low: nat)
    requires low <= field && 1 <= field < MAX_FIELD && KindOf(t, field) == Delimited
    requires |OptBytes(field, p) + rest| <= MAX_INT && Ascending(t, rest, field)
    ensures Ascending(t, OptBytes(field, p) + rest, low)
  {
    hide Ascending, PayloadField, KindOf;
    assert [] + rest == rest;
    if p.Some? && |p.value| > 0 { PayloadFirst(t, field, p.value, rest, low); } else { Lower(t, rest, low, field); }
  }

  lemma {:induction false} OptPayloadFirst(t: MsgType, field: nat, p: Option<bytes>, rest: bytes, low: nat)
    requires low <= field && 1 <= field < MAX_FIELD && KindOf(t, field) == Delimited
    requires |OptPayload(field, p) + rest| <= MAX_INT && Ascending(t, rest, field)
    ensures Ascending(t, OptPayload(field, p) + rest, low)
  {
    hide Ascending, PayloadField, KindOf;
    assert [] + rest == rest;
    if p.Some? { PayloadFirst(t, field, p.value, rest, low); } else { Lower(t, rest, low, field); }
  }

  lemma {:induction false} RepeatedFirst(t: MsgType, field: nat, ps: seq<bytes>, rest: bytes, low: nat)
    requires low <= field && 1 <= field < MAX_FIELD && KindOf(t, field) == Delimited
    requires |Repeated(field, ps) + rest| <= MAX_INT && Ascending(t, rest, field)
    ensures Ascending(t, Repeated(field, ps) + rest, low)
    decreases |ps|
  {
    hide Ascending, PayloadField, KindOf;
    assert [] + rest == rest;
    if ps == [] {
      Lower(t, rest, low, field);
    } else {
      var more := Repeated(field, ps[1..]) + rest;
      assert Repeated(field, ps) + rest == PayloadField(field, ps[0]) + more;
      RepeatedFirst(t, field, ps[1..], rest, field);
      PayloadFirst(t, field, ps[0], more, low);
    }
  }

  lemma NothingLeft(t: MsgType)
    ensures forall low: nat {:trigger Ascending(t, [], low)} :: Ascending(t, [], low)
  {
  }

  // Main result: every writer puts the declared fields in ascending order and the
  // unknown bytes behind them.

  lemma KeyValueAscends(m: KeyValue)
    requires |EncodeKeyValue(m)| <= MAX_INT
    ensures var known := EncodeKeyValue(m.(unknown := []));
            EncodeKeyValue(m) == known + m.unknown && Ascending(TKeyValue, known, 1)
  {
    hide Ascending, OptNumber, OptBytes;
    NothingLeft(TKeyValue);
    var s3 := OptBytes(4, m.value) + [];
    var s2 := OptNumber(3, m.modRevision) + s3;
    var s1 := OptNumber(2, m.createRevision) + s2;
    OptBytesFirst(TKeyValue, 4, m.value, [], 3);
    OptNumberFirst(TKeyValue, 3, m.modRevision, s3, 2);
    OptNumberFirst(TKeyValue, 2, m.createRevision, s2, 1);
    OptBytesFirst(TKeyValue, 1, m.key, s1, 1);
  }

  lemma RangeAscends(m: Range)
    requires |EncodeRange(m)| <= MAX_INT
    ensures var known := EncodeRange(m.(unknown := []));
            EncodeRange(m) == known + m.unknown && Ascending(TRange, known, 1)
  {
    hide Ascending, OptNumber, OptBytes, OptBool;
    NothingLeft(TRange);
    var s4 := OptBool(5, m.countOnly) + [];
    var s3 := OptBool(4, m.keysOnly) + s4;
    var s2 := OptNumber(3, m.limit) + s3;
    var s1 := OptBytes(2, m.rangeEnd) + s2;
    OptBoolFirst(TRange, 5, m.countOnly, [], 4);
    OptBoolFirst(TRange, 4, m.keysOnly, s4, 3);
    OptNumberFirst(TRange, 3, m.limit, s3, 2);
    OptBytesFirst(TRange, 2, m.rangeEnd, s2, 1);
    OptBytesFirst(TRange, 1, m.key, s1, 1);
  }

  lemma PutAscends(m: Put)
    requires |EncodePut(m)| <= MAX_INT
    ensures var known := EncodePut(m.(unknown := []));
            EncodePut(m) == known + m.unknown && Ascending(TPut, known, 1)
  {
    hide Ascending, OptBytes, OptBool;
    NothingLeft(TPut);
    var s2 := OptBool(3, m.prevKv) + [];
    var s1 := OptBytes(2, m.value) + s2;
    OptBoolFirst(TPut, 3, m.prevKv, [], 2);
    OptBytesFirst(TPut, 2, m.value, s2, 1);
    OptBytesFirst(TPut, 1, m.key, s1, 1);
  }

  lemma DeleteRangeAscends(m: DeleteRange)
    requires |EncodeDeleteRange(m)| <= MAX_INT
    ensures var known := EncodeDeleteRange(m.(unknown := []));
            EncodeDeleteRange(m) == known + m.unknown && Ascending(TDeleteRange, known, 1)
  {
    hide Ascending, OptBytes, OptBool;
    NothingLeft(TDeleteRange);
    var s3 := OptBool(5, m.count) + [];
    var s2 := OptBool(4, m.prevKv) + s3;
    var s1 := OptBytes(2, m.rangeEnd) + s2;
    OptBoolFirst(TDeleteRange, 5, m.count, [], 4);
    OptBoolFirst(TDeleteRange, 4, m.prevKv, s3, 2);
    OptBytesFirst(TDeleteRange, 2, m.rangeEnd, s2, 1);
    OptBytesFirst(TDeleteRange, 1, m.key, s1, 1);
  }

  lemma TxnAscends(m: Txn)
    requires |EncodeTxn(m)| <= MAX_INT
    ensures var known := EncodeTxn(m.(unknown := []));
            EncodeTxn(m) == known + m.unknown && Ascending(TTxn, known, 1)
  {
    hide Ascending, Repeated, ComparePayloads, RequestOpPayloads;
    NothingLeft(TTxn);
    var s2 := Repeated(3, RequestOpPayloads(m.failure)) + [];
    var s1 := Repeated(2, RequestOpPayloads(m.success)) + s2;
    RepeatedFirst(TTxn, 3, RequestOpPayloads(m.failure), [], 2);
    RepeatedFirst(TTxn, 2, RequestOpPayloads(m.success), s2, 1);
    RepeatedFirst(TTxn, 1, ComparePayloads(m.compare), s1, 1);
  }

  lemma TxnRequestAscends(m: TxnRequest)
    requires |EncodeTxnRequest(m)| <= MAX_INT
    ensures var known := EncodeTxnRequest(m.(unknown := []));
            EncodeTxnRequest(m) == known + m.unknown && Ascending(TTxnRequest, known, 1)
  {
    hide Ascending, OptBytes, Repeated, ComparePayloads, RequestOpPayloads;
    NothingLeft(TTxnRequest);
    var s3 := Repeated(4, RequestOpPayloads(m.failure)) + [];
    var s2 := Repeated(3, RequestOpPayloads(m.success)) + s3;
    var s1 := Repeated(2, ComparePayloads(m.compare)) + s2;
    RepeatedFirst(TTxnRequest, 4, RequestOpPayloads(m.failure), [], 3);
    RepeatedFirst(TTxnRequest, 3, RequestOpPayloads(m.success), s3, 2);
    RepeatedFirst(TTxnRequest, 2, ComparePayloads(m.compare), s2, 1);
    OptBytesFirst(TTxnRequest, 1, m.table, s1, 1);
  }

  // A Compare writes its oneof, field 4, behind field 64.
  lemma CompareAscends(m: Compare)
    requires |EncodeCompare(m)| <= MAX_INT
    ensures var known := EncodeCompare(m.(targetUnion := None, unknown := []));
            && EncodeCompare(m) == known + (if m.targetUnion.Some? then PayloadField(4, OrElse(m.targetUnion.value, [])) else []) + m.unknown
            && Ascending(TCompare, known, 1)
  {
    hide Ascending, OptNumber, OptBytes, PayloadField;
    NothingLeft(TCompare);
    var s3 := OptBytes(64, m.rangeEnd) + [];
    var s2 := OptBytes(3, m.key) + s3;
    var s1 := OptNumber(2, m.target) + s2;
    OptBytesFirst(TCompare, 64, m.rangeEnd, [], 3);
    OptBytesFirst(TCompare, 3, m.key, s3, 2);
    OptNumberFirst(TCompare, 2, m.target, s2, 1);
    OptNumberFirst(TCompare, 1, m.result, s1, 1);
  }

  lemma {:induction false} CommandAscends(m: Command)
    requires |EncodeCommand(m)| <= MAX_INT
    ensures var known := EncodeCommand(m.(unknown := []));
            EncodeCommand(m) == known + m.unknown && Ascending(TCommand, known, 1)
  {
    UnknownLast(m);
    hide Ascending, OptBytes, OptNumber, Repeated, KeyValuePayloads, EncodeLaterFields, EncodeTxnField, EncodeLeaderIndex, EncodeKv;
    var s6 := EncodeLaterFields(m.(unknown := []));
    LaterFieldsAscend(m);
    var s5 := EncodeTxnField(m.txn) + s6;
    var s4 := Repeated(6, KeyValuePayloads(m.batch)) + s5;
    var s3 := EncodeLeaderIndex(m.leaderIndex) + s4;
    var s2 := EncodeKv(m.kv) + s3;
    var s1 := OptNumber(2, m.typ) + s2;
    TxnFirst(m.txn, s6);
    RepeatedFirst(TCommand, 6, KeyValuePayloads(m.batch), s5, 5);
    LeaderIndexFirst(m.leaderIndex, s4);
    KvFirst(m.kv, s3);
    OptNumberFirst(TCommand, 2, m.typ, s2, 1);
    OptBytesFirst(TCommand, 1, m.table, s1, 1);
  }

  lemma {:induction false} UnknownLast(m: Command)
    ensures EncodeLaterFields(m) == EncodeLaterFields(m.(unknown := [])) + m.unknown
    ensures EncodeCommand(m) == EncodeCommand(m.(unknown := [])) + m.unknown
  {
    hide OptBytes, OptNumber, OptPayload, OptBool, Repeated, KeyValuePayloads, CommandPayloads, EncodeTxnField, EncodeLeaderIndex, EncodeKv;
  }

  lemma {:induction false} TxnFirst(txn: Option<Txn>, rest: bytes)
    requires |EncodeTxnField(txn) + rest| <= MAX_INT && Ascending(TCommand, rest, 7)
    ensures Ascending(TCommand, EncodeTxnField(txn) + rest, 6)
  {
    hide Ascending, EncodeTxn, PayloadField;
    assert [] + rest == rest;
    if txn.Some? { PayloadFirst(TCommand, 7, EncodeTxn(txn.value), rest, 6); } else { Lower(TCommand, rest, 6, 7); }
  }

  lemma {:induction false} LeaderIndexFirst(v: Option<u64>, rest: bytes)
    requires |EncodeLeaderIndex(v) + rest| <= MAX_INT && Ascending(TCommand, rest, 5)
    ensures Ascending(TCommand, EncodeLeaderIndex(v) + rest, 3)
  {
    hide Ascending, NumberField;
    assert [] + rest == rest;
    if v.Some? { NumberFirst(TCommand, 5, v.value, rest, 3); } else { Lower(TCommand, rest, 3, 5); }
  }

  lemma {:induction false} KvFirst(kv: Option<KeyValue>, rest: bytes)
    requires |EncodeKv(kv) + rest| <= MAX_INT && Ascending(TCommand, rest, 3)
    ensures Ascending(TCommand, EncodeKv(kv) + rest, 2)
  {
    hide Ascending, EncodeKeyValue, PayloadField;
    assert [] + rest == rest;
    if kv.Some? { PayloadFirst(TCommand, 3, EncodeKeyValue(kv.value), rest, 2); } else { Lower(TCommand, rest, 2, 3); }
  }

  lemma {:induction false} LaterFieldsAscend(m: Command)
    requires |EncodeLaterFields(m)| <= MAX_INT
    ensures var known := EncodeLaterFields(m.(unknown := []));
            EncodeLaterFields(m) == known + m.unknown && Ascending(TCommand, known, 7)
  {
    hide Ascending, OptPayload, OptBool, Repeated, CommandPayloads;
    NothingLeft(TCommand);
    var s3 := OptBool(11, m.count) + [];
    var s2 := Repeated(10, CommandPayloads(m.sequence)) + s3;
    var s1 := OptBool(9, m.prevKvs) + s2;
    OptBoolFirst(TCommand, 11, m.count, [], 10);
    RepeatedFirst(TCommand, 10, CommandPayloads(m.sequence), s3, 9);
    OptBoolFirst(TCommand, 9, m.prevKvs, s2, 8);
    OptPayloadFirst(TCommand, 8, m.rangeEnd, s1, 7);
  }
}
