// Re-encoding what was decoded is stable, and when the round trip is exact.
module Canonical {
  import opened Common
  import opened Varint
  import opened Wire
  import opened Decoding
  import opened Messages
  import opened RoundTrip
  import opened Growth

  // ---------- whatever is decoded has whole unknown records ----------

  /** What ReadRecord guarantees of the raw bytes of an unknown record. */
  predicate RecordOk(t: MsgType, r: Record) { r.Unknown? ==> WholeUnknown(t, r.raw) }

  ghost predicate Preserves<M(!new)>(apply: (M, Record) -> Result<M, DecodeError>, t: MsgType, inv: M -> bool) {
    forall m: M, r: Record :: inv(m) && RecordOk(t, r) && apply(m, r).Ok? ==> inv(apply(m, r).value)
  }

  lemma ReadRecordOk(t: MsgType, b: bytes, pos: nat)
    requires pos + |b| <= MAX_INT && ReadRecord(t, b, pos).Ok?
    ensures RecordOk(t, ReadRecord(t, b, pos).value.0)
  {
    hide ReadRecord;
    if ReadRecord(t, b, pos).value.0.Unknown? { ReadUnknownIsWhole(t, b, pos); }
  }

  lemma {:induction false} DecodeKeeps<M(!new)>(apply: (M, Record) -> Result<M, DecodeError>, t: MsgType, inv: M -> bool, m: M, b: bytes, pos: nat)
    requires pos + |b| <= MAX_INT
    requires Preserves(apply, t, inv) && inv(m)
    ensures Decode(apply, t, m, b, pos).Ok? ==> inv(Decode(apply, t, m, b, pos).value)
    decreases |b|
  {
    hide ReadRecord;
    if b != [] && ReadRecord(t, b, pos).Ok? {
      var (r, n) := ReadRecord(t, b, pos).value;
      ReadRecordOk(t, b, pos);
      if apply(m, r).Ok? {
        DecodeKeeps(apply, t, inv, apply(m, r).value, b[n..], pos + n);
      }
    }
  }

  lemma {:induction false} AppendRaw(t: MsgType, u: bytes, raw: bytes)
    ensures WholeUnknown(t, u) && WholeUnknown(t, raw) ==> WholeUnknown(t, u + raw)
  {
    if WholeUnknown(t, u) && WholeUnknown(t, raw) { WholeUnknownAppend(t, u, raw); }
  }

  lemma LeavesStayOk()
    ensures Preserves(ApplyKeyValue, TKeyValue, (m: KeyValue) => WholeUnknown(TKeyValue, m.unknown))
    ensures Preserves(ApplyRange, TRange, (m: Range) => WholeUnknown(TRange, m.unknown))
    ensures Preserves(ApplyPut, TPut, (m: Put) => WholeUnknown(TPut, m.unknown))
    ensures Preserves(ApplyDeleteRange, TDeleteRange, (m: DeleteRange) => WholeUnknown(TDeleteRange, m.unknown))
    ensures Preserves(ApplyCompare, TCompare, (m: Compare) => WholeUnknown(TCompare, m.unknown))
  {
    hide WholeUnknown, Int64, Int32;
    forall t: MsgType, u: bytes, raw: bytes
      ensures WholeUnknown(t, u) && WholeUnknown(t, raw) ==> WholeUnknown(t, u + raw)
    {
      AppendRaw(t, u, raw);
    }
  }

  lemma KeyValueStaysOk(m: KeyValue, b: bytes)
    requires KeyValueOk(Some(m)) && UnmarshalKeyValue(m, b).Ok?
    ensures KeyValueOk(Some(UnmarshalKeyValue(m, b).value))
  {
    hide Decode, WholeUnknown;
    LeavesStayOk();
    DecodeKeeps(ApplyKeyValue, TKeyValue, (m: KeyValue) => WholeUnknown(TKeyValue, m.unknown), m, b, 0);
  }

  lemma CompareStaysOk(m: Compare, b: bytes)
    requires CompareOk(Some(m)) && UnmarshalCompare(m, b).Ok?
    ensures CompareOk(Some(UnmarshalCompare(m, b).value))
  {
    hide Decode, WholeUnknown;
    LeavesStayOk();
    DecodeKeeps(ApplyCompare, TCompare, (m: Compare) => WholeUnknown(TCompare, m.unknown), m, b, 0);
  }

  lemma ApplyRequestOpStaysOk(m: RequestOp, r: Record)
    requires RequestOpOk(Some(m)) && RecordOk(TRequestOp, r) && ApplyRequestOp(m, r).Ok?
    ensures RequestOpOk(Some(ApplyRequestOp(m, r).value))
  {
    hide Decode, WholeUnknown;
    LeavesStayOk();
    EmptyIsWhole(TRange); EmptyIsWhole(TPut); EmptyIsWhole(TDeleteRange);
    match r
    case Payload(1, p) =>
      DecodeKeepsIfShort(ApplyRange, TRange, (m: Range) => WholeUnknown(TRange, m.unknown),
        if m.request.RequestRange? && m.request.range.Some? then m.request.range.value else RANGE, p);
    case Payload(2, p) =>
      DecodeKeepsIfShort(ApplyPut, TPut, (m: Put) => WholeUnknown(TPut, m.unknown),
        if m.request.RequestPut? && m.request.put.Some? then m.request.put.value else PUT, p);
    case Payload(3, p) =>
      DecodeKeepsIfShort(ApplyDeleteRange, TDeleteRange, (m: DeleteRange) => WholeUnknown(TDeleteRange, m.unknown),
        if m.request.RequestDeleteRange? && m.request.del.Some? then m.request.del.value else DELETE_RANGE, p);
    case Unknown(raw) => AppendRaw(TRequestOp, m.unknown, raw);
    case _ =>
  }

  lemma DecodeKeepsIfShort<M(!new)>(apply: (M, Record) -> Result<M, DecodeError>, t: MsgType, inv: M -> bool, m: M, b: bytes)
    requires Preserves(apply, t, inv) && inv(m)
    ensures Unmarshal(apply, t, m, b).Ok? ==> inv(Unmarshal(apply, t, m, b).value)
  {
    hide Decode;
    if |b| <= MAX_INT { DecodeKeeps(apply, t, inv, m, b, 0); }
  }

  lemma RequestOpStaysOk(m: RequestOp, b: bytes)
    requires RequestOpOk(Some(m)) && UnmarshalRequestOp(m, b).Ok?
    ensures RequestOpOk(Some(UnmarshalRequestOp(m, b).value))
  {
    hide Decode, WholeUnknown, ApplyRequestOp, RequestOpOk;
    forall m: RequestOp, r: Record | RequestOpOk(Some(m)) && RecordOk(TRequestOp, r) && ApplyRequestOp(m, r).Ok?
      ensures RequestOpOk(Some(ApplyRequestOp(m, r).value))
    {
      ApplyRequestOpStaysOk(m, r);
    }
    DecodeKeepsIfShort(ApplyRequestOp, TRequestOp, (m: RequestOp) => RequestOpOk(Some(m)), m, b);
  }

  lemma ApplyTxnStaysOk(m: Txn, r: Record)
    requires TxnOk(Some(m)) && RecordOk(TTxn, r) && ApplyTxn(m, r).Ok?
    ensures TxnOk(Some(ApplyTxn(m, r).value))
  {
    hide UnmarshalCompare, UnmarshalRequestOp, WholeUnknown;
    EmptyIsWhole(TCompare); EmptyIsWhole(TRequestOp);
    match r
    case Payload(1, p) => CompareStaysOk(COMPARE, p);
    case Payload(2, p) => RequestOpStaysOk(REQUEST_OP, p);
    case Payload(3, p) => RequestOpStaysOk(REQUEST_OP, p);
    case Unknown(raw) => AppendRaw(TTxn, m.unknown, raw);
    case _ =>
  }

  lemma TxnStaysOk(m: Txn, b: bytes)
    requires TxnOk(Some(m)) && UnmarshalTxn(m, b).Ok?
    ensures TxnOk(Some(UnmarshalTxn(m, b).value))
  {
    hide Decode, WholeUnknown, ApplyTxn, TxnOk;
    forall m: Txn, r: Record | TxnOk(Some(m)) && RecordOk(TTxn, r) && ApplyTxn(m, r).Ok?
      ensures TxnOk(Some(ApplyTxn(m, r).value))
    {
      ApplyTxnStaysOk(m, r);
    }
    DecodeKeepsIfShort(ApplyTxn, TTxn, (m: Txn) => TxnOk(Some(m)), m, b);
  }

  lemma {:induction false} CommandsOkAppend(s: seq<Option<Command>>, e: Option<Command>)
    requires CommandsOk(s) && ElementOk(e)
    ensures CommandsOk(s + [e])
    decreases |s|
  {
    hide ElementOk;
    if s == [] {
      assert (s + [e])[1..] == [];
    } else {
      assert (s + [e])[1..] == s[1..] + [e];
      CommandsOkAppend(s[1..], e);
    }
  }

  lemma {:induction false} ApplyCommandStaysOk(m: Command, r: Record)
    requires CommandOk(m) && RecordOk(TCommand, r) && ApplyCommand(m, r).Ok?
    ensures CommandOk(ApplyCommand(m, r).value)
    decreases RecordSize(r), 1
  {
    hide UnmarshalKeyValue, UnmarshalTxn, DecodeCommand, WholeUnknown, CommandsOk, KeyValueOk, TxnOk, Int32;
    EmptyIsWhole(TKeyValue); EmptyIsWhole(TTxn); EmptyIsWhole(TCommand);
    assert KeyValueOk(Some(KEY_VALUE)) && TxnOk(Some(TXN)) && CommandsOk([]) by { FreshOk(); }
    match r
    case Payload(3, p) => KeyValueStaysOk(OrElse(m.kv, KEY_VALUE), p);
    case Payload(6, p) => KeyValueStaysOk(KEY_VALUE, p);
    case Payload(7, p) => TxnStaysOk(OrElse(m.txn, TXN), p);
    case Payload(10, p) =>
      FreshOk();
      DecodeCommandStaysOk(COMMAND, p, 0);
      CommandsOkAppend(m.sequence, Some(UnmarshalCommand(COMMAND, p).value));
    case Unknown(raw) => AppendRaw(TCommand, m.unknown, raw);
    case _ =>
  }

  lemma FreshOk()
    ensures KeyValueOk(Some(KEY_VALUE)) && TxnOk(Some(TXN)) && CommandsOk([]) && KeyValueOk(None) && TxnOk(None)
    ensures CommandOk(COMMAND)
  {
  }

  lemma {:induction false} DecodeCommandStaysOk(m: Command, b: bytes, pos: nat)
    requires pos + |b| <= MAX_INT && CommandOk(m)
    ensures DecodeCommand(m, b, pos).Ok? ==> CommandOk(DecodeCommand(m, b, pos).value)
    decreases |b|, 0
  {
    hide ReadRecord, ApplyCommand, CommandOk;
    if b != [] && ReadRecord(TCommand, b, pos).Ok? {
      var (r, n) := ReadRecord(TCommand, b, pos).value;
      ReadRecordOk(TCommand, b, pos);
      if ApplyCommand(m, r).Ok? {
        ApplyCommandStaysOk(m, r);
        DecodeCommandStaysOk(ApplyCommand(m, r).value, b[n..], pos + n);
      }
    }
  }

  // Main result: whatever bytes UnmarshalVT accepts, decoding the re-encoding of
  // the result gives the same message in normal form.
  lemma {:induction false} ReencodingIsStable(b: bytes)
    requires UnmarshalCommand(COMMAND, b).Ok? && |b| <= MAX_INT / 2
    ensures var m := UnmarshalCommand(COMMAND, b).value;
            UnmarshalCommand(COMMAND, EncodeCommand(m)) == Ok(NormCommand(m))
  {
    hide CommandOk, DecodeCommand, EncodeCommand;
    FreshOk();
    DecodeCommandStaysOk(COMMAND, b, 0);
    ReencodingIsBounded(b);
    RoundTripCommand(UnmarshalCommand(COMMAND, b).value);
  }

  // Of every accepted input the unknown records of the command are kept,
  // verbatim and in order, whatever stands between them.
  lemma {:induction false} UnknownIsKept(m: Command, b: bytes)
    requires UnmarshalCommand(m, b).Ok?
    ensures UnmarshalCommand(m, b).value.unknown == m.unknown + UnknownIn(TCommand, b, 0)
  {
    hide Decode, DecodeCommand;
    UnmarshalCommandIsUnmarshal(m, b);
    forall m: Command, r: Record | ApplyCommand(m, r).Ok?
      ensures ApplyCommand(m, r).value.unknown == m.unknown + (if r.Unknown? then r.raw else [])
    {
      UnknownAfter(m, r);
    }
    hide ApplyCommand;
    DecodeCollectsUnknown(ApplyCommand, TCommand, (m: Command) => m.unknown, m, b, 0);
  }

  lemma {:induction false} UnknownAfter(m: Command, r: Record)
    requires ApplyCommand(m, r).Ok?
    ensures ApplyCommand(m, r).value.unknown == m.unknown + (if r.Unknown? then r.raw else [])
  {
    hide UnmarshalCommand, UnmarshalKeyValue, UnmarshalTxn, Int32;
    assert m.unknown + [] == m.unknown;
  }

  // ---------- which messages come back exactly ----------

  predicate NotEmpty(p: Option<bytes>) { p != Some([]) }

  predicate ExactKeyValue(m: KeyValue) { NotEmpty(m.key) && NotEmpty(m.value) }

  /** No empty plain bytes, and a oneof case only with a body. */
  predicate ExactRequestOp(m: RequestOp) {
    match m.request
    case NoRequest => true
    case RequestRange(x) => x.Some? && NotEmpty(x.value.key) && NotEmpty(x.value.rangeEnd)
    case RequestPut(x) => x.Some? && NotEmpty(x.value.key) && NotEmpty(x.value.value)
    case RequestDeleteRange(x) => x.Some? && NotEmpty(x.value.key) && NotEmpty(x.value.rangeEnd)
  }

  predicate ExactCompare(m: Compare) { NotEmpty(m.key) && NotEmpty(m.rangeEnd) && m.targetUnion != Some(None) }

  predicate ExactTxn(m: Txn) {
    && (forall e <- m.compare :: e.Some? && ExactCompare(e.value))
    && (forall e <- m.success :: e.Some? && ExactRequestOp(e.value))
    && (forall e <- m.failure :: e.Some? && ExactRequestOp(e.value))
  }

  predicate ExactCommand(m: Command) {
    && NotEmpty(m.table)
    && (m.kv.Some? ==> ExactKeyValue(m.kv.value))
    && (forall e <- m.batch :: e.Some? && ExactKeyValue(e.value))
    && (m.txn.Some? ==> ExactTxn(m.txn.value))
    && ExactCommands(m.sequence)
  }

  predicate ExactCommands(s: seq<Option<Command>>) {
    s == [] || (ExactElement(s[0]) && ExactCommands(s[1..]))
  }

  predicate ExactElement(m: Option<Command>) { m.Some? && ExactCommand(m.value) }

  lemma {:induction false} ExactKeyValues(s: seq<Option<KeyValue>>)
    ensures NormKeyValues(s) == s <==> forall e <- s :: e.Some? && ExactKeyValue(e.value)
    decreases |s|
  {
    if s != [] {
      ExactKeyValues(s[1..]);
      SplitFirst(s);
      assert NormKeyValues(s) == s <==> Some(NormKeyValue(OrElse(s[0], KEY_VALUE))) == s[0] && NormKeyValues(s[1..]) == s[1..];
    }
  }

  lemma SplitFirst<T>(s: seq<T>)
    requires s != []
    ensures s == [s[0]] + s[1..]
    ensures forall e :: e in s <==> e == s[0] || e in s[1..]
  {
  }

  lemma {:induction false} ExactCompares(s: seq<Option<Compare>>)
    ensures NormCompares(s) == s <==> forall e <- s :: e.Some? && ExactCompare(e.value)
    decreases |s|
  {
    if s != [] {
      ExactCompares(s[1..]);
      SplitFirst(s);
      assert NormCompares(s) == s <==> Some(NormCompare(OrElse(s[0], COMPARE))) == s[0] && NormCompares(s[1..]) == s[1..];
    }
  }

  lemma ExactOneRequestOp(e: Option<RequestOp>)
    ensures Some(NormRequestOp(OrElse(e, REQUEST_OP))) == e <==> e.Some? && ExactRequestOp(e.value)
  {
  }

  lemma {:induction false} ExactRequestOps(s: seq<Option<RequestOp>>)
    ensures NormRequestOps(s) == s <==> forall e <- s :: e.Some? && ExactRequestOp(e.value)
    decreases |s|
  {
    hide NormRequestOp, ExactRequestOp;
    if s != [] {
      ExactOneRequestOp(s[0]);
      ExactRequestOps(s[1..]);
      SplitFirst(s);
      assert NormRequestOps(s) == s <==> Some(NormRequestOp(OrElse(s[0], REQUEST_OP))) == s[0] && NormRequestOps(s[1..]) == s[1..];
    }
  }

  lemma {:induction false} NormIsIdentityWhenExact(m: Command)
    ensures NormCommand(m) == m <==> ExactCommand(m)
    decreases m
  {
    hide NormKeyValues, NormCompares, NormRequestOps, NormCommands, ExactCompare, ExactRequestOp, ExactCommands;
    ExactKeyValues(m.batch);
    if m.txn.Some? {
      ExactCompares(m.txn.value.compare);
      ExactRequestOps(m.txn.value.success);
      ExactRequestOps(m.txn.value.failure);
    }
    NormsAreIdentityWhenExact(m.sequence);
  }

  lemma {:induction false} NormsAreIdentityWhenExact(s: seq<Option<Command>>)
    ensures NormCommands(s) == s <==> ExactCommands(s)
    decreases s
  {
    hide NormElement, ExactElement;
    if s != [] {
      NormElementIsIdentityWhenExact(s[0]);
      NormsAreIdentityWhenExact(s[1..]);
      SplitFirst(s);
      assert NormCommands(s) == s <==> Some(NormElement(s[0])) == s[0] && NormCommands(s[1..]) == s[1..];
    }
  }

  lemma {:induction false} NormElementIsIdentityWhenExact(m: Option<Command>)
    ensures Some(NormElement(m)) == m <==> ExactElement(m)
    decreases m
  {
    if m.Some? { NormIsIdentityWhenExact(m.value); }
  }

  // Main result: the round trip gives back the very same message exactly when
  // no plain bytes field is empty but not nil, no repeated element is nil, no
  // oneof case lacks its body and no Compare_Value holds nil.
  lemma {:induction false} RoundTripIsExactWhen(m: Command)
    requires CommandOk(m) && |EncodeCommand(m)| <= MAX_INT
    ensures UnmarshalCommand(COMMAND, EncodeCommand(m)) == Ok(m) <==> ExactCommand(m)
  {
    hide CommandOk, EncodeCommand, UnmarshalCommand, NormCommand, ExactCommand;
    RoundTripCommand(m);
    NormIsIdentityWhenExact(m);
  }

  // A concrete message that does not come back as it was.
  lemma EmptyTableIsLost()
    ensures var m := COMMAND.(table := Some([]));
            CommandOk(m) && EncodeCommand(m) == [] && UnmarshalCommand(COMMAND, EncodeCommand(m)) == Ok(COMMAND)
  {
    EmptyIsWhole(TCommand);
    assert EncodeCommand(COMMAND.(table := Some([]))) == [];
  }

  // ---------- the normal form is written the same way ----------

  lemma EncodeNormKeyValue(m: KeyValue)
    ensures EncodeKeyValue(NormKeyValue(m)) == EncodeKeyValue(m)
  {
  }

  lemma EncodeNormRequestOp(m: RequestOp)
    ensures EncodeRequestOp(NormRequestOp(m)) == EncodeRequestOp(m)
  {
    hide OptBytes, OptNumber, OptBool, PayloadField;
    forall p: Option<bytes>, f: nat ensures OptBytes(f, Plain(p)) == OptBytes(f, p) { PlainWrittenTheSame(f, p); }
  }

  lemma PlainWrittenTheSame(f: nat, p: Option<bytes>)
    ensures OptBytes(f, Plain(p)) == OptBytes(f, p)
  {
  }

  lemma EncodeNormCompare(m: Compare)
    ensures EncodeCompare(NormCompare(m)) == EncodeCompare(m)
  {
  }

  lemma {:induction false} PayloadsOfNormKeyValues(s: seq<Option<KeyValue>>)
    ensures KeyValuePayloads(NormKeyValues(s)) == KeyValuePayloads(s)
    decreases |s|
  {
    hide EncodeKeyValue, NormKeyValue;
    if s != [] {
      assert EncodeKeyValue(KEY_VALUE) == [] by { EmptyEncodings(); }
      EncodeNormKeyValue(OrElse(s[0], KEY_VALUE));
      PayloadsOfNormKeyValues(s[1..]);
    }
  }

  lemma {:induction false} PayloadsOfNormCompares(s: seq<Option<Compare>>)
    ensures ComparePayloads(NormCompares(s)) == ComparePayloads(s)
    decreases |s|
  {
    hide EncodeCompare, NormCompare;
    if s != [] {
      assert EncodeCompare(COMPARE) == [] by { EmptyEncodings(); }
      EncodeNormCompare(OrElse(s[0], COMPARE));
      PayloadsOfNormCompares(s[1..]);
    }
  }

  lemma {:induction false} PayloadsOfNormRequestOps(s: seq<Option<RequestOp>>)
    ensures RequestOpPayloads(NormRequestOps(s)) == RequestOpPayloads(s)
    decreases |s|
  {
    hide EncodeRequestOp, NormRequestOp;
    if s != [] {
      assert EncodeRequestOp(REQUEST_OP) == [] by { EmptyEncodings(); }
      EncodeNormRequestOp(OrElse(s[0], REQUEST_OP));
      PayloadsOfNormRequestOps(s[1..]);
    }
  }

  // Main result: normalising does not change a single byte written, so the
  // bytes reached after one decode and re-encode never change again.
  lemma {:induction false} EncodeNormCommand(m: Command)
    ensures EncodeCommand(NormCommand(m)) == EncodeCommand(m)
    decreases m
  {
    hide OptBytes, OptNumber, OptBool, OptPayload, PayloadField, Repeated, EncodeKeyValue, NormKeyValue;
    hide KeyValuePayloads, CommandPayloads, ComparePayloads, RequestOpPayloads;
    hide NormKeyValues, NormCommands, NormCompares, NormRequestOps, Plain;
    PlainWrittenTheSame(1, m.table);
    if m.kv.Some? { EncodeNormKeyValue(m.kv.value); }
    PayloadsOfNormKeyValues(m.batch);
    if m.txn.Some? {
      PayloadsOfNormCompares(m.txn.value.compare);
      PayloadsOfNormRequestOps(m.txn.value.success);
      PayloadsOfNormRequestOps(m.txn.value.failure);
    }
    PayloadsOfNormCommands(m.sequence);
  }

  lemma {:induction false} PayloadsOfNormCommands(s: seq<Option<Command>>)
    ensures CommandPayloads(NormCommands(s)) == CommandPayloads(s)
    decreases s
  {
    hide EncodeCommand, NormCommand;
    if s != [] {
      EncodeNormElement(s[0]);
      PayloadsOfNormCommands(s[1..]);
    }
  }

  lemma {:induction false} EncodeNormElement(m: Option<Command>)
    ensures EncodeCommand(NormElement(m)) == EncodeCommandElement(m)
    decreases m
  {
    if m.Some? { EncodeNormCommand(m.value); } else { EmptyEncodings(); }
  }
}
