// Reused Commands: ResetVT keeps the backing arrays of Batch and Sequence, and
// UnmarshalVT takes up again the elements hidden between len and cap.
module Pool {
  import opened Common
  import opened Varint
  import opened Wire
  import opened Messages

  /** A Command with its spare capacity: batch and sequence are the whole
      backing arrays, of which the first batchLen and seqLen elements show. */
  datatype Pooled = Pooled(
    table: Option<bytes>, typ: i32, kv: Option<KeyValue>, leaderIndex: Option<u64>,
    batch: seq<Option<KeyValue>>, batchLen: nat, txn: Option<Txn>, rangeEnd: Option<bytes>, prevKvs: bool,
    sequence: seq<Option<Pooled>>, seqLen: nat, count: bool, unknown: bytes)

  /** &Command{} */
  const NEW := Pooled(None, 0, None, None, [], 0, None, None, false, [], 0, false, [])

  /** How much more than needed append allocates; Go leaves it open. */
  const SPARE: nat -> nat

  // ---------- UnmarshalVT ----------

  /** The message after the records that were read and assigned. */
  function StateAfter<M>(apply: (M, Record) -> Result<M, DecodeError>, t: MsgType, m: M, b: bytes, pos: nat): M
    requires pos + |b| <= MAX_INT
    decreases |b|
  {
    if b == [] then m
    else match ReadRecord(t, b, pos)
      case Err(_) => m
      case Ok((r, n)) =>
        match apply(m, r)
        case Err(_) => m
        case Ok(m') => StateAfter(apply, t, m', b[n..], pos + n)
  }

  function KeyValueAfter(m: KeyValue, b: bytes): KeyValue {
    if |b| > MAX_INT then m else StateAfter(ApplyKeyValue, TKeyValue, m, b, 0)
  }

  function TxnAfter(m: Txn, b: bytes): Txn {
    if |b| > MAX_INT then m else StateAfter(ApplyTxn, TTxn, m, b, 0)
  }

  /** What a decode leaves in the message, and the error it ended with. */
  datatype Outcome = Outcome(m: Pooled, err: Option<DecodeError>)

  function ErrorOf<M>(r: Result<M, DecodeError>): Option<DecodeError> {
    match r case Ok(_) => None case Err(e) => Some(e)
  }

  /** Batch with room for one more: a hidden element, or a new one. */
  function ShowBatch(m: Pooled): Pooled
    requires m.batchLen <= |m.batch|
  {
    var grown := if m.batchLen == |m.batch| then m.batch + [None] + seq(SPARE(m.batchLen), _ => None) else m.batch;
    m.(batch := grown[m.batchLen := Some(OrElse(grown[m.batchLen], KEY_VALUE))], batchLen := m.batchLen + 1)
  }

  /** Sequence likewise. */
  function ShowSequence(m: Pooled): Pooled
    requires m.seqLen <= |m.sequence|
  {
    var grown := if m.seqLen == |m.sequence| then m.sequence + [None] + seq(SPARE(m.seqLen), _ => None) else m.sequence;
    m.(sequence := grown[m.seqLen := Some(OrElse(grown[m.seqLen], NEW))], seqLen := m.seqLen + 1)
  }

  function ApplyPooled(m: Pooled, r: Record): Outcome
    requires m.batchLen <= |m.batch| && m.seqLen <= |m.sequence|
    decreases RecordSize(r), 2
  {
    match r
    case Payload(1, p) => Outcome(m.(table := Some(p)), None)
    case Number(2, v) => Outcome(m.(typ := Int32(v)), None)
    case Payload(3, p) =>
      var target := OrElse(m.kv, KEY_VALUE);
      Outcome(m.(kv := Some(KeyValueAfter(target, p))), ErrorOf(UnmarshalKeyValue(target, p)))
    case Number(5, v) => Outcome(m.(leaderIndex := Some(v)), None)
    case Payload(6, p) =>
      var m1 := ShowBatch(m);
      var last := m1.batch[m.batchLen].value;
      Outcome(m1.(batch := m1.batch[m.batchLen := Some(KeyValueAfter(last, p))]), ErrorOf(UnmarshalKeyValue(last, p)))
    case Payload(7, p) =>
      var target := OrElse(m.txn, TXN);
      Outcome(m.(txn := Some(TxnAfter(target, p))), ErrorOf(UnmarshalTxn(target, p)))
    case Payload(8, p) => Outcome(m.(rangeEnd := Some(p)), None)
    case Number(9, v) => Outcome(m.(prevKvs := v != 0), None)
    case Payload(10, p) =>
      var m1 := ShowSequence(m);
      var o := UnmarshalPooled(m1.sequence[m.seqLen].value, p);
      Outcome(m1.(sequence := m1.sequence[m.seqLen := Some(o.m)]), o.err)
    case Number(11, v) => Outcome(m.(count := v != 0), None)
    case Unknown(raw) => Outcome(m.(unknown := m.unknown + raw), None)
    case _ => Outcome(m, None)
  }

  // A message whose lengths exceed its arrays does not exist; it is returned as is.
  function DecodePooled(m: Pooled, b: bytes, pos: nat): Outcome
    requires pos + |b| <= MAX_INT
    decreases |b|, 0
  {
    if b == [] || m.batchLen > |m.batch| || m.seqLen > |m.sequence| then Outcome(m, None)
    else match ReadRecord(TCommand, b, pos)
      case Err(e) => Outcome(m, Some(e))
      case Ok((r, n)) =>
        var o := ApplyPooled(m, r);
        if o.err.Some? then o else DecodePooled(o.m, b[n..], pos + n)
  }

  function UnmarshalPooled(m: Pooled, b: bytes): Outcome
    decreases |b|, 1
  {
    if |b| > MAX_INT then Outcome(m, Some(InvalidLength)) else DecodePooled(m, b, 0)
  }

  // ---------- ResetVT ----------

  /** s[:0] */
  function Emptied(p: Option<bytes>): Option<bytes> {
    if p.Some? then Some([]) else None
  }

  /** mm.Reset() on each visible key-value. (A nil one would panic; see Inv.) */
  function ResetKeyValues(s: seq<Option<KeyValue>>, len: nat): seq<Option<KeyValue>> {
    if s == [] || len == 0 then s
    else [if s[0].Some? then Some(KEY_VALUE) else None] + ResetKeyValues(s[1..], len - 1)
  }

  function ResetVT(m: Pooled): Pooled {
    NEW.(table := Emptied(m.table), batch := ResetKeyValues(m.batch, m.batchLen),
         rangeEnd := Emptied(m.rangeEnd), sequence := ResetCommands(m.sequence, m.seqLen))
  }

  /** mm.ResetVT() on each visible command. */
  function ResetCommands(s: seq<Option<Pooled>>, len: nat): seq<Option<Pooled>>
    decreases s
  {
    if s == [] || len == 0 then s
    else [ResetElement(s[0])] + ResetCommands(s[1..], len - 1)
  }

  function ResetElement(m: Option<Pooled>): Option<Pooled> {
    if m.Some? then Some(ResetVT(m.value)) else None
  }

  // ---------- the hidden elements ----------

  predicate KeyValuesOk(s: seq<Option<KeyValue>>, len: nat) {
    && len <= |s|
    && (forall i :: 0 <= i < len ==> s[i].Some?)
    && (forall i :: len <= i < |s| ==> s[i].None? || s[i] == Some(KEY_VALUE))
  }

  /** Visible elements are not nil; hidden ones are nil or reset; and so inside. */
  predicate Inv(m: Pooled) {
    KeyValuesOk(m.batch, m.batchLen) && m.seqLen <= |m.sequence| && SequenceOk(m.sequence, m.seqLen)
  }

  predicate SequenceOk(s: seq<Option<Pooled>>, len: nat)
    decreases s
  {
    s == [] ||
    (if len > 0 then VisibleOk(s[0]) && SequenceOk(s[1..], len - 1)
     else HiddenOk(s[0]) && SequenceOk(s[1..], 0))
  }

  predicate VisibleOk(m: Option<Pooled>) { m.Some? && Inv(m.value) }

  predicate HiddenOk(m: Option<Pooled>) { m.Some? ==> Inv(m.value) && LooksReset(m.value) }

  /** The zero value but for empty slices and spare capacity. */
  predicate LooksReset(m: Pooled) {
    m == NEW.(table := m.table, batch := m.batch, rangeEnd := m.rangeEnd, sequence := m.sequence)
    && m.table in {None, Some([])} && m.rangeEnd in {None, Some([])}
  }

  // ---------- what shows ----------

  function View(m: Pooled): Command {
    Command(m.table, m.typ, m.kv, m.leaderIndex, Shown(m.batch, m.batchLen), m.txn, m.rangeEnd,
      m.prevKvs, ViewCommands(m.sequence, m.seqLen), m.count, m.unknown)
  }

  /** s[:len] */
  function Shown<T>(s: seq<T>, len: nat): seq<T> { if len <= |s| then s[..len] else s }

  function ViewCommands(s: seq<Option<Pooled>>, len: nat): seq<Option<Command>>
    decreases s
  {
    if s == [] || len == 0 then [] else [ViewElement(s[0])] + ViewCommands(s[1..], len - 1)
  }

  function ViewElement(m: Option<Pooled>): Option<Command> {
    if m.Some? then Some(View(m.value)) else None
  }

  /** A command up to nil versus empty in the two slices ResetVT keeps. */
  function Erase(m: Command): Command {
    m.(table := Soft(m.table), rangeEnd := Soft(m.rangeEnd), sequence := EraseAll(m.sequence))
  }

  function Soft(p: Option<bytes>): Option<bytes> { if p == Some([]) then None else p }

  function EraseAll(s: seq<Option<Command>>): seq<Option<Command>> {
    if s == [] then [] else [EraseElement(s[0])] + EraseAll(s[1..])
  }

  function EraseElement(m: Option<Command>): Option<Command> {
    if m.Some? then Some(Erase(m.value)) else None
  }

  // ---------- ResetVT hides only reset elements ----------

  lemma {:induction false} ResetKeyValuesAt(s: seq<Option<KeyValue>>, len: nat)
    requires len <= |s|
    ensures |ResetKeyValues(s, len)| == |s|
    ensures forall i :: 0 <= i < |s| ==>
      ResetKeyValues(s, len)[i] == if i < len && s[i].Some? then Some(KEY_VALUE) else s[i]
    decreases |s|
  {
    if s != [] && len > 0 { ResetKeyValuesAt(s[1..], len - 1); }
  }

  lemma {:induction false} ResetCommandsHides(s: seq<Option<Pooled>>, len: nat)
    requires len <= |s| && SequenceOk(s, len)
    ensures SequenceOk(ResetCommands(s, len), 0)
    decreases s
  {
    hide VisibleOk, HiddenOk, ResetElement;
    if s != [] && len > 0 {
      ResetElementHides(s[0]);
      ResetCommandsHides(s[1..], len - 1);
      assert ResetCommands(s, len)[1..] == ResetCommands(s[1..], len - 1);
    }
  }

  lemma {:induction false} ResetElementHides(m: Option<Pooled>)
    requires VisibleOk(m)
    ensures HiddenOk(ResetElement(m))
    decreases m
  {
    ResetGivesReset(m.value);
  }

  // Main result: what ResetVT leaves is the zero value but for empty slices,
  // and everything it hides is nil or reset in turn.
  lemma {:induction false} ResetGivesReset(m: Pooled)
    requires Inv(m)
    ensures Inv(ResetVT(m)) && LooksReset(ResetVT(m))
    decreases m
  {
    hide SequenceOk, ResetCommands, ResetKeyValues;
    ResetKeyValuesAt(m.batch, m.batchLen);
    ResetCommandsHides(m.sequence, m.seqLen);
  }

  lemma {:induction false} ResetCommandsAt(s: seq<Option<Pooled>>, len: nat)
    requires len <= |s|
    ensures |ResetCommands(s, len)| == |s|
    ensures forall i :: 0 <= i < |s| ==>
      ResetCommands(s, len)[i] == if i < len && s[i].Some? then Some(ResetVT(s[i].value)) else s[i]
    decreases |s|
  {
    hide ResetVT;
    if s != [] && len > 0 { ResetCommandsAt(s[1..], len - 1); }
  }

  // Main result: what ResetVT is for. The slices that were there stay, emptied, and
  // both backing arrays stay with every element in its place, the visible ones reset.
  lemma {:induction false} ResetKeepsArrays(m: Pooled)
    requires Inv(m)
    ensures var r := ResetVT(m);
            && r.table == (if m.table.Some? then Some([]) else None) && r.rangeEnd == (if m.rangeEnd.Some? then Some([]) else None)
            && r.batchLen == 0 && |r.batch| == |m.batch| && r.seqLen == 0 && |r.sequence| == |m.sequence|
            && (forall i :: 0 <= i < |m.batch| ==>
                 r.batch[i] == if i < m.batchLen then Some(KeyValue(None, 0, 0, None, [])) else m.batch[i])
            && (forall i :: 0 <= i < |m.sequence| ==>
                 r.sequence[i] == if i < m.seqLen && m.sequence[i].Some? then Some(ResetVT(m.sequence[i].value)) else m.sequence[i])
  {
    hide ResetKeyValues, ResetCommands, SequenceOk;
    ResetKeyValuesAt(m.batch, m.batchLen);
    ResetCommandsAt(m.sequence, m.seqLen);
  }

  lemma {:induction false} ResetLooksNew(m: Pooled)
    requires LooksReset(m)
    ensures Erase(View(m)) == COMMAND
  {
    assert ViewCommands(m.sequence, 0) == [];
    assert EraseAll([]) == [];
  }

  // ---------- taking up a hidden element ----------

  lemma {:induction false} ShowElement(s: seq<Option<Pooled>>, len: nat, x: Pooled)
    requires len < |s| && SequenceOk(s, len)
    ensures HiddenOk(s[len])
    ensures Inv(x) ==> SequenceOk(s[len := Some(x)], len + 1)
    ensures ViewCommands(s[len := Some(x)], len + 1) == ViewCommands(s, len) + [Some(View(x))]
    decreases |s|
  {
    hide VisibleOk, HiddenOk, View, Inv;
    var s' := s[len := Some(x)];
    if len == 0 {
      assert s'[1..] == s[1..];
      assert Inv(x) ==> VisibleOk(Some(x)) by { InvShows(x); }
      assert ViewElement(Some(x)) == Some(View(x));
    } else {
      assert s'[1..] == s[1..][len - 1 := Some(x)];
      ShowElement(s[1..], len - 1, x);
      assert ViewCommands(s', len + 1) == [ViewElement(s[0])] + ViewCommands(s'[1..], len);
    }
  }

  lemma {:induction false} InvShows(x: Pooled)
    ensures Inv(x) ==> VisibleOk(Some(x))
  {
  }

  lemma {:induction false} Grow(s: seq<Option<Pooled>>, len: nat, more: seq<Option<Pooled>>)
    requires len <= |s| && SequenceOk(s, len) && (forall e <- more :: e.None?)
    ensures SequenceOk(s + more, len) && ViewCommands(s + more, len) == ViewCommands(s, len)
    decreases |s| + |more|
  {
    hide VisibleOk, View;
    if s == [] {
      assert s + more == more;
      AllNil(more);
    } else {
      assert (s + more)[1..] == s[1..] + more;
      Grow(s[1..], if len > 0 then len - 1 else 0, more);
    }
  }

  lemma {:induction false} AllNil(s: seq<Option<Pooled>>)
    requires forall e <- s :: e.None?
    ensures SequenceOk(s, 0)
    decreases |s|
  {
    if s != [] {
      assert s[0] in s && s[0].None?;
      AllNil(s[1..]);
    }
  }

  lemma {:induction false} EraseAllAppend(s: seq<Option<Command>>, e: Option<Command>)
    ensures EraseAll(s + [e]) == EraseAll(s) + [EraseElement(e)]
    decreases |s|
  {
    hide EraseElement;
    if s == [] {
      assert ([] + [e])[1..] == [];
    } else {
      assert (s + [e])[1..] == s[1..] + [e];
      EraseAllAppend(s[1..], e);
    }
  }

  lemma {:induction false} StateAfterIsResult<M>(apply: (M, Record) -> Result<M, DecodeError>, t: MsgType, m: M, b: bytes, pos: nat)
    requires pos + |b| <= MAX_INT
    ensures Decode(apply, t, m, b, pos).Ok? ==> StateAfter(apply, t, m, b, pos) == Decode(apply, t, m, b, pos).value
    decreases |b|
  {
    hide ReadRecord;
    if b != [] && ReadRecord(t, b, pos).Ok? {
      var (r, n) := ReadRecord(t, b, pos).value;
      if apply(m, r).Ok? { StateAfterIsResult(apply, t, apply(m, r).value, b[n..], pos + n); }
    }
  }

  /** A prefix gives the state, and the record after it, if there is one, is what
      the whole decode is refused for. */
  ghost predicate StopsBefore<M>(apply: (M, Record) -> Result<M, DecodeError>, prefix: Result<M, DecodeError>, state: M,
                                 whole: Result<M, DecodeError>, next: Option<Result<(Record, nat), DecodeError>>) {
    prefix == Ok(state) &&
    match next
    case None => whole == Ok(state)
    case Some(Err(e)) => whole == Err(e)
    case Some(Ok((r, _))) => apply(state, r).Err? && whole == Err(apply(state, r).error)
  }

  ghost predicate StopsAt<M>(apply: (M, Record) -> Result<M, DecodeError>, t: MsgType, m: M, b: bytes, pos: nat, k: nat)
    requires pos + |b| <= MAX_INT
  {
    k <= |b| &&
    StopsBefore(apply, Decode(apply, t, m, b[..k], pos), StateAfter(apply, t, m, b, pos), Decode(apply, t, m, b, pos),
                if k == |b| then None else Some(ReadRecord(t, b[k..], pos + k)))
  }

  // A decode that fails leaves exactly the records before the failing one assigned.
  lemma {:induction false} AssignedUpTo<M>(apply: (M, Record) -> Result<M, DecodeError>, t: MsgType, m: M, b: bytes, pos: nat) returns (k: nat)
    requires pos + |b| <= MAX_INT
    ensures StopsAt(apply, t, m, b, pos, k)
    decreases |b|
  {
    hide ReadRecord, StopsAt;
    k := 0;
    if b != [] && ReadRecord(t, b, pos).Ok? && apply(m, ReadRecord(t, b, pos).value.0).Ok? {
      var (r, n) := ReadRecord(t, b, pos).value;
      var k' := AssignedUpTo(apply, t, apply(m, r).value, b[n..], pos + n);
      k := n + k';
      StopsLater(apply, t, m, b, pos, k');
    } else {
      StopsAtOnce(apply, t, m, b, pos);
    }
  }

  lemma StopsAtOnce<M>(apply: (M, Record) -> Result<M, DecodeError>, t: MsgType, m: M, b: bytes, pos: nat)
    requires pos + |b| <= MAX_INT
    requires b == [] || ReadRecord(t, b, pos).Err? || apply(m, ReadRecord(t, b, pos).value.0).Err?
    ensures StopsAt(apply, t, m, b, pos, 0)
  {
    hide ReadRecord;
    assert b[0..] == b && b[..0] == [];
  }

  lemma StopsLater<M>(apply: (M, Record) -> Result<M, DecodeError>, t: MsgType, m: M, b: bytes, pos: nat, k: nat)
    requires pos + |b| <= MAX_INT && b != [] && ReadRecord(t, b, pos).Ok? && apply(m, ReadRecord(t, b, pos).value.0).Ok?
    requires var (r, n) := ReadRecord(t, b, pos).value; StopsAt(apply, t, apply(m, r).value, b[n..], pos + n, k)
    ensures StopsAt(apply, t, m, b, pos, ReadRecord(t, b, pos).value.1 + k)
  {
    hide ReadRecord, Decode, StateAfter, StopsBefore;
    var (r, n) := ReadRecord(t, b, pos).value;
    DecodeTurn(apply, t, m, b, pos);
    FirstRecord(apply, t, m, b, n, n + k, pos);
    DropDrop(b, n, k);
    assert pos + n + k == pos + (n + k) && n + k - n == k;
    assert (if k == |b[n..]| then None else Some(ReadRecord(t, b[n..][k..], pos + n + k)))
        == if n + k == |b| then None else Some(ReadRecord(t, b[n + k..], pos + (n + k)));
  }

  lemma DropDrop(b: bytes, n: nat, k: nat)
    requires n + k <= |b|
    ensures b[n..][k..] == b[n + k..]
  {
  }

  lemma {:induction false} DecodeTurn<M>(apply: (M, Record) -> Result<M, DecodeError>, t: MsgType, m: M, b: bytes, pos: nat)
    requires pos + |b| <= MAX_INT && b != [] && ReadRecord(t, b, pos).Ok? && apply(m, ReadRecord(t, b, pos).value.0).Ok?
    ensures var (r, n) := ReadRecord(t, b, pos).value;
            && Decode(apply, t, m, b, pos) == Decode(apply, t, apply(m, r).value, b[n..], pos + n)
            && StateAfter(apply, t, m, b, pos) == StateAfter(apply, t, apply(m, r).value, b[n..], pos + n)
  {
    hide ReadRecord;
  }

  // Decoding a part of b that holds its first record starts with that record.
  lemma {:induction false} FirstRecord<M>(apply: (M, Record) -> Result<M, DecodeError>, t: MsgType, m: M, b: bytes, n: nat, k: nat, pos: nat)
    requires pos + |b| <= MAX_INT && b != [] && ReadRecord(t, b, pos).Ok? && ReadRecord(t, b, pos).value.1 == n <= k <= |b|
    requires apply(m, ReadRecord(t, b, pos).value.0).Ok?
    ensures Decode(apply, t, m, b[..k], pos) == Decode(apply, t, apply(m, ReadRecord(t, b, pos).value.0).value, b[n..][..k - n], pos + n)
  {
    hide ReadRecord;
    var c := b[..k];
    assert c[..n] == b[..n] && c[n..] == b[n..][..k - n];
    ReadRecordLocal(t, b, c, pos, pos);
  }

  lemma LeafStates(kv: KeyValue, txn: Txn, b: bytes)
    ensures UnmarshalKeyValue(kv, b).Ok? ==> KeyValueAfter(kv, b) == UnmarshalKeyValue(kv, b).value
    ensures UnmarshalTxn(txn, b).Ok? ==> TxnAfter(txn, b) == UnmarshalTxn(txn, b).value
  {
    hide Decode, StateAfter;
    if |b| <= MAX_INT {
      StateAfterIsResult(ApplyKeyValue, TKeyValue, kv, b, 0);
      StateAfterIsResult(ApplyTxn, TTxn, txn, b, 0);
    }
  }

  // ---------- a reused command decodes like a fresh one ----------

  ghost predicate Agrees(o: Outcome, f: Result<Command, DecodeError>) {
    && Inv(o.m)
    && o.err == ErrorOf(f)
    && (f.Ok? ==> Erase(View(o.m)) == Erase(f.value))
  }

  lemma {:induction false} ApplyBatchAgrees(m: Pooled, c: Command, p: bytes)
    requires Inv(m) && Erase(View(m)) == Erase(c)
    ensures Agrees(ApplyPooled(m, Payload(6, p)), ApplyCommand(c, Payload(6, p)))
  {
    hide SequenceOk, ViewCommands, EraseAll, UnmarshalKeyValue, KeyValueAfter;
    var m1 := ShowBatch(m);
    assert m1.batch[m.batchLen] == Some(KEY_VALUE);
    LeafStates(KEY_VALUE, TXN, p);
    var x := KeyValueAfter(KEY_VALUE, p);
    var o := ApplyPooled(m, Payload(6, p));
    assert o.m.batch[..m.batchLen + 1] == m.batch[..m.batchLen] + [Some(x)];
    assert View(o.m) == View(m).(batch := View(m).batch + [Some(x)]);
  }

  lemma {:induction false} ApplySequenceAgrees(m: Pooled, c: Command, p: bytes)
    requires Inv(m) && Erase(View(m)) == Erase(c)
    ensures Agrees(ApplyPooled(m, Payload(10, p)), ApplyCommand(c, Payload(10, p)))
    decreases |p|, 2
  {
    hide SequenceOk, ViewCommands, UnmarshalPooled, UnmarshalCommand, LooksReset, EraseAll;
    var m1 := ShowSequence(m);
    var grown := if m.seqLen == |m.sequence| then m.sequence + [None] + seq(SPARE(m.seqLen), _ => None) else m.sequence;
    if m.seqLen == |m.sequence| {
      var more: seq<Option<Pooled>> := [None] + seq(SPARE(m.seqLen), _ => None);
      assert grown == m.sequence + more;
      Grow(m.sequence, m.seqLen, more);
    }
    var x := m1.sequence[m.seqLen].value;
    var o := UnmarshalPooled(x, p);
    ShowElement(grown, m.seqLen, o.m);
    assert x == OrElse(grown[m.seqLen], NEW);
    NewIsReset();
    UnmarshalResetAgrees(x, p);
    var r := ApplyPooled(m, Payload(10, p));
    assert r.m.sequence == grown[m.seqLen := Some(o.m)];
    assert Inv(r.m);
    var f := UnmarshalCommand(COMMAND, p);
    if f.Ok? {
      EraseAllAppend(View(m).sequence, Some(View(o.m)));
      EraseAllAppend(c.sequence, Some(f.value));
      assert View(r.m) == View(m).(sequence := View(m).sequence + [Some(View(o.m))]);
    }
  }

  lemma NewIsReset()
    ensures Inv(NEW) && LooksReset(NEW)
  {
  }

  lemma {:induction false} ApplyAgrees(m: Pooled, c: Command, r: Record)
    requires Inv(m) && Erase(View(m)) == Erase(c)
    ensures Agrees(ApplyPooled(m, r), ApplyCommand(c, r))
    decreases RecordSize(r), 3
  {
    hide SequenceOk, ViewCommands, EraseAll, KeyValuesOk, ShowBatch, ShowSequence, Shown, Int32, UnmarshalPooled, UnmarshalCommand;
    hide UnmarshalKeyValue, UnmarshalTxn, KeyValueAfter, TxnAfter;
    assert m.batchLen <= |m.batch| by { BatchFits(m); }
    match r {
      case Payload(3, p) => LeafStates(OrElse(m.kv, KEY_VALUE), TXN, p);
      case Payload(6, p) => ApplyBatchAgrees(m, c, p);
      case Payload(7, p) => LeafStates(KEY_VALUE, OrElse(m.txn, TXN), p);
      case Payload(10, p) => ApplySequenceAgrees(m, c, p);
      case _ => ApplyScalarAgrees(m, c, r);
    }
  }

  lemma {:induction false} BatchFits(m: Pooled)
    requires Inv(m)
    ensures m.batchLen <= |m.batch| && m.seqLen <= |m.sequence|
  {
  }

  lemma {:induction false} ApplyScalarAgrees(m: Pooled, c: Command, r: Record)
    requires Inv(m) && Erase(View(m)) == Erase(c)
    requires r.Payload? ==> r.field !in {3, 6, 7, 10}
    ensures Agrees(ApplyPooled(m, r), ApplyCommand(c, r))
  {
    hide Inv, View, Erase, ApplyPooled, ApplyCommand;
    BatchFits(m);
    ScalarShows(m, r);
    ScalarErases(View(m), c, r);
  }

  lemma {:induction false} ScalarShows(m: Pooled, r: Record)
    requires Inv(m)
    requires r.Payload? ==> r.field !in {3, 6, 7, 10}
    ensures m.batchLen <= |m.batch| && Inv(ApplyPooled(m, r).m) && ApplyPooled(m, r).err.None?
    ensures ApplyCommand(View(m), r) == Ok(View(ApplyPooled(m, r).m))
  {
    hide SequenceOk, ViewCommands, KeyValuesOk, ShowBatch, ShowSequence, Shown, Int32, UnmarshalPooled, UnmarshalCommand;
    BatchFits(m);
    match r
    case Payload(1, p) =>
    case Payload(8, p) =>
    case Payload(f, p) =>
    case Number(2, v) =>
    case Number(5, v) =>
    case Number(9, v) =>
    case Number(11, v) =>
    case Number(f, v) =>
    case Unknown(raw) =>
  }

  lemma {:induction false} ScalarErases(c: Command, d: Command, r: Record)
    requires Erase(c) == Erase(d)
    requires r.Payload? ==> r.field !in {3, 6, 7, 10}
    ensures ApplyCommand(c, r).Ok? && ApplyCommand(d, r).Ok?
    ensures Erase(ApplyCommand(c, r).value) == Erase(ApplyCommand(d, r).value)
  {
    hide EraseAll, Int32, Soft;
    assert c == d.(table := c.table, rangeEnd := c.rangeEnd, sequence := c.sequence) by { EraseKeeps(c, d); }
    match r
    case Payload(1, p) =>
    case Payload(8, p) =>
    case Payload(f, p) =>
    case Number(2, v) =>
    case Number(5, v) =>
    case Number(9, v) =>
    case Number(11, v) =>
    case Number(f, v) =>
    case Unknown(raw) =>
  }

  lemma {:induction false} EraseKeeps(c: Command, d: Command)
    requires Erase(c) == Erase(d)
    ensures c == d.(table := c.table, rangeEnd := c.rangeEnd, sequence := c.sequence)
  {
    var e := Erase(c);
    assert c == e.(table := c.table, rangeEnd := c.rangeEnd, sequence := c.sequence);
    assert d == e.(table := d.table, rangeEnd := d.rangeEnd, sequence := d.sequence);
  }

  lemma {:induction false} DecodeAgrees(m: Pooled, c: Command, b: bytes, pos: nat)
    requires pos + |b| <= MAX_INT
    requires Inv(m) && Erase(View(m)) == Erase(c)
    ensures Agrees(DecodePooled(m, b, pos), DecodeCommand(c, b, pos))
    decreases |b|, 0
  {
    hide ReadRecord, ApplyPooled, ApplyCommand, Erase, View, SequenceOk;
    if b != [] && ReadRecord(TCommand, b, pos).Ok? {
      var (r, n) := ReadRecord(TCommand, b, pos).value;
      ApplyAgrees(m, c, r);
      if ApplyCommand(c, r).Ok? {
        DecodeAgrees(ApplyPooled(m, r).m, ApplyCommand(c, r).value, b[n..], pos + n);
      }
    }
  }

  // Main result: decoding into a reset Command, with whatever spare capacity,
  // fails or succeeds as decoding into a fresh one does, with the same contents
  // up to nil versus empty of table and range end; and it keeps the invariant.
  lemma {:induction false} UnmarshalResetAgrees(m: Pooled, b: bytes)
    requires Inv(m) && LooksReset(m)
    ensures Agrees(UnmarshalPooled(m, b), UnmarshalCommand(COMMAND, b))
    decreases |b|, 1
  {
    hide Inv, Erase, View, LooksReset, DecodePooled, DecodeCommand;
    ResetLooksNew(m);
    assert Erase(COMMAND) == COMMAND by { EraseFresh(); }
    if |b| <= MAX_INT { DecodeAgrees(m, COMMAND, b, 0); }
  }

  lemma EraseFresh()
    ensures Erase(COMMAND) == COMMAND
  {
  }

  // A nested message stays in its place with what was assigned of it, whether its
  // decode failed or not.
  lemma {:induction false} PartsStay(m: Pooled, p: bytes)
    requires Inv(m)
    ensures m.batchLen <= |m.batch| && m.seqLen <= |m.sequence|
    ensures View(ApplyPooled(m, Payload(3, p)).m) == View(m).(kv := Some(KeyValueAfter(OrElse(m.kv, KeyValue(None, 0, 0, None, [])), p)))
    ensures View(ApplyPooled(m, Payload(6, p)).m) == View(m).(batch := View(m).batch + [Some(KeyValueAfter(KeyValue(None, 0, 0, None, []), p))])
    ensures View(ApplyPooled(m, Payload(7, p)).m) == View(m).(txn := Some(TxnAfter(OrElse(m.txn, Txn([], [], [], [])), p)))
    ensures View(ApplyPooled(m, Payload(10, p)).m) ==
            View(m).(sequence := View(m).sequence + [Some(View(UnmarshalPooled(HiddenAt(m.sequence, m.seqLen), p).m))])
  {
    BatchFits(m);
    ElementShows(m, p);
    MessageStays(m, p);
    BatchElementStays(m, p);
    hide *;
  }

  lemma {:induction false} MessageStays(m: Pooled, p: bytes)
    requires m.batchLen <= |m.batch| && m.seqLen <= |m.sequence|
    ensures View(ApplyPooled(m, Payload(3, p)).m) == View(m).(kv := Some(KeyValueAfter(OrElse(m.kv, KEY_VALUE), p)))
    ensures View(ApplyPooled(m, Payload(7, p)).m) == View(m).(txn := Some(TxnAfter(OrElse(m.txn, TXN), p)))
  {
    hide SequenceOk, ViewCommands, KeyValueAfter, TxnAfter, UnmarshalPooled, UnmarshalKeyValue, UnmarshalTxn, ShowSequence, ShowBatch;
  }

  lemma {:induction false} BatchElementStays(m: Pooled, p: bytes)
    requires Inv(m)
    ensures m.batchLen <= |m.batch| && m.seqLen <= |m.sequence|
    ensures View(ApplyPooled(m, Payload(6, p)).m) == View(m).(batch := View(m).batch + [Some(KeyValueAfter(KEY_VALUE, p))])
  {
    hide SequenceOk, ViewCommands, KeyValueAfter, TxnAfter, UnmarshalPooled, UnmarshalKeyValue, UnmarshalTxn, ShowSequence;
    assert ShowBatch(m).batch[m.batchLen] == Some(KEY_VALUE);
    assert ApplyPooled(m, Payload(6, p)).m.batch[..m.batchLen + 1] == m.batch[..m.batchLen] + [Some(KeyValueAfter(KEY_VALUE, p))];
  }

  // ---------- over any history ----------

  datatype Event = Unmarshals(b: bytes) | Resets

  /** A Command used again and again, decodes that failed half-way included. */
  function Run(m: Pooled, es: seq<Event>): Pooled
    decreases |es|
  {
    if es == [] then m
    else Run(match es[0] case Unmarshals(b) => UnmarshalPooled(m, b).m case Resets => ResetVT(m), es[1..])
  }

  lemma {:induction false} RunKeepsInv(m: Pooled, es: seq<Event>)
    requires Inv(m)
    ensures Inv(Run(m, es))
    decreases |es|
  {
    hide Inv, UnmarshalPooled, ResetVT;
    if es != [] {
      match es[0] {
        case Unmarshals(b) => UnmarshalKeepsInv(m, b);
        case Resets => ResetGivesReset(m);
      }
      RunKeepsInv(match es[0] case Unmarshals(b) => UnmarshalPooled(m, b).m case Resets => ResetVT(m), es[1..]);
    }
  }

  lemma {:induction false} UnmarshalKeepsInv(m: Pooled, b: bytes)
    requires Inv(m)
    ensures Inv(UnmarshalPooled(m, b).m)
  {
    hide Inv, Erase, View, DecodePooled, DecodeCommand;
    if |b| <= MAX_INT { DecodeAgrees(m, View(m), b, 0); }
  }

  // Main result: after any history of decodes and resets, a Command taken from
  // the pool decodes like a fresh one.
  lemma {:induction false} PooledDecodesLikeFresh(es: seq<Event>, b: bytes)
    ensures Agrees(UnmarshalPooled(ResetVT(Run(NEW, es)), b), UnmarshalCommand(COMMAND, b))
  {
    hide Inv, ResetVT, LooksReset, UnmarshalPooled, UnmarshalCommand, Run;
    NewIsReset();
    RunKeepsInv(NEW, es);
    ResetGivesReset(Run(NEW, es));
    UnmarshalResetAgrees(ResetVT(Run(NEW, es)), b);
  }

  // ---------- exactly what a reused command shows ----------

  /** A slice the input sets, or else what ResetVT left. */
  function Either(y: Option<bytes>, left: Option<bytes>): Option<bytes> { if y.Some? then y else left }

  /** The element taken up as the i-th of Sequence; a nil one is replaced. */
  function HiddenAt(s: seq<Option<Pooled>>, i: nat): Pooled { if i < |s| then OrElse(s[i], NEW) else NEW }

  /** A freshly decoded y with the empty slices that the reset m and its hidden
      elements leave in it. */
  function Over(m: Pooled, y: Command): Command
    decreases y
  {
    y.(table := Either(y.table, m.table), rangeEnd := Either(y.rangeEnd, m.rangeEnd), sequence := OverAll(m.sequence, y.sequence))
  }

  function OverAll(s: seq<Option<Pooled>>, ys: seq<Option<Command>>): seq<Option<Command>>
    decreases ys
  {
    if ys == [] then []
    else [OverElement(HiddenAt(s, 0), ys[0])] + OverAll(if s == [] then [] else s[1..], ys[1..])
  }

  function OverElement(h: Pooled, y: Option<Command>): Option<Command>
    decreases y
  {
    if y.Some? then Some(Over(h, y.value)) else None
  }

  lemma {:induction false} OverAllAppend(s: seq<Option<Pooled>>, ys: seq<Option<Command>>, y: Option<Command>)
    ensures OverAll(s, ys + [y]) == OverAll(s, ys) + [OverElement(HiddenAt(s, |ys|), y)]
    decreases |ys|
  {
    hide OverElement;
    if ys == [] {
      assert ([] + [y])[1..] == [] && ([] + [y])[0] == y;
    } else {
      var rest := if s == [] then [] else s[1..];
      assert (ys + [y])[1..] == ys[1..] + [y] && (ys + [y])[0] == ys[0];
      OverAllAppend(rest, ys[1..], y);
      assert HiddenAt(rest, |ys| - 1) == HiddenAt(s, |ys|);
    }
  }

  /** m0 is what the decode started with, m what it has become, c the fresh twin of m. */
  ghost predicate LeftOver(m0: Pooled, m: Pooled, c: Command) {
    && Inv(m) && Erase(View(m)) == Erase(c)
    && m.seqLen == |c.sequence| && View(m) == Over(m0, c)
    && (forall i: nat :: i >= m.seqLen ==> HiddenAt(m.sequence, i) == HiddenAt(m0.sequence, i))
  }

  // Every record but an element of Sequence does to a pooled command what it
  // does to the command that shows.
  lemma {:induction false} RecordShows(m: Pooled, r: Record)
    requires Inv(m) && !(r.Payload? && r.field == 10)
    ensures m.batchLen <= |m.batch| && m.seqLen <= |m.sequence|
    ensures ApplyCommand(View(m), r).Ok? ==> ApplyCommand(View(m), r) == Ok(View(ApplyPooled(m, r).m))
    ensures ApplyPooled(m, r).m.sequence == m.sequence && ApplyPooled(m, r).m.seqLen == m.seqLen
  {
    hide SequenceOk, ViewCommands, UnmarshalKeyValue, UnmarshalTxn, KeyValueAfter, TxnAfter, UnmarshalPooled, UnmarshalCommand, Int32;
    BatchFits(m);
    match r
    case Payload(3, p) => LeafStates(OrElse(m.kv, KEY_VALUE), TXN, p);
    case Payload(6, p) =>
      LeafStates(KEY_VALUE, TXN, p);
      assert ShowBatch(m).batch[m.batchLen] == Some(KEY_VALUE);
      assert ApplyPooled(m, r).m.batch[..m.batchLen + 1] == m.batch[..m.batchLen] + [Some(KeyValueAfter(KEY_VALUE, p))];
    case Payload(7, p) => LeafStates(KEY_VALUE, OrElse(m.txn, TXN), p);
    case _ => RestShows(m, r);
  }

  lemma {:induction false} RestShows(m: Pooled, r: Record)
    requires Inv(m) && (r.Payload? ==> r.field !in {3, 6, 7, 10})
    ensures m.batchLen <= |m.batch| && m.seqLen <= |m.sequence|
    ensures ApplyCommand(View(m), r) == Ok(View(ApplyPooled(m, r).m))
    ensures ApplyPooled(m, r).m.sequence == m.sequence && ApplyPooled(m, r).m.seqLen == m.seqLen
  {
    hide Inv, View, ApplyCommand, UnmarshalPooled, ShowBatch, ShowSequence;
    BatchFits(m);
    ScalarShows(m, r);
    match r
    case Payload(1, p) =>
    case Payload(8, p) =>
    case Payload(f, p) =>
    case Number(f, v) =>
    case Unknown(raw) =>
  }

  // It commutes with the leftovers.
  lemma {:induction false} OverApply(m: Pooled, c: Command, r: Record)
    requires !(r.Payload? && r.field == 10) && ApplyCommand(c, r).Ok?
    ensures ApplyCommand(Over(m, c), r) == Ok(Over(m, ApplyCommand(c, r).value))
    ensures |ApplyCommand(c, r).value.sequence| == |c.sequence|
  {
    hide OverAll, UnmarshalKeyValue, UnmarshalTxn, UnmarshalCommand, Int32;
    match r
    case Payload(1, p) =>
    case Payload(3, p) =>
    case Payload(6, p) =>
    case Payload(7, p) =>
    case Payload(8, p) =>
    case Payload(f, p) =>
    case Number(2, v) =>
    case Number(5, v) =>
    case Number(9, v) =>
    case Number(11, v) =>
    case Number(f, v) =>
    case Unknown(raw) =>
  }

  // Taking up an element of Sequence, on the side of the pool.
  lemma {:induction false} ElementShows(m: Pooled, p: bytes)
    requires Inv(m)
    ensures m.batchLen <= |m.batch| && m.seqLen <= |m.sequence|
    ensures var x := HiddenAt(m.sequence, m.seqLen);
            var r := ApplyPooled(m, Payload(10, p)).m;
            && Inv(x) && LooksReset(x) && r.seqLen == m.seqLen + 1
            && View(r) == View(m).(sequence := View(m).sequence + [Some(View(UnmarshalPooled(x, p).m))])
            && (forall i: nat :: i >= r.seqLen ==> HiddenAt(r.sequence, i) == HiddenAt(m.sequence, i))
  {
    hide SequenceOk, ViewCommands, UnmarshalPooled, LooksReset;
    var grown := if m.seqLen == |m.sequence| then m.sequence + [None] + seq(SPARE(m.seqLen), _ => None) else m.sequence;
    if m.seqLen == |m.sequence| {
      var more: seq<Option<Pooled>> := [None] + seq(SPARE(m.seqLen), _ => None);
      assert grown == m.sequence + more;
      Grow(m.sequence, m.seqLen, more);
    }
    var x := HiddenAt(m.sequence, m.seqLen);
    assert x == OrElse(grown[m.seqLen], NEW);
    var o := UnmarshalPooled(x, p);
    ShowElement(grown, m.seqLen, o.m);
    NewIsReset();
    assert ApplyPooled(m, Payload(10, p)).m.sequence == grown[m.seqLen := Some(o.m)];
  }

  lemma {:induction false} SequenceLeavesOver(m0: Pooled, m: Pooled, c: Command, p: bytes)
    requires LeftOver(m0, m, c) && Inv(m0) && LooksReset(m0) && ApplyCommand(c, Payload(10, p)).Ok?
    ensures m.batchLen <= |m.batch| && m.seqLen <= |m.sequence|
    ensures LeftOver(m0, ApplyPooled(m, Payload(10, p)).m, ApplyCommand(c, Payload(10, p)).value)
    decreases |p|, 2
  {
    ApplySequenceAgrees(m, c, p);
    ElementShows(m, p);
    hide Inv, UnmarshalPooled, UnmarshalCommand, LooksReset, Over, Erase, View, HiddenAt, ApplyPooled;
    var f := UnmarshalCommand(COMMAND, p).value;
    UnmarshalLeavesOver(HiddenAt(m0.sequence, m.seqLen), p);
    OverAppend(m0, c, f);
    OverSequence(m0, c);
  }

  lemma {:induction false} OverSequence(m0: Pooled, c: Command)
    ensures Over(m0, c).sequence == OverAll(m0.sequence, c.sequence)
  {
  }

  lemma {:induction false} OverAppend(m0: Pooled, c: Command, f: Command)
    ensures Over(m0, c.(sequence := c.sequence + [Some(f)])) ==
            Over(m0, c).(sequence := Over(m0, c).sequence + [Some(Over(HiddenAt(m0.sequence, |c.sequence|), f))])
  {
    hide OverAll, HiddenAt;
    OverAllAppend(m0.sequence, c.sequence, Some(f));
  }

  lemma {:induction false} RecordLeavesOver(m0: Pooled, m: Pooled, c: Command, r: Record)
    requires LeftOver(m0, m, c) && Inv(m0) && LooksReset(m0) && ApplyCommand(c, r).Ok?
    ensures m.batchLen <= |m.batch| && m.seqLen <= |m.sequence|
    ensures LeftOver(m0, ApplyPooled(m, r).m, ApplyCommand(c, r).value)
    decreases RecordSize(r), 3
  {
    BatchFits(m);
    hide Inv, View, Erase, Over, ApplyPooled, ApplyCommand, HiddenAt, LooksReset;
    if r.Payload? && r.field == 10 {
      SequenceLeavesOver(m0, m, c, r.payload);
    } else {
      ApplyAgrees(m, c, r);
      RecordShows(m, r);
      OverApply(m0, c, r);
    }
  }

  lemma CommandTurn(c: Command, b: bytes, pos: nat)
    requires pos + |b| <= MAX_INT && b != [] && DecodeCommand(c, b, pos).Ok?
    ensures ReadRecord(TCommand, b, pos).Ok?
    ensures var (r, n) := ReadRecord(TCommand, b, pos).value;
            && RecordSize(r) < |b| && ApplyCommand(c, r).Ok?
            && DecodeCommand(c, b, pos) == DecodeCommand(ApplyCommand(c, r).value, b[n..], pos + n)
  {
    hide ReadRecord, ApplyCommand;
  }

  lemma PooledTurn(m: Pooled, b: bytes, pos: nat)
    requires pos + |b| <= MAX_INT && b != [] && m.batchLen <= |m.batch| && m.seqLen <= |m.sequence|
    requires ReadRecord(TCommand, b, pos).Ok? && ApplyPooled(m, ReadRecord(TCommand, b, pos).value.0).err.None?
    ensures var (r, n) := ReadRecord(TCommand, b, pos).value;
            DecodePooled(m, b, pos) == DecodePooled(ApplyPooled(m, r).m, b[n..], pos + n)
  {
    hide ReadRecord, ApplyPooled;
  }

  lemma {:induction false} DecodeLeavesOver(m0: Pooled, m: Pooled, c: Command, b: bytes, pos: nat)
    requires pos + |b| <= MAX_INT && DecodeCommand(c, b, pos).Ok?
    requires LeftOver(m0, m, c) && Inv(m0) && LooksReset(m0)
    ensures LeftOver(m0, DecodePooled(m, b, pos).m, DecodeCommand(c, b, pos).value)
    decreases |b|, 0
  {
    hide ReadRecord, ApplyPooled, ApplyCommand, Inv, LooksReset, Erase, View, Over, HiddenAt, RecordSize;
    if b == [] {
      hide LeftOver;
    } else {
      CommandTurn(c, b, pos);
      hide DecodePooled, DecodeCommand;
      var (r, n) := ReadRecord(TCommand, b, pos).value;
      ApplyAgrees(m, c, r);
      RecordLeavesOver(m0, m, c, r);
      PooledTurn(m, b, pos);
      hide LeftOver;
      DecodeLeavesOver(m0, ApplyPooled(m, r).m, ApplyCommand(c, r).value, b[n..], pos + n);
    }
  }

  // Main result: what a reset Command shows after an accepted input is what a
  // fresh one shows, with the empty slices left over at every level.
  lemma {:induction false} UnmarshalLeavesOver(m: Pooled, b: bytes)
    requires Inv(m) && LooksReset(m) && UnmarshalCommand(COMMAND, b).Ok?
    ensures View(UnmarshalPooled(m, b).m) == Over(m, UnmarshalCommand(COMMAND, b).value)
    decreases |b|, 1
  {
    ResetLooksNew(m);
    EraseFresh();
    assert ViewCommands(m.sequence, 0) == [] && OverAll(m.sequence, []) == [];
    hide Inv, DecodePooled, DecodeCommand, HiddenAt;
    assert View(m) == Over(m, COMMAND);
    DecodeLeavesOver(m, m, COMMAND, b, 0);
  }

  /** Nothing is left over: the input sets each slice that ResetVT did not leave
      nil, in the command and in every element taken up from the spare capacity. */
  predicate Clean(m: Pooled, y: Command)
    decreases y
  {
    && (y.table.Some? || m.table.None?) && (y.rangeEnd.Some? || m.rangeEnd.None?)
    && CleanAll(m.sequence, y.sequence)
  }

  predicate CleanAll(s: seq<Option<Pooled>>, ys: seq<Option<Command>>)
    decreases ys
  {
    ys == [] || (CleanElement(HiddenAt(s, 0), ys[0]) && CleanAll(if s == [] then [] else s[1..], ys[1..]))
  }

  predicate CleanElement(h: Pooled, y: Option<Command>)
    decreases y
  {
    y.Some? ==> Clean(h, y.value)
  }

  lemma {:induction false} OverIsSameWhen(m: Pooled, y: Command)
    ensures Over(m, y) == y <==> Clean(m, y)
    decreases y
  {
    hide OverAll, CleanAll;
    OverAllIsSameWhen(m.sequence, y.sequence);
  }

  lemma {:induction false} OverAllIsSameWhen(s: seq<Option<Pooled>>, ys: seq<Option<Command>>)
    ensures OverAll(s, ys) == ys <==> CleanAll(s, ys)
    decreases ys
  {
    hide OverElement, CleanElement, HiddenAt;
    if ys != [] {
      var rest := if s == [] then [] else s[1..];
      OverElementIsSameWhen(HiddenAt(s, 0), ys[0]);
      OverAllIsSameWhen(rest, ys[1..]);
      assert ys == [ys[0]] + ys[1..];
      assert OverAll(s, ys)[0] == OverElement(HiddenAt(s, 0), ys[0]) && OverAll(s, ys)[1..] == OverAll(rest, ys[1..]);
    }
  }

  lemma {:induction false} OverElementIsSameWhen(h: Pooled, y: Option<Command>)
    ensures OverElement(h, y) == y <==> CleanElement(h, y)
    decreases y
  {
    if y.Some? { OverIsSameWhen(h, y.value); }
  }

  // Main result: a Command taken from the pool after any history shows exactly
  // what a fresh one shows if and only if nothing is left over at any level.
  lemma {:induction false} PooledIsExactWhen(es: seq<Event>, b: bytes)
    requires UnmarshalCommand(COMMAND, b).Ok?
    ensures var m := ResetVT(Run(NEW, es));
            View(UnmarshalPooled(m, b).m) == UnmarshalCommand(COMMAND, b).value <==> Clean(m, UnmarshalCommand(COMMAND, b).value)
  {
    NewIsReset();
    hide *;
    RunKeepsInv(NEW, es);
    ResetGivesReset(Run(NEW, es));
    var m := ResetVT(Run(NEW, es));
    UnmarshalLeavesOver(m, b);
    OverIsSameWhen(m, UnmarshalCommand(COMMAND, b).value);
  }

  // The root command's range end by itself.
  lemma {:induction false} RangeEndPresence(m: Pooled, b: bytes)
    requires Inv(m) && LooksReset(m) && UnmarshalCommand(COMMAND, b).Ok?
    ensures var y := UnmarshalCommand(COMMAND, b).value.rangeEnd;
            UnmarshalPooled(m, b).m.rangeEnd == y <==> y.Some? || m.rangeEnd.None?
  {
    hide Inv, UnmarshalPooled, UnmarshalCommand;
    UnmarshalLeavesOver(m, b);
    assert View(UnmarshalPooled(m, b).m).rangeEnd == UnmarshalPooled(m, b).m.rangeEnd;
  }

  // A concrete case: a Command that had a range end, is reset and decodes the
  // empty input, encodes to a present, empty range end instead of to nothing.
  lemma PresenceLeaks()
    ensures var m := ResetVT(NEW.(rangeEnd := Some([1])));
            && UnmarshalCommand(COMMAND, []) == Ok(COMMAND) && EncodeCommand(COMMAND) == []
            && View(UnmarshalPooled(m, []).m) == COMMAND.(rangeEnd := Some([]))
            && EncodeCommand(COMMAND.(rangeEnd := Some([]))) == PayloadField(8, [])
  {
    var m := ResetVT(NEW.(rangeEnd := Some([1])));
    assert m == NEW.(rangeEnd := Some([]));
    assert UnmarshalPooled(m, []).m == m;
    assert ViewCommands([], 0) == [];
    var c := COMMAND.(rangeEnd := Some([]));
    assert Repeated(10, CommandPayloads([])) == [];
    assert EncodeLaterFields(c) == PayloadField(8, []);
  }

  // One level down: a Sequence element taken up from the spare capacity shows an
  // empty range end, although the root has none and the input has none.
  lemma NestedPresenceLeaks()
    ensures var m := ResetVT(NEW.(sequence := [Some(NEW.(rangeEnd := Some([1])))], seqLen := 1));
            var y := COMMAND.(sequence := [Some(COMMAND)]);
            && m.rangeEnd.None? && UnmarshalCommand(COMMAND, PayloadField(10, [])) == Ok(y)
            && View(UnmarshalPooled(m, PayloadField(10, [])).m) == COMMAND.(sequence := [Some(COMMAND.(rangeEnd := Some([])))])
  {
    var h := NEW.(rangeEnd := Some([1]));
    var m0 := NEW.(sequence := [Some(h)], seqLen := 1);
    var m := ResetVT(m0);
    var y := COMMAND.(sequence := [Some(COMMAND)]);
    var b := PayloadField(10, []);
    assert m.sequence == [Some(NEW.(rangeEnd := Some([])))] by {
      assert ResetVT(h) == NEW.(rangeEnd := Some([]));
      assert [Some(h)][1..] == [] && ResetCommands([Some(h)], 1) == [ResetElement(Some(h))] + ResetCommands([], 0);
    }
    assert Inv(m0) by {
      assert SequenceOk([Some(h)][1..], 0);
      assert VisibleOk(Some(h));
    }
    ResetGivesReset(m0);
    assert UnmarshalCommand(COMMAND, b) == Ok(y) by { OneEmptyElement(); }
    UnmarshalLeavesOver(m, b);
    assert Over(m, y) == y.(sequence := OverAll(m.sequence, [Some(COMMAND)]));
    assert [Some(COMMAND)][1..] == [] && m.sequence[1..] == [];
    assert OverAll(m.sequence, [Some(COMMAND)]) == [OverElement(HiddenAt(m.sequence, 0), Some(COMMAND))] + OverAll([], []);
  }

  lemma OneEmptyElement()
    ensures UnmarshalCommand(COMMAND, PayloadField(10, [])) == Ok(COMMAND.(sequence := [Some(COMMAND)]))
  {
    hide ReadRecord;
    ReadPayloadField(TCommand, 10, [], [], 0);
    var b := PayloadField(10, []);
    assert b + [] == b && b[|b|..] == [] && |b| <= MAX_INT by { assert EncodeVarint(0) == [0] && EncodeVarint(82) == [82]; }
    assert UnmarshalCommand(COMMAND, []) == Ok(COMMAND);
    assert COMMAND.sequence + [Some(COMMAND)] == [Some(COMMAND)];
    assert DecodeCommand(COMMAND, b, 0) == DecodeCommand(COMMAND.(sequence := [Some(COMMAND)]), [], |b|);
  }
}
