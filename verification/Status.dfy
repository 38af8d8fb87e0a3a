// StatusResponse: a map field, written in whatever order the map is iterated
// and read by a nested loop over the entry.
module Status {
  import opened Common
  import opened Varint
  import opened Wire
  import opened Decoding
  import opened Messages
  import opened RoundTrip

  // Go strings are their bytes.

  datatype TableStatus = TableStatus(
    logSize: i64, dbSize: i64, leader: bytes, raftIndex: u64, raftTerm: u64, raftAppliedIndex: u64, unknown: bytes)

  /** config holds the undecoded bytes of the structpb.Struct, whose codec is
      not part of the repository. */
  datatype StatusResponse = StatusResponse(
    id: bytes, version: bytes, info: bytes, tables: map<bytes, Option<TableStatus>>, config: Option<bytes>,
    errors: seq<bytes>, unknown: bytes)

  const TABLE_STATUS := TableStatus(0, 0, [], 0, 0, 0, [])
  const STATUS_RESPONSE := StatusResponse([], [], [], map[], None, [], [])

  // ---------- what MarshalVT writes ----------

  function OptUnsigned(field: nat, v: u64): bytes {
    if v != 0 then NumberField(field, v) else []
  }

  function EncodeTableStatus(m: TableStatus): bytes {
    OptNumber(2, m.logSize) + (OptNumber(3, m.dbSize) + (OptBytes(4, Some(m.leader)) + (OptUnsigned(5, m.raftIndex) +
    (OptUnsigned(6, m.raftTerm) + (OptUnsigned(7, m.raftAppliedIndex) + m.unknown)))))
  }

  function EncodeValue(v: Option<TableStatus>): bytes {
    if v.Some? then EncodeTableStatus(v.value) else []
  }

  /** One map entry: field 1 is the key, field 2 the value; both always written. */
  function EntryPayload(k: bytes, v: Option<TableStatus>): bytes {
    PayloadField(1, k) + PayloadField(2, EncodeValue(v))
  }

  function EntryPayloads(tables: map<bytes, Option<TableStatus>>, order: seq<bytes>): seq<bytes>
    requires forall k <- order :: k in tables
  {
    if order == [] then [] else [EntryPayload(order[0], tables[order[0]])] + EntryPayloads(tables, order[1..])
  }

  /** order lists every key of the map once. */
  ghost predicate IsOrder(tables: map<bytes, Option<TableStatus>>, order: seq<bytes>) {
    && (forall k :: k in order <==> k in tables)
    && (forall i, j :: 0 <= i < j < |order| ==> order[i] != order[j])
  }

  /** The encoding when the entries come out in the given order. */
  function EncodeStatus(m: StatusResponse, order: seq<bytes>): bytes
    requires forall k <- order :: k in m.tables
  {
    OptBytes(1, Some(m.id)) + (OptBytes(2, Some(m.version)) + (OptBytes(3, Some(m.info)) +
    (Repeated(4, EntryPayloads(m.tables, order)) + (OptPayload(5, m.config) + (Repeated(8, m.errors) + m.unknown)))))
  }

  // ---------- SizeVT ----------

  function SizeUnsigned(v: u64): nat { if v != 0 then 1 + SizeOfVarint(v) else 0 }

  function SizeTableStatus(m: TableStatus): nat {
    SizeNumber(m.logSize) + SizeNumber(m.dbSize) + SizeBytes(Some(m.leader)) + SizeUnsigned(m.raftIndex) +
    SizeUnsigned(m.raftTerm) + SizeUnsigned(m.raftAppliedIndex) + |m.unknown|
  }

  function SizeEntry(k: bytes, v: Option<TableStatus>): nat {
    var l := if v.Some? then SizeTableStatus(v.value) else 0;
    var l' := l + 1 + SizeOfVarint(l);
    var mapEntrySize := 1 + |k| + SizeOfVarint(|k|) + l';
    mapEntrySize + 1 + SizeOfVarint(mapEntrySize)
  }

  /** The size of the entries, added up in some order. */
  function SizeEntries(tables: map<bytes, Option<TableStatus>>, order: seq<bytes>): nat
    requires forall k <- order :: k in tables
  {
    if order == [] then 0 else SizeEntry(order[0], tables[order[0]]) + SizeEntries(tables, order[1..])
  }

  function SizeStrings(s: seq<bytes>): nat {
    if s == [] then 0 else SizeMessage(|s[0]|) + SizeStrings(s[1..])
  }

  function SizeStatus(m: StatusResponse, order: seq<bytes>): nat
    requires forall k <- order :: k in m.tables
  {
    SizeBytes(Some(m.id)) + SizeBytes(Some(m.version)) + SizeBytes(Some(m.info)) + SizeEntries(m.tables, order) +
    (if m.config.Some? then SizeMessage(|m.config.value|) else 0) + SizeStrings(m.errors) + |m.unknown|
  }

  // ---------- UnmarshalVT ----------

  function ApplyTableStatus(m: TableStatus, r: Record): Result<TableStatus, DecodeError> {
    match r
    case Number(2, v) => Ok(m.(logSize := Int64(v)))
    case Number(3, v) => Ok(m.(dbSize := Int64(v)))
    case Payload(4, p) => Ok(m.(leader := p))
    case Number(5, v) => Ok(m.(raftIndex := v))
    case Number(6, v) => Ok(m.(raftTerm := v))
    case Number(7, v) => Ok(m.(raftAppliedIndex := v))
    case Unknown(raw) => Ok(m.(unknown := m.unknown + raw))
    case _ => Ok(m)
  }

  function UnmarshalTableStatus(m: TableStatus, b: bytes): Result<TableStatus, DecodeError> {
    Unmarshal(ApplyTableStatus, TTableStatus, m, b)
  }

  /** One record of an entry: its key, its value, or anything else. */
  datatype Part =
    | KeyPart(from: nat, to: nat)
    | ValuePart(from: nat, to: nat)
    | OtherPart(to: nat)

  function ReadPart(b: bytes, pos: nat): (r: Result<Part, DecodeError>)
    requires pos + |b| <= MAX_INT
    ensures r.Ok? ==> 1 <= r.value.to <= |b|
    ensures r.Ok? && !r.value.OtherPart? ==> r.value.from <= r.value.to
  {
    var (wire, k) :- ReadVarint(b, W64);
    var f := FieldNum(wire);
    if f == 1 || f == 2 then
      var (from, to) :- ReadLength(b, k, pos);
      Ok(if f == 1 then KeyPart(from, to) else ValuePart(from, to))
    else
      var (_, n) :- SkipRecord(b, pos);
      Ok(OtherPart(n))
  }

  /** The entry loop, its cursor at i. It runs while i is before post, the end of
      the entry, but tests the ends of key and value against the whole message. */
  function ReadEntry(b: bytes, i: nat, post: nat, pos: nat, key: bytes, value: Option<TableStatus>): Result<(bytes, Option<TableStatus>), DecodeError>
    requires i <= |b| && post <= |b| && pos + |b| <= MAX_INT
    decreases |b| - i
  {
    if i >= post then Ok((key, value))
    else
      var part :- ReadPart(b[i..], pos + i);
      match part
      case KeyPart(from, to) => ReadEntry(b, i + to, post, pos, b[i + from..i + to], value)
      case ValuePart(from, to) =>
        var v :- UnmarshalTableStatus(TABLE_STATUS, b[i + from..i + to]);
        ReadEntry(b, i + to, post, pos, key, Some(v))
      case OtherPart(n) => if i + n > post then Err(UnexpectedEOF) else ReadEntry(b, i + n, post, pos, key, value)
  }

  function ApplyStatus(m: StatusResponse, r: Record): Result<StatusResponse, DecodeError> {
    match r
    case Payload(1, p) => Ok(m.(id := p))
    case Payload(2, p) => Ok(m.(version := p))
    case Payload(3, p) => Ok(m.(info := p))
    case Payload(5, p) => Ok(m.(config := Some(OrElse(m.config, []) + p)))
    case Payload(8, p) => Ok(m.(errors := m.errors + [p]))
    case Unknown(raw) => Ok(m.(unknown := m.unknown + raw))
    case _ => Ok(m)
  }

  function DecodeStatus(m: StatusResponse, b: bytes, pos: nat): Result<StatusResponse, DecodeError>
    requires pos + |b| <= MAX_INT
    decreases |b|
  {
    if b == [] then Ok(m)
    else
      var (r, n) :- ReadRecord(TStatusResponse, b, pos);
      if r.Payload? && r.field == 4 then
        var (k, v) :- ReadEntry(b, n - |r.payload|, n, pos, [], None);
        DecodeStatus(m.(tables := m.tables[k := v]), b[n..], pos + n)
      else
        var m' :- ApplyStatus(m, r);
        DecodeStatus(m', b[n..], pos + n)
  }

  function UnmarshalStatus(m: StatusResponse, b: bytes): Result<StatusResponse, DecodeError> {
    if |b| > MAX_INT then Err(InvalidLength) else DecodeStatus(m, b, 0)
  }

  // ---------- the decoder with the bounds of the entry ----------

  /** As ApplyStatus, with an entry read from its own bytes only. */
  function ApplyBounded(m: StatusResponse, r: Record): Result<StatusResponse, DecodeError> {
    match r
    case Payload(4, p) =>
      if |p| > MAX_INT then Err(InvalidLength)
      else
        var (k, v) :- ReadEntry(p, 0, |p|, 0, [], None);
        Ok(m.(tables := m.tables[k := v]))
    case _ => ApplyStatus(m, r)
  }

  /** The cursor of the entry loop, from i on, stops exactly at the end of the entry. */
  predicate EntryInBounds(b: bytes, i: nat, post: nat, pos: nat)
    requires i <= |b| && post <= |b| && pos + |b| <= MAX_INT
    decreases |b| - i
  {
    if i >= post then i == post
    else ReadPart(b[i..], pos + i).Ok? && EntryInBounds(b, i + ReadPart(b[i..], pos + i).value.to, post, pos)
  }

  lemma ReadPartLocal(c: bytes, d: bytes, pc: nat, pd: nat)
    requires pc + |c| <= MAX_INT && pd + |d| <= MAX_INT
    requires ReadPart(c, pc).Ok? && ReadPart(c, pc).value.to <= |d| && d[..ReadPart(c, pc).value.to] == c[..ReadPart(c, pc).value.to]
    ensures ReadPart(d, pd) == ReadPart(c, pc)
  {
    hide ReadVarint, ReadLength, SkipRecord, FieldNum;
    var to := ReadPart(c, pc).value.to;
    TagInPart(c, pc);
    var (wire, k) := ReadVarint(c, W64).value;
    assert c[..k] == d[..k] by { assert c[..to][..k] == c[..k] && d[..to][..k] == d[..k]; }
    ReadVarintLocal(c, d, W64);
    if FieldNum(wire) == 1 || FieldNum(wire) == 2 {
      ReadLengthLocal(c, d, k, pc, pd);
    } else {
      SkipRecordLocal(c, d, pc, pd);
    }
  }

  lemma TagInPart(c: bytes, pc: nat)
    requires pc + |c| <= MAX_INT && ReadPart(c, pc).Ok?
    ensures ReadVarint(c, W64).Ok? && ReadVarint(c, W64).value.1 <= ReadPart(c, pc).value.to
  {
    hide ReadVarint, FieldNum;
  }

  // An entry readable from its own bytes reads the same inside the message.
  lemma {:induction false} EntryInside(p: bytes, b: bytes, i: nat, at: nat, pos: nat, key: bytes, value: Option<TableStatus>)
    requires i <= |p| && at + |p| <= |b| && pos + |b| <= MAX_INT && b[at..at + |p|] == p
    requires ReadEntry(p, i, |p|, 0, key, value).Ok?
    ensures ReadEntry(b, at + i, at + |p|, pos, key, value) == ReadEntry(p, i, |p|, 0, key, value)
    ensures EntryInBounds(b, at + i, at + |p|, pos)
    decreases |p| - i
  {
    hide ReadPart, UnmarshalTableStatus;
    if i < |p| {
      var part := ReadPart(p[i..], i).value;
      PartInside(p, b, i, at, pos);
      match part {
        case KeyPart(from, to) =>
          EntryInside(p, b, i + to, at, pos, p[i + from..i + to], value);
        case ValuePart(from, to) =>
          EntryInside(p, b, i + to, at, pos, key, Some(UnmarshalTableStatus(TABLE_STATUS, p[i + from..i + to]).value));
        case OtherPart(n) =>
          EntryInside(p, b, i + n, at, pos, key, value);
      }
    }
  }

  // One record of the entry, read from the entry's bytes or from the message.
  lemma PartInside(p: bytes, b: bytes, i: nat, at: nat, pos: nat)
    requires i <= |p| && at + |p| <= |b| && pos + |b| <= MAX_INT && b[at..at + |p|] == p
    requires ReadPart(p[i..], i).Ok? || (ReadPart(b[at + i..], pos + at + i).Ok? && i + ReadPart(b[at + i..], pos + at + i).value.to <= |p|)
    ensures ReadPart(b[at + i..], pos + at + i) == ReadPart(p[i..], i)
    ensures var part := ReadPart(p[i..], i).value;
            !part.OtherPart? ==> p[i + part.from..i + part.to] == b[at + i + part.from..at + i + part.to]
  {
    hide ReadPart;
    var c, d := p[i..], b[at + i..];
    assert d[..|c|] == c by { TailInside(p, b, i, at); }
    var to := if ReadPart(c, i).Ok? then ReadPart(c, i).value.to else ReadPart(d, pos + at + i).value.to;
    assert c[..to] == d[..to] by { assert d[..to] == d[..|c|][..to]; }
    if ReadPart(c, i).Ok? {
      ReadPartLocal(c, d, i, pos + at + i);
    } else {
      ReadPartLocal(d, c, pos + at + i, i);
    }
    var part := ReadPart(c, i).value;
    if !part.OtherPart? { MiddleInside(p, b, at, i + part.from, i + part.to); }
  }

  lemma TailInside(p: bytes, b: bytes, i: nat, at: nat)
    requires i <= |p| && at + |p| <= |b| && b[at..at + |p|] == p
    ensures b[at + i..][..|p| - i] == p[i..]
  {
    forall k | 0 <= k < |p| - i ensures b[at + i..][..|p| - i][k] == p[i..][k] {
      assert b[at..at + |p|][i + k] == b[at + i + k];
    }
  }

  lemma MiddleInside(p: bytes, b: bytes, at: nat, from: nat, to: nat)
    requires from <= to <= |p| && at + |p| <= |b| && b[at..at + |p|] == p
    ensures b[at + from..at + to] == p[from..to]
  {
    forall k | 0 <= k < to - from ensures b[at + from..at + to][k] == p[from..to][k] {
      assert b[at..at + |p|][from + k] == b[at + from + k];
    }
  }

  // Main result: whatever the decoder with proper entry bounds accepts, the
  // generated decoder accepts with the same result.
  lemma {:induction false} BoundedIsAccepted(m: StatusResponse, b: bytes, pos: nat)
    requires pos + |b| <= MAX_INT
    requires Decode(ApplyBounded, TStatusResponse, m, b, pos).Ok?
    ensures DecodeStatus(m, b, pos) == Decode(ApplyBounded, TStatusResponse, m, b, pos)
    decreases |b|
  {
    hide ReadRecord, ReadEntry, ApplyBounded, ApplyStatus;
    if b != [] {
      var (r, n) := ReadRecord(TStatusResponse, b, pos).value;
      OneRecordBounded(m, b, pos);
      BoundedIsAccepted(ApplyBounded(m, r).value, b[n..], pos + n);
    }
  }

  lemma {:induction false} OneRecordBounded(m: StatusResponse, b: bytes, pos: nat)
    requires pos + |b| <= MAX_INT && ReadRecord(TStatusResponse, b, pos).Ok?
    requires ApplyBounded(m, ReadRecord(TStatusResponse, b, pos).value.0).Ok?
    ensures var (r, n) := ReadRecord(TStatusResponse, b, pos).value;
            var m' := ApplyBounded(m, r);
            if r.Payload? && r.field == 4 then
              |r.payload| <= n && ReadEntry(b, n - |r.payload|, n, pos, [], None).Ok? &&
              var (k, v) := ReadEntry(b, n - |r.payload|, n, pos, [], None).value; m' == Ok(m.(tables := m.tables[k := v]))
            else m' == ApplyStatus(m, r)
  {
    hide ReadRecord, ReadEntry, ApplyStatus, EntryInBounds;
    var (r, n) := ReadRecord(TStatusResponse, b, pos).value;
    if r.Payload? && r.field == 4 {
      PayloadIsSuffix(TStatusResponse, b, pos);
      EntryInside(r.payload, b, 0, n - |r.payload|, pos, [], None);
    }
  }

  // ---------- when entries stay inside their own bytes ----------

  predicate EntriesInBounds(b: bytes, pos: nat)
    requires pos + |b| <= MAX_INT
    decreases |b|
  {
    b == [] ||
    match ReadRecord(TStatusResponse, b, pos)
    case Err(_) => false
    case Ok((r, n)) =>
      && (r.Payload? && r.field == 4 ==> |r.payload| <= n && EntryInBounds(b, n - |r.payload|, n, pos))
      && EntriesInBounds(b[n..], pos + n)
  }

  lemma {:induction false} NeverPastEnd(b: bytes, i: nat, post: nat, pos: nat)
    requires i <= |b| && post <= |b| && pos + |b| <= MAX_INT && EntryInBounds(b, i, post, pos)
    ensures i <= post
  {
  }

  lemma {:induction false} InBoundsIsRead(p: bytes, b: bytes, i: nat, at: nat, pos: nat, key: bytes, value: Option<TableStatus>)
    requires i <= |p| && at + |p| <= |b| && pos + |b| <= MAX_INT && b[at..at + |p|] == p
    requires ReadEntry(b, at + i, at + |p|, pos, key, value).Ok? && EntryInBounds(b, at + i, at + |p|, pos)
    ensures ReadEntry(p, i, |p|, 0, key, value).Ok?
    decreases |p| - i
  {
    hide ReadPart, UnmarshalTableStatus;
    if i < |p| {
      var part := ReadPart(b[at + i..], pos + at + i).value;
      NeverPastEnd(b, at + i + part.to, at + |p|, pos);
      PartInside(p, b, i, at, pos);
      match part {
        case KeyPart(from, to) =>
          InBoundsIsRead(p, b, i + to, at, pos, p[i + from..i + to], value);
        case ValuePart(from, to) =>
          InBoundsIsRead(p, b, i + to, at, pos, key, Some(UnmarshalTableStatus(TABLE_STATUS, p[i + from..i + to]).value));
        case OtherPart(n) =>
          InBoundsIsRead(p, b, i + n, at, pos, key, value);
      }
    }
  }

  // An entry that was accepted can be read from its own bytes if and only if the
  // cursor stopped at its end.
  lemma EntryConfinedWhen(p: bytes, b: bytes, at: nat, pos: nat)
    requires at + |p| <= |b| && pos + |b| <= MAX_INT && b[at..at + |p|] == p
    requires ReadEntry(b, at, at + |p|, pos, [], None).Ok?
    ensures ReadEntry(p, 0, |p|, 0, [], None).Ok? <==> EntryInBounds(b, at, at + |p|, pos)
    ensures ReadEntry(p, 0, |p|, 0, [], None).Ok? ==> ReadEntry(p, 0, |p|, 0, [], None) == ReadEntry(b, at, at + |p|, pos, [], None)
  {
    hide *;
    if ReadEntry(p, 0, |p|, 0, [], None).Ok? {
      EntryInside(p, b, 0, at, pos, [], None);
    } else if EntryInBounds(b, at, at + |p|, pos) {
      InBoundsIsRead(p, b, 0, at, pos, [], None);
    }
  }

  // Main result: on every accepted input, the decoder with proper entry bounds
  // gives the same message if and only if every entry's cursor stops exactly at
  // the end of the entry.
  lemma {:induction false} EntriesConfinedWhen(m: StatusResponse, b: bytes, pos: nat)
    requires pos + |b| <= MAX_INT && DecodeStatus(m, b, pos).Ok?
    ensures Decode(ApplyBounded, TStatusResponse, m, b, pos) == DecodeStatus(m, b, pos) <==> EntriesInBounds(b, pos)
    decreases |b|
  {
    hide ReadRecord, ReadEntry, EntryInBounds;
    if b != [] {
      var (r, n) := ReadRecord(TStatusResponse, b, pos).value;
      if r.Payload? && r.field == 4 {
        PayloadIsSuffix(TStatusResponse, b, pos);
        EntryConfinedWhen(r.payload, b, n - |r.payload|, pos);
        var (k, v) := ReadEntry(b, n - |r.payload|, n, pos, [], None).value;
        EntriesConfinedWhen(m.(tables := m.tables[k := v]), b[n..], pos + n);
      } else {
        EntriesConfinedWhen(ApplyStatus(m, r).value, b[n..], pos + n);
      }
    }
  }

  // ---------- the round trip ----------

  predicate ValueOk(v: Option<TableStatus>) { v.Some? ==> WholeUnknown(TTableStatus, v.value.unknown) }

  predicate StatusOk(m: StatusResponse) {
    WholeUnknown(TStatusResponse, m.unknown) && forall k <- m.tables :: ValueOk(m.tables[k])
  }

  lemma RoundTripTableStatus(m: TableStatus)
    requires ValueOk(Some(m)) && |EncodeTableStatus(m)| <= MAX_INT
    ensures UnmarshalTableStatus(TABLE_STATUS, EncodeTableStatus(m)) == Ok(m)
  {
    hide Decode, OptBytes, OptNumber, OptUnsigned, Int64, UInt64, Cut;
    Int64Back(m.logSize); Int64Back(m.dbSize);
    var m1 := TABLE_STATUS.(logSize := m.logSize); var m2 := m1.(dbSize := m.dbSize); var m3 := m2.(leader := m.leader);
    var m4 := m3.(raftIndex := m.raftIndex); var m5 := m4.(raftTerm := m.raftTerm); var m6 := m5.(raftAppliedIndex := m.raftAppliedIndex);
    var s6 := m.unknown;
    var s5 := OptUnsigned(7, m.raftAppliedIndex) + s6;
    var s4 := OptUnsigned(6, m.raftTerm) + s5;
    var s3 := OptUnsigned(5, m.raftIndex) + s4;
    var s2 := OptBytes(4, Some(m.leader)) + s3;
    var s1 := OptNumber(3, m.dbSize) + s2;
    NothingBefore(m.unknown);
    StepUnknown(ApplyTableStatus, TTableStatus, m6, (u: bytes) => m6.(unknown := u), [], s6, m);
    StepUnsigned(m5, m6, 7, m.raftAppliedIndex, s6, m);
    StepUnsigned(m4, m5, 6, m.raftTerm, s5, m);
    StepUnsigned(m3, m4, 5, m.raftIndex, s4, m);
    StepOptBytes(ApplyTableStatus, TTableStatus, m2, m3, 4, Some(m.leader), s3, m);
    StepOptNumber(ApplyTableStatus, TTableStatus, m1, m2, 3, m.dbSize, s2, m);
    StepOptNumber(ApplyTableStatus, TTableStatus, TABLE_STATUS, m1, 2, m.logSize, s1, m);
  }

  lemma {:induction false} StepUnsigned(m: TableStatus, m': TableStatus, field: nat, v: u64, rest: bytes, x: TableStatus)
    requires field in {5, 6, 7} && |OptUnsigned(field, v) + rest| <= MAX_INT
    requires if v != 0 then ApplyTableStatus(m, Number(field, v)) == Ok(m') else m' == m
    requires Decode(ApplyTableStatus, TTableStatus, m', rest, 0) == Ok(x)
    ensures Decode(ApplyTableStatus, TTableStatus, m, OptUnsigned(field, v) + rest, 0) == Ok(x)
  {
    hide Decode;
    if v != 0 {
      StepNumber(ApplyTableStatus, TTableStatus, m, m', field, v, rest, x);
    } else {
      assert [] + rest == rest;
    }
  }

  /** A nil map value comes back as an empty TableStatus. */
  function NormValue(v: Option<TableStatus>): Option<TableStatus> { Some(OrElse(v, TABLE_STATUS)) }

  lemma ReadWrittenPart(field: nat, x: bytes, rest: bytes, pos: nat)
    requires field == 1 || field == 2
    requires pos + |PayloadField(field, x) + rest| <= MAX_INT
    ensures var n := |PayloadField(field, x)|;
            && |x| <= n && PayloadField(field, x)[n - |x|..] == x
            && ReadPart(PayloadField(field, x) + rest, pos) == Ok(if field == 1 then KeyPart(n - |x|, n) else ValuePart(n - |x|, n))
  {
    ReadDelimited(field, x, rest, pos);
    PayloadEnds(field, x);
    hide ReadVarint, ReadLength, SkipRecord, FieldNum, PayloadField, Tag;
  }

  lemma PayloadEnds(field: nat, x: bytes)
    ensures |x| <= |PayloadField(field, x)| && PayloadField(field, x)[|PayloadField(field, x)| - |x|..] == x
  {
  }

  // An entry made of a key part and a value part.
  lemma {:induction false} ReadTwoParts(a: bytes, k: bytes, c: bytes, e: bytes, v: TableStatus)
    requires |a + c| <= MAX_INT && a != [] && c != []
    requires |k| <= |a| && a[|a| - |k|..] == k && ReadPart(a + c, 0) == Ok(KeyPart(|a| - |k|, |a|))
    requires |e| <= |c| && c[|c| - |e|..] == e && ReadPart(c, |a|) == Ok(ValuePart(|c| - |e|, |c|))
    requires UnmarshalTableStatus(TABLE_STATUS, e) == Ok(v)
    ensures ReadEntry(a + c, 0, |a + c|, 0, [], None) == Ok((k, Some(v)))
  {
    hide ReadPart, UnmarshalTableStatus;
    var p, n := a + c, |a + c|;
    assert p[0..] == p && p[|a|..] == c;
    assert p[|a| - |k|..|a|] == k by { assert p[..|a|] == a; }
    assert p[|a| + (|c| - |e|)..|a| + |c|] == e by { assert p[|a|..][|c| - |e|..] == e; }
    assert ReadEntry(p, n, n, 0, k, Some(v)) == Ok((k, Some(v)));
    assert ReadEntry(p, |a|, n, 0, k, None) == Ok((k, Some(v)));
  }

  lemma ReadWrittenEntry(k: bytes, v: Option<TableStatus>)
    requires ValueOk(v) && |EntryPayload(k, v)| <= MAX_INT
    ensures var p := EntryPayload(k, v); ReadEntry(p, 0, |p|, 0, [], None) == Ok((k, NormValue(v)))
  {
    hide ReadPart, ReadEntry, UnmarshalTableStatus, PayloadField;
    var e := EncodeValue(v);
    var a, c := PayloadField(1, k), PayloadField(2, e);
    EntryFits(k, v);
    assert UnmarshalTableStatus(TABLE_STATUS, e) == Ok(OrElse(v, TABLE_STATUS)) by {
      if v.Some? { RoundTripTableStatus(v.value); } else { EmptyTableStatus(); }
    }
    assert c + [] == c;
    ReadWrittenPart(1, k, c, 0);
    ReadWrittenPart(2, e, [], |a|);
    ReadTwoParts(a, k, c, e, OrElse(v, TABLE_STATUS));
  }

  lemma EntryFits(k: bytes, v: Option<TableStatus>)
    ensures |EncodeValue(v)| <= |EntryPayload(k, v)|
  {
  }

  lemma EmptyTableStatus()
    ensures UnmarshalTableStatus(TABLE_STATUS, []) == Ok(TABLE_STATUS)
  {
  }

  // ---------- an entry in any layout ----------

  /** What an entry may be made of, in any order and number. */
  datatype Item = KeyItem(k: bytes) | ValueItem(e: bytes) | OtherItem(raw: bytes)

  function ItemBytes(x: Item): bytes {
    match x
    case KeyItem(k) => PayloadField(1, k)
    case ValueItem(e) => PayloadField(2, e)
    case OtherItem(raw) => raw
  }

  function Items(xs: seq<Item>): bytes {
    if xs == [] then [] else ItemBytes(xs[0]) + Items(xs[1..])
  }

  /** A value is the encoding of a TableStatus; anything else is one skippable
      record whose field number is neither 1 nor 2. */
  predicate ItemOk(x: Item) {
    match x
    case KeyItem(_) => true
    case ValueItem(e) => UnmarshalTableStatus(TableStatus(0, 0, [], 0, 0, 0, []), e).Ok?
    case OtherItem(raw) =>
      raw != [] && Skip(raw) == Ok(|raw|) && ReadVarint(raw, W64).Ok? && ReadVarint(raw, W64).value.0 / 8 % TWO_32 !in {1, 2}
  }

  predicate ItemsOk(xs: seq<Item>) { xs == [] || (ItemOk(xs[0]) && ItemsOk(xs[1..])) }

  function LastKey(xs: seq<Item>, k: bytes): bytes {
    if xs == [] then k else LastKey(xs[1..], if xs[0].KeyItem? then xs[0].k else k)
  }

  function LastValue(xs: seq<Item>, v: Option<TableStatus>): Option<TableStatus>
    requires ItemsOk(xs)
  {
    if xs == [] then v
    else LastValue(xs[1..], if xs[0].ValueItem? then Some(UnmarshalTableStatus(TableStatus(0, 0, [], 0, 0, 0, []), xs[0].e).value) else v)
  }

  lemma {:induction false} ReadOtherPart(raw: bytes, rest: bytes, pos: nat)
    requires ItemOk(OtherItem(raw)) && pos + |raw + rest| <= MAX_INT
    ensures ReadPart(raw + rest, pos) == Ok(OtherPart(|raw|))
  {
    var b := raw + rest;
    assert b[..|raw|] == raw && raw[..|raw|] == raw;
    assert SkipIsLocal(Skip, raw, b);
    assert SkipTakesTag(raw, |raw|);
    var k := ReadVarint(raw, W64).value.1;
    assert b[..k] == raw[..k];
    ReadVarintLocal(raw, b, W64);
    OtherField(ReadVarint(raw, W64).value.0);
    hide ReadVarint, ReadLength, FieldNum;
  }

  lemma OtherField(wire: u64)
    ensures FieldNum(wire) in {1, 2} <==> wire / 8 % TWO_32 in {1, 2}
  {
  }

  /** The key and the value after item x. */
  function KeyWith(x: Item, key: bytes): bytes { if x.KeyItem? then x.k else key }

  function ValueWith(x: Item, value: Option<TableStatus>): Option<TableStatus>
    requires ItemOk(x)
  {
    if x.ValueItem? then Some(UnmarshalTableStatus(TABLE_STATUS, x.e).value) else value
  }

  lemma {:induction false} KeyPartTurn(b: bytes, i: nat, x: nat, y: nat, pos: nat, key: bytes, value: Option<TableStatus>)
    requires i < |b| && pos + |b| <= MAX_INT && ReadPart(b[i..], pos + i) == Ok(KeyPart(x, y))
    ensures x <= y && i + y <= |b|
    ensures ReadEntry(b, i, |b|, pos, key, value) == ReadEntry(b, i + y, |b|, pos, b[i + x..i + y], value)
  {
    hide ReadPart, UnmarshalTableStatus;
  }

  lemma {:induction false} ValuePartTurn(b: bytes, i: nat, x: nat, y: nat, pos: nat, key: bytes, value: Option<TableStatus>)
    requires i < |b| && pos + |b| <= MAX_INT && ReadPart(b[i..], pos + i) == Ok(ValuePart(x, y))
    ensures x <= y && i + y <= |b|
    ensures var v := UnmarshalTableStatus(TABLE_STATUS, b[i + x..i + y]);
            v.Ok? ==> ReadEntry(b, i, |b|, pos, key, value) == ReadEntry(b, i + y, |b|, pos, key, Some(v.value))
  {
    hide ReadPart, UnmarshalTableStatus;
  }

  lemma {:induction false} OtherPartTurn(b: bytes, i: nat, y: nat, pos: nat, key: bytes, value: Option<TableStatus>)
    requires i < |b| && pos + |b| <= MAX_INT && ReadPart(b[i..], pos + i) == Ok(OtherPart(y))
    ensures i + y <= |b| && ReadEntry(b, i, |b|, pos, key, value) == ReadEntry(b, i + y, |b|, pos, key, value)
  {
    hide ReadPart, UnmarshalTableStatus;
  }

  lemma {:induction false} Inside(b: bytes, i: nat, a: bytes, rest: bytes, n: nat)
    requires i <= |b| && b[i..] == a + rest && n <= |a|
    ensures i + |a| <= |b| && b[i + |a|..] == rest
    ensures b[i + (|a| - n)..i + |a|] == a[|a| - n..]
  {
    assert |b[i..]| == |a| + |rest|;
    assert b[i + |a|..] == b[i..][|a|..];
    assert b[i + (|a| - n)..i + |a|] == b[i..][|a| - n..|a|];
  }

  // One turn of the entry loop, by what is at its cursor.

  lemma {:induction false} KeyTurn(b: bytes, i: nat, k: bytes, rest: bytes, pos: nat, key: bytes, value: Option<TableStatus>)
    requires i <= |b| && pos + |b| <= MAX_INT && b[i..] == PayloadField(1, k) + rest
    ensures var n := i + |PayloadField(1, k)|;
            n <= |b| && b[n..] == rest && ReadEntry(b, i, |b|, pos, key, value) == ReadEntry(b, n, |b|, pos, k, value)
  {
    hide ReadPart, ReadEntry, PayloadField;
    var n := |PayloadField(1, k)|;
    ReadWrittenPart(1, k, rest, pos + i);
    Inside(b, i, PayloadField(1, k), rest, |k|);
    KeyPartTurn(b, i, n - |k|, n, pos, key, value);
  }

  lemma {:induction false} ValueTurn(b: bytes, i: nat, e: bytes, rest: bytes, pos: nat, key: bytes, value: Option<TableStatus>)
    requires i <= |b| && pos + |b| <= MAX_INT && b[i..] == PayloadField(2, e) + rest && UnmarshalTableStatus(TABLE_STATUS, e).Ok?
    ensures var n := i + |PayloadField(2, e)|;
            && n <= |b| && b[n..] == rest
            && ReadEntry(b, i, |b|, pos, key, value) == ReadEntry(b, n, |b|, pos, key, Some(UnmarshalTableStatus(TABLE_STATUS, e).value))
  {
    hide *;
    var n := |PayloadField(2, e)|;
    ReadWrittenPart(2, e, rest, pos + i);
    PayloadEnds(2, e);
    Inside(b, i, PayloadField(2, e), rest, |e|);
    assert b[i + (n - |e|)..i + n] == e;
    ValuePartTurn(b, i, n - |e|, n, pos, key, value);
  }

  lemma {:induction false} OtherIsPart(b: bytes, i: nat, raw: bytes, rest: bytes, pos: nat)
    requires i <= |b| && pos + |b| <= MAX_INT && b[i..] == raw + rest && ItemOk(OtherItem(raw))
    ensures i < i + |raw| <= |b| && b[i + |raw|..] == rest
    ensures ReadPart(b[i..], pos + i) == Ok(OtherPart(|raw|))
  {
    assert raw != [];
    hide *;
    assert |b[i..]| == |raw| + |rest|;
    assert b[i + |raw|..] == b[i..][|raw|..];
    ReadOtherPart(raw, rest, pos + i);
  }

  lemma {:induction false} ItemTurn(b: bytes, i: nat, x: Item, rest: bytes, pos: nat, key: bytes, value: Option<TableStatus>)
    requires i <= |b| && pos + |b| <= MAX_INT && b[i..] == ItemBytes(x) + rest && ItemOk(x)
    ensures i + |ItemBytes(x)| <= |b| && b[i + |ItemBytes(x)|..] == rest
    ensures ReadEntry(b, i, |b|, pos, key, value) ==
            ReadEntry(b, i + |ItemBytes(x)|, |b|, pos, KeyWith(x, key), ValueWith(x, value))
  {
    hide ReadEntry, ReadPart, PayloadField, UnmarshalTableStatus;
    match x {
      case KeyItem(k) => KeyTurn(b, i, k, rest, pos, key, value);
      case ValueItem(e) => ValueTurn(b, i, e, rest, pos, key, value);
      case OtherItem(raw) =>
        OtherIsPart(b, i, raw, rest, pos);
        OtherPartTurn(b, i, |raw|, pos, key, value);
    }
  }

  lemma {:induction false} NoItems(b: bytes, i: nat, pos: nat, key: bytes, value: Option<TableStatus>)
    requires i <= |b| && pos + |b| <= MAX_INT && b[i..] == []
    ensures ReadEntry(b, i, |b|, pos, key, value) == Ok((LastKey([], key), LastValue([], value)))
  {
    assert i == |b|;
  }

  lemma {:induction false} LastStep(xs: seq<Item>, key: bytes, value: Option<TableStatus>)
    requires xs != [] && ItemsOk(xs)
    ensures ItemsOk(xs[1..]) && ItemOk(xs[0]) && Items(xs) == ItemBytes(xs[0]) + Items(xs[1..])
    ensures LastKey(xs, key) == LastKey(xs[1..], KeyWith(xs[0], key))
    ensures LastValue(xs, value) == LastValue(xs[1..], ValueWith(xs[0], value))
  {
    hide ItemOk, ItemBytes, UnmarshalTableStatus;
  }

  // Main result: whatever the order and number of its parts, an entry has the last
  // key, or the empty one, and the last value, read on its own, or none.
  lemma {:induction false} ReadItems(b: bytes, i: nat, xs: seq<Item>, pos: nat, key: bytes, value: Option<TableStatus>)
    requires i <= |b| && pos + |b| <= MAX_INT && b[i..] == Items(xs) && ItemsOk(xs)
    ensures ReadEntry(b, i, |b|, pos, key, value) == Ok((LastKey(xs, key), LastValue(xs, value)))
    decreases |xs|
  {
    if xs == [] {
      NoItems(b, i, pos, key, value);
    } else {
      LastStep(xs, key, value);
      hide *;
      ItemTurn(b, i, xs[0], Items(xs[1..]), pos, key, value);
      ReadItems(b, i + |ItemBytes(xs[0])|, xs[1..], pos, KeyWith(xs[0], key), ValueWith(xs[0], value));
    }
  }

  /** The map after the entries of order have been assigned. */
  function Assigned(m: map<bytes, Option<TableStatus>>, tables: map<bytes, Option<TableStatus>>, order: seq<bytes>): map<bytes, Option<TableStatus>>
    requires forall k <- order :: k in tables
    decreases |order|
  {
    if order == [] then m else Assigned(m[order[0] := NormValue(tables[order[0]])], tables, order[1..])
  }

  lemma {:induction false} ApplyEntries(m: StatusResponse, tables: map<bytes, Option<TableStatus>>, order: seq<bytes>)
    requires forall k <- order :: k in tables && ValueOk(tables[k])
    requires |Repeated(4, EntryPayloads(tables, order))| <= MAX_INT
    ensures ApplyAll(ApplyBounded, m, 4, EntryPayloads(tables, order)) == Ok(m.(tables := Assigned(m.tables, tables, order)))
    decreases |order|
  {
    hide EntryPayload, ReadEntry, NormValue, ValueOk;
    if order != [] {
      assert order[0] in order;
      ReadWrittenEntry(order[0], tables[order[0]]);
      ApplyEntries(m.(tables := m.tables[order[0] := NormValue(tables[order[0]])]), tables, order[1..]);
    }
  }

  lemma {:induction false} AssignedIs(m: map<bytes, Option<TableStatus>>, tables: map<bytes, Option<TableStatus>>, order: seq<bytes>)
    requires forall k <- order :: k in tables
    ensures Assigned(m, tables, order).Keys == m.Keys + (set k | k in order)
    ensures forall k <- Assigned(m, tables, order) ::
      Assigned(m, tables, order)[k] == if k in order then NormValue(tables[k]) else m[k]
    decreases |order|
  {
    hide NormValue;
    if order != [] {
      var m' := m[order[0] := NormValue(tables[order[0]])];
      AssignedIs(m', tables, order[1..]);
      assert order == [order[0]] + order[1..];
      assert forall k :: k in order <==> k == order[0] || k in order[1..];
      assert m'.Keys == m.Keys + {order[0]};
    }
  }

  function NormStatus(m: StatusResponse): StatusResponse {
    m.(tables := map k | k in m.tables :: NormValue(m.tables[k]))
  }

  lemma {:induction false} ApplyErrors(m: StatusResponse, s: seq<bytes>)
    requires |Repeated(8, s)| <= MAX_INT
    ensures ApplyAll(ApplyBounded, m, 8, s) == Ok(m.(errors := m.errors + s))
    decreases |s|
  {
    if s == [] {
      assert m.errors + [] == m.errors;
    } else {
      ApplyErrors(m.(errors := m.errors + [s[0]]), s[1..]);
      assert m.errors + [s[0]] + s[1..] == m.errors + s;
    }
  }

  lemma StatusKeepsUnknown(m: StatusResponse)
    ensures KeepsUnknown(ApplyBounded, (u: bytes) => m.(unknown := u))
  {
  }

  lemma {:induction false} NormTables(m: StatusResponse, order: seq<bytes>)
    requires IsOrder(m.tables, order) && forall k <- order :: k in m.tables
    ensures Assigned(map[], m.tables, order) == NormStatus(m).tables
  {
    hide NormValue;
    AssignedIs(map[], m.tables, order);
  }

  lemma ApplyBytes(m: StatusResponse, p: bytes)
    ensures ApplyBounded(m, Payload(1, p)) == Ok(m.(id := p)) && ApplyBounded(m, Payload(2, p)) == Ok(m.(version := p))
    ensures ApplyBounded(m, Payload(3, p)) == Ok(m.(info := p))
    ensures ApplyBounded(m, Payload(5, p)) == Ok(m.(config := Some(OrElse(m.config, []) + p)))
  {
  }

  lemma DecodeAfterTables(m: StatusResponse, x: StatusResponse)
    requires WholeUnknown(TStatusResponse, m.unknown)
    requires |OptPayload(5, m.config) + (Repeated(8, m.errors) + m.unknown)| <= MAX_INT
    requires x.config == m.config && x.errors == m.errors && x.unknown == m.unknown
    ensures Decode(ApplyBounded, TStatusResponse, x.(config := None, errors := [], unknown := []),
                   OptPayload(5, m.config) + (Repeated(8, m.errors) + m.unknown), 0) == Ok(x)
  {
    hide Decode, ApplyAll, Repeated, OptPayload, WholeUnknown, ApplyBounded;
    var m6 := x.(unknown := []); var m5 := m6.(errors := []); var m4 := m5.(config := None);
    var s6 := m.unknown;
    var s5 := Repeated(8, m.errors) + s6;
    NothingBefore(m.unknown); NothingBefore(m.errors);
    if m.config.Some? { NothingBefore(m.config.value); ApplyBytes(m4, m.config.value); }
    StatusKeepsUnknown(m6);
    StepUnknown(ApplyBounded, TStatusResponse, m6, (u: bytes) => m6.(unknown := u), [], s6, x);
    ApplyErrors(m5, m.errors);
    StepRepeated(ApplyBounded, TStatusResponse, m5, m6, 8, m.errors, s6, x);
    StepOptPayload(ApplyBounded, TStatusResponse, m4, m5, 5, m.config, s5, x);
  }

  lemma {:induction false} DecodeFromTables(m: StatusResponse, order: seq<bytes>, m3: StatusResponse, x: StatusResponse)
    requires (forall k <- order :: k in m.tables && ValueOk(m.tables[k])) && WholeUnknown(TStatusResponse, m.unknown)
    requires |Repeated(4, EntryPayloads(m.tables, order)) + (OptPayload(5, m.config) + (Repeated(8, m.errors) + m.unknown))| <= MAX_INT
    requires x.config == m.config && x.errors == m.errors && x.unknown == m.unknown
    requires m3.tables == map[] && x.tables == Assigned(map[], m.tables, order)
    requires m3.(tables := x.tables) == x.(config := None, errors := [], unknown := [])
    ensures Decode(ApplyBounded, TStatusResponse, m3,
                   Repeated(4, EntryPayloads(m.tables, order)) + (OptPayload(5, m.config) + (Repeated(8, m.errors) + m.unknown)), 0) == Ok(x)
  {
    hide Decode, ApplyAll, Repeated, OptPayload, EntryPayloads, NormValue, ValueOk, WholeUnknown, ApplyBounded, Assigned;
    DecodeAfterTables(m, x);
    ApplyEntries(m3, m.tables, order);
    StepRepeated(ApplyBounded, TStatusResponse, m3, m3.(tables := x.tables), 4, EntryPayloads(m.tables, order),
                 OptPayload(5, m.config) + (Repeated(8, m.errors) + m.unknown), x);
  }

  lemma DecodeEncodedStatus(m: StatusResponse, order: seq<bytes>)
    requires StatusOk(m) && IsOrder(m.tables, order) && |EncodeStatus(m, order)| <= MAX_INT
    ensures Decode(ApplyBounded, TStatusResponse, STATUS_RESPONSE, EncodeStatus(m, order), 0) == Ok(NormStatus(m))
  {
    OrderListsKeys(m.tables, order);
    NormTables(m, order);
    var x := NormStatus(m);
    var m1 := STATUS_RESPONSE.(id := m.id); var m2 := m1.(version := m.version); var m3 := m2.(info := m.info);
    assert m3.(tables := x.tables) == x.(config := None, errors := [], unknown := []);
    assert forall k <- order :: k in m.tables && ValueOk(m.tables[k]);
    hide Decode, Repeated, OptBytes, OptPayload, EntryPayloads, ApplyBounded, IsOrder, NormStatus, ValueOk, WholeUnknown, Assigned;
    DecodeFromTables(m, order, m3, x);
    var s3 := Repeated(4, EntryPayloads(m.tables, order)) + (OptPayload(5, m.config) + (Repeated(8, m.errors) + m.unknown));
    DecodeNames(m, s3, x);
  }

  // The three strings the message starts with.
  lemma {:induction false} DecodeNames(m: StatusResponse, s3: bytes, x: StatusResponse)
    requires |OptBytes(1, Some(m.id)) + (OptBytes(2, Some(m.version)) + (OptBytes(3, Some(m.info)) + s3))| <= MAX_INT
    requires Decode(ApplyBounded, TStatusResponse, STATUS_RESPONSE.(id := m.id, version := m.version, info := m.info), s3, 0) == Ok(x)
    ensures Decode(ApplyBounded, TStatusResponse, STATUS_RESPONSE,
                   OptBytes(1, Some(m.id)) + (OptBytes(2, Some(m.version)) + (OptBytes(3, Some(m.info)) + s3)), 0) == Ok(x)
  {
    hide Decode, OptBytes, ApplyBounded;
    var m1 := STATUS_RESPONSE.(id := m.id); var m2 := m1.(version := m.version); var m3 := m2.(info := m.info);
    var s2 := OptBytes(3, Some(m.info)) + s3;
    var s1 := OptBytes(2, Some(m.version)) + s2;
    ApplyBytes(STATUS_RESPONSE, m.id); ApplyBytes(m1, m.version); ApplyBytes(m2, m.info);
    StepOptBytes(ApplyBounded, TStatusResponse, m2, m3, 3, Some(m.info), s3, x);
    StepOptBytes(ApplyBounded, TStatusResponse, m1, m2, 2, Some(m.version), s2, x);
    StepOptBytes(ApplyBounded, TStatusResponse, STATUS_RESPONSE, m1, 1, Some(m.id), s1, x);
  }

  // Main result: in whatever order the map is iterated, the encoding decodes to
  // the same map, nil values read back as empty ones.
  lemma RoundTripStatus(m: StatusResponse, order: seq<bytes>)
    requires StatusOk(m) && IsOrder(m.tables, order) && |EncodeStatus(m, order)| <= MAX_INT
    ensures UnmarshalStatus(STATUS_RESPONSE, EncodeStatus(m, order)) == Ok(NormStatus(m))
  {
    hide DecodeStatus, Decode, EncodeStatus, StatusOk, IsOrder, NormStatus;
    assert forall k <- order :: k in m.tables by { OrderListsKeys(m.tables, order); }
    DecodeEncodedStatus(m, order);
    BoundedIsAccepted(STATUS_RESPONSE, EncodeStatus(m, order), 0);
  }

  lemma OrderListsKeys(tables: map<bytes, Option<TableStatus>>, order: seq<bytes>)
    requires IsOrder(tables, order)
    ensures forall k <- order :: k in tables
  {
  }

  // ---------- the size does not depend on the order ----------

  lemma SizeEntryIsLength(k: bytes, v: Option<TableStatus>)
    requires |PayloadField(4, EntryPayload(k, v))| <= MAX_INT
    ensures SizeEntry(k, v) == |PayloadField(4, EntryPayload(k, v))|
  {
    if v.Some? { SizeTableStatusIsLength(v.value); }
    var l := |EncodeValue(v)|;
    SizeOfVarintIsLength(l); SizeOfVarintIsLength(|k|); SizeOfVarintIsLength(|EntryPayload(k, v)|);
    SmallTags();
  }

  lemma SmallTags()
    ensures forall f: nat, w: nat {:trigger Tag(f, w)} :: 1 <= f < 16 && w < 8 ==> |Tag(f, w)| == 1
  {
  }

  lemma SizeTableStatusIsLength(m: TableStatus)
    ensures SizeTableStatus(m) == |EncodeTableStatus(m)|
  {
    hide EncodeVarint, SizeOfVarint, UInt64, Tag;
    SizeOfVarintIsLength(UInt64(m.logSize)); SizeOfVarintIsLength(UInt64(m.dbSize)); SizeOfVarintIsLength(|m.leader|);
    SizeOfVarintIsLength(m.raftIndex); SizeOfVarintIsLength(m.raftTerm); SizeOfVarintIsLength(m.raftAppliedIndex);
    SmallTags();
  }

  lemma {:induction false} SizeEntriesIsLength(tables: map<bytes, Option<TableStatus>>, order: seq<bytes>)
    requires (forall k <- order :: k in tables) && |Repeated(4, EntryPayloads(tables, order))| <= MAX_INT
    ensures SizeEntries(tables, order) == |Repeated(4, EntryPayloads(tables, order))|
    decreases |order|
  {
    hide SizeEntry, PayloadField, EntryPayload;
    if order != [] {
      SizeEntryIsLength(order[0], tables[order[0]]);
      SizeEntriesIsLength(tables, order[1..]);
    }
  }

  lemma {:induction false} SizeStringsIsLength(s: seq<bytes>)
    requires |Repeated(8, s)| <= MAX_INT
    ensures SizeStrings(s) == |Repeated(8, s)|
    decreases |s|
  {
    hide EncodeVarint, SizeOfVarint, Tag;
    if s != [] {
      SizeOfVarintIsLength(|s[0]|);
      SmallTags();
      SizeStringsIsLength(s[1..]);
    }
  }

  // Taking one key out of the middle of the sum.
  lemma {:induction false} SizeWithout(tables: map<bytes, Option<TableStatus>>, order: seq<bytes>, i: nat)
    requires i < |order| && forall k <- order :: k in tables
    ensures forall k <- order[..i] + order[i + 1..] :: k in tables
    ensures SizeEntries(tables, order) == SizeEntry(order[i], tables[order[i]]) + SizeEntries(tables, order[..i] + order[i + 1..])
    decreases i
  {
    hide SizeEntry;
    var cut := order[..i] + order[i + 1..];
    if i == 0 {
      assert cut == order[1..];
    } else {
      SizeWithout(tables, order[1..], i - 1);
      assert cut[0] == order[0] && cut[1..] == order[1..][..i - 1] + order[1..][i..];
    }
  }

  function Without(tables: map<bytes, Option<TableStatus>>, k: bytes): map<bytes, Option<TableStatus>> {
    map x | x in tables && x != k :: tables[x]
  }

  lemma CutOrder(tables: map<bytes, Option<TableStatus>>, two: seq<bytes>, i: nat)
    requires IsOrder(tables, two) && i < |two|
    ensures IsOrder(Without(tables, two[i]), two[..i] + two[i + 1..])
  {
    var cut := two[..i] + two[i + 1..];
    forall x ensures x in cut <==> x in tables && x != two[i] {
      if x in tables && x != two[i] {
        var j :| 0 <= j < |two| && two[j] == x;
        assert cut[if j < i then j else j - 1] == x;
      }
      if x in cut {
        var j :| 0 <= j < |cut| && cut[j] == x;
        assert x == two[if j < i then j else j + 1];
      }
    }
  }

  lemma {:induction false} SizeSameValues(a: map<bytes, Option<TableStatus>>, b: map<bytes, Option<TableStatus>>, order: seq<bytes>)
    requires forall k <- order :: k in a && k in b && a[k] == b[k]
    ensures SizeEntries(a, order) == SizeEntries(b, order)
    decreases |order|
  {
    hide SizeEntry;
    if order != [] { SizeSameValues(a, b, order[1..]); }
  }

  // The size in a given order; 0 for a list that is no order of the map.
  ghost function OrderedSize(tables: map<bytes, Option<TableStatus>>, order: seq<bytes>): nat {
    if IsOrder(tables, order) && forall k <- order :: k in tables then SizeEntries(tables, order) else 0
  }

  // What is left of the sum without one key is the sum over the map without it.
  lemma SizeDropsKey(tables: map<bytes, Option<TableStatus>>, order: seq<bytes>, i: nat)
    requires IsOrder(tables, order) && i < |order|
    ensures order[i] in tables
    ensures var fewer, cut := Without(tables, order[i]), order[..i] + order[i + 1..];
            IsOrder(fewer, cut) && OrderedSize(tables, order) == SizeEntry(order[i], tables[order[i]]) + OrderedSize(fewer, cut)
  {
    hide SizeEntry, SizeEntries;
    OrderListsKeys(tables, order);
    var fewer, cut := Without(tables, order[i]), order[..i] + order[i + 1..];
    SizeWithout(tables, order, i);
    CutOrder(tables, order, i);
    OrderListsKeys(fewer, cut);
    SizeSameValues(tables, fewer, cut);
  }

  lemma KeyIsListed(tables: map<bytes, Option<TableStatus>>, one: seq<bytes>, two: seq<bytes>) returns (i: nat)
    requires IsOrder(tables, one) && IsOrder(tables, two) && one != []
    ensures i < |two| && two[i] == one[0]
  {
    assert one[0] in tables;
    i :| 0 <= i < |two| && two[i] == one[0];
  }

  // The same key dropped from a map and from two orders of it.
  lemma DropKey(tables: map<bytes, Option<TableStatus>>, one: seq<bytes>, two: seq<bytes>)
    returns (fewer: map<bytes, Option<TableStatus>>, one': seq<bytes>, two': seq<bytes>)
    requires IsOrder(tables, one) && IsOrder(tables, two) && one != []
    ensures IsOrder(fewer, one') && IsOrder(fewer, two') && |one'| < |one|
    ensures OrderedSize(tables, one) - OrderedSize(fewer, one') == OrderedSize(tables, two) - OrderedSize(fewer, two')
  {
    hide *;
    var i := KeyIsListed(tables, one, two);
    fewer := Without(tables, one[0]);
    one', two' := one[..0] + one[1..], two[..i] + two[i + 1..];
    SizeDropsKey(tables, one, 0);
    SizeDropsKey(tables, two, i);
  }

  // SizeVT and MarshalToSizedBufferVT may iterate the map in different orders.
  lemma {:induction false} SizeIgnoresOrder(tables: map<bytes, Option<TableStatus>>, one: seq<bytes>, two: seq<bytes>)
    requires IsOrder(tables, one) && IsOrder(tables, two)
    ensures SizeEntries(tables, one) == SizeEntries(tables, two)
    decreases |one|
  {
    if one == [] {
      NoKeys(tables, one, two);
    } else {
      hide IsOrder, SizeEntries;
      var fewer, one', two' := DropKey(tables, one, two);
      SizeIgnoresOrder(fewer, one', two');
    }
  }

  lemma NoKeys(tables: map<bytes, Option<TableStatus>>, one: seq<bytes>, two: seq<bytes>)
    requires IsOrder(tables, one) && IsOrder(tables, two) && one == []
    ensures two == []
  {
    FirstIsIn(two);
  }

  function First(s: seq<bytes>): bytes { if s == [] then [] else s[0] }

  lemma FirstIsIn(s: seq<bytes>)
    ensures s != [] ==> First(s) in s
  {
  }

  // Main result: SizeVT, adding the entries up in one order, is the length of
  // the encoding that comes out in any other.
  lemma SizeStatusIsLength(m: StatusResponse, one: seq<bytes>, two: seq<bytes>)
    requires IsOrder(m.tables, one) && IsOrder(m.tables, two) && |EncodeStatus(m, two)| <= MAX_INT
    ensures SizeStatus(m, one) == |EncodeStatus(m, two)|
  {
    hide SizeEntry, EncodeVarint, SizeOfVarint, Tag, Repeated, SizeStrings, EntryPayloads, IsOrder;
    OrderListsKeys(m.tables, one); OrderListsKeys(m.tables, two);
    SizeIgnoresOrder(m.tables, one, two);
    SizeEntriesIsLength(m.tables, two);
    SizeStringsIsLength(m.errors);
    SizeOfVarintIsLength(|m.id|); SizeOfVarintIsLength(|m.version|); SizeOfVarintIsLength(|m.info|);
    if m.config.Some? { SizeOfVarintIsLength(|m.config.value|); }
    SmallTags();
  }

  // The converse fails: an entry of two bytes that announces a key of three is
  // accepted when three more bytes follow, which are then read again as a field.
  lemma EntryMayOverrun()
    ensures var b: bytes := [0x22, 0x02, 0x0a, 0x03, 0x0a, 0x01, 0x41];
            && UnmarshalStatus(STATUS_RESPONSE, b) == Ok(STATUS_RESPONSE.(id := [0x41], tables := map[[0x0a, 0x01, 0x41] := None]))
            && Decode(ApplyBounded, TStatusResponse, STATUS_RESPONSE, b, 0) == Err(UnexpectedEOF)
  {
    hide ReadRecord, DecodeStatus, Decode, ReadEntry;
    var b: bytes := [0x22, 0x02, 0x0a, 0x03, 0x0a, 0x01, 0x41];
    var f: bytes := [0x0a, 0x01, 0x41];
    OverrunRecords();
    OverrunRead(b);
    assert b[4..] == f && f[3..] == [];
    var m1 := STATUS_RESPONSE.(tables := map[f := None]);
    DecodeStatusTurn(STATUS_RESPONSE, b, 0);
    DecodeStatusTurn(m1, f, 4);
    DecodeStatusEmpty(m1.(id := [0x41]), f[3..], 7);
    DecodeFails(b);
  }

  lemma OverrunRecords()
    ensures ReadRecord(TStatusResponse, [0x22, 0x02, 0x0a, 0x03, 0x0a, 0x01, 0x41], 0) == Ok((Payload(4, [0x0a, 0x03]), 4))
    ensures ReadRecord(TStatusResponse, [0x0a, 0x01, 0x41], 4) == Ok((Payload(1, [0x41]), 3))
  {
    hide ReadRecord;
    assert PayloadField(1, [0x41]) == [0x0a, 0x01, 0x41] by { assert EncodeVarint(1) == [1] && EncodeVarint(10) == [10]; }
    assert PayloadField(4, [0x0a, 0x03]) == [0x22, 0x02, 0x0a, 0x03] by { assert EncodeVarint(2) == [2] && EncodeVarint(34) == [34]; }
    hide PayloadField;
    var f: bytes := [0x0a, 0x01, 0x41];
    ReadPayloadField(TStatusResponse, 4, [0x0a, 0x03], f, 0);
    ReadPayloadField(TStatusResponse, 1, [0x41], [], 4);
    assert f + [] == f;
    assert [0x22, 0x02, 0x0a, 0x03] + f == [0x22, 0x02, 0x0a, 0x03, 0x0a, 0x01, 0x41];
  }

  lemma {:induction false} DecodeStatusEmpty(m: StatusResponse, b: bytes, pos: nat)
    requires pos + |b| <= MAX_INT && b == []
    ensures DecodeStatus(m, b, pos) == Ok(m)
  {
  }

  lemma DecodeStatusTurn(m: StatusResponse, b: bytes, pos: nat)
    requires pos + |b| <= MAX_INT && b != [] && ReadRecord(TStatusResponse, b, pos).Ok?
    ensures var (r, n) := ReadRecord(TStatusResponse, b, pos).value;
            if r.Payload? && r.field == 4 then
              |r.payload| <= n &&
              (ReadEntry(b, n - |r.payload|, n, pos, [], None).Ok? ==>
                var (k, v) := ReadEntry(b, n - |r.payload|, n, pos, [], None).value;
                DecodeStatus(m, b, pos) == DecodeStatus(m.(tables := m.tables[k := v]), b[n..], pos + n))
            else ApplyStatus(m, r).Ok? ==> DecodeStatus(m, b, pos) == DecodeStatus(ApplyStatus(m, r).value, b[n..], pos + n)
  {
    hide ReadRecord, ReadEntry;
  }

  lemma {:induction false} DecodeFails(b: bytes)
    requires b == [0x22, 0x02, 0x0a, 0x03, 0x0a, 0x01, 0x41]
    requires ReadRecord(TStatusResponse, b, 0) == Ok((Payload(4, [0x0a, 0x03]), 4))
    requires ReadEntry([0x0a, 0x03], 0, 2, 0, [], None) == Err(UnexpectedEOF)
    ensures Decode(ApplyBounded, TStatusResponse, STATUS_RESPONSE, b, 0) == Err(UnexpectedEOF)
  {
    hide ReadRecord, ReadEntry;
  }

  lemma {:induction false} OverrunRead(b: bytes)
    requires b == [0x22, 0x02, 0x0a, 0x03, 0x0a, 0x01, 0x41]
    ensures ReadEntry(b, 2, 4, 0, [], None) == Ok(([0x0a, 0x01, 0x41], None))
    ensures ReadEntry([0x0a, 0x03], 0, 2, 0, [], None) == Err(UnexpectedEOF)
  {
    hide SkipRecord, UnmarshalTableStatus;
    var c, d := b[2..], [0x0a, 0x03];
    assert c == [0x0a, 0x03, 0x0a, 0x01, 0x41] && b[5 - 1..7] == [0x0a, 0x01, 0x41];
    SmallVarint(c, 0x0a); SmallVarint(c[1..], 0x03); SmallVarint(d[0..], 0x0a); SmallVarint(d[1..], 0x03);
    assert d[0..] == d;
    TagParts(1, 2);
    CutLength(3);
    assert ReadLength(c, 1, 2) == Ok((2, 5));
    assert ReadLength(d, 1, 0) == Err(UnexpectedEOF);
    assert ReadEntry(b, 7, 4, 0, [0x0a, 0x01, 0x41], None) == Ok(([0x0a, 0x01, 0x41], None));
  }

  lemma SmallVarint(b: bytes, v: byte)
    requires b != [] && b[0] == v && v < 128
    ensures ReadVarint(b, W64) == Ok((v, 1))
  {
  }
}
