// The writer and the parser of StatusResponse on the real buffer.
module StatusLoops {
  import opened Common
  import opened Varint
  import opened Wire
  import opened Messages
  import opened Writer
  import Marshal
  import opened UnmarshalLoops
  import opened Status

  // ---------- writing ----------

  method PutUnsigned(dAtA: array<byte>, i: nat, tag: byte, v: u64, ghost s0: bytes, ghost hi: nat, ghost out: bytes) returns (j: nat)
    requires Wrote(s0, dAtA[..], i, hi, out)
    requires tag % 8 == 0 && 1 <= tag / 8 < 16 && SizeUnsigned(v) <= i
    modifies dAtA
    ensures j == i - SizeUnsigned(v) && Wrote(s0, dAtA[..], j, hi, OptUnsigned(tag / 8, v) + out)
  {
    hide Wrote, SizeOfVarint, NumberField;
    j := i;
    if v != 0 {
      j := PutVarint(dAtA, j, tag, v, s0, hi, out);
    } else {
      assert [] + out == out;
    }
  }

  method MarshalTableStatus(m: TableStatus, dAtA: array<byte>, hi: nat) returns (n: nat)
    requires SizeTableStatus(m) <= hi <= dAtA.Length <= MAX_INT
    modifies dAtA
    ensures n == SizeTableStatus(m) && Wrote(old(dAtA[..]), dAtA[..], hi - n, hi, EncodeTableStatus(m))
  {
    hide Wrote, SizeBytes, SizeNumber, SizeUnsigned, OptBytes, OptNumber, OptUnsigned;
    ghost var s0 := dAtA[..];
    var i := CopyBefore(dAtA, hi, m.unknown);
    ghost var out := m.unknown;
    i := PutUnsigned(dAtA, i, 0x38, m.raftAppliedIndex, s0, hi, out);
    out := OptUnsigned(7, m.raftAppliedIndex) + out;
    i := PutUnsigned(dAtA, i, 0x30, m.raftTerm, s0, hi, out);
    out := OptUnsigned(6, m.raftTerm) + out;
    i := PutUnsigned(dAtA, i, 0x28, m.raftIndex, s0, hi, out);
    out := OptUnsigned(5, m.raftIndex) + out;
    i := PutBytes(dAtA, i, 0x22, Some(m.leader), s0, hi, out);
    out := OptBytes(4, Some(m.leader)) + out;
    i := PutNumber(dAtA, i, 0x18, m.dbSize, s0, hi, out);
    out := OptNumber(3, m.dbSize) + out;
    i := PutNumber(dAtA, i, 0x10, m.logSize, s0, hi, out);
    n := hi - i;
  }

  function SizeValue(v: Option<TableStatus>): nat { if v.Some? then SizeTableStatus(v.value) else 0 }

  lemma EntrySizes(k: bytes, v: Option<TableStatus>)
    ensures var l := SizeMessage(SizeValue(v)) + SizeMessage(|k|); SizeEntry(k, v) == 1 + SizeOfVarint(l) + l
  {
    hide SizeOfVarint, SizeTableStatus;
  }

  /** Value and key of an entry, in the order they are written. */
  method PutKeyValue(k: bytes, v: Option<TableStatus>, dAtA: array<byte>, i: nat) returns (j: nat)
    requires SizeEntry(k, v) <= i <= dAtA.Length <= MAX_INT
    modifies dAtA
    ensures j <= i && SizeEntry(k, v) == 1 + SizeOfVarint(i - j) + (i - j)
    ensures Wrote(old(dAtA[..]), dAtA[..], j, i, EntryPayload(k, v))
  {
    EntrySizes(k, v);
    hide Wrote, SizeTableStatus, EncodeTableStatus, SizeOfVarint, PayloadField, SizeEntry;
    ghost var s1 := dAtA[..];
    ghost var e := EncodeValue(v);
    var size := 0;
    if v.Some? {
      size := MarshalTableStatus(v.value, dAtA, i);
    } else {
      NothingWritten(s1, i);
    }
    j := i - size;
    WroteSize(s1, dAtA[..], j, i, e);
    assert e + [] == e;
    j := PutPrefix(dAtA, j, 0x12, size, e, s1, i, []);
    j := PutPayload(dAtA, j, 0xa, k, s1, i, PayloadField(2, e) + []);
    assert PayloadField(1, k) + (PayloadField(2, e) + []) == EntryPayload(k, v);
  }

  /** One turn of the loop over the map: the pair and the entry's own prefix. */
  method PutEntry(k: bytes, v: Option<TableStatus>, dAtA: array<byte>, i: nat,
                  ghost ps: seq<bytes>, ghost s0: bytes, ghost hi: nat, ghost out: bytes) returns (j: nat)
    requires i <= dAtA.Length <= MAX_INT && Wrote(s0, dAtA[..], i, hi, Repeated(4, ps) + out)
    requires SizeEntry(k, v) <= i
    modifies dAtA
    ensures j == i - SizeEntry(k, v)
    ensures Wrote(s0, dAtA[..], j, hi, Repeated(4, [EntryPayload(k, v)] + ps) + out)
  {
    hide *;
    ghost var s1 := dAtA[..];
    j := PutKeyValue(k, v, dAtA, i);
    j := PutElement(dAtA, j, 0x22, i - j, EntryPayload(k, v), ps, s1, s0, hi, out);
  }

  /** order lists, once each, the keys that are not left. */
  ghost predicate Listed(tables: map<bytes, Option<TableStatus>>, order: seq<bytes>, left: set<bytes>) {
    && left <= tables.Keys && (forall k <- order :: k in tables)
    && (forall k :: k in order <==> k in tables && k !in left)
    && (forall x, y :: 0 <= x < y < |order| ==> order[x] != order[y])
  }

  lemma {:induction false} ListOne(tables: map<bytes, Option<TableStatus>>, done: seq<bytes>, left: set<bytes>, k: bytes)
    requires k !in left && k in tables && Listed(tables, done, left + {k})
    ensures Listed(tables, [k] + done, left)
    ensures SizeEntries(tables, [k] + done) == SizeEntry(k, tables[k]) + SizeEntries(tables, done)
    ensures EntryPayloads(tables, [k] + done) == [EntryPayload(k, tables[k])] + EntryPayloads(tables, done)
  {
    hide SizeEntry, EntryPayload;
    var order := [k] + done;
    assert order[1..] == done && order[0] == k;
    assert forall x :: x in order <==> x == k || x in done;
  }

  /** `for k := range m.Tables`: the order is Go's, any order of the keys. The
      entry written first comes out last. */
  method MarshalTables(tables: map<bytes, Option<TableStatus>>, dAtA: array<byte>, i: nat,
                       ghost one: seq<bytes>, ghost s0: bytes, ghost hi: nat, ghost out: bytes) returns (j: nat, ghost order: seq<bytes>)
    requires dAtA.Length <= MAX_INT && Wrote(s0, dAtA[..], i, hi, out)
    requires IsOrder(tables, one) && (forall k <- one :: k in tables) && SizeEntries(tables, one) <= i
    modifies dAtA
    ensures IsOrder(tables, order) && forall k <- order :: k in tables
    ensures j == i - SizeEntries(tables, one) && Wrote(s0, dAtA[..], j, hi, Repeated(4, EntryPayloads(tables, order)) + out)
  {
    hide *;
    j, order := i, [];
    var left := tables.Keys;
    NothingListed(tables, dAtA, i, s0, hi, out);
    while left != {}
      invariant Listed(tables, order, left) && forall k <- order :: k in tables
      invariant i - j == SizeEntries(tables, order) && j <= i <= dAtA.Length
      invariant Wrote(s0, dAtA[..], j, hi, Repeated(4, EntryPayloads(tables, order)) + out)
      decreases left
    {
      var k :| k in left;
      ghost var done := order;
      assert left - {k} + {k} == left;
      left := left - {k};
      ListNext(tables, done, left, k, one);
      order := [k] + done;
      j := PutEntry(k, tables[k], dAtA, j, EntryPayloads(tables, done), s0, hi, out);
    }
    SizePrefix(tables, order, {}, one);
  }

  lemma {:induction false} NothingListed(tables: map<bytes, Option<TableStatus>>, dAtA: array<byte>, i: nat, s0: bytes, hi: nat, out: bytes)
    requires Wrote(s0, dAtA[..], i, hi, out)
    ensures Listed(tables, [], tables.Keys) && SizeEntries(tables, []) == 0 && i <= dAtA.Length
    ensures Wrote(s0, dAtA[..], i, hi, Repeated(4, EntryPayloads(tables, [])) + out)
  {
    assert Repeated(4, []) + out == out;
  }

  lemma {:induction false} ListNext(tables: map<bytes, Option<TableStatus>>, done: seq<bytes>, left: set<bytes>, k: bytes, one: seq<bytes>)
    requires Listed(tables, done, left + {k}) && k !in left && IsOrder(tables, one) && forall k <- one :: k in tables
    ensures k in tables && Listed(tables, [k] + done, left) && (forall x <- [k] + done :: x in tables) && (forall x <- done :: x in tables)
    ensures SizeEntries(tables, [k] + done) == SizeEntry(k, tables[k]) + SizeEntries(tables, done) <= SizeEntries(tables, one)
    ensures EntryPayloads(tables, [k] + done) == [EntryPayload(k, tables[k])] + EntryPayloads(tables, done)
  {
    hide SizeEntry, EntryPayload, SizeEntries, EntryPayloads, IsOrder;
    ListOne(tables, done, left, k);
    SizePrefix(tables, [k] + done, left, one);
  }

  // What is still to be written fits in front of what has been.
  lemma {:induction false} SizePrefix(tables: map<bytes, Option<TableStatus>>, order: seq<bytes>, left: set<bytes>, one: seq<bytes>)
    requires Listed(tables, order, left) && IsOrder(tables, one) && forall k <- one :: k in tables
    ensures SizeEntries(tables, order) <= SizeEntries(tables, one)
    ensures left == {} ==> IsOrder(tables, order) && SizeEntries(tables, order) == SizeEntries(tables, one)
    decreases left
  {
    if left == {} {
      assert IsOrder(tables, order);
      SizeIgnoresOrder(tables, order, one);
    } else {
      var k :| k in left;
      ListOne(tables, order, left - {k}, k);
      hide IsOrder, SizeEntry;
      SizePrefix(tables, [k] + order, left - {k}, one);
    }
  }

  method PutStrings(ss: seq<bytes>, dAtA: array<byte>, i: nat, ghost s0: bytes, ghost hi: nat, ghost out: bytes) returns (j: nat)
    requires dAtA.Length <= MAX_INT && Wrote(s0, dAtA[..], i, hi, out) && SizeStrings(ss) <= i
    modifies dAtA
    ensures j == i - SizeStrings(ss) && Wrote(s0, dAtA[..], j, hi, Repeated(8, ss) + out)
  {
    hide Wrote, SizeMessage, Repeated;
    j := i;
    var iNdEx := |ss|;
    assert ss[iNdEx..] == [] && Repeated(8, []) + out == out by { Marshal.NoElements(8, out); }
    while iNdEx > 0
      invariant 0 <= iNdEx <= |ss|
      invariant j == i - SizeStrings(ss[iNdEx..])
      invariant Wrote(s0, dAtA[..], j, hi, Repeated(8, ss[iNdEx..]) + out)
    {
      iNdEx := iNdEx - 1;
      SizeStringsFrom(ss, iNdEx);
      ghost var rest := ss[iNdEx + 1..];
      assert ss[iNdEx..] == [ss[iNdEx]] + rest;
      j := PutPayload(dAtA, j, 0x42, ss[iNdEx], s0, hi, Repeated(8, rest) + out);
      PrependString(ss[iNdEx], rest, out);
    }
    assert ss[0..] == ss;
  }

  lemma {:induction false} PrependString(e: bytes, rest: seq<bytes>, out: bytes)
    ensures Repeated(8, [e] + rest) + out == PayloadField(8, e) + (Repeated(8, rest) + out)
  {
    assert ([e] + rest)[1..] == rest;
  }

  lemma {:induction false} SizeStringsFrom(ss: seq<bytes>, k: nat)
    requires k < |ss|
    ensures SizeStrings(ss[k..]) == SizeMessage(|ss[k]|) + SizeStrings(ss[k + 1..]) <= SizeStrings(ss)
    decreases k
  {
    hide SizeMessage;
    assert ss[k..][1..] == ss[k + 1..];
    if k > 0 {
      SizeStringsFrom(ss, k - 1);
    } else {
      assert ss[0..] == ss;
    }
  }

  // Main result: with SizeVT added up in one order of the map and the entries
  // written in another, exactly SizeVT bytes are written.
  method MarshalStatus(m: StatusResponse, dAtA: array<byte>, hi: nat, ghost one: seq<bytes>) returns (n: nat, ghost order: seq<bytes>)
    requires IsOrder(m.tables, one) && (forall k <- one :: k in m.tables)
    requires SizeStatus(m, one) <= hi <= dAtA.Length <= MAX_INT
    modifies dAtA
    ensures n == SizeStatus(m, one) && IsOrder(m.tables, order) && forall k <- order :: k in m.tables
    ensures Wrote(old(dAtA[..]), dAtA[..], hi - n, hi, EncodeStatus(m, order))
  {
    hide Wrote, SizeBytes, SizeEntries, SizeStrings, SizeMessage, OptBytes, OptPayload, Repeated, EntryPayloads, IsOrder;
    ghost var s0 := dAtA[..];
    var i := CopyBefore(dAtA, hi, m.unknown);
    ghost var out := m.unknown;
    i := PutStrings(m.errors, dAtA, i, s0, hi, out);
    out := Repeated(8, m.errors) + out;
    i := Marshal.PutPresent(m.config, dAtA, i, 0x2a, s0, hi, out);
    out := OptPayload(5, m.config) + out;
    i, order := MarshalTables(m.tables, dAtA, i, one, s0, hi, out);
    out := Repeated(4, EntryPayloads(m.tables, order)) + out;
    i := PutBytes(dAtA, i, 0x1a, Some(m.info), s0, hi, out);
    out := OptBytes(3, Some(m.info)) + out;
    i := PutBytes(dAtA, i, 0x12, Some(m.version), s0, hi, out);
    out := OptBytes(2, Some(m.version)) + out;
    i := PutBytes(dAtA, i, 0xa, Some(m.id), s0, hi, out);
    n := hi - i;
  }

  // ---------- reading ----------

  method UnmarshalTableStatusAt(m: TableStatus, dAtA: array<byte>, lo: nat, hi: nat) returns (r: Result<TableStatus, DecodeError>)
    requires lo <= hi <= dAtA.Length <= MAX_INT
    ensures r == UnmarshalTableStatus(m, dAtA[lo..hi])
  {
    hide ReadRecord, Int64;
    var cur, iNdEx := m, lo;
    while iNdEx < hi
      invariant lo <= iNdEx <= hi
      invariant Decode(ApplyTableStatus, TTableStatus, cur, dAtA[iNdEx..hi], iNdEx - lo) == Decode(ApplyTableStatus, TTableStatus, m, dAtA[lo..hi], 0)
    {
      var s, next := NextRecord(TTableStatus, dAtA, lo, hi, iNdEx);
      if s.Err? {
        return Err(s.error);
      }
      SubSlice(dAtA[..], iNdEx, hi, next - iNdEx, hi - iNdEx);
      match s.value {
        case PayloadSlot(field, from, to) =>
          if field == 4 { cur := cur.(leader := dAtA[from..to]); }
        case NumberSlot(field, v) =>
          match field {
            case 2 => cur := cur.(logSize := Int64(v));
            case 3 => cur := cur.(dbSize := Int64(v));
            case 5 => cur := cur.(raftIndex := v);
            case 6 => cur := cur.(raftTerm := v);
            case 7 => cur := cur.(raftAppliedIndex := v);
            case _ =>
          }
        case UnknownSlot(from, to) =>
          cur := cur.(unknown := cur.unknown + dAtA[from..to]);
      }
      iNdEx := next;
    }
    return Ok(cur);
  }

  /** One record of an entry, on the buffer. */
  method ReadPartAt(dAtA: array<byte>, lo: nat, hi: nat, i: nat) returns (r: Result<Part, DecodeError>)
    requires lo <= i <= hi <= dAtA.Length <= MAX_INT
    ensures r == ReadPart(dAtA[i..hi], i - lo)
  {
    hide ReadVarint, ReadLength, SkipRecord, FieldNum;
    var tag := ReadVarintLoop(dAtA, i, hi, W64);
    if tag.Err? {
      return Err(tag.error);
    }
    var (wire, k) := tag.value;
    var fieldNum := FieldNum(wire);
    if fieldNum == 1 || fieldNum == 2 {
      var bounds := ReadLengthAt(dAtA, lo, hi, i, k - i);
      if bounds.Err? {
        return Err(bounds.error);
      }
      var (from, to) := (bounds.value.0 - i, bounds.value.1 - i);
      return Ok(if fieldNum == 1 then KeyPart(from, to) else ValuePart(from, to));
    }
    var end := SkipAt(dAtA, lo, hi, i);
    if end.Err? {
      return Err(end.error);
    }
    return Ok(OtherPart(end.value - i));
  }

  // One turn of the entry loop.
  lemma EntryTurn(b: bytes, j: nat, post: nat, pos: nat, key: bytes, value: Option<TableStatus>)
    requires j < post <= |b| && pos + |b| <= MAX_INT
    ensures ReadEntry(b, j, post, pos, key, value) ==
            match ReadPart(b[j..], pos + j)
            case Err(e) => Err(e)
            case Ok(KeyPart(from, to)) => ReadEntry(b, j + to, post, pos, b[j + from..j + to], value)
            case Ok(ValuePart(from, to)) =>
              (match UnmarshalTableStatus(TABLE_STATUS, b[j + from..j + to])
               case Err(e) => Err(e)
               case Ok(v) => ReadEntry(b, j + to, post, pos, key, Some(v)))
            case Ok(OtherPart(n)) => if j + n > post then Err(UnexpectedEOF) else ReadEntry(b, j + n, post, pos, key, value)
  {
    hide ReadPart, UnmarshalTableStatus;
  }

  lemma {:induction false} EntryEnds(b: bytes, j: nat, post: nat, pos: nat, key: bytes, value: Option<TableStatus>)
    requires post <= j <= |b| && pos + |b| <= MAX_INT
    ensures ReadEntry(b, j, post, pos, key, value) == Ok((key, value))
  {
  }

  // A part of the window d[i..hi], seen in the buffer.
  lemma InWindow(d: bytes, i: nat, hi: nat, at: nat, from: nat, to: nat)
    requires i <= at <= at + from <= at + to <= hi <= |d|
    ensures d[i..hi][at - i..] == d[at..hi] && d[i..hi][at - i + from..at - i + to] == d[at + from..at + to]
  {
    SubSlice(d, i, hi, at - i, hi - i);
    SubSlice(d, i, hi, at - i + from, at - i + to);
  }

  /** The entry loop from i on, inside the message dAtA[lo..hi]; the entry ends at post. */
  method ReadEntryAt(dAtA: array<byte>, lo: nat, hi: nat, i: nat, post: nat) returns (r: Result<(bytes, Option<TableStatus>), DecodeError>)
    requires lo <= i <= post <= hi <= dAtA.Length <= MAX_INT
    ensures r == ReadEntry(dAtA[i..hi], 0, post - i, i - lo, [], None)
  {
    hide *;
    ghost var b := dAtA[i..hi];
    var mapkey: bytes, mapvalue: Option<TableStatus>, iNdEx := [], None, i;
    while iNdEx < post
      invariant i <= iNdEx <= hi
      invariant ReadEntry(b, iNdEx - i, post - i, i - lo, mapkey, mapvalue) == ReadEntry(b, 0, post - i, i - lo, [], None)
      decreases hi - iNdEx
    {
      InWindow(dAtA[..], i, hi, iNdEx, 0, 0);
      EntryTurn(b, iNdEx - i, post - i, i - lo, mapkey, mapvalue);
      var part := ReadPartAt(dAtA, lo, hi, iNdEx);
      if part.Err? {
        return Err(part.error);
      }
      match part.value {
        case KeyPart(from, to) =>
          InWindow(dAtA[..], i, hi, iNdEx, from, to);
          mapkey := dAtA[iNdEx + from..iNdEx + to];
          iNdEx := iNdEx + to;
        case ValuePart(from, to) =>
          InWindow(dAtA[..], i, hi, iNdEx, from, to);
          var v := UnmarshalTableStatusAt(TABLE_STATUS, dAtA, iNdEx + from, iNdEx + to);
          if v.Err? {
            return Err(v.error);
          }
          mapvalue := Some(v.value);
          iNdEx := iNdEx + to;
        case OtherPart(n) =>
          if iNdEx + n > post {
            return Err(UnexpectedEOF);
          }
          iNdEx := iNdEx + n;
      }
    }
    EntryEnds(b, iNdEx - i, post - i, i - lo, mapkey, mapvalue);
    return Ok((mapkey, mapvalue));
  }

  // The entry loop does not mind where the buffer it works on starts.
  lemma {:induction false} EntryFrom(b: bytes, j: nat, i: nat, post: nat, pos: nat, key: bytes, value: Option<TableStatus>)
    requires j + i <= |b| && j <= post <= |b| && pos + |b| <= MAX_INT
    ensures ReadEntry(b, j + i, post, pos, key, value) == ReadEntry(b[j..], i, post - j, pos + j, key, value)
    decreases |b| - j - i
  {
    hide ReadPart, UnmarshalTableStatus;
    var c := b[j..];
    assert c[i..] == b[j + i..] && c == b[j..|b|];
    if j + i < post && ReadPart(c[i..], pos + j + i).Ok? {
      match ReadPart(c[i..], pos + j + i).value {
        case KeyPart(from, to) =>
          SubSlice(b, j, |b|, i + from, i + to);
          EntryFrom(b, j, i + to, post, pos, c[i + from..i + to], value);
        case ValuePart(from, to) =>
          SubSlice(b, j, |b|, i + from, i + to);
          var v := UnmarshalTableStatus(TABLE_STATUS, c[i + from..i + to]);
          if v.Ok? { EntryFrom(b, j, i + to, post, pos, key, Some(v.value)); }
        case OtherPart(n) =>
          EntryFrom(b, j, i + n, post, pos, key, value);
      }
    }
  }

  /** The entry at from..to of the record at i. */
  method ReadRecordEntryAt(dAtA: array<byte>, lo: nat, hi: nat, i: nat, from: nat, to: nat) returns (r: Result<(bytes, Option<TableStatus>), DecodeError>)
    requires lo <= i <= from <= to <= hi <= dAtA.Length <= MAX_INT
    ensures r == ReadEntry(dAtA[i..hi], from - i, to - i, i - lo, [], None)
  {
    hide ReadEntry;
    SubSlice(dAtA[..], i, hi, from - i, hi - i);
    EntryFrom(dAtA[i..hi], from - i, 0, to - i, i - lo, [], None);
    r := ReadEntryAt(dAtA, lo, hi, from, to);
  }

  method UnmarshalStatusAt(m: StatusResponse, dAtA: array<byte>, lo: nat, hi: nat) returns (r: Result<StatusResponse, DecodeError>)
    requires lo <= hi <= dAtA.Length <= MAX_INT
    ensures r == UnmarshalStatus(m, dAtA[lo..hi])
  {
    hide ReadRecord, ReadEntry;
    var cur, iNdEx := m, lo;
    while iNdEx < hi
      invariant lo <= iNdEx <= hi
      invariant DecodeStatus(cur, dAtA[iNdEx..hi], iNdEx - lo) == DecodeStatus(m, dAtA[lo..hi], 0)
    {
      var s, next := NextRecord(TStatusResponse, dAtA, lo, hi, iNdEx);
      if s.Err? {
        return Err(s.error);
      }
      SubSlice(dAtA[..], iNdEx, hi, next - iNdEx, hi - iNdEx);
      match s.value {
        case PayloadSlot(field, from, to) =>
          match field {
            case 1 => cur := cur.(id := dAtA[from..to]);
            case 2 => cur := cur.(version := dAtA[from..to]);
            case 3 => cur := cur.(info := dAtA[from..to]);
            case 4 =>
              var entry := ReadRecordEntryAt(dAtA, lo, hi, iNdEx, from, to);
              if entry.Err? {
                return Err(entry.error);
              }
              var (mapkey, mapvalue) := entry.value;
              cur := cur.(tables := cur.tables[mapkey := mapvalue]);
            case 5 => cur := cur.(config := Some(OrElse(cur.config, []) + dAtA[from..to]));
            case 8 => cur := cur.(errors := cur.errors + [dAtA[from..to]]);
            case _ =>
          }
        case NumberSlot(field, v) =>
        case UnknownSlot(from, to) =>
          cur := cur.(unknown := cur.unknown + dAtA[from..to]);
      }
      iNdEx := next;
    }
    return Ok(cur);
  }
}
