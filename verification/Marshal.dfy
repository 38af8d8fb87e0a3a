// MarshalToSizedBufferVT and MarshalVT of every message, on the real buffer.
// The slice written to is dAtA[..hi]; the answer is the number of bytes written.
module Marshal {
  import opened Common
  import opened Varint
  import opened Wire
  import opened Messages
  import opened Writer

  method MarshalKeyValue(m: KeyValue, dAtA: array<byte>, hi: nat) returns (n: nat)
    requires SizeKeyValue(m) <= hi <= dAtA.Length <= MAX_INT
    modifies dAtA
    ensures n == SizeKeyValue(m) && Wrote(old(dAtA[..]), dAtA[..], hi - n, hi, EncodeKeyValue(m))
  {
    hide Wrote, SizeBytes, SizeNumber, OptBytes, OptNumber;
    ghost var s0 := dAtA[..];
    var i := CopyBefore(dAtA, hi, m.unknown);
    ghost var out := m.unknown;
    i := PutBytes(dAtA, i, 0x22, m.value, s0, hi, out);
    out := OptBytes(4, m.value) + out;
    i := PutNumber(dAtA, i, 0x18, m.modRevision, s0, hi, out);
    out := OptNumber(3, m.modRevision) + out;
    i := PutNumber(dAtA, i, 0x10, m.createRevision, s0, hi, out);
    out := OptNumber(2, m.createRevision) + out;
    i := PutBytes(dAtA, i, 0xa, m.key, s0, hi, out);
    n := hi - i;
  }

  /** The fields of a range after its keys, which are written first. */
  method PutRangeNumbers(m: Range, dAtA: array<byte>, hi: nat) returns (i: nat)
    requires SizeNumber(m.limit) + SizeBool(m.keysOnly) + SizeBool(m.countOnly) + |m.unknown| <= hi <= dAtA.Length <= MAX_INT
    modifies dAtA
    ensures i == hi - (SizeNumber(m.limit) + SizeBool(m.keysOnly) + SizeBool(m.countOnly) + |m.unknown|)
    ensures Wrote(old(dAtA[..]), dAtA[..], i, hi, OptNumber(3, m.limit) + (OptBool(4, m.keysOnly) + (OptBool(5, m.countOnly) + m.unknown)))
  {
    hide *;
    ghost var s0 := dAtA[..];
    i := CopyBefore(dAtA, hi, m.unknown);
    i := PutBool(dAtA, i, 0x28, m.countOnly, s0, hi, m.unknown);
    i := PutBool(dAtA, i, 0x20, m.keysOnly, s0, hi, OptBool(5, m.countOnly) + m.unknown);
    i := PutNumber(dAtA, i, 0x18, m.limit, s0, hi, OptBool(4, m.keysOnly) + (OptBool(5, m.countOnly) + m.unknown));
  }

  method MarshalRange(m: Range, dAtA: array<byte>, hi: nat) returns (n: nat)
    requires SizeRange(m) <= hi <= dAtA.Length <= MAX_INT
    modifies dAtA
    ensures n == SizeRange(m) && Wrote(old(dAtA[..]), dAtA[..], hi - n, hi, EncodeRange(m))
  {
    hide Wrote, SizeBytes, SizeNumber, SizeBool, OptBytes, OptNumber, OptBool;
    ghost var s0 := dAtA[..];
    var i := PutRangeNumbers(m, dAtA, hi);
    ghost var out := OptNumber(3, m.limit) + (OptBool(4, m.keysOnly) + (OptBool(5, m.countOnly) + m.unknown));
    i := PutBytes(dAtA, i, 0x12, m.rangeEnd, s0, hi, out);
    i := PutBytes(dAtA, i, 0xa, m.key, s0, hi, OptBytes(2, m.rangeEnd) + out);
    n := hi - i;
  }

  method MarshalPut(m: Put, dAtA: array<byte>, hi: nat) returns (n: nat)
    requires SizePut(m) <= hi <= dAtA.Length <= MAX_INT
    modifies dAtA
    ensures n == SizePut(m) && Wrote(old(dAtA[..]), dAtA[..], hi - n, hi, EncodePut(m))
  {
    hide Wrote, SizeBytes, SizeBool, OptBytes, OptBool;
    ghost var s0 := dAtA[..];
    var i := CopyBefore(dAtA, hi, m.unknown);
    ghost var out := m.unknown;
    i := PutBool(dAtA, i, 0x18, m.prevKv, s0, hi, out);
    out := OptBool(3, m.prevKv) + out;
    i := PutBytes(dAtA, i, 0x12, m.value, s0, hi, out);
    out := OptBytes(2, m.value) + out;
    i := PutBytes(dAtA, i, 0xa, m.key, s0, hi, out);
    n := hi - i;
  }

  method MarshalDeleteRange(m: DeleteRange, dAtA: array<byte>, hi: nat) returns (n: nat)
    requires SizeDeleteRange(m) <= hi <= dAtA.Length <= MAX_INT
    modifies dAtA
    ensures n == SizeDeleteRange(m) && Wrote(old(dAtA[..]), dAtA[..], hi - n, hi, EncodeDeleteRange(m))
  {
    hide Wrote, SizeBytes, SizeBool, OptBytes, OptBool;
    ghost var s0 := dAtA[..];
    var i := CopyBefore(dAtA, hi, m.unknown);
    ghost var out := m.unknown;
    i := PutBool(dAtA, i, 0x28, m.count, s0, hi, out);
    out := OptBool(5, m.count) + out;
    i := PutBool(dAtA, i, 0x20, m.prevKv, s0, hi, out);
    out := OptBool(4, m.prevKv) + out;
    i := PutBytes(dAtA, i, 0x12, m.rangeEnd, s0, hi, out);
    out := OptBytes(2, m.rangeEnd) + out;
    i := PutBytes(dAtA, i, 0xa, m.key, s0, hi, out);
    n := hi - i;
  }

  // The MarshalToSizedBufferVT of the three oneof wrappers.

  method MarshalRequestRange(body: Option<Range>, dAtA: array<byte>, hi: nat) returns (n: nat)
    requires SizeRequest(RequestRange(body)) <= hi <= dAtA.Length <= MAX_INT
    modifies dAtA
    ensures n == SizeRequest(RequestRange(body)) && Wrote(old(dAtA[..]), dAtA[..], hi - n, hi, EncodeRequest(RequestRange(body)))
  {
    hide Wrote, SizeRange, EncodeRange, PayloadField, SizeOfVarint;
    ghost var s0 := dAtA[..];
    var i := hi;
    if body.Some? {
      var size := MarshalRange(body.value, dAtA, i);
      i := i - size;
      ghost var e := EncodeRange(body.value);
      WroteSize(s0, dAtA[..], i, hi, e);
      assert e + [] == e;
      i := PutPrefix(dAtA, i, 0xa, size, e, s0, hi, []);
      assert PayloadField(1, e) + [] == PayloadField(1, e);
    } else {
      NothingWritten(s0, i);
    }
    n := hi - i;
  }

  method MarshalRequestPut(body: Option<Put>, dAtA: array<byte>, hi: nat) returns (n: nat)
    requires SizeRequest(RequestPut(body)) <= hi <= dAtA.Length <= MAX_INT
    modifies dAtA
    ensures n == SizeRequest(RequestPut(body)) && Wrote(old(dAtA[..]), dAtA[..], hi - n, hi, EncodeRequest(RequestPut(body)))
  {
    hide Wrote, SizePut, EncodePut, PayloadField, SizeOfVarint;
    ghost var s0 := dAtA[..];
    var i := hi;
    if body.Some? {
      var size := MarshalPut(body.value, dAtA, i);
      i := i - size;
      ghost var e := EncodePut(body.value);
      WroteSize(s0, dAtA[..], i, hi, e);
      assert e + [] == e;
      i := PutPrefix(dAtA, i, 0x12, size, e, s0, hi, []);
      assert PayloadField(2, e) + [] == PayloadField(2, e);
    } else {
      NothingWritten(s0, i);
    }
    n := hi - i;
  }

  method MarshalRequestDeleteRange(body: Option<DeleteRange>, dAtA: array<byte>, hi: nat) returns (n: nat)
    requires SizeRequest(RequestDeleteRange(body)) <= hi <= dAtA.Length <= MAX_INT
    modifies dAtA
    ensures n == SizeRequest(RequestDeleteRange(body)) && Wrote(old(dAtA[..]), dAtA[..], hi - n, hi, EncodeRequest(RequestDeleteRange(body)))
  {
    hide Wrote, SizeDeleteRange, EncodeDeleteRange, PayloadField, SizeOfVarint;
    ghost var s0 := dAtA[..];
    var i := hi;
    if body.Some? {
      var size := MarshalDeleteRange(body.value, dAtA, i);
      i := i - size;
      ghost var e := EncodeDeleteRange(body.value);
      WroteSize(s0, dAtA[..], i, hi, e);
      assert e + [] == e;
      i := PutPrefix(dAtA, i, 0x1a, size, e, s0, hi, []);
      assert PayloadField(3, e) + [] == PayloadField(3, e);
    } else {
      NothingWritten(s0, i);
    }
    n := hi - i;
  }

  method MarshalRequest(r: Request, dAtA: array<byte>, hi: nat) returns (n: nat)
    requires SizeRequest(r) <= hi <= dAtA.Length <= MAX_INT
    modifies dAtA
    ensures n == SizeRequest(r) && Wrote(old(dAtA[..]), dAtA[..], hi - n, hi, EncodeRequest(r))
  {
    match r {
      case NoRequest => n := 0; NothingWritten(dAtA[..], hi);
      case RequestRange(x) => n := MarshalRequestRange(x, dAtA, hi);
      case RequestPut(x) => n := MarshalRequestPut(x, dAtA, hi);
      case RequestDeleteRange(x) => n := MarshalRequestDeleteRange(x, dAtA, hi);
    }
  }

  method MarshalRequestOp(m: RequestOp, dAtA: array<byte>, hi: nat) returns (n: nat)
    requires SizeRequestOp(m) <= hi <= dAtA.Length <= MAX_INT
    modifies dAtA
    ensures n == SizeRequestOp(m) && Wrote(old(dAtA[..]), dAtA[..], hi - n, hi, EncodeRequestOp(m))
  {
    hide Wrote, SizeRequest, EncodeRequest;
    ghost var s0 := dAtA[..];
    var i := CopyBefore(dAtA, hi, m.unknown);
    ghost var s1, k := dAtA[..], i;
    var size := MarshalRequest(m.request, dAtA, i);
    i := i - size;
    WroteThen(s0, s1, dAtA[..], k, i, hi, m.unknown, EncodeRequest(m.request));
    n := hi - i;
  }

  method MarshalCompare(m: Compare, dAtA: array<byte>, hi: nat) returns (n: nat)
    requires SizeCompare(m) <= hi <= dAtA.Length <= MAX_INT
    modifies dAtA
    ensures n == SizeCompare(m) && Wrote(old(dAtA[..]), dAtA[..], hi - n, hi, EncodeCompare(m))
  {
    hide Wrote, SizeBytes, SizeNumber, SizeOfVarint, OptNumber, OptBytes, PayloadField;
    ghost var s0 := dAtA[..];
    var i := CopyBefore(dAtA, hi, m.unknown);
    ghost var out := m.unknown;
    if m.targetUnion.Some? {
      i := PutPayload(dAtA, i, 0x22, OrElse(m.targetUnion.value, []), s0, hi, out);
    } else {
      assert [] + out == out;
    }
    out := EncodeTargetUnion(m.targetUnion) + out;
    i := PutRangeEnd64(dAtA, i, m.rangeEnd, s0, hi, out);
    out := OptBytes(64, m.rangeEnd) + out;
    i := PutBytes(dAtA, i, 0x1a, m.key, s0, hi, out);
    out := OptBytes(3, m.key) + out;
    i := PutNumber(dAtA, i, 0x10, m.target, s0, hi, out);
    out := OptNumber(2, m.target) + out;
    i := PutNumber(dAtA, i, 0x8, m.result, s0, hi, out);
    n := hi - i;
  }

  /** Field 64 of Compare, whose tag takes two bytes. */
  method PutRangeEnd64(dAtA: array<byte>, i: nat, p: Option<bytes>, ghost s0: bytes, ghost hi: nat, ghost out: bytes) returns (j: nat)
    requires dAtA.Length <= MAX_INT && Wrote(s0, dAtA[..], i, hi, out)
    requires (if p.Some? && |p.value| > 0 then 2 + |p.value| + SizeOfVarint(|p.value|) else 0) <= i
    modifies dAtA
    ensures j == i - (if p.Some? && |p.value| > 0 then 2 + |p.value| + SizeOfVarint(|p.value|) else 0)
    ensures Wrote(s0, dAtA[..], j, hi, OptBytes(64, p) + out)
  {
    assert i <= dAtA.Length;
    hide Wrote, SizeOfVarint, EncodeVarint;
    j := i;
    if p.Some? && |p.value| > 0 {
      ghost var size := EncodeVarint(|p.value|);
      ghost var s1 := dAtA[..];
      j := CopyBefore(dAtA, j, p.value);
      ghost var s2, k2 := dAtA[..], j;
      WroteThen(s0, s1, s2, i, j, hi, out, p.value);
      j := EncodeVarintBefore(dAtA, j, |p.value|);
      ghost var s3, k3 := dAtA[..], j;
      WroteThen(s0, s2, s3, k2, j, hi, p.value + out, size);
      j := ByteBefore(dAtA, j, 0x4);
      ghost var s4, k4 := dAtA[..], j;
      WroteThen(s0, s3, s4, k3, j, hi, size + (p.value + out), [0x4]);
      j := ByteBefore(dAtA, j, 0x82);
      WroteThen(s0, s4, dAtA[..], k4, j, hi, [0x4] + (size + (p.value + out)), [0x82]);
      TagOf64();
      assert [0x82] + ([0x4] + (size + (p.value + out))) == OptBytes(64, p) + out;
    } else {
      assert [] + out == out;
    }
  }

  lemma TagOf64()
    ensures Tag(64, 2) == [0x82, 0x4]
  {
    assert EncodeVarint(514) == [0x82] + EncodeVarint(4);
  }

  // ---------- nil elements and repeated fields ----------
  // A nil receiver writes nothing; repeated fields go last element first.

  lemma {:induction false} NoElements(field: nat, out: bytes)
    ensures Repeated(field, []) + out == out
  {
  }

  method MarshalCompareElement(e: Option<Compare>, dAtA: array<byte>, hi: nat) returns (n: nat)
    requires SizeCompareElement(e) <= hi <= dAtA.Length <= MAX_INT
    modifies dAtA
    ensures n == SizeCompareElement(e) && Wrote(old(dAtA[..]), dAtA[..], hi - n, hi, EncodeCompareElement(e))
  {
    hide Wrote, SizeCompare, EncodeCompare;
    if e.Some? {
      n := MarshalCompare(e.value, dAtA, hi);
    } else {
      NothingWritten(dAtA[..], hi);
      n := 0;
    }
  }

  method PutCompareElement(e: Option<Compare>, dAtA: array<byte>, i: nat, tag: byte,
                    ghost ps: seq<bytes>, ghost s0: bytes, ghost hi: nat, ghost out: bytes) returns (j: nat)
    requires i <= dAtA.Length <= MAX_INT && Wrote(s0, dAtA[..], i, hi, Repeated(tag / 8, ps) + out)
    requires tag % 8 == 2 && 1 <= tag / 8 < 16 && SizeMessage(SizeCompareElement(e)) <= i
    modifies dAtA
    ensures j == i - SizeMessage(SizeCompareElement(e))
    ensures Wrote(s0, dAtA[..], j, hi, Repeated(tag / 8, [EncodeCompareElement(e)] + ps) + out)
  {
    hide Wrote, SizeCompareElement, EncodeCompareElement, SizeOfVarint, Repeated;
    ghost var s1 := dAtA[..];
    var size := MarshalCompareElement(e, dAtA, i);
    j := PutElement(dAtA, i - size, tag, size, EncodeCompareElement(e), ps, s1, s0, hi, out);
  }

  lemma {:induction false} SizeComparesFrom(s: seq<Option<Compare>>, k: nat)
    requires k < |s|
    ensures SizeCompares(s[k..]) == SizeMessage(SizeCompareElement(s[k])) + SizeCompares(s[k + 1..]) <= SizeCompares(s)
    decreases k
  {
    hide SizeCompareElement, SizeMessage;
    assert s[k..][1..] == s[k + 1..];
    if k > 0 {
      SizeComparesFrom(s, k - 1);
    } else {
      assert s[0..] == s;
    }
  }

  method MarshalCompares(s: seq<Option<Compare>>, dAtA: array<byte>, i: nat, tag: byte, ghost s0: bytes, ghost hi: nat, ghost out: bytes) returns (j: nat)
    requires dAtA.Length <= MAX_INT && Wrote(s0, dAtA[..], i, hi, out)
    requires tag % 8 == 2 && 1 <= tag / 8 < 16 && SizeCompares(s) <= i
    modifies dAtA
    ensures j == i - SizeCompares(s) && Wrote(s0, dAtA[..], j, hi, Repeated(tag / 8, ComparePayloads(s)) + out)
  {
    WroteSize(s0, dAtA[..], i, hi, out);
    hide Wrote, SizeCompareElement, EncodeCompareElement, SizeOfVarint, SizeMessage, Repeated;
    j := i;
    var iNdEx := |s|;
    assert s[iNdEx..] == [] && Repeated(tag / 8, []) + out == out by { NoElements(tag / 8, out); }
    while iNdEx > 0
      invariant 0 <= iNdEx <= |s|
      invariant j == i - SizeCompares(s[iNdEx..])
      invariant Wrote(s0, dAtA[..], j, hi, Repeated(tag / 8, ComparePayloads(s[iNdEx..])) + out)
    {
      iNdEx := iNdEx - 1;
      SizeComparesFrom(s, iNdEx);
      assert s[iNdEx..][1..] == s[iNdEx + 1..];
      j := PutCompareElement(s[iNdEx], dAtA, j, tag, ComparePayloads(s[iNdEx + 1..]), s0, hi, out);
    }
    assert s[0..] == s;
  }

  method MarshalRequestOpElement(e: Option<RequestOp>, dAtA: array<byte>, hi: nat) returns (n: nat)
    requires SizeRequestOpElement(e) <= hi <= dAtA.Length <= MAX_INT
    modifies dAtA
    ensures n == SizeRequestOpElement(e) && Wrote(old(dAtA[..]), dAtA[..], hi - n, hi, EncodeRequestOpElement(e))
  {
    hide Wrote, SizeRequestOp, EncodeRequestOp;
    if e.Some? {
      n := MarshalRequestOp(e.value, dAtA, hi);
    } else {
      NothingWritten(dAtA[..], hi);
      n := 0;
    }
  }

  method PutRequestOpElement(e: Option<RequestOp>, dAtA: array<byte>, i: nat, tag: byte,
                    ghost ps: seq<bytes>, ghost s0: bytes, ghost hi: nat, ghost out: bytes) returns (j: nat)
    requires i <= dAtA.Length <= MAX_INT && Wrote(s0, dAtA[..], i, hi, Repeated(tag / 8, ps) + out)
    requires tag % 8 == 2 && 1 <= tag / 8 < 16 && SizeMessage(SizeRequestOpElement(e)) <= i
    modifies dAtA
    ensures j == i - SizeMessage(SizeRequestOpElement(e))
    ensures Wrote(s0, dAtA[..], j, hi, Repeated(tag / 8, [EncodeRequestOpElement(e)] + ps) + out)
  {
    hide Wrote, SizeRequestOpElement, EncodeRequestOpElement, SizeOfVarint, Repeated;
    ghost var s1 := dAtA[..];
    var size := MarshalRequestOpElement(e, dAtA, i);
    j := PutElement(dAtA, i - size, tag, size, EncodeRequestOpElement(e), ps, s1, s0, hi, out);
  }

  lemma {:induction false} SizeRequestOpsFrom(s: seq<Option<RequestOp>>, k: nat)
    requires k < |s|
    ensures SizeRequestOps(s[k..]) == SizeMessage(SizeRequestOpElement(s[k])) + SizeRequestOps(s[k + 1..]) <= SizeRequestOps(s)
    decreases k
  {
    hide SizeRequestOpElement, SizeMessage;
    assert s[k..][1..] == s[k + 1..];
    if k > 0 {
      SizeRequestOpsFrom(s, k - 1);
    } else {
      assert s[0..] == s;
    }
  }

  method MarshalRequestOps(s: seq<Option<RequestOp>>, dAtA: array<byte>, i: nat, tag: byte, ghost s0: bytes, ghost hi: nat, ghost out: bytes) returns (j: nat)
    requires dAtA.Length <= MAX_INT && Wrote(s0, dAtA[..], i, hi, out)
    requires tag % 8 == 2 && 1 <= tag / 8 < 16 && SizeRequestOps(s) <= i
    modifies dAtA
    ensures j == i - SizeRequestOps(s) && Wrote(s0, dAtA[..], j, hi, Repeated(tag / 8, RequestOpPayloads(s)) + out)
  {
    WroteSize(s0, dAtA[..], i, hi, out);
    hide Wrote, SizeRequestOpElement, EncodeRequestOpElement, SizeOfVarint, SizeMessage, Repeated;
    j := i;
    var iNdEx := |s|;
    assert s[iNdEx..] == [] && Repeated(tag / 8, []) + out == out by { NoElements(tag / 8, out); }
    while iNdEx > 0
      invariant 0 <= iNdEx <= |s|
      invariant j == i - SizeRequestOps(s[iNdEx..])
      invariant Wrote(s0, dAtA[..], j, hi, Repeated(tag / 8, RequestOpPayloads(s[iNdEx..])) + out)
    {
      iNdEx := iNdEx - 1;
      SizeRequestOpsFrom(s, iNdEx);
      assert s[iNdEx..][1..] == s[iNdEx + 1..];
      j := PutRequestOpElement(s[iNdEx], dAtA, j, tag, RequestOpPayloads(s[iNdEx + 1..]), s0, hi, out);
    }
    assert s[0..] == s;
  }

  method MarshalKeyValueElement(e: Option<KeyValue>, dAtA: array<byte>, hi: nat) returns (n: nat)
    requires SizeKeyValueElement(e) <= hi <= dAtA.Length <= MAX_INT
    modifies dAtA
    ensures n == SizeKeyValueElement(e) && Wrote(old(dAtA[..]), dAtA[..], hi - n, hi, EncodeKeyValueElement(e))
  {
    hide Wrote, SizeKeyValue, EncodeKeyValue;
    if e.Some? {
      n := MarshalKeyValue(e.value, dAtA, hi);
    } else {
      NothingWritten(dAtA[..], hi);
      n := 0;
    }
  }

  method PutKeyValueElement(e: Option<KeyValue>, dAtA: array<byte>, i: nat, tag: byte,
                    ghost ps: seq<bytes>, ghost s0: bytes, ghost hi: nat, ghost out: bytes) returns (j: nat)
    requires i <= dAtA.Length <= MAX_INT && Wrote(s0, dAtA[..], i, hi, Repeated(tag / 8, ps) + out)
    requires tag % 8 == 2 && 1 <= tag / 8 < 16 && SizeMessage(SizeKeyValueElement(e)) <= i
    modifies dAtA
    ensures j == i - SizeMessage(SizeKeyValueElement(e))
    ensures Wrote(s0, dAtA[..], j, hi, Repeated(tag / 8, [EncodeKeyValueElement(e)] + ps) + out)
  {
    hide Wrote, SizeKeyValueElement, EncodeKeyValueElement, SizeOfVarint, Repeated;
    ghost var s1 := dAtA[..];
    var size := MarshalKeyValueElement(e, dAtA, i);
    j := PutElement(dAtA, i - size, tag, size, EncodeKeyValueElement(e), ps, s1, s0, hi, out);
  }

  lemma {:induction false} SizeKeyValuesFrom(s: seq<Option<KeyValue>>, k: nat)
    requires k < |s|
    ensures SizeKeyValues(s[k..]) == SizeMessage(SizeKeyValueElement(s[k])) + SizeKeyValues(s[k + 1..]) <= SizeKeyValues(s)
    decreases k
  {
    hide SizeKeyValueElement, SizeMessage;
    assert s[k..][1..] == s[k + 1..];
    if k > 0 {
      SizeKeyValuesFrom(s, k - 1);
    } else {
      assert s[0..] == s;
    }
  }

  method MarshalKeyValues(s: seq<Option<KeyValue>>, dAtA: array<byte>, i: nat, tag: byte, ghost s0: bytes, ghost hi: nat, ghost out: bytes) returns (j: nat)
    requires dAtA.Length <= MAX_INT && Wrote(s0, dAtA[..], i, hi, out)
    requires tag % 8 == 2 && 1 <= tag / 8 < 16 && SizeKeyValues(s) <= i
    modifies dAtA
    ensures j == i - SizeKeyValues(s) && Wrote(s0, dAtA[..], j, hi, Repeated(tag / 8, KeyValuePayloads(s)) + out)
  {
    WroteSize(s0, dAtA[..], i, hi, out);
    hide Wrote, SizeKeyValueElement, EncodeKeyValueElement, SizeOfVarint, SizeMessage, Repeated;
    j := i;
    var iNdEx := |s|;
    assert s[iNdEx..] == [] && Repeated(tag / 8, []) + out == out by { NoElements(tag / 8, out); }
    while iNdEx > 0
      invariant 0 <= iNdEx <= |s|
      invariant j == i - SizeKeyValues(s[iNdEx..])
      invariant Wrote(s0, dAtA[..], j, hi, Repeated(tag / 8, KeyValuePayloads(s[iNdEx..])) + out)
    {
      iNdEx := iNdEx - 1;
      SizeKeyValuesFrom(s, iNdEx);
      assert s[iNdEx..][1..] == s[iNdEx + 1..];
      j := PutKeyValueElement(s[iNdEx], dAtA, j, tag, KeyValuePayloads(s[iNdEx + 1..]), s0, hi, out);
    }
    assert s[0..] == s;
  }

  method MarshalTxn(m: Txn, dAtA: array<byte>, hi: nat) returns (n: nat)
    requires SizeTxn(m) <= hi <= dAtA.Length <= MAX_INT
    modifies dAtA
    ensures n == SizeTxn(m) && Wrote(old(dAtA[..]), dAtA[..], hi - n, hi, EncodeTxn(m))
  {
    hide Wrote, SizeCompares, SizeRequestOps, Repeated, ComparePayloads, RequestOpPayloads;
    ghost var s0 := dAtA[..];
    var i := CopyBefore(dAtA, hi, m.unknown);
    ghost var out := m.unknown;
    i := MarshalRequestOps(m.failure, dAtA, i, 0x1a, s0, hi, out);
    out := Repeated(3, RequestOpPayloads(m.failure)) + out;
    i := MarshalRequestOps(m.success, dAtA, i, 0x12, s0, hi, out);
    out := Repeated(2, RequestOpPayloads(m.success)) + out;
    i := MarshalCompares(m.compare, dAtA, i, 0xa, s0, hi, out);
    n := hi - i;
  }

  // ---------- Command ----------

  method PutKv(kv: Option<KeyValue>, dAtA: array<byte>, i: nat, ghost s0: bytes, ghost hi: nat, ghost out: bytes) returns (j: nat)
    requires dAtA.Length <= MAX_INT && Wrote(s0, dAtA[..], i, hi, out)
    requires (if kv.Some? then SizeMessage(SizeKeyValue(kv.value)) else 0) <= i
    modifies dAtA
    ensures j == i - (if kv.Some? then SizeMessage(SizeKeyValue(kv.value)) else 0)
    ensures Wrote(s0, dAtA[..], j, hi, EncodeKv(kv) + out)
  {
    WroteSize(s0, dAtA[..], i, hi, out);
    hide Wrote, SizeKeyValue, EncodeKeyValue, SizeOfVarint, PayloadField;
    j := i;
    if kv.Some? {
      ghost var s1 := dAtA[..];
      var size := MarshalKeyValue(kv.value, dAtA, j);
      j := j - size;
      WroteSize(s1, dAtA[..], j, i, EncodeKeyValue(kv.value));
      WroteThen(s0, s1, dAtA[..], i, j, hi, out, EncodeKeyValue(kv.value));
      j := PutPrefix(dAtA, j, 0x1a, size, EncodeKeyValue(kv.value), s0, hi, out);
    } else {
      assert [] + out == out;
    }
  }

  method PutTxn(txn: Option<Txn>, dAtA: array<byte>, i: nat, ghost s0: bytes, ghost hi: nat, ghost out: bytes) returns (j: nat)
    requires dAtA.Length <= MAX_INT && Wrote(s0, dAtA[..], i, hi, out)
    requires (if txn.Some? then SizeMessage(SizeTxn(txn.value)) else 0) <= i
    modifies dAtA
    ensures j == i - (if txn.Some? then SizeMessage(SizeTxn(txn.value)) else 0)
    ensures Wrote(s0, dAtA[..], j, hi, EncodeTxnField(txn) + out)
  {
    WroteSize(s0, dAtA[..], i, hi, out);
    hide Wrote, SizeTxn, EncodeTxn, SizeOfVarint, PayloadField;
    j := i;
    if txn.Some? {
      ghost var s1 := dAtA[..];
      var size := MarshalTxn(txn.value, dAtA, j);
      j := j - size;
      WroteSize(s1, dAtA[..], j, i, EncodeTxn(txn.value));
      WroteThen(s0, s1, dAtA[..], i, j, hi, out, EncodeTxn(txn.value));
      j := PutPrefix(dAtA, j, 0x3a, size, EncodeTxn(txn.value), s0, hi, out);
    } else {
      assert [] + out == out;
    }
  }

  method PutLeaderIndex(v: Option<u64>, dAtA: array<byte>, i: nat, ghost s0: bytes, ghost hi: nat, ghost out: bytes) returns (j: nat)
    requires Wrote(s0, dAtA[..], i, hi, out) && (if v.Some? then 1 + SizeOfVarint(v.value) else 0) <= i
    modifies dAtA
    ensures j == i - (if v.Some? then 1 + SizeOfVarint(v.value) else 0)
    ensures Wrote(s0, dAtA[..], j, hi, EncodeLeaderIndex(v) + out)
  {
    hide Wrote, SizeOfVarint, NumberField;
    j := i;
    if v.Some? {
      j := PutVarint(dAtA, j, 0x28, v.value, s0, hi, out);
    } else {
      assert [] + out == out;
    }
  }

  method PutPresent(p: Option<bytes>, dAtA: array<byte>, i: nat, tag: byte, ghost s0: bytes, ghost hi: nat, ghost out: bytes) returns (j: nat)
    requires dAtA.Length <= MAX_INT && Wrote(s0, dAtA[..], i, hi, out)
    requires tag % 8 == 2 && 1 <= tag / 8 < 16 && (if p.Some? then SizeMessage(|p.value|) else 0) <= i
    modifies dAtA
    ensures j == i - (if p.Some? then SizeMessage(|p.value|) else 0)
    ensures Wrote(s0, dAtA[..], j, hi, OptPayload(tag / 8, p) + out)
  {
    hide Wrote, SizeOfVarint, PayloadField;
    j := i;
    if p.Some? {
      j := PutPayload(dAtA, j, tag, p.value, s0, hi, out);
    } else {
      assert [] + out == out;
    }
  }

  lemma {:induction false} SizeCommandsFrom(s: seq<Option<Command>>, k: nat)
    requires k < |s|
    ensures SizeCommands(s[k..]) == SizeMessage(SizeCommandElement(s[k])) + SizeCommands(s[k + 1..]) <= SizeCommands(s)
    decreases k
  {
    hide SizeCommandElement, SizeMessage;
    assert s[k..][1..] == s[k + 1..];
    if k > 0 {
      SizeCommandsFrom(s, k - 1);
    } else {
      assert s[0..] == s;
    }
  }

  method MarshalCommands(s: seq<Option<Command>>, dAtA: array<byte>, i: nat, tag: byte, ghost s0: bytes, ghost hi: nat, ghost out: bytes) returns (j: nat)
    requires dAtA.Length <= MAX_INT && Wrote(s0, dAtA[..], i, hi, out)
    requires tag % 8 == 2 && 1 <= tag / 8 < 16 && SizeCommands(s) <= i
    modifies dAtA
    ensures j == i - SizeCommands(s) && Wrote(s0, dAtA[..], j, hi, Repeated(tag / 8, CommandPayloads(s)) + out)
    decreases s
  {
    WroteSize(s0, dAtA[..], i, hi, out);
    hide Wrote, SizeCommandElement, EncodeCommandElement, SizeOfVarint, SizeMessage, Repeated;
    j := i;
    var iNdEx := |s|;
    assert s[iNdEx..] == [] && Repeated(tag / 8, []) + out == out by { NoElements(tag / 8, out); }
    while iNdEx > 0
      invariant 0 <= iNdEx <= |s|
      invariant j == i - SizeCommands(s[iNdEx..])
      invariant Wrote(s0, dAtA[..], j, hi, Repeated(tag / 8, CommandPayloads(s[iNdEx..])) + out)
    {
      iNdEx := iNdEx - 1;
      SizeCommandsFrom(s, iNdEx);
      assert s[iNdEx..][1..] == s[iNdEx + 1..];
      j := PutCommandElement(s[iNdEx], dAtA, j, tag, CommandPayloads(s[iNdEx + 1..]), s0, hi, out);
    }
    assert s[0..] == s;
  }

  lemma {:induction false} CommandElementIs(e: Option<Command>)
    ensures SizeCommandElement(e) == if e.Some? then SizeCommand(e.value) else 0
    ensures EncodeCommandElement(e) == if e.Some? then EncodeCommand(e.value) else []
  {
  }

  lemma MessageFits(l: nat, i: nat)
    requires SizeMessage(l) <= i
    ensures l + 1 + SizeOfVarint(l) == SizeMessage(l) <= i
  {
    hide SizeOfVarint;
  }

  method PutCommandElement(e: Option<Command>, dAtA: array<byte>, i: nat, tag: byte,
                    ghost ps: seq<bytes>, ghost s0: bytes, ghost hi: nat, ghost out: bytes) returns (j: nat)
    requires dAtA.Length <= MAX_INT && Wrote(s0, dAtA[..], i, hi, Repeated(tag / 8, ps) + out)
    requires tag % 8 == 2 && 1 <= tag / 8 < 16 && SizeMessage(SizeCommandElement(e)) <= i
    modifies dAtA
    ensures j == i - SizeMessage(SizeCommandElement(e))
    ensures Wrote(s0, dAtA[..], j, hi, Repeated(tag / 8, [EncodeCommandElement(e)] + ps) + out)
    decreases e
  {
    WroteSize(s0, dAtA[..], i, hi, Repeated(tag / 8, ps) + out);
    MessageFits(SizeCommandElement(e), i);
    CommandElementIs(e);
    hide Wrote, SizeCommand, EncodeCommand, SizeOfVarint, Repeated, SizeMessage, SizeCommandElement, EncodeCommandElement;
    var size := 0;
    ghost var s1 := dAtA[..];
    if e.Some? {
      size := MarshalCommand(e.value, dAtA, i);
    } else {
      NothingWritten(s1, i);
    }
    j := PutElement(dAtA, i - size, tag, size, EncodeCommandElement(e), ps, s1, s0, hi, out);
  }

  method MarshalLaterFields(m: Command, dAtA: array<byte>, hi: nat) returns (i: nat)
    requires SizeLaterFields(m) <= hi <= dAtA.Length <= MAX_INT
    modifies dAtA
    ensures i == hi - SizeLaterFields(m) && Wrote(old(dAtA[..]), dAtA[..], i, hi, EncodeLaterFields(m))
    decreases m, 0
  {
    hide Wrote, SizeBool, SizeCommands, SizeOfVarint, OptBool, OptPayload, Repeated, CommandPayloads;
    ghost var s0 := dAtA[..];
    i := CopyBefore(dAtA, hi, m.unknown);
    ghost var out := m.unknown;
    i := PutBool(dAtA, i, 0x58, m.count, s0, hi, out);
    out := OptBool(11, m.count) + out;
    i := MarshalCommands(m.sequence, dAtA, i, 0x52, s0, hi, out);
    out := Repeated(10, CommandPayloads(m.sequence)) + out;
    i := PutBool(dAtA, i, 0x48, m.prevKvs, s0, hi, out);
    out := OptBool(9, m.prevKvs) + out;
    i := PutPresent(m.rangeEnd, dAtA, i, 0x42, s0, hi, out);
  }

  // Main result: exactly SizeVT bytes are written, at the end of dAtA[..hi],
  // and every other byte of the buffer keeps its value.
  method MarshalCommand(m: Command, dAtA: array<byte>, hi: nat) returns (n: nat)
    requires SizeCommand(m) <= hi <= dAtA.Length <= MAX_INT
    modifies dAtA
    ensures n == SizeCommand(m) && Wrote(old(dAtA[..]), dAtA[..], hi - n, hi, EncodeCommand(m))
    decreases m, 1
  {
    hide Wrote, SizeBytes, SizeNumber, SizeKeyValue, SizeKeyValues, SizeTxn, SizeOfVarint, SizeLaterFields, SizeMessage;
    hide OptBytes, OptNumber, Repeated, KeyValuePayloads, EncodeKv, EncodeLeaderIndex, EncodeTxnField, EncodeLaterFields;
    ghost var s0 := dAtA[..];
    var i := MarshalLaterFields(m, dAtA, hi);
    ghost var out := EncodeLaterFields(m);
    i := PutTxn(m.txn, dAtA, i, s0, hi, out);
    out := EncodeTxnField(m.txn) + out;
    i := MarshalKeyValues(m.batch, dAtA, i, 0x32, s0, hi, out);
    out := Repeated(6, KeyValuePayloads(m.batch)) + out;
    i := PutLeaderIndex(m.leaderIndex, dAtA, i, s0, hi, out);
    out := EncodeLeaderIndex(m.leaderIndex) + out;
    i := PutKv(m.kv, dAtA, i, s0, hi, out);
    out := EncodeKv(m.kv) + out;
    i := PutNumber(dAtA, i, 0x10, m.typ, s0, hi, out);
    out := OptNumber(2, m.typ) + out;
    i := PutBytes(dAtA, i, 0xa, m.table, s0, hi, out);
    n := hi - i;
  }

  // Main result: MarshalVT fills the buffer it allocates exactly.
  method MarshalVT(m: Command) returns (dAtA: array<byte>, n: nat)
    requires SizeCommand(m) <= MAX_INT
    ensures fresh(dAtA) && n == dAtA.Length == SizeCommand(m) && dAtA[..] == EncodeCommand(m)
  {
    hide SizeCommand, EncodeCommand;
    var size := SizeCommand(m);
    dAtA := new byte[size];
    n := MarshalCommand(m, dAtA, size);
  }
}
