// The backward writer: MarshalToSizedBufferVT fills a buffer from its end,
// field by field, with an index i that only decreases.
module Writer {
  import opened Common
  import opened Varint
  import opened Wire
  import opened Messages

  // ---------- SizeVT is exact ----------

  lemma FieldSizes(field: nat, v: i64, b: bool, p: Option<bytes>)
    requires 1 <= field < 16
    requires p.Some? ==> |p.value| <= MAX_INT
    ensures |Tag(field, 0)| == |Tag(field, 2)| == 1 && Tag(field, 0) == [8 * field] && Tag(field, 2) == [8 * field + 2]
    ensures |OptNumber(field, v)| == SizeNumber(v)
    ensures |OptBool(field, b)| == SizeBool(b)
    ensures |OptBytes(field, p)| == SizeBytes(p)
    ensures p.Some? ==> |PayloadField(field, p.value)| == SizeMessage(|p.value|)
  {
    SizeOfVarintIsLength(UInt64(v));
    if p.Some? { SizeOfVarintIsLength(|p.value|); }
  }

  // ---------- what a write leaves ----------

  // s1 is s0 with out written just below hi, from i on.
  ghost predicate Wrote(s0: bytes, s1: bytes, i: nat, hi: nat, out: bytes) {
    i + |out| == hi <= |s0| && s1 == s0[..i] + out + s0[hi..]
  }

  lemma WroteSize(s0: bytes, s1: bytes, i: nat, hi: nat, out: bytes)
    requires Wrote(s0, s1, i, hi, out)
    ensures hi - i == |out| && i <= hi <= |s0| == |s1|
  {
  }

  lemma WroteThen(s0: bytes, s1: bytes, s2: bytes, i: nat, j: nat, hi: nat, out: bytes, more: bytes)
    requires Wrote(s0, s1, i, hi, out) && Wrote(s1, s2, j, i, more)
    ensures Wrote(s0, s2, j, hi, more + out)
  {
    assert s1[..j] == s0[..j];
    assert s1[i..] == out + s0[hi..];
    assert s0[..j] + more + (out + s0[hi..]) == s0[..j] + (more + out) + s0[hi..];
  }

  /** i -= len(p); copy(dAtA[i:], p) */
  method CopyBefore(dAtA: array<byte>, i: nat, p: bytes) returns (j: nat)
    requires |p| <= i <= dAtA.Length
    modifies dAtA
    ensures j == i - |p| && Wrote(old(dAtA[..]), dAtA[..], j, i, p)
  {
    j := i - |p|;
    forall k | 0 <= k < |p| {
      dAtA[j + k] := p[k];
    }
    assert dAtA[..][j..i] == p;
    assert dAtA[..] == old(dAtA[..])[..j] + p + old(dAtA[..])[i..];
  }

  lemma WroteNext(s0: bytes, s1: bytes, base: nat, o: nat, done: bytes, b: byte)
    requires Wrote(s0, s1, base, o, done) && o < |s0|
    ensures Wrote(s0, s1[o := b], base, o + 1, done + [b])
  {
    assert s1[o := b] == s0[..base] + done + [b] + s0[o + 1..];
  }

  /** protohelpers.EncodeVarint: writes v just before offset. */
  method EncodeVarintBefore(dAtA: array<byte>, offset: nat, v: u64) returns (base: nat)
    requires SizeOfVarint(v) <= offset <= dAtA.Length
    modifies dAtA
    ensures base == offset - SizeOfVarint(v) && Wrote(old(dAtA[..]), dAtA[..], base, offset, EncodeVarint(v))
  {
    SizeOfVarintIsLength(v);
    hide Wrote, SizeOfVarint;
    base := offset - SizeOfVarint(v);
    var o: nat, rest: nat := base, v;
    ghost var done: bytes := [];
    NothingWritten(dAtA[..], base);
    assert done + EncodeVarint(rest) == EncodeVarint(v);
    while rest >= 128
      invariant base <= o < offset && offset - o == |EncodeVarint(rest)|
      invariant done + EncodeVarint(rest) == EncodeVarint(v)
      invariant Wrote(old(dAtA[..]), dAtA[..], base, o, done)
    {
      var low := rest % 128 + 128;
      WroteNext(old(dAtA[..]), dAtA[..], base, o, done, low);
      assert done + EncodeVarint(rest) == done + [low] + EncodeVarint(rest / 128);
      dAtA[o] := low;
      done := done + [low];
      rest := rest / 128;
      o := o + 1;
    }
    WroteNext(old(dAtA[..]), dAtA[..], base, o, done, rest);
    dAtA[o] := rest;
  }

  lemma NothingWritten(s: bytes, i: nat)
    requires i <= |s|
    ensures Wrote(s, s, i, i, [])
  {
    assert s == s[..i] + [] + s[i..];
  }

  /** i--; dAtA[i] = b */
  method ByteBefore(dAtA: array<byte>, i: nat, b: byte) returns (j: nat)
    requires 1 <= i <= dAtA.Length
    modifies dAtA
    ensures j == i - 1 && Wrote(old(dAtA[..]), dAtA[..], j, i, [b])
  {
    j := i - 1;
    dAtA[j] := b;
  }

  // ---------- the generated snippet of each kind of field ----------
  // Each continues a write that has reached i (see the first requires) and says
  // what has been written once the field is there too.

  /** An integer field: if v != 0 { EncodeVarint; tag } */
  method PutNumber(dAtA: array<byte>, i: nat, tag: byte, v: i64, ghost s0: bytes, ghost hi: nat, ghost out: bytes) returns (j: nat)
    requires dAtA.Length <= MAX_INT && Wrote(s0, dAtA[..], i, hi, out)
    requires tag % 8 == 0 && 1 <= tag / 8 < 16 && SizeNumber(v) <= i
    modifies dAtA
    ensures j == i - SizeNumber(v) && Wrote(s0, dAtA[..], j, hi, OptNumber(tag / 8, v) + out)
  {
    j := i;
    ghost var s1 := dAtA[..];
    if v != 0 {
      j := PutVarint(dAtA, j, tag, UInt64(v), s0, hi, out);
    } else {
      assert [] + out == out;
    }
  }

  /** EncodeVarint; tag */
  method PutVarint(dAtA: array<byte>, i: nat, tag: byte, v: u64, ghost s0: bytes, ghost hi: nat, ghost out: bytes) returns (j: nat)
    requires Wrote(s0, dAtA[..], i, hi, out)
    requires tag % 8 == 0 && 1 <= tag / 8 < 16 && 1 + SizeOfVarint(v) <= i
    modifies dAtA
    ensures j == i - 1 - SizeOfVarint(v) && Wrote(s0, dAtA[..], j, hi, NumberField(tag / 8, v) + out)
  {
    assert i <= dAtA.Length;
    hide EncodeVarint, SizeOfVarint, Wrote;
    ghost var s1 := dAtA[..];
    j := EncodeVarintBefore(dAtA, i, v);
    ghost var s2 := dAtA[..];
    WroteThen(s0, s1, s2, i, j, hi, out, EncodeVarint(v));
    ghost var k := j;
    j := ByteBefore(dAtA, j, tag);
    WroteThen(s0, s2, dAtA[..], k, j, hi, EncodeVarint(v) + out, [tag]);
    FieldSizes(tag / 8, 0, false, None);
    assert [tag] + (EncodeVarint(v) + out) == NumberField(tag / 8, v) + out;
  }

  /** A bool field: if b { 1; tag } */
  method PutBool(dAtA: array<byte>, i: nat, tag: byte, b: bool, ghost s0: bytes, ghost hi: nat, ghost out: bytes) returns (j: nat)
    requires Wrote(s0, dAtA[..], i, hi, out)
    requires tag % 8 == 0 && 1 <= tag / 8 < 16 && SizeBool(b) <= i
    modifies dAtA
    ensures j == i - SizeBool(b) && Wrote(s0, dAtA[..], j, hi, OptBool(tag / 8, b) + out)
  {
    j := i;
    if b {
      ghost var s1 := dAtA[..];
      j := ByteBefore(dAtA, j, 1);
      ghost var s2 := dAtA[..];
      WroteThen(s0, s1, s2, i, j, hi, out, [1]);
      ghost var k := j;
      j := ByteBefore(dAtA, j, tag);
      WroteThen(s0, s2, dAtA[..], k, j, hi, [1] + out, [tag]);
      FieldSizes(tag / 8, 0, true, None);
      assert [tag] + ([1] + out) == OptBool(tag / 8, b) + out;
    } else {
      assert [] + out == out;
    }
  }

  /** Length and tag before a payload already written. */
  method PutPrefix(dAtA: array<byte>, i: nat, tag: byte, size: nat, ghost payload: bytes, ghost s0: bytes, ghost hi: nat, ghost out: bytes) returns (j: nat)
    requires dAtA.Length <= MAX_INT && |payload| == size
    requires Wrote(s0, dAtA[..], i, hi, payload + out)
    requires tag % 8 == 2 && 1 <= tag / 8 < 16 && 1 + SizeOfVarint(size) <= i
    modifies dAtA
    ensures j == i - 1 - SizeOfVarint(size) && Wrote(s0, dAtA[..], j, hi, PayloadField(tag / 8, payload) + out)
  {
    hide EncodeVarint, SizeOfVarint;
    assert size <= hi <= |s0| == dAtA.Length;
    hide Wrote;
    ghost var s1 := dAtA[..];
    j := EncodeVarintBefore(dAtA, i, size);
    ghost var s2 := dAtA[..];
    WroteThen(s0, s1, s2, i, j, hi, payload + out, EncodeVarint(size));
    ghost var k := j;
    j := ByteBefore(dAtA, j, tag);
    WroteThen(s0, s2, dAtA[..], k, j, hi, EncodeVarint(size) + (payload + out), [tag]);
    FieldSizes(tag / 8, 0, false, None);
    assert [tag] + (EncodeVarint(size) + (payload + out)) == PayloadField(tag / 8, payload) + out;
  }

  /** A length-delimited field: copy; EncodeVarint(len); tag */
  method PutPayload(dAtA: array<byte>, i: nat, tag: byte, p: bytes, ghost s0: bytes, ghost hi: nat, ghost out: bytes) returns (j: nat)
    requires dAtA.Length <= MAX_INT && Wrote(s0, dAtA[..], i, hi, out)
    requires tag % 8 == 2 && 1 <= tag / 8 < 16 && SizeMessage(|p|) <= i
    modifies dAtA
    ensures j == i - SizeMessage(|p|) && Wrote(s0, dAtA[..], j, hi, PayloadField(tag / 8, p) + out)
  {
    ghost var s1 := dAtA[..];
    j := CopyBefore(dAtA, i, p);
    WroteThen(s0, s1, dAtA[..], i, j, hi, out, p);
    j := PutPrefix(dAtA, j, tag, |p|, p, s0, hi, out);
  }

  /** A plain bytes field: if len(p) > 0 { ... } */
  method PutBytes(dAtA: array<byte>, i: nat, tag: byte, p: Option<bytes>, ghost s0: bytes, ghost hi: nat, ghost out: bytes) returns (j: nat)
    requires dAtA.Length <= MAX_INT && Wrote(s0, dAtA[..], i, hi, out)
    requires tag % 8 == 2 && 1 <= tag / 8 < 16 && SizeBytes(p) <= i
    modifies dAtA
    ensures j == i - SizeBytes(p) && Wrote(s0, dAtA[..], j, hi, OptBytes(tag / 8, p) + out)
  {
    j := i;
    if p.Some? && |p.value| > 0 {
      j := PutPayload(dAtA, j, tag, p.value, s0, hi, out);
    } else {
      assert [] + out == out;
    }
  }

  /** An element of a repeated field: its bytes e are written, its prefix follows. */
  method PutElement(dAtA: array<byte>, i: nat, tag: byte, size: nat, ghost e: bytes, ghost ps: seq<bytes>,
                    ghost s1: bytes, ghost s0: bytes, ghost hi: nat, ghost out: bytes) returns (j: nat)
    requires dAtA.Length <= MAX_INT
    requires Wrote(s0, s1, i + size, hi, Repeated(tag / 8, ps) + out) && Wrote(s1, dAtA[..], i, i + size, e)
    requires tag % 8 == 2 && 1 <= tag / 8 < 16 && 1 + SizeOfVarint(size) <= i
    modifies dAtA
    ensures j == i - 1 - SizeOfVarint(size) && Wrote(s0, dAtA[..], j, hi, Repeated(tag / 8, [e] + ps) + out)
  {
    WroteSize(s1, dAtA[..], i, i + size, e);
    WroteThen(s0, s1, dAtA[..], i + size, i, hi, Repeated(tag / 8, ps) + out, e);
    hide Wrote, SizeOfVarint, PayloadField;
    j := PutPrefix(dAtA, i, tag, size, e, s0, hi, Repeated(tag / 8, ps) + out);
    assert ([e] + ps)[1..] == ps;
    assert Repeated(tag / 8, [e] + ps) + out == PayloadField(tag / 8, e) + (Repeated(tag / 8, ps) + out);
  }
}
