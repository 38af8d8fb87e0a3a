// Base 128 varints (Protocol Buffers Encoding, section "Base 128 Varints"):
// the writer and the inline reading loop of the generated codec.
module Varint {
  import opened Common

  datatype DecodeError =
    | IntOverflow
    | UnexpectedEOF
    | InvalidLength
    | EndGroup
    | IllegalTag(fieldNum: int, wire: int)
    | WrongWireType(wireType: int, field: int)
    | SkipFailed
    | NilBody

  // ---------- writing ----------

  function EncodeVarint(v: nat): (b: bytes)
    ensures |b| >= 1
  {
    if v < 128 then [v] else [v % 128 + 128] + EncodeVarint(v / 128)
  }

  /** Number of significant bits of x. */
  function BitLen(x: nat): nat {
    if x == 0 then 0 else 1 + BitLen(x / 2)
  }

  /** protohelpers.SizeOfVarint: (bits.Len64(x|1) + 6) / 7. */
  function SizeOfVarint(x: nat): nat {
    (BitLen(if x == 0 then 1 else x) + 6) / 7
  }

  lemma {:induction false} BitLenDrop7(v: nat)
    requires v >= 128
    ensures BitLen(v) == 7 + BitLen(v / 128)
  {
    var a := v / 2; var b := a / 2; var c := b / 2;
    var d := c / 2; var e := d / 2; var f := e / 2;
    assert b == v / 4 && c == v / 8 && d == v / 16 && e == v / 32 && f == v / 64;
    assert f / 2 == v / 128;
    assert BitLen(v) == 1 + BitLen(a) && BitLen(a) == 1 + BitLen(b) && BitLen(b) == 1 + BitLen(c);
    assert BitLen(c) == 1 + BitLen(d) && BitLen(d) == 1 + BitLen(e) && BitLen(e) == 1 + BitLen(f);
  }

  lemma {:induction false} BitLenSmall(v: nat)
    requires 1 <= v < 128
    ensures 1 <= BitLen(v) <= 7
  {
    var a := v / 2; var b := a / 2; var c := b / 2;
    var d := c / 2; var e := d / 2; var f := e / 2;
    assert a < 64 && b < 32 && c < 16 && d < 8 && e < 4 && f < 2;
    assert BitLen(f) <= 1 && BitLen(e) <= 2 && BitLen(d) <= 3 && BitLen(c) <= 4;
    assert BitLen(b) <= 5 && BitLen(a) <= 6;
  }

  // The closed formula for the size is the length of what is written.
  lemma {:induction false} SizeOfVarintIsLength(v: nat)
    ensures SizeOfVarint(v) == |EncodeVarint(v)|
  {
    if v < 128 {
      BitLenSmall(if v == 0 then 1 else v);
    } else {
      BitLenDrop7(v);
      SizeOfVarintIsLength(v / 128);
    }
  }

  function Pow128(k: nat): (p: nat)
    ensures p >= 1
  {
    if k == 0 then 1 else 128 * Pow128(k - 1)
  }

  // ---------- reading ----------

  /** The value of the varint at the start of b before truncation, and its
      length. k bytes of it were read before b; the eleventh is refused. */
  function RawVarint(b: bytes, k: nat): (r: Result<(nat, nat), DecodeError>)
    requires k <= 10
    ensures r.Ok? ==> 1 <= r.value.1 <= |b| && k + r.value.1 <= 10
    decreases 10 - k
  {
    if k == 10 then Err(IntOverflow)
    else if b == [] then Err(UnexpectedEOF)
    else if b[0] < 128 then Ok((b[0], 1))
    else
      var (v, n) :- RawVarint(b[1..], k + 1);
      Ok((b[0] - 128 + 128 * v, n + 1))
  }

  /** The width of the variable a varint is accumulated into. */
  datatype Width = W32 | W64

  function Cut(x: int, width: Width): u64 {
    if width == W64 then x % TWO_64 else x % TWO_32
  }

  /** The inline varint loop: the value cut to that width, and the bytes read. */
  function ReadVarint(b: bytes, width: Width): (r: Result<(u64, nat), DecodeError>)
    ensures r.Ok? ==> 1 <= r.value.1 <= |b| && r.value.1 <= 10
  {
    var (v, n) :- RawVarint(b, 0);
    Ok((Cut(v, width), n))
  }

  lemma {:induction false} RawVarintInvertsEncode(v: nat, rest: bytes, k: nat)
    requires k < 10 && v < Pow128(10 - k)
    ensures RawVarint(EncodeVarint(v) + rest, k) == Ok((v, |EncodeVarint(v)|))
    decreases 10 - k
  {
    if v < 128 {
      assert (EncodeVarint(v) + rest)[0] == v;
    } else {
      var b := EncodeVarint(v) + rest;
      assert b[1..] == EncodeVarint(v / 128) + rest;
      assert b[0] == v % 128 + 128;
      assert Pow128(10 - k) == 128 * Pow128(9 - k);
      assert v / 128 > 0;
      RawVarintInvertsEncode(v / 128, rest, k + 1);
    }
  }

  lemma Pow128Of10()
    ensures Pow128(10) == 64 * TWO_64
  {
    assert Pow128(3) == 128 * 128 * 128;
    assert Pow128(5) == 128 * 128 * Pow128(3);
    assert Pow128(7) == 128 * 128 * Pow128(5);
    assert Pow128(9) == 128 * 128 * Pow128(7);
  }

  // Main result: reading undoes writing, for every uint64 and whatever follows,
  // and takes exactly SizeOfVarint(v) <= 10 bytes.
  lemma {:induction false} ReadInvertsEncode(v: u64, rest: bytes, width: Width)
    ensures ReadVarint(EncodeVarint(v) + rest, width) == Ok((Cut(v, width), SizeOfVarint(v)))
    ensures 1 <= SizeOfVarint(v) == |EncodeVarint(v)| <= 10
  {
    Pow128Of10();
    RawVarintInvertsEncode(v, rest, 0);
    SizeOfVarintIsLength(v);
  }

  // A negative int64 is written in ten bytes and read back by the 64-bit loop.
  lemma Int64RoundTrip(x: i64, rest: bytes)
    ensures var r := ReadVarint(EncodeVarint(UInt64(x)) + rest, W64);
            r.Ok? && Int64(r.value.0) == x && r.value.1 <= 10 && (x < 0 ==> r.value.1 == 10)
  {
    hide EncodeVarint, SizeOfVarint, ReadVarint;
    ReadInvertsEncode(UInt64(x), rest, W64);
    if x < 0 {
      TopBitTakesTen(UInt64(x));
    }
  }

  // A negative int32 enum is written sign-extended, in ten bytes, and read back
  // by the loop that accumulates in 32 bits.
  lemma Int32RoundTrip(x: i32, rest: bytes)
    ensures var r := ReadVarint(EncodeVarint(UInt64(x)) + rest, W32);
            r.Ok? && Int32(r.value.0) == x && r.value.1 <= 10 && (x < 0 ==> r.value.1 == 10)
  {
    hide EncodeVarint, SizeOfVarint, ReadVarint;
    ReadInvertsEncode(UInt64(x), rest, W32);
    Int32OfUInt64(x);
    if x < 0 {
      TopBitTakesTen(UInt64(x));
    }
  }

  lemma {:induction false} OneDigit(v: nat)
    ensures |EncodeVarint(v)| == if v < 128 then 1 else 1 + |EncodeVarint(v / 128)|
  {
  }

  lemma {:induction false} TopBitTakesTen(v: u64)
    requires v >= TWO_63
    ensures |EncodeVarint(v)| == 10
  {
    hide EncodeVarint;
    var v1 := v / 128; var v2 := v1 / 128; var v3 := v2 / 128; var v4 := v3 / 128;
    var v5 := v4 / 128; var v6 := v5 / 128; var v7 := v6 / 128; var v8 := v7 / 128;
    assert v8 >= 128 && v8 / 128 == 1;
    OneDigit(v); OneDigit(v1); OneDigit(v2); OneDigit(v3); OneDigit(v4);
    OneDigit(v5); OneDigit(v6); OneDigit(v7); OneDigit(v8); OneDigit(1);
  }

  // A successful read depends only on the bytes it consumed.
  lemma {:induction false} RawVarintLocal(b: bytes, c: bytes, k: nat)
    requires k <= 10 && RawVarint(b, k).Ok?
    requires RawVarint(b, k).value.1 <= |c| && c[..RawVarint(b, k).value.1] == b[..RawVarint(b, k).value.1]
    ensures RawVarint(c, k) == RawVarint(b, k)
    decreases 10 - k
  {
    var n := RawVarint(b, k).value.1;
    assert c[0] == c[..n][0] == b[..n][0] == b[0];
    if b[0] >= 128 {
      assert c[1..][..n - 1] == c[..n][1..] == b[..n][1..] == b[1..][..n - 1];
      RawVarintLocal(b[1..], c[1..], k + 1);
    }
  }

  lemma ReadVarintLocal(b: bytes, c: bytes, width: Width)
    requires ReadVarint(b, width).Ok?
    requires ReadVarint(b, width).value.1 <= |c|
    requires c[..ReadVarint(b, width).value.1] == b[..ReadVarint(b, width).value.1]
    ensures ReadVarint(c, width) == ReadVarint(b, width)
  {
    RawVarintLocal(b, c, 0);
  }

  // The loop accumulates with `|=` on disjoint groups of seven bits. On machine
  // words that is the addition used below, in every turn: a turn keeps the bits
  // from the next shift on at zero.

  lemma OrTurn(acc: bv64, x: bv64, shift: bv7)
    requires shift < 64 && x < 128 && acc & (0xFFFF_FFFF_FFFF_FFFF << shift) == 0
    ensures acc | (x << shift) == acc + (x << shift)
    ensures shift + 7 < 64 ==> (acc | (x << shift)) & (0xFFFF_FFFF_FFFF_FFFF << (shift + 7)) == 0
  {
  }

  lemma OrTurn32(acc: bv32, x: bv32, shift: bv7)
    requires shift < 32 && x < 128 && acc & (0xFFFF_FFFF << shift) == 0
    ensures acc | (x << shift) == acc + (x << shift)
    ensures shift + 7 < 32 ==> (acc | (x << shift)) & (0xFFFF_FFFF << (shift + 7)) == 0
  {
  }

  // All ten turns of a 64-bit variable; a varint that ends earlier has zero groups left.
  lemma OrIsAdd(x0: bv64, x1: bv64, x2: bv64, x3: bv64, x4: bv64, x5: bv64, x6: bv64, x7: bv64, x8: bv64, x9: bv64)
    requires x0 < 128 && x1 < 128 && x2 < 128 && x3 < 128 && x4 < 128 && x5 < 128 && x6 < 128 && x7 < 128 && x8 < 128 && x9 < 128
    ensures x0 | (x1 << 7) | (x2 << 14) | (x3 << 21) | (x4 << 28) | (x5 << 35) | (x6 << 42) | (x7 << 49) | (x8 << 56) | (x9 << 63)
         == x0 + (x1 << 7) + (x2 << 14) + (x3 << 21) + (x4 << 28) + (x5 << 35) + (x6 << 42) + (x7 << 49) + (x8 << 56) + (x9 << 63)
  {
    var a0: bv64 := 0;
    OrTurn(a0, x0, 0); var a1 := a0 | (x0 << 0);
    OrTurn(a1, x1, 7); var a2 := a1 | (x1 << 7);
    OrTurn(a2, x2, 14); var a3 := a2 | (x2 << 14);
    OrTurn(a3, x3, 21); var a4 := a3 | (x3 << 21);
    OrTurn(a4, x4, 28); var a5 := a4 | (x4 << 28);
    OrTurn(a5, x5, 35); var a6 := a5 | (x5 << 35);
    OrTurn(a6, x6, 42); var a7 := a6 | (x6 << 42);
    OrTurn(a7, x7, 49); var a8 := a7 | (x7 << 49);
    OrTurn(a8, x8, 56); var a9 := a8 | (x8 << 56);
    OrTurn(a9, x9, 63); var a10 := a9 | (x9 << 63);
  }

  // The five turns of a 32-bit enum that still reach a bit; later groups are shifted out.
  lemma OrIsAdd32(x0: bv32, x1: bv32, x2: bv32, x3: bv32, x4: bv32)
    requires x0 < 128 && x1 < 128 && x2 < 128 && x3 < 128 && x4 < 128
    ensures x0 | (x1 << 7) | (x2 << 14) | (x3 << 21) | (x4 << 28)
         == x0 + (x1 << 7) + (x2 << 14) + (x3 << 21) + (x4 << 28)
  {
    var a0: bv32 := 0;
    OrTurn32(a0, x0, 0); var a1 := a0 | (x0 << 0);
    OrTurn32(a1, x1, 7); var a2 := a1 | (x1 << 7);
    OrTurn32(a2, x2, 14); var a3 := a2 | (x2 << 14);
    OrTurn32(a3, x3, 21); var a4 := a3 | (x3 << 21);
    OrTurn32(a4, x4, 28); var a5 := a4 | (x4 << 28);
  }

  lemma CutAdds(a: int, x: int, width: Width)
    ensures Cut(Cut(a, width) + x, width) == Cut(a + x, width)
  {
  }

  /** x << (7 * k), without truncation. */
  function Shl7(x: nat, k: nat): nat
    decreases k
  {
    if k == 0 then x else Shl7(128 * x, k - 1)
  }

  lemma {:induction false} Shl7Adds(x: nat, y: nat, k: nat)
    ensures Shl7(x + y, k) == Shl7(x, k) + Shl7(y, k)
    decreases k
  {
    if k > 0 {
      Shl7Adds(128 * x, 128 * y, k - 1);
    }
  }

  // What the whole varint is worth once k of its bytes, worth acc, are read.
  ghost function Resume(acc: nat, k: nat, rest: Result<(nat, nat), DecodeError>): Result<(nat, nat), DecodeError> {
    match rest
    case Err(e) => Err(e)
    case Ok((raw, n)) => Ok((acc + Shl7(raw, k), k + n))
  }

  lemma ResumeStep(b: bytes, acc: nat, k: nat)
    requires k < 10 && b != []
    ensures var acc' := acc + Shl7(b[0] % 128, k);
            Resume(acc, k, RawVarint(b, k)) ==
            if b[0] < 128 then Ok((acc', k + 1)) else Resume(acc', k + 1, RawVarint(b[1..], k + 1))
  {
    if b[0] >= 128 && RawVarint(b[1..], k + 1).Ok? {
      var raw := RawVarint(b[1..], k + 1).value.0;
      Shl7Adds(b[0] % 128, 128 * raw, k);
    }
  }

  lemma {:induction false} ResumeEnds(b: bytes, acc: nat, k: nat)
    requires k <= 10
    ensures Resume(0, 0, RawVarint(b, 0)) == RawVarint(b, 0)
    ensures k == 10 ==> Resume(acc, k, RawVarint(b, k)) == Err(IntOverflow)
    ensures k < 10 && b == [] ==> Resume(acc, k, RawVarint(b, k)) == Err(UnexpectedEOF)
  {
  }

  /** The inline loop on the slice dAtA[i..hi], into a variable of the given width. */
  method ReadVarintLoop(dAtA: array<byte>, i: nat, hi: nat, width: Width) returns (r: Result<(u64, nat), DecodeError>)
    requires i <= hi <= dAtA.Length
    ensures r == match ReadVarint(dAtA[i..hi], width)
                 case Err(e) => Err(e)
                 case Ok((v, n)) => Ok((v, i + n))
  {
    hide Cut, Shl7, RawVarint, Resume;
    var iNdEx, k := i, 0;
    ResumeEnds(dAtA[i..hi], 0, 0);
    var wire := Cut(0, width);
    ghost var acc: nat := 0;
    ghost var whole := RawVarint(dAtA[i..hi], 0);
    while true
      invariant i <= iNdEx <= hi && k == iNdEx - i && k <= 10
      invariant wire == Cut(acc, width)
      invariant Resume(acc, k, RawVarint(dAtA[iNdEx..hi], k)) == whole
      decreases hi - iNdEx
    {
      ResumeEnds(dAtA[iNdEx..hi], acc, k);
      if k >= 10 {
        return Err(IntOverflow);
      }
      if iNdEx >= hi {
        return Err(UnexpectedEOF);
      }
      ghost var rest := dAtA[iNdEx..hi];
      ResumeStep(rest, acc, k);
      assert rest[1..] == dAtA[iNdEx + 1..hi];
      var b := dAtA[iNdEx];
      iNdEx := iNdEx + 1;
      var step := Shl7(b % 128, k);
      CutAdds(acc, step, width);
      wire := Cut(wire + step, width);
      acc, k := acc + step, k + 1;
      if b < 128 {
        return Ok((wire, iNdEx));
      }
    }
  }
}
