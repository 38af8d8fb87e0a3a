// Records on the wire (Protocol Buffers Encoding, section "Message Structure"):
// how every generated UnmarshalVT loop splits its input into fields, and how
// the generated writers lay a field out.
module Wire {
  import opened Common
  import opened Varint

  // ---------- protohelpers.Skip ----------

  // A successful answer n that lies inside the input depends on the first n
  // bytes only. (n may also lie outside; the callers test that.)
  ghost predicate SkipIsLocal(skip: bytes -> Result<nat, DecodeError>, b: bytes, c: bytes) {
    skip(b).Ok? && skip(b).value <= |b| && skip(b).value <= |c| && c[..skip(b).value] == b[..skip(b).value]
    ==> skip(c) == skip(b)
  }

  // A skipped record starts with its tag.
  predicate SkipTakesTag(b: bytes, n: nat) {
    ReadVarint(b, W64).Ok? && ReadVarint(b, W64).value.1 <= n
  }

  ghost predicate SkipContract(skip: bytes -> Result<nat, DecodeError>) {
    && (forall b: bytes :: skip(b).Ok? ==> SkipTakesTag(b, skip(b).value) && skip(b).value <= MAX_INT)
    && (forall b: bytes, c: bytes :: SkipIsLocal(skip, b, c))
  }

  type Skipper = skip: bytes -> Result<nat, DecodeError> | SkipContract(skip) witness (b: bytes) => Err(SkipFailed)

  /** protohelpers.Skip is not part of the repository. Every theorem holds for
      any function that meets SkipContract. */
  const Skip: Skipper

  // ---------- message types and their fields ----------

  datatype MsgType =
    | TKeyValue | TRange | TPut | TDeleteRange | TRequestOp | TCompare | TTxn | TCommand
    | TTxnRequest | TTableStatus | TStatusResponse

  datatype FieldKind = Scalar | Enum | Delimited | Undeclared

  /** The cases of each generated `switch fieldNum`, by what they read. */
  function KindOf(t: MsgType, field: int): FieldKind {
    match t
    case TKeyValue => if field in {1, 4} then Delimited else if field in {2, 3} then Scalar else Undeclared
    case TRange => if field in {1, 2} then Delimited else if field in {3, 4, 5} then Scalar else Undeclared
    case TPut => if field in {1, 2} then Delimited else if field == 3 then Scalar else Undeclared
    case TDeleteRange => if field in {1, 2} then Delimited else if field in {4, 5} then Scalar else Undeclared
    case TRequestOp => if field in {1, 2, 3} then Delimited else Undeclared
    case TCompare => if field in {1, 2} then Enum else if field in {3, 4, 64} then Delimited else Undeclared
    case TTxn => if field in {1, 2, 3} then Delimited else Undeclared
    case TCommand =>
      if field in {1, 3, 6, 7, 8, 10} then Delimited
      else if field == 2 then Enum
      else if field in {5, 9, 11} then Scalar else Undeclared
    case TTxnRequest => if field in {1, 2, 3, 4} then Delimited else Undeclared
    case TTableStatus => if field == 4 then Delimited else if field in {2, 3, 5, 6, 7} then Scalar else Undeclared
    case TStatusResponse => if field in {1, 2, 3, 4, 5, 8} then Delimited else Undeclared
  }

  /** One field as it comes off the wire. */
  datatype Record =
    | Number(field: int, value: u64)
    | Payload(field: int, payload: bytes)
    | Unknown(raw: bytes)

  /** fieldNum := int32(wire >> 3) */
  function FieldNum(wire: u64): i32 { Int32(wire / 8) }

  /** wireType := int(wire & 0x7) */
  function WireType(wire: u64): int { wire % 8 }

  /** The 64-bit sum of two non-negative ints, which may wrap around. */
  function AddInt(a: nat, b: nat): (r: i64)
    requires a <= MAX_INT && b <= MAX_INT
    ensures r < 0 <==> a + b > MAX_INT
    ensures r >= 0 ==> r == a + b
  {
    Int64(a + b)
  }

  // ---------- reading ----------

  /** The length prefix at b[k..] and the bounds of the payload after it. The
      index tests are made at absolute position pos of b in the message. */
  function ReadLength(b: bytes, k: nat, pos: nat): (r: Result<(nat, nat), DecodeError>)
    requires k <= |b| && pos + |b| <= MAX_INT
    ensures r.Ok? ==> k < r.value.0 <= r.value.1 <= |b|
  {
    var (len, n) :- ReadVarint(b[k..], W64);
    var size := Int64(len);
    if size < 0 then Err(InvalidLength)
    else if AddInt(pos + k + n, size) < 0 then Err(InvalidLength)
    else if k + n + size > |b| then Err(UnexpectedEOF)
    else Ok((k + n, k + n + size))
  }

  function SkipRecord(b: bytes, pos: nat): (r: Result<(Record, nat), DecodeError>)
    requires pos + |b| <= MAX_INT
    ensures r.Ok? ==> 1 <= r.value.1 <= |b| && r.value.0 == Unknown(b[..r.value.1]) && SkipTakesTag(b, r.value.1)
  {
    var n :- Skip(b);
    if AddInt(pos, n) < 0 then Err(InvalidLength)
    else if n > |b| then Err(UnexpectedEOF)
    else Ok((Unknown(b[..n]), n))
  }

  /** One turn of the generated decoding loop, up to the field assignment: the
      record at the start of b and the number of bytes it takes. */
  function ReadRecord(t: MsgType, b: bytes, pos: nat): (r: Result<(Record, nat), DecodeError>)
    requires pos + |b| <= MAX_INT
    ensures r.Ok? ==> 1 <= r.value.1 <= |b|
    ensures r.Ok? && r.value.0.Payload? ==> |r.value.0.payload| + 2 <= r.value.1
  {
    var (wire, k) :- ReadVarint(b, W64);
    var f := FieldNum(wire);
    var wt := WireType(wire);
    if wt == 4 then Err(EndGroup)
    else if f <= 0 then Err(IllegalTag(f, wire))
    else match KindOf(t, f) {
      case Scalar =>
        if wt != 0 then Err(WrongWireType(wt, f))
        else
          var (v, n) :- ReadVarint(b[k..], W64);
          Ok((Number(f, v), k + n))
      case Enum =>
        if wt != 0 then Err(WrongWireType(wt, f))
        else
          var (v, n) :- ReadVarint(b[k..], W32);
          Ok((Number(f, v), k + n))
      case Delimited =>
        if wt != 2 then Err(WrongWireType(wt, f))
        else
          var (from, to) :- ReadLength(b, k, pos);
          Ok((Payload(f, b[from..to]), to))
      case Undeclared => SkipRecord(b, pos)
    }
  }

  // ---------- a record is what its own bytes say ----------

  lemma ReadLengthLocal(b: bytes, c: bytes, k: nat, pos: nat, pos': nat)
    requires k <= |b| && pos + |b| <= MAX_INT && pos' + |c| <= MAX_INT
    requires ReadLength(b, k, pos).Ok?
    requires ReadLength(b, k, pos).value.1 <= |c|
    requires c[..ReadLength(b, k, pos).value.1] == b[..ReadLength(b, k, pos).value.1]
    ensures ReadLength(c, k, pos') == ReadLength(b, k, pos)
  {
    hide AddInt, Int64, ReadVarint;
    var to := ReadLength(b, k, pos).value.1;
    var n := ReadVarint(b[k..], W64).value.1;
    assert b[k..][..n] == b[..to][k..][..n] == c[..to][k..][..n] == c[k..][..n];
    ReadVarintLocal(b[k..], c[k..], W64);
  }

  lemma PayloadLocal(b: bytes, c: bytes, k: nat, n: nat, pos: nat, pos': nat)
    requires k <= n <= |b| && n <= |c| && b[..n] == c[..n]
    requires pos + |b| <= MAX_INT && pos' + |c| <= MAX_INT
    requires ReadLength(b, k, pos).Ok? && ReadLength(b, k, pos).value.1 == n
    ensures ReadLength(c, k, pos') == ReadLength(b, k, pos)
    ensures b[ReadLength(b, k, pos).value.0..n] == c[ReadLength(b, k, pos).value.0..n]
  {
    ReadLengthLocal(b, c, k, pos, pos');
    var from := ReadLength(b, k, pos).value.0;
    assert b[from..n] == b[..n][from..] == c[..n][from..] == c[from..n];
  }

  lemma ScalarLocal(b: bytes, c: bytes, k: nat, n: nat, width: Width)
    requires k <= n <= |b| && n <= |c| && b[..n] == c[..n]
    requires ReadVarint(b[k..], width).Ok? && k + ReadVarint(b[k..], width).value.1 == n
    ensures ReadVarint(c[k..], width) == ReadVarint(b[k..], width)
  {
    assert b[k..][..n - k] == b[..n][k..] == c[..n][k..] == c[k..][..n - k];
    ReadVarintLocal(b[k..], c[k..], width);
  }

  lemma SkipRecordLocal(b: bytes, c: bytes, pos: nat, pos': nat)
    requires pos + |b| <= MAX_INT && pos' + |c| <= MAX_INT
    requires SkipRecord(b, pos).Ok?
    requires SkipRecord(b, pos).value.1 <= |c|
    requires c[..SkipRecord(b, pos).value.1] == b[..SkipRecord(b, pos).value.1]
    ensures SkipRecord(c, pos') == SkipRecord(b, pos)
  {
    assert SkipIsLocal(Skip, b, c);
  }

  // A record that was read depends neither on the bytes after it nor on its
  // position in the message.
  lemma ReadRecordLocal(t: MsgType, b: bytes, c: bytes, pos: nat, pos': nat)
    requires pos + |b| <= MAX_INT && pos' + |c| <= MAX_INT
    requires ReadRecord(t, b, pos).Ok?
    requires ReadRecord(t, b, pos).value.1 <= |c|
    requires c[..ReadRecord(t, b, pos).value.1] == b[..ReadRecord(t, b, pos).value.1]
    ensures ReadRecord(t, c, pos') == ReadRecord(t, b, pos)
  {
    hide ReadLength, SkipRecord, FieldNum, WireType, ReadVarint;
    var n := ReadRecord(t, b, pos).value.1;
    var (wire, k) := ReadVarint(b, W64).value;
    assert SkipTakesTag(b, n);
    assert b[..k] == b[..n][..k] == c[..n][..k] == c[..k];
    ReadVarintLocal(b, c, W64);
    match KindOf(t, FieldNum(wire)) {
      case Scalar => ScalarLocal(b, c, k, n, W64);
      case Enum => ScalarLocal(b, c, k, n, W32);
      case Delimited => PayloadLocal(b, c, k, n, pos, pos');
      case Undeclared => SkipRecordLocal(b, c, pos, pos');
    }
  }

  // The payload of a record is the last part of the bytes it takes.
  lemma PayloadIsSuffix(t: MsgType, b: bytes, pos: nat)
    requires pos + |b| <= MAX_INT && ReadRecord(t, b, pos).Ok? && ReadRecord(t, b, pos).value.0.Payload?
    ensures var (r, n) := ReadRecord(t, b, pos).value; |r.payload| <= n && r.payload == b[n - |r.payload|..n]
  {
    hide ReadVarint, FieldNum, WireType, ReadLength, SkipRecord;
  }

  lemma SubSlice(d: bytes, i: nat, hi: nat, from: nat, to: nat)
    requires i <= hi <= |d| && from <= to <= hi - i
    ensures d[i..hi][from..to] == d[i + from..i + to]
    ensures d[i..hi][from..] == d[i + from..hi]
  {
    forall k | 0 <= k < to - from ensures d[i..hi][from..to][k] == d[i + from..i + to][k] {
      assert d[i..hi][from + k] == d[i + from + k];
    }
    assert d[i..hi][from..to] == d[i + from..i + to];
  }

  // ---------- decoding a message ----------

  /** UnmarshalVT: read records until the input is used up, assigning each to
      the message; the first failing read or assignment ends it. */
  function Decode<M>(apply: (M, Record) -> Result<M, DecodeError>, t: MsgType, m: M, b: bytes, pos: nat): Result<M, DecodeError>
    requires pos + |b| <= MAX_INT
    decreases |b|
  {
    if b == [] then Ok(m)
    else
      var (r, n) :- ReadRecord(t, b, pos);
      var m' :- apply(m, r);
      Decode(apply, t, m', b[n..], pos + n)
  }

  /** UnmarshalVT on a whole slice. (No slice is longer than the largest int.) */
  function Unmarshal<M>(apply: (M, Record) -> Result<M, DecodeError>, t: MsgType, m: M, b: bytes): Result<M, DecodeError> {
    if |b| > MAX_INT then Err(InvalidLength) else Decode(apply, t, m, b, 0)
  }

  // ---------- what moving the input changes ----------

  /** Where the record at the start of b says it ends, when it gets as far as
      having that end tested. */
  function DeclaredEnd(t: MsgType, b: bytes): Option<nat> {
    match ReadVarint(b, W64)
    case Err(_) => None
    case Ok((wire, k)) =>
      if WireType(wire) == 4 || FieldNum(wire) <= 0 then None
      else match KindOf(t, FieldNum(wire)) {
        case Delimited =>
          if WireType(wire) != 2 then None
          else (
            match ReadVarint(b[k..], W64)
            case Err(_) => None
            case Ok((len, n)) => if Int64(len) < 0 then None else Some(k + n + Int64(len))
          )
        case Undeclared => (match Skip(b) case Err(_) => None case Ok(n) => Some(n))
        case _ => None
      }
  }

  // Reading the same record further along a longer message gives the same
  // answer, except that a length running past the end may now also run past
  // the largest int, which is reported as InvalidLength instead.
  lemma ReadRecordShift(t: MsgType, b: bytes, p: nat, q: nat)
    requires p <= q && q + |b| <= MAX_INT
    ensures ReadRecord(t, b, p) == ReadRecord(t, b, q) ||
            (ReadRecord(t, b, p) == Err(UnexpectedEOF) && ReadRecord(t, b, q) == Err(InvalidLength))
    ensures ReadRecord(t, b, p) == ReadRecord(t, b, q) <==>
            !(DeclaredEnd(t, b).Some? && p + DeclaredEnd(t, b).value <= MAX_INT < q + DeclaredEnd(t, b).value)
  {
    hide ReadVarint, AddInt, Int64, FieldNum, WireType;
  }

  /** The end declared by the record at which decoding b into m stops; 0 when it
      does not stop for a bad end. Counted from the start of the message. */
  function StoppingEnd<M>(apply: (M, Record) -> Result<M, DecodeError>, t: MsgType, m: M, b: bytes, pos: nat): nat
    requires pos + |b| <= MAX_INT
    decreases |b|
  {
    if b == [] then 0
    else match ReadRecord(t, b, pos)
      case Err(_) => if DeclaredEnd(t, b).Some? then pos + DeclaredEnd(t, b).value else 0
      case Ok((r, n)) =>
        match apply(m, r)
        case Err(_) => 0
        case Ok(m') => StoppingEnd(apply, t, m', b[n..], pos + n)
  }

  ghost predicate SameUpToEnd<M>(r: Result<M, DecodeError>, s: Result<M, DecodeError>) {
    r == s || (r == Err(UnexpectedEOF) && s == Err(InvalidLength))
  }

  lemma {:induction false} DecodeShift<M>(apply: (M, Record) -> Result<M, DecodeError>, t: MsgType, m: M, b: bytes, p: nat, d: nat)
    requires p + d + |b| <= MAX_INT
    ensures SameUpToEnd(Decode(apply, t, m, b, p), Decode(apply, t, m, b, p + d))
    ensures Decode(apply, t, m, b, p) == Decode(apply, t, m, b, p + d) <==>
            !(StoppingEnd(apply, t, m, b, p) <= MAX_INT < StoppingEnd(apply, t, m, b, p) + d)
    decreases |b|
  {
    hide ReadRecord, DeclaredEnd;
    if b != [] {
      ReadRecordShift(t, b, p, p + d);
      if ReadRecord(t, b, p).Ok? {
        var (r, n) := ReadRecord(t, b, p).value;
        assert ReadRecord(t, b, p + d) == ReadRecord(t, b, p);
        if apply(m, r).Ok? {
          DecodeShift(apply, t, apply(m, r).value, b[n..], p + n, d);
        }
      }
    }
  }

  // Decoding a ++ b carries on from where decoding a ended.
  lemma {:induction false} DecodeAppend<M>(apply: (M, Record) -> Result<M, DecodeError>, t: MsgType, m: M, a: bytes, b: bytes, pos: nat)
    requires pos + |a| + |b| <= MAX_INT
    requires Decode(apply, t, m, a, pos).Ok?
    ensures Decode(apply, t, m, a + b, pos) == Decode(apply, t, Decode(apply, t, m, a, pos).value, b, pos + |a|)
    decreases |a|
  {
    hide ReadRecord;
    if a == [] {
      assert a + b == b;
    } else {
      var (r, n) := ReadRecord(t, a, pos).value;
      var m' := apply(m, r).value;
      var ab := a + b;
      assert ab[..n] == a[..n] && ab[n..] == a[n..] + b;
      ReadRecordLocal(t, a, ab, pos, pos);
      assert Decode(apply, t, m, ab, pos) == Decode(apply, t, m', a[n..] + b, pos + n);
      DecodeAppend(apply, t, m', a[n..], b, pos + n);
    }
  }

  // Merge law ("Last One Wins"): concatenating two encodings merges them. The
  // two ways of decoding agree exactly, errors included, unless the record at
  // which b stops declares an end within |a| of the largest int.
  lemma {:induction false} MergeLaw<M>(apply: (M, Record) -> Result<M, DecodeError>, t: MsgType, m: M, a: bytes, b: bytes)
    requires |a| + |b| <= MAX_INT
    requires Decode(apply, t, m, a, 0).Ok?
    ensures var m1 := Decode(apply, t, m, a, 0).value;
            && SameUpToEnd(Decode(apply, t, m1, b, 0), Decode(apply, t, m, a + b, 0))
            && (Decode(apply, t, m, a + b, 0) == Decode(apply, t, m1, b, 0) <==>
                !(StoppingEnd(apply, t, m1, b, 0) <= MAX_INT < StoppingEnd(apply, t, m1, b, 0) + |a|))
  {
    hide Decode, StoppingEnd;
    DecodeAppend(apply, t, m, a, b, 0);
    DecodeShift(apply, t, Decode(apply, t, m, a, 0).value, b, 0, |a|);
  }

  // ---------- writing ----------

  function Tag(field: nat, wireType: nat): bytes { EncodeVarint(8 * field + wireType) }

  /** A scalar field: tag, varint. */
  function NumberField(field: nat, v: u64): bytes {
    Tag(field, 0) + EncodeVarint(v)
  }

  /** A length-delimited field: tag, length, payload. */
  function PayloadField(field: nat, payload: bytes): bytes {
    Tag(field, 2) + (EncodeVarint(|payload|) + payload)
  }

  /** if v != 0 { ... } */
  function OptNumber(field: nat, v: i64): bytes {
    if v != 0 then NumberField(field, UInt64(v)) else []
  }

  /** if b { ... } */
  function OptBool(field: nat, b: bool): bytes {
    if b then NumberField(field, 1) else []
  }

  /** A plain bytes field: if len(p) > 0 { ... } */
  function OptBytes(field: nat, p: Option<bytes>): bytes {
    if p.Some? && |p.value| > 0 then PayloadField(field, p.value) else []
  }

  /** A field with explicit presence: if p != nil { ... } */
  function OptPayload(field: nat, p: Option<bytes>): bytes {
    if p.Some? then PayloadField(field, p.value) else []
  }

  /** A repeated field, given the encodings of its elements. */
  function Repeated(field: nat, ps: seq<bytes>): bytes {
    if ps == [] then [] else PayloadField(field, ps[0]) + Repeated(field, ps[1..])
  }

  // ---------- reading back what was written ----------

  // Field numbers below 2^28 keep the tag within 32 bits.
  const MAX_FIELD := 0x1000_0000

  lemma ReadTag(field: nat, wt: nat, rest: bytes)
    requires 1 <= field < MAX_FIELD && wt < 8
    ensures ReadVarint(Tag(field, wt) + rest, W64) == Ok((8 * field + wt, |Tag(field, wt)|))
    ensures FieldNum(8 * field + wt) == field && WireType(8 * field + wt) == wt
    ensures (Tag(field, wt) + rest)[|Tag(field, wt)|..] == rest
  {
    hide EncodeVarint, ReadVarint, FieldNum, WireType;
    ReadInvertsEncode(8 * field + wt, rest, W64);
    TagParts(field, wt);
  }

  lemma TagParts(field: nat, wt: nat)
    requires 1 <= field < MAX_FIELD && wt < 8
    ensures FieldNum(8 * field + wt) == field && WireType(8 * field + wt) == wt
    ensures Cut(8 * field + wt, W64) == 8 * field + wt
  {
  }

  function ScalarWidth(t: MsgType, field: int): Width {
    if KindOf(t, field) == Enum then W32 else W64
  }

  lemma ReadNumberField(t: MsgType, field: nat, v: u64, rest: bytes, pos: nat)
    requires 1 <= field < MAX_FIELD && KindOf(t, field) in {Scalar, Enum}
    requires pos + |NumberField(field, v) + rest| <= MAX_INT
    ensures ReadRecord(t, NumberField(field, v) + rest, pos)
            == Ok((Number(field, Cut(v, ScalarWidth(t, field))), |NumberField(field, v)|))
  {
    hide ReadVarint, FieldNum, WireType, EncodeVarint, Tag, Cut, ReadLength;
    var b := NumberField(field, v) + rest;
    assert b == Tag(field, 0) + (EncodeVarint(v) + rest);
    ReadTag(field, 0, EncodeVarint(v) + rest);
    ReadInvertsEncode(v, rest, ScalarWidth(t, field));
  }

  // Tag, length and payload of a written field, whoever reads it.
  lemma ReadDelimited(field: nat, p: bytes, rest: bytes, pos: nat)
    requires 1 <= field < MAX_FIELD && pos + |PayloadField(field, p) + rest| <= MAX_INT
    ensures var b, k, n := PayloadField(field, p) + rest, |Tag(field, 2)|, |PayloadField(field, p)|;
            && ReadVarint(b, W64) == Ok((8 * field + 2, k)) && k <= |b|
            && FieldNum(8 * field + 2) == field && WireType(8 * field + 2) == 2
            && ReadLength(b, k, pos) == Ok((n - |p|, n)) && b[n - |p|..n] == p && b[n..] == rest
  {
    hide ReadVarint, FieldNum, WireType, EncodeVarint, Tag, Cut, AddInt, Int64;
    var b := PayloadField(field, p) + rest;
    var k, n := |Tag(field, 2)|, |EncodeVarint(|p|)|;
    assert b == Tag(field, 2) + (EncodeVarint(|p|) + (p + rest));
    ReadTag(field, 2, EncodeVarint(|p|) + (p + rest));
    ReadInvertsEncode(|p|, p + rest, W64);
    CutLength(|p|);
    assert b[k + n..k + n + |p|] == p;
  }

  lemma ReadPayloadField(t: MsgType, field: nat, p: bytes, rest: bytes, pos: nat)
    requires 1 <= field < MAX_FIELD && KindOf(t, field) == Delimited
    requires pos + |PayloadField(field, p) + rest| <= MAX_INT
    ensures ReadRecord(t, PayloadField(field, p) + rest, pos) == Ok((Payload(field, p), |PayloadField(field, p)|))
  {
    hide ReadVarint, FieldNum, WireType, ReadLength, PayloadField;
    ReadDelimited(field, p, rest, pos);
  }

  lemma CutLength(n: nat)
    requires n <= MAX_INT
    ensures Cut(n, W64) == n && Int64(n) == n
  {
  }
}
