// UnmarshalVT of every message, on the real buffer. The slice decoded is
// dAtA[lo..hi]; the cursor iNdEx only grows. A message is a value here, so each
// field assignment of the source is an update of the variable cur.
module UnmarshalLoops {
  import opened Common
  import opened Varint
  import opened Wire
  import opened Messages

  /** A record by its place in the buffer. */
  datatype Slot =
    | NumberSlot(field: int, value: u64)
    | PayloadSlot(field: int, from: nat, to: nat)
    | UnknownSlot(from: nat, to: nat)

  ghost predicate Holds(s: Slot, dAtA: bytes, r: Record) {
    match s
    case NumberSlot(f, v) => r == Number(f, v)
    case PayloadSlot(f, from, to) => from <= to <= |dAtA| && r == Payload(f, dAtA[from..to])
    case UnknownSlot(from, to) => from <= to <= |dAtA| && r == Unknown(dAtA[from..to])
  }

  /** The length prefix and the three tests of its end. */
  method ReadLengthAt(dAtA: array<byte>, lo: nat, hi: nat, i: nat, k: nat) returns (r: Result<(nat, nat), DecodeError>)
    requires lo <= i <= i + k <= hi <= dAtA.Length <= MAX_INT
    ensures r == match ReadLength(dAtA[i..hi], k, i - lo)
                 case Err(e) => Err(e)
                 case Ok((from, to)) => Ok((i + from, i + to))
  {
    hide ReadVarint, Int64, AddInt;
    var len := ReadVarintLoop(dAtA, i + k, hi, W64);
    SubSlice(dAtA[..], i, hi, k, hi - i);
    if len.Err? {
      return Err(len.error);
    }
    var (v, from) := len.value;
    var byteLen := Int64(v);
    if byteLen < 0 {
      return Err(InvalidLength);
    }
    var postIndex := AddInt(from - lo, byteLen);
    if postIndex < 0 {
      return Err(InvalidLength);
    }
    if postIndex > hi - lo {
      return Err(UnexpectedEOF);
    }
    return Ok((from, lo + postIndex));
  }

  method SkipAt(dAtA: array<byte>, lo: nat, hi: nat, i: nat) returns (r: Result<nat, DecodeError>)
    requires lo <= i <= hi <= dAtA.Length <= MAX_INT
    ensures r == match SkipRecord(dAtA[i..hi], i - lo)
                 case Err(e) => Err(e)
                 case Ok((_, n)) => Ok(i + n)
  {
    hide Int64, AddInt;
    var skippy := Skip(dAtA[i..hi]);
    if skippy.Err? {
      return Err(skippy.error);
    }
    if AddInt(i - lo, skippy.value) < 0 {
      return Err(InvalidLength);
    }
    if i + skippy.value > hi {
      return Err(UnexpectedEOF);
    }
    return Ok(i + skippy.value);
  }

  /** A payload of a delimited field, whose tag of k bytes is at i. */
  method PayloadAt(field: int, dAtA: array<byte>, lo: nat, hi: nat, i: nat, k: nat) returns (s: Result<Slot, DecodeError>, next: nat)
    requires lo <= i <= i + k <= hi <= dAtA.Length <= MAX_INT
    ensures match ReadLength(dAtA[i..hi], k, i - lo)
            case Err(e) => s == Err(e)
            case Ok((from, to)) =>
              s.Ok? && next == i + to && s.value == PayloadSlot(field, i + from, next)
              && dAtA[i + from..next] == dAtA[i..hi][from..to]
  {
    hide ReadLength;
    var bounds := ReadLengthAt(dAtA, lo, hi, i, k);
    if bounds.Err? {
      return Err(bounds.error), i;
    }
    var (from, to) := bounds.value;
    SubSlice(dAtA[..], i, hi, from - i, to - i);
    return Ok(PayloadSlot(field, from, to)), to;
  }

  /** A record of an undeclared field, kept whole. */
  method UnknownAt(dAtA: array<byte>, lo: nat, hi: nat, i: nat) returns (s: Result<Slot, DecodeError>, next: nat)
    requires lo <= i <= hi <= dAtA.Length <= MAX_INT
    ensures match SkipRecord(dAtA[i..hi], i - lo)
            case Err(e) => s == Err(e)
            case Ok((r, n)) => s == Ok(UnknownSlot(i, i + n)) && next == i + n && Holds(s.value, dAtA[..], r)
  {
    var end := SkipAt(dAtA, lo, hi, i);
    if end.Err? {
      return Err(end.error), i;
    }
    SubSlice(dAtA[..], i, hi, 0, end.value - i);
    return Ok(UnknownSlot(i, end.value)), end.value;
  }

  /** The head of every decoding loop: tag, wire type tests, the value or the
      bounds of the payload. next is the cursor after the record. */
  method NextRecord(t: MsgType, dAtA: array<byte>, lo: nat, hi: nat, i: nat) returns (s: Result<Slot, DecodeError>, next: nat)
    requires lo <= i < hi <= dAtA.Length <= MAX_INT
    ensures match ReadRecord(t, dAtA[i..hi], i - lo)
            case Err(e) => s == Err(e)
            case Ok((r, n)) => s.Ok? && next == i + n && Holds(s.value, dAtA[..], r)
    ensures s.Ok? && s.value.PayloadSlot? ==> i <= s.value.from <= s.value.to == next <= hi
  {
    hide ReadVarint, FieldNum, WireType, ReadLength, SkipRecord, KindOf;
    next := i;
    var tag := ReadVarintLoop(dAtA, i, hi, W64);
    if tag.Err? {
      return Err(tag.error), next;
    }
    var (wire, j) := tag.value;
    var fieldNum := FieldNum(wire);
    var wireType := WireType(wire);
    if wireType == 4 {
      return Err(EndGroup), next;
    }
    if fieldNum <= 0 {
      return Err(IllegalTag(fieldNum, wire)), next;
    }
    match KindOf(t, fieldNum) {
      case Delimited =>
        if wireType != 2 {
          return Err(WrongWireType(wireType, fieldNum)), next;
        }
        s, next := PayloadAt(fieldNum, dAtA, lo, hi, i, j - i);
      case Undeclared =>
        s, next := UnknownAt(dAtA, lo, hi, i);
      case _ =>
        if wireType != 0 {
          return Err(WrongWireType(wireType, fieldNum)), next;
        }
        var v := ReadVarintLoop(dAtA, j, hi, ScalarWidth(t, fieldNum));
        SubSlice(dAtA[..], i, hi, j - i, hi - i);
        if v.Err? {
          return Err(v.error), next;
        }
        return Ok(NumberSlot(fieldNum, v.value.0)), v.value.1;
    }
  }

  method UnmarshalKeyValueAt(m: KeyValue, dAtA: array<byte>, lo: nat, hi: nat) returns (r: Result<KeyValue, DecodeError>)
    requires lo <= hi <= dAtA.Length <= MAX_INT
    ensures r == UnmarshalKeyValue(m, dAtA[lo..hi])
  {
    hide ReadRecord;
    var cur, iNdEx := m, lo;
    while iNdEx < hi
      invariant lo <= iNdEx <= hi
      invariant Decode(ApplyKeyValue, TKeyValue, cur, dAtA[iNdEx..hi], iNdEx - lo) == Decode(ApplyKeyValue, TKeyValue, m, dAtA[lo..hi], 0)
    {
      var s, next := NextRecord(TKeyValue, dAtA, lo, hi, iNdEx);
      if s.Err? {
        return Err(s.error);
      }
      SubSlice(dAtA[..], iNdEx, hi, next - iNdEx, hi - iNdEx);
      match s.value {
        case PayloadSlot(field, from, to) =>
          match field {
            case 1 => cur := cur.(key := Some(dAtA[from..to]));
            case 4 => cur := cur.(value := Some(dAtA[from..to]));
            case _ =>
          }
        case NumberSlot(field, v) =>
          match field {
            case 2 => cur := cur.(createRevision := Int64(v));
            case 3 => cur := cur.(modRevision := Int64(v));
            case _ =>
          }
        case UnknownSlot(from, to) =>
          cur := cur.(unknown := cur.unknown + dAtA[from..to]);
      }
      iNdEx := next;
    }
    return Ok(cur);
  }

  method UnmarshalRangeAt(m: Range, dAtA: array<byte>, lo: nat, hi: nat) returns (r: Result<Range, DecodeError>)
    requires lo <= hi <= dAtA.Length <= MAX_INT
    ensures r == UnmarshalRange(m, dAtA[lo..hi])
  {
    hide ReadRecord;
    var cur, iNdEx := m, lo;
    while iNdEx < hi
      invariant lo <= iNdEx <= hi
      invariant Decode(ApplyRange, TRange, cur, dAtA[iNdEx..hi], iNdEx - lo) == Decode(ApplyRange, TRange, m, dAtA[lo..hi], 0)
    {
      var s, next := NextRecord(TRange, dAtA, lo, hi, iNdEx);
      if s.Err? {
        return Err(s.error);
      }
      SubSlice(dAtA[..], iNdEx, hi, next - iNdEx, hi - iNdEx);
      match s.value {
        case PayloadSlot(field, from, to) =>
          match field {
            case 1 => cur := cur.(key := Some(dAtA[from..to]));
            case 2 => cur := cur.(rangeEnd := Some(dAtA[from..to]));
            case _ =>
          }
        case NumberSlot(field, v) =>
          match field {
            case 3 => cur := cur.(limit := Int64(v));
            case 4 => cur := cur.(keysOnly := v != 0);
            case 5 => cur := cur.(countOnly := v != 0);
            case _ =>
          }
        case UnknownSlot(from, to) =>
          cur := cur.(unknown := cur.unknown + dAtA[from..to]);
      }
      iNdEx := next;
    }
    return Ok(cur);
  }

  method UnmarshalPutAt(m: Put, dAtA: array<byte>, lo: nat, hi: nat) returns (r: Result<Put, DecodeError>)
    requires lo <= hi <= dAtA.Length <= MAX_INT
    ensures r == UnmarshalPut(m, dAtA[lo..hi])
  {
    hide ReadRecord;
    var cur, iNdEx := m, lo;
    while iNdEx < hi
      invariant lo <= iNdEx <= hi
      invariant Decode(ApplyPut, TPut, cur, dAtA[iNdEx..hi], iNdEx - lo) == Decode(ApplyPut, TPut, m, dAtA[lo..hi], 0)
    {
      var s, next := NextRecord(TPut, dAtA, lo, hi, iNdEx);
      if s.Err? {
        return Err(s.error);
      }
      SubSlice(dAtA[..], iNdEx, hi, next - iNdEx, hi - iNdEx);
      match s.value {
        case PayloadSlot(field, from, to) =>
          match field {
            case 1 => cur := cur.(key := Some(dAtA[from..to]));
            case 2 => cur := cur.(value := Some(dAtA[from..to]));
            case _ =>
          }
        case NumberSlot(field, v) =>
          match field {
            case 3 => cur := cur.(prevKv := v != 0);
            case _ =>
          }
        case UnknownSlot(from, to) =>
          cur := cur.(unknown := cur.unknown + dAtA[from..to]);
      }
      iNdEx := next;
    }
    return Ok(cur);
  }

  method UnmarshalDeleteRangeAt(m: DeleteRange, dAtA: array<byte>, lo: nat, hi: nat) returns (r: Result<DeleteRange, DecodeError>)
    requires lo <= hi <= dAtA.Length <= MAX_INT
    ensures r == UnmarshalDeleteRange(m, dAtA[lo..hi])
  {
    hide ReadRecord;
    var cur, iNdEx := m, lo;
    while iNdEx < hi
      invariant lo <= iNdEx <= hi
      invariant Decode(ApplyDeleteRange, TDeleteRange, cur, dAtA[iNdEx..hi], iNdEx - lo) == Decode(ApplyDeleteRange, TDeleteRange, m, dAtA[lo..hi], 0)
    {
      var s, next := NextRecord(TDeleteRange, dAtA, lo, hi, iNdEx);
      if s.Err? {
        return Err(s.error);
      }
      SubSlice(dAtA[..], iNdEx, hi, next - iNdEx, hi - iNdEx);
      match s.value {
        case PayloadSlot(field, from, to) =>
          match field {
            case 1 => cur := cur.(key := Some(dAtA[from..to]));
            case 2 => cur := cur.(rangeEnd := Some(dAtA[from..to]));
            case _ =>
          }
        case NumberSlot(field, v) =>
          match field {
            case 4 => cur := cur.(prevKv := v != 0);
            case 5 => cur := cur.(count := v != 0);
            case _ =>
          }
        case UnknownSlot(from, to) =>
          cur := cur.(unknown := cur.unknown + dAtA[from..to]);
      }
      iNdEx := next;
    }
    return Ok(cur);
  }

  method UnmarshalCompareAt(m: Compare, dAtA: array<byte>, lo: nat, hi: nat) returns (r: Result<Compare, DecodeError>)
    requires lo <= hi <= dAtA.Length <= MAX_INT
    ensures r == UnmarshalCompare(m, dAtA[lo..hi])
  {
    hide ReadRecord;
    var cur, iNdEx := m, lo;
    while iNdEx < hi
      invariant lo <= iNdEx <= hi
      invariant Decode(ApplyCompare, TCompare, cur, dAtA[iNdEx..hi], iNdEx - lo) == Decode(ApplyCompare, TCompare, m, dAtA[lo..hi], 0)
    {
      var s, next := NextRecord(TCompare, dAtA, lo, hi, iNdEx);
      if s.Err? {
        return Err(s.error);
      }
      SubSlice(dAtA[..], iNdEx, hi, next - iNdEx, hi - iNdEx);
      match s.value {
        case PayloadSlot(field, from, to) =>
          match field {
            case 3 => cur := cur.(key := Some(dAtA[from..to]));
            case 4 => cur := cur.(targetUnion := Some(Some(dAtA[from..to])));
            case 64 => cur := cur.(rangeEnd := Some(dAtA[from..to]));
            case _ =>
          }
        case NumberSlot(field, v) =>
          match field {
            case 1 => cur := cur.(result := Int32(v));
            case 2 => cur := cur.(target := Int32(v));
            case _ =>
          }
        case UnknownSlot(from, to) =>
          cur := cur.(unknown := cur.unknown + dAtA[from..to]);
      }
      iNdEx := next;
    }
    return Ok(cur);
  }

  /** UnmarshalVT on a nil receiver. */
  method IntoNilAt(t: MsgType, dAtA: array<byte>, lo: nat, hi: nat) returns (e: DecodeError)
    requires lo < hi <= dAtA.Length <= MAX_INT
    ensures e == IntoNil(t, dAtA[lo..hi])
  {
    hide ReadRecord, ReadVarint, FieldNum, WireType;
    var s, next := NextRecord(t, dAtA, lo, hi, lo);
    if s.Ok? {
      return NilBody;
    }
    var tag := ReadVarintLoop(dAtA, lo, hi, W64);
    if t == TRange && tag.Ok? && FieldNum(tag.value.0) == 3 && WireType(tag.value.0) == 0 {
      return NilBody;
    }
    return s.error;
  }

  method UnmarshalRequestOpAt(m: RequestOp, dAtA: array<byte>, lo: nat, hi: nat) returns (r: Result<RequestOp, DecodeError>)
    requires lo <= hi <= dAtA.Length <= MAX_INT
    ensures r == UnmarshalRequestOp(m, dAtA[lo..hi])
  {
    hide ReadRecord, UnmarshalRange, UnmarshalPut, UnmarshalDeleteRange, IntoNil;
    var cur, iNdEx := m, lo;
    while iNdEx < hi
      invariant lo <= iNdEx <= hi
      invariant Decode(ApplyRequestOp, TRequestOp, cur, dAtA[iNdEx..hi], iNdEx - lo) == Decode(ApplyRequestOp, TRequestOp, m, dAtA[lo..hi], 0)
    {
      var s, next := NextRecord(TRequestOp, dAtA, lo, hi, iNdEx);
      if s.Err? {
        return Err(s.error);
      }
      SubSlice(dAtA[..], iNdEx, hi, next - iNdEx, hi - iNdEx);
      match s.value {
        case PayloadSlot(field, from, to) =>
          match field {
            case 1 =>
              if cur.request == RequestRange(None) {
                if from < to {
                  var e := IntoNilAt(TRange, dAtA, from, to);
                  return Err(e);
                }
              } else {
                var x := UnmarshalRangeAt(if cur.request.RequestRange? then cur.request.range.value else RANGE, dAtA, from, to);
                if x.Err? {
                  return Err(x.error);
                }
                cur := cur.(request := RequestRange(Some(x.value)));
              }
            case 2 =>
              if cur.request == RequestPut(None) {
                if from < to {
                  var e := IntoNilAt(TPut, dAtA, from, to);
                  return Err(e);
                }
              } else {
                var x := UnmarshalPutAt(if cur.request.RequestPut? then cur.request.put.value else PUT, dAtA, from, to);
                if x.Err? {
                  return Err(x.error);
                }
                cur := cur.(request := RequestPut(Some(x.value)));
              }
            case 3 =>
              if cur.request == RequestDeleteRange(None) {
                if from < to {
                  var e := IntoNilAt(TDeleteRange, dAtA, from, to);
                  return Err(e);
                }
              } else {
                var x := UnmarshalDeleteRangeAt(if cur.request.RequestDeleteRange? then cur.request.del.value else DELETE_RANGE, dAtA, from, to);
                if x.Err? {
                  return Err(x.error);
                }
                cur := cur.(request := RequestDeleteRange(Some(x.value)));
              }
            case _ =>
          }
        case NumberSlot(field, v) =>
        case UnknownSlot(from, to) =>
          cur := cur.(unknown := cur.unknown + dAtA[from..to]);
      }
      iNdEx := next;
    }
    return Ok(cur);
  }

  method UnmarshalTxnAt(m: Txn, dAtA: array<byte>, lo: nat, hi: nat) returns (r: Result<Txn, DecodeError>)
    requires lo <= hi <= dAtA.Length <= MAX_INT
    ensures r == UnmarshalTxn(m, dAtA[lo..hi])
  {
    hide ReadRecord, UnmarshalCompare, UnmarshalRequestOp;
    var cur, iNdEx := m, lo;
    while iNdEx < hi
      invariant lo <= iNdEx <= hi
      invariant Decode(ApplyTxn, TTxn, cur, dAtA[iNdEx..hi], iNdEx - lo) == Decode(ApplyTxn, TTxn, m, dAtA[lo..hi], 0)
    {
      var s, next := NextRecord(TTxn, dAtA, lo, hi, iNdEx);
      if s.Err? {
        return Err(s.error);
      }
      SubSlice(dAtA[..], iNdEx, hi, next - iNdEx, hi - iNdEx);
      match s.value {
        case PayloadSlot(field, from, to) =>
          match field {
            case 1 =>
              var x := UnmarshalCompareAt(COMPARE, dAtA, from, to);
              if x.Err? {
                return Err(x.error);
              }
              cur := cur.(compare := cur.compare + [Some(x.value)]);
            case 2 =>
              var x := UnmarshalRequestOpAt(REQUEST_OP, dAtA, from, to);
              if x.Err? {
                return Err(x.error);
              }
              cur := cur.(success := cur.success + [Some(x.value)]);
            case 3 =>
              var x := UnmarshalRequestOpAt(REQUEST_OP, dAtA, from, to);
              if x.Err? {
                return Err(x.error);
              }
              cur := cur.(failure := cur.failure + [Some(x.value)]);
            case _ =>
          }
        case NumberSlot(field, v) =>
        case UnknownSlot(from, to) =>
          cur := cur.(unknown := cur.unknown + dAtA[from..to]);
      }
      iNdEx := next;
    }
    return Ok(cur);
  }

  // Main result: the recursive parser reads only dAtA[lo..hi], always ends, and
  // answers what the recursive definition says of those bytes alone.
  method UnmarshalCommandAt(m: Command, dAtA: array<byte>, lo: nat, hi: nat) returns (r: Result<Command, DecodeError>)
    requires lo <= hi <= dAtA.Length <= MAX_INT
    ensures r == UnmarshalCommand(m, dAtA[lo..hi])
    decreases hi - lo
  {
    hide ReadRecord, UnmarshalKeyValue, UnmarshalTxn;
    var cur, iNdEx := m, lo;
    while iNdEx < hi
      invariant lo <= iNdEx <= hi
      invariant DecodeCommand(cur, dAtA[iNdEx..hi], iNdEx - lo) == DecodeCommand(m, dAtA[lo..hi], 0)
    {
      var s, next := NextRecord(TCommand, dAtA, lo, hi, iNdEx);
      if s.Err? {
        return Err(s.error);
      }
      SubSlice(dAtA[..], iNdEx, hi, next - iNdEx, hi - iNdEx);
      match s.value {
        case PayloadSlot(field, from, to) =>
          match field {
            case 1 => cur := cur.(table := Some(dAtA[from..to]));
            case 3 =>
              var x := UnmarshalKeyValueAt(OrElse(cur.kv, KEY_VALUE), dAtA, from, to);
              if x.Err? {
                return Err(x.error);
              }
              cur := cur.(kv := Some(x.value));
            case 6 =>
              var x := UnmarshalKeyValueAt(KEY_VALUE, dAtA, from, to);
              if x.Err? {
                return Err(x.error);
              }
              cur := cur.(batch := cur.batch + [Some(x.value)]);
            case 7 =>
              var x := UnmarshalTxnAt(OrElse(cur.txn, TXN), dAtA, from, to);
              if x.Err? {
                return Err(x.error);
              }
              cur := cur.(txn := Some(x.value));
            case 8 => cur := cur.(rangeEnd := Some(dAtA[from..to]));
            case 10 =>
              var x := UnmarshalCommandAt(COMMAND, dAtA, from, to);
              if x.Err? {
                return Err(x.error);
              }
              cur := cur.(sequence := cur.sequence + [Some(x.value)]);
            case _ =>
          }
        case NumberSlot(field, v) =>
          match field {
            case 2 => cur := cur.(typ := Int32(v));
            case 5 => cur := cur.(leaderIndex := Some(v));
            case 9 => cur := cur.(prevKvs := v != 0);
            case 11 => cur := cur.(count := v != 0);
            case _ =>
          }
        case UnknownSlot(from, to) =>
          cur := cur.(unknown := cur.unknown + dAtA[from..to]);
      }
      iNdEx := next;
    }
    return Ok(cur);
  }
}
