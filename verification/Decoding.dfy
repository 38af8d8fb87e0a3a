// Decoding what the writers lay out, one field at a time, for any message.
module Decoding {
  import opened Common
  import opened Varint
  import opened Wire

  // Each lemma prepends one written field to an input that is known to decode.

  lemma {:induction false} StepNumber<M>(apply: (M, Record) -> Result<M, DecodeError>, t: MsgType, m: M, m': M, field: nat, v: u64, rest: bytes, x: M)
    requires 1 <= field < MAX_FIELD && KindOf(t, field) in {Scalar, Enum}
    requires |NumberField(field, v) + rest| <= MAX_INT
    requires apply(m, Number(field, Cut(v, ScalarWidth(t, field)))) == Ok(m')
    requires Decode(apply, t, m', rest, 0) == Ok(x)
    ensures Decode(apply, t, m, NumberField(field, v) + rest, 0) == Ok(x)
  {
    hide ReadRecord, NumberField, ScalarWidth, KindOf, Cut;
    ReadNumberField(t, field, v, rest, 0);
    StepAny(apply, t, m, m', NumberField(field, v), rest, x);
  }

  lemma {:induction false} StepPayload<M>(apply: (M, Record) -> Result<M, DecodeError>, t: MsgType, m: M, m': M, field: nat, p: bytes, rest: bytes, x: M)
    requires 1 <= field < MAX_FIELD && KindOf(t, field) == Delimited
    requires |PayloadField(field, p) + rest| <= MAX_INT
    requires apply(m, Payload(field, p)) == Ok(m')
    requires Decode(apply, t, m', rest, 0) == Ok(x)
    ensures Decode(apply, t, m, PayloadField(field, p) + rest, 0) == Ok(x)
  {
    hide ReadRecord, PayloadField, KindOf;
    ReadPayloadField(t, field, p, rest, 0);
    StepAny(apply, t, m, m', PayloadField(field, p), rest, x);
  }

  lemma {:induction false} StepAny<M>(apply: (M, Record) -> Result<M, DecodeError>, t: MsgType, m: M, m': M, c: bytes, rest: bytes, x: M)
    requires |c + rest| <= MAX_INT
    requires ReadRecord(t, c + rest, 0).Ok? && ReadRecord(t, c + rest, 0).value.1 == |c|
    requires apply(m, ReadRecord(t, c + rest, 0).value.0) == Ok(m')
    requires Decode(apply, t, m', rest, 0) == Ok(x)
    ensures Decode(apply, t, m, c + rest, 0) == Ok(x)
  {
    hide ReadRecord;
    assert (c + rest)[|c|..] == rest;
    DecodeShift(apply, t, m', rest, 0, |c|);
  }

  // A payload that cannot be assigned ends the decode.
  lemma {:induction false} StepPayloadFails<M>(apply: (M, Record) -> Result<M, DecodeError>, t: MsgType, m: M, field: nat, p: bytes, rest: bytes)
    requires 1 <= field < MAX_FIELD && KindOf(t, field) == Delimited
    requires |PayloadField(field, p) + rest| <= MAX_INT
    requires apply(m, Payload(field, p)).Err?
    ensures Decode(apply, t, m, PayloadField(field, p) + rest, 0) == Err(apply(m, Payload(field, p)).error)
  {
    hide ReadRecord, PayloadField, KindOf;
    ReadPayloadField(t, field, p, rest, 0);
  }

  lemma {:induction false} StepOptNumber<M>(apply: (M, Record) -> Result<M, DecodeError>, t: MsgType, m: M, m': M, field: nat, v: i64, rest: bytes, x: M)
    requires 1 <= field < MAX_FIELD && KindOf(t, field) in {Scalar, Enum}
    requires |OptNumber(field, v) + rest| <= MAX_INT
    requires if v != 0 then apply(m, Number(field, Cut(UInt64(v), ScalarWidth(t, field)))) == Ok(m') else m' == m
    requires Decode(apply, t, m', rest, 0) == Ok(x)
    ensures Decode(apply, t, m, OptNumber(field, v) + rest, 0) == Ok(x)
  {
    hide Decode;
    if v != 0 {
      StepNumber(apply, t, m, m', field, UInt64(v), rest, x);
    } else {
      assert [] + rest == rest;
    }
  }

  lemma {:induction false} StepOptBool<M>(apply: (M, Record) -> Result<M, DecodeError>, t: MsgType, m: M, m': M, field: nat, b: bool, rest: bytes, x: M)
    requires 1 <= field < MAX_FIELD && KindOf(t, field) == Scalar
    requires |OptBool(field, b) + rest| <= MAX_INT
    requires if b then apply(m, Number(field, 1)) == Ok(m') else m' == m
    requires Decode(apply, t, m', rest, 0) == Ok(x)
    ensures Decode(apply, t, m, OptBool(field, b) + rest, 0) == Ok(x)
  {
    hide Decode;
    if b {
      StepNumber(apply, t, m, m', field, 1, rest, x);
    } else {
      assert [] + rest == rest;
    }
  }

  lemma {:induction false} StepOptBytes<M>(apply: (M, Record) -> Result<M, DecodeError>, t: MsgType, m: M, m': M, field: nat, p: Option<bytes>, rest: bytes, x: M)
    requires 1 <= field < MAX_FIELD && KindOf(t, field) == Delimited
    requires |OptBytes(field, p) + rest| <= MAX_INT
    requires if p.Some? && |p.value| > 0 then apply(m, Payload(field, p.value)) == Ok(m') else m' == m
    requires Decode(apply, t, m', rest, 0) == Ok(x)
    ensures Decode(apply, t, m, OptBytes(field, p) + rest, 0) == Ok(x)
  {
    hide Decode;
    if p.Some? && |p.value| > 0 {
      StepPayload(apply, t, m, m', field, p.value, rest, x);
    } else {
      assert [] + rest == rest;
    }
  }

  lemma {:induction false} StepOptPayload<M>(apply: (M, Record) -> Result<M, DecodeError>, t: MsgType, m: M, m': M, field: nat, p: Option<bytes>, rest: bytes, x: M)
    requires 1 <= field < MAX_FIELD && KindOf(t, field) == Delimited
    requires |OptPayload(field, p) + rest| <= MAX_INT
    requires if p.Some? then apply(m, Payload(field, p.value)) == Ok(m') else m' == m
    requires Decode(apply, t, m', rest, 0) == Ok(x)
    ensures Decode(apply, t, m, OptPayload(field, p) + rest, 0) == Ok(x)
  {
    hide Decode;
    if p.Some? {
      StepPayload(apply, t, m, m', field, p.value, rest, x);
    } else {
      assert [] + rest == rest;
    }
  }

  /** Assigning a list of payloads to the same field, in order. */
  function ApplyAll<M>(apply: (M, Record) -> Result<M, DecodeError>, m: M, field: int, ps: seq<bytes>): Result<M, DecodeError> {
    if ps == [] then Ok(m)
    else
      var m' :- apply(m, Payload(field, ps[0]));
      ApplyAll(apply, m', field, ps[1..])
  }

  // Payloads that each add one element to a list add them in order.
  lemma {:induction false} ApplyAllAdds<M, X(!new)>(apply: (M, Record) -> Result<M, DecodeError>, field: int, ps: seq<bytes>,
                                                    withList: seq<X> -> M, before: seq<X>, xs: seq<X>)
    requires |ps| == |xs|
    requires forall zs: seq<X>, i :: 0 <= i < |ps| ==> apply(withList(zs), Payload(field, ps[i])) == Ok(withList(zs + [xs[i]]))
    ensures ApplyAll(apply, withList(before), field, ps) == Ok(withList(before + xs))
    decreases |ps|
  {
    if ps == [] {
      assert before + xs == before;
    } else {
      forall zs: seq<X>, i | 0 <= i < |ps| - 1
        ensures apply(withList(zs), Payload(field, ps[1..][i])) == Ok(withList(zs + [xs[1..][i]]))
      {
        assert ps[1..][i] == ps[i + 1] && xs[1..][i] == xs[i + 1];
      }
      ApplyAllAdds(apply, field, ps[1..], withList, before + [xs[0]], xs[1..]);
      assert before + [xs[0]] + xs[1..] == before + xs;
    }
  }

  lemma {:induction false} StepRepeated<M>(apply: (M, Record) -> Result<M, DecodeError>, t: MsgType, m: M, m': M, field: nat, ps: seq<bytes>, rest: bytes, x: M)
    requires 1 <= field < MAX_FIELD && KindOf(t, field) == Delimited
    requires |Repeated(field, ps) + rest| <= MAX_INT
    requires ApplyAll(apply, m, field, ps) == Ok(m')
    requires Decode(apply, t, m', rest, 0) == Ok(x)
    ensures Decode(apply, t, m, Repeated(field, ps) + rest, 0) == Ok(x)
    decreases |ps|
  {
    hide Decode, PayloadField;
    if ps == [] {
      assert Repeated(field, ps) + rest == rest;
    } else {
      var m1 := apply(m, Payload(field, ps[0])).value;
      StepRepeated(apply, t, m1, m', field, ps[1..], rest, x);
      assert Repeated(field, ps) + rest == PayloadField(field, ps[0]) + (Repeated(field, ps[1..]) + rest);
      StepPayload(apply, t, m, m1, field, ps[0], Repeated(field, ps[1..]) + rest, x);
    }
  }

  // ---------- unknown fields ----------

  /** A slice of b that a read may be made from. */
  function Clip(b: bytes): (c: bytes)
    ensures |c| <= MAX_INT && c <= b && (|b| <= MAX_INT ==> c == b)
  {
    if |b| <= MAX_INT then b else b[..MAX_INT]
  }

  /** u is a run of whole records of fields the message type does not declare. */
  predicate WholeUnknown(t: MsgType, u: bytes)
    decreases |u|
  {
    u == [] ||
    (var r := ReadRecord(t, Clip(u), 0);
     r.Ok? && r.value.0.Unknown? && WholeUnknown(t, u[r.value.1..]))
  }

  lemma {:induction false} WholeUnknownAppend(t: MsgType, u: bytes, v: bytes)
    requires WholeUnknown(t, u) && WholeUnknown(t, v)
    ensures WholeUnknown(t, u + v)
    decreases |u|
  {
    hide ReadRecord, Clip;
    if u == [] {
      assert u + v == v;
    } else {
      var n := ReadRecord(t, Clip(u), 0).value.1;
      assert Clip(u)[..n] == u[..n] == (u + v)[..n] == Clip(u + v)[..n] by { ClipPrefix(u, n); ClipPrefix(u + v, n); }
      assert (u + v)[n..] == u[n..] + v;
      ReadRecordLocal(t, Clip(u), Clip(u + v), 0, 0);
      WholeUnknownAppend(t, u[n..], v);
    }
  }

  lemma ClipPrefix(b: bytes, n: nat)
    requires n <= |b| && n <= MAX_INT
    ensures n <= |Clip(b)| && Clip(b)[..n] == b[..n]
  {
  }

  // A record that was read as unknown is a whole unknown record by itself.
  lemma {:induction false} ReadUnknownIsWhole(t: MsgType, b: bytes, pos: nat)
    requires pos + |b| <= MAX_INT
    requires ReadRecord(t, b, pos).Ok? && ReadRecord(t, b, pos).value.0.Unknown?
    ensures ReadRecord(t, b, pos).value.0.raw == b[..ReadRecord(t, b, pos).value.1]
    ensures WholeUnknown(t, b[..ReadRecord(t, b, pos).value.1])
  {
    ReadUnknownIsPrefix(t, b, pos);
    var n := ReadRecord(t, b, pos).value.1;
    ReadRecordLocal(t, b, b[..n], pos, 0);
    assert b[..n][n..] == [];
  }

  lemma ReadUnknownIsPrefix(t: MsgType, b: bytes, pos: nat)
    requires pos + |b| <= MAX_INT
    requires ReadRecord(t, b, pos).Ok? && ReadRecord(t, b, pos).value.0.Unknown?
    ensures ReadRecord(t, b, pos).value.0.raw == b[..ReadRecord(t, b, pos).value.1]
  {
    hide ReadVarint, FieldNum, WireType, ReadLength;
  }

  ghost predicate KeepsUnknown<M(!new)>(apply: (M, Record) -> Result<M, DecodeError>, withUnknown: bytes -> M) {
    forall u: bytes, raw: bytes :: apply(withUnknown(u), Unknown(raw)) == Ok(withUnknown(u + raw))
  }

  // Whole unknown records are kept verbatim and in order.
  lemma {:induction false} DecodeUnknown<M(!new)>(apply: (M, Record) -> Result<M, DecodeError>, t: MsgType, withUnknown: bytes -> M, u0: bytes, u: bytes)
    requires |u| <= MAX_INT && WholeUnknown(t, u)
    requires KeepsUnknown(apply, withUnknown)
    ensures Decode(apply, t, withUnknown(u0), u, 0) == Ok(withUnknown(u0 + u))
    decreases |u|
  {
    hide ReadRecord;
    if u == [] {
      assert u0 + u == u0;
    } else {
      var n := ReadRecord(t, u, 0).value.1;
      ReadUnknownIsPrefix(t, u, 0);
      DecodeUnknown(apply, t, withUnknown, u0 + u[..n], u[n..]);
      assert u0 + u == u0 + u[..n] + u[n..];
      DecodeShift(apply, t, withUnknown(u0 + u[..n]), u[n..], 0, n);
    }
  }

  // The innermost step: the unknown bytes, written last, are appended.
  lemma {:induction false} StepUnknown<M(!new)>(apply: (M, Record) -> Result<M, DecodeError>, t: MsgType, m: M, withUnknown: bytes -> M, u0: bytes, u: bytes, x: M)
    requires |u| <= MAX_INT && WholeUnknown(t, u)
    requires KeepsUnknown(apply, withUnknown)
    requires m == withUnknown(u0) && x == withUnknown(u0 + u)
    ensures Decode(apply, t, m, u, 0) == Ok(x)
  {
    DecodeUnknown(apply, t, withUnknown, u0, u);
  }

  /** The records of undeclared fields in b, one after the other. */
  function UnknownIn(t: MsgType, b: bytes, pos: nat): bytes
    requires pos + |b| <= MAX_INT
    decreases |b|
  {
    if b == [] then []
    else match ReadRecord(t, b, pos)
      case Err(_) => []
      case Ok((r, n)) => (if r.Unknown? then r.raw else []) + UnknownIn(t, b[n..], pos + n)
  }

  ghost predicate AppendsUnknown<M(!new)>(apply: (M, Record) -> Result<M, DecodeError>, unknownOf: M -> bytes) {
    forall m: M, r: Record :: apply(m, r).Ok? ==> unknownOf(apply(m, r).value) == unknownOf(m) + (if r.Unknown? then r.raw else [])
  }

  // Of any accepted input, with known and unknown fields mixed, the unknown
  // records are kept: all of them, verbatim and in order.
  lemma {:induction false} DecodeCollectsUnknown<M(!new)>(apply: (M, Record) -> Result<M, DecodeError>, t: MsgType, unknownOf: M -> bytes, m: M, b: bytes, pos: nat)
    requires pos + |b| <= MAX_INT && AppendsUnknown(apply, unknownOf) && Decode(apply, t, m, b, pos).Ok?
    ensures unknownOf(Decode(apply, t, m, b, pos).value) == unknownOf(m) + UnknownIn(t, b, pos)
    decreases |b|
  {
    hide ReadRecord;
    if b == [] {
      assert unknownOf(m) + [] == unknownOf(m);
    } else {
      var (r, n) := ReadRecord(t, b, pos).value;
      var m' := apply(m, r).value;
      var raw := if r.Unknown? then r.raw else [];
      DecodeCollectsUnknown(apply, t, unknownOf, m', b[n..], pos + n);
      assert unknownOf(m) + raw + UnknownIn(t, b[n..], pos + n) == unknownOf(m) + (raw + UnknownIn(t, b[n..], pos + n));
    }
  }
}
