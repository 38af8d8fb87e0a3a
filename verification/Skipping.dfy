// The contract asked of protohelpers.Skip can be met: a skipper written from the
// Protocol Buffers Encoding ("Message Structure", groups included) meets it.
module Skipping {
  import opened Common
  import opened Varint
  import opened Wire

  /** One tag and its value at the start of b: the bytes that must be read to know
      it, its length (which may lie outside b), and the groups open after it. */
  function Head(b: bytes, depth: nat): (r: Result<(nat, nat, nat), DecodeError>)
    ensures r.Ok? ==> SkipTakesTag(b, r.value.0) && 1 <= r.value.0 <= r.value.1
  {
    var (wire, k) :- ReadVarint(b, W64);
    match wire % 8
    case 0 => var (v, n) :- ReadVarint(b[k..], W64); Ok((k + n, k + n, depth))
    case 1 => Ok((k, k + 8, depth))
    case 2 =>
      var (len, n) :- ReadVarint(b[k..], W64);
      if Int64(len) < 0 then Err(InvalidLength) else Ok((k + n, k + n + Int64(len), depth))
    case 3 => Ok((k, k, depth + 1))
    case 4 => if depth == 0 then Err(EndGroup) else Ok((k, k, depth - 1))
    case 5 => Ok((k, k + 4, depth))
    case _ => Err(SkipFailed)
  }

  /** Skips from i on, inside the given number of open groups, until none is open.
      An index above MAX_INT has wrapped around. */
  function SkipFrom(b: bytes, i: nat, depth: nat): (r: Result<nat, DecodeError>)
    ensures r.Ok? ==> i < r.value <= MAX_INT
    decreases |b| - i
  {
    if i >= |b| then Err(UnexpectedEOF)
    else
      var (read, size, d) :- Head(b[i..], depth);
      if i + size > MAX_INT then Err(InvalidLength)
      else if d == 0 then Ok(i + size)
      else SkipFrom(b, i + size, d)
  }

  function SpecSkip(b: bytes): Result<nat, DecodeError> { SkipFrom(b, 0, 0) }

  lemma Shared(b: bytes, c: bytes, n: nat, i: nat, j: nat)
    requires i <= j <= n <= |b| && n <= |c| && c[..n] == b[..n]
    ensures c[i..][..j - i] == b[i..][..j - i]
  {
    assert c[..n][i..j] == b[..n][i..j];
    assert c[i..][..j - i] == c[..n][i..j] && b[i..][..j - i] == b[..n][i..j];
  }

  lemma HeadIsLocal(b: bytes, c: bytes, depth: nat)
    requires Head(b, depth).Ok?
    requires Head(b, depth).value.0 <= |b| && Head(b, depth).value.0 <= |c|
    requires c[..Head(b, depth).value.0] == b[..Head(b, depth).value.0]
    ensures Head(c, depth) == Head(b, depth)
  {
    hide ReadVarint;
    var read := Head(b, depth).value.0;
    var (wire, k) := ReadVarint(b, W64).value;
    Shared(b, c, read, 0, k);
    ReadVarintLocal(b, c, W64);
    if wire % 8 == 0 || wire % 8 == 2 {
      Shared(b, c, read, k, read);
      ReadVarintLocal(b[k..], c[k..], W64);
    }
  }

  lemma {:induction false} SkipFromIsLocal(b: bytes, c: bytes, i: nat, depth: nat)
    requires SkipFrom(b, i, depth).Ok?
    requires var n := SkipFrom(b, i, depth).value; n <= |b| && n <= |c| && c[..n] == b[..n]
    ensures SkipFrom(c, i, depth) == SkipFrom(b, i, depth)
    decreases |b| - i
  {
    hide Head;
    var n := SkipFrom(b, i, depth).value;
    var (read, size, d) := Head(b[i..], depth).value;
    Shared(b, c, n, i, i + read);
    HeadIsLocal(b[i..], c[i..], depth);
    if d != 0 {
      SkipFromIsLocal(b, c, i + size, d);
    }
  }

  // Main result: the contract is not empty; the skipper of the specification is
  // one of the functions every theorem speaks of.
  lemma SpecSkipMeetsContract()
    ensures SkipContract(SpecSkip)
  {
    hide Head, SkipFrom;
    forall b: bytes | SpecSkip(b).Ok? ensures SkipTakesTag(b, SpecSkip(b).value) && SpecSkip(b).value <= MAX_INT {
      TakesTag(b);
    }
    forall b: bytes, c: bytes ensures SkipIsLocal(SpecSkip, b, c) {
      var r := SpecSkip(b);
      if r.Ok? && r.value <= |b| && r.value <= |c| && c[..r.value] == b[..r.value] {
        SkipFromIsLocal(b, c, 0, 0);
      }
    }
  }

  lemma {:induction false} TakesTag(b: bytes)
    requires SkipFrom(b, 0, 0).Ok?
    ensures SkipTakesTag(b, SkipFrom(b, 0, 0).value)
  {
    hide Head;
    assert b[0..] == b;
    var (read, size, d) := Head(b, 0).value;
    if d != 0 {
      assert SkipFrom(b, 0, 0) == SkipFrom(b, size, d);
    }
  }
}
