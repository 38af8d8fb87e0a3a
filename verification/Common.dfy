// Types shared by every module: Go's optional pointers, results, bytes and
// fixed-width integers.
module Common {

  /** A pointer, interface or slice that may be nil. */
  datatype Option<+T> = None | Some(value: T)

  /** A value or the error returned in its place; usable with `:-`. */
  datatype Result<+T, +E> = Ok(value: T) | Err(error: E) {
    predicate IsFailure() { Err? }

    function PropagateFailure<U>(): Result<U, E>
      requires Err?
    {
      Err(error)
    }

    function Extract(): T
      requires Ok?
    {
      value
    }
  }

  type byte = n: int | 0 <= n < 256
  type bytes = seq<byte>

  const TWO_31 := 0x8000_0000
  const TWO_32 := 0x1_0000_0000
  const TWO_63 := 0x8000_0000_0000_0000
  const TWO_64 := 0x1_0000_0000_0000_0000

  /** The largest Go `int` on a 64-bit platform, hence the largest length. */
  const MAX_INT := TWO_63 - 1

  type u64 = n: int | 0 <= n < TWO_64
  type i64 = n: int | -TWO_63 <= n < TWO_63
  type i32 = n: int | -TWO_31 <= n < TWO_31

  /** The Go conversion int64(x): the low 64 bits, in two's complement. */
  function Int64(x: int): (r: i64)
    ensures (r - x) % TWO_64 == 0
  {
    var low := x % TWO_64;
    if low < TWO_63 then low else low - TWO_64
  }

  /** The Go conversion int32(x): the low 32 bits, in two's complement. */
  function Int32(x: int): (r: i32)
    ensures (r - x) % TWO_32 == 0
  {
    var low := x % TWO_32;
    if low < TWO_31 then low else low - TWO_32
  }

  /** The Go conversion uint64(x) of a signed value: sign extension. */
  function UInt64(x: i64): (r: u64)
    ensures (r - x) % TWO_64 == 0
  {
    x % TWO_64
  }

  // Sign extension followed by truncation gives the value back. (A negative
  // enum is written as a ten byte varint and read back intact.)
  lemma Int32OfUInt64(x: i32)
    ensures Int32(UInt64(x)) == x
  {
    if x < 0 {
      assert UInt64(x) == x + TWO_64;
      assert (x + TWO_64) % TWO_32 == x + TWO_32;
    }
  }
}
