/** Small vocabulary shared by every module: the failure-compatible wrappers
    that stand in for Java's `null` and exceptions, and Java's 32-bit `int`
    with its two's-complement wrap-around. */
module JavaTypes {

  /** A value that may be absent: the model of a Java reference that may be `null`. */
  datatype Option<+T> = None | Some(value: T)

  /** The outcome of an operation that may throw: `Err` carries the exception. */
  datatype Result<+T, +E> = Ok(value: T) | Err(error: E)

  const INT32_MIN: int := -0x8000_0000
  const INT32_MAX: int := 0x7fff_ffff

  /** Values a Java `int` can hold. */
  type Int32 = x: int | INT32_MIN <= x <= INT32_MAX

  /** Values a Java `short` can hold. */
  type Int16 = x: int | -0x8000 <= x < 0x8000

  predicate InInt32(x: int) {
    INT32_MIN <= x <= INT32_MAX
  }

  /** The `int` Java computes for an expression whose exact value is `x`:
      two's-complement reduction modulo 2^32 into the signed range. */
  function Wrap32(x: int): (r: Int32)
    ensures InInt32(x) ==> r == x
    ensures (r - x) % 0x1_0000_0000 == 0
  {
    var m := x % 0x1_0000_0000;
    if m <= INT32_MAX then m else m - 0x1_0000_0000
  }
}
