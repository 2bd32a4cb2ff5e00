/** The machine integers the system stores and compares: 32-bit `int`
    arguments and `uint32_t` fields, with C's conversions between them. */
module Word {

  const UInt32: nat := 0x1_0000_0000
  const Int32Max: int := 0x7FFF_FFFF
  const Int32Min: int := -0x8000_0000

  predicate IsInt32(x: int)
  {
    Int32Min <= x <= Int32Max
  }

  /** Conversion of an `int` to `uint32_t` (reduction modulo 2^32). */
  function ToUInt32(x: int): (u: nat)
    ensures u < UInt32
    ensures 0 <= x < UInt32 ==> u == x
    ensures x < 0 && -x <= UInt32 ==> u == x + UInt32
  {
    x % UInt32
  }

  /** Conversion of a `uint32_t` to `int`: values above `Int32Max` turn negative. */
  function ToInt32(u: nat): (x: int)
    requires u < UInt32
    ensures IsInt32(x) && ToUInt32(x) == u
    ensures u <= Int32Max ==> x == u
  {
    if u <= Int32Max then u else u - UInt32
  }

  /** `x > bound` with an `int` x and a `uint32_t` bound: x is promoted to
      unsigned, so a negative x counts as above every bound that fits in an `int`. */
  predicate AboveUnsigned(x: int, bound: nat)
  {
    ToUInt32(x) > bound
  }

  lemma AboveUnsignedMeans(x: int, bound: nat)
    requires IsInt32(x) && bound <= Int32Max
    ensures AboveUnsigned(x, bound) <==> x < 0 || x > bound
  {
  }

  /** `len >= size` as C evaluates it for an `int` len and a `uint32_t` size:
      len is converted to unsigned first. */
  predicate AtLeastUnsigned(len: int, size: nat)
  {
    ToUInt32(len) >= size
  }

  /** The size check as intended: a signed comparison. */
  predicate AtLeast(len: int, size: nat)
  {
    len >= size
  }

  /** A buffer length of -1 passes the unsigned check against a size of 5. */
  lemma NegativeLengthPasses()
    ensures AtLeastUnsigned(-1, 5) && !AtLeast(-1, 5)
  {
  }

  /** The signed check accepts exactly the non-negative lengths the unsigned
      check accepts, so it differs only by refusing negative lengths. */
  lemma AtLeastRefusesNegative(len: int, size: nat)
    requires IsInt32(len) && size <= UInt32
    ensures AtLeast(len, size) <==> 0 <= len && AtLeastUnsigned(len, size)
  {
  }
}
