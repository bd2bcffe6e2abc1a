/** The C++ integer types the index arithmetic runs on: 32-bit `int` and 64-bit `size_t`. */
module MachineInts {
  const SizeModulus: int := 0x1_0000_0000_0000_0000
  const Int32Modulus: int := 0x1_0000_0000
  /** Eigen counts columns with a signed 64-bit Index, so no matrix reaches 2^63 columns. */
  const IndexLimit: int := 0x8000_0000_0000_0000

  predicate IsInt32(x: int) {
    -0x8000_0000 <= x < 0x8000_0000
  }

  /** Conversion of a mathematical value to `size_t` (reduction modulo 2^64). */
  function ToSize(x: int): (r: nat)
    ensures r < SizeModulus
    ensures (r - x) % SizeModulus == 0
  {
    x % SizeModulus
  }

  /** Narrowing of a `size_t` argument to the `int` parameter it is passed to (two's complement). */
  function SizeToInt(p: nat): (i: int)
    requires p < SizeModulus
    ensures IsInt32(i)
    ensures (i - p) % Int32Modulus == 0
  {
    var m := p % Int32Modulus;
    if m < 0x8000_0000 then m else m - Int32Modulus
  }

  /** A value that already fits is its own size_t. */
  lemma SizeOfSmall(x: int)
    requires 0 <= x < SizeModulus
    ensures ToSize(x) == x
  {
  }

  /** A negative value of at most 64 bits wraps to x + 2^64. */
  lemma SizeOfNegative(x: int)
    requires -SizeModulus <= x < 0
    ensures ToSize(x) == x + SizeModulus
  {
    assert x % SizeModulus == x + SizeModulus by {
      assert x == SizeModulus * (-1) + (x + SizeModulus);
    }
  }
}
