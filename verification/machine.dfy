/** Fixed-width unsigned integers of the C++ code, written out explicitly. */
module Machine {

  /** `size_t` on the 64-bit targets the pool is built for. */
  const SizeModulus: int := 0x1_0000_0000_0000_0000
  type SizeT = x: int | 0 <= x < SizeModulus

  /** `unsigned int`, the type of the hardware concurrency hint. */
  const UIntModulus: int := 0x1_0000_0000
  type UInt = x: int | 0 <= x < UIntModulus

  /** `fetch_add(1)` on a `size_t`: one past the maximum wraps to zero. */
  function Increment(x: SizeT): (r: SizeT)
    ensures x + 1 < SizeModulus ==> r == x + 1
    ensures x + 1 == SizeModulus ==> r == 0
  {
    if x + 1 == SizeModulus then 0 else x + 1
  }
}
