/** Arithmetic on the source's `size_t`, taken as a 64-bit unsigned integer. */
module SizeT {

  /** Largest value of `size_t` (`static_cast<size_t>(-1)`). */
  const SIZE_MAX: nat := 0xFFFF_FFFF_FFFF_FFFF

  /** Number of distinct `size_t` values; `size_t` addition wraps modulo this. */
  const MODULUS: nat := 0x1_0000_0000_0000_0000

  function Max(a: nat, b: nat): (m: nat)
    ensures m >= a && m >= b
    ensures m == a || m == b
  {
    if a < b then b else a
  }

  function Min(a: nat, b: nat): (m: nat)
    ensures m <= a && m <= b
    ensures m == a || m == b
  {
    if a < b then a else b
  }

  /** `a + b` evaluated in `size_t`: it wraps around past SIZE_MAX, and then
      the result is smaller than `a`, which is what an overflow test can check. */
  function Add(a: nat, b: nat): (r: nat)
    requires a <= SIZE_MAX && b <= SIZE_MAX
    ensures r <= SIZE_MAX
    ensures a + b <= SIZE_MAX ==> r == a + b
    ensures a + b > SIZE_MAX ==> r == a + b - MODULUS && r < a
  {
    (a + b) % MODULUS
  }

  /** `max_size()`: the largest element count whose byte size
      (`count * sizeof(T)`) is still a `size_t`. */
  function MaxSize(elemSize: nat): (m: nat)
    requires 1 <= elemSize
    ensures m * elemSize <= SIZE_MAX < (m + 1) * elemSize
    ensures m <= SIZE_MAX
  {
    SIZE_MAX / elemSize
  }

  /** Any count up to max_size() can be turned into a byte size without overflow. */
  lemma ByteSizeFits(count: nat, elemSize: nat)
    requires 1 <= elemSize && count <= MaxSize(elemSize)
    ensures count * elemSize <= SIZE_MAX
  {
    var m := MaxSize(elemSize);
    assert count * elemSize <= m * elemSize by {
      assert (m - count) * elemSize >= 0;
    }
  }
}
