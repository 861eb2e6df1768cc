/** Unsigned 64-bit counters (`size_t`), whose `++` and `--` wrap around
    instead of overflowing. */
module Sizes {

  const SIZE_MODULUS: int := 0x1_0000_0000_0000_0000

  /** A value of type `size_t`. */
  type Size = x: int | 0 <= x < SIZE_MODULUS

  /** The `size_t` value an unbounded integer result is stored as: its residue
      modulo 2^64 (Dafny's `%` is never negative, as unsigned wrap-around is). */
  function Wrap(n: int): (r: Size)
    ensures 0 <= n < SIZE_MODULUS ==> r == n
  {
    n % 0x1_0000_0000_0000_0000
  }

  /** `++x` on a `size_t`. */
  function Inc(x: Size): (r: Size)
    ensures x < SIZE_MODULUS - 1 ==> r == x + 1
    ensures x == SIZE_MODULUS - 1 ==> r == 0
  {
    if x == SIZE_MODULUS - 1 then 0 else x + 1
  }

  /** `--x` on a `size_t`. */
  function Dec(x: Size): (r: Size)
    ensures x > 0 ==> r == x - 1
    ensures x == 0 ==> r == SIZE_MODULUS - 1
  {
    if x == 0 then SIZE_MODULUS - 1 else x - 1
  }

  /** Wrapping is compatible with adding: adding after wrapping wraps to the
      same value as adding first. */
  lemma WrapAdd(n: int, d: int)
    ensures Wrap(Wrap(n) + d) == Wrap(n + d)
  {
    var q := n / SIZE_MODULUS;
    assert n == q * SIZE_MODULUS + Wrap(n);
    assert Wrap(n) + d == (n + d) - q * SIZE_MODULUS;
    ModuloShift(n + d, -q);
  }

  lemma ModuloShift(m: int, q: int)
    ensures (m + q * SIZE_MODULUS) % SIZE_MODULUS == m % SIZE_MODULUS
  {
    var r := m % SIZE_MODULUS;
    var p := m / SIZE_MODULUS;
    assert m + q * SIZE_MODULUS == (p + q) * SIZE_MODULUS + r;
  }

  /** `++` and `--` on a wrapped value wrap the unbounded sum. */
  lemma IncDecWrap(n: int)
    ensures Inc(Wrap(n)) == Wrap(n + 1) && Dec(Wrap(n)) == Wrap(n - 1)
  {
    WrapAdd(n, 1);
    WrapAdd(n, -1);
  }

  /** `++` undoes `--` and the other way round, wrap-around included. */
  lemma IncDecInverse(x: Size)
    ensures Dec(Inc(x)) == x && Inc(Dec(x)) == x
  {
  }
}
