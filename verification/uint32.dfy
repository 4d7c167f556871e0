/**
 Unsigned 32-bit arithmetic as the C compiler performs it on a 32-bit
 target: every `uint32_t` result is taken modulo 2^32. Dafny's `%` is
 Euclidean, so `x % Modulus` is the non-negative residue for negative `x`
 too, which is exactly what unsigned subtraction yields.
 */
module UInt32 {

  const Modulus: int := 0x1_0000_0000

  type u32 = x: int | 0 <= x < Modulus

  /** Truncation of a mathematical integer to 32 bits. */
  function Wrap(x: int): u32
  {
    x % Modulus
  }

  /** `a + b` on `uint32_t`. */
  function Add(a: u32, b: u32): u32
  {
    Wrap(a + b)
  }

  /** `a - b` on `uint32_t`: the distance from `b` forward to `a` around the circle. */
  function Sub(a: u32, b: u32): u32
  {
    Wrap(a - b)
  }

  /** Adding whole multiples of 2^32 is invisible after truncation. */
  lemma WrapAddMultiple(k: int, x: int)
    ensures Wrap(k * Modulus + x) == Wrap(x)
  {
    var q := x / Modulus;
    assert x == q * Modulus + x % Modulus;
    assert k * Modulus + x == (k + q) * Modulus + x % Modulus;
  }

  /** Truncating an intermediate sum changes nothing in the final result. */
  lemma WrapInner(x: int, y: int)
    ensures Wrap(Wrap(x) + y) == Wrap(x + y)
  {
    var q := x / Modulus;
    assert x == q * Modulus + Wrap(x);
    WrapAddMultiple(q, Wrap(x) + y);
    assert x + y == q * Modulus + (Wrap(x) + y);
  }

  /** Truncating the operand of a scaling by a constant factor changes nothing either. */
  lemma WrapScale(x: int, c: int)
    ensures Wrap(Wrap(x) * c) == Wrap(x * c)
  {
    var q := x / Modulus;
    assert x == q * Modulus + Wrap(x);
    assert x * c == (q * c) * Modulus + Wrap(x) * c;
    WrapAddMultiple(q * c, Wrap(x) * c);
  }

  /**
   Wrap-around safe subtraction: going `j` steps forward from `s` and then
   measuring the distance back to `s` gives `j`, wherever `s` sits on the
   circle, also when `s + j` passes 2^32 - 1.
   */
  lemma SubAddCancel(s: u32, j: u32)
    ensures Sub(Add(s, j), s) == j
  {
    WrapInner(s + j, -(s as int));
    assert Add(s, j) - s == Wrap(s + j) + -(s as int);
    assert (s + j) + -(s as int) == j;
  }
}
