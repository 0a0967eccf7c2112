/**
 * Java `int` arithmetic on Dafny's unbounded integers.
 *
 * Dafny's `/` and `%` are Euclidean and its integers never overflow; the date
 * packer relies on Java's 32-bit two's-complement `int`, on its truncating
 * `/` and `%`, on `>>>` (which shifts the unsigned reading of the 32 bits) and
 * on `&` with a low-bit mask. Each of those is written out here.
 */
module JavaInt {

  const MIN_VALUE: int := -0x8000_0000
  const MAX_VALUE: int := 0x7fff_ffff
  /** 2^32: the number of distinct `int` values. */
  const MODULUS: int := 0x1_0000_0000

  /** A Java `int`. */
  type Int32 = x: int | -0x8000_0000 <= x <= 0x7fff_ffff

  /**
   * The `int` that Java's wrapping arithmetic yields for an exact result `x`:
   * the one value congruent to `x` modulo 2^32.
   */
  function Wrap(x: int): (r: Int32)
    ensures (x - r) % MODULUS == 0
    ensures MIN_VALUE <= x <= MAX_VALUE ==> r == x
  {
    var u := x % MODULUS;
    if u <= MAX_VALUE then u else u - MODULUS
  }

  /**
   * The unsigned reading of the 32 bits of `x`, which is what `>>>` shifts:
   * `x >>> k` is `Unsigned(x) / 2^k`.
   */
  function Unsigned(x: Int32): (u: int)
    ensures 0 <= u < MODULUS
    ensures (u - x) % MODULUS == 0
  {
    if x < 0 then x + MODULUS else x
  }

  /**
   * Java's `a / b` for a positive divisor: the quotient rounded toward zero.
   * For `x & (2^k - 1)` no helper is needed: on two's-complement values it is
   * Dafny's Euclidean `x % 2^k`.
   */
  function Quot(a: Int32, b: int): (q: Int32)
    requires b > 0
    ensures 0 <= a ==> 0 <= q * b <= a < q * b + b
    ensures a < 0 ==> q * b - b < a <= q * b <= 0
  {
    var n: nat := if a >= 0 then a else -(a as int);
    FloorDivBounds(n, b);
    var m := n / b;
    assert m * b <= n < m * b + b;
    if a >= 0 then m else -m
  }

  /** Euclidean division of a natural number brackets it between multiples of the divisor. */
  lemma FloorDivBounds(n: nat, b: int)
    requires b > 0
    ensures 0 <= n / b <= n
    ensures (n / b) * b <= n < (n / b) * b + b
  {
    var q, r := n / b, n % b;
    assert n == q * b + r && 0 <= r < b;
    MulMonotone(q, b, 1);
  }

  lemma MulMonotone(x: nat, y: int, z: int)
    requires y >= z
    ensures x * y >= x * z
  {
  }

  /** Java's `a % b` for a positive divisor: the remainder takes the sign of `a`. */
  function Rem(a: Int32, b: int): (r: Int32)
    requires 0 < b <= MAX_VALUE
    ensures a == Quot(a, b) * b + r
    ensures 0 <= a ==> 0 <= r < b
    ensures a < 0 ==> -b < r <= 0
  {
    a - Quot(a, b) * b
  }
}
