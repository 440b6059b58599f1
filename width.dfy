/**
 * Machine-word helpers: the kernel computes with fixed-width unsigned
 * integers (ext4_group_t is 32 bits, ext4_fsblk_t is 64 bits) and uses
 * shifts by the cluster and block-size exponents.  The model computes on
 * unbounded integers and writes every wrap-around and shift out explicitly
 * with the definitions below.
 */
module Width {

  const U32: nat := 0x1_0000_0000
  const U64: nat := 0x1_0000_0000_0000_0000

  /** 2^k */
  function Pow2(k: nat): (r: nat)
    ensures r >= 1
    ensures k >= 1 ==> r >= 2 && r % 2 == 0
  {
    if k == 0 then 1 else 2 * Pow2(k - 1)
  }

  /**
   * a * b by repeated addition.  Being recursive, it is unfolded by the
   * solver only on request, which keeps products in a hypothesis from
   * being explored where they are not needed; MulIsProduct equates it
   * with the product.
   */
  function Mul(a: nat, b: nat): nat
  {
    if a == 0 then 0 else b + Mul(a - 1, b)
  }

  lemma MulIsProduct(a: nat, b: nat)
    ensures Mul(a, b) == a * b
  {
    if a > 0 {
      MulIsProduct(a - 1, b);
    }
  }

  /** Logical right shift of a non-negative value: x >> k. */
  function Shr(x: nat, k: nat): (r: nat)
    ensures r <= x
  {
    DivAtMost(x, Pow2(k));
    x / Pow2(k)
  }

  /** Unsigned 64-bit subtraction a - b, wrapping modulo 2^64. */
  function Sub64(a: nat, b: nat): (r: nat)
    requires a < U64 && b < U64
    ensures r < U64
    ensures b <= a ==> r == a - b
    ensures a < b ==> r == U64 + a - b
  {
    (a - b) % U64
  }

  /** Unsigned 32-bit subtraction a - b, wrapping modulo 2^32. */
  function Sub32(a: nat, b: nat): (r: nat)
    requires a < U32 && b < U32
    ensures r < U32
    ensures b <= a ==> r == a - b
    ensures a < b ==> r == U32 + a - b
  {
    (a - b) % U32
  }

  /** Truncation of an unsigned value to 32 bits (assignment to a u32). */
  function Trunc32(x: nat): (r: nat)
    ensures r < U32
    ensures x < U32 ==> r == x
  {
    x % U32
  }

  const I32Limit: int := 0x8000_0000

  /**
   * Assignment of an unsigned value to a signed 32-bit int: the low 32 bits,
   * read in two's complement.
   */
  function Signed32(x: nat): (r: int)
    ensures -I32Limit <= r < I32Limit
    ensures x < I32Limit ==> r == x
  {
    var low := x % U32;
    if low < I32Limit then low else low - U32
  }

  /**
   * Signed32 keeps the value modulo 2^32: it differs from x by a multiple
   * of 2^32, and it is negative exactly when bit 31 of x is set.
   */
  lemma Signed32Congruent(x: nat)
    ensures (x - Signed32(x)) % U32 == 0
    ensures Signed32(x) < 0 <==> x % U32 >= I32Limit
  {
    var q := x / U32;
    assert x == q * U32 + x % U32;
    var k := if x % U32 < I32Limit then q else q + 1;
    assert x - Signed32(x) == k * U32;
    DivOfSum(k, 0, U32);
    assert (k * U32) % U32 == k * U32 - (k * U32 / U32) * U32;
  }

  /** Division is characterised by its bracketing multiples. */
  lemma DivUnique(a: int, d: int, q: int)
    requires d > 0
    requires q * d <= a < (q + 1) * d
    ensures a / d == q
  {
    var r := a - q * d;
    assert 0 <= r < d;
    assert a == q * d + r;
    DivOfSum(q, r, d);
  }

  lemma DivOfSum(q: int, r: int, d: int)
    requires d > 0 && 0 <= r < d
    ensures (q * d + r) / d == q
  {
    var a := q * d + r;
    var q' := a / d;
    var r' := a % d;
    assert a == q' * d + r';
    assert 0 <= r' < d;
    if q' > q {
      assert q' * d >= (q + 1) * d by { MulMonotone(q + 1, q', d); }
    } else if q' < q {
      assert q * d >= (q' + 1) * d by { MulMonotone(q' + 1, q, d); }
    }
  }

  lemma MulMonotone(a: int, b: int, d: int)
    requires a <= b && d >= 0
    ensures a * d <= b * d
  {
    assert b * d - a * d == (b - a) * d;
  }

  /** Bracketing of a quotient. */
  lemma DivBracket(a: int, d: int)
    requires d > 0
    ensures (a / d) * d <= a < (a / d + 1) * d
  {
    assert a == (a / d) * d + a % d;
  }

  lemma DivAtMost(a: nat, d: int)
    requires d >= 1
    ensures 0 <= a / d <= a
  {
    DivBracket(a, d);
    MulMonotone(1, d, a / d + 1);
  }

  lemma DivShrinks(a: nat, d: int)
    requires a >= 1 && d >= 2
    ensures 0 <= a / d < a
  {
    DivAtMost(a, d);
    DivBracket(a, d);
    MulMonotone(2, d, a / d);
  }

  /** (n + r - 1) / r is n / r rounded up. */
  lemma CeilDiv(n: nat, r: int)
    requires r >= 1
    ensures var c := (n + r - 1) / r;
      && c >= 0 && c * r >= n && c * r < n + r
      && (n == 0 <==> c == 0)
  {
    var c := (n + r - 1) / r;
    DivBracket(n + r - 1, r);
    assert (c + 1) * r == c * r + r;
    if n == 0 {
      DivUnique(r - 1, r, 0);
    } else {
      DivUnique(r, r, 1);
      DivMonotone(r, n + r - 1, r);
    }
  }

  lemma DivMonotone(a: int, b: int, d: int)
    requires d > 0 && a <= b
    ensures a / d <= b / d
  {
    DivBracket(a, d);
    DivBracket(b, d);
    if a / d > b / d {
      MulMonotone(b / d + 1, a / d, d);
    }
  }
}
