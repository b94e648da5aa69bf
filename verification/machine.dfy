/** Fixed-width machine integers and C's integer operators.
    Dafny integers are unbounded and its `/` is Euclidean; the C sources use
    32- and 64-bit unsigned arithmetic that wraps, and `/` that truncates toward zero. */
module Machine {

  const UINT32_LIMIT: nat := 0x1_0000_0000
  const UINT64_LIMIT: nat := 0x1_0000_0000_0000_0000
  const INT32_MIN: int := -0x8000_0000
  const INT32_MAX: int := 0x7fff_ffff

  type uint32 = x: int | 0 <= x < UINT32_LIMIT
  type uint64 = x: int | 0 <= x < UINT64_LIMIT
  type int32 = x: int | INT32_MIN <= x <= INT32_MAX

  /** The value an `unsigned long long` holds after computing `x` with wrap-around. */
  function Wrap64(x: int): (r: uint64)
    ensures (r - x) % UINT64_LIMIT == 0
    ensures 0 <= x < UINT64_LIMIT ==> r == x
  {
    x % UINT64_LIMIT
  }

  /** `a - b` on two `unsigned long long` values, which wraps when `b` is the larger. */
  function Sub64(a: uint64, b: uint64): uint64 {
    if b <= a then a - b else a - b + UINT64_LIMIT
  }

  lemma Sub64IsWrap(a: uint64, b: uint64)
    ensures Sub64(a, b) == Wrap64(a - b)
  {
    if b > a {
      assert (a - b + UINT64_LIMIT) % UINT64_LIMIT == a - b + UINT64_LIMIT;
    }
  }

  /** The smaller of two counts. */
  function Min(a: nat, b: nat): nat {
    if a < b then a else b
  }

  /** The value an `unsigned int` holds after computing `x` with wrap-around. */
  function Wrap32(x: int): (r: uint32)
    ensures (r - x) % UINT32_LIMIT == 0
    ensures 0 <= x < UINT32_LIMIT ==> r == x
  {
    x % UINT32_LIMIT
  }

  /** The 32-bit cast keeps the low 32 bits: whole multiples of 2^32 drop out. */
  lemma Wrap32Shift(k: int, r: int)
    requires 0 <= r < UINT32_LIMIT
    ensures Wrap32(k * UINT32_LIMIT + r) == r
  {
    var x := k * UINT32_LIMIT + r;
    var w := Wrap32(x);
    var m := (w - x) / UINT32_LIMIT;
    assert w - x == m * UINT32_LIMIT;
    assert w - r == (m + k) * UINT32_LIMIT;
    if m + k > 0 {
      MulLeMono(UINT32_LIMIT, 1, m + k);
    } else if m + k < 0 {
      MulLeMono(UINT32_LIMIT, m + k, -1);
    }
  }

  /** Two's-complement reinterpretation as a 32-bit `int`, which is what gcc does
      when a wider or unsigned value is stored into an `int` or printed with `%d`. */
  function ToInt32(x: int): (r: int32)
    ensures (r - x) % UINT32_LIMIT == 0
    ensures INT32_MIN <= x <= INT32_MAX ==> r == x
  {
    var w := x % UINT32_LIMIT;
    if w <= INT32_MAX then w else w - UINT32_LIMIT
  }

  /** C's `/` on signed integers: the quotient truncated toward zero, so that
      its sign is the product of the operands' signs (Dafny's `/` floors instead
      when the dividend is negative). */
  function DivT(a: int, b: int): (q: int)
    requires b != 0
    ensures a >= 0 && b > 0 ==> q == a / b
    ensures a < 0 && b > 0 ==> q == -((-a) / b)
  {
    if a >= 0 && b > 0 then a / b
    else if a < 0 && b > 0 then -((-a) / b)
    else if a >= 0 then -(a / -b)
    else (-a) / (-b)
  }

  /** Multiplying by a non-negative number keeps order. */
  lemma MulLeMono(q: int, x: int, y: int)
    requires 0 <= q && x <= y
    ensures q * x <= q * y
  {
    assert q * y - q * x == q * (y - x);
  }

  /** A product below another with the same positive factor has the smaller cofactor. */
  lemma MulLtCancel(a: int, b: int, d: int)
    requires 0 < d && a * d < b * d
    ensures a < b
  {
    if b <= a {
      MulLeMono(d, b, a);
    }
  }

  /** Multiplying and then dividing by the same positive number is the identity. */
  lemma MulDivExact(k: int, b: int)
    requires 0 < b
    ensures (k * b) / b == k
  {
    var q := (k * b) / b;
    assert q * b <= k * b < (q + 1) * b;
    assert k * b < (k + 1) * b;
    MulLtCancel(q, k + 1, b);
    MulLtCancel(k, q + 1, b);
  }
}
