/** Java's fixed-width integer arithmetic written out over Dafny's unbounded `int`:
    the `int` and `long` ranges, `/` on `long` (rounds toward zero, unlike Dafny's
    Euclidean `/`), and the `(int)` narrowing cast (keeps the low 32 bits). */
module JavaArith {

  const INT_MIN: int := -0x8000_0000
  const INT_MAX: int := 0x7fff_ffff
  const LONG_MIN: int := -0x8000_0000_0000_0000
  const LONG_MAX: int := 0x7fff_ffff_ffff_ffff
  const TWO_POW_32: int := 0x1_0000_0000

  predicate InInt(x: int) { INT_MIN <= x <= INT_MAX }

  predicate InLong(x: int) { LONG_MIN <= x <= LONG_MAX }

  /** The values of Java's `int`. */
  type Int32 = x: int | InInt(x)

  function Abs(x: int): nat { if x < 0 then -x else x }

  /** `k * t >= k` for a positive `k` and `t >= 1`. */
  lemma {:induction false} MulAtLeast(k: int, t: int)
    requires k > 0 && t >= 1
    ensures k * t >= k
    decreases t
  {
    if t > 1 {
      MulAtLeast(k, t - 1);
      assert k * t == k * (t - 1) + k;
    }
  }

  /** Multiplying by a non-negative factor keeps the order. */
  lemma MulMonotone(a: int, b: int, c: int)
    requires a <= b && c >= 0
    ensures a * c <= b * c
  {
  }

  /** Euclidean division by a positive divisor has exactly one quotient and remainder. */
  lemma FloorDivUnique(x: int, k: int, q: int, r: int)
    requires k > 0 && 0 <= r < k && x == k * q + r
    ensures x / k == q && x % k == r
  {
    var q', r' := x / k, x % k;
    assert x == k * q' + r';
    assert k * (q - q') == r' - r;
    if q > q' {
      MulAtLeast(k, q - q');
    } else if q < q' {
      MulAtLeast(k, q' - q);
    }
  }

  /** Floor division by a positive divisor is monotone. */
  lemma FloorDivMonotone(x: int, y: int, k: int)
    requires k > 0 && x <= y
    ensures x / k <= y / k
  {
    var qx, qy := x / k, y / k;
    assert x == k * qx + x % k && y == k * qy + y % k;
    if qx > qy {
      assert k * qx - k * qy == k * (qx - qy);
      MulAtLeast(k, qx - qy);
    }
  }

  /** The floor quotient times the divisor lies within one divisor below the dividend. */
  lemma FloorDivBounds(x: int, k: int)
    requires k > 0
    ensures k * (x / k) <= x < k * (x / k) + k
  {
    assert x == k * (x / k) + x % k;
  }

  /** Java's `/` on integers: the magnitude of the quotient is the floor of the
      magnitudes' quotient, and its sign is the product of the operands' signs. */
  function TruncDiv(a: int, b: int): int
    requires b != 0
  {
    if b > 0 then (if a >= 0 then a / b else -((-a) / b))
    else (if a >= 0 then -(a / -b) else (-a) / (-b))
  }

  /** The quotient's magnitude times the divisor's lies within one divisor below
      the dividend's magnitude: the remainder takes the dividend's sign. */
  lemma TruncDivBounds(a: int, b: int)
    requires b != 0
    ensures Abs(b) * Abs(TruncDiv(a, b)) <= Abs(a) < Abs(b) * Abs(TruncDiv(a, b)) + Abs(b)
  {
    var m := Abs(a) / Abs(b);
    FloorDivBounds(Abs(a), Abs(b));
    FloorDivMonotone(0, Abs(a), Abs(b));
    assert TruncDiv(a, b) == m || TruncDiv(a, b) == -m;
  }

  /** The quotient is zero or has the sign of the operands' product. */
  lemma TruncDivSign(a: int, b: int)
    requires b != 0
    ensures TruncDiv(a, b) == 0 || (TruncDiv(a, b) < 0 <==> (a < 0) != (b < 0))
  {
    FloorDivMonotone(0, Abs(a), Abs(b));
  }

  /** Rounding toward zero after division by a positive divisor is monotone. */
  lemma TruncDivMonotone(x: int, y: int, k: int)
    requires k > 0 && x <= y
    ensures TruncDiv(x, k) <= TruncDiv(y, k)
  {
    if 0 <= x {
      FloorDivMonotone(x, y, k);
    } else if y < 0 {
      FloorDivMonotone(-y, -x, k);
    } else {
      FloorDivMonotone(0, -x, k);
      FloorDivMonotone(0, y, k);
    }
  }

  /** Negating the divisor negates the truncated quotient. */
  lemma TruncDivNegatedDivisor(a: int, b: int)
    requires b != 0
    ensures TruncDiv(a, -b) == -TruncDiv(a, b)
  {
  }

  /** A dividend smaller in magnitude than the divisor gives a zero quotient. */
  lemma TruncDivOfSmaller(a: int, b: int)
    requires b != 0 && Abs(a) < Abs(b)
    ensures TruncDiv(a, b) == 0
  {
    FloorDivUnique(Abs(a), Abs(b), 0, Abs(a));
  }

  /** An exact multiple divides back to its factor. */
  lemma TruncDivOfMultiple(c: int, b: int)
    requires b != 0
    ensures TruncDiv(c * b, b) == c
  {
    var x := c * b;
    if b > 0 && x >= 0 {
      FloorDivUnique(x, b, c, 0);
    } else if b > 0 {
      FloorDivUnique(-x, b, -c, 0);
    } else if x >= 0 {
      FloorDivUnique(x, -b, -c, 0);
    } else {
      FloorDivUnique(-x, -b, c, 0);
    }
  }

  /** Division by a non-zero integer never grows the magnitude. */
  lemma TruncDivShrinks(a: int, b: int)
    requires b != 0
    ensures Abs(TruncDiv(a, b)) <= Abs(a)
  {
    var q := TruncDiv(a, b);
    TruncDivBounds(a, b);
    if Abs(q) > 0 {
      MulAtLeast(Abs(q), Abs(b));
      assert Abs(b) * Abs(q) == Abs(q) * Abs(b);
    }
  }

  /** Java's `long / long`: rounds toward zero, and `Long.MIN_VALUE / -1` wraps
      back to `Long.MIN_VALUE`. Division by zero is the caller's error path. */
  function LongDiv(a: int, b: int): (q: int)
    requires InLong(a) && InLong(b) && b != 0
    ensures InLong(q)
    ensures q == TruncDiv(a, b) || (a == LONG_MIN && b == -1 && q == TruncDiv(a, b) - 0x1_0000_0000_0000_0000)
  {
    if a == LONG_MIN && b == -1 then LONG_MIN
    else
      TruncDivShrinks(a, b);
      TruncDiv(a, b)
  }

  /** Java's `(int)` cast of a `long`: keeps the low 32 bits, read as two's complement. */
  function NarrowToInt(x: int): (r: Int32)
    ensures (r - x) % TWO_POW_32 == 0
    ensures InInt(x) ==> r == x
  {
    (x - INT_MIN) % TWO_POW_32 + INT_MIN
  }
}
