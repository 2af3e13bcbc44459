/** Kotlin's `Int`: a 32-bit two's-complement integer whose `+` and `*`
    wrap around on overflow and whose `/` truncates toward zero. */
module KotlinInt {

  const MIN: int := -0x8000_0000
  const MAX: int := 0x7FFF_FFFF
  /** Number of distinct 32-bit values. */
  const MODULUS: int := 0x1_0000_0000

  type Int32 = x: int | MIN <= x <= MAX

  /** Reinterprets a mathematical integer as the 32-bit value with the same
      low 32 bits, as the JVM does on overflow. */
  function Wrap(x: int): (r: Int32)
    ensures (x - r) % MODULUS == 0
    ensures MIN <= x <= MAX ==> r == x
  {
    (x - MIN) % MODULUS + MIN
  }

  function Abs(x: int): nat
  {
    if x < 0 then -x else x
  }

  /** Integer division rounding toward zero (Kotlin's and the JVM's `/`),
      on unbounded integers. */
  function Quot(a: int, b: int): int
    requires b != 0
  {
    var q := Abs(a) / Abs(b);
    if (a < 0) == (b < 0) then q else -q
  }

  /** Kotlin's `Int / Int`: truncating division, whose only overflow
      (`MIN / -1`) wraps back to `MIN`. */
  function Div(a: Int32, b: Int32): (q: Int32)
    requires b != 0
    ensures b == -1 && a == MIN ==> q == MIN
    ensures !(b == -1 && a == MIN) ==> q == Quot(a, b)
  {
    QuotMagnitude(a, b);
    if b == -1 && a == MIN then MIN else Quot(a, b)
  }

  /** Dividing by 1 or -1 keeps or negates the dividend; a divisor of 2
      or more in magnitude at least halves it. */
  lemma QuotMagnitude(a: int, b: int)
    requires b != 0
    ensures b == 1 ==> Quot(a, b) == a
    ensures b == -1 ==> Quot(a, b) == -a
    ensures Abs(b) >= 2 ==> 2 * Abs(Quot(a, b)) <= Abs(a)
  {
    var n: int, d: int := Abs(a), Abs(b);
    if d >= 2 {
      var q: int := n / d;
      assert n == q * d + n % d && n % d >= 0;
      AtLeastTwice(q, d);
    }
  }

  lemma AtLeastTwice(q: int, d: int)
    requires q >= 0 && d >= 2
    ensures q * d >= 2 * q
  {
  }

  lemma NegateProduct(x: int, y: int)
    ensures (-x) * y == -(x * y)
    ensures x * (-y) == -(x * y)
  {
  }

  /** The remainder left by `Quot` is smaller than the divisor and carries
      the dividend's sign, which is what rounding toward zero means. */
  lemma QuotTruncates(a: int, b: int)
    requires b != 0
    ensures Abs(a - Quot(a, b) * b) < Abs(b)
    ensures a - Quot(a, b) * b == 0 || (a - Quot(a, b) * b < 0 <==> a < 0)
  {
    var n: int, d: int := Abs(a), Abs(b);
    var q: int, r: int := n / d, n % d;
    var m := q * d;
    assert n == m + r && 0 <= r < d;
    var p := Quot(a, b) * b;
    NegateProduct(q, d);
    if (a < 0) == (b < 0) {
      if b < 0 {
        assert p == q * (-d);
        assert p == -m;
      } else {
        assert p == m;
      }
    } else {
      if b < 0 {
        assert p == (-q) * (-d);
        NegateProduct(-q, d);
        assert p == m;
      } else {
        assert p == (-q) * d;
        assert p == -m;
      }
    }
  }

  /** On a nonnegative dividend and a positive divisor truncating and
      Euclidean division agree. */
  lemma QuotOfNonnegatives(a: int, b: int)
    requires a >= 0 && b > 0
    ensures Quot(a, b) == a / b
  {
  }

  lemma WrapShift(x: int, n: int)
    ensures Wrap(x + n * MODULUS) == Wrap(x)
  {
    var y := x - MIN;
    var q, r := y / MODULUS, y % MODULUS;
    assert y + n * MODULUS == (q + n) * MODULUS + r;
    DivModUnique(y + n * MODULUS, q + n, r);
  }

  lemma DivModUnique(y: int, q: int, r: int)
    requires 0 <= r < MODULUS && y == q * MODULUS + r
    ensures y % MODULUS == r
  {
    var q' := y / MODULUS;
    assert (q - q') * MODULUS == y % MODULUS - r;
  }

  /** `Wrap(x)` differs from `x` by a whole number of moduli. */
  lemma WrapOffset(x: int) returns (j: int)
    ensures Wrap(x) == x + j * MODULUS
  {
    j := -((x - MIN) / MODULUS);
  }

  /** 32-bit addition agrees with unbounded addition modulo 2^32, so a sum
      may be wrapped at every step or once at the end. */
  lemma WrapAdd(x: int, y: int)
    ensures Wrap(Wrap(x) + Wrap(y)) == Wrap(x + y)
  {
    var i := WrapOffset(x);
    var j := WrapOffset(y);
    assert Wrap(x) + Wrap(y) == (x + y) + (i + j) * MODULUS;
    WrapShift(x + y, i + j);
  }

  /** 32-bit multiplication agrees with unbounded multiplication modulo 2^32. */
  lemma WrapMul(x: int, k: int)
    ensures Wrap(Wrap(x) * k) == Wrap(x * k)
  {
    var j := WrapOffset(x);
    assert Wrap(x) * k == x * k + (j * k) * MODULUS;
    WrapShift(x * k, j * k);
  }

  /** 32-bit multiplication is associative. */
  lemma WrapMulAssociates(a: int, j: int, k: int)
    ensures Wrap(Wrap(a * j) * k) == Wrap(a * Wrap(j * k))
  {
    WrapMul(a * j, k);
    WrapMul(j * k, a);
    assert a * j * k == (j * k) * a;
    assert Wrap(j * k) * a == a * Wrap(j * k);
  }

  /** 32-bit multiplication distributes over 32-bit addition. */
  lemma WrapDistributes(k: int, x: int, y: int)
    ensures Wrap(Wrap(k * x) + Wrap(k * y)) == Wrap(k * Wrap(x + y))
  {
    WrapAdd(k * x, k * y);
    WrapMul(x + y, k);
    assert k * x + k * y == (x + y) * k;
    assert Wrap(x + y) * k == k * Wrap(x + y);
  }
}
