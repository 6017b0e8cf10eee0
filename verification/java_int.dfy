/** Java integer operators that differ from Dafny's: the truncating quotient
    and remainder of `/` and `%`, the narrowing cast to `short`, and
    `Math.abs`.  Dafny's own `/` and `%` are Euclidean. */
module JavaInt {

  /** Java's `a / n` for a positive divisor: rounds toward zero. */
  function Quot(a: int, n: int): int
    requires n > 0
  {
    if a >= 0 then a / n else -((-a) / n)
  }

  /** Java's `a % n` for a positive divisor: takes the sign of `a`. */
  function Rem(a: int, n: int): (r: int)
    requires n > 0
    ensures -n < r < n
    ensures a >= 0 ==> r >= 0
    ensures a < 0 ==> r <= 0
  {
    if a >= 0 then a % n else -((-a) % n)
  }

  /** Quotient and remainder recompose the dividend, as the Java language
      guarantees for `/` and `%`. */
  lemma QuotRem(a: int, n: int)
    requires n > 0
    ensures Quot(a, n) * n + Rem(a, n) == a
  {
    if a < 0 {
      assert (-a) == ((-a) / n) * n + (-a) % n;
    }
  }

  function Abs(x: int): (y: nat)
    ensures y == x || y == -x
  {
    if x < 0 then -x else x
  }

  /** The cast `(short) x`: keeps the low 16 bits as a two's-complement value. */
  function Short(x: int): (s: int)
    ensures -0x8000 <= s < 0x8000
    ensures (x - s) % 0x10000 == 0
  {
    (x + 0x8000) % 0x10000 - 0x8000
  }

  /** A value that fits in a short survives the cast unchanged. */
  lemma ShortInRange(x: int)
    requires -0x8000 <= x < 0x8000
    ensures Short(x) == x
  {
  }

  /** Java `int` arithmetic such as `n * n`: the exact value brought back
      into 32 bits, two's complement. */
  function Int(x: int): (r: int)
    ensures -0x8000_0000 <= r < 0x8000_0000
    ensures (x - r) % 0x1_0000_0000 == 0
  {
    (x + 0x8000_0000) % 0x1_0000_0000 - 0x8000_0000
  }

  /** Values congruent modulo 2^32 wrap to the same `int`. */
  lemma IntCongruent(a: int, b: int)
    requires (a - b) % 0x1_0000_0000 == 0
    ensures Int(a) == Int(b)
  {
    var r, s := Int(a), Int(b);
    var k := (a - b) / 0x1_0000_0000;
    var p := (a - r) / 0x1_0000_0000;
    var q := (b - s) / 0x1_0000_0000;
    var c := k - p + q;
    assert r - s == 0x1_0000_0000 * c;
  }

  /** Wrapping a partial sum early does not change the wrapped total, so a
      running `result += x` in `int` ends at the wrapped exact sum. */
  lemma IntAdd(a: int, b: int)
    ensures Int(Int(a) + b) == Int(a + b)
  {
    var k := (a - Int(a)) / 0x1_0000_0000;
    assert (Int(a) + b) - (a + b) == 0x1_0000_0000 * -k;
    IntCongruent(Int(a) + b, a + b);
  }

  /** `Math.abs` on an `int`: the least value has no positive counterpart
      and is returned unchanged. */
  function JavaAbs(x: int): int
  {
    if x == -0x8000_0000 then x else Abs(x)
  }

  /** `Math.abs` of a difference computed in `int` agrees, modulo 2^32, with
      the exact distance whenever the exact difference is within 2^31 of 0. */
  lemma IntAbs(x: int, y: int)
    requires -0x8000_0000 <= x <= 0x8000_0000
    ensures Int(JavaAbs(Int(x)) + y) == Int(Abs(x) + y)
  {
    if x == 0x8000_0000 {
      assert Int(x) == -0x8000_0000;
      IntCongruent(JavaAbs(Int(x)) + y, Abs(x) + y);
    } else {
      assert Int(x) == x;
    }
  }

  /** A value that fits in an `int` is kept; 46341 squared is the least
      square that does not and comes back negative. */
  lemma IntSquare(n: nat)
    ensures n <= 46340 ==> Int(n * n) == n * n
    ensures Int(n * n) <= n * n
    ensures Int(46341 * 46341) < 0
  {
    if n <= 46340 {
      SquareAtLeast(46340, n);
    } else {
      SquareAtLeast(n, 46341);
    }
  }

  lemma SquareAtLeast(n: nat, m: nat)
    requires n >= m
    ensures n * n >= m * m
  {
    var d := n - m;
    assert n * n == m * m + 2 * m * d + d * d;
  }

  /** Euclidean division by a positive divisor is determined by any
      decomposition `a == q * n + r` with `0 <= r < n`. */
  lemma DivModUnique(a: int, n: int, q: int, r: int)
    requires n > 0 && 0 <= r < n && a == q * n + r
    ensures a / n == q && a % n == r
  {
    var q' := a / n;
    var r' := a % n;
    if q > q' {
      MulDistance(q, q', n);
    } else if q < q' {
      MulDistance(q', q, n);
    }
  }

  /** Multiples of `n` that differ are at least `n` apart. */
  lemma MulDistance(x: int, y: int, n: int)
    requires n > 0 && x > y
    ensures x * n >= y * n + n
  {
    var d := x - y;
    calc {
      x * n;
      (y + d) * n;
      y * n + d * n;
    }
    MulAtLeast(d, n);
  }

  lemma {:induction false} MulAtLeast(d: int, n: int)
    requires d >= 1 && n >= 0
    ensures d * n >= n
    decreases d
  {
    if d > 1 {
      MulAtLeast(d - 1, n);
      assert d * n == (d - 1) * n + n;
    }
  }
}
