/** The integer loops among the debugger's built-in functions. */
module StdFuncs {
  import opened Words
  import opened Arithmetic

  const TWO64: int := 0x1_0000_0000_0000_0000
  const TWO63: int := 0x8000_0000_0000_0000

  type Int64 = x: int | -TWO63 <= x < TWO63

  /** The value a number has as uint64, and as sint64. */
  function Unsigned(x: int): nat { x % TWO64 }

  function Wrap(x: int): Int64 {
    if x % TWO64 < TWO63 then x % TWO64 else x % TWO64 - TWO64
  }

  /** A number and its sint64 and uint64 readings differ by a multiple of 2^64. */
  lemma {:induction false} ReadingsAgree(x: int)
    ensures (Wrap(x) - x) % TWO64 == 0 && (Unsigned(x) - x) % TWO64 == 0 && 0 <= Unsigned(x) < TWO64
  {
    var k := x / TWO64;
    assert x == k * TWO64 + x % TWO64;
    Unique(Unsigned(x) - x, TWO64, -k, 0);
    Unique(Wrap(x) - x, TWO64, if x % TWO64 < TWO63 then -k else -k - 1, 0);
  }

  // ------------------------------------------------------------------ power

  function Power(b: int, e: nat): int {
    if e == 0 then 1 else b * Power(b, e - 1)
  }

  lemma {:induction false} PowerAdd(b: int, m: nat, n: nat)
    ensures Power(b, m + n) == Power(b, m) * Power(b, n)
  {
    if m > 0 {
      PowerAdd(b, m - 1, n);
    }
  }

  /** Products may be reduced early. */
  lemma {:induction false} RestOfProduct(x: int, y: int, m: int)
    requires m > 0
    ensures (x % m * y) % m == (x * y) % m
  {
    assert x * y == x % m * y + (x / m * y) * m by {
      assert x == x / m * m + x % m;
    }
    SameRest(x % m * y, x / m * y, m);
  }

  lemma {:induction false} WrapProduct(x: int, y: int)
    ensures Wrap(Wrap(x) * y) == Wrap(x * y)
  {
    var w := Wrap(x);
    assert w % TWO64 == x % TWO64 by {
      SameRest(x % TWO64, -1, TWO64);
    }
    RestOfProduct(w, y, TWO64);
    RestOfProduct(x, y, TWO64);
  }

  /** A bit test against a power of two. */
  lemma {:induction false} MaskTest(u: nat, k: nat, n: nat)
    requires k < n
    ensures Bitwise(And, u, Pow2(k), n) != 0 <==> ShiftRight(u, k) % 2 == 1
  {
    if k == 0 {
      AndZero(u / 2, n - 1);
    } else {
      MaskTest(u / 2, k - 1, n - 1);
    }
  }

  lemma {:induction false} AndZero(u: nat, n: nat)
    ensures Bitwise(And, u, 0, n) == 0
  {
    if n > 0 {
      AndZero(u / 2, n - 1);
    }
  }

  lemma {:induction false} ShiftOnce(u: nat, k: nat)
    ensures ShiftRight(u, k + 1) == ShiftRight(u, k) / 2
  {
    if k > 0 {
      ShiftOnce(u / 2, k - 1);
    }
  }

  lemma {:induction false} SquareStep(b: int, u: nat, k: nat)
    ensures var h := ShiftRight(u, k);
      Power(b, h) == (if h % 2 == 1 then Power(b, 2 * ShiftRight(u, k + 1)) * b else Power(b, 2 * ShiftRight(u, k + 1)))
  {
    ShiftOnce(u, k);
    var h := ShiftRight(u, k);
    if h % 2 == 1 {
      assert h - 1 == 2 * ShiftRight(u, k + 1);
    }
  }

  /** Square and multiply, over the bits of e from the highest one. */
  method PowFuncInt(b: Int64, e: Int64) returns (r: Int64)
    requires e != 0
    ensures r == Wrap(Power(b, Unsigned(e)))
  {
    var u := Unsigned(e);
    var ln2 := -1;
    var rest := u;
    Pow64();
    ShiftedOut(u, 64);
    while rest != 0
      invariant -1 <= ln2 <= 63 && rest == ShiftRight(u, ln2 + 1) && (ln2 == -1 ==> rest != 0)
      decreases 64 - ln2
    {
      ShiftOnce(u, ln2 + 1);
      rest := rest / 2;
      ln2 := ln2 + 1;
    }
    var mask := Pow2(ln2);
    ghost var k := ln2;
    r := 1;
    while true
      invariant 0 <= k <= 63 && mask == Pow2(k)
      invariant r == Wrap(Power(b, 2 * ShiftRight(u, k + 1)))
      decreases k
    {
      MaskTest(u, k, 64);
      SquareStep(b, u, k);
      if Bitwise(And, u, mask, 64) != 0 {
        WrapProduct(Power(b, 2 * ShiftRight(u, k + 1)), b);
        r := Wrap(r * b);
      }
      mask := mask / 2;
      if mask == 0 {
        break;
      }
      ghost var h := Power(b, ShiftRight(u, k));
      PowerAdd(b, ShiftRight(u, k), ShiftRight(u, k));
      WrapProduct(h, h);
      WrapProduct(h, r);
      k := k - 1;
      r := Wrap(r * r);
    }
  }

  lemma {:induction false} Pow64()
    ensures Pow2(64) == TWO64
  {
    Pow2Values();
    Pow2Add(32, 32);
  }

  // ------------------------------------------------- binomial coefficients

  function Factorial(n: nat): (r: nat)
    ensures r > 0
  {
    if n == 0 then 1 else n * Factorial(n - 1)
  }

  /** n * (n - 1) * ... of k factors. */
  function Falling(n: nat, k: nat): nat
    requires k <= n
  {
    if k == 0 then 1 else Falling(n, k - 1) * (n - (k - 1))
  }

  /** Pascal's triangle. */
  function Binomial(n: nat, k: nat): nat {
    if k == 0 then 1 else if n == 0 then 0 else Binomial(n - 1, k - 1) + Binomial(n - 1, k)
  }

  lemma {:induction false} FallingFromNext(n: nat, k: nat)
    requires k < n
    ensures Falling(n, k + 1) == n * Falling(n - 1, k)
  {
    if k > 0 {
      FallingFromNext(n, k - 1);
      Associative(n, Falling(n - 1, k - 1), n - k);
    }
  }

  lemma {:induction false} Associative(a: int, b: int, c: int)
    ensures a * b * c == a * (b * c)
  {
  }

  lemma {:induction false} PascalStep(n: int, k: int, c: int, d: int, f: int)
    requires d * (k * f) == c * f * (n - k)
    ensures (c + d) * (k * f) == n * (c * f)
  {
    Associative(c, k, f);
    Associative(c, f, k);
    var x := c * f;
    assert (c + d) * (k * f) == c * (k * f) + d * (k * f);
    assert c * (k * f) == x * k;
  }

  lemma {:induction false} NoneBeyond(n: nat, k: nat)
    requires k > n
    ensures Binomial(n, k) == 0
  {
    if n > 0 {
      NoneBeyond(n - 1, k - 1);
      NoneBeyond(n - 1, k);
    }
  }

  /** The quotient the two loops form is exact. */
  lemma {:induction false} FallingIsBinomial(n: nat, k: nat)
    requires k <= n
    ensures Falling(n, k) == Binomial(n, k) * Factorial(k)
  {
    if k > 0 {
      FallingFromNext(n, k - 1);
      FallingIsBinomial(n - 1, k - 1);
      var c, d, f := Binomial(n - 1, k - 1), Binomial(n - 1, k), Factorial(k - 1);
      if k < n {
        FallingIsBinomial(n - 1, k);
      } else {
        NoneBeyond(n - 1, k);
      }
      PascalStep(n, k, c, d, f);
    }
  }

  lemma {:induction false} QuotientOfQuotient(x: nat, a: nat, b: nat)
    requires a > 0 && b > 0
    ensures x / a / b == x / (a * b)
  {
    var q, r := x / a, x % a;
    assert x == (q / b * b + q % b) * a + r;
    NextMultiple(q % b, b, a);
    assert x == q / b * (a * b) + (q % b * a + r);
    Unique(x, a * b, q / b, q % b * a + r);
  }

  /** A quotient that lost a multiple of 2^64 is not the exact one. */
  lemma {:induction false} ExactOnlyWithoutWrap(x: nat, c: nat, f: nat)
    requires f > 0 && x == c * f
    ensures x % TWO64 / f == c <==> x < TWO64
  {
    if x >= TWO64 {
      var y := x % TWO64;
      assert y == y / f * f + y % f;
      assert y < x;
    } else {
      Unique(x, f, c, 0);
    }
  }

  /** uint64 product */
  function Times(x: nat, y: nat): (p: nat)
    ensures p < TWO64
  {
    x * y % TWO64
  }

  function Shared(x: nat, k: nat): nat {
    x / Factorial(k)
  }

  lemma {:induction false} FirstFactors(n: nat)
    ensures Falling(n, 0) == 1
    ensures forall x: nat :: Shared(x, 0) == Shared(x, 1) == x
  {
    assert Factorial(1) == 1 * Factorial(0);
  }

  lemma {:induction false} OneMoreFactor(n: nat, k: nat)
    requires k < n
    ensures Times(Falling(n, k) % TWO64, n - k) == Falling(n, k + 1) % TWO64
  {
    RestOfProduct(Falling(n, k), n - k, TWO64);
  }

  lemma {:induction false} QuotientShrinks(q: nat, b: nat)
    requires b > 0
    ensures q / b <= q
  {
    assert q == q / b * b + q % b;
    if q / b > 0 {
      NextMultiple(0, b, q / b);
    }
  }

  lemma {:induction false} NextFactorial(x: nat, i: nat)
    requires i >= 1
    ensures Shared(x, i - 1) / i == Shared(x, i) <= Shared(x, i - 1)
  {
    var f := Factorial(i - 1);
    QuotientOfQuotient(x, f, i);
    assert f * i == Factorial(i);
    QuotientShrinks(x / f, i);
  }

  lemma {:induction false} FactorialGrows(k: nat)
    requires k >= 1
    ensures Shared(1, k) == if k == 1 then 1 else 0
  {
    assert Factorial(k) == k * Factorial(k - 1);
    if k == 1 {
      assert Factorial(0) == 1;
    } else {
      NextMultiple(1, k, Factorial(k - 1));
    }
  }

  lemma {:induction false} SharedIsExact(n: nat, k: nat)
    requires k <= n
    ensures Shared(Falling(n, k) % TWO64, k) == Binomial(n, k) <==> Falling(n, k) < TWO64
  {
    FallingIsBinomial(n, k);
    ExactOnlyWithoutWrap(Falling(n, k), Binomial(n, k), Factorial(k));
  }

  lemma {:induction false} UnsignedWrap(r: nat)
    requires r < TWO64
    ensures Unsigned(Wrap(r)) == r
  {
    Unique(Wrap(r), TWO64, if r < TWO63 then 0 else -1, r);
  }

  /**
   * n! / (n - k)! / k! in uint64 arithmetic, for k other than the highest uint64,
   * where the last loop cannot end. Right exactly when the product fits 64 bits;
   * with more to choose than there is, right except for one out of none.
   */
  method BinCoeffFuncInt(arg0: Int64, arg1: Int64) returns (res: Int64)
    requires arg1 != -1
    ensures var n, k := Unsigned(arg0), Unsigned(arg1);
      if k <= n then
        (Unsigned(res) == Binomial(n, k) <==> Falling(n, k) < TWO64)
        && Unsigned(res) == Shared(Falling(n, k) % TWO64, k)
      else (Unsigned(res) == Binomial(n, k) <==> k != 1)
  {
    hide Falling, Factorial, Times, Shared, Binomial, Wrap;
    var n, k := Unsigned(arg0), Unsigned(arg1);
    FirstFactors(n);
    var r: nat := 1;
    var i: nat := n;
    var last: nat := (n - k) % TWO64;
    while i > last
      invariant i <= n && (k <= n ==> n - k <= i && r == Falling(n, n - i) % TWO64)
      invariant k > n ==> i == n && r == 1
    {
      OneMoreFactor(n, n - i);
      r := Times(r, i);
      i := i - 1;
    }
    ghost var product := r;
    i := 2;
    while i <= k
      invariant 2 <= i && (k >= 2 ==> i <= k + 1) && (k < 2 ==> i == 2)
      invariant r == Shared(product, i - 1) && r < TWO64
      decreases k + 1 - i
    {
      NextFactorial(product, i);
      r := r / i;
      i := i + 1;
    }
    if k <= n {
      SharedIsExact(n, k);
    } else {
      NoneBeyond(n, k);
      FactorialGrows(k);
    }
    UnsignedWrap(r);
    res := Wrap(r);
  }

  // --------------------------------------------------- greatest common divisor

  predicate Divides(d: int, x: int)
    requires d > 0
  {
    x % d == 0
  }

  predicate CommonDivisor(d: int, a: int, b: int) {
    d > 0 && Divides(d, a) && Divides(d, b)
  }

  /** g is 0 for two zeros, and otherwise the common divisor all others divide. */
  ghost predicate IsGcd(g: int, a: int, b: int) {
    if a == 0 && b == 0 then g == 0
    else CommonDivisor(g, a, b) && forall d | CommonDivisor(d, a, b) :: Divides(d, g)
  }

  /** The remainder of C++, with the sign of the dividend. */
  function TruncRem(a: int, b: int): int
    requires b != 0
  {
    a - b * TruncDiv(a, b)
  }

  lemma {:induction false} TruncRemBound(a: int, b: int)
    requires b != 0
    ensures Abs(TruncRem(a, b)) < Abs(b)
  {
    var p := if a >= 0 then a else -a;
    assert p == b * (p / b) + p % b;
  }

  function Abs(x: int): nat {
    if x < 0 then -x else x
  }

  lemma {:induction false} SameDivisors(d: int, a: int, b: int)
    requires b != 0
    ensures CommonDivisor(d, a, b) <==> CommonDivisor(d, b, TruncRem(a, b))
  {
    if d > 0 && Divides(d, b) {
      var q, m := TruncDiv(a, b), b / d;
      assert b == m * d;
      assert TruncRem(a, b) == a + (-(m * q)) * d;
      SameRest(a, -(m * q), d);
    }
  }

  /** The arguments on which the loop leaves sint64: it takes the remainder of the minimum by
      -1, or the result is 2^63. */
  predicate GcdOverflows(a: int, b: int) {
    (a == -TWO63 && (b == -1 || b == 0)) || (b == -TWO63 && (a == -1 || a == 0 || a == -TWO63))
  }

  /** Whether the loop itself gets there. */
  predicate LoopOverflows(arg0: int, arg1: int)
    decreases Abs(arg1)
  {
    if arg1 == 0 then arg0 == -TWO63
    else
      TruncRemBound(arg0, arg1);
      (arg0 == -TWO63 && arg1 == -1) || LoopOverflows(arg1, TruncRem(arg0, arg1))
  }

  lemma {:induction false} SmallRem(a: int, b: int)
    requires b != 0 && Abs(a) < Abs(b)
    ensures TruncRem(a, b) == a
  {
    var p := if a >= 0 then a else -a;
    assert p == b * (p / b) + p % b;
    if b > 0 {
      Unique(p, b, 0, p);
    } else {
      Unique(p, -b, 0, p);
      assert p / b == -(p / -b);
    }
  }

  lemma {:induction false} RemByMinimum(a: Int64)
    ensures TruncRem(a, -TWO63) == if a == -TWO63 then 0 else a
  {
    if a != -TWO63 {
      SmallRem(a, -TWO63);
    }
  }

  lemma {:induction false} OverflowStep(a: Int64, b: Int64)
    requires b != 0
    ensures Abs(TruncRem(a, b)) < Abs(b) <= TWO63
    ensures GcdOverflows(a, b) <==> (a == -TWO63 && b == -1) || GcdOverflows(b, TruncRem(a, b))
  {
    TruncRemBound(a, b);
    if b == -TWO63 {
      RemByMinimum(a);
    }
  }

  /** The bad arguments are exactly these, whatever the number of turns. */
  lemma {:induction false} LoopOverflowsExactly(a: Int64, b: Int64)
    ensures LoopOverflows(a, b) <==> GcdOverflows(a, b)
    decreases Abs(b)
  {
    if b != 0 {
      OverflowStep(a, b);
      LoopOverflowsExactly(b, TruncRem(a, b));
    }
  }

  method GcdFuncInt(a: Int64, b: Int64) returns (g: Int64)
    requires !GcdOverflows(a, b)
    ensures g >= 0 && IsGcd(g, a, b)
  {
    var arg0, arg1 := a as int, b as int;
    while arg1 != 0
      invariant -TWO63 <= arg0 < TWO63 && -TWO63 <= arg1 < TWO63 && !GcdOverflows(arg0, arg1)
      invariant arg0 == 0 && arg1 == 0 <==> a == 0 && b == 0
      invariant forall d :: CommonDivisor(d, arg0, arg1) <==> CommonDivisor(d, a, b)
      decreases Abs(arg1)
    {
      OverflowStep(arg0, arg1);
      forall d ensures CommonDivisor(d, arg0, arg1) <==> CommonDivisor(d, arg1, TruncRem(arg0, arg1)) {
        SameDivisors(d, arg0, arg1);
      }
      var temp := arg1;
      arg1 := TruncRem(arg0, arg1);
      arg0 := temp;
    }
    g := if arg0 < 0 then -arg0 else arg0;
    if arg0 != 0 {
      NegativeMultiple(arg0, g);
      assert CommonDivisor(g, arg0, 0);
      forall d | CommonDivisor(d, a, b) ensures Divides(d, g) {
        assert CommonDivisor(d, arg0, arg1);
        NegativeMultiple(arg0, d);
      }
    }
  }

  lemma {:induction false} NegativeMultiple(x: int, d: int)
    requires d > 0
    ensures x % d == 0 ==> (-x) % d == 0
    ensures d == Abs(x) ==> x % d == 0
  {
    if x % d == 0 {
      Unique(-x, d, -(x / d), 0);
    }
    if d == Abs(x) {
      Unique(x, d, if x < 0 then -1 else 1, 0);
    }
  }
}
