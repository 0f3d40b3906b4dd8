/** Integer definitions shared by the programs: sums, products, Fibonacci numbers,
    powers of two, Go's truncating division and the 64-bit range of Go's `int`. */
module GoInt {

  /** Go's `byte` (`uint8`). */
  type byte = x: int | 0 <= x < 256

  const MinInt64: int := -0x8000_0000_0000_0000
  const MaxInt64: int := 0x7FFF_FFFF_FFFF_FFFF

  /** True when `x` fits in Go's 64-bit `int`. */
  predicate InInt64(x: int) {
    MinInt64 <= x <= MaxInt64
  }

  const TwoTo64: int := 0x1_0000_0000_0000_0000

  /** Go's `int` arithmetic: `x` brought into the int64 range by two's-complement
      wrap-around. */
  function Wrap64(x: int): (r: int)
    ensures InInt64(r)
  {
    (x - MinInt64) % TwoTo64 + MinInt64
  }

  /** Wrap-around leaves a value already in the int64 range alone. */
  lemma Wrap64InRange(x: int)
    requires InInt64(x)
    ensures Wrap64(x) == x
  {
  }

  /** Removing a multiple of 2^64 does not change the remainder. */
  lemma ModShift(x: int, k: int)
    ensures (x - TwoTo64 * k) % TwoTo64 == x % TwoTo64
  {
    var q, r := x / TwoTo64, x % TwoTo64;
    assert x - TwoTo64 * k == TwoTo64 * (q - k) + r;
  }

  /** The sum of a sequence, folded from the left as a range loop does. */
  function Sum(s: seq<int>): int
  {
    if s == [] then 0 else Sum(s[..|s| - 1]) + s[|s| - 1]
  }

  /** The product of a sequence, folded from the left. */
  function Product(s: seq<int>): int
  {
    if s == [] then 1 else Product(s[..|s| - 1]) * s[|s| - 1]
  }

  /** Sum distributes over concatenation. */
  lemma {:induction false} SumAppend(a: seq<int>, b: seq<int>)
    ensures Sum(a + b) == Sum(a) + Sum(b)
    decreases |b|
  {
    if b == [] {
      assert a + b == a;
    } else {
      calc {
        Sum(a + b);
        { assert (a + b)[..|a + b| - 1] == a + b[..|b| - 1]; }
        Sum(a + b[..|b| - 1]) + b[|b| - 1];
        { SumAppend(a, b[..|b| - 1]); }
        Sum(a) + Sum(b[..|b| - 1]) + b[|b| - 1];
      }
    }
  }

  /** The triangular number 0 + 1 + ... + (n - 1). */
  function Triangle(n: nat): nat
  {
    if n == 0 then 0 else Triangle(n - 1) + (n - 1)
  }

  /** The closed form n (n - 1) / 2 of the n-th triangular number. */
  lemma {:induction false} TriangleClosedForm(n: nat)
    ensures Triangle(n) == n * (n - 1) / 2
  {
    if n > 0 {
      TriangleClosedForm(n - 1);
      assert n * (n - 1) == (n - 1) * (n - 2) + 2 * (n - 1);
    }
  }

  /** Fibonacci numbers with F(0) = 0 and F(1) = 1. */
  function Fib(n: nat): nat
  {
    if n < 2 then n else Fib(n - 1) + Fib(n - 2)
  }

  /** Fibonacci numbers never decrease. */
  lemma {:induction false} FibMonotone(m: nat, n: nat)
    requires m <= n
    ensures Fib(m) <= Fib(n)
    decreases n - m
  {
    if m < n {
      FibMonotone(m + 1, n);
      assert Fib(m) <= Fib(m + 1) by {
        if m >= 1 { assert Fib(m + 1) == Fib(m) + Fib(m - 1); }
      }
    }
  }

  lemma AddProducts(a: int, b: int, x: int, y: int, z: int, f1: int, f2: int)
    requires f1 == a * x + b * y && f2 == a * y + b * z
    ensures f1 + f2 == a * (x + y) + b * (y + z)
  {
  }

  /** The addition law for n = 0 and n = 1. */
  lemma FibAddBase(m: nat, n: nat)
    requires n < 2
    ensures Fib(m + n + 1) == Fib(m + 1) * Fib(n + 1) + Fib(m) * Fib(n)
  {
    assert Fib(1) == 1 && Fib(2) == 1;
    if n == 1 {
      assert Fib(m + 2) == Fib(m + 1) + Fib(m);
    }
  }

  /** One step of the addition law, from the two steps before it. */
  lemma FibAddStep(m: nat, n: nat)
    requires n >= 2
    requires Fib(m + n) == Fib(m + 1) * Fib(n) + Fib(m) * Fib(n - 1)
    requires Fib(m + n - 1) == Fib(m + 1) * Fib(n - 1) + Fib(m) * Fib(n - 2)
    ensures Fib(m + n + 1) == Fib(m + 1) * Fib(n + 1) + Fib(m) * Fib(n)
  {
    var a, b, x, y, z := Fib(m + 1), Fib(m), Fib(n), Fib(n - 1), Fib(n - 2);
    assert Fib(m + n + 1) == Fib(m + n) + Fib(m + n - 1);
    assert Fib(n + 1) == x + y && x == y + z;
    AddProducts(a, b, x, y, z, Fib(m + n), Fib(m + n - 1));
  }

  /** The addition law F(m + n + 1) = F(m + 1) F(n + 1) + F(m) F(n). */
  lemma {:induction false} FibAdd(m: nat, n: nat)
    ensures Fib(m + n + 1) == Fib(m + 1) * Fib(n + 1) + Fib(m) * Fib(n)
    decreases n
  {
    if n < 2 {
      FibAddBase(m, n);
    } else {
      FibAdd(m, n - 1);
      FibAdd(m, n - 2);
      FibAddStep(m, n);
    }
  }





  lemma Fib17()
    ensures Fib(17) == 1597 && Fib(18) == 2584
  {
    assert Fib(8) == 21 && Fib(9) == 34 && Fib(10) == 55;
    FibAdd(8, 8);
    FibAdd(8, 9);
  }

  lemma Fib35()
    ensures Fib(35) == 9227465 && Fib(36) == 14930352
  {
    Fib17();
    assert Fib(19) == Fib(18) + Fib(17);
    FibAdd(17, 17);
    assert Fib(35) == 2584 * 2584 + 1597 * 1597;
    FibAdd(17, 18);
    assert Fib(36) == 2584 * 4181 + 1597 * 2584;
  }

  lemma Fib34()
    ensures Fib(34) == 5702887
  {
    Fib35();
    assert Fib(36) == Fib(35) + Fib(34);
  }

  /** The values the 70 calls of `fibonacci`'s `main` end on. */
  lemma Fib70()
    ensures Fib(70) == 190392490709135 && Fib(71) == 308061521170129
  {
    Fib70Only();
    Fib71();
  }

  lemma Fib70Only()
    ensures Fib(70) == 190392490709135
  {
    Fib34();
    Fib35();
    FibAdd(34, 35);
    assert Fib(70) == 9227465 * 14930352 + 5702887 * 9227465;
  }

  lemma Fib71()
    ensures Fib(71) == 308061521170129
  {
    Fib35();
    FibAdd(35, 35);
    assert Fib(71) == 14930352 * 14930352 + 9227465 * 9227465;
  }

  lemma Fib45()
    ensures Fib(45) == 1134903170 && Fib(46) == 1836311903
  {
    Fib35();
    assert Fib(9) == 34 && Fib(10) == 55 && Fib(11) == 89;
    FibAdd(35, 9);
    assert Fib(45) == 14930352 * 55 + 9227465 * 34;
    FibAdd(35, 10);
    assert Fib(46) == 14930352 * 89 + 9227465 * 55;
  }

  lemma Fib47()
    ensures Fib(47) == 2971215073
  {
    Fib45();
  }

  lemma Fib92()
    ensures Fib(92) == 7540113804746346429
  {
    Fib45();
    Fib47();
    FibAdd(45, 46);
    assert Fib(92) == 2971215073 * 1836311903 + 1836311903 * 1134903170;
  }

  lemma Fib93()
    ensures Fib(93) == 12200160415121876738
  {
    Fib45();
    Fib47();
    FibAdd(46, 46);
    assert Fib(93) == 2971215073 * 2971215073 + 1836311903 * 1836311903;
  }

  /** F(92) is the last Fibonacci number that fits in int64; F(93) does not. */
  lemma FibInt64Edge()
    ensures InInt64(Fib(92)) && !InInt64(Fib(93))
  {
    Fib92();
    Fib93();
  }

  /** Go's `a + b` on two int64 values: the exact sum, brought back into range
      by one wrap when it overflows. */
  function Add64(a: int, b: int): (r: int)
    requires InInt64(a) && InInt64(b)
    ensures InInt64(r)
    ensures InInt64(a + b) ==> r == a + b
  {
    var s := a + b;
    if s > MaxInt64 then s - TwoTo64 else if s < MinInt64 then s + TwoTo64 else s
  }

  /** The 64-bit addition differs from the exact sum by a multiple of 2^64. */
  lemma Add64Carry(a: int, b: int) returns (w: int)
    requires InInt64(a) && InInt64(b)
    ensures Add64(a, b) == a + b - w * TwoTo64
  {
    var s := a + b;
    w := if s > MaxInt64 then 1 else if s < MinInt64 then -1 else 0;
  }

  /** The int64 value that differs from `x` by a multiple of 2^64 is `Wrap64(x)`. */
  lemma WrapUnique(x: int, r: int, q: int)
    requires InInt64(r) && x == r + q * TwoTo64
    ensures Wrap64(x) == r
  {
    ModShift(x - MinInt64, q);
    assert x - MinInt64 - TwoTo64 * q == r - MinInt64;
    Wrap64InRange(r);
  }

  /** Go's 64-bit addition is the exact sum wrapped into int64. */
  lemma Add64Wraps(a: int, b: int)
    requires InInt64(a) && InInt64(b)
    ensures Add64(a, b) == Wrap64(a + b)
  {
    var w := Add64Carry(a, b);
    WrapUnique(a + b, Add64(a, b), w);
  }

  /** The Fibonacci numbers as a loop over Go's `int` computes them: F(0) and
      F(1), then each the 64-bit sum of the two before it. */
  function Fib64(n: nat): (r: int)
    ensures InInt64(r)
  {
    if n < 2 then n else Add64(Fib64(n - 2), Fib64(n - 1))
  }

  /** Up to F(92) the 64-bit values are the exact Fibonacci numbers. */
  lemma {:induction false} Fib64Exact(n: nat)
    requires n <= 92
    ensures Fib64(n) == Fib(n)
  {
    if n >= 2 {
      Fib64Exact(n - 1);
      Fib64Exact(n - 2);
      FibFitsInt64(n);
    }
  }

  /** The 64-bit Fibonacci values differ from the exact ones by multiples of 2^64. */
  lemma {:induction false} Fib64Congruent(n: nat) returns (q: int)
    ensures Fib(n) == Fib64(n) + q * TwoTo64
  {
    if n < 2 {
      q := 0;
    } else {
      var q2 := Fib64Congruent(n - 2);
      var q1 := Fib64Congruent(n - 1);
      var w := Add64Carry(Fib64(n - 2), Fib64(n - 1));
      q := q2 + q1 + w;
    }
  }

  /** Every 64-bit value is the exact Fibonacci number wrapped into int64. */
  lemma Fib64Wraps(n: nat)
    ensures Fib64(n) == Wrap64(Fib(n))
  {
    var q := Fib64Congruent(n);
    WrapUnique(Fib(n), Fib64(n), q);
  }

  /** Every Fibonacci number up to F(92) is a Go int64. */
  lemma FibFitsInt64(k: nat)
    requires k <= 92
    ensures InInt64(Fib(k))
  {
    FibInt64Edge();
    FibMonotone(k, 92);
  }



  /** 2^k */
  function Pow2(k: nat): (r: nat)
    ensures r >= 1
  {
    if k == 0 then 1 else 2 * Pow2(k - 1)
  }

  /** 2^(a+b) = 2^a 2^b */
  lemma {:induction false} Pow2Add(a: nat, b: nat)
    ensures Pow2(a + b) == Pow2(a) * Pow2(b)
    decreases b
  {
    if b > 0 {
      Pow2Add(a, b - 1);
      assert Pow2(a + b) == 2 * Pow2(a + b - 1);
    }
  }

  /** `x` is 2^k for some k >= 0. */
  predicate IsPow2(x: int)
    decreases if x < 0 then 0 else x
  {
    x == 1 || (x >= 2 && x % 2 == 0 && IsPow2(x / 2))
  }

  lemma {:induction false} Pow2IsPow2(k: nat)
    ensures IsPow2(Pow2(k))
  {
    if k > 0 {
      Pow2IsPow2(k - 1);
      assert Pow2(k) / 2 == Pow2(k - 1);
    }
  }

  /** Go's `a / b` on integers: the quotient truncated toward zero. */
  function GoDiv(a: int, b: int): (q: int)
    requires b != 0
    ensures var r := a - q * b;
      (if a >= 0 then 0 <= r else r <= 0) && (if b > 0 then -b < r < b else b < r < -b)
  {
    if a >= 0 then a / b
    else if b > 0 then -((-a) / b)
    else (-a) / (-b)
  }

  /** Go's `x >> n` on a non-negative integer. */
  function ShiftRight(x: nat, n: nat): int
  {
    x / Pow2(n)
  }

  /** `x >> n` is x / 2^n rounded down. */
  lemma ShiftRightBounds(x: nat, n: nat)
    ensures ShiftRight(x, n) * Pow2(n) <= x < (ShiftRight(x, n) + 1) * Pow2(n)
  {
    DivBounds(x, Pow2(n));
  }

  lemma DivBounds(x: nat, d: nat)
    requires d >= 1
    ensures (x / d) * d <= x < (x / d + 1) * d
  {
    var q, m := x / d, x % d;
    assert x == q * d + m && 0 <= m < d;
    assert (q + 1) * d == q * d + d;
  }

  /** Go's `x << n` (an untyped constant expression, so no overflow). */
  function ShiftLeft(x: nat, n: nat): nat
  {
    x * Pow2(n)
  }
}
