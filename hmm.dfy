/** The loops of `for_init` and the two defer rules of bootstrap/hmm/hmm.go. */
module Hmm {
  import opened GoInt

  /** `for_init(n)`: three loops whose final values the function prints.
      The first sums 0 .. n-1; the second doubles `sum2` from 1 until it
      reaches `n`, so it ends on the smallest power of two that is >= n; the
      third does the same from 2, so it ends on the smallest 2^k with k >= 1
      that is >= n. */
  method ForInit(n: int) returns (sum: int, sum2: int, sum3: int)
    ensures n >= 0 ==> sum == n * (n - 1) / 2
    ensures n < 0 ==> sum == 0
    ensures IsPow2(sum2) && sum2 >= n && (sum2 == 1 || sum2 / 2 < n)
    ensures IsPow2(sum3) && sum3 >= 2 && sum3 >= n && (sum3 == 2 || sum3 / 2 < n)
  {
    sum := 0;
    var i := 0;
    while i < n
      invariant 0 <= i <= if n < 0 then 0 else n
      invariant sum == Triangle(i)
    {
      sum := sum + i;
      i := i + 1;
    }
    TriangleClosedForm(i);

    sum2 := 1;
    ghost var k: nat := 0;
    while sum2 < n
      invariant sum2 == Pow2(k)
      invariant sum2 == 1 || sum2 / 2 < n
      decreases n - sum2
    {
      sum2 := sum2 + sum2;
      k := k + 1;
    }
    Pow2IsPow2(k);

    sum3 := 2;
    ghost var m: nat := 1;
    while sum3 < n
      invariant sum3 == Pow2(m) && m >= 1
      invariant sum3 == 2 || sum3 / 2 < n
      decreases n - sum3
    {
      sum3 := sum3 + sum3;
      m := m + 1;
    }
    Pow2IsPow2(m);
  }

  /** `main`'s call `for_init(10)` prints 45, 16 and 16. */
  method ForInitTen() returns (sum: int, sum2: int, sum3: int)
    ensures sum == 45 && sum2 == 16 && sum3 == 16
  {
    sum, sum2, sum3 := ForInit(10);
    PowersNearTen(sum2);
    PowersNearTen(sum3);
  }

  /** The only power of two in 10 .. 19 is 16. */
  lemma PowersNearTen(x: int)
    requires IsPow2(x) && 10 <= x < 20
    ensures x == 16
  {
    assert IsPow2(x / 2) && IsPow2(x / 4) && IsPow2(x / 8);
  }

  /** `defer_rule_1`: the deferred call's argument is evaluated at the `defer`,
      so it captures 9999, while the function returns the incremented 10000. */
  method DeferRule1() returns (result: int, deferredArg: int)
    ensures result == 10000 && deferredArg == 9999
    ensures deferredArg == result - 1
  {
    var i := 9999;
    deferredArg := i;
    i := i + 1;
    result := i;
  }

  /** `defer_rule_3`: `return 1` sets the named result, and the deferred
      closure then increments it, so the caller receives 2. */
  method DeferRule3() returns (i: int)
    ensures i == 2
  {
    i := 1;
    // deferred: func() { i++ }()
    i := i + 1;
  }
}
