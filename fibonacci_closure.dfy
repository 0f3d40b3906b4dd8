/** The closure returned by `fibonacci()` in
    bootstrap/cool_whats_more/fibonacci_using_closures.go, as an object whose
    fields are the captured variables `i` and `j`. */
module FibonacciClosure {
  import opened GoInt

  class Fibonacci {
    var i: int
    var j: int
    /** How many times the closure has been called. */
    ghost var calls: nat

    /** After k calls the captured pair is (F(k), F(k + 1)) as Go's 64-bit `int`
        computes them. */
    ghost predicate Valid()
      reads this
    {
      i == Fib64(calls) && j == Fib64(calls + 1)
    }

    /** `fibonacci()`: fresh captured state `i, j := 0, 1`. */
    constructor ()
      ensures Valid() && calls == 0
      ensures i == 0 && j == 1
    {
      i, j := 0, 1;
      calls := 0;
    }

    /** One call of the closure, `next := i + j` in 64-bit arithmetic: the k-th
        call returns the old j, which is F(k) wrapped into int64, and exactly
        F(k) up to the 92nd call. */
    method Call() returns (r: int)
      requires Valid()
      modifies this
      ensures Valid() && calls == old(calls) + 1
      ensures r == old(j) && r == Fib64(calls)
      ensures r == Wrap64(Fib(calls))
      ensures calls <= 92 ==> r == Fib(calls)
    {
      var next := Add64(i, j);
      i, j := j, next;
      calls := calls + 1;
      r := i;
      Fib64Wraps(calls);
      if calls <= 92 {
        Fib64Exact(calls);
      }
    }
  }

  /** `count` calls on one fresh closure return F(1) .. F(count) as Go's int
      computes them: wrapped into int64, and exact for the first 92 calls. */
  method FirstCalls(count: nat) returns (results: seq<int>)
    ensures |results| == count
    ensures forall k :: 0 <= k < count ==> results[k] == Fib64(k + 1)
    ensures forall k :: 0 <= k < count ==> results[k] == Wrap64(Fib(k + 1))
    ensures forall k :: 0 <= k < count && k < 92 ==> results[k] == Fib(k + 1)
  {
    var f := new Fibonacci();
    results := [];
    var n := 0;
    while n < count
      invariant 0 <= n <= count
      invariant f.Valid() && f.calls == n
      invariant |results| == n
      invariant forall k :: 0 <= k < n ==> results[k] == Fib64(k + 1)
    {
      var r := f.Call();
      results := results + [r];
      n := n + 1;
    }
    forall k | 0 <= k < count ensures results[k] == Wrap64(Fib(k + 1)) {
      Fib64Wraps(k + 1);
    }
    forall k | 0 <= k < count && k < 92 ensures results[k] == Fib(k + 1) {
      Fib64Exact(k + 1);
    }
  }

  /** `main`: 70 calls on one closure start 1, 1, 2, 3, 5 and are the exact
      Fibonacci numbers F(1) .. F(70): the program stops before int64 overflows. */
  method SeventyCalls() returns (results: seq<int>)
    ensures |results| == 70
    ensures forall k :: 0 <= k < 70 ==> results[k] == Fib(k + 1)
    ensures results[..5] == [1, 1, 2, 3, 5]
    ensures results[69] == 190392490709135
  {
    results := FirstCalls(70);
    FirstFibs();
    assert results[..5] == [Fib(1), Fib(2), Fib(3), Fib(4), Fib(5)];
    Fib70();
  }

  /** A longer loop would see the wrap: call 92 still returns F(92), but call 93
      returns F(93) - 2^64, a negative number. */
  method NinetyThreeCalls() returns (results: seq<int>)
    ensures |results| == 93
    ensures results[91] == 7540113804746346429
    ensures results[92] == -6246583658587674878
  {
    results := FirstCalls(93);
    assert results[91] == Fib(92) && results[92] == Wrap64(Fib(93));
    FibValuesAt92();
  }

  lemma FibValuesAt92()
    ensures Fib(92) == 7540113804746346429
    ensures Wrap64(Fib(93)) == -6246583658587674878
  {
    Fib92();
    Fib93();
  }

  lemma FirstFibs()
    ensures Fib(1) == 1 && Fib(2) == 1 && Fib(3) == 2 && Fib(4) == 3 && Fib(5) == 5
  {
  }



  /** Each `fibonacci()` call makes independent state: calling one closure twice
      does not advance another. */
  method IndependentClosures() returns (first: int, second: int)
    ensures first == 1 && second == 1
  {
    var f := new Fibonacci();
    var g := new Fibonacci();
    var _ := f.Call();
    second := f.Call();
    first := g.Call();
  }
}
