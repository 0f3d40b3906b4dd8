/** The sequential outcome of the concurrency demos in
    bootstrap/stages/go_rulez/go_rulez.go: the mutex-guarded counter, the
    split sum whose halves arrive over one channel, and the Fibonacci sender. */
module GoRulez {
  import opened GoInt
  import CoolWhatsMore

  // ---------------------------------------------------------------- SafeCounter

  /** `SafeCounter`: a map from key to count. The mutex only serialises the
      calls; in the model every call runs on its own. */
  class SafeCounter {
    var v: map<string, int>

    /** `SafeCounter{v: make(map[string]int)}` */
    constructor ()
      ensures v == map[]
    {
      v := map[];
    }

    /** `c.v[key]`: the stored count, or Go's zero value for a missing key. */
    function Value(key: string): (r: int)
      reads this
      ensures key in v ==> r == v[key]
      ensures key !in v ==> r == 0
    {
      if key in v then v[key] else 0
    }

    /** `c.v[key]++`: the key's count goes up by one, starting from 0 when it
        is missing, and every other key keeps its count. */
    method Inc(key: string)
      modifies this
      ensures v == old(v)[key := old(Value(key)) + 1]
      ensures Value(key) == old(Value(key)) + 1
      ensures forall k :: k != key ==> Value(k) == old(Value(k))
    {
      v := v[key := Value(key) + 1];
    }
  }

  /** `mutexes()` run sequentially: `n` calls of `Inc("somekey")` on a fresh
      counter leave `Value("somekey") == n` and no other key. */
  method Mutexes(n: nat) returns (value: int, keys: set<string>)
    ensures value == n
    ensures n == 0 ==> keys == {}
    ensures n > 0 ==> keys == {"somekey"}
  {
    var c := new SafeCounter();
    var i := 0;
    while i < n
      invariant 0 <= i <= n
      invariant i == 0 ==> c.v == map[]
      invariant i > 0 ==> c.v.Keys == {"somekey"}
      invariant c.Value("somekey") == i
    {
      c.Inc("somekey");
      i := i + 1;
    }
    value, keys := c.Value("somekey"), c.v.Keys;
  }

  // ---------------------------------------------------------------- sum_together

  /** `sum_together(sli)`: two summers add up `sli[:len/2]` and `sli[len/2:]`
      and send their sums on one channel. `lowerFirst` says which send is
      received first; whichever it is, the two received sums add up to the
      sum of the whole slice. Each summer's loop is `SumItVarargs`. */
  method SumTogether(sli: seq<int>, lowerFirst: bool) returns (res1: int, res2: int)
    ensures res1 + res2 == Sum(sli)
    ensures lowerFirst ==> res1 == Sum(sli[..|sli| / 2]) && res2 == Sum(sli[|sli| / 2..])
    ensures !lowerFirst ==> res1 == Sum(sli[|sli| / 2..]) && res2 == Sum(sli[..|sli| / 2])
  {
    var lower := CoolWhatsMore.SumItVarargs(sli[..|sli| / 2]);
    var upper := CoolWhatsMore.SumItVarargs(sli[|sli| / 2..]);
    if lowerFirst {
      res1, res2 := lower, upper;
    } else {
      res1, res2 := upper, lower;
    }
    SumAppend(sli[..|sli| / 2], sli[|sli| / 2..]);
    assert sli[..|sli| / 2] + sli[|sli| / 2..] == sli;
  }

  /** The call in `channels()` on [7, 2, 8, -9, 4, 0]: the halves sum to 17 and
      -5 in either order, and the total printed is 12. */
  method SumTogetherDemo(lowerFirst: bool) returns (res1: int, res2: int)
    ensures res1 + res2 == 12
    ensures {res1, res2} == {17, -5}
  {
    var sli := [7, 2, 8, -9, 4, 0];
    assert sli[..3] == [7, 2, 8] && sli[3..] == [-9, 4, 0];
    assert [7, 2, 8][..2] == [7, 2] && [7, 2][..1] == [7] && [7][..0] == [];
    assert [-9, 4, 0][..2] == [-9, 4] && [-9, 4][..1] == [-9] && [-9][..0] == [];
    assert Sum([7, 2, 8]) == 17 && Sum([-9, 4, 0]) == -5;
    res1, res2 := SumTogether(sli, lowerFirst);
  }

  // ---------------------------------------------------------------- close_and_loop_channels

  /** `fib(n, c)`: sends F(0), F(1), ..., F(n - 1) in order, as Go's 64-bit
      `x+y` computes them, and then closes the channel, so a range loop over it
      receives exactly those values. For n <= 0 nothing is sent. The values are
      exact up to F(92). */
  method FibSender(n: int) returns (sent: seq<int>, closed: bool)
    ensures |sent| == if n < 0 then 0 else n
    ensures forall k :: 0 <= k < |sent| ==> sent[k] == Fib64(k)
    ensures forall k :: 0 <= k < |sent| ==> sent[k] == Wrap64(Fib(k))
    ensures forall k :: 0 <= k < |sent| && k <= 92 ==> sent[k] == Fib(k)
    ensures closed
  {
    var x, y := 0, 1;
    sent := [];
    var i := 0;
    while i < n
      invariant 0 <= i <= if n < 0 then 0 else n
      invariant x == Fib64(i) && y == Fib64(i + 1)
      invariant |sent| == i
      invariant forall k :: 0 <= k < i ==> sent[k] == Fib64(k)
    {
      sent := sent + [x];
      x, y := y, Add64(x, y);
      i := i + 1;
    }
    forall k | 0 <= k < |sent| ensures sent[k] == Wrap64(Fib(k)) {
      Fib64Wraps(k);
    }
    forall k | 0 <= k < |sent| && k <= 92 ensures sent[k] == Fib(k) {
      Fib64Exact(k);
    }
    closed := true;
  }

  /** `close_and_loop_channels()`: the buffer capacity 10 is the count, so the
      loop prints the first ten Fibonacci numbers. */
  method CloseAndLoopChannels() returns (printed: seq<int>)
    ensures printed == [0, 1, 1, 2, 3, 5, 8, 13, 21, 34]
  {
    var closed;
    printed, closed := FibSender(10);
    assert Fib(9) == 34;
  }
}
