/** The sequential logic of bootstrap/stages/cool_whats_more/cool_whats_more.go:
    the variadic sum, the three closures (as objects whose fields are the captured
    variables), the sentence factory, slice aliasing in `pass_stuff_to_me` and the
    capacity-growing copy in `slices_2`. */
module CoolWhatsMore {
  import opened GoInt

  // ---------------------------------------------------------------- sum_it_varargs

  /** `sum_it_varargs(args...)`: the range loop accumulates the sum of the arguments. */
  method SumItVarargs(args: seq<int>) returns (sum: int)
    ensures sum == Sum(args)
    ensures args == [] ==> sum == 0
  {
    sum := 0;
    var k := 0;
    while k < |args|
      invariant 0 <= k <= |args|
      invariant sum == Sum(args[..k])
    {
      assert args[..k + 1][..k] == args[..k];
      sum := sum + args[k];
      k := k + 1;
    }
    assert args[..k] == args;
  }

  // ---------------------------------------------------------------- closures

  /** `adder_closure()`: the captured `res` starts at 0 and each call adds its argument. */
  class Adder {
    var res: int
    /** The arguments of the calls so far. */
    ghost var args: seq<int>

    ghost predicate Valid()
      reads this
    {
      res == Sum(args)
    }

    constructor ()
      ensures Valid() && args == [] && res == 0
    {
      res := 0;
      args := [];
    }

    /** After calls with x1 .. xk the closure returns x1 + ... + xk. */
    method Call(x: int) returns (r: int)
      requires Valid()
      modifies this
      ensures Valid() && args == old(args) + [x]
      ensures r == res == old(res) + x
    {
      res := res + x;
      args := args + [x];
      assert args[..|args| - 1] == old(args);
      r := res;
    }
  }

  /** `multiplexer_closure()`: the captured `res` starts at 1 and each call
      multiplies it by its argument. */
  class Multiplexer {
    var res: int
    ghost var args: seq<int>

    ghost predicate Valid()
      reads this
    {
      res == Product(args)
    }

    constructor ()
      ensures Valid() && args == [] && res == 1
    {
      res := 1;
      args := [];
    }

    /** After calls with x1 .. xk the closure returns x1 * ... * xk. */
    method Call(x: int) returns (r: int)
      requires Valid()
      modifies this
      ensures Valid() && args == old(args) + [x]
      ensures r == res == old(res) * x
    {
      res := res * x;
      args := args + [x];
      assert args[..|args| - 1] == old(args);
      r := res;
    }
  }

  /** `crazy_closure()`: two closures over one environment. The adder owns
      `sumMe`, the multiplexer owns `multMe`; both start at 1. */
  class CrazyClosure {
    var sumMe: int
    var multMe: int
    ghost var added: seq<int>
    ghost var multiplied: seq<int>

    ghost predicate Valid()
      reads this
    {
      sumMe == 1 + Sum(added) && multMe == Product(multiplied)
    }

    constructor ()
      ensures Valid() && added == [] && multiplied == []
      ensures sumMe == 1 && multMe == 1
    {
      sumMe, multMe := 1, 1;
      added, multiplied := [], [];
    }

    /** The first closure: adds its argument to `sumMe` and leaves the
        multiplexer's state alone. */
    method Adder(x: int) returns (r: int)
      requires Valid()
      modifies this
      ensures Valid() && added == old(added) + [x] && r == sumMe
      ensures multMe == old(multMe) && multiplied == old(multiplied)
    {
      sumMe := sumMe + x;
      added := added + [x];
      assert added[..|added| - 1] == old(added);
      r := sumMe;
    }

    /** The second closure: multiplies `multMe` by its argument and leaves the
        adder's state alone. */
    method Multiplexer(x: int) returns (r: int)
      requires Valid()
      modifies this
      ensures Valid() && multiplied == old(multiplied) + [x] && r == multMe
      ensures sumMe == old(sumMe) && added == old(added)
    {
      multMe := multMe * x;
      multiplied := multiplied + [x];
      assert multiplied[..|multiplied| - 1] == old(multiplied);
      r := multMe;
    }
  }

  /** n! */
  function Factorial(n: nat): (r: nat)
    ensures r >= 1
  {
    if n == 0 then 1 else n * Factorial(n - 1)
  }

  lemma FactorialStep(i: nat)
    ensures Factorial(i) * (i + 1) == Factorial(i + 1)
  {
  }

  /** The first loop of `closures()`: in round i the adder is given i and the
      multiplexer i + 1, so the adder prints the triangular numbers and the
      multiplexer prints factorials. */
  method Closures() returns (adds: seq<int>, mults: seq<int>)
    ensures |adds| == |mults| == 10
    ensures forall i :: 0 <= i < 10 ==> adds[i] == Triangle(i + 1) && mults[i] == Factorial(i + 1)
  {
    var adder := new Adder();
    var multiplexer := new Multiplexer();
    adds, mults := [], [];
    var i := 0;
    while i < 10
      invariant 0 <= i <= 10
      invariant adder.Valid() && multiplexer.Valid()
      invariant adder.res == Triangle(i) && multiplexer.res == Factorial(i)
      invariant |adds| == |mults| == i
      invariant forall k :: 0 <= k < i ==> adds[k] == Triangle(k + 1) && mults[k] == Factorial(k + 1)
    {
      var a := adder.Call(i);
      var m := multiplexer.Call(i + 1);
      FactorialStep(i);
      adds, mults := adds + [a], mults + [m];
      i := i + 1;
    }
  }

  /** The second loop of `closures()`, on the two closures of `crazy_closure()`:
      the adder, which starts at 1, prints one more than the triangular
      numbers, and the multiplexer prints factorials as before. */
  method CrazyClosures() returns (adds: seq<int>, mults: seq<int>)
    ensures |adds| == |mults| == 10
    ensures forall i :: 0 <= i < 10 ==> adds[i] == 1 + Triangle(i + 1) && mults[i] == Factorial(i + 1)
  {
    var crazy := new CrazyClosure();
    adds, mults := [], [];
    var i := 0;
    while i < 10
      invariant 0 <= i <= 10
      invariant crazy.Valid()
      invariant crazy.sumMe == 1 + Triangle(i) && crazy.multMe == Factorial(i)
      invariant |adds| == |mults| == i
      invariant forall k :: 0 <= k < i ==> adds[k] == 1 + Triangle(k + 1) && mults[k] == Factorial(k + 1)
    {
      var a := crazy.Adder(i);
      var m := crazy.Multiplexer(i + 1);
      FactorialStep(i);
      adds, mults := adds + [a], mults + [m];
      i := i + 1;
    }
  }

  // ---------------------------------------------------------------- sentenceFactory

  /** The sentence `fmt.Sprintf("%s %s %s", before, mystring, after)`. */
  function Sentence(mystring: string, before: string, after: string): (s: string)
    ensures |s| == |before| + |mystring| + |after| + 2
    ensures s[..|before|] == before && s[|before|] == ' '
    ensures s[|before| + 1..|before| + 1 + |mystring|] == mystring
    ensures s[|before| + 1 + |mystring|] == ' ' && s[|before| + |mystring| + 2..] == after
  {
    before + " " + mystring + " " + after
  }

  /** `sentenceFactory(mystring)`: a function value that wraps `mystring` between
      its two arguments. */
  function SentenceFactory(mystring: string): (f: (string, string) -> string)
    ensures forall before, after :: f(before, after) == Sentence(mystring, before, after)
  {
    (before, after) => Sentence(mystring, before, after)
  }

  /** The sentences `learnFunctionFactory` builds. */
  lemma SummerSentences()
    ensures SentenceFactory("summer")("A beautiful", "day!") == "A beautiful summer day!"
    ensures SentenceFactory("summer")("A lazy", "afternoon!") == "A lazy summer afternoon!"
  {
  }

  // ---------------------------------------------------------------- pass_stuff_to_me

  /** A Go slice of ints: a window of `len` elements starting at `off` in a
      shared backing array. */
  datatype Slice = Slice(backing: array<int>, off: nat, len: nat)
  {
    ghost predicate Valid()
      reads backing
    {
      off + len <= backing.Length
    }

    /** `s[lo:]`: the same backing array, starting `lo` elements later. */
    function From(lo: nat): (t: Slice)
      requires lo <= len
      ensures t.backing == backing && t.off == off + lo && t.len == len - lo
    {
      Slice(backing, off + lo, len - lo)
    }
  }

  /** `s[k] = v`: writes through to the backing array at `off + k`. */
  method SetAt(s: Slice, k: nat, v: int)
    requires s.Valid() && k < s.len
    modifies s.backing
    ensures s.backing[..] == old(s.backing[..])[s.off + k := v]
  {
    s.backing[s.off + k] := v;
  }

  /** `pass_stuff_to_me(sli1, arr)`: `arr` is copied into the callee, so `sli2`,
      `b` and `c` share that local copy while `a` shares the caller's `sli1`.
      The write through `a` lands in `sli1[1]`; the writes through `b` and `c`
      both land in the local copy. Returned here is the local copy's final state. */
  method PassStuffToMe(sli1: array<int>, arr: seq<int>) returns (local: seq<int>)
    requires sli1.Length >= 2 && |arr| == 3
    modifies sli1
    ensures sli1[..] == old(sli1[..])[1 := 999]
    ensures local == [arr[0], -1, -2]
  {
    var arrCopy := new int[3](k requires 0 <= k < 3 => arr[k]);
    var sli2 := Slice(arrCopy, 0, 3);
    var a := Slice(sli1, 0, sli1.Length).From(1);
    var b := sli2.From(1);
    var c := Slice(arrCopy, 0, 3).From(1);
    SetAt(a, 0, 999);
    SetAt(b, 0, -1);
    SetAt(c, 1, -2);
    local := arrCopy[..];
  }

  /** The call `pass_stuff_to_me([]int{1,2,3}, [3]int{1,2,3})`: the caller's
      slice literal ends as [1, 999, 3], the callee's copy of the array as
      [1, -1, -2], and the caller's array value is untouched. */
  method PassStuffDemo() returns (sli1After: seq<int>, localAfter: seq<int>, arrAfter: seq<int>)
    ensures sli1After == [1, 999, 3] && localAfter == [1, -1, -2] && arrAfter == [1, 2, 3]
  {
    var sli1 := new int[3];
    sli1[0], sli1[1], sli1[2] := 1, 2, 3;
    var arr := [1, 2, 3];
    localAfter := PassStuffToMe(sli1, arr);
    sli1After := sli1[..];
    arrAfter := arr;
  }

  // ---------------------------------------------------------------- slices_2 grow step

  /** A Go byte slice: its first `len` bytes of `backing` are its contents and
      `backing.Length` is its capacity. */
  datatype ByteSlice = ByteSlice(backing: array<byte>, len: nat)

  /** `make([]byte, len(s), (cap(s)+1)*2)` followed by `copy(new, s)`: a fresh,
      zeroed backing array of the larger capacity whose first `len` bytes are
      copied from `s`. */
  method Grow(s: ByteSlice) returns (t: ByteSlice)
    requires s.len <= s.backing.Length
    ensures fresh(t.backing)
    ensures t.len == s.len && t.backing.Length == (s.backing.Length + 1) * 2
    ensures t.backing[..t.len] == s.backing[..s.len]
    ensures forall k :: t.len <= k < t.backing.Length ==> t.backing[k] == 0
  {
    var grown := new byte[(s.backing.Length + 1) * 2](_ => 0);
    var k := 0;
    while k < s.len
      invariant 0 <= k <= s.len
      invariant grown[..k] == s.backing[..k]
      invariant forall m :: k <= m < grown.Length ==> grown[m] == 0
    {
      grown[k] := s.backing[k];
      k := k + 1;
    }
    t := ByteSlice(grown, s.len);
  }

  /** The demo: `make([]byte, 5)` has capacity 5, and after one grow step the
      slice still has length 5 and five zero bytes, with capacity 12. */
  method GrowFiveBytes() returns (len: nat, cap: nat, contents: seq<byte>)
    ensures len == 5 && cap == 12 && contents == [0, 0, 0, 0, 0]
  {
    var backing := new byte[5](_ => 0);
    var old_slice := ByteSlice(backing, 5);
    var grown := Grow(old_slice);
    len, cap, contents := grown.len, grown.backing.Length, grown.backing[..grown.len];
    assert old_slice.backing[..5] == [0, 0, 0, 0, 0];
  }
}
