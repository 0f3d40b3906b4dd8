/** The small functions and constants of init.go. */
module InitBasics {
  import opened GoInt

  /** `add(x int, y int) int` */
  function Add(x: int, y: int): int
  {
    x + y
  }

  /** `same_add_with_shortened_def(x, y int) int`: the shortened parameter list
      declares the same function. */
  function SameAddWithShortenedDef(x: int, y: int): int
  {
    x + y
  }

  /** Both spellings of the declaration compute the same sum, and `main`
      prints 3 for (1, 2). */
  lemma AddsAgree(x: int, y: int)
    ensures Add(x, y) == SameAddWithShortenedDef(x, y) == x + y
    ensures Add(1, 2) == 3 && SameAddWithShortenedDef(1, 2) == 3
  {
  }

  /** `swap_strings(x, y)` returns its arguments in the other order. */
  function SwapStrings(x: string, y: string): (r: (string, string))
    ensures r.0 == y && r.1 == x
  {
    (y, x)
  }

  /** Swapping twice gives back the original pair, and `main`'s call prints
      "First Second". */
  lemma SwapTwice(x: string, y: string)
    ensures var (a, b) := SwapStrings(x, y); SwapStrings(a, b) == (x, y)
    ensures SwapStrings("Second", "First") == ("First", "Second")
  {
  }

  /** `swap_and_shorten_def(x, y, a, b)`: the sum of the ints and the two
      strings swapped. */
  function SwapAndShortenDef(x: int, y: int, a: string, b: string): (r: (int, string, string))
    ensures r.0 == Add(x, y) && (r.1, r.2) == SwapStrings(a, b)
  {
    (x + y, b, a)
  }

  /** `main`'s call prints "30 First Second". */
  lemma SwapAndShortenDemo()
    ensures SwapAndShortenDef(10, 20, "Second", "First") == (30, "First", "Second")
  {
  }

  /** `split(sum)`: x is four ninths of `sum`, truncated toward zero as Go's
      integer division does, and y is the rest. */
  function Split(sum: int): (r: (int, int))
    ensures r.0 + r.1 == sum
    ensures sum >= 0 ==> 9 * r.0 <= 4 * sum < 9 * r.0 + 9
    ensures sum < 0 ==> 9 * r.0 - 9 < 4 * sum <= 9 * r.0
  {
    var x := GoDiv(sum * 4, 9);
    (x, sum - x)
  }

  /** `main` prints `split(20)` as "8 12"; a negative sum rounds toward zero. */
  lemma SplitValues()
    ensures Split(20) == (8, 12)
    ensures Split(-20) == (-8, -12)
  {
  }

  /** `Big = 1 << 100` */
  const Big: nat := ShiftLeft(1, 100)

  /** `Small = Big >> 99` */
  const Small: int := ShiftRight(Big, 99)

  /** `MaxInt_2 = 1<<63 - 1` */
  const MaxInt2: int := ShiftLeft(1, 63) - 1

  /** Shifting 2^(k+1) right by k places leaves 2. */
  lemma ShiftBack(k: nat)
    ensures ShiftRight(Pow2(k + 1), k) == 2
  {
    var p := Pow2(k);
    var r := ShiftRight(Pow2(k + 1), k);
    ShiftRightBounds(Pow2(k + 1), k);
    assert Pow2(k + 1) == 2 * p;
    assert r * p <= 2 * p < (r + 1) * p;
  }

  /** `Big` is 2^100 and `Small` is 2, and `MaxInt_2` is the largest int64. */
  lemma ConstantValues()
    ensures Big == Pow2(100) && Small == 2
    ensures MaxInt2 == MaxInt64
  {
    assert Big == Pow2(99 + 1);
    ShiftBack(99);
    assert Pow2(63) == 0x8000_0000_0000_0000 by {
      Pow2Literal();
    }
  }

  lemma Pow2Literal()
    ensures Pow2(63) == 0x8000_0000_0000_0000
  {
    assert Pow2(7) == 0x80 && Pow2(8) == 0x100;
    Pow2Add(8, 8);
    Pow2Add(16, 16);
    Pow2Add(32, 16);
    Pow2Add(48, 8);
    Pow2Add(56, 7);
  }
}
