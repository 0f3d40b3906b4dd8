/** `Pic` from pic_generator.go: a `dy` by `dx` grid of bytes whose entry in
    row i, column j is `uint8(i*j)`. */
module PicGenerator {
  import opened GoInt

  /** The shade of pixel (i, j): the product truncated to a byte, as the
      conversion `uint8(i*j)` does. */
  function Shade(i: nat, j: nat): (r: byte)
    ensures i * j < 256 ==> r == i * j
  {
    (i * j) % 256
  }

  /** The grid is filled row by row; each row is a freshly allocated array, so
      no two rows alias. The rows of `make([][]uint8, dy)` start out nil, which
      is modelled as one shared empty array that every row replaces. */
  method Pic(dx: nat, dy: nat) returns (res: array<array<byte>>)
    ensures fresh(res) && res.Length == dy
    ensures forall i :: 0 <= i < dy ==> fresh(res[i]) && res[i].Length == dx
    ensures forall i, k :: 0 <= i < k < dy ==> res[i] != res[k]
    ensures forall i, j :: 0 <= i < dy && 0 <= j < dx ==> res[i][j] == Shade(i, j)
  {
    var empty := new byte[0];
    res := new array<byte>[dy](_ => empty);
    var i := 0;
    while i < dy
      invariant 0 <= i <= dy
      invariant forall k :: 0 <= k < i ==> fresh(res[k]) && res[k] != empty && res[k].Length == dx
      invariant forall k, m :: 0 <= k < m < i ==> res[k] != res[m]
      invariant forall k, j :: 0 <= k < i && 0 <= j < dx ==> res[k][j] == Shade(k, j)
    {
      var temp := new byte[dx];
      res[i] := temp;
      var j := 0;
      while j < dx
        modifies temp
        invariant 0 <= j <= dx
        invariant forall m :: 0 <= m < j ==> temp[m] == Shade(i, m)
      {
        temp[j] := Shade(i, j);
        j := j + 1;
      }
      i := i + 1;
    }
  }

  /** Row 0 and column 0 are black, and the picture is symmetric where both
      pixels exist. */
  lemma ShadeEdgesAndSymmetry(i: nat, j: nat)
    ensures Shade(0, j) == 0 && Shade(i, 0) == 0
    ensures Shade(i, j) == Shade(j, i)
  {
  }

  /** Once i*j reaches 256 the shade wraps around: row 16 starts over at
      column 16. */
  lemma ShadeWraps()
    ensures Shade(16, 15) == 240 && Shade(16, 16) == 0 && Shade(16, 17) == 16
  {
  }
}
