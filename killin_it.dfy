/** The readers and `String()` methods of bootstrap/killin_it/killin_it.go. */
module KillinIt {
  import opened Wrappers
  import opened GoInt
  import opened Fmt

  // ---------------------------------------------------------------------------
  // rot13Reader

  /** The byte rule of `rot13Reader.Read` as written: lower-case letters rotate by
      13, upper-case letters rotate only when below 'Z', everything else is kept. */
  function Rot13Byte(c: byte): (r: byte)
    ensures 'a' as int <= c <= 'z' as int ==> 'a' as int <= r <= 'z' as int && (r == c + 13 || r == c - 13)
    ensures 'A' as int <= c < 'Z' as int ==> 'A' as int <= r <= 'Z' as int && (r == c + 13 || r == c - 13)
    ensures !('a' as int <= c <= 'z' as int) && !('A' as int <= c < 'Z' as int) ==> r == c
  {
    if 'a' as int <= c <= 'z' as int then (c - 'a' as int + 13) % 26 + 'a' as int
    else if 'A' as int <= c < 'Z' as int then (c - 'A' as int + 13) % 26 + 'A' as int
    else c
  }

  /** On lower-case letters the rule is its own inverse. */
  lemma Rot13LowerInvolution(c: byte)
    requires 'a' as int <= c <= 'z' as int
    ensures 'a' as int <= Rot13Byte(c) <= 'z' as int
    ensures Rot13Byte(Rot13Byte(c)) == c
  {
  }

  /** Because of the `< 'Z'` bound, 'M' and 'Z' both come out as 'Z', so the rule
      does not undo itself on upper-case text. */
  lemma Rot13ByteNotInvolutive()
    ensures Rot13Byte('M' as int) == 'Z' as int && Rot13Byte('Z' as int) == 'Z' as int
    ensures Rot13Byte(Rot13Byte('M' as int)) != 'M' as int
  {
  }

  /** The rule with the bound the cipher needs, `<= 'Z'`. */
  function Rot13ByteFixed(c: byte): (r: byte)
    ensures ('a' as int <= c <= 'z' as int) == ('a' as int <= r <= 'z' as int)
    ensures ('A' as int <= c <= 'Z' as int) == ('A' as int <= r <= 'Z' as int)
  {
    if 'a' as int <= c <= 'z' as int then (c - 'a' as int + 13) % 26 + 'a' as int
    else if 'A' as int <= c <= 'Z' as int then (c - 'A' as int + 13) % 26 + 'A' as int
    else c
  }

  /** With the corrected bound, deciphering twice restores every byte, and the
      rule agrees with the original everywhere except at 'Z'. */
  lemma Rot13FixedInvolution(c: byte)
    ensures Rot13ByteFixed(Rot13ByteFixed(c)) == c
    ensures c != 'Z' as int ==> Rot13ByteFixed(c) == Rot13Byte(c)
    ensures Rot13ByteFixed('Z' as int) == 'M' as int
  {
    if 'a' as int <= c <= 'z' as int {
      RotateTwice(c - 'a' as int);
    } else if 'A' as int <= c <= 'Z' as int {
      RotateTwice(c - 'A' as int);
    }
  }

  /** Rotating a letter index by 13 twice comes back to it. */
  lemma RotateTwice(d: int)
    requires 0 <= d < 26
    ensures 0 <= (d + 13) % 26 < 26 && ((d + 13) % 26 + 13) % 26 == d
  {
    if d < 13 {
      assert (d + 13) % 26 == d + 13;
    } else {
      assert (d + 13) % 26 == d - 13;
    }
  }

  /** What the wrapped reader's `Read` did: the count and error it returned and the
      buffer contents it left behind (the io.Reader contract: 0 <= n <= len(p)). */
  datatype InnerRead = InnerRead(n: int, err: Option<string>, buffer: seq<byte>)

  /** `rot13Reader.Read`: the wrapped read, then the byte rule applied in place to
      the WHOLE buffer (not only the first n bytes); the wrapped (n, err) is
      returned unchanged. */
  method Rot13Read(charArray: array<byte>, inner: InnerRead) returns (n: int, err: Option<string>)
    requires 0 <= inner.n <= charArray.Length && |inner.buffer| == charArray.Length
    modifies charArray
    ensures n == inner.n && err == inner.err
    ensures forall i :: 0 <= i < charArray.Length ==> charArray[i] == Rot13Byte(inner.buffer[i])
    ensures forall i :: 0 <= i < charArray.Length && inner.buffer[i] != 'Z' as int ==>
              charArray[i] == Rot13ByteFixed(inner.buffer[i])
  {
    // the wrapped reader's call, given by its outcome
    var k := 0;
    while k < charArray.Length
      invariant 0 <= k <= charArray.Length
      invariant charArray[..k] == inner.buffer[..k]
    {
      charArray[k] := inner.buffer[k];
      k := k + 1;
    }
    n, err := inner.n, inner.err;
    var i := 0;
    while i < charArray.Length
      invariant 0 <= i <= charArray.Length
      invariant forall j :: 0 <= j < i ==> charArray[j] == Rot13Byte(inner.buffer[j])
      invariant forall j :: i <= j < charArray.Length ==> charArray[j] == inner.buffer[j]
    {
      var c := charArray[i];
      if 'a' as int <= c <= 'z' as int {
        charArray[i] := (c - 'a' as int + 13) % 26 + 'a' as int;
      } else if 'A' as int <= c < 'Z' as int {
        charArray[i] := (c - 'A' as int + 13) % 26 + 'A' as int;
      }
      i := i + 1;
    }
    forall j | 0 <= j < charArray.Length && inner.buffer[j] != 'Z' as int
      ensures charArray[j] == Rot13ByteFixed(inner.buffer[j])
    {
      Rot13FixedInvolution(inner.buffer[j]);
    }
  }

  // ---------------------------------------------------------------------------
  // MyReader

  /** `MyReader.Read`: reads nothing and reports no error, whatever the buffer. */
  method MyReaderRead(b: array<byte>) returns (n: int, err: Option<string>)
    ensures n == 0 && err == None
    ensures b[..] == old(b[..])
  {
    n, err := 0, None;
  }

  // ---------------------------------------------------------------------------
  // IPAddr.String and pair.String

  type IPAddr = s: seq<byte> | |s| == 4 witness [0, 0, 0, 0]

  /** `IPAddr.String`: the four bytes in decimal joined by dots, in double quotes. */
  function IPAddrString(addr: IPAddr): (s: string)
    ensures |s| >= 2 && s[0] == '"' && s[|s| - 1] == '"'
  {
    "\"" + Join([NatToDec(addr[0]), NatToDec(addr[1]), NatToDec(addr[2]), NatToDec(addr[3])], '.') + "\""
  }

  /** The two hosts printed by `stringers`. */
  lemma HostStrings()
    ensures IPAddrString([127, 0, 0, 1]) == "\"127.0.0.1\""
    ensures IPAddrString([8, 8, 8, 8]) == "\"8.8.8.8\""
  {
    assert NatToDec(1) == "1" && NatToDec(0) == "0" && NatToDec(8) == "8";
    assert NatToDec(12) == "12";
    assert NatToDec(127) == "127";
    assert Join(["0", "1"], '.') == "0.1";
    assert Join(["0", "0", "1"], '.') == "0.0.1";
    assert Join(["127", "0", "0", "1"], '.') == "127.0.0.1";
    assert Join(["8", "8"], '.') == "8.8";
    assert Join(["8", "8", "8"], '.') == "8.8.8";
    assert Join(["8", "8", "8", "8"], '.') == "8.8.8.8";
  }

  predicate IsByteText(p: string) {
    |p| >= 1 && AllDigits(p) && DecToNat(p) < 256
  }

  /** Reads a quoted dotted quad back. */
  function ParseIPAddr(s: string): Option<IPAddr>
  {
    if |s| < 2 || s[0] != '"' || s[|s| - 1] != '"' then None
    else
      var parts := Split(s[1..|s| - 1], '.');
      if |parts| == 4 && IsByteText(parts[0]) && IsByteText(parts[1])
         && IsByteText(parts[2]) && IsByteText(parts[3])
      then Some([DecToNat(parts[0]), DecToNat(parts[1]), DecToNat(parts[2]), DecToNat(parts[3])])
      else None
  }

  /** The printed address determines the address. */
  lemma IPAddrRoundTrip(addr: IPAddr)
    ensures ParseIPAddr(IPAddrString(addr)) == Some(addr)
  {
    var d0, d1, d2, d3 := NatToDec(addr[0]), NatToDec(addr[1]), NatToDec(addr[2]), NatToDec(addr[3]);
    var s := IPAddrString(addr);
    var inner := Join([d0, d1, d2, d3], '.');
    assert s[1..|s| - 1] == inner by {
      assert s == "\"" + inner + "\"";
    }
    DigitsHaveNoSep(d0, '.');
    DigitsHaveNoSep(d1, '.');
    DigitsHaveNoSep(d2, '.');
    DigitsHaveNoSep(d3, '.');
    SplitJoin([d0, d1, d2, d3], '.');
    var parts := Split(inner, '.');
    NatDecRoundTrip(addr[0]);
    NatDecRoundTrip(addr[1]);
    NatDecRoundTrip(addr[2]);
    NatDecRoundTrip(addr[3]);
    assert IsByteText(parts[0]) && IsByteText(parts[1]) && IsByteText(parts[2]) && IsByteText(parts[3]);
    assert [DecToNat(parts[0]), DecToNat(parts[1]), DecToNat(parts[2]), DecToNat(parts[3])] == addr;
  }

  /** `pair.String`: "(x, y)" with both coordinates in decimal. */
  function PairString(x: int, y: int): (s: string)
    ensures |s| >= 6 && s[0] == '(' && s[|s| - 1] == ')'
  {
    "(" + IntToDec(x) + ", " + IntToDec(y) + ")"
  }

  predicate IsIntText(p: string) {
    |p| >= 1 && if p[0] == '-' then AllDigits(p[1..]) else AllDigits(p)
  }

  /** Reads "(x, y)" back. */
  function ParsePair(s: string): Option<(int, int)>
  {
    if |s| < 2 || s[0] != '(' || s[|s| - 1] != ')' then None
    else
      var parts := Split(s[1..|s| - 1], ',');
      if |parts| == 2 && |parts[1]| >= 1 && parts[1][0] == ' '
         && IsIntText(parts[0]) && IsIntText(parts[1][1..])
      then Some((DecToInt(parts[0]), DecToInt(parts[1][1..])))
      else None
  }

  lemma IntTextHasNoComma(x: int)
    ensures ',' !in IntToDec(x)
  {
    var s := IntToDec(x);
    if x < 0 {
      DigitsHaveNoSep(s[1..], ',');
      assert s == [s[0]] + s[1..];
    } else {
      DigitsHaveNoSep(s, ',');
    }
  }

  /** The inside of a printed pair splits at its one comma. */
  lemma PairParts(x: int, y: int)
    ensures var s := PairString(x, y);
      Split(s[1..|s| - 1], ',') == [IntToDec(x), " " + IntToDec(y)]
  {
    var dx, dy := IntToDec(x), IntToDec(y);
    var s := PairString(x, y);
    var inner := dx + "," + (" " + dy);
    assert s == "(" + inner + ")";
    assert s[1..|s| - 1] == inner;
    IntTextHasNoComma(x);
    IntTextHasNoComma(y);
    assert ',' !in " " + dy;
    SplitNoSep(" " + dy, ',');
    SplitAtSep(dx, ',', " " + dy);
  }

  /** The printed pair determines the pair. */
  lemma PairRoundTrip(x: int, y: int)
    ensures ParsePair(PairString(x, y)) == Some((x, y))
  {
    var dx, dy := IntToDec(x), IntToDec(y);
    var s := PairString(x, y);
    PairParts(x, y);
    var parts := Split(s[1..|s| - 1], ',');
    assert parts == [dx, " " + dy];
    assert (" " + dy)[1..] == dy;
    IntDecRoundTrip(x);
    IntDecRoundTrip(y);
  }
}
