/** `WordCount` of bootstrap/cool_whats_more/count_words.go, with the
    `strings.Fields` it relies on written out. */
module CountWords {

  /** The characters Go's unicode.IsSpace accepts, which strings.Fields splits on. */
  predicate IsSpace(c: char) {
    var x := c as int;
    (0x09 <= x <= 0x0D) || x == 0x20 || x == 0x85 || x == 0xA0 || x == 0x1680
    || (0x2000 <= x <= 0x200A) || x == 0x2028 || x == 0x2029 || x == 0x202F
    || x == 0x205F || x == 0x3000
  }

  predicate NoSpace(w: string) {
    forall i :: 0 <= i < |w| ==> !IsSpace(w[i])
  }

  /** The longest prefix of `s` without a space. */
  function Word(s: string): (w: string)
    ensures |w| <= |s| && w == s[..|w|] && NoSpace(w)
    ensures s != [] && !IsSpace(s[0]) ==> |w| >= 1
    ensures |w| < |s| ==> IsSpace(s[|w|])
  {
    if s == [] || IsSpace(s[0]) then [] else [s[0]] + Word(s[1..])
  }

  /** strings.Fields: the maximal runs of non-space characters, in order. */
  function Fields(s: string): (fs: seq<string>)
    ensures forall i :: 0 <= i < |fs| ==> |fs[i]| > 0 && NoSpace(fs[i])
    decreases |s|
  {
    if s == [] then []
    else if IsSpace(s[0]) then Fields(s[1..])
    else var w := Word(s); [w] + Fields(s[|w|..])
  }

  function Concat(fs: seq<string>): string {
    if fs == [] then [] else fs[0] + Concat(fs[1..])
  }

  /** The characters of `s` that are not spaces, in order. */
  function NonSpace(s: string): string {
    if s == [] then [] else (if IsSpace(s[0]) then [] else [s[0]]) + NonSpace(s[1..])
  }

  lemma {:induction false} NonSpaceAppend(a: string, b: string)
    ensures NonSpace(a + b) == NonSpace(a) + NonSpace(b)
    decreases |a|
  {
    if a != [] {
      assert (a + b)[1..] == a[1..] + b;
      NonSpaceAppend(a[1..], b);
    } else {
      assert a + b == b;
    }
  }

  lemma {:induction false} NonSpaceOfWord(w: string)
    requires NoSpace(w)
    ensures NonSpace(w) == w
    decreases |w|
  {
    if w != [] {
      NonSpaceOfWord(w[1..]);
      assert [w[0]] + w[1..] == w;
    }
  }

  /** The fields hold exactly the non-space characters of `s`, in order: nothing
      is lost, nothing is added. */
  lemma {:induction false} FieldsKeepText(s: string)
    ensures Concat(Fields(s)) == NonSpace(s)
    decreases |s|
  {
    if s != [] {
      if IsSpace(s[0]) {
        FieldsKeepText(s[1..]);
      } else {
        var w := Word(s);
        var rest := s[|w|..];
        FieldsKeepText(rest);
        assert s == w + rest;
        NonSpaceAppend(w, rest);
        NonSpaceOfWord(w);
        assert ([w] + Fields(rest))[1..] == Fields(rest);
      }
    }
  }

  /** A string has no fields exactly when it is empty or all spaces. */
  lemma {:induction false} FieldsEmpty(s: string)
    ensures Fields(s) == [] <==> forall i :: 0 <= i < |s| ==> IsSpace(s[i])
    decreases |s|
  {
    if s != [] {
      FieldsEmpty(s[1..]);
      assert forall i :: 1 <= i < |s| ==> s[i] == s[1..][i - 1];
    }
  }

  /** A run without white space is one word. */
  lemma {:induction false} WordOfNoSpace(w: string)
    requires NoSpace(w)
    ensures Word(w) == w
    decreases |w|
  {
    if w != [] {
      WordOfNoSpace(w[1..]);
      assert [w[0]] + w[1..] == w;
    }
  }

  /** A non-empty text without white space is a single field: fields are never
      cut in the middle of a run. */
  lemma FieldsOfNoSpace(w: string)
    requires NoSpace(w) && w != []
    ensures Fields(w) == [w]
  {
    WordOfNoSpace(w);
    assert w[|w|..] == [];
  }

  /** The word at the start of `a` ends, at the latest, at a space after it. */
  lemma {:induction false} WordBeforeSpace(a: string, c: char, b: string)
    requires IsSpace(c)
    ensures Word(a + [c] + b) == Word(a)
    decreases |a|
  {
    if a != [] {
      assert (a + [c] + b)[0] == a[0];
      assert (a + [c] + b)[1..] == a[1..] + [c] + b;
      WordBeforeSpace(a[1..], c, b);
    }
  }

  /** Fields split at every white space character: the fields of a text cut at
      a space are the fields of the part before it followed by those of the part
      after it. */
  lemma {:induction false} FieldsSplitAtSpace(a: string, c: char, b: string)
    requires IsSpace(c)
    ensures Fields(a + [c] + b) == Fields(a) + Fields(b)
    decreases |a|
  {
    var s := a + [c] + b;
    if a == [] {
      assert s == [c] + b && s[1..] == b;
    } else if IsSpace(a[0]) {
      assert s[0] == a[0] && s[1..] == a[1..] + [c] + b;
      FieldsSplitAtSpace(a[1..], c, b);
    } else {
      var w := Word(a);
      WordBeforeSpace(a, c, b);
      assert s[0] == a[0];
      assert s[|w|..] == a[|w|..] + [c] + b;
      FieldsSplitAtSpace(a[|w|..], c, b);
      assert Fields(s) == [w] + Fields(a[|w|..] + [c] + b);
    }
  }

  /** The sum of the values of a map. */
  ghost function SumValues(m: map<string, int>): int
    decreases |m|
  {
    if m == map[] then 0
    else
      var k :| k in m;
      m[k] + SumValues(m - {k})
  }

  /** SumValues does not depend on which key it takes out first. */
  lemma {:induction false} SumValuesRemove(m: map<string, int>, k: string)
    requires k in m
    ensures SumValues(m) == m[k] + SumValues(m - {k})
    decreases |m|
  {
    var j :| j in m && SumValues(m) == m[j] + SumValues(m - {j});
    if j != k {
      SumValuesRemove(m - {j}, k);
      SumValuesRemove(m - {k}, j);
      assert m - {j} - {k} == m - {k} - {j};
    }
  }

  lemma SumValuesUpdate(m: map<string, int>, k: string, v: int)
    ensures SumValues(m[k := v]) == SumValues(m) - (if k in m then m[k] else 0) + v
  {
    SumValuesRemove(m[k := v], k);
    if k in m {
      SumValuesRemove(m, k);
      assert m[k := v] - {k} == m - {k};
    } else {
      assert m[k := v] - {k} == m;
    }
  }

  /** `dct` counts `words`: its keys are the distinct words, each mapped to
      its number of occurrences, and the counts add up to the number of words. */
  ghost predicate Counts(dct: map<string, int>, words: seq<string>)
  {
    (forall w :: w in dct <==> w in words) &&
    (forall w :: w in dct ==> dct[w] == multiset(words)[w]) &&
    SumValues(dct) == |words|
  }

  /** One iteration of the range loop keeps the counts right. */
  lemma CountStep(dct: map<string, int>, words: seq<string>, val: string)
    requires Counts(dct, words)
    ensures Counts(dct[val := if val in dct then dct[val] + 1 else 1], words + [val])
  {
    var count := if val in dct then dct[val] + 1 else 1;
    SumValuesUpdate(dct, val, count);
    assert forall w :: multiset(words + [val])[w] == multiset(words)[w] + (if w == val then 1 else 0);
  }

  /** `WordCount`: each distinct field of `s` mapped to its number of
      occurrences; a blank string counts no words. */
  method WordCount(s: string) returns (dct: map<string, int>)
    ensures forall w :: w in dct <==> w in Fields(s)
    ensures forall w :: w in dct ==> dct[w] == multiset(Fields(s))[w] && dct[w] >= 1
    ensures SumValues(dct) == |Fields(s)|
    ensures (forall i :: 0 <= i < |s| ==> IsSpace(s[i])) ==> dct == map[]
  {
    var strs := Fields(s);
    dct := map[];
    var i := 0;
    while i < |strs|
      invariant 0 <= i <= |strs|
      invariant Counts(dct, strs[..i])
    {
      var val := strs[i];
      assert strs[..i + 1] == strs[..i] + [val];
      CountStep(dct, strs[..i], val);
      var ok := val in dct;
      if ok {
        dct := dct[val := dct[val] + 1];
      } else {
        dct := dct[val := 1];
      }
      i := i + 1;
    }
    assert strs[..i] == strs;
    FieldsEmpty(s);
    if strs == [] {
      assert dct.Keys == {};
    }
  }
}
