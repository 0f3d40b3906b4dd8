/** bootstrap/go_rulez/concurrent_binary_tree_checker.go: the in-order walk of a
    binary tree sent over a channel, and `Same`, which gathers both trees'
    walks and compares them element by element. */
module TreeChecker {

  /** The tour's `tree.Tree`: nil, or a node with a value and two subtrees. */
  datatype Tree = Nil | Node(left: Tree, value: int, right: Tree)

  /** The values of a tree, with multiplicity. */
  function Elements(t: Tree): multiset<int>
  {
    match t
    case Nil => multiset{}
    case Node(l, v, r) => Elements(l) + multiset{v} + Elements(r)
  }

  function Size(t: Tree): nat
  {
    match t
    case Nil => 0
    case Node(l, _, r) => Size(l) + 1 + Size(r)
  }

  /** The order in which `WalkInOrder` sends the values: the left subtree,
      the node, the right subtree; nothing for nil. */
  function InOrder(t: Tree): seq<int>
  {
    match t
    case Nil => []
    case Node(l, v, r) => InOrder(l) + [v] + InOrder(r)
  }

  /** The walk visits every node once: its length is the tree's size and it
      holds exactly the tree's values. */
  lemma {:induction false} InOrderVisitsAll(t: Tree)
    ensures |InOrder(t)| == Size(t)
    ensures multiset(InOrder(t)) == Elements(t)
  {
    match t
    case Nil =>
    case Node(l, v, r) =>
      InOrderVisitsAll(l);
      InOrderVisitsAll(r);
  }

  /** The shape `tree.New` builds by insertion: smaller values go left,
      the rest (equal ones included) go right. */
  ghost predicate IsSearchTree(t: Tree)
  {
    match t
    case Nil => true
    case Node(l, v, r) =>
      IsSearchTree(l) && IsSearchTree(r) &&
      (forall x | x in Elements(l) :: x < v) &&
      (forall x | x in Elements(r) :: v <= x)
  }

  predicate Sorted(s: seq<int>)
  {
    forall i, j :: 0 <= i < j < |s| ==> s[i] <= s[j]
  }

  /** Two sorted runs with a pivot between them form a sorted sequence. */
  lemma SortedAroundPivot(a: seq<int>, v: int, b: seq<int>)
    requires Sorted(a) && Sorted(b)
    requires forall k :: 0 <= k < |a| ==> a[k] < v
    requires forall k :: 0 <= k < |b| ==> v <= b[k]
    ensures Sorted(a + [v] + b)
  {
    var s := a + [v] + b;
    forall i, j | 0 <= i < j < |s| ensures s[i] <= s[j] {
      if j < |a| {
        assert s[i] == a[i] && s[j] == a[j];
      } else if i > |a| {
        assert s[i] == b[i - |a| - 1] && s[j] == b[j - |a| - 1];
      } else if i == |a| {
        assert s[j] == b[j - |a| - 1];
      } else if j == |a| {
        assert s[i] == a[i];
      } else {
        assert s[i] == a[i] && s[j] == b[j - |a| - 1];
      }
    }
  }

  /** The in-order walk of a search tree is sorted. */
  lemma {:induction false} SearchTreeWalkSorted(t: Tree)
    requires IsSearchTree(t)
    ensures Sorted(InOrder(t))
  {
    match t
    case Nil =>
    case Node(l, v, r) =>
      SearchTreeWalkSorted(l);
      SearchTreeWalkSorted(r);
      InOrderVisitsAll(l);
      InOrderVisitsAll(r);
      var a, b := InOrder(l), InOrder(r);
      forall k | 0 <= k < |a| ensures a[k] < v {
        assert a[k] in multiset(a);
      }
      forall k | 0 <= k < |b| ensures v <= b[k] {
        assert b[k] in multiset(b);
      }
      SortedAroundPivot(a, v, b);
  }

  // ---------------------------------------------------------------- channels

  /** An unbuffered `chan int`, seen through its sequential outcome: what has
      been sent on it, in order, and whether it has been closed. */
  class Chan {
    var sent: seq<int>
    var closed: bool

    /** `make(chan int)` */
    constructor ()
      ensures sent == [] && !closed
    {
      sent, closed := [], false;
    }

    /** `ch <- v`; sending on a closed channel panics in Go. */
    method Send(v: int)
      requires !closed
      modifies this
      ensures sent == old(sent) + [v] && !closed
    {
      sent := sent + [v];
    }

    /** `close(ch)` */
    method Close()
      modifies this
      ensures sent == old(sent) && closed
    {
      closed := true;
    }
  }

  /** `WalkInOrder(t, ch)`: the recursion sends exactly the in-order values. */
  method WalkInOrder(t: Tree, ch: Chan)
    requires !ch.closed
    modifies ch
    ensures ch.sent == old(ch.sent) + InOrder(t) && !ch.closed
  {
    if t.Node? {
      ghost var before := ch.sent;
      WalkInOrder(t.left, ch);
      ch.Send(t.value);
      WalkInOrder(t.right, ch);
      assert ch.sent == before + (InOrder(t.left) + [t.value] + InOrder(t.right));
    }
  }

  /** `Walk(t, ch)`: the in-order values, then the channel is closed. */
  method Walk(t: Tree, ch: Chan)
    requires !ch.closed
    modifies ch
    ensures ch.sent == old(ch.sent) + InOrder(t) && ch.closed
  {
    WalkInOrder(t, ch);
    ch.Close();
  }

  // ---------------------------------------------------------------- Same

  /** How a call of `Same` ends: with a result, or with Go's index-out-of-range
      panic. */
  datatype Outcome = Returned(same: bool) | Panicked

  /** `make([]int, 10)` */
  function Zeros(): (z: seq<int>)
    ensures |z| == 10 && forall i :: 0 <= i < 10 ==> z[i] == 0
  {
    [0, 0, 0, 0, 0, 0, 0, 0, 0, 0]
  }

  predicate IsPrefix(a: seq<int>, b: seq<int>)
  {
    |a| <= |b| && a == b[..|a|]
  }

  /** The `select` loop of `Same`: both walks are received into lists that
      start with ten zeros. `schedule(k)` says which channel the k-th `select`
      takes when both are still open; a closed channel is set to nil and never
      taken again. Whatever the schedule, each list ends as ten zeros followed
      by that channel's values in order. */
  method Gather(w1: seq<int>, w2: seq<int>, schedule: nat -> bool)
    returns (contents1: seq<int>, contents2: seq<int>)
    ensures contents1 == Zeros() + w1 && contents2 == Zeros() + w2
  {
    contents1, contents2 := Zeros(), Zeros();
    var open1, open2 := true, true;
    var p1, p2 := 0, 0;
    var step: nat := 0;
    while open1 || open2
      invariant 0 <= p1 <= |w1| && 0 <= p2 <= |w2|
      invariant contents1 == Zeros() + w1[..p1] && contents2 == Zeros() + w2[..p2]
      invariant !open1 ==> p1 == |w1|
      invariant !open2 ==> p2 == |w2|
      decreases (|w1| - p1) + (|w2| - p2) + (if open1 then 1 else 0) + (if open2 then 1 else 0)
    {
      var takeFirst := if open1 && open2 then schedule(step) else open1;
      if takeFirst {
        if p1 == |w1| {
          open1 := false;
        } else {
          assert w1[..p1 + 1] == w1[..p1] + [w1[p1]];
          contents1 := contents1 + [w1[p1]];
          p1 := p1 + 1;
        }
      } else {
        if p2 == |w2| {
          open2 := false;
        } else {
          assert w2[..p2 + 1] == w2[..p2] + [w2[p2]];
          contents2 := contents2 + [w2[p2]];
          p2 := p2 + 1;
        }
      }
      step := step + 1;
    }
    assert w1[..p1] == w1 && w2[..p2] == w2;
  }

  /** The final `range` loop of `Same`, as written: it runs over the first
      list only and indexes the second at the same position. It returns false
      at the first mismatch, true when the first list is a prefix of the
      second, and panics when the second list runs out first. */
  method CompareContents(c1: seq<int>, c2: seq<int>) returns (outcome: Outcome)
    ensures outcome == Returned(true) <==> IsPrefix(c1, c2)
    ensures outcome == Panicked <==> |c2| < |c1| && IsPrefix(c2, c1)
  {
    var i := 0;
    while i < |c1|
      invariant 0 <= i <= |c1| && i <= |c2|
      invariant c1[..i] == c2[..i]
    {
      if i >= |c2| {
        assert c2 == c1[..i];
        return Panicked;
      }
      if c1[i] != c2[i] {
        assert c1[..i + 1] != c2[..i + 1] by {
          assert c1[..i + 1][i] != c2[..i + 1][i];
        }
        return Returned(false);
      }
      assert c1[..i + 1] == c2[..i + 1];
      i := i + 1;
    }
    assert c1 == c1[..i];
    return Returned(true);
  }

  /** Prepending the same list keeps the prefix relation either way. */
  lemma PrefixAfterZeros(a: seq<int>, b: seq<int>)
    ensures IsPrefix(Zeros() + a, Zeros() + b) <==> IsPrefix(a, b)
  {
    var za, zb := Zeros() + a, Zeros() + b;
    if IsPrefix(a, b) {
      assert zb[..|za|] == Zeros() + b[..|a|];
    }
    if IsPrefix(za, zb) {
      assert a == za[10..] && b[..|a|] == zb[..|za|][10..];
    }
  }

  /** `Same(t1, t2)` as written. Whatever the interleaving of the two walks,
      it returns true exactly when t1's walk is a prefix of t2's (not only
      when they are equal), panics exactly when t2's walk is a proper prefix
      of t1's, and returns false otherwise. */
  method Same(t1: Tree, t2: Tree, schedule: nat -> bool) returns (outcome: Outcome)
    ensures outcome == Returned(true) <==> IsPrefix(InOrder(t1), InOrder(t2))
    ensures outcome == Panicked <==> |InOrder(t2)| < |InOrder(t1)| && IsPrefix(InOrder(t2), InOrder(t1))
    ensures outcome == Returned(false) <==> !IsPrefix(InOrder(t1), InOrder(t2)) && !IsPrefix(InOrder(t2), InOrder(t1))
  {
    var ch1 := new Chan();
    var ch2 := new Chan();
    Walk(t1, ch1);
    Walk(t2, ch2);
    assert ch1.sent == InOrder(t1) && ch2.sent == InOrder(t2);
    var c1, c2 := Gather(ch1.sent, ch2.sent, schedule);
    outcome := CompareContents(c1, c2);
    PrefixAfterZeros(InOrder(t1), InOrder(t2));
    PrefixAfterZeros(InOrder(t2), InOrder(t1));
  }

  /** The mismatch `Same` misses: an empty tree against a one-node tree is
      reported as the same, and the reverse call panics. */
  method SameMisjudgesPrefix(schedule: nat -> bool) returns (forwards: Outcome, backwards: Outcome)
    ensures InOrder(Nil) != InOrder(Node(Nil, 1, Nil))
    ensures forwards == Returned(true) && backwards == Panicked
  {
    var one := Node(Nil, 1, Nil);
    assert InOrder(one) == [1];
    forwards := Same(Nil, one, schedule);
    backwards := Same(one, Nil, schedule);
  }

  /** The comparison `Same` is named for: equal lengths, then element by
      element. */
  method CompareContentsFixed(c1: seq<int>, c2: seq<int>) returns (same: bool)
    ensures same <==> c1 == c2
  {
    if |c1| != |c2| {
      return false;
    }
    var i := 0;
    while i < |c1|
      invariant 0 <= i <= |c1|
      invariant c1[..i] == c2[..i]
    {
      if c1[i] != c2[i] {
        assert c1[..i + 1][i] != c2[..i + 1][i];
        return false;
      }
      assert c1[..i + 1] == c2[..i + 1];
      i := i + 1;
    }
    assert c1 == c1[..i] && c2 == c2[..i];
    return true;
  }

  /** `Same` with the corrected comparison: true exactly when the two trees
      have the same in-order walk, whatever the interleaving, and it never
      panics. */
  method SameFixed(t1: Tree, t2: Tree, schedule: nat -> bool) returns (same: bool)
    ensures same <==> InOrder(t1) == InOrder(t2)
  {
    var ch1 := new Chan();
    var ch2 := new Chan();
    Walk(t1, ch1);
    Walk(t2, ch2);
    assert ch1.sent == InOrder(t1) && ch2.sent == InOrder(t2);
    var c1, c2 := Gather(ch1.sent, ch2.sent, schedule);
    same := CompareContentsFixed(c1, c2);
    assert c1 == c2 ==> c1[10..] == c2[10..];
  }
}
