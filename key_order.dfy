/** What cursor positions mean for the keys of an ordered tree: moving forward reaches the next
    larger key, moving backward the next smaller one, and a key names a single node. */
module KeyOrder {
  import opened Balancing
  import opened Positions

  /** In an ordered tree the in-order sequence is strictly increasing and lists every key. */
  lemma SortedKeys(t: Tree)
    requires IsBst(t)
    ensures Sorted(Inorder(t))
    ensures forall y :: y in Keys(t) <==> y in Inorder(t)
  {
    BstIffSorted(t);
    KeysInorder(t);
  }

  /** In a strictly increasing sequence a smaller entry sits at a smaller index. */
  lemma SortedIndexOrder(s: seq<int>, a: nat, b: nat)
    requires Sorted(s) && a < |s| && b < |s| && s[a] < s[b]
    ensures a < b
  {
  }

  /** In a strictly increasing sequence the entry after index `i` is the least value larger
      than the entry at `i`, and the last entry is the largest value. */
  lemma SortedAfter(s: seq<int>, i: nat)
    requires Sorted(s) && i < |s|
    ensures i + 1 < |s| ==> forall y :: y in s && s[i] < y ==> s[i + 1] <= y
    ensures i + 1 == |s| <==> forall y :: y in s ==> y <= s[i]
  {
    forall y | y in s && s[i] < y ensures i + 1 < |s| && s[i + 1] <= y {
      var j :| 0 <= j < |s| && s[j] == y;
      SortedIndexOrder(s, i, j);
    }
    if i + 1 < |s| {
      assert s[i + 1] in s && s[i] < s[i + 1];
    }
  }

  /** The mirror image: the entry before index `i` is the greatest value smaller than the entry
      at `i` (any value when `i` is one past the end), and the first entry is the smallest. */
  lemma SortedBefore(s: seq<int>, i: nat)
    requires Sorted(s) && i <= |s|
    ensures 0 < i ==> forall y :: y in s && (i == |s| || y < s[i]) ==> y <= s[i - 1]
    ensures i < |s| ==> (i == 0 <==> forall y :: y in s ==> s[i] <= y)
  {
    forall y | y in s && (i == |s| || y < s[i]) ensures 0 < i && y <= s[i - 1] {
      var j :| 0 <= j < |s| && s[j] == y;
      if i < |s| {
        SortedIndexOrder(s, j, i);
      }
    }
    if 0 < i < |s| {
      assert s[i - 1] in s && s[i - 1] < s[i];
    }
  }

  /** No key of `t` is larger than `k`. */
  ghost predicate NoneAbove(t: Tree, k: int)
  {
    forall y :: y in Keys(t) ==> y <= k
  }

  /** No key of `t` is smaller than `k`. */
  ghost predicate NoneBelow(t: Tree, k: int)
  {
    forall y :: y in Keys(t) ==> k <= y
  }

  /** `m` is at most every key of `t` larger than `k`. */
  ghost predicate LeastAbove(t: Tree, k: int, m: int)
  {
    forall y :: y in Keys(t) && k < y ==> m <= y
  }

  /** `m` is at least every key of `t` smaller than `k`. */
  ghost predicate GreatestBelow(t: Tree, k: int, m: int)
  {
    forall y :: y in Keys(t) && y < k ==> y <= m
  }

  /** Key-level reading of the in-order index `i + 1` of an ordered tree. */
  lemma NextKey(t: Tree, i: nat)
    requires IsBst(t) && i < |Inorder(t)|
    ensures i + 1 == |Inorder(t)| <==> NoneAbove(t, Inorder(t)[i])
    ensures i + 1 < |Inorder(t)| ==>
      Inorder(t)[i] < Inorder(t)[i + 1] && LeastAbove(t, Inorder(t)[i], Inorder(t)[i + 1])
  {
    var s := Inorder(t);
    SortedKeys(t);
    SortedAfter(s, i);
    if i + 1 < |s| {
      assert s[i + 1] in s;
      assert s[i + 1] in Keys(t);
    }
  }

  /** Key-level reading of the in-order index `i - 1` of an ordered tree. */
  lemma PrevKey(t: Tree, i: nat)
    requires IsBst(t) && i < |Inorder(t)|
    ensures i == 0 <==> NoneBelow(t, Inorder(t)[i])
    ensures 0 < i ==>
      Inorder(t)[i - 1] < Inorder(t)[i] && GreatestBelow(t, Inorder(t)[i], Inorder(t)[i - 1])
  {
    var s := Inorder(t);
    SortedKeys(t);
    SortedBefore(s, i);
    if 0 < i {
      assert s[i - 1] in s;
      assert s[i - 1] in Keys(t);
    }
  }

  /** The last in-order key of a non-empty ordered tree is its largest key. */
  lemma LastKey(t: Tree)
    requires IsBst(t) && t.Node?
    ensures |Inorder(t)| > 0 && NoneAbove(t, Inorder(t)[|Inorder(t)| - 1])
  {
    assert t.key in Keys(t);
    KeysInorder(t);
    NextKey(t, |Inorder(t)| - 1);
  }

  /** `++` meaning: in an ordered tree the successor holds the least key larger than the
      current one, and there is none exactly when the current key is the largest. */
  lemma SuccessorIsNextKey(t: Tree, c: Cursor)
    requires IsBst(t) && IsPos(c, t)
    ensures Successor(t, c) == Null <==> NoneAbove(t, c.focus.key)
    ensures Successor(t, c) != Null ==>
      && IsPos(Successor(t, c), t) && c.focus.key < Successor(t, c).focus.key
      && LeastAbove(t, c.focus.key, Successor(t, c).focus.key)
  {
    KeyAtIndex(c, t);
    AtNextKey(t, Index(c));
  }

  /** A position reached from `c` whose index is one more (or `Null` after the last key) is the
      successor of `c` in every reading: one rank further, holding the next larger key. */
  lemma StepForward(t: Tree, c: Cursor, d: Cursor)
    requires IsBst(t) && IsPos(c, t) && (d == Null || IsPos(d, t))
    requires d == Null ==> Index(c) + 1 == |Inorder(t)|
    requires d != Null ==> Index(d) == Index(c) + 1
    ensures d == Successor(t, c) && Rank(t, d) == Rank(t, c) + 1
    ensures d == Null <==> NoneAbove(t, c.focus.key)
    ensures d != Null ==> c.focus.key < d.focus.key && LeastAbove(t, c.focus.key, d.focus.key)
  {
    SuccessorByIndex(t, c, d);
    SuccessorIsNextKey(t, c);
  }

  /** The node after index `i` holds the next larger key, and there is none after the largest. */
  lemma AtNextKey(t: Tree, i: nat)
    requires IsBst(t) && i < |Inorder(t)|
    ensures At(t, i + 1) == Null <==> NoneAbove(t, Inorder(t)[i])
    ensures At(t, i + 1) != Null ==>
      && IsPos(At(t, i + 1), t) && Inorder(t)[i] < At(t, i + 1).focus.key
      && LeastAbove(t, Inorder(t)[i], At(t, i + 1).focus.key)
  {
    NextKey(t, i);
    if i + 1 < |Inorder(t)| {
      AtKey(t, i + 1);
    }
  }

  /** The position of index `i` is a node holding the `i`-th key in order. */
  lemma AtKey(t: Tree, i: nat)
    requires i < |Inorder(t)|
    ensures At(t, i) != Null && IsPos(At(t, i), t) && At(t, i).focus.key == Inorder(t)[i]
  {
    IndexPosition(t, i);
    KeyAtIndex(At(t, i), t);
  }

  /** `--` meaning: before `Null` comes the largest key (nothing in an empty tree); before a
      node comes the greatest key smaller than its own, and nothing exactly when its key is the
      smallest. */
  lemma PredecessorIsPrevKey(t: Tree, c: Cursor)
    requires IsBst(t) && (c == Null || IsPos(c, t))
    ensures c == Null ==> (Predecessor(t, c) == Null <==> t.Nil?)
    ensures c == Null && Predecessor(t, c) != Null ==>
      IsPos(Predecessor(t, c), t) && NoneAbove(t, Predecessor(t, c).focus.key)
    ensures c != Null ==> (Predecessor(t, c) == Null <==> NoneBelow(t, c.focus.key))
    ensures c != Null && Predecessor(t, c) != Null ==>
      && IsPos(Predecessor(t, c), t) && Predecessor(t, c).focus.key < c.focus.key
      && GreatestBelow(t, c.focus.key, Predecessor(t, c).focus.key)
  {
    var i := Rank(t, c);
    if c != Null {
      KeyAtIndex(c, t);
      PrevKey(t, i);
    } else if t.Node? {
      LastKey(t);
    } else {
      assert Inorder(t) == [];
    }
    if i > 0 {
      IndexPosition(t, i - 1);
      KeyAtIndex(At(t, i - 1), t);
    }
  }

  /** Within one ordered tree two positions holding the same key are the same position. */
  lemma SameKeySamePosition(t: Tree, c: Cursor, d: Cursor)
    requires IsBst(t) && IsPos(c, t) && IsPos(d, t)
    ensures c == d <==> c.focus.key == d.focus.key
  {
    SortedKeys(t);
    KeyAtIndex(c, t);
    KeyAtIndex(d, t);
    PositionIndex(t, c);
    PositionIndex(t, d);
    var s := Inorder(t);
    if c.focus.key == d.focus.key {
    }
  }
}
