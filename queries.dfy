/** The read-only searches of the set: `find_min`, `find_max`, `find` and `lower_bound`. Each one
    walks down from a node that sits at some place of the whole tree and answers with the node it
    stops at, that is with a cursor into the same whole tree, or with `Null` for the null pointer. */
module Queries {
  import opened Balancing
  import opened Positions
  import opened KeyOrder

  /** `find_min`: follow left children to the leftmost node, which holds the first key in order. */
  function FindMin(t: Tree, p: seq<Frame>): (c: Cursor)
    requires t.Node?
    ensures c.focus.Node? && c.focus.left.Nil?
    ensures Plug(c.focus, c.path) == Plug(t, p)
    ensures Index(c) == |Lefts(p)|
    ensures c.focus.key == Inorder(t)[0]
    decreases t
  {
    if t.left.Node? then FindMin(t.left, DownLeft(Cursor(t, p)).path) else Cursor(t, p)
  }

  /** `find_max`: follow right children to the rightmost node; a null subtree gives null. */
  function FindMax(t: Tree, p: seq<Frame>): (c: Cursor)
    ensures t.Nil? <==> c == Null
    ensures t.Node? ==>
      && c.focus.Node? && c.focus.right.Nil?
      && Plug(c.focus, c.path) == Plug(t, p)
      && Index(c) == |Lefts(p)| + |Inorder(t)| - 1
      && c.focus.key == Inorder(t)[|Inorder(t)| - 1]
    decreases t
  {
    if t.Nil? then Null
    else if t.right.Node? then FindMax(t.right, DownRight(Cursor(t, p)).path)
    else Cursor(t, p)
  }

  /** In an ordered subtree, `find_min` stops at its smallest key. */
  lemma FindMinIsLeast(t: Tree, p: seq<Frame>)
    requires IsBst(t) && t.Node?
    ensures FindMin(t, p).focus.key in Keys(t)
    ensures NoneBelow(t, FindMin(t, p).focus.key)
  {
    KeysInorder(t);
    PrevKey(t, 0);
  }

  /** In an ordered subtree, `find_max` stops at its largest key. */
  lemma FindMaxIsGreatest(t: Tree, p: seq<Frame>)
    requires IsBst(t) && t.Node?
    ensures FindMax(t, p).focus.key in Keys(t)
    ensures NoneAbove(t, FindMax(t, p).focus.key)
  {
    KeysInorder(t);
    LastKey(t);
  }

  /** `find`: descend by comparison with `<` only; stop at a node with an equal key, or at null.
      In an ordered tree the answer is null exactly when the key is absent. */
  function Find(t: Tree, x: int, p: seq<Frame>): (c: Cursor)
    ensures c == Null || (c.focus.Node? && Plug(c.focus, c.path) == Plug(t, p) && c.focus.key == x)
    ensures IsBst(t) ==> (c == Null <==> x !in Keys(t))
    decreases t
  {
    if t.Nil? then Null
    else if x < t.key then Find(t.left, x, DownLeft(Cursor(t, p)).path)
    else if t.key < x then Find(t.right, x, DownRight(Cursor(t, p)).path)
    else Cursor(t, p)
  }

  /** Every key of `t` is smaller than `x`. */
  ghost predicate AllBelow(t: Tree, x: int)
  {
    forall y :: y in Keys(t) ==> y < x
  }

  /** `m` is at most every key of `t` that is not smaller than `x`. */
  ghost predicate LeastNotBelow(t: Tree, x: int, m: int)
  {
    forall y :: y in Keys(t) && x <= y ==> m <= y
  }

  /** Below a node whose key is smaller than `x`, only the right subtree can hold keys that are
      not smaller than `x`. */
  lemma BelowRight(t: Tree, x: int)
    requires t.Node? && t.key < x
    ensures IsBst(t) ==> (AllBelow(t, x) <==> AllBelow(t.right, x))
  {
    assert Keys(t) == Keys(t.left) + {t.key} + Keys(t.right);
    if IsBst(t) && AllBelow(t.right, x) {
      forall y | y in Keys(t) ensures y < x {
        if y in Keys(t.left) { assert y < t.key; }
      }
    }
  }

  /** `lower_bound`: a node whose key is below `x` sends the search right; otherwise the answer is
      the left subtree's answer if it has one, or else this node. In an ordered tree the answer
      holds the smallest key not below `x`, and it is null exactly when every key is below `x`. */
  function LowerBound(t: Tree, x: int, p: seq<Frame>): (c: Cursor)
    ensures c == Null || (c.focus.Node? && Plug(c.focus, c.path) == Plug(t, p)
                         && c.focus.key in Keys(t) && x <= c.focus.key)
    ensures IsBst(t) ==> (c == Null <==> AllBelow(t, x))
    ensures IsBst(t) && c != Null ==> LeastNotBelow(t, x, c.focus.key)
    decreases t
  {
    if t.Nil? then Null
    else if t.key < x then
      BelowRight(t, x);
      LowerBound(t.right, x, DownRight(Cursor(t, p)).path)
    else
      var leftBound := LowerBound(t.left, x, DownLeft(Cursor(t, p)).path);
      if leftBound != Null then leftBound else Cursor(t, p)
  }
}
