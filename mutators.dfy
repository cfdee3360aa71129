/** The recursive mutators of the set: `insert`, `erase_min` and `erase`. Each one changes a
    subtree and hands back the root of the changed subtree, rebalancing every node on the way
    back up; here each is a function from the old subtree to the new one. */
module Mutators {
  import opened Balancing
  import opened Positions
  import opened KeyOrder
  import opened Queries

  /** `new Node(elem)`: a childless node of height 1. */
  function Leaf(x: int): (r: Tree)
    ensures r.Node? && Avl(r) && Inorder(r) == [x] && Keys(r) == {x}
  {
    assert HeightsOk(Nil) && Balanced(Nil);
    Node(Nil, x, Nil, 1)
  }

  /** `insert`: a new leaf where the search falls off the tree, then `balance` on every node of
      the search path, including the node holding an equal key. */
  function Insert(t: Tree, x: int): (r: Tree)
    ensures r.Node? && Keys(r) == Keys(t) + {x}
    decreases t
  {
    if t.Nil? then Leaf(x)
    else if x < t.key then Balance(HangLeft(t, Insert(t.left, x)))
    else if t.key < x then Balance(HangRight(t, Insert(t.right, x)))
    else Balance(t)
  }

  /** `erase_min`: a node without a left child is replaced by its right child; above it every
      node is rebalanced. The first key in order is the one removed. */
  function EraseMin(t: Tree): (r: Tree)
    requires t.Node?
    ensures Inorder(r) == Inorder(t)[1..]
    ensures Keys(t) == Keys(r) + {Inorder(t)[0]}
    decreases t
  {
    if t.left.Nil? then t.right
    else
      var rest := EraseMin(t.left);
      DropFirst(Inorder(t.left), [t.key] + Inorder(t.right));
      Balance(HangLeft(t, rest))
  }

  /** Dropping the first entry of a concatenation drops it from the first part. */
  lemma DropFirst(a: seq<int>, b: seq<int>)
    requires a != []
    ensures (a + b)[0] == a[0] && (a + b)[1..] == a[1..] + b
  {
  }

  /** `erase`: below the matching node nothing changes; the matching node is replaced by its left
      child when it has no right child, otherwise by the minimum node of its right subtree, which
      takes over both children (the right one without the minimum) and is then rebalanced. */
  function Erase(t: Tree, x: int): (r: Tree)
    ensures Keys(t) - {x} <= Keys(r) <= Keys(t)
    decreases t
  {
    if t.Nil? then Nil
    else if x < t.key then Balance(HangLeft(t, Erase(t.left, x)))
    else if t.key < x then Balance(HangRight(t, Erase(t.right, x)))
    else if t.right.Nil? then t.left
    else
      var m := FindMin(t.right, []).focus;
      Balance(HangLeft(HangRight(m, EraseMin(t.right)), t.left))
  }

  /** On a subtree that is already AVL with consistent heights, `balance` changes nothing. */
  lemma BalanceKeepsAvl(t: Tree)
    requires t.Node? && Avl(t)
    ensures Balance(t) == t
  {
    BalanceRestores(t);
  }

  /** Insertion keeps the search order and the AVL shape, and the height grows by at most one. */
  lemma {:induction false} InsertKeepsInvariants(t: Tree, x: int)
    requires IsBst(t) && Avl(t)
    ensures IsBst(Insert(t, x)) && Avl(Insert(t, x))
    ensures Height(t) <= Height(Insert(t, x)) <= Height(t) + 1
  {
    if t.Node? {
      if x < t.key {
        InsertKeepsInvariants(t.left, x);
        InsertLeft(t, x);
      } else if t.key < x {
        InsertKeepsInvariants(t.right, x);
        InsertRight(t, x);
      } else {
        BalanceKeepsAvl(t);
      }
    }
  }

  /** Insertion below the left child: `balance` repairs the node after the child has grown by
      at most one level. */
  lemma InsertLeft(t: Tree, x: int)
    requires IsBst(t) && Avl(t) && t.Node? && x < t.key
    requires IsBst(Insert(t.left, x)) && Avl(Insert(t.left, x))
    requires Height(t.left) <= Height(Insert(t.left, x)) <= Height(t.left) + 1
    ensures IsBst(Insert(t, x)) && Avl(Insert(t, x))
    ensures Height(t) <= Height(Insert(t, x)) <= Height(t) + 1
  {
    var hung := HangLeft(t, Insert(t.left, x));
    assert IsBst(hung);
    BalanceRestores(hung);
  }

  /** The mirror image of `InsertLeft`. */
  lemma InsertRight(t: Tree, x: int)
    requires IsBst(t) && Avl(t) && t.Node? && t.key < x
    requires IsBst(Insert(t.right, x)) && Avl(Insert(t.right, x))
    requires Height(t.right) <= Height(Insert(t.right, x)) <= Height(t.right) + 1
    ensures IsBst(Insert(t, x)) && Avl(Insert(t, x))
    ensures Height(t) <= Height(Insert(t, x)) <= Height(t) + 1
  {
    var hung := HangRight(t, Insert(t.right, x));
    assert IsBst(hung);
    BalanceRestores(hung);
  }

  /** Inserting a key that is already present gives back the same tree. */
  lemma {:induction false} InsertPresentIsNoOp(t: Tree, x: int)
    requires IsBst(t) && Avl(t) && x in Keys(t)
    ensures Insert(t, x) == t
  {
    if x < t.key {
      InsertPresentIsNoOp(t.left, x);
      assert HangLeft(t, t.left) == t;
    } else if t.key < x {
      InsertPresentIsNoOp(t.right, x);
      assert HangRight(t, t.right) == t;
    }
    BalanceKeepsAvl(t);
  }

  /** Removing the minimum keeps the search order and the AVL shape, removes exactly the smallest
      key, and lowers the height by at most one. */
  lemma {:induction false} EraseMinKeepsInvariants(t: Tree)
    requires IsBst(t) && Avl(t) && t.Node?
    ensures IsBst(EraseMin(t)) && Avl(EraseMin(t))
    ensures Keys(EraseMin(t)) == Keys(t) - {Inorder(t)[0]}
    ensures NoneBelow(t, Inorder(t)[0])
    ensures Height(t) - 1 <= Height(EraseMin(t)) <= Height(t)
    decreases t
  {
    PrevKey(t, 0);
    if t.left.Node? {
      EraseMinKeepsInvariants(t.left);
      ShrunkLeft(t, EraseMin(t.left));
    } else {
      assert t.key !in Keys(t.right);
    }
  }

  /** Erasing keeps the search order and the AVL shape, removes exactly `x`, and lowers the
      height by at most one. */
  lemma {:induction false} EraseKeepsInvariants(t: Tree, x: int)
    requires IsBst(t) && Avl(t)
    ensures IsBst(Erase(t, x)) && Avl(Erase(t, x))
    ensures Keys(Erase(t, x)) == Keys(t) - {x}
    ensures Height(t) - 1 <= Height(Erase(t, x)) <= Height(t)
    decreases t
  {
    if t.Nil? {
    } else if x < t.key {
      EraseKeepsInvariants(t.left, x);
      ShrunkLeft(t, Erase(t.left, x));
      assert Erase(t, x) == Balance(HangLeft(t, Erase(t.left, x)));
      assert x !in Keys(t.right);
    } else if t.key < x {
      EraseKeepsInvariants(t.right, x);
      ShrunkRight(t, Erase(t.right, x));
      assert Erase(t, x) == Balance(HangRight(t, Erase(t.right, x)));
      assert x !in Keys(t.left);
    } else if t.right.Nil? {
      assert t.key !in Keys(t.left);
    } else {
      EraseReplacesByMin(t);
    }
  }

  /** The case of `erase` that moves the minimum of the right subtree into the erased place. */
  lemma EraseReplacesByMin(t: Tree)
    requires IsBst(t) && Avl(t) && t.Node? && t.right.Node?
    ensures IsBst(Erase(t, t.key)) && Avl(Erase(t, t.key))
    ensures Keys(Erase(t, t.key)) == Keys(t) - {t.key}
    ensures Height(t) - 1 <= Height(Erase(t, t.key)) <= Height(t)
  {
    var m := FindMin(t.right, []).focus;
    var rest := EraseMin(t.right);
    var hung := HangLeft(HangRight(m, rest), t.left);
    assert Erase(t, t.key) == Balance(hung);
    EraseMinKeepsInvariants(t.right);
    MinReplacesRoot(t, m.key, rest, m.height);
    assert hung == Node(t.left, m.key, rest, m.height);
    BalanceRestores(hung);
  }

  /** The node rebuilt by `erase` from the left subtree, the right subtree's minimum `k` and the
      rest of the right subtree is ordered and holds every key but the erased one. */
  lemma MinReplacesRoot(t: Tree, k: int, rest: Tree, h: nat)
    requires IsBst(t) && t.Node? && t.right.Node? && k == Inorder(t.right)[0]
    requires IsBst(rest) && Keys(rest) == Keys(t.right) - {k} && NoneBelow(t.right, k)
    ensures IsBst(Node(t.left, k, rest, h))
    ensures Keys(Node(t.left, k, rest, h)) == Keys(t) - {t.key}
  {
    KeysInorder(t.right);
    assert k in Keys(t.right);
    assert t.key < k;
    assert t.key !in Keys(t.left) && t.key !in Keys(t.right);
    forall y | y in Keys(t.left) ensures y < k {
      assert y < t.key;
    }
    forall y | y in Keys(rest) ensures k < y {
      assert y in Keys(t.right) && k <= y;
    }
  }

  /** A left subtree replaced by an ordered AVL subtree with no new keys and at most one level
      less: after `balance` the node is ordered, AVL, and at most one level lower. */
  lemma ShrunkLeft(t: Tree, child: Tree)
    requires IsBst(t) && Avl(t) && t.Node?
    requires IsBst(child) && Avl(child) && Keys(child) <= Keys(t.left)
    requires Height(t.left) - 1 <= Height(child) <= Height(t.left)
    ensures IsBst(Balance(HangLeft(t, child))) && Avl(Balance(HangLeft(t, child)))
    ensures Height(t) - 1 <= Height(Balance(HangLeft(t, child))) <= Height(t)
  {
    var hung := HangLeft(t, child);
    assert IsBst(hung);
    BalanceRestores(hung);
  }

  /** The mirror image of `ShrunkLeft`. */
  lemma ShrunkRight(t: Tree, child: Tree)
    requires IsBst(t) && Avl(t) && t.Node?
    requires IsBst(child) && Avl(child) && Keys(child) <= Keys(t.right)
    requires Height(t.right) - 1 <= Height(child) <= Height(t.right)
    ensures IsBst(Balance(HangRight(t, child))) && Avl(Balance(HangRight(t, child)))
    ensures Height(t) - 1 <= Height(Balance(HangRight(t, child))) <= Height(t)
  {
    var hung := HangRight(t, child);
    assert IsBst(hung);
    BalanceRestores(hung);
  }

  /** Erasing an absent key gives back the same tree. */
  lemma {:induction false} EraseAbsentIsNoOp(t: Tree, x: int)
    requires Avl(t) && x !in Keys(t)
    ensures Erase(t, x) == t
  {
    if t.Node? {
      if x < t.key {
        EraseAbsentIsNoOp(t.left, x);
        assert HangLeft(t, t.left) == t;
      } else {
        EraseAbsentIsNoOp(t.right, x);
        assert HangRight(t, t.right) == t;
      }
      BalanceKeepsAvl(t);
    }
  }
}
