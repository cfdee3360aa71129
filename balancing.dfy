/** The node structure of the set and the rebalancing steps that every mutation ends with:
    `height`, `factor`, `fix`, `hang_left`, `hang_right`, the two rotations and `balance`. */
module Balancing {

  /** A subtree. `Nil` is a null child pointer; a `Node` holds its key, its two children and the
      height of the subtree that the node stores (a leaf stores 1). */
  datatype Tree = Nil | Node(left: Tree, key: int, right: Tree, height: nat)

  function Max(a: int, b: int): int
  {
    if a < b then b else a
  }

  /** The keys in in-order: the order in which the iterator visits the nodes, one entry per node. */
  ghost function Inorder(t: Tree): seq<int>
  {
    match t
    case Nil => []
    case Node(l, k, r, _) => Inorder(l) + [k] + Inorder(r)
  }

  ghost function Keys(t: Tree): set<int>
  {
    match t
    case Nil => {}
    case Node(l, k, r, _) => Keys(l) + {k} + Keys(r)
  }

  ghost predicate Sorted(s: seq<int>)
  {
    forall i, j :: 0 <= i < j < |s| ==> s[i] < s[j]
  }

  /** Search order: every key of the left subtree is smaller, every key of the right subtree larger. */
  ghost predicate IsBst(t: Tree)
  {
    match t
    case Nil => true
    case Node(l, k, r, _) =>
      && IsBst(l) && IsBst(r)
      && (forall y :: y in Keys(l) ==> y < k)
      && (forall y :: y in Keys(r) ==> k < y)
  }

  /** Height consistency: every stored height is one more than the taller child's. */
  ghost predicate HeightsOk(t: Tree)
  {
    match t
    case Nil => true
    case Node(l, _, r, h) => HeightsOk(l) && HeightsOk(r) && h == 1 + Max(Height(l), Height(r))
  }

  /** AVL balance: at every node the heights of the two children differ by at most one. */
  ghost predicate Balanced(t: Tree)
  {
    match t
    case Nil => true
    case Node(l, _, r, _) => Balanced(l) && Balanced(r) && -1 <= Factor(t) <= 1
  }

  ghost predicate Avl(t: Tree)
  {
    HeightsOk(t) && Balanced(t)
  }

  /** `height`: a null subtree has height 0, a node reports the height it stores. */
  function Height(t: Tree): nat
  {
    if t.Nil? then 0 else t.height
  }

  /** `factor`: right height minus left height. */
  function Factor(t: Tree): int
    requires t.Node?
  {
    Height(t.right) - Height(t.left)
  }

  /** `fix`: recomputes the stored height from the children; keys and shape are untouched. */
  function Fix(t: Tree): (r: Tree)
    requires t.Node?
    ensures r.Node? && Inorder(r) == Inorder(t) && Keys(r) == Keys(t)
    ensures Height(r) == 1 + Max(Height(t.left), Height(t.right)) && Factor(r) == Factor(t)
    ensures HeightsOk(r) <==> HeightsOk(t.left) && HeightsOk(t.right)
    ensures HeightsOk(t) ==> r == t
  {
    t.(height := 1 + Max(Height(t.left), Height(t.right)))
  }

  /** `hang_left`: makes `child` the left child of the node. The back-link that the source sets in
      `child` is the cursor frame of module Positions (see Positions.ParentLinks). The stored
      height is left stale, as in the source. */
  function HangLeft(t: Tree, child: Tree): (r: Tree)
    requires t.Node?
    ensures r.Node? && r.key == t.key && Height(r) == Height(t)
    ensures Inorder(r) == Inorder(child) + [t.key] + Inorder(t.right)
    ensures Keys(r) == Keys(child) + {t.key} + Keys(t.right)
  {
    t.(left := child)
  }

  /** `hang_right`: makes `child` the right child of the node. */
  function HangRight(t: Tree, child: Tree): (r: Tree)
    requires t.Node?
    ensures r.Node? && r.key == t.key && Height(r) == Height(t)
    ensures Inorder(r) == Inorder(t.left) + [t.key] + Inorder(child)
    ensures Keys(r) == Keys(t.left) + {t.key} + Keys(child)
  {
    t.(right := child)
  }

  /** `rotate_right`: the left child becomes the subtree root and the old root its right child. */
  function RotateRight(t: Tree): (r: Tree)
    requires t.Node? && t.left.Node?
    ensures r.Node? && r.right.Node?
    ensures r.key == t.left.key && r.right.key == t.key && r.left == t.left.left
    ensures Inorder(r) == Inorder(t) && Keys(r) == Keys(t)
    ensures IsBst(t) ==> IsBst(r)
    ensures HeightsOk(t.left) && HeightsOk(t.right) ==> HeightsOk(r)
  {
    var pivot := t.left;
    var lowered := Fix(HangLeft(t, pivot.right));
    var r := Fix(HangRight(pivot, lowered));
    BstIffSorted(t);
    BstIffSorted(r);
    r
  }

  /** `rotate_left`: the right child becomes the subtree root and the old root its left child. */
  function RotateLeft(t: Tree): (r: Tree)
    requires t.Node? && t.right.Node?
    ensures r.Node? && r.left.Node?
    ensures r.key == t.right.key && r.left.key == t.key && r.right == t.right.right
    ensures Inorder(r) == Inorder(t) && Keys(r) == Keys(t)
    ensures IsBst(t) ==> IsBst(r)
    ensures HeightsOk(t.left) && HeightsOk(t.right) ==> HeightsOk(r)
  {
    var pivot := t.right;
    var lowered := Fix(HangRight(t, pivot.left));
    var r := Fix(HangLeft(pivot, lowered));
    BstIffSorted(t);
    BstIffSorted(r);
    r
  }

  /** `balance`: recomputes the height, then at factor +2 rotates left (after a right rotation of
      the right child when that child leans left), at factor -2 symmetrically; otherwise returns
      the node itself. The keys, their order and the search order are kept. */
  function Balance(t: Tree): (r: Tree)
    requires t.Node?
    ensures r.Node? && Inorder(r) == Inorder(t) && Keys(r) == Keys(t)
    ensures IsBst(t) ==> IsBst(r)
    ensures HeightsOk(t.left) && HeightsOk(t.right) ==> HeightsOk(r)
  {
    var cur := Fix(t);
    if Factor(cur) == 2 then
      var heavy := if Factor(cur.right) < 0 then HangRight(cur, RotateRight(cur.right)) else cur;
      RotateLeft(heavy)
    else if Factor(cur) == -2 then
      var heavy := if Factor(cur.left) > 0 then HangLeft(cur, RotateLeft(cur.left)) else cur;
      RotateRight(heavy)
    else
      cur
  }

  /** Right child two higher and not leaning left: one left rotation gives an AVL subtree whose
      height is that of the right child or one more. */
  lemma SingleLeftRestores(t: Tree)
    requires t.Node? && t.right.Node? && Avl(t.left) && Avl(t.right)
    requires Height(t.right) == Height(t.left) + 2 && Factor(t.right) >= 0
    ensures Avl(RotateLeft(t))
    ensures Height(t.right) <= Height(RotateLeft(t)) <= Height(t.right) + 1
  {
    var pivot := t.right;
    var hl := Height(t.left);
    assert HeightsOk(pivot) && Balanced(pivot);
    assert Height(pivot.right) == hl + 1;
    assert hl <= Height(pivot.left) <= hl + 1;
    var lowered := Fix(HangRight(t, pivot.left));
    assert Balanced(lowered);
    assert Avl(lowered);
  }

  /** Right child two higher and leaning left: the right-left double rotation gives an AVL
      subtree exactly as high as the right child was. */
  lemma DoubleLeftRestores(t: Tree)
    requires t.Node? && t.right.Node? && Avl(t.left) && Avl(t.right)
    requires Height(t.right) == Height(t.left) + 2 && Factor(t.right) < 0
    ensures t.right.left.Node?
    ensures Avl(RotateLeft(HangRight(t, RotateRight(t.right))))
    ensures Height(RotateLeft(HangRight(t, RotateRight(t.right)))) == Height(t.right)
  {
    var pivot := t.right;
    var hl := Height(t.left);
    assert HeightsOk(pivot) && Balanced(pivot);
    assert Height(pivot.left) == hl + 1 && Height(pivot.right) == hl;
    var grand := pivot.left;
    assert HeightsOk(grand) && Balanced(grand);
    assert hl - 1 <= Height(grand.left) <= hl && hl - 1 <= Height(grand.right) <= hl;
    var lowered := Fix(HangLeft(pivot, grand.right));
    assert Balanced(lowered);
    assert Avl(lowered) && Height(lowered) == Height(t.left) + 1;
    var raised := Fix(HangRight(grand, lowered));
    assert RotateRight(pivot) == raised;
    var top := HangRight(t, raised);
    var lowered2 := Fix(HangRight(top, grand.left));
    assert Balanced(lowered2);
    assert Avl(lowered2) && Height(lowered2) == Height(t.left) + 1;
    assert RotateLeft(top) == Fix(HangLeft(raised, lowered2));
  }

  /** Mirror image of SingleLeftRestores. */
  lemma SingleRightRestores(t: Tree)
    requires t.Node? && t.left.Node? && Avl(t.left) && Avl(t.right)
    requires Height(t.left) == Height(t.right) + 2 && Factor(t.left) <= 0
    ensures Avl(RotateRight(t))
    ensures Height(t.left) <= Height(RotateRight(t)) <= Height(t.left) + 1
  {
    var pivot := t.left;
    var hr := Height(t.right);
    assert HeightsOk(pivot) && Balanced(pivot);
    assert Height(pivot.left) == hr + 1;
    assert hr <= Height(pivot.right) <= hr + 1;
    var lowered := Fix(HangLeft(t, pivot.right));
    assert Balanced(lowered);
    assert Avl(lowered);
  }

  /** Mirror image of DoubleLeftRestores. */
  lemma DoubleRightRestores(t: Tree)
    requires t.Node? && t.left.Node? && Avl(t.left) && Avl(t.right)
    requires Height(t.left) == Height(t.right) + 2 && Factor(t.left) > 0
    ensures t.left.right.Node?
    ensures Avl(RotateRight(HangLeft(t, RotateLeft(t.left))))
    ensures Height(RotateRight(HangLeft(t, RotateLeft(t.left)))) == Height(t.left)
  {
    var pivot := t.left;
    var hr := Height(t.right);
    assert HeightsOk(pivot) && Balanced(pivot);
    assert Height(pivot.right) == hr + 1 && Height(pivot.left) == hr;
    var grand := pivot.right;
    assert HeightsOk(grand) && Balanced(grand);
    assert hr - 1 <= Height(grand.left) <= hr && hr - 1 <= Height(grand.right) <= hr;
    var lowered := Fix(HangRight(pivot, grand.left));
    assert Balanced(lowered);
    assert Avl(lowered) && Height(lowered) == Height(t.right) + 1;
    var raised := Fix(HangLeft(grand, lowered));
    assert RotateLeft(pivot) == raised;
    var top := HangLeft(t, raised);
    var lowered2 := Fix(HangLeft(top, grand.right));
    assert Balanced(lowered2);
    assert Avl(lowered2) && Height(lowered2) == Height(t.right) + 1;
    assert RotateRight(top) == Fix(HangRight(raised, lowered2));
  }

  /** `balance` restores AVL shape: when both children are AVL subtrees whose heights differ by
      at most two, the result is an AVL subtree of height max or max + 1 of the children's
      heights; when they already differ by at most one, no rotation happens and only the height
      is recomputed. */
  lemma BalanceRestores(t: Tree)
    requires t.Node? && Avl(t.left) && Avl(t.right)
    requires -2 <= Height(t.right) - Height(t.left) <= 2
    ensures Avl(Balance(t))
    ensures Max(Height(t.left), Height(t.right)) <= Height(Balance(t))
                                                <= Max(Height(t.left), Height(t.right)) + 1
    ensures -1 <= Height(t.right) - Height(t.left) <= 1 ==> Balance(t) == Fix(t)
  {
    var cur := Fix(t);
    if Factor(cur) == 2 {
      if Factor(cur.right) < 0 {
        DoubleLeftRestores(cur);
      } else {
        SingleLeftRestores(cur);
      }
    } else if Factor(cur) == -2 {
      if Factor(cur.left) > 0 {
        DoubleRightRestores(cur);
      } else {
        SingleRightRestores(cur);
      }
    }
  }

  /** The in-order sequence lists exactly the keys of the tree. */
  lemma {:induction false} KeysInorder(t: Tree)
    ensures forall y :: y in Keys(t) <==> y in Inorder(t)
  {
    if t.Node? {
      KeysInorder(t.left);
      KeysInorder(t.right);
    }
  }

  /** Search order holds exactly when the in-order sequence is strictly increasing. */
  lemma BstIffSorted(t: Tree)
    ensures IsBst(t) <==> Sorted(Inorder(t))
  {
    if IsBst(t) {
      BstSorted(t);
    }
    if Sorted(Inorder(t)) {
      SortedBst(t);
    }
  }

  lemma {:induction false} BstSorted(t: Tree)
    requires IsBst(t)
    ensures Sorted(Inorder(t))
  {
    if t.Node? {
      BstSorted(t.left);
      BstSorted(t.right);
      KeysInorder(t.left);
      KeysInorder(t.right);
      SortedJoin(Inorder(t.left), t.key, Inorder(t.right));
    }
  }

  /** Two increasing runs around a separating key form one increasing run. */
  lemma SortedJoin(a: seq<int>, k: int, b: seq<int>)
    requires Sorted(a) && Sorted(b)
    requires forall y :: y in a ==> y < k
    requires forall y :: y in b ==> k < y
    ensures Sorted(a + [k] + b)
  {
    var s := a + [k] + b;
    forall i, j | 0 <= i < j < |s| ensures s[i] < s[j] {
      if j < |a| {
        assert s[i] == a[i] && s[j] == a[j];
      } else if i > |a| {
        assert s[i] == b[i - |a| - 1] && s[j] == b[j - |a| - 1];
      } else {
        assert i < |a| ==> s[i] == a[i] && a[i] in a;
        assert j > |a| ==> s[j] == b[j - |a| - 1] && b[j - |a| - 1] in b;
      }
    }
  }

  lemma {:induction false} SortedBst(t: Tree)
    requires Sorted(Inorder(t))
    ensures IsBst(t)
  {
    if t.Node? {
      var a, b := Inorder(t.left), Inorder(t.right);
      SortedSplit(a, t.key, b);
      SortedBst(t.left);
      SortedBst(t.right);
      KeysInorder(t.left);
      KeysInorder(t.right);
    }
  }

  /** The parts of an increasing run are increasing and stay on their side of the middle key. */
  lemma SortedSplit(a: seq<int>, k: int, b: seq<int>)
    requires Sorted(a + [k] + b)
    ensures Sorted(a) && Sorted(b)
    ensures forall y :: y in a ==> y < k
    ensures forall y :: y in b ==> k < y
  {
    var s := a + [k] + b;
    assert s[|a|] == k;
    forall i, j | 0 <= i < j < |a| ensures a[i] < a[j] {
      assert s[i] == a[i] && s[j] == a[j];
    }
    forall i, j | 0 <= i < j < |b| ensures b[i] < b[j] {
      assert s[|a| + 1 + i] == b[i] && s[|a| + 1 + j] == b[j];
    }
    forall y | y in a ensures y < k {
      var i :| 0 <= i < |a| && a[i] == y;
      assert s[i] == y;
    }
    forall y | y in b ensures k < y {
      var j :| 0 <= j < |b| && b[j] == y;
      assert s[|a| + 1 + j] == y;
    }
  }

  /** In an ordered tree every node holds a different key, so the node count is the key count. */
  lemma {:induction false} BstSize(t: Tree)
    requires IsBst(t)
    ensures |Keys(t)| == |Inorder(t)|
  {
    if t.Node? {
      BstSize(t.left);
      BstSize(t.right);
      assert Keys(t.left) !! Keys(t.right) by {
        forall y | y in Keys(t.left) ensures y !in Keys(t.right) { assert y < t.key; }
      }
      assert t.key !in Keys(t.left) + Keys(t.right);
    }
  }

  /** With stored heights consistent, height 0 means the empty tree and a tree is never higher
      than its node count. */
  lemma {:induction false} HeightBounds(t: Tree)
    requires HeightsOk(t)
    ensures Height(t) == 0 <==> t.Nil?
    ensures Height(t) <= |Inorder(t)|
  {
    if t.Node? {
      HeightBounds(t.left);
      HeightBounds(t.right);
    }
  }

  /** `factor` says which child the stored height follows: the right one when the factor is not
      negative, the left one when it is; in an AVL tree the factor is -1, 0 or 1. */
  lemma FactorSign(t: Tree)
    requires t.Node? && HeightsOk(t)
    ensures Height(t) == 1 + (if Factor(t) < 0 then Height(t.left) else Height(t.right))
    ensures Balanced(t) ==> -1 <= Factor(t) <= 1
  {
  }

  function Fib(n: nat): nat
  {
    if n < 2 then n else Fib(n - 1) + Fib(n - 2)
  }

  lemma {:induction false} FibMonotone(m: nat, n: nat)
    requires m <= n
    ensures Fib(m) <= Fib(n)
    decreases n - m
  {
    if m < n {
      FibMonotone(m + 1, n);
      assert Fib(m) <= Fib(m + 1) by {
        if m >= 1 { assert Fib(m + 1) == Fib(m) + Fib(m - 1); }
      }
    }
  }

  /** The AVL height guarantee: an AVL tree of height h holds at least Fib(h + 2) - 1 nodes, so
      its height grows only logarithmically with its size. */
  lemma {:induction false} AvlMinSize(t: Tree)
    requires Avl(t)
    ensures |Inorder(t)| + 1 >= Fib(Height(t) + 2)
  {
    if t.Node? {
      var h := Height(t);
      AvlMinSize(t.left);
      AvlMinSize(t.right);
      var hl, hr := Height(t.left), Height(t.right);
      assert Fib(h + 2) == Fib(h + 1) + Fib(h);
      if hl >= hr {
        assert hl + 1 == h && hr + 2 >= h;
        FibMonotone(h, hr + 2);
      } else {
        assert hr + 1 == h && hl + 2 >= h;
        FibMonotone(h, hl + 2);
      }
    }
  }
}
