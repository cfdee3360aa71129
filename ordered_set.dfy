/** The public face of the container: `Set<T>` with its `root` and `cnt` fields, and its
    bidirectional `iterator` holding the `last` and `cur` node pointers. */
module OrderedSet {
  import opened Balancing
  import opened Positions
  import opened KeyOrder
  import opened Queries
  import opened Mutators

  /** The keys listed by the first `n` entries of `s`. */
  ghost function Prefix(s: seq<int>, n: nat): (r: set<int>)
    requires n <= |s|
    ensures forall y :: y in r <==> y in s[..n]
  {
    set j | 0 <= j < n :: s[j]
  }

  /** One more entry of the prefix adds its key. */
  lemma PrefixNext(s: seq<int>, n: nat)
    requires n < |s|
    ensures Prefix(s, n + 1) == Prefix(s, n) + {s[n]}
  {
  }

  /** The whole in-order sequence lists exactly the keys of the tree. */
  lemma PrefixAll(t: Tree)
    ensures Prefix(Inorder(t), |Inorder(t)|) == Keys(t)
  {
    KeysInorder(t);
    assert Inorder(t)[..|Inorder(t)|] == Inorder(t);
  }

  /** `Set<T>::iterator`. `last` is the node of the largest key (so that `--end()` finds it) and
      `cur` the node the iterator stands on, `Null` at `end()`. `tree` is the whole tree the
      pointers point into; it is not part of the source's state. */
  class Iterator {
    var last: Cursor
    var cur: Cursor
    ghost var tree: Tree

    ghost predicate Valid()
      reads this
    {
      IsBst(tree) && last == FindMax(tree, []) && (cur == Null || IsPos(cur, tree))
    }

    /** How many keys come before the current position. */
    ghost function Pos(): (n: nat)
      requires Valid()
      reads this
      ensures n <= |Inorder(tree)|
    {
      Rank(tree, cur)
    }

    /** `iterator(last_node, cur_node)`. */
    constructor(lastNode: Cursor, curNode: Cursor, ghost whole: Tree)
      requires IsBst(whole) && lastNode == FindMax(whole, [])
      requires curNode == Null || IsPos(curNode, whole)
      ensures Valid() && last == lastNode && cur == curNode && tree == whole
    {
      last, cur, tree := lastNode, curNode, whole;
    }

    /** `operator++`: with a right child, the leftmost node of the right subtree; otherwise climb
        the `prev` links until arriving from a left child, or fall off the root to `end()`. */
    method Next()
      requires Valid() && cur != Null
      modifies this`cur
      ensures Valid() && cur == Successor(tree, old(cur)) && Pos() == old(Pos()) + 1
      ensures cur == Null <==> NoneAbove(tree, old(cur).focus.key)
      ensures cur != Null ==>
        old(cur).focus.key < cur.focus.key && LeastAbove(tree, old(cur).focus.key, cur.focus.key)
    {
      ghost var start := cur;
      ghost var i := Index(cur);
      KeyAtIndex(cur, tree);
      if cur.focus.right.Node? {
        cur := DownRight(cur);
        while cur.focus.left.Node?
          invariant cur.focus.Node? && Plug(cur.focus, cur.path) == tree
          invariant |Lefts(cur.path)| == i + 1
          decreases cur.focus
        {
          cur := DownLeft(cur);
        }
      } else {
        while cur.focus.Node?
          invariant cur == Null || (cur.focus.Node? && Plug(cur.focus, cur.path) == tree)
          invariant cur.focus.Node? ==> |Lefts(cur.path)| + |Inorder(cur.focus)| == i + 1
          invariant cur == Null ==> i + 1 == |Inorder(tree)|
          decreases if cur.focus.Node? then |cur.path| + 1 else 0
        {
          if IsLeftChild(cur) {
            cur := Up(cur);
            break;
          }
          cur := Up(cur);
        }
      }
      StepForward(tree, start, cur);
    }

    /** `operator--`: from `end()` the remembered largest node; with a left child, the rightmost
        node of the left subtree; otherwise climb until arriving from a right child, or fall off
        the root to `end()`. */
    method Prev()
      requires Valid()
      modifies this`cur
      ensures Valid() && cur == Predecessor(tree, old(cur))
      ensures old(Pos()) > 0 ==> Pos() == old(Pos()) - 1
      ensures old(cur) == Null ==> (cur == Null <==> tree.Nil?)
      ensures old(cur) == Null && cur != Null ==> NoneAbove(tree, cur.focus.key)
      ensures old(cur) != Null ==> (cur == Null <==> NoneBelow(tree, old(cur).focus.key))
      ensures old(cur) != Null && cur != Null ==>
        cur.focus.key < old(cur).focus.key && GreatestBelow(tree, old(cur).focus.key, cur.focus.key)
    {
      ghost var start := cur;
      PredecessorIsPrevKey(tree, start);
      if cur == Null {
        cur := last;
        PredecessorByIndex(tree, start, cur);
        return;
      }
      ghost var i := Index(cur);
      KeyAtIndex(cur, tree);
      if cur.focus.left.Node? {
        cur := DownLeft(cur);
        while cur.focus.right.Node?
          invariant cur.focus.Node? && Plug(cur.focus, cur.path) == tree
          invariant |Lefts(cur.path)| + |Inorder(cur.focus)| == i
          decreases cur.focus
        {
          cur := DownRight(cur);
        }
      } else {
        while cur.focus.Node?
          invariant cur == Null || (cur.focus.Node? && Plug(cur.focus, cur.path) == tree)
          invariant cur.focus.Node? ==> |Lefts(cur.path)| == i
          invariant cur == Null ==> i == 0
          decreases if cur.focus.Node? then |cur.path| + 1 else 0
        {
          if IsRightChild(cur) {
            cur := Up(cur);
            break;
          }
          cur := Up(cur);
        }
      }
      PredecessorByIndex(tree, start, cur);
    }

    /** `operator*`: the key of the current node, which is the in-order entry at its position. */
    method Get() returns (k: int)
      requires Valid() && cur != Null
      ensures Pos() < |Inorder(tree)| && k == Inorder(tree)[Pos()]
    {
      KeyAtIndex(cur, tree);
      k := cur.focus.key;
    }

    /** `operator==`: compares the current node pointers. Over the same tree that is the same as
        both being at `end()` or both holding the same key. */
    method Equals(other: Iterator) returns (b: bool)
      requires Valid() && other.Valid() && other.tree == tree
      ensures b <==> Pos() == other.Pos()
      ensures b <==> (cur == Null && other.cur == Null)
                     || (cur != Null && other.cur != Null && cur.focus.key == other.cur.focus.key)
    {
      b := cur == other.cur;
      if cur != Null && other.cur != Null {
        SameKeySamePosition(tree, cur, other.cur);
        PositionIndex(tree, cur);
        PositionIndex(tree, other.cur);
      }
      if cur != Null {
        KeyAtIndex(cur, tree);
      }
      if other.cur != Null {
        KeyAtIndex(other.cur, tree);
      }
    }
  }

  /** `Set<T>`: the root of an ordered AVL tree and the number of its nodes. */
  class Set {
    var root: Tree
    var cnt: nat

    ghost predicate Valid()
      reads this
    {
      IsBst(root) && Avl(root) && cnt == |Inorder(root)|
    }

    /** The keys the set holds. */
    ghost function Elements(): set<int>
      reads this
    {
      Keys(root)
    }

    /** `Set()`: the empty set. */
    constructor()
      ensures Valid() && Elements() == {} && root == Nil && cnt == 0
    {
      root, cnt := Nil, 0;
    }

    /** `clear`. */
    method Clear()
      modifies this
      ensures Valid() && Elements() == {} && root == Nil && cnt == 0
    {
      root, cnt := Nil, 0;
    }

    /** `size`: the node count, which is the number of keys. */
    method Size() returns (n: nat)
      requires Valid()
      ensures n == |Elements()|
    {
      BstSize(root);
      n := cnt;
    }

    /** `empty`. */
    method Empty() returns (b: bool)
      requires Valid()
      ensures b <==> Elements() == {}
    {
      BstSize(root);
      b := cnt == 0;
    }

    /** The private recursive `insert`: counts the new node where it is created. */
    method InsertAt(cur: Tree, elem: int) returns (r: Tree)
      modifies this`cnt
      ensures r == Mutators.Insert(cur, elem)
      ensures cnt + |Inorder(cur)| == old(cnt) + |Inorder(r)|
      decreases cur
    {
      if cur.Nil? {
        cnt := cnt + 1;
        return Leaf(elem);
      }
      if elem < cur.key {
        var child := InsertAt(cur.left, elem);
        r := Balance(HangLeft(cur, child));
      } else if cur.key < elem {
        var child := InsertAt(cur.right, elem);
        r := Balance(HangRight(cur, child));
      } else {
        r := Balance(cur);
      }
    }

    /** The private recursive `erase`: uncounts the node it removes. */
    method EraseAt(cur: Tree, elem: int) returns (r: Tree)
      requires |Inorder(cur)| <= cnt
      modifies this`cnt
      ensures r == Mutators.Erase(cur, elem)
      ensures cnt + |Inorder(cur)| == old(cnt) + |Inorder(r)|
      decreases cur
    {
      if cur.Nil? {
        return Nil;
      }
      if elem < cur.key {
        var child := EraseAt(cur.left, elem);
        r := Balance(HangLeft(cur, child));
      } else if cur.key < elem {
        var child := EraseAt(cur.right, elem);
        r := Balance(HangRight(cur, child));
      } else {
        cnt := cnt - 1;
        if cur.right.Nil? {
          return cur.left;
        }
        var least := FindMin(cur.right, []).focus;
        r := Balance(HangLeft(HangRight(least, EraseMin(cur.right)), cur.left));
      }
    }

    /** `insert`: the new root hangs from no parent. The key is added, and the count grows by one
        exactly when it was absent; a present key leaves the tree as it was. */
    method Insert(elem: int)
      requires Valid()
      modifies this
      ensures Valid() && Elements() == old(Elements()) + {elem}
      ensures cnt == if elem in old(Elements()) then old(cnt) else old(cnt) + 1
      ensures elem in old(Elements()) ==> root == old(root)
    {
      ghost var before := root;
      root := InsertAt(root, elem);
      InsertKeepsInvariants(before, elem);
      BstSize(before);
      BstSize(root);
      if elem in Keys(before) {
        InsertPresentIsNoOp(before, elem);
      }
    }

    /** `erase`: the key is removed, and the count shrinks by one exactly when it was present; an
        absent key leaves the tree as it was. */
    method Erase(elem: int)
      requires Valid()
      modifies this
      ensures Valid() && Elements() == old(Elements()) - {elem}
      ensures cnt == if elem in old(Elements()) then old(cnt) - 1 else old(cnt)
      ensures elem !in old(Elements()) ==> root == old(root)
    {
      ghost var before := root;
      root := EraseAt(root, elem);
      EraseKeepsInvariants(before, elem);
      BstSize(before);
      BstSize(root);
      if elem !in Keys(before) {
        EraseAbsentIsNoOp(before, elem);
      }
    }

    /** `find`: an iterator at the node holding `elem`, or at `end()` when it is absent. */
    method Find(elem: int) returns (it: Iterator)
      requires Valid()
      ensures fresh(it) && it.Valid() && it.tree == root
      ensures it.cur == Null <==> elem !in Elements()
      ensures it.cur != Null ==> it.cur.focus.key == elem
    {
      it := new Iterator(FindMax(root, []), Queries.Find(root, elem, []), root);
    }

    /** `lower_bound`: an iterator at the smallest key not below `elem`, or at `end()` when every
        key is below it. */
    method LowerBound(elem: int) returns (it: Iterator)
      requires Valid()
      ensures fresh(it) && it.Valid() && it.tree == root
      ensures it.cur == Null <==> AllBelow(root, elem)
      ensures it.cur != Null ==>
        it.cur.focus.key in Elements() && elem <= it.cur.focus.key
        && LeastNotBelow(root, elem, it.cur.focus.key)
    {
      it := new Iterator(FindMax(root, []), Queries.LowerBound(root, elem, []), root);
    }

    /** `begin`: the node of the smallest key, or `end()` for an empty set. */
    method Begin() returns (it: Iterator)
      requires Valid()
      ensures fresh(it) && it.Valid() && it.tree == root && it.Pos() == 0
      ensures it.cur == Null <==> Elements() == {}
      ensures it.cur != Null ==> NoneBelow(root, it.cur.focus.key)
    {
      if root.Nil? {
        it := new Iterator(FindMax(root, []), Null, root);
        return;
      }
      var least := FindMin(root, []);
      FindMinIsLeast(root, []);
      it := new Iterator(FindMax(root, []), least, root);
    }

    /** `end`: the position one past the largest key. */
    method End() returns (it: Iterator)
      requires Valid()
      ensures fresh(it) && it.Valid() && it.tree == root && it.cur == Null
      ensures it.Pos() == |Elements()|
    {
      BstSize(root);
      it := new Iterator(FindMax(root, []), Null, root);
    }

    /** `for (const T& elem : other) insert(elem);`: inserts the keys of `other` in order. */
    method InsertAll(other: Set)
      requires Valid() && other.Valid() && other != this
      modifies this
      ensures Valid() && Elements() == old(Elements()) + other.Elements()
    {
      ghost var keys := Inorder(other.root);
      var it := other.Begin();
      var stop := other.End();
      var done := it.Equals(stop);
      while !done
        invariant Valid() && it.Valid() && stop.Valid()
        invariant it.tree == other.root && stop.tree == other.root && stop.cur == Null
        invariant done <==> it.cur == Null
        invariant Elements() == old(Elements()) + Prefix(keys, it.Pos())
        decreases |keys| - it.Pos()
      {
        InsertCurrent(it, old(Elements()));
        done := it.Equals(stop);
      }
      assert it.Pos() == |keys|;
      PrefixAll(other.root);
    }

    /** One round of the copying loop, `insert(*it)` followed by `++it`: the set gains the key
        the iterator passes over. */
    method InsertCurrent(it: Iterator, ghost base: set<int>)
      requires Valid() && it.Valid() && it.cur != Null
      requires Elements() == base + Prefix(Inorder(it.tree), it.Pos())
      modifies this, it`cur
      ensures Valid() && it.Valid() && it.Pos() == old(it.Pos()) + 1
      ensures Elements() == base + Prefix(Inorder(it.tree), it.Pos())
    {
      ghost var keys, n := Inorder(it.tree), it.Pos();
      var key := it.Get();
      Insert(key);
      it.Next();
      PrefixNext(keys, n);
    }

    /** The copy constructor `Set(const Set& other)`. */
    constructor Copy(other: Set)
      requires other.Valid()
      ensures Valid() && Elements() == other.Elements()
    {
      root, cnt := Nil, 0;
      new;
      InsertAll(other);
    }

    /** `operator=`: unless assigned to itself, empties the set and inserts the keys of `other`. */
    method Assign(other: Set)
      requires Valid() && other.Valid()
      modifies this
      ensures Valid() && Elements() == old(other.Elements())
    {
      if this != other {
        Clear();
        InsertAll(other);
      }
    }
  }
}
