/** A node pointer together with the chain of `prev` back-links that leads from it to the root.
    The source stores that chain in the nodes; here it is an explicit path of frames, so that
    "the parent's left child is this node" holds by construction. */
module Positions {
  import opened Balancing

  /** The parent of a node as seen from the node: `LeftOf` when the node hangs on the parent's
      left, `RightOf` when it hangs on its right. The frame keeps the parent's other fields. */
  datatype Frame =
    | LeftOf(key: int, right: Tree, height: nat)
    | RightOf(left: Tree, key: int, height: nat)

  /** `focus` is the node the pointer designates; `path` holds its ancestors, the root's frame
      first and the immediate parent's frame last. The null pointer, which is also the `end()`
      position, is `Null`. */
  datatype Cursor = Cursor(focus: Tree, path: seq<Frame>)

  const Null: Cursor := Cursor(Nil, [])

  /** The parent node rebuilt around its child. */
  function Wrap(f: Frame, child: Tree): Tree
  {
    match f
    case LeftOf(k, r, h) => Node(child, k, r, h)
    case RightOf(l, k, h) => Node(l, k, child, h)
  }

  /** The whole tree that contains `t` at the place described by `path`. */
  function Plug(t: Tree, path: seq<Frame>): Tree
    decreases |path|
  {
    if path == [] then t else Wrap(path[0], Plug(t, path[1..]))
  }

  /** The keys a frame contributes before its child in in-order. */
  ghost function Before(f: Frame): seq<int>
  {
    match f
    case LeftOf(_, _, _) => []
    case RightOf(l, k, _) => Inorder(l) + [k]
  }

  /** The keys a frame contributes after its child in in-order. */
  ghost function After(f: Frame): seq<int>
  {
    match f
    case LeftOf(k, r, _) => [k] + Inorder(r)
    case RightOf(_, _, _) => []
  }

  ghost function Lefts(path: seq<Frame>): seq<int>
    decreases |path|
  {
    if path == [] then [] else Before(path[0]) + Lefts(path[1..])
  }

  ghost function Rights(path: seq<Frame>): seq<int>
    decreases |path|
  {
    if path == [] then [] else Rights(path[1..]) + After(path[0])
  }

  /** `c` designates a node of `t`. */
  ghost predicate IsPos(c: Cursor, t: Tree)
  {
    c.focus.Node? && Plug(c.focus, c.path) == t
  }

  /** The in-order index of the designated node within the whole tree. */
  ghost function Index(c: Cursor): nat
    requires c.focus.Node?
  {
    |Lefts(c.path)| + |Inorder(c.focus.left)|
  }

  /** `cur->prev && cur->prev->left == cur`. */
  predicate IsLeftChild(c: Cursor)
  {
    c.path != [] && c.path[|c.path| - 1].LeftOf?
  }

  /** `cur->prev && cur->prev->right == cur`. */
  predicate IsRightChild(c: Cursor)
  {
    c.path != [] && c.path[|c.path| - 1].RightOf?
  }

  lemma {:induction false} PlugSnoc(t: Tree, p: seq<Frame>, f: Frame)
    ensures Plug(t, p + [f]) == Plug(Wrap(f, t), p)
    decreases |p|
  {
    if p == [] {
      assert p + [f] == [f];
    } else {
      var q := p + [f];
      assert q[0] == p[0] && q[1..] == p[1..] + [f];
      PlugSnoc(t, p[1..], f);
    }
  }

  lemma {:induction false} LeftsSnoc(p: seq<Frame>, f: Frame)
    ensures Lefts(p + [f]) == Lefts(p) + Before(f)
    decreases |p|
  {
    if p == [] {
      assert p + [f] == [f];
    } else {
      var q := p + [f];
      assert q[0] == p[0] && q[1..] == p[1..] + [f];
      LeftsSnoc(p[1..], f);
    }
  }

  lemma {:induction false} RightsSnoc(p: seq<Frame>, f: Frame)
    ensures Rights(p + [f]) == After(f) + Rights(p)
    decreases |p|
  {
    if p == [] {
      assert p + [f] == [f];
    } else {
      var q := p + [f];
      assert q[0] == p[0] && q[1..] == p[1..] + [f];
      RightsSnoc(p[1..], f);
    }
  }

  lemma PathSnoc(t: Tree, p: seq<Frame>, f: Frame)
    ensures Plug(t, p + [f]) == Plug(Wrap(f, t), p)
    ensures Lefts(p + [f]) == Lefts(p) + Before(f)
    ensures Rights(p + [f]) == After(f) + Rights(p)
  {
    PlugSnoc(t, p, f);
    LeftsSnoc(p, f);
    RightsSnoc(p, f);
  }

  /** The in-order sequence of the whole tree is what lies left of the path, then the subtree,
      then what lies right of the path. */
  lemma {:induction false} PlugInorder(t: Tree, p: seq<Frame>)
    ensures Inorder(Plug(t, p)) == Lefts(p) + Inorder(t) + Rights(p)
    decreases |p|
  {
    if p != [] {
      var rest := p[1..];
      PlugInorder(t, rest);
      PlugInorderStep(t, p);
    }
  }

  /** One frame of `PlugInorder`: wrapping the next parent around the subtree. */
  lemma PlugInorderStep(t: Tree, p: seq<Frame>)
    requires p != []
    requires Inorder(Plug(t, p[1..])) == Lefts(p[1..]) + Inorder(t) + Rights(p[1..])
    ensures Inorder(Plug(t, p)) == Lefts(p) + Inorder(t) + Rights(p)
  {
    var inner := Plug(t, p[1..]);
    InorderWrap(p[0], inner);
    var x, a, m, b, y := Before(p[0]), Lefts(p[1..]), Inorder(t), Rights(p[1..]), After(p[0]);
    assert Plug(t, p) == Wrap(p[0], inner);
    assert Lefts(p) == x + a;
    assert Rights(p) == b + y;
    Regroup(x, a, m, b, y);
  }

  /** Concatenation regrouped, spelled out for the solver. */
  lemma Regroup(x: seq<int>, a: seq<int>, m: seq<int>, b: seq<int>, y: seq<int>)
    ensures x + (a + m + b) + y == (x + a) + m + (b + y)
  {
  }

  /** A parent rebuilt around a child lists its frame's keys around the child's. */
  lemma InorderWrap(f: Frame, t: Tree)
    ensures Inorder(Wrap(f, t)) == Before(f) + Inorder(t) + After(f)
  {
    match f
    case LeftOf(k, r, h) => {
      assert Inorder(t) + [k] + Inorder(r) == [] + Inorder(t) + ([k] + Inorder(r));
    }
    case RightOf(l, k, h) => {
    }
  }

  /** `cur = cur->left`: the child's frame records the node it hangs under. */
  function DownLeft(c: Cursor): (r: Cursor)
    requires c.focus.Node?
    ensures r.focus == c.focus.left && IsLeftChild(r)
    ensures Plug(r.focus, r.path) == Plug(c.focus, c.path)
    ensures Lefts(r.path) == Lefts(c.path)
  {
    var f := LeftOf(c.focus.key, c.focus.right, c.focus.height);
    PathSnoc(c.focus.left, c.path, f);
    Cursor(c.focus.left, c.path + [f])
  }

  /** `cur = cur->right`. */
  function DownRight(c: Cursor): (r: Cursor)
    requires c.focus.Node?
    ensures r.focus == c.focus.right && IsRightChild(r)
    ensures Plug(r.focus, r.path) == Plug(c.focus, c.path)
    ensures Lefts(r.path) == Lefts(c.path) + Inorder(c.focus.left) + [c.focus.key]
  {
    var f := RightOf(c.focus.left, c.focus.key, c.focus.height);
    PathSnoc(c.focus.right, c.path, f);
    Cursor(c.focus.right, c.path + [f])
  }

  /** `cur = cur->prev`: the parent, or null above the root. Going up and then down the side
      the node hangs on leads back to the node, and the whole tree stays the same. */
  function Up(c: Cursor): (r: Cursor)
    ensures c.path == [] ==> r == Null
    ensures c.path != [] ==> r.focus.Node?
    ensures IsLeftChild(c) ==> DownLeft(r) == c
    ensures IsRightChild(c) ==> DownRight(r) == c
  {
    if c.path == [] then Null
    else
      var n := |c.path| - 1;
      assert c.path == c.path[..n] + [c.path[n]];
      Cursor(Wrap(c.path[n], c.focus), c.path[..n])
  }

  /** Parent consistency, the property `hang_left` and `hang_right` maintain: the `prev` of a
      node's child is the node itself. */
  lemma ParentLinks(c: Cursor)
    requires c.focus.Node?
    ensures Up(DownLeft(c)) == c && Up(DownRight(c)) == c
  {
    var l, r := DownLeft(c), DownRight(c);
    assert l.path[..|l.path| - 1] == c.path;
    assert r.path[..|r.path| - 1] == c.path;
  }

  /** The designated key sits at the cursor's in-order index. */
  lemma KeyAtIndex(c: Cursor, t: Tree)
    requires IsPos(c, t)
    ensures Index(c) < |Inorder(t)| && Inorder(t)[Index(c)] == c.focus.key
  {
    PlugInorder(c.focus, c.path);
    assert Inorder(t) == Lefts(c.path) + (Inorder(c.focus.left) + [c.focus.key] + Inorder(c.focus.right)) + Rights(c.path);
  }

  /** The node of in-order index `i` in `t`, reached from a tree placed at `p`. */
  ghost function CursorAt(t: Tree, i: nat, p: seq<Frame>): Cursor
    requires i < |Inorder(t)|
    decreases t
  {
    if i < |Inorder(t.left)| then
      CursorAt(t.left, i, p + [LeftOf(t.key, t.right, t.height)])
    else if i == |Inorder(t.left)| then
      Cursor(t, p)
    else
      CursorAt(t.right, i - |Inorder(t.left)| - 1, p + [RightOf(t.left, t.key, t.height)])
  }

  /** The lookup of index `i` ends on a node of the same whole tree, and that node has index `i`
      within the tree placed at `p`. */
  lemma {:induction false} CursorAtPlaces(t: Tree, i: nat, p: seq<Frame>)
    requires i < |Inorder(t)|
    ensures CursorAt(t, i, p).focus.Node?
    ensures Plug(CursorAt(t, i, p).focus, CursorAt(t, i, p).path) == Plug(t, p)
    ensures Index(CursorAt(t, i, p)) == |Lefts(p)| + i
    decreases t
  {
    if i < |Inorder(t.left)| {
      var f := LeftOf(t.key, t.right, t.height);
      PathSnoc(t.left, p, f);
      CursorAtPlaces(t.left, i, p + [f]);
    } else if i > |Inorder(t.left)| {
      var f := RightOf(t.left, t.key, t.height);
      PathSnoc(t.right, p, f);
      CursorAtPlaces(t.right, i - |Inorder(t.left)| - 1, p + [f]);
    }
  }

  /** The position of in-order index `i`, or `Null` one past the last key. */
  ghost function At(t: Tree, i: nat): (c: Cursor)
    requires i <= |Inorder(t)|
  {
    if i == |Inorder(t)| then Null else CursorAt(t, i, [])
  }

  lemma {:induction false} PathUnique(t: Tree, p: seq<Frame>, f: Tree, q: seq<Frame>)
    requires f.Node? && Plug(f, q) == t
    ensures |Lefts(q)| + |Inorder(f.left)| < |Inorder(t)|
    ensures CursorAt(t, |Lefts(q)| + |Inorder(f.left)|, p) == Cursor(f, p + q)
    decreases |q|
  {
    if q == [] {
      assert p + q == p;
    } else {
      var inner := Plug(f, q[1..]);
      PathUnique(inner, p + [q[0]], f, q[1..]);
      assert p + [q[0]] + q[1..] == p + q;
      var j := |Lefts(q[1..])| + |Inorder(f.left)|;
      assert CursorAt(t, |Before(q[0])| + j, p) == CursorAt(inner, j, p + [q[0]]);
      assert t == Wrap(q[0], inner);
      assert |Lefts(q)| + |Inorder(f.left)| == |Before(q[0])| + j;
    }
  }

  /** Node positions and in-order indexes correspond one to one: every position is the one its
      index names, and the position an index names has that index. */
  lemma PositionIndex(t: Tree, c: Cursor)
    requires IsPos(c, t)
    ensures Index(c) < |Inorder(t)| && At(t, Index(c)) == c
  {
    PathUnique(t, [], c.focus, c.path);
    assert [] + c.path == c.path;
  }

  lemma IndexPosition(t: Tree, i: nat)
    requires i < |Inorder(t)|
    ensures IsPos(At(t, i), t) && Index(At(t, i)) == i
  {
    CursorAtPlaces(t, i, []);
  }

  /** Where a cursor stands: its index, or the number of keys at `Null`. */
  ghost function Rank(t: Tree, c: Cursor): (n: nat)
    requires c == Null || IsPos(c, t)
    ensures n <= |Inorder(t)|
  {
    if c == Null then |Inorder(t)| else KeyAtIndex(c, t); Index(c)
  }

  /** The position after a node: the next index, or `Null` after the last one. */
  ghost function Successor(t: Tree, c: Cursor): Cursor
    requires IsPos(c, t)
  {
    KeyAtIndex(c, t);
    At(t, Index(c) + 1)
  }

  /** The position before a cursor: the previous index; `Null` before the first key; the last
      key before `Null`. */
  ghost function Predecessor(t: Tree, c: Cursor): Cursor
    requires c == Null || IsPos(c, t)
  {
    var i := Rank(t, c);
    if i == 0 then Null else At(t, i - 1)
  }

  /** A position is the successor of a node when its index is one more, `Null` when the node
      holds the last key. */
  lemma SuccessorByIndex(t: Tree, c: Cursor, d: Cursor)
    requires IsPos(c, t) && (d == Null || IsPos(d, t))
    requires d == Null ==> Index(c) + 1 == |Inorder(t)|
    requires d != Null ==> Index(d) == Index(c) + 1
    ensures d == Successor(t, c)
  {
    if d != Null {
      PositionIndex(t, d);
    }
  }

  /** A position is the predecessor of a cursor when its index is one less, `Null` when the
      cursor stands on the first key. */
  lemma PredecessorByIndex(t: Tree, c: Cursor, d: Cursor)
    requires (c == Null || IsPos(c, t)) && (d == Null || IsPos(d, t))
    requires d == Null ==> Rank(t, c) == 0
    requires d != Null ==> Index(d) + 1 == Rank(t, c)
    ensures d == Predecessor(t, c)
  {
    if d != Null {
      PositionIndex(t, d);
    }
  }

  /** `--(++it) == it` and `++(--it) == it` away from the boundaries. */
  lemma RoundTrip(t: Tree, c: Cursor)
    requires c == Null || IsPos(c, t)
    ensures c != Null && Successor(t, c) != Null ==>
      IsPos(Successor(t, c), t) && Predecessor(t, Successor(t, c)) == c
    ensures Predecessor(t, c) != Null ==>
      IsPos(Predecessor(t, c), t) && Successor(t, Predecessor(t, c)) == c
  {
    if c != Null {
      PositionIndex(t, c);
      if Successor(t, c) != Null {
        IndexPosition(t, Index(c) + 1);
      }
    }
    var i := Rank(t, c);
    if i > 0 {
      IndexPosition(t, i - 1);
    }
  }
}
