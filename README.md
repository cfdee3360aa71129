# AVL-balanced ordered set

This project models `Set<T>` from `avl_tree.h`, an ordered set of distinct keys. The set is kept in
an AVL tree: a binary search tree in which, at every node, the heights of the two subtrees differ
by at most one. Each node stores its height and a `prev` pointer to its parent. The set counts
its nodes in `cnt`. Its bidirectional `iterator` holds two node pointers:

- `cur`, the node it stands on (null at `end()`);
- `last`, the node of the largest key, so that `--end()` can find it.

The model is split into six modules.

- `Balancing` (`balancing.dfy`) models the private helpers `height`, `factor`, `fix`,
  `hang_left`, `hang_right`, `rotate_left`, `rotate_right` and `balance`. `rotate_*` and
  `balance` return the new subtree root. `fix` and `hang_*` update a node in place and are
  modelled as functions returning the updated node. `height` and `factor` are functions
  returning numbers.
  This module also defines the invariants: `IsBst` for the search order, and `Avl` for correct
  stored heights with balance factors in -1..1. It proves that `balance` restores the AVL shape
  after a child's height changed by one, and that an AVL tree's size grows exponentially with
  its height.
- `Positions` (`positions.dfy`) models node pointers together with their `prev` chains as
  cursors. A cursor is the node plus the path of frames from the root down to its parent.
  `DownLeft`, `DownRight` and `Up` are `cur->left`, `cur->right` and `cur->prev`. Every position
  corresponds to exactly one in-order index. The successor and predecessor of a position are
  defined through that index.
- `KeyOrder` (`key_order.dfy`) reads those index-level facts as key-level facts for an ordered
  tree. The successor holds the least larger key, and the predecessor the greatest smaller key.
- `Queries` (`queries.dfy`) models `find_min`, `find_max`, `find` and `lower_bound`.
- `Mutators` (`mutators.dfy`) models the private recursive `insert`, `erase_min` and `erase`. It
  proves that each keeps the search order and the AVL shape, changes the height by at most one,
  and adds or removes exactly the given key.
- `OrderedSet` (`ordered_set.dfy`) holds the two classes. `Set` has the `root` and `cnt` fields,
  and `Iterator` has the `last` and `cur` fields. The public operations are methods that change
  those fields.
  - `operator++` and `operator--` are the source's loops, proved against `Successor` and
    `Predecessor`.
  - The private `insert` and `erase` are recursive methods that update `cnt` exactly where the
    source does. They are proved equal to the pure `Mutators` functions.
  - The copy constructor and `operator=` iterate over the other set from `begin()` to `end()`,
    as the range-for loop of the source does.

Keys are `int`, compared with `<` only, as the source compares `T` values.

## Model

| member | source | states |
|---|---|---|
| Balancing.Fix | avl_tree.h:23-25 | the stored height becomes one more than the higher child; keys, order and balance factor are unchanged; a node whose heights were already right is unchanged |
| Balancing.HangLeft | avl_tree.h:27-31 | the node gets `child` as its left subtree: its in-order sequence is the child's, then the node key, then the right subtree's; the stored height is not updated |
| Balancing.HangRight | avl_tree.h:33-37 | the mirror image of `HangLeft` for the right subtree |
| Balancing.RotateRight | avl_tree.h:39-46 | the left child becomes the root and the old root its right child; the in-order sequence is unchanged, search order is kept, and with consistent heights in both children every stored height of the result is consistent (the two `fix` calls) |
| Balancing.RotateLeft | avl_tree.h:48-55 | the right child becomes the root and the old root its left child; the in-order sequence is unchanged, search order is kept, and with consistent heights in both children every stored height of the result is consistent (the two `fix` calls) |
| Balancing.Balance | avl_tree.h:57-70 | rebalancing never changes the in-order sequence of keys, keeps search order, and leaves every stored height consistent when both children's heights were |
| Balancing.SingleLeftRestores | avl_tree.h:59-62 | at factor +2 with a right child not leaning left, one left rotation gives an AVL subtree at most one level above the right child |
| Balancing.DoubleLeftRestores | avl_tree.h:59-62 | at factor +2 with a right child leaning left, the right-then-left double rotation gives an AVL subtree as high as the right child |
| Balancing.SingleRightRestores | avl_tree.h:64-67 | the mirror image of `SingleLeftRestores` at factor -2 |
| Balancing.DoubleRightRestores | avl_tree.h:64-67 | the mirror image of `DoubleLeftRestores` at factor -2 |
| Balancing.BalanceRestores | avl_tree.h:57-70 | for AVL children whose heights differ by at most two, `balance` yields an AVL subtree no lower than the higher child and at most one level above it; with children already in balance it only recomputes the height |
| Balancing.KeysInorder | avl_tree.h:228-233 | a key is in the tree exactly when it is in the in-order sequence |
| Balancing.BstIffSorted | avl_tree.h:77-80 | a tree is in search order exactly when its in-order sequence strictly increases |
| Balancing.BstSize | avl_tree.h:164-166 | in a search-ordered tree the number of distinct keys equals the number of nodes, so `cnt` counts keys |
| Balancing.HeightBounds | avl_tree.h:13-17 | `height`: with correct stored heights, height 0 means an empty subtree and the height never exceeds the node count |
| Balancing.FactorSign | avl_tree.h:19-21 | `factor`: with correct stored heights, the node's height follows the right child when the factor is not negative and the left child when it is; in an AVL tree the factor is -1, 0 or 1 |
| Balancing.AvlMinSize | avl_tree.h:57-70 | an AVL tree of height h has at least Fib(h+2)-1 nodes, so its height is logarithmic in its size |
| Positions.DownLeft | avl_tree.h:256-257 | `cur = cur->left` stays in the same whole tree, lands on the left child, and keeps the keys before the position |
| Positions.DownRight | avl_tree.h:254-255 | `cur = cur->right` stays in the same whole tree, and the keys before the position grow by the left subtree and the node key |
| Positions.Up | avl_tree.h:260-264 | `cur = cur->prev` is null above the root; otherwise going down the side the node hangs on leads back to it |
| Positions.ParentLinks | avl_tree.h:27-37 | the `prev` of a node's left or right child is the node itself |
| Positions.KeyAtIndex | avl_tree.h:301-303 | the key of the node a position designates is the in-order key at the position's index |
| Positions.PositionIndex | avl_tree.h:228-233 | every node position is the position its in-order index names |
| Positions.IndexPosition | avl_tree.h:228-233 | every in-order index names a node position with that index |
| Positions.PathUnique | avl_tree.h:228-233 | a node placed in the whole tree is found again by descending to its in-order index |
| Positions.SuccessorByIndex | avl_tree.h:253-268 | a position one index further, or null after the last index, is the successor |
| Positions.PredecessorByIndex | avl_tree.h:276-293 | a position one index back, or null before the first index, is the predecessor |
| Positions.RoundTrip | avl_tree.h:253-293 | `--` undoes `++` on a node that is not the last, and `++` undoes `--` whenever `--` lands on a node |
| KeyOrder.SuccessorIsNextKey | avl_tree.h:253-268 | the successor holds the least key larger than the current one, and is null exactly when the current key is the largest |
| KeyOrder.StepForward | avl_tree.h:253-268 | a position one index further is the successor, one rank further, and holds the next larger key |
| KeyOrder.PredecessorIsPrevKey | avl_tree.h:276-293 | before `end()` comes the largest key (null in an empty tree); before a node comes the greatest smaller key, and null exactly when the node holds the smallest key |
| KeyOrder.SameKeySamePosition | avl_tree.h:309-311 | in an ordered tree two positions are equal exactly when they hold the same key |
| Queries.FindMin | avl_tree.h:84-88 | stops at a node without a left child, in the same whole tree, holding the first in-order key |
| Queries.FindMax | avl_tree.h:90-96 | null exactly for an empty subtree; otherwise a node without a right child holding the last in-order key |
| Queries.FindMinIsLeast | avl_tree.h:84-88 | in an ordered subtree `find_min` holds its smallest key |
| Queries.FindMaxIsGreatest | avl_tree.h:90-96 | in an ordered subtree `find_max` holds its largest key |
| Queries.Find | avl_tree.h:128-136 | the answer is null or a node of the same whole tree holding the key; in an ordered tree it is null exactly when the key is absent |
| Queries.BelowRight | avl_tree.h:141-142 | below a node whose key is smaller, every key is smaller exactly when every key of the right subtree is |
| Queries.LowerBound | avl_tree.h:138-147 | the answer holds a key not below `x`, the least such key; in an ordered tree it is null exactly when every key is below `x` |
| Mutators.Leaf | avl_tree.h:235 | a new node is a single AVL leaf holding exactly the key |
| Mutators.Insert | avl_tree.h:72-82 | the result is a node and its keys are the old keys plus the new one |
| Mutators.EraseMin | avl_tree.h:98-103 | the in-order sequence loses exactly its first entry |
| Mutators.Erase | avl_tree.h:105-126 | the result keeps every key other than `x` and gains none |
| Mutators.BalanceKeepsAvl | avl_tree.h:57-70 | `balance` leaves an AVL node unchanged |
| Mutators.InsertKeepsInvariants | avl_tree.h:72-82 | insertion keeps search order and the AVL shape, and grows the height by at most one |
| Mutators.InsertLeft | avl_tree.h:77-78 | after insertion into the left subtree, `balance` repairs the node |
| Mutators.InsertRight | avl_tree.h:79-80 | after insertion into the right subtree, `balance` repairs the node |
| Mutators.InsertPresentIsNoOp | avl_tree.h:72-82 | inserting a key that is present leaves the tree unchanged |
| Mutators.EraseMinKeepsInvariants | avl_tree.h:98-103 | removing the minimum keeps search order and the AVL shape, removes exactly the smallest key, and lowers the height by at most one |
| Mutators.EraseKeepsInvariants | avl_tree.h:105-126 | erasing keeps search order and the AVL shape, removes exactly `x`, and lowers the height by at most one |
| Mutators.EraseReplacesByMin | avl_tree.h:118-123 | replacing the erased node by the minimum of its right subtree gives an ordered AVL subtree without the erased key |
| Mutators.MinReplacesRoot | avl_tree.h:120-122 | the node rebuilt from the left subtree, the right minimum and the rest of the right subtree is ordered and holds every key but the erased one |
| Mutators.ShrunkLeft | avl_tree.h:108-109 | a left subtree that lost at most one level is repaired by `balance`, and the node loses at most one level |
| Mutators.ShrunkRight | avl_tree.h:110-111 | the mirror image of `ShrunkLeft` |
| Mutators.EraseAbsentIsNoOp | avl_tree.h:105-126 | erasing an absent key leaves the tree unchanged |
| OrderedSet.Iterator.constructor | avl_tree.h:249 | the iterator holds the given `last` and `cur` nodes |
| OrderedSet.Iterator.Next | avl_tree.h:253-268 | `++` moves to the successor, one rank further; it reaches `end()` exactly from the largest key, and otherwise lands on the least larger key |
| OrderedSet.Iterator.Prev | avl_tree.h:276-293 | `--` moves to the predecessor, one rank back; from `end()` it lands on the largest key, and otherwise on the greatest smaller key, or on null exactly from the smallest key |
| OrderedSet.Iterator.Get | avl_tree.h:301-303 | `*it` is the in-order key at the iterator's rank |
| OrderedSet.Iterator.Equals | avl_tree.h:309-311 | two iterators over one tree are equal exactly when they are at the same rank, that is both at `end()` or both on the same key |
| OrderedSet.Set.constructor | avl_tree.h:152 | a new set is empty with count 0 |
| OrderedSet.Set.Clear | avl_tree.h:158-162 | the set becomes empty with count 0 |
| OrderedSet.Set.Size | avl_tree.h:164-166 | the count is the number of keys |
| OrderedSet.Set.Empty | avl_tree.h:168-170 | true exactly when the set holds no key |
| OrderedSet.Set.InsertAt | avl_tree.h:72-82 | the recursive insert computes `Mutators.Insert`, and the count grows by the number of nodes added |
| OrderedSet.Set.EraseAt | avl_tree.h:105-126 | the recursive erase computes `Mutators.Erase`, and the count shrinks by the number of nodes removed |
| OrderedSet.Set.Insert | avl_tree.h:172-175 | the key is added, the invariants hold, the count grows by one exactly when the key was absent, and a present key leaves the tree unchanged |
| OrderedSet.Set.Erase | avl_tree.h:177-181 | the key is removed, the invariants hold, the count shrinks by one exactly when the key was present, and an absent key leaves the tree unchanged |
| OrderedSet.Set.Find | avl_tree.h:208-210 | the iterator is at `end()` exactly when the key is absent, and otherwise on the key |
| OrderedSet.Set.LowerBound | avl_tree.h:212-214 | the iterator is at the least key not below `elem`, or at `end()` exactly when every key is below it |
| OrderedSet.Set.Begin | avl_tree.h:216-220 | the iterator is at rank 0: on the smallest key, or at `end()` exactly for an empty set |
| OrderedSet.Set.End | avl_tree.h:222-224 | the iterator is at null, one rank past the last key |
| OrderedSet.Set.InsertAll | avl_tree.h:195-196 | walking `other` from `begin()` to `end()` and inserting each key adds exactly the keys of `other` |
| OrderedSet.Set.InsertCurrent | avl_tree.h:195-196 | one round of that loop adds the key under the iterator and advances it by one rank |
| OrderedSet.Set.Copy | avl_tree.h:194-197 | the copy holds exactly the keys of `other` |
| OrderedSet.Set.Assign | avl_tree.h:199-206 | after assignment the set holds exactly the keys `other` held, including on self-assignment |

## Left out

- Memory management is not modelled: the destructors, `delete`, and `new` as allocation (avl_tree.h:117, 154-162, 237-240). Trees are values, so nothing leaks or dangles.
- In-place pointer updates and aliasing are not modelled. A node pointer is a cursor, that is a value, and the mutators return new subtrees instead of relinking nodes.
- The `prev` fields are not stored. A cursor's path holds the chain of parents, so the `root->prev = nullptr` assignments (avl_tree.h:174, 180) and the relinking of `prev` in `hang_left`/`hang_right` hold by construction. `Positions.ParentLinks` states the resulting consistency.
- Iterators that survive a mutation are not modelled. In the source, `insert` (avl_tree.h:72-82) never frees or moves a node, `erase` frees only the erased node (avl_tree.h:117), and every relink of a node that stays in the tree goes through `hang_left`/`hang_right`, which keep `prev` right, or is the `root->prev = nullptr` of the public wrappers (avl_tree.h:174, 180). So an iterator's `cur` stays valid across any insert and any erase of another key, and `++`/`--` then walk the new tree: in {1,2,3}, `it = find(2)`, then insert 4, then `++it; ++it` reaches 4. Only `last` (avl_tree.h:246) goes stale: after a new maximum is inserted, `--` on an old `end()` lands on the old maximum (avl_tree.h:278), and after the maximum is erased, `last` dangles. In the model each iterator walks the ghost tree it was made for, so in that example the two steps reach `end()`. `OrderedSet.Iterator.Equals` compares only iterators over the same tree for the same reason.
- `OrderedSet.Iterator.Next`, `OrderedSet.Iterator.Get`: calling them at `end()` dereferences a null pointer in the source. Here that case is excluded by a precondition.
- The post-increment and post-decrement operators (avl_tree.h:270-274, 295-299) only copy the iterator around the pre-forms. They are not modelled separately.
- The pre-increment and pre-decrement operators return a by-value copy of the moved iterator (avl_tree.h:253, 267, 276, 292). `OrderedSet.Iterator.Next` and `OrderedSet.Iterator.Prev` move the iterator and return nothing, so an expression such as `--(++it)`, which in the source decrements a temporary, is not modelled.
- The iterator copy constructor (avl_tree.h:251) is not modelled separately.
- `operator->` (avl_tree.h:305-307) is not modelled, because it only returns the address of the key `operator*` reads.
- `operator!=` (avl_tree.h:313-315) is not modelled, because it is the negation of `operator==`.
- The iterator-range constructor and the `initializer_list` constructor (avl_tree.h:183-192) are not modelled: their input sequences come from outside the set. Each inserts one key at a time with the `Insert` that is modelled.
- Keys are `int` in place of the template parameter `T`. The model uses only `<` on keys, as the source does.
- The stored height is an `unsigned char` (avl_tree.h:230), modelled as a `nat`. `Balancing.AvlMinSize` bounds the height logarithmically, so it cannot reach 256 for any tree that fits in memory.
- `ROTATE_FACTOR` is a `size_t` equal to 2 (avl_tree.h:4). The comparisons `factor == ROTATE_FACTOR` and `factor == -ROTATE_FACTOR` are modelled as the integer comparisons with 2 and -2. The unsigned wrap-around of `-ROTATE_FACTOR` makes the source compare equal in exactly those cases.
- `size_t cnt` is a `nat`. It never exceeds the node count, so it cannot wrap.
