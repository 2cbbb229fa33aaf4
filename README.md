# deep_safe_drop, modelled in Dafny

`deep_safe_drop` tears down a deeply nested, exclusively owned tree without
recursion. A node type implements a small capability interface:

- take the child at index 0;
- take the next positional child (index 1 and up);
- take the next child at any index;
- install a back-link to the parent in slot 0.

A node's drop hook then calls `deep_safe_drop`. That function detaches the
root's children one at a time and hands each to `main_deep_safe_drop`. The
traversal walks down through slot-0 children, then positional ones. Each time
it goes down, it stores the way back up in the child's own slot 0. So the
continuation lives inside nodes that are about to be freed, and never on the
call stack. `take_ancestor_next_child` climbs the back-links. On the way up it
frees every node whose positional child and back-link are both gone
(`drop_leaf`), until it finds an ancestor that still owns a positional child.
When no such ancestor is left, only the subtree top is left, and it is freed
last.

The project models this core and the two node kinds of the test suite that
exercise it:

- `nodes.dfy`, module `NodeKinds`: the tri-state `SetParent` outcome and a
  `Node` class. `left` is slot 0 and `right` the positional slot. A `List` node
  has only slot 0; a `BinaryTree` node has both. The trait methods are `Node`
  methods that dispatch on the node's `kind`.
- `trees.dfy`, module `Trees`: ghost descriptions.
  - `Tree` is an owned subtree; `Valid` means it is distinct and agrees with
    the heap.
  - `Spine` is the back-link chain the traversal threads through slot 0.
  - `PostOrder` is the release order. Lemmas show that each step of the
    traversal keeps the release order of what is still owned.
- `deep_safe_drop.dfy`, module `Teardown`: `drop_leaf`, `take_parent`,
  `take_ancestor_next_child`, `main_deep_safe_drop` and `deep_safe_drop`, as
  imperative methods over the heap.
- `harness.dfy`, module `Harness`: the drop hook of a link box, and the field
  drop of an unboxed root value.
- `list.dfy`, module `ListKind`: `List::make` and the `no_stack_overflow` test.
- `binary_tree.dfy`, module `BinaryTreeKind`: `make_fan`, `fan_depth`/`log2`,
  and the `exercise` test.

Releasing a node is modelled as appending it to a ghost sequence `dropped`.
The central result is on `Teardown.MainDeepSafeDrop`: tearing down a subtree
appends exactly its post-order. `Trees.PostOrderExactlyOnce` then shows that
every node is released once and only once. `Trees.SlotZeroBeforePositional`
shows that the slot-0 subtree is released before the positional one.
`Teardown.DeepSafeDrop` leaves the root with no links and releases everything
below it. Every node a teardown releases is left holding no link at all
(`Trees.Released`). The two test scenarios conclude that every boxed node is released
exactly once:

- `ListKind.NoStackOverflow`: `LIST_LEN` = 2^20 nodes.
- `BinaryTreeKind.Exercise`: 2^20 − 2 nodes.

None of the teardown methods calls itself or another method recursively. Each
keeps a fixed number of node references, so the stack use of the modelled
algorithm does not depend on the depth of the tree.

`fan_depth(TREE_SIZE)` is `log2(2^20 + 1) − 1 = 19`
(`BinaryTreeKind.FanDepthOfTreeSize`). So the test fan has 2^20 − 1 nodes, of
which 2^20 − 2 are boxed.

## Model

| member | source | states |
|---|---|---|
| NodeKinds.Node.constructor | tests/basic/binary_tree.rs:4-7 | a node holds the given slot-0 and positional links; a list node has no positional link |
| NodeKinds.Node.TakeChildAtIndex0 | tests/basic/binary_tree.rs:28-30 | returns the slot-0 link and leaves slot 0 empty; the positional slot is untouched |
| NodeKinds.Node.SetParentAtIndex0 | src/lib.rs:44-61 | a node with a slot-0 child hands it back and holds the parent instead; a tree node with only a positional child takes the parent (`Yes`); a node with no links answers `No` with the same parent and is unchanged; `No` is only ever given by a node without links (corrected `BinaryTree` behaviour, see Findings) |
| NodeKinds.Node.TakeNextChildAtPosIndex | tests/basic/binary_tree.rs:42-44 | never touches slot 0; a list node yields nothing; a tree node yields its positional child and is left without one |
| NodeKinds.Node.TakeNextChildAtAnyIndex | src/lib.rs:23-27 | yields the slot-0 child when there is one, otherwise the next positional child; slot 0 is empty afterwards |
| NodeKinds.BinaryTreeSetParentAsWritten | tests/basic/binary_tree.rs:32-40 | the code as written answers `No` exactly when slot 0 is empty, whatever the positional slot holds, and never answers `Yes` |
| NodeKinds.AsWrittenRejectsNodeWithPositionalChild | tests/basic/binary_tree.rs:32-40 | a tree node with an empty slot 0 and a positional child is answered `No` and keeps no back-link |
| Trees.PostOrderLength | src/lib.rs:113-163 | the release order of a subtree has one entry per node |
| Trees.PostOrderElems | src/lib.rs:113-163 | the release order contains exactly the nodes of the subtree |
| Trees.PostOrderExactlyOnce | src/lib.rs:153-157 | in a subtree with exclusive ownership, every node is released, and none twice |
| Trees.SlotZeroBeforePositional | src/lib.rs:121-135 | every node of the slot-0 subtree is released before every node of the positional subtree and before the node itself |
| Trees.DescendKeepsOrder | src/lib.rs:125-129 | descending into the slot-0 child, with the node pushed as a frame over its positional subtree, keeps the release order |
| Trees.DescendPositionalKeepsOrder | src/lib.rs:130-135 | descending into the positional child of a node with an empty slot 0 keeps the release order |
| Trees.LeafKeepsOrder | src/lib.rs:140-143 | releasing a leaf at once keeps the release order |
| Trees.TakePendingKeepsOrder | src/lib.rs:99-100 | taking an ancestor's positional subtree as the next subtree to visit keeps the release order |
| Trees.ReleaseFrameKeepsOrder | src/lib.rs:102-104 | releasing an ancestor whose positional subtree is gone and moving to its parent keeps the release order |
| Trees.ClimbStop | src/lib.rs:89-110 | the climb stops at a frame that has a pending positional subtree, or at the top of the chain, which has no back-link |
| Trees.ClimbKeepsOrder | src/lib.rs:89-110 | releasing the frames passed on the way up, innermost first, then the stopping frame's pending subtree, keeps the release order |
| Trees.ClimbStopShape | src/lib.rs:89-110 | after the climb, the pending subtree and the shortened chain are disjoint parts of the old chain, with the same top; the climb stops without a subtree only at the top; owned nodes never grow and strictly shrink when a subtree is taken from a chain with nothing pending below |
| Trees.DetachKeepsOrder | src/lib.rs:177-179 | detaching the root's first child (slot 0, else positional) and tearing it down first keeps the release order of the root's subtree |
| Teardown.DropLeaf | src/lib.rs:64-76 | only a node all three take operations report empty for is released, and exactly that node is |
| Teardown.TakeParent | src/lib.rs:79-87 | yields the back-link and leaves slot 0 empty, so a second take yields nothing |
| Teardown.ClimbOnce | src/lib.rs:98-109 | an ancestor with a pending positional child hands it out and keeps its back-link; otherwise it had nothing pending, its back-link is taken and it is left with no links, released if it had a back-link, or else left as the top |
| Teardown.TakeAncestorNextChild | src/lib.rs:89-110 | stops at `ClimbStop` of the chain, takes exactly that frame's pending positional subtree and leaves the frame with nothing pending above the same chain; releases exactly the frames it passed (`Passed`), innermost first, each left with no link; with no child found the ancestor it stops at is a leaf |
| Teardown.Visit | src/lib.rs:123-145 | with a slot-0 child: descends into it, pushing `cur` as a frame over its positional subtree; with only a positional child: descends into it, pushing `cur` with nothing pending; with no link: releases `cur`, left without links, and keeps the chain; in every case the release order and ownership are kept, the nodes given up hold no links, and descending enters a strictly smaller subtree |
| Teardown.Ascend | src/lib.rs:146-151 | after a leaf, the climb hands out the next subtree to visit and keeps the release order and ownership; with no child left, only the top remains, a leaf, and every other node holds no link |
| Teardown.Step | src/lib.rs:122-161 | one turn of the loop keeps the release order; either it ends with the whole subtree released and every node without links, or it keeps ownership and the given-up nodes linkless and makes progress on a well-founded measure |
| Teardown.MainDeepSafeDrop | src/lib.rs:113-163 | the whole subtree of `top` is released, in post-order, `top` last, and no node of it is left holding a link |
| Teardown.DeepSafeDrop | src/lib.rs:165-180 | afterwards the root has no links, everything below it has been released in post-order, and no node of the subtree holds a link |
| Harness.DropLink | tests/basic/list.rs:64-69 | dropping a link box releases its whole subtree in post-order, the boxed node last, and leaves no node of it holding a link |
| Harness.DropValue | tests/basic/list.rs:72-73 | dropping an unboxed root value releases everything below it, slot 0's subtree first, in post-order, and leaves none of it holding a link |
| ListKind.LayersSize | tests/basic/list.rs:8-13 | `k` list layers over a tail hold `k` more nodes than the tail |
| ListKind.MakeList | tests/basic/list.rs:8-13 | `make(size, tail)` builds `size + 1` new list nodes, each owning the next through slot 0, over `tail` |
| ListKind.NoStackOverflow | tests/basic/list.rs:40-74 | the test builds a chain of `LIST_LEN + 1` list nodes; dropping it releases its `LIST_LEN` boxed nodes in order, each exactly once, and leaves none holding a link |
| BinaryTreeKind.Pow2Constants | tests/basic/main.rs:13 | `TREE_SIZE` is 2^20, and the 64-bit `usize` has 2^64 values |
| BinaryTreeKind.LeadingZeros | tests/basic/binary_tree.rs:83 | the leading zeros of a 64-bit word: all 64 for zero, otherwise the highest set bit is bit `63 - r` |
| BinaryTreeKind.Log2 | tests/basic/binary_tree.rs:82-84 | the floor of the base-2 logarithm of a positive word |
| BinaryTreeKind.FanDepth | tests/basic/binary_tree.rs:81-88 | the depth of the largest fan with at most `size` nodes |
| BinaryTreeKind.FanDepthOfTreeSize | tests/basic/binary_tree.rs:90 | the test's fan has depth 19, hence 2^20 − 1 nodes |
| BinaryTreeKind.TreeSizeFanSize | tests/basic/binary_tree.rs:90 | the test's fan holds `TREE_SIZE - 1` nodes |
| BinaryTreeKind.FanSize | tests/basic/binary_tree.rs:11-23 | a fan of depth `d` has 2^(d+1) − 1 nodes |
| BinaryTreeKind.FanIsFull | tests/basic/binary_tree.rs:11-23 | in a fan every node owns two children or none |
| BinaryTreeKind.FullNodesAgree | tests/basic/binary_tree.rs:32-40 | on such trees the `set_parent_at_index_0` as written answers `No` exactly for leaves, as the corrected one does |
| BinaryTreeKind.MakeFan | tests/basic/binary_tree.rs:11-23 | `make_fan(depth)` builds a fresh, exclusively owned fan of that depth |
| BinaryTreeKind.Exercise | tests/basic/binary_tree.rs:48-92 | the test builds a fan of depth `fan_depth(TREE_SIZE)`; dropping it releases its 2^20 − 2 boxed nodes in post-order, each exactly once, and leaves none holding a link |

## Left out

- Stack depth is not a quantity in Dafny. The model shows only that no teardown method recurses and that each holds a fixed number of node references. The `stack_overflow` test (tests/basic/list.rs:77-91), which overflows on purpose, is not modelled.
- Freeing memory is modelled as appending the node to the ghost sequence `dropped`. Running a box's drop hook on a node released by `drop_leaf` does nothing, because such a node has no links, so that hook is not modelled.
- Teardown.DropLeaf, Teardown.TakeParent: the `debug_assert!` exhaustion checks are preconditions or postconditions, not runtime checks that could panic. In release builds they do not run, and the model does not show that difference.
- Teardown.MainDeepSafeDrop: when `top` has no child, the source frees `top` when its binding goes out of scope. The model releases it explicitly at that point.
- Generic links: `Link` and `Node` are generic over `BorrowMut`. The model fixes one link type, the node itself, and the two node kinds of the tests. `Borrow::borrow`, which the tests declare unreachable, is not modelled.
- The `dyn_trait` test kind, `make_stretched_fan` in tests/basic/main.rs, and the copies of the tests under src/tests/ are not part of this model.
- The `BinaryTree` `Yes` outcome: the corrected `SetParentAtIndex0` answers `Yes` for a tree node with only a positional child. Test fans never build such a node.
- BinaryTreeKind.LeadingZeros, BinaryTreeKind.Log2, BinaryTreeKind.FanDepth: `usize` is taken to be 64 bits wide. The `assert!` of `fan_depth` is a precondition rather than a panic.
- BinaryTreeKind.Exercise: the teardown runs the corrected `set_parent_at_index_0`. That the code as written behaves the same on fans is shown only node by node for a full tree (`BinaryTreeKind.FullNodesAgree`), not carried through the traversal, whose intermediate states are not full trees.
- `List::make` folds over a range. The model writes the fold as a loop.

## Findings

| source | as written | input that shows it | evidently intended | confidence | as-written member | corrected member |
|---|---|---|---|---|---|---|
| tests/basic/binary_tree.rs:32-40 | `set_parent_at_index_0` answers `No` whenever `left` is empty, so a node that still owns a `right` child is handed to `drop_leaf` as a leaf, whose `debug_assert!` exhaustion checks then fail | a `BinaryTree` node with `left == None` and `right == Some(_)`, which `No`'s documentation (src/lib.rs:55-56) rules out | answer `No` only for a node without links; with an empty `left` and a `right` child, install the parent and answer `Yes` | medium, not executed | NodeKinds.AsWrittenRejectsNodeWithPositionalChild | NodeKinds.Node.SetParentAtIndex0 |
