/**
 The test-suite side of a teardown: the `Drop` hook every link box of the
 tests installs, and the drop glue of an unboxed root value.
 */
module Harness {
  import opened NodeKinds
  import opened Trees
  import opened Teardown

  /** The number of nodes the tests build: 2^20. */
  const TREE_SIZE: nat := 0x10_0000

  /**
   Dropping a link box (`ListBox`, `BinaryTreeBox`): its `Drop` hook tears
   down the children of the boxed node with `DeepSafeDrop`, and then the box
   is freed, releasing the node itself, now without links. The whole subtree
   is released, in post-order.
   */
  method DropLink(link: Node, ghost t: Tree, ghost dropped: seq<Node>) returns (ghost dropped': seq<Node>)
    requires t.Branch? && t.node == link && Valid(t)
    modifies Footprint(t)
    ensures dropped' == dropped + PostOrder(t)
    ensures Released(Footprint(t))
  {
    dropped' := DeepSafeDrop(link, t, dropped);
    // freeing the box releases the node, which owns nothing any more
    dropped' := dropped' + [link];
  }

  /**
   Dropping an unboxed root value (the `list` and `fan` locals of the tests):
   its fields are dropped in declaration order, slot 0 first, each through the
   hook of its box. The value itself is not a node on the heap and is not
   released.
   */
  method DropValue(root: Node, ghost t: Tree, ghost dropped: seq<Node>) returns (ghost dropped': seq<Node>)
    requires t.Branch? && t.node == root && Valid(t)
    modifies Footprint(t.left) + Footprint(t.right)
    ensures dropped' + [root] == dropped + PostOrder(t)
    ensures Released(Footprint(t.left) + Footprint(t.right))
  {
    ghost var l, r := t.left, t.right;
    FootprintAllocated(l);
    FootprintAllocated(r);
    dropped' := dropped;
    if root.left != null {
      dropped' := DropLink(root.left, l, dropped');
    }
    assert Linked(r);
    assert Released(Footprint(l));
    if root.right != null {
      dropped' := DropLink(root.right, r, dropped');
    }
    assert Released(Footprint(l)) && Released(Footprint(r));
    ReleasedWith(Footprint(l) + Footprint(r), Footprint(r));
    assert dropped' == dropped + PostOrder(l) + PostOrder(r);
    Assoc(dropped + PostOrder(l), PostOrder(r), [root]);
    Assoc(dropped, PostOrder(l), PostOrder(r));
    Assoc(dropped, PostOrder(l) + PostOrder(r), [root]);
  }
}
