/**
 The `List` fixture of the test suite: a singly linked chain whose slot 0 is
 its only link, built by `List::make` and torn down through the `ListBox`
 drop hook.
 */
module ListKind {
  import opened NodeKinds
  import opened Trees
  import opened Harness

  /** The chain length of the tests: `TREE_SIZE`. */
  const LIST_LEN: nat := TREE_SIZE

  /** `t` is `k` list nodes, each owning the next through slot 0, ending in `tail`. */
  ghost predicate Layers(t: Tree, k: nat, tail: Tree) {
    if k == 0 then t == tail
    else t.Branch? && t.node.kind == ListNode && t.right.Empty? && Layers(t.left, k - 1, tail)
  }

  lemma {:induction false} LayersSize(t: Tree, k: nat, tail: Tree)
    requires Layers(t, k, tail)
    ensures Size(t) == k + Size(tail)
  {
    if k > 0 {
      LayersSize(t.left, k - 1, tail);
    }
  }

  /**
   `List::make(size, tail)`: starts from the value `List(tail)` and wraps it
   `size` times, each time boxing the value built so far as the slot-0 link of
   a new one. The result is `size + 1` new list nodes over `tail`, the outermost
   being the returned (unboxed) value.
   */
  method MakeList(size: nat, tail: Node?, ghost tailT: Tree) returns (list: Node, ghost t: Tree)
    requires Valid(tailT) && Link(tailT) == tail
    ensures t.Branch? && t.node == list && Valid(t)
    ensures Layers(t, size + 1, tailT)
    ensures fresh(Footprint(t) - Footprint(tailT))
  {
    FootprintAllocated(tailT);
    list := new Node(ListNode, tail, null);
    t := Branch(list, tailT, Empty);
    for i := 0 to size
      invariant t.Branch? && t.node == list && Valid(t)
      invariant Layers(t, i + 1, tailT)
      invariant fresh(Footprint(t) - Footprint(tailT))
    {
      FootprintAllocated(t);
      list := new Node(ListNode, list, null);
      t := Branch(list, t, Empty);
    }
  }

  /**
   The `no_stack_overflow` test: a chain of `LIST_LEN` boxed nodes under one
   unboxed value is built and dropped with the hook installed. Every boxed node
   is released, each exactly once, and none is left holding a link.
   */
  method NoStackOverflow() returns (ghost dropped: seq<Node>, ghost t: Tree)
    ensures Layers(t, LIST_LEN + 1, Empty) && Distinct(t)
    ensures dropped + [t.node] == PostOrder(t)
    ensures |dropped| == LIST_LEN && NoDup(dropped)
    ensures Released(Footprint(t.left))
  {
    var list;
    list, t := MakeList(LIST_LEN, null, Empty);
    dropped := DropValue(list, t, []);
    assert [] + PostOrder(t) == PostOrder(t);
    LayersSize(t, LIST_LEN + 1, Empty);
    PostOrderLength(t);
    PostOrderExactlyOnce(t);
    assert dropped == PostOrder(t)[..|dropped|];
  }
}
