/**
 The stack-safe teardown of src/lib.rs. It releases a whole owned subtree
 without recursion: when it descends into a child it stores the way back up in
 that child's own slot 0, so the continuation lives inside nodes that are
 about to be released instead of on the call stack. None of the methods below
 calls itself or another method recursively, and each keeps a fixed number of
 node references (the cursor `parent`, `cur`), whatever the depth of the tree.

 Releasing a node is modelled as appending it to the ghost sequence `dropped`;
 the contracts say that a teardown appends exactly the post-order of the tree,
 which by `Trees.PostOrderExactlyOnce` releases every node exactly once.
 */
module Teardown {
  import opened NodeKinds
  import opened Trees

  /**
   Releases a node already known to be a leaf. The consistency checks of the
   source (all three take operations report nothing) are the precondition.
   */
  method DropLeaf(link: Node, ghost dropped: seq<Node>) returns (ghost dropped': seq<Node>)
    requires link.Exhausted()
    ensures dropped' == dropped + [link]
  {
    dropped' := dropped + [link];
  }

  /** Reads the back-link out of slot 0, leaving slot 0 empty so that a second read yields nothing. */
  method TakeParent(node: Node) returns (parent: Node?)
    modifies node
    ensures parent == old(node.left) && node.left == null && node.right == old(node.right)
  {
    parent := node.TakeChildAtIndex0();
  }

  /**
   One round of the climb in `TakeAncestorNextChild`, at the innermost frame
   `s`: takes `ancestor`'s positional child if it has one; otherwise takes its
   back-link and, if there is one, releases `ancestor`, which has no link left.
   */
  method ClimbOnce(ancestor: Node, ghost s: Spine, ghost dropped: seq<Node>)
    returns (nextChild: Node?, grandancestor: Node?, ghost dropped': seq<Node>)
    requires s.Frame? && s.node == ancestor && SpineDistinct(s) && SpineLinked(s)
    modifies ancestor
    ensures SpineLinked(s.above) && Linked(s.pending)
    ensures nextChild != null ==>
              && nextChild == Link(s.pending) && grandancestor == null && dropped' == dropped
              && ancestor.left == Up(s.above) && ancestor.right == null
    ensures nextChild == null ==> s.pending.Empty? && grandancestor == Up(s.above) && ancestor.Exhausted()
    ensures nextChild == null && grandancestor != null ==> dropped' == dropped + [ancestor]
    ensures nextChild == null && grandancestor == null ==> dropped' == dropped
  {
    ghost var above, pending := s.above, s.pending;
    SpineFootprintAllocated(above);
    FootprintAllocated(pending);
    assert SpineLinked(above) && Linked(pending);
    assert ancestor !in SpineFootprint(above) && ancestor !in Footprint(pending);
    dropped' := dropped;
    grandancestor := null;
    nextChild := ancestor.TakeNextChildAtPosIndex();
    if nextChild == null {
      grandancestor := TakeParent(ancestor);
      if grandancestor != null {
        // `ancestor` now has neither a positional child nor a back-link: it is a leaf
        dropped' := DropLeaf(ancestor, dropped);
      }
    }
  }

  /**
   Climbs from `parent` to the nearest ancestor that still has a positional
   child and takes that child, releasing on the way every ancestor whose
   positional child and back-link are both gone. When no such ancestor exists
   it stops at the top of the chain, the only node without a back-link, and
   returns no child.
   */
  method TakeAncestorNextChild(parent: Node, ghost spine: Spine, ghost dropped: seq<Node>)
    returns (ancestor: Node, nextChild: Node?, ghost spine': Spine, ghost child: Tree, ghost dropped': seq<Node>)
    requires spine.Frame? && spine.node == parent
    requires SpineDistinct(spine) && SpineLinked(spine)
    modifies SpineFootprint(spine)
    // it stops at the nearest frame with a pending positional subtree, or at the top, and
    // takes that subtree (`Trees.ClimbStopShape` and `Trees.ClimbKeepsOrder` say what is left)
    ensures ancestor == ClimbStop(spine).node && child == ClimbStop(spine).pending
    ensures spine' == Frame(ClimbStop(spine).node, Empty, ClimbStop(spine).above)
    ensures SpineLinked(spine') && Linked(child) && Link(child) == nextChild
    // it releases exactly the frames it passed, innermost first, and leaves them without links
    ensures dropped' == dropped + Passed(spine)
    ensures Released(SpineFootprint(spine) - (Footprint(child) + SpineFootprint(spine')))
    // with no child found, the ancestor is itself now a leaf
    ensures nextChild == null ==> ancestor.Exhausted()
  {
    ancestor := parent;
    ghost var s := spine;
    ghost var passed := dropped + Passed(spine);
    dropped' := dropped;
    while true
      invariant s.Frame? && s.node == ancestor
      invariant SpineDistinct(s) && SpineLinked(s)
      invariant SpineFootprint(s) <= SpineFootprint(spine)
      invariant ClimbStop(s) == ClimbStop(spine)
      invariant dropped' + Passed(s) == passed
      invariant Released(SpineFootprint(spine) - SpineFootprint(s))
      decreases s
    {
      ghost var before := dropped';
      ghost var gone := SpineFootprint(spine) - SpineFootprint(s);
      SpineFootprintAllocated(spine);
      assert ancestor !in gone;
      var grandancestor;
      nextChild, grandancestor, dropped' := ClimbOnce(ancestor, s, dropped');
      assert Released(gone);
      if nextChild != null {
        spine', child := Frame(ancestor, Empty, s.above), s.pending;
        EmptyRight(before);
        assert SpineFootprint(s) == Footprint(child) + SpineFootprint(spine');
        break;
      }
      if grandancestor == null {
        spine', child := s, Empty;
        EmptyRight(before);
        assert SpineFootprint(s) == Footprint(child) + SpineFootprint(spine');
        break;
      }
      ReleasePassed(before, s);
      assert Released(SpineFootprint(s) - SpineFootprint(s.above));
      ReleasedTrans(SpineFootprint(spine), SpineFootprint(s), SpineFootprint(s.above));
      ancestor, s := grandancestor, s.above;
    }
  }

  /**
   One visit of the descent: installs the back-link `parent` in `cur`'s slot 0
   and moves down to the child that this evicts, or else to `cur`'s positional
   child. When `cur` has no link at all it is released at once and `next` is
   null.
   */
  method Visit(cur: Node, parent: Node, ghost curT: Tree, ghost spine: Spine, ghost dropped: seq<Node>, ghost all: set<Node>)
    returns (next: Node?, parent': Node, ghost curT': Tree, ghost spine': Spine, ghost dropped': seq<Node>)
    requires curT.Branch? && curT.node == cur && spine.Frame? && spine.node == parent
    requires SpineDistinct(spine) && SpineLinked(spine) && Distinct(curT) && Linked(curT)
    requires Footprint(curT) !! SpineFootprint(spine)
    requires Footprint(curT) + SpineFootprint(spine) <= all
    requires Released(all - (Footprint(curT) + SpineFootprint(spine)))
    modifies cur
    // a slot-0 child: `cur` now holds the back-link and becomes the innermost frame, its
    // positional subtree pending, and the descent goes on with the slot-0 child
    ensures curT.left.Branch? ==>
              && next == curT.left.node && parent' == cur && dropped' == dropped
              && curT' == curT.left && spine' == Frame(cur, curT.right, spine)
    // only a positional child: `cur` holds the back-link, nothing is left pending, and the
    // descent goes on with the positional child
    ensures curT.left.Empty? && curT.right.Branch? ==>
              && next == curT.right.node && parent' == cur && dropped' == dropped
              && curT' == curT.right && spine' == Frame(cur, Empty, spine)
    // no link at all: `cur` is released at once and the chain is as it was
    ensures curT.left.Empty? && curT.right.Empty? ==>
              && next == null && parent' == parent && dropped' == dropped + [cur] && cur.Exhausted()
              && curT' == Empty && spine' == spine
    ensures spine'.Frame? && spine'.node == parent' && Link(curT') == next
    ensures SpineDistinct(spine') && SpineLinked(spine') && Distinct(curT') && Linked(curT')
    ensures Footprint(curT') !! SpineFootprint(spine')
    ensures Footprint(curT') + SpineFootprint(spine') <= all
    // the nodes given up so far have given up their links
    ensures Released(all - (Footprint(curT') + SpineFootprint(spine')))
    ensures next == null ==> Released(all - SpineFootprint(spine')) && SpineFootprint(spine') <= all
    ensures dropped' + PostOrder(curT') + Remaining(spine') == dropped + PostOrder(curT) + Remaining(spine)
    ensures next != null ==> Size(curT') + SpineSize(spine') <= Size(curT) + SpineSize(spine) && Size(curT') < Size(curT)
    ensures next == null ==> Size(curT') + SpineSize(spine') < Size(curT) + SpineSize(spine)
  {
    ghost var l, r := curT.left, curT.right;
    FootprintAllocated(l);
    FootprintAllocated(r);
    SpineFootprintAllocated(spine);
    assert Linked(l) && Linked(r) && SpineLinked(spine);
    assert cur !in Footprint(l) && cur !in Footprint(r) && cur !in SpineFootprint(spine);
    ghost var live := Footprint(curT) + SpineFootprint(spine);
    assert cur !in all - live;
    var outcome := cur.SetParentAtIndex0(parent);
    assert Linked(l) && Linked(r) && SpineLinked(spine);
    assert Released(all - live);
    match outcome {
      case YesReplacedChild(child0) =>
        next, parent' := child0, cur;
        curT', spine', dropped' := l, Frame(cur, r, spine), dropped;
        DescendKeepsOrder(dropped, curT, spine);
      case Yes =>
        // slot 0 was empty: go on with the positional child, if any
        next := cur.TakeNextChildAtPosIndex();
        assert Linked(l) && Linked(r) && SpineLinked(spine);
        assert Released(all - live);
        parent' := cur;
        curT', spine', dropped' := r, Frame(cur, Empty, spine), dropped;
        DescendPositionalKeepsOrder(dropped, curT, spine);
      case No(returnedParent) =>
        // `cur` has no links at all: it is a leaf
        parent' := returnedParent;
        dropped' := DropLeaf(cur, dropped);
        next, curT', spine' := null, Empty, spine;
        LeafKeepsOrder(dropped, curT, spine);
        ReleasedTrans(all, live, Footprint(curT') + SpineFootprint(spine'));
        assert Footprint(curT') + SpineFootprint(spine') == SpineFootprint(spine');
    }
  }

  /**
   The climb of the main loop, once the current node has been released: finds
   the next subtree to visit with `TakeAncestorNextChild`, or finds that only
   the top is left.
   */
  method Ascend(parent: Node, ghost spine: Spine, ghost dropped: seq<Node>, ghost all: set<Node>)
    returns (ancestor: Node, nextChild: Node?, ghost spine': Spine, ghost child: Tree, ghost dropped': seq<Node>)
    requires spine.Frame? && spine.node == parent && SpineDistinct(spine) && SpineLinked(spine)
    requires SpineFootprint(spine) <= all && Released(all - SpineFootprint(spine))
    modifies SpineFootprint(spine)
    ensures spine'.Frame? && spine'.node == ancestor
    ensures SpineDistinct(spine') && SpineLinked(spine') && Distinct(child) && Linked(child) && Link(child) == nextChild
    ensures Footprint(child) !! SpineFootprint(spine')
    ensures Footprint(child) + SpineFootprint(spine') <= all
    ensures Released(all - (Footprint(child) + SpineFootprint(spine')))
    ensures dropped' + PostOrder(child) + Remaining(spine') == dropped + Remaining(spine)
    ensures Size(child) + SpineSize(spine') <= SpineSize(spine)
    // with no child found, only the top is left, itself now a leaf
    ensures nextChild == null ==> spine' == Frame(ancestor, Empty, Nil) && ancestor.Exhausted() && Released(all)
  {
    SpineFootprintAllocated(spine);
    ghost var gone := all - SpineFootprint(spine);
    ancestor, nextChild, spine', child, dropped' := TakeAncestorNextChild(parent, spine, dropped);
    assert Released(gone);
    ReleasedTrans(all, SpineFootprint(spine), Footprint(child) + SpineFootprint(spine'));
    ClimbStopShape(spine);
    ClimbKeepsOrder(dropped, spine);
    if nextChild == null {
      assert Released(all - {ancestor}) && Released({ancestor});
      ReleasedWith(all, {ancestor});
    }
  }

  /**
   One turn of the traversal loop of `main_deep_safe_drop`: a visit, followed,
   when the visited node turned out to be a leaf, by the climb to the nearest
   ancestor still holding a child. `done` says the climb reached the top with
   nothing left, in which case the top has been released as well.
   */
  method Step(cur: Node, parent: Node, ghost curT: Tree, ghost spine: Spine, ghost dropped: seq<Node>, ghost all: set<Node>)
    returns (done: bool, cur': Node, parent': Node, ghost curT': Tree, ghost spine': Spine, ghost dropped': seq<Node>)
    requires spine.Frame? && spine.node == parent
    requires curT.Branch? && curT.node == cur
    requires SpineDistinct(spine) && SpineLinked(spine) && Distinct(curT) && Linked(curT)
    requires Footprint(curT) !! SpineFootprint(spine)
    requires Footprint(curT) + SpineFootprint(spine) <= all
    requires Released(all - (Footprint(curT) + SpineFootprint(spine)))
    modifies all
    ensures dropped' + PostOrder(curT') + Remaining(spine') == dropped + PostOrder(curT) + Remaining(spine)
    ensures done ==> curT'.Empty? && spine'.Nil? && Released(all)
    ensures !done ==> spine'.Frame? && spine'.node == parent' && curT'.Branch? && curT'.node == cur'
    ensures !done ==> SpineDistinct(spine') && SpineLinked(spine') && Distinct(curT') && Linked(curT')
    ensures !done ==> Footprint(curT') !! SpineFootprint(spine')
    ensures !done ==> Footprint(curT') + SpineFootprint(spine') <= all
    ensures !done ==> Released(all - (Footprint(curT') + SpineFootprint(spine')))
    ensures !done ==> (Size(curT') + SpineSize(spine') < Size(curT) + SpineSize(spine) ||
      (Size(curT') + SpineSize(spine') == Size(curT) + SpineSize(spine) && Size(curT') < Size(curT)))
  {
    var next;
    next, parent', curT', spine', dropped' := Visit(cur, parent, curT, spine, dropped, all);
    if next != null {
      done, cur' := false, next;
      return;
    }
    EmptyKeepsOrder(dropped', spine');
    var ancestorChild;
    ghost var d0 := dropped';
    parent', ancestorChild, spine', curT', dropped' := Ascend(parent', spine', dropped', all);
    if ancestorChild == null {
      // `parent'` is now `top`, with no links left
      TopKeepsOrder(dropped', parent');
      ghost var d1 := dropped';
      dropped' := DropLeaf(parent', dropped');
      assert dropped' + PostOrder(Empty) + Remaining(Nil) == d1 + [parent'] by { EmptyRight(dropped'); }
      done, cur', curT', spine' := true, parent', Empty, Nil;
      return;
    }
    done, cur' := false, ancestorChild;
  }

  /**
   Tears down the subtree owned by `top` completely: descends through slot-0
   children first, then positional ones, storing back-links in slot 0, and
   climbs back releasing exhausted nodes. Every node of the subtree, `top`
   included and last, is released exactly once, in post-order, and no node is
   left holding a link.
   */
  method MainDeepSafeDrop(top: Node, ghost t: Tree, ghost dropped: seq<Node>) returns (ghost dropped': seq<Node>)
    requires t.Branch? && t.node == top && Distinct(t) && Linked(t)
    modifies Footprint(t)
    ensures dropped' == dropped + PostOrder(t)
    ensures Released(Footprint(t))
  {
    FootprintAllocated(t.left);
    FootprintAllocated(t.right);
    var parent := top;
    var first := parent.TakeNextChildAtAnyIndex();
    if first == null {
      // `top` has no child: there is nothing to traverse, and `top` itself is released as a
      // leaf when the binding that owns it goes out of scope
      assert t.left.Empty? && t.right.Empty?;
      assert Footprint(t) == {top};
      assert Released(Footprint(t));
      assert PostOrder(t) == [] + [] + [top];
      EmptyLeft([top]);
      dropped' := DropLeaf(parent, dropped);
      return;
    }
    assert Linked(t.left) && Linked(t.right);
    var cur: Node := first;
    ghost var curT, spine;
    StartKeepsOrder(dropped, t);
    if t.left.Branch? {
      curT, spine := t.left, Frame(top, t.right, Nil);
      DescendKeepsOrder(dropped, t, Nil);
    } else {
      curT, spine := t.right, Frame(top, Empty, Nil);
      DescendPositionalKeepsOrder(dropped, t, Nil);
    }
    dropped' := dropped;
    ghost var total := dropped + PostOrder(t);
    while true
      invariant spine.Frame? && spine.node == parent
      invariant curT.Branch? && curT.node == cur
      invariant SpineDistinct(spine) && SpineLinked(spine) && Distinct(curT) && Linked(curT)
      invariant Footprint(curT) !! SpineFootprint(spine)
      invariant Footprint(curT) + SpineFootprint(spine) <= Footprint(t)
      // every node the traversal no longer holds has given up its links
      invariant Released(Footprint(t) - (Footprint(curT) + SpineFootprint(spine)))
      invariant dropped' + PostOrder(curT) + Remaining(spine) == total
      decreases Size(curT) + SpineSize(spine), Size(curT)
    {
      var done;
      done, cur, parent, curT, spine, dropped' := Step(cur, parent, curT, spine, dropped', Footprint(t));
      if done {
        assert dropped' + [] + [] == total;
        EmptyRight(dropped');
        EmptyRight(dropped' + []);
        break;
      }
    }
  }

  /**
   The entry point, called from a node's drop hook: detaches the children of
   `root` one at a time and tears each down completely, until `root` reports no
   child at any index. `root` itself is not released here.
   */
  method DeepSafeDrop(root: Node, ghost t: Tree, ghost dropped: seq<Node>) returns (ghost dropped': seq<Node>)
    requires t.Branch? && t.node == root && Distinct(t) && Linked(t)
    modifies Footprint(t)
    ensures root.left == null && root.right == null
    ensures dropped' + [root] == dropped + PostOrder(t)
    ensures Released(Footprint(t))
  {
    FootprintAllocated(t);
    ghost var rest := t;  // `root` with the children it still owns
    ghost var total := dropped + PostOrder(t);
    dropped' := dropped;
    while true
      invariant rest.Branch? && rest.node == root && Distinct(rest) && Linked(rest)
      invariant Footprint(rest) <= Footprint(t)
      invariant Released(Footprint(t) - Footprint(rest))
      invariant dropped' + PostOrder(rest) == total
      decreases Size(rest)
    {
      ghost var l, r := rest.left, rest.right;
      ghost var gone := Footprint(t) - Footprint(rest);
      FootprintAllocated(l);
      FootprintAllocated(r);
      assert Linked(l) && Linked(r) && root !in Footprint(l) && root !in Footprint(r) && root !in gone;
      var nextChild := root.TakeNextChildAtAnyIndex();
      assert Linked(l) && Linked(r) && Released(gone);
      if nextChild == null {
        assert PostOrder(rest) == [root];
        assert Footprint(rest) == {root} && Released({root});
        ReleasedWith(Footprint(t), {root});
        break;
      }
      ghost var child, rest';
      if l.Branch? {
        child, rest' := l, Branch(root, Empty, r);
      } else {
        assert r.Branch?;
        child, rest' := r, Branch(root, Empty, Empty);
      }
      DetachKeepsOrder(dropped', rest);
      ghost var before := dropped';
      assert Footprint(child) !! gone;
      dropped' := MainDeepSafeDrop(nextChild, child, dropped');
      assert dropped' == before + PostOrder(child);
      assert Released(gone) && Released(Footprint(rest) - Footprint(rest'));
      ReleasedTrans(Footprint(t), Footprint(rest), Footprint(rest'));
      assert Size(rest') < Size(rest);
      rest := rest';
    }
  }
}
