/**
 The capability interface a node kind offers to the stack-safe teardown
 (`DeepSafeDrop` in src/lib.rs), the tri-state outcome of installing a
 back-link, and the two conformant node kinds of the test suite: the singly
 linked `List` and the `BinaryTree`.

 A link simply is the node it owns, so a `Node?` field is an `Option<Link>`.
 Both kinds share one class, told apart by `kind`: `left` is slot 0 (the
 tuple field of `List`, the `left` field of `BinaryTree`), `right` is the
 only positional slot, which only a `BinaryTree` has.
 */
module NodeKinds {

  datatype Kind = ListNode | BinaryTreeNode

  /** Result of `SetParentAtIndex0`. */
  datatype SetParent<L> =
    | YesReplacedChild(child0: L)  // slot 0 held `child0`; the parent replaced it
    | Yes                          // the parent was installed and nothing was evicted
    | No(returnedParent: L)        // the node has no links; the parent comes back

  class Node {
    const kind: Kind
    /** Slot 0: the first child, or during teardown the back-link to the traversal parent. */
    var left: Node?
    /** The positional child (index 1); a list node never has one. */
    var right: Node?

    constructor (kind: Kind, left: Node?, right: Node?)
      requires kind == ListNode ==> right == null
      ensures this.kind == kind && this.left == left && this.right == right
    {
      this.kind := kind;
      this.left := left;
      this.right := right;
    }

    /** All three take operations would report nothing. */
    ghost predicate Exhausted()
      reads this
    {
      left == null && right == null
    }

    /** Takes the link in slot 0, leaving slot 0 empty; a second call yields null. */
    method TakeChildAtIndex0() returns (child: Node?)
      modifies this
      ensures child == old(left) && left == null && right == old(right)
    {
      child := left;
      left := null;
    }

    /**
     Installs `parent` in slot 0. A list node, and a tree node without any
     link, answer `No` and stay as they are; a tree node whose slot 0 is empty
     but whose positional slot is occupied answers `Yes` (see the finding
     `BinaryTreeSetParentAsWritten` below for the code as written).
     */
    method SetParentAtIndex0(parent: Node) returns (r: SetParent<Node>)
      modifies this
      ensures right == old(right)
      ensures old(left) != null ==> r.YesReplacedChild? && r.child0 == old(left) && left == parent
      ensures old(left) == null && (kind == ListNode || old(right) == null) ==>
                r == No(parent) && left == null
      ensures old(left) == null && kind == BinaryTreeNode && old(right) != null ==>
                r == Yes && left == parent
      // the outcome that makes the caller drop the node at once is only given by a node
      // with no links at all (for a list node, given that lists have no positional slot)
      ensures r.No? ==> left == null && (kind == ListNode || right == null)
    {
      if left != null {
        var child0: Node := left;
        r := YesReplacedChild(child0);
        left := parent;
      } else if kind == BinaryTreeNode && right != null {
        left := parent;
        r := Yes;
      } else {
        r := No(parent);
      }
    }

    /** Takes the next positional child; never the slot-0 link, which is reused as the back-link. */
    method TakeNextChildAtPosIndex() returns (child: Node?)
      modifies this
      ensures left == old(left)
      ensures kind == ListNode ==> child == null && right == old(right)
      ensures kind == BinaryTreeNode ==> child == old(right) && right == null
    {
      if kind == ListNode {
        child := null;
      } else {
        child := right;
        right := null;
      }
    }

    /** The slot-0 child if there is one, otherwise the next positional child, otherwise null. */
    method TakeNextChildAtAnyIndex() returns (child: Node?)
      modifies this
      ensures left == null
      ensures old(left) != null ==> child == old(left) && right == old(right)
      ensures old(left) == null && kind == ListNode ==> child == null && right == old(right)
      ensures old(left) == null && kind == BinaryTreeNode ==> child == old(right) && right == null
    {
      child := TakeChildAtIndex0();
      if child == null {
        child := TakeNextChildAtPosIndex();
      }
    }
  }

  /**
   `BinaryTree::set_parent_at_index_0` exactly as written: the outcome and the
   new content of `left`. It looks at `left` only, so it answers `No` for a
   node that still owns a positional child.
   */
  function BinaryTreeSetParentAsWritten(left: Node?, right: Node?, parent: Node): (r: (SetParent<Node>, Node?))
    ensures r.0.No? <==> left == null
    ensures r.0.No? ==> r.0.returnedParent == parent && r.1 == null
    ensures r.0.YesReplacedChild? ==> r.0.child0 == left && r.1 == parent
    ensures !r.0.Yes?
  {
    if left != null then (YesReplacedChild(left as Node), parent) else (No(parent), null)
  }

  /**
   The input that shows the discrepancy: a tree node with an empty slot 0 and a
   positional child is answered `No`, so the traversal would hand a node that
   still owns a child to the leaf teardown, whose exhaustion checks then fail.
   */
  lemma AsWrittenRejectsNodeWithPositionalChild(parent: Node, child: Node)
    ensures var (r, newLeft) := BinaryTreeSetParentAsWritten(null, child, parent);
            r == No(parent) && newLeft == null
  {
  }
}
