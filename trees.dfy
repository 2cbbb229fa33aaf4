/**
 Ghost descriptions of what the teardown works on: an exclusively owned tree
 of nodes, the back-link chain the traversal threads through slot 0, and the
 order in which the traversal releases nodes (post-order: slot-0 subtree,
 then the positional subtree, then the node itself).
 */
module Trees {
  import opened NodeKinds

  /** An owned tree: `Branch(n, l, r)` is node `n` owning subtree `l` in slot 0 and `r` positionally. */
  datatype Tree = Empty | Branch(node: Node, left: Tree, right: Tree)

  /** The link a slot holds when it owns `t`. */
  function Link(t: Tree): Node? {
    if t.Empty? then null else t.node
  }

  ghost function Footprint(t: Tree): set<Node> {
    if t.Empty? then {} else {t.node} + Footprint(t.left) + Footprint(t.right)
  }

  function Size(t: Tree): nat {
    if t.Empty? then 0 else 1 + Size(t.left) + Size(t.right)
  }

  /** No node is owned twice: each link has exactly one holder. */
  ghost predicate Distinct(t: Tree) {
    t.Branch? ==>
      && t.node !in Footprint(t.left)
      && t.node !in Footprint(t.right)
      && Footprint(t.left) !! Footprint(t.right)
      && Distinct(t.left)
      && Distinct(t.right)
  }

  /** The heap agrees with `t`: every node's slots hold exactly its subtrees, and a list node has no positional child. */
  ghost predicate Linked(t: Tree)
    reads Footprint(t)
  {
    t.Branch? ==>
      && t.node.left == Link(t.left)
      && t.node.right == Link(t.right)
      && (t.node.kind == ListNode ==> t.right.Empty?)
      && Linked(t.left)
      && Linked(t.right)
  }

  ghost predicate Valid(t: Tree)
    reads Footprint(t)
  {
    Distinct(t) && Linked(t)
  }

  /** The release order of the teardown: the slot-0 subtree, then the positional subtree, then the node. */
  ghost function PostOrder(t: Tree): (r: seq<Node>)
  {
    if t.Empty? then [] else PostOrder(t.left) + PostOrder(t.right) + [t.node]
  }

  /** One release per node. */
  lemma {:induction false} PostOrderLength(t: Tree)
    ensures |PostOrder(t)| == Size(t)
  {
    if t.Branch? {
      PostOrderLength(t.left);
      PostOrderLength(t.right);
    }
  }

  ghost predicate NoDup(s: seq<Node>) {
    forall i, j :: 0 <= i < j < |s| ==> s[i] != s[j]
  }

  ghost function Elems(s: seq<Node>): set<Node> {
    set n | n in s
  }

  lemma NoDupConcat(a: seq<Node>, b: seq<Node>)
    requires NoDup(a) && NoDup(b) && Elems(a) !! Elems(b)
    ensures NoDup(a + b) && Elems(a + b) == Elems(a) + Elems(b)
  {
    var ab := a + b;
    forall i, j | 0 <= i < j < |ab| ensures ab[i] != ab[j] {
      if j < |a| {
      } else if i >= |a| {
        assert ab[i] == b[i - |a|] && ab[j] == b[j - |a|];
      } else {
        assert ab[i] in Elems(a) && ab[j] == b[j - |a|] && ab[j] in Elems(b);
      }
    }
  }

  /** The release order holds exactly the nodes of the tree. */
  lemma {:induction false} PostOrderElems(t: Tree)
    ensures Elems(PostOrder(t)) == Footprint(t)
  {
    if t.Branch? {
      PostOrderElems(t.left);
      PostOrderElems(t.right);
      var l, r := PostOrder(t.left), PostOrder(t.right);
      assert Elems(l + r + [t.node]) == Elems(l) + Elems(r) + {t.node} by {
        forall n | n in l + r + [t.node] ensures n in Elems(l) + Elems(r) + {t.node} {}
        forall n | n in Elems(l) + Elems(r) + {t.node} ensures n in l + r + [t.node] {}
      }
    }
  }

  /** Every node of a distinct tree is released, and released exactly once. */
  lemma {:induction false} PostOrderExactlyOnce(t: Tree)
    requires Distinct(t)
    ensures NoDup(PostOrder(t))
    ensures Elems(PostOrder(t)) == Footprint(t)
  {
    PostOrderElems(t);
    if t.Branch? {
      PostOrderExactlyOnce(t.left);
      PostOrderExactlyOnce(t.right);
      NoDupConcat(PostOrder(t.left), PostOrder(t.right));
      NoDupConcat(PostOrder(t.left) + PostOrder(t.right), [t.node]);
    }
  }

  /** The nodes a tree mentions are allocated objects, so a call that modifies other nodes leaves them as they were. */
  lemma {:induction false} FootprintAllocated(t: Tree)
    ensures forall n :: n in Footprint(t) ==> allocated(n)
  {
    if t.Branch? {
      FootprintAllocated(t.left);
      FootprintAllocated(t.right);
    }
  }

  lemma {:induction false} SpineFootprintAllocated(s: Spine)
    ensures forall n :: n in SpineFootprint(s) ==> allocated(n)
  {
    if s.Frame? {
      FootprintAllocated(s.pending);
      SpineFootprintAllocated(s.above);
    }
  }

  /**
   Depth-first order: every node of the slot-0 subtree is released before any
   node of the positional subtree, and both before the node itself.
   */
  lemma SlotZeroBeforePositional(t: Tree, i: nat, j: nat)
    requires t.Branch? && Distinct(t)
    requires i < |PostOrder(t)| && j < |PostOrder(t)|
    requires PostOrder(t)[i] in Footprint(t.left)
    requires PostOrder(t)[j] in Footprint(t.right) || PostOrder(t)[j] == t.node
    ensures i < j
  {
    var l, r := PostOrder(t.left), PostOrder(t.right);
    PostOrderElems(t.left);
    PostOrderElems(t.right);
    var p := PostOrder(t);
    assert p == l + r + [t.node];
    forall k | 0 <= k < |l| ensures p[k] in Footprint(t.left) {
      assert p[k] == l[k] && l[k] in Elems(l);
    }
    forall k | |l| <= k < |l| + |r| ensures p[k] in Footprint(t.right) {
      assert p[k] == r[k - |l|] && r[k - |l|] in Elems(r);
    }
  }

  /**
   The back-link chain of the traversal, innermost frame first. In
   `Frame(n, p, a)`, node `n` holds the back-link to `a`'s node in slot 0 (none
   when `a` is `Nil`: `n` is the subtree top) and still owns the positional
   subtree `p`.
   */
  datatype Spine = Nil | Frame(node: Node, pending: Tree, above: Spine)

  function Up(s: Spine): Node? {
    if s.Nil? then null else s.node
  }

  /** The node at the far end of the chain: the top of the subtree being torn down. */
  function Outermost(s: Spine): Node
    requires s.Frame?
  {
    if s.above.Nil? then s.node else Outermost(s.above)
  }

  ghost function SpineFootprint(s: Spine): set<Node> {
    if s.Nil? then {} else {s.node} + Footprint(s.pending) + SpineFootprint(s.above)
  }

  ghost predicate SpineDistinct(s: Spine) {
    s.Frame? ==>
      && s.node !in Footprint(s.pending)
      && s.node !in SpineFootprint(s.above)
      && Footprint(s.pending) !! SpineFootprint(s.above)
      && Distinct(s.pending)
      && SpineDistinct(s.above)
  }

  ghost predicate SpineLinked(s: Spine)
    reads SpineFootprint(s)
  {
    s.Frame? ==>
      && s.node.left == Up(s.above)
      && s.node.right == Link(s.pending)
      && (s.node.kind == ListNode ==> s.pending.Empty?)
      && Linked(s.pending)
      && SpineLinked(s.above)
  }

  /** What is still to be released once the subtree below the innermost frame is gone, in order. */
  ghost function Remaining(s: Spine): seq<Node> {
    if s.Nil? then [] else PostOrder(s.pending) + [s.node] + Remaining(s.above)
  }

  /** The number of nodes the chain still holds. */
  function SpineSize(s: Spine): nat {
    if s.Nil? then 0 else Size(s.pending) + 1 + SpineSize(s.above)
  }

  /** Every node of `s` has given up all its links: nothing it owned is reachable through it any more. */
  ghost predicate Released(s: set<Node>)
    reads s
  {
    forall n :: n in s ==> n.Exhausted()
  }

  /** Nodes given up in two stages: those outside `b`, then those of `b` outside `c`. */
  lemma ReleasedTrans(a: set<Node>, b: set<Node>, c: set<Node>)
    requires Released(a - b) && Released(b - c)
    ensures Released(a - c)
  {
  }

  /** Nodes given up before the nodes of `b`, and then those. */
  lemma ReleasedWith(a: set<Node>, b: set<Node>)
    requires Released(a - b) && Released(b)
    ensures Released(a)
  {
  }

  /**
   The frame where the climb of the ancestor search stops: the innermost one
   that still owns a positional subtree, or else the top of the chain.
   */
  function ClimbStop(s: Spine): (r: Spine)
    requires s.Frame?
    ensures r.Frame? && (r.pending.Branch? || r.above.Nil?)
  {
    if s.pending.Branch? || s.above.Nil? then s else ClimbStop(s.above)
  }

  /** The frames the climb passes and releases before it stops, innermost first. */
  function Passed(s: Spine): seq<Node>
    requires s.Frame?
  {
    if s.pending.Branch? || s.above.Nil? then [] else [s.node] + Passed(s.above)
  }

  /**
   The climb releases only frames with nothing pending, and the order it
   leaves behind is the one the chain owed: what the passed frames release,
   then the stopping frame's pending subtree, then the rest of the chain.
   */
  lemma {:induction false} ClimbKeepsOrder(d: seq<Node>, s: Spine)
    requires s.Frame?
    decreases s
    ensures d + Passed(s) + PostOrder(ClimbStop(s).pending) + Remaining(Frame(ClimbStop(s).node, Empty, ClimbStop(s).above))
            == d + Remaining(s)
  {
    var stop := ClimbStop(s);
    if s.pending.Branch? || s.above.Nil? {
      EmptyRight(d);
      TakePendingKeepsOrder(d, s);
    } else {
      ClimbKeepsOrder(d + [s.node], s.above);
      assert Passed(s) == [s.node] + Passed(s.above);
      Assoc(d, [s.node], Passed(s.above));
      ReleaseFrameKeepsOrder(d, s);
    }
  }

  /**
   What the climb leaves behind: the stopping frame, its pending subtree
   taken, heads a chain that is still distinct, owns none of the taken subtree
   and is part of the chain the climb started from. It has the same top, and
   when no subtree was found it is the top alone. It is no larger, and
   strictly smaller when the innermost frame had nothing pending and a subtree
   was found higher up.
   */
  lemma {:induction false} ClimbStopShape(s: Spine)
    requires s.Frame? && SpineDistinct(s)
    decreases s
    ensures var stop := ClimbStop(s);
            var rest := Frame(stop.node, Empty, stop.above);
            && SpineDistinct(rest) && Distinct(stop.pending)
            && Footprint(stop.pending) !! SpineFootprint(rest)
            && Footprint(stop.pending) + SpineFootprint(rest) <= SpineFootprint(s)
            && Outermost(rest) == Outermost(s)
            && (stop.pending.Empty? ==> stop.above.Nil? && stop.node == Outermost(s))
            && Size(stop.pending) + SpineSize(rest) <= SpineSize(s)
            && (stop.pending.Branch? && s.pending.Empty? ==> Size(stop.pending) + SpineSize(rest) < SpineSize(s))
  {
    if !(s.pending.Branch? || s.above.Nil?) {
      ClimbStopShape(s.above);
    }
  }

  /** Releasing a frame the climb passes keeps the log of passed frames. */
  lemma ReleasePassed(d: seq<Node>, s: Spine)
    requires s.Frame? && s.pending.Empty? && s.above.Frame?
    ensures d + [s.node] + Passed(s.above) == d + Passed(s)
  {
    Assoc(d, [s.node], Passed(s.above));
  }

  /** Nothing comes before the release order of a whole tree torn down from the top. */
  lemma StartKeepsOrder(d: seq<Node>, t: Tree)
    ensures d + PostOrder(t) + Remaining(Nil) == d + PostOrder(t)
  {
    EmptyRight(d + PostOrder(t));
  }

  /** An empty subtree below the innermost frame adds nothing to the release order. */
  lemma EmptyKeepsOrder(d: seq<Node>, s: Spine)
    ensures d + PostOrder(Empty) + Remaining(s) == d + Remaining(s)
  {
    EmptyRight(d);
  }

  /** The chain reduced to its top alone releases just the top. */
  lemma TopKeepsOrder(d: seq<Node>, n: Node)
    ensures d + PostOrder(Empty) + Remaining(Frame(n, Empty, Nil)) == d + [n]
  {
    EmptyRight(d);
    EmptyLeft([n]);
    EmptyRight([n]);
  }

  /**
   Detaching the child a node would hand out first (its slot-0 subtree if any,
   otherwise its positional one) and tearing that down first keeps the release
   order of the whole tree.
   */
  lemma DetachKeepsOrder(d: seq<Node>, t: Tree)
    requires t.Branch?
    ensures t.left.Branch? ==> d + PostOrder(t.left) + PostOrder(Branch(t.node, Empty, t.right)) == d + PostOrder(t)
    ensures t.left.Empty? ==> d + PostOrder(t.right) + PostOrder(Branch(t.node, Empty, Empty)) == d + PostOrder(t)
  {
    var l, r, n := PostOrder(t.left), PostOrder(t.right), [t.node];
    assert PostOrder(t) == l + r + n;
    if t.left.Branch? {
      assert PostOrder(Branch(t.node, Empty, t.right)) == r + n by {
        EmptyLeft(r);
      }
      Assoc(l, r, n);
      Assoc(d, l, r + n);
    } else {
      assert PostOrder(Branch(t.node, Empty, Empty)) == n by {
        EmptyLeft([]);
        EmptyLeft(n);
      }
      EmptyLeft(r);
      Assoc(d, r, n);
    }
  }

  /** Descending into the slot-0 subtree of `t`, with `t`'s node and positional subtree pushed as a frame, leaves the release order unchanged. */
  lemma DescendKeepsOrder(d: seq<Node>, t: Tree, s: Spine)
    requires t.Branch?
    ensures d + PostOrder(t.left) + Remaining(Frame(t.node, t.right, s)) == d + PostOrder(t) + Remaining(s)
  {
    var l, r, n, rest := PostOrder(t.left), PostOrder(t.right), [t.node], Remaining(s);
    assert Remaining(Frame(t.node, t.right, s)) == r + n + rest;
    Assoc(d, l, r + n + rest);
    Assoc(l, r + n, rest);
    Assoc(l, r, n);
    Assoc(d, l + r + n, rest);
  }

  /** Descending into the positional subtree of a node whose slot-0 subtree is empty leaves the release order unchanged. */
  lemma DescendPositionalKeepsOrder(d: seq<Node>, t: Tree, s: Spine)
    requires t.Branch? && t.left.Empty?
    ensures d + PostOrder(t.right) + Remaining(Frame(t.node, Empty, s)) == d + PostOrder(t) + Remaining(s)
  {
    var r, n, rest := PostOrder(t.right), [t.node], Remaining(s);
    assert Remaining(Frame(t.node, Empty, s)) == [] + n + rest;
    assert PostOrder(t) == [] + r + n;
    EmptyLeft(n);
    EmptyLeft(r);
    Assoc(d, r, n + rest);
    Assoc(r, n, rest);
    Assoc(d, r + n, rest);
  }

  /** Releasing a leaf leaves the release order unchanged. */
  lemma LeafKeepsOrder(d: seq<Node>, t: Tree, s: Spine)
    requires t.Branch? && t.left.Empty? && t.right.Empty?
    ensures d + [t.node] + PostOrder(Empty) + Remaining(s) == d + PostOrder(t) + Remaining(s)
  {
    assert PostOrder(t) == [] + [] + [t.node];
    EmptyLeft([]);
    EmptyLeft([t.node]);
    EmptyRight(d + [t.node]);
  }

  /** Taking a frame's pending subtree leaves the release order unchanged. */
  lemma TakePendingKeepsOrder(d: seq<Node>, s: Spine)
    requires s.Frame?
    ensures d + PostOrder(s.pending) + Remaining(Frame(s.node, Empty, s.above)) == d + Remaining(s)
  {
    var p, n, rest := PostOrder(s.pending), [s.node], Remaining(s.above);
    assert Remaining(Frame(s.node, Empty, s.above)) == [] + n + rest;
    assert Remaining(s) == p + n + rest;
    EmptyLeft(n);
    Assoc(d, p, n + rest);
    Assoc(p, n, rest);
  }

  /** Releasing a frame's node once its pending subtree is gone leaves the release order unchanged. */
  lemma ReleaseFrameKeepsOrder(d: seq<Node>, s: Spine)
    requires s.Frame? && s.pending.Empty?
    ensures d + [s.node] + Remaining(s.above) == d + Remaining(s)
  {
    assert Remaining(s) == [] + [s.node] + Remaining(s.above);
    EmptyLeft([s.node]);
    Assoc(d, [s.node], Remaining(s.above));
  }

  // The three lemmas below are stated on their own only so that the proofs above can
  // name the step they need; keeping sequence reasoning out of large proofs keeps them cheap.

  lemma Assoc(a: seq<Node>, b: seq<Node>, c: seq<Node>)
    ensures a + b + c == a + (b + c)
  {
  }

  lemma EmptyLeft(a: seq<Node>)
    ensures [] + a == a
  {
  }

  lemma EmptyRight(a: seq<Node>)
    ensures a + [] == a
  {
  }
}
