/**
 The `BinaryTree` fixture of the test suite: `left` is slot 0, `right` the one
 positional slot. The tests build a complete "fan" with `make_fan`, sized by
 `fan_depth`, and tear it down through the `BinaryTreeBox` drop hook.
 */
module BinaryTreeKind {
  import opened NodeKinds
  import opened Trees
  import opened Harness

  /** `usize` on the 64-bit targets the tests run on. */
  const USIZE_BITS: nat := 64
  const USIZE_MAX: nat := 0xFFFF_FFFF_FFFF_FFFF

  function Pow2(n: nat): (r: nat)
    ensures r >= 1
  {
    if n == 0 then 1 else 2 * Pow2(n - 1)
  }

  lemma {:induction false} Pow2Monotone(m: nat, n: nat)
    requires m <= n
    ensures Pow2(m) <= Pow2(n)
  {
    if m < n {
      Pow2Monotone(m, n - 1);
    }
  }

  lemma {:induction false} Pow2Add(m: nat, n: nat)
    ensures Pow2(m + n) == Pow2(m) * Pow2(n)
  {
    if m > 0 {
      Pow2Add(m - 1, n);
    }
  }

  /** The two powers the constants of this module are made of. */
  lemma Pow2Constants()
    ensures Pow2(20) == 0x10_0000
    ensures Pow2(64) == 0x1_0000_0000_0000_0000
  {
    assert Pow2(2) == 4;
    Pow2Add(2, 2);
    Pow2Add(4, 4);
    Pow2Add(8, 8);
    Pow2Add(16, 4);
    Pow2Add(16, 16);
    Pow2Add(32, 32);
  }

  /** The number of binary digits of `x` (0 for 0). */
  function BitLength(x: nat): nat {
    if x == 0 then 0 else 1 + BitLength(x / 2)
  }

  lemma {:induction false} BitLengthBounds(x: nat)
    requires x > 0
    ensures BitLength(x) >= 1
    ensures Pow2(BitLength(x) - 1) <= x < Pow2(BitLength(x))
  {
    if x > 1 {
      BitLengthBounds(x / 2);
    }
  }

  lemma BitLengthOfWord(x: nat)
    requires x <= USIZE_MAX
    ensures BitLength(x) <= USIZE_BITS
  {
    if x > 0 {
      BitLengthBounds(x);
      if BitLength(x) > USIZE_BITS {
        Pow2Monotone(USIZE_BITS, BitLength(x) - 1);
        Pow2Constants();
      }
    }
  }

  /** `usize::leading_zeros`: the zero bits above the highest set bit of the 64-bit word. */
  function LeadingZeros(x: nat): (r: nat)
    requires x <= USIZE_MAX
    ensures r <= USIZE_BITS
    ensures x == 0 <==> r == USIZE_BITS
    ensures x > 0 ==> Pow2(USIZE_BITS - 1 - r) <= x < Pow2(USIZE_BITS - r)
  {
    BitLengthOfWord(x);
    if x > 0 then
      BitLengthBounds(x);
      USIZE_BITS - BitLength(x)
    else
      USIZE_BITS
  }

  /**
   `log2` inside the `exercise` test: `(usize::BITS - 1) - x.leading_zeros()`,
   the floor of the base-2 logarithm. For `x == 0` the `u32` subtraction would
   underflow, so `x` must be positive.
   */
  function Log2(x: nat): (r: nat)
    requires 0 < x <= USIZE_MAX
    ensures Pow2(r) <= x < Pow2(r + 1)
  {
    (USIZE_BITS - 1) - LeadingZeros(x)
  }

  /**
   `fan_depth(size)`: the depth of the largest fan with at most `size` nodes,
   as `log2(size + 1) - 1`. The source asserts `0 < size < usize::MAX`, which
   keeps `size + 1` from overflowing and `log2(size + 1)` at least 1.
   */
  function FanDepth(size: nat): (r: nat)
    requires 0 < size < USIZE_MAX
    ensures Pow2(r + 1) - 1 <= size < Pow2(r + 2) - 1
  {
    Log2(size + 1) - 1
  }

  /** The fan the tests build has depth 19: 2^20 - 1 nodes, one fewer than `TREE_SIZE`. */
  lemma FanDepthOfTreeSize()
    ensures FanDepth(TREE_SIZE) == 19
    ensures Pow2(FanDepth(TREE_SIZE) + 1) - 1 == TREE_SIZE - 1
  {
    var d := FanDepth(TREE_SIZE);
    Pow2Constants();
    if d < 19 {
      Pow2Monotone(d + 2, 20);
    } else if d > 19 {
      Pow2Monotone(21, d + 1);
    }
  }

  /** The fan of the `exercise` test has `TREE_SIZE - 1` nodes. */
  lemma TreeSizeFanSize(t: Tree)
    requires IsFan(t, FanDepth(TREE_SIZE))
    ensures Size(t) == TREE_SIZE - 1
  {
    FanDepthOfTreeSize();
    FanSize(t, FanDepth(TREE_SIZE));
  }

  /** `t` has the shape of `make_fan(d)`: a leaf at depth 0, otherwise two fans of depth `d - 1`. */
  ghost predicate IsFan(t: Tree, d: nat) {
    t.Branch? && t.node.kind == BinaryTreeNode &&
    if d == 0 then t.left.Empty? && t.right.Empty? else IsFan(t.left, d - 1) && IsFan(t.right, d - 1)
  }

  /** Every node owns both a slot-0 and a positional child, or neither. */
  ghost predicate Full(t: Tree) {
    t.Branch? ==> (t.left.Empty? <==> t.right.Empty?) && Full(t.left) && Full(t.right)
  }

  lemma {:induction false} FanSize(t: Tree, d: nat)
    requires IsFan(t, d)
    ensures Size(t) == Pow2(d + 1) - 1
  {
    if d > 0 {
      FanSize(t.left, d - 1);
      FanSize(t.right, d - 1);
    }
  }

  lemma {:induction false} FanIsFull(t: Tree, d: nat)
    requires IsFan(t, d)
    ensures Full(t)
  {
    if d > 0 {
      FanIsFull(t.left, d - 1);
      FanIsFull(t.right, d - 1);
    }
  }

  /**
   In a full tree every node has both links or neither, so the code of
   `set_parent_at_index_0` as written answers `No` exactly for the leaves, as
   the corrected one does: on fans the discrepancy never shows.
   */
  lemma {:induction false} FullNodesAgree(t: Tree, n: Node, parent: Node)
    requires Full(t) && Linked(t) && n in Footprint(t)
    ensures BinaryTreeSetParentAsWritten(n.left, n.right, parent).0.No? <==> n.left == null && n.right == null
  {
    if n != t.node {
      if n in Footprint(t.left) {
        FullNodesAgree(t.left, n, parent);
      } else {
        FullNodesAgree(t.right, n, parent);
      }
    }
  }

  /**
   `make_fan(depth)`: a new node with no links, which for a positive depth then
   gets two boxed fans of depth `depth - 1`, left first.
   */
  method MakeFan(depth: nat) returns (fan: Node, ghost t: Tree)
    ensures t.Branch? && t.node == fan && Valid(t) && IsFan(t, depth)
    ensures fresh(Footprint(t))
    decreases depth
  {
    fan := new Node(BinaryTreeNode, null, null);
    t := Branch(fan, Empty, Empty);
    if depth > 0 {
      var left, lt := MakeFan(depth - 1);
      FootprintAllocated(lt);
      fan.left := left;
      var right, rt := MakeFan(depth - 1);
      FootprintAllocated(rt);
      assert Linked(lt);
      fan.right := right;
      assert Linked(lt) && Linked(rt);
      t := Branch(fan, lt, rt);
    }
  }

  /**
   The `exercise` test: a fan of depth `fan_depth(TREE_SIZE)` is built and
   dropped with the hook installed. Every boxed node, all but the unboxed
   top value, is released exactly once, and none is left holding a link.
   */
  method Exercise() returns (ghost dropped: seq<Node>, ghost t: Tree)
    ensures IsFan(t, FanDepth(TREE_SIZE)) && Distinct(t)
    ensures dropped + [t.node] == PostOrder(t)
    ensures |dropped| == TREE_SIZE - 2 && NoDup(dropped)
    ensures Released(Footprint(t.left) + Footprint(t.right))
  {
    var fan;
    fan, t := MakeFan(FanDepth(TREE_SIZE));
    dropped := DropValue(fan, t, []);
    assert [] + PostOrder(t) == PostOrder(t);
    TreeSizeFanSize(t);
    PostOrderLength(t);
    PostOrderExactlyOnce(t);
    assert dropped == PostOrder(t)[..|dropped|];
  }
}
