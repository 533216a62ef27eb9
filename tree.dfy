/**
 * `MerkleTree`: the built tree's optional head, whole-tree validation and
 * the tree-level tamper hook, which changes the head in place.
 */
module Tree {
  import opened Options
  import opened Nodes
  import opened Builder

  class MerkleTree {
    var head: Option<Node>

    /** Builds the tree over `leaves` in their given order. */
    constructor (H: Hasher, leaves: seq<Leaf>)
      ensures head == BuildSpec(H, leaves)
      ensures head.None? <==> |leaves| == 0
      ensures head.Some? ==> WellFormed(head.value) && multiset(Leaves(head.value)) == multiset(leaves)
      ensures Validate(H)
    {
      var built := BuildHead(H, leaves);
      head := built;
    }

    /**
     * An empty tree is valid; otherwise every node's stored digest must
     * match what it covers. Reading only, so repeated calls agree.
     */
    function Validate(H: Hasher): (ok: bool)
      reads this
      ensures ok <==> (head.Some? ==> forall m :: m in Subtrees(head.value) ==> LocallyConsistent(H, m))
    {
      match head
      case Some(n) => ValidateIffAllConsistent(H, n); Nodes.Validate(H, n)
      case None => true
    }

    /**
     * Overwrites the content of one leaf of a non-empty tree with the
     * sentinel and touches no stored digest; an empty tree is left alone.
     */
    method CorruptTree()
      modifies this
      ensures head.Some? <==> old(head).Some?
      ensures head.Some? ==> head.value == CorruptLeaf(old(head).value)
      ensures head.Some? ==> Skeleton(head.value) == Skeleton(old(head).value)
      ensures head.Some? && WellFormed(old(head).value) ==>
        |Leaves(old(head).value)| > 0 && Leaves(head.value) == Leaves(old(head).value)[0 := Leaf(Sentinel)]
    {
      match head
      case Some(n) =>
        CorruptLeafKeepsSkeleton(n);
        if WellFormed(n) { CorruptLeafChangesFirstLeaf(n); }
        head := Some(CorruptLeaf(n));
      case None =>
    }
  }

  /**
   * The leaf the tamper hook overwrites in the tree built over `leaves`
   * (the first one it reaches) already holds the sentinel. False for no
   * leaves.
   */
  predicate ReachedLeafIsSentinel(H: Hasher, leaves: seq<Leaf>)
  {
    BuildSpec(H, leaves).Some? && |Leaves(BuildSpec(H, leaves).value)| > 0
    && Leaves(BuildSpec(H, leaves).value)[0].info == Sentinel
  }

  /**
   * On a non-empty built tree, with an injective hash, validation succeeds
   * before the tamper hook and fails after it, unless the leaf the hook
   * overwrites already held the sentinel.
   */
  lemma BuiltTreeDetectsCorruption(H: Hasher, leaves: seq<Leaf>)
    requires |leaves| > 0 && Injective(H)
    requires !ReachedLeafIsSentinel(H, leaves)
    ensures BuildSpec(H, leaves).Some?
    ensures Nodes.Validate(H, BuildSpec(H, leaves).value)
    ensures !Nodes.Validate(H, CorruptLeaf(BuildSpec(H, leaves).value))
  {
    BuildSpecCorrect(H, leaves);
    var n := BuildSpec(H, leaves).value;
    CorruptLeafChangesFirstLeaf(n);
    CorruptLeafDetected(H, n);
  }

  /** In particular, the hook is detected when no input leaf holds the sentinel. */
  lemma NoSentinelInput(H: Hasher, leaves: seq<Leaf>)
    requires forall i :: 0 <= i < |leaves| ==> leaves[i].info != Sentinel
    ensures !ReachedLeafIsSentinel(H, leaves)
  {
    BuildSpecCorrect(H, leaves);
    if |leaves| > 0 {
      var n := BuildSpec(H, leaves).value;
      CorruptLeafChangesFirstLeaf(n);
      var lf := Leaves(n)[0];
      assert lf in multiset(Leaves(n));
      assert lf in multiset(leaves);
      var i :| 0 <= i < |leaves| && leaves[i] == lf;
    }
  }

  /** Four leaves build the balanced tree ((b, a), (d, c)): each pair in pop order. */
  lemma FourLeavesShape(H: Hasher, a: Leaf, b: Leaf, c: Leaf, d: Leaf)
    ensures BuildSpec(H, [a, b, c, d])
      == Some(Pair(H, Pair(H, Wrap(H, b), Wrap(H, a)), Pair(H, Wrap(H, d), Wrap(H, c))))
  {
    var na, nb, nc, nd := Wrap(H, a), Wrap(H, b), Wrap(H, c), Wrap(H, d);
    var v := WrapAll(H, [a, b, c, d]);
    WrapAllSmall(H, a, b, c, d);
    CombineUnfold(H, v);
    assert v[..2] == [na, nb];
    CombineUnfold(H, v[..2]);
    assert v[..2][..0] == [];
    var w := Combine(H, v);
    assert w == [Pair(H, nd, nc), Pair(H, nb, na)];
    CombineUnfold(H, w);
    assert w[..0] == [];
    assert BuildLevels(H, v) == BuildLevels(H, w) == Combine(H, w);
  }

  /**
   * So the reachable leaf order of four leaves is b, a, d, c, and the
   * tamper hook, which follows left children, reaches `b`.
   */
  lemma FourLeavesOrder(H: Hasher, a: Leaf, b: Leaf, c: Leaf, d: Leaf)
    ensures BuildSpec(H, [a, b, c, d]).Some?
    ensures Leaves(BuildSpec(H, [a, b, c, d]).value) == [b, a, d, c]
    ensures Leaves(CorruptLeaf(BuildSpec(H, [a, b, c, d]).value)) == [Leaf(Sentinel), a, d, c]
  {
    FourLeavesShape(H, a, b, c, d);
    var na, nb, nc, nd := Wrap(H, a), Wrap(H, b), Wrap(H, c), Wrap(H, d);
    var root := Pair(H, Pair(H, nb, na), Pair(H, nd, nc));
    PairLeaves(H, Pair(H, nb, na), Pair(H, nd, nc));
    PairLeaves(H, nb, na);
    PairLeaves(H, nd, nc);
    assert Leaves(root) == [b, a, d, c];
    WrapGood(H, a);
    WrapGood(H, b);
    WrapGood(H, c);
    WrapGood(H, d);
    assert WellFormed(Pair(H, nb, na)) && WellFormed(Pair(H, nd, nc));
    assert WellFormed(root);
    CorruptLeafChangesFirstLeaf(root);
  }

  /**
   * The leaf the tamper hook overwrites in the tree built over `leaves`
   * hashes differently from the sentinel. False for no leaves.
   */
  predicate ReachedLeafHashChanges(H: Hasher, leaves: seq<Leaf>)
  {
    BuildSpec(H, leaves).Some? && |Leaves(BuildSpec(H, leaves).value)| > 0
    && H(Leaves(BuildSpec(H, leaves).value)[0].info) != H(Sentinel)
  }

  /**
   * The demonstration flow: build, validate, corrupt, validate again. The
   * first validation always succeeds; an empty tree stays valid; and the
   * second validation fails whenever the overwritten leaf's hash changes,
   * in particular with an injective hash and a leaf that did not already
   * hold the sentinel.
   */
  method DetectTampering(H: Hasher, leaves: seq<Leaf>) returns (before: bool, after: bool)
    ensures before
    ensures |leaves| == 0 ==> after
    ensures ReachedLeafHashChanges(H, leaves) ==> !after
    ensures |leaves| > 0 && Injective(H) && !ReachedLeafIsSentinel(H, leaves) ==> !after
  {
    var t := new MerkleTree(H, leaves);
    before := t.Validate(H);
    if |leaves| > 0 {
      BuildSpecCorrect(H, leaves);
      if ReachedLeafHashChanges(H, leaves) {
        CorruptLeafDetected(H, BuildSpec(H, leaves).value);
      }
      if Injective(H) && !ReachedLeafIsSentinel(H, leaves) {
        BuiltTreeDetectsCorruption(H, leaves);
      }
    }
    t.CorruptTree();
    after := t.Validate(H);
  }
}
