/**
 * Leaves and nodes of the Merkle tree, and the per-node operations:
 * the digest rule, validation and the tamper hook.
 *
 * The hash primitive (SHA-256 rendered as a hex string) is a parameter
 * `H: string -> string` of every operation that hashes, so nothing here
 * depends on what the function is. Nodes are owned values (every child is
 * exclusively owned by its parent), so the in-place mutators return the
 * updated value.
 */
module Nodes {
  import opened Options

  type Hasher = string -> string

  /** The content the tamper hook writes into a leaf. */
  const Sentinel: string := "You were hacked."

  datatype Leaf = Leaf(info: string)

  /** A vertex: its stored digest `val` and three optional slots. */
  datatype Node = Node(val: string, leaf: Option<Leaf>, left: Option<Node>, right: Option<Node>)

  // ---------------------------------------------------------------- Leaf

  function GetInfo(lf: Leaf): string
  {
    lf.info
  }

  /** Replaces the content; no digest anywhere is told about it. */
  function SetInfo(lf: Leaf, newInfo: string): Leaf
  {
    lf.(info := newInfo)
  }

  /** Reading back what was set gives it, and setting what was read changes nothing. */
  lemma SetInfoGetInfo(lf: Leaf, newInfo: string)
    ensures GetInfo(SetInfo(lf, newInfo)) == newInfo
    ensures SetInfo(lf, GetInfo(lf)) == lf
    ensures SetInfo(SetInfo(lf, newInfo), GetInfo(lf)) == lf
  {
  }

  // ---------------------------------------------------------------- Node

  /** A node holding the given digest, with no leaf and no children. */
  function NewNode(newVal: string): (n: Node)
    ensures n.val == newVal && n.leaf.None?
    ensures !HasChildren(n) && ChildCount(n) == 0
  {
    Node(newVal, None, None, None)
  }

  function HasChildren(n: Node): bool
  {
    match n
    case Node(_, _, None, None) => false
    case _ => true
  }

  /** The number of occupied child slots. */
  function ChildCount(n: Node): (c: nat)
    ensures c <= 2
  {
    (if n.left.Some? then 1 else 0) + (if n.right.Some? then 1 else 0)
  }

  /**
   * Puts a fresh node with digest `newVal` into the first empty child slot
   * (left before right) and reports whether there was one.
   */
  function AddChild(n: Node, newVal: string): (res: (Node, bool))
  {
    match n
    case Node(_, _, None, _) => (n.(left := Some(NewNode(newVal))), true)
    case Node(_, _, _, None) => (n.(right := Some(NewNode(newVal))), true)
    case _ => (n, false)
  }

  /**
   * The digest a node's children call for: both children give the hash of
   * their digests concatenated left first, a single child is concatenated
   * with itself, and no child gives the hash of the empty input.
   */
  function ComputeHash(H: Hasher, n: Node): string
  {
    match n
    case Node(_, _, Some(l), Some(r)) => H(l.val + r.val)
    case Node(_, _, Some(l), None) => H(l.val + l.val)
    case Node(_, _, None, Some(r)) => H(r.val + r.val)
    case Node(_, _, None, None) => H("")
  }

  /**
   * Recomputes every digest below `n` and compares it with the stored one.
   * The arms follow the source's match order: left only, right only, both,
   * then a childless node with a leaf, and anything else is valid.
   */
  function Validate(H: Hasher, n: Node): bool
  {
    match n
    case Node(_, _, Some(l), None) => Validate(H, l) && ComputeHash(H, n) == n.val
    case Node(_, _, None, Some(r)) => Validate(H, r) && ComputeHash(H, n) == n.val
    case Node(_, _, Some(l), Some(r)) => Validate(H, l) && Validate(H, r) && ComputeHash(H, n) == n.val
    case Node(_, Some(lf), None, None) => H(GetInfo(lf)) == n.val
    case Node(_, None, None, None) => true
  }

  /**
   * Descends through `left` when present, else `right`, and overwrites the
   * content of the first leaf it reaches with the sentinel.
   */
  function CorruptLeaf(n: Node): Node
  {
    match n
    case Node(_, _, Some(l), _) => n.(left := Some(CorruptLeaf(l)))
    case Node(_, _, None, Some(r)) => n.(right := Some(CorruptLeaf(r)))
    case Node(_, Some(lf), None, None) => n.(leaf := Some(SetInfo(lf, Sentinel)))
    case Node(_, None, None, None) => n
  }

  // ------------------------------------------------ views used in proofs

  /** Every leaf reachable from `n`: its own, then the left subtree's, then the right's. */
  function Leaves(n: Node): seq<Leaf>
  {
    (if n.leaf.Some? then [n.leaf.value] else [])
    + (if n.left.Some? then Leaves(n.left.value) else [])
    + (if n.right.Some? then Leaves(n.right.value) else [])
  }

  /** Every node of the tree rooted at `n`, `n` included. */
  function Subtrees(n: Node): set<Node>
  {
    {n}
    + (if n.left.Some? then Subtrees(n.left.value) else {})
    + (if n.right.Some? then Subtrees(n.right.value) else {})
  }

  /**
   * The digest stored in a single node agrees with what it covers: its
   * children when it has any, otherwise its leaf's content when it has one.
   */
  predicate LocallyConsistent(H: Hasher, n: Node)
  {
    if HasChildren(n) then ComputeHash(H, n) == n.val
    else n.leaf.Some? ==> H(n.leaf.value.info) == n.val
  }

  /**
   * The three shapes a built tree uses: a node wrapping exactly one leaf,
   * a node with two children, or a node with only a left child (the odd
   * carry).
   */
  predicate WellFormed(n: Node)
  {
    match n
    case Node(_, Some(_), None, None) => true
    case Node(_, None, Some(l), None) => WellFormed(l)
    case Node(_, None, Some(l), Some(r)) => WellFormed(l) && WellFormed(r)
    case _ => false
  }

  /** The tree with every leaf's content erased: digests and shape only. */
  function Skeleton(n: Node): Node
  {
    Node(n.val,
         if n.leaf.Some? then Some(Leaf("")) else None,
         if n.left.Some? then Some(Skeleton(n.left.value)) else None,
         if n.right.Some? then Some(Skeleton(n.right.value)) else None)
  }

  // ------------------------------------------------------------- lemmas
  //
  // The first lemmas below restate single operations case by case, and
  // Dafny proves them by unfolding the definitions. What they add beyond
  // the definitions is in the relations through `ChildCount` and the
  // self-duplication of a lone child's digest. The builder's proofs
  // unfold the definitions directly and do not call these lemmas.

  /** `has_children` is false exactly when both child slots are empty. */
  lemma HasChildrenIff(n: Node)
    ensures !HasChildren(n) <==> n.left.None? && n.right.None?
    ensures HasChildren(n) <==> ChildCount(n) > 0
  {
  }

  /**
   * `add_child` fills the left slot when it is empty, otherwise the right
   * slot when that is empty, and then succeeds; it fails and changes
   * nothing only when both slots are taken. The digest and leaf stay.
   */
  lemma AddChildFillsFirstFreeSlot(n: Node, newVal: string)
    ensures AddChild(n, newVal).1 <==> ChildCount(n) < 2
    ensures n.left.None? ==>
      AddChild(n, newVal).0 == n.(left := Some(NewNode(newVal)))
    ensures n.left.Some? && n.right.None? ==>
      AddChild(n, newVal).0 == n.(right := Some(NewNode(newVal)))
    ensures !AddChild(n, newVal).1 ==> AddChild(n, newVal).0 == n
    ensures AddChild(n, newVal).1 ==>
      HasChildren(AddChild(n, newVal).0) && ChildCount(AddChild(n, newVal).0) == ChildCount(n) + 1
  {
  }

  /** A fresh node accepts exactly two children. */
  lemma AddChildTwice(v: string, a: string, b: string, c: string)
    ensures var (n1, ok1) := AddChild(NewNode(v), a);
            var (n2, ok2) := AddChild(n1, b);
            var (n3, ok3) := AddChild(n2, c);
            ok1 && ok2 && !ok3 && n3 == n2
            && n2.left == Some(NewNode(a)) && n2.right == Some(NewNode(b))
  {
  }

  /** The four cases of `compute_hash`, stated on the child digests. */
  lemma ComputeHashCases(H: Hasher, n: Node)
    ensures n.left.Some? && n.right.Some? ==> ComputeHash(H, n) == H(n.left.value.val + n.right.value.val)
    ensures n.left.Some? && n.right.None? ==> ComputeHash(H, n) == H(n.left.value.val + n.left.value.val)
    ensures n.left.None? && n.right.Some? ==> ComputeHash(H, n) == H(n.right.value.val + n.right.value.val)
    ensures !HasChildren(n) ==> ComputeHash(H, n) == H("")
  {
  }

  /**
   * The digest depends only on the children's digests, and a lone child is
   * combined with itself: a left-only node, a right-only node and a node
   * with two children carrying that digest all get the same value.
   */
  lemma ComputeHashSelfDuplication(H: Hasher, c: Node, d: Node, v: string, w: string, lf: Option<Leaf>)
    requires c.val == d.val
    ensures ComputeHash(H, Node(v, lf, Some(c), None)) == ComputeHash(H, Node(w, None, None, Some(d)))
    ensures ComputeHash(H, Node(v, lf, Some(c), None)) == ComputeHash(H, Node(w, None, Some(c), Some(d)))
  {
  }

  /** One step of validation: the node itself is consistent and so are its children. */
  lemma ValidateUnfold(H: Hasher, n: Node)
    ensures Validate(H, n) <==>
      LocallyConsistent(H, n)
      && (n.left.Some? ==> Validate(H, n.left.value))
      && (n.right.Some? ==> Validate(H, n.right.value))
  {
  }

  /**
   * Validation is the same as asking every node of the tree to be locally
   * consistent: it recomputes every digest and misses none.
   */
  lemma {:induction false} ValidateIffAllConsistent(H: Hasher, n: Node)
    ensures Validate(H, n) <==> forall m :: m in Subtrees(n) ==> LocallyConsistent(H, m)
  {
    ValidateUnfold(H, n);
    if n.left.Some? { ValidateIffAllConsistent(H, n.left.value); }
    if n.right.Some? { ValidateIffAllConsistent(H, n.right.value); }
  }

  /** The tamper hook changes no digest and no shape, only leaf contents. */
  lemma {:induction false} CorruptLeafKeepsSkeleton(n: Node)
    ensures Skeleton(CorruptLeaf(n)) == Skeleton(n)
  {
    match n
    case Node(_, _, Some(l), _) => CorruptLeafKeepsSkeleton(l);
    case Node(_, _, None, Some(r)) => CorruptLeafKeepsSkeleton(r);
    case Node(_, Some(lf), None, None) =>
    case Node(_, None, None, None) =>
  }

  lemma UpdateFirstOfConcat(x: seq<Leaf>, y: seq<Leaf>, e: Leaf)
    requires |x| > 0
    ensures (x + y)[0 := e] == x[0 := e] + y
  {
  }

  /** The leaves of a node with no leaf of its own come from its children alone. */
  lemma LeavesOfInner(n: Node)
    requires n.leaf.None? && n.left.Some?
    ensures Leaves(n) == Leaves(n.left.value) + (if n.right.Some? then Leaves(n.right.value) else [])
  {
    assert Leaves(n) == [] + Leaves(n.left.value) + (if n.right.Some? then Leaves(n.right.value) else []);
  }

  /**
   * On a well-formed tree the tamper hook overwrites exactly one leaf, the
   * first one in reachable order, with the sentinel; the others stay.
   */
  lemma {:induction false} CorruptLeafChangesFirstLeaf(n: Node)
    requires WellFormed(n)
    ensures |Leaves(n)| > 0
    ensures Leaves(CorruptLeaf(n)) == Leaves(n)[0 := Leaf(Sentinel)]
  {
    match n
    case Node(_, Some(lf), None, None) =>
      assert Leaves(n) == [lf] + [] + [];
      assert Leaves(CorruptLeaf(n)) == [SetInfo(lf, Sentinel)] + [] + [];
    case Node(_, None, Some(l), r) =>
      CorruptLeafChangesFirstLeaf(l);
      LeavesOfInner(n);
      LeavesOfInner(CorruptLeaf(n));
      UpdateFirstOfConcat(Leaves(l), if r.Some? then Leaves(r.value) else [], Leaf(Sentinel));
  }

  /**
   * Tamper detection on one subtree: if it validated before, and the
   * sentinel hashes differently from the content of the leaf the hook
   * reaches, it does not validate afterwards.
   */
  lemma {:induction false} CorruptLeafDetected(H: Hasher, n: Node)
    requires WellFormed(n) && Validate(H, n)
    requires |Leaves(n)| > 0 && H(Sentinel) != H(Leaves(n)[0].info)
    ensures !Validate(H, CorruptLeaf(n))
  {
    match n
    case Node(_, Some(_), None, None) =>
    case Node(_, None, Some(l), r) =>
      CorruptLeafChangesFirstLeaf(l);
      LeavesOfInner(n);
      CorruptLeafDetected(H, l);
  }

  ghost predicate Injective(H: Hasher)
  {
    forall a, b :: H(a) == H(b) ==> a == b
  }

  /**
   * With an injective hash, overwriting the first reachable leaf with
   * different content is always caught.
   */
  lemma CorruptLeafDetectedInjective(H: Hasher, n: Node)
    requires Injective(H) && WellFormed(n) && Validate(H, n)
    requires |Leaves(n)| > 0 && Leaves(n)[0].info != Sentinel
    ensures !Validate(H, CorruptLeaf(n))
  {
    CorruptLeafDetected(H, n);
  }
}
