/**
 * `MerkleTree::new`: the leaves become leaf-wrapping nodes, and levels are
 * folded into parents until at most one node is left.
 *
 * A level is consumed with `pop`, so work runs from its end: the last node
 * becomes the left child and the second-to-last the right child, parents
 * are collected in that popped order, and on an odd level the node left
 * over is the one at index 0, which gets a left-only parent.
 */
module Builder {
  import opened Options
  import opened Nodes

  /** The bottom-level node for one leaf: its digest is the hash of the content. */
  function Wrap(H: Hasher, lf: Leaf): Node
  {
    NewNode(H(GetInfo(lf))).(leaf := Some(lf))
  }

  /** A leaf's bottom-level node is well formed, validates, and reaches exactly that leaf. */
  lemma WrapGood(H: Hasher, lf: Leaf)
    ensures WellFormed(Wrap(H, lf)) && Validate(H, Wrap(H, lf)) && Leaves(Wrap(H, lf)) == [lf]
  {
  }

  function WrapAll(H: Hasher, leaves: seq<Leaf>): (v: seq<Node>)
    ensures |v| == |leaves|
  {
    if leaves == [] then [] else WrapAll(H, leaves[..|leaves| - 1]) + [Wrap(H, leaves[|leaves| - 1])]
  }

  /** The parent of the two popped nodes `l` (popped first) and `r`. */
  function Pair(H: Hasher, l: Node, r: Node): Node
  {
    var p := NewNode("").(left := Some(l), right := Some(r));
    p.(val := ComputeHash(H, p))
  }

  /** The left-only parent of the node left over on an odd level. */
  function Carry(H: Hasher, c: Node): Node
  {
    var p := NewNode("").(left := Some(c));
    p.(val := ComputeHash(H, p))
  }

  /**
   * One round of the inner loop: the parents pushed onto `v_2`, in push
   * order, while `v` is popped empty.
   */
  function Combine(H: Hasher, v: seq<Node>): (w: seq<Node>)
  {
    if |v| == 0 then []
    else if |v| == 1 then [Carry(H, v[0])]
    else [Pair(H, v[|v| - 1], v[|v| - 2])] + Combine(H, v[..|v| - 2])
  }

  /** The outer loop: combine rounds until at most one node remains. */
  function BuildLevels(H: Hasher, v: seq<Node>): (w: seq<Node>)
    decreases |v|
  {
    if |v| <= 1 then v else CombineShrinks(H, v); BuildLevels(H, Combine(H, v))
  }

  /** The `head` the builder produces: the last node of the final level, if any. */
  function BuildSpec(H: Hasher, leaves: seq<Leaf>): Option<Node>
  {
    var top := BuildLevels(H, WrapAll(H, leaves));
    if |top| == 0 then None else Some(top[|top| - 1])
  }

  /** The concatenation of `f` over the elements of `v`, in order. */
  function FlatMap<T>(f: T -> seq<Leaf>, v: seq<T>): seq<Leaf>
  {
    if v == [] then [] else FlatMap(f, v[..|v| - 1]) + f(v[|v| - 1])
  }

  /** The leaves reachable from a level, node by node. */
  function LevelLeaves(v: seq<Node>): seq<Leaf>
  {
    FlatMap(Leaves, v)
  }

  predicate AllGood(H: Hasher, v: seq<Node>)
  {
    forall i :: 0 <= i < |v| ==> WellFormed(v[i]) && Validate(H, v[i])
  }

  // ------------------------------------------------------------- lemmas

  /**
   * One round turns a level of n nodes into ceil(n/2) parents, so a level
   * of two or more nodes strictly shrinks.
   */
  lemma {:induction false} CombineShrinks(H: Hasher, v: seq<Node>)
    ensures |Combine(H, v)| == |v| / 2 + |v| % 2
    ensures |v| >= 2 ==> |Combine(H, v)| < |v|
  {
    if |v| >= 2 {
      CombineShrinks(H, v[..|v| - 2]);
    }
  }

  /**
   * The pairing order of one round: the j-th parent pushed has the node
   * j*2 places from the end as its left child and the one before it as
   * its right child; on an odd level the last parent pushed carries the
   * node at index 0 alone.
   */
  lemma {:induction false} CombinePairing(H: Hasher, v: seq<Node>)
    ensures |Combine(H, v)| == |v| / 2 + |v| % 2
    ensures forall j :: 0 <= j < |v| / 2 ==>
      Combine(H, v)[j] == Pair(H, v[|v| - 1 - 2 * j], v[|v| - 2 - 2 * j])
    ensures |v| % 2 == 1 ==> Combine(H, v)[|v| / 2] == Carry(H, v[0])
  {
    CombineShrinks(H, v);
    if |v| >= 2 {
      var u := v[..|v| - 2];
      var c, cu := Combine(H, v), Combine(H, u);
      CombinePairing(H, u);
      CombineUnfold(H, v);
      assert c == [Pair(H, v[|v| - 1], v[|v| - 2])] + cu;
      forall j | 0 <= j < |v| / 2
        ensures c[j] == Pair(H, v[|v| - 1 - 2 * j], v[|v| - 2 - 2 * j])
      {
        if j > 0 {
          assert c[j] == cu[j - 1];
          assert u[|u| - 1 - 2 * (j - 1)] == v[|v| - 1 - 2 * j];
          assert u[|u| - 2 - 2 * (j - 1)] == v[|v| - 2 - 2 * j];
        }
      }
      if |v| % 2 == 1 {
        assert c[|v| / 2] == cu[|u| / 2];
        assert u[0] == v[0];
      }
    }
  }

  /** Every parent a round builds is well formed and validates, given valid children. */
  lemma {:induction false} CombineGood(H: Hasher, v: seq<Node>)
    requires AllGood(H, v)
    ensures AllGood(H, Combine(H, v))
  {
    if |v| >= 2 {
      var u := v[..|v| - 2];
      assert AllGood(H, u) by {
        forall i | 0 <= i < |u| ensures WellFormed(u[i]) && Validate(H, u[i]) {
          assert u[i] == v[i];
        }
      }
      CombineGood(H, u);
      var p := Pair(H, v[|v| - 1], v[|v| - 2]);
      assert WellFormed(v[|v| - 1]) && Validate(H, v[|v| - 1]);
      assert WellFormed(v[|v| - 2]) && Validate(H, v[|v| - 2]);
      assert WellFormed(p) && Validate(H, p);
    } else if |v| == 1 {
      assert WellFormed(v[0]) && Validate(H, v[0]);
    }
  }

  /** The fold ends with no node exactly when it started with none, and otherwise with one. */
  lemma {:induction false} BuildLevelsLength(H: Hasher, v: seq<Node>)
    ensures |BuildLevels(H, v)| == if |v| == 0 then 0 else 1
    decreases |v|
  {
    if |v| > 1 {
      CombineShrinks(H, v);
      BuildLevelsLength(H, Combine(H, v));
    }
  }

  lemma {:induction false} BuildLevelsGood(H: Hasher, v: seq<Node>)
    requires AllGood(H, v)
    ensures AllGood(H, BuildLevels(H, v))
    decreases |v|
  {
    if |v| > 1 {
      CombineShrinks(H, v);
      CombineGood(H, v);
      BuildLevelsGood(H, Combine(H, v));
    }
  }

  lemma FlatMapSnoc<T>(f: T -> seq<Leaf>, v: seq<T>, x: T)
    ensures FlatMap(f, v + [x]) == FlatMap(f, v) + f(x)
  {
    assert (v + [x])[..|v|] == v;
  }

  lemma {:induction false} FlatMapAppend<T>(f: T -> seq<Leaf>, u: seq<T>, w: seq<T>)
    ensures FlatMap(f, u + w) == FlatMap(f, u) + FlatMap(f, w)
    decreases |w|
  {
    if w == [] {
      assert u + w == u;
    } else {
      var init, last := w[..|w| - 1], w[|w| - 1];
      calc {
        FlatMap(f, u + w);
        { assert u + w == (u + init) + [last]; }
        FlatMap(f, (u + init) + [last]);
        { FlatMapSnoc(f, u + init, last); }
        FlatMap(f, u + init) + f(last);
        { FlatMapAppend(f, u, init); }
        FlatMap(f, u) + FlatMap(f, init) + f(last);
        { FlatMapSnoc(f, init, last); assert init + [last] == w; }
        FlatMap(f, u) + FlatMap(f, w);
      }
    }
  }

  lemma LevelLeavesAppend(u: seq<Node>, w: seq<Node>)
    ensures LevelLeaves(u + w) == LevelLeaves(u) + LevelLeaves(w)
  {
    FlatMapAppend(Leaves, u, w);
  }

  lemma LevelLeavesSnoc(v: seq<Node>, n: Node)
    ensures LevelLeaves(v + [n]) == LevelLeaves(v) + Leaves(n)
  {
    FlatMapSnoc(Leaves, v, n);
  }

  /** The bottom level grows by one wrapped node per leaf. */
  lemma WrapAllSnoc(H: Hasher, init: seq<Leaf>, lf: Leaf)
    ensures WrapAll(H, init + [lf]) == WrapAll(H, init) + [Wrap(H, lf)]
  {
    assert (init + [lf])[..|init|] == init;
  }

  lemma LevelLeavesSingle(n: Node)
    ensures LevelLeaves([n]) == Leaves(n)
  {
    FlatMapSnoc(Leaves, [], n);
    assert [] + [n] == [n];
  }

  lemma CombineUnfold(H: Hasher, v: seq<Node>)
    requires |v| >= 2
    ensures Combine(H, v) == [Pair(H, v[|v| - 1], v[|v| - 2])] + Combine(H, v[..|v| - 2])
  {
  }

  lemma PairLeaves(H: Hasher, a: Node, b: Node)
    ensures Leaves(Pair(H, a, b)) == Leaves(a) + Leaves(b)
  {
    var p := Pair(H, a, b);
    assert p.leaf.None? && p.left == Some(a) && p.right == Some(b);
    LeavesOfInner(p);
  }

  lemma CarryKeepsLeaves(H: Hasher, c: Node)
    ensures LevelLeaves(Combine(H, [c])) == LevelLeaves([c])
  {
    LevelLeavesSingle(Carry(H, c));
    LevelLeavesSingle(c);
    assert Leaves(Carry(H, c)) == [] + Leaves(c) + [];
  }

  /** The leaves of a round's output: the popped pair's, left child first, then the rest. */
  lemma PairStepLeaves(H: Hasher, v: seq<Node>)
    requires |v| >= 2
    ensures LevelLeaves(Combine(H, v))
      == Leaves(v[|v| - 1]) + Leaves(v[|v| - 2]) + LevelLeaves(Combine(H, v[..|v| - 2]))
  {
    var a, b := v[|v| - 1], v[|v| - 2];
    var p := Pair(H, a, b);
    var rest := Combine(H, v[..|v| - 2]);
    CombineUnfold(H, v);
    LevelLeavesAppend([p], rest);
    LevelLeavesSingle(p);
    PairLeaves(H, a, b);
  }

  /** The leaves of a level split off its last two nodes. */
  lemma LastTwoLeaves(v: seq<Node>)
    requires |v| >= 2
    ensures LevelLeaves(v)
      == LevelLeaves(v[..|v| - 2]) + Leaves(v[|v| - 2]) + Leaves(v[|v| - 1])
  {
    var u := v[..|v| - 2];
    assert v == u + [v[|v| - 2]] + [v[|v| - 1]];
    LevelLeavesSnoc(u + [v[|v| - 2]], v[|v| - 1]);
    LevelLeavesSnoc(u, v[|v| - 2]);
  }

  lemma MultisetRearrange(a: seq<Leaf>, b: seq<Leaf>, c: seq<Leaf>, d: seq<Leaf>)
    requires multiset(c) == multiset(d)
    ensures multiset(a + b + c) == multiset(d + b + a)
  {
    calc {
      multiset(a + b + c);
      multiset(a) + multiset(b) + multiset(c);
      multiset(d) + multiset(b) + multiset(a);
      multiset(d + b + a);
    }
  }

  /** A round loses and duplicates no leaf: it only reorders them. */
  lemma {:induction false} CombineKeepsLeaves(H: Hasher, v: seq<Node>)
    ensures multiset(LevelLeaves(Combine(H, v))) == multiset(LevelLeaves(v))
  {
    if |v| == 1 {
      assert v == [v[0]];
      CarryKeepsLeaves(H, v[0]);
    } else if |v| >= 2 {
      var u := v[..|v| - 2];
      CombineKeepsLeaves(H, u);
      PairStepLeaves(H, v);
      LastTwoLeaves(v);
      MultisetRearrange(Leaves(v[|v| - 1]), Leaves(v[|v| - 2]),
                        LevelLeaves(Combine(H, u)), LevelLeaves(u));
    }
  }

  lemma {:induction false} BuildLevelsKeepsLeaves(H: Hasher, v: seq<Node>)
    ensures multiset(LevelLeaves(BuildLevels(H, v))) == multiset(LevelLeaves(v))
    decreases |v|
  {
    if |v| > 1 {
      CombineShrinks(H, v);
      CombineKeepsLeaves(H, v);
      BuildLevelsKeepsLeaves(H, Combine(H, v));
    }
  }

  lemma {:induction false} WrapAllLeaves(H: Hasher, leaves: seq<Leaf>)
    ensures LevelLeaves(WrapAll(H, leaves)) == leaves
  {
    if leaves != [] {
      var init, last := leaves[..|leaves| - 1], leaves[|leaves| - 1];
      assert leaves == init + [last];
      WrapAllSnoc(H, init, last);
      WrapAllLeaves(H, init);
      LevelLeavesSnoc(WrapAll(H, init), Wrap(H, last));
      WrapGood(H, last);
    }
  }

  lemma {:induction false} WrapAllGood(H: Hasher, leaves: seq<Leaf>)
    ensures AllGood(H, WrapAll(H, leaves))
  {
    if leaves != [] {
      var init, last := leaves[..|leaves| - 1], leaves[|leaves| - 1];
      assert leaves == init + [last];
      WrapAllSnoc(H, init, last);
      WrapAllGood(H, init);
      WrapGood(H, last);
      var v := WrapAll(H, leaves);
      forall i | 0 <= i < |v| ensures WellFormed(v[i]) && Validate(H, v[i]) {
        if i < |init| {
          assert v[i] == WrapAll(H, init)[i];
        }
      }
    }
  }

  /** The head is absent exactly for zero leaves, and otherwise the one node the fold leaves. */
  lemma BuildSpecHead(H: Hasher, leaves: seq<Leaf>)
    ensures BuildSpec(H, leaves).None? <==> |leaves| == 0
    ensures |leaves| > 0 ==> BuildLevels(H, WrapAll(H, leaves)) == [BuildSpec(H, leaves).value]
  {
    var top := BuildLevels(H, WrapAll(H, leaves));
    BuildLevelsLength(H, WrapAll(H, leaves));
    if |top| == 1 {
      assert top == [top[0]];
    }
  }

  /** A built head is well formed and validates. */
  lemma BuildSpecValid(H: Hasher, leaves: seq<Leaf>)
    requires |leaves| > 0
    ensures BuildSpec(H, leaves).Some?
    ensures WellFormed(BuildSpec(H, leaves).value) && Validate(H, BuildSpec(H, leaves).value)
  {
    BuildSpecHead(H, leaves);
    WrapAllGood(H, leaves);
    BuildLevelsGood(H, WrapAll(H, leaves));
    var top := BuildLevels(H, WrapAll(H, leaves));
    assert WellFormed(top[0]) && Validate(H, top[0]);
  }

  /** A built head reaches each input leaf exactly as often as it occurs in the input. */
  lemma BuildSpecKeepsLeaves(H: Hasher, leaves: seq<Leaf>)
    requires |leaves| > 0
    ensures BuildSpec(H, leaves).Some?
    ensures multiset(Leaves(BuildSpec(H, leaves).value)) == multiset(leaves)
  {
    BuildSpecHead(H, leaves);
    WrapAllLeaves(H, leaves);
    BuildLevelsKeepsLeaves(H, WrapAll(H, leaves));
    LevelLeavesSingle(BuildSpec(H, leaves).value);
  }

  /**
   * What the builder promises: no head exactly for no leaves; otherwise a
   * head that is well formed, validates, and reaches every input leaf
   * exactly as often as it occurs in the input.
   */
  lemma BuildSpecCorrect(H: Hasher, leaves: seq<Leaf>)
    ensures BuildSpec(H, leaves).None? <==> |leaves| == 0
    ensures BuildSpec(H, leaves).Some? ==>
      var n := BuildSpec(H, leaves).value;
      WellFormed(n) && Validate(H, n) && multiset(Leaves(n)) == multiset(leaves)
  {
    BuildSpecHead(H, leaves);
    if |leaves| > 0 {
      BuildSpecValid(H, leaves);
      BuildSpecKeepsLeaves(H, leaves);
    }
  }

  /** The bottom levels of up to four leaves, written out. */
  lemma WrapAllSmall(H: Hasher, a: Leaf, b: Leaf, c: Leaf, d: Leaf)
    ensures WrapAll(H, [a]) == [Wrap(H, a)]
    ensures WrapAll(H, [a, b]) == [Wrap(H, a), Wrap(H, b)]
    ensures WrapAll(H, [a, b, c]) == [Wrap(H, a), Wrap(H, b), Wrap(H, c)]
    ensures WrapAll(H, [a, b, c, d]) == [Wrap(H, a), Wrap(H, b), Wrap(H, c), Wrap(H, d)]
  {
    WrapAllSnoc(H, [], a);
    assert [] + [a] == [a];
    WrapAllSnoc(H, [a], b);
    assert [a] + [b] == [a, b];
    WrapAllSnoc(H, [a, b], c);
    assert [a, b] + [c] == [a, b, c];
    WrapAllSnoc(H, [a, b, c], d);
    assert [a, b, c] + [d] == [a, b, c, d];
  }

  /** Zero leaves give no head; one leaf gives its wrapping node, with no combine round. */
  lemma BuildSpecSmall(H: Hasher, lf: Leaf)
    ensures BuildSpec(H, []) == None
    ensures BuildSpec(H, [lf]) == Some(Node(H(lf.info), Some(lf), None, None))
  {
    WrapAllSmall(H, lf, lf, lf, lf);
  }

  /** Three leaves as the pop order pairs them: root(left = carry of the first, right = pair(third, second)). */
  lemma BuildSpecThree(H: Hasher, a: Leaf, b: Leaf, c: Leaf)
    ensures
      var na, nb, nc := Wrap(H, a), Wrap(H, b), Wrap(H, c);
      var q := Node(H(H(a.info) + H(a.info)), None, Some(na), None);
      var p := Node(H(H(c.info) + H(b.info)), None, Some(nc), Some(nb));
      BuildSpec(H, [a, b, c]) == Some(Node(H(q.val + p.val), None, Some(q), Some(p)))
  {
    var na, nb, nc := Wrap(H, a), Wrap(H, b), Wrap(H, c);
    var v := WrapAll(H, [a, b, c]);
    WrapAllSmall(H, a, b, c, c);
    assert v[..1] == [na];
    CombineUnfold(H, v);
    var w := Combine(H, v);
    assert w == [Pair(H, nc, nb), Carry(H, na)];
    assert w[..0] == [];
    CombineUnfold(H, w);
    assert Combine(H, w) == [Pair(H, Carry(H, na), Pair(H, nc, nb))];
    assert BuildLevels(H, v) == BuildLevels(H, w) == Combine(H, w);
  }

  /** Concatenations whose first parts have one length but differ are different. */
  lemma ConcatDiffers(x: string, y: string, z: string, t: string)
    requires |x| == |z| && x != z
    ensures x + y != z + t
  {
    assert x == (x + y)[..|x|];
    assert z == (z + t)[..|z|];
  }

  /**
   * Order matters: with an injective hash of fixed output length, two
   * leaves whose digests differ give different root digests in the two
   * orders.
   */
  lemma BuildSpecOrderSensitive(H: Hasher, a: Leaf, b: Leaf)
    requires Injective(H)
    requires |H(a.info)| == |H(b.info)| && H(a.info) != H(b.info)
    ensures BuildSpec(H, [a, b]).Some? && BuildSpec(H, [b, a]).Some?
    ensures BuildSpec(H, [a, b]).value.val != BuildSpec(H, [b, a]).value.val
  {
    var ab := WrapAll(H, [a, b]);
    var ba := WrapAll(H, [b, a]);
    WrapAllSmall(H, a, b, b, b);
    WrapAllSmall(H, b, a, a, a);
    assert ab[..0] == [] && ba[..0] == [];
    CombineUnfold(H, ab);
    CombineUnfold(H, ba);
    assert BuildLevels(H, ab) == Combine(H, ab) == [Pair(H, Wrap(H, b), Wrap(H, a))];
    assert BuildLevels(H, ba) == Combine(H, ba) == [Pair(H, Wrap(H, a), Wrap(H, b))];
    ConcatDiffers(H(b.info), H(a.info), H(a.info), H(b.info));
    assert H(H(b.info) + H(a.info)) != H(H(a.info) + H(b.info));
  }

  // ------------------------------------------------------------- methods

  /**
   * One round of the combine phase (the inner `loop`): pop the level
   * (`v1`, returned as `rest`) empty two nodes at a time, pushing each
   * parent onto `v2`; a lone node left at the end gets a left-only parent.
   */
  method CombineRound(H: Hasher, level: seq<Node>) returns (rest: seq<Node>, v2: seq<Node>)
    ensures rest == []
    ensures v2 == Combine(H, level)
    ensures |level| >= 2 ==> |v2| < |level|
  {
    rest := level;
    v2 := [];
    while true
      invariant v2 + Combine(H, rest) == Combine(H, level)
      decreases |rest|
    {
      if |rest| == 1 {
        var n := rest[|rest| - 1];
        rest := rest[..|rest| - 1];
        var newN := NewNode("");
        newN := newN.(left := Some(n));
        newN := newN.(val := ComputeHash(H, newN));
        assert newN == Carry(H, n) && [newN] == Combine(H, [n]);
        v2 := v2 + [newN];
        break;
      } else if |rest| == 0 {
        break;
      }
      CombineUnfold(H, rest);
      // two pops: the last node, then the one before it
      var n1 := rest[|rest| - 1];
      var n2 := rest[|rest| - 2];
      rest := rest[..|rest| - 2];
      var newN := NewNode("");
      newN := newN.(left := Some(n1));
      newN := newN.(right := Some(n2));
      newN := newN.(val := ComputeHash(H, newN));
      assert newN == Pair(H, n1, n2);
      v2 := v2 + [newN];
    }
    CombineShrinks(H, level);
  }

  /**
   * The combine phase of the builder: while more than one node is left,
   * run a round, which pops `v1` empty into `v2`, and append `v2` back
   * onto the empty `v1`.
   */
  method FoldLevels(H: Hasher, start: seq<Node>) returns (v1: seq<Node>)
    ensures v1 == BuildLevels(H, start)
    ensures |v1| == if |start| == 0 then 0 else 1
  {
    v1 := start;
    while |v1| > 1
      invariant BuildLevels(H, v1) == BuildLevels(H, start)
      decreases |v1|
    {
      ghost var level := v1;
      var rest, v2 := CombineRound(H, v1);
      v1 := rest + v2;
      assert v1 == Combine(H, level);
      assert BuildLevels(H, level) == BuildLevels(H, v1);
    }
    assert BuildLevels(H, v1) == v1;
    BuildLevelsLength(H, start);
  }

  /**
   * `MerkleTree::new` without the tree wrapper: wrap every leaf in a node
   * whose digest is the hash of its content, fold the level, and pop the
   * node that is left, if any.
   */
  method BuildHead(H: Hasher, leaves: seq<Leaf>) returns (head: Option<Node>)
    ensures head == BuildSpec(H, leaves)
    ensures head.None? <==> |leaves| == 0
    ensures head.Some? ==>
      WellFormed(head.value) && Validate(H, head.value)
      && multiset(Leaves(head.value)) == multiset(leaves)
  {
    var v1: seq<Node> := [];
    for i := 0 to |leaves|
      invariant v1 == WrapAll(H, leaves[..i])
    {
      var n := NewNode(H(GetInfo(leaves[i])));
      n := n.(leaf := Some(leaves[i]));
      v1 := v1 + [n];
      assert leaves[..i + 1][..i] == leaves[..i];
    }
    assert leaves[..|leaves|] == leaves;
    v1 := FoldLevels(H, v1);
    head := if |v1| == 0 then None else Some(v1[|v1| - 1]);
    BuildSpecCorrect(H, leaves);
  }
}
