# Merkle tree: a verified model

This project models the Merkle tree of `src/merkle_tree.rs` in Dafny.
The tree is built bottom-up over an ordered list of leaves (file contents).
Every node stores a digest. A validator recomputes each digest and compares it with the stored one.
A tamper hook overwrites one leaf's content without updating any digest.

The hash primitive is SHA-256 rendered as a hex string in the source.
Here it is a parameter `H: string -> string` of every operation, so the proofs hold for every hash function.
Two groups of lemmas add hypotheses about `H`:

- The tamper-detection lemmas assume either that the sentinel hashes differently from the overwritten content, or that `H` is injective.
- `BuildSpecOrderSensitive` assumes that `H` is injective and that the two leaves' digests have the same length.

Files:

- `options.dfy`: the `Option` type for the node's optional slots.
- `nodes.dfy` (module `Nodes`): `Leaf` and `Node` as datatypes.
  - `Node` mirrors the four fields of the Rust struct: `val`, `leaf`, `left` and `right`.
  - It holds `get_info`, `set_info`, `Node::new`, `add_child`, `has_children`, `compute_hash`, `validate` and `corrupt_leaf`, with their lemmas.
  - It also holds views used in the proofs: the reachable leaves, the set of subtrees, local consistency, the well-formed shapes and the digest skeleton.
- `builder.dfy` (module `Builder`): `MerkleTree::new`.
  - `BuildHead` is the leaf-wrapping loop; `FoldLevels` is the outer loop over the level `v1`, and `CombineRound` the inner loop that pops `v1` into `v2`.
  - Both are proved against the recursive specification `Combine`/`BuildLevels`/`BuildSpec`.
- `tree.dfy` (module `Tree`): the class `MerkleTree` with its `head` field; the constructor, `Validate` and `CorruptTree`.
  - It also holds the tree-level tamper-detection lemma and a client method that runs the build, validate, corrupt, validate flow of `src/main.rs`.

### How the builder pairs nodes

A level is consumed with `pop`, so pairing runs from the end of the level:

- The last node becomes the left child and the second-to-last the right child.
- Parents are pushed in that popped order.
- On an odd level, the node at index 0 is left over and gets a left-only parent with digest `H(v + v)`.

For example, three leaves `[a, b, c]` give `root(left = carry(a), right = pair(c, b))`.
Its digest is `H(H(H(a)+H(a)) + H(H(c)+H(b)))` (`BuildSpecThree`).
Four leaves give `((b, a), (d, c))`, so the tamper hook, which follows left children, overwrites `b` (`FourLeavesOrder`).

A front-to-back description of this pairing would give `H(H(H(a)+H(b)) + H(H(c)+H(c)))` for three leaves.
The code does not compute that, and the model follows the code.

## Model

| member | source | states |
|---|---|---|
| `Nodes.SetInfoGetInfo` | src/merkle_tree.rs:34-40 | reading a leaf's content after setting it gives the new content; setting the content just read, or restoring the old content, gives back the same leaf |
| `Nodes.NewNode` | src/merkle_tree.rs:51-58 | a new node holds the given digest and has no leaf and no children |
| `Nodes.AddChildFillsFirstFreeSlot` | src/merkle_tree.rs:60-72 | `add_child` succeeds exactly when a slot is free; it fills `left` if empty, else `right`, adds one child and keeps digest and leaf; on failure the node is unchanged |
| `Nodes.AddChildTwice` | src/merkle_tree.rs:60-72 | a fresh node takes a left child, then a right child, and refuses a third without change |
| `Nodes.HasChildrenIff` | src/merkle_tree.rs:74-79 | `has_children` is false exactly when both `left` and `right` are empty, i.e. when no child slot is occupied |
| `Nodes.ComputeHashCases` | src/merkle_tree.rs:93-119 | both children give `H(l.val + r.val)`, left only `H(l.val + l.val)`, right only `H(r.val + r.val)`, no child `H("")` |
| `Nodes.ComputeHashSelfDuplication` | src/merkle_tree.rs:96-114 | the digest depends only on the children's digests; a lone child (on either side) hashes like two children with its digest |
| `Nodes.ValidateUnfold` | src/merkle_tree.rs:121-150 | a node validates iff it is locally consistent and each present child validates (the result does not depend on the order of the arms) |
| `Nodes.ValidateIffAllConsistent` | src/merkle_tree.rs:121-150 | `validate` accepts a tree iff every node of it stores the digest its children, or its leaf content, call for |
| `Nodes.CorruptLeafKeepsSkeleton` | src/merkle_tree.rs:153-160 | the tamper hook changes no digest and no shape, only leaf contents |
| `Nodes.CorruptLeafChangesFirstLeaf` | src/merkle_tree.rs:153-160 | on a well-formed tree the hook replaces exactly the first reachable leaf by the sentinel `"You were hacked."` and keeps all other leaves |
| `Nodes.CorruptLeafDetected` | src/merkle_tree.rs:121-160 | a valid well-formed subtree fails validation after the hook whenever the sentinel's hash differs from the overwritten content's |
| `Nodes.CorruptLeafDetectedInjective` | src/merkle_tree.rs:121-160 | with an injective hash, a valid well-formed subtree fails validation after the hook whenever its first reachable leaf, the one overwritten, did not already hold the sentinel |
| `Builder.WrapGood` | src/merkle_tree.rs:173-178 | a leaf's bottom-level node is well formed, validates and reaches exactly that leaf |
| `Builder.WrapAllLeaves` | src/merkle_tree.rs:173-179 | the bottom level reaches the input leaves in input order, each exactly once |
| `Builder.WrapAllGood` | src/merkle_tree.rs:173-179 | every node of the bottom level is well formed and validates |
| `Builder.CombineShrinks` | src/merkle_tree.rs:181-201 | a round turns n nodes into floor(n/2) + (n mod 2) parents, fewer than n when n >= 2, so the outer loop terminates |
| `Builder.CombinePairing` | src/merkle_tree.rs:183-200 | the j-th parent pushed has the node 2j places from the end as left and the one before it as right; on an odd level the last parent carries the node at index 0 alone |
| `Builder.CombineGood` | src/merkle_tree.rs:185-197 | every parent a round creates is well formed and validates when its children do |
| `Builder.CombineKeepsLeaves` | src/merkle_tree.rs:182-200 | a round neither loses nor duplicates a leaf (same multiset of reachable leaves) |
| `Builder.BuildLevelsLength` | src/merkle_tree.rs:181-201 | the fold ends with no node for an empty level and with exactly one otherwise |
| `Builder.BuildLevelsGood` | src/merkle_tree.rs:181-201 | folding keeps every node of the level well formed and valid |
| `Builder.BuildLevelsKeepsLeaves` | src/merkle_tree.rs:181-201 | folding keeps the multiset of reachable leaves |
| `Builder.BuildSpecHead` | src/merkle_tree.rs:181-203 | the head is absent exactly for zero leaves; otherwise the fold leaves exactly one node and the head is that node |
| `Builder.BuildSpecValid` | src/merkle_tree.rs:168-203 | the head built over a non-empty input is well formed and validates |
| `Builder.BuildSpecKeepsLeaves` | src/merkle_tree.rs:168-203 | the head built over a non-empty input reaches each input leaf exactly as often as it occurs |
| `Builder.BuildSpecCorrect` | src/merkle_tree.rs:168-203 | the head is absent exactly for zero leaves; otherwise it is well formed, validates, and reaches each input leaf exactly as often as it occurs |
| `Builder.BuildSpecSmall` | src/merkle_tree.rs:168-203 | zero leaves give no head; one leaf gives its wrapping node with digest `H(content)` and no combine round |
| `Builder.BuildSpecThree` | src/merkle_tree.rs:181-203 | three leaves `[a, b, c]` give `root(carry(a), pair(c, b))` with the digests written out |
| `Builder.BuildSpecOrderSensitive` | src/merkle_tree.rs:181-203 | with an injective hash and equal-length leaf digests, `[a, b]` and `[b, a]` give heads with different root digests whenever `H(a) != H(b)` |
| `Builder.CombineRound` | src/merkle_tree.rs:182-199 | the inner pop/push loop empties the level and returns exactly one round of the specification, with fewer nodes than it started with when it had two or more |
| `Builder.FoldLevels` | src/merkle_tree.rs:181-201 | the outer loop, which runs a round and appends its parents back onto the emptied level, computes exactly the recursive fold and ends with one node, or none for an empty level |
| `Builder.BuildHead` | src/merkle_tree.rs:168-203 | the leaf-wrapping loop plus the fold produce exactly the specified head, which validates and keeps the leaf multiset |
| `Tree.MerkleTree.constructor` | src/merkle_tree.rs:168-204 | the new tree's head is the specified one, well formed, keeps the leaf multiset, and validates straight away |
| `Tree.MerkleTree.Validate` | src/merkle_tree.rs:206-211 | an empty tree is valid; otherwise valid iff every node is locally consistent; it only reads the tree |
| `Tree.MerkleTree.CorruptTree` | src/merkle_tree.rs:213-218 | an empty tree is unchanged; otherwise the head becomes its corrupted copy, with the same digests and shape and only the first leaf replaced by the sentinel |
| `Tree.BuiltTreeDetectsCorruption` | src/merkle_tree.rs:206-218 | on a non-empty built tree, with an injective hash, validation holds before the hook and fails after it, unless the leaf the hook overwrites already held the sentinel |
| `Tree.NoSentinelInput` | src/merkle_tree.rs:168-218 | when no input leaf holds the sentinel, the leaf the hook overwrites does not either, so detection applies |
| `Tree.FourLeavesShape` | src/merkle_tree.rs:181-203 | four leaves build the balanced tree `((b, a), (d, c))` |
| `Tree.FourLeavesOrder` | src/merkle_tree.rs:153-160 | for four leaves the reachable order is `b, a, d, c`, and the hook overwrites `b` |
| `Tree.DetectTampering` | src/main.rs:18-36 | on every input the first validation yields `true`; with no leaves the second yields `true` too; it yields `false` whenever the overwritten leaf's hash changes, in particular with an injective hash and a reached leaf that did not already hold the sentinel |

## Left out

- `Leaf::new` (src/merkle_tree.rs:16-32): opens and reads a file and panics on failure. In the model a leaf is just its content string.
- The directory listing inside `MerkleTree::new` (src/merkle_tree.rs:171): its value is unused. If `./db/` cannot be listed, `unwrap` panics and no tree is built; the model does not capture that abort, and building always returns a tree.
- `src/main.rs`: directory enumeration and printing. Only its call sequence is mirrored, by `Tree.DetectTampering`.
- SHA-256 and its hex encoding (the `crypto` crate): a foreign library, modelled as the parameter `H`.
  - Injectivity is assumed only in some detection lemmas and in `BuildSpecOrderSensitive`, which also assumes equal digest lengths (SHA-256 hex output always has 64 characters).
  - A hash with fixed-length output cannot be injective on all strings, so those lemmas are idealisations. `CorruptLeafDetected` and `DetectTampering` also state detection under the weaker hypothesis that the overwritten leaf's hash changes.
- The consuming accessors `left`, `right` and `hash` (src/merkle_tree.rs:81-91) and all `Box` ownership moves: trivial moves with no effect on values.
- In-place mutation of nodes and leaves: `add_child`, `set_info` and `corrupt_leaf` return the updated value. Every child is exclusively owned by its parent, so no other reference can observe the difference.
  - The tree-level `corrupt_tree` does update the `head` field of the `MerkleTree` object in place.
- Which input leaf the tamper hook reaches in general: it is the first leaf in reachable order, proved for every well-formed tree. Its input index follows no simple formula and is not stated, except for four leaves (`FourLeavesOrder`).
- The two pops of a pair are written as one slice of the level that removes both nodes; their order (the last node first, as the left child) is kept.
- The one body of `MerkleTree::new` is split into three methods at its loop boundaries: the leaf-wrapping loop, the outer combine loop and the inner combine loop. Together they compute the same head.
- Concurrency: the source is single-threaded.
