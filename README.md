# Merkle trees, inclusion proofs and hash pointers

This project models the Merkle-tree core of a small Rust blockchain library in Dafny, and proves properties of that model. The core has four parts:

- **The digest-only tree** (`src/merkle.rs`), module `Merkle`.
  - A leaf stores the digest of an item.
  - A node stores its two children, a root digest (`mrkl_root`) and its height. Fringe nodes have height 0.
  - `construct` builds the tree bottom-up from a vector of items. It pairs items, then subtrees, from the front of each row. The odd element at the end of a row gets an `Empty` right sibling.
  - `validate` re-derives every digest and height of a tree whose subtrees all validate. One case is skipped; see "## Findings".
  - `contains` looks a digest up among the leaves.
- **The generic tree** (`src/blockchain/merkle.rs`), module `BlockchainMerkle`.
  - It works the same way, but a leaf keeps the item itself next to its digest.
  - The nodes count `depth` instead of height.
  - Its `validate` checks each child pattern inline.
- **Inclusion proofs** (`src/merkle_proof.rs`), module `MerkleProofs`.
  - `verify` folds a list of left/right sibling digests over an item's digest. It is true when the fold reaches the claimed root.
  - `check_proof_form` compares the root and the number of steps.
- **Hash helpers** (`src/hash.rs`), module `Hash`.
  - `concat_hashes` hashes the concatenation of two digests.
  - `HashPointer::to` stores an item with its digest. `HashPointer::verify_hash` re-checks that digest.

**Hashing is not modelled.** SHA-256 (`String::get_hash`) is a function parameter `H: string -> string`. An item's own `Hashable::get_hash` is a second parameter `hashOf`. Nothing is assumed about either. The tamper-detection lemmas name collision freedom (`Injective(H)`) as an explicit hypothesis.

**Trees are values.** They never change after `construct` returns, so trees are datatypes.

**Construction and proof checking are imperative methods.**
- `construct` and its helpers drain vectors with `remove(0)` and append to a digest buffer. They are modelled as methods over `seq`s. A helper that takes `&mut Vec`/`&mut String` receives the vector or buffer and returns its new value.
- `verify` is a loop over the steps with a running digest.
- Each method is proved against specification predicates:
  - `WellFormed`: every digest and height rule holds.
  - `Leaves`/`Items`: what the leaves hold, in order.
  - `LeftPacked`/`Full`: where `Empty` children may sit.
  - `Fold`: the digest a list of proof steps computes.

The modules `Merkle` and `BlockchainMerkle` each define the same shape predicates and row lemmas (`Full`, `LeftPacked`, `Flatten`, `FlattenAppend`, `FlattenSplit`, `RowShape`, `RowBeingBuilt`, the round lemmas) over their own tree type, because the source has two sibling implementations over different leaf types.

`Levels` holds the powers of two and the row-count arithmetic behind the height bound. `Wrappers` holds `Option` and `Result`.

## Model

| member | source | states |
|---|---|---|
| Hash.ConcatHashes | src/hash.rs:44-48 | The definition: `H` of `first` followed by `second`. Its properties are stated by `ConcatHashesEmptySecond` and `ConcatHashesCancel`. |
| Hash.ConcatHashesEmptySecond | src/hash.rs:44-48 | With an empty second (or first) part, `concat_hashes` is `H` of the other part. This is the single-child digest rule the trees use. |
| Hash.ConcatHashesCancel | src/hash.rs:44-48 | Under a collision-free `H`, equal `concat_hashes` results with one part shared force the other parts to be equal, on either side. |
| Hash.To | src/hash.rs:31-33 | `to` stores the item and its own digest. The pointer it returns passes `verify_hash`. |
| Hash.VerifyHash | src/hash.rs:35-41 | The definition: true exactly when re-hashing the pointee gives the recorded digest. Its properties are stated by `To` and `VerifyHashDetectsReplacedHash`. |
| Hash.VerifyHashDetectsReplacedHash | src/hash.rs:35-41 | A pointer that passes `verify_hash` fails it once its recorded digest is replaced by any other value. |
| Levels.PairingRound | src/merkle.rs:153-170 | Pairing a row of `rows >= 2` subtrees gives strictly fewer. If the previous rows were the least to cover `n` items at `per` items each, the new rows are the least at `2*per`. |
| Merkle.ConstructLeaf | src/merkle.rs:378-386 | Removes the first item, appends its digest to the buffer, and returns a leaf holding that digest. |
| Merkle.ConstructBranch | src/merkle.rs:393-399 | Removes the first subtree, appends its root to the buffer, and returns it as a branch. |
| Merkle.ConstructFringeNode | src/merkle.rs:406-426 | Consumes two items, or the last one. Returns a well-formed height-0 node whose leaves are their digests in order. The node is full exactly when two items were taken. |
| Merkle.ConstructInternalNode | src/merkle.rs:432-451 | Consumes two subtrees, or the last one. Returns a node over them at the given height, with their leaves in order. It is well-formed whenever they are, one level lower. |
| Merkle.ConstructFringeRow | src/merkle.rs:143-151 | The first loop of `construct`. It yields about half as many well-formed height-0 nodes as items, whose leaves are the item digests in order, all full except possibly the last. |
| Merkle.ConstructRound | src/merkle.rs:155-168 | One pass of the second loop. It halves the row, rounding up, into well-formed nodes one level higher, with the same leaves in the same order and the same row shape. |
| Merkle.Construct | src/merkle.rs:131-173 | Fails exactly on empty input. Otherwise the tree is well-formed and left-packed, its leaves are the item digests in input order, and its height is the least `h` with `n <= 2^(h+1)`. |
| Merkle.Contains | src/merkle.rs:192-207 | True exactly when the digest is among the tree's leaves. |
| Merkle.ContainsEveryItem | src/merkle.rs:192-207 | Every item that built the tree is found through its digest. |
| Merkle.ValidateFringeNode | src/merkle.rs:340-365 | `Valid` iff the root is `H` of the leaf digests and the height is 0. `InvalidHash` iff the root differs, even when the height is also wrong. `InvalidTree` iff only the height is wrong. |
| Merkle.ValidateInternalNode | src/merkle.rs:300-333 | `InvalidTree` iff a child is not exactly one level lower. Otherwise `Valid` or `InvalidHash`, according to whether the root is `H` of the children's roots. |
| Merkle.Validate | src/merkle.rs:225-289 | An unknown child pattern is `InvalidTree("Malformed tree")`. Every well-formed tree, and so every tree `construct` returns, is `Valid`. |
| Merkle.InvalidHashPropagates | src/merkle.rs:238-247 | For two subtrees, an `InvalidHash` from the left child, then from the right, is returned unchanged. A left `InvalidTree` comes next. |
| Merkle.ValidMasksInvalidRight | src/merkle.rs:244-246 | A node over a valid left subtree and a malformed right subtree is reported `Valid`, though it is not well-formed and its root is never checked. |
| Merkle.ValidateCorrected | src/merkle.rs:225-289 | `validate` with the `(Valid, InvalidTree)` case propagating the failure. It is `Valid` exactly for the well-formed trees. |
| Merkle.TamperedLeafDetected | src/merkle.rs:225-365 | Under a collision-free `H`, overwriting any one leaf digest of a well-formed tree with a different value, keeping every ancestor, makes `validate` report `InvalidHash`. |
| BlockchainMerkle.ConstructLeaf | src/blockchain/merkle.rs:251-259 | Removes the first item, appends its digest to the buffer, and returns a leaf holding the item and that digest. |
| BlockchainMerkle.ConstructBranch | src/blockchain/merkle.rs:266-272 | Removes the first subtree, appends its root to the buffer, and returns it as a branch. |
| BlockchainMerkle.ConstructFringeNode | src/blockchain/merkle.rs:279-299 | Consumes two items, or the last one, into a well-formed depth-0 node over them in order. The node holds a single leaf, which `validate` then checks, exactly when one was taken. |
| BlockchainMerkle.ConstructInternalNode | src/blockchain/merkle.rs:305-321 | Consumes two subtrees, or the last one. Only two children are hashed; a single child's root is copied unchanged. The node is well-formed whenever its children are, one level lower. |
| BlockchainMerkle.ConstructFringeRow | src/blockchain/merkle.rs:106-111 | The first loop. It yields well-formed depth-0 nodes over the items in order, one per two items, rounding up. The last node holds a single leaf exactly when the item count is odd. |
| BlockchainMerkle.ConstructRound | src/blockchain/merkle.rs:117-125 | One pass of the second loop. It halves the row, rounding up, into well-formed nodes one level deeper, keeping the items, their order, the row shape, and the absence of single leaves. `validate` reaches a single-leaf fringe node through the new last node exactly when the old row had even length and it did so through the old last subtree. |
| BlockchainMerkle.Construct | src/blockchain/merkle.rs:95-129 | Fails exactly on empty input. Otherwise the tree is well-formed and left-packed, holds the items in input order, and has the least depth `d` with `n <= 2^(d+1)`. With an even item count, no fringe node holds a single leaf. Whatever the count, `validate` reaches a single-leaf fringe node exactly when `n + 1` is a power of two (1, 3, 7, 15, … items). |
| BlockchainMerkle.ConstructLevels | src/blockchain/merkle.rs:113-128 | The second loop, from the fringe row to the one subtree left. That subtree is well-formed, left-packed, holds the items in order, has the least depth `d` with `n <= 2^(d+1)`, and exposes a single-leaf fringe node to `validate` exactly when `n + 1` is a power of two. |
| BlockchainMerkle.ValidateLeafPair | src/blockchain/merkle.rs:180-206 | `Valid` iff both leaf digests match their items, the root is `H` of the two digests, and the depth is 0. A root mismatch is `InvalidHash`. `InvalidTree` iff the root matches and the depth is wrong, even when a leaf digest is wrong too. So a wrong leaf digest gives `InvalidHash` only when the root and the depth are right. |
| BlockchainMerkle.Validate | src/blockchain/merkle.rs:141-243 | An unknown child pattern is `InvalidTree`. A well-formed tree is `Valid` whenever the descent through nodes with two subtrees reaches no single-leaf fringe node. A node with a single subtree is not descended into. |
| BlockchainMerkle.ValidateWellFormed | src/blockchain/merkle.rs:141-243 | A well-formed tree is never `InvalidTree`. It is `Valid` exactly when every single-leaf fringe node that `validate` reaches has a digest `d` with `H(d) == d`, and `InvalidHash` otherwise. |
| BlockchainMerkle.ValidatePrecedence | src/blockchain/merkle.rs:175-177 | For two subtrees, an `InvalidHash` from either child wins. Any other failure is `InvalidTree`. |
| BlockchainMerkle.LoneLeafFails | src/blockchain/merkle.rs:220-236 | A single-leaf fringe node reached by `validate` fails its check when no item digest `d` has `H(d) == d`. Its root is `H(d)`, but the check compares it with `d`. |
| BlockchainMerkle.LoneLeafRejected | src/blockchain/merkle.rs:220-236 | A well-formed tree in which `validate` reaches a single-leaf fringe node is reported `InvalidHash` when no item digest `d` has `H(d) == d`. |
| BlockchainMerkle.ConstructThenValidate | src/blockchain/test.rs:10-36 | Building a tree from `n >= 1` items and validating it gives `Valid` when `n + 1` is not a power of two, as for the five items of the test. When it is (1, 3, 7, … items, like the three-item example at src/blockchain/merkle.rs:16-18), the result is `InvalidHash` unless some item digest `d` has `H(d) == d`. |
| BlockchainMerkle.FiveNamesValid | src/blockchain/test.rs:10-36 | The test's five names, hashed by `String::get_hash`, build a tree that `validate` reports `Valid`, whatever `H` is. |
| BlockchainMerkle.ThreeWordsRejected | src/blockchain/merkle.rs:16-18 | The usage example's three words build a tree that `validate` reports `InvalidHash`, unless a word's digest `d` has `H(d) == d`. The example expects `Valid`. |
| BlockchainMerkle.SingleChildNotValidated | src/blockchain/merkle.rs:208-219 | A node over a malformed single child, whose root and depth it copies, is reported `Valid` though it is not well-formed. |
| BlockchainMerkle.ValidateCorrected | src/blockchain/merkle.rs:141-243 | `validate` with a single leaf checked against `H` of its digest, and a single subtree validated first. It is `Valid` exactly for the well-formed trees. |
| MerkleProofs.FoldFailsIffEnd | src/merkle_proof.rs:21-27 | The fold gives no digest exactly when some step is `End`. |
| MerkleProofs.FoldAppend | src/merkle_proof.rs:21-27 | Folding `a ++ b` folds `a`, then folds `b` from where `a` ended. |
| MerkleProofs.FoldSnoc | src/merkle_proof.rs:21-27 | Verifying `steps ++ [s]` applies step `s` to the fold over `steps`. |
| MerkleProofs.Verify | src/merkle_proof.rs:19-29 | True exactly when folding the steps from the item's digest reaches `root_hash`. `Right(s)` gives `H(s ++ acc)`, `Left(s)` gives `H(acc ++ s)`, and `End` rejects. With no steps this is `hashOf(item) == root_hash`. |
| MerkleProofs.CheckProofForm | src/merkle_proof.rs:31-34 | If it holds, the root is `root_hash` and the height is the step count plus one. |
| MerkleProofs.StartHashIgnored | src/merkle_proof.rs:12-34 | Changing `start_hash` changes neither `verify`'s fold nor `check_proof_form`. |
| MerkleProofs.EndRejects | src/merkle_proof.rs:25 | A proof with an `End` step anywhere verifies no item. |
| MerkleProofs.FoldInjective | src/merkle_proof.rs:19-29 | Under a collision-free `H`, one list of steps leads two different item digests to different roots: a proof accepts at most one item digest. |
| MerkleProofs.ReplacedSiblingDetected | src/merkle_proof.rs:19-29 | Under a collision-free `H`, replacing one sibling digest of a proof by another on the same side changes the root reached. |
| MerkleProofs.NodeDigest | src/merkle.rs:406-451 | Every well-formed node's root is `concat_hashes` of its two child digests, with an `Empty` child contributing nothing. |
| MerkleProofs.PathVerifies | src/merkle_proof.rs:19-29 | Every leaf of a well-formed digest-only tree has a sibling path that folds its digest to the tree's root, in `height + 1` steps. |

## Left out

- SHA-256 itself and the `Hashable` instance for `String` (src/hash.rs:16-21). Both are parameters.
- `Block` (src/hash.rs) and the rest of the blockchain module. They are not part of this model.
- `debug_assert!` panics in non-release builds. The model follows release builds, where they do nothing.
- Features that comments and tests mention but the code does not have:
  - pruning and partial branches;
  - per-node bounds;
  - sorted leaves and binary search in `contains`;
  - `generate_proof`.
- Test harnesses, printing and module wiring.
- `usize` overflow of heights and vector lengths. Integers are unbounded.
- The `Result` of the helpers in src/merkle.rs:406-451. They are always `Ok`, so they return the node, and the `Err` arms of `construct` that forward their error cannot happen.
- The error message says "at least two items", while the guard rejects only the empty vector. The model follows the guard.
- `contains` takes a digest, as written, not an item. `ContainsEveryItem` applies the digest.
- Ownership: `verify` iterates over `self.steps` by value through a shared reference. The model reads the steps.
- Whether `check_proof_form` agrees with the heights of src/merkle.rs. It does not: a leaf-to-root path has `height + 1` steps (`PathVerifies`), while `check_proof_form` expects `height - 1`. No property is stated about the two together.
- MerkleProofs.CheckProofForm: its contract states only the direction "true implies root and step count match". The converse is its definition.

## Findings

| source | as written | input that shows it | evidently intended | confidence | as-written member | corrected member |
|---|---|---|---|---|---|---|
| src/merkle.rs:244-246 | The `(result@_, _)` arm returns the left result, so `(Valid, InvalidTree)` gives `Valid` and the node's own root is never checked | A node over a valid fringe node and a `(Empty, Empty)` right child | An invalid child is reported, as the comment at lines 232-236 describes | high (not executed) | Merkle.ValidMasksInvalidRight | Merkle.ValidateCorrected |
| src/blockchain/merkle.rs:220-236 | A lone leaf is accepted only if the root equals the leaf digest `d`, but `construct_fringe_node` stores `H(d)` | `construct` on 1, 3, 7, … items, e.g. the three-item example at src/blockchain/merkle.rs:16-18. Five items, as in src/blockchain/test.rs:10-36, pass, because the lone leaf sits below a node with a single subtree, which is not descended into | The lone-leaf check compares the root with `H(d)` | high (not executed) | BlockchainMerkle.LoneLeafRejected | BlockchainMerkle.ValidateCorrected |
| src/blockchain/merkle.rs:208-219 | The `(Branch, None)` case compares roots and depths without validating the child | `MerkleTree(Branch(MerkleTree(None, None, r, 0)), None, r, 1)` | The child is validated first, as in the two-branch case | high (not executed) | BlockchainMerkle.SingleChildNotValidated | BlockchainMerkle.ValidateCorrected |
