/**
 * Merkle inclusion proofs (src/merkle_proof.rs).
 *
 * A proof lists the sibling digests met on the way from an item up to the
 * root, each tagged with the side the sibling sits on. `verify` folds them
 * over the item's digest and compares the result with the claimed root;
 * `check_proof_form` only compares the root and the number of steps.
 */
module MerkleProofs {
  import opened Wrappers
  import opened Hash
  import Merkle

  /** `MerkleProofStep`: a sibling digest on the right or the left, or the end marker. */
  datatype MerkleProofStep = Right(stepHash: Digest) | Left(stepHash: Digest) | End

  /** `MerkleProof`: the steps, the claimed root and a start digest nothing reads. */
  datatype MerkleProof = MerkleProof(steps: seq<MerkleProofStep>, rootHash: Digest, startHash: Digest)

  // ---------------------------------------------------------------------------
  // The fold `verify` computes
  // ---------------------------------------------------------------------------

  /**
   * One step applied to the running digest: a sibling on the `Right` step is
   * written first (`H(s ++ acc)`), on the `Left` step last (`H(acc ++ s)`);
   * `End` stops the fold without a digest.
   */
  function Step(H: string -> Digest, acc: Digest, s: MerkleProofStep): Option<Digest>
  {
    match s
    case Right(stepHash) => Some(ConcatHashes(H, stepHash, acc))
    case Left(stepHash) => Some(ConcatHashes(H, acc, stepHash))
    case End => None
  }

  /** The steps applied in order from `acc`; `None` once an `End` is met. */
  function Fold(H: string -> Digest, acc: Digest, steps: seq<MerkleProofStep>): Option<Digest>
    decreases |steps|
  {
    if |steps| == 0 then Some(acc)
    else match Step(H, acc, steps[0])
      case None => None
      case Some(next) => Fold(H, next, steps[1..])
  }

  /** The fold yields no digest exactly when some step is `End`. */
  lemma {:induction false} FoldFailsIffEnd(H: string -> Digest, acc: Digest, steps: seq<MerkleProofStep>)
    ensures Fold(H, acc, steps).None? <==> exists i :: 0 <= i < |steps| && steps[i].End?
    decreases |steps|
  {
    if |steps| > 0 && !steps[0].End? {
      var next := Step(H, acc, steps[0]).value;
      FoldFailsIffEnd(H, next, steps[1..]);
      if exists i :: 0 <= i < |steps| && steps[i].End? {
        var i :| 0 <= i < |steps| && steps[i].End?;
        assert steps[1..][i - 1].End?;
      }
      if exists j :: 0 <= j < |steps[1..]| && steps[1..][j].End? {
        var j :| 0 <= j < |steps[1..]| && steps[1..][j].End?;
        assert steps[j + 1].End?;
      }
    }
  }

  /** Folding a concatenation folds the first part, then the second from where it ended. */
  lemma {:induction false} FoldAppend(H: string -> Digest, acc: Digest, a: seq<MerkleProofStep>, b: seq<MerkleProofStep>)
    ensures Fold(H, acc, a + b) == match Fold(H, acc, a)
                                   case None => None
                                   case Some(mid) => Fold(H, mid, b)
    decreases |a|
  {
    if |a| == 0 {
      assert a + b == b;
    } else {
      assert (a + b)[0] == a[0];
      assert (a + b)[1..] == a[1..] + b;
      match Step(H, acc, a[0])
      case None =>
      case Some(next) => FoldAppend(H, next, a[1..], b);
    }
  }

  /** The fold composes: one more step at the end is applied to the fold so far. */
  lemma FoldSnoc(H: string -> Digest, acc: Digest, steps: seq<MerkleProofStep>, s: MerkleProofStep)
    ensures Fold(H, acc, steps + [s]) == match Fold(H, acc, steps)
                                         case None => None
                                         case Some(mid) => Step(H, mid, s)
  {
    FoldAppend(H, acc, steps, [s]);
    match Fold(H, acc, steps)
    case None =>
    case Some(mid) =>
      assert [s][1..] == [];
  }

  // ---------------------------------------------------------------------------
  // The operations
  // ---------------------------------------------------------------------------

  /**
   * `verify`: starts from the item's digest, applies every step in order and
   * gives up on the first `End`; true exactly when the fold reaches the
   * claimed root.
   */
  method Verify<T>(H: string -> Digest, hashOf: T -> Digest, proof: MerkleProof, item: T) returns (ok: bool)
    ensures ok <==> Fold(H, hashOf(item), proof.steps) == Some(proof.rootHash)
  {
    var hash := hashOf(item);
    for i := 0 to |proof.steps|
      invariant Fold(H, hashOf(item), proof.steps) == Fold(H, hash, proof.steps[i..])
    {
      assert proof.steps[i..][0] == proof.steps[i];
      assert proof.steps[i..][1..] == proof.steps[i + 1..];
      match proof.steps[i]
      case Right(stepHash) =>
        hash := ConcatHashes(H, stepHash, hash);
      case Left(stepHash) =>
        hash := ConcatHashes(H, hash, stepHash);
      case End =>
        return false;
    }
    assert proof.steps[|proof.steps|..] == [];
    return hash == proof.rootHash;
  }

  /** `check_proof_form`: the claimed root matches and there is one step fewer than the height given. */
  function CheckProofForm(proof: MerkleProof, mrklRoot: Digest, mrklHeight: nat): (r: bool)
    ensures r ==> mrklHeight >= 1 && |proof.steps| == mrklHeight - 1
    ensures r ==> proof.rootHash == mrklRoot
  {
    mrklRoot == proof.rootHash && mrklHeight == |proof.steps| + 1
  }

  /** The start digest is carried but never read: neither operation depends on it. */
  lemma StartHashIgnored(H: string -> Digest, proof: MerkleProof, other: Digest, mrklRoot: Digest, mrklHeight: nat)
    ensures var altered := proof.(startHash := other);
            && CheckProofForm(altered, mrklRoot, mrklHeight) == CheckProofForm(proof, mrklRoot, mrklHeight)
            && (forall acc :: Fold(H, acc, altered.steps) == Fold(H, acc, proof.steps))
  {
  }

  // ---------------------------------------------------------------------------
  // What a verified proof means
  // ---------------------------------------------------------------------------

  /** A proof containing `End` anywhere verifies no item. */
  lemma EndRejects(H: string -> Digest, acc: Digest, steps: seq<MerkleProofStep>, i: nat)
    requires i < |steps| && steps[i].End?
    ensures Fold(H, acc, steps).None?
  {
    FoldFailsIffEnd(H, acc, steps);
  }

  /**
   * Under a collision-free `H`, a given list of steps maps different start
   * digests to different roots: a proof accepts at most one item digest.
   */
  lemma {:induction false} FoldInjective(H: string -> Digest, a: Digest, b: Digest, steps: seq<MerkleProofStep>)
    requires Injective(H)
    requires Fold(H, a, steps).Some? && Fold(H, a, steps) == Fold(H, b, steps)
    ensures a == b
    decreases |steps|
  {
    if |steps| > 0 {
      var na, nb := Step(H, a, steps[0]).value, Step(H, b, steps[0]).value;
      FoldInjective(H, na, nb, steps[1..]);
      ConcatHashesCancel(H, steps[0].stepHash, a, b);
    }
  }

  /**
   * Under a collision-free `H`, replacing one sibling digest of a proof by a
   * different one, on the same side, changes the root the fold reaches: a
   * verified proof cannot be altered and still verify.
   */
  lemma ReplacedSiblingDetected(H: string -> Digest, acc: Digest, steps: seq<MerkleProofStep>, k: nat, other: Digest)
    requires Injective(H)
    requires k < |steps| && !steps[k].End? && other != steps[k].stepHash
    requires Fold(H, acc, steps).Some?
    ensures Fold(H, acc, steps[k := steps[k].(stepHash := other)]) != Fold(H, acc, steps)
  {
    var altered := steps[k := steps[k].(stepHash := other)];
    var prefix, rest := steps[..k], steps[k + 1..];
    assert steps == prefix + ([steps[k]] + rest);
    assert altered == prefix + ([altered[k]] + rest);
    FoldAppend(H, acc, prefix, [steps[k]] + rest);
    FoldAppend(H, acc, prefix, [altered[k]] + rest);
    match Fold(H, acc, prefix)
    case None =>
    case Some(mid) =>
      assert ([steps[k]] + rest)[1..] == rest;
      assert ([altered[k]] + rest)[1..] == rest;
      var x, y := Step(H, mid, steps[k]).value, Step(H, mid, altered[k]).value;
      if Fold(H, y, rest) == Fold(H, x, rest) {
        FoldInjective(H, x, y, rest);
        ConcatHashesCancel(H, mid, steps[k].stepHash, other);
      }
  }

  // ---------------------------------------------------------------------------
  // Proofs for the digest-only tree of src/merkle.rs
  // ---------------------------------------------------------------------------

  /** The digest a child slot contributes to its parent's digest; nothing for `Empty`. */
  function SlotDigest(b: Merkle.MerkleBranch): Digest
  {
    match b
    case Branch(n) => n.mrklRoot
    case Leaf(h) => h
    case Empty => ""
  }

  /** Every well-formed node's digest is `concat_hashes` of its two slots. */
  lemma NodeDigest(H: string -> Digest, t: Merkle.MerkleTree)
    requires Merkle.WellFormed(H, t)
    ensures t.mrklRoot == ConcatHashes(H, SlotDigest(t.left), SlotDigest(t.right))
  {
    ConcatHashesEmptySecond(H, SlotDigest(t.left));
  }

  /** The sibling path from the `k`-th leaf of `t` up to `t`'s digest. */
  function PathSteps(t: Merkle.MerkleTree, k: nat): seq<MerkleProofStep>
    requires k < |Merkle.Leaves(t)|
    decreases t
  {
    var onLeft := |Merkle.BranchLeaves(t.left)|;
    if k < onLeft then BranchPath(t.left, k) + [Left(SlotDigest(t.right))]
    else BranchPath(t.right, k - onLeft) + [Right(SlotDigest(t.left))]
  }

  function BranchPath(b: Merkle.MerkleBranch, k: nat): seq<MerkleProofStep>
    requires k < |Merkle.BranchLeaves(b)|
    decreases b
  {
    match b
    case Branch(n) => PathSteps(n, k)
    case Leaf(_) => []
  }

  /**
   * Every leaf of a well-formed tree has a proof that `verify` accepts: its
   * sibling path folds the leaf digest up to the tree's digest, in one step
   * per level, fringe level included.
   */
  lemma {:induction false} PathVerifies(H: string -> Digest, t: Merkle.MerkleTree, k: nat)
    requires Merkle.WellFormed(H, t) && k < |Merkle.Leaves(t)|
    ensures Fold(H, Merkle.Leaves(t)[k], PathSteps(t, k)) == Some(t.mrklRoot)
    ensures |PathSteps(t, k)| == t.height + 1
    decreases t
  {
    var onLeft := |Merkle.BranchLeaves(t.left)|;
    var leaves := Merkle.Leaves(t);
    NodeDigest(H, t);
    if k < onLeft {
      assert leaves[k] == Merkle.BranchLeaves(t.left)[k];
      BranchPathVerifies(H, t.left, k, t.height);
      FoldSnoc(H, leaves[k], BranchPath(t.left, k), Left(SlotDigest(t.right)));
    } else {
      assert leaves[k] == Merkle.BranchLeaves(t.right)[k - onLeft];
      BranchPathVerifies(H, t.right, k - onLeft, t.height);
      FoldSnoc(H, leaves[k], BranchPath(t.right, k - onLeft), Right(SlotDigest(t.left)));
    }
  }

  /** The path inside one child slot folds the leaf up to the slot's digest. */
  lemma {:induction false} BranchPathVerifies(H: string -> Digest, b: Merkle.MerkleBranch, k: nat, parentHeight: nat)
    requires k < |Merkle.BranchLeaves(b)|
    requires b.Branch? ==> Merkle.WellFormed(H, b.node) && b.node.height + 1 == parentHeight
    requires b.Leaf? ==> parentHeight == 0
    ensures Fold(H, Merkle.BranchLeaves(b)[k], BranchPath(b, k)) == Some(SlotDigest(b))
    ensures |BranchPath(b, k)| == parentHeight
    decreases b
  {
    match b
    case Branch(n) => PathVerifies(H, n, k);
    case Leaf(_) =>
  }
}
