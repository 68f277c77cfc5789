/**
 * The digest-only Merkle tree of src/merkle.rs.
 *
 * A leaf keeps only the digest of its item; an `Empty` right child marks the
 * odd item (or odd subtree) left over at the end of a row. `construct` builds
 * the tree level by level from the front of the input, `validate` re-derives
 * every digest and height, and `contains` looks a digest up among the leaves.
 */
module Merkle {
  import opened Wrappers
  import opened Hash
  import opened Levels

  /** `MerkleBranch`: what a child slot of a node holds. */
  datatype MerkleBranch =
    | Branch(node: MerkleTree)
    | Leaf(hash: Digest)
    | Empty

  /** `MerkleTree`: a node with its two children, its digest and its height. */
  datatype MerkleTree = MerkleTree(left: MerkleBranch, right: MerkleBranch, mrklRoot: Digest, height: nat)

  /** `MrklVR`: the result of validation, with the code's reason strings. */
  datatype MrklVR = Valid | InvalidHash(reason: string) | InvalidTree(reason: string)

  const NotEnoughData := "Not enough data to construct Merkle Tree. Must receive at least two items."
  const MalformedTree := "Malformed tree"
  const InternalHeightMismatch := "An internal node has height which differs from 1 + (child height)"
  const InternalRootMismatch := "An internal node has an unexpected mrkl_root"
  const FringeRootMismatch := "A fringe node has an unexpected mrkl_root"
  const FringeNonzeroHeight := "A fringe node has nonzero height"

  // ---------------------------------------------------------------------------
  // What a built tree looks like
  // ---------------------------------------------------------------------------

  /**
   * Every node obeys the digest and height rules: a fringe node (height 0)
   * holds two leaves with digest `H(hl ++ hr)` or one leaf and `Empty` with
   * digest `H(hl)`; an internal node holds two subtrees one level lower with
   * digest `H(l.root ++ r.root)`, or one subtree and `Empty` with `H(l.root)`.
   */
  predicate WellFormed(H: string -> Digest, t: MerkleTree)
    decreases t
  {
    match t.left
    case Leaf(hl) =>
      (match t.right
       case Leaf(hr) => t.height == 0 && t.mrklRoot == H(hl + hr)
       case Empty => t.height == 0 && t.mrklRoot == H(hl)
       case Branch(_) => false)
    case Branch(l) =>
      (match t.right
       case Branch(r) =>
         && t.height == l.height + 1 && t.height == r.height + 1
         && t.mrklRoot == H(l.mrklRoot + r.mrklRoot)
         && WellFormed(H, l) && WellFormed(H, r)
       case Empty =>
         && t.height == l.height + 1
         && t.mrklRoot == H(l.mrklRoot)
         && WellFormed(H, l)
       case Leaf(_) => false)
    case Empty => false
  }

  /** The leaf digests, read left to right. */
  function Leaves(t: MerkleTree): seq<Digest>
    decreases t
  {
    BranchLeaves(t.left) + BranchLeaves(t.right)
  }

  function BranchLeaves(b: MerkleBranch): seq<Digest>
    decreases b
  {
    match b
    case Branch(n) => Leaves(n)
    case Leaf(h) => [h]
    case Empty => []
  }

  /** No node has an `Empty` child. */
  predicate Full(t: MerkleTree)
    decreases t
  {
    && !t.right.Empty?
    && (t.left.Branch? ==> Full(t.left.node))
    && (t.right.Branch? ==> Full(t.right.node))
  }

  /**
   * `Empty` children occur only along the right spine: the items were taken
   * from the front, so every subtree left of the spine is full.
   */
  predicate LeftPacked(t: MerkleTree)
    decreases t
  {
    match t.left
    case Branch(l) =>
      (match t.right
       case Branch(r) => Full(l) && LeftPacked(r)
       case Empty => LeftPacked(l)
       case Leaf(_) => true)
    case _ => true
  }

  lemma {:induction false} FullIsLeftPacked(t: MerkleTree)
    requires Full(t)
    ensures LeftPacked(t)
    decreases t
  {
    if t.left.Branch? && t.right.Branch? {
      FullIsLeftPacked(t.right.node);
    }
  }

  /** The digests of `items`, in order. */
  function ItemHashes<T>(hashOf: T -> Digest, items: seq<T>): (r: seq<Digest>)
    ensures |r| == |items|
  {
    seq(|items|, i requires 0 <= i < |items| => hashOf(items[i]))
  }

  lemma ItemHashesSplit<T>(hashOf: T -> Digest, items: seq<T>, k: nat)
    requires k <= |items|
    ensures ItemHashes(hashOf, items) == ItemHashes(hashOf, items[..k]) + ItemHashes(hashOf, items[k..])
  {
    var a, b := ItemHashes(hashOf, items[..k]), ItemHashes(hashOf, items[k..]);
    assert forall i | 0 <= i < |items| :: ItemHashes(hashOf, items)[i] == (a + b)[i];
  }

  /** The leaves of a row of subtrees, left to right. */
  function Flatten(row: seq<MerkleTree>): seq<Digest>
  {
    if row == [] then [] else Leaves(row[0]) + Flatten(row[1..])
  }

  lemma {:induction false} FlattenAppend(row: seq<MerkleTree>, t: MerkleTree)
    ensures Flatten(row + [t]) == Flatten(row) + Leaves(t)
  {
    if row == [] {
      assert [t][1..] == [];
    } else {
      assert (row + [t])[1..] == row[1..] + [t];
      FlattenAppend(row[1..], t);
    }
  }

  /** A row as the builder keeps it: every subtree left-packed, all but the last full. */
  predicate RowShape(row: seq<MerkleTree>)
  {
    forall i :: 0 <= i < |row| ==> LeftPacked(row[i]) && (i < |row| - 1 ==> Full(row[i]))
  }

  /** A finished row of the builder: well-formed subtrees of one height, in row shape. */
  ghost predicate BuiltRow(H: string -> Digest, row: seq<MerkleTree>, height: nat)
  {
    && RowShape(row)
    && forall t <- row :: WellFormed(H, t) && t.height == height
  }

  // ---------------------------------------------------------------------------
  // Construction
  // ---------------------------------------------------------------------------

  /**
   * `construct_leaf`: removes the first item, appends its digest to the digest
   * buffer `hash` and returns it as a leaf.
   */
  method ConstructLeaf<T>(hashOf: T -> Digest, data: seq<T>, hash: string)
    returns (leaf: MerkleBranch, data': seq<T>, hash': string)
    requires |data| > 0
    ensures data' == data[1..]
    ensures leaf == Leaf(hashOf(data[0])) && hash' == hash + leaf.hash
  {
    var first := data[0];
    data' := data[1..];
    var firstHash := hashOf(first);
    hash' := hash + firstHash;
    leaf := Leaf(hashOf(first));
  }

  /**
   * `construct_branch`: removes the first subtree, appends its digest to the
   * digest buffer `hash` and returns it as a branch.
   */
  method ConstructBranch(data: seq<MerkleTree>, hash: string)
    returns (branch: MerkleBranch, data': seq<MerkleTree>, hash': string)
    requires |data| > 0
    ensures data' == data[1..]
    ensures branch == Branch(data[0]) && hash' == hash + data[0].mrklRoot
  {
    var first := data[0];
    data' := data[1..];
    hash' := hash + first.mrklRoot;
    branch := Branch(first);
  }

  /**
   * `construct_fringe_node`: consumes the first two items (one if only one is
   * left) into a well-formed height-0 node over their digests, in order.
   */
  method ConstructFringeNode<T>(H: string -> Digest, hashOf: T -> Digest, data: seq<T>)
    returns (node: MerkleTree, data': seq<T>)
    requires |data| > 0
    ensures var taken := if |data| == 1 then 1 else 2;
            data' == data[taken..] && Leaves(node) == ItemHashes(hashOf, data[..taken])
    ensures WellFormed(H, node) && node.height == 0
    ensures LeftPacked(node) && (Full(node) <==> |data| > 1)
  {
    var hash := "";
    var leftLeaf;
    leftLeaf, data', hash := ConstructLeaf(hashOf, data, hash);
    var rightLeaf := Empty;
    if |data'| > 0 {
      rightLeaf, data', hash := ConstructLeaf(hashOf, data', hash);
    }
    assert "" + leftLeaf.hash == leftLeaf.hash;
    hash := H(hash);
    node := MerkleTree(leftLeaf, rightLeaf, hash, 0);
  }

  /**
   * `construct_internal_node`: consumes the first two subtrees (one if only one
   * is left) into a node of the given height whose leaves are theirs, in order;
   * when they are well-formed and one level lower, so is the node.
   */
  method ConstructInternalNode(H: string -> Digest, data: seq<MerkleTree>, height: nat)
    returns (node: MerkleTree, data': seq<MerkleTree>)
    requires |data| > 0
    ensures var taken := if |data| == 1 then 1 else 2;
            && data' == data[taken..]
            && node.left == Branch(data[0])
            && node.right == (if taken == 2 then Branch(data[1]) else Empty)
            && Leaves(node) == Flatten(data[..taken])
            && ((forall i :: 0 <= i < taken ==> WellFormed(H, data[i]) && data[i].height + 1 == height)
                ==> WellFormed(H, node))
    ensures node.height == height
  {
    var hash := "";
    var leftBranch;
    leftBranch, data', hash := ConstructBranch(data, hash);
    var rightBranch := Empty;
    if |data'| > 0 {
      rightBranch, data', hash := ConstructBranch(data', hash);
    }
    assert "" + data[0].mrklRoot == data[0].mrklRoot;
    hash := H(hash);
    node := MerkleTree(leftBranch, rightBranch, hash, height);
    if |data| == 1 {
      assert Flatten(data[..1]) == Leaves(data[0]) + Flatten([]);
    } else {
      assert data[..2][1..] == [data[1]];
      assert Flatten([data[1]]) == Leaves(data[1]) + Flatten([]);
    }
  }

  /** The invariant of the first loop of `construct`: `items` is what is left of `data`. */
  ghost predicate FringeInv<T>(H: string -> Digest, hashOf: T -> Digest, data: seq<T>, items: seq<T>, trees: seq<MerkleTree>)
  {
    && |items| <= |data|
    && items == data[|data| - |items|..]
    && Flatten(trees) == ItemHashes(hashOf, data[..|data| - |items|])
    && (forall t <- trees :: WellFormed(H, t) && t.height == 0)
    && (forall i :: 0 <= i < |trees| ==> LeftPacked(trees[i]) && (Full(trees[i]) || (i == |trees| - 1 && items == [])))
    && (|data| - |items| == 2 * |trees| || (items == [] && |data| == 2 * |trees| - 1))
  }

  lemma FringeStep<T>(H: string -> Digest, hashOf: T -> Digest, data: seq<T>, items: seq<T>, trees: seq<MerkleTree>,
                      node: MerkleTree, items': seq<T>)
    requires FringeInv(H, hashOf, data, items, trees) && |items| > 0
    requires var taken := if |items| == 1 then 1 else 2;
             items' == items[taken..] && Leaves(node) == ItemHashes(hashOf, items[..taken])
    requires WellFormed(H, node) && node.height == 0
    requires LeftPacked(node) && (Full(node) <==> |items| > 1)
    ensures FringeInv(H, hashOf, data, items', trees + [node])
  {
    var consumed, upTo := |data| - |items|, |data| - |items'|;
    ItemHashesSplit(hashOf, data[..upTo], consumed);
    assert data[..upTo][..consumed] == data[..consumed];
    assert data[..upTo][consumed..] == items[..upTo - consumed];
    FlattenAppend(trees, node);
  }

  /**
   * The first loop of `construct`: height-0 nodes over the items, two at a
   * time from the front, until the items are used up. Their leaves are the
   * items' digests in order; only the last node may have an `Empty` child.
   */
  method ConstructFringeRow<T>(H: string -> Digest, hashOf: T -> Digest, data: seq<T>) returns (trees: seq<MerkleTree>)
    requires |data| > 0
    ensures Flatten(trees) == ItemHashes(hashOf, data)
    ensures BuiltRow(H, trees, 0)
    ensures |data| == 2 * |trees| || |data| == 2 * |trees| - 1
  {
    var items := data;
    trees := [];
    while |items| > 0
      invariant FringeInv(H, hashOf, data, items, trees)
      decreases |items|
    {
      var before := items;
      var node;
      node, items := ConstructFringeNode(H, hashOf, items);
      FringeStep(H, hashOf, data, before, trees, node, items);
      trees := trees + [node];
    }
    assert data[..|data|] == data;
  }

  /** The invariant of the loop of one round: `queue` is what is left of `trees`. */
  ghost predicate RoundInv(H: string -> Digest, trees: seq<MerkleTree>, height: nat, queue: seq<MerkleTree>, next: seq<MerkleTree>)
  {
    && |queue| <= |trees|
    && queue == trees[|trees| - |queue|..]
    && Flatten(next) + Flatten(queue) == Flatten(trees)
    && (forall t <- next :: WellFormed(H, t) && t.height == height)
    && RowBeingBuilt(next, queue == [])
    && (|trees| - |queue| == 2 * |next| || (queue == [] && |trees| == 2 * |next| - 1))
  }

  /** A row under construction: left-packed nodes, all full but the last one once the input is used up. */
  ghost predicate RowBeingBuilt(row: seq<MerkleTree>, done: bool)
  {
    forall i :: 0 <= i < |row| ==> LeftPacked(row[i]) && (Full(row[i]) || (i == |row| - 1 && done))
  }

  lemma RoundStep(H: string -> Digest, trees: seq<MerkleTree>, height: nat, queue: seq<MerkleTree>, next: seq<MerkleTree>,
                  node: MerkleTree, queue': seq<MerkleTree>)
    requires height > 0 && BuiltRow(H, trees, height - 1)
    requires RoundInv(H, trees, height, queue, next) && |queue| > 0
    requires var taken := if |queue| == 1 then 1 else 2;
             && queue' == queue[taken..]
             && node.left == Branch(queue[0])
             && node.right == (if taken == 2 then Branch(queue[1]) else Empty)
             && Leaves(node) == Flatten(queue[..taken])
             && ((forall i :: 0 <= i < taken ==> WellFormed(H, queue[i]) && queue[i].height + 1 == height)
                 ==> WellFormed(H, node))
    requires node.height == height
    ensures RoundInv(H, trees, height, queue', next + [node])
  {
    var taken := if |queue| == 1 then 1 else 2;
    assert queue' == trees[|trees| - |queue'|..];
    RoundLeaves(queue, next, node, taken);
    RoundNode(H, trees, height, queue, node, taken);
    RoundShape(trees, queue, next, node);
    var next' := next + [node];
    assert forall i :: 0 <= i < |next| ==> next'[i] == next[i];
  }

  lemma RoundNode(H: string -> Digest, trees: seq<MerkleTree>, height: nat, queue: seq<MerkleTree>, node: MerkleTree, taken: nat)
    requires height > 0 && BuiltRow(H, trees, height - 1)
    requires 0 < taken <= |queue| <= |trees| && queue == trees[|trees| - |queue|..]
    requires (forall i :: 0 <= i < taken ==> WellFormed(H, queue[i]) && queue[i].height + 1 == height)
             ==> WellFormed(H, node)
    ensures WellFormed(H, node)
  {
    forall i | 0 <= i < taken
      ensures WellFormed(H, queue[i]) && queue[i].height + 1 == height
    {
      assert queue[i] == trees[|trees| - |queue| + i];
    }
  }

  lemma RoundLeaves(queue: seq<MerkleTree>, next: seq<MerkleTree>, node: MerkleTree, taken: nat)
    requires taken <= |queue| && Leaves(node) == Flatten(queue[..taken])
    ensures Flatten(next + [node]) + Flatten(queue[taken..]) == Flatten(next) + Flatten(queue)
  {
    var a, b, c := Flatten(next), Flatten(queue[..taken]), Flatten(queue[taken..]);
    calc {
      Flatten(next + [node]) + c;
      { FlattenAppend(next, node); }
      (a + b) + c;
      a + (b + c);
      { FlattenSplit(queue, taken); }
      a + Flatten(queue);
    }
  }

  lemma RoundShape(trees: seq<MerkleTree>, queue: seq<MerkleTree>, next: seq<MerkleTree>, node: MerkleTree)
    requires RowShape(trees) && 0 < |queue| <= |trees| && queue == trees[|trees| - |queue|..]
    requires RowBeingBuilt(next, false)
    requires node.left == Branch(queue[0])
    requires node.right == (if |queue| == 1 then Empty else Branch(queue[1]))
    ensures RowBeingBuilt(next + [node], |queue| <= 2)
  {
    assert RowShape(queue);
    PairShape(queue, node);
  }

  /**
   * One round of the second loop of `construct`: the row is paired from the
   * front into nodes of the given height, the last one alone if the row is
   * odd. Leaves, well-formedness and the row shape carry over.
   */
  method ConstructRound(H: string -> Digest, trees: seq<MerkleTree>, height: nat) returns (next: seq<MerkleTree>)
    requires |trees| > 0 && height > 0 && BuiltRow(H, trees, height - 1)
    ensures Flatten(next) == Flatten(trees)
    ensures BuiltRow(H, next, height)
    ensures |trees| == 2 * |next| || |trees| == 2 * |next| - 1
  {
    var queue := trees;
    next := [];
    while |queue| > 0
      invariant RoundInv(H, trees, height, queue, next)
      decreases |queue|
    {
      var before := queue;
      var node;
      node, queue := ConstructInternalNode(H, queue, height);
      RoundStep(H, trees, height, before, next, node, queue);
      next := next + [node];
    }
  }

  /**
   * `construct`: fails exactly on empty input (despite its message, one item
   * is enough). Otherwise the tree is well-formed, packed to the left, its
   * leaves are the items' digests in input order, and its root height is the
   * least `h` with `2^(h+1) >= |data|`.
   */
  method Construct<T>(H: string -> Digest, hashOf: T -> Digest, data: seq<T>) returns (r: Result<MerkleTree>)
    ensures r.Err? <==> |data| == 0
    ensures r.Ok? ==> WellFormed(H, r.value) && LeftPacked(r.value)
    ensures r.Ok? ==> Leaves(r.value) == ItemHashes(hashOf, data)
    ensures r.Ok? ==> |data| <= Pow2(r.value.height + 1)
    ensures r.Ok? ==> r.value.height == 0 || Pow2(r.value.height) < |data|
  {
    if |data| < 1 {
      return Err(NotEnoughData);
    }
    var trees := ConstructFringeRow(H, hashOf, data);
    ghost var leaves := ItemHashes(hashOf, data);
    var height: nat := 1;
    assert Covers(|data|, |trees|, Pow2(height));
    while |trees| > 1
      invariant |trees| >= 1 && height >= 1
      invariant BuiltRow(H, trees, height - 1)
      invariant Flatten(trees) == leaves
      invariant Covers(|data|, |trees|, Pow2(height))
      invariant height == 1 || Pow2(height - 1) < |data|
      decreases |trees|
    {
      var next := ConstructRound(H, trees, height);
      PairingRound(|data|, |trees|, |next|, Pow2(height));
      trees := next;
      height := height + 1;
    }
    assert Flatten(trees) == Leaves(trees[0]) + Flatten([]);
    assert |data| <= Pow2(height) by {
      assert Covers(|data|, 1, Pow2(height));
    }
    return Ok(trees[0]);
  }

  lemma {:induction false} FlattenSplit(row: seq<MerkleTree>, k: nat)
    requires k <= |row|
    ensures Flatten(row) == Flatten(row[..k]) + Flatten(row[k..])
  {
    if k > 0 {
      assert row[..k][1..] == row[1..][..k - 1];
      assert row[k..] == row[1..][k - 1..];
      FlattenSplit(row[1..], k - 1);
    }
  }

  /** The node built from the front of a row keeps the row's shape invariants. */
  lemma PairShape(row: seq<MerkleTree>, node: MerkleTree)
    requires |row| > 0 && RowShape(row)
    requires node.left == Branch(row[0])
    requires node.right == (if |row| == 1 then Empty else Branch(row[1]))
    ensures LeftPacked(node)
    ensures |row| > 2 ==> Full(node)
    ensures |row| == 2 && Full(row[1]) ==> Full(node)
  {
  }

  // ---------------------------------------------------------------------------
  // Search
  // ---------------------------------------------------------------------------

  /**
   * `contains`: whether some leaf stores exactly the digest `itemHash`. It
   * visits both children of every node.
   */
  function Contains(t: MerkleTree, itemHash: Digest): (r: bool)
    ensures r <==> itemHash in Leaves(t)
    decreases t
  {
    var result :=
      match t.left
      case Branch(node) => Contains(node, itemHash)
      case Leaf(hash) => hash == itemHash
      case _ => false;
    match t.right
    case Branch(node) => result || Contains(node, itemHash)
    case Leaf(hash) => result || hash == itemHash
    case _ => result || false
  }

  /** Every item given to `construct` is found by `contains`, through its digest. */
  lemma ContainsEveryItem<T>(hashOf: T -> Digest, t: MerkleTree, data: seq<T>, x: T)
    requires Leaves(t) == ItemHashes(hashOf, data)
    requires x in data
    ensures Contains(t, hashOf(x))
  {
    var i :| 0 <= i < |data| && data[i] == x;
    assert Leaves(t)[i] == hashOf(x);
  }

  // ---------------------------------------------------------------------------
  // Validation
  // ---------------------------------------------------------------------------

  /**
   * `validate_fringe_node`: the digest of the leaf digests must be the node's
   * and its height 0; a digest mismatch is reported even when the height is
   * wrong too.
   */
  function ValidateFringeNode(H: string -> Digest, t: MerkleTree, leftHash: Digest, rightHash: Option<Digest>): (r: MrklVR)
    ensures var expected := if rightHash.Some? then H(leftHash + rightHash.value) else H(leftHash);
            && (r.Valid? <==> t.mrklRoot == expected && t.height == 0)
            && (r.InvalidHash? <==> t.mrklRoot != expected)
            && (r.InvalidTree? <==> t.mrklRoot == expected && t.height != 0)
  {
    var hash := leftHash + (match rightHash case Some(r) => r case None => "");
    assert rightHash.None? ==> hash == leftHash;
    var hash := H(hash);
    if t.mrklRoot == hash && t.height == 0 then Valid
    else if t.mrklRoot != hash then InvalidHash(FringeRootMismatch)
    else InvalidTree(FringeNonzeroHeight)
  }

  /**
   * `validate_internal_node`: the children must sit one level below the node
   * and the digest of their digests must be the node's; a height mismatch is
   * reported before the digest is looked at.
   */
  function ValidateInternalNode(H: string -> Digest, t: MerkleTree, leftNode: MerkleTree, rightNode: Option<MerkleTree>): (r: MrklVR)
    ensures var heightsOk := t.height == leftNode.height + 1 && (rightNode.Some? ==> t.height == rightNode.value.height + 1);
            var expected := if rightNode.Some? then H(leftNode.mrklRoot + rightNode.value.mrklRoot) else H(leftNode.mrklRoot);
            && (r.Valid? <==> heightsOk && t.mrklRoot == expected)
            && (r.InvalidTree? <==> !heightsOk)
            && (r.InvalidHash? <==> heightsOk && t.mrklRoot != expected)
  {
    var hash := leftNode.mrklRoot + (match rightNode case Some(r) => r.mrklRoot case None => "");
    assert rightNode.None? ==> hash == leftNode.mrklRoot;
    var rightHasCorrectHeight := match rightNode case Some(r) => t.height == r.height + 1 case None => true;
    var hash := H(hash);
    if hash == t.mrklRoot && t.height == leftNode.height + 1 && rightHasCorrectHeight then Valid
    else if t.height != leftNode.height + 1 || !rightHasCorrectHeight then InvalidTree(InternalHeightMismatch)
    else InvalidHash(InternalRootMismatch)
  }

  /** The four child patterns `validate` knows how to check. */
  predicate KnownPattern(t: MerkleTree)
  {
    || (t.left.Branch? && (t.right.Branch? || t.right.Empty?))
    || (t.left.Leaf? && (t.right.Leaf? || t.right.Empty?))
  }

  /**
   * `validate`, as written. Any other child pattern is `InvalidTree`, and a
   * well-formed tree (every tree `construct` returns) is `Valid`. The converse
   * does not hold: see `ValidMasksInvalidRight`.
   */
  function Validate(H: string -> Digest, t: MerkleTree): (r: MrklVR)
    ensures !KnownPattern(t) ==> r == InvalidTree(MalformedTree)
    ensures WellFormed(H, t) ==> r == Valid
    decreases t
  {
    match t.left
    case Branch(leftBr) =>
      (match t.right
       case Branch(rightBr) =>
         var (leftResult, rightResult) := (Validate(H, leftBr), Validate(H, rightBr));
         if leftResult.Valid? && rightResult.Valid? then ValidateInternalNode(H, t, leftBr, Some(rightBr))
         else if leftResult.InvalidHash? then leftResult
         else if rightResult.InvalidHash? then rightResult
         else leftResult
       case Empty =>
         var result := Validate(H, leftBr);
         if result.Valid? then ValidateInternalNode(H, t, leftBr, None) else result
       case Leaf(_) => InvalidTree(MalformedTree))
    case Leaf(hash) =>
      (match t.right
       case Leaf(rightHash) => ValidateFringeNode(H, t, hash, Some(rightHash))
       case Empty => ValidateFringeNode(H, t, hash, None)
       case Branch(_) => InvalidTree(MalformedTree))
    case Empty => InvalidTree(MalformedTree)
  }

  /**
   * An `InvalidHash` found in either child of a two-branch node reaches the
   * top, the left child's first; a malformed child pattern is `InvalidTree`.
   */
  lemma InvalidHashPropagates(H: string -> Digest, t: MerkleTree)
    requires t.left.Branch? && t.right.Branch?
    ensures Validate(H, t.left.node).InvalidHash? ==> Validate(H, t) == Validate(H, t.left.node)
    ensures !Validate(H, t.left.node).InvalidHash? && Validate(H, t.right.node).InvalidHash?
            ==> Validate(H, t) == Validate(H, t.right.node)
    ensures Validate(H, t.left.node).InvalidTree? && !Validate(H, t.right.node).InvalidHash?
            ==> Validate(H, t) == Validate(H, t.left.node)
  {
  }

  /**
   * The `(Valid, InvalidTree)` case of `validate` returns the left result: a
   * node whose right subtree is malformed, and whose own digest is not even
   * checked, is reported `Valid`.
   */
  lemma ValidMasksInvalidRight(H: string -> Digest, a: Digest, junk: Digest)
    ensures var fringe := MerkleTree(Leaf(a), Empty, H(a), 0);
            var malformed := MerkleTree(Empty, Empty, junk, 0);
            var t := MerkleTree(Branch(fringe), Branch(malformed), junk, 7);
            && Validate(H, malformed) == InvalidTree(MalformedTree)
            && !WellFormed(H, t)
            && Validate(H, t) == Valid
  {
    var fringe := MerkleTree(Leaf(a), Empty, H(a), 0);
    assert a + "" == a;
    assert Validate(H, fringe) == Valid;
  }

  /**
   * `validate` with the `(Valid, InvalidTree)` case propagating the invalid
   * result, as its own comment says it should: `Valid` exactly for the
   * well-formed trees.
   */
  function ValidateCorrected(H: string -> Digest, t: MerkleTree): (r: MrklVR)
    ensures r.Valid? <==> WellFormed(H, t)
    decreases t
  {
    match t.left
    case Branch(leftBr) =>
      (match t.right
       case Branch(rightBr) =>
         var (leftResult, rightResult) := (ValidateCorrected(H, leftBr), ValidateCorrected(H, rightBr));
         if leftResult.Valid? && rightResult.Valid? then ValidateInternalNode(H, t, leftBr, Some(rightBr))
         else if leftResult.InvalidHash? then leftResult
         else if rightResult.InvalidHash? then rightResult
         else if !leftResult.Valid? then leftResult
         else rightResult
       case Empty =>
         var result := ValidateCorrected(H, leftBr);
         if result.Valid? then ValidateInternalNode(H, t, leftBr, None) else result
       case Leaf(_) => InvalidTree(MalformedTree))
    case Leaf(hash) =>
      (match t.right
       case Leaf(rightHash) => ValidateFringeNode(H, t, hash, Some(rightHash))
       case Empty => ValidateFringeNode(H, t, hash, None)
       case Branch(_) => InvalidTree(MalformedTree))
    case Empty => InvalidTree(MalformedTree)
  }

  // ---------------------------------------------------------------------------
  // Tamper detection
  // ---------------------------------------------------------------------------

  /** The tree with its `i`-th leaf digest overwritten by `d`, ancestors untouched. */
  function TamperLeaf(t: MerkleTree, i: nat, d: Digest): (r: MerkleTree)
    requires i < |Leaves(t)|
    ensures r.mrklRoot == t.mrklRoot && r.height == t.height
    decreases t
  {
    var n := |BranchLeaves(t.left)|;
    if i < n then t.(left := TamperBranch(t.left, i, d))
    else t.(right := TamperBranch(t.right, i - n, d))
  }

  function TamperBranch(b: MerkleBranch, i: nat, d: Digest): (r: MerkleBranch)
    requires i < |BranchLeaves(b)|
    ensures r.Branch? <==> b.Branch?
    ensures r.Branch? ==> r.node.mrklRoot == b.node.mrklRoot && r.node.height == b.node.height
    decreases b
  {
    match b
    case Branch(n) => Branch(TamperLeaf(n, i, d))
    case Leaf(_) => Leaf(d)
  }

  /**
   * Under a collision-free `H`, overwriting any one leaf digest of a
   * well-formed tree with a different value makes `validate` report
   * `InvalidHash`.
   */
  lemma {:induction false} TamperedLeafDetected(H: string -> Digest, t: MerkleTree, i: nat, d: Digest)
    requires Injective(H)
    requires WellFormed(H, t)
    requires i < |Leaves(t)| && d != Leaves(t)[i]
    ensures Validate(H, TamperLeaf(t, i, d)).InvalidHash?
    decreases t
  {
    var n := |BranchLeaves(t.left)|;
    var t' := TamperLeaf(t, i, d);
    match t.left
    case Leaf(hl) =>
      assert BranchLeaves(t.left) == [hl];
      if i < n {
        assert t'.left == Leaf(d) && d != hl;
        match t.right
        case Leaf(hr) => ConcatHashesCancel(H, hr, d, hl);
        case Empty => assert d + "" == d && hl + "" == hl;
      } else {
        var hr := t.right.hash;
        assert BranchLeaves(t.right) == [hr];
        assert t'.right == Leaf(d) && d != hr;
        ConcatHashesCancel(H, hl, d, hr);
      }
    case Branch(l) =>
      if i < n {
        assert Leaves(t)[i] == Leaves(l)[i];
        TamperedLeafDetected(H, l, i, d);
      } else {
        var r := t.right.node;
        assert Leaves(t)[i] == Leaves(r)[i - n];
        TamperedLeafDetected(H, r, i - n, d);
        assert Validate(H, l) == Valid;
      }
  }
}
