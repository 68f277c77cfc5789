/**
 * The earlier, generic Merkle tree of src/blockchain/merkle.rs.
 *
 * A leaf keeps its item together with the item's digest, `depth` plays the
 * role of the height (fringe nodes have depth 0) and a `None` right child
 * marks the odd item or subtree. Unlike src/merkle.rs, a node with a single
 * subtree copies that subtree's digest instead of hashing it again.
 */
module BlockchainMerkle {
  import Wrappers
  import opened Hash
  import opened Levels

  /** `MerkleBranch<T>`: what a child slot of a node holds. */
  datatype MerkleBranch<T> =
    | Branch(node: MerkleTree<T>)
    | Leaf(item: T, hash: Digest)
    | None

  /** `MerkleTree<T>`: a node with its two children, its digest and its depth. */
  datatype MerkleTree<T> = MerkleTree(left: MerkleBranch<T>, right: MerkleBranch<T>, mrklRoot: Digest, depth: nat)

  /** `MrklVR`: the result of validation (no reason strings in this variant). */
  datatype MrklVR = Valid | InvalidHash | InvalidTree

  const NotEnoughData := "Not enough data to construct Merkle Tree. Must receive at least two items."

  // ---------------------------------------------------------------------------
  // What a built tree looks like
  // ---------------------------------------------------------------------------

  /**
   * Every node is as `construct` makes it: a leaf stores its item's digest; a
   * fringe node (depth 0) has digest `H(hl ++ hr)`, or `H(hl)` over a single
   * leaf; an internal node has its children one level lower and digest
   * `H(l.root ++ r.root)`, or, over a single subtree, that subtree's digest.
   */
  predicate WellFormed<T>(H: string -> Digest, hashOf: T -> Digest, t: MerkleTree<T>)
    decreases t
  {
    match t.left
    case Leaf(li, lh) =>
      (match t.right
       case Leaf(ri, rh) => lh == hashOf(li) && rh == hashOf(ri) && t.depth == 0 && t.mrklRoot == H(lh + rh)
       case None => lh == hashOf(li) && t.depth == 0 && t.mrklRoot == H(lh)
       case Branch(_) => false)
    case Branch(l) =>
      (match t.right
       case Branch(r) =>
         && t.depth == l.depth + 1 && t.depth == r.depth + 1
         && t.mrklRoot == H(l.mrklRoot + r.mrklRoot)
         && WellFormed(H, hashOf, l) && WellFormed(H, hashOf, r)
       case None =>
         && t.depth == l.depth + 1
         && t.mrklRoot == l.mrklRoot
         && WellFormed(H, hashOf, l)
       case Leaf(_, _) => false)
    case None => false
  }

  /** No fringe node holds a single leaf. */
  predicate Paired<T>(t: MerkleTree<T>)
    decreases t
  {
    && !(t.left.Leaf? && t.right.None?)
    && (t.left.Branch? ==> Paired(t.left.node))
    && (t.right.Branch? ==> Paired(t.right.node))
  }

  /**
   * `validate` reaches a single-leaf fringe node: it descends only through
   * nodes with two subtrees, never below a node with a single subtree.
   */
  predicate LoneLeafChecked<T>(t: MerkleTree<T>)
    decreases t
  {
    match t.left
    case Leaf(_, _) => t.right.None?
    case Branch(l) => t.right.Branch? && (LoneLeafChecked(l) || LoneLeafChecked(t.right.node))
    case None => false
  }

  /** A tree with no single child anywhere has no single-leaf fringe node. */
  lemma {:induction false} FullNotChecked<T>(t: MerkleTree<T>)
    requires Full(t)
    ensures !LoneLeafChecked(t)
    decreases t
  {
    if t.left.Branch? && t.right.Branch? {
      FullNotChecked(t.left.node);
      FullNotChecked(t.right.node);
    }
  }

  /** The items at the leaves, read left to right. */
  function Items<T>(t: MerkleTree<T>): seq<T>
    decreases t
  {
    BranchItems(t.left) + BranchItems(t.right)
  }

  function BranchItems<T>(b: MerkleBranch<T>): seq<T>
    decreases b
  {
    match b
    case Branch(n) => Items(n)
    case Leaf(item, _) => [item]
    case None => []
  }

  /** No node has a `None` child. */
  predicate Full<T>(t: MerkleTree<T>)
    decreases t
  {
    && !t.right.None?
    && (t.left.Branch? ==> Full(t.left.node))
    && (t.right.Branch? ==> Full(t.right.node))
  }

  /** `None` children occur only along the right spine. */
  predicate LeftPacked<T>(t: MerkleTree<T>)
    decreases t
  {
    match t.left
    case Branch(l) =>
      (match t.right
       case Branch(r) => Full(l) && LeftPacked(r)
       case None => LeftPacked(l)
       case Leaf(_, _) => true)
    case _ => true
  }

  /** The items of a row of subtrees, left to right. */
  function Flatten<T>(row: seq<MerkleTree<T>>): seq<T>
  {
    if row == [] then [] else Items(row[0]) + Flatten(row[1..])
  }

  lemma {:induction false} FlattenAppend<T>(row: seq<MerkleTree<T>>, t: MerkleTree<T>)
    ensures Flatten(row + [t]) == Flatten(row) + Items(t)
  {
    if row == [] {
      assert [t][1..] == [];
    } else {
      assert (row + [t])[1..] == row[1..] + [t];
      FlattenAppend(row[1..], t);
    }
  }

  lemma {:induction false} FlattenSplit<T>(row: seq<MerkleTree<T>>, k: nat)
    requires k <= |row|
    ensures Flatten(row) == Flatten(row[..k]) + Flatten(row[k..])
  {
    if k > 0 {
      assert row[..k][1..] == row[1..][..k - 1];
      assert row[k..] == row[1..][k - 1..];
      FlattenSplit(row[1..], k - 1);
    }
  }

  /** A row as the builder keeps it: every subtree left-packed, all but the last full. */
  predicate RowShape<T>(row: seq<MerkleTree<T>>)
  {
    forall i :: 0 <= i < |row| ==> LeftPacked(row[i]) && (i < |row| - 1 ==> Full(row[i]))
  }

  /**
   * A finished row of the builder: well-formed subtrees of one depth, in row
   * shape, and free of single-leaf fringe nodes when `paired` is set.
   */
  ghost predicate BuiltRow<T>(H: string -> Digest, hashOf: T -> Digest, row: seq<MerkleTree<T>>, depth: nat, paired: bool)
  {
    && RowShape(row)
    && (forall t <- row :: WellFormed(H, hashOf, t) && t.depth == depth)
    && (paired ==> forall t <- row :: Paired(t))
  }

  // ---------------------------------------------------------------------------
  // Construction
  // ---------------------------------------------------------------------------

  /**
   * `construct_leaf`: removes the first item, appends its digest to the digest
   * buffer `hash` and returns a leaf with the item and its digest.
   */
  method ConstructLeaf<T>(hashOf: T -> Digest, data: seq<T>, hash: string)
    returns (leaf: MerkleBranch<T>, data': seq<T>, hash': string)
    requires |data| > 0
    ensures data' == data[1..]
    ensures leaf == Leaf(data[0], hashOf(data[0])) && hash' == hash + leaf.hash
  {
    var first := data[0];
    data' := data[1..];
    var firstHash := hashOf(first);
    hash' := hash + firstHash;
    leaf := Leaf(first, firstHash);
  }

  /**
   * `construct_branch`: removes the first subtree, appends its digest to the
   * digest buffer `hash` and returns it as a branch.
   */
  method ConstructBranch<T>(data: seq<MerkleTree<T>>, hash: string)
    returns (branch: MerkleBranch<T>, data': seq<MerkleTree<T>>, hash': string)
    requires |data| > 0
    ensures data' == data[1..]
    ensures branch == Branch(data[0]) && hash' == hash + data[0].mrklRoot
  {
    var first := data[0];
    data' := data[1..];
    hash' := hash + first.mrklRoot;
    branch := Branch(first);
  }

  /**
   * `construct_fringe_node`: consumes the first two items (one if only one is
   * left) into a well-formed depth-0 node over them, in order.
   */
  method ConstructFringeNode<T>(H: string -> Digest, hashOf: T -> Digest, data: seq<T>)
    returns (node: MerkleTree<T>, data': seq<T>)
    requires |data| > 0
    ensures var taken := if |data| == 1 then 1 else 2;
            data' == data[taken..] && Items(node) == data[..taken]
    ensures WellFormed(H, hashOf, node) && node.depth == 0
    ensures LeftPacked(node) && (Full(node) <==> |data| > 1) && (Paired(node) <==> |data| > 1)
    ensures LoneLeafChecked(node) <==> |data| == 1
  {
    var hash := "";
    var leftLeaf;
    leftLeaf, data', hash := ConstructLeaf(hashOf, data, hash);
    var rightLeaf := None;
    if |data'| > 0 {
      rightLeaf, data', hash := ConstructLeaf(hashOf, data', hash);
    }
    assert "" + leftLeaf.hash == leftLeaf.hash;
    hash := H(hash);
    node := MerkleTree(leftLeaf, rightLeaf, hash, 0);
  }

  /**
   * `construct_internal_node`: consumes the first two subtrees (one if only one
   * is left) into a node of the given depth over them. Only the two-child case
   * is hashed: a single child's digest is copied unchanged.
   */
  method ConstructInternalNode<T>(H: string -> Digest, hashOf: T -> Digest, data: seq<MerkleTree<T>>, depth: nat)
    returns (node: MerkleTree<T>, data': seq<MerkleTree<T>>)
    requires |data| > 0
    ensures var taken := if |data| == 1 then 1 else 2;
            && data' == data[taken..]
            && node.left == Branch(data[0])
            && node.right == (if taken == 2 then Branch(data[1]) else None)
            && Items(node) == Flatten(data[..taken])
            && ((forall i :: 0 <= i < taken ==> WellFormed(H, hashOf, data[i]) && data[i].depth + 1 == depth)
                ==> WellFormed(H, hashOf, node))
    ensures |data| == 1 ==> node.mrklRoot == data[0].mrklRoot
    ensures node.depth == depth
  {
    var hash := "";
    var leftBranch;
    leftBranch, data', hash := ConstructBranch(data, hash);
    var rightBranch := None;
    if |data'| > 0 {
      rightBranch, data', hash := ConstructBranch(data', hash);
      hash := H(hash);
    }
    assert "" + data[0].mrklRoot == data[0].mrklRoot;
    node := MerkleTree(leftBranch, rightBranch, hash, depth);
    if |data| == 1 {
      assert Flatten(data[..1]) == Items(data[0]) + Flatten([]);
    } else {
      assert data[..2][1..] == [data[1]];
      assert Flatten([data[1]]) == Items(data[1]) + Flatten([]);
    }
  }

  /** The invariant of the first loop of `construct`: `items` is what is left of `data`. */
  ghost predicate FringeInv<T>(H: string -> Digest, hashOf: T -> Digest, data: seq<T>, items: seq<T>, trees: seq<MerkleTree<T>>)
  {
    && |items| <= |data|
    && items == data[|data| - |items|..]
    && Flatten(trees) == data[..|data| - |items|]
    && (forall t <- trees :: WellFormed(H, hashOf, t) && t.depth == 0)
    && (forall i :: 0 <= i < |trees| ==> LeftPacked(trees[i]) && (Full(trees[i]) || (i == |trees| - 1 && items == [])))
    && (|data| % 2 == 0 ==> forall t <- trees :: Full(t))
    && (|data| - |items| == 2 * |trees| || (items == [] && |data| == 2 * |trees| - 1))
  }

  lemma FringeStep<T>(H: string -> Digest, hashOf: T -> Digest, data: seq<T>, items: seq<T>, trees: seq<MerkleTree<T>>,
                      node: MerkleTree<T>, items': seq<T>)
    requires FringeInv(H, hashOf, data, items, trees) && |items| > 0
    requires var taken := if |items| == 1 then 1 else 2;
             items' == items[taken..] && Items(node) == items[..taken]
    requires WellFormed(H, hashOf, node) && node.depth == 0
    requires LeftPacked(node) && (Full(node) <==> |items| > 1)
    ensures FringeInv(H, hashOf, data, items', trees + [node])
  {
    FringeItems(data, items, trees, node, items');
    var trees' := trees + [node];
    assert forall i :: 0 <= i < |trees| ==> trees'[i] == trees[i];
  }

  /** The items side of `FringeStep`: the new node's items continue the consumed prefix. */
  lemma FringeItems<T>(data: seq<T>, items: seq<T>, trees: seq<MerkleTree<T>>, node: MerkleTree<T>, items': seq<T>)
    requires |items| <= |data| && items == data[|data| - |items|..] && Flatten(trees) == data[..|data| - |items|]
    requires |items| > 0
    requires var taken := if |items| == 1 then 1 else 2;
             items' == items[taken..] && Items(node) == items[..taken]
    ensures |items'| <= |data| && items' == data[|data| - |items'|..]
    ensures Flatten(trees + [node]) == data[..|data| - |items'|]
  {
    var consumed, upTo := |data| - |items|, |data| - |items'|;
    PrefixExtend(data, consumed, upTo);
    assert data[consumed..upTo] == items[..upTo - consumed];
    calc {
      Flatten(trees + [node]);
      { FlattenAppend(trees, node); }
      Flatten(trees) + Items(node);
      data[..consumed] + data[consumed..upTo];
      data[..upTo];
    }
  }

  lemma PrefixExtend<T>(s: seq<T>, i: nat, j: nat)
    requires i <= j <= |s|
    ensures s[..j] == s[..i] + s[i..j]
  {
  }

  /** A full depth-0 node has no single-leaf fringe node. */
  lemma FullFringePaired<T>(H: string -> Digest, hashOf: T -> Digest, t: MerkleTree<T>)
    requires WellFormed(H, hashOf, t) && t.depth == 0 && Full(t)
    ensures Paired(t)
  {
  }

  /**
   * The first loop of `construct`: depth-0 nodes over the items, two at a time
   * from the front; with an even number of items, none holds a single leaf.
   */
  method ConstructFringeRow<T>(H: string -> Digest, hashOf: T -> Digest, data: seq<T>) returns (trees: seq<MerkleTree<T>>)
    requires |data| > 0
    ensures Flatten(trees) == data
    ensures BuiltRow(H, hashOf, trees, 0, |data| % 2 == 0)
    ensures |data| == 2 * |trees| || |data| == 2 * |trees| - 1
    ensures LoneLeafChecked(trees[|trees| - 1]) <==> |data| % 2 == 1
  {
    var items := data;
    trees := [];
    while |items| > 0
      invariant FringeInv(H, hashOf, data, items, trees)
      invariant FringeExposure(data, items, trees)
      decreases |items|
    {
      var before := items;
      var node;
      node, items := ConstructFringeNode(H, hashOf, items);
      FringeStep(H, hashOf, data, before, trees, node, items);
      FringeExposureStep(data, before, trees, node, items);
      trees := trees + [node];
    }
    FringeDone(H, hashOf, data, trees);
  }

  /** The last fringe node built so far holds a single leaf exactly when it took the odd last item. */
  ghost predicate FringeExposure<T>(data: seq<T>, items: seq<T>, trees: seq<MerkleTree<T>>)
  {
    |trees| > 0 ==> (LoneLeafChecked(trees[|trees| - 1]) <==> items == [] && |data| == 2 * |trees| - 1)
  }

  lemma FringeExposureStep<T>(data: seq<T>, items: seq<T>, trees: seq<MerkleTree<T>>, node: MerkleTree<T>, items': seq<T>)
    requires |items| > 0 && (|data| - |items| == 2 * |trees|)
    requires items' == items[if |items| == 1 then 1 else 2..]
    requires LoneLeafChecked(node) <==> |items| == 1
    ensures FringeExposure(data, items', trees + [node])
  {
  }

  /** The first loop ends with the items used up: the fringe row is built. */
  lemma FringeDone<T>(H: string -> Digest, hashOf: T -> Digest, data: seq<T>, trees: seq<MerkleTree<T>>)
    requires |data| > 0
    requires FringeInv(H, hashOf, data, [], trees) && FringeExposure(data, [], trees)
    ensures Flatten(trees) == data
    ensures BuiltRow(H, hashOf, trees, 0, |data| % 2 == 0)
    ensures |data| == 2 * |trees| || |data| == 2 * |trees| - 1
    ensures LoneLeafChecked(trees[|trees| - 1]) <==> |data| % 2 == 1
  {
    assert data[..|data|] == data;
    OddCount(|data|, |trees|);
    forall t <- trees | |data| % 2 == 0
      ensures Paired(t)
    {
      FullFringePaired(H, hashOf, t);
    }
  }

  /** The invariant of the loop of one round: `queue` is what is left of `trees`. */
  ghost predicate RoundInv<T>(H: string -> Digest, hashOf: T -> Digest, trees: seq<MerkleTree<T>>, depth: nat, paired: bool,
                              queue: seq<MerkleTree<T>>, next: seq<MerkleTree<T>>)
  {
    && |queue| <= |trees|
    && queue == trees[|trees| - |queue|..]
    && Flatten(next) + Flatten(queue) == Flatten(trees)
    && (forall t <- next :: WellFormed(H, hashOf, t) && t.depth == depth)
    && (paired ==> forall t <- next :: Paired(t))
    && RowBeingBuilt(next, queue == [])
    && (|trees| - |queue| == 2 * |next| || (queue == [] && |trees| == 2 * |next| - 1))
  }

  /** A row under construction: left-packed nodes, all full but the last one once the input is used up. */
  ghost predicate RowBeingBuilt<T>(row: seq<MerkleTree<T>>, done: bool)
  {
    forall i :: 0 <= i < |row| ==> LeftPacked(row[i]) && (Full(row[i]) || (i == |row| - 1 && done))
  }

  lemma RoundStep<T>(H: string -> Digest, hashOf: T -> Digest, trees: seq<MerkleTree<T>>, depth: nat, paired: bool,
                     queue: seq<MerkleTree<T>>, next: seq<MerkleTree<T>>, node: MerkleTree<T>, queue': seq<MerkleTree<T>>)
    requires depth > 0 && BuiltRow(H, hashOf, trees, depth - 1, paired)
    requires RoundInv(H, hashOf, trees, depth, paired, queue, next) && |queue| > 0
    requires var taken := if |queue| == 1 then 1 else 2;
             && queue' == queue[taken..]
             && node.left == Branch(queue[0])
             && node.right == (if taken == 2 then Branch(queue[1]) else None)
             && Items(node) == Flatten(queue[..taken])
             && ((forall i :: 0 <= i < taken ==> WellFormed(H, hashOf, queue[i]) && queue[i].depth + 1 == depth)
                 ==> WellFormed(H, hashOf, node))
    requires node.depth == depth
    ensures RoundInv(H, hashOf, trees, depth, paired, queue', next + [node])
  {
    var taken := if |queue| == 1 then 1 else 2;
    assert queue' == trees[|trees| - |queue'|..];
    RoundItems(queue, next, node, taken);
    RoundNode(H, hashOf, trees, depth, paired, queue, node, taken);
    RoundShape(trees, queue, next, node);
    var next' := next + [node];
    assert forall i :: 0 <= i < |next| ==> next'[i] == next[i];
  }

  lemma RoundNode<T>(H: string -> Digest, hashOf: T -> Digest, trees: seq<MerkleTree<T>>, depth: nat, paired: bool,
                     queue: seq<MerkleTree<T>>, node: MerkleTree<T>, taken: nat)
    requires depth > 0 && BuiltRow(H, hashOf, trees, depth - 1, paired)
    requires 0 < taken <= |queue| <= |trees| && queue == trees[|trees| - |queue|..]
    requires node.left == Branch(queue[0])
    requires node.right == (if taken == 2 then Branch(queue[1]) else None)
    requires (forall i :: 0 <= i < taken ==> WellFormed(H, hashOf, queue[i]) && queue[i].depth + 1 == depth)
             ==> WellFormed(H, hashOf, node)
    ensures WellFormed(H, hashOf, node) && (paired ==> Paired(node))
  {
    forall i | 0 <= i < taken
      ensures WellFormed(H, hashOf, queue[i]) && queue[i].depth + 1 == depth && (paired ==> Paired(queue[i]))
    {
      assert queue[i] == trees[|trees| - |queue| + i];
    }
  }

  lemma RoundItems<T>(queue: seq<MerkleTree<T>>, next: seq<MerkleTree<T>>, node: MerkleTree<T>, taken: nat)
    requires taken <= |queue| && Items(node) == Flatten(queue[..taken])
    ensures Flatten(next + [node]) + Flatten(queue[taken..]) == Flatten(next) + Flatten(queue)
  {
    var a, b, c := Flatten(next), Flatten(queue[..taken]), Flatten(queue[taken..]);
    calc {
      Flatten(next + [node]) + c;
      { FlattenAppend(next, node); }
      (a + b) + c;
      a + (b + c);
      { FlattenSplit(queue, taken); }
      a + Flatten(queue);
    }
  }

  lemma RoundShape<T>(trees: seq<MerkleTree<T>>, queue: seq<MerkleTree<T>>, next: seq<MerkleTree<T>>, node: MerkleTree<T>)
    requires RowShape(trees) && 0 < |queue| <= |trees| && queue == trees[|trees| - |queue|..]
    requires RowBeingBuilt(next, false)
    requires node.left == Branch(queue[0])
    requires node.right == (if |queue| == 1 then None else Branch(queue[1]))
    ensures RowBeingBuilt(next + [node], |queue| <= 2)
  {
    assert RowShape(queue);
    assert LeftPacked(node);
  }

  /**
   * One round of the second loop of `construct`: the row is paired from the
   * front into nodes of the given depth, the last one alone if the row is odd.
   */
  method ConstructRound<T>(H: string -> Digest, hashOf: T -> Digest, trees: seq<MerkleTree<T>>, depth: nat, ghost paired: bool)
    returns (next: seq<MerkleTree<T>>)
    requires |trees| > 0 && depth > 0 && BuiltRow(H, hashOf, trees, depth - 1, paired)
    ensures Flatten(next) == Flatten(trees)
    ensures BuiltRow(H, hashOf, next, depth, paired)
    ensures |trees| == 2 * |next| || |trees| == 2 * |next| - 1
    ensures LoneLeafChecked(next[|next| - 1]) <==> |trees| == 2 * |next| && LoneLeafChecked(trees[|trees| - 1])
  {
    var queue := trees;
    next := [];
    while |queue| > 0
      invariant RoundInv(H, hashOf, trees, depth, paired, queue, next)
      invariant LastExposure(trees, queue, next)
      decreases |queue|
    {
      var before := queue;
      var node;
      node, queue := ConstructInternalNode(H, hashOf, queue, depth);
      RoundStep(H, hashOf, trees, depth, paired, before, next, node, queue);
      RoundExposure(trees, before, next, node, queue);
      next := next + [node];
    }
    RoundDone(H, hashOf, trees, depth, paired, next);
  }

  /** A round ends with the input used up: the new row is built. */
  lemma RoundDone<T>(H: string -> Digest, hashOf: T -> Digest, trees: seq<MerkleTree<T>>, depth: nat, paired: bool,
                     next: seq<MerkleTree<T>>)
    requires |trees| > 0
    requires RoundInv(H, hashOf, trees, depth, paired, [], next)
    requires LastExposure(trees, [], next)
    ensures Flatten(next) == Flatten(trees)
    ensures BuiltRow(H, hashOf, next, depth, paired)
    ensures |trees| == 2 * |next| || |trees| == 2 * |next| - 1
    ensures LoneLeafChecked(next[|next| - 1]) <==> |trees| == 2 * |next| && LoneLeafChecked(trees[|trees| - 1])
  {
    assert Flatten(next) + [] == Flatten(trees);
  }

  /** The last node built so far reaches a single-leaf fringe node exactly when the row was even and its last subtree does. */
  ghost predicate LastExposure<T>(trees: seq<MerkleTree<T>>, queue: seq<MerkleTree<T>>, next: seq<MerkleTree<T>>)
  {
    |next| > 0 && |trees| > 0 ==>
      (LoneLeafChecked(next[|next| - 1]) <==> queue == [] && |trees| == 2 * |next| && LoneLeafChecked(trees[|trees| - 1]))
  }

  /**
   * The node built from the front of the queue reaches a single-leaf fringe
   * node only when it pairs the last two subtrees of an even row and the last
   * one does: every earlier subtree is full, and a single subtree is not
   * descended into.
   */
  lemma RoundExposure<T>(trees: seq<MerkleTree<T>>, queue: seq<MerkleTree<T>>, next: seq<MerkleTree<T>>, node: MerkleTree<T>,
                         queue': seq<MerkleTree<T>>)
    requires RowShape(trees) && 0 < |queue| <= |trees| && queue == trees[|trees| - |queue|..]
    requires |trees| - |queue| == 2 * |next|
    requires var taken := if |queue| == 1 then 1 else 2;
             && queue' == queue[taken..]
             && node.left == Branch(queue[0])
             && node.right == (if taken == 2 then Branch(queue[1]) else None)
    ensures LastExposure(trees, queue', next + [node])
  {
    if |queue| >= 2 {
      assert queue[0] == trees[|trees| - |queue|];
      FullNotChecked(queue[0]);
      assert queue[1] == trees[|trees| - |queue| + 1];
      if |queue| > 2 {
        FullNotChecked(queue[1]);
      }
    }
  }

  /**
   * `construct`: fails exactly on empty input. Otherwise the tree is
   * well-formed, packed to the left, its leaves hold the items in input order
   * and its depth is the least `d` with `2^(d+1) >= |data|`. With an even
   * number of items no fringe node holds a single leaf; whatever the count,
   * `validate` reaches a single-leaf fringe node exactly when `|data| + 1` is
   * a power of two (1, 3, 7, 15, ... items).
   */
  method Construct<T>(H: string -> Digest, hashOf: T -> Digest, data: seq<T>) returns (r: Wrappers.Result<MerkleTree<T>>)
    ensures r.Err? <==> |data| == 0
    ensures r.Ok? ==> WellFormed(H, hashOf, r.value) && LeftPacked(r.value)
    ensures r.Ok? ==> Items(r.value) == data
    ensures r.Ok? ==> |data| <= Pow2(r.value.depth + 1)
    ensures r.Ok? ==> r.value.depth == 0 || Pow2(r.value.depth) < |data|
    ensures r.Ok? && |data| % 2 == 0 ==> Paired(r.value)
    ensures r.Ok? ==> (LoneLeafChecked(r.value) <==> IsPow2(|data| + 1))
  {
    if |data| < 1 {
      return Wrappers.Err(NotEnoughData);
    }
    var trees := ConstructFringeRow(H, hashOf, data);
    FringeLevel(H, hashOf, data, trees);
    var root := ConstructLevels(H, hashOf, trees, data);
    return Wrappers.Ok(root);
  }

  /**
   * The second loop of `construct`: rounds of pairing until one subtree is
   * left, one level deeper each round.
   */
  method ConstructLevels<T>(H: string -> Digest, hashOf: T -> Digest, row: seq<MerkleTree<T>>, ghost data: seq<T>)
    returns (root: MerkleTree<T>)
    requires LevelInv(H, hashOf, data, row, 1)
    ensures WellFormed(H, hashOf, root) && LeftPacked(root) && Items(root) == data
    ensures |data| <= Pow2(root.depth + 1)
    ensures root.depth == 0 || Pow2(root.depth) < |data|
    ensures |data| % 2 == 0 ==> Paired(root)
    ensures LoneLeafChecked(root) <==> IsPow2(|data| + 1)
  {
    var trees := row;
    var depth: nat := 1;
    while |trees| > 1
      invariant depth >= 1 && LevelInv(H, hashOf, data, trees, depth)
      decreases |trees|
    {
      var next := ConstructRound(H, hashOf, trees, depth, |data| % 2 == 0);
      LevelStep(H, hashOf, data, trees, depth, next);
      trees := next;
      depth := depth + 1;
    }
    root := trees[0];
    LevelDone(H, hashOf, data, trees, depth);
  }

  /**
   * The invariant of the second loop: a built row of subtrees one level below
   * `depth`, holding the items in order, in the least number of rows, and whose
   * last subtree reaches a single-leaf fringe node exactly when it would be
   * complete with one more item.
   */
  ghost predicate LevelInv<T>(H: string -> Digest, hashOf: T -> Digest, data: seq<T>, trees: seq<MerkleTree<T>>, depth: nat)
  {
    && |trees| >= 1 && depth >= 1
    && BuiltRow(H, hashOf, trees, depth - 1, |data| % 2 == 0)
    && Flatten(trees) == data
    && Covers(|data|, |trees|, Pow2(depth))
    && (depth == 1 || Pow2(depth - 1) < |data|)
    && (LoneLeafChecked(trees[|trees| - 1]) <==> Exact(|data|, |trees|, Pow2(depth)))
  }

  /** The row of fringe nodes starts the second loop. */
  lemma FringeLevel<T>(H: string -> Digest, hashOf: T -> Digest, data: seq<T>, trees: seq<MerkleTree<T>>)
    requires |data| > 0
    requires Flatten(trees) == data
    requires BuiltRow(H, hashOf, trees, 0, |data| % 2 == 0)
    requires |data| == 2 * |trees| || |data| == 2 * |trees| - 1
    requires LoneLeafChecked(trees[|trees| - 1]) <==> |data| % 2 == 1
    ensures LevelInv(H, hashOf, data, trees, 1)
  {
    FringeCounts(|data|, |trees|);
  }

  lemma LevelStep<T>(H: string -> Digest, hashOf: T -> Digest, data: seq<T>, trees: seq<MerkleTree<T>>, depth: nat,
                     next: seq<MerkleTree<T>>)
    requires LevelInv(H, hashOf, data, trees, depth) && |trees| > 1
    requires Flatten(next) == Flatten(trees)
    requires BuiltRow(H, hashOf, next, depth, |data| % 2 == 0)
    requires |trees| == 2 * |next| || |trees| == 2 * |next| - 1
    requires LoneLeafChecked(next[|next| - 1]) <==> |trees| == 2 * |next| && LoneLeafChecked(trees[|trees| - 1])
    ensures LevelInv(H, hashOf, data, next, depth + 1)
  {
    PairingRound(|data|, |trees|, |next|, Pow2(depth));
    ExactRound(|data|, |trees|, |next|, Pow2(depth));
  }

  lemma LevelDone<T>(H: string -> Digest, hashOf: T -> Digest, data: seq<T>, trees: seq<MerkleTree<T>>, depth: nat)
    requires LevelInv(H, hashOf, data, trees, depth) && |trees| == 1
    ensures trees[0].depth + 1 == depth
    ensures WellFormed(H, hashOf, trees[0]) && LeftPacked(trees[0]) && Items(trees[0]) == data
    ensures |data| <= Pow2(trees[0].depth + 1)
    ensures trees[0].depth == 0 || Pow2(trees[0].depth) < |data|
    ensures |data| % 2 == 0 ==> Paired(trees[0])
    ensures LoneLeafChecked(trees[0]) <==> IsPow2(|data| + 1)
  {
    var root := trees[0];
    assert root in trees;
    assert Flatten(trees) == Items(root) + Flatten([]);
    assert Covers(|data|, 1, Pow2(depth));
    ExactSingle(|data|, Pow2(depth));
    LastRowExact(|data|, root.depth);
  }

  // ---------------------------------------------------------------------------
  // Validation
  // ---------------------------------------------------------------------------

  /** The four child patterns `validate` knows how to check. */
  predicate KnownPattern<T>(t: MerkleTree<T>)
  {
    || (t.left.Branch? && (t.right.Branch? || t.right.None?))
    || (t.left.Leaf? && (t.right.Leaf? || t.right.None?))
  }

  /** `validate`, the check of a node over two leaves. */
  function ValidateLeafPair<T>(H: string -> Digest, hashOf: T -> Digest, t: MerkleTree<T>): (r: MrklVR)
    requires t.left.Leaf? && t.right.Leaf?
    ensures var expected := H(t.left.hash + t.right.hash);
            var leavesOk := hashOf(t.left.item) == t.left.hash && hashOf(t.right.item) == t.right.hash;
            && (r.Valid? <==> leavesOk && t.mrklRoot == expected && t.depth == 0)
            && (t.mrklRoot != expected ==> r.InvalidHash?)
            && (r.InvalidTree? <==> t.mrklRoot == expected && t.depth != 0)
  {
    var hash := H(t.left.hash + t.right.hash);
    if hashOf(t.left.item) == t.left.hash && hashOf(t.right.item) == t.right.hash && t.mrklRoot == hash && t.depth == 0 then
      Valid
    else if t.mrklRoot != hash then
      InvalidHash
    else if t.depth != 0 then
      InvalidTree
    else
      InvalidHash
  }

  /**
   * `validate`, as written. Any other child pattern is `InvalidTree`; a
   * well-formed tree is `Valid` unless the descent through nodes with two
   * subtrees reaches a single-leaf fringe node. There the node's digest,
   * which `construct` sets to `H(hashOf(item))`, is compared with
   * `hashOf(item)` itself. Below a node with a single subtree nothing is
   * validated at all, so a single-leaf fringe node there goes unchecked.
   */
  function Validate<T>(H: string -> Digest, hashOf: T -> Digest, t: MerkleTree<T>): (r: MrklVR)
    ensures !KnownPattern(t) ==> r == InvalidTree
    ensures WellFormed(H, hashOf, t) && !LoneLeafChecked(t) ==> r == Valid
    decreases t
  {
    match t.left
    case Branch(leftBr) =>
      (match t.right
       case Branch(rightBr) =>
         (match (Validate(H, hashOf, leftBr), Validate(H, hashOf, rightBr))
          case (Valid, Valid) =>
            var hash := H(leftBr.mrklRoot + rightBr.mrklRoot);
            if hash == t.mrklRoot && t.depth == leftBr.depth + 1 && t.depth == rightBr.depth + 1 then Valid
            else if t.depth != leftBr.depth + 1 || t.depth != rightBr.depth + 1 then InvalidTree
            else InvalidHash
          case (InvalidHash, _) => InvalidHash
          case (_, InvalidHash) => InvalidHash
          case (_, _) => InvalidTree)
       case None =>
         if leftBr.mrklRoot == t.mrklRoot && t.depth == leftBr.depth + 1 then Valid
         else if leftBr.depth + 1 != t.depth then InvalidTree
         else InvalidHash
       case Leaf(_, _) => InvalidTree)
    case Leaf(leftIt, leftHash) =>
      (match t.right
       case Leaf(_, _) => ValidateLeafPair(H, hashOf, t)
       case None =>
         var hash := hashOf(leftIt);
         if hash == leftHash && hash == t.mrklRoot && t.depth == 0 then Valid
         else if t.depth != 0 then InvalidTree
         else InvalidHash
       case Branch(_) => InvalidTree)
    case None => InvalidTree
  }

  /**
   * Result precedence over two subtrees: an `InvalidHash` from either child
   * wins, any other failure is `InvalidTree`.
   */
  lemma ValidatePrecedence<T>(H: string -> Digest, hashOf: T -> Digest, t: MerkleTree<T>)
    requires t.left.Branch? && t.right.Branch?
    ensures var l, r := Validate(H, hashOf, t.left.node), Validate(H, hashOf, t.right.node);
            && (l.InvalidHash? || r.InvalidHash? ==> Validate(H, hashOf, t) == InvalidHash)
            && (!l.InvalidHash? && !r.InvalidHash? && !(l.Valid? && r.Valid?) ==> Validate(H, hashOf, t) == InvalidTree)
  {
  }

  /**
   * Every single-leaf fringe node that `validate` reaches passes its check:
   * the digest of the leaf is a fixed point of `H`.
   */
  ghost predicate LoneLeavesPass<T>(H: string -> Digest, t: MerkleTree<T>)
    decreases t
  {
    match t.left
    case Leaf(_, d) => t.right.None? ==> H(d) == d
    case Branch(l) => t.right.Branch? ==> LoneLeavesPass(H, l) && LoneLeavesPass(H, t.right.node)
    case None => true
  }

  /**
   * On a well-formed tree `validate` never answers `InvalidTree`: it is
   * `Valid` exactly when every single-leaf fringe node it reaches passes,
   * and `InvalidHash` otherwise.
   */
  lemma {:induction false} ValidateWellFormed<T>(H: string -> Digest, hashOf: T -> Digest, t: MerkleTree<T>)
    requires WellFormed(H, hashOf, t)
    ensures Validate(H, hashOf, t) == if LoneLeavesPass(H, t) then Valid else InvalidHash
    decreases t
  {
    if t.left.Branch? && t.right.Branch? {
      ValidateWellFormed(H, hashOf, t.left.node);
      ValidateWellFormed(H, hashOf, t.right.node);
    }
  }

  /**
   * A reached single-leaf fringe node fails whenever `H(hashOf(item))`, the
   * digest `construct` gives it, differs from `hashOf(item)`, the digest the
   * check expects.
   */
  lemma {:induction false} LoneLeafFails<T>(H: string -> Digest, hashOf: T -> Digest, t: MerkleTree<T>)
    requires WellFormed(H, hashOf, t) && LoneLeafChecked(t)
    requires forall x <- Items(t) :: H(hashOf(x)) != hashOf(x)
    ensures !LoneLeavesPass(H, t)
    decreases t
  {
    match t.left
    case Leaf(x, _) =>
      assert x in Items(t);
    case Branch(l) =>
      var r := t.right.node;
      assert Items(t) == Items(l) + Items(r);
      if LoneLeafChecked(l) {
        LoneLeafFails(H, hashOf, l);
      } else {
        LoneLeafFails(H, hashOf, r);
      }
  }

  /**
   * `validate` rejects a well-formed tree whose descent reaches a
   * single-leaf fringe node (every tree `construct` returns for 1, 3, 7, ...
   * items), unless some item's digest is a fixed point of `H`.
   */
  lemma LoneLeafRejected<T>(H: string -> Digest, hashOf: T -> Digest, t: MerkleTree<T>)
    requires WellFormed(H, hashOf, t) && LoneLeafChecked(t)
    requires forall x <- Items(t) :: H(hashOf(x)) != hashOf(x)
    ensures Validate(H, hashOf, t) == InvalidHash
  {
    LoneLeafFails(H, hashOf, t);
    ValidateWellFormed(H, hashOf, t);
  }

  /**
   * Building a tree and validating it, as the five-item test and the
   * three-item usage example do: `Valid` unless one more item would make a
   * power of two, and then `InvalidHash` unless an item's digest is a fixed
   * point of `H`.
   */
  method ConstructThenValidate<T>(H: string -> Digest, hashOf: T -> Digest, data: seq<T>) returns (r: MrklVR)
    requires |data| > 0
    ensures !IsPow2(|data| + 1) ==> r == Valid
    ensures IsPow2(|data| + 1) && (forall x <- data :: H(hashOf(x)) != hashOf(x)) ==> r == InvalidHash
  {
    var built := Construct(H, hashOf, data);
    var t := built.value;
    r := Validate(H, hashOf, t);
    if IsPow2(|data| + 1) && forall x <- data :: H(hashOf(x)) != hashOf(x) {
      LoneLeafRejected(H, hashOf, t);
    }
  }

  /**
   * The five names of the test, each hashed by `String::get_hash`, build a
   * tree that validates.
   */
  method FiveNamesValid(H: string -> Digest) returns (r: MrklVR)
    ensures r == Valid
  {
    var names := ["sally", "alice", "ronnie", "mj", "john john"];
    assert !IsPow2(|names| + 1);
    r := ConstructThenValidate(H, H, names);
  }

  /**
   * The three words of the usage example build a tree that is rejected,
   * unless one of their digests is a fixed point of `H`.
   */
  method ThreeWordsRejected(H: string -> Digest) returns (r: MrklVR)
    ensures (forall x <- ["some", "sample", "data"] :: H(H(x)) != H(x)) ==> r == InvalidHash
  {
    var words := ["some", "sample", "data"];
    assert IsPow2(|words| + 1);
    r := ConstructThenValidate(H, H, words);
  }

  /**
   * A single subtree is not validated: a node over a malformed child whose
   * digest and depth it copies is reported `Valid`.
   */
  lemma SingleChildNotValidated<T>(H: string -> Digest, hashOf: T -> Digest, junk: Digest)
    ensures var child: MerkleTree<T> := MerkleTree(None, None, junk, 0);
            var t := MerkleTree(Branch(child), None, junk, 1);
            && Validate(H, hashOf, child) == InvalidTree
            && !WellFormed(H, hashOf, t)
            && Validate(H, hashOf, t) == Valid
  {
  }

  /**
   * `validate` with the single-child cases fixed: a single leaf is checked
   * against `H(leaf digest)`, as `construct` stores it, and a single subtree
   * is validated before its digest is compared. `Valid` exactly for the
   * well-formed trees, so every tree `construct` returns passes.
   */
  function ValidateCorrected<T>(H: string -> Digest, hashOf: T -> Digest, t: MerkleTree<T>): (r: MrklVR)
    ensures r.Valid? <==> WellFormed(H, hashOf, t)
    decreases t
  {
    match t.left
    case Branch(leftBr) =>
      (match t.right
       case Branch(rightBr) =>
         (match (ValidateCorrected(H, hashOf, leftBr), ValidateCorrected(H, hashOf, rightBr))
          case (Valid, Valid) =>
            var hash := H(leftBr.mrklRoot + rightBr.mrklRoot);
            if hash == t.mrklRoot && t.depth == leftBr.depth + 1 && t.depth == rightBr.depth + 1 then Valid
            else if t.depth != leftBr.depth + 1 || t.depth != rightBr.depth + 1 then InvalidTree
            else InvalidHash
          case (InvalidHash, _) => InvalidHash
          case (_, InvalidHash) => InvalidHash
          case (_, _) => InvalidTree)
       case None =>
         (match ValidateCorrected(H, hashOf, leftBr)
          case Valid =>
            if leftBr.mrklRoot == t.mrklRoot && t.depth == leftBr.depth + 1 then Valid
            else if leftBr.depth + 1 != t.depth then InvalidTree
            else InvalidHash
          case result => result)
       case Leaf(_, _) => InvalidTree)
    case Leaf(leftIt, leftHash) =>
      (match t.right
       case Leaf(_, _) => ValidateLeafPair(H, hashOf, t)
       case None =>
         var hash := H(leftHash);
         if hashOf(leftIt) == leftHash && hash == t.mrklRoot && t.depth == 0 then Valid
         else if t.depth != 0 then InvalidTree
         else InvalidHash
       case Branch(_) => InvalidTree)
    case None => InvalidTree
  }
}
