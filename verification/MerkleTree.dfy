/**
 The capacity-proof Merkle tree. Every level is kept; a level of odd length pairs its
 last node with itself. The pair hash is a parameter, so nothing here depends on it.
 */
module MerkleTree {

  /** The hash of the two children of node `i` one level up; a missing right child is the left one. */
  function ParentNode<D>(hp: (D, D) -> D, level: seq<D>, i: nat): D
    requires 2 * i < |level|
  {
    hp(level[2 * i], if 2 * i + 1 < |level| then level[2 * i + 1] else level[2 * i])
  }

  function ParentLevel<D>(hp: (D, D) -> D, level: seq<D>): (parents: seq<D>)
    ensures |parents| == (|level| + 1) / 2
    ensures forall i :: 0 <= i < |parents| ==> parents[i] == ParentNode(hp, level, i)
  {
    seq((|level| + 1) / 2, i requires 0 <= i < (|level| + 1) / 2 => ParentNode(hp, level, i))
  }

  /** All levels of the tree over `leaves`, leaves first: the reference every operation refines. */
  function Levels<D>(hp: (D, D) -> D, leaves: seq<D>): (levels: seq<seq<D>>)
    requires |leaves| > 0
    ensures |levels| > 0 && levels[0] == leaves
    decreases |leaves|
  {
    if |leaves| == 1 then [leaves] else [leaves] + Levels(hp, ParentLevel(hp, leaves))
  }

  /** Number of levels above the leaves; it depends on the leaf count alone. */
  function Depth(leafCount: nat): nat
    requires leafCount > 0
  {
    if leafCount == 1 then 0 else 1 + Depth((leafCount + 1) / 2)
  }

  function Root<D>(hp: (D, D) -> D, leaves: seq<D>): D
    requires |leaves| > 0
    decreases |leaves|
  {
    if |leaves| == 1 then leaves[0] else Root(hp, ParentLevel(hp, leaves))
  }

  /** A level-by-level description of `Levels`. */
  ghost predicate IsTree<D>(hp: (D, D) -> D, levels: seq<seq<D>>) {
    && |levels| > 0
    && |levels[|levels| - 1]| == 1
    && forall l :: 0 <= l < |levels| - 1 ==> |levels[l]| > 1 && levels[l + 1] == ParentLevel(hp, levels[l])
  }

  lemma {:induction false} LevelsIsTree<D>(hp: (D, D) -> D, leaves: seq<D>)
    requires |leaves| > 0
    ensures IsTree(hp, Levels(hp, leaves))
    ensures |Levels(hp, leaves)| == Depth(|leaves|) + 1
    ensures Levels(hp, leaves)[Depth(|leaves|)] == [Root(hp, leaves)]
    decreases |leaves|
  {
    if |leaves| > 1 {
      LevelsIsTree(hp, ParentLevel(hp, leaves));
    }
  }

  /** The level-by-level description has one solution per leaf list. */
  lemma {:induction false} TreeIsLevels<D>(hp: (D, D) -> D, levels: seq<seq<D>>)
    requires IsTree(hp, levels)
    ensures |levels[0]| > 0
    ensures levels == Levels(hp, levels[0])
    decreases |levels|
  {
    if |levels| > 1 {
      TreeIsLevels(hp, levels[1..]);
      assert levels == [levels[0]] + levels[1..];
    }
  }

  /** `updates` applied left to right: on a repeated index the last write wins. */
  function Overwrite<D>(leaves: seq<D>, updates: seq<(nat, D)>): (result: seq<D>)
    requires forall u :: u in updates ==> u.0 < |leaves|
    ensures |result| == |leaves|
    ensures forall i :: 0 <= i < |leaves| && (forall u :: u in updates ==> u.0 != i) ==> result[i] == leaves[i]
  {
    if updates == [] then leaves
    else
      var last := updates[|updates| - 1];
      Overwrite(leaves, updates[..|updates| - 1])[last.0 := last.1]
  }

  ghost function WrittenIndices<D>(updates: seq<(nat, D)>): set<nat> {
    set k | 0 <= k < |updates| :: updates[k].0
  }

  lemma AppendedIndices<D>(updates: seq<(nat, D)>, u: (nat, D))
    ensures WrittenIndices(updates + [u]) == WrittenIndices(updates) + {u.0}
  {
    var longer := updates + [u];
    assert forall k :: 0 <= k < |updates| ==> longer[k] == updates[k];
    assert longer[|updates|] == u;
  }

  class CapacityProofMerkleTree<D(==)> {
    const hashPair: (D, D) -> D
    var leaves: seq<D>
    var root: D
    var tree: seq<seq<D>>

    ghost predicate Valid()
      reads this
    {
      |leaves| > 0 && tree == Levels(hashPair, leaves) && root == Root(hashPair, leaves)
    }

    /** The source panics on an empty leaf list. */
    constructor Build(hashPair: (D, D) -> D, leaves: seq<D>)
      requires |leaves| > 0
      ensures Valid() && this.leaves == leaves && this.hashPair == hashPair
    {
      var levels := [leaves];
      var currentLevel := leaves;
      while |currentLevel| > 1
        invariant |levels| > 0 && levels[0] == leaves && currentLevel == levels[|levels| - 1] && |currentLevel| > 0
        invariant forall l :: 0 <= l < |levels| - 1 ==>
                    |levels[l]| > 1 && levels[l + 1] == ParentLevel(hashPair, levels[l])
        decreases |currentLevel|
      {
        var nextLevel := [];
        var i := 0;
        while 2 * i < |currentLevel|
          invariant i == |nextLevel| <= (|currentLevel| + 1) / 2
          invariant forall j :: 0 <= j < i ==> nextLevel[j] == ParentNode(hashPair, currentLevel, j)
        {
          if 2 * i + 1 < |currentLevel| {
            nextLevel := nextLevel + [hashPair(currentLevel[2 * i], currentLevel[2 * i + 1])];
          } else {
            nextLevel := nextLevel + [hashPair(currentLevel[2 * i], currentLevel[2 * i])];
          }
          i := i + 1;
        }
        levels := levels + [nextLevel];
        assert nextLevel == ParentLevel(hashPair, currentLevel);
        currentLevel := nextLevel;
      }
      this.hashPair := hashPair;
      this.leaves := leaves;
      this.root := currentLevel[0];
      this.tree := levels;
      TreeIsLevels(hashPair, levels);
      LevelsIsTree(hashPair, leaves);
    }

    /**
     First pass of one level of `UpdateLeaves`: the parents of the dirty nodes, recomputed.
     The dirty nodes are visited in an arbitrary order.
     */
    method RecomputeParents(nodes: seq<D>, dirty: set<nat>) returns (parents: set<nat>, updates: seq<(nat, D)>)
      requires |nodes| > 1 && forall i :: i in dirty ==> i < |nodes|
      ensures parents == set i | i in dirty :: i / 2
      ensures forall u :: u in updates ==> 2 * u.0 < |nodes| && u.1 == ParentNode(hashPair, nodes, u.0)
      ensures parents == WrittenIndices(updates)
    {
      parents, updates := {}, [];
      var todo := dirty;
      while todo != {}
        invariant todo <= dirty
        invariant parents == set i | i in dirty - todo :: i / 2
        invariant forall u :: u in updates ==> 2 * u.0 < |nodes| && u.1 == ParentNode(hashPair, nodes, u.0)
        invariant parents == WrittenIndices(updates)
        decreases |todo|
      {
        var node :| node in todo;
        var sibling := if node % 2 == 0 then node + 1 else node - 1;
        var left := if node % 2 == 0 then nodes[node] else nodes[sibling];
        var right :=
          if node % 2 == 0 then if sibling < |nodes| then nodes[sibling] else nodes[node] else nodes[node];
        assert hashPair(left, right) == ParentNode(hashPair, nodes, node / 2);
        ghost var before := updates;
        parents, updates := parents + {node / 2}, updates + [(node / 2, hashPair(left, right))];
        AppendedIndices(before, (node / 2, hashPair(left, right)));
        assert dirty - (todo - {node}) == (dirty - todo) + {node};
        todo := todo - {node};
      }
      assert dirty - todo == dirty;
    }

    /** Writes the new hashes into the leaves and into level 0; the levels above are left stale. */
    method WriteLeaves(updates: seq<(nat, D)>)
      requires |tree| > 0 && tree[0] == leaves
      requires forall u :: u in updates ==> u.0 < |leaves|
      modifies this`leaves, this`tree
      ensures leaves == Overwrite(old(leaves), updates)
      ensures tree == old(tree)[0 := leaves]
    {
      for k := 0 to |updates|
        invariant leaves == Overwrite(old(leaves), updates[..k])
        invariant tree == old(tree)[0 := leaves]
      {
        assert updates[..k + 1][..k] == updates[..k];
        leaves := leaves[updates[k].0 := updates[k].1];
        tree := tree[0 := tree[0][updates[k].0 := updates[k].1]];
      }
      assert updates[..|updates|] == updates;
    }

    /**
     Incremental update: rewrites only the paths above the changed leaves, yet leaves the
     whole tree equal to one built from the updated leaf list. The source panics on an
     index out of bounds.
     */
    method UpdateLeaves(updates: seq<(nat, D)>)
      requires Valid()
      requires forall u :: u in updates ==> u.0 < |leaves|
      modifies this
      ensures Valid()
      ensures leaves == Overwrite(old(leaves), updates)
    {
      if updates == [] {
        return;
      }
      ghost var stale := tree;
      LevelsIsTree(hashPair, leaves);
      WriteLeaves(updates);
      var dirty: set<nat> := set j | 0 <= j < |updates| :: updates[j].0;
      assert forall u :: u in updates ==> u.0 in dirty;
      Propagate(dirty, stale);
    }

    /** Recomputes the stale levels above the dirty leaves, level by level, and the root. */
    method Propagate(dirtyLeaves: set<nat>, ghost stale: seq<seq<D>>)
      requires IsTree(hashPair, stale) && tree == stale[0 := leaves] && |leaves| == |stale[0]| > 0
      requires forall i :: i in dirtyLeaves ==> i < |leaves|
      requires forall i :: 0 <= i < |leaves| && i !in dirtyLeaves ==> leaves[i] == stale[0][i]
      modifies this`tree, this`root
      ensures Valid()
    {
      var dirty: set<nat> := dirtyLeaves;
      var level := 0;
      while level < |tree| - 1
        invariant 0 <= level < |tree| == |stale|
        invariant tree[0] == leaves
        invariant forall l :: 0 <= l < |tree| ==> |tree[l]| == |stale[l]|
        invariant forall l :: 0 <= l < level ==> tree[l + 1] == ParentLevel(hashPair, tree[l])
        invariant forall l :: level < l < |tree| ==> tree[l] == stale[l]
        invariant forall i :: i in dirty ==> i < |tree[level]|
        invariant forall i :: 0 <= i < |tree[level]| && i !in dirty ==> tree[level][i] == stale[level][i]
      {
        var parents, parentUpdates := RecomputeParents(tree[level], dirty);
        var next := WriteParents(tree[level], tree[level + 1], dirty, stale[level], parents, parentUpdates);
        tree := tree[level + 1 := next];
        dirty := parents;
        level := level + 1;
      }
      TreeIsLevels(hashPair, tree);
      LevelsIsTree(hashPair, leaves);
      root := tree[|tree| - 1][0];
    }

    /** Second pass: writing the recomputed parents turns the stale next level into the rebuilt one. */
    method WriteParents(nodes: seq<D>, next: seq<D>, ghost dirty: set<nat>, ghost stale: seq<D>,
                        ghost parents: set<nat>, updates: seq<(nat, D)>)
      returns (written: seq<D>)
      requires |nodes| == |stale| && next == ParentLevel(hashPair, stale)
      requires forall i :: 0 <= i < |nodes| && i !in dirty ==> nodes[i] == stale[i]
      requires parents == set i | i in dirty :: i / 2
      requires forall u :: u in updates ==> 2 * u.0 < |nodes| && u.1 == ParentNode(hashPair, nodes, u.0)
      requires parents == WrittenIndices(updates)
      ensures written == ParentLevel(hashPair, nodes)
      ensures forall i :: 0 <= i < |written| && i !in parents ==> written[i] == next[i]
    {
      written := next;
      for k := 0 to |updates|
        invariant |written| == |next|
        invariant forall i :: 0 <= i < |next| ==>
                    written[i] == if i in WrittenIndices(updates[..k]) then ParentNode(hashPair, nodes, i) else next[i]
      {
        assert updates[..k + 1] == updates[..k] + [updates[k]];
        AppendedIndices(updates[..k], updates[k]);
        assert updates[k] in updates;
        if updates[k].0 < |written| {
          written := written[updates[k].0 := updates[k].1];
        }
      }
      assert updates[..|updates|] == updates;
      forall i | 0 <= i < |written|
        ensures written[i] == ParentNode(hashPair, nodes, i)
      {
        if i !in parents {
          assert forall j :: j in dirty ==> j / 2 in parents;
          assert (2 * i) / 2 == i && (2 * i + 1) / 2 == i;
          assert 2 * i !in dirty && 2 * i + 1 !in dirty;
        }
      }
    }

    /** The sibling hashes from leaf `leafIndex` to the root. The source panics out of bounds. */
    method GenerateProof(leafIndex: nat) returns (proof: seq<D>)
      requires Valid() && leafIndex < |leaves|
      ensures proof == ProofPath(hashPair, leaves, leafIndex)
    {
      LevelsIsTree(hashPair, leaves);
      proof := [];
      var currentIndex: nat := leafIndex;
      var level := 0;
      while level < |tree| - 1
        invariant 0 <= level < |tree|
        invariant currentIndex < |tree[level]|
        invariant IsTree(hashPair, tree)
        invariant ProofPath(hashPair, leaves, leafIndex) == proof + ProofPath(hashPair, tree[level], currentIndex)
      {
        var currentLevel := tree[level];
        var siblingIndex := if currentIndex % 2 == 0 then currentIndex + 1 else currentIndex - 1;
        var sibling := currentLevel[if siblingIndex < |currentLevel| then siblingIndex else currentIndex];
        ghost var rest := ProofPath(hashPair, tree[level + 1], currentIndex / 2);
        assert ProofPath(hashPair, currentLevel, currentIndex) == [sibling] + rest;
        assert proof + ([sibling] + rest) == (proof + [sibling]) + rest;
        proof := proof + [sibling];
        currentIndex := currentIndex / 2;
        level := level + 1;
      }
    }
  }

  /** The node hashed together with node `i`: its neighbour, or itself at the odd end. */
  function Sibling<D>(level: seq<D>, i: nat): D
    requires i < |level|
  {
    if i % 2 == 1 then level[i - 1] else if i + 1 < |level| then level[i + 1] else level[i]
  }

  function ProofPath<D>(hp: (D, D) -> D, leaves: seq<D>, i: nat): (proof: seq<D>)
    requires i < |leaves|
    ensures |proof| == Depth(|leaves|)
    decreases |leaves|
  {
    if |leaves| == 1 then [] else [Sibling(leaves, i)] + ProofPath(hp, ParentLevel(hp, leaves), i / 2)
  }

  /** One verification step: the current hash is the left input exactly at an even index. */
  function Combine<D>(hp: (D, D) -> D, h: D, sibling: D, i: nat): D {
    if i % 2 == 0 then hp(h, sibling) else hp(sibling, h)
  }

  function FoldProof<D>(hp: (D, D) -> D, h: D, proof: seq<D>, i: nat): D
    decreases |proof|
  {
    if proof == [] then h else FoldProof(hp, Combine(hp, h, proof[0], i), proof[1..], i / 2)
  }

  method VerifyProof<D(==)>(hp: (D, D) -> D, leafHash: D, proof: seq<D>, root: D, leafIndex: nat) returns (ok: bool)
    ensures ok <==> FoldProof(hp, leafHash, proof, leafIndex) == root
  {
    var currentHash := leafHash;
    var currentIndex: nat := leafIndex;
    for k := 0 to |proof|
      invariant FoldProof(hp, leafHash, proof, leafIndex) == FoldProof(hp, currentHash, proof[k..], currentIndex)
    {
      assert proof[k..][1..] == proof[k + 1..];
      currentHash := if currentIndex % 2 == 0 then hp(currentHash, proof[k]) else hp(proof[k], currentHash);
      currentIndex := currentIndex / 2;
    }
    ok := currentHash == root;
  }

  /** The last update of an index decides its leaf. */
  lemma {:induction false} LastWriteWins<D>(leaves: seq<D>, updates: seq<(nat, D)>, k: nat)
    requires (forall u :: u in updates ==> u.0 < |leaves|) && k < |updates|
    requires forall j :: k < j < |updates| ==> updates[j].0 != updates[k].0
    ensures Overwrite(leaves, updates)[updates[k].0] == updates[k].1
    decreases |updates|
  {
    var n := |updates| - 1;
    if k < n {
      assert updates[..n][k] == updates[k];
      LastWriteWins(leaves, updates[..n], k);
    }
  }
}
