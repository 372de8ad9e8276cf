/**
 What a capacity root commits to, and which proofs verify against it.

 Nothing is assumed of the pair hash globally. A statement that needs collision resistance
 asks for it on the finite set of pairs that the tree and the verified proof actually hash,
 so it speaks about the real, compressing hash function as well.
 */
module MerkleBinding {
  import opened Prelude
  import opened MerkleTree

  // ----- The pairs hashed, and collision freedom on them -----

  ghost function LevelPairs<D>(level: seq<D>): set<(D, D)> {
    set i | 0 <= i < (|level| + 1) / 2 ::
      (level[2 * i], if 2 * i + 1 < |level| then level[2 * i + 1] else level[2 * i])
  }

  /** Every pair hashed while building the tree over `leaves`. */
  ghost function TreePairs<D>(hp: (D, D) -> D, leaves: seq<D>): set<(D, D)>
    requires |leaves| > 0
    decreases |leaves|
  {
    if |leaves| == 1 then {} else LevelPairs(leaves) + TreePairs(hp, ParentLevel(hp, leaves))
  }

  /** Every pair hashed while verifying `proof` for `h` at index `i`. */
  ghost function FoldPairs<D>(hp: (D, D) -> D, h: D, proof: seq<D>, i: nat): set<(D, D)>
    decreases |proof|
  {
    if proof == [] then {}
    else
      {if i % 2 == 0 then (h, proof[0]) else (proof[0], h)} +
      FoldPairs(hp, Combine(hp, h, proof[0], i), proof[1..], i / 2)
  }

  ghost predicate CollisionFree<D>(hp: (D, D) -> D, pairs: set<(D, D)>) {
    forall p, q :: p in pairs && q in pairs && hp(p.0, p.1) == hp(q.0, q.1) ==> p == q
  }

  /** `d` is not the hash of any of the pairs: how a chunk digest looks from inside the tree. */
  ghost predicate NotAPairHash<D>(hp: (D, D) -> D, pairs: set<(D, D)>, d: D) {
    forall p :: p in pairs ==> hp(p.0, p.1) != d
  }

  ghost predicate LeafDigests<D>(hp: (D, D) -> D, pairs: set<(D, D)>, leaves: seq<D>) {
    forall i :: 0 <= i < |leaves| ==> NotAPairHash(hp, pairs, leaves[i])
  }

  lemma LevelPairAt<D>(hp: (D, D) -> D, level: seq<D>, i: nat)
    requires 2 * i < |level|
    ensures var right := if 2 * i + 1 < |level| then level[2 * i + 1] else level[2 * i];
            (level[2 * i], right) in LevelPairs(level) && ParentNode(hp, level, i) == hp(level[2 * i], right)
  {
    assert 0 <= i < (|level| + 1) / 2;
  }

  // ----- Padding: the perfect tree hidden behind an odd one -----

  /** Doubles a row of node indices into the row of their children, capped at the last node. */
  function Children(above: seq<nat>, last: nat): (row: seq<nat>)
    requires forall j :: 0 <= j < |above| ==> 2 * above[j] <= last
    ensures |row| == 2 * |above|
    ensures forall k :: 0 <= k < |row| ==> row[k] <= last
  {
    if above == [] then []
    else
      var p := above[|above| - 1];
      Children(above[..|above| - 1], last) + [2 * p, Min(2 * p + 1, last)]
  }

  lemma {:induction false} ChildPair(above: seq<nat>, last: nat, j: nat)
    requires forall j :: 0 <= j < |above| ==> 2 * above[j] <= last
    requires j < |above|
    ensures Children(above, last)[2 * j] == 2 * above[j]
    ensures Children(above, last)[2 * j + 1] == Min(2 * above[j] + 1, last)
  {
    if j < |above| - 1 {
      ChildPair(above[..|above| - 1], last, j);
    }
  }

  /** The leaf shown at each position of the bottom row once every odd level is filled up. */
  function PaddedIndices(n: nat): (indices: seq<nat>)
    requires n > 0
    ensures |indices| > 0 && forall k :: 0 <= k < |indices| ==> indices[k] < n
    decreases n
  {
    if n == 1 then [0] else Children(PaddedIndices((n + 1) / 2), n - 1)
  }

  /** The elements of `leaves` at the given indices. */
  function Pick<D>(leaves: seq<D>, indices: seq<nat>): (row: seq<D>)
    requires forall k :: 0 <= k < |indices| ==> indices[k] < |leaves|
    ensures |row| == |indices|
    ensures forall k :: 0 <= k < |row| ==> row[k] == leaves[indices[k]]
  {
    seq(|indices|, k requires 0 <= k < |indices| => leaves[indices[k]])
  }

  function Padded<D>(leaves: seq<D>): (row: seq<D>)
    requires |leaves| > 0
    ensures |row| > 0
  {
    Pick(leaves, PaddedIndices(|leaves|))
  }

  /** Padding only appends: the first `n` positions still show the first `n` leaves. */
  lemma {:induction false} PaddingKeepsLeaves(n: nat, k: nat)
    requires k < n
    ensures k < |PaddedIndices(n)| && PaddedIndices(n)[k] == k
    decreases n
  {
    if n > 1 {
      PaddingKeepsLeaves((n + 1) / 2, k / 2);
      ChildPair(PaddedIndices((n + 1) / 2), n - 1, k / 2);
      assert k == 2 * (k / 2) || k == 2 * (k / 2) + 1;
    }
  }

  /** Children of picked parents are picked children, node by node. */
  lemma ParentOfChildren<D>(hp: (D, D) -> D, leaves: seq<D>, above: seq<nat>, j: nat)
    requires |leaves| > 1 && j < |above|
    requires forall j :: 0 <= j < |above| ==> above[j] < (|leaves| + 1) / 2
    ensures var row := Pick(leaves, Children(above, |leaves| - 1));
            && ParentNode(hp, row, j) == ParentNode(hp, leaves, above[j])
            && row[2 * j] == leaves[2 * above[j]]
            && row[2 * j + 1] == if 2 * above[j] + 1 < |leaves| then leaves[2 * above[j] + 1] else leaves[2 * above[j]]
  {
    ChildPair(above, |leaves| - 1, j);
  }

  lemma PaddingCommutes<D>(hp: (D, D) -> D, leaves: seq<D>)
    requires |leaves| > 1
    ensures |Padded(leaves)| == 2 * |Padded(ParentLevel(hp, leaves))|
    ensures ParentLevel(hp, Padded(leaves)) == Padded(ParentLevel(hp, leaves))
  {
    var above := PaddedIndices((|leaves| + 1) / 2);
    var up := ParentLevel(hp, Padded(leaves));
    assert |up| == |above|;
    forall j | 0 <= j < |above|
      ensures up[j] == Padded(ParentLevel(hp, leaves))[j]
    {
      ParentOfChildren(hp, leaves, above, j);
    }
  }

  lemma RootUnfolds<D>(hp: (D, D) -> D, leaves: seq<D>)
    requires |leaves| > 1
    ensures Root(hp, leaves) == Root(hp, ParentLevel(hp, leaves))
    ensures Depth(|leaves|) == 1 + Depth(|ParentLevel(hp, leaves)|)
  {
  }

  /** Filling up odd levels does not move the root. */
  lemma {:induction false} PaddingKeepsRoot<D>(hp: (D, D) -> D, leaves: seq<D>)
    requires |leaves| > 0
    ensures Root(hp, Padded(leaves)) == Root(hp, leaves)
    ensures Depth(|Padded(leaves)|) == Depth(|leaves|)
    decreases |leaves|
  {
    var row := Padded(leaves);
    if |leaves| == 1 {
      assert row == leaves;
    } else {
      var up := ParentLevel(hp, leaves);
      PaddingCommutes(hp, leaves);
      PaddingKeepsRoot(hp, up);
      RootUnfolds(hp, row);
      RootUnfolds(hp, leaves);
    }
  }

  lemma {:induction false} PaddingAddsNoPairs<D>(hp: (D, D) -> D, leaves: seq<D>)
    requires |leaves| > 0
    ensures TreePairs(hp, Padded(leaves)) <= TreePairs(hp, leaves)
    decreases |leaves|
  {
    if |leaves| > 1 {
      PaddingCommutes(hp, leaves);
      PaddingAddsNoPairs(hp, ParentLevel(hp, leaves));
      PaddingAddsNoLevelPairs(hp, leaves);
    }
  }

  lemma PaddingAddsNoLevelPairs<D>(hp: (D, D) -> D, leaves: seq<D>)
    requires |leaves| > 1
    ensures LevelPairs(Padded(leaves)) <= LevelPairs(leaves)
  {
    var above := PaddedIndices((|leaves| + 1) / 2);
    var row := Padded(leaves);
    forall pair | pair in LevelPairs(row)
      ensures pair in LevelPairs(leaves)
    {
      var j :| 0 <= j < (|row| + 1) / 2 && pair == (row[2 * j], if 2 * j + 1 < |row| then row[2 * j + 1] else row[2 * j]);
      ParentOfChildren(hp, leaves, above, j);
      LevelPairAt(hp, leaves, above[j]);
    }
  }

  // ----- What the root binds -----

  /** Same leaf count and same root: same leaves. */
  lemma {:induction false} RootBindsLeaves<D>(hp: (D, D) -> D, a: seq<D>, b: seq<D>, pairs: set<(D, D)>)
    requires |a| == |b| > 0
    requires TreePairs(hp, a) <= pairs && TreePairs(hp, b) <= pairs && CollisionFree(hp, pairs)
    requires Root(hp, a) == Root(hp, b)
    ensures a == b
    decreases |a|
  {
    if |a| > 1 {
      RootBindsLeaves(hp, ParentLevel(hp, a), ParentLevel(hp, b), pairs);
      ParentsBindLevel(hp, a, b, pairs);
    }
  }

  /** Equal parent levels over equally many nodes: equal nodes. */
  lemma ParentsBindLevel<D>(hp: (D, D) -> D, a: seq<D>, b: seq<D>, pairs: set<(D, D)>)
    requires |a| == |b| && LevelPairs(a) <= pairs && LevelPairs(b) <= pairs && CollisionFree(hp, pairs)
    requires ParentLevel(hp, a) == ParentLevel(hp, b)
    ensures a == b
  {
    forall i | 0 <= i < |a|
      ensures a[i] == b[i]
    {
      var j := i / 2;
      LevelPairAt(hp, a, j);
      LevelPairAt(hp, b, j);
      assert ParentLevel(hp, a)[j] == ParentLevel(hp, b)[j];
      assert i == 2 * j || i == 2 * j + 1;
    }
  }

  /** Leaf digests that are no pair hash pin down the depth, whatever the leaf counts. */
  lemma {:induction false} RootBindsDepth<D>(hp: (D, D) -> D, a: seq<D>, b: seq<D>, pairs: set<(D, D)>)
    requires |a| > 0 && |b| > 0 && Depth(|a|) <= Depth(|b|)
    requires TreePairs(hp, a) <= pairs && TreePairs(hp, b) <= pairs && CollisionFree(hp, pairs)
    requires LeafDigests(hp, pairs, a)
    requires Root(hp, a) == Root(hp, b)
    ensures Depth(|a|) == Depth(|b|)
    decreases |b|
  {
    if Depth(|a|) < Depth(|b|) {
      var q := ProofPath(hp, b, 0);
      var cut := Depth(|b|) - Depth(|a|);
      HonestProofFolds(hp, b, 0);
      HonestProofPairs(hp, b, 0);
      FoldSplits(hp, b[0], q, 0, cut);
      var mid := FoldProof(hp, b[0], q[..cut], 0);
      FoldMember(hp, mid, q[cut..], Shift(0, cut), a, pairs);
      FoldIsPairHash(hp, b[0], q[..cut], 0);
    }
  }

  /**
   Exactly which leaf lists share a root: those with the same padded bottom row. So lists of one
   length never do, and an odd list always does with the list that repeats its last leaf.
   */
  lemma RootBindsPaddedLeaves<D>(hp: (D, D) -> D, a: seq<D>, b: seq<D>, pairs: set<(D, D)>)
    requires |a| > 0 && |b| > 0
    requires TreePairs(hp, a) <= pairs && TreePairs(hp, b) <= pairs && CollisionFree(hp, pairs)
    requires LeafDigests(hp, pairs, a) && LeafDigests(hp, pairs, b)
    ensures Root(hp, a) == Root(hp, b) <==> Padded(a) == Padded(b)
  {
    PaddingKeepsRoot(hp, a);
    PaddingKeepsRoot(hp, b);
    if Root(hp, a) == Root(hp, b) {
      if Depth(|a|) <= Depth(|b|) {
        RootBindsDepth(hp, a, b, pairs);
      } else {
        RootBindsDepth(hp, b, a, pairs);
      }
      PaddedLength(|a|);
      PaddedLength(|b|);
      PaddingAddsNoPairs(hp, a);
      PaddingAddsNoPairs(hp, b);
      RootBindsLeaves(hp, Padded(a), Padded(b), pairs);
    }
  }

  function Pow2(k: nat): (p: nat)
    ensures p > 0
  {
    if k == 0 then 1 else 2 * Pow2(k - 1)
  }

  lemma {:induction false} PaddedLength(n: nat)
    requires n > 0
    ensures |PaddedIndices(n)| == Pow2(Depth(n))
    decreases n
  {
    if n > 1 {
      PaddedLength((n + 1) / 2);
    }
  }

  /** An odd list of at least three leaves and the list that repeats its last leaf have one root. */
  lemma RepeatedLastLeafSharesRoot<D>(hp: (D, D) -> D, leaves: seq<D>)
    requires |leaves| >= 3 && |leaves| % 2 == 1
    ensures Root(hp, leaves + [leaves[|leaves| - 1]]) == Root(hp, leaves)
  {
    var longer := leaves + [leaves[|leaves| - 1]];
    RepeatedLastLeafSharesParents(hp, leaves, longer);
    RootUnfolds(hp, longer);
    RootUnfolds(hp, leaves);
  }

  lemma RepeatedLastLeafSharesParents<D>(hp: (D, D) -> D, leaves: seq<D>, longer: seq<D>)
    requires |leaves| % 2 == 1 && longer == leaves + [leaves[|leaves| - 1]]
    ensures ParentLevel(hp, longer) == ParentLevel(hp, leaves)
  {
    forall i | 0 <= i < |ParentLevel(hp, leaves)|
      ensures ParentNode(hp, longer, i) == ParentNode(hp, leaves, i)
    {
      assert longer[2 * i] == leaves[2 * i];
      assert longer[2 * i + 1] == if 2 * i + 1 < |leaves| then leaves[2 * i + 1] else leaves[2 * i];
    }
  }

  // ----- Which proofs verify -----

  /** Index after `k` halvings. */
  function Shift(i: nat, k: nat): nat
    decreases k
  {
    if k == 0 then i else Shift(i / 2, k - 1)
  }

  lemma {:induction false} FoldSplits<D>(hp: (D, D) -> D, h: D, proof: seq<D>, i: nat, cut: nat)
    requires cut <= |proof|
    ensures FoldProof(hp, h, proof, i) == FoldProof(hp, FoldProof(hp, h, proof[..cut], i), proof[cut..], Shift(i, cut))
    ensures FoldPairs(hp, h, proof, i) ==
            FoldPairs(hp, h, proof[..cut], i) +
            FoldPairs(hp, FoldProof(hp, h, proof[..cut], i), proof[cut..], Shift(i, cut))
    decreases |proof|
  {
    if cut == 0 {
      assert proof[..0] == [] && proof[0..] == proof;
    } else {
      FoldSplits(hp, Combine(hp, h, proof[0], i), proof[1..], i / 2, cut - 1);
      assert proof[..cut][1..] == proof[1..][..cut - 1];
      assert proof[1..][cut - 1..] == proof[cut..];
    }
  }

  /** A fold over at least one sibling ends in the hash of a pair it hashed. */
  lemma {:induction false} FoldIsPairHash<D>(hp: (D, D) -> D, h: D, proof: seq<D>, i: nat)
    requires |proof| > 0
    ensures !NotAPairHash(hp, FoldPairs(hp, h, proof, i), FoldProof(hp, h, proof, i))
    decreases |proof|
  {
    var pair := if i % 2 == 0 then (h, proof[0]) else (proof[0], h);
    assert pair in FoldPairs(hp, h, proof, i);
    var next := Combine(hp, h, proof[0], i);
    if |proof| == 1 {
      assert hp(pair.0, pair.1) == next == FoldProof(hp, h, proof, i);
    } else {
      FoldIsPairHash(hp, next, proof[1..], i / 2);
      var top :| top in FoldPairs(hp, next, proof[1..], i / 2) && hp(top.0, top.1) == FoldProof(hp, h, proof, i);
      assert top in FoldPairs(hp, h, proof, i);
    }
  }

  /** A verifying proof of full depth starts at some leaf, at whatever index. */
  lemma {:induction false} FoldMember<D>(hp: (D, D) -> D, h: D, proof: seq<D>, i: nat, leaves: seq<D>, pairs: set<(D, D)>)
    requires |leaves| > 0 && |proof| == Depth(|leaves|)
    requires TreePairs(hp, leaves) <= pairs && FoldPairs(hp, h, proof, i) <= pairs && CollisionFree(hp, pairs)
    requires FoldProof(hp, h, proof, i) == Root(hp, leaves)
    ensures h in leaves
    decreases |leaves|
  {
    if |leaves| > 1 {
      var next := Combine(hp, h, proof[0], i);
      var up := ParentLevel(hp, leaves);
      FoldMember(hp, next, proof[1..], i / 2, up, pairs);
      var j :| 0 <= j < |up| && up[j] == next;
      LevelPairAt(hp, leaves, j);
      var pair := if i % 2 == 0 then (h, proof[0]) else (proof[0], h);
      assert pair in FoldPairs(hp, h, proof, i);
    }
  }

  /** Digests that are no pair hash force the exact proof length, though verification checks none. */
  lemma FoldLength<D>(hp: (D, D) -> D, h: D, proof: seq<D>, i: nat, leaves: seq<D>, pairs: set<(D, D)>)
    requires |leaves| > 0
    requires TreePairs(hp, leaves) <= pairs && FoldPairs(hp, h, proof, i) <= pairs && CollisionFree(hp, pairs)
    requires NotAPairHash(hp, pairs, h) && LeafDigests(hp, pairs, leaves)
    requires FoldProof(hp, h, proof, i) == Root(hp, leaves)
    ensures |proof| == Depth(|leaves|)
  {
    var d := Depth(|leaves|);
    if |proof| > d {
      var cut := |proof| - d;
      FoldSplits(hp, h, proof, i, cut);
      FoldMember(hp, FoldProof(hp, h, proof[..cut], i), proof[cut..], Shift(i, cut), leaves, pairs);
      FoldIsPairHash(hp, h, proof[..cut], i);
    } else if |proof| < d {
      ShortFoldIsPairHash(hp, h, proof, i, leaves, pairs);
    }
  }

  /** A verifying proof that is too short starts at an inner node. */
  lemma {:induction false} ShortFoldIsPairHash<D>(hp: (D, D) -> D, h: D, proof: seq<D>, i: nat, leaves: seq<D>, pairs: set<(D, D)>)
    requires |leaves| > 0 && |proof| < Depth(|leaves|)
    requires TreePairs(hp, leaves) <= pairs && FoldPairs(hp, h, proof, i) <= pairs && CollisionFree(hp, pairs)
    requires FoldProof(hp, h, proof, i) == Root(hp, leaves)
    ensures !NotAPairHash(hp, pairs, h)
    decreases |leaves|
  {
    var up := ParentLevel(hp, leaves);
    if |proof| == Depth(|up|) {
      FoldMember(hp, h, proof, i, up, pairs);
      var j :| 0 <= j < |up| && up[j] == h;
      LevelPairAt(hp, leaves, j);
    } else {
      ShortFoldIsPairHash(hp, h, proof, i, up, pairs);
    }
  }

  // One level of an honest walk: the parent is reached, and the proof and its fold peel off one sibling.

  lemma ParentReached<D>(hp: (D, D) -> D, level: seq<D>, i: nat)
    requires |level| > 1 && i < |level|
    ensures ParentLevel(hp, level)[i / 2] == Combine(hp, level[i], Sibling(level, i), i)
    ensures (if i % 2 == 0 then (level[i], Sibling(level, i)) else (Sibling(level, i), level[i])) in LevelPairs(level)
  {
    LevelPairAt(hp, level, i / 2);
    assert i == 2 * (i / 2) || i == 2 * (i / 2) + 1;
  }

  lemma FoldUnfolds<D>(hp: (D, D) -> D, h: D, sibling: D, rest: seq<D>, i: nat)
    ensures FoldProof(hp, h, [sibling] + rest, i) == FoldProof(hp, Combine(hp, h, sibling, i), rest, i / 2)
    ensures FoldPairs(hp, h, [sibling] + rest, i) ==
            {if i % 2 == 0 then (h, sibling) else (sibling, h)} + FoldPairs(hp, Combine(hp, h, sibling, i), rest, i / 2)
  {
    assert ([sibling] + rest)[1..] == rest;
  }

  lemma PathUnfolds<D>(hp: (D, D) -> D, row: seq<D>, i: nat)
    requires i < |row| && |row| > 1
    ensures ProofPath(hp, row, i) == [Sibling(row, i)] + ProofPath(hp, ParentLevel(hp, row), i / 2)
  {
  }

  /** Completeness: the generated proof of every leaf folds to the root, at every leaf count. */
  lemma {:induction false} HonestProofFolds<D>(hp: (D, D) -> D, leaves: seq<D>, i: nat)
    requires i < |leaves|
    ensures FoldProof(hp, leaves[i], ProofPath(hp, leaves, i), i) == Root(hp, leaves)
    decreases |leaves|
  {
    if |leaves| > 1 {
      var up := ParentLevel(hp, leaves);
      HonestProofFolds(hp, up, i / 2);
      ParentReached(hp, leaves, i);
      PathUnfolds(hp, leaves, i);
      FoldUnfolds(hp, leaves[i], Sibling(leaves, i), ProofPath(hp, up, i / 2), i);
    }
  }

  /** An honest proof hashes only pairs of the tree. */
  lemma {:induction false} HonestProofPairs<D>(hp: (D, D) -> D, leaves: seq<D>, i: nat)
    requires i < |leaves|
    ensures FoldPairs(hp, leaves[i], ProofPath(hp, leaves, i), i) <= TreePairs(hp, leaves)
    decreases |leaves|
  {
    if |leaves| > 1 {
      var up := ParentLevel(hp, leaves);
      HonestProofPairs(hp, up, i / 2);
      ParentReached(hp, leaves, i);
      PathUnfolds(hp, leaves, i);
      FoldUnfolds(hp, leaves[i], Sibling(leaves, i), ProofPath(hp, up, i / 2), i);
    }
  }

  /** The low `d` bits of `i`. */
  function LowBits(i: nat, d: nat): (k: nat)
    ensures k < Pow2(d)
    decreases d
  {
    if d == 0 then 0 else 2 * LowBits(i / 2, d - 1) + i % 2
  }

  lemma LowBitsHalve(i: nat, d: nat)
    requires d > 0
    ensures LowBits(i, d) / 2 == LowBits(i / 2, d - 1) && LowBits(i, d) % 2 == i % 2
  {
  }

  /** One level up, a full row is a full row and the rest of the proof is its proof. */
  lemma FullRowUnfolds<D>(hp: (D, D) -> D, h: D, proof: seq<D>, i: nat, row: seq<D>)
    requires |row| == Pow2(|proof|) && proof != []
    ensures |row| == 2 * |ParentLevel(hp, row)| && |ParentLevel(hp, row)| == Pow2(|proof| - 1)
    ensures Root(hp, row) == Root(hp, ParentLevel(hp, row))
    ensures FoldProof(hp, h, proof, i) == FoldProof(hp, Combine(hp, h, proof[0], i), proof[1..], i / 2)
    ensures FoldPairs(hp, Combine(hp, h, proof[0], i), proof[1..], i / 2) <= FoldPairs(hp, h, proof, i)
    ensures TreePairs(hp, ParentLevel(hp, row)) <= TreePairs(hp, row) && LevelPairs(row) <= TreePairs(hp, row)
  {
    RootUnfolds(hp, row);
  }

  /** On a full row, a verifying proof starts at the node its index selects. */
  lemma {:induction false} FullFoldLeaf<D>(hp: (D, D) -> D, h: D, proof: seq<D>, i: nat, row: seq<D>, pairs: set<(D, D)>)
    requires |row| == Pow2(|proof|)
    requires TreePairs(hp, row) <= pairs && FoldPairs(hp, h, proof, i) <= pairs && CollisionFree(hp, pairs)
    requires FoldProof(hp, h, proof, i) == Root(hp, row)
    ensures h == row[LowBits(i, |proof|)]
    ensures |proof| > 0 ==> proof[0] == Sibling(row, LowBits(i, |proof|))
    decreases |proof|
  {
    if proof != [] {
      var up, rest := ParentLevel(hp, row), proof[1..];
      FullRowUnfolds(hp, h, proof, i, row);
      FirstPairFolded(hp, h, proof, i);
      FullFoldLeaf(hp, Combine(hp, h, proof[0], i), rest, i / 2, up, pairs);
      FullFoldStep(hp, h, proof[0], i, row, |rest|, pairs);
    } else {
      SingleRow(hp, row);
    }
  }

  lemma SingleRow<D>(hp: (D, D) -> D, row: seq<D>)
    requires |row| == 1
    ensures Root(hp, row) == row[0]
  {
  }

  lemma FirstPairFolded<D>(hp: (D, D) -> D, h: D, proof: seq<D>, i: nat)
    requires proof != []
    ensures (if i % 2 == 0 then (h, proof[0]) else (proof[0], h)) in FoldPairs(hp, h, proof, i)
  {
  }

  lemma FullFoldStep<D>(hp: (D, D) -> D, h: D, sibling: D, i: nat, row: seq<D>, d: nat, pairs: set<(D, D)>)
    requires |row| == 2 * Pow2(d) && LevelPairs(row) <= pairs && CollisionFree(hp, pairs)
    requires (if i % 2 == 0 then (h, sibling) else (sibling, h)) in pairs
    requires |ParentLevel(hp, row)| == Pow2(d) && Combine(hp, h, sibling, i) == ParentLevel(hp, row)[LowBits(i / 2, d)]
    ensures LowBits(i, d + 1) == 2 * LowBits(i / 2, d) + i % 2 < |row|
    ensures h == row[LowBits(i, d + 1)] && sibling == Sibling(row, LowBits(i, d + 1))
  {
    StepExact(hp, h, sibling, i, row, LowBits(i / 2, d), pairs);
  }

  /** ... and is the honest proof of that node, sibling by sibling. */
  lemma {:induction false} FullFoldPath<D>(hp: (D, D) -> D, h: D, proof: seq<D>, i: nat, row: seq<D>, pairs: set<(D, D)>)
    requires |row| == Pow2(|proof|)
    requires TreePairs(hp, row) <= pairs && FoldPairs(hp, h, proof, i) <= pairs && CollisionFree(hp, pairs)
    requires FoldProof(hp, h, proof, i) == Root(hp, row)
    ensures proof == ProofPath(hp, row, LowBits(i, |proof|))
    decreases |proof|
  {
    if proof != [] {
      FullRowUnfolds(hp, h, proof, i, row);
      FullFoldLeaf(hp, h, proof, i, row, pairs);
      FullFoldPath(hp, Combine(hp, h, proof[0], i), proof[1..], i / 2, ParentLevel(hp, row), pairs);
      LowBitsHalve(i, |proof|);
      PathUnfolds(hp, row, LowBits(i, |proof|));
      assert proof == [proof[0]] + proof[1..];
    }
  }

  /** One level of the walk: a pair that hashes to the right parent is the right pair. */
  lemma StepExact<D>(hp: (D, D) -> D, h: D, sibling: D, i: nat, row: seq<D>, j: nat, pairs: set<(D, D)>)
    requires 2 * j + 1 < |row|
    requires LevelPairs(row) <= pairs && CollisionFree(hp, pairs)
    requires (if i % 2 == 0 then (h, sibling) else (sibling, h)) in pairs
    requires Combine(hp, h, sibling, i) == ParentNode(hp, row, j)
    ensures h == row[2 * j + i % 2] && sibling == Sibling(row, 2 * j + i % 2)
  {
    LevelPairAt(hp, row, j);
  }

  /** The same walk read forwards: the honest proof of a position folds to the root. */
  lemma {:induction false} FullFoldComplete<D>(hp: (D, D) -> D, row: seq<D>, i: nat, d: nat)
    requires |row| == Pow2(d) && d == Depth(|row|)
    ensures FoldProof(hp, row[LowBits(i, d)], ProofPath(hp, row, LowBits(i, d)), i) == Root(hp, row)
    decreases |row|
  {
    if |row| > 1 {
      var up, k := ParentLevel(hp, row), LowBits(i, d);
      LowBitsHalve(i, d);
      FullFoldComplete(hp, up, i / 2, d - 1);
      ParentReached(hp, row, k);
      assert Combine(hp, row[k], Sibling(row, k), k) == Combine(hp, row[k], Sibling(row, k), i);
      PathUnfolds(hp, row, k);
      FoldUnfolds(hp, row[k], Sibling(row, k), ProofPath(hp, up, k / 2), i);
      RootUnfolds(hp, row);
    }
  }

  /**
   Exactly which proofs verify, for every index and every proof length: the one honest proof of
   the padded position that the low bits of the index select.
   */
  lemma VerifiesExactly<D>(hp: (D, D) -> D, h: D, proof: seq<D>, i: nat, leaves: seq<D>, pairs: set<(D, D)>)
    requires |leaves| > 0
    requires TreePairs(hp, leaves) <= pairs && FoldPairs(hp, h, proof, i) <= pairs && CollisionFree(hp, pairs)
    requires NotAPairHash(hp, pairs, h) && LeafDigests(hp, pairs, leaves)
    ensures Depth(|Padded(leaves)|) == Depth(|leaves|) && |Padded(leaves)| == Pow2(Depth(|leaves|))
    ensures var row, k := Padded(leaves), LowBits(i, Depth(|leaves|));
            FoldProof(hp, h, proof, i) == Root(hp, leaves) <==> h == row[k] && proof == ProofPath(hp, row, k)
  {
    var row := Padded(leaves);
    PaddingKeepsRoot(hp, leaves);
    PaddedLength(|leaves|);
    if FoldProof(hp, h, proof, i) == Root(hp, leaves) {
      FoldLength(hp, h, proof, i, leaves, pairs);
      PaddingAddsNoPairs(hp, leaves);
      FullFoldLeaf(hp, h, proof, i, row, pairs);
      FullFoldPath(hp, h, proof, i, row, pairs);
    }
    FullFoldComplete(hp, row, i, Depth(|leaves|));
  }

  /** Within range the index selects itself, and the padded row and its proofs are the real ones. */
  lemma {:induction false} PaddingKeepsProofs<D>(hp: (D, D) -> D, leaves: seq<D>, i: nat)
    requires i < |leaves|
    ensures LowBits(i, Depth(|leaves|)) == i < |Padded(leaves)| && Padded(leaves)[i] == leaves[i]
    ensures ProofPath(hp, Padded(leaves), i) == ProofPath(hp, leaves, i)
    decreases |leaves|
  {
    PaddingKeepsLeaves(|leaves|, i);
    if |leaves| > 1 {
      var row := Padded(leaves);
      PaddingCommutes(hp, leaves);
      PaddingKeepsProofs(hp, ParentLevel(hp, leaves), i / 2);
      PaddedSibling(leaves, i);
    }
  }

  lemma PaddedSibling<D>(leaves: seq<D>, i: nat)
    requires |leaves| > 1 && i < |leaves| && i < |Padded(leaves)|
    ensures Sibling(Padded(leaves), i) == Sibling(leaves, i)
  {
    var j := i / 2;
    var above := PaddedIndices((|leaves| + 1) / 2);
    PaddingKeepsLeaves((|leaves| + 1) / 2, j);
    ChildPair(above, |leaves| - 1, j);
    assert i == 2 * j || i == 2 * j + 1;
  }

  // ----- The same root from the top down -----

  /** Over a full row of at least two leaves, the root hashes the root of the left half, then that of the right. */
  lemma {:induction false} RootSplits<D>(hp: (D, D) -> D, row: seq<D>, d: nat)
    ensures |row| == 2 * Pow2(d) ==> Root(hp, row) == hp(Root(hp, row[..Pow2(d)]), Root(hp, row[Pow2(d)..]))
    decreases d
  {
    if |row| == 2 * Pow2(d) {
      var left, right := row[..Pow2(d)], row[Pow2(d)..];
      RootUnfolds(hp, row);
      if d == 0 {
        SingleRow(hp, left);
        SingleRow(hp, right);
        assert ParentLevel(hp, row) == [hp(row[0], row[1])];
        SingleRow(hp, ParentLevel(hp, row));
      } else {
        RootSplits(hp, ParentLevel(hp, row), d - 1);
        ParentsOfHalves(hp, row, Pow2(d - 1));
        RootUnfolds(hp, left);
        RootUnfolds(hp, right);
      }
    }
  }

  lemma ParentsOfHalves<D>(hp: (D, D) -> D, row: seq<D>, quarter: nat)
    requires |row| == quarter + quarter + quarter + quarter
    ensures ParentLevel(hp, row)[..quarter] == ParentLevel(hp, row[..2 * quarter])
    ensures ParentLevel(hp, row)[quarter..] == ParentLevel(hp, row[2 * quarter..])
  {
    forall i | 0 <= i < quarter
      ensures ParentNode(hp, row, i) == ParentNode(hp, row[..2 * quarter], i)
      ensures ParentNode(hp, row, quarter + i) == ParentNode(hp, row[2 * quarter..], i)
    {
      assert 2 * i + 1 < 2 * quarter;
    }
  }
}
