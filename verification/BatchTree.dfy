/** The batch tree: a root computed level by level from all leaves, and proofs against it. */
module BatchTree {
  import opened Arith
  import opened MerkleTree

  class PoseidonMerkle {
    const h: Pair
    const depth: nat

    constructor (h: Pair, depth: nat)
      ensures this.h == h && this.depth == depth
    {
      this.h, this.depth := h, depth;
    }

    /**
     * Folds the padded leaves. Without leaves the result is zero; with up to 2^depth of them it is the root
     * of the plain tree.
     */
    method ComputeRoot(leaves: seq<Word>) returns (root: Word)
      ensures leaves == [] ==> root == 0
      ensures 0 < |leaves| <= Pow2(depth) ==> root == Node(h, leaves, depth, 0)
      ensures 0 < |leaves| ==> root == FoldUp(h, Padded(leaves, Pow2(depth)))
    {
      if leaves == [] { return ZERO_WORD; }
      hide FoldUp, PairUp, Padded, Node;
      var currentLevel := PadLevel(leaves, Pow2(depth));
      ghost var padded := currentLevel;
      while |currentLevel| > 1
        invariant currentLevel != [] && FoldUp(h, currentLevel) == FoldUp(h, padded)
        decreases |currentLevel|
      {
        FoldStep(h, currentLevel);
        currentLevel := NextLevel(currentLevel);
      }
      if |leaves| <= Pow2(depth) { FoldUpIsRoot(h, leaves, depth); }
      FoldOne(currentLevel);
      return currentLevel[0];
    }

    lemma FoldOne(level: seq<Word>)
      requires |level| == 1
      ensures FoldUp(h, level) == level[0]
    {
    }

    /** Appends zeros up to the target size. */
    method PadLevel(leaves: seq<Word>, targetSize: nat) returns (level: seq<Word>)
      ensures level == Padded(leaves, targetSize)
      ensures |level| == if |leaves| < targetSize then targetSize else |leaves|
      ensures forall i :: 0 <= i < |level| ==> level[i] == if i < |leaves| then leaves[i] else 0
    {
      level := leaves;
      while |level| < targetSize
        invariant |leaves| <= |level| && (|level| <= targetSize || level == leaves)
        invariant level == Padded(leaves, |level|)
      {
        level := level + [ZERO_WORD];
      }
    }

    /** Hashes the nodes of a level in pairs. */
    method NextLevel(level: seq<Word>) returns (next: seq<Word>)
      ensures next == PairUp(h, level)
      ensures |next| == (|level| + 1) / 2
      ensures forall i :: 0 <= i < |next| ==>
        next[i] == h(level[2 * i], if 2 * i + 1 < |level| then level[2 * i + 1] else 0)
    {
      next := [];
      var i := 0;
      while i < |level|
        invariant 0 <= i <= |level| + 1 && i == 2 * |next|
        invariant next == PairUp(h, level)[..|next|]
      {
        var left := level[i];
        var right := if i + 1 < |level| then level[i + 1] else ZERO_WORD;
        assert PairUp(h, level)[|next|] == h(left, right);
        next := next + [h(left, right)];
        i := i + 2;
      }
    }

    /** Climbs a path of exactly `depth` siblings and compares with the root. */
    method VerifyProof(leaf: Word, path: seq<Word>, right: seq<bool>, root: Word) returns (r: bool)
      ensures r <==> |path| == depth && |right| == depth && Climb(h, leaf, path, right) == root
      ensures depth == 1 && |path| == |right| == 1 ==>
        (r <==> root == if right[0] then h(path[0], leaf) else h(leaf, path[0]))
    {
      if |path| != depth || |right| != depth { return false; }
      var current := leaf;
      for i := 0 to |path|
        invariant current == Climb(h, leaf, path[..i], right[..i])
      {
        assert path[..i + 1][..i] == path[..i] && right[..i + 1][..i] == right[..i];
        current := if right[i] then h(path[i], current) else h(current, path[i]);
      }
      assert path[..|path|] == path && right[..|right|] == right;
      return current == root;
    }
  }

  /**
   * Against the root of up to 2^depth leaves, with a binding hash, a proof verifies exactly when it offers
   * the leaf at the index that its directions spell together with that leaf's siblings.
   */
  lemma ProofIff(h: Pair, leaves: seq<Word>, leaf: Word, path: seq<Word>, right: seq<bool>)
    requires Binding(h) && |path| == |right| && |leaves| <= Pow2(|path|)
    ensures Climb(h, leaf, path, right) == Node(h, leaves, |path|, 0) <==>
      leaf == LeafAt(leaves, IndexOf(right)) && SiblingPath(h, leaves, IndexOf(right), path)
  {
    IndexOfSpells(right);
    UpIsFirst(IndexOf(right), |path|);
    ClimbIff(h, leaves, IndexOf(right), leaf, path, right);
  }
}
