/** The privacy pool's frontier tree: a deposit touches one node per level. */
module PrivacyPool {
  import opened Arith
  import opened MerkleTree

  type Account = nat

  /** The node at level `d` over the last leaf: what the root is after the given deposits. */
  function RootAfter(h: Pair, d: nat, leaves: seq<Word>): Word {
    if leaves == [] then Zeros(h, d) else Node(h, leaves, d, Up(|leaves| - 1, d))
  }

  /** If the next leaf lies under a right child at level `i`, then `w` is that child's left sibling. */
  ghost predicate Remembers(h: Pair, leaves: seq<Word>, i: nat, w: Word) {
    Up(|leaves|, i) % 2 == 1 ==> w == Node(h, leaves, i, Up(|leaves|, i) - 1)
  }

  ghost predicate FrontierOk(h: Pair, d: nat, leaves: seq<Word>, filled: map<nat, Word>) {
    forall i :: 0 <= i < d ==> i in filled && Remembers(h, leaves, i, filled[i])
  }

  /** Up to its capacity the tree is the plain tree over all deposits. */
  lemma WithinCapacity(h: Pair, d: nat, leaves: seq<Word>)
    requires |leaves| <= Pow2(d)
    ensures RootAfter(h, d, leaves) == Node(h, leaves, d, 0)
  {
    if leaves == [] {
      EmptySubtree(h, leaves, d, 0);
    } else {
      UpIsFirst(|leaves| - 1, d);
    }
  }

  /** Beyond its capacity it never is, as deposits are distinct. */
  lemma FullTreeIff(h: Pair, d: nat, leaves: seq<Word>)
    requires Binding(h) && DistinctLeaves(leaves)
    ensures RootAfter(h, d, leaves) == Node(h, leaves, d, 0) <==> |leaves| <= Pow2(d)
  {
    if |leaves| <= Pow2(d) {
      WithinCapacity(h, d, leaves);
    } else {
      var j := Up(|leaves| - 1, d);
      UpIsFirst(|leaves| - 1, d);
      FirstLeafBefore(|leaves| - 1, d, j);
      FirstLeafBefore(0, d, 0);
      if Node(h, leaves, d, j) == Node(h, leaves, d, 0) {
        EqualNodes(h, leaves, d, j, 0);
      }
    }
  }

  /** For 1 to 2^d deposits, the root is the result of the batch algorithm. */
  lemma AgreesWithBatch(h: Pair, d: nat, leaves: seq<Word>)
    requires 0 < |leaves| <= Pow2(d)
    ensures RootAfter(h, d, leaves) == FoldUp(h, Padded(leaves, Pow2(d)))
  {
    WithinCapacity(h, d, leaves);
    FoldUpIsRoot(h, leaves, d);
  }

  /** One level of a deposit: the running hash is the node over the new leaf. */
  lemma LevelStep(h: Pair, leaves: seq<Word>, leaf: Word, i: nat)
    ensures var all, j := leaves + [leaf], Up(|leaves|, i);
      && (j % 2 == 0 ==> h(Node(h, all, i, j), Zeros(h, i)) == Node(h, all, i + 1, j / 2))
      && (j % 2 == 1 ==> h(Node(h, leaves, i, j - 1), Node(h, all, i, j)) == Node(h, all, i + 1, j / 2))
  {
    var all, j := leaves + [leaf], Up(|leaves|, i);
    if j % 2 == 0 {
      EmptySubtree(h, all, i, j + 1);
    } else {
      OtherSubtree(h, leaves, leaf, i, j - 1);
    }
  }

  /** After a deposit, each level remembers what the next one will need. */
  lemma FrontierStep(h: Pair, leaves: seq<Word>, leaf: Word, i: nat, before: Word)
    requires Remembers(h, leaves, i, before)
    ensures Remembers(h, leaves + [leaf], i,
      if Up(|leaves|, i) % 2 == 1 then before else Node(h, leaves + [leaf], i, Up(|leaves|, i)))
  {
    UpNext(|leaves|, i);
    if Up(|leaves|, i) % 2 == 1 { OtherSubtree(h, leaves, leaf, i, Up(|leaves|, i) - 1); }
  }

  /** During a deposit: the levels below `i` are ready for the next leaf, those from `i` on for this one. */
  ghost predicate Walked(h: Pair, d: nat, leaves: seq<Word>, all: seq<Word>, i: nat, filled: map<nat, Word>) {
    forall k :: 0 <= k < d ==> k in filled && Remembers(h, if k < i then all else leaves, k, filled[k])
  }

  lemma WalkStep(h: Pair, d: nat, leaves: seq<Word>, leaf: Word, i: nat, filled: map<nat, Word>,
      filled': map<nat, Word>)
    requires i < d && Walked(h, d, leaves, leaves + [leaf], i, filled)
    requires filled' == if Up(|leaves|, i) % 2 == 1 then filled
      else filled[i := Node(h, leaves + [leaf], i, Up(|leaves|, i))]
    ensures Walked(h, d, leaves, leaves + [leaf], i + 1, filled')
  {
    hide Remembers, Node, Up;
    FrontierStep(h, leaves, leaf, i, filled[i]);
    forall k | 0 <= k < d
      ensures k in filled' && Remembers(h, if k < i + 1 then leaves + [leaf] else leaves, k, filled'[k])
    {
    }
  }

  class NexusPrivacyPool {
    const h: Pair
    const treeDepth: nat
    var root: Word
    var nextLeafIndex: nat
    var filledSubtrees: map<nat, Word>
    var commitments: set<Word>
    var supportedDenominations: set<nat>
    var sanctioned: set<Account>
    var complianceEnabled: bool
    var complianceOracle: Account

    /** All deposits, in order. */
    ghost var leaves: seq<Word>

    ghost predicate Valid()
      reads this
    {
      && nextLeafIndex == |leaves|
      && (forall c :: c in commitments <==> c in leaves) && DistinctLeaves(leaves)
      && root == RootAfter(h, treeDepth, leaves)
      && FrontierOk(h, treeDepth, leaves, filledSubtrees)
    }

    constructor (h: Pair, treeDepth: nat, denominations: seq<nat>)
      ensures Valid() && leaves == [] && this.h == h && this.treeDepth == treeDepth
      ensures root == Zeros(h, treeDepth) && !complianceEnabled && complianceOracle == 0 && sanctioned == {}
      ensures forall d :: d in supportedDenominations <==> d in denominations
    {
      var supported: set<nat> := {};
      for i := 0 to |denominations|
        invariant forall d :: d in supported <==> d in denominations[..i]
      {
        supported := supported + {denominations[i]};
      }
      var filled: map<nat, Word> := map[];
      var currentZero := ZERO_WORD;
      for i := 0 to treeDepth
        invariant currentZero == Zeros(h, i)
        invariant forall k :: 0 <= k < i ==> k in filled
      {
        filled := filled[i := currentZero];
        currentZero := h(currentZero, currentZero);
      }
      this.h, this.treeDepth := h, treeDepth;
      root, nextLeafIndex, filledSubtrees, leaves := currentZero, 0, filled, [];
      commitments, supportedDenominations := {}, supported;
      sanctioned, complianceEnabled, complianceOracle := {}, false, 0;
      assert denominations[..|denominations|] == denominations;
      forall i: nat ensures Up(0, i) == 0 {
        UpIsFirst(0, i);
      }
    }

    /** The root of an empty tree of the given height, computed by repeated hashing. */
    method ZerosAt(level: nat) returns (zero: Word)
      ensures zero == Zeros(h, level)
    {
      zero := ZERO_WORD;
      for i := 0 to level
        invariant zero == Zeros(h, i)
      {
        zero := h(zero, zero);
      }
    }

    /**
     * Takes a deposit, unless the denomination is not supported, the commitment is known, or the sender is
     * sanctioned while compliance is on; a refusal changes nothing.
     */
    method Deposit(commitment: Word, value: nat, sender: Account) returns (ok: bool)
      requires Valid()
      modifies this
      ensures Valid()
      ensures ok <==> (&& value in old(supportedDenominations) && commitment !in old(commitments)
                       && !(old(complianceEnabled) && sender in old(sanctioned)))
      ensures if ok then leaves == old(leaves) + [commitment] else unchanged(this)
      ensures commitments == if ok then old(commitments) + {commitment} else old(commitments)
      ensures supportedDenominations == old(supportedDenominations) && sanctioned == old(sanctioned)
      ensures complianceEnabled == old(complianceEnabled) && complianceOracle == old(complianceOracle)
    {
      if value !in supportedDenominations { return false; }
      if commitment in commitments { return false; }
      if complianceEnabled && sender in sanctioned { return false; }
      commitments := commitments + {commitment};
      root := InsertLeaf(commitment);
      nextLeafIndex := nextLeafIndex + 1;
      leaves := leaves + [commitment];
      return true;
    }

    /** The walk from a new leaf to the root. */
    method InsertLeaf(leaf: Word) returns (r: Word)
      requires nextLeafIndex == |leaves| && FrontierOk(h, treeDepth, leaves, filledSubtrees)
      modifies `filledSubtrees
      ensures r == RootAfter(h, treeDepth, leaves + [leaf])
      ensures FrontierOk(h, treeDepth, leaves + [leaf], filledSubtrees)
    {
      var leafIndex := nextLeafIndex;
      var currentHash := leaf;
      ghost var n, all := |leaves|, leaves + [leaf];
      for i := 0 to treeDepth
        invariant leafIndex == Up(n, i) && currentHash == Node(h, all, i, leafIndex)
        invariant Walked(h, treeDepth, leaves, all, i, filledSubtrees)
      {
        hide Node, Zeros;
        ghost var before := filledSubtrees;
        LevelStep(h, leaves, leaf, i);
        if leafIndex % 2 == 0 {
          filledSubtrees := filledSubtrees[i := currentHash];
          var zero := ZerosAt(i);
          currentHash := h(currentHash, zero);
        } else {
          currentHash := h(filledSubtrees[i], currentHash);
        }
        WalkStep(h, treeDepth, leaves, leaf, i, before, filledSubtrees);
        leafIndex := leafIndex / 2;
      }
      return currentHash;
    }

    /** Turns compliance on and names the oracle, whoever calls. */
    method EnableCompliance(oracle: Account)
      requires Valid()
      modifies `complianceEnabled, `complianceOracle
      ensures Valid() && complianceEnabled && complianceOracle == oracle
    {
      complianceEnabled, complianceOracle := true, oracle;
    }

    /** Only the oracle puts accounts on the list or takes them off it. */
    method UpdateSanctioned(account: Account, status: bool, sender: Account) returns (ok: bool)
      requires Valid()
      modifies `sanctioned
      ensures Valid() && (ok <==> sender == complianceOracle)
      ensures sanctioned == if !ok then old(sanctioned)
        else if status then old(sanctioned) + {account} else old(sanctioned) - {account}
    {
      if sender != complianceOracle { return false; }
      sanctioned := if status then sanctioned + {account} else sanctioned - {account};
      return true;
    }
  }
}
