/**
 * The tree that the commitment accumulator keeps, and what proofs for its root say. Unlike in the plain tree,
 * every node without a leaf below it is zero, at whatever level.
 */
module SparseTree {
  import opened Arith
  import opened MerkleTree

  ghost predicate NeverZero(h: Pair) {
    forall a, b :: h(a, b) != ZERO_WORD
  }

  /** No leaf is zero or the hash of something. */
  ghost predicate Apart(h: Pair, leaves: seq<Word>) {
    && (forall a, b :: h(a, b) !in leaves)
    && ZERO_WORD !in leaves
  }

  /** No leaf lies below position `j` of level `i`. */
  predicate Vacant(leaves: seq<Word>, i: nat, j: nat) {
    leaves == [] || j > Up(|leaves| - 1, i)
  }

  /** The node at level `i`, position `j`. */
  function SparseNode(h: Pair, leaves: seq<Word>, i: nat, j: nat): Word {
    if i == 0 then LeafAt(leaves, j)
    else if Vacant(leaves, i, j) then ZERO_WORD
    else h(SparseNode(h, leaves, i - 1, 2 * j), SparseNode(h, leaves, i - 1, 2 * j + 1))
  }

  /** Each word of a row is the hash of the two words under it, or zero if all leaves lie before it. */
  ghost predicate HashesOccupied(h: Pair, below: seq<Word>, above: seq<Word>, width: nat, total: nat) {
    && |below| == 2 * |above|
    && forall j :: 0 <= j < |above| ==>
      above[j] == if j * width >= total then 0 else h(below[2 * j], below[2 * j + 1])
  }

  /** A position of level `i` begins after all leaves exactly if no leaf lies below it. */
  lemma {:induction false} VacantIff(leaves: seq<Word>, i: nat, j: nat)
    ensures Vacant(leaves, i, j) <==> j * Pow2(i) >= |leaves|
  {
    if leaves != [] { UpAtLeast(|leaves| - 1, i, j); }
  }

  lemma {:induction false} UpAtLeast(last: nat, i: nat, j: nat)
    ensures Up(last, i) >= j <==> j * Pow2(i) <= last
  {
    if i > 0 {
      UpAtLeast(last, i - 1, 2 * j);
      assert (2 * j) * Pow2(i - 1) == j * Pow2(i);
    }
  }

  /** However the tree is drawn up, row by row, it consists of the nodes. */
  lemma {:induction false} RowsAreSparse(h: Pair, leaves: seq<Word>, rows: seq<seq<Word>>, i: nat, j: nat)
    requires i < |rows| && j < |rows[i]|
    requires forall k :: 0 <= k < |rows[0]| ==> rows[0][k] == if k < |leaves| then leaves[k] else 0
    requires forall k :: 0 <= k < |rows| - 1 ==> HashesOccupied(h, rows[k], rows[k + 1], Pow2(k + 1), |leaves|)
    ensures rows[i][j] == SparseNode(h, leaves, i, j)
  {
    if i > 0 {
      assert HashesOccupied(h, rows[i - 1], rows[i - 1 + 1], Pow2(i - 1 + 1), |leaves|);
      VacantIff(leaves, i, j);
      RowsAreSparse(h, leaves, rows, i - 1, 2 * j);
      RowsAreSparse(h, leaves, rows, i - 1, 2 * j + 1);
    }
  }

  lemma {:induction false} UpMonotone(a: nat, b: nat, k: nat)
    requires a <= b
    ensures Up(a, k) <= Up(b, k)
  {
    if k > 0 { UpMonotone(a, b, k - 1); }
  }

  /** Appending a leaf changes only the nodes above it. */
  lemma {:induction false} OtherSparse(h: Pair, leaves: seq<Word>, leaf: Word, i: nat, j: nat)
    requires Up(|leaves|, i) != j
    ensures SparseNode(h, leaves + [leaf], i, j) == SparseNode(h, leaves, i, j)
  {
    if i > 0 {
      if leaves == [] {
        UpIsFirst(0, i);
      } else {
        UpNext(|leaves| - 1, i);
      }
      OtherSparse(h, leaves, leaf, i - 1, 2 * j);
      OtherSparse(h, leaves, leaf, i - 1, 2 * j + 1);
    }
  }

  // ---------------------------------------------------------------- proofs

  datatype MerkleProof = MerkleProof(leaf: Word, path: seq<Word>, pathIndices: seq<bool>, root: Word)

  function Min(a: nat, b: nat): nat {
    if a < b then a else b
  }

  /** The part of a proof that is looked at: the path and the directions as far as both go. */
  function Steps(proof: MerkleProof): nat {
    Min(|proof.path|, |proof.pathIndices|)
  }

  ghost predicate Verifies(h: Pair, proof: MerkleProof) {
    Climb(h, proof.leaf, proof.path[..Steps(proof)], proof.pathIndices[..Steps(proof)]) == proof.root
  }

  lemma ClimbNothing(h: Pair, word: Word)
    ensures Climb(h, word, [], []) == word
  {
  }

  /** The path and the directions are read in step; what the longer of them has in excess is not looked at. */
  method Verify(h: Pair, proof: MerkleProof) returns (r: bool)
    ensures r <==> Verifies(h, proof)
    ensures var m := if |proof.path| < |proof.pathIndices| then |proof.path| else |proof.pathIndices|;
      r <==> Climb(h, proof.leaf, proof.path[..m], proof.pathIndices[..m]) == proof.root
    ensures |proof.path| == |proof.pathIndices| == 1 ==>
      var sibling := proof.path[0];
      r <==> proof.root == if proof.pathIndices[0] then h(sibling, proof.leaf) else h(proof.leaf, sibling)
  {
    var current := proof.leaf;
    var m := Steps(proof);
    for i := 0 to m
      invariant current == Climb(h, proof.leaf, proof.path[..i], proof.pathIndices[..i])
    {
      assert proof.path[..i + 1][..i] == proof.path[..i];
      assert proof.pathIndices[..i + 1][..i] == proof.pathIndices[..i];
      var sibling := proof.path[i];
      current := if proof.pathIndices[i] then h(sibling, current) else h(current, sibling);
    }
    ClimbNothing(h, proof.leaf);
    return current == proof.root;
  }

  lemma {:induction false} UpCompose(j: nat, i: nat, k: nat)
    ensures Up(Up(j, i), k) == Up(j, i + k)
  {
    if k > 0 { UpCompose(j, i, k - 1); }
  }

  /** What is above a node with leaves has leaves. */
  lemma NotVacantUp(leaves: seq<Word>, i: nat, j: nat, k: nat)
    requires !Vacant(leaves, i, j)
    ensures !Vacant(leaves, i + k, Up(j, k))
  {
    UpMonotone(j, Up(|leaves| - 1, i), k);
    UpCompose(|leaves| - 1, i, k);
  }

  /** The siblings on the way up from position `j` of level `i`. */
  ghost predicate SparsePath(h: Pair, leaves: seq<Word>, i: nat, j: nat, path: seq<Word>) {
    forall k :: 0 <= k < |path| ==> path[k] == SparseNode(h, leaves, i + k, Sibling(Up(j, k)))
  }

  /** The siblings of a node lead to the node above it, unless the way leads over vacant ones. */
  ghost predicate Leads(h: Pair, leaves: seq<Word>, i: nat, j: nat, path: seq<Word>) {
    SparsePath(h, leaves, i, j, path) && (path == [] || !Vacant(leaves, i + 1, j / 2))
  }

  lemma SparsePathLast(h: Pair, leaves: seq<Word>, i: nat, j: nat, path: seq<Word>)
    requires path != []
    ensures var n := |path| - 1;
      SparsePath(h, leaves, i, j, path) <==>
        SparsePath(h, leaves, i, j, path[..n]) && path[n] == SparseNode(h, leaves, i + n, Sibling(Up(j, n)))
  {
    hide SparseNode, Up;
    var n := |path| - 1;
    assert forall k :: 0 <= k < n ==> path[..n][k] == path[k];
  }

  /** One step of a climb, seen from above. */
  lemma SparseTop(h: Pair, leaves: seq<Word>, i: nat, u: nat, current: Word, sibling: Word, bit: bool)
    requires bit <==> u % 2 == 1
    ensures var made := if bit then h(sibling, current) else h(current, sibling);
      var siblings := current == SparseNode(h, leaves, i, u) && sibling == SparseNode(h, leaves, i, Sibling(u));
      && (siblings && !Vacant(leaves, i + 1, u / 2) ==> made == SparseNode(h, leaves, i + 1, u / 2))
      && (Binding(h) && !Vacant(leaves, i + 1, u / 2) && made == SparseNode(h, leaves, i + 1, u / 2) ==> siblings)
      && (NeverZero(h) && made == SparseNode(h, leaves, i + 1, u / 2) ==> !Vacant(leaves, i + 1, u / 2))
  {
  }

  lemma UpLast(j: nat, n: nat)
    ensures Up(j, n + 1) == Up(j, n) / 2
  {
  }

  lemma SpellsFront(right: seq<bool>, j: nat)
    requires right != [] && Spells(right, j)
    ensures Spells(right[..|right| - 1], j) && (right[|right| - 1] <==> Up(j, |right| - 1) % 2 == 1)
  {
    hide Up;
  }

  lemma ClimbLast(h: Pair, word: Word, path: seq<Word>, right: seq<bool>)
    requires |path| == |right| > 0
    ensures var n := |path| - 1;
      var current := Climb(h, word, path[..n], right[..n]);
      Climb(h, word, path, right) == if right[n] then h(path[n], current) else h(current, path[n])
  {
  }

  lemma UpOne(j: nat)
    ensures Up(j, 0) == j && Up(j, 1) == j / 2
  {
  }

  /** The last step of a way up. */
  lemma LeadsLast(h: Pair, leaves: seq<Word>, i: nat, j: nat, path: seq<Word>)
    requires path != []
    ensures var n := |path| - 1;
      Leads(h, leaves, i, j, path) <==>
        && Leads(h, leaves, i, j, path[..n]) && path[n] == SparseNode(h, leaves, i + n, Sibling(Up(j, n)))
        && (n == 0 ==> !Vacant(leaves, i + 1, Up(j, 1)))
    ensures Leads(h, leaves, i, j, path) ==> !Vacant(leaves, i + |path|, Up(j, |path|))
  {
    hide SparseNode, SparsePath, Vacant, Up;
    var n := |path| - 1;
    UpOne(j);
    SparsePathLast(h, leaves, i, j, path);
    if Leads(h, leaves, i, j, path) { NotVacantUp(leaves, i + 1, j / 2, n); }
    UpCompose(j, 1, n);
    assert Leads(h, leaves, i, j, path[..n]) <==>
      SparsePath(h, leaves, i, j, path[..n]) && (n == 0 || !Vacant(leaves, i + 1, j / 2));
  }

  lemma NoWay(h: Pair, leaves: seq<Word>, i: nat, j: nat, word: Word)
    ensures Leads(h, leaves, i, j, []) && Climb(h, word, [], []) == word && Up(j, 0) == j
  {
  }

  /** Without any assumption on the hash, the siblings of a node lead up from it. */
  lemma {:induction false} SparseClimb(h: Pair, leaves: seq<Word>, i: nat, j: nat, path: seq<Word>, right: seq<bool>)
    requires |path| == |right| && Spells(right, j) && Leads(h, leaves, i, j, path)
    ensures Climb(h, SparseNode(h, leaves, i, j), path, right) == SparseNode(h, leaves, i + |path|, Up(j, |path|))
    decreases |path|
  {
    hide *;
    if path == [] {
      NoWay(h, leaves, i, j, SparseNode(h, leaves, i, j));
    } else {
      var n, word := |path| - 1, SparseNode(h, leaves, i, j);
      UpLast(j, n);
      LeadsLast(h, leaves, i, j, path);
      SpellsFront(right, j);
      SparseClimb(h, leaves, i, j, path[..n], right[..n]);
      SparseTop(h, leaves, i + n, Up(j, n), Climb(h, word, path[..n], right[..n]), path[n], right[n]);
      ClimbLast(h, word, path, right);
    }
  }

  /** With a binding hash that is never zero, nothing else leads there. */
  lemma {:induction false} SparseClimbIff(h: Pair, leaves: seq<Word>, i: nat, j: nat, word: Word, path: seq<Word>,
      right: seq<bool>)
    requires Binding(h) && NeverZero(h) && |path| == |right| && Spells(right, j)
    ensures Climb(h, word, path, right) == SparseNode(h, leaves, i + |path|, Up(j, |path|)) <==>
      word == SparseNode(h, leaves, i, j) && Leads(h, leaves, i, j, path)
    decreases |path|
  {
    hide *;
    if path == [] {
      NoWay(h, leaves, i, j, word);
    } else {
      var n := |path| - 1;
      UpLast(j, n);
      UpOne(j);
      LeadsLast(h, leaves, i, j, path);
      SpellsFront(right, j);
      SparseClimbIff(h, leaves, i, j, word, path[..n], right[..n]);
      SparseTop(h, leaves, i + n, Up(j, n), Climb(h, word, path[..n], right[..n]), path[n], right[n]);
      ClimbLast(h, word, path, right);
      if n > 0 && Leads(h, leaves, i, j, path[..n]) { LeadsOn(h, leaves, i, j, path); }
    }
  }

  lemma LeadsOn(h: Pair, leaves: seq<Word>, i: nat, j: nat, path: seq<Word>)
    requires |path| > 1 && Leads(h, leaves, i, j, path[..|path| - 1])
    ensures !Vacant(leaves, i + |path|, Up(j, |path|))
  {
    UpOne(j);
    NotVacantUp(leaves, i + 1, j / 2, |path| - 1);
    UpCompose(j, 1, |path| - 1);
  }

  /** A climb can be taken in two parts. */
  lemma {:induction false} ClimbSplit(h: Pair, word: Word, path: seq<Word>, right: seq<bool>, e: nat)
    requires |path| == |right| && e <= |path|
    ensures Climb(h, word, path, right) == Climb(h, Climb(h, word, path[..e], right[..e]), path[e..], right[e..])
    decreases |path|
  {
    if e == |path| {
      assert path[..e] == path && right[..e] == right;
    } else {
      var n := |path| - 1;
      ClimbSplit(h, word, path[..n], right[..n], e);
      assert path[..n][..e] == path[..e] && right[..n][..e] == right[..e];
      assert path[..n][e..] == path[e..][..n - e] && right[..n][e..] == right[e..][..n - e];
    }
  }

  /** How many steps of a proof are more than the tree is high. */
  function Excess(d: nat, proof: MerkleProof): nat {
    if Steps(proof) > d then Steps(proof) - d else 0
  }

  /** The word that a proof offers where its path enters the tree. */
  function Offered(h: Pair, d: nat, proof: MerkleProof): Word {
    var e := Excess(d, proof);
    Climb(h, proof.leaf, proof.path[..e], proof.pathIndices[..e])
  }

  /** The directions of a proof inside the tree. */
  function Inside(d: nat, proof: MerkleProof): (r: seq<bool>)
    ensures |r| <= d
  {
    proof.pathIndices[Excess(d, proof)..Steps(proof)]
  }

  /**
   * With a binding hash that is never zero, a proof for the root verifies exactly when it offers the node at
   * the level that its length gives and the position that its directions spell, with the siblings of that
   * node, and leads over no vacant one. The length is not fixed, and so neither is the level.
   */
  lemma AcceptedIff(h: Pair, leaves: seq<Word>, d: nat, proof: MerkleProof)
    requires Binding(h) && NeverZero(h) && proof.root == SparseNode(h, leaves, d, 0)
    ensures var i, j := d - |Inside(d, proof)|, IndexOf(Inside(d, proof));
      Verifies(h, proof) <==>
        && Offered(h, d, proof) == SparseNode(h, leaves, i, j)
        && Leads(h, leaves, i, j, proof.path[Excess(d, proof)..Steps(proof)])
  {
    hide Climb, SparseNode, Leads, Binding, NeverZero, Spells;
    var e, m := Excess(d, proof), Steps(proof);
    var path, right := proof.path[..m], proof.pathIndices[..m];
    assert path[..e] == proof.path[..e] && right[..e] == proof.pathIndices[..e];
    assert path[e..] == proof.path[e..m] && right[e..] == Inside(d, proof);
    ClimbSplit(h, proof.leaf, path, right, e);
    IndexOfSpells(right[e..]);
    UpIsFirst(IndexOf(right[e..]), m - e);
    SparseClimbIff(h, leaves, d - (m - e), IndexOf(right[e..]), Offered(h, d, proof), path[e..], right[e..]);
  }

  /**
   * As long as no commitment is zero or a hash, what an accepted proof offers is a commitment exactly when
   * the proof has full length and spells the index of a commitment; it is the commitment at that index then.
   * A longer proof is never accepted; a shorter one offers an inner node, and one that spells a vacant index
   * offers zero.
   */
  lemma OffersCommitmentIff(h: Pair, leaves: seq<Word>, d: nat, proof: MerkleProof)
    requires Binding(h) && NeverZero(h) && Apart(h, leaves)
    requires proof.root == SparseNode(h, leaves, d, 0) && Verifies(h, proof)
    ensures Steps(proof) <= d
    ensures proof.leaf in leaves <==> Steps(proof) == d && IndexOf(proof.pathIndices[..d]) < |leaves|
    ensures proof.leaf in leaves ==> proof.leaf == leaves[IndexOf(proof.pathIndices[..d])]
  {
    hide IndexOf, Leads, Binding;
    AcceptedIff(h, leaves, d, proof);
    var i, j := d - |Inside(d, proof)|, IndexOf(Inside(d, proof));
    if Steps(proof) > d {
      assert i == 0;
      ClimbIsHash(h, proof.leaf, proof.path[..Excess(d, proof)], proof.pathIndices[..Excess(d, proof)]);
    }
    InnerIsNoLeaf(h, leaves, i, j);
    assert proof.path[..0] == [];
  }

  lemma ClimbIsHash(h: Pair, word: Word, path: seq<Word>, right: seq<bool>)
    requires |path| == |right| > 0
    ensures exists a, b :: Climb(h, word, path, right) == h(a, b)
  {
    var n := |path| - 1;
    ClimbLast(h, word, path, right);
    var current := Climb(h, word, path[..n], right[..n]);
    var a, b := if right[n] then path[n] else current, if right[n] then current else path[n];
    assert Climb(h, word, path, right) == h(a, b);
  }

  lemma InnerIsNoLeaf(h: Pair, leaves: seq<Word>, i: nat, j: nat)
    requires Apart(h, leaves)
    ensures SparseNode(h, leaves, i, j) in leaves <==> i == 0 && j < |leaves|
  {
  }

  /**
   * With a binding hash alone, a proof of full length for the root whose directions spell a committed index
   * offers the commitment at that index.
   */
  lemma ProofBinds(h: Pair, leaves: seq<Word>, d: nat, proof: MerkleProof, j: nat)
    requires Binding(h) && j < |leaves| <= Pow2(d)
    requires Steps(proof) == d && Spells(proof.pathIndices[..d], j)
    requires Verifies(h, proof) && proof.root == SparseNode(h, leaves, d, 0)
    ensures proof.leaf == leaves[j]
  {
    UpIsFirst(j, d);
    SparseSound(h, leaves, j, proof.leaf, proof.path[..d], proof.pathIndices[..d]);
  }

  lemma {:induction false} SparseSound(h: Pair, leaves: seq<Word>, j: nat, leaf: Word, path: seq<Word>,
      right: seq<bool>)
    requires Binding(h) && j < |leaves| && |path| == |right| && Spells(right, j)
    requires Climb(h, leaf, path, right) == SparseNode(h, leaves, |path|, Up(j, |path|))
    ensures leaf == leaves[j]
    decreases |path|
  {
    if path != [] {
      var n := |path| - 1;
      assert Spells(right[..n], j) && (right[n] <==> Up(j, n) % 2 == 1);
      UpMonotone(j, |leaves| - 1, n + 1);
      SparseTop(h, leaves, n, Up(j, n), Climb(h, leaf, path[..n], right[..n]), path[n], right[n]);
      hide SparseNode, Binding;
      SparseSound(h, leaves, j, leaf, path[..n], right[..n]);
    }
  }

  /** A proof without steps, whatever its directions, passes the root off as a leaf. */
  lemma RootPassesAsLeaf(h: Pair, leaves: seq<Word>, d: nat, indices: seq<bool>)
    requires d > 0 && Apart(h, leaves)
    ensures var root := SparseNode(h, leaves, d, 0);
      Verifies(h, MerkleProof(root, [], indices, root)) && root !in leaves
  {
    InnerIsNoLeaf(h, leaves, d, 0);
  }

  /** With a single commitment, zero passes as its neighbour, which was never committed. */
  lemma ZeroPassesAsLeaf(h: Pair, word: Word)
    ensures Verifies(h, MerkleProof(ZERO_WORD, [word], [true], SparseNode(h, [word], 1, 0)))
  {
    assert [word][..0] == [] && [true][..0] == [];
    assert SparseNode(h, [word], 0, 0) == word && SparseNode(h, [word], 0, 1) == ZERO_WORD;
    assert Up(0, 1) == 0;
  }

  // ---------------------------------------------------------------- comparison with the plain tree

  lemma DoubleWidth(j: nat, p: nat)
    ensures (j + 1) * (2 * p) == (2 * j + 2) * p == (2 * j + 1) * p + p
  {
  }

  /** Where a leaf or a sibling of a leaf is missing only, the two trees agree. */
  lemma {:induction false} AgreesBelow(h: Pair, leaves: seq<Word>, i: nat, j: nat)
    requires (j + 1) * Pow2(i) <= |leaves| + 1 && leaves != []
    ensures SparseNode(h, leaves, i, j) == Node(h, leaves, i, j)
  {
    if i > 0 {
      var p := Pow2(i - 1);
      DoubleWidth(j, p);
      FirstUp(|leaves| - 1, i, j);
      AgreesBelow(h, leaves, i - 1, 2 * j);
      AgreesBelow(h, leaves, i - 1, 2 * j + 1);
    }
  }

  /** A position whose subtree has at most one leaf too many begins at or before the last leaf. */
  lemma {:induction false} FirstUp(last: nat, i: nat, j: nat)
    requires i > 0 && (j + 1) * Pow2(i) <= last + 2
    ensures j <= Up(last, i)
  {
    var p := Pow2(i - 1);
    DoubleWidth(j, p);
    if i == 1 {
      assert Pow2(0) == 1 && Up(last, 1) == last / 2;
    } else {
      assert p >= 2;
      FirstUp(last, i - 1, 2 * j);
    }
  }

  /** If the two roots agree, no subtree of two or more leaves is vacant. */
  lemma {:induction false} AgreeingIsFull(h: Pair, leaves: seq<Word>, i: nat, j: nat)
    requires Binding(h) && NeverZero(h) && i > 0
    requires SparseNode(h, leaves, i, j) == Node(h, leaves, i, j)
    ensures (j + 1) * Pow2(i) <= |leaves| + 1
  {
    var p := Pow2(i - 1);
    DoubleWidth(j, p);
    assert !Vacant(leaves, i, j);
    if i == 1 {
      assert Pow2(0) == 1 && Up(|leaves| - 1, 1) == Up(|leaves| - 1, 0) / 2;
    } else {
      AgreeingIsFull(h, leaves, i - 1, 2 * j + 1);
    }
  }

  /** The accumulator has the root of the plain tree exactly when at most the last leaf is missing. */
  lemma PlainRootIff(h: Pair, leaves: seq<Word>, d: nat)
    requires Binding(h) && NeverZero(h) && |leaves| <= Pow2(d)
    ensures SparseNode(h, leaves, d, 0) == Node(h, leaves, d, 0) <==> d == 0 || |leaves| + 1 >= Pow2(d)
  {
    if d > 0 {
      if SparseNode(h, leaves, d, 0) == Node(h, leaves, d, 0) { AgreeingIsFull(h, leaves, d, 0); }
      if |leaves| + 1 >= Pow2(d) { AgreesBelow(h, leaves, d, 0); }
    }
  }
}
