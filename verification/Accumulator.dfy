/**
 * The commitment accumulator: a sparse tree in one array, node `k` above nodes `2k` and `2k + 1`. It takes
 * commitments past its capacity, which then come to stand below earlier ones.
 */
module Accumulator {
  import opened Primitives
  import opened Arith
  import opened MerkleTree
  import opened SparseTree

  // ---------------------------------------------------------------- the array

  /** The array holds node `j` of level `i` at index `2^(d - i) + j`. */
  ghost predicate HoldsNode(h: Pair, leaves: seq<Word>, d: nat, tree: seq<Word>, i: nat, j: nat)
    requires i <= d
  {
    Pow2(d - i) + j < |tree| && tree[Pow2(d - i) + j] == SparseNode(h, leaves, i, j)
  }

  ghost predicate TreeOk(h: Pair, leaves: seq<Word>, d: nat, tree: seq<Word>) {
    forall i, j :: 0 <= i <= d && 0 <= j < Pow2(d - i) ==> HoldsNode(h, leaves, d, tree, i, j)
  }

  /** During an update: right for all leaves up to level `i`, and off the path of the last leaf above it. */
  ghost predicate Updated(h: Pair, leaves: seq<Word>, d: nat, tree: seq<Word>, upTo: int)
    requires leaves != []
  {
    forall i, j :: 0 <= i <= d && 0 <= j < Pow2(d - i) && (i <= upTo || j != Up(|leaves| - 1, i))
      ==> HoldsNode(h, leaves, d, tree, i, j)
  }

  lemma StartUpdate(h: Pair, leaves: seq<Word>, leaf: Word, d: nat, tree: seq<Word>)
    requires TreeOk(h, leaves, d, tree)
    ensures Updated(h, leaves + [leaf], d, tree, -1)
  {
    forall i, j | 0 <= i <= d && 0 <= j < Pow2(d - i) && j != Up(|leaves|, i)
      ensures HoldsNode(h, leaves + [leaf], d, tree, i, j)
    {
      OtherSparse(h, leaves, leaf, i, j);
      assert HoldsNode(h, leaves, d, tree, i, j);
    }
  }

  /** Writing the node of the path at level `i` disturbs no other node. */
  lemma WriteNode(h: Pair, leaves: seq<Word>, d: nat, tree: seq<Word>, i: nat, w: Word)
    requires leaves != [] && i <= d && Updated(h, leaves, d, tree, i - 1)
    requires Up(|leaves| - 1, i) < Pow2(d - i) && Pow2(d - i) + Up(|leaves| - 1, i) < |tree|
    requires w == SparseNode(h, leaves, i, Up(|leaves| - 1, i))
    ensures Updated(h, leaves, d, tree[Pow2(d - i) + Up(|leaves| - 1, i) := w], i)
  {
    hide SparseNode, Up;
    var u := Up(|leaves| - 1, i);
    var tree' := tree[Pow2(d - i) + u := w];
    forall k, j | 0 <= k <= d && 0 <= j < Pow2(d - k) && (k <= i || j != Up(|leaves| - 1, k))
      ensures HoldsNode(h, leaves, d, tree', k, j)
    {
      if k != i || j != u {
        assert HoldsNode(h, leaves, d, tree, k, j);
        IndexUnique(d, k, j, i, u);
      }
    }
  }

  lemma IndexUnique(d: nat, k: nat, j: nat, i: nat, u: nat)
    requires k <= d && i <= d && j < Pow2(d - k) && u < Pow2(d - i)
    ensures Pow2(d - k) + j == Pow2(d - i) + u ==> k == i && j == u
  {
    if k < i { Pow2Monotone(d - i + 1, d - k); }
    if i < k { Pow2Monotone(d - k + 1, d - i); }
  }

  /** The path node one level up is the hash of two nodes that are right already. */
  lemma NextUp(h: Pair, leaves: seq<Word>, d: nat, tree: seq<Word>, i: nat)
    requires leaves != [] && i < d && Updated(h, leaves, d, tree, i) && |leaves| <= Pow2(d)
    ensures var u := Up(|leaves| - 1, i);
      && u < Pow2(d - i) && Up(|leaves| - 1, i + 1) == u / 2 < Pow2(d - i - 1)
      && var left := Pow2(d - i) + 2 * (u / 2);
         left + 1 < |tree| && h(tree[left], tree[left + 1]) == SparseNode(h, leaves, i + 1, u / 2)
  {
    var u := Up(|leaves| - 1, i);
    UpBound(|leaves| - 1, i, d);
    assert HoldsNode(h, leaves, d, tree, i, 2 * (u / 2));
    assert HoldsNode(h, leaves, d, tree, i, 2 * (u / 2) + 1);
  }

  lemma WriteLeaf(h: Pair, leaves: seq<Word>, d: nat, tree: seq<Word>)
    requires leaves != [] && |leaves| <= Pow2(d) && |tree| >= 2 * Pow2(d) && Updated(h, leaves, d, tree, -1)
    ensures Updated(h, leaves, d, tree[Pow2(d) + |leaves| - 1 := leaves[|leaves| - 1]], 0)
  {
    hide Updated;
    WriteNode(h, leaves, d, tree, 0, leaves[|leaves| - 1]);
  }

  /** One turn of the update loop: where the indexes are, what is hashed, and what that establishes. */
  lemma StepUp(h: Pair, leaves: seq<Word>, d: nat, tree: seq<Word>, i: nat, current: nat)
    requires leaves != [] && |leaves| <= Pow2(d) && i <= d && Updated(h, leaves, d, tree, i)
    requires current == Pow2(d - i) + Up(|leaves| - 1, i) && 1 < current < |tree|
    ensures i < d && current / 2 == Pow2(d - (i + 1)) + Up(|leaves| - 1, i + 1)
    ensures var left := current - current % 2;
      left + 1 < |tree| && Updated(h, leaves, d, tree[current / 2 := h(tree[left], tree[left + 1])], i + 1)
  {
    hide Updated, SparseNode;
    AboveRoot(|leaves| - 1, i, d, current);
    NextUp(h, leaves, d, tree, i);
    var left := current - current % 2;
    WriteNode(h, leaves, d, tree, i + 1, h(tree[left], tree[left + 1]));
  }

  lemma {:induction false} UpBound(j: nat, i: nat, d: nat)
    requires i <= d && j < Pow2(d)
    ensures Up(j, i) < Pow2(d - i)
  {
    if i > 0 { UpBound(j, i - 1, d); }
  }

  lemma EndUpdate(h: Pair, leaves: seq<Word>, d: nat, tree: seq<Word>)
    requires leaves != [] && Updated(h, leaves, d, tree, d)
    ensures TreeOk(h, leaves, d, tree)
  {
  }

  lemma EmptyTree(h: Pair, d: nat, tree: seq<Word>)
    requires |tree| == 2 * Pow2(d) && forall k :: 0 <= k < |tree| ==> tree[k] == ZERO_WORD
    ensures TreeOk(h, [], d, tree)
  {
    forall i, j | 0 <= i <= d && 0 <= j < Pow2(d - i) ensures HoldsNode(h, [], d, tree, i, j) {
      Pow2Monotone(d - i, d);
    }
  }

  lemma AboveRoot(index: nat, i: nat, d: nat, current: nat)
    requires i <= d && index < Pow2(d) && current == Pow2(d - i) + Up(index, i) && current > 1
    ensures i < d && current % 2 == Up(index, i) % 2
    ensures current / 2 == Pow2(d - i - 1) + Up(index, i) / 2
    ensures current - current % 2 == Pow2(d - i) + 2 * (Up(index, i) / 2)
  {
    hide Up;
    UpBound(index, i, d);
    assert Pow2(0) == 1;
    if i < d { TwiceAndMore(d - i, Up(index, i)); }
  }

  lemma TwiceAndMore(n: nat, u: nat)
    requires n > 0
    ensures var x := Pow2(n) + u;
      x % 2 == u % 2 && x / 2 == Pow2(n - 1) + u / 2 && x - x % 2 == Pow2(n) + 2 * (u / 2)
  {
    assert Pow2(n) == 2 * Pow2(n - 1);
    hide Pow2;
  }

  lemma AtRoot(index: nat, i: nat, d: nat, current: nat)
    requires i <= d && current == Pow2(d - i) + Up(index, i) && current <= 1
    ensures i == d
  {
  }

  // ---------------------------------------------------------------- the array after any number of commitments

  function At(tree: seq<Word>, k: nat): Word {
    if k < |tree| then tree[k] else ZERO_WORD
  }

  /** The hash of what stands below index `k`. */
  function Hashed(h: Pair, tree: seq<Word>, k: nat): Word {
    h(At(tree, 2 * k), At(tree, 2 * k + 1))
  }

  /** Recomputes the nodes above an index, up to the root. */
  function WalkUp(h: Pair, tree: seq<Word>, current: nat): (r: seq<Word>)
    requires current < |tree|
    ensures |r| == |tree|
    decreases current
  {
    if current <= 1 then tree
    else WalkUp(h, tree[current / 2 := Hashed(h, tree, current / 2)], current / 2)
  }

  /** The array, made long enough with zeros. */
  function Grown(tree: seq<Word>, n: nat): (r: seq<Word>)
    ensures |r| >= |tree| && |r| >= n && forall k :: At(r, k) == At(tree, k)
  {
    if |tree| < n then tree + seq(n - |tree|, _ => ZERO_WORD) else tree
  }

  function WithLeaf(h: Pair, tree: seq<Word>, x: nat, leaf: Word): (r: seq<Word>)
    ensures |r| >= |tree| && |r| > x
  {
    WalkUp(h, Grown(tree, x + 1)[x := leaf], x)
  }

  /** The array after the given commitments, be they within the capacity or not. */
  function ArrayAfter(h: Pair, d: nat, leaves: seq<Word>): (r: seq<Word>)
    ensures |r| >= 2 * Pow2(d)
  {
    if leaves == [] then seq(2 * Pow2(d), _ => ZERO_WORD)
    else
      var n := |leaves| - 1;
      WithLeaf(h, ArrayAfter(h, d, leaves[..n]), Pow2(d) + n, leaves[n])
  }

  lemma {:induction false} WalkUpdates(h: Pair, leaves: seq<Word>, d: nat, tree: seq<Word>, i: nat, current: nat)
    requires leaves != [] && |leaves| <= Pow2(d) && i <= d && Updated(h, leaves, d, tree, i)
    requires current == Pow2(d - i) + Up(|leaves| - 1, i) && current < |tree|
    ensures TreeOk(h, leaves, d, WalkUp(h, tree, current))
    decreases current
  {
    hide Updated, TreeOk, SparseNode, Up;
    if current <= 1 {
      AtRoot(|leaves| - 1, i, d, current);
      EndUpdate(h, leaves, d, tree);
    } else {
      StepUp(h, leaves, d, tree, i, current);
      assert current - current % 2 == 2 * (current / 2);
      WalkUpdates(h, leaves, d, tree[current / 2 := Hashed(h, tree, current / 2)], i + 1, current / 2);
    }
  }

  /** Within the capacity, every node of the array is what the commitments make it. */
  lemma {:induction false} ArrayIsExact(h: Pair, d: nat, leaves: seq<Word>)
    requires |leaves| <= Pow2(d)
    ensures TreeOk(h, leaves, d, ArrayAfter(h, d, leaves))
  {
    hide Updated, TreeOk, SparseNode, WalkUp;
    if leaves == [] {
      EmptyTree(h, d, ArrayAfter(h, d, leaves));
    } else {
      var n := |leaves| - 1;
      var tree := ArrayAfter(h, d, leaves[..n]);
      assert leaves == leaves[..n] + [leaves[n]];
      ArrayIsExact(h, d, leaves[..n]);
      StartUpdate(h, leaves[..n], leaves[n], d, tree);
      WriteLeaf(h, leaves, d, tree);
      WalkUpdates(h, leaves, d, tree[Pow2(d) + n := leaves[n]], 0, Pow2(d) + n);
    }
  }

  /** Node `k` is above node `x`. */
  predicate Above(k: nat, x: nat) {
    x >= 2 && (k == x / 2 || Above(k, x / 2))
  }

  lemma {:induction false} AboveIsLower(k: nat, x: nat)
    requires Above(k, x)
    ensures 1 <= k && 2 * k <= x
  {
    if k != x / 2 { AboveIsLower(k, x / 2); }
  }

  /** A node is above what its children are or are above. */
  lemma {:induction false} AboveChild(c: nat, x: nat)
    requires c >= 2
    ensures c == x || Above(c, x) ==> Above(c / 2, x)
  {
    if x >= 2 && c != x && c != x / 2 { AboveChild(c, x / 2); }
  }

  lemma {:induction false} AboveUp(z: nat, k: nat)
    requires k >= 1 && Up(z, k) >= 1
    ensures Above(Up(z, k), z)
  {
    UpHalf(z, k - 1);
    if k > 1 { AboveUp(z / 2, k - 1); }
  }

  /** Node `k` is the hash of what stands below it. */
  predicate Consistent(h: Pair, tree: seq<Word>, k: nat) {
    At(tree, k) == Hashed(h, tree, k)
  }

  lemma {:induction false} WalkLeaves(h: Pair, tree: seq<Word>, x: nat, y: nat)
    requires x < |tree| && !Above(y, x)
    ensures At(WalkUp(h, tree, x), y) == At(tree, y)
    decreases x
  {
    if x > 1 { WalkLeaves(h, tree[x / 2 := Hashed(h, tree, x / 2)], x / 2, y); }
  }

  lemma WalkKeeps(h: Pair, tree: seq<Word>, x: nat, k: nat)
    requires x < |tree| && k >= 1 && !Above(k, x) && Consistent(h, tree, k)
    ensures Consistent(h, WalkUp(h, tree, x), k)
  {
    hide WalkUp, Above, At;
    AboveChild(2 * k, x);
    AboveChild(2 * k + 1, x);
    assert (2 * k + 1) / 2 == k;
    WalkLeaves(h, tree, x, k);
    WalkLeaves(h, tree, x, 2 * k);
    WalkLeaves(h, tree, x, 2 * k + 1);
  }

  lemma {:induction false} WalkMakes(h: Pair, tree: seq<Word>, x: nat, k: nat)
    requires x < |tree| && Above(k, x)
    ensures Consistent(h, WalkUp(h, tree, x), k)
    decreases x
  {
    var p := x / 2;
    var tree' := tree[p := Hashed(h, tree, p)];
    if Above(k, p) {
      WalkMakes(h, tree', p, k);
    } else {
      WalkKeeps(h, tree', p, k);
    }
  }

  /** Adding a leaf makes the nodes above it consistent and keeps every other consistent node so. */
  lemma LeafConsistent(h: Pair, tree: seq<Word>, x: nat, leaf: Word, k: nat)
    requires k >= 1 && (Above(k, x) || (k != x && Consistent(h, tree, k)))
    ensures Consistent(h, WithLeaf(h, tree, x, leaf), k)
  {
    var start := Grown(tree, x + 1)[x := leaf];
    hide WalkUp;
    if Above(k, x) {
      WalkMakes(h, start, x, k);
    } else {
      AboveChild(2 * k, x);
      AboveChild(2 * k + 1, x);
      WalkKeeps(h, start, x, k);
    }
  }

  /** It changes no node but itself and those above it. */
  lemma LeafElsewhere(h: Pair, tree: seq<Word>, x: nat, leaf: Word, y: nat)
    requires !Above(y, x)
    ensures At(WithLeaf(h, tree, x, leaf), y) == if y == x then leaf else At(tree, y)
  {
    hide WalkUp;
    WalkLeaves(h, Grown(tree, x + 1)[x := leaf], x, y);
  }

  /** The nodes above a slot that has been written to stay consistent. */
  lemma {:induction false} AboveConsistent(h: Pair, d: nat, leaves: seq<Word>, i: nat, k: nat)
    requires i < |leaves| && Above(k, Pow2(d) + i)
    ensures Consistent(h, ArrayAfter(h, d, leaves), k)
  {
    hide WithLeaf, Consistent;
    AboveIsLower(k, Pow2(d) + i);
    var n := |leaves| - 1;
    if i < n { AboveConsistent(h, d, leaves[..n], i, k); }
    LeafConsistent(h, ArrayAfter(h, d, leaves[..n]), Pow2(d) + n, leaves[n], k);
  }

  /**
   * A slot holds its commitment until, 2^d + i commitments after it, a commitment comes to stand below it.
   * From then on it holds a hash.
   */
  lemma {:induction false} SlotHolds(h: Pair, d: nat, leaves: seq<Word>, i: nat)
    requires i < |leaves|
    ensures var tree, x := ArrayAfter(h, d, leaves), Pow2(d) + i;
      if |leaves| <= Pow2(d) + 2 * i then At(tree, x) == leaves[i] else Consistent(h, tree, x)
  {
    hide WithLeaf, Consistent;
    var n, x := |leaves| - 1, Pow2(d) + i;
    var before := ArrayAfter(h, d, leaves[..n]);
    if Above(x, Pow2(d) + n) { AboveIsLower(x, Pow2(d) + n); }
    if i < n { SlotHolds(h, d, leaves[..n], i); }
    if |leaves| <= Pow2(d) + 2 * i {
      LeafElsewhere(h, before, Pow2(d) + n, leaves[n], x);
    } else {
      assert n == Pow2(d) + 2 * i ==> Above(x, 2 * x);
      LeafConsistent(h, before, Pow2(d) + n, leaves[n], x);
    }
  }

  lemma {:induction false} ArrayLength(h: Pair, d: nat, leaves: seq<Word>)
    ensures |ArrayAfter(h, d, leaves)| == Pow2(d) + if |leaves| < Pow2(d) then Pow2(d) else |leaves|
  {
    if leaves != [] { ArrayLength(h, d, leaves[..|leaves| - 1]); }
  }

  /** The first commitment past the capacity comes to stand below the first of all, with zero beside it. */
  lemma FirstPastCapacity(h: Pair, d: nat, leaves: seq<Word>)
    requires |leaves| == Pow2(d) + 1
    ensures ArrayAfter(h, d, leaves)[Pow2(d)] == h(leaves[Pow2(d)], 0)
  {
    hide ArrayAfter;
    ArrayLength(h, d, leaves);
    SlotHolds(h, d, leaves, 0);
    SlotHolds(h, d, leaves, Pow2(d));
  }

  // ---------------------------------------------------------------- the accumulator's own proofs

  /** What the array has beside the way up from an index. */
  function PathFrom(tree: seq<Word>, start: nat, n: nat): (r: seq<Word>)
    ensures |r| == n
  {
    seq(n, k requires 0 <= k < n => At(tree, Sibling(Up(start, k))))
  }

  function DirectionsFrom(start: nat, n: nat): (r: seq<bool>)
    ensures |r| == n && Spells(r, start)
  {
    seq(n, k requires 0 <= k < n => Up(start, k) % 2 == 1)
  }

  /** The proof that the array yields for the commitment with the given index. */
  function ProofFor(tree: seq<Word>, d: nat, leaf: Word, index: nat): MerkleProof {
    MerkleProof(leaf, PathFrom(tree, Pow2(d) + index, d), DirectionsFrom(Pow2(d) + index, d), At(tree, 1))
  }

  ghost predicate OwnProofVerifies(h: Pair, d: nat, leaves: seq<Word>, i: nat)
    requires i < |leaves|
  {
    Verifies(h, ProofFor(ArrayAfter(h, d, leaves), d, leaves[i], i))
  }

  /** Adding multiples of 2^d to an index changes none of the lowest `d` positions' parities. */
  lemma {:induction false} UpShift(j: nat, m: nat, d: nat, k: nat)
    requires k <= d
    ensures Up(j + m * Pow2(d), k) == Up(j, k) + m * Pow2(d - k)
  {
    if k > 0 {
      UpShift(j, m, d, k - 1);
      assert Pow2(d - k + 1) == 2 * Pow2(d - k);
      Regroup(m, 2, Pow2(d - k));
    }
  }

  lemma ShiftSpells(right: seq<bool>, j: nat, m: nat)
    ensures Spells(right, j + m * Pow2(|right|)) <==> Spells(right, j)
  {
    var z := j + m * Pow2(|right|);
    forall k | 0 <= k < |right| ensures Up(z, k) % 2 == Up(j, k) % 2 {
      SameParity(j, m, |right|, k);
    }
    hide Up, Pow2;
  }

  lemma SameParity(j: nat, m: nat, d: nat, k: nat)
    requires k < d
    ensures Up(j + m * Pow2(d), k) % 2 == Up(j, k) % 2
  {
    UpShift(j, m, d, k);
    assert Pow2(d - k) == 2 * Pow2(d - k - 1);
    hide Up, Pow2;
    EvenAdded(Up(j, k), m, Pow2(d - k - 1));
  }

  lemma EvenAdded(a: nat, m: nat, p: nat)
    ensures (a + m * (2 * p)) % 2 == a % 2
  {
    assert m * (2 * p) == 2 * (m * p);
  }

  lemma SlotUnderRoot(d: nat, i: nat, z: nat)
    requires i < Pow2(d) && z == Pow2(d) + i
    ensures Up(z, d) == 1
    ensures forall k :: 1 <= k <= d ==> Above(Up(z, k), z)
  {
    UpShift(i, 1, d, d);
    UpIsFirst(i, d);
    assert Pow2(0) == 1;
    forall k | 1 <= k <= d ensures Above(Up(z, k), z) {
      UpShift(i, 1, d, k);
      AboveUp(z, k);
    }
  }

  /** The first `n` nodes above `z` are consistent. */
  ghost predicate WayConsistent(h: Pair, tree: seq<Word>, z: nat, n: nat) {
    forall k :: 1 <= k <= n ==> Consistent(h, tree, Up(z, k))
  }

  lemma HeapFront(tree: seq<Word>, z: nat, n: nat)
    requires n > 0
    ensures PathFrom(tree, z, n)[..n - 1] == PathFrom(tree, z, n - 1)
    ensures DirectionsFrom(z, n)[..n - 1] == DirectionsFrom(z, n - 1)
    ensures PathFrom(tree, z, n)[n - 1] == At(tree, Sibling(Up(z, n - 1)))
    ensures DirectionsFrom(z, n)[n - 1] <==> Up(z, n - 1) % 2 == 1
  {
    hide At, Up;
  }

  lemma HeapStep(h: Pair, tree: seq<Word>, u: nat)
    requires Consistent(h, tree, u / 2)
    ensures At(tree, u / 2) ==
      if u % 2 == 1 then h(At(tree, Sibling(u)), At(tree, u)) else h(At(tree, u), At(tree, Sibling(u)))
  {
  }

  /** From an index up over consistent nodes, the way beside them leads to the node above. */
  lemma {:induction false} HeapUp(h: Pair, tree: seq<Word>, z: nat, n: nat)
    requires WayConsistent(h, tree, z, n)
    ensures Climb(h, At(tree, z), PathFrom(tree, z, n), DirectionsFrom(z, n)) == At(tree, Up(z, n))
  {
    if n > 0 {
      HeapUp(h, tree, z, n - 1);
      assert Consistent(h, tree, Up(z, n));
      hide *;
      HeapFront(tree, z, n);
      ClimbLast(h, At(tree, z), PathFrom(tree, z, n), DirectionsFrom(z, n));
      UpLast(z, n - 1);
      HeapStep(h, tree, Up(z, n - 1));
    }
  }

  /** With a binding hash, nothing but what stands at the index leads to the node above. */
  lemma {:induction false} HeapDown(h: Pair, tree: seq<Word>, z: nat, word: Word, path: seq<Word>, right: seq<bool>)
    requires Binding(h) && |path| == |right| && Spells(right, z)
    requires WayConsistent(h, tree, z, |path|)
    requires Climb(h, word, path, right) == At(tree, Up(z, |path|))
    ensures word == At(tree, z)
    decreases |path|
  {
    if path != [] {
      var n := |path| - 1;
      SpellsFront(right, z);
      UpLast(z, n);
      hide Spells, Up;
      assert Consistent(h, tree, Up(z, n + 1));
      HeapDown(h, tree, z, word, path[..n], right[..n]);
    }
  }

  /** Within the capacity every proof of the accumulator's own verifies, with any hash. */
  lemma OwnProofWithin(h: Pair, d: nat, leaves: seq<Word>, i: nat)
    requires i < |leaves| <= Pow2(d)
    ensures OwnProofVerifies(h, d, leaves, i)
  {
    SlotHolds(h, d, leaves, i);
    SlotLeadsToRoot(h, d, leaves, i);
  }

  lemma SlotLeadsToRoot(h: Pair, d: nat, leaves: seq<Word>, i: nat)
    requires i < |leaves| && i < Pow2(d)
    ensures var tree, z := ArrayAfter(h, d, leaves), Pow2(d) + i;
      && WayConsistent(h, tree, z, d) && Up(z, d) == 1
      && (At(tree, z) == leaves[i] ==> OwnProofVerifies(h, d, leaves, i))
  {
    hide ArrayAfter, Consistent, Above, Up;
    var tree, z := ArrayAfter(h, d, leaves), Pow2(d) + i;
    SlotUnderRoot(d, i, z);
    forall k | 1 <= k <= d ensures Consistent(h, tree, Up(z, k)) {
      AboveConsistent(h, d, leaves, i, Up(z, k));
    }
    HeapUp(h, tree, z, d);
    var proof := ProofFor(tree, d, leaves[i], i);
    assert proof.path[..d] == proof.path && proof.pathIndices[..d] == proof.pathIndices;
  }

  /**
   * What an own proof leads to: the slot among the first 2^d that its index shares the lowest bits with.
   * With a binding hash it verifies only if that slot still holds the commitment.
   */
  lemma OwnProofNeedsSlot(h: Pair, d: nat, leaves: seq<Word>, i: nat)
    requires Binding(h) && i < |leaves|
    ensures OwnProofVerifies(h, d, leaves, i) ==>
      At(ArrayAfter(h, d, leaves), Pow2(d) + i % Pow2(d)) == leaves[i]
  {
    hide ArrayAfter, Consistent, WayConsistent, Up, Binding, Spells, PathFrom, DirectionsFrom, Climb, Pow2, At;
    var tree, j := ArrayAfter(h, d, leaves), i % Pow2(d);
    var path, right := PathFrom(tree, Pow2(d) + i, d), DirectionsFrom(Pow2(d) + i, d);
    assert path[..d] == path && right[..d] == right;
    SplitIndex(i, Pow2(d));
    SlotLeadsToRoot(h, d, leaves, j);
    SpellsSlot(right, d, i);
    if Climb(h, leaves[i], path, right) == At(tree, 1) {
      HeapDown(h, tree, Pow2(d) + j, leaves[i], path, right);
    }
  }

  lemma SpellsSlot(right: seq<bool>, d: nat, i: nat)
    requires |right| == d && Spells(right, Pow2(d) + i)
    ensures Spells(right, Pow2(d) + i % Pow2(d))
  {
    hide Spells, Pow2;
    SplitIndex(i, Pow2(d));
    ShiftSpells(right, i % Pow2(d), i / Pow2(d) + 1);
    ShiftSpells(right, i % Pow2(d), 1);
  }

  lemma SplitIndex(i: nat, n: nat)
    requires n > 0
    ensures n + i == i % n + (i / n + 1) * n && i % n <= i && i % n < n
  {
    assert i == (i / n) * n + i % n;
    Distribute(i / n, 1, n);
  }

  /**
   * Exactly which of the accumulator's own proofs verify, after any number of distinct commitments: those
   * for the first 2^d, each until twice its index beyond the capacity.
   */
  lemma OwnProofVerifiesIff(h: Pair, d: nat, leaves: seq<Word>, i: nat)
    requires Binding(h) && Apart(h, leaves) && DistinctLeaves(leaves) && i < |leaves|
    ensures OwnProofVerifies(h, d, leaves, i) <==> i < Pow2(d) && |leaves| <= Pow2(d) + 2 * i
  {
    hide ArrayAfter, OwnProofVerifies, Binding;
    var tree, j := ArrayAfter(h, d, leaves), i % Pow2(d);
    SplitIndex(i, Pow2(d));
    SlotHolds(h, d, leaves, j);
    if i < Pow2(d) {
      SmallRemainder(i, Pow2(d));
      SlotLeadsToRoot(h, d, leaves, i);
    }
    OwnProofNeedsSlot(h, d, leaves, i);
    HashIsNoLeaf(h, leaves, tree, Pow2(d) + j);
  }

  lemma HashIsNoLeaf(h: Pair, leaves: seq<Word>, tree: seq<Word>, k: nat)
    requires Apart(h, leaves)
    ensures Consistent(h, tree, k) ==> At(tree, k) !in leaves
  {
  }

  lemma SmallRemainder(i: nat, n: nat)
    requires i < n
    ensures i % n == i
  {
  }

  /** All of the accumulator's own proofs verify exactly while it is within its capacity. */
  lemma AllOwnProofsVerifyIff(h: Pair, d: nat, leaves: seq<Word>)
    requires Binding(h) && Apart(h, leaves)
    ensures (forall i :: 0 <= i < |leaves| ==> OwnProofVerifies(h, d, leaves, i)) <==> |leaves| <= Pow2(d)
  {
    hide ArrayAfter, OwnProofVerifies, Binding;
    if |leaves| <= Pow2(d) {
      forall i | 0 <= i < |leaves| ensures OwnProofVerifies(h, d, leaves, i) {
        OwnProofWithin(h, d, leaves, i);
      }
    } else {
      SlotHolds(h, d, leaves, 0);
      SmallRemainder(0, Pow2(d));
      OwnProofNeedsSlot(h, d, leaves, 0);
      HashIsNoLeaf(h, leaves, ArrayAfter(h, d, leaves), Pow2(d));
    }
  }

  class CommitmentAccumulator {
    const h: Pair
    const depth: nat
    var commitments: seq<Word>
    var tree: seq<Word>

    ghost predicate Valid()
      reads this
    {
      tree == ArrayAfter(h, depth, commitments)
    }

    constructor (h: Pair, depth: nat)
      ensures Valid() && commitments == [] && this.h == h && this.depth == depth
    {
      this.h, this.depth := h, depth;
      commitments := [];
      tree := seq(2 * Pow2(depth), _ => ZERO_WORD);
    }

    function Root(): (r: Word)
      requires Valid()
      reads this
      ensures |commitments| <= Pow2(depth) ==> r == SparseNode(h, commitments, depth, 0)
    {
      RootIsNode(h, depth, commitments);
      tree[1]
    }

    /** Adds a commitment, be there room or not. */
    method Add(commitment: Word) returns (index: nat)
      requires Valid()
      modifies this
      ensures Valid() && index == |old(commitments)| && commitments == old(commitments) + [commitment]
    {
      index := |commitments|;
      commitments := commitments + [commitment];
      assert commitments[..index] == old(commitments);
      UpdateTree(index);
    }

    /** Writes a leaf and recomputes the nodes above it; past the capacity the array grows. */
    method UpdateTree(index: nat)
      requires index == |commitments| - 1 && tree == ArrayAfter(h, depth, commitments[..index])
      modifies `tree
      ensures Valid()
    {
      hide ArrayAfter, WalkUp, Hashed;
      var leafOffset := Pow2(depth);
      var treeIndex := leafOffset + index;
      ghost var before := tree;
      while |tree| <= treeIndex
        invariant |tree| >= |before| && tree == Grown(before, |tree|)
        invariant |tree| <= |before| || |tree| <= treeIndex + 1
        decreases treeIndex - |tree|
      {
        tree := tree + [ZERO_WORD];
      }
      assert tree == Grown(before, treeIndex + 1);
      tree := tree[treeIndex := commitments[index]];
      ghost var start := tree;
      var current := treeIndex;
      while current > 1
        invariant 1 <= current < |tree| && WalkUp(h, tree, current) == WalkUp(h, start, treeIndex)
        decreases current
      {
        var parent := current / 2;
        var left := current - current % 2;
        var right := left + 1;
        var leftWord := if left < |tree| then tree[left] else ZERO_WORD;
        var rightWord := if right < |tree| then tree[right] else ZERO_WORD;
        WalkOne(h, tree, current);
        assert h(leftWord, rightWord) == Hashed(h, tree, parent) by { HashedHere(h, tree, current); }
        tree := tree[parent := h(leftWord, rightWord)];
        current := parent;
      }
      WalkDone(h, tree, current);
      AfterLast(h, depth, commitments, tree);
    }

    /** The proof for a commitment: what stands beside the way up, and on which side. */
    method Proof(index: nat) returns (r: Option<MerkleProof>)
      requires Valid()
      ensures r.Some? <==> index < |commitments|
      ensures r.Some? ==> r.value == ProofFor(tree, depth, commitments[index], index)
      ensures r.Some? ==> Spells(r.value.pathIndices, index) && r.value.root == Root()
      ensures r.Some? && |commitments| <= Pow2(depth) ==> Verifies(h, r.value)
    {
      hide ArrayAfter, Spells, Climb, PathFrom, DirectionsFrom;
      if index >= |commitments| { return None; }
      var path, pathIndices := Way(Pow2(depth) + index);
      assert Spells(pathIndices, Pow2(depth) + index);
      ShiftSpells(pathIndices, index, 1);
      if |commitments| <= Pow2(depth) { OwnProofWithin(h, depth, commitments, index); }
      return Some(MerkleProof(commitments[index], path, pathIndices, Root()));
    }

    method Way(start: nat) returns (path: seq<Word>, pathIndices: seq<bool>)
      ensures path == PathFrom(tree, start, depth) && pathIndices == DirectionsFrom(start, depth)
    {
      hide PathFrom, DirectionsFrom, Up, Sibling, Spells;
      path, pathIndices := [], [];
      var current := start;
      UpOne(start);
      for i := 0 to depth
        invariant current == Up(start, i)
        invariant path == PathFrom(tree, start, i) && pathIndices == DirectionsFrom(start, i)
      {
        HeapFront(tree, start, i + 1);
        UpLast(start, i);
        SiblingHere(current);
        var sibling := if current % 2 == 0 then current + 1 else current - 1;
        path := path + [if sibling < |tree| then tree[sibling] else ZERO_WORD];
        pathIndices := pathIndices + [current % 2 == 1];
        current := current / 2;
        OneMore(path, PathFrom(tree, start, i + 1));
        OneMore(pathIndices, DirectionsFrom(start, i + 1));
      }
    }
  }

  lemma RootIsNode(h: Pair, d: nat, leaves: seq<Word>)
    ensures |leaves| <= Pow2(d) ==> At(ArrayAfter(h, d, leaves), 1) == SparseNode(h, leaves, d, 0)
  {
    if |leaves| <= Pow2(d) {
      ArrayIsExact(h, d, leaves);
      assert Pow2(0) == 1 && HoldsNode(h, leaves, d, ArrayAfter(h, d, leaves), d, 0);
    }
  }

  lemma HashedHere(h: Pair, tree: seq<Word>, current: nat)
    ensures var left := current - current % 2;
      Hashed(h, tree, current / 2) == h(At(tree, left), At(tree, left + 1))
  {
  }

  lemma WalkOne(h: Pair, tree: seq<Word>, current: nat)
    requires 1 < current < |tree|
    ensures WalkUp(h, tree, current) == WalkUp(h, tree[current / 2 := Hashed(h, tree, current / 2)], current / 2)
  {
  }

  lemma SiblingHere(j: nat)
    ensures Sibling(j) == if j % 2 == 0 then j + 1 else j - 1
  {
  }

  lemma OneMore<T>(a: seq<T>, b: seq<T>)
    requires |a| == |b| > 0 && a[..|a| - 1] == b[..|b| - 1] && a[|a| - 1] == b[|b| - 1]
    ensures a == b
  {
    assert a == a[..|a| - 1] + [a[|a| - 1]] && b == b[..|b| - 1] + [b[|b| - 1]];
  }

  lemma WalkDone(h: Pair, tree: seq<Word>, current: nat)
    requires current <= 1 && current < |tree|
    ensures WalkUp(h, tree, current) == tree
  {
  }

  lemma AfterLast(h: Pair, d: nat, leaves: seq<Word>, tree: seq<Word>)
    requires leaves != []
    requires var n := |leaves| - 1;
      var before := Grown(ArrayAfter(h, d, leaves[..n]), Pow2(d) + n + 1);
      |before| > Pow2(d) + n && tree == WalkUp(h, before[Pow2(d) + n := leaves[n]], Pow2(d) + n)
    ensures tree == ArrayAfter(h, d, leaves)
  {
  }
}
