/** The plain Merkle tree: every node recomputed from the leaves. The three implementations are held to it. */
module MerkleTree {
  import opened Arith

  /** A leaf or node, 32 bytes in the original. */
  type Word = nat

  const ZERO_WORD: Word := 0

  /** Hashes two children to their parent. */
  type Pair = (Word, Word) -> Word

  ghost predicate Binding(h: Pair) {
    forall a, b, c, d :: h(a, b) == h(c, d) ==> a == c && b == d
  }

  /** The leaf at an index; there are zero leaves past the end. */
  function LeafAt(leaves: seq<Word>, j: nat): Word {
    if j < |leaves| then leaves[j] else ZERO_WORD
  }

  ghost predicate DistinctLeaves(leaves: seq<Word>) {
    forall i, j :: 0 <= i < j < |leaves| ==> leaves[i] != leaves[j]
  }

  /** The node at level `i`, position `j`: the root of the subtree over leaves j*2^i to (j+1)*2^i - 1. */
  function Node(h: Pair, leaves: seq<Word>, i: nat, j: nat): Word {
    if i == 0 then LeafAt(leaves, j)
    else h(Node(h, leaves, i - 1, 2 * j), Node(h, leaves, i - 1, 2 * j + 1))
  }

  /** Each word of a row is the hash of the two words under it. */
  ghost predicate Hashes(h: Pair, below: seq<Word>, above: seq<Word>) {
    |below| == 2 * |above| && forall j :: 0 <= j < |above| ==> above[j] == h(below[2 * j], below[2 * j + 1])
  }

  /** However a tree is drawn up, row by row from the leaves and zeros behind them, it consists of the nodes. */
  lemma {:induction false} RowsAreNodes(h: Pair, leaves: seq<Word>, rows: seq<seq<Word>>, i: nat, j: nat)
    requires i < |rows| && j < |rows[i]|
    requires forall k :: 0 <= k < |rows[0]| ==> rows[0][k] == if k < |leaves| then leaves[k] else 0
    requires forall k :: 0 <= k < |rows| - 1 ==> Hashes(h, rows[k], rows[k + 1])
    ensures rows[i][j] == Node(h, leaves, i, j)
  {
    if i > 0 {
      assert Hashes(h, rows[i - 1], rows[i - 1 + 1]);
      RowsAreNodes(h, leaves, rows, i - 1, 2 * j);
      RowsAreNodes(h, leaves, rows, i - 1, 2 * j + 1);
    }
  }

  /** The root of a tree of zero leaves. */
  function Zeros(h: Pair, level: nat): Word {
    if level == 0 then ZERO_WORD else h(Zeros(h, level - 1), Zeros(h, level - 1))
  }

  /** The position at level `k` above leaf `j`: `j` halved `k` times. */
  function Up(j: nat, k: nat): nat {
    if k == 0 then j else Up(j, k - 1) / 2
  }

  lemma {:induction false} UpHalf(j: nat, k: nat)
    ensures Up(j / 2, k) == Up(j, k + 1)
  {
    if k > 0 { UpHalf(j, k - 1); }
  }

  /** A position is the first of its level exactly when the leaf is among the first 2^k. */
  lemma {:induction false} UpIsFirst(j: nat, k: nat)
    ensures Up(j, k) == 0 <==> j < Pow2(k)
    decreases k
  {
    if k > 0 {
      UpHalf(j, k - 1);
      UpIsFirst(j / 2, k - 1);
    }
  }

  /** The position above the next leaf is the same or the next one. */
  lemma {:induction false} UpNext(j: nat, k: nat)
    ensures Up(j, k) <= Up(j + 1, k) <= Up(j, k) + 1
  {
    if k > 0 { UpNext(j, k - 1); }
  }

  /** A subtree that begins past the last leaf is a tree of zeros. */
  lemma {:induction false} EmptySubtree(h: Pair, leaves: seq<Word>, i: nat, j: nat)
    requires leaves == [] || j > Up(|leaves| - 1, i)
    ensures Node(h, leaves, i, j) == Zeros(h, i)
  {
    if i > 0 {
      EmptySubtree(h, leaves, i - 1, 2 * j);
      EmptySubtree(h, leaves, i - 1, 2 * j + 1);
    }
  }

  /** Appending a leaf changes only the nodes above it. */
  lemma {:induction false} OtherSubtree(h: Pair, leaves: seq<Word>, leaf: Word, i: nat, j: nat)
    requires Up(|leaves|, i) != j
    ensures Node(h, leaves + [leaf], i, j) == Node(h, leaves, i, j)
  {
    if i > 0 {
      OtherSubtree(h, leaves, leaf, i - 1, 2 * j);
      OtherSubtree(h, leaves, leaf, i - 1, 2 * j + 1);
    }
  }

  // ---------------------------------------------------------------- paths

  /** What a path of siblings makes of a leaf; `right[k]` says that the running node is a right child. */
  function Climb(h: Pair, leaf: Word, path: seq<Word>, right: seq<bool>): Word
    requires |path| == |right|
  {
    if path == [] then leaf
    else
      var n := |path| - 1;
      var current := Climb(h, leaf, path[..n], right[..n]);
      if right[n] then h(path[n], current) else h(current, path[n])
  }

  /** The directions are the bits of `j`, lowest first. */
  ghost predicate Spells(right: seq<bool>, j: nat) {
    forall k :: 0 <= k < |right| ==> (right[k] <==> Up(j, k) % 2 == 1)
  }

  /** The index that the directions spell. */
  function IndexOf(right: seq<bool>): nat {
    if right == [] then 0 else (if right[0] then 1 else 0) + 2 * IndexOf(right[1..])
  }

  lemma {:induction false} IndexOfSpells(right: seq<bool>)
    ensures Spells(right, IndexOf(right)) && IndexOf(right) < Pow2(|right|)
  {
    if right != [] {
      IndexOfSpells(right[1..]);
      forall k | 0 <= k < |right| ensures right[k] <==> Up(IndexOf(right), k) % 2 == 1 {
        if k > 0 {
          UpHalf(IndexOf(right), k - 1);
          assert right[k] == right[1..][k - 1];
        }
      }
    }
  }

  function Sibling(j: nat): nat {
    if j % 2 == 0 then j + 1 else j - 1
  }

  /** The siblings on the way up from leaf `j`. */
  ghost predicate SiblingPath(h: Pair, leaves: seq<Word>, j: nat, path: seq<Word>) {
    forall k :: 0 <= k < |path| ==> path[k] == Node(h, leaves, k, Sibling(Up(j, k)))
  }

  /**
   * With a binding hash, a path climbs from a leaf to a node of the tree exactly when the leaf is the one
   * at the index that the directions spell, and the path consists of its siblings.
   */
  lemma {:induction false} ClimbIff(h: Pair, leaves: seq<Word>, j: nat, leaf: Word, path: seq<Word>, right: seq<bool>)
    requires Binding(h) && |path| == |right| && Spells(right, j)
    ensures Climb(h, leaf, path, right) == Node(h, leaves, |path|, Up(j, |path|)) <==>
      leaf == LeafAt(leaves, j) && SiblingPath(h, leaves, j, path)
    decreases |path|
  {
    if path != [] {
      var n := |path| - 1;
      ClimbIff(h, leaves, j, leaf, path[..n], right[..n]);
      SiblingLast(h, leaves, j, path);
      ClimbTop(h, leaves, j, n, Climb(h, leaf, path[..n], right[..n]), path[n], right[n]);
      hide SiblingPath, Node, Up;
      assert right[n] <==> Up(j, n) % 2 == 1;
    }
  }

  lemma ClimbTop(h: Pair, leaves: seq<Word>, j: nat, n: nat, current: Word, sibling: Word, bit: bool)
    requires bit <==> Up(j, n) % 2 == 1
    ensures var made := if bit then h(sibling, current) else h(current, sibling);
      var siblings := current == Node(h, leaves, n, Up(j, n)) && sibling == Node(h, leaves, n, Sibling(Up(j, n)));
      && (siblings ==> made == Node(h, leaves, n + 1, Up(j, n + 1)))
      && (Binding(h) && made == Node(h, leaves, n + 1, Up(j, n + 1)) ==> siblings)
  {
  }

  lemma SiblingLast(h: Pair, leaves: seq<Word>, j: nat, path: seq<Word>)
    requires path != []
    ensures var n := |path| - 1;
      SiblingPath(h, leaves, j, path) <==>
        SiblingPath(h, leaves, j, path[..n]) && path[n] == Node(h, leaves, n, Sibling(Up(j, n)))
  {
    hide Node;
    var n := |path| - 1;
    assert forall k :: 0 <= k < n ==> path[..n][k] == path[k];
  }

  /** Without any assumption on the hash, the path of siblings climbs to the node. */
  lemma {:induction false} SiblingsClimb(h: Pair, leaves: seq<Word>, j: nat, path: seq<Word>, right: seq<bool>)
    requires |path| == |right| && Spells(right, j) && SiblingPath(h, leaves, j, path)
    ensures Climb(h, LeafAt(leaves, j), path, right) == Node(h, leaves, |path|, Up(j, |path|))
    decreases |path|
  {
    if path != [] {
      var n := |path| - 1;
      SiblingLast(h, leaves, j, path);
      SiblingsClimb(h, leaves, j, path[..n], right[..n]);
      ClimbTop(h, leaves, j, n, Climb(h, LeafAt(leaves, j), path[..n], right[..n]), path[n], right[n]);
      hide SiblingPath, Node, Up, LeafAt;
    }
  }

  // ---------------------------------------------------------------- folding level by level

  /** The next level up; an odd node out is paired with zero. */
  function PairUp(h: Pair, level: seq<Word>): (r: seq<Word>)
    ensures |r| == (|level| + 1) / 2
  {
    seq((|level| + 1) / 2, i requires 0 <= i < (|level| + 1) / 2 =>
      h(level[2 * i], if 2 * i + 1 < |level| then level[2 * i + 1] else ZERO_WORD))
  }

  function FoldUp(h: Pair, level: seq<Word>): Word
    requires level != []
    decreases |level|
  {
    if |level| == 1 then level[0] else FoldUp(h, PairUp(h, level))
  }

  /** The leaves, followed by zeros up to the given length. */
  function Padded(leaves: seq<Word>, n: nat): (r: seq<Word>)
    ensures |r| == if |leaves| < n then n else |leaves|
  {
    leaves + seq(if |leaves| < n then n - |leaves| else 0, _ => ZERO_WORD)
  }

  /** The first `n` nodes of a level. */
  function Level(h: Pair, leaves: seq<Word>, i: nat, n: nat): (r: seq<Word>)
    ensures |r| == n
  {
    seq(n, j requires 0 <= j < n => Node(h, leaves, i, j))
  }

  lemma {:induction false} FoldLevel(h: Pair, leaves: seq<Word>, i: nat, d: nat)
    ensures Pow2(d) > 0 && FoldUp(h, Level(h, leaves, i, Pow2(d))) == Node(h, leaves, i + d, 0)
    decreases d
  {
    hide Node, PairUp, Level;
    if d == 0 {
      OneNode(h, leaves, i);
    } else {
      LevelUp(h, leaves, i, Pow2(d - 1));
      FoldLevel(h, leaves, i + 1, d - 1);
      FoldStep(h, Level(h, leaves, i, Pow2(d)));
    }
  }

  lemma OneNode(h: Pair, leaves: seq<Word>, i: nat)
    ensures FoldUp(h, Level(h, leaves, i, 1)) == Node(h, leaves, i, 0)
  {
  }

  lemma FoldStep(h: Pair, level: seq<Word>)
    requires |level| >= 2
    ensures FoldUp(h, level) == FoldUp(h, PairUp(h, level))
  {
  }

  lemma LevelUp(h: Pair, leaves: seq<Word>, i: nat, n: nat)
    ensures PairUp(h, Level(h, leaves, i, 2 * n)) == Level(h, leaves, i + 1, n)
  {
    forall j | 0 <= j < n
      ensures PairUp(h, Level(h, leaves, i, 2 * n))[j] == Level(h, leaves, i + 1, n)[j]
    {
      PairAt(h, leaves, i, n, j);
    }
  }

  lemma PairAt(h: Pair, leaves: seq<Word>, i: nat, n: nat, j: nat)
    requires j < n
    ensures PairUp(h, Level(h, leaves, i, 2 * n))[j] == Level(h, leaves, i + 1, n)[j]
  {
    var level := Level(h, leaves, i, 2 * n);
    assert PairUp(h, level)[j] == h(level[2 * j], level[2 * j + 1]);
  }

  /** Folding the padded leaves level by level gives the root of the plain tree. */
  lemma FoldUpIsRoot(h: Pair, leaves: seq<Word>, d: nat)
    requires |leaves| <= Pow2(d)
    ensures FoldUp(h, Padded(leaves, Pow2(d))) == Node(h, leaves, d, 0)
  {
    hide Node, Padded, Level, FoldUp;
    PaddedIsLevel(h, leaves, Pow2(d));
    FoldLevel(h, leaves, 0, d);
  }

  lemma PaddedIsLevel(h: Pair, leaves: seq<Word>, n: nat)
    requires |leaves| <= n
    ensures Padded(leaves, n) == Level(h, leaves, 0, n)
  {
  }

  // ---------------------------------------------------------------- what a root says about leaves

  /** The first leaf below a position. */
  function FirstLeaf(j: nat, i: nat): (r: nat)
    ensures r >= j
    decreases i
  {
    if i == 0 then j else FirstLeaf(2 * j, i - 1)
  }

  lemma {:induction false} FirstLeafBefore(j: nat, i: nat, p: nat)
    requires p <= Up(j, i)
    ensures FirstLeaf(p, i) <= j
    decreases i
  {
    if i > 0 { FirstLeafBefore(j, i - 1, 2 * p); }
  }

  /** With a binding hash, equal nodes of one level stand over equal leaves. */
  lemma {:induction false} EqualNodes(h: Pair, leaves: seq<Word>, i: nat, a: nat, b: nat)
    requires Binding(h) && Node(h, leaves, i, a) == Node(h, leaves, i, b)
    ensures LeafAt(leaves, FirstLeaf(a, i)) == LeafAt(leaves, FirstLeaf(b, i))
  {
    if i > 0 { EqualNodes(h, leaves, i - 1, 2 * a, 2 * b); }
  }
}
