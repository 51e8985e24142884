/**
 * The Merkle Patricia trie: a table of nodes addressed by their digests, and the account database that
 * commits into it.
 */
module Trie {
  import opened Primitives
  import opened TrieSpec

  /** A node as it is stored: its children are named by digest. */
  datatype TrieNode =
    | EmptyNode
    | LeafNode(keyEnd: Key, value: Bytes)
    | ExtensionNode(prefix: Key, child: Hash)
    | BranchNode(children: seq<Option<Hash>>, slot: Option<Bytes>)

  type Digest = TrieNode -> Hash

  ghost predicate CollisionFree(digest: Digest) {
    && (forall a, b :: digest(a) == digest(b) ==> a == b)
    && forall a :: digest(a) != ZERO_HASH
  }

  // ---------------------------------------------------------------- from trees to digests

  function ChildRef(digest: Digest, t: Tree): Option<Hash>
    decreases t, 2
  {
    if t == Empty then None else Some(Root(digest, t))
  }

  function NodeOf(digest: Digest, t: Tree): TrieNode
    decreases t, 0
  {
    match t
    case Empty => EmptyNode
    case Leaf(keyEnd, value) => LeafNode(keyEnd, value)
    case Extension(prefix, child) => ExtensionNode(prefix, Root(digest, child))
    case Branch(children, slot) =>
      BranchNode(seq(|children|, i requires 0 <= i < |children| => ChildRef(digest, children[i])), slot)
  }

  /** The digest that names a tree. */
  function Root(digest: Digest, t: Tree): Hash
    decreases t, 1
  {
    if t == Empty then ZERO_HASH else digest(NodeOf(digest, t))
  }

  lemma ChangeSlot(digest: Digest, children: seq<Tree>, i: nat, t: Tree, slot: Option<Bytes>, slot': Option<Bytes>)
    requires i < |children|
    ensures NodeOf(digest, Branch(children[i := t], slot'))
         == BranchNode(NodeOf(digest, Branch(children, slot)).children[i := ChildRef(digest, t)], slot')
  {
    assert NodeOf(digest, Branch(children[i := t], slot')).children
        == NodeOf(digest, Branch(children, slot)).children[i := ChildRef(digest, t)];
  }

  lemma ChangeValue(digest: Digest, children: seq<Tree>, slot: Option<Bytes>, slot': Option<Bytes>)
    ensures NodeOf(digest, Branch(children, slot')).children == NodeOf(digest, Branch(children, slot)).children
  {
    assert NodeOf(digest, Branch(children, slot')).children == NodeOf(digest, Branch(children, slot)).children;
  }

  lemma VacantNode(digest: Digest, slot: Option<Bytes>)
    ensures NodeOf(digest, Branch(Vacant(), slot)) == BranchNode(seq(16, _ => None), slot)
  {
    assert NodeOf(digest, Branch(Vacant(), slot)).children == seq(16, _ => None);
  }

  /** With a collision free digest, a root names one tree only. */
  lemma {:induction false} RootInjective(digest: Digest, a: Tree, b: Tree)
    requires CollisionFree(digest) && Root(digest, a) == Root(digest, b)
    ensures a == b
    decreases a
  {
    if a != Empty && b != Empty {
      assert NodeOf(digest, a) == NodeOf(digest, b);
      match a
      case Leaf(_, _) =>
      case Extension(_, child) => RootInjective(digest, child, b.child);
      case Branch(children, _) =>
        assert |children| == |b.children|;
        forall i | 0 <= i < |children| ensures children[i] == b.children[i] {
          assert NodeOf(digest, a).children[i] == ChildRef(digest, children[i]);
          assert NodeOf(digest, b).children[i] == ChildRef(digest, b.children[i]);
          RootInjective(digest, children[i], b.children[i]);
        }
    }
  }

  // ---------------------------------------------------------------- the node table

  /** Every entry stands under its own digest, and the zero digest names the empty node. */
  ghost predicate SoundTable(digest: Digest, nodes: map<Hash, TrieNode>) {
    && ZERO_HASH in nodes && nodes[ZERO_HASH] == EmptyNode
    && forall h :: h in nodes && h != ZERO_HASH ==> digest(nodes[h]) == h
  }

  /** Every node of `t` is in the table. */
  ghost predicate Stored(digest: Digest, nodes: map<Hash, TrieNode>, t: Tree) {
    t == Empty ||
    (&& Root(digest, t) in nodes && nodes[Root(digest, t)] == NodeOf(digest, t)
     && (t.Extension? ==> Stored(digest, nodes, t.child))
     && (t.Branch? ==> forall i :: 0 <= i < |t.children| ==> Stored(digest, nodes, t.children[i])))
  }

  /** What was stored stays stored when the table grows. */
  lemma {:induction false} StoredGrows(digest: Digest, nodes: map<Hash, TrieNode>, nodes': map<Hash, TrieNode>, t: Tree)
    requires SubMap(nodes, nodes') && Stored(digest, nodes, t)
    ensures Stored(digest, nodes', t)
    decreases t
  {
    if t.Extension? {
      StoredGrows(digest, nodes, nodes', t.child);
    } else if t.Branch? {
      forall i | 0 <= i < |t.children| ensures Stored(digest, nodes', t.children[i]) {
        StoredGrows(digest, nodes, nodes', t.children[i]);
      }
    }
  }

  // ---------------------------------------------------------------- keys

  /** The nibbles of a key, high half of each byte first. */
  function Nibbles(key: Bytes): (r: Key)
    ensures |r| == 2 * |key|
  {
    if key == [] then []
    else
      var last := key[|key| - 1] as int;
      Nibbles(key[..|key| - 1]) + [last / 16, last % 16]
  }

  /** The nibbles of the byte at index `i`, the high one first. */
  lemma {:induction false} NibblesAt(key: Bytes, i: nat)
    requires i < |key|
    ensures var high: int, low: int := Nibbles(key)[2 * i], Nibbles(key)[2 * i + 1];
      16 * high + low == key[i] as int && 0 <= high < 16 && 0 <= low < 16
  {
    if i < |key| - 1 { NibblesAt(key[..|key| - 1], i); }
  }

  lemma {:induction false} NibblesInjective(a: Bytes, b: Bytes)
    requires Nibbles(a) == Nibbles(b)
    ensures a == b
  {
    if a != [] {
      var n := |a| - 1;
      var m := Nibbles(a);
      assert |a| == |b|;
      assert m[..2 * n] == Nibbles(a[..n]) && m[..2 * n] == Nibbles(b[..n]);
      NibblesInjective(a[..n], b[..n]);
      assert m[2 * n] == a[n] as int / 16 == b[n] as int / 16;
      assert m[2 * n + 1] == a[n] as int % 16 == b[n] as int % 16;
      assert a == a[..n] + [a[n]] && b == b[..n] + [b[n]];
    }
  }

  // ---------------------------------------------------------------- proofs of inclusion

  /**
   * A reader of proofs: it follows `key` through a list of nodes, checking that each one has the digest
   * that its predecessor names. The outer `None` says that the list does not lead to an answer.
   */
  function Replay(digest: Digest, root: Hash, nodes: seq<TrieNode>, key: Key): Option<Option<Bytes>>
    decreases |nodes|
  {
    if nodes == [] then None
    else if nodes[0] == EmptyNode then (if root == ZERO_HASH then Some(None) else None)
    else if digest(nodes[0]) != root then None
    else
      match nodes[0]
      case EmptyNode => None
      case LeafNode(keyEnd, value) => Some(if key == keyEnd then Some(value) else None)
      case ExtensionNode(prefix, child) =>
        if prefix <= key then Replay(digest, child, nodes[1..], key[|prefix|..]) else Some(None)
      case BranchNode(children, slot) =>
        if key == [] then Some(slot)
        else if key[0] >= |children| || children[key[0]].None? then Some(None)
        else Replay(digest, children[key[0]].value, nodes[1..], key[1..])
  }

  /** Whatever list of nodes one offers, if it leads from the root of `t` to an answer, the answer is right. */
  lemma {:induction false} ReplaySound(digest: Digest, t: Tree, nodes: seq<TrieNode>, key: Key)
    requires CollisionFree(digest) && Replay(digest, Root(digest, t), nodes, key).Some?
    ensures Replay(digest, Root(digest, t), nodes, key).value == Lookup(t, key)
    decreases t
  {
    if t != Empty {
      assert nodes[0] == NodeOf(digest, t);
      if t.Extension? && t.prefix <= key {
        ReplaySound(digest, t.child, nodes[1..], key[|t.prefix|..]);
      } else if t.Branch? && key != [] && key[0] < |t.children| {
        assert NodeOf(digest, t).children[key[0]] == ChildRef(digest, t.children[key[0]]);
        if t.children[key[0]] != Empty {
          ReplaySound(digest, t.children[key[0]], nodes[1..], key[1..]);
        }
      }
    }
  }

  class MerkleTrie {
    const digest: Digest
    var root: Hash
    var nodes: map<Hash, TrieNode>

    /** The tree under the current root. */
    ghost var tree: Tree

    ghost predicate TableOk()
      reads this
    {
      CollisionFree(digest) && SoundTable(digest, nodes)
    }

    ghost predicate Valid()
      reads this
    {
      && TableOk()
      && Canonical(tree) && Shaped(tree)
      && root == Root(digest, tree)
      && Stored(digest, nodes, tree)
    }

    /** The answer that the current root gives for a key. */
    ghost function Answer(key: Bytes): Option<Bytes>
      reads this
    {
      Lookup(tree, Nibbles(key))
    }

    constructor (digest: Digest)
      requires CollisionFree(digest)
      ensures Valid() && tree == Empty && root == 0 && this.digest == digest
      ensures forall key :: Answer(key) == None
    {
      this.digest := digest;
      root := ZERO_HASH;
      nodes := map[ZERO_HASH := EmptyNode];
      tree := Empty;
    }

    static method KeyToNibbles(key: Bytes) returns (nibbles: Key)
      ensures nibbles == Nibbles(key)
    {
      nibbles := [];
      for i := 0 to |key|
        invariant nibbles == Nibbles(key[..i])
      {
        var b := key[i] as int;
        nibbles := nibbles + [b / 16] + [b % 16];
        assert key[..i + 1][..i] == key[..i];
        assert nibbles == Nibbles(key[..i]) + [b / 16, b % 16];
      }
      assert key[..|key|] == key;
    }

    /** Reads below any stored node; `t` is the tree that `hash` names. */
    function GetRecursive(hash: Hash, nibbles: Key, depth: nat, ghost t: Tree): (r: Option<Bytes>)
      requires TableOk() && depth <= |nibbles|
      requires Shaped(t) && hash == Root(digest, t) && Stored(digest, nodes, t)
      reads this
      ensures r == Lookup(t, nibbles[depth..])
      decreases t
    {
      match nodes[hash]
      case EmptyNode => None
      case LeafNode(keyEnd, value) => if nibbles[depth..] == keyEnd then Some(value) else None
      case ExtensionNode(prefix, child) =>
        if prefix <= nibbles[depth..] then
          assert nibbles[depth + |prefix|..] == nibbles[depth..][|prefix|..];
          GetRecursive(child, nibbles, depth + |prefix|, t.child)
        else None
      case BranchNode(children, slot) =>
        if depth >= |nibbles| then slot
        else
          assert nibbles[depth + 1..] == nibbles[depth..][1..];
          var i := nibbles[depth];
          assert children[i] == ChildRef(digest, t.children[i]);
          if children[i].Some? then GetRecursive(children[i].value, nibbles, depth + 1, t.children[i])
          else None
    }

    method Get(key: Bytes) returns (r: Option<Bytes>)
      requires Valid()
      ensures r == Answer(key)
    {
      var nibbles := KeyToNibbles(key);
      assert nibbles[0..] == nibbles;
      r := GetRecursive(root, nibbles, 0, tree);
    }

    /** Puts one node into the table, which only grows. */
    method Store(node: TrieNode) returns (hash: Hash)
      requires TableOk() && node != EmptyNode
      modifies `nodes
      ensures TableOk() && hash == digest(node)
      ensures SubMap(old(nodes), nodes) && hash in nodes && nodes[hash] == node
    {
      hash := digest(node);
      nodes := nodes[hash := node];
    }

    /**
     * Inserts below the node named `hash`, which stands for `t`, and returns the digest of the new tree.
     * `None` stands for the panic of a slice past the end of the key; what was stored before it stays.
     */
    method InsertRecursive(hash: Hash, nibbles: Key, depth: nat, value: Bytes, ghost t: Tree) returns (r: Option<Hash>)
      requires TableOk() && depth <= |nibbles|
      requires Shaped(t) && hash == Root(digest, t) && Stored(digest, nodes, t)
      modifies `nodes
      ensures TableOk() && SubMap(old(nodes), nodes)
      ensures Inserted(r, Put(t, nibbles[depth..], value))
      decreases t, 1
    {
      var node := if hash in nodes then nodes[hash] else EmptyNode;
      var remaining := nibbles[depth..];
      match node
      case EmptyNode =>
        var h := Store(LeafNode(remaining, value));
        r := Some(h);
      case LeafNode(keyEnd, stored) =>
        var n := CommonLen(keyEnd, remaining);
        if n == |keyEnd| && n == |remaining| {
          var h := Store(LeafNode(keyEnd, value));
          r := Some(h);
        } else {
          var branch := SplitLeaf(keyEnd, stored, remaining, value, n);
          var h := StoreBehind(remaining[..n], branch, ForkLeaf(keyEnd[n..], stored, remaining[n..], value));
          r := Some(h);
        }
      case ExtensionNode(_, _) => r := InsertAtExtension(node, nibbles, depth, value, t);
      case BranchNode(_, _) => r := InsertAtBranch(node, nibbles, depth, value, t);
    }

    method InsertAtExtension(node: TrieNode, nibbles: Key, depth: nat, value: Bytes, ghost t: Tree)
      returns (r: Option<Hash>)
      requires TableOk() && depth <= |nibbles|
      requires Shaped(t) && t.Extension? && node == NodeOf(digest, t) && Stored(digest, nodes, t)
      modifies `nodes
      ensures TableOk() && SubMap(old(nodes), nodes)
      ensures Inserted(r, Put(t, nibbles[depth..], value))
      decreases t, 0
    {
      var prefix, child := node.prefix, node.child;
      var remaining := nibbles[depth..];
      var n := CommonLen(prefix, remaining);
      if n == |prefix| {
        assert nibbles[depth + n..] == remaining[n..];
        var c := InsertRecursive(child, nibbles, depth + n, value, t.child);
        if c == None { return None; }
        ghost var before := nodes;
        var h := Store(ExtensionNode(prefix, c.value));
        StoredGrows(digest, before, nodes, Put(t.child, remaining[n..], value).value);
        r := Some(h);
      } else {
        var branch := SplitExtension(prefix, child, remaining, value, n, t.child);
        if branch == None { return None; }
        var h := StoreBehind(remaining[..n], branch.value, ForkExtension(prefix[n..], t.child, remaining[n..], value));
        r := Some(h);
      }
    }

    method InsertAtBranch(node: TrieNode, nibbles: Key, depth: nat, value: Bytes, ghost t: Tree)
      returns (r: Option<Hash>)
      requires TableOk() && depth <= |nibbles|
      requires Shaped(t) && t.Branch? && node == NodeOf(digest, t) && Stored(digest, nodes, t)
      modifies `nodes
      ensures TableOk() && SubMap(old(nodes), nodes)
      ensures Inserted(r, Put(t, nibbles[depth..], value))
      decreases t, 0
    {
      var children, slot := node.children, node.slot;
      var remaining := nibbles[depth..];
      if remaining == [] {
        ghost var t' := Branch(t.children, Some(value));
        assert NodeOf(digest, t') == BranchNode(children, Some(value));
        var h := StoreBranch(BranchNode(children, Some(value)), t');
        r := Some(h);
      } else {
        var i := remaining[0];
        assert children[i] == ChildRef(digest, t.children[i]);
        assert nibbles[depth + 1..] == remaining[1..];
        var c := InsertRecursive(if children[i].Some? then children[i].value else ZERO_HASH,
          nibbles, depth + 1, value, t.children[i]);
        if c == None { return None; }
        ghost var child := Put(t.children[i], remaining[1..], value).value;
        ghost var t' := Branch(t.children[i := child], slot);
        ChangeSlot(digest, t.children, i, child, slot, slot);
        forall j | 0 <= j < 16 ensures Stored(digest, nodes, t'.children[j]) {
          if j != i { StoredGrows(digest, old(nodes), nodes, t.children[j]); }
        }
        var h := StoreBranch(BranchNode(children[i := Some(c.value)], slot), t');
        r := Some(h);
      }
    }

    /** What an insertion returns: the name of the tree it was to build, which is now stored. */
    ghost predicate Inserted(r: Option<Hash>, t: Option<Tree>)
      reads this
    {
      && (r.Some? <==> t.Some?)
      && (t.Some? ==> t.value != Empty && r.value == Root(digest, t.value) && Stored(digest, nodes, t.value))
    }

    /** The slots of a branch under construction, and the trees that they name. */
    ghost predicate Mirrors(children: seq<Option<Hash>>, trees: seq<Tree>)
      reads this
    {
      && |trees| == 16 && NodeOf(digest, Branch(trees, None)).children == children
      && forall i :: 0 <= i < 16 ==> Stored(digest, nodes, trees[i])
    }

    /** Stores a leaf and enters it into a branch under construction. */
    method AddLeaf(children: seq<Option<Hash>>, i: Nibble, keyEnd: Key, value: Bytes, ghost trees: seq<Tree>)
      returns (children': seq<Option<Hash>>)
      requires TableOk() && Mirrors(children, trees)
      modifies `nodes
      ensures TableOk() && SubMap(old(nodes), nodes)
      ensures Mirrors(children', trees[i := Leaf(keyEnd, value)])
    {
      var h := Store(LeafNode(keyEnd, value));
      forall j | 0 <= j < 16 ensures Stored(digest, nodes, trees[j]) {
        StoredGrows(digest, old(nodes), nodes, trees[j]);
      }
      ChangeSlot(digest, trees, i, Leaf(keyEnd, value), None, None);
      children' := children[i := Some(h)];
      assert Stored(digest, nodes, Leaf(keyEnd, value));
      assert NodeOf(digest, Branch(trees[i := Leaf(keyEnd, value)], None)).children == children';
    }

    /** Turns a leaf and a new key into a branch; the new leaves are stored, the branch is not. */
    method SplitLeaf(keyEnd: Key, stored: Bytes, remaining: Key, value: Bytes, n: nat) returns (branch: TrieNode)
      requires TableOk()
      requires n == CommonLen(keyEnd, remaining) && (n < |keyEnd| || n < |remaining|)
      modifies `nodes
      ensures TableOk() && SubMap(old(nodes), nodes)
      ensures branch == NodeOf(digest, ForkLeaf(keyEnd[n..], stored, remaining[n..], value))
      ensures ChildrenStored(ForkLeaf(keyEnd[n..], stored, remaining[n..], value))
    {
      var children: seq<Option<Hash>> := seq(16, _ => None);
      ghost var trees := Vacant();
      VacantNode(digest, None);
      if n < |keyEnd| {
        children := AddLeaf(children, keyEnd[n], keyEnd[n + 1..], stored, trees);
        trees := trees[keyEnd[n] := Leaf(keyEnd[n + 1..], stored)];
        assert keyEnd[n..][1..] == keyEnd[n + 1..];
      }
      if n < |remaining| {
        children := AddLeaf(children, remaining[n], remaining[n + 1..], value, trees);
        trees := trees[remaining[n] := Leaf(remaining[n + 1..], value)];
        assert remaining[n..][1..] == remaining[n + 1..];
      }
      branch := BranchNode(children,
        if n == |remaining| then Some(value) else if n == |keyEnd| then Some(stored) else None);
      ChangeValue(digest, trees, None, branch.slot);
      assert ForkLeaf(keyEnd[n..], stored, remaining[n..], value) == Branch(trees, branch.slot);
    }

    /** Turns an extension and a new key into a branch; fails when the key ends inside the extension. */
    method SplitExtension(prefix: Key, child: Hash, remaining: Key, value: Bytes, n: nat, ghost t: Tree)
      returns (branch: Option<TrieNode>)
      requires TableOk() && n == CommonLen(prefix, remaining) && n < |prefix|
      requires t != Empty && child == Root(digest, t) && Stored(digest, nodes, t)
      modifies `nodes
      ensures TableOk() && SubMap(old(nodes), nodes)
      ensures branch.Some? <==> n < |remaining|
      ensures branch.Some? ==>
        var fork := ForkExtension(prefix[n..], t, remaining[n..], value);
        branch.value == NodeOf(digest, fork) && ChildrenStored(fork)
    {
      var children: seq<Option<Hash>> := seq(16, _ => None);
      ghost var rest := Behind(prefix[n + 1..], t);
      ghost var trees := Vacant()[prefix[n] := rest];
      VacantNode(digest, None);
      ChangeSlot(digest, Vacant(), prefix[n], rest, None, None);
      if n + 1 < |prefix| {
        var h := Store(ExtensionNode(prefix[n + 1..], child));
        StoredGrows(digest, old(nodes), nodes, t);
        assert NodeOf(digest, rest) == ExtensionNode(prefix[n + 1..], child);
        children := children[prefix[n] := Some(h)];
      } else {
        children := children[prefix[n] := Some(child)];
      }
      if n == |remaining| { return None; }
      assert children == seq(16, _ => None)[prefix[n] := ChildRef(digest, rest)];
      children := AddLeaf(children, remaining[n], remaining[n + 1..], value, trees);
      branch := Some(BranchNode(children, None));
      assert prefix[n..][1..] == prefix[n + 1..] && remaining[n..][1..] == remaining[n + 1..];
    }

    ghost predicate ChildrenStored(t: Tree)
      reads this
    {
      t.Branch? && forall i :: 0 <= i < |t.children| ==> Stored(digest, nodes, t.children[i])
    }

    method StoreBranch(branch: TrieNode, ghost t: Tree) returns (hash: Hash)
      requires TableOk() && ChildrenStored(t) && branch == NodeOf(digest, t)
      modifies `nodes
      ensures TableOk() && SubMap(old(nodes), nodes)
      ensures hash == Root(digest, t) && Stored(digest, nodes, t)
    {
      hash := Store(branch);
      forall i | 0 <= i < |t.children| ensures Stored(digest, nodes, t.children[i]) {
        StoredGrows(digest, old(nodes), nodes, t.children[i]);
      }
    }

    /** Stores a branch and, for a non-empty prefix, the extension that leads to it. */
    method StoreBehind(prefix: Key, branch: TrieNode, ghost t: Tree) returns (hash: Hash)
      requires TableOk() && ChildrenStored(t) && branch == NodeOf(digest, t)
      modifies `nodes
      ensures TableOk() && SubMap(old(nodes), nodes)
      ensures hash == Root(digest, Behind(prefix, t)) && Stored(digest, nodes, Behind(prefix, t))
    {
      hash := StoreBranch(branch, t);
      if |prefix| > 0 {
        ghost var before := nodes;
        hash := Store(ExtensionNode(prefix, hash));
        StoredGrows(digest, before, nodes, t);
      }
    }

    /**
     * Sets one key. Every other key keeps its answer, and whatever tree could be read from the table
     * before, under any earlier root, can still be read. On a panic the root does not move.
     */
    method Insert(key: Bytes, value: Bytes) returns (ok: bool)
      requires Valid()
      modifies this
      ensures Valid() && SubMap(old(nodes), nodes)
      ensures ok <==> !EndsInExtension(old(tree), Nibbles(key))
      ensures !ok ==> tree == old(tree)
      ensures ok ==> forall k :: Lookup(tree, k) == if k == Nibbles(key) then Some(value) else Lookup(old(tree), k)
      ensures forall t :: Stored(digest, old(nodes), t) ==> Stored(digest, nodes, t)
    {
      var nibbles := KeyToNibbles(key);
      assert nibbles[0..] == nibbles;
      var newRoot := InsertRecursive(root, nibbles, 0, value, tree);
      forall t | Stored(digest, old(nodes), t) ensures Stored(digest, nodes, t) {
        StoredGrows(digest, old(nodes), nodes, t);
      }
      PutFailsIff(tree, nibbles, value);
      ok := newRoot.Some?;
      if ok {
        ghost var t := Put(tree, nibbles, value).value;
        PutCanonical(tree, nibbles, value);
        CanonicalIsShaped(t);
        forall k ensures Lookup(t, k) == if k == nibbles then Some(value) else Lookup(tree, k) {
          PutLookup(tree, nibbles, value, k);
        }
        root, tree := newRoot.value, t;
      }
    }

    /** The nodes on the way to a key. */
    function ProveRecursive(hash: Hash, nibbles: Key, depth: nat, ghost t: Tree): (proof: seq<TrieNode>)
      requires TableOk() && depth <= |nibbles|
      requires Shaped(t) && hash == Root(digest, t) && Stored(digest, nodes, t)
      reads this
      ensures Replay(digest, hash, proof, nibbles[depth..]) == Some(Lookup(t, nibbles[depth..]))
      decreases t
    {
      var node := nodes[hash];
      assert t != Empty ==> node == NodeOf(digest, t);
      match node
      case EmptyNode => [node]
      case LeafNode(_, _) => [node]
      case ExtensionNode(prefix, child) =>
        if prefix <= nibbles[depth..] then
          assert nibbles[depth + |prefix|..] == nibbles[depth..][|prefix|..];
          [node] + ProveRecursive(child, nibbles, depth + |prefix|, t.child)
        else [node]
      case BranchNode(children, _) =>
        if depth < |nibbles| then
          assert nibbles[depth + 1..] == nibbles[depth..][1..];
          var i := nibbles[depth];
          assert children[i] == ChildRef(digest, t.children[i]);
          if children[i].Some? then [node] + ProveRecursive(children[i].value, nibbles, depth + 1, t.children[i])
          else [node]
        else [node]
    }

    /** A proof leads a reader to the right answer; `VerifyProof` accepts it unless the trie is empty. */
    method Prove(key: Bytes) returns (proof: MerkleProof)
      requires Valid()
      ensures proof.key == key && proof.root == root && proof.value == Answer(key)
      ensures Replay(digest, root, proof.nodes, Nibbles(key)) == Some(proof.value)
      ensures VerifyProof(digest, proof) <==> tree != Empty
    {
      var nibbles := KeyToNibbles(key);
      assert nibbles[0..] == nibbles;
      var path := ProveRecursive(root, nibbles, 0, tree);
      var value := Get(key);
      proof := MerkleProof(key, value, path, root);
    }
  }

  /** A proof as it is handed out. */
  datatype MerkleProof = MerkleProof(key: Bytes, value: Option<Bytes>, nodes: seq<TrieNode>, root: Hash)

  /** The check that the trie itself offers: it looks at the first node alone. */
  predicate VerifyProof(digest: Digest, proof: MerkleProof) {
    if proof.nodes == [] then proof.value.None? else digest(proof.nodes[0]) == proof.root
  }

  /**
   * What separates right proofs from wrong ones, for a proof under the root of a tree whose nodes lead to an
   * answer: its value is right exactly if it is that answer. The trie's own check does not look at the value;
   * it accepts all such proofs, or none if the tree is empty.
   */
  lemma ProofRightIff(digest: Digest, t: Tree, proof: MerkleProof)
    requires CollisionFree(digest) && proof.root == Root(digest, t)
    requires Replay(digest, proof.root, proof.nodes, Nibbles(proof.key)).Some?
    ensures proof.value == Lookup(t, Nibbles(proof.key)) <==>
      Replay(digest, proof.root, proof.nodes, Nibbles(proof.key)) == Some(proof.value)
    ensures VerifyProof(digest, proof) <==> t != Empty
  {
    ReplaySound(digest, t, proof.nodes, Nibbles(proof.key));
  }

  /**
   * What the check accepts under the root of a tree that is not empty: without nodes, the claim that the key is
   * absent; with nodes, whatever begins with the root node. It refuses every other proof.
   */
  lemma CheckAcceptsIff(digest: Digest, t: Tree, proof: MerkleProof)
    requires CollisionFree(digest) && t != Empty && proof.root == Root(digest, t)
    ensures VerifyProof(digest, proof) <==>
      if |proof.nodes| == 0 then proof.value == None else proof.nodes[0] == NodeOf(digest, t)
  {
  }

  /** The check accepts a wrong value for every key of every tree that is not empty. */
  lemma WrongProofAccepted(digest: Digest, t: Tree, key: Bytes) returns (proof: MerkleProof)
    requires t != Empty
    ensures VerifyProof(digest, proof) && proof.root == Root(digest, t) && proof.key == key
    ensures proof.value != Lookup(t, Nibbles(key))
  {
    var wrong := if Lookup(t, Nibbles(key)) == None then Some([]) else None;
    proof := MerkleProof(key, wrong, [NodeOf(digest, t)], Root(digest, t));
  }

  /** It accepts an empty list of nodes as proof that a key is absent, under any root. */
  lemma AbsenceAccepted(digest: Digest, root: Hash, key: Bytes) returns (proof: MerkleProof)
    ensures VerifyProof(digest, proof) && proof.root == root && proof.key == key && proof.value == None
    ensures Replay(digest, proof.root, proof.nodes, Nibbles(key)) == None
  {
    proof := MerkleProof(key, None, [], root);
  }

  /** Two keys with the common beginning 0x1234, then the key 0x12, which ends inside the extension: a panic. */
  method KeyInsideExtensionPanics(digest: Digest, value: Bytes) returns (first: bool, second: bool, third: bool)
    requires CollisionFree(digest)
    ensures first && second && !third
  {
    hide Lookup, Canonical, Shaped, Root, Stored, SoundTable, CollisionFree, Nibbles, EndsInExtension;
    var key1: Bytes, key2: Bytes, key3: Bytes := [0x12, 0x34, 0x56], [0x12, 0x34, 0x78], [0x12];
    ghost var k1, k2 := Nibbles(key1), Nibbles(key2);
    SampleNibbles(key1, key2, key3);
    var trie := new MerkleTrie(digest);
    NothingHeld();
    OneLengthFits(trie.tree, k1);
    ghost var t0 := trie.tree;
    first := trie.Insert(key1, value);
    ghost var t1 := trie.tree;
    HeldAfter(t0, t1, k1, value);
    OneLengthFits(t1, k2);
    second := trie.Insert(key2, value);
    HeldAfter(t1, trie.tree, k2, value);
    EndsInside(trie.tree, Nibbles(key3), [3, 4, 5, 6], [3, 4, 7, 8]);
    third := trie.Insert(key3, value);
  }

  lemma SampleNibbles(c: Bytes, d: Bytes, a: Bytes)
    requires c == [0x12, 0x34, 0x56] && d == [0x12, 0x34, 0x78] && a == [0x12]
    ensures Nibbles(c) == Nibbles(a) + [3, 4, 5, 6] && Nibbles(d) == Nibbles(a) + [3, 4, 7, 8]
  {
    var b: Bytes := [0x12, 0x34];
    assert b[..1] == a && c[..2] == b && d[..2] == b;
    assert Nibbles(b) == Nibbles(a) + [3, 4];
  }

  lemma NothingHeld()
    ensures forall k :: !Holds(Empty, k)
  {
  }

  lemma HeldAfter(t: Tree, t': Tree, key: Key, value: Bytes)
    requires forall k :: Lookup(t', k) == if k == key then Some(value) else Lookup(t, k)
    ensures forall k :: Holds(t', k) <==> k == key || Holds(t, k)
  {
    hide Lookup;
  }

  lemma OneLengthFits(t: Tree, key: Key)
    requires Canonical(t) && Shaped(t) && forall k :: Holds(t, k) ==> |k| == |key|
    ensures !EndsInExtension(t, key)
  {
    EqualLengthsNeverFail(t, key, []);
    PutFailsIff(t, key, []);
  }

  /** A key ends inside an extension if exactly two keys are held, which extend it by the same nibble first. */
  lemma EndsInside(t: Tree, key: Key, a: Key, b: Key)
    requires a != b && a != [] && b != [] && a[0] == b[0]
    requires forall k :: Holds(t, k) <==> k == key + a || k == key + b
    ensures EndsInExtension(t, key)
  {
    hide Lookup, Holds;
    forall k: Key | Holds(t, key + k) ensures k != [] && k[0] == a[0] {
      assert key + k == key + a || key + k == key + b;
      assert k == (key + k)[|key|..] && a == (key + a)[|key|..] && b == (key + b)[|key|..];
    }
    assert GoesOn(t, key, a[0]);
    assert a != b && Holds(t, key + a) && Holds(t, key + b);
  }

  /** Two tries with one digest function have equal roots exactly when they answer every lookup alike. */
  lemma RootsMatchContents(a: MerkleTrie, b: MerkleTrie)
    requires a.Valid() && b.Valid() && a.digest == b.digest
    ensures a.root == b.root <==> SameLookups(a.tree, b.tree)
  {
    if a.root == b.root {
      RootInjective(a.digest, a.tree, b.tree);
    }
    if SameLookups(a.tree, b.tree) {
      CanonicalUnique(a.tree, b.tree);
    }
  }
}
