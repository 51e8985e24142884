/** Vertices, parents and heights: the graph that the DAG stores, as values. */
module DagGraph {
  import opened Primitives

  const MAX_PARENTS := 8
  const MAX_TRANSACTIONS_PER_VERTEX := 1000

  /**
   * What a vertex carries besides: state and receipt roots, weight, signature, version and extra data. No check
   * on arrival looks at it.
   */
  type Unchecked = Bytes

  /** A vertex; its transactions are represented by their hashes. */
  datatype Vertex = Vertex(
    hash: Hash,
    parents: seq<Hash>,
    height: nat,
    timestamp: nat,
    transactions: seq<Hash>,
    txRoot: Hash,
    validator: nat,
    unchecked: Unchecked)

  type Vertices = map<Hash, Vertex>

  /** The two digests that a vertex is checked against. The height and the unchecked part are not hashed. */
  datatype Hashing = Hashing(
    vertexHash: (seq<Hash>, seq<Hash>, nat, nat) -> Hash,
    merkleRoot: seq<Hash> -> Hash)

  ghost predicate BindsContents(hashing: Hashing) {
    forall p, t, s, v, p', t', s', v' ::
      hashing.vertexHash(p, t, s, v) == hashing.vertexHash(p', t', s', v') ==> p == p' && t == t' && s == s' && v == v'
  }

  datatype DagError =
    | GenesisAlreadySet
    | NoParents
    | TooManyParents
    | TooManyTransactions
    | InvalidMerkleRoot
    | InvalidHash
    | TimestampInFuture
    | TimestampBeforeParent
    | InvalidHeight(expected: nat, got: nat)

  function VerifyStructure(hashing: Hashing, v: Vertex): Outcome<DagError> {
    if !(v.parents == [] && v.height == 0) && v.parents == [] then Err(NoParents)
    else if |v.parents| > MAX_PARENTS then Err(TooManyParents)
    else if |v.transactions| > MAX_TRANSACTIONS_PER_VERTEX then Err(TooManyTransactions)
    else if hashing.merkleRoot(v.transactions) != v.txRoot then Err(InvalidMerkleRoot)
    else if hashing.vertexHash(v.parents, v.transactions, v.timestamp, v.validator) != v.hash then Err(InvalidHash)
    else Ok
  }

  ghost predicate Verified(hashing: Hashing, v: Vertex) {
    VerifyStructure(hashing, v).Ok?
  }

  /** What a verified vertex is like, and that nothing else is verified. */
  lemma VerifiedIff(hashing: Hashing, v: Vertex)
    ensures Verified(hashing, v) <==>
      && (v.parents == [] ==> v.height == 0) && |v.parents| <= 8 && |v.transactions| <= 1000
      && v.txRoot == hashing.merkleRoot(v.transactions)
      && v.hash == hashing.vertexHash(v.parents, v.transactions, v.timestamp, v.validator)
  {
  }

  /** The hash of a verified vertex fixes all of it but the height and the unchecked part. */
  lemma HashFixesParents(hashing: Hashing, v: Vertex, w: Vertex)
    requires BindsContents(hashing) && Verified(hashing, v) && Verified(hashing, w) && v.hash == w.hash
    ensures v.parents == w.parents && v.transactions == w.transactions && v.timestamp == w.timestamp
    ensures v == w.(height := v.height, unchecked := v.unchecked)
  {
  }

  /** The parents that are not there yet, in order. */
  function Missing(vertices: Vertices, parents: seq<Hash>): (r: seq<Hash>)
    ensures forall p :: p in r <==> p in parents && p !in vertices
  {
    if parents == [] then []
    else if parents[0] in vertices then Missing(vertices, parents[1..])
    else [parents[0]] + Missing(vertices, parents[1..])
  }

  /** One more than the greatest height among the parents that are there; zero without any. */
  function NextHeight(vertices: Vertices, parents: seq<Hash>): nat {
    if parents == [] then 0
    else
      var n := NextHeight(vertices, parents[1..]);
      if parents[0] in vertices && vertices[parents[0]].height + 1 > n then vertices[parents[0]].height + 1 else n
  }

  lemma {:induction false} NextHeightAbove(vertices: Vertices, parents: seq<Hash>, p: Hash)
    requires p in parents && p in vertices
    ensures vertices[p].height < NextHeight(vertices, parents)
  {
    if p != parents[0] {
      NextHeightAbove(vertices, parents[1..], p);
    }
  }

  lemma {:induction false} NextHeightAttained(vertices: Vertices, parents: seq<Hash>) returns (p: Hash)
    requires NextHeight(vertices, parents) > 0
    ensures p in parents && p in vertices && vertices[p].height + 1 == NextHeight(vertices, parents)
  {
    p := parents[0];
    if p !in vertices || vertices[p].height + 1 != NextHeight(vertices, parents) {
      p := NextHeightAttained(vertices, parents[1..]);
    }
  }

  /** Heights below a vertex do not depend on what else is stored. */
  lemma {:induction false} NextHeightStable(small: Vertices, big: Vertices, parents: seq<Hash>)
    requires SubMap(small, big) && forall p :: p in parents ==> p in small
    ensures NextHeight(small, parents) == NextHeight(big, parents)
  {
    if parents != [] {
      assert forall p :: p in parents[1..] ==> p in parents;
      assert parents[0] in small;
      NextHeightStable(small, big, parents[1..]);
    }
  }

  /** Stored under its own hash, closed under parents, one higher than its highest parent. */
  ghost predicate Graph(vertices: Vertices) {
    && (forall h :: h in vertices ==> vertices[h].hash == h)
    && (forall h, p :: h in vertices && p in vertices[h].parents ==> p in vertices)
    && (forall h :: h in vertices ==> vertices[h].height == NextHeight(vertices, vertices[h].parents))
  }

  lemma ParentIsLower(vertices: Vertices, h: Hash, p: Hash)
    requires Graph(vertices) && h in vertices && p in vertices[h].parents
    ensures p in vertices && vertices[p].height < vertices[h].height
  {
    NextHeightAbove(vertices, vertices[h].parents, p);
  }

  lemma GraphGrows(vertices: Vertices, v: Vertex)
    requires Graph(vertices) && v.hash !in vertices
    requires forall p :: p in v.parents ==> p in vertices
    requires v.height == NextHeight(vertices, v.parents)
    ensures Graph(vertices[v.hash := v])
  {
    var vertices' := vertices[v.hash := v];
    assert SubMap(vertices, vertices');
    forall h | h in vertices' ensures vertices'[h].height == NextHeight(vertices', vertices'[h].parents) {
      NextHeightStable(vertices, vertices', vertices'[h].parents);
    }
  }

  // ---------------------------------------------------------------- ancestry

  /** `p` is a parent of `h`, and therefore lower. */
  ghost predicate Parent(vertices: Vertices, p: Hash, h: Hash)
    requires Graph(vertices)
    ensures Parent(vertices, p, h) ==> p in vertices && h in vertices && vertices[p].height < vertices[h].height
  {
    if h in vertices && p in vertices[h].parents then
      ParentIsLower(vertices, h, p);
      true
    else false
  }

  ghost function Level(vertices: Vertices, h: Hash): nat {
    if h in vertices then vertices[h].height + 1 else 0
  }

  /** `a` is `d`, or is reached from it along parents. */
  ghost predicate Ancestor(vertices: Vertices, a: Hash, d: Hash)
    requires Graph(vertices)
    decreases Level(vertices, d)
  {
    a == d || (d in vertices && exists p :: Parent(vertices, p, d) && Ancestor(vertices, a, p))
  }

  lemma {:induction false} AncestorTransitive(vertices: Vertices, a: Hash, b: Hash, c: Hash)
    requires Graph(vertices) && Ancestor(vertices, a, b) && Ancestor(vertices, b, c)
    ensures Ancestor(vertices, a, c)
    decreases Level(vertices, c)
  {
    if b != c {
      var p :| Parent(vertices, p, c) && Ancestor(vertices, b, p);
      AncestorTransitive(vertices, a, b, p);
    }
  }

  lemma SelfAncestor(vertices: Vertices, h: Hash)
    requires Graph(vertices)
    ensures Ancestor(vertices, h, h)
  {
  }

  lemma ParentIsAncestor(vertices: Vertices, p: Hash, h: Hash)
    requires Graph(vertices) && h in vertices && p in vertices[h].parents
    ensures Ancestor(vertices, p, h)
  {
    assert Parent(vertices, p, h) && Ancestor(vertices, p, p);
  }

  /** Proper ancestors are present and strictly lower, so there are no cycles. */
  lemma {:induction false} AncestorIsLower(vertices: Vertices, a: Hash, d: Hash)
    requires Graph(vertices) && Ancestor(vertices, a, d) && a != d
    ensures a in vertices && d in vertices && vertices[a].height < vertices[d].height
    decreases Level(vertices, d)
  {
    var p :| Parent(vertices, p, d) && Ancestor(vertices, a, p);
    if a != p { AncestorIsLower(vertices, a, p); }
  }

  /** A set that contains `d` and the parents of its members contains every ancestor of `d`. */
  lemma {:induction false} ClosedUnderParents(vertices: Vertices, s: set<Hash>, a: Hash, d: Hash)
    requires Graph(vertices) && Ancestor(vertices, a, d) && d in s
    requires forall h, p :: h in s && h in vertices && p in vertices[h].parents ==> p in s
    ensures a in s
    decreases Level(vertices, d)
  {
    if a != d {
      var p :| Parent(vertices, p, d) && Ancestor(vertices, a, p);
      ClosedUnderParents(vertices, s, a, p);
    }
  }

  /** A set that contains `a` and the children of its members contains every descendant of `a`. */
  lemma {:induction false} ClosedUnderChildren(vertices: Vertices, s: set<Hash>, a: Hash, d: Hash)
    requires Graph(vertices) && Ancestor(vertices, a, d) && a in s
    requires forall h, p :: h in vertices && p in vertices[h].parents && p in s ==> h in s
    ensures d in s
    decreases Level(vertices, d)
  {
    if a != d {
      var p :| Parent(vertices, p, d) && Ancestor(vertices, a, p);
      ClosedUnderChildren(vertices, s, a, p);
    }
  }

  // ---------------------------------------------------------------- distance

  /** `a` is reached from `d` by a walk of exactly `n` steps to parents. */
  ghost predicate Walk(vertices: Vertices, d: Hash, a: Hash, n: nat)
    decreases n
  {
    if n == 0 then a == d
    else exists q :: Walk(vertices, d, q, n - 1) && q in vertices && a in vertices[q].parents
  }

  /** Some walk of 1 to `max` steps leads from `d` to `a`: their distance is in that range. */
  ghost predicate Within(vertices: Vertices, d: Hash, a: Hash, max: nat) {
    exists n :: 1 <= n <= max && Walk(vertices, d, a, n)
  }

  // ---------------------------------------------------------------- tips

  ghost predicate Childless(vertices: Vertices, h: Hash) {
    h in vertices && forall c :: c in vertices ==> h !in vertices[c].parents
  }

  ghost function Higher(vertices: Vertices, h: Hash): set<Hash>
    requires h in vertices
  {
    set x | x in vertices && vertices[x].height > vertices[h].height
  }

  /** Every vertex has a childless descendant. */
  lemma {:induction false} TipAbove(vertices: Vertices, h: Hash) returns (t: Hash)
    requires Graph(vertices) && h in vertices
    ensures Childless(vertices, t) && Ancestor(vertices, h, t) && vertices[t].height >= vertices[h].height
    decreases Higher(vertices, h)
  {
    if Childless(vertices, h) {
      t := h;
    } else {
      var c :| c in vertices && h in vertices[c].parents;
      ParentIsLower(vertices, c, h);
      assert c in Higher(vertices, h) && c !in Higher(vertices, c);
      t := TipAbove(vertices, c);
      ParentIsAncestor(vertices, h, c);
      AncestorTransitive(vertices, h, c, t);
    }
  }

  /** A childless vertex is an ancestor of itself alone. */
  lemma ChildlessIsNoAncestor(vertices: Vertices, t: Hash, d: Hash)
    requires Graph(vertices) && Childless(vertices, t) && t != d
    ensures !Ancestor(vertices, t, d)
    decreases Level(vertices, d)
  {
    if d in vertices {
      forall p | Parent(vertices, p, d) ensures !Ancestor(vertices, t, p) {
        ChildlessIsNoAncestor(vertices, t, p);
      }
    }
  }
}
