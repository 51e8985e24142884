/** Whole runs: deliveries in any order, and the choice of parents for a new vertex. */
module DagRuns {
  import opened Primitives
  import opened DagGraph
  import opened DagState
  import opened Dag

  // ---------------------------------------------------------------- deliveries

  /** `all` holds vertices under their own hashes, with fitting heights, none dated before a parent. */
  ghost predicate WellMade(all: Vertices) {
    && (forall h :: h in all ==> all[h].hash == h)
    && HeightsFit(all)
    && forall h, p :: h in all && p in all[h].parents && p in all ==> all[p].timestamp <= all[h].timestamp
  }

  /** The deliveries are verified members of `all`, none of them from the future of its clock. */
  ghost predicate FromAll(hashing: Hashing, drift: nat, all: Vertices, vs: seq<Vertex>, clock: seq<nat>) {
    && |clock| == |vs|
    && forall i :: 0 <= i < |vs| ==>
         && vs[i].hash in all && all[vs[i].hash] == vs[i]
         && Verified(hashing, vs[i]) && vs[i].timestamp <= clock[i] + drift * 1000
  }

  ghost function WithAll(d: Vertices, vs: seq<Vertex>): Vertices {
    if vs == [] then d
    else
      var v := vs[|vs| - 1];
      WithAll(d, vs[..|vs| - 1])[v.hash := v]
  }

  lemma {:induction false} WithAllMembers(d: Vertices, vs: seq<Vertex>, all: Vertices, h: Hash)
    requires SubMap(d, all) && forall v :: v in vs ==> v.hash in all && all[v.hash] == v
    ensures h in WithAll(d, vs) <==> h in d || exists v :: v in vs && v.hash == h
    ensures h in WithAll(d, vs) ==> h in all && WithAll(d, vs)[h] == all[h]
  {
    if vs != [] {
      var front, last := vs[..|vs| - 1], vs[|vs| - 1];
      assert vs == front + [last];
      WithAllMembers(d, front, all, h);
    }
  }

  /** What has been delivered depends on the set of vertices, not on their order or number. */
  lemma WithAllOrder(d: Vertices, va: seq<Vertex>, vb: seq<Vertex>, all: Vertices)
    requires SubMap(d, all) && forall v :: v in va ==> v.hash in all && all[v.hash] == v
    requires forall v :: v in va <==> v in vb
    ensures WithAll(d, va) == WithAll(d, vb)
  {
    var a, b := WithAll(d, va), WithAll(d, vb);
    forall h ensures h in a <==> h in b {
      WithAllMembers(d, va, all, h);
      WithAllMembers(d, vb, all, h);
    }
    forall h | h in a ensures a[h] == b[h] {
      WithAllMembers(d, va, all, h);
      WithAllMembers(d, vb, all, h);
    }
  }

  /** One delivery out of `all`: the call returns Ok and adds exactly that vertex. */
  method DeliverOne(dag: Dag, v: Vertex, now: nat, ghost all: Vertices) returns (r: Outcome<DagError>)
    requires dag.Valid() && Settled(dag.State(), {}) && WellMade(all) && SubMap(Delivered(dag.State()), all)
    requires FromAll(dag.hashing, dag.maxTimeDrift, all, [v], [now])
    modifies dag
    ensures r.Ok? && dag.Valid() && Settled(dag.State(), {})
    ensures Delivered(dag.State()) == old(Delivered(dag.State()))[v.hash := v]
    ensures StatusKept(old(dag.State()), dag.State())
  {
    hide Inv, BindsContents, Verified, HeightsFit, StatusKept;
    ghost var s := dag.State();
    assert [v][0] == v && [now][0] == now;
    DeliverableNow(s, v, all);
    assert dag.VerifyTimestamp(v, now).Ok?;
    r := dag.AddVertex(v, now, all);
    assert r.Ok?;
    assert Delivered(dag.State()) == DeliveredWith(s, v);
    if v.hash in s.vertices {
      assert Delivered(s)[v.hash := v] == Delivered(s);
    }
  }

  lemma DeliverableNow(s: View, v: Vertex, all: Vertices)
    requires Settled(s, {}) && WellMade(all) && SubMap(Delivered(s), all) && v.hash in all && all[v.hash] == v
    ensures Consistent(s, all)
    ensures forall p :: p in v.parents && p in s.vertices ==> s.vertices[p].timestamp <= v.timestamp
    ensures v.hash in s.vertices ==> Delivered(s)[v.hash] == s.vertices[v.hash] == v
  {
    ConsistentDelivered(s, all);
    assert v.hash in s.vertices ==> Delivered(s)[v.hash] == s.vertices[v.hash];
  }

  lemma ConsistentDelivered(s: View, all: Vertices)
    requires Settled(s, {}) && HeightsFit(all) && SubMap(Delivered(s), all)
    ensures Consistent(s, all)
  {
    forall h | h in s.vertices ensures h in all && all[h] == s.vertices[h] {
      assert Delivered(s)[h] == s.vertices[h];
    }
    forall h | h in s.pending ensures h in all && all[h] == s.pending[h] {
      assert Delivered(s)[h] == s.pending[h];
    }
  }

  /** Any number of deliveries, with repeats, in the given order: every call returns Ok. */
  method Deliver(dag: Dag, vs: seq<Vertex>, clock: seq<nat>, ghost all: Vertices)
    returns (rs: seq<Outcome<DagError>>)
    requires dag.Valid() && Settled(dag.State(), {}) && WellMade(all) && SubMap(Delivered(dag.State()), all)
    requires FromAll(dag.hashing, dag.maxTimeDrift, all, vs, clock)
    modifies dag
    ensures |rs| == |vs| && forall i :: 0 <= i < |rs| ==> rs[i] == Ok
    ensures dag.Valid() && Settled(dag.State(), {})
    ensures Delivered(dag.State()) == WithAll(old(Delivered(dag.State())), vs)
    ensures StatusKept(old(dag.State()), dag.State())
  {
    hide Inv, BindsContents, Verified, WellMade, Settled, Delivered, StatusFits;
    ghost var start := dag.State();
    ghost var d := Delivered(dag.State());
    rs := [];
    for i := 0 to |vs|
      invariant |rs| == i && forall k :: 0 <= k < i ==> rs[k] == Ok
      invariant dag.Valid() && Settled(dag.State(), {})
      invariant Delivered(dag.State()) == WithAll(d, vs[..i])
      invariant SubMap(Delivered(dag.State()), all)
      invariant StatusKept(start, dag.State())
    {
      assert vs[..i + 1][..i] == vs[..i];
      var r := DeliverOne(dag, vs[i], clock[i], all);
      rs := rs + [r];
    }
    assert vs[..|vs|] == vs;
  }

  /** Two nodes that start alike and receive the same vertices, each in its own order, end alike. */
  method AnyOrderConverges(a: Dag, b: Dag, va: seq<Vertex>, vb: seq<Vertex>, ca: seq<nat>, cb: seq<nat>,
      ghost all: Vertices)
    returns (ra: seq<Outcome<DagError>>, rb: seq<Outcome<DagError>>)
    requires a != b && a.hashing == b.hashing && a.Valid() && b.Valid()
    requires Settled(a.State(), {}) && Settled(b.State(), {})
    requires Delivered(a.State()) == Delivered(b.State()) && SubMap(Delivered(a.State()), all) && WellMade(all)
    requires FromAll(a.hashing, a.maxTimeDrift, all, va, ca) && FromAll(b.hashing, b.maxTimeDrift, all, vb, cb)
    requires forall v :: v in va <==> v in vb
    modifies a, b
    ensures (forall r :: r in ra ==> r == Ok) && (forall r :: r in rb ==> r == Ok)
    ensures a.vertices == b.vertices && a.pending == b.pending && a.children == b.children
    ensures a.tips == b.tips && a.byHeight == b.byHeight && a.orphanDeps == b.orphanDeps
    ensures ClosedForward(Delivered(a.State()), a.vertices.Keys)
    ensures forall t, h :: ClosedForward(Delivered(a.State()), t) && h in a.vertices ==> h in t
    ensures old(Tidy(a.State()) && a.status == b.status) ==> a.status == b.status && Tidy(a.State())
  {
    hide BindsContents, Verified, WellMade, Settled, Delivered, ClosedForward, StatusFits, Inv;
    ghost var sa, sb := a.State(), b.State();
    Convergence(a.hashing, sa, sb);
    ghost var alike := Tidy(sa) && sa.status == sb.status;
    if alike { TidyAlike(sa, sb); }
    ghost var d := Delivered(a.State());
    assert forall v :: v in va ==> v.hash in all && all[v.hash] == v;
    ra := Deliver(a, va, ca, all);
    rb := Deliver(b, vb, cb, all);
    WithAllOrder(d, va, vb, all);
    Convergence(a.hashing, a.State(), b.State());
    if alike { FitsIsTidy(a.State(), StoredStatus(sa)); }
    StoredIsClosed(a.State());
    forall t, h | ClosedForward(Delivered(a.State()), t) && h in a.vertices ensures h in t {
      DisjointParts(a.State());
      a.GraphOf();
      StoredIsLeast(a.State(), t, h);
    }
  }

  lemma TidyAlike(s: View, t: View)
    requires Tidy(s) && s.status == t.status && s.vertices == t.vertices && s.pending == t.pending
    ensures StatusFits(t, StoredStatus(s)) && StatusFits(s, StoredStatus(s))
  {
  }

  lemma DisjointParts(s: View)
    requires Settled(s, {})
    ensures s.vertices.Keys !! s.pending.Keys
  {
  }

  // ---------------------------------------------------------------- a genesis vertex that comes late

  /**
   * A vertex arrives before its only parent, which then comes as the genesis vertex: it is never stored, as
   * nothing looks at what waited for the genesis vertex.
   */
  method LateGenesis(hashing: Hashing, drift: nat, now: nat) returns (dag: Dag, genesis: Vertex, child: Vertex)
    requires BindsContents(hashing)
    ensures fresh(dag) && genesis.parents == [] && genesis.height == 0 && child.parents == [genesis.hash]
    ensures Verified(hashing, genesis) && Verified(hashing, child)
    ensures dag.genesisHash == Some(genesis.hash) && genesis.hash in dag.vertices
    ensures child.hash in dag.pending && child.hash !in dag.vertices && !dag.Valid()
  {
    var root := hashing.merkleRoot([]);
    genesis := Vertex(hashing.vertexHash([], [], 0, 0), [], 0, 0, [], root, 0, []);
    var hash := hashing.vertexHash([genesis.hash], [], 0, 0);
    child := Vertex(hash, [genesis.hash], 1, 0, [], root, 0, []);
    dag := new Dag(hashing, drift);
    ChildThenGenesis(dag, genesis, child, now);
  }

  /** On a new DAG, a child and then its only parent as the genesis vertex: the child goes on waiting. */
  method ChildThenGenesis(dag: Dag, genesis: Vertex, child: Vertex, now: nat)
    requires dag.Valid() && Delivered(dag.State()) == map[] && dag.genesisHash == None
    requires Verified(dag.hashing, genesis) && Verified(dag.hashing, child) && child.timestamp <= now
    requires genesis.parents == [] && child.parents == [genesis.hash]
    modifies dag
    ensures dag.genesisHash == Some(genesis.hash) && genesis.hash in dag.vertices
    ensures child.hash in dag.pending && child.hash !in dag.vertices && !dag.Valid()
  {
    OwnHashes(dag.hashing, genesis, child);
    hide Inv, BindsContents, Settled, Consistent, StatusKept, StatusMoved, HeightsFit, GenesisFits, Verified,
      NextHeight;
    ghost var before := dag.State();
    NothingDelivered(before);
    WaitsForGenesis(genesis.hash);
    var added := dag.AddVertex(child, now, map[]);
    ghost var waiting := dag.State();
    assert waiting == Parked(before, child);
    ParkedListsGenesis(before, child, genesis);
    var done := dag.InitGenesis(genesis);
  }

  // ---------------------------------------------------------------- a parent that is younger than its child

  /** A child dated 0 arrives before its parent dated 10: both are accepted and stored. */
  method ChildOlderThanParent(hashing: Hashing, drift: nat, now: nat) returns (dag: Dag, parent: Vertex, child: Vertex)
    requires BindsContents(hashing) && now >= 10
    ensures fresh(dag) && dag.Valid() && Settled(dag.State(), {})
    ensures child.parents == [parent.hash] && child.timestamp == 0 && parent.timestamp == 10
    ensures parent.hash in dag.vertices && dag.vertices[parent.hash] == parent
    ensures child.hash in dag.vertices && dag.vertices[child.hash] == child && !Dated(dag.vertices)
  {
    var root := hashing.merkleRoot([]);
    parent := Vertex(hashing.vertexHash([], [], 10, 0), [], 0, 10, [], root, 0, []);
    var hash := hashing.vertexHash([parent.hash], [], 0, 0);
    child := Vertex(hash, [parent.hash], 1, 0, [], root, 0, []);
    dag := new Dag(hashing, drift);
    DeliverChildFirst(dag, parent, child, now);
  }

  /** On a new DAG, a child and then its only parent: both are stored. */
  method DeliverChildFirst(dag: Dag, parent: Vertex, child: Vertex, now: nat)
    requires dag.Valid() && Settled(dag.State(), {}) && Delivered(dag.State()) == map[]
    requires Verified(dag.hashing, parent) && Verified(dag.hashing, child)
    requires parent.parents == [] && parent.height == 0 && child.parents == [parent.hash] && child.height == 1
    requires parent.timestamp <= now && child.timestamp <= now
    modifies dag
    ensures dag.Valid() && Settled(dag.State(), {})
    ensures parent.hash in dag.vertices && dag.vertices[parent.hash] == parent
    ensures child.hash in dag.vertices && dag.vertices[child.hash] == child
  {
    ghost var all: Vertices := map[parent.hash := parent, child.hash := child];
    OwnHashes(dag.hashing, parent, child);
    TwoFit(parent, child);
    hide Inv, BindsContents, Settled, Consistent, Delivered, StatusKept, Taken, Refusal, HeightsFit, Verified,
      NextHeight;
    NothingDelivered(dag.State());
    ConsistentDelivered(dag.State(), all);
    var first := dag.AddVertex(child, now, all);
    assert Delivered(dag.State()) == map[child.hash := child];
    ConsistentDelivered(dag.State(), all);
    NotYet(dag.State(), parent, child);
    var second := dag.AddVertex(parent, now, all);
    assert Delivered(dag.State()) == map[child.hash := child][parent.hash := parent];
    ReadyIsStored(dag.State(), parent.hash);
    ReadyIsStored(dag.State(), child.hash);
  }

  lemma OwnHashes(hashing: Hashing, v: Vertex, w: Vertex)
    requires BindsContents(hashing) && Verified(hashing, v) && Verified(hashing, w) && v.parents != w.parents
    ensures v.hash != w.hash
  {
    if v.hash == w.hash { HashFixesParents(hashing, v, w); }
  }

  lemma TwoFit(parent: Vertex, child: Vertex)
    requires parent.parents == [] && parent.height == 0 && child.parents == [parent.hash] && child.height == 1
    requires parent.hash != child.hash
    ensures HeightsFit(map[parent.hash := parent, child.hash := child])
  {
    var all: Vertices := map[parent.hash := parent, child.hash := child];
    assert NextHeight(all, [parent.hash][1..]) == 0;
  }

  /** Nothing but a vertex with an absent parent has been delivered, so nothing is stored. */
  lemma NotYet(s: View, parent: Vertex, child: Vertex)
    requires Delivered(s) == map[child.hash := child] && parent.hash != child.hash && child.parents == [parent.hash]
    requires Settled(s, {})
    ensures parent.hash !in s.vertices
    ensures child.hash in s.vertices ==> s.vertices[child.hash] == child
  {
    assert s.vertices.Keys + s.pending.Keys == Delivered(s).Keys;
    if child.hash in s.vertices { assert Delivered(s)[child.hash] == s.vertices[child.hash]; }
  }

  /** A delivered vertex whose parents are stored is stored. */
  lemma ReadyIsStored(s: View, h: Hash)
    requires Settled(s, {}) && h in Delivered(s) && forall p :: p in Delivered(s)[h].parents ==> p in s.vertices
    ensures h in s.vertices && s.vertices[h] == Delivered(s)[h]
  {
    StoredIsClosed(s);
  }

  // ---------------------------------------------------------------- helpers of the two

  lemma NothingDelivered(s: View)
    requires Delivered(s) == map[]
    ensures s.vertices == map[] && s.pending == map[]
  {
    assert s.vertices.Keys + s.pending.Keys == Delivered(s).Keys;
  }

  lemma WaitsForGenesis(hash: Hash)
    ensures Missing(map[], [hash]) == [hash] && NextHeight(map[], [hash]) == 0
  {
  }

  lemma ParkedListsGenesis(s: View, child: Vertex, genesis: Vertex)
    requires child.parents == [genesis.hash] && s.vertices == map[]
    ensures !GenesisFits(Parked(s, child), genesis)
  {
    WaitsForGenesis(genesis.hash);
    EnterLists(s.orphanDeps, [genesis.hash], child.hash);
    assert genesis.hash in [genesis.hash];
  }

  // ---------------------------------------------------------------- parents of a new vertex

  datatype ParentsError =
    | NoParentsSelected
    | TooManySelected
    | DuplicateParents
    | ParentNotFound(p: Hash)
    | ParentNotConfirmed(p: Hash, status: Status)
    | ConflictingParents(p: Hash, q: Hash)

  ghost predicate Distinct(xs: seq<Hash>) {
    forall i, j :: 0 <= i < j < |xs| ==> xs[i] != xs[j]
  }

  function Elements(xs: seq<Hash>): set<Hash> {
    set x | x in xs
  }

  lemma {:induction false} DistinctIff(xs: seq<Hash>)
    ensures |Elements(xs)| <= |xs|
    ensures |Elements(xs)| == |xs| <==> Distinct(xs)
  {
    if xs != [] {
      var front, last := xs[..|xs| - 1], xs[|xs| - 1];
      DistinctIff(front);
      assert xs == front + [last];
      assert Elements(xs) == Elements(front) + {last};
      assert Distinct(xs) <==> Distinct(front) && last !in front;
    }
  }

  ghost predicate Accepted(dag: Dag, p: Hash)
    reads dag
  {
    p in dag.status && dag.status[p] in {Confirmed, Finalized}
  }

  ghost predicate Unrelated(vertices: Vertices, p: Hash, q: Hash)
    requires Graph(vertices)
  {
    !Ancestor(vertices, p, q) && !Ancestor(vertices, q, p)
  }

  /** What is wrong with a parent that is not accepted. */
  function StatusError(dag: Dag, p: Hash): ParentsError
    reads dag
  {
    if p in dag.status then ParentNotConfirmed(p, dag.status[p]) else ParentNotFound(p)
  }

  ghost predicate FirstUnaccepted(dag: Dag, parents: seq<Hash>, i: nat)
    reads dag
  {
    i < |parents| && !Accepted(dag, parents[i]) && forall k :: 0 <= k < i ==> Accepted(dag, parents[k])
  }

  /** No parent before position `i` is related to a later one, nor is that at `i` to one before position `j`. */
  ghost predicate UnrelatedBefore(vertices: Vertices, parents: seq<Hash>, i: nat, j: nat)
    requires Graph(vertices) && i < |parents| && j <= |parents|
  {
    && (forall k, l :: 0 <= k < i && k < l < |parents| ==> Unrelated(vertices, parents[k], parents[l]))
    && (forall l :: i < l < j ==> Unrelated(vertices, parents[i], parents[l]))
  }

  /** `i` and `j` are the first two positions, in the order of the search, with related parents. */
  ghost predicate FirstRelated(vertices: Vertices, parents: seq<Hash>, i: nat, j: nat)
    requires Graph(vertices)
  {
    && i < j < |parents| && !Unrelated(vertices, parents[i], parents[j])
    && UnrelatedBefore(vertices, parents, i, j)
  }

  /** A selection of parents is accepted exactly when it is 1 to 8 distinct, confirmed, unrelated vertices. */
  method ValidateParents(dag: Dag, parents: seq<Hash>) returns (r: Outcome<ParentsError>)
    requires dag.Valid()
    ensures r.Ok? <==>
      && 1 <= |parents| <= 8 && Distinct(parents) && (forall p :: p in parents ==> Accepted(dag, p))
      && forall i, j :: 0 <= i < j < |parents| ==> Unrelated(dag.vertices, parents[i], parents[j])
    ensures r == Err(NoParentsSelected) <==> parents == []
    ensures r == Err(TooManySelected) <==> |parents| > 8
    ensures r == Err(DuplicateParents) <==> 1 <= |parents| <= 8 && !Distinct(parents)
    ensures 1 <= |parents| <= 8 && Distinct(parents) ==> forall i: nat ::
      FirstUnaccepted(dag, parents, i) ==> r == Err(StatusError(dag, parents[i]))
    ensures 1 <= |parents| <= 8 && Distinct(parents) && (forall p :: p in parents ==> Accepted(dag, p)) ==>
      forall i: nat, j: nat :: FirstRelated(dag.vertices, parents, i, j) ==>
        r == Err(ConflictingParents(parents[i], parents[j]))
  {
    hide Inv, Ancestor, Graph, Unrelated, Accepted, UnrelatedBefore, FirstUnaccepted;
    dag.GraphOf();
    if |parents| == 0 { return Err(NoParentsSelected); }
    if |parents| > MAX_PARENTS { return Err(TooManySelected); }
    DistinctIff(parents);
    if |Elements(parents)| != |parents| { return Err(DuplicateParents); }
    r := CheckStatuses(dag, parents);
    if r.Ok? { r := CheckRelations(dag, parents); }
  }

  /** All parents are confirmed, or the error of the first that is not. */
  method CheckStatuses(dag: Dag, parents: seq<Hash>) returns (r: Outcome<ParentsError>)
    ensures r.Ok? <==> forall p :: p in parents ==> Accepted(dag, p)
    ensures r.Err? ==> r.error.ParentNotFound? || r.error.ParentNotConfirmed?
    ensures forall i: nat :: FirstUnaccepted(dag, parents, i) ==> r == Err(StatusError(dag, parents[i]))
  {
    for i := 0 to |parents|
      invariant forall k :: 0 <= k < i ==> Accepted(dag, parents[k])
    {
      var p := parents[i];
      assert p in parents;
      if p !in dag.status { return Err(ParentNotFound(p)); }
      if dag.status[p] == AwaitingParents { return Err(ParentNotConfirmed(p, dag.status[p])); }
    }
    return Ok;
  }

  /** No parent is an ancestor of another, or the first pair that is related. */
  method CheckRelations(dag: Dag, parents: seq<Hash>) returns (r: Outcome<ParentsError>)
    requires dag.Valid()
    ensures r.Ok? <==> forall i, j :: 0 <= i < j < |parents| ==> Unrelated(dag.vertices, parents[i], parents[j])
    ensures r.Err? ==> r.error.ConflictingParents?
    ensures forall i: nat, j: nat :: FirstRelated(dag.vertices, parents, i, j) ==>
      r == Err(ConflictingParents(parents[i], parents[j]))
  {
    hide Inv, Ancestor, Graph, BindsContents;
    dag.GraphOf();
    for i := 0 to |parents|
      invariant forall k, j :: 0 <= k < i && k < j < |parents| ==> Unrelated(dag.vertices, parents[k], parents[j])
    {
      for j := i + 1 to |parents|
        invariant forall k :: i < k < j ==> Unrelated(dag.vertices, parents[i], parents[k])
      {
        var up := dag.IsAncestor(parents[i], parents[j]);
        var down := dag.IsAncestor(parents[j], parents[i]);
        if up || down {
          forall k: nat, l: nat | FirstRelated(dag.vertices, parents, k, l) ensures k == i && l == j {
            FirstIsUnique(dag.vertices, parents, i, j, k, l);
          }
          return Err(ConflictingParents(parents[i], parents[j]));
        }
      }
    }
    return Ok;
  }

  lemma FirstIsUnique(vertices: Vertices, parents: seq<Hash>, i: nat, j: nat, k: nat, l: nat)
    requires Graph(vertices) && FirstRelated(vertices, parents, i, j) && FirstRelated(vertices, parents, k, l)
    ensures k == i && l == j
  {
    hide Unrelated, Graph;
  }

  /** Any 1 to 8 distinct tips are accepted as parents. */
  method TipsAreValidParents(dag: Dag, parents: seq<Hash>) returns (r: Outcome<ParentsError>)
    requires dag.Valid() && 1 <= |parents| <= 8 && Distinct(parents)
    requires forall p :: p in parents ==> p in dag.tips
    ensures r == Ok
  {
    forall i, j | 0 <= i < j < |parents| ensures Unrelated(dag.vertices, parents[i], parents[j]) {
      assert parents[i] in dag.tips && parents[j] in dag.tips;
      ChildlessIsNoAncestor(dag.vertices, parents[i], parents[j]);
      ChildlessIsNoAncestor(dag.vertices, parents[j], parents[i]);
    }
    r := ValidateParents(dag, parents);
  }
}
