/** The indexes of the DAG as one value, the invariant that ties them together, and convergence. */
module DagState {
  import opened Primitives
  import opened DagGraph

  datatype Status = AwaitingParents | Confirmed | Finalized

  /** Sets of vertices, listed under a hash or under a height; both are numbers. */
  type Index = map<nat, set<Hash>>

  datatype View = View(
    vertices: Vertices,
    status: map<Hash, Status>,
    children: Index,
    tips: set<Hash>,
    byHeight: Index,
    finalizedHeight: nat,
    genesis: Option<Hash>,
    pending: Vertices,
    orphanDeps: Index)

  /** `h` is in the set stored under `k`; a key without a set has an empty one. */
  ghost predicate Listed(index: Index, k: nat, h: Hash) {
    k in index && h in index[k]
  }

  ghost predicate NoEmptySets(index: Index) {
    forall k :: k in index ==> index[k] != {}
  }

  // ---------------------------------------------------------------- the invariant of every run

  ghost predicate ChildrenOk(vertices: Vertices, children: Index) {
    && NoEmptySets(children)
    && forall p, c :: Listed(children, p, c) <==> c in vertices && p in vertices[c].parents
  }

  ghost predicate TipsOk(vertices: Vertices, tips: set<Hash>) {
    forall h :: h in tips <==> Childless(vertices, h)
  }

  ghost predicate HeightsOk(vertices: Vertices, byHeight: Index) {
    && NoEmptySets(byHeight)
    && forall n, h :: Listed(byHeight, n, h) <==> h in vertices && vertices[h].height == n
  }

  ghost predicate StatusOk(vertices: Vertices, status: map<Hash, Status>) {
    forall h :: h in vertices ==> h in status && status[h] in {Confirmed, Finalized}
  }

  /** What is stored or waiting was checked, the genesis vertex apart. */
  ghost predicate Checked(hashing: Hashing, vertices: Vertices, pending: Vertices, genesis: Option<Hash>) {
    && (forall h :: h in vertices && Some(h) != genesis ==> Verified(hashing, vertices[h]))
    && (forall h :: h in pending ==> Verified(hashing, pending[h]) && pending[h].hash == h && Some(h) != genesis)
    && (genesis.Some? ==> genesis.value in vertices)
  }

  /** Dependencies are recorded only for absent parents, and only of vertices that wait for them. */
  ghost predicate DepsOk(present: set<Hash>, pending: Vertices, orphanDeps: Index) {
    && NoEmptySets(orphanDeps)
    && (forall x :: x in orphanDeps ==> x !in present)
    && (forall x, h :: Listed(orphanDeps, x, h) ==> h in pending && x in pending[h].parents)
  }

  /** The part of the invariant about what is stored. */
  ghost predicate StoreOk(hashing: Hashing, s: View) {
    && Graph(s.vertices)
    && ChildrenOk(s.vertices, s.children)
    && TipsOk(s.vertices, s.tips)
    && HeightsOk(s.vertices, s.byHeight)
    && StatusOk(s.vertices, s.status)
    && Checked(hashing, s.vertices, s.pending, s.genesis)
  }

  /** The invariant of every run, failed calls included. */
  ghost predicate Inv(hashing: Hashing, s: View) {
    StoreOk(hashing, s) && DepsOk(s.vertices.Keys, s.pending, s.orphanDeps)
  }

  ghost predicate Limited(v: Vertex) {
    |v.parents| <= 8 && |v.transactions| <= 1000 && (v.parents == [] ==> v.height == 0)
  }

  /** Whatever is stored or waits, the genesis vertex apart, has at most 8 parents and 1000 transactions. */
  lemma AllLimited(hashing: Hashing, s: View)
    requires Inv(hashing, s)
    ensures forall h :: h in s.vertices && Some(h) != s.genesis ==>
      |s.vertices[h].parents| <= 8 && |s.vertices[h].transactions| <= 1000
    ensures forall h :: h in s.vertices && Some(h) != s.genesis && s.vertices[h].parents == [] ==>
      s.vertices[h].height == 0
    ensures forall h :: h in s.pending ==> |s.pending[h].parents| <= 8 && |s.pending[h].transactions| <= 1000
  {
    hide Graph, ChildrenOk, TipsOk, HeightsOk, StatusOk, DepsOk, Verified;
    forall h | h in s.vertices && Some(h) != s.genesis ensures Limited(s.vertices[h]) {
      VerifiedIff(hashing, s.vertices[h]);
    }
    forall h | h in s.pending ensures Limited(s.pending[h]) {
      VerifiedIff(hashing, s.pending[h]);
    }
  }

  // ---------------------------------------------------------------- the invariant of runs without failed calls

  ghost predicate Blocked(vertices: Vertices, v: Vertex) {
    exists p :: p in v.parents && p !in vertices
  }

  /**
   * Nothing is both stored and waiting; what waits has an absent parent, those in `excused` aside; and it
   * is listed under every absent parent.
   */
  ghost predicate Settled(s: View, excused: set<Hash>) {
    && s.vertices.Keys !! s.pending.Keys
    && (forall h :: h in s.pending && h !in excused ==> Blocked(s.vertices, s.pending[h]))
    && (forall h, p :: h in s.pending && p in s.pending[h].parents && p !in s.vertices ==> Listed(s.orphanDeps, p, h))
  }

  // ---------------------------------------------------------------- storing one vertex

  /** `index` with `h` entered under every one of `keys`. */
  function Enter(index: Index, keys: seq<nat>, h: Hash): Index {
    if keys == [] then index
    else
      var front := Enter(index, keys[..|keys| - 1], h);
      var last := keys[|keys| - 1];
      front[last := (if last in front then front[last] else {}) + {h}]
  }

  lemma {:induction false} EnterLists(index: Index, keys: seq<nat>, h: Hash)
    ensures var r := Enter(index, keys, h);
      && (forall k, x :: Listed(r, k, x) <==> Listed(index, k, x) || (k in keys && x == h))
      && (NoEmptySets(index) ==> NoEmptySets(r))
      && (forall k :: k in r <==> k in index || k in keys)
  {
    if keys != [] {
      EnterLists(index, keys[..|keys| - 1], h);
      var front, last := Enter(index, keys[..|keys| - 1], h), keys[|keys| - 1];
      assert keys == keys[..|keys| - 1] + [last];
      assert forall k, x :: Listed(Enter(index, keys, h), k, x) <==> Listed(front, k, x) || (k == last && x == h);
    }
  }

  lemma EnterOne(index: Index, k: nat, h: Hash)
    ensures Enter(index, [k], h) == index[k := (if k in index then index[k] else {}) + {h}]
  {
    assert [k][..0] == [];
  }

  /** The state after the body of `insert_vertex` and before the orphans are looked at. */
  function Stored(s: View, v: Vertex): View {
    s.(vertices := s.vertices[v.hash := v],
       status := s.status[v.hash := Confirmed],
       children := Enter(s.children, v.parents, v.hash),
       tips := (s.tips - (set p | p in v.parents)) + {v.hash},
       byHeight := Enter(s.byHeight, [v.height], v.hash))
  }

  /** The state after `init_genesis`. */
  function WithGenesis(s: View, g: Vertex): View {
    s.(vertices := s.vertices[g.hash := g],
       status := s.status[g.hash := Finalized],
       tips := s.tips + {g.hash},
       byHeight := Enter(s.byHeight, [0], g.hash),
       genesis := Some(g.hash))
  }

  ghost predicate Insertable(hashing: Hashing, s: View, v: Vertex) {
    && Verified(hashing, v) && v.hash !in s.vertices
    && (forall p :: p in v.parents ==> p in s.vertices)
    && v.height == NextHeight(s.vertices, v.parents)
  }

  lemma StoredChildren(s: View, v: Vertex)
    requires ChildrenOk(s.vertices, s.children) && v.hash !in s.vertices
    ensures ChildrenOk(Stored(s, v).vertices, Stored(s, v).children)
  {
    EnterLists(s.children, v.parents, v.hash);
  }

  lemma StoredTips(s: View, v: Vertex)
    requires Graph(s.vertices) && TipsOk(s.vertices, s.tips) && v.hash !in s.vertices
    requires forall p :: p in v.parents ==> p in s.vertices
    ensures TipsOk(Stored(s, v).vertices, Stored(s, v).tips)
  {
    var s' := Stored(s, v);
    forall h ensures h in s'.tips <==> Childless(s'.vertices, h) {
      if h == v.hash {
        assert forall c :: c in s'.vertices ==> h !in s'.vertices[c].parents;
      } else if h in v.parents {
        assert v.hash in s'.vertices && h in s'.vertices[v.hash].parents;
      } else {
        assert forall c :: c in s.vertices ==> c in s'.vertices && s'.vertices[c] == s.vertices[c];
        assert forall c :: c in s'.vertices && c != v.hash ==> c in s.vertices;
      }
    }
  }

  lemma StoredRest(hashing: Hashing, s: View, v: Vertex)
    requires StoreOk(hashing, s) && Verified(hashing, v) && v.hash !in s.vertices
    ensures HeightsOk(Stored(s, v).vertices, Stored(s, v).byHeight)
    ensures StatusOk(Stored(s, v).vertices, Stored(s, v).status)
    ensures Checked(hashing, Stored(s, v).vertices, s.pending, s.genesis)
  {
    hide Graph, ChildrenOk, TipsOk, Verified;
    EnterLists(s.byHeight, [v.height], v.hash);
  }

  /** Storing a vertex whose parents are there keeps the invariant of what is stored. */
  lemma StoredKeepsStore(hashing: Hashing, s: View, v: Vertex)
    requires Inv(hashing, s) && Insertable(hashing, s, v)
    ensures StoreOk(hashing, Stored(s, v))
    ensures DepsOk(Stored(s, v).vertices.Keys - {v.hash}, s.pending, s.orphanDeps)
  {
    hide Graph, ChildrenOk, TipsOk, HeightsOk, StatusOk, Checked, DepsOk, Verified;
    GraphGrows(s.vertices, v);
    StoredChildren(s, v);
    StoredTips(s, v);
    StoredRest(hashing, s, v);
    assert Stored(s, v).vertices.Keys - {v.hash} == s.vertices.Keys;
  }

  /** A vertex that waits for `v` alone is excused until the orphans of `v` have been looked at. */
  lemma StoredSettled(hashing: Hashing, s: View, v: Vertex, excused: set<Hash>, waiting: set<Hash>)
    requires Inv(hashing, s) && Settled(s, excused) && Insertable(hashing, s, v) && v.hash !in s.pending
    requires waiting == DepsOf(s.orphanDeps, v.hash)
    ensures Settled(Stored(s, v), excused + waiting)
  {
    var s' := Stored(s, v);
    forall h | h in s'.pending && h !in excused + waiting ensures Blocked(s'.vertices, s'.pending[h]) {
      assert Blocked(s.vertices, s.pending[h]);
      var p :| p in s.pending[h].parents && p !in s.vertices;
      assert Listed(s.orphanDeps, p, h);
    }
  }

  /** Whoever waits for an absent vertex is absent as well, and remains so when that vertex is stored. */
  lemma WaitingIsAbsent(hashing: Hashing, s: View, v: Vertex, h: Hash)
    requires BindsContents(hashing) && Inv(hashing, s) && Insertable(hashing, s, v) && Listed(s.orphanDeps, v.hash, h)
    ensures h !in Stored(s, v).vertices
  {
    if h in s.vertices {
      HashFixesParents(hashing, s.vertices[h], s.pending[h]);
    } else if h == v.hash {
      HashFixesParents(hashing, v, s.pending[h]);
    }
  }

  ghost function DepsOf(index: Index, k: nat): set<Hash> {
    if k in index then index[k] else {}
  }

  lemma Unexcuse(s: View, excused: set<Hash>, h: Hash)
    requires Settled(s, excused + {h}) && h !in s.pending
    ensures Settled(s, excused)
  {
  }

  // ---------------------------------------------------------------- what one call may change

  /** Stored vertices stay; only `added` ones and ones that waited join them, and these wait no longer. */
  ghost predicate Progress(s: View, s': View, added: set<Hash>) {
    && SubMap(s.vertices, s'.vertices)
    && SubMap(s'.pending, s.pending)
    && (forall h :: h in s'.vertices && h !in s.vertices && h !in added
          ==> h in s.pending && s'.vertices[h] == s.pending[h] && h !in s'.pending)
    && (forall h :: h in s'.status <==> h in s.status || (h in s'.vertices && h !in s.vertices))
    && (forall h :: h in s'.vertices && h !in s.vertices ==> s'.status[h] == Confirmed)
    && (forall h :: h in s.status && !(h in s'.vertices && h !in s.vertices) ==> s'.status[h] == s.status[h])
    && s'.genesis == s.genesis && s'.finalizedHeight == s.finalizedHeight
  }

  /** Whatever waited is stored or still waits. */
  ghost predicate NothingLost(s: View, s': View) {
    forall h :: h in s.pending ==> h in s'.pending || h in s'.vertices
  }

  lemma ProgressTransitive(s: View, s': View, s'': View, added: set<Hash>)
    requires Progress(s, s', added) && Progress(s', s'', {})
    ensures Progress(s, s'', added)
  {
  }

  /** What storing `v` alone changes. */
  lemma StoredProgress(s: View, v: Vertex, all: Vertices)
    requires v.hash !in s.vertices
    ensures Progress(s, Stored(s, v), {v.hash})
    ensures Consistent(s, all) && v.hash in all && all[v.hash] == v ==> Consistent(Stored(s, v), all)
  {
  }

  /** Vertices that wait and are not stored do not become stored while they wait. */
  lemma StillAbsent(s: View, s': View, hashes: set<Hash>)
    requires Progress(s, s', {})
    requires forall h :: h in hashes && h in s.pending ==> h !in s.vertices
    ensures forall h :: h in hashes && h in s'.pending ==> h !in s'.vertices
  {
  }

  lemma PendingShrinks(s: View, s': View)
    requires Progress(s, s', {})
    ensures s'.pending.Keys <= s.pending.Keys
  {
  }

  /** A change of `orphanDeps` alone changes nothing of this. */
  lemma OnlyDeps(s: View, s': View, added: set<Hash>, all: Vertices)
    requires s' == s.(orphanDeps := s'.orphanDeps)
    ensures Progress(s, s', added) && NothingLost(s, s')
    ensures Consistent(s, all) <==> Consistent(s', all)
  {
  }

  /** A waiting vertex that leaves the waiting room has moved on once it is stored. */
  lemma MovedOn(s: View, s': View, h: Hash, all: Vertices)
    requires h in s.pending && h !in s.vertices && s.pending[h].hash == h
    requires Progress(s.(pending := s.pending - {h}), s', {h})
    requires h in s'.vertices ==> s'.vertices[h] == s.pending[h]
    ensures Progress(s, s', {})
    ensures NothingLost(s.(pending := s.pending - {h}), s') && h in s'.vertices ==> NothingLost(s, s')
    ensures Consistent(s, all) ==> Consistent(s.(pending := s.pending - {h}), all) && Consistent(s', all)
    ensures Consistent(s, all) ==> h in all && all[h] == s.pending[h]
  {
    hide HeightsFit;
  }

  lemma NothingLostTransitive(s: View, s': View, s'': View)
    requires NothingLost(s, s') && NothingLost(s', s'') && Progress(s', s'', {})
    ensures NothingLost(s, s'')
  {
  }

  /** What is stored or waits comes from `all`, in which heights fit. */
  ghost predicate Consistent(s: View, all: Vertices) {
    SubMap(s.vertices, all) && SubMap(s.pending, all) && HeightsFit(all)
  }

  /** A delivered vertex whose parents are stored has the height that its insertion expects. */
  lemma HeightAgrees(s: View, all: Vertices, v: Vertex)
    requires forall p :: p in v.parents ==> p in s.vertices
    ensures Consistent(s, all) && v.hash in all && all[v.hash] == v ==> v.height == NextHeight(s.vertices, v.parents)
  {
    if Consistent(s, all) && v.hash in all && all[v.hash] == v {
      NextHeightStable(s.vertices, all, v.parents);
    }
  }

  /** A waiting vertex without absent parents can leave the waiting room. */
  lemma TakeOut(hashing: Hashing, s: View, h: Hash, excused: set<Hash>)
    requires Inv(hashing, s) && h in s.pending && Missing(s.vertices, s.pending[h].parents) == []
    ensures Inv(hashing, s.(pending := s.pending - {h}))
    ensures Verified(hashing, s.pending[h]) && s.pending[h].hash == h
    ensures forall p :: p in s.pending[h].parents ==> p in s.vertices
    ensures Settled(s, excused + {h}) ==> Settled(s.(pending := s.pending - {h}), excused)
  {
    var s' := s.(pending := s.pending - {h});
    var m := Missing(s.vertices, s.pending[h].parents);
    assert forall p :: p in m <==> p in s.pending[h].parents && p !in s.vertices;
    assert forall x :: !Listed(s.orphanDeps, x, h);
    if Settled(s, excused + {h}) {
      forall k | k in s'.pending && k !in excused ensures Blocked(s'.vertices, s'.pending[k]) {
        assert Blocked(s.vertices, s.pending[k]);
      }
    }
  }

  /** A waiting vertex with absent parents is listed under them again. */
  lemma ListAgain(hashing: Hashing, s: View, h: Hash, missing: seq<Hash>, excused: set<Hash>)
    requires Inv(hashing, s) && h in s.pending && missing == Missing(s.vertices, s.pending[h].parents) && missing != []
    ensures s.pending[h].hash == h
    ensures Inv(hashing, s.(orphanDeps := Enter(s.orphanDeps, missing, h)))
    ensures Settled(s, excused + {h}) ==> Settled(s.(orphanDeps := Enter(s.orphanDeps, missing, h)), excused)
  {
    EnterLists(s.orphanDeps, missing, h);
    assert missing[0] in missing;
    assert Blocked(s.vertices, s.pending[h]);
  }

  /** Once a vertex is stored, nothing needs to be listed under it. */
  lemma Unlist(hashing: Hashing, s: View, x: Hash, excused: set<Hash>)
    requires StoreOk(hashing, s) && x in s.vertices && DepsOk(s.vertices.Keys - {x}, s.pending, s.orphanDeps)
    ensures Inv(hashing, s.(orphanDeps := s.orphanDeps - {x}))
    ensures Settled(s, excused) ==> Settled(s.(orphanDeps := s.orphanDeps - {x}), excused)
  {
    hide Graph, ChildrenOk, TipsOk, HeightsOk, StatusOk, Checked;
    var deps := s.orphanDeps - {x};
    assert forall k, h :: Listed(deps, k, h) <==> k != x && Listed(s.orphanDeps, k, h);
  }

  /** Everything that storing a vertex establishes before the orphans are looked at. */
  lemma StoreStep(hashing: Hashing, s: View, v: Vertex, excused: set<Hash>, all: Vertices)
    requires BindsContents(hashing) && Inv(hashing, s) && Insertable(hashing, s, v)
    ensures StoreOk(hashing, Stored(s, v)) && DepsOk(Stored(s, v).vertices.Keys - {v.hash}, s.pending, s.orphanDeps)
    ensures forall h :: Listed(s.orphanDeps, v.hash, h) ==> h !in Stored(s, v).vertices
    ensures Settled(s, excused) && v.hash !in s.pending ==>
      Settled(Stored(s, v), excused + DepsOf(s.orphanDeps, v.hash))
    ensures Consistent(s, all) && v.hash in all && all[v.hash] == v ==> Consistent(Stored(s, v), all)
  {
    hide StoreOk, DepsOk, Settled, Consistent, Verified, Stored;
    StoredKeepsStore(hashing, s, v);
    StoredProgress(s, v, all);
    if Settled(s, excused) && v.hash !in s.pending {
      StoredSettled(hashing, s, v, excused, DepsOf(s.orphanDeps, v.hash));
    }
    forall h | Listed(s.orphanDeps, v.hash, h) ensures h !in Stored(s, v).vertices {
      WaitingIsAbsent(hashing, s, v, h);
    }
  }

  /** Storing a vertex and then looking at the orphans, taken together. */
  lemma StoreThenOrphans(s: View, v: Vertex, s': View)
    requires v.hash !in s.vertices && Progress(Stored(s, v), s', {})
    ensures Progress(s, s', {v.hash}) && v.hash in s'.vertices && s'.vertices[v.hash] == v
    ensures NothingLost(Stored(s, v), s') ==> NothingLost(s, s')
  {
    StoredProgress(s, v, map[]);
    ProgressTransitive(s, Stored(s, v), s', {v.hash});
  }

  // ---------------------------------------------------------------- keeping a vertex that waits

  /** The state after a vertex with absent parents has been put aside. */
  function Parked(s: View, v: Vertex): View {
    s.(orphanDeps := Enter(s.orphanDeps, Missing(s.vertices, v.parents), v.hash),
       pending := s.pending[v.hash := v],
       status := s.status[v.hash := AwaitingParents])
  }

  lemma ParkedOk(hashing: Hashing, s: View, v: Vertex)
    requires BindsContents(hashing) && Inv(hashing, s) && Verified(hashing, v) && v.hash !in s.vertices
    ensures Inv(hashing, Parked(s, v))
  {
    hide Graph, ChildrenOk, TipsOk, HeightsOk, DepsOk, Verified, Missing, Enter, BindsContents;
    ParkedDeps(hashing, s, v);
  }

  lemma ParkedDeps(hashing: Hashing, s: View, v: Vertex)
    requires BindsContents(hashing) && Verified(hashing, v) && Checked(hashing, s.vertices, s.pending, s.genesis)
    requires DepsOk(s.vertices.Keys, s.pending, s.orphanDeps)
    ensures DepsOk(s.vertices.Keys, Parked(s, v).pending, Parked(s, v).orphanDeps)
  {
    EnterLists(s.orphanDeps, Missing(s.vertices, v.parents), v.hash);
    if v.hash in s.pending {
      HashFixesParents(hashing, v, s.pending[v.hash]);
    }
  }

  lemma ParkedSettled(hashing: Hashing, s: View, v: Vertex)
    requires Settled(s, {}) && v.hash !in s.vertices && Missing(s.vertices, v.parents) != []
    ensures Settled(Parked(s, v), {}) && Delivered(Parked(s, v)) == Delivered(s)[v.hash := v]
  {
    hide Delivered;
    ParkedBlocked(s, v);
    ParkedListed(s, v);
    assert Delivered(Parked(s, v)) == Delivered(s)[v.hash := v] by { ParkedDelivered(s, v); }
  }

  lemma ParkedDelivered(s: View, v: Vertex)
    requires v.hash !in s.vertices
    ensures Delivered(Parked(s, v)) == Delivered(s)[v.hash := v]
  {
  }

  lemma ParkedBlocked(s: View, v: Vertex)
    requires Settled(s, {}) && Missing(s.vertices, v.parents) != []
    ensures forall h :: h in Parked(s, v).pending ==> Blocked(s.vertices, Parked(s, v).pending[h])
  {
    var missing := Missing(s.vertices, v.parents);
    assert missing[0] in missing;
    hide Missing;
    forall h | h in Parked(s, v).pending ensures Blocked(s.vertices, Parked(s, v).pending[h]) {
      if h != v.hash { assert Blocked(s.vertices, s.pending[h]); }
    }
  }

  lemma ParkedListed(s: View, v: Vertex)
    requires Settled(s, {})
    ensures forall h, p :: h in Parked(s, v).pending && p in Parked(s, v).pending[h].parents && p !in s.vertices ==>
      Listed(Parked(s, v).orphanDeps, p, h)
  {
    var missing := Missing(s.vertices, v.parents);
    EnterLists(s.orphanDeps, missing, v.hash);
    hide Missing, Enter, Blocked;
    forall h, p | h in Parked(s, v).pending && p in Parked(s, v).pending[h].parents && p !in s.vertices
      ensures Listed(Parked(s, v).orphanDeps, p, h)
    {
      if h == v.hash { assert p in missing; }
    }
  }

  /** In a settled state, a vertex whose parents are all stored is not waiting. */
  lemma ReadyIsNotPending(hashing: Hashing, s: View, v: Vertex)
    requires BindsContents(hashing) && Inv(hashing, s) && Settled(s, {}) && Verified(hashing, v)
    requires forall p :: p in v.parents ==> p in s.vertices
    ensures v.hash !in s.pending
  {
    if v.hash in s.pending {
      HashFixesParents(hashing, v, s.pending[v.hash]);
    }
  }

  /** An insertion and what it sets off add exactly the inserted vertex to what has been delivered. */
  lemma DeliveredAfterInsertion(s: View, s': View, v: Vertex)
    requires v.hash !in s.vertices && v.hash !in s.pending && Progress(s, s', {v.hash}) && NothingLost(s, s')
    requires Settled(s, {}) && Settled(s', {}) && v.hash in s'.vertices && s'.vertices[v.hash] == v
    ensures Delivered(s') == Delivered(s)[v.hash := v]
  {
    hide Blocked, Listed;
    var d, d' := Delivered(s)[v.hash := v], Delivered(s');
    assert forall h :: h in d <==> h in d';
    forall h | h in d ensures d[h] == d'[h] {
    }
  }

  // ---------------------------------------------------------------- one arrival

  /** Why a vertex is refused outright, if it is; `dated` is the outcome of the check of its timestamp. */
  function Refusal(hashing: Hashing, s: View, v: Vertex, dated: Outcome<DagError>): Outcome<DagError> {
    if v.hash in s.vertices then Ok
    else if VerifyStructure(hashing, v).Err? then VerifyStructure(hashing, v)
    else if dated.Err? then dated
    else if Missing(s.vertices, v.parents) == [] && v.height != NextHeight(s.vertices, v.parents) then
      Err(InvalidHeight(NextHeight(s.vertices, v.parents), v.height))
    else Ok
  }

  /** A vertex that is not refused is known, put aside, or stored together with what waited for it. */
  ghost predicate Taken(s: View, s': View, v: Vertex) {
    if v.hash in s.vertices then s' == s
    else if Missing(s.vertices, v.parents) != [] then s' == Parked(s, v)
    else Progress(s, s', {v.hash}) && v.hash in s'.vertices && s'.vertices[v.hash] == v
  }

  ghost function DeliveredWith(s: View, v: Vertex): Vertices {
    if v.hash in s.vertices then Delivered(s) else Delivered(s)[v.hash := v]
  }

  /** Marking vertices as finalized keeps the invariant. */
  lemma StatusChange(hashing: Hashing, s: View, s': View)
    requires Inv(hashing, s) && s' == s.(status := s'.status, finalizedHeight := s'.finalizedHeight)
    requires forall h :: h in s.status ==> h in s'.status && s'.status[h] in {s.status[h], Finalized}
    ensures Inv(hashing, s')
  {
    hide Graph, ChildrenOk, TipsOk, HeightsOk, Checked, DepsOk;
  }

  // ---------------------------------------------------------------- the status index

  /**
   * The statuses after calls without failures: what waits is marked as waiting, and what is stored is
   * confirmed, but for the vertices in `kept`.
   */
  ghost predicate StatusFits(s: View, kept: map<Hash, Status>) {
    && kept.Keys <= s.vertices.Keys
    && s.status.Keys == s.vertices.Keys + s.pending.Keys
    && (forall h :: h in s.pending ==> s.status[h] == AwaitingParents)
    && (forall h :: h in s.vertices ==> s.status[h] == if h in kept then kept[h] else Confirmed)
  }

  /** The statuses of the stored vertices. */
  ghost function StoredStatus(s: View): map<Hash, Status> {
    map h | h in s.vertices && h in s.status :: s.status[h]
  }

  /** Every vertex has a status, nothing else has one, and what waits is marked as waiting. */
  ghost predicate Tidy(s: View) {
    StatusFits(s, StoredStatus(s))
  }

  lemma FitsIsTidy(s: View, kept: map<Hash, Status>)
    requires StatusFits(s, kept)
    ensures Tidy(s)
  {
  }

  /** Whatever vertices were kept before, they are still kept after, and no others. */
  ghost predicate StatusKept(s: View, s': View) {
    forall kept :: StatusFits(s, kept) ==> StatusFits(s', kept)
  }

  /** Whatever vertices were kept before, they still are but for those marked, which are kept as well. */
  ghost predicate StatusMoved(s: View, s': View, marks: map<Hash, Status>) {
    forall kept :: StatusFits(s, kept) ==> StatusFits(s', kept + marks)
  }

  lemma NothingMoved(s: View)
    ensures StatusKept(s, s)
  {
  }

  /** Nothing is missing exactly if every parent is there. */
  lemma MissingNone(vertices: Vertices, parents: seq<Hash>)
    ensures Missing(vertices, parents) == [] <==> forall p :: p in parents ==> p in vertices
  {
    if Missing(vertices, parents) != [] { FirstIsMember(Missing(vertices, parents)); }
  }

  /** A vertex that is taken in becomes confirmed with what waited for it, or waits; no other status changes. */
  lemma StatusAfter(s: View, s': View, v: Vertex)
    requires Settled(s, {}) && Settled(s', {}) && Taken(s, s', v) && Delivered(s') == DeliveredWith(s, v)
    ensures StatusKept(s, s')
  {
    hide Settled, StatusFits, Progress, Delivered, Missing;
    forall kept | StatusFits(s, kept) ensures StatusFits(s', kept) {
      if v.hash !in s.vertices {
        DeliveredKeys(s);
        DeliveredKeys(s');
        if Missing(s.vertices, v.parents) != [] {
          ParkedStatus(s, v, kept);
        } else {
          InsertedStatus(s, s', v, kept);
        }
      }
    }
  }

  lemma DeliveredKeys(s: View)
    ensures Delivered(s).Keys == s.vertices.Keys + s.pending.Keys
    ensures Settled(s, {}) ==> s.vertices.Keys !! s.pending.Keys
  {
  }

  lemma ParkedStatus(s: View, v: Vertex, kept: map<Hash, Status>)
    requires StatusFits(s, kept) && v.hash !in s.vertices
    ensures StatusFits(Parked(s, v), kept)
  {
    hide Enter, Missing;
  }

  lemma InsertedStatus(s: View, s': View, v: Vertex, kept: map<Hash, Status>)
    requires StatusFits(s, kept) && Progress(s, s', {v.hash}) && v.hash in s'.vertices
    requires s'.vertices.Keys + s'.pending.Keys == s.vertices.Keys + s.pending.Keys + {v.hash}
    requires s'.vertices.Keys !! s'.pending.Keys
    ensures StatusFits(s', kept)
  {
  }

  /** Marking stored vertices. */
  lemma StatusMarked(s: View, s': View, marks: map<Hash, Status>)
    requires marks.Keys <= s.vertices.Keys && s.vertices.Keys !! s.pending.Keys
    requires s'.vertices == s.vertices && s'.pending == s.pending && s'.status == s.status + marks
    ensures StatusMoved(s, s', marks)
  {
  }

  /** The genesis vertex is final from the start. */
  lemma GenesisStatus(s: View, g: Vertex)
    requires GenesisFits(s, g)
    ensures StatusMoved(s, WithGenesis(s, g), map[g.hash := Finalized])
  {
    hide Enter;
  }

  lemma SameStatus(s: View, t: View, kept: map<Hash, Status>)
    requires StatusFits(s, kept) && StatusFits(t, kept) && s.vertices == t.vertices && s.pending == t.pending
    ensures s.status == t.status
  {
    assert s.status.Keys == t.status.Keys;
  }

  // ---------------------------------------------------------------- the genesis vertex

  /** `g` looks like a genesis vertex, and no vertex that came earlier refers to it. */
  ghost predicate GenesisFits(s: View, g: Vertex) {
    && g.parents == [] && g.height == 0
    && g.hash !in s.pending && g.hash !in s.orphanDeps
    && (forall c :: c in s.vertices ==> g.hash !in s.vertices[c].parents)
    && (g.hash in s.vertices ==> s.vertices[g.hash].parents == [])
  }

  /** `init_genesis` keeps the invariant exactly when nothing refers to the genesis vertex yet. */
  lemma GenesisKeepsInvIff(hashing: Hashing, s: View, g: Vertex)
    requires Inv(hashing, s) && s.genesis == None
    ensures Inv(hashing, WithGenesis(s, g)) <==> GenesisFits(s, g)
    ensures GenesisFits(s, g) && Settled(s, {}) ==> Settled(WithGenesis(s, g), {})
  {
    if Inv(hashing, WithGenesis(s, g)) { GenesisNeedsFit(hashing, s, g); }
    if GenesisFits(s, g) {
      GenesisGraph(s, g);
      GenesisIndexes(hashing, s, g);
      if Settled(s, {}) { GenesisSettled(s, g); }
    }
  }

  lemma FirstIsMember(s: seq<Hash>)
    requires s != []
    ensures s[0] in s
  {
  }

  lemma GenesisNeedsFit(hashing: Hashing, s: View, g: Vertex)
    requires Inv(hashing, s) && s.genesis == None && Inv(hashing, WithGenesis(s, g))
    ensures GenesisFits(s, g)
  {
    var s' := WithGenesis(s, g);
    EnterLists(s.byHeight, [0], g.hash);
    assert Listed(s'.byHeight, 0, g.hash);
    if g.parents != [] {
      NextHeightAbove(s'.vertices, g.parents, g.parents[0]);
    }
    assert Childless(s'.vertices, g.hash);
    forall c | c in s.vertices ensures g.hash !in s.vertices[c].parents {
      if c == g.hash && g.hash in s.vertices[c].parents { ParentIsLower(s.vertices, c, g.hash); }
    }
    if g.hash in s.vertices {
      var parents := s.vertices[g.hash].parents;
      assert forall p :: p in parents ==> Listed(s.children, p, g.hash);
      assert forall p :: !Listed(s.children, p, g.hash);
      if parents != [] { FirstIsMember(parents); }
    }
  }

  lemma GenesisGraph(s: View, g: Vertex)
    requires Graph(s.vertices) && GenesisFits(s, g)
    ensures Graph(WithGenesis(s, g).vertices)
  {
    var v' := WithGenesis(s, g).vertices;
    var others := s.vertices - {g.hash};
    assert SubMap(others, s.vertices) && SubMap(others, v');
    forall h | h in v' ensures v'[h].height == NextHeight(v', v'[h].parents) {
      if h != g.hash {
        NextHeightStable(others, s.vertices, v'[h].parents);
        NextHeightStable(others, v', v'[h].parents);
      }
    }
  }

  lemma GenesisIndexes(hashing: Hashing, s: View, g: Vertex)
    requires Inv(hashing, s) && GenesisFits(s, g) && s.genesis == None && Graph(WithGenesis(s, g).vertices)
    ensures Inv(hashing, WithGenesis(s, g))
  {
    hide Graph, ChildrenOk, TipsOk, HeightsOk, Verified, GenesisFits;
    GenesisTips(s, g);
    GenesisHeights(s, g);
    GenesisRest(hashing, s, g);
  }

  lemma GenesisHeights(s: View, g: Vertex)
    requires Graph(s.vertices) && GenesisFits(s, g)
    requires HeightsOk(s.vertices, s.byHeight) && ChildrenOk(s.vertices, s.children)
    ensures HeightsOk(WithGenesis(s, g).vertices, WithGenesis(s, g).byHeight)
    ensures ChildrenOk(WithGenesis(s, g).vertices, s.children)
  {
    EnterLists(s.byHeight, [0], g.hash);
    assert g.hash in s.vertices ==> s.vertices[g.hash].height == 0;
  }

  lemma GenesisRest(hashing: Hashing, s: View, g: Vertex)
    requires GenesisFits(s, g) && s.genesis == None
    requires StatusOk(s.vertices, s.status) && Checked(hashing, s.vertices, s.pending, s.genesis)
    requires DepsOk(s.vertices.Keys, s.pending, s.orphanDeps)
    ensures StatusOk(WithGenesis(s, g).vertices, WithGenesis(s, g).status)
    ensures Checked(hashing, WithGenesis(s, g).vertices, s.pending, Some(g.hash))
    ensures DepsOk(WithGenesis(s, g).vertices.Keys, s.pending, s.orphanDeps)
  {
    hide Verified;
  }

  lemma GenesisTips(s: View, g: Vertex)
    requires TipsOk(s.vertices, s.tips) && GenesisFits(s, g)
    ensures TipsOk(WithGenesis(s, g).vertices, WithGenesis(s, g).tips)
  {
    var s' := WithGenesis(s, g);
    assert forall c :: c in s.vertices && c != g.hash ==> c in s'.vertices && s'.vertices[c] == s.vertices[c];
    assert forall c :: c in s'.vertices && c != g.hash ==> c in s.vertices;
  }

  lemma GenesisSettled(s: View, g: Vertex)
    requires Settled(s, {}) && GenesisFits(s, g)
    ensures Settled(WithGenesis(s, g), {})
  {
    var s' := WithGenesis(s, g);
    forall h | h in s'.pending ensures Blocked(s'.vertices, s'.pending[h]) {
      var p :| p in s.pending[h].parents && p !in s.vertices;
      assert Listed(s.orphanDeps, p, h);
    }
  }

  // ---------------------------------------------------------------- convergence

  /** What has been delivered: stored or waiting. */
  ghost function Delivered(s: View): Vertices {
    s.vertices + s.pending
  }

  /** Of a delivered set: whenever all parents of a member are members, its height fits them. */
  ghost predicate HeightsFit(all: Vertices) {
    forall h :: h in all && (forall p :: p in all[h].parents ==> p in all)
      ==> all[h].height == NextHeight(all, all[h].parents)
  }

  /** `s` is closed under "all my parents are members". */
  ghost predicate ClosedForward(all: Vertices, s: set<Hash>) {
    forall h :: h in all && (forall p :: p in all[h].parents ==> p in s) ==> h in s
  }

  /** What is stored is the least set that contains every delivered vertex whose parents it contains. */
  lemma {:induction false} StoredIsLeast(s: View, t: set<Hash>, h: Hash)
    requires Graph(s.vertices) && s.vertices.Keys !! s.pending.Keys
    requires ClosedForward(Delivered(s), t) && h in s.vertices
    ensures h in t
    decreases s.vertices[h].height
  {
    forall p | p in s.vertices[h].parents ensures p in t {
      ParentIsLower(s.vertices, h, p);
      StoredIsLeast(s, t, p);
    }
    assert Delivered(s)[h] == s.vertices[h];
  }

  lemma StoredIsClosed(s: View)
    requires Settled(s, {})
    ensures ClosedForward(Delivered(s), s.vertices.Keys)
  {
    forall h | h in Delivered(s) && (forall p :: p in Delivered(s)[h].parents ==> p in s.vertices.Keys)
      ensures h in s.vertices.Keys
    {
      assert h in s.pending ==> !Blocked(s.vertices, s.pending[h]);
    }
  }

  // ---------------------------------------------------------------- dates

  /** No vertex is dated before a parent of it. */
  ghost predicate Dated(vertices: Vertices) {
    forall h, p :: h in vertices && p in vertices[h].parents && p in vertices ==>
      vertices[p].timestamp <= vertices[h].timestamp
  }

  /** `h` and all its ancestors have been delivered: it lies in every set that contains what it can reach. */
  ghost predicate Complete(all: Vertices, h: Hash) {
    h in all && forall t :: ClosedForward(all, t) ==> h in t
  }

  /** After calls without failures, exactly the complete vertices are stored. */
  lemma StoredIsComplete(s: View, h: Hash)
    requires Graph(s.vertices) && Settled(s, {})
    ensures h in s.vertices <==> Complete(Delivered(s), h)
  {
    StoredIsClosed(s);
    if h in s.vertices {
      forall t | ClosedForward(Delivered(s), t) ensures h in t {
        StoredIsLeast(s, t, h);
      }
    }
  }

  /**
   * A vertex that waited is not checked against the dates of parents that came after it. So the stored
   * vertices are in the order of their dates if and only if, among what has been delivered, no complete
   * vertex is dated before a parent of it.
   */
  lemma DatedIff(s: View)
    requires Graph(s.vertices) && Settled(s, {})
    ensures Dated(s.vertices) <==>
      forall h, p :: Complete(Delivered(s), h) && p in Delivered(s)[h].parents && p in Delivered(s) ==>
        Delivered(s)[p].timestamp <= Delivered(s)[h].timestamp
  {
    hide Complete, ClosedForward, Blocked;
    var all := Delivered(s);
    forall h ensures h in s.vertices <==> Complete(all, h) {
      StoredIsComplete(s, h);
    }
    forall h | h in s.vertices ensures h in all && all[h] == s.vertices[h] {
    }
  }

  lemma StoredWithin(s: View, t: View)
    requires Graph(s.vertices) && Settled(s, {}) && Settled(t, {}) && Delivered(s) == Delivered(t)
    ensures s.vertices.Keys <= t.vertices.Keys
  {
    StoredIsClosed(t);
    forall h | h in s.vertices ensures h in t.vertices {
      StoredIsLeast(s, t.vertices.Keys, h);
    }
  }

  lemma SameIndex(a: Index, b: Index)
    requires NoEmptySets(a) && NoEmptySets(b) && forall k, h :: Listed(a, k, h) <==> Listed(b, k, h)
    ensures a == b
  {
    forall k | k in a ensures k in b && a[k] == b[k] {
      var h :| h in a[k];
      assert Listed(a, k, h);
      forall x ensures x in a[k] <==> x in b[k] {
        assert Listed(a, k, x) <==> Listed(b, k, x);
      }
    }
    forall k | k in b ensures k in a {
      var h :| h in b[k];
      assert Listed(b, k, h);
    }
  }

  /** After any two failure-free runs that delivered the same vertices, every index is the same. */
  lemma Convergence(hashing: Hashing, s: View, t: View)
    requires Inv(hashing, s) && Inv(hashing, t) && Settled(s, {}) && Settled(t, {})
    requires Delivered(s) == Delivered(t)
    ensures s.vertices == t.vertices && s.pending == t.pending
    ensures s.children == t.children && s.tips == t.tips && s.byHeight == t.byHeight && s.orphanDeps == t.orphanDeps
    ensures forall kept :: StatusFits(s, kept) && StatusFits(t, kept) ==> s.status == t.status
  {
    hide StatusFits;
    StoredWithin(s, t);
    StoredWithin(t, s);
    SameParts(s, t);
    SameChildren(s.vertices, s.children, t.children);
    SameTips(s.vertices, s.tips, t.tips);
    SameHeights(s.vertices, s.byHeight, t.byHeight);
    SameDeps(hashing, s, t);
    forall kept | StatusFits(s, kept) && StatusFits(t, kept) ensures s.status == t.status {
      SameStatus(s, t, kept);
    }
  }

  lemma SameChildren(vertices: Vertices, a: Index, b: Index)
    requires ChildrenOk(vertices, a) && ChildrenOk(vertices, b)
    ensures a == b
  {
    forall p, c ensures Listed(a, p, c) <==> Listed(b, p, c) {
      assert Listed(a, p, c) <==> c in vertices && p in vertices[c].parents;
    }
    SameIndex(a, b);
  }

  lemma SameTips(vertices: Vertices, a: set<Hash>, b: set<Hash>)
    requires TipsOk(vertices, a) && TipsOk(vertices, b)
    ensures a == b
  {
  }

  lemma SameHeights(vertices: Vertices, a: Index, b: Index)
    requires HeightsOk(vertices, a) && HeightsOk(vertices, b)
    ensures a == b
  {
    forall n, h ensures Listed(a, n, h) <==> Listed(b, n, h) {
      assert Listed(a, n, h) <==> h in vertices && vertices[h].height == n;
    }
    SameIndex(a, b);
  }

  lemma SameParts(s: View, t: View)
    requires s.vertices.Keys !! s.pending.Keys && t.vertices.Keys !! t.pending.Keys
    requires s.vertices.Keys == t.vertices.Keys && Delivered(s) == Delivered(t)
    ensures s.vertices == t.vertices && s.pending == t.pending
  {
    forall h | h in s.vertices ensures s.vertices[h] == t.vertices[h] {
      assert Delivered(s)[h] == Delivered(t)[h];
    }
    forall h ensures h in s.pending <==> h in t.pending {
      assert h in s.pending <==> h in Delivered(s) && h !in s.vertices;
      assert h in t.pending <==> h in Delivered(t) && h !in t.vertices;
    }
    forall h | h in s.pending ensures s.pending[h] == t.pending[h] {
      assert Delivered(s)[h] == Delivered(t)[h];
    }
  }

  lemma SameDeps(hashing: Hashing, s: View, t: View)
    requires Inv(hashing, s) && Inv(hashing, t) && Settled(s, {}) && Settled(t, {})
    requires s.vertices == t.vertices && s.pending == t.pending
    ensures s.orphanDeps == t.orphanDeps
  {
    forall x, h ensures Listed(s.orphanDeps, x, h) <==> Listed(t.orphanDeps, x, h) {
      assert Listed(s.orphanDeps, x, h) <==> h in s.pending && x in s.pending[h].parents && x !in s.vertices;
      assert Listed(t.orphanDeps, x, h) <==> h in t.pending && x in t.pending[h].parents && x !in t.vertices;
    }
    SameIndex(s.orphanDeps, t.orphanDeps);
  }
}
