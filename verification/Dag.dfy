/** The DAG: vertices arrive in any order, wait for absent parents, and are inserted when those arrive. */
module Dag {
  import opened Primitives
  import opened DagGraph
  import opened DagSearch
  import opened DagState

  class Dag {
    const hashing: Hashing
    const maxTimeDrift: nat
    var vertices: Vertices
    var status: map<Hash, Status>
    var children: Index
    var tips: set<Hash>
    var byHeight: Index
    var finalizedHeight: nat
    var genesisHash: Option<Hash>
    var pending: Vertices
    var orphanDeps: Index

    /** All the fields, as one value. */
    ghost function State(): View
      reads this
    {
      View(vertices, status, children, tips, byHeight, finalizedHeight, genesisHash, pending, orphanDeps)
    }

    ghost predicate Valid()
      reads this
    {
      BindsContents(hashing) && Inv(hashing, State())
    }

    constructor (hashing: Hashing, maxTimeDrift: nat)
      requires BindsContents(hashing)
      ensures Valid() && Settled(State(), {}) && Delivered(State()) == map[]
      ensures genesisHash == None && this.hashing == hashing && this.maxTimeDrift == maxTimeDrift
      ensures finalizedHeight == 0 && StatusFits(State(), map[])
    {
      this.hashing, this.maxTimeDrift := hashing, maxTimeDrift;
      vertices, status, children, tips, byHeight := map[], map[], map[], {}, map[];
      finalizedHeight, genesisHash, pending, orphanDeps := 0, None, map[], map[];
    }

    /** Stores the genesis vertex as it is given: nothing is checked, and no orphan is looked at. */
    method InitGenesis(genesis: Vertex) returns (r: Outcome<DagError>)
      modifies this
      ensures r.Ok? <==> old(genesisHash) == None
      ensures r.Err? ==> r.error == GenesisAlreadySet && State() == old(State())
      ensures r.Ok? ==> State() == WithGenesis(old(State()), genesis)
      ensures r.Ok? && old(Valid()) ==> (Valid() <==> GenesisFits(old(State()), genesis))
      ensures r.Ok? && Valid() && old(Valid()) && Settled(old(State()), {}) ==> Settled(State(), {})
      ensures r.Ok? && Valid() && old(Valid()) ==>
        StatusMoved(old(State()), State(), map[genesis.hash := Finalized])
    {
      hide Inv, BindsContents, Settled, StatusMoved, GenesisFits;
      if genesisHash.Some? { return Err(GenesisAlreadySet); }
      var hash := genesis.hash;
      vertices := vertices[hash := genesis];
      status := status[hash := Finalized];
      byHeight := byHeight[0 := (if 0 in byHeight then byHeight[0] else {}) + {hash}];
      tips := tips + {hash};
      genesisHash := Some(hash);
      EnterOne(old(byHeight), 0, hash);
      if old(Valid()) {
        GenesisKeepsInvIff(hashing, old(State()), genesis);
        if GenesisFits(old(State()), genesis) { GenesisStatus(old(State()), genesis); }
      }
      return Ok;
    }

    /** A vertex must not be dated after the clock plus the allowed drift, nor before a parent that is there. */
    function VerifyTimestamp(v: Vertex, now: nat): (r: Outcome<DagError>)
      reads this
      ensures r.Ok? <==> (&& v.timestamp <= now + maxTimeDrift * 1000
                          && forall p :: p in v.parents && p in vertices ==> vertices[p].timestamp <= v.timestamp)
      ensures v.timestamp > now + maxTimeDrift * 1000 ==> r == Err(TimestampInFuture)
      ensures r.Err? && v.timestamp <= now + maxTimeDrift * 1000 ==> r == Err(TimestampBeforeParent)
    {
      if v.timestamp > now + maxTimeDrift * 1000 then Err(TimestampInFuture)
      else if exists p :: p in v.parents && p in vertices && v.timestamp < vertices[p].timestamp
      then Err(TimestampBeforeParent)
      else Ok
    }

    /** Lists a vertex under every parent it waits for and keeps it. */
    method Await(v: Vertex, missing: seq<Hash>)
      modifies `orphanDeps, `pending
      ensures orphanDeps == Enter(old(orphanDeps), missing, v.hash)
      ensures pending == old(pending)[v.hash := v]
    {
      for i := 0 to |missing|
        invariant orphanDeps == Enter(old(orphanDeps), missing[..i], v.hash)
        invariant pending == old(pending)
      {
        var p := missing[i];
        assert missing[..i + 1][..i] == missing[..i];
        orphanDeps := orphanDeps[p := (if p in orphanDeps then orphanDeps[p] else {}) + {v.hash}];
      }
      assert missing[..|missing|] == missing;
      pending := pending[v.hash := v];
    }

    /** Enters a vertex as a child of its parents, which are no tips any more. */
    method LinkParents(v: Vertex)
      modifies `children, `tips
      ensures children == Enter(old(children), v.parents, v.hash)
      ensures tips == old(tips) - (set p | p in v.parents)
    {
      for i := 0 to |v.parents|
        invariant children == Enter(old(children), v.parents[..i], v.hash)
        invariant tips == old(tips) - (set p | p in v.parents[..i])
      {
        var p := v.parents[i];
        assert v.parents[..i + 1] == v.parents[..i] + [p];
        assert v.parents[..i + 1][..i] == v.parents[..i];
        children := children[p := (if p in children then children[p] else {}) + {v.hash}];
        tips := tips - {p};
      }
      assert v.parents[..|v.parents|] == v.parents;
    }

    /** Enters a vertex into every index. */
    method StoreVertex(v: Vertex)
      modifies `vertices, `status, `children, `tips, `byHeight
      ensures State() == Stored(old(State()), v)
    {
      vertices := vertices[v.hash := v];
      status := status[v.hash := Confirmed];
      LinkParents(v);
      tips := tips + {v.hash};
      EnterOne(byHeight, v.height, v.hash);
      byHeight := byHeight[v.height := (if v.height in byHeight then byHeight[v.height] else {}) + {v.hash}];
    }

    /**
     * Stores a vertex whose parents are there, then whatever waited for it. `excused` are the vertices that
     * outer calls have still to look at; `all` is any set that contains what has been delivered.
     */
    method InsertVertex(v: Vertex, ghost excused: set<Hash>, ghost all: Vertices) returns (r: Outcome<DagError>)
      requires Valid() && Verified(hashing, v) && v.hash !in vertices
      requires forall p :: p in v.parents ==> p in vertices
      modifies this
      ensures Valid() && Progress(old(State()), State(), {v.hash})
      ensures v.height != NextHeight(old(vertices), v.parents) ==>
        State() == old(State()) && r == Err(InvalidHeight(NextHeight(old(vertices), v.parents), v.height))
      ensures v.height == NextHeight(old(vertices), v.parents) ==> v.hash in vertices && vertices[v.hash] == v
      ensures r.Ok? ==> NothingLost(old(State()), State())
      ensures r.Ok? && Settled(old(State()), excused) && v.hash !in old(pending) ==> Settled(State(), excused)
      ensures Consistent(old(State()), all) && v.hash in all && all[v.hash] == v ==> r.Ok?
      ensures r.Err? ==> r.error.InvalidHeight?
      decreases pending.Keys, 2
    {
      hide StoreOk, DepsOk, Settled, NothingLost, Consistent, Progress, Verified, BindsContents, DepsOf, NextHeight;
      var expected := NextHeight(vertices, v.parents);
      ghost var s := State();
      if v.height != expected {
        HeightAgrees(s, all, v);
        OnlyDeps(s, s, {v.hash}, all);
        return Err(InvalidHeight(expected, v.height));
      }

      StoreVertex(v);
      StoreStep(hashing, s, v, excused, all);
      r := ProcessOrphans(v.hash, excused, all);
      StoreThenOrphans(s, v, State());
    }

    /** Takes up the vertices that waited for `newParent`, in an arbitrary order. */
    method ProcessOrphans(newParent: Hash, ghost excused: set<Hash>, ghost all: Vertices) returns (r: Outcome<DagError>)
      requires BindsContents(hashing) && StoreOk(hashing, State())
      requires DepsOk(vertices.Keys - {newParent}, pending, orphanDeps)
      requires newParent in vertices && forall h :: Listed(orphanDeps, newParent, h) ==> h !in vertices
      modifies this
      ensures Valid() && Progress(old(State()), State(), {})
      ensures r.Ok? ==> NothingLost(old(State()), State())
      ensures r.Ok? && Settled(old(State()), excused + DepsOf(old(orphanDeps), newParent)) ==> Settled(State(), excused)
      ensures Consistent(old(State()), all) ==> r.Ok?
      ensures r.Err? ==> r.error.InvalidHeight?
      decreases pending.Keys, 1
    {
      hide StoreOk, DepsOk, Settled, NothingLost, Consistent, Progress;
      var waiting := if newParent in orphanDeps then orphanDeps[newParent] else {};
      ghost var s := State();
      ghost var settled := Settled(s, excused + waiting);
      Unlist(hashing, s, newParent, excused + waiting);
      orphanDeps := orphanDeps - {newParent};
      OnlyDeps(s, State(), {}, all);
      while waiting != {}
        invariant Valid() && Progress(s, State(), {}) && NothingLost(s, State())
        invariant pending.Keys <= s.pending.Keys
        invariant forall h :: h in waiting && h in pending ==> h !in vertices
        invariant settled ==> Settled(State(), excused + waiting)
        invariant Consistent(s, all) ==> Consistent(State(), all)
        decreases waiting
      {
        ghost var before, remaining := State(), waiting;
        var orphan :| orphan in waiting;
        waiting := waiting - {orphan};
        assert excused + waiting + {orphan} == excused + remaining;
        if orphan in pending {
          r := TakeUp(orphan, excused + waiting, all);
          ProgressTransitive(s, before, State(), {});
          PendingShrinks(before, State());
          if r.Err? { return r; }
          NothingLostTransitive(s, before, State());
          StillAbsent(before, State(), waiting);
        } else if settled {
          Unexcuse(State(), excused + waiting, orphan);
        }
      }
      assert excused + waiting == excused;
      return Ok;
    }

    /** One orphan: inserted if nothing it needs is absent any more, else listed under what still is. */
    method TakeUp(orphan: Hash, ghost excused: set<Hash>, ghost all: Vertices) returns (r: Outcome<DagError>)
      requires Valid() && orphan in pending && orphan !in vertices
      modifies this
      ensures Valid() && Progress(old(State()), State(), {})
      ensures r.Ok? ==> NothingLost(old(State()), State())
      ensures r.Ok? && Settled(old(State()), excused + {orphan}) ==> Settled(State(), excused)
      ensures Consistent(old(State()), all) ==> r.Ok? && Consistent(State(), all)
      ensures r.Err? ==> r.error.InvalidHeight?
      decreases pending.Keys, 0
    {
      hide Inv, Settled, NothingLost, Consistent, Progress, Verified, BindsContents, Blocked, Missing;
      ghost var s := State();
      var v := pending[orphan];
      var stillMissing := Missing(vertices, v.parents);
      if stillMissing == [] {
        TakeOut(hashing, s, orphan, excused);
        pending := pending - {orphan};
        assert pending.Keys == s.pending.Keys - {orphan};
        r := InsertVertex(v, excused, all);
        MovedOn(s, State(), orphan, all);
      } else {
        ListAgain(hashing, s, orphan, stillMissing, excused);
        pending := pending - {orphan};
        Await(v, stillMissing);
        assert pending == s.pending;
        OnlyDeps(s, State(), {}, all);
        r := Ok;
      }
    }

    /**
     * Takes in one vertex. A known one changes nothing; a malformed, misdated or wrongly levelled one is
     * refused and changes nothing; one with absent parents is put aside; any other is stored, followed by
     * what waited for it. An error may still come from a vertex that waited, when its height is wrong.
     */
    method AddVertex(v: Vertex, now: nat, ghost all: Vertices) returns (r: Outcome<DagError>)
      requires Valid()
      modifies this
      ensures Valid()
      ensures var why := Refusal(hashing, old(State()), v, old(VerifyTimestamp(v, now)));
        if why.Err? then r == why && State() == old(State()) else Taken(old(State()), State(), v)
      ensures v.hash in old(vertices) ==> r.Ok?
      ensures v.hash !in old(vertices) ==>
        if v.parents == [] && v.height > 0 then r == Err(NoParents)
        else if |v.parents| > 8 then r == Err(TooManyParents)
        else if |v.transactions| > 1000 then r == Err(TooManyTransactions)
        else if v.txRoot != hashing.merkleRoot(v.transactions) then r == Err(InvalidMerkleRoot)
        else if v.hash != hashing.vertexHash(v.parents, v.transactions, v.timestamp, v.validator)
        then r == Err(InvalidHash)
        else if v.timestamp > now + maxTimeDrift * 1000 then r == Err(TimestampInFuture)
        else if exists p :: p in v.parents && p in old(vertices) && v.timestamp < old(vertices)[p].timestamp
        then r == Err(TimestampBeforeParent)
        else if (forall p :: p in v.parents ==> p in old(vertices)) && v.height != NextHeight(old(vertices), v.parents)
        then r == Err(InvalidHeight(NextHeight(old(vertices), v.parents), v.height))
        else r.Ok? || r.error.InvalidHeight?
      ensures r.Ok? && Settled(old(State()), {}) ==>
        && Settled(State(), {}) && Delivered(State()) == DeliveredWith(old(State()), v)
        && StatusKept(old(State()), State())
      ensures Consistent(old(State()), all) && v.hash in all && all[v.hash] == v ==>
        Verified(hashing, v) && old(VerifyTimestamp(v, now)).Ok? ==> r.Ok?
    {
      hide Inv, Settled, Progress, NothingLost, Consistent, BindsContents, NextHeight, Enter, Delivered, StatusFits;
      hide StatusKept;
      if v.hash in vertices {
        NothingMoved(State());
        return Ok;
      }
      r := VerifyStructure(hashing, v);
      if r.Err? { return; }
      r := VerifyTimestamp(v, now);
      if r.Err? { return; }
      MissingNone(vertices, v.parents);
      r := TakeIn(v, all);
    }

    /** Puts a checked vertex aside, or stores it with what waited for it. */
    method TakeIn(v: Vertex, ghost all: Vertices) returns (r: Outcome<DagError>)
      requires Valid() && Verified(hashing, v) && v.hash !in vertices
      modifies this
      ensures Valid()
      ensures r.Err? ==> r.error.InvalidHeight?
      ensures if (forall p :: p in v.parents ==> p in old(vertices)) && v.height != NextHeight(old(vertices), v.parents)
        then r == Err(InvalidHeight(NextHeight(old(vertices), v.parents), v.height)) && State() == old(State())
        else Taken(old(State()), State(), v)
      ensures r.Ok? && Settled(old(State()), {}) ==>
        && Settled(State(), {}) && Delivered(State()) == DeliveredWith(old(State()), v)
        && StatusKept(old(State()), State())
      ensures Consistent(old(State()), all) && v.hash in all && all[v.hash] == v ==> r.Ok?
    {
      hide Inv, Settled, Progress, NothingLost, Consistent, BindsContents, NextHeight, Enter, Delivered, StatusFits;
      hide Verified, StatusKept;
      ghost var s := State();
      MissingNone(vertices, v.parents);
      var missing := Missing(vertices, v.parents);
      if missing != [] {
        Await(v, missing);
        status := status[v.hash := AwaitingParents];
        ParkedOk(hashing, s, v);
        if Settled(s, {}) {
          ParkedSettled(hashing, s, v);
          StatusAfter(s, State(), v);
        }
        return Ok;
      }
      if Settled(s, {}) { ReadyIsNotPending(hashing, s, v); }
      r := InsertVertex(v, {}, all);
      if Settled(s, {}) && r.Ok? {
        DeliveredAfterInsertion(s, State(), v);
        StatusAfter(s, State(), v);
      }
    }

    /** Marks what is stored at a height. */
    method MarkLevel(height: nat)
      modifies `status
      ensures status == old(status) + Marked(DepsOf(byHeight, height))
    {
      if height in byHeight {
        var todo := byHeight[height];
        while todo != {}
          invariant todo <= byHeight[height]
          invariant status == old(status) + Marked(byHeight[height] - todo)
        {
          var h :| h in todo;
          status := status[h := Finalized];
          todo := todo - {h};
        }
      }
    }

    /** Raises the finalized height and marks what is stored at that very height. */
    method SetFinalizedHeight(height: nat)
      requires Valid()
      modifies `finalizedHeight, `status
      ensures Valid()
      ensures finalizedHeight == if height > old(finalizedHeight) then height else old(finalizedHeight)
      ensures status == if height > old(finalizedHeight)
        then old(status) + Marked(DepsOf(byHeight, height)) else old(status)
      ensures Settled(State(), {}) && height > old(finalizedHeight) ==>
        StatusMoved(old(State()), State(), Marked(DepsOf(byHeight, height)))
    {
      hide Inv, BindsContents, Settled, StatusMoved;
      if height > finalizedHeight {
        ghost var s := State();
        finalizedHeight := height;
        MarkLevel(height);
        StatusChange(hashing, s, State());
        LevelIsStored(height);
        if Settled(State(), {}) {
          DeliveredKeys(State());
          StatusMarked(s, State(), Marked(DepsOf(byHeight, height)));
        }
      }
    }

    lemma LevelIsStored(height: nat)
      requires Valid()
      ensures DepsOf(byHeight, height) <= vertices.Keys
    {
      assert forall h :: h in DepsOf(byHeight, height) ==> Listed(byHeight, height, h);
    }

    ghost function Marked(hashes: set<Hash>): map<Hash, Status> {
      map h | h in hashes :: Finalized
    }

    /** The greatest height of a tip, which no vertex exceeds. */
    method LatestHeight() returns (max: nat)
      requires Valid()
      ensures forall h :: h in vertices ==> vertices[h].height <= max
      ensures vertices == map[] ==> max == 0
      ensures vertices != map[] ==> exists h :: h in tips && h in vertices && vertices[h].height == max
    {
      hide Inv, BindsContents, Graph, Ancestor;
      GraphOf();
      TipsOf();
      max := 0;
      var todo := tips;
      while todo != {}
        invariant todo <= tips
        invariant forall h :: h in tips && h !in todo ==> h in vertices && vertices[h].height <= max
        invariant max == 0 || exists h :: h in tips && h in vertices && vertices[h].height == max
        decreases todo
      {
        hide Childless;
        var h :| h in todo;
        assert h in tips;
        if h in vertices && vertices[h].height > max { max := vertices[h].height; }
        todo := todo - {h};
      }
      TipsAreHighest(max);
    }

    lemma TipsOf()
      requires Valid()
      ensures forall h :: h in tips <==> Childless(vertices, h)
    {
    }

    lemma TipsAreHighest(max: nat)
      requires Valid() && forall h :: h in tips ==> h in vertices && vertices[h].height <= max
      ensures forall h :: h in vertices ==> vertices[h].height <= max
      ensures vertices != map[] ==> exists t :: t in tips
    {
      hide BindsContents;
      forall h | h in vertices ensures vertices[h].height <= max && exists t :: t in tips {
        var t := TipAbove(vertices, h);
        assert t in tips;
      }
    }

    // -------------------------------------------------------------- queries

    lemma GraphOf()
      requires Valid()
      ensures Graph(vertices)
    {
    }

    /** Appends those of `items` that have not been visited. */
    static method PushUnvisited(queue: seq<Hash>, items: seq<Hash>, visited: set<Hash>) returns (r: seq<Hash>)
      ensures queue <= r
      ensures forall x :: x in r <==> x in queue || (x in items && x !in visited)
    {
      r := queue;
      for i := 0 to |items|
        invariant queue <= r
        invariant forall x :: x in r <==> x in queue || (x in items[..i] && x !in visited)
      {
        if items[i] !in visited { r := r + [items[i]]; }
      }
    }

    /** `ancestor` is `descendant` or is reached from it along parents. */
    method IsAncestor(ancestor: Hash, descendant: Hash) returns (r: bool)
      requires Valid()
      ensures r <==> Ancestor(vertices, ancestor, descendant)
    {
      hide Inv, Graph, Ancestor, BindsContents;
      GraphOf();
      var visited: set<Hash> := {};
      var queue := [descendant];
      SelfAncestor(vertices, descendant);
      while queue != []
        invariant ancestor !in visited && visited <= vertices.Keys + {descendant}
        invariant forall q :: q in queue ==> Ancestor(vertices, q, descendant)
        invariant descendant in visited || descendant in queue
        invariant forall h, p :: h in visited && h in vertices && p in vertices[h].parents ==>
          p in visited || p in queue
        decreases vertices.Keys + {descendant} - visited, |queue|
      {
        var current := queue[0];
        ghost var before := queue;
        queue := queue[1..];
        assert forall q :: q in before ==> q == current || q in queue;
        if current == ancestor { return true; }
        if current in visited { continue; }
        PresentAncestor(current, descendant);
        visited := visited + {current};
        if current in vertices {
          ghost var popped := queue;
          queue := PushUnvisited(queue, vertices[current].parents, visited);
          forall q | q in queue ensures Ancestor(vertices, q, descendant) {
            if q !in popped {
              ParentIsAncestor(vertices, q, current);
              AncestorTransitive(vertices, q, current, descendant);
            }
          }
        }
      }
      if Ancestor(vertices, ancestor, descendant) {
        ClosedUnderParents(vertices, visited, ancestor, descendant);
      }
      return false;
    }

    lemma PresentAncestor(a: Hash, d: Hash)
      requires Graph(vertices) && Ancestor(vertices, a, d)
      ensures a == d || a in vertices
    {
      if a != d { AncestorIsLower(vertices, a, d); }
    }

    ghost function Descendants(h: Hash): set<Hash>
      requires Graph(vertices)
      reads this
    {
      set d | d in vertices && Ancestor(vertices, h, d)
    }

    /** The number of stored vertices that have `hash` as an ancestor. */
    method CalculateWeight(hash: Hash) returns (weight: nat)
      requires Valid()
      ensures weight == |Descendants(hash)|
    {
      hide Inv, Graph, Ancestor, BindsContents, Exploring;
      GraphOf();
      ExploreStart(vertices, hash);
      var visited: set<Hash> := {};
      var queue := [hash];
      weight := 0;
      while queue != []
        invariant visited <= vertices.Keys + {hash} && weight == |visited * vertices.Keys|
        invariant Exploring(vertices, hash, visited, queue)
        decreases vertices.Keys + {hash} - visited, |queue|
      {
        ghost var before := queue;
        var current := queue[0];
        queue := queue[1..];
        if current in visited {
          ExploreSkip(vertices, hash, visited, before);
          continue;
        }
        CountOne(visited, current, vertices.Keys);
        if current in vertices {
          weight := weight + 1;
          queue := PushChildren(queue, current, visited + {current});
        } else {
          NoChildrenOfAbsent(current);
        }
        ExploreExpand(vertices, hash, visited, before, queue);
        visited := visited + {current};
      }
      ExploreDone(vertices, hash, visited);
      assert visited * vertices.Keys == Descendants(hash);
    }

    lemma NoChildrenOfAbsent(h: Hash)
      requires Graph(vertices) && h !in vertices
      ensures forall c :: c in vertices ==> h !in vertices[c].parents
    {
    }

    static lemma CountOne(visited: set<Hash>, x: Hash, keys: set<Hash>)
      requires x !in visited
      ensures |(visited + {x}) * keys| == |visited * keys| + if x in keys then 1 else 0
    {
      if x in keys {
        assert (visited + {x}) * keys == visited * keys + {x};
      } else {
        assert (visited + {x}) * keys == visited * keys;
      }
    }

    /** Appends the children of `h` that have not been visited, in an arbitrary order. */
    method PushChildren(queue: seq<Hash>, h: Hash, visited: set<Hash>) returns (r: seq<Hash>)
      requires Valid()
      ensures forall x :: x in r <==> x in queue || (x in vertices && h in vertices[x].parents && x !in visited)
    {
      r := queue;
      var todo := if h in children then children[h] else {};
      assert forall c :: c in todo <==> Listed(children, h, c);
      ghost var kids := todo;
      while todo != {}
        invariant todo <= kids
        invariant forall x :: x in r <==> x in queue || (x in kids - todo && x !in visited)
      {
        var c :| c in todo;
        if c !in visited { r := r + [c]; }
        todo := todo - {c};
      }
    }

    /**
     * The vertices at a distance of 1 to `maxDepth` steps along parents: each once, and only those. They
     * come in breadth-first order, so that nothing is listed before something nearer.
     */
    method GetAncestors(hash: Hash, maxDepth: nat) returns (ancestors: seq<Hash>)
      requires Valid()
      ensures forall i, j :: 0 <= i < j < |ancestors| ==> ancestors[i] != ancestors[j]
      ensures forall x :: x in ancestors <==> Within(vertices, hash, x, maxDepth)
      ensures forall i, j, n: nat :: 0 <= i < j < |ancestors| && Within(vertices, hash, ancestors[j], n) ==>
        Within(vertices, hash, ancestors[i], n)
    {
      hide Inv, BindsContents, Graph, Searching, Pushed, Within;
      GraphOf();
      ancestors := [];
      var visited: set<Hash> := {};
      var queue: Queue := [];
      ghost var dist: Distances := map[];
      if hash in vertices {
        queue := PushParents(queue, vertices[hash].parents, visited, 1);
      }
      StartSearching(vertices, hash, maxDepth, queue);
      while queue != []
        invariant dist.Keys == visited && visited <= vertices.Keys
        invariant Searching(vertices, hash, maxDepth, dist, queue, ancestors)
        decreases vertices.Keys - visited, |queue|
      {
        ghost var before, dist0 := queue, dist;
        var (current, depth) := queue[0];
        HeadIsStored(vertices, hash, maxDepth, dist, queue, ancestors);
        queue := queue[1..];
        if current in visited || depth > maxDepth {
          SkipSearching(vertices, hash, maxDepth, dist, before, ancestors);
          continue;
        }
        visited := visited + {current};
        dist := dist[current := depth];
        if current in vertices {
          queue := PushParents(queue, vertices[current].parents, visited, depth + 1);
        }
        ExpandSearching(vertices, hash, maxDepth, dist0, before, queue, ancestors);
        ancestors := ancestors + [current];
      }
      ListsExactly(vertices, hash, maxDepth, dist, ancestors);
    }

    /** Appends the parents that have not been visited, each with its depth. */
    static method PushParents(queue: Queue, parents: seq<Hash>, visited: set<Hash>, depth: nat) returns (r: Queue)
      ensures Pushed(queue, parents, visited, depth, r)
    {
      r := queue;
      for i := 0 to |parents|
        invariant Pushed(queue, parents[..i], visited, depth, r)
      {
        if parents[i] !in visited { r := r + [(parents[i], depth)]; }
      }
      assert parents[..|parents|] == parents;
    }
  }
}
