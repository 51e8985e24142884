/** Why a breadth-first search with a depth limit finds what lies within that limit, nearest first. */
module DagSearch {
  import opened Primitives
  import opened DagGraph

  type Queue = seq<(Hash, nat)>

  /** The visited vertices with the number of steps at which each was taken from the queue. */
  type Distances = map<Hash, nat>

  ghost predicate Measured(vertices: Vertices, d: Hash, max: nat, dist: Distances) {
    forall x :: x in dist ==> 1 <= dist[x] <= max && Walk(vertices, d, x, dist[x])
  }

  /** The queue is sorted by depth, spans at most two depths, and nothing visited is deeper than its head. */
  ghost predicate InOrder(queue: Queue, dist: Distances) {
    && (forall i, j :: 0 <= i < j < |queue| ==> queue[i].1 <= queue[j].1)
    && (forall i :: 0 <= i < |queue| ==> queue[i].1 <= queue[0].1 + 1)
    && (queue != [] ==> forall x :: x in dist ==> dist[x] <= queue[0].1)
  }

  ghost predicate Covered(max: nat, dist: Distances, queue: Queue, p: Hash, n: nat) {
    || (p in dist && dist[p] <= n)
    || (exists i :: 0 <= i < |queue| && queue[i].0 == p && queue[i].1 <= n)
    || n > max
  }

  /** The parents of `d` and of every visited vertex were visited or queued in time, or lie too far. */
  ghost predicate Explored(vertices: Vertices, d: Hash, max: nat, dist: Distances, queue: Queue) {
    && (d in vertices ==> forall p :: p in vertices[d].parents ==> Covered(max, dist, queue, p, 1))
    && (forall x, p :: x in dist && x in vertices && p in vertices[x].parents
          ==> Covered(max, dist, queue, p, dist[x] + 1))
  }

  /** `xs` lists the visited vertices, each once, nearest first. */
  ghost predicate Listing(xs: seq<Hash>, dist: Distances) {
    && (forall x :: x in xs <==> x in dist)
    && (forall i, j :: 0 <= i < j < |xs| ==> xs[i] != xs[j] && dist[xs[i]] <= dist[xs[j]])
  }

  /** `r` is `queue` followed by the unvisited parents at the given depth. */
  ghost predicate Pushed(queue: Queue, parents: seq<Hash>, visited: set<Hash>, depth: nat, r: Queue) {
    && queue <= r
    && (forall i :: |queue| <= i < |r| ==> r[i].1 == depth && r[i].0 in parents)
    && (forall p :: p in parents && p !in visited ==> (p, depth) in r)
  }

  /** Queued vertices are stored, at the end of a walk of their depth. */
  ghost predicate Queued(vertices: Vertices, d: Hash, queue: Queue) {
    forall e :: e in queue ==> e.0 in vertices && e.1 >= 1 && Walk(vertices, d, e.0, e.1)
  }

  /** The loop invariant of the search. */
  ghost predicate Searching(vertices: Vertices, d: Hash, max: nat, dist: Distances, queue: Queue, xs: seq<Hash>) {
    && Listing(xs, dist) && Measured(vertices, d, max, dist) && InOrder(queue, dist)
    && Queued(vertices, d, queue) && Explored(vertices, d, max, dist, queue)
  }

  lemma StartSearching(vertices: Vertices, d: Hash, max: nat, queue: Queue)
    requires Graph(vertices)
    requires if d in vertices then Pushed([], vertices[d].parents, {}, 1, queue) else queue == []
    ensures Searching(vertices, d, max, map[], queue, [])
  {
    if d in vertices {
      Start(vertices, d, max, queue);
    }
  }

  lemma HeadIsStored(vertices: Vertices, d: Hash, max: nat, dist: Distances, queue: Queue, xs: seq<Hash>)
    requires Searching(vertices, d, max, dist, queue, xs) && queue != []
    ensures queue[0].0 in vertices
  {
  }

  lemma SkipSearching(vertices: Vertices, d: Hash, max: nat, dist: Distances, queue: Queue, xs: seq<Hash>)
    requires Searching(vertices, d, max, dist, queue, xs) && queue != []
    requires queue[0].0 in dist || queue[0].1 > max
    ensures Searching(vertices, d, max, dist, queue[1..], xs)
  {
    hide Explored, Walk, Listing, Measured;
    Skip(vertices, d, max, dist, queue);
  }

  lemma ExpandSearching(vertices: Vertices, d: Hash, max: nat, dist: Distances, queue: Queue, r: Queue, xs: seq<Hash>)
    requires Graph(vertices) && Searching(vertices, d, max, dist, queue, xs) && queue != []
    requires queue[0].0 !in dist && queue[0].0 in vertices && queue[0].1 <= max
    requires Pushed(queue[1..], vertices[queue[0].0].parents, dist.Keys + {queue[0].0}, queue[0].1 + 1, r)
    ensures Searching(vertices, d, max, dist[queue[0].0 := queue[0].1], r, xs + [queue[0].0])
  {
    hide Explored, Walk, InOrder, Listing, Measured;
    assert queue[0] in queue;
    Expand(vertices, d, max, dist, queue, r);
    StepsFromParent(vertices, d, queue[0].0, queue[0].1);
    ExpandQueued(vertices, d, queue, r);
    ExpandListing(vertices, d, max, dist, queue, xs);
  }

  lemma ExpandListing(vertices: Vertices, d: Hash, max: nat, dist: Distances, queue: Queue, xs: seq<Hash>)
    requires queue != [] && queue[0].0 !in dist && queue[0].1 <= max
    requires Listing(xs, dist) && Measured(vertices, d, max, dist) && InOrder(queue, dist) && Queued(vertices, d, queue)
    ensures Listing(xs + [queue[0].0], dist[queue[0].0 := queue[0].1])
    ensures Measured(vertices, d, max, dist[queue[0].0 := queue[0].1])
  {
    hide Walk;
    assert queue[0] in queue;
  }

  lemma ExpandQueued(vertices: Vertices, d: Hash, queue: Queue, r: Queue)
    requires Graph(vertices) && Queued(vertices, d, queue) && queue != []
    requires queue[1..] <= r
    requires forall i :: |queue| - 1 <= i < |r| ==> r[i].1 == queue[0].1 + 1 && r[i].0 in vertices[queue[0].0].parents
    requires forall p :: p in vertices[queue[0].0].parents ==> Walk(vertices, d, p, queue[0].1 + 1)
    ensures Queued(vertices, d, r)
  {
    hide Walk;
    forall i | 0 <= i < |r| ensures r[i].0 in vertices && r[i].1 >= 1 && Walk(vertices, d, r[i].0, r[i].1) {
      if i < |queue| - 1 { assert r[i] == queue[1..][i] == queue[i + 1]; }
    }
  }

  lemma Start(vertices: Vertices, d: Hash, max: nat, queue: Queue)
    requires d in vertices && Pushed([], vertices[d].parents, {}, 1, queue)
    ensures Explored(vertices, d, max, map[], queue) && InOrder(queue, map[])
    ensures forall e :: e in queue ==> e.1 == 1 && Walk(vertices, d, e.0, 1)
  {
    forall p | p in vertices[d].parents ensures Covered(max, map[], queue, p, 1) {
      assert (p, 1) in queue;
    }
    forall e | e in queue ensures e.1 == 1 && Walk(vertices, d, e.0, 1) {
      assert Walk(vertices, d, d, 0);
    }
  }

  /** The head of the queue was visited before, or is too deep: it can be dropped. */
  lemma Skip(vertices: Vertices, d: Hash, max: nat, dist: Distances, queue: Queue)
    requires queue != [] && InOrder(queue, dist) && Explored(vertices, d, max, dist, queue)
    requires queue[0].0 in dist || queue[0].1 > max
    ensures InOrder(queue[1..], dist) && Explored(vertices, d, max, dist, queue[1..])
  {
    forall p: Hash, n: nat | Covered(max, dist, queue, p, n) ensures Covered(max, dist, queue[1..], p, n) {
      if (p in dist && dist[p] <= n) || n > max {
      } else {
        var i :| 0 <= i < |queue| && queue[i].0 == p && queue[i].1 <= n;
        assert i > 0;
        assert queue[1..][i - 1] == queue[i];
      }
    }
  }

  /** The head of the queue is visited and its parents are queued. */
  lemma Expand(vertices: Vertices, d: Hash, max: nat, dist: Distances, queue: Queue, r: Queue)
    requires queue != [] && queue[0].0 !in dist && queue[0].0 in vertices && queue[0].1 <= max
    requires InOrder(queue, dist) && Explored(vertices, d, max, dist, queue)
    requires Pushed(queue[1..], vertices[queue[0].0].parents, dist.Keys + {queue[0].0}, queue[0].1 + 1, r)
    ensures InOrder(r, dist[queue[0].0 := queue[0].1])
    ensures Explored(vertices, d, max, dist[queue[0].0 := queue[0].1], r)
  {
    var (x, k) := queue[0];
    var dist' := dist[x := k];
    forall p: Hash, n: nat | Covered(max, dist, queue, p, n) ensures Covered(max, dist', r, p, n) {
      if (p in dist && dist[p] <= n) || n > max {
      } else {
        var i :| 0 <= i < |queue| && queue[i].0 == p && queue[i].1 <= n;
        if i > 0 { assert r[i - 1] == queue[1..][i - 1] == queue[i]; }
      }
    }
    forall p | p in vertices[x].parents ensures Covered(max, dist', r, p, k + 1) {
      if p !in dist' { assert (p, k + 1) in r; }
    }
    assert forall i :: 0 <= i < |queue| - 1 ==> r[i] == queue[i + 1];
  }

  lemma StepsFromParent(vertices: Vertices, d: Hash, x: Hash, k: nat)
    requires x in vertices && Walk(vertices, d, x, k)
    ensures forall p :: p in vertices[x].parents ==> Walk(vertices, d, p, k + 1)
  {
  }

  /** With an empty queue, whatever is within the limit has been visited, at its distance or before. */
  lemma {:induction false} AllFound(vertices: Vertices, d: Hash, max: nat, dist: Distances, x: Hash, n: nat)
    requires Explored(vertices, d, max, dist, []) && 1 <= n <= max && Walk(vertices, d, x, n)
    ensures x in dist && dist[x] <= n
    decreases n
  {
    var q :| Walk(vertices, d, q, n - 1) && q in vertices && x in vertices[q].parents;
    if n == 1 {
      assert Covered(max, dist, [], x, 1);
    } else {
      AllFound(vertices, d, max, dist, q, n - 1);
      assert Covered(max, dist, [], x, dist[q] + 1);
    }
  }

  lemma ListsExactly(vertices: Vertices, d: Hash, max: nat, dist: Distances, xs: seq<Hash>)
    requires Searching(vertices, d, max, dist, [], xs)
    ensures forall i, j :: 0 <= i < j < |xs| ==> xs[i] != xs[j]
    ensures forall x :: x in xs <==> Within(vertices, d, x, max)
    ensures forall i, j, n: nat :: 0 <= i < j < |xs| && Within(vertices, d, xs[j], n) ==> Within(vertices, d, xs[i], n)
  {
    forall x ensures x in xs <==> Within(vertices, d, x, max) {
      if Within(vertices, d, x, max) {
        var n :| 1 <= n <= max && Walk(vertices, d, x, n);
        AllFound(vertices, d, max, dist, x, n);
      }
    }
    forall i, j, n: nat | 0 <= i < j < |xs| && Within(vertices, d, xs[j], n) ensures Within(vertices, d, xs[i], n) {
      var m :| 1 <= m <= n && Walk(vertices, d, xs[j], m);
      if m <= max { AllFound(vertices, d, max, dist, xs[j], m); }
      assert xs[i] in dist && xs[j] in dist;
      assert dist[xs[i]] <= m && Walk(vertices, d, xs[i], dist[xs[i]]);
    }
  }

  // ---------------------------------------------------------------- descendants

  /** What was visited or queued descends from `a`; `a` itself and the children of visited vertices are among them. */
  ghost predicate Exploring(vertices: Vertices, a: Hash, visited: set<Hash>, queue: seq<Hash>)
    requires Graph(vertices)
  {
    && (forall q :: q in queue ==> Ancestor(vertices, a, q))
    && (forall q :: q in visited ==> Ancestor(vertices, a, q))
    && (a in visited || a in queue)
    && (forall h, p :: h in vertices && p in vertices[h].parents && p in visited ==> h in visited || h in queue)
  }

  lemma ExploreStart(vertices: Vertices, a: Hash)
    requires Graph(vertices)
    ensures Exploring(vertices, a, {}, [a])
  {
    SelfAncestor(vertices, a);
    hide Graph, Ancestor;
  }

  lemma ExploreSkip(vertices: Vertices, a: Hash, visited: set<Hash>, queue: seq<Hash>)
    requires Graph(vertices) && Exploring(vertices, a, visited, queue) && queue != [] && queue[0] in visited
    ensures Exploring(vertices, a, visited, queue[1..])
  {
    hide Graph, Ancestor;
    assert forall q :: q in queue ==> q == queue[0] || q in queue[1..];
  }

  lemma ExploreExpand(vertices: Vertices, a: Hash, visited: set<Hash>, queue: seq<Hash>, r: seq<Hash>)
    requires Graph(vertices) && Exploring(vertices, a, visited, queue) && queue != []
    requires forall x :: x in r <==>
      x in queue[1..] || (x in vertices && queue[0] in vertices[x].parents && x !in visited + {queue[0]})
    ensures Exploring(vertices, a, visited + {queue[0]}, r)
    ensures queue[0] in vertices || queue[0] == a
  {
    hide Graph, Ancestor;
    assert forall q :: q in queue ==> q == queue[0] || q in queue[1..];
    assert queue[0] in queue;
    forall q | q in r ensures Ancestor(vertices, a, q) {
      if q !in queue[1..] {
        ParentIsAncestor(vertices, queue[0], q);
        AncestorTransitive(vertices, a, queue[0], q);
      }
    }
    if queue[0] != a { AncestorIsLower(vertices, a, queue[0]); }
  }

  lemma ExploreDone(vertices: Vertices, a: Hash, visited: set<Hash>)
    requires Graph(vertices) && Exploring(vertices, a, visited, [])
    ensures forall d :: d in visited <==> Ancestor(vertices, a, d)
  {
    hide Graph, Ancestor;
    forall d | Ancestor(vertices, a, d) ensures d in visited {
      ClosedUnderChildren(vertices, visited, a, d);
    }
  }
}
