/** Dijkstra's shortest paths over a weighted `Graph`
    (graph-algorithms/dijkstra.py, class `DijkstraTraversal`). `heapq` is an
    abstract priority queue: a multiset of `(distance, key)` entries from
    which an entry of least distance is taken. `INF` is the `Inf` value of
    `Dist`. Both traversals share one invariant, `Search`, and the lemmas
    that carry it across a pop and across one relaxation. */
module DijkstraSearch {
  import opened Wrappers
  import opened Graphs

  /** A tentative distance: a number, or `INF`. */
  datatype Dist = Fin(n: int) | Inf

  /** A priority-queue entry, the tuple `(distance, key)`. */
  datatype Entry = Entry(dist: int, key: Key)

  /** Python's `new_dist < distances[v]` against a number or `INF`. */
  predicate Less(x: int, d: Dist) {
    d.Inf? || x < d.n
  }

  /** `a` is no larger than `b`. */
  predicate AtMost(a: Dist, b: Dist) {
    b.Inf? || (a.Fin? && a.n <= b.n)
  }

  /** No walk from `s` to `t` weighs less than `d`. */
  ghost predicate LowerBound(vs: map<Key, Vertex>, s: Key, t: Key, d: int) {
    forall p :: WalkFrom(vs, p, s, t) ==> WalkWeight(vs, p) >= d
  }

  /** `d` is the least weight of a walk from `s` to `t`. */
  ghost predicate ShortestWeight(vs: map<Key, Vertex>, s: Key, t: Key, d: int) {
    (exists p :: WalkFrom(vs, p, s, t) && WalkWeight(vs, p) == d) && LowerBound(vs, s, t, d)
  }

  /** The least walk weight, when there is one, is unique. */
  lemma ShortestWeightUnique(vs: map<Key, Vertex>, s: Key, t: Key, d1: int, d2: int)
    requires ShortestWeight(vs, s, t, d1) && ShortestWeight(vs, s, t, d2)
    ensures d1 == d2
  {
    var p1 :| WalkFrom(vs, p1, s, t) && WalkWeight(vs, p1) == d1;
    var p2 :| WalkFrom(vs, p2, s, t) && WalkWeight(vs, p2) == d2;
  }

  /** `dist[v]` is a number no larger than `b`. */
  ghost predicate Below(dist: map<Key, Dist>, v: Key, b: int) {
    v in dist && dist[v].Fin? && dist[v].n <= b
  }

  /** The start is a vertex at distance 0, `dist` has a key per vertex, and
      before the first pop the queue holds only `(0, s)`; afterwards `s` is
      visited. */
  ghost predicate Started(vs: map<Key, Vertex>, s: Key, dist: map<Key, Dist>, visited: set<Key>,
                          pq: multiset<Entry>)
  {
    && s in vs && s in dist && dist[s] == Fin(0)
    && (forall v :: v in dist <==> v in vs)
    && (forall v :: v in visited ==> v in vs)
    && (visited == {} ==> pq == multiset{Entry(0, s)})
    && (visited != {} ==> s in visited)
  }

  /** Every finite tentative distance is the weight of a recorded walk. */
  ghost predicate Witnessed(vs: map<Key, Vertex>, s: Key, dist: map<Key, Dist>, walks: map<Key, seq<Key>>) {
    forall v :: v in dist && dist[v].Fin? ==>
      v in walks && WalkFrom(vs, walks[v], s, v) && WalkWeight(vs, walks[v]) == dist[v].n
  }

  /** A visited vertex has a finite distance that no walk undercuts. */
  ghost predicate Settled(vs: map<Key, Vertex>, s: Key, dist: map<Key, Dist>, visited: set<Key>) {
    forall v :: v in visited ==> v in dist && dist[v].Fin? && LowerBound(vs, s, v, dist[v].n)
  }

  /** Every edge from a visited vertex to an unvisited one has been relaxed,
      except the edges from `cur` to the keys still `pending`. */
  ghost predicate Relaxed(vs: map<Key, Vertex>, dist: map<Key, Dist>, visited: set<Key>, cur: Key, pending: seq<Key>) {
    forall u, v ::
      && u in visited && u in vs && v in vs[u].weights && v !in visited
      && u in dist && dist[u].Fin? && !(u == cur && v in pending)
      ==> Below(dist, v, dist[u].n + vs[u].weights[v])
  }

  /** Every unvisited vertex with a finite distance is queued at that
      distance; every entry is at least its key's distance (older entries
      are stale) and at least every visited vertex's distance. */
  ghost predicate Queued(vs: map<Key, Vertex>, dist: map<Key, Dist>, visited: set<Key>, pq: multiset<Entry>) {
    && (forall v :: v in dist && v !in visited && dist[v].Fin? ==> Entry(dist[v].n, v) in pq)
    && (forall e :: e in pq ==> e.key in vs && Below(dist, e.key, e.dist))
    && (forall u, e :: u in visited && u in dist && dist[u].Fin? && e in pq ==> dist[u].n <= e.dist)
  }

  /** The state of a search from `s` between two steps. */
  ghost predicate Search(vs: map<Key, Vertex>, s: Key, dist: map<Key, Dist>, visited: set<Key>, pq: multiset<Entry>,
                         walks: map<Key, seq<Key>>, cur: Key, pending: seq<Key>)
  {
    && Closed(vs) && NonNegative(vs)
    && Started(vs, s, dist, visited, pq)
    && Witnessed(vs, s, dist, walks)
    && Settled(vs, s, dist, visited)
    && Relaxed(vs, dist, visited, cur, pending)
    && Queued(vs, dist, visited, pq)
  }

  /** No visited vertex is further than `cur`, the one being processed. */
  ghost predicate Latest(dist: map<Key, Dist>, visited: set<Key>, cur: Key) {
    && cur in visited && cur in dist && dist[cur].Fin?
    && forall v :: v in visited && v in dist && dist[v].Fin? ==> dist[v].n <= dist[cur].n
  }

  /** The distances before the first pop: `INF` everywhere but `s`. */
  function InitialDistances(vs: map<Key, Vertex>, s: Key): (dist: map<Key, Dist>)
    ensures forall v :: v in dist <==> v in vs || v == s
  {
    (map v | v in vs :: Inf)[s := Fin(0)]
  }

  lemma Init(vs: map<Key, Vertex>, s: Key)
    requires Closed(vs) && NonNegative(vs) && s in vs
    ensures Search(vs, s, InitialDistances(vs, s), {}, multiset{Entry(0, s)}, map[s := [s]], s, [])
  {
    var dist := InitialDistances(vs, s);
    assert WalkFrom(vs, [s], s, s) && WalkWeight(vs, [s]) == 0;
    forall v | v in dist && dist[v].Fin?
      ensures v == s
    {
    }
  }

  /** `heappop`: take out one entry of least distance. Ties are broken by an
      unspecified choice. */
  method PopMin(pq: multiset<Entry>) returns (e: Entry, rest: multiset<Entry>)
    requires |pq| > 0
    ensures e in pq && rest == pq - multiset{e}
    ensures forall f :: f in pq ==> e.dist <= f.dist
  {
    var m := LeastEntry(pq);
    e :| e in pq && forall f :: f in pq ==> e.dist <= f.dist;
    rest := pq - multiset{e};
  }

  /** A non-empty queue has an entry of least distance. */
  lemma {:induction false} LeastEntry(pq: multiset<Entry>) returns (m: Entry)
    requires |pq| > 0
    ensures m in pq && forall f :: f in pq ==> m.dist <= f.dist
    decreases |pq|
  {
    var x :| x in pq;
    var rest := pq - multiset{x};
    assert pq == rest + multiset{x};
    if |rest| == 0 {
      m := x;
      assert rest == multiset{};
    } else {
      var r := LeastEntry(rest);
      m := if x.dist <= r.dist then x else r;
    }
  }

  /** The entry popped for an unvisited vertex carries its current
      distance: a smaller one would be queued too. */
  lemma ExactOnPop(vs: map<Key, Vertex>, dist: map<Key, Dist>, visited: set<Key>, pq: multiset<Entry>, e: Entry)
    requires Queued(vs, dist, visited, pq)
    requires e in pq && (forall f :: f in pq ==> e.dist <= f.dist) && e.key !in visited
    ensures e.key in vs && e.key in dist && dist[e.key] == Fin(e.dist)
  {
    assert Below(dist, e.key, e.dist);
    assert Entry(dist[e.key].n, e.key) in pq;
  }

  /** A walk that starts at a visited vertex and ends at an unvisited one
      weighs at least `floor`, when every unvisited finite distance is at
      least `floor`: it leaves the visited set along a relaxed edge. */
  lemma {:induction false} LeaveBound(vs: map<Key, Vertex>, s: Key, dist: map<Key, Dist>, visited: set<Key>,
                                      cur: Key, p: seq<Key>, floor: int)
    requires Closed(vs) && NonNegative(vs)
    requires Settled(vs, s, dist, visited) && Relaxed(vs, dist, visited, cur, [])
    requires forall v :: v in dist && v !in visited && dist[v].Fin? ==> dist[v].n >= floor
    requires IsWalk(vs, p) && p[0] == s && s in visited && p[|p| - 1] !in visited
    ensures WalkWeight(vs, p) >= floor
    decreases |p|
  {
    var q := p[..|p| - 1];
    var x, y := q[|q| - 1], p[|p| - 1];
    WalkPrefix(vs, p);
    assert WalkWeight(vs, p) == WalkWeight(vs, q) + vs[x].weights[y];
    assert vs[x].weights[y] >= 0;
    if x in visited {
      assert WalkFrom(vs, q, s, x);
      assert Below(dist, y, dist[x].n + vs[x].weights[y]);
    } else {
      LeaveBound(vs, s, dist, visited, cur, q, floor);
    }
  }

  /** The vertex popped fresh has its shortest distance: no walk to it
      weighs less than its entry. */
  lemma SettleOnPop(vs: map<Key, Vertex>, s: Key, dist: map<Key, Dist>, visited: set<Key>, pq: multiset<Entry>,
                    cur: Key, e: Entry)
    requires Closed(vs) && NonNegative(vs)
    requires Started(vs, s, dist, visited, pq) && Settled(vs, s, dist, visited)
    requires Relaxed(vs, dist, visited, cur, []) && Queued(vs, dist, visited, pq)
    requires e in pq && (forall f :: f in pq ==> e.dist <= f.dist) && e.key !in visited
    ensures LowerBound(vs, s, e.key, e.dist)
  {
    if visited == {} {
      assert e in multiset{Entry(0, s)};
      forall p | WalkFrom(vs, p, s, e.key)
        ensures WalkWeight(vs, p) >= e.dist
      {
        WalkWeightNonNegative(vs, p);
      }
    } else {
      forall v | v in dist && v !in visited && dist[v].Fin?
        ensures dist[v].n >= e.dist
      {
        assert Entry(dist[v].n, v) in pq;
      }
      forall p | WalkFrom(vs, p, s, e.key)
        ensures WalkWeight(vs, p) >= e.dist
      {
        LeaveBound(vs, s, dist, visited, cur, p, e.dist);
      }
    }
  }

  /** Popping an entry of an already visited vertex only drops it. */
  lemma PopStale(vs: map<Key, Vertex>, s: Key, dist: map<Key, Dist>, visited: set<Key>, pq: multiset<Entry>,
                 walks: map<Key, seq<Key>>, cur: Key, e: Entry)
    requires Search(vs, s, dist, visited, pq, walks, cur, [])
    requires e in pq && e.key in visited
    ensures Search(vs, s, dist, visited, pq - multiset{e}, walks, cur, [])
  {
    QueuedDrop(vs, dist, visited, pq, e);
  }

  /** Dropping an entry whose key is not waiting: every waiting vertex is
      still queued. */
  lemma QueuedDrop(vs: map<Key, Vertex>, dist: map<Key, Dist>, visited: set<Key>, pq: multiset<Entry>, e: Entry)
    requires Queued(vs, dist, visited, pq) && e in pq && e.key in visited
    ensures Queued(vs, dist, visited, pq - multiset{e})
  {
    var rest := pq - multiset{e};
    forall v | v in dist && v !in visited && dist[v].Fin?
      ensures Entry(dist[v].n, v) in rest
    {
      assert Entry(dist[v].n, v) in pq && Entry(dist[v].n, v) != e;
    }
  }

  /** Popping a least entry of an unvisited vertex `u` and marking `u`
      visited: its distance is final, every other visited vertex is no
      further, and all of `u`'s edges are now pending. */
  lemma PopFresh(vs: map<Key, Vertex>, s: Key, dist: map<Key, Dist>, visited: set<Key>, pq: multiset<Entry>,
                 walks: map<Key, seq<Key>>, cur: Key, e: Entry)
    requires Search(vs, s, dist, visited, pq, walks, cur, [])
    requires e in pq && (forall f :: f in pq ==> e.dist <= f.dist) && e.key !in visited
    ensures e.key in vs && e.key in dist && dist[e.key] == Fin(e.dist)
    ensures Search(vs, s, dist, visited + {e.key}, pq - multiset{e}, walks, e.key, vs[e.key].neighbors)
    ensures Latest(dist, visited + {e.key}, e.key)
  {
    ExactOnPop(vs, dist, visited, pq, e);
    SettleOnPop(vs, s, dist, visited, pq, cur, e);
    StartedVisit(vs, s, dist, visited, pq, e);
    QueuedVisit(vs, dist, visited, pq, e);
    RelaxedVisit(vs, dist, visited, cur, e.key);
  }

  /** After the first pop the start is visited. */
  lemma StartedVisit(vs: map<Key, Vertex>, s: Key, dist: map<Key, Dist>, visited: set<Key>, pq: multiset<Entry>, e: Entry)
    requires Started(vs, s, dist, visited, pq) && e in pq && e.key in vs
    ensures Started(vs, s, dist, visited + {e.key}, pq - multiset{e})
  {
    if visited == {} {
      assert e in multiset{Entry(0, s)};
    }
  }

  /** Visiting the key of a least entry: the others stay queued, and its
      distance bounds the visited ones. */
  lemma QueuedVisit(vs: map<Key, Vertex>, dist: map<Key, Dist>, visited: set<Key>, pq: multiset<Entry>, e: Entry)
    requires Queued(vs, dist, visited, pq)
    requires e in pq && (forall f :: f in pq ==> e.dist <= f.dist) && e.key !in visited
    requires e.key in dist && dist[e.key] == Fin(e.dist)
    ensures Queued(vs, dist, visited + {e.key}, pq - multiset{e})
    ensures Latest(dist, visited + {e.key}, e.key)
  {
    var rest, visited' := pq - multiset{e}, visited + {e.key};
    forall v | v in dist && v !in visited' && dist[v].Fin?
      ensures Entry(dist[v].n, v) in rest
    {
      assert Entry(dist[v].n, v) in pq && Entry(dist[v].n, v) != e;
    }
    forall u, f | u in visited' && u in dist && dist[u].Fin? && f in rest
      ensures dist[u].n <= f.dist
    {
      assert f in pq;
    }
  }

  /** Visiting `u`: every edge out of it is pending. */
  lemma RelaxedVisit(vs: map<Key, Vertex>, dist: map<Key, Dist>, visited: set<Key>, cur: Key, u: Key)
    requires Closed(vs) && Relaxed(vs, dist, visited, cur, []) && u in vs
    ensures Relaxed(vs, dist, visited + {u}, u, vs[u].neighbors)
  {
    var visited' := visited + {u};
    forall x, v | x in visited' && x in vs && v in vs[x].weights && v !in visited'
                  && x in dist && dist[x].Fin? && !(x == u && v in vs[u].neighbors)
      ensures Below(dist, v, dist[x].n + vs[x].weights[v])
    {
      assert x != u;
    }
  }

  /** Relaxing the edge to a visited neighbour does nothing. */
  lemma RelaxVisited(vs: map<Key, Vertex>, s: Key, dist: map<Key, Dist>, visited: set<Key>, pq: multiset<Entry>,
                     walks: map<Key, seq<Key>>, u: Key, pending: seq<Key>)
    requires Search(vs, s, dist, visited, pq, walks, u, pending)
    requires pending != [] && pending[0] in visited
    ensures Search(vs, s, dist, visited, pq, walks, u, pending[1..])
  {
    RelaxedDrop(vs, dist, visited, u, pending);
  }

  /** Dropping a pending key whose edge needs no relaxing. */
  lemma RelaxedDrop(vs: map<Key, Vertex>, dist: map<Key, Dist>, visited: set<Key>, u: Key, pending: seq<Key>)
    requires Relaxed(vs, dist, visited, u, pending) && pending != []
    requires pending[0] in visited || (u in vs && pending[0] in vs[u].weights && u in dist && dist[u].Fin? &&
                                       Below(dist, pending[0], dist[u].n + vs[u].weights[pending[0]]))
    ensures Relaxed(vs, dist, visited, u, pending[1..])
  {
    forall x, v | x in visited && x in vs && v in vs[x].weights && v !in visited
                  && x in dist && dist[x].Fin? && !(x == u && v in pending[1..])
      ensures Below(dist, v, dist[x].n + vs[x].weights[v])
    {
    }
  }

  /** A neighbour already at most `new_dist` away keeps its distance. */
  lemma RelaxNoGain(vs: map<Key, Vertex>, s: Key, dist: map<Key, Dist>, visited: set<Key>, pq: multiset<Entry>,
                    walks: map<Key, seq<Key>>, u: Key, pending: seq<Key>)
    requires Search(vs, s, dist, visited, pq, walks, u, pending)
    requires u in vs && pending != [] && pending[0] in vs[u].weights
    requires u in dist && dist[u].Fin? && pending[0] in dist
    requires !Less(dist[u].n + vs[u].weights[pending[0]], dist[pending[0]])
    ensures Search(vs, s, dist, visited, pq, walks, u, pending[1..])
  {
    RelaxedDrop(vs, dist, visited, u, pending);
  }

  /** `new_dist` improves on a neighbour `v`'s distance: store it, queue it,
      and record the walk through `u`. */
  lemma RelaxGain(vs: map<Key, Vertex>, s: Key, dist: map<Key, Dist>, visited: set<Key>, pq: multiset<Entry>,
                  walks: map<Key, seq<Key>>, u: Key, pending: seq<Key>, v: Key, d: int)
    requires Search(vs, s, dist, visited, pq, walks, u, pending) && Latest(dist, visited, u)
    requires u in vs && pending != [] && v == pending[0] && v in vs[u].weights && v !in visited
    requires d == dist[u].n + vs[u].weights[v] && v in dist && Less(d, dist[v])
    ensures Search(vs, s, dist[v := Fin(d)], visited, pq + multiset{Entry(d, v)}, walks[v := walks[u] + [v]], u, pending[1..])
    ensures Latest(dist[v := Fin(d)], visited, u)
  {
    assert v in vs;
    StartedGain(vs, s, dist, visited, pq, v, d);
    WitnessedGain(vs, s, dist, walks, u, v, d);
    SettledLower(vs, s, dist, visited, v, d);
    RelaxedLower(vs, dist, visited, u, pending, v, d);
    RelaxedDrop(vs, dist[v := Fin(d)], visited, u, pending);
    QueuedGain(vs, dist, visited, pq, u, v, d);
  }

  /** Lowering an unvisited vertex's distance, once the start is visited,
      keeps the start and the keys. */
  lemma StartedGain(vs: map<Key, Vertex>, s: Key, dist: map<Key, Dist>, visited: set<Key>, pq: multiset<Entry>,
                    v: Key, d: int)
    requires Started(vs, s, dist, visited, pq) && visited != {} && v !in visited && v in vs
    ensures Started(vs, s, dist[v := Fin(d)], visited, pq + multiset{Entry(d, v)})
  {
    assert s in visited && s != v;
  }

  /** Recording the walk through `u` for its improved neighbour `v`. */
  lemma WitnessedGain(vs: map<Key, Vertex>, s: Key, dist: map<Key, Dist>, walks: map<Key, seq<Key>>,
                      u: Key, v: Key, d: int)
    requires Witnessed(vs, s, dist, walks) && Closed(vs)
    requires u in vs && v in vs[u].weights && u in dist && dist[u].Fin? && d == dist[u].n + vs[u].weights[v]
    ensures Witnessed(vs, s, dist[v := Fin(d)], walks[v := walks[u] + [v]])
  {
    WalkWeightSnoc(vs, walks[u], v);
  }

  /** Lowering an unvisited vertex's distance leaves the visited ones. */
  lemma SettledLower(vs: map<Key, Vertex>, s: Key, dist: map<Key, Dist>, visited: set<Key>, v: Key, d: int)
    requires Settled(vs, s, dist, visited) && v !in visited
    ensures Settled(vs, s, dist[v := Fin(d)], visited)
  {
    forall x | x in visited
      ensures x in dist[v := Fin(d)] && dist[v := Fin(d)][x].Fin? && LowerBound(vs, s, x, dist[v := Fin(d)][x].n)
    {
      assert x != v;
    }
  }

  /** Lowering an unvisited vertex's distance keeps every relaxed edge
      relaxed. */
  lemma RelaxedLower(vs: map<Key, Vertex>, dist: map<Key, Dist>, visited: set<Key>, u: Key, pending: seq<Key>,
                     v: Key, d: int)
    requires Relaxed(vs, dist, visited, u, pending) && v !in visited && v in dist && Less(d, dist[v])
    ensures Relaxed(vs, dist[v := Fin(d)], visited, u, pending)
  {
    var dist' := dist[v := Fin(d)];
    forall x, y | x in visited && x in vs && y in vs[x].weights && y !in visited
                  && x in dist' && dist'[x].Fin? && !(x == u && y in pending)
      ensures Below(dist', y, dist'[x].n + vs[x].weights[y])
    {
      assert x != v && dist'[x] == dist[x];
      assert Below(dist, y, dist[x].n + vs[x].weights[y]);
    }
  }

  /** Queuing `(new_dist, v)` for the improved `v`: it is no nearer than
      `u`, so no nearer than any visited vertex. */
  lemma QueuedGain(vs: map<Key, Vertex>, dist: map<Key, Dist>, visited: set<Key>, pq: multiset<Entry>,
                   u: Key, v: Key, d: int)
    requires Queued(vs, dist, visited, pq) && Latest(dist, visited, u)
    requires v in vs && v !in visited && v in dist && Less(d, dist[v]) && d >= dist[u].n
    ensures Queued(vs, dist[v := Fin(d)], visited, pq + multiset{Entry(d, v)})
    ensures Latest(dist[v := Fin(d)], visited, u)
  {
    var dist', pq' := dist[v := Fin(d)], pq + multiset{Entry(d, v)};
    forall x | x in dist' && x !in visited && dist'[x].Fin?
      ensures Entry(dist'[x].n, x) in pq'
    {
      if x != v {
        assert Entry(dist[x].n, x) in pq;
      }
    }
    forall f | f in pq'
      ensures f.key in vs && Below(dist', f.key, f.dist)
    {
      if f != Entry(d, v) {
        assert f in pq && Below(dist, f.key, f.dist);
      }
    }
    forall x, f | x in visited && x in dist' && dist'[x].Fin? && f in pq'
      ensures dist'[x].n <= f.dist
    {
      assert x != v && dist'[x] == dist[x];
      if f != Entry(d, v) {
        assert f in pq;
      }
    }
    forall x | x in visited && x in dist' && dist'[x].Fin?
      ensures dist'[x].n <= dist'[u].n
    {
      assert x != v && u != v;
    }
  }

  /** Once the queue is empty, the visited vertices are exactly those with
      a finite distance, each the least walk weight. */
  lemma FinishFinite(vs: map<Key, Vertex>, s: Key, dist: map<Key, Dist>, visited: set<Key>,
                     walks: map<Key, seq<Key>>)
    requires Witnessed(vs, s, dist, walks) && Settled(vs, s, dist, visited) && Queued(vs, dist, visited, multiset{})
    ensures forall v :: v in visited <==> v in dist && dist[v].Fin?
    ensures forall v :: v in dist && dist[v].Fin? ==> ShortestWeight(vs, s, v, dist[v].n)
  {
    forall v | v in dist && dist[v].Fin?
      ensures v in visited && ShortestWeight(vs, s, v, dist[v].n)
    {
      assert WalkFrom(vs, walks[v], s, v);
    }
  }

  /** Once the queue is empty, no edge leaves the visited set, so a vertex
      left at `INF` cannot be reached. */
  lemma FinishUnreached(vs: map<Key, Vertex>, s: Key, dist: map<Key, Dist>, visited: set<Key>, cur: Key)
    requires Closed(vs) && Started(vs, s, dist, visited, multiset{})
    requires Relaxed(vs, dist, visited, cur, []) && Queued(vs, dist, visited, multiset{})
    requires forall v :: v in visited <==> v in dist && dist[v].Fin?
    ensures forall v :: v in dist && dist[v].Inf? ==> !Reachable(vs, s, v)
  {
    assert s in visited;
    forall x, y | x in visited && Edge(vs, x, y)
      ensures y in visited
    {
    }
    forall v | v in dist && dist[v].Inf?
      ensures !Reachable(vs, s, v)
    {
      if Reachable(vs, s, v) {
        var p :| WalkFrom(vs, p, s, v);
        WalkInside(vs, p, visited);
      }
    }
  }

  /** Each visited vertex other than `s` is joined by an edge from its
      parent, a vertex visited before it, and its distance is the parent's
      plus that edge; an unvisited vertex with a parent has a visited one.
      `rank` numbers the visited vertices in the order they were visited. */
  ghost predicate Parented(vs: map<Key, Vertex>, s: Key, dist: map<Key, Dist>, visited: set<Key>,
                           parent: map<Key, Option<Key>>, rank: map<Key, nat>, count: nat)
  {
    && s in parent && parent[s] == None
    && (forall v :: v in dist && dist[v].Fin? ==> v in parent)
    && (forall v :: v in visited ==> v in rank && rank[v] < count)
    && forall v :: v in parent && v != s ==> Linked(vs, dist, visited, rank, v, parent[v])
  }

  /** `p` names a visited vertex `u` with an edge `u -> v` that gives `v` its
      distance, and `u` was visited before `v` if `v` was visited at all. */
  ghost predicate Linked(vs: map<Key, Vertex>, dist: map<Key, Dist>, visited: set<Key>, rank: map<Key, nat>,
                         v: Key, p: Option<Key>)
  {
    && p.Some? && p.value in visited && p.value in rank && Edge(vs, p.value, v)
    && p.value in dist && dist[p.value].Fin? && v in dist
    && dist[v] == Fin(dist[p.value].n + vs[p.value].weights[v])
    && (v in visited ==> v in rank && rank[p.value] < rank[v])
  }

  /** Visiting `u` as the `count`-th vertex keeps the parent links. */
  lemma ParentedVisit(vs: map<Key, Vertex>, s: Key, dist: map<Key, Dist>, visited: set<Key>,
                      parent: map<Key, Option<Key>>, rank: map<Key, nat>, count: nat, u: Key)
    requires Parented(vs, s, dist, visited, parent, rank, count) && u !in visited
    ensures Parented(vs, s, dist, visited + {u}, parent, rank[u := count], count + 1)
  {
    forall v | v in parent && v != s
      ensures Linked(vs, dist, visited + {u}, rank[u := count], v, parent[v])
    {
      assert Linked(vs, dist, visited, rank, v, parent[v]);
      assert parent[v].value != u;
    }
  }

  /** Recording `u` as the parent of an improved unvisited `v` keeps the
      parent links. */
  lemma ParentedGain(vs: map<Key, Vertex>, s: Key, dist: map<Key, Dist>, visited: set<Key>,
                     parent: map<Key, Option<Key>>, rank: map<Key, nat>, count: nat, u: Key, v: Key, d: int)
    requires Parented(vs, s, dist, visited, parent, rank, count) && Closed(vs)
    requires u in visited && u in vs && v in vs[u].weights && v !in visited && v != s
    requires u in dist && dist[u].Fin? && d == dist[u].n + vs[u].weights[v]
    ensures Parented(vs, s, dist[v := Fin(d)], visited, parent[v := Some(u)], rank, count)
  {
    var dist', parent' := dist[v := Fin(d)], parent[v := Some(u)];
    forall x | x in parent' && x != s
      ensures Linked(vs, dist', visited, rank, x, parent'[x])
    {
      if x != v {
        assert Linked(vs, dist, visited, rank, x, parent[x]);
        assert parent[x].value != v;
      }
    }
  }

  /** One step of the path reconstruction: put `c` in front of a walk from
      its child to `endKey`, adding the weight of the parent edge. */
  lemma TraceStep(vs: map<Key, Vertex>, dist: map<Key, Dist>, endKey: Key, backwards: seq<Key>, c: Key)
    requires c in vs && c in dist && dist[c].Fin? && endKey in dist && dist[endKey].Fin?
    requires backwards == [] ==> c == endKey
    requires backwards != [] ==>
               var last := backwards[|backwards| - 1];
               && WalkFrom(vs, Reverse(backwards), last, endKey)
               && last in dist && dist[last].Fin?
               && WalkWeight(vs, Reverse(backwards)) + dist[last].n == dist[endKey].n
               && Edge(vs, c, last) && dist[last].n == dist[c].n + vs[c].weights[last]
    ensures WalkFrom(vs, Reverse(backwards + [c]), c, endKey)
    ensures WalkWeight(vs, Reverse(backwards + [c])) + dist[c].n == dist[endKey].n
  {
    var b := backwards + [c];
    assert Reverse(b) == [c] + Reverse(backwards);
    if backwards == [] {
      assert Reverse(b) == [c];
    } else {
      WalkWeightCons(vs, c, Reverse(backwards));
    }
  }

  /** The reconstruction at the end of `shortest_path`: follow the parent
      links back from `endKey` to the start, then reverse. The result is a
      walk from `s` whose weight is the distance of `endKey`. */
  method TracePath(ghost vs: map<Key, Vertex>, ghost s: Key, endKey: Key, ghost visited: set<Key>,
                   ghost dist: map<Key, Dist>, parent: map<Key, Option<Key>>, ghost rank: map<Key, nat>,
                   ghost count: nat) returns (path: seq<Key>)
    requires Closed(vs) && Parented(vs, s, dist, visited, parent, rank, count)
    requires s in dist && dist[s] == Fin(0) && endKey in vs && endKey in dist && dist[endKey].Fin?
    ensures WalkFrom(vs, path, s, endKey) && WalkWeight(vs, path) == dist[endKey].n
    ensures endKey == s ==> path == [s]
  {
    var backwards := [];
    var current: Option<Key> := Some(endKey);
    while current.Some?
      invariant current.Some? ==> current.value in parent && current.value in vs
      invariant current.Some? ==> current.value in dist && dist[current.value].Fin?
      invariant backwards == [] ==> current == Some(endKey)
      invariant backwards != [] ==>
                  var last := backwards[|backwards| - 1];
                  && WalkFrom(vs, Reverse(backwards), last, endKey)
                  && last in dist && dist[last].Fin?
                  && WalkWeight(vs, Reverse(backwards)) + dist[last].n == dist[endKey].n
      invariant current.Some? && backwards != [] ==>
                  var last := backwards[|backwards| - 1];
                  && current.value in visited
                  && Edge(vs, current.value, last) && dist[last].n == dist[current.value].n + vs[current.value].weights[last]
      invariant current.None? ==> backwards != [] && backwards[|backwards| - 1] == s
      invariant endKey == s ==> backwards == [] || (backwards == [s] && current.None?)
      decreases if current.None? then 0 else if current.value in visited then rank[current.value] + 1 else count + 1
    {
      var c := current.value;
      TraceStep(vs, dist, endKey, backwards, c);
      backwards := backwards + [c];
      current := parent[c];
      if c != s {
        assert Linked(vs, dist, visited, rank, c, parent[c]);
      }
    }
    path := Reverse(backwards);
    assert [s] == Reverse([s]);
  }

  /** Going from `dist` to `dist'` no distance grew, and the distances of
      the visited vertices stayed as they were. */
  ghost predicate Lowered(dist: map<Key, Dist>, dist': map<Key, Dist>, visited: set<Key>) {
    && (forall v :: v in dist ==> v in dist' && AtMost(dist'[v], dist[v]))
    && (forall v :: v in visited && v in dist ==> dist'[v] == dist[v])
  }

  lemma LoweredNone(dist: map<Key, Dist>, visited: set<Key>)
    ensures Lowered(dist, dist, visited)
  {
  }

  /** Storing a smaller distance for an unvisited vertex lowers `dist`. */
  lemma LoweredOne(dist: map<Key, Dist>, visited: set<Key>, v: Key, d: int)
    requires v in dist && v !in visited && Less(d, dist[v])
    ensures Lowered(dist, dist[v := Fin(d)], visited)
  {
  }

  lemma LoweredTrans(d0: map<Key, Dist>, d1: map<Key, Dist>, d2: map<Key, Dist>, visited: set<Key>)
    requires Lowered(d0, d1, visited) && Lowered(d1, d2, visited)
    ensures Lowered(d0, d2, visited)
  {
  }

  /** Relax the edge from `current` to `neighbor`, the first of the keys
      still `pending`: skip a visited neighbour, and store and queue
      `new_dist` when it improves on the neighbour's distance. */
  method RelaxEdge(vs: map<Key, Vertex>, ghost s: Key, current: Key, currentDist: int, neighbor: Key,
                   dist: map<Key, Dist>, visited: set<Key>, pq: multiset<Entry>, ghost walks: map<Key, seq<Key>>,
                   ghost pending: seq<Key>)
    returns (dist': map<Key, Dist>, pq': multiset<Entry>, ghost walks': map<Key, seq<Key>>)
    requires current in vs && pending != [] && neighbor == pending[0] && neighbor in vs[current].weights
    requires Search(vs, s, dist, visited, pq, walks, current, pending)
    requires Latest(dist, visited, current) && dist[current] == Fin(currentDist)
    ensures Search(vs, s, dist', visited, pq', walks', current, pending[1..])
    ensures Latest(dist', visited, current) && dist'[current] == Fin(currentDist)
    ensures Lowered(dist, dist', visited)
  {
    dist', pq', walks' := dist, pq, walks;
    LoweredNone(dist, visited);
    if neighbor in visited {
      RelaxVisited(vs, s, dist, visited, pq, walks, current, pending);
      return;
    }
    var newDist := currentDist + vs[current].weights[neighbor];
    if Less(newDist, dist[neighbor]) {
      RelaxGain(vs, s, dist, visited, pq, walks, current, pending, neighbor, newDist);
      LoweredOne(dist, visited, neighbor, newDist);
      dist' := dist[neighbor := Fin(newDist)];
      pq' := pq + multiset{Entry(newDist, neighbor)};
      walks' := walks[neighbor := walks[current] + [neighbor]];
    } else {
      RelaxNoGain(vs, s, dist, visited, pq, walks, current, pending);
    }
  }

  /** Relax every edge out of `current`, the vertex just visited at distance
      `currentDist`. */
  method RelaxNeighbors(vs: map<Key, Vertex>, ghost s: Key, current: Key, currentDist: int,
                        dist: map<Key, Dist>, visited: set<Key>, pq: multiset<Entry>, ghost walks: map<Key, seq<Key>>)
    returns (dist': map<Key, Dist>, pq': multiset<Entry>, ghost walks': map<Key, seq<Key>>)
    requires current in vs && Search(vs, s, dist, visited, pq, walks, current, vs[current].neighbors)
    requires Latest(dist, visited, current) && dist[current] == Fin(currentDist)
    ensures Search(vs, s, dist', visited, pq', walks', current, []) && Latest(dist', visited, current)
    ensures Lowered(dist, dist', visited)
  {
    dist', pq', walks' := dist, pq, walks;
    var neighbors := vs[current].neighbors;
    ghost var pending := neighbors;
    LoweredNone(dist, visited);
    for i := 0 to |neighbors|
      invariant pending == neighbors[i..]
      invariant Search(vs, s, dist', visited, pq', walks', current, pending) && Latest(dist', visited, current)
      invariant dist'[current] == Fin(currentDist)
      invariant Lowered(dist, dist', visited)
    {
      assert pending[0] == neighbors[i] && pending[1..] == neighbors[i + 1..];
      ghost var before := dist';
      dist', pq', walks' := RelaxEdge(vs, s, current, currentDist, neighbors[i], dist', visited, pq', walks', pending);
      LoweredTrans(dist, before, dist', visited);
      pending := pending[1..];
    }
    assert pending == [];
  }

  /** `RelaxEdge` for `shortest_path`, which also records `current` as the
      parent of an improved neighbour. */
  method RelaxEdgeWithParent(vs: map<Key, Vertex>, ghost s: Key, current: Key, currentDist: int, neighbor: Key,
                             dist: map<Key, Dist>, visited: set<Key>, pq: multiset<Entry>,
                             parent: map<Key, Option<Key>>, ghost walks: map<Key, seq<Key>>,
                             ghost rank: map<Key, nat>, ghost count: nat, ghost pending: seq<Key>)
    returns (dist': map<Key, Dist>, pq': multiset<Entry>, parent': map<Key, Option<Key>>, ghost walks': map<Key, seq<Key>>)
    requires current in vs && pending != [] && neighbor == pending[0] && neighbor in vs[current].weights
    requires Search(vs, s, dist, visited, pq, walks, current, pending)
    requires Latest(dist, visited, current) && dist[current] == Fin(currentDist)
    requires Parented(vs, s, dist, visited, parent, rank, count)
    ensures Search(vs, s, dist', visited, pq', walks', current, pending[1..])
    ensures Latest(dist', visited, current) && dist'[current] == Fin(currentDist)
    ensures Parented(vs, s, dist', visited, parent', rank, count)
    ensures Lowered(dist, dist', visited)
  {
    dist', pq', parent', walks' := dist, pq, parent, walks;
    LoweredNone(dist, visited);
    if neighbor in visited {
      RelaxVisited(vs, s, dist, visited, pq, walks, current, pending);
      return;
    }
    var newDist := currentDist + vs[current].weights[neighbor];
    if Less(newDist, dist[neighbor]) {
      RelaxGain(vs, s, dist, visited, pq, walks, current, pending, neighbor, newDist);
      LoweredOne(dist, visited, neighbor, newDist);
      assert s in visited && neighbor != s;
      ParentedGain(vs, s, dist, visited, parent, rank, count, current, neighbor, newDist);
      dist' := dist[neighbor := Fin(newDist)];
      parent' := parent[neighbor := Some(current)];
      pq' := pq + multiset{Entry(newDist, neighbor)};
      walks' := walks[neighbor := walks[current] + [neighbor]];
    } else {
      RelaxNoGain(vs, s, dist, visited, pq, walks, current, pending);
    }
  }

  /** `RelaxNeighbors` for `shortest_path`, which also records `current` as
      the parent of every neighbour it improves. */
  method RelaxNeighborsWithParents(vs: map<Key, Vertex>, ghost s: Key, current: Key, currentDist: int,
                                   dist: map<Key, Dist>, visited: set<Key>, pq: multiset<Entry>,
                                   parent: map<Key, Option<Key>>, ghost walks: map<Key, seq<Key>>,
                                   ghost rank: map<Key, nat>, ghost count: nat)
    returns (dist': map<Key, Dist>, pq': multiset<Entry>, parent': map<Key, Option<Key>>, ghost walks': map<Key, seq<Key>>)
    requires current in vs && Search(vs, s, dist, visited, pq, walks, current, vs[current].neighbors)
    requires Latest(dist, visited, current) && dist[current] == Fin(currentDist)
    requires Parented(vs, s, dist, visited, parent, rank, count)
    ensures Search(vs, s, dist', visited, pq', walks', current, []) && Latest(dist', visited, current)
    ensures Parented(vs, s, dist', visited, parent', rank, count)
    ensures Lowered(dist, dist', visited)
  {
    dist', pq', parent', walks' := dist, pq, parent, walks;
    var neighbors := vs[current].neighbors;
    ghost var pending := neighbors;
    LoweredNone(dist, visited);
    for i := 0 to |neighbors|
      invariant pending == neighbors[i..]
      invariant Search(vs, s, dist', visited, pq', walks', current, pending) && Latest(dist', visited, current)
      invariant Parented(vs, s, dist', visited, parent', rank, count)
      invariant dist'[current] == Fin(currentDist)
      invariant Lowered(dist, dist', visited)
    {
      assert pending[0] == neighbors[i] && pending[1..] == neighbors[i + 1..];
      ghost var before := dist';
      dist', pq', parent', walks' :=
        RelaxEdgeWithParent(vs, s, current, currentDist, neighbors[i], dist', visited, pq', parent', walks', rank, count, pending);
      LoweredTrans(dist, before, dist', visited);
      pending := pending[1..];
    }
    assert pending == [];
  }

  class DijkstraTraversal {
    const graph: Graph

    constructor (graph: Graph)
      ensures this.graph == graph
    {
      this.graph := graph;
    }

    /** `dijkstra_distances`: a distance for every vertex, the least walk
        weight from `startKey` or `INF` when there is no walk; empty for an
        absent start. `processed` lists the vertices in the order they were
        taken off the queue for processing: each once, exactly those with a
        finite distance. */
    method DijkstraDistances(startKey: Key) returns (distances: map<Key, Dist>, ghost processed: seq<Key>)
      requires graph.Valid() && NonNegative(graph.vertices)
      ensures startKey !in graph.vertices ==> distances == map[]
      ensures startKey in graph.vertices ==>
                (forall v :: v in distances <==> v in graph.vertices) && distances[startKey] == Fin(0)
      ensures forall v :: v in distances && distances[v].Fin? ==> ShortestWeight(graph.vertices, startKey, v, distances[v].n)
      ensures forall v :: v in distances && distances[v].Inf? ==> !Reachable(graph.vertices, startKey, v)
      ensures Distinct(processed) && forall v :: v in processed <==> v in distances && distances[v].Fin?
    {
      var vs := graph.vertices;
      if startKey !in vs {
        return map[], [];
      }
      distances := InitialDistances(vs, startKey);
      var pq := multiset{Entry(0, startKey)};
      var visited: set<Key> := {};
      ghost var walks := map[startKey := [startKey]];
      ghost var cur := startKey;
      processed := [];
      Init(vs, startKey);
      while |pq| > 0
        invariant Search(vs, startKey, distances, visited, pq, walks, cur, [])
        invariant Distinct(processed) && forall v :: v in processed <==> v in visited
        decreases vs.Keys - visited, |pq|
      {
        var entry, rest := PopMin(pq);
        var currentDist, currentKey := entry.dist, entry.key;
        if currentKey in visited {
          PopStale(vs, startKey, distances, visited, pq, walks, cur, entry);
          pq := rest;
        } else {
          PopFresh(vs, startKey, distances, visited, pq, walks, cur, entry);
          pq := rest;
          visited := visited + {currentKey};
          DistinctSnoc(processed, currentKey);
          processed := processed + [currentKey];
          distances, pq, walks := RelaxNeighbors(vs, startKey, currentKey, currentDist, distances, visited, pq, walks);
          cur := currentKey;
        }
      }
      FinishFinite(vs, startKey, distances, visited, walks);
      FinishUnreached(vs, startKey, distances, visited, cur);
    }

    /** `shortest_path`: a walk from `startKey` to `endKey` of least weight,
        with that weight, or `None` when either key is absent or `endKey`
        cannot be reached; `([startKey], 0)` when the keys are equal. */
    method ShortestPath(startKey: Key, endKey: Key) returns (r: Option<(seq<Key>, int)>)
      requires graph.Valid() && NonNegative(graph.vertices)
      ensures startKey !in graph.vertices || endKey !in graph.vertices ==> r == None
      ensures startKey in graph.vertices && startKey == endKey ==> r == Some(([startKey], 0))
      ensures startKey in graph.vertices && endKey in graph.vertices ==>
                (r.None? <==> !Reachable(graph.vertices, startKey, endKey))
      ensures r.Some? ==>
                && WalkFrom(graph.vertices, r.value.0, startKey, endKey)
                && r.value.1 == WalkWeight(graph.vertices, r.value.0)
                && ShortestWeight(graph.vertices, startKey, endKey, r.value.1)
    {
      var vs := graph.vertices;
      if startKey !in vs || endKey !in vs {
        return None;
      }
      var distances := InitialDistances(vs, startKey);
      var parent: map<Key, Option<Key>> := map[startKey := None];
      var pq := multiset{Entry(0, startKey)};
      var visited: set<Key> := {};
      ghost var walks := map[startKey := [startKey]];
      ghost var cur := startKey;
      ghost var rank: map<Key, nat> := map[];
      ghost var count: nat := 0;
      Init(vs, startKey);
      while |pq| > 0
        invariant Search(vs, startKey, distances, visited, pq, walks, cur, [])
        invariant Parented(vs, startKey, distances, visited, parent, rank, count)
        invariant endKey !in visited
        decreases vs.Keys - visited, |pq|
      {
        var entry, rest := PopMin(pq);
        var currentDist, currentKey := entry.dist, entry.key;
        if currentKey == endKey {
          ExactOnPop(vs, distances, visited, pq, entry);
          SettleOnPop(vs, startKey, distances, visited, pq, cur, entry);
          var path := TracePath(vs, startKey, endKey, visited, distances, parent, rank, count);
          if startKey == endKey {
            assert entry in multiset{Entry(0, startKey)};
          }
          return Some((path, distances[endKey].n));
        }
        if currentKey in visited {
          PopStale(vs, startKey, distances, visited, pq, walks, cur, entry);
          pq := rest;
        } else {
          PopFresh(vs, startKey, distances, visited, pq, walks, cur, entry);
          ParentedVisit(vs, startKey, distances, visited, parent, rank, count, currentKey);
          pq := rest;
          visited := visited + {currentKey};
          rank, count := rank[currentKey := count], count + 1;
          distances, pq, parent, walks :=
            RelaxNeighborsWithParents(vs, startKey, currentKey, currentDist, distances, visited, pq, parent, walks, rank, count);
          cur := currentKey;
        }
      }
      FinishFinite(vs, startKey, distances, visited, walks);
      FinishUnreached(vs, startKey, distances, visited, cur);
      // An unreachable `endKey` keeps `INF` and gives `None`; the function
      // also gives `None` (by falling off its end) in every other case.
      if distances[endKey] == Inf {
        return None;
      }
      return None;
    }
  }

  /** Appending a new key keeps a sequence free of repeats. */
  lemma DistinctSnoc(s: seq<Key>, x: Key)
    requires Distinct(s) && x !in s
    ensures Distinct(s + [x])
  {
  }
}
