/** Breadth-first traversal of a `Graph` from a start key
    (graph-algorithms/breadth_first_search.py, class `BFSTraversal`). The
    deque is a sequence: `popleft` takes its head, `append` adds at its end.
    All four traversals share one loop shape, so they share one invariant,
    `Frontier`, and the lemmas that carry it across a step. */
module BreadthFirst {
  import opened Wrappers
  import opened Graphs

  /** Every queued or finished vertex is visited and carries its hop
      distance; nothing is queued twice; the start came first. */
  ghost predicate Seen(vs: map<Key, Vertex>, s: Key, done: seq<Key>, queue: seq<Key>, visited: set<Key>,
                       dist: map<Key, nat>)
  {
    && s in visited
    && (forall v :: v in visited <==> v in done || v in queue)
    && Distinct(done + queue) && (done + queue)[0] == s
    && (forall v :: v in visited ==> v in vs && v in dist && HopDistance(vs, s, v, dist[v]))
  }

  /** The queue is ordered by distance and spans `level` and `level + 1`;
      vertices were finished in order of distance, none beyond `level`. */
  ghost predicate Ordered(done: seq<Key>, queue: seq<Key>, dist: map<Key, nat>, level: nat) {
    && (forall v :: v in done || v in queue ==> v in dist)
    && (forall i :: 0 <= i < |queue| ==> level <= dist[queue[i]] <= level + 1)
    && (forall i, j :: 0 <= i < j < |queue| ==> dist[queue[i]] <= dist[queue[j]])
    && (forall i, j :: 0 <= i < j < |done| ==> dist[done[i]] <= dist[done[j]])
    && (forall i :: 0 <= i < |done| ==> dist[done[i]] <= level)
  }

  /** Every neighbour of a finished vertex has been visited, except the
      neighbours of `cur` from position `k` on. */
  ghost predicate Scanned(vs: map<Key, Vertex>, done: seq<Key>, visited: set<Key>, cur: Key, k: nat) {
    forall u, i :: u in done && u in vs && 0 <= i < |vs[u].neighbors| && (u != cur || i < k) ==>
      vs[u].neighbors[i] in visited
  }

  /** Every vertex fewer than `level` edges from `s` is finished. */
  ghost predicate Layered(vs: map<Key, Vertex>, s: Key, done: seq<Key>, level: nat) {
    forall p :: IsWalk(vs, p) && p[0] == s && |p| <= level ==> p[|p| - 1] in done
  }

  /** The state of a traversal from `s` between two steps: `done` are the
      vertices taken off the queue (in order), `queue` the ones waiting,
      `visited` both together, `dist` their hop distances; `cur` is the
      last vertex taken off, at distance `level`, and its first `k`
      neighbours have been looked at. */
  ghost predicate Frontier(vs: map<Key, Vertex>, s: Key, done: seq<Key>, queue: seq<Key>, visited: set<Key>,
                           dist: map<Key, nat>, level: nat, cur: Key, k: nat)
  {
    && Closed(vs) && cur in vs && k <= |vs[cur].neighbors|
    && Seen(vs, s, done, queue, visited, dist)
    && Ordered(done, queue, dist, level)
    && Scanned(vs, done, visited, cur, k)
    && Layered(vs, s, done, level)
    && (done != [] ==> done[|done| - 1] == cur && dist[cur] == level)
  }

  /** The queued and finished vertices are distinct vertices of the graph,
      so there are at most as many as the graph has. */
  lemma Occupancy(vs: map<Key, Vertex>, s: Key, done: seq<Key>, queue: seq<Key>, visited: set<Key>,
                  dist: map<Key, nat>)
    requires Seen(vs, s, done, queue, visited, dist)
    ensures |done| + |queue| <= |vs|
  {
    DistinctSize(done + queue, vs.Keys);
  }

  /** The state right after the start vertex is queued. */
  lemma Start(vs: map<Key, Vertex>, s: Key)
    requires Closed(vs) && s in vs
    ensures Frontier(vs, s, [], [s], {s}, map[s := 0], 0, s, |vs[s].neighbors|)
  {
    StartHop(vs, s);
    assert [] + [s] == [s];
  }

  /** Taking the head of the queue once `cur` is finished. */
  lemma Pop(vs: map<Key, Vertex>, s: Key, done: seq<Key>, queue: seq<Key>, visited: set<Key>,
            dist: map<Key, nat>, level: nat, cur: Key)
    requires cur in vs && Frontier(vs, s, done, queue, visited, dist, level, cur, |vs[cur].neighbors|)
    requires queue != []
    ensures Frontier(vs, s, done + [queue[0]], queue[1..], visited, dist, dist[queue[0]], queue[0], 0)
    ensures level <= dist[queue[0]] <= level + 1
  {
    var u := queue[0];
    PopSeen(vs, s, done, queue, visited, dist);
    PopOrdered(done, queue, dist, level);
    PopScanned(vs, done, visited, cur, u);
    PopLayered(vs, s, done, queue, visited, dist, level, cur);
  }

  lemma PopSeen(vs: map<Key, Vertex>, s: Key, done: seq<Key>, queue: seq<Key>, visited: set<Key>, dist: map<Key, nat>)
    requires Seen(vs, s, done, queue, visited, dist) && queue != []
    ensures Seen(vs, s, done + [queue[0]], queue[1..], visited, dist)
    ensures queue[0] !in done
  {
    assert queue == [queue[0]] + queue[1..];
    assert (done + [queue[0]]) + queue[1..] == done + queue;
    forall i | 0 <= i < |done|
      ensures done[i] != queue[0]
    {
      assert (done + queue)[i] == done[i] && (done + queue)[|done|] == queue[0];
    }
  }

  lemma PopOrdered(done: seq<Key>, queue: seq<Key>, dist: map<Key, nat>, level: nat)
    requires Ordered(done, queue, dist, level) && queue != []
    ensures Ordered(done + [queue[0]], queue[1..], dist, dist[queue[0]])
    ensures level <= dist[queue[0]] <= level + 1
  {
    var u, rest := queue[0], queue[1..];
    forall i, j | 0 <= i < j < |rest|
      ensures dist[rest[i]] <= dist[rest[j]]
    {
      assert rest[i] == queue[i + 1] && rest[j] == queue[j + 1];
    }
    forall i | 0 <= i < |rest|
      ensures dist[u] <= dist[rest[i]] <= dist[u] + 1
    {
      assert rest[i] == queue[i + 1];
    }
  }

  lemma PopScanned(vs: map<Key, Vertex>, done: seq<Key>, visited: set<Key>, cur: Key, u: Key)
    requires cur in vs && Scanned(vs, done, visited, cur, |vs[cur].neighbors|)
    ensures Scanned(vs, done + [u], visited, u, 0)
  {
  }

  lemma PopLayered(vs: map<Key, Vertex>, s: Key, done: seq<Key>, queue: seq<Key>, visited: set<Key>,
                   dist: map<Key, nat>, level: nat, cur: Key)
    requires Closed(vs) && cur in vs && queue != []
    requires Seen(vs, s, done, queue, visited, dist) && Ordered(done, queue, dist, level)
    requires Scanned(vs, done, visited, cur, |vs[cur].neighbors|) && Layered(vs, s, done, level)
    ensures Layered(vs, s, done + [queue[0]], dist[queue[0]])
  {
    var u := queue[0];
    forall p | IsWalk(vs, p) && p[0] == s && |p| <= dist[u]
      ensures p[|p| - 1] in done || p[|p| - 1] == u
    {
      var v := p[|p| - 1];
      if |p| > level {
        OneMore(vs, s, done, visited, level, cur, p);
        assert WalkFrom(vs, p, s, v);
        if v in queue {
          QueueHead(done, queue, dist, level, v);
        }
      }
    }
  }

  /** The head of the queue is nearest. */
  lemma QueueHead(done: seq<Key>, queue: seq<Key>, dist: map<Key, nat>, level: nat, v: Key)
    requires Ordered(done, queue, dist, level) && v in queue
    ensures dist[queue[0]] <= dist[v]
  {
    var i :| 0 <= i < |queue| && queue[i] == v;
  }

  /** Once every vertex closer than `level` is finished and scanned, every
      vertex `level` edges away has been visited. */
  lemma OneMore(vs: map<Key, Vertex>, s: Key, done: seq<Key>, visited: set<Key>, level: nat, cur: Key, p: seq<Key>)
    requires Closed(vs) && cur in vs && s in visited
    requires Scanned(vs, done, visited, cur, |vs[cur].neighbors|) && Layered(vs, s, done, level)
    requires IsWalk(vs, p) && p[0] == s && |p| <= level + 1
    ensures p[|p| - 1] in visited
  {
    if |p| > 1 {
      var v := p[|p| - 1];
      var q := p[..|p| - 1];
      WalkPrefix(vs, p);
      var x := q[|q| - 1];
      assert x in done;
      assert v in vs[x].neighbors;
      var i :| 0 <= i < |vs[x].neighbors| && vs[x].neighbors[i] == v;
    }
  }

  /** Looking at a neighbour that was already visited changes nothing. */
  lemma ScanSeen(vs: map<Key, Vertex>, s: Key, done: seq<Key>, queue: seq<Key>, visited: set<Key>,
                 dist: map<Key, nat>, level: nat, cur: Key, k: nat)
    requires Frontier(vs, s, done, queue, visited, dist, level, cur, k)
    requires k < |vs[cur].neighbors| && vs[cur].neighbors[k] in visited
    ensures Frontier(vs, s, done, queue, visited, dist, level, cur, k + 1)
  {
  }

  /** A neighbour of `cur` seen for the first time is one level further
      than `cur`. */
  lemma NewDistance(vs: map<Key, Vertex>, s: Key, done: seq<Key>, visited: set<Key>,
                    dist: map<Key, nat>, level: nat, cur: Key, k: nat)
    requires Closed(vs) && cur in vs && k < |vs[cur].neighbors| && vs[cur].neighbors[k] !in visited && s in visited
    requires Scanned(vs, done, visited, cur, k) && Layered(vs, s, done, level)
    requires HopDistance(vs, s, cur, level)
    ensures HopDistance(vs, s, vs[cur].neighbors[k], level + 1)
  {
    var w := vs[cur].neighbors[k];
    assert w in vs[cur].weights;
    var pc :| WalkFrom(vs, pc, s, cur) && |pc| == level + 1;
    WalkExtend(vs, pc, w);
    assert WalkFrom(vs, pc + [w], s, w);
    forall p | WalkFrom(vs, p, s, w)
      ensures |p| >= level + 2
    {
      if |p| <= level + 1 {
        CloseWalk(vs, s, done, visited, level, cur, k, p);
      }
    }
  }

  /** While `cur` is being scanned, every vertex at most `level` edges away
      has been visited: its predecessor on the walk is finished and is not
      `cur`. */
  lemma CloseWalk(vs: map<Key, Vertex>, s: Key, done: seq<Key>, visited: set<Key>, level: nat, cur: Key, k: nat,
                  p: seq<Key>)
    requires Closed(vs) && cur in vs && s in visited
    requires Scanned(vs, done, visited, cur, k) && Layered(vs, s, done, level)
    requires HopDistance(vs, s, cur, level)
    requires IsWalk(vs, p) && p[0] == s && |p| <= level + 1
    ensures p[|p| - 1] in visited
  {
    if |p| > 1 {
      var v := p[|p| - 1];
      var q := p[..|p| - 1];
      WalkPrefix(vs, p);
      var x := q[|q| - 1];
      assert x in done;
      ShorterNotAt(vs, s, cur, level, q);
      assert v in vs[x].neighbors;
      var i :| 0 <= i < |vs[x].neighbors| && vs[x].neighbors[i] == v;
    }
  }

  /** A walk shorter than the hop distance of `t` does not end at `t`. */
  lemma ShorterNotAt(vs: map<Key, Vertex>, s: Key, t: Key, d: nat, q: seq<Key>)
    requires HopDistance(vs, s, t, d)
    requires IsWalk(vs, q) && q[0] == s && |q| <= d
    ensures q[|q| - 1] != t
  {
  }

  /** Queueing a neighbour seen for the first time, one level further than
      `cur`, keeps the state. */
  lemma ScanNew(vs: map<Key, Vertex>, s: Key, done: seq<Key>, queue: seq<Key>, visited: set<Key>,
                dist: map<Key, nat>, level: nat, cur: Key, k: nat)
    requires Frontier(vs, s, done, queue, visited, dist, level, cur, k)
    requires done != [] && k < |vs[cur].neighbors| && vs[cur].neighbors[k] !in visited
    ensures var w := vs[cur].neighbors[k];
      && HopDistance(vs, s, w, level + 1)
      && Frontier(vs, s, done, queue + [w], visited + {w}, dist[w := level + 1], level, cur, k + 1)
  {
    var w := vs[cur].neighbors[k];
    NewDistance(vs, s, done, visited, dist, level, cur, k);
    ScanNewSeen(vs, s, done, queue, visited, dist, w, level + 1);
    ScanNewOrdered(done, queue, dist, level, w);
  }

  lemma ScanNewSeen(vs: map<Key, Vertex>, s: Key, done: seq<Key>, queue: seq<Key>, visited: set<Key>,
                    dist: map<Key, nat>, w: Key, d: nat)
    requires Seen(vs, s, done, queue, visited, dist) && w !in visited && w in vs && HopDistance(vs, s, w, d)
    ensures Seen(vs, s, done, queue + [w], visited + {w}, dist[w := d])
  {
    assert (done + queue) + [w] == done + (queue + [w]);
  }

  lemma ScanNewOrdered(done: seq<Key>, queue: seq<Key>, dist: map<Key, nat>, level: nat, w: Key)
    requires Ordered(done, queue, dist, level) && w !in done && w !in queue
    ensures Ordered(done, queue + [w], dist[w := level + 1], level)
  {
    var dist' := dist[w := level + 1];
    var queue' := queue + [w];
    forall i | 0 <= i < |queue'|
      ensures level <= dist'[queue'[i]] <= level + 1
    {
      if i < |queue| {
        assert queue'[i] == queue[i];
      }
    }
    forall i, j | 0 <= i < j < |queue'|
      ensures dist'[queue'[i]] <= dist'[queue'[j]]
    {
      assert queue'[i] == queue[i];
      if j < |queue| {
        assert queue'[j] == queue[j];
      }
    }
  }

  /** How a step changes the queue: the head is gone, the rest is kept in
      order and followed by vertices at distance `d + 1`; vertices seen
      before stay seen, with their distances. */
  ghost predicate Grown(queue: seq<Key>, visited: set<Key>, dist: map<Key, nat>,
                        queue': seq<Key>, visited': set<Key>, dist': map<Key, nat>, d: nat)
  {
    && queue != [] && |queue'| >= |queue| - 1 && queue'[..|queue| - 1] == queue[1..]
    && (forall j :: |queue| - 1 <= j < |queue'| ==> queue'[j] in dist' && dist'[queue'[j]] == d + 1)
    && (forall v :: v in visited ==> v in dist && v in visited' && v in dist' && dist'[v] == dist[v])
  }

  lemma GrownPush(queue: seq<Key>, visited: set<Key>, dist: map<Key, nat>,
                  queue': seq<Key>, visited': set<Key>, dist': map<Key, nat>, d: nat, w: Key)
    requires Grown(queue, visited, dist, queue', visited', dist', d)
    requires w !in visited' && forall v :: v in queue' ==> v in visited'
    ensures Grown(queue, visited, dist, queue' + [w], visited' + {w}, dist'[w := d + 1], d)
  {
    var q := queue' + [w];
    assert q[..|queue| - 1] == queue'[..|queue| - 1];
    forall j | |queue| - 1 <= j < |q|
      ensures q[j] in dist'[w := d + 1] && dist'[w := d + 1][q[j]] == d + 1
    {
      if j < |queue'| {
        assert q[j] == queue'[j] && queue'[j] in queue';
      }
    }
  }

  /** One step of a traversal: take the head of the queue and look at its
      neighbours in order, queuing each one not seen before one level
      further out. */
  method VisitNext(vs: map<Key, Vertex>, ghost s: Key, ghost done: seq<Key>, queue: seq<Key>, visited: set<Key>,
                   ghost dist: map<Key, nat>, ghost level: nat, ghost cur: Key)
    returns (current: Key, queue': seq<Key>, visited': set<Key>, ghost dist': map<Key, nat>)
    requires cur in vs && Frontier(vs, s, done, queue, visited, dist, level, cur, |vs[cur].neighbors|)
    requires queue != []
    ensures current == queue[0] && current in vs && current in dist && level <= dist[current] <= level + 1
    ensures Frontier(vs, s, done + [current], queue', visited', dist', dist[current], current, |vs[current].neighbors|)
    ensures Grown(queue, visited, dist, queue', visited', dist', dist[current])
  {
    Pop(vs, s, done, queue, visited, dist, level, cur);
    current := queue[0];
    queue', visited', dist' := queue[1..], visited, dist;
    ghost var d := dist[current];
    var neighbors := vs[current].neighbors;
    for i := 0 to |neighbors|
      invariant Frontier(vs, s, done + [current], queue', visited', dist', d, current, i)
      invariant Grown(queue, visited, dist, queue', visited', dist', d)
    {
      var neighbor := neighbors[i];
      if neighbor !in visited' {
        ScanNew(vs, s, done + [current], queue', visited', dist', d, current, i);
        GrownPush(queue, visited, dist, queue', visited', dist', d, neighbor);
        visited' := visited' + {neighbor};
        queue' := queue' + [neighbor];
        dist' := dist'[neighbor := d + 1];
      } else {
        ScanSeen(vs, s, done + [current], queue', visited', dist', d, current, i);
      }
    }
  }

  lemma AppendAssoc(a: seq<Key>, b: seq<Key>, x: Key)
    ensures (a + b) + [x] == a + (b + [x])
  {
  }

  /** An empty queue at the end of `bfs_with_levels`: level `i` holds
      exactly the vertices `i` edges from `s`, and every reachable vertex
      is in some level. */
  lemma LevelsFinish(vs: map<Key, Vertex>, s: Key, done: seq<Key>, dist: map<Key, nat>, levels: seq<seq<Key>>,
                     visited: set<Key>)
    requires forall v :: v in done <==> Reachable(vs, s, v)
    requires forall v :: v in done ==> v in dist && HopDistance(vs, s, v, dist[v])
    requires done == Flatten(levels) && Levelled(levels, visited, dist)
    ensures forall i, v :: 0 <= i < |levels| ==> (v in levels[i] <==> HopDistance(vs, s, v, i))
    ensures forall v :: Reachable(vs, s, v) ==> exists i :: 0 <= i < |levels| && v in levels[i]
  {
    forall v | Reachable(vs, s, v)
      ensures exists i :: 0 <= i < |levels| && v in levels[i]
    {
      FlattenMember(levels, v);
    }
    forall i, v | 0 <= i < |levels|
      ensures v in levels[i] <==> HopDistance(vs, s, v, i)
    {
      FlattenMember(levels, v);
      if v in levels[i] {
        assert v in done;
      } else if HopDistance(vs, s, v, i) {
        LevelOf(vs, s, done, dist, levels, visited, v, i);
      }
    }
  }

  /** A vertex at hop distance `i` is listed in level `i`. */
  lemma LevelOf(vs: map<Key, Vertex>, s: Key, done: seq<Key>, dist: map<Key, nat>, levels: seq<seq<Key>>,
                visited: set<Key>, v: Key, i: nat)
    requires forall v :: v in done <==> Reachable(vs, s, v)
    requires forall v :: v in done ==> v in dist && HopDistance(vs, s, v, dist[v])
    requires done == Flatten(levels) && Levelled(levels, visited, dist)
    requires i < |levels| && HopDistance(vs, s, v, i)
    ensures v in levels[i]
  {
    assert Reachable(vs, s, v);
    FlattenMember(levels, v);
    var j :| 0 <= j < |levels| && v in levels[j];
    HopUnique(vs, s, v, i, j);
  }

  /** One level of `bfs_with_levels`: take off the queue as many vertices
      as it held at the start (all at distance `|levels|`), visiting each;
      they form the next level, and the queue is left holding the vertices
      at distance `|levels| + 1`. */
  method VisitLevel(vs: map<Key, Vertex>, ghost s: Key, ghost done: seq<Key>, queue: seq<Key>, visited: set<Key>,
                    ghost dist: map<Key, nat>, ghost level: nat, ghost cur: Key, ghost levels: seq<seq<Key>>)
    returns (currentLevel: seq<Key>, queue': seq<Key>, visited': set<Key>,
             ghost dist': map<Key, nat>, ghost level': nat, ghost cur': Key)
    requires cur in vs && Frontier(vs, s, done, queue, visited, dist, level, cur, |vs[cur].neighbors|)
    requires queue != [] && Levelled(levels, visited, dist) && LevelQueue(queue, dist, |queue|, |levels|)
    requires levels == [] ==> done == [] && queue == [s]
    ensures cur' in vs && Frontier(vs, s, done + currentLevel, queue', visited', dist', level', cur', |vs[cur'].neighbors|)
    ensures currentLevel != [] && Levelled(levels + [currentLevel], visited', dist')
    ensures LevelQueue(queue', dist', |queue'|, |levels| + 1)
    ensures levels == [] ==> currentLevel == [s]
  {
    currentLevel := [];
    ghost var seen := done;
    queue', visited', dist', level', cur' := queue, visited, dist, level, cur;
    var levelSize := |queue|;
    LevelledOpen(levels, visited, dist);
    for t := 0 to levelSize
      invariant seen == done + currentLevel
      invariant cur' in vs && Frontier(vs, s, seen, queue', visited', dist', level', cur', |vs[cur'].neighbors|)
      invariant Levelled(levels + [currentLevel], visited', dist')
      invariant LevelQueue(queue', dist', levelSize - t, |levels|)
      invariant t == 0 ==> currentLevel == [] && queue' == queue
      invariant t > 0 ==> currentLevel != []
      invariant levels == [] && t > 0 ==> currentLevel == [s]
    {
      assert forall v :: v in queue' ==> v in visited';
      assert levels == [] ==> t == 0 && queue'[0] == s;
      ghost var queue0, visited0, dist0 := queue', visited', dist';
      var current;
      current, queue', visited', dist' := VisitNext(vs, s, seen, queue', visited', dist', level', cur');
      LevelAdvance(levels, currentLevel, queue0, visited0, dist0, levelSize - t, queue', visited', dist');
      AppendAssoc(done, currentLevel, current);
      seen := seen + [current];
      currentLevel := currentLevel + [current];
      level', cur' := dist'[current], current;
    }
    LevelQueueNext(queue', dist', |levels|);
  }

  /** An empty queue: the finished vertices are exactly those reachable
      from `s`, each once, `s` first, in order of distance. */
  lemma Finish(vs: map<Key, Vertex>, s: Key, done: seq<Key>, visited: set<Key>,
               dist: map<Key, nat>, level: nat, cur: Key)
    requires cur in vs && Frontier(vs, s, done, [], visited, dist, level, cur, |vs[cur].neighbors|)
    ensures done != [] && done[0] == s && Distinct(done)
    ensures forall v :: v in done <==> Reachable(vs, s, v)
    ensures forall v :: v in done ==> HopDistance(vs, s, v, dist[v])
    ensures forall v :: v in visited <==> v in done
    ensures forall i, j, di, dj ::
              (0 <= i < j < |done| && HopDistance(vs, s, done[i], di) && HopDistance(vs, s, done[j], dj)) ==> di <= dj
  {
    Drained(vs, s, done, visited, dist, level, cur);
    DoneInOrder(vs, s, done, dist);
  }

  /** An empty queue, leaving out the order: the finished vertices are
      exactly the reachable ones, each with its hop distance recorded. */
  lemma Drained(vs: map<Key, Vertex>, s: Key, done: seq<Key>, visited: set<Key>,
                dist: map<Key, nat>, level: nat, cur: Key)
    requires cur in vs && Frontier(vs, s, done, [], visited, dist, level, cur, |vs[cur].neighbors|)
    ensures done != [] && done[0] == s && Distinct(done)
    ensures forall v :: v in done <==> Reachable(vs, s, v)
    ensures forall v :: v in done ==> v in dist && HopDistance(vs, s, v, dist[v])
    ensures forall v :: v in visited <==> v in done
  {
    assert done + [] == done;
    Complete(vs, s, done, visited, cur);
  }

  /** With nothing left in the queue, the finished vertices are closed
      under edges, so every vertex reachable from `s` is among them. */
  lemma Complete(vs: map<Key, Vertex>, s: Key, done: seq<Key>, visited: set<Key>, cur: Key)
    requires Closed(vs) && cur in vs && s in visited
    requires forall v :: v in visited <==> v in done
    requires Scanned(vs, done, visited, cur, |vs[cur].neighbors|)
    ensures forall v :: Reachable(vs, s, v) ==> v in done
  {
    forall u, w | u in visited && Edge(vs, u, w)
      ensures w in visited
    {
      assert w in vs[u].neighbors;
      var i :| 0 <= i < |vs[u].neighbors| && vs[u].neighbors[i] == w;
    }
    forall v | Reachable(vs, s, v)
      ensures v in done
    {
      var p :| WalkFrom(vs, p, s, v);
      WalkInside(vs, p, visited);
    }
  }

  /** Finished in order of recorded distance, with each recorded distance
      the hop distance: finished in order of hop distance. */
  lemma DoneInOrder(vs: map<Key, Vertex>, s: Key, done: seq<Key>, dist: map<Key, nat>)
    requires forall v :: v in done ==> v in dist && HopDistance(vs, s, v, dist[v])
    requires forall i, j :: 0 <= i < j < |done| ==> dist[done[i]] <= dist[done[j]]
    ensures forall i, j, di, dj ::
              (0 <= i < j < |done| && HopDistance(vs, s, done[i], di) && HopDistance(vs, s, done[j], dj)) ==> di <= dj
  {
    forall i, j, di, dj | 0 <= i < j < |done| && HopDistance(vs, s, done[i], di) && HopDistance(vs, s, done[j], dj)
      ensures di <= dj
    {
      HopUnique(vs, s, done[i], di, dist[done[i]]);
      HopUnique(vs, s, done[j], dj, dist[done[j]]);
    }
  }

  /** The levels one after another. */
  ghost function Flatten(levels: seq<seq<Key>>): seq<Key> {
    if levels == [] then [] else Flatten(levels[..|levels| - 1]) + levels[|levels| - 1]
  }

  /** A vertex is among the flattened levels exactly when it is in one of them. */
  lemma {:induction false} FlattenMember(levels: seq<seq<Key>>, v: Key)
    ensures v in Flatten(levels) <==> exists i :: 0 <= i < |levels| && v in levels[i]
    decreases |levels|
  {
    if levels != [] {
      var init := levels[..|levels| - 1];
      FlattenMember(init, v);
      assert forall i :: 0 <= i < |init| ==> init[i] == levels[i];
    }
  }

  /** Appending one more level appends its vertices. */
  lemma FlattenSnoc(levels: seq<seq<Key>>, level: seq<Key>)
    ensures Flatten(levels + [level]) == Flatten(levels) + level
  {
    assert (levels + [level])[..|levels|] == levels;
  }

  /** No level is empty. */
  ghost predicate NoEmptyLevel(levels: seq<seq<Key>>) {
    forall i :: 0 <= i < |levels| ==> levels[i] != []
  }

  /** Appending a nonempty level keeps every level nonempty. */
  lemma NoEmptyLevelSnoc(levels: seq<seq<Key>>, level: seq<Key>)
    requires NoEmptyLevel(levels) && level != []
    ensures NoEmptyLevel(levels + [level])
  {
  }

  /** Every vertex listed in `levels[i]` is visited at distance `i`. */
  ghost predicate Levelled(levels: seq<seq<Key>>, visited: set<Key>, dist: map<Key, nat>) {
    forall i, v :: 0 <= i < |levels| && v in levels[i] ==> v in visited && v in dist && dist[v] == i
  }

  /** Visiting a new vertex does not disturb the listed ones. */
  lemma LevelledVisit(levels: seq<seq<Key>>, visited: set<Key>, dist: map<Key, nat>, w: Key, d: nat)
    requires Levelled(levels, visited, dist) && w !in visited
    ensures Levelled(levels, visited + {w}, dist[w := d])
  {
  }

  /** An empty level can be opened at any time. */
  lemma LevelledOpen(levels: seq<seq<Key>>, visited: set<Key>, dist: map<Key, nat>)
    requires Levelled(levels, visited, dist)
    ensures Levelled(levels + [[]], visited, dist)
  {
  }

  /** A visited vertex at distance `|levels| - 1` can join the last level. */
  lemma LevelledJoin(levels: seq<seq<Key>>, visited: set<Key>, dist: map<Key, nat>, v: Key)
    requires levels != [] && Levelled(levels, visited, dist)
    requires v in visited && v in dist && dist[v] == |levels| - 1
    ensures Levelled(levels[..|levels| - 1] + [levels[|levels| - 1] + [v]], visited, dist)
  {
  }

  /** The first `n` queued vertices are at distance `d`, the rest at `d + 1`. */
  ghost predicate LevelQueue(queue: seq<Key>, dist: map<Key, nat>, n: int, d: nat) {
    0 <= n <= |queue| &&
    forall i :: 0 <= i < |queue| ==> queue[i] in dist && dist[queue[i]] == if i < n then d else d + 1
  }

  /** A step leaves the listed vertices where they are. */
  lemma LevelledKeep(levels: seq<seq<Key>>, queue: seq<Key>, visited: set<Key>, dist: map<Key, nat>,
                     queue': seq<Key>, visited': set<Key>, dist': map<Key, nat>, d: nat)
    requires Levelled(levels, visited, dist) && Grown(queue, visited, dist, queue', visited', dist', d)
    ensures Levelled(levels, visited', dist')
  {
  }

  /** A step takes one vertex of distance `d` off the queue and appends
      vertices of distance `d + 1`. */
  lemma LevelQueueStep(queue: seq<Key>, dist: map<Key, nat>, n: int, d: nat, visited: set<Key>,
                       queue': seq<Key>, visited': set<Key>, dist': map<Key, nat>)
    requires LevelQueue(queue, dist, n, d) && n > 0
    requires forall i :: 0 <= i < |queue| ==> queue[i] in visited
    requires Grown(queue, visited, dist, queue', visited', dist', d)
    ensures LevelQueue(queue', dist', n - 1, d)
  {
    forall i | 0 <= i < |queue'|
      ensures queue'[i] in dist' && dist'[queue'[i]] == if i < n - 1 then d else d + 1
    {
      if i < |queue| - 1 {
        assert queue'[i] == queue[1..][i] == queue[i + 1];
      }
    }
  }

  /** A step of `bfs_with_levels` takes the head of the queue, at distance
      `|levels|`, into the current level, and leaves the rest of the
      queue's first `n` vertices at that distance. */
  lemma LevelAdvance(levels: seq<seq<Key>>, currentLevel: seq<Key>, queue: seq<Key>, visited: set<Key>,
                     dist: map<Key, nat>, n: int, queue': seq<Key>, visited': set<Key>, dist': map<Key, nat>)
    requires Levelled(levels + [currentLevel], visited, dist) && LevelQueue(queue, dist, n, |levels|) && n > 0
    requires forall v :: v in queue ==> v in visited
    requires Grown(queue, visited, dist, queue', visited', dist', dist[queue[0]])
    ensures Levelled(levels + [currentLevel + [queue[0]]], visited', dist')
    ensures LevelQueue(queue', dist', n - 1, |levels|)
  {
    LevelQueuePop(queue, dist, n, |levels|);
    LevelledJoin(levels + [currentLevel], visited, dist, queue[0]);
    assert (levels + [currentLevel])[..|levels|] == levels;
    LevelledKeep(levels + [currentLevel + [queue[0]]], queue, visited, dist, queue', visited', dist', |levels|);
    assert forall i :: 0 <= i < |queue| ==> queue[i] in visited;
    LevelQueueStep(queue, dist, n, |levels|, visited, queue', visited', dist');
  }

  /** Once the current level is used up, the queue is the next level. */
  lemma LevelQueueNext(queue: seq<Key>, dist: map<Key, nat>, d: nat)
    requires LevelQueue(queue, dist, 0, d)
    ensures LevelQueue(queue, dist, |queue|, d + 1)
  {
  }

  lemma LevelQueuePop(queue: seq<Key>, dist: map<Key, nat>, n: int, d: nat)
    requires LevelQueue(queue, dist, n, d) && n > 0
    ensures LevelQueue(queue[1..], dist, n - 1, d) && dist[queue[0]] == d
  {
  }

  lemma LevelQueuePush(queue: seq<Key>, dist: map<Key, nat>, n: int, d: nat, w: Key)
    requires LevelQueue(queue, dist, n, d) && w !in queue
    ensures LevelQueue(queue + [w], dist[w := d + 1], n, d)
  {
  }

  /** Each visited vertex other than `s` records the vertex it was reached
      from: a visited vertex one level closer, joined to it by an edge. */
  ghost predicate Parents(vs: map<Key, Vertex>, s: Key, visited: set<Key>, dist: map<Key, nat>,
                          parent: map<Key, Option<Key>>)
  {
    && s in parent && parent[s] == None
    && forall v :: v in visited && v in dist && v != s ==>
         && v in parent && parent[v].Some?
         && parent[v].value in visited && parent[v].value in dist
         && Edge(vs, parent[v].value, v) && dist[v] == dist[parent[v].value] + 1
  }

  /** Recording `cur` as the parent of a newly visited `w` one level
      further out keeps the parent links consistent. */
  lemma ParentsAdd(vs: map<Key, Vertex>, s: Key, visited: set<Key>, dist: map<Key, nat>,
                   parent: map<Key, Option<Key>>, cur: Key, w: Key, level: nat)
    requires Parents(vs, s, visited, dist, parent)
    requires s in visited && w !in visited && cur in visited && cur in dist && dist[cur] == level && Edge(vs, cur, w)
    ensures Parents(vs, s, visited + {w}, dist[w := level + 1], parent[w := Some(cur)])
  {
    var visited', dist', parent' := visited + {w}, dist[w := level + 1], parent[w := Some(cur)];
    forall v | v in visited' && v in dist' && v != s
      ensures && v in parent' && parent'[v].Some?
              && parent'[v].value in visited' && parent'[v].value in dist'
              && Edge(vs, parent'[v].value, v) && dist'[v] == dist'[parent'[v].value] + 1
    {
      if v != w {
        var u := parent[v].value;
        assert u != w && parent'[v] == parent[v] && dist'[v] == dist[v] && dist'[u] == dist[u];
      } else {
        assert cur != w && dist'[cur] == level;
      }
    }
  }

  /** A walk whose length matches the hop distance has as few edges as
      any walk between the same ends. */
  lemma Found(vs: map<Key, Vertex>, s: Key, t: Key, walk: seq<Key>, d: nat)
    requires WalkFrom(vs, walk, s, t) && HopDistance(vs, s, t, d) && |walk| == d + 1
    ensures Reachable(vs, s, t)
    ensures forall q :: WalkFrom(vs, q, s, t) ==> |walk| <= |q|
  {
  }

  /** Every key of `path` is a vertex and each is joined by an edge to the
      one before it: a walk read backwards. */
  ghost predicate BackChain(vs: map<Key, Vertex>, path: seq<Key>) {
    && (forall i :: 0 <= i < |path| ==> path[i] in vs)
    && (forall i :: 0 < i < |path| ==> Edge(vs, path[i], path[i - 1]))
  }

  /** A backward chain grows by a vertex with an edge to its last key. */
  lemma BackChainSnoc(vs: map<Key, Vertex>, path: seq<Key>, c: Key)
    requires BackChain(vs, path) && c in vs
    requires path != [] ==> Edge(vs, c, path[|path| - 1])
    ensures BackChain(vs, path + [c])
  {
  }

  /** A chain of parents read backwards is a walk. */
  lemma BackwardWalk(vs: map<Key, Vertex>, path: seq<Key>)
    requires |path| > 0 && BackChain(vs, path)
    ensures IsWalk(vs, Reverse(path))
  {
    var r := Reverse(path);
    forall i | 0 < i < |r|
      ensures r[i] in vs[r[i - 1]].weights
    {
      assert r[i] == path[|path| - 1 - i] && r[i - 1] == path[|path| - 1 - i + 1];
    }
  }

  /** The reconstruction at the end of `shortest_path`: follow the parent
      links back from `endKey` to the start, then reverse. The result is a
      walk from `s` with one edge per level of `endKey`. */
  method TracePath(ghost vs: map<Key, Vertex>, ghost s: Key, endKey: Key, ghost visited: set<Key>,
                   ghost dist: map<Key, nat>, parent: map<Key, Option<Key>>) returns (path: seq<Key>)
    requires Parents(vs, s, visited, dist, parent)
    requires forall v :: v in visited ==> v in vs
    requires endKey in visited && endKey in dist && s in dist && dist[s] == 0
    ensures WalkFrom(vs, path, s, endKey) && |path| == dist[endKey] + 1
  {
    var backwards := [];
    var current: Option<Key> := Some(endKey);
    while current.Some?
      invariant current.Some? ==> current.value in visited && current.value in dist
      invariant current.Some? ==> |backwards| + dist[current.value] == dist[endKey]
      invariant backwards == [] ==> current == Some(endKey)
      invariant backwards != [] ==> backwards[0] == endKey
      invariant BackChain(vs, backwards)
      invariant current.Some? && backwards != [] ==> Edge(vs, current.value, backwards[|backwards| - 1])
      invariant current.None? ==> backwards != [] && backwards[|backwards| - 1] == s && |backwards| == dist[endKey] + 1
      decreases if current.Some? then dist[current.value] + 1 else 0
    {
      var c := current.value;
      BackChainSnoc(vs, backwards, c);
      backwards := backwards + [c];
      current := parent[c];
    }
    path := Reverse(backwards);
    BackwardWalk(vs, backwards);
  }

  class BFSTraversal {
    const graph: Graph

    constructor (graph: Graph)
      ensures this.graph == graph
    {
      this.graph := graph;
    }

    /** `bfs_basic`: the keys reachable from `startKey`, each once, the
        start first and in order of hop distance; none for an absent start. */
    method BfsBasic(startKey: Key) returns (result: seq<Key>)
      requires graph.Valid()
      ensures startKey !in graph.vertices ==> result == []
      ensures startKey in graph.vertices ==> result != [] && result[0] == startKey
      ensures Distinct(result)
      ensures forall v :: v in result <==> Reachable(graph.vertices, startKey, v)
      ensures forall i, j, di, dj ::
                (0 <= i < j < |result| && HopDistance(graph.vertices, startKey, result[i], di) &&
                 HopDistance(graph.vertices, startKey, result[j], dj)) ==> di <= dj
    {
      var vs := graph.vertices;
      if startKey !in vs {
        return [];
      }
      var visited := {startKey};
      var queue := [startKey];
      result := [];
      ghost var dist: map<Key, nat> := map[startKey := 0];
      ghost var level: nat, cur := 0, startKey;
      Start(vs, startKey);
      while queue != []
        invariant cur in vs && Frontier(vs, startKey, result, queue, visited, dist, level, cur, |vs[cur].neighbors|)
        decreases |vs| - |result|
      {
        Occupancy(vs, startKey, result, queue, visited, dist);
        var current;
        current, queue, visited, dist := VisitNext(vs, startKey, result, queue, visited, dist, level, cur);
        result := result + [current];
        level, cur := dist[current], current;
      }
      Finish(vs, startKey, result, visited, dist, level, cur);
    }

    /** `bfs_with_levels`: `levels[i]` holds exactly the vertices `i` edges
        from `startKey`, and every reachable vertex is in some level; no
        level is empty and no vertex is listed twice; no levels for an
        absent start. */
    method BfsWithLevels(startKey: Key) returns (levels: seq<seq<Key>>)
      requires graph.Valid()
      ensures startKey !in graph.vertices ==> levels == []
      ensures startKey in graph.vertices ==> levels != [] && levels[0] == [startKey]
      ensures forall i, v :: 0 <= i < |levels| ==> (v in levels[i] <==> HopDistance(graph.vertices, startKey, v, i))
      ensures forall v :: Reachable(graph.vertices, startKey, v) ==> exists i :: 0 <= i < |levels| && v in levels[i]
      ensures Distinct(Flatten(levels)) && forall i :: 0 <= i < |levels| ==> levels[i] != []
    {
      var vs := graph.vertices;
      if startKey !in vs {
        return [];
      }
      var visited := {startKey};
      var queue := [startKey];
      levels := [];
      ghost var done: seq<Key> := [];
      ghost var dist: map<Key, nat> := map[startKey := 0];
      ghost var level: nat, cur := 0, startKey;
      Start(vs, startKey);
      while queue != []
        invariant cur in vs && Frontier(vs, startKey, done, queue, visited, dist, level, cur, |vs[cur].neighbors|)
        invariant done == Flatten(levels) && Levelled(levels, visited, dist)
        invariant LevelQueue(queue, dist, |queue|, |levels|)
        invariant levels == [] ==> done == [] && queue == [startKey]
        invariant levels != [] ==> levels[0] == [startKey]
        invariant NoEmptyLevel(levels)
        decreases |vs| - |done|
      {
        Occupancy(vs, startKey, done, queue, visited, dist);
        var currentLevel;
        currentLevel, queue, visited, dist, level, cur := VisitLevel(vs, startKey, done, queue, visited, dist, level, cur, levels);
        FlattenSnoc(levels, currentLevel);
        NoEmptyLevelSnoc(levels, currentLevel);
        done := done + currentLevel;
        levels := levels + [currentLevel];
      }
      Drained(vs, startKey, done, visited, dist, level, cur);
      LevelsFinish(vs, startKey, done, dist, levels, visited);
    }

    /** `bfs_shortest_distances`: the reachable vertices, each mapped to its
        hop distance from `startKey`; empty for an absent start. */
    method BfsShortestDistances(startKey: Key) returns (distances: map<Key, nat>)
      requires graph.Valid()
      ensures startKey !in graph.vertices ==> distances == map[]
      ensures forall v :: v in distances <==> Reachable(graph.vertices, startKey, v)
      ensures forall v :: v in distances ==> HopDistance(graph.vertices, startKey, v, distances[v])
    {
      var vs := graph.vertices;
      if startKey !in vs {
        return map[];
      }
      var visited := {startKey};
      var queue := [startKey];
      distances := map[startKey := 0];
      ghost var done: seq<Key> := [];
      var currentDistance: nat := 0;
      ghost var cur := startKey;
      Start(vs, startKey);
      while queue != []
        invariant cur in vs && Frontier(vs, startKey, done, queue, visited, distances, currentDistance, cur, |vs[cur].neighbors|)
        invariant forall v :: v in distances ==> v in visited
        decreases |vs| - |done|
      {
        Occupancy(vs, startKey, done, queue, visited, distances);
        Pop(vs, startKey, done, queue, visited, distances, currentDistance, cur);
        var current := queue[0];
        queue := queue[1..];
        done := done + [current];
        currentDistance, cur := distances[current], current;
        var neighbors := vs[current].neighbors;
        for i := 0 to |neighbors|
          invariant Frontier(vs, startKey, done, queue, visited, distances, currentDistance, cur, i)
          invariant forall v :: v in distances ==> v in visited
        {
          var neighbor := neighbors[i];
          if neighbor !in visited {
            ScanNew(vs, startKey, done, queue, visited, distances, currentDistance, cur, i);
            visited := visited + {neighbor};
            queue := queue + [neighbor];
            distances := distances[neighbor := currentDistance + 1];
          } else {
            ScanSeen(vs, startKey, done, queue, visited, distances, currentDistance, cur, i);
          }
        }
      }
      Finish(vs, startKey, done, visited, distances, currentDistance, cur);
    }

    /** `shortest_path`: a walk from `startKey` to `endKey` with as few
        edges as any, or `None` when `endKey` cannot be reached; `[startKey]`
        when the two keys are equal. The start must be a vertex otherwise
        (the dictionary lookup fails). */
    method ShortestPath(startKey: Key, endKey: Key) returns (path: Option<seq<Key>>)
      requires graph.Valid()
      requires startKey == endKey || startKey in graph.vertices
      ensures startKey == endKey ==> path == Some([startKey])
      ensures startKey != endKey ==> (path.None? <==> !Reachable(graph.vertices, startKey, endKey))
      ensures startKey != endKey && path.Some? ==>
                && WalkFrom(graph.vertices, path.value, startKey, endKey)
                && forall q :: WalkFrom(graph.vertices, q, startKey, endKey) ==> |path.value| <= |q|
    {
      if startKey == endKey {
        return Some([startKey]);
      }
      var vs := graph.vertices;
      var visited := {startKey};
      var queue := [startKey];
      var parent: map<Key, Option<Key>> := map[startKey := None];
      ghost var done: seq<Key> := [];
      ghost var dist: map<Key, nat> := map[startKey := 0];
      ghost var level: nat, cur := 0, startKey;
      Start(vs, startKey);
      while queue != []
        invariant cur in vs && Frontier(vs, startKey, done, queue, visited, dist, level, cur, |vs[cur].neighbors|)
        invariant Parents(vs, startKey, visited, dist, parent)
        invariant endKey !in done
        decreases |vs| - |done|
      {
        Occupancy(vs, startKey, done, queue, visited, dist);
        Pop(vs, startKey, done, queue, visited, dist, level, cur);
        var current := queue[0];
        queue := queue[1..];
        done := done + [current];
        level, cur := dist[current], current;
        if current == endKey {
          StartHop(vs, startKey);
          HopUnique(vs, startKey, startKey, dist[startKey], 0);
          var walk := TracePath(vs, startKey, endKey, visited, dist, parent);
          Found(vs, startKey, endKey, walk, dist[endKey]);
          return Some(walk);
        }
        var neighbors := vs[current].neighbors;
        for i := 0 to |neighbors|
          invariant Frontier(vs, startKey, done, queue, visited, dist, level, cur, i)
          invariant Parents(vs, startKey, visited, dist, parent)
        {
          var neighbor := neighbors[i];
          if neighbor !in visited {
            ScanNew(vs, startKey, done, queue, visited, dist, level, cur, i);
            ParentsAdd(vs, startKey, visited, dist, parent, cur, neighbor, level);
            visited := visited + {neighbor};
            queue := queue + [neighbor];
            dist := dist[neighbor := level + 1];
            parent := parent[neighbor := Some(current)];
          } else {
            ScanSeen(vs, startKey, done, queue, visited, dist, level, cur, i);
          }
        }
      }
      Finish(vs, startKey, done, visited, dist, level, cur);
      return None;
    }
  }
}
