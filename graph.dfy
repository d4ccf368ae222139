/** The adjacency structure shared by the traversals: a dictionary from
    vertex key to vertex, each vertex holding its neighbours in insertion
    order with an edge weight (graph-algorithms/breadth_first_search.py and
    graph-algorithms/dijkstra.py define the same `Vertex` and `Graph`). A
    neighbour `Vertex` object is identified by its key. */
module Graphs {
  import opened Wrappers

  type Key = string

  datatype Vertex = Vertex(id: Key, neighbors: seq<Key>, weights: map<Key, int>)

  /** No key occurs twice. */
  predicate Distinct(s: seq<Key>) {
    forall i, j :: 0 <= i < j < |s| ==> s[i] != s[j]
  }

  /** The neighbour list is the weight dictionary's keys in insertion order. */
  ghost predicate WellFormed(v: Vertex) {
    Distinct(v.neighbors) && forall m :: m in v.weights <==> m in v.neighbors
  }

  /** `add_neighbor`: set the weight of the edge to `n`; a new neighbour goes
      to the end of the order, an existing one keeps its place. */
  function AddNeighbor(v: Vertex, n: Key, w: int): (v': Vertex)
    requires WellFormed(v)
    ensures WellFormed(v') && v'.id == v.id
    ensures v'.weights == v.weights[n := w]
    ensures |v'.neighbors| >= |v.neighbors|
    ensures forall i :: 0 <= i < |v.neighbors| ==> v'.neighbors[i] == v.neighbors[i]
  {
    if n in v.weights then v.(weights := v.weights[n := w])
    else v.(neighbors := v.neighbors + [n], weights := v.weights[n := w])
  }

  /** There is an edge from `u` to `v`. */
  ghost predicate Edge(vs: map<Key, Vertex>, u: Key, v: Key) {
    u in vs && v in vs[u].weights
  }

  /** Every vertex is stored under its own key, is well formed, and has only
      vertices of the graph as neighbours. */
  ghost predicate Closed(vs: map<Key, Vertex>) {
    forall k :: k in vs ==>
      && vs[k].id == k
      && WellFormed(vs[k])
      && forall m :: m in vs[k].weights ==> m in vs
  }

  /** Every edge weight is non-negative. */
  ghost predicate NonNegative(vs: map<Key, Vertex>) {
    forall k, m :: k in vs && m in vs[k].weights ==> vs[k].weights[m] >= 0
  }

  class Graph {
    var vertices: map<Key, Vertex>
    var numVertices: int
    const directed: bool

    ghost predicate Valid()
      reads this
    {
      numVertices == |vertices| && Closed(vertices)
    }

    constructor (directed: bool)
      ensures Valid() && vertices == map[] && this.directed == directed
    {
      vertices := map[];
      numVertices := 0;
      this.directed := directed;
    }

    /** `add_vertex`: a new key gets a fresh vertex with no neighbours and
        the count grows by one; an existing key gives `None` and changes
        nothing. */
    method AddVertex(key: Key) returns (r: Option<Vertex>)
      requires Valid()
      modifies this
      ensures Valid()
      ensures key in old(vertices) ==> r == None && vertices == old(vertices) && numVertices == old(numVertices)
      ensures key !in old(vertices) ==>
                && r == Some(Vertex(key, [], map[]))
                && vertices == old(vertices)[key := Vertex(key, [], map[])]
                && numVertices == old(numVertices) + 1
    {
      if key in vertices {
        return None;
      }
      var newVertex := Vertex(key, [], map[]);
      vertices := vertices[key := newVertex];
      numVertices := numVertices + 1;
      return Some(newVertex);
    }

    /** `add_edge`: creates missing endpoints, adds the edge `from -> to`
        with `weight`, and `to -> from` too when undirected. */
    method AddEdge(from: Key, to: Key, weight: int)
      requires Valid()
      modifies this
      ensures Valid()
      ensures vertices == WithEdge(old(vertices), from, to, weight, directed)
    {
      ghost var before := vertices;
      if from !in vertices {
        var _ := AddVertex(from);
      }
      assert vertices == WithKey(before, from);
      if to !in vertices {
        var _ := AddVertex(to);
      }
      var present := vertices;
      assert present == WithKey(WithKey(before, from), to);
      assert numVertices == |present|;
      var linked := Link(present, from, to, weight);
      if !directed {
        linked := Link(linked, to, from, weight);
      }
      assert Closed(linked) && |linked| == |present|;
      WithEdgeSteps(before, from, to, weight, directed);
      vertices := linked;
    }
  }

  /** The dictionary after `add_edge`: both endpoints present, then one
      `add_neighbor` call, or two when undirected. */
  function WithEdge(vs: map<Key, Vertex>, from: Key, to: Key, w: int, directed: bool): (r: map<Key, Vertex>)
    requires Closed(vs)
    ensures Closed(r)
  {
    var one := Link(WithKey(WithKey(vs, from), to), from, to, w);
    if directed then one else Link(one, to, from, w)
  }

  /** After `add_edge` the vertices are the old ones plus both endpoints. */
  lemma WithEdgeVertices(vs: map<Key, Vertex>, from: Key, to: Key, w: int, directed: bool)
    requires Closed(vs)
    ensures forall k :: k in WithEdge(vs, from, to, w, directed) <==> k in vs || k == from || k == to
  {
    WithEdgeSteps(vs, from, to, w, directed);
  }

  /** After `add_edge` the edges are the old ones plus `from -> to`, and
      `to -> from` when undirected. */
  lemma WithEdgeEdges(vs: map<Key, Vertex>, from: Key, to: Key, w: int, directed: bool)
    requires Closed(vs)
    ensures forall a, b :: Edge(WithEdge(vs, from, to, w, directed), a, b) <==>
              Edge(vs, a, b) || (a == from && b == to) || (!directed && a == to && b == from)
  {
    var both := WithKey(WithKey(vs, from), to);
    var one := Link(both, from, to, w);
    WithKeyEdges(vs, from);
    WithKeyEdges(WithKey(vs, from), to);
    LinkEffect(both, from, to, w);
    if !directed {
      LinkEffect(one, to, from, w);
    }
    WithEdgeSteps(vs, from, to, w, directed);
  }

  /** After `add_edge` the new edge has weight `w` (both ways when
      undirected), and every other edge keeps its weight. */
  lemma WithEdgeWeights(vs: map<Key, Vertex>, from: Key, to: Key, w: int, directed: bool)
    requires Closed(vs)
    ensures var r := WithEdge(vs, from, to, w, directed);
      && Edge(r, from, to) && r[from].weights[to] == w
      && (!directed ==> Edge(r, to, from) && r[to].weights[from] == w)
      && (forall a, b :: Edge(vs, a, b) && !(a == from && b == to) && !(!directed && a == to && b == from) ==>
            Edge(r, a, b) && r[a].weights[b] == vs[a].weights[b])
  {
    var both := WithKey(WithKey(vs, from), to);
    var one := Link(both, from, to, w);
    WithKeyEdges(vs, from);
    WithKeyEdges(WithKey(vs, from), to);
    assert forall a, b :: Edge(both, a, b) ==> both[a].weights[b] == vs[a].weights[b];
    LinkEffect(both, from, to, w);
    if !directed {
      LinkEffect(one, to, from, w);
    }
    WithEdgeSteps(vs, from, to, w, directed);
  }

  /** `add_edge` only appends to neighbour lists: every old neighbour keeps
      its position. */
  lemma WithEdgeOrder(vs: map<Key, Vertex>, from: Key, to: Key, w: int, directed: bool)
    requires Closed(vs)
    ensures forall a :: a in vs ==> Extends(WithEdge(vs, from, to, w, directed)[a].neighbors, vs[a].neighbors)
  {
    var both := WithKey(WithKey(vs, from), to);
    var one := Link(both, from, to, w);
    var r := WithEdge(vs, from, to, w, directed);
    LinkEffect(both, from, to, w);
    if !directed {
      LinkEffect(one, to, from, w);
    }
    WithEdgeSteps(vs, from, to, w, directed);
    forall a | a in vs
      ensures Extends(r[a].neighbors, vs[a].neighbors)
    {
      assert both[a] == vs[a];
      assert Extends(one[a].neighbors, both[a].neighbors);
    }
  }

  /** `WithEdge` as the sequence of updates `add_edge` makes. */
  lemma WithEdgeSteps(vs: map<Key, Vertex>, from: Key, to: Key, w: int, directed: bool)
    requires Closed(vs)
    ensures var one := Link(WithKey(WithKey(vs, from), to), from, to, w);
            WithEdge(vs, from, to, w, directed) == if directed then one else Link(one, to, from, w)
  {
  }

  /** The dictionary with `k` present: a fresh vertex when it was missing. */
  function WithKey(vs: map<Key, Vertex>, k: Key): (r: map<Key, Vertex>)
    requires Closed(vs)
    ensures Closed(r) && forall x :: x in r <==> x in vs || x == k
    ensures forall x :: x in vs ==> r[x] == vs[x]
  {
    if k in vs then vs else vs[k := Vertex(k, [], map[])]
  }

  /** Adding a key adds no edge. */
  lemma WithKeyEdges(vs: map<Key, Vertex>, k: Key)
    requires Closed(vs)
    ensures forall x, y :: Edge(WithKey(vs, k), x, y) <==> Edge(vs, x, y)
  {
  }

  /** `s` keeps every element of `t` at its place. */
  predicate Extends(s: seq<Key>, t: seq<Key>) {
    |s| >= |t| && forall i :: 0 <= i < |t| ==> s[i] == t[i]
  }

  /** One `add_neighbor` call on the vertex stored under `a`. */
  function Link(vs: map<Key, Vertex>, a: Key, b: Key, w: int): (r: map<Key, Vertex>)
    requires Closed(vs) && a in vs && b in vs
    ensures Closed(r) && |r| == |vs| && forall x :: x in r <==> x in vs
  {
    vs[a := AddNeighbor(vs[a], b, w)]
  }

  /** After `Link`, the edge `a -> b` exists with weight `w`, and no other
      edge, weight or neighbour position changes. */
  lemma LinkEffect(vs: map<Key, Vertex>, a: Key, b: Key, w: int)
    requires Closed(vs) && a in vs && b in vs
    ensures var r := Link(vs, a, b, w);
      && (forall x, y :: Edge(r, x, y) <==> Edge(vs, x, y) || (x == a && y == b))
      && Edge(r, a, b) && r[a].weights[b] == w
      && (forall x, y :: Edge(vs, x, y) && !(x == a && y == b) ==> Edge(r, x, y) && r[x].weights[y] == vs[x].weights[y])
      && (forall x :: x in vs ==> Extends(r[x].neighbors, vs[x].neighbors))
  {
  }

  /** A walk: consecutive keys are joined by edges. */
  ghost predicate IsWalk(vs: map<Key, Vertex>, p: seq<Key>) {
    && |p| > 0
    && (forall i :: 0 <= i < |p| ==> p[i] in vs)
    && (forall i :: 0 < i < |p| ==> p[i] in vs[p[i - 1]].weights)
  }

  /** A walk from `s` to `t`. */
  ghost predicate WalkFrom(vs: map<Key, Vertex>, p: seq<Key>, s: Key, t: Key) {
    IsWalk(vs, p) && p[0] == s && p[|p| - 1] == t
  }

  ghost predicate Reachable(vs: map<Key, Vertex>, s: Key, t: Key) {
    exists p :: WalkFrom(vs, p, s, t)
  }

  /** `t` is `d` edges away from `s`, and no fewer. */
  ghost predicate HopDistance(vs: map<Key, Vertex>, s: Key, t: Key, d: nat) {
    && (exists p :: WalkFrom(vs, p, s, t) && |p| == d + 1)
    && (forall p :: WalkFrom(vs, p, s, t) ==> |p| >= d + 1)
  }

  /** The sum of the edge weights along a walk. */
  ghost function WalkWeight(vs: map<Key, Vertex>, p: seq<Key>): int
    requires IsWalk(vs, p)
  {
    if |p| == 1 then 0
    else
      WalkPrefix(vs, p);
      WalkWeight(vs, p[..|p| - 1]) + vs[p[|p| - 2]].weights[p[|p| - 1]]
  }

  /** A walk extended by an edge from its end weighs that edge more. */
  lemma WalkWeightSnoc(vs: map<Key, Vertex>, p: seq<Key>, v: Key)
    requires IsWalk(vs, p) && Edge(vs, p[|p| - 1], v) && v in vs
    ensures IsWalk(vs, p + [v])
    ensures WalkWeight(vs, p + [v]) == WalkWeight(vs, p) + vs[p[|p| - 1]].weights[v]
  {
    WalkExtend(vs, p, v);
  }

  /** A walk extended by an edge into its start weighs that edge more. */
  lemma {:induction false} WalkWeightCons(vs: map<Key, Vertex>, c: Key, p: seq<Key>)
    requires IsWalk(vs, p) && c in vs && Edge(vs, c, p[0])
    ensures IsWalk(vs, [c] + p)
    ensures WalkWeight(vs, [c] + p) == vs[c].weights[p[0]] + WalkWeight(vs, p)
  {
    var q := [c] + p;
    assert IsWalk(vs, q) by {
      forall i | 0 < i < |q|
        ensures q[i] in vs[q[i - 1]].weights
      {
        if i > 1 {
          assert q[i] == p[i - 1] && q[i - 1] == p[i - 2];
        }
      }
    }
    if |p| == 1 {
      assert q[..1] == [c];
    } else {
      var init := p[..|p| - 1];
      WalkPrefix(vs, p);
      WalkWeightCons(vs, c, init);
      assert q[..|q| - 1] == [c] + init;
    }
  }

  /** With non-negative edge weights no walk weighs less than zero. */
  lemma {:induction false} WalkWeightNonNegative(vs: map<Key, Vertex>, p: seq<Key>)
    requires NonNegative(vs) && IsWalk(vs, p)
    ensures WalkWeight(vs, p) >= 0
  {
    if |p| > 1 {
      WalkPrefix(vs, p);
      WalkWeightNonNegative(vs, p[..|p| - 1]);
    }
  }

  /** The keys of `path`, last first. */
  function Reverse(path: seq<Key>): (r: seq<Key>)
    ensures |r| == |path| && forall i :: 0 <= i < |path| ==> r[i] == path[|path| - 1 - i]
  {
    if path == [] then [] else Reverse(path[1..]) + [path[0]]
  }

  /** Dropping the last step of a walk leaves a walk. */
  lemma WalkPrefix(vs: map<Key, Vertex>, p: seq<Key>)
    requires IsWalk(vs, p) && |p| > 1
    ensures IsWalk(vs, p[..|p| - 1])
  {
  }

  /** A walk extended by an edge from its end is a walk. */
  lemma WalkExtend(vs: map<Key, Vertex>, p: seq<Key>, v: Key)
    requires IsWalk(vs, p) && Edge(vs, p[|p| - 1], v) && v in vs
    ensures IsWalk(vs, p + [v]) && (p + [v])[..|p|] == p
  {
  }

  /** A sequence of distinct members of `b` is no longer than `b` is large. */
  lemma {:induction false} DistinctSize(s: seq<Key>, b: set<Key>)
    requires Distinct(s) && forall x :: x in s ==> x in b
    ensures |s| <= |b|
  {
    if s != [] {
      var last := s[|s| - 1];
      var init := s[..|s| - 1];
      forall x | x in init
        ensures x in b - {last}
      {
        var i :| 0 <= i < |init| && init[i] == x;
        assert s[i] == x;
      }
      DistinctSize(init, b - {last});
    }
  }

  /** The one-vertex walk: a vertex is 0 edges away from itself. */
  lemma StartHop(vs: map<Key, Vertex>, s: Key)
    requires s in vs
    ensures HopDistance(vs, s, s, 0)
  {
    assert WalkFrom(vs, [s], s, s);
  }

  /** A hop distance, when there is one, is unique. */
  lemma HopUnique(vs: map<Key, Vertex>, s: Key, t: Key, d1: nat, d2: nat)
    requires HopDistance(vs, s, t, d1) && HopDistance(vs, s, t, d2)
    ensures d1 == d2
  {
    var p1 :| WalkFrom(vs, p1, s, t) && |p1| == d1 + 1;
    var p2 :| WalkFrom(vs, p2, s, t) && |p2| == d2 + 1;
  }

  /** A walk that starts in a set closed under edges stays in it. */
  lemma {:induction false} WalkInside(vs: map<Key, Vertex>, p: seq<Key>, inside: set<Key>)
    requires IsWalk(vs, p) && p[0] in inside
    requires forall u, w :: u in inside && Edge(vs, u, w) ==> w in inside
    ensures p[|p| - 1] in inside
    decreases |p|
  {
    if |p| > 1 {
      var q := p[..|p| - 1];
      WalkPrefix(vs, p);
      WalkInside(vs, q, inside);
      assert Edge(vs, q[|q| - 1], p[|p| - 1]);
    }
  }
}

