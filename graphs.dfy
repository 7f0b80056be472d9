/**
 * The graph as the distance search sees it: vertices 0..n-1, each with a
 * list of outgoing edges and a list of reverse (incoming) edges, every edge
 * given as the vertex at its other end and a non-negative weight.
 *
 * The search treats the graph as undirected, so a walk may follow either
 * list. This module defines walks, their lengths, and what it means for a
 * vector to hold the shortest-path distances from a source, with the
 * "unreached" sentinel -1 for vertices no walk reaches.
 */
module Graphs {

  datatype Edge = Edge(end: nat, weight: nat)

  datatype Graph = Graph(edges: seq<seq<Edge>>, reverseEdges: seq<seq<Edge>>) {

    /** Number of vertices. */
    function N(): nat { |edges| }

    /** Both adjacency lists cover every vertex and every edge ends at a vertex. */
    predicate Valid() {
      |reverseEdges| == |edges| &&
      (forall u, e :: 0 <= u < |edges| && e in edges[u] ==> e.end < |edges|) &&
      (forall u, e :: 0 <= u < |reverseEdges| && e in reverseEdges[u] ==> e.end < |edges|)
    }

    /** The reverse lists mirror the forward lists: an edge u -> v of weight w is
        listed among v's reverse edges as (u, w), and the other way round. */
    ghost predicate Consistent() {
      Valid() &&
      (forall u, e :: 0 <= u < |edges| && e in edges[u] ==> Edge(u, e.weight) in reverseEdges[e.end]) &&
      (forall u, e :: 0 <= u < |reverseEdges| && e in reverseEdges[u] ==> Edge(u, e.weight) in edges[e.end])
    }

    /** Every edge has a weight of at least 1. */
    ghost predicate PositiveWeights() {
      (forall u, e :: 0 <= u < |edges| && e in edges[u] ==> e.weight > 0) &&
      (forall u, e :: 0 <= u < |reverseEdges| && e in reverseEdges[u] ==> e.weight > 0)
    }
  }

  /** The edges the search relaxes from u: its forward edges, then its reverse edges. */
  function Incident(g: Graph, u: nat): (r: seq<Edge>)
    ensures g.Valid() ==> forall e :: e in r ==> e.end < g.N()
  {
    if u < |g.edges| && u < |g.reverseEdges| then g.edges[u] + g.reverseEdges[u] else []
  }

  /** The vertex a walk from s ends at. */
  function WalkEnd(s: nat, p: seq<Edge>): nat {
    if p == [] then s else p[|p| - 1].end
  }

  /** The sum of the weights along a walk. */
  function Length(p: seq<Edge>): nat {
    if p == [] then 0 else Length(p[..|p| - 1]) + p[|p| - 1].weight
  }

  /** p is a walk from s: each step is an edge incident to where the walk has got to. */
  ghost predicate IsWalk(g: Graph, s: nat, p: seq<Edge>)
    decreases |p|
  {
    p == [] ||
    (IsWalk(g, s, p[..|p| - 1]) && p[|p| - 1] in Incident(g, WalkEnd(s, p[..|p| - 1])))
  }

  ghost predicate Reachable(g: Graph, s: nat, v: nat) {
    exists p :: IsWalk(g, s, p) && WalkEnd(s, p) == v
  }

  /** Some walk from s to v has length d. */
  ghost predicate HasWalk(g: Graph, s: nat, v: nat, d: int) {
    exists p :: IsWalk(g, s, p) && WalkEnd(s, p) == v && Length(p) == d
  }

  /** d is the length of some walk from s to v and no walk from s to v is shorter. */
  ghost predicate IsShortestDistance(g: Graph, s: nat, v: nat, d: int) {
    HasWalk(g, s, v, d) &&
    (forall p :: IsWalk(g, s, p) && WalkEnd(s, p) == v ==> d <= Length(p))
  }

  /** dist has one entry per vertex: -1 exactly for the vertices s does not reach,
      the shortest undirected distance from s for all others. */
  ghost predicate IsDistanceVector(g: Graph, s: nat, dist: seq<int>) {
    |dist| == g.N() &&
    forall v :: 0 <= v < |dist| ==>
      if dist[v] == -1 then !Reachable(g, s, v) else IsShortestDistance(g, s, v, dist[v])
  }

  /** Every edge leaving u has its end labelled, with a label at most u's plus the weight. */
  ghost predicate Relaxed(g: Graph, w: seq<int>, u: nat) {
    forall e :: e in Incident(g, u) ==>
      u < |w| && e.end < |w| && 0 <= w[e.end] && w[e.end] <= w[u] + e.weight
  }

  /** A walk to u followed by an edge incident to u is a walk to the edge's end. */
  lemma HasWalkExtend(g: Graph, s: nat, u: nat, d: int, e: Edge)
    requires HasWalk(g, s, u, d)
    requires e in Incident(g, u)
    ensures HasWalk(g, s, e.end, d + e.weight)
  {
    var p :| IsWalk(g, s, p) && WalkEnd(s, p) == u && Length(p) == d;
    WalkExtend(g, s, p, e);
  }

  lemma WalkExtend(g: Graph, s: nat, p: seq<Edge>, e: Edge)
    requires IsWalk(g, s, p)
    requires e in Incident(g, WalkEnd(s, p))
    ensures IsWalk(g, s, p + [e])
    ensures WalkEnd(s, p + [e]) == e.end
    ensures Length(p + [e]) == Length(p) + e.weight
  {
    assert (p + [e])[..|p|] == p;
  }

  /** A labelling with the source at 0 in which every labelled vertex is relaxed
      bounds every walk from the source from below. */
  lemma {:induction false} WalkLowerBound(g: Graph, s: nat, w: seq<int>, p: seq<Edge>)
    requires s < |w| && w[s] == 0
    requires forall u :: 0 <= u < |w| && w[u] >= 0 ==> Relaxed(g, w, u)
    requires IsWalk(g, s, p)
    ensures WalkEnd(s, p) < |w|
    ensures 0 <= w[WalkEnd(s, p)] <= Length(p)
    decreases |p|
  {
    if p != [] {
      var q := p[..|p| - 1];
      WalkLowerBound(g, s, w, q);
      var u := WalkEnd(s, q);
      assert p[|p| - 1] in Incident(g, u);
      assert Relaxed(g, w, u);
    }
  }

  /** The final state of the search: the source at 0, every labelled vertex relaxed
      and carrying a walk of exactly its label, every other vertex at -1.
      Such a labelling is the vector of shortest distances. */
  lemma LabellingIsDistanceVector(g: Graph, s: nat, w: seq<int>)
    requires |w| == g.N()
    requires s < |w| && w[s] == 0
    requires forall v :: 0 <= v < |w| ==> w[v] >= -1
    requires forall u :: 0 <= u < |w| && w[u] >= 0 ==> Relaxed(g, w, u)
    requires forall v :: 0 <= v < |w| && w[v] >= 0 ==> HasWalk(g, s, v, w[v])
    ensures IsDistanceVector(g, s, w)
  {
    forall v | 0 <= v < |w|
      ensures if w[v] == -1 then !Reachable(g, s, v) else IsShortestDistance(g, s, v, w[v])
    {
      if w[v] == -1 {
        if Reachable(g, s, v) {
          var p :| IsWalk(g, s, p) && WalkEnd(s, p) == v;
          WalkLowerBound(g, s, w, p);
          assert false;
        }
      } else {
        forall p | IsWalk(g, s, p) && WalkEnd(s, p) == v ensures w[v] <= Length(p) {
          WalkLowerBound(g, s, w, p);
        }
      }
    }
  }

  /** The source is at distance 0 from itself. */
  lemma SourceAtZero(g: Graph, s: nat, dist: seq<int>)
    requires s < g.N()
    requires IsDistanceVector(g, s, dist)
    ensures dist[s] == 0
  {
    assert IsWalk(g, s, []) && WalkEnd(s, []) == s;
  }

  /** The distance vector from a source is determined by the graph alone, whatever
      order the search visits vertices and edges in. */
  lemma DistanceVectorUnique(g: Graph, s: nat, d1: seq<int>, d2: seq<int>)
    requires IsDistanceVector(g, s, d1) && IsDistanceVector(g, s, d2)
    ensures d1 == d2
  {
    forall v | 0 <= v < |d1| ensures d1[v] == d2[v] {
      ShortestAgree(g, s, v, d1[v], d2[v]);
    }
  }

  lemma ShortestAgree(g: Graph, s: nat, v: nat, a: int, b: int)
    requires if a == -1 then !Reachable(g, s, v) else IsShortestDistance(g, s, v, a)
    requires if b == -1 then !Reachable(g, s, v) else IsShortestDistance(g, s, v, b)
    ensures a == b
  {
    if a != -1 && b != -1 {
      var p :| IsWalk(g, s, p) && WalkEnd(s, p) == v && Length(p) == a;
      var q :| IsWalk(g, s, q) && WalkEnd(s, q) == v && Length(q) == b;
      assert b <= a && a <= b;
    }
  }

  /** With positive weights, a vertex other than the source is at positive distance. */
  lemma PositiveDistance(g: Graph, s: nat, v: nat, d: int)
    requires g.Valid() && g.PositiveWeights()
    requires s != v
    requires IsShortestDistance(g, s, v, d)
    ensures d > 0
  {
    var p :| IsWalk(g, s, p) && WalkEnd(s, p) == v && Length(p) == d;
    assert p != [];
    var u := WalkEnd(s, p[..|p| - 1]);
    assert p[|p| - 1] in Incident(g, u);
  }

  lemma {:induction false} WalkPrepend(g: Graph, x: nat, f: Edge, q: seq<Edge>)
    requires f in Incident(g, x)
    requires IsWalk(g, f.end, q)
    ensures IsWalk(g, x, [f] + q)
    ensures WalkEnd(x, [f] + q) == WalkEnd(f.end, q)
    ensures Length([f] + q) == f.weight + Length(q)
    decreases |q|
  {
    if q == [] {
      assert [f] + q == [f] && [f][..0] == [];
      assert IsWalk(g, x, []) && WalkEnd(x, []) == x;
    } else {
      var q' := q[..|q| - 1];
      WalkPrepend(g, x, f, q');
      assert ([f] + q)[..|q|] == [f] + q';
    }
  }

  /** In a consistent graph an edge can be followed backwards. */
  lemma IncidentBack(g: Graph, u: nat, e: Edge)
    requires g.Consistent()
    requires e in Incident(g, u)
    ensures Edge(u, e.weight) in Incident(g, e.end)
  {
    assert u < |g.edges|;
    if e in g.edges[u] {
      assert Edge(u, e.weight) in g.reverseEdges[e.end];
    } else {
      assert e in g.reverseEdges[u];
      assert Edge(u, e.weight) in g.edges[e.end];
    }
  }

  /** The walk p from s traversed from its end back to s. */
  ghost function Reverse(s: nat, p: seq<Edge>): seq<Edge>
    decreases |p|
  {
    if p == [] then [] else [Edge(WalkEnd(s, p[..|p| - 1]), p[|p| - 1].weight)] + Reverse(s, p[..|p| - 1])
  }

  lemma {:induction false} ReverseIsWalk(g: Graph, s: nat, p: seq<Edge>)
    requires g.Consistent()
    requires IsWalk(g, s, p)
    ensures IsWalk(g, WalkEnd(s, p), Reverse(s, p))
    ensures WalkEnd(WalkEnd(s, p), Reverse(s, p)) == s
    ensures Length(Reverse(s, p)) == Length(p)
    decreases |p|
  {
    if p != [] {
      var q := p[..|p| - 1];
      var e := p[|p| - 1];
      var u := WalkEnd(s, q);
      ReverseIsWalk(g, s, q);
      IncidentBack(g, u, e);
      WalkPrepend(g, e.end, Edge(u, e.weight), Reverse(s, q));
    }
  }

  /** Reversing walks turns a statement about the distance from t to s into one
      about the distance from s to t. */
  lemma ShortestFlip(g: Graph, s: nat, t: nat, d: int)
    requires g.Consistent()
    requires if d == -1 then !Reachable(g, t, s) else IsShortestDistance(g, t, s, d)
    ensures if d == -1 then !Reachable(g, s, t) else IsShortestDistance(g, s, t, d)
  {
    if d == -1 {
      if Reachable(g, s, t) {
        var p :| IsWalk(g, s, p) && WalkEnd(s, p) == t;
        ReverseIsWalk(g, s, p);
        assert false;
      }
    } else {
      var q :| IsWalk(g, t, q) && WalkEnd(t, q) == s && Length(q) == d;
      ReverseIsWalk(g, t, q);
      assert IsWalk(g, s, Reverse(t, q)) && WalkEnd(s, Reverse(t, q)) == t && Length(Reverse(t, q)) == d;
      forall p | IsWalk(g, s, p) && WalkEnd(s, p) == t ensures d <= Length(p) {
        ReverseIsWalk(g, s, p);
        assert IsWalk(g, t, Reverse(s, p)) && WalkEnd(t, Reverse(s, p)) == s;
      }
    }
  }

  /** In a consistent graph the distance from s to t is the distance from t to s,
      as is the sentinel for an unreachable pair. */
  lemma DistanceSymmetric(g: Graph, s: nat, t: nat, ds: seq<int>, dt: seq<int>)
    requires g.Consistent()
    requires s < g.N() && t < g.N()
    requires IsDistanceVector(g, s, ds) && IsDistanceVector(g, t, dt)
    ensures ds[t] == dt[s]
  {
    assert |dt| == |ds| == g.N();
    ShortestFlip(g, s, t, dt[s]);
    ShortestAgree(g, s, t, ds[t], dt[s]);
  }
}
