/**
 * The single-source search of the layout: every vertex carries a scratch
 * weight, -1 for "not reached yet"; the frontier is a list that is sorted by
 * descending weight after each expansion, so that taking its last element
 * takes a vertex of least tentative distance. Both the forward and the
 * reverse edges of the vertex taken are relaxed. A vertex joins the frontier
 * only the first time it is reached; later improvements lower its weight in
 * place and the next sort moves it.
 */
module ShortestPaths {
  import opened Graphs

  /** The comparator handed to the frontier's sort: negative when the first vertex
      is the heavier one, which puts heavier vertices first. */
  function SortVertex(w1: int, w2: int): (r: int)
    ensures r < 0 <==> w1 > w2
    ensures r == 0 <==> w1 == w2
  {
    w2 - w1
  }

  /** q is in an order the sort may leave it in: every vertex is listed before each
      vertex the comparator would put ahead of it, i.e. weights never increase. */
  ghost predicate SortedByWeight(q: seq<nat>, key: seq<int>) {
    (forall i :: 0 <= i < |q| ==> q[i] < |key|) &&
    (forall i, j :: 0 <= i < j < |q| ==> SortVertex(key[q[i]], key[q[j]]) <= 0)
  }

  predicate Distinct(s: seq<nat>) {
    forall i, j :: 0 <= i < j < |s| ==> s[i] != s[j]
  }

  /** Puts x into the sorted list r, after every vertex at least as heavy as x. */
  method InsertByWeight(r: seq<nat>, x: nat, key: seq<int>) returns (r': seq<nat>)
    requires SortedByWeight(r, key) && x < |key|
    ensures SortedByWeight(r', key)
    ensures multiset(r') == multiset(r) + multiset{x}
    ensures forall v :: v in r' <==> v in r || v == x
    ensures Distinct(r) && x !in r ==> Distinct(r')
  {
    var j := 0;
    while j < |r| && key[r[j]] >= key[x]
      invariant 0 <= j <= |r|
      invariant forall i :: 0 <= i < j ==> key[r[i]] >= key[x]
    {
      j := j + 1;
    }
    r' := r[..j] + [x] + r[j..];
    InsertedSorted(r, j, x, key);
    InsertedMembers(r, j, x);
    if Distinct(r) && x !in r {
      InsertedDistinct(r, j, x);
    }
  }

  lemma InsertedMembers(r: seq<nat>, j: nat, x: nat)
    requires j <= |r|
    ensures multiset(r[..j] + [x] + r[j..]) == multiset(r) + multiset{x}
    ensures forall v :: v in r[..j] + [x] + r[j..] <==> v in r || v == x
  {
    assert r == r[..j] + r[j..];
    var r' := r[..j] + [x] + r[j..];
    assert multiset(r') == multiset(r[..j]) + multiset{x} + multiset(r[j..]);
    forall v ensures v in r' <==> v in r || v == x {
      assert v in r' <==> multiset(r')[v] > 0;
      assert v in r <==> multiset(r)[v] > 0;
    }
  }

  lemma InsertedSorted(r: seq<nat>, j: nat, x: nat, key: seq<int>)
    requires SortedByWeight(r, key) && x < |key| && j <= |r|
    requires forall i :: 0 <= i < j ==> key[r[i]] >= key[x]
    requires j < |r| ==> key[r[j]] < key[x]
    ensures SortedByWeight(r[..j] + [x] + r[j..], key)
  {
    var r' := r[..j] + [x] + r[j..];
    assert forall i :: 0 <= i < j ==> r'[i] == r[i];
    assert r'[j] == x;
    assert forall i :: j < i < |r'| ==> r'[i] == r[i - 1];
    forall i, k | 0 <= i < k < |r'| ensures SortVertex(key[r'[i]], key[r'[k]]) <= 0 {
      if k < j {
        assert SortVertex(key[r[i]], key[r[k]]) <= 0;
      } else if k == j {
      } else if i < j {
        assert SortVertex(key[r[i]], key[r[k - 1]]) <= 0;
      } else if i == j {
        assert SortVertex(key[r[j]], key[r[k - 1]]) <= 0;
      } else {
        assert SortVertex(key[r[i - 1]], key[r[k - 1]]) <= 0;
      }
    }
  }

  lemma InsertedDistinct(r: seq<nat>, j: nat, x: nat)
    requires Distinct(r) && x !in r && j <= |r|
    ensures Distinct(r[..j] + [x] + r[j..])
  {
    var r' := r[..j] + [x] + r[j..];
    assert forall i :: 0 <= i < j ==> r'[i] == r[i];
    assert r'[j] == x;
    assert forall i :: j < i < |r'| ==> r'[i] == r[i - 1];
    forall i, k | 0 <= i < k < |r'| ensures r'[i] != r'[k] {
      if k == j {
        assert r[i] in r;
      } else if i == j {
        assert r[k - 1] in r;
      } else if i < j && k > j {
        assert r'[k] == r[k - 1];
      }
    }
  }

  /** The frontier's sort: the same vertices, heaviest first. */
  method SortQueue(queue: seq<nat>, key: seq<int>) returns (sorted: seq<nat>)
    requires forall i :: 0 <= i < |queue| ==> queue[i] < |key|
    ensures SortedByWeight(sorted, key)
    ensures multiset(sorted) == multiset(queue)
    ensures forall v :: v in sorted <==> v in queue
    ensures Distinct(queue) ==> Distinct(sorted)
  {
    sorted := [];
    for i := 0 to |queue|
      invariant SortedByWeight(sorted, key)
      invariant multiset(sorted) == multiset(queue[..i])
      invariant forall v :: v in sorted <==> v in queue[..i]
      invariant Distinct(queue) ==> Distinct(sorted)
    {
      assert queue[..i + 1] == queue[..i] + [queue[i]];
      sorted := InsertByWeight(sorted, queue[i], key);
    }
    assert queue[..|queue|] == queue;
  }

  /** The bookkeeping of the search (settled holds the vertices taken from the
      frontier so far): the source is at 0; a vertex is labelled exactly when it
      is on the frontier or settled, and never both. */
  ghost predicate Labels(g: Graph, s: nat, w: seq<int>, queue: seq<nat>, settled: set<nat>) {
    g.Valid() && |w| == g.N() && s < |w| && w[s] == 0 &&
    (forall v :: 0 <= v < |w| ==> w[v] >= -1) &&
    (forall v :: v in queue ==> v < |w|) &&
    (forall v :: v in settled ==> v < |w|) &&
    Distinct(queue) &&
    (forall v :: v in queue ==> v !in settled) &&
    (forall v :: 0 <= v < |w| ==> (w[v] >= 0 <==> v in queue || v in settled))
  }

  /** Every label is the length of some walk from the source. */
  ghost predicate Witnessed(g: Graph, s: nat, w: seq<int>) {
    forall v :: 0 <= v < |w| && w[v] >= 0 ==> HasWalk(g, s, v, w[v])
  }

  /** No settled vertex is heavier than a vertex on the frontier. */
  ghost predicate Ordered(w: seq<int>, queue: seq<nat>, settled: set<nat>) {
    forall u, q :: u in settled && q in queue && u < |w| && q < |w| ==> w[u] <= w[q]
  }

  /** One relaxation of the edge e from a, on the weights w and frontier queue:
      an unreached end takes the candidate weight, a's weight plus e's, and is
      pushed; a reached end heavier than the candidate is lowered to it. */
  function RelaxStep(w: seq<int>, queue: seq<nat>, a: nat, e: Edge): (r: (seq<int>, seq<nat>))
    requires a < |w| && e.end < |w|
    ensures |r.0| == |w|
  {
    var b, c := e.end, w[a] + e.weight;
    if w[b] == -1 then (w[b := c], queue + [b])
    else if w[b] > c then (w[b := c], queue)
    else (w, queue)
  }

  /** The relaxations of the edges of list, from a, in order. */
  function RelaxList(w: seq<int>, queue: seq<nat>, a: nat, list: seq<Edge>): (r: (seq<int>, seq<nat>))
    requires a < |w| && forall e :: e in list ==> e.end < |w|
    ensures |r.0| == |w|
    decreases |list|
  {
    if list == [] then (w, queue)
    else
      var r1 := RelaxStep(w, queue, a, list[0]);
      RelaxList(r1.0, r1.1, a, list[1..])
  }

  /** Relaxes one edge e of a, which has just been taken from the frontier. */
  method RelaxEdge(weight: array<int>, a: nat, e: Edge, queue: seq<nat>) returns (queue': seq<nat>)
    requires a < weight.Length && e.end < weight.Length
    modifies weight
    ensures (weight[..], queue') == RelaxStep(old(weight[..]), queue, a, e)
  {
    queue' := queue;
    var b := e.end;
    var w := weight[a] + e.weight;
    if weight[b] == -1 {
      weight[b] := w;
      queue' := queue + [b];
    } else if weight[b] > w {
      weight[b] := w;
    }
  }

  /** Relaxes, in order, the edges in list, all leaving a. */
  method RelaxEdges(weight: array<int>, a: nat, list: seq<Edge>, queue: seq<nat>) returns (queue': seq<nat>)
    requires a < weight.Length && forall e :: e in list ==> e.end < weight.Length
    modifies weight
    ensures (weight[..], queue') == RelaxList(old(weight[..]), queue, a, list)
  {
    queue' := queue;
    for k := 0 to |list|
      invariant RelaxList(weight[..], queue', a, list[k..]) == RelaxList(old(weight[..]), queue, a, list)
    {
      assert list[k..][0] == list[k] && list[k..][1..] == list[k + 1..];
      queue' := RelaxEdge(weight, a, list[k], queue');
    }
  }

  /** One relaxation keeps the search state, a being settled and no settled vertex
      heavier than a, and it keeps the settled weights. */
  lemma RelaxStepKeeps(g: Graph, s: nat, w: seq<int>, queue: seq<nat>, settled: set<nat>, a: nat, e: Edge)
    returns (w': seq<int>, queue': seq<nat>)
    requires a < |w| && e in Incident(g, a) && a in settled
    requires Labels(g, s, w, queue, settled) && Ordered(w, queue, settled)
    requires forall u :: u in settled ==> u < |w| && w[u] <= w[a]
    ensures e.end < |w| && (w', queue') == RelaxStep(w, queue, a, e)
    ensures Labels(g, s, w', queue', settled)
    ensures Ordered(w', queue', settled)
    ensures forall u :: u in settled ==> u < |w| && w'[u] == w[u]
  {
    var b, c := e.end, w[a] + e.weight;
    assert b < |w|;
    w', queue' := RelaxStep(w, queue, a, e).0, RelaxStep(w, queue, a, e).1;
    if w[b] == -1 {
      PushLabels(g, s, w, queue, settled, b, c);
      OrderedUpdate(w, queue, settled, b, c, true);
    } else if w[b] > c {
      assert b !in settled;
      LowerLabels(g, s, w, queue, settled, b, c);
      OrderedUpdate(w, queue, settled, b, c, false);
    }
  }

  lemma PushLabels(g: Graph, s: nat, w: seq<int>, queue: seq<nat>, settled: set<nat>, b: nat, c: int)
    requires Labels(g, s, w, queue, settled)
    requires b < |w| && w[b] == -1 && c >= 0
    ensures b !in queue && b !in settled
    ensures Labels(g, s, w[b := c], queue + [b], settled)
  {
    assert Distinct(queue + [b]);
  }

  lemma LowerLabels(g: Graph, s: nat, w: seq<int>, queue: seq<nat>, settled: set<nat>, b: nat, c: int)
    requires Labels(g, s, w, queue, settled)
    requires b < |w| && 0 <= c < w[b] && b !in settled
    ensures b in queue
    ensures Labels(g, s, w[b := c], queue, settled)
  {
    var w' := w[b := c];
    forall v | 0 <= v < |w'| ensures w'[v] >= -1 && (w'[v] >= 0 <==> v in queue || v in settled) {
      if v != b {
        assert w'[v] == w[v];
      }
    }
  }

  lemma WitnessedUpdate(g: Graph, s: nat, w: seq<int>, b: nat, c: int)
    requires Witnessed(g, s, w)
    requires b < |w| && HasWalk(g, s, b, c)
    ensures Witnessed(g, s, w[b := c])
  {
    var w' := w[b := c];
    forall v | 0 <= v < |w'| && w'[v] >= 0 ensures HasWalk(g, s, v, w'[v]) {
      if v != b {
        assert w[v] >= 0;
      }
    }
  }

  /** Giving b a weight no less than every settled weight keeps the order, whether b is
      pushed or already on the frontier. */
  lemma OrderedUpdate(w: seq<int>, queue: seq<nat>, settled: set<nat>, b: nat, c: int, push: bool)
    requires Ordered(w, queue, settled)
    requires b < |w| && b !in settled
    requires forall u :: u in settled && u < |w| ==> w[u] <= c
    ensures Ordered(w[b := c], if push then queue + [b] else queue, settled)
  {
    var w' := w[b := c];
    var q' := if push then queue + [b] else queue;
    forall u, q | u in settled && q in q' && u < |w'| && q < |w'| ensures w'[u] <= w'[q] {
      assert w'[u] == w[u];
    }
  }

  /** A relaxation from a labelled vertex gives a label only along an edge from it,
      so every label stays the length of a walk. */
  lemma WitnessedStep(g: Graph, s: nat, w: seq<int>, queue: seq<nat>, a: nat, e: Edge)
    requires a < |w| && e in Incident(g, a) && e.end < |w| && w[a] >= 0
    requires Witnessed(g, s, w)
    ensures Witnessed(g, s, RelaxStep(w, queue, a, e).0)
  {
    var b, c := e.end, w[a] + e.weight;
    if w[b] == -1 || w[b] > c {
      HasWalkExtend(g, s, a, w[a], e);
      WitnessedUpdate(g, s, w, b, c);
    }
  }

  lemma {:induction false} WitnessedList(g: Graph, s: nat, w: seq<int>, queue: seq<nat>, a: nat, list: seq<Edge>)
    requires a < |w| && forall e :: e in list ==> e in Incident(g, a) && e.end < |w|
    requires w[a] >= 0 && Witnessed(g, s, w)
    ensures Witnessed(g, s, RelaxList(w, queue, a, list).0)
    decreases |list|
  {
    if list != [] {
      var r1 := RelaxStep(w, queue, a, list[0]);
      WitnessedStep(g, s, w, queue, a, list[0]);
      assert r1.0[a] >= 0;
      WitnessedList(g, s, r1.0, r1.1, a, list[1..]);
    }
  }

  /** A relaxation from a labelled vertex a leaves a's weight, lowers weights
      only and never back to -1, leaves e's end relaxed, and pushes only a vertex
      that was unreached. */
  lemma RelaxStepGrowth(w: seq<int>, queue: seq<nat>, a: nat, e: Edge)
    requires a < |w| && e.end < |w| && w[a] >= 0 && forall v :: 0 <= v < |w| ==> w[v] >= -1
    ensures var r := RelaxStep(w, queue, a, e);
      r.0[a] == w[a] &&
      (forall v :: 0 <= v < |w| && w[v] >= 0 ==> 0 <= r.0[v] <= w[v]) &&
      (forall v :: 0 <= v < |w| ==> r.0[v] >= -1) &&
      0 <= r.0[e.end] <= r.0[a] + e.weight &&
      (r.1 == queue || (r.1 == queue + [e.end] && w[e.end] == -1))
  {
    var b, c := e.end, w[a] + e.weight;
    if w[b] == -1 || w[b] > c {
      assert b != a;
      var w' := w[b := c];
      assert forall v :: 0 <= v < |w| && v != b ==> w'[v] == w[v];
    }
  }

  /** The same for a whole list of edges from a: the frontier only grows, by vertices
      that were unreached, and every edge of the list is left relaxed. */
  lemma {:induction false} RelaxListGrowth(w: seq<int>, queue: seq<nat>, a: nat, list: seq<Edge>)
    requires a < |w| && (forall e :: e in list ==> e.end < |w|) && w[a] >= 0
    requires forall v :: 0 <= v < |w| ==> w[v] >= -1
    ensures var r := RelaxList(w, queue, a, list);
      r.0[a] == w[a] &&
      (forall v :: 0 <= v < |w| && w[v] >= 0 ==> 0 <= r.0[v] <= w[v]) &&
      (forall v :: 0 <= v < |w| ==> r.0[v] >= -1) &&
      (forall e :: e in list ==> 0 <= r.0[e.end] <= r.0[a] + e.weight) &&
      |queue| <= |r.1| && r.1[..|queue|] == queue &&
      (forall v :: v in r.1 && v !in queue ==> v < |w| && w[v] == -1)
    decreases |list|
  {
    if list != [] {
      var e := list[0];
      RelaxStepGrowth(w, queue, a, e);
      var r1 := RelaxStep(w, queue, a, e);
      assert forall x :: x in list[1..] ==> x in list;
      RelaxListGrowth(r1.0, r1.1, a, list[1..]);
      var r := RelaxList(r1.0, r1.1, a, list[1..]);
      assert r == RelaxList(w, queue, a, list);
      forall x | x in list ensures 0 <= r.0[x.end] <= r.0[a] + x.weight {
        if x != e {
          assert x in list[1..];
        }
      }
      assert r1.1[..|queue|] == queue;
      assert r.1[..|queue|] == r.1[..|r1.1|][..|queue|];
    }
  }

  /** Relaxing a whole list of edges from a keeps the search state, a being settled
      and no settled vertex heavier than a, and leaves the settled weights. */
  lemma {:induction false} RelaxListKeeps(g: Graph, s: nat, w: seq<int>, queue: seq<nat>, settled: set<nat>,
                                          a: nat, list: seq<Edge>)
    returns (w': seq<int>, queue': seq<nat>)
    requires a < |w| && (forall e :: e in list ==> e in Incident(g, a)) && a in settled
    requires Labels(g, s, w, queue, settled) && Ordered(w, queue, settled)
    requires forall u :: u in settled ==> u < |w| && w[u] <= w[a]
    ensures (forall e :: e in list ==> e.end < |w|) && (w', queue') == RelaxList(w, queue, a, list)
    ensures Labels(g, s, w', queue', settled)
    ensures Ordered(w', queue', settled)
    ensures forall u :: u in settled ==> u < |w| && w'[u] == w[u]
    decreases |list|
  {
    assert g.Valid();
    if list == [] {
      w', queue' := w, queue;
    } else {
      var w1, q1 := RelaxStepKeeps(g, s, w, queue, settled, a, list[0]);
      assert forall x :: x in list[1..] ==> x in list;
      w', queue' := RelaxListKeeps(g, s, w1, q1, settled, a, list[1..]);
    }
  }

  /** The state at the head of the search loop, less the order of the frontier:
      the bookkeeping, the order between settled and frontier weights, and every
      settled vertex relaxed. */
  ghost predicate Frontier(g: Graph, s: nat, w: seq<int>, queue: seq<nat>, settled: set<nat>) {
    Labels(g, s, w, queue, settled) && Ordered(w, queue, settled) &&
    (forall u :: u in settled ==> Relaxed(g, w, u))
  }

  /** Computes the distance from vertex source to every vertex, treating every
      edge as traversable both ways; -1 marks the vertices source does not reach.
      The graph's weight scratch fields end holding the result; pops counts the
      iterations of the main loop. */
  method DijkstraFindShortestPaths(g: Graph, source: nat, weight: array<int>)
    returns (result: seq<int>, ghost pops: nat)
    requires g.Valid() && source < g.N() && weight.Length == g.N()
    modifies weight
    ensures IsDistanceVector(g, source, result)
    ensures weight[..] == result && result[source] == 0
    ensures pops <= g.N()
  {
    ResetWeights(weight, source);
    var queue := [source];
    ghost var settled: set<nat> := {};
    pops := 0;
    InitialState(g, source, weight[..]);
    while |queue| > 0
      invariant Frontier(g, source, weight[..], queue, settled)
      invariant SortedByWeight(queue, weight[..])
      invariant Witnessed(g, source, weight[..])
      invariant pops == |settled| <= g.N()
      decreases g.N() - |settled|
    {
      ghost var a0, w2, q2 := Iteration(g, source, weight[..], queue, settled);
      var a := queue[|queue| - 1];
      assert a == a0;
      queue := queue[..|queue| - 1];
      queue := RelaxEdges(weight, a, g.edges[a], queue);
      queue := RelaxEdges(weight, a, g.reverseEdges[a], queue);
      assert weight[..] == w2 && queue == q2;
      settled := settled + {a};
      pops := pops + 1;
      queue := SortQueue(queue, weight[..]);
      SortStep(g, source, w2, q2, queue, settled);
    }
    result := weight[..];
    LabellingIsDistanceVector(g, source, result);
  }

  /** Marks every vertex unreached, then puts the source at 0. */
  method ResetWeights(weight: array<int>, source: nat)
    requires source < weight.Length
    modifies weight
    ensures forall v :: 0 <= v < weight.Length ==> weight[v] == if v == source then 0 else -1
  {
    for i := 0 to weight.Length
      invariant forall k :: 0 <= k < i ==> weight[k] == -1
    {
      weight[i] := -1;
    }
    weight[source] := 0;
  }

  /** The state before the first iteration: only the source labelled, at 0, and on
      the frontier; nothing settled. */
  lemma InitialState(g: Graph, s: nat, w: seq<int>)
    requires g.Valid() && |w| == g.N() && s < |w|
    requires forall v :: 0 <= v < |w| ==> w[v] == if v == s then 0 else -1
    ensures Frontier(g, s, w, [s], {}) && SortedByWeight([s], w) && Witnessed(g, s, w)
  {
    assert IsWalk(g, s, []) && WalkEnd(s, []) == s;
  }

  /** One iteration of the search loop on the state (w, queue, settled): taking a, the
      last vertex of the frontier, and relaxing its forward and then its reverse
      edges gives (w2, q2), which keeps the state of the loop with a settled. */
  lemma Iteration(g: Graph, s: nat, w: seq<int>, queue: seq<nat>, settled: set<nat>)
    returns (a: nat, w2: seq<int>, q2: seq<nat>)
    requires Frontier(g, s, w, queue, settled) && SortedByWeight(queue, w)
    requires Witnessed(g, s, w) && |queue| > 0
    ensures a == queue[|queue| - 1] && a < |w| && a < |g.edges| && a < |g.reverseEdges| && a !in settled
    ensures |settled + {a}| == |settled| + 1 <= g.N()
    ensures forall e :: e in g.edges[a] ==> e.end < |w|
    ensures var r1 := RelaxList(w, queue[..|queue| - 1], a, g.edges[a]);
      (forall e :: e in g.reverseEdges[a] ==> e.end < |r1.0|) &&
      (w2, q2) == RelaxList(r1.0, r1.1, a, g.reverseEdges[a])
    ensures Frontier(g, s, w2, q2, settled + {a})
    ensures Witnessed(g, s, w2)
    ensures forall i :: 0 <= i < |q2| ==> q2[i] < |w2|
  {
    var n := |queue| - 1;
    a := queue[n];
    PopStep(g, s, w, queue, settled);
    var q0 := queue[..n];
    var st := settled + {a};
    SettledBound(st, g.N());
    IncidentLists(g, a);
    var mid, q1 := RelaxIncident(g, s, w, q0, st, a, g.edges[a]);
    w2, q2 := RelaxIncident(g, s, mid, q1, st, a, g.reverseEdges[a]);
    SettleStep(g, w, mid, w2, a, settled);
    assert forall i :: 0 <= i < |q2| ==> q2[i] in q2;
  }

  /** Relaxing one of the two edge lists of the settled vertex a: the search state
      and the witnesses are kept, no label grows, and every edge of the list is
      relaxed afterwards. */
  lemma RelaxIncident(g: Graph, s: nat, w: seq<int>, queue: seq<nat>, settled: set<nat>,
                      a: nat, list: seq<Edge>)
    returns (w': seq<int>, queue': seq<nat>)
    requires a < |w| && (forall e :: e in list ==> e in Incident(g, a)) && a in settled
    requires Labels(g, s, w, queue, settled) && Ordered(w, queue, settled) && Witnessed(g, s, w)
    requires forall u :: u in settled ==> u < |w| && w[u] <= w[a]
    ensures (forall e :: e in list ==> e.end < |w|) && (w', queue') == RelaxList(w, queue, a, list)
    ensures Labels(g, s, w', queue', settled) && Ordered(w', queue', settled)
    ensures Witnessed(g, s, w')
    ensures forall u :: u in settled ==> u < |w| && w'[u] == w[u]
    ensures forall v :: 0 <= v < |w| && w[v] >= 0 ==> 0 <= w'[v] <= w[v]
    ensures forall e :: e in list ==> 0 <= w'[e.end] <= w'[a] + e.weight
  {
    w', queue' := RelaxListKeeps(g, s, w, queue, settled, a, list);
    WitnessedList(g, s, w, queue, a, list);
    RelaxListGrowth(w, queue, a, list);
  }

  lemma IncidentLists(g: Graph, a: nat)
    requires a < |g.edges| && a < |g.reverseEdges|
    ensures forall e :: e in g.edges[a] ==> e in Incident(g, a)
    ensures forall e :: e in g.reverseEdges[a] ==> e in Incident(g, a)
  {
  }

  /** The last vertex of a list sorted by descending weight is one of least weight. */
  lemma LastIsLightest(queue: seq<nat>, w: seq<int>)
    requires SortedByWeight(queue, w) && |queue| > 0
    ensures forall i :: 0 <= i < |queue| ==> queue[i] < |w| && w[queue[|queue| - 1]] <= w[queue[i]]
  {
    var n := |queue| - 1;
    forall i | 0 <= i < |queue| ensures queue[i] < |w| && w[queue[n]] <= w[queue[i]] {
      if i < n {
        assert SortVertex(w[queue[i]], w[queue[n]]) <= 0;
      }
    }
  }

  /** Taking the last vertex of the sorted frontier takes one of least weight;
      the state is then as RelaxListKeeps expects it. */
  lemma PopStep(g: Graph, s: nat, w: seq<int>, queue: seq<nat>, settled: set<nat>)
    requires Labels(g, s, w, queue, settled) && Ordered(w, queue, settled)
    requires SortedByWeight(queue, w) && |queue| > 0
    ensures var a := queue[|queue| - 1];
      a < |w| && a !in settled &&
      Labels(g, s, w, queue[..|queue| - 1], settled + {a}) &&
      Ordered(w, queue[..|queue| - 1], settled + {a}) &&
      (forall u :: u in settled + {a} ==> u < |w| && w[u] <= w[a])
  {
    var n := |queue| - 1;
    var a := queue[n];
    var q' := queue[..n];
    assert queue == q' + [a];
    LastIsLightest(queue, w);
    forall q | q in q' ensures q < |w| && w[a] <= w[q] {
      var i :| 0 <= i < n && q'[i] == q;
    }
    assert a !in q' by {
      forall i | 0 <= i < n ensures q'[i] != a {
        assert queue[i] != queue[n];
      }
    }
  }

  /** After both lists of a are relaxed, a is relaxed and so still is every vertex
      settled before it. */
  lemma SettleStep(g: Graph, pre: seq<int>, mid: seq<int>, w: seq<int>, a: nat, done: set<nat>)
    requires |pre| == |mid| == |w| && a < |w| && a < |g.edges| && a < |g.reverseEdges|
    requires forall u :: u in done ==> Relaxed(g, pre, u)
    requires forall u :: u in done + {a} ==> u < |w| && mid[u] == pre[u]
    requires forall u :: u in done + {a} ==> u < |w| && w[u] == mid[u]
    requires forall v :: 0 <= v < |w| && pre[v] >= 0 ==> 0 <= mid[v] <= pre[v]
    requires forall v :: 0 <= v < |w| && mid[v] >= 0 ==> 0 <= w[v] <= mid[v]
    requires forall e :: e in g.edges[a] ==> e.end < |w| && 0 <= mid[e.end] <= mid[a] + e.weight
    requires forall e :: e in g.reverseEdges[a] ==> e.end < |w| && 0 <= w[e.end] <= w[a] + e.weight
    ensures forall u :: u in done + {a} ==> Relaxed(g, w, u)
  {
    forall u, e | u in done && e in Incident(g, u)
      ensures u < |w| && e.end < |w| && 0 <= w[e.end] && w[e.end] <= w[u] + e.weight
    {
      assert Relaxed(g, pre, u);
    }
    assert Relaxed(g, w, a);
  }

  /** Reordering the frontier keeps every part of the search state. */
  lemma SortStep(g: Graph, s: nat, w: seq<int>, queue: seq<nat>, sorted: seq<nat>, settled: set<nat>)
    requires Frontier(g, s, w, queue, settled)
    requires forall v :: v in sorted <==> v in queue
    requires Distinct(queue) ==> Distinct(sorted)
    ensures Frontier(g, s, w, sorted, settled)
  {
  }

  /** A set of vertex numbers below n has at most n elements. */
  lemma {:induction false} SettledBound(S: set<nat>, n: nat)
    requires forall v :: v in S ==> v < n
    ensures |S| <= n
    decreases n
  {
    if n > 0 {
      SettledBound(S - {n - 1}, n - 1);
      assert S <= (S - {n - 1}) + {n - 1};
    } else {
      assert S == {};
    }
  }
}
