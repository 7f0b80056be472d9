# Kamada-Kawai layout: the distance stage

This project models the first stage of the Kamada-Kawai spring layout manager
of the foograph JavaScript graph library (`KamadaKawaiVertexLayout`), and
proves properties of that model in Dafny. The stage covers everything up to
the first Newton step:

- the single-source shortest-path search `__djikstraFindShortestPaths`. It
  keeps a scratch weight on each vertex, with -1 meaning "not reached yet".
  Its frontier list is re-sorted by descending weight with `sortVertex`, and
  it relaxes the forward and the reverse edges of every vertex it pops;
- the all-pairs distance matrix, built by running that search from every
  vertex;
- `__computeEdgeLength`: the drawing side over the longest distance;
- the loop that turns distances into ideal lengths `edge_length * d` and
  spring strengths `K / d^2`;
- the choice of the vertex with the largest gradient magnitude.

The model has three modules:

- `Graphs`: the graph as a value.
  - Vertices are `0..n-1`.
  - Every vertex has a forward and a reverse list of `(end, weight)` edges.
  - It defines walks that may follow either list, their lengths, and the
    vector of shortest distances with the sentinel -1 for unreachable vertices.
  - It proves that this vector is unique. It also proves that the vector is
    symmetric when the reverse lists mirror the forward lists. When all weights
    are positive, it is positive between distinct vertices that reach each
    other, and never 0 between distinct vertices.
- `ShortestPaths`: the search, on an `array<int>` of scratch weights and a
  frontier `seq`.
  - Each relaxation method is tied to a pure function on `weight[..]`.
  - The loop keeps an invariant that says three things: the labelled vertices
    are exactly the settled ones and the frontier; no settled vertex is heavier
    than a frontier vertex; every settled vertex is relaxed.
  - Ghost witness walks show that every label is the length of some walk.
  - When the frontier is empty, these facts show that the weights are the
    shortest distances.
  - The loop runs at most n times, because each pop settles a new vertex.
- `KamadaKawai`: the layout object as a class. It has the constants `width`,
  `height` and `springConstant`, and the matrices `distance` and
  `springStrength` as `array2<real>` fields. Its methods fill and update those
  fields in place, as `layout` does.

## Model

| member | source | states |
|---|---|---|
| ShortestPaths.SortVertex | branches/KamadaKawai/lib/vlayouts/kamadakawai.js:20-23 | the comparator is negative exactly when the first vertex is heavier and zero exactly on equal weights, so a sort by it puts heavier vertices first |
| ShortestPaths.InsertByWeight | branches/KamadaKawai/lib/vlayouts/kamadakawai.js:72 | inserting a vertex into a list ordered by descending weight keeps it ordered, adds exactly that vertex (multiset), and keeps the list free of repeats |
| ShortestPaths.SortQueue | branches/KamadaKawai/lib/vlayouts/kamadakawai.js:72 | the sorted frontier is a permutation of the old one (same multiset, same members, still repeat-free) in non-increasing weight order |
| ShortestPaths.LastIsLightest | branches/KamadaKawai/lib/vlayouts/kamadakawai.js:44 | after the sort, the last vertex, which `pop()` takes, has the least weight on the frontier |
| ShortestPaths.ResetWeights | branches/KamadaKawai/lib/vlayouts/kamadakawai.js:35-39 | after the reset every vertex is at -1 except the source, which is at 0 |
| ShortestPaths.InitialState | branches/KamadaKawai/lib/vlayouts/kamadakawai.js:35-42 | the reset weights and the one-element frontier `[source]` satisfy the loop invariant |
| ShortestPaths.RelaxEdge | branches/KamadaKawai/lib/vlayouts/kamadakawai.js:49-56 | one relaxation changes the weight array and the frontier exactly as the pure step RelaxStep says: an unreached end takes `a.weight + e.weight` and is pushed; a heavier reached end is lowered; otherwise nothing changes |
| ShortestPaths.RelaxEdges | branches/KamadaKawai/lib/vlayouts/kamadakawai.js:46-57 | the loop over an edge list leaves the weight array and the frontier as RelaxList, the relaxations in list order, says |
| ShortestPaths.RelaxStepGrowth | branches/KamadaKawai/lib/vlayouts/kamadakawai.js:51-56 | one relaxation from a labelled vertex does not change its weight, only lowers weights, never sets a weight back to -1, leaves the edge's end at most `a.weight + e.weight`, and pushes only a vertex that was at -1 |
| ShortestPaths.RelaxListGrowth | branches/KamadaKawai/lib/vlayouts/kamadakawai.js:46-57 | the same over a whole edge list: weights only fall and stay labelled; every edge of the list is relaxed afterwards; the frontier only grows at its end, and only by vertices that were at -1 |
| ShortestPaths.RelaxStepKeeps | branches/KamadaKawai/lib/vlayouts/kamadakawai.js:49-56 | a relaxation from the vertex just settled keeps the loop invariant: the labelled vertices are exactly the frontier and the settled ones; the frontier has no repeats; no settled vertex is heavier than a frontier vertex; no settled weight changes |
| ShortestPaths.RelaxListKeeps | branches/KamadaKawai/lib/vlayouts/kamadakawai.js:46-57 | the same invariant and unchanged settled weights after a whole edge list |
| ShortestPaths.RelaxIncident | branches/KamadaKawai/lib/vlayouts/kamadakawai.js:59-70 | relaxing either list of the popped vertex keeps the invariant, keeps every label the length of some walk from the source, only lowers weights, and leaves every edge of the list relaxed |
| ShortestPaths.PopStep | branches/KamadaKawai/lib/vlayouts/kamadakawai.js:44 | popping the last vertex of the sorted frontier takes an unsettled vertex no lighter than any settled one and keeps the invariant with it settled |
| ShortestPaths.SortStep | branches/KamadaKawai/lib/vlayouts/kamadakawai.js:72 | re-sorting the frontier keeps the whole loop invariant |
| ShortestPaths.Iteration | branches/KamadaKawai/lib/vlayouts/kamadakawai.js:43-72 | one pass of the `while` loop, which pops, relaxes forward then reverse edges and settles the popped vertex, keeps the invariant and the walk witnesses; it settles a vertex not settled before, so the count of settled vertices grows and stays at most n |
| ShortestPaths.SettledBound | branches/KamadaKawai/lib/vlayouts/kamadakawai.js:43 | a set of vertices below n has at most n elements, which bounds the loop's iterations |
| ShortestPaths.DijkstraFindShortestPaths | branches/KamadaKawai/lib/vlayouts/kamadakawai.js:32-81 | the result has one entry per vertex, equal to its final scratch weight: -1 exactly for the vertices not reachable along forward or reverse edges, the shortest undirected distance for all others, 0 at the source; only the weights change; the loop runs at most n times |
| Graphs.LabellingIsDistanceVector | branches/KamadaKawai/lib/vlayouts/kamadakawai.js:46-70 | a labelling with the source at 0, every labelled vertex relaxed along both lists, and every label the length of a walk is the vector of shortest distances |
| Graphs.WalkLowerBound | branches/KamadaKawai/lib/vlayouts/kamadakawai.js:50-63 | when the source is at 0 and every labelled vertex is relaxed, every walk from the source ends at a labelled vertex whose label is at most the walk's length |
| Graphs.SourceAtZero | branches/KamadaKawai/lib/vlayouts/kamadakawai.js:39 | the distance vector has 0 at the source |
| Graphs.DistanceVectorUnique | branches/KamadaKawai/lib/vlayouts/kamadakawai.js:46-72 | the distance vector depends only on the graph and the source, whatever order the vertices, edges and equal-weight ties are visited in |
| Graphs.DistanceSymmetric | branches/KamadaKawai/lib/vlayouts/kamadakawai.js:46-70 | when each reverse list mirrors the forward lists, the distance from s to t equals the distance from t to s, and unreachability is symmetric too |
| Graphs.PositiveDistance | branches/KamadaKawai/lib/vlayouts/kamadakawai.js:50-63 | with positive edge weights, the shortest distance from a source to any other vertex is positive |
| KamadaKawai.KamadaKawaiVertexLayout.constructor | branches/KamadaKawai/lib/vlayouts/kamadakawai.js:13-18 | the new layout holds the given width and height and a spring constant of 1 |
| KamadaKawai.AllPairsDistances | branches/KamadaKawai/lib/vlayouts/kamadakawai.js:168-171 | row i of the new matrix is the distance vector of the search from vertex i, for every vertex i |
| KamadaKawai.CopyRow | branches/KamadaKawai/lib/vlayouts/kamadakawai.js:170 | storing a search result as row i sets that row to the result and leaves every other row |
| KamadaKawai.KamadaKawaiVertexLayout.BuildDistanceMatrix | branches/KamadaKawai/lib/vlayouts/kamadakawai.js:168-171 | `distance` becomes a fresh n-by-n matrix whose row i holds the distances from vertex i; it is symmetric when the reverse lists mirror the forward lists, and it is nonzero off the diagonal when weights are positive |
| KamadaKawai.MatrixSymmetric | branches/KamadaKawai/lib/vlayouts/kamadakawai.js:168-171 | the all-pairs matrix of a graph whose reverse lists mirror its forward lists is symmetric |
| KamadaKawai.DistinctVerticesApart | branches/KamadaKawai/lib/vlayouts/kamadakawai.js:182-184 | with positive weights no off-diagonal entry of the matrix is 0, so `K/(dij*dij)` is defined off the diagonal |
| KamadaKawai.KamadaKawaiVertexLayout.ComputeEdgeLength | branches/KamadaKawai/lib/vlayouts/kamadakawai.js:90-101 | the running maximum ends as the largest of 0 and every matrix entry: no entry exceeds it, and it is some entry unless it is 0; the edge length is side over it, and there is none exactly when no entry is positive |
| KamadaKawai.LongestUnique | branches/KamadaKawai/lib/vlayouts/kamadakawai.js:93-97 | the longest entry is determined by the matrix, whatever order the loops visit it in |
| KamadaKawai.Scale | branches/KamadaKawai/lib/vlayouts/kamadakawai.js:183 | scaling by a positive edge length keeps the sign of a distance, so the sentinel stays negative and 0 stays 0; there is no scaling when there is no edge length |
| KamadaKawai.SpringStrength | branches/KamadaKawai/lib/vlayouts/kamadakawai.js:184 | the strength times the squared distance is K, and the strength is positive when K is |
| KamadaKawai.ScaleRow | branches/KamadaKawai/lib/vlayouts/kamadakawai.js:181-185 | one pass of the inner loop scales every entry of row i and sets the spring strength of every off-diagonal entry of row i from the unscaled distance; no other row of either matrix changes |
| KamadaKawai.KamadaKawaiVertexLayout.ComputeSpringModel | branches/KamadaKawai/lib/vlayouts/kamadakawai.js:179-186 | every distance becomes its scaled value, and every pair of distinct vertices gets the spring strength K/d^2 of its unscaled distance d; the diagonal of the strength matrix is 0 |
| KamadaKawai.ScaledWithinSide | branches/KamadaKawai/lib/vlayouts/kamadakawai.js:99 | scaling by side over the longest distance keeps a distance no longer than the longest within side, and takes the longest one exactly to side |
| KamadaKawai.LongestScalesToSide | branches/KamadaKawai/lib/vlayouts/kamadakawai.js:173-183 | after scaling by the edge length, no ideal length in the matrix exceeds the side and some ideal length equals it |
| KamadaKawai.ScaledMatrixWithinSide | branches/KamadaKawai/lib/vlayouts/kamadakawai.js:179-186 | the same bound for the scaled matrix the loop leaves in `distance` |
| KamadaKawai.KamadaKawaiVertexLayout.SelectVertex | branches/KamadaKawai/lib/vlayouts/kamadakawai.js:188-200 | the chosen magnitude is at least 0 and at least every vertex's magnitude; when it is positive, p is the first vertex with that magnitude; otherwise p stays 0 |
| KamadaKawai.SelectionUnique | branches/KamadaKawai/lib/vlayouts/kamadakawai.js:196-199 | the selection is determined by the magnitudes: the strict `>` makes the earliest of equal maxima win |
| KamadaKawai.KamadaKawaiVertexLayout.Layout | branches/KamadaKawai/lib/vlayouts/kamadakawai.js:157-200 | after the distance stage, `distance` holds the scaled shortest distances and `springStrength` holds K/d^2 off the diagonal and 0 on it; for a positive width and a positive longest distance every ideal length is within the width and the longest equals it; p and its magnitude are the selection |

## Left out

- `__computePartialDerivate` and `__computePartialDerivates` (kamadakawai.js:104-138) are not modelled. They are floating-point code built on `Math.sqrt`, and line 118 uses `dx/dist` where `dy/dist` is meant. The gradient magnitude of each vertex is an input sequence `deltas` instead.
- The Newton-Raphson loop (kamadakawai.js:202-243) is not modelled. It does not parse: there are unbalanced parentheses at lines 219-220. It also uses the undefined `done`, `__calculatePartialDerivates` and `i`. It is floating-point numerics.
- `__done` (kamadakawai.js:140-147) is an empty stub.
- The random initial layout (random.js) is not modelled. It is only `Math.random()` and rounding.
- The graph container is not part of this model. A graph is a value: two adjacency lists of `(end, weight)` pairs, whose reverse entries name the edge's other endpoint. The vertices' scratch `weight` fields are one `array<int>` indexed by vertex.
- JavaScript's `for…in` order over vertices and edges is taken to be index order. `Array.prototype.sort` is modelled as a stable insertion sort by the comparator. `DistanceVectorUnique` shows the search's result does not depend on either choice.
- Floating point is not modelled: weights are natural numbers and the matrices hold exact reals.
- KamadaKawai.KamadaKawaiVertexLayout.Layout: `layout` passes the free variable `width` (line 173) to `__computeEdgeLength`. The model uses the object's own `width`. `height` is stored but not used.
- KamadaKawai.KamadaKawaiVertexLayout.ComputeEdgeLength: when the longest distance is 0 (a single vertex, or no vertex reaches another), JavaScript divides by 0 and gets `Infinity` or `NaN`. The model returns `None` instead, and ComputeSpringModel then leaves the distances unscaled.
- KamadaKawai.KamadaKawaiVertexLayout.ComputeSpringModel: the source also computes `K/(dij*dij)` on the diagonal, which divides by 0. The model leaves the diagonal of `springStrength` at 0 and requires every off-diagonal distance to be nonzero.
- KamadaKawai.KamadaKawaiVertexLayout.Layout requires positive edge weights. A zero-weight edge between two distinct vertices would put a 0 off the diagonal and make `K/(dij*dij)` undefined there.
- The model keeps three behaviours of the code as written:
  - No connectivity check: a -1 distance stays in the matrix, and the scaling loop scales it, giving a negative "length".
  - A reached vertex whose weight improves is lowered in place, not queued again.
  - The longest distance is taken over every entry, the sentinel included.
- KamadaKawai.KamadaKawaiVertexLayout.SelectVertex: the source starts `p` at the number 0 (line 189) but then stores a `for…in` key (line 197), which is a string. The model uses a vertex index `p: nat` throughout, so it does not capture that difference in type.
- The ghost `pops` of DijkstraFindShortestPaths counts loop iterations for the bound. It is not in the source.
