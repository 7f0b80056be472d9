/**
 * The Kamada-Kawai spring layout manager, up to and including the choice of
 * the first vertex to move: the all-pairs distance matrix built by running the
 * single-source search from every vertex, the ideal edge length (the side of
 * the drawing area over the longest distance), the scaling of the matrix into
 * ideal lengths together with the spring strengths K / d^2, and the selection
 * of the vertex with the largest gradient magnitude.
 */
module KamadaKawai {
  import opened Graphs
  import opened ShortestPaths

  datatype Option<T> = None | Some(value: T)

  /** longest is the largest of 0 and every entry of a: no entry exceeds it, and
      unless it is 0 some entry equals it. */
  ghost predicate IsLongest(a: array2<real>, longest: real)
    reads a
  {
    0.0 <= longest &&
    (forall i, j :: 0 <= i < a.Length0 && 0 <= j < a.Length1 ==> a[i, j] <= longest) &&
    (longest == 0.0 || exists i, j :: 0 <= i < a.Length0 && 0 <= j < a.Length1 && a[i, j] == longest)
  }

  /** The longest entry is determined by the matrix. */
  lemma LongestUnique(a: array2<real>, m1: real, m2: real)
    requires IsLongest(a, m1) && IsLongest(a, m2)
    ensures m1 == m2
  {
  }

  /** Row i of D is the distance vector from vertex i, for every vertex i. */
  ghost predicate IsDistanceMatrix(g: Graph, D: seq<seq<int>>) {
    DistanceRows(g, D, g.N())
  }

  /** D holds the distance vectors from the first count vertices. */
  ghost predicate DistanceRows(g: Graph, D: seq<seq<int>>, count: nat) {
    |D| == count &&
    (forall i :: 0 <= i < count ==> |D[i]| == g.N()) &&
    (forall i {:trigger IsDistanceVector(g, i, D[i])} :: 0 <= i < count ==> IsDistanceVector(g, i, D[i]))
  }

  /** Appending the distance vector from the next vertex extends the rows by one. */
  lemma DistanceRowsExtend(g: Graph, D: seq<seq<int>>, row: seq<int>)
    requires DistanceRows(g, D, |D|) && |row| == g.N() && IsDistanceVector(g, |D|, row)
    ensures DistanceRows(g, D + [row], |D| + 1)
  {
    var D' := D + [row];
    forall i | 0 <= i < |D'| ensures |D'[i]| == g.N() && IsDistanceVector(g, i, D'[i]) {
      if i < |D| {
        assert D'[i] == D[i] && IsDistanceVector(g, i, D[i]);
      }
    }
  }

  /** When the reverse lists mirror the forward lists, the distance matrix is symmetric. */
  lemma MatrixSymmetric(g: Graph, D: seq<seq<int>>)
    requires g.Consistent() && IsDistanceMatrix(g, D)
    ensures forall i, j :: 0 <= i < g.N() && 0 <= j < g.N() ==> D[i][j] == D[j][i]
  {
    forall i, j | 0 <= i < g.N() && 0 <= j < g.N() ensures D[i][j] == D[j][i] {
      DistanceSymmetric(g, i, j, D[i], D[j]);
    }
  }

  /** With positive edge weights no two distinct vertices are at distance 0, whether
      one reaches the other or not. */
  lemma DistinctVerticesApart(g: Graph, D: seq<seq<int>>)
    requires g.Valid() && g.PositiveWeights()
    requires IsDistanceMatrix(g, D)
    ensures forall i, j :: 0 <= i < g.N() && 0 <= j < g.N() && i != j ==> D[i][j] != 0
  {
    forall i, j | 0 <= i < g.N() && 0 <= j < g.N() && i != j ensures D[i][j] != 0 {
      assert IsDistanceVector(g, i, D[i]);
      if D[i][j] != -1 {
        PositiveDistance(g, i, j, D[i][j]);
      }
    }
  }

  /** Scaling a distance matrix by side over its longest entry brings every entry
      within side and the longest one exactly to side. */
  lemma LongestScalesToSide(D: seq<seq<int>>, edgeLength: Option<real>, longest: real, side: real)
    requires longest > 0.0 && side >= 0.0 && edgeLength == Some(side / longest)
    requires forall i, j :: 0 <= i < |D| && 0 <= j < |D[i]| ==> D[i][j] as real <= longest
    requires exists i, j :: 0 <= i < |D| && 0 <= j < |D[i]| && D[i][j] as real == longest
    ensures forall i, j :: 0 <= i < |D| && 0 <= j < |D[i]| ==> Scale(edgeLength, D[i][j] as real) <= side
    ensures exists i, j :: 0 <= i < |D| && 0 <= j < |D[i]| && Scale(edgeLength, D[i][j] as real) == side
  {
    forall i, j | 0 <= i < |D| && 0 <= j < |D[i]| ensures Scale(edgeLength, D[i][j] as real) <= side {
      ScaledWithinSide(edgeLength, longest, side, D[i][j] as real);
    }
    var i, j :| 0 <= i < |D| && 0 <= j < |D[i]| && D[i][j] as real == longest;
    ScaledWithinSide(edgeLength, longest, side, D[i][j] as real);
  }

  /** The same bound stated over the matrix the scaling loop leaves behind. */
  lemma ScaledMatrixWithinSide(a: array2<real>, D: seq<seq<int>>, edgeLength: Option<real>, longest: real, side: real)
    requires longest > 0.0 && side >= 0.0 && edgeLength == Some(side / longest)
    requires |D| == a.Length0 && forall i :: 0 <= i < |D| ==> |D[i]| == a.Length1
    requires forall i, j :: 0 <= i < a.Length0 && 0 <= j < a.Length1 ==> a[i, j] == Scale(edgeLength, D[i][j] as real)
    requires forall i, j :: 0 <= i < a.Length0 && 0 <= j < a.Length1 ==> D[i][j] as real <= longest
    requires exists i, j :: 0 <= i < a.Length0 && 0 <= j < a.Length1 && D[i][j] as real == longest
    ensures forall i, j :: 0 <= i < a.Length0 && 0 <= j < a.Length1 ==> a[i, j] <= side
    ensures exists i, j :: 0 <= i < a.Length0 && 0 <= j < a.Length1 && a[i, j] == side
  {
    LongestScalesToSide(D, edgeLength, longest, side);
  }

  /** What the scaling loop leaves in an entry of the distance matrix: the entry times
      the edge length, or the entry itself when there is no edge length. */
  function Scale(edgeLength: Option<real>, d: real): (r: real)
    ensures edgeLength.None? ==> r == d
    ensures edgeLength.Some? && edgeLength.value > 0.0 ==> (d < 0.0 <==> r < 0.0) && (d == 0.0 <==> r == 0.0)
  {
    if edgeLength.Some? then edgeLength.value * d else d
  }

  /** Scaling by side / longest keeps a value no greater than longest within side,
      and maps longest itself to side. */
  lemma ScaledWithinSide(edgeLength: Option<real>, longest: real, side: real, x: real)
    requires longest > 0.0 && side >= 0.0 && x <= longest && edgeLength == Some(side / longest)
    ensures Scale(edgeLength, x) <= side
    ensures x == longest ==> Scale(edgeLength, x) == side
  {
    var l := side / longest;
    assert l * longest == side;
    assert l * x <= l * longest;
  }

  /** The vertex chosen to move first: p and its magnitude deltaP as the selection loop
      leaves them, starting from p = 0 and deltaP = 0 and replacing them only on a
      strictly larger magnitude. */
  ghost predicate IsSelection(deltas: seq<real>, p: nat, deltaP: real) {
    0.0 <= deltaP &&
    (forall i :: 0 <= i < |deltas| ==> deltas[i] <= deltaP) &&
    (deltaP == 0.0 ==> p == 0) &&
    (deltaP > 0.0 ==> p < |deltas| && deltas[p] == deltaP && forall i :: 0 <= i < p ==> deltas[i] < deltaP)
  }

  /** The selection is a function of the magnitudes: the largest positive one wins
      and, among equal ones, the first. */
  lemma SelectionUnique(deltas: seq<real>, p1: nat, d1: real, p2: nat, d2: real)
    requires IsSelection(deltas, p1, d1) && IsSelection(deltas, p2, d2)
    ensures p1 == p2 && d1 == d2
  {
    if d1 > 0.0 {
      assert deltas[p1] <= d2;
    }
    if d2 > 0.0 {
      assert deltas[p2] <= d1;
    }
  }

  /** The strength K / d^2 of the spring between two vertices at distance d. */
  function SpringStrength(k: real, d: real): (r: real)
    requires d != 0.0
    ensures r * (d * d) == k
    ensures k > 0.0 ==> r > 0.0
  {
    k / (d * d)
  }

  /** One pass of the scaling loop, over row i: every entry of the row is scaled
      and every entry off the diagonal gets its spring strength from the unscaled
      entry; no other row of either matrix changes. */
  method ScaleRow(d: array2<real>, strength: array2<real>, i: nat, edgeLength: Option<real>, k: real)
    requires d != strength && i < d.Length0 && i < strength.Length0 && d.Length1 == strength.Length1
    requires forall b :: 0 <= b < d.Length1 && b != i ==> d[i, b] != 0.0
    modifies d, strength
    ensures forall b :: 0 <= b < d.Length1 ==> d[i, b] == Scale(edgeLength, old(d[i, b]))
    ensures forall b :: 0 <= b < d.Length1 && b != i ==> strength[i, b] == SpringStrength(k, old(d[i, b]))
    ensures i < strength.Length1 ==> strength[i, i] == old(strength[i, i])
    ensures forall a, b :: 0 <= a < d.Length0 && 0 <= b < d.Length1 && a != i ==> d[a, b] == old(d[a, b])
    ensures forall a, b :: 0 <= a < strength.Length0 && 0 <= b < strength.Length1 && a != i ==>
      strength[a, b] == old(strength[a, b])
  {
    for j := 0 to d.Length1
      invariant forall b :: 0 <= b < j ==> d[i, b] == Scale(edgeLength, old(d[i, b]))
      invariant forall b :: j <= b < d.Length1 ==> d[i, b] == old(d[i, b])
      invariant forall b :: 0 <= b < j && b != i ==> strength[i, b] == SpringStrength(k, old(d[i, b]))
      invariant i < strength.Length1 ==> strength[i, i] == old(strength[i, i])
      invariant forall a, b :: 0 <= a < d.Length0 && 0 <= b < d.Length1 && a != i ==> d[a, b] == old(d[a, b])
      invariant forall a, b :: 0 <= a < strength.Length0 && 0 <= b < strength.Length1 && a != i ==>
        strength[a, b] == old(strength[a, b])
    {
      var dij := d[i, j];
      d[i, j] := Scale(edgeLength, dij);
      if i != j {
        strength[i, j] := SpringStrength(k, dij);
      }
    }
  }

  /** The loop that fills the distance matrix: the search from vertex i, for every
      vertex i in turn, gives row i. */
  method AllPairsDistances(g: Graph, weight: array<int>) returns (matrix: array2<real>, ghost D: seq<seq<int>>)
    requires g.Valid() && weight.Length == g.N()
    modifies weight
    ensures fresh(matrix) && matrix.Length0 == g.N() && matrix.Length1 == g.N()
    ensures IsDistanceMatrix(g, D)
    ensures forall i, j :: 0 <= i < g.N() && 0 <= j < g.N() ==> matrix[i, j] == D[i][j] as real
  {
    var n := g.N();
    matrix := new real[n, n];
    D := [];
    for i := 0 to n
      invariant DistanceRows(g, D, i)
      invariant forall k, j :: 0 <= k < i && 0 <= j < n ==> matrix[k, j] == D[k][j] as real
    {
      var row, _ := DijkstraFindShortestPaths(g, i, weight);
      CopyRow(matrix, i, row);
      DistanceRowsExtend(g, D, row);
      D := D + [row];
    }
  }

  /** Stores the search's result as row i of the matrix, leaving the other rows. */
  method CopyRow(matrix: array2<real>, i: nat, row: seq<int>)
    requires i < matrix.Length0 && |row| == matrix.Length1
    modifies matrix
    ensures forall j :: 0 <= j < matrix.Length1 ==> matrix[i, j] == row[j] as real
    ensures forall k, j :: 0 <= k < matrix.Length0 && 0 <= j < matrix.Length1 && k != i ==> matrix[k, j] == old(matrix[k, j])
  {
    for j := 0 to matrix.Length1
      invariant forall l :: 0 <= l < j ==> matrix[i, l] == row[l] as real
      invariant forall k, l :: 0 <= k < matrix.Length0 && 0 <= l < matrix.Length1 && k != i ==> matrix[k, l] == old(matrix[k, l])
    {
      matrix[i, j] := row[j] as real;
    }
  }

  class KamadaKawaiVertexLayout {
    const width: real
    const height: real
    const springConstant: real
    /** The all-pairs distances, once built, and the ideal lengths after scaling. */
    var distance: array2<real>
    /** The spring strength between every two distinct vertices. */
    var springStrength: array2<real>

    constructor (width: real, height: real)
      ensures this.width == width && this.height == height && springConstant == 1.0
      ensures distance.Length0 == 0 && springStrength.Length0 == 0
    {
      this.width := width;
      this.height := height;
      springConstant := 1.0;
      distance := new real[0, 0];
      springStrength := new real[0, 0];
    }

    /** Runs the search from every vertex in turn; row i of the new distance matrix
        holds the distances from vertex i (D[i]), -1 marking the vertices i does not
        reach. In a graph whose reverse lists mirror its forward lists the matrix is
        symmetric. */
    method BuildDistanceMatrix(g: Graph, weight: array<int>) returns (ghost D: seq<seq<int>>)
      requires g.Valid() && weight.Length == g.N()
      modifies this, weight
      ensures fresh(distance) && distance.Length0 == g.N() && distance.Length1 == g.N()
      ensures springStrength == old(springStrength)
      ensures IsDistanceMatrix(g, D)
      ensures forall i, j :: 0 <= i < g.N() && 0 <= j < g.N() ==> distance[i, j] == D[i][j] as real
      ensures g.Consistent() ==> forall i, j :: 0 <= i < g.N() && 0 <= j < g.N() ==> distance[i, j] == distance[j, i]
      ensures g.PositiveWeights() ==> forall i, j :: 0 <= i < g.N() && 0 <= j < g.N() && i != j ==> D[i][j] != 0
    {
      distance, D := AllPairsDistances(g, weight);
      if g.Consistent() {
        MatrixSymmetric(g, D);
      }
      if g.PositiveWeights() {
        DistinctVerticesApart(g, D);
      }
    }

    /** The ideal length of an edge: side over the longest entry of the distance
        matrix, found by a running maximum that starts at 0. None when that maximum
        stays 0, as it does for a single vertex. */
    method ComputeEdgeLength(side: real) returns (r: Option<real>, ghost longest: real)
      ensures IsLongest(distance, longest)
      ensures r == if longest == 0.0 then None else Some(side / longest)
      ensures r.None? <==> forall i, j :: 0 <= i < distance.Length0 && 0 <= j < distance.Length1 ==> distance[i, j] <= 0.0
    {
      var result := 0.0;
      for i := 0 to distance.Length0
        invariant 0.0 <= result
        invariant forall k, l :: 0 <= k < i && 0 <= l < distance.Length1 ==> distance[k, l] <= result
        invariant result == 0.0 || exists k, l :: 0 <= k < distance.Length0 && 0 <= l < distance.Length1 && distance[k, l] == result
      {
        for j := 0 to distance.Length1
          invariant 0.0 <= result
          invariant forall k, l :: 0 <= k < i && 0 <= l < distance.Length1 ==> distance[k, l] <= result
          invariant forall l :: 0 <= l < j ==> distance[i, l] <= result
          invariant result == 0.0 || exists k, l :: 0 <= k < distance.Length0 && 0 <= l < distance.Length1 && distance[k, l] == result
        {
          if distance[i, j] > result {
            result := distance[i, j];
          }
        }
      }
      longest := result;
      r := if result == 0.0 then None else Some(side / result);
    }

    /** Turns every distance d into the ideal length edgeLength * d (left as it is
        when there is no edge length) and gives every two distinct vertices the
        spring strength K / d^2, both from the unscaled d. The diagonal of the
        strength matrix, where the strength would be K / 0, stays 0. */
    method ComputeSpringModel(edgeLength: Option<real>)
      requires forall i, j :: 0 <= i < distance.Length0 && 0 <= j < distance.Length1 && i != j ==> distance[i, j] != 0.0
      modifies this, distance
      ensures distance == old(distance) && fresh(springStrength)
      ensures springStrength.Length0 == distance.Length0 && springStrength.Length1 == distance.Length1
      ensures forall i, j :: 0 <= i < distance.Length0 && 0 <= j < distance.Length1 ==>
        distance[i, j] == Scale(edgeLength, old(distance[i, j]))
      ensures forall i, j :: 0 <= i < distance.Length0 && 0 <= j < distance.Length1 && i != j ==>
        springStrength[i, j] == SpringStrength(springConstant, old(distance[i, j]))
      ensures forall i :: 0 <= i < distance.Length0 && i < distance.Length1 ==> springStrength[i, i] == 0.0
    {
      var d := distance;
      var m, n := d.Length0, d.Length1;
      var strength := new real[m, n]((_, _) => 0.0);
      assert d != strength;
      for i := 0 to m
        invariant distance == d && fresh(strength)
        invariant forall a, b :: 0 <= a < i && 0 <= b < n ==> d[a, b] == Scale(edgeLength, old(d[a, b]))
        invariant forall a, b :: i <= a < m && 0 <= b < n ==> d[a, b] == old(d[a, b])
        invariant forall a, b :: 0 <= a < i && 0 <= b < n && a != b ==>
          strength[a, b] == SpringStrength(springConstant, old(d[a, b]))
        invariant forall a :: 0 <= a < m && a < n ==> strength[a, a] == 0.0
      {
        ScaleRow(d, strength, i, edgeLength, springConstant);
      }
      springStrength := strength;
    }

    /** Picks the vertex to move first from the gradient magnitudes of the vertices,
        in vertex order. */
    method SelectVertex(deltas: seq<real>) returns (p: nat, deltaP: real)
      ensures IsSelection(deltas, p, deltaP)
    {
      deltaP := 0.0;
      p := 0;
      for i := 0 to |deltas|
        invariant IsSelection(deltas[..i], p, deltaP)
      {
        if deltas[i] > deltaP {
          p := i;
          deltaP := deltas[i];
        }
      }
      assert deltas[..|deltas|] == deltas;
    }

    /** The layout up to the choice of the first vertex to move, on a graph with
        positive edge weights: the distance matrix, the edge length for this.width,
        the scaled matrix with its spring strengths, and the selection among the
        given gradient magnitudes, one per vertex. */
    method Layout(g: Graph, weight: array<int>, deltas: seq<real>)
      returns (edgeLength: Option<real>, p: nat, deltaP: real, ghost D: seq<seq<int>>, ghost longest: real)
      requires g.Valid() && g.PositiveWeights() && weight.Length == g.N() && |deltas| == g.N()
      modifies this, weight
      ensures fresh(distance) && fresh(springStrength)
      ensures distance.Length0 == distance.Length1 == springStrength.Length0 == springStrength.Length1 == g.N()
      ensures IsDistanceMatrix(g, D)
      ensures 0.0 <= longest && forall i, j :: 0 <= i < g.N() && 0 <= j < g.N() ==> D[i][j] as real <= longest
      ensures longest == 0.0 || exists i, j :: 0 <= i < g.N() && 0 <= j < g.N() && D[i][j] as real == longest
      ensures edgeLength == if longest == 0.0 then None else Some(width / longest)
      ensures forall i, j :: 0 <= i < g.N() && 0 <= j < g.N() ==> distance[i, j] == Scale(edgeLength, D[i][j] as real)
      ensures forall i, j :: 0 <= i < g.N() && 0 <= j < g.N() && i != j ==>
        D[i][j] != 0 && springStrength[i, j] == SpringStrength(springConstant, D[i][j] as real)
      ensures forall i :: 0 <= i < g.N() ==> springStrength[i, i] == 0.0
      ensures longest > 0.0 && width >= 0.0 ==>
        (forall i, j :: 0 <= i < g.N() && 0 <= j < g.N() ==> distance[i, j] <= width) &&
        (exists i, j :: 0 <= i < g.N() && 0 <= j < g.N() && distance[i, j] == width)
      ensures IsSelection(deltas, p, deltaP)
    {
      D := BuildDistanceMatrix(g, weight);
      edgeLength, longest := ComputeEdgeLength(width);
      ComputeSpringModel(edgeLength);
      if longest > 0.0 && width >= 0.0 {
        ScaledMatrixWithinSide(distance, D, edgeLength, longest, width);
      }
      p, deltaP := SelectVertex(deltas);
    }
  }
}
