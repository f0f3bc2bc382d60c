/**
 * The path graph 0 - 1 - ... - (n-1), read from the edge list
 * "0 1", "1 2", ..., "n-2 n-1". From node 0 every node j is j hops away, so
 * node 0's efficiency is the harmonic number H(n-1) divided by n - 1.
 */
module PathGraph {
  import opened Graph
  import opened Paths
  import opened Efficiency

  /** The edge list of the path on n nodes: edge k joins k and k + 1. */
  function PathEdges(n: nat): (edges: seq<Edge>)
    ensures EdgesInRange(edges, n)
    ensures n >= 1 ==> |edges| == n - 1
  {
    if n <= 1 then [] else seq(n - 1, k => Edge(k, k + 1))
  }

  /** H(m) = 1 + 1/2 + ... + 1/m. */
  function Harmonic(m: nat): (h: real)
    ensures h >= 0.0
  {
    if m == 0 then 0.0 else Harmonic(m - 1) + 1.0 / (m as real)
  }

  /** In a list of unit steps (dest = src + 1), every opposite endpoint of u is u - 1 or u + 1. */
  lemma {:induction false} OppositesOfSteps(u: int, edges: seq<Edge>)
    requires forall k :: 0 <= k < |edges| ==> edges[k].dest == edges[k].src + 1
    ensures forall w :: w in Opposites(u, edges) ==> w == u - 1 || w == u + 1
  {
    if edges != [] {
      OppositesOfSteps(u, edges[..|edges| - 1]);
    }
  }

  /** Edge k, starting at u, puts its destination into u's opposites. */
  lemma {:induction false} OppositesHasDest(u: int, edges: seq<Edge>, k: int)
    requires 0 <= k < |edges| && edges[k].src == u
    ensures edges[k].dest in Opposites(u, edges)
  {
    var init := edges[..|edges| - 1];
    if k < |edges| - 1 {
      OppositesHasDest(u, init, k);
    }
  }

  /** Node u's list on the path: u + 1 is in it when u + 1 < n, and nothing but u - 1 and u + 1 is. */
  lemma PathNeighbours(n: nat, u: int)
    requires 0 <= u < n
    ensures forall w :: w in Adjacency(n, PathEdges(n))[u] ==> w == u - 1 || w == u + 1
    ensures u + 1 < n ==> u + 1 in Adjacency(n, PathEdges(n))[u]
  {
    var edges := PathEdges(n);
    AdjacencyIsOpposites(n, edges, u);
    OppositesOfSteps(u, edges);
    if u + 1 < n {
      OppositesHasDest(u, edges, u);
    }
  }

  /** Nothing beyond k hops from node 0 is reached within k hops. */
  lemma {:induction false} WithinAtMost(n: nat, v: int, k: nat)
    requires Within(Adjacency(n, PathEdges(n)), 0, v, k)
    ensures v <= k
    decreases k
  {
    var adj := Adjacency(n, PathEdges(n));
    if k > 0 && !Within(adj, 0, v, k - 1) {
      var u :| 0 <= u < |adj| && Within(adj, 0, u, k - 1) && v in adj[u];
      WithinAtMost(n, u, k - 1);
      PathNeighbours(n, u);
    } else if k > 0 {
      WithinAtMost(n, v, k - 1);
    }
  }

  /** Node v < n is reached from node 0 within v hops, walking 0, 1, ..., v. */
  lemma {:induction false} WithinWalk(n: nat, v: int)
    requires 0 <= v < n
    ensures Within(Adjacency(n, PathEdges(n)), 0, v, v)
  {
    var adj := Adjacency(n, PathEdges(n));
    if v > 0 {
      WithinWalk(n, v - 1);
      PathNeighbours(n, v - 1);
      assert 0 <= v - 1 < |adj| && Within(adj, 0, v - 1, v - 1) && v in adj[v - 1];
    }
  }

  /** On the path, node v is within k hops of node 0 exactly when v <= k. */
  lemma PathWithin(n: nat, v: int, k: nat)
    requires 0 <= v < n
    ensures Within(Adjacency(n, PathEdges(n)), 0, v, k) <==> v <= k
  {
    if Within(Adjacency(n, PathEdges(n)), 0, v, k) {
      WithinAtMost(n, v, k);
    }
    if v <= k {
      WithinWalk(n, v);
      WithinMonotone(Adjacency(n, PathEdges(n)), 0, v, v, k);
    }
  }

  /** The search from node 0 of the path finds node j at distance j. */
  lemma PathDistance(n: nat, j: int)
    requires 0 <= j < n
    ensures Distance(Adjacency(n, PathEdges(n)), 0, j) == j
  {
    PathWithin(n, j, j);
    forall k: nat | k < j ensures !Within(Adjacency(n, PathEdges(n)), 0, j, k) {
      PathWithin(n, j, k);
    }
    DistanceIs(Adjacency(n, PathEdges(n)), 0, j, j);
  }

  /** Node 0's distance row on the path is 0, 1, ..., n-1. */
  lemma PathRow(n: nat)
    requires n >= 1
    ensures DistanceRow(Adjacency(n, PathEdges(n)), 0, n) == seq(n, j => j)
  {
    forall j | 0 <= j < n ensures DistanceRow(Adjacency(n, PathEdges(n)), 0, n)[j] == j {
      PathDistance(n, j);
    }
  }

  /** Over the row 0, 1, ..., n-1 seen from node 0, the first k reciprocals sum to H(k - 1). */
  lemma {:induction false} StepsReciprocalSum(row: seq<int>, k: nat)
    requires |row| <= IntMax && IsDistRow(row, 0) && k <= |row|
    requires forall j :: 0 <= j < |row| ==> row[j] == j
    ensures ReciprocalSum(row, 0, k) == if k == 0 then 0.0 else Harmonic(k - 1)
  {
    if k > 0 {
      StepsReciprocalSum(row, k - 1);
    }
  }

  /**
   * The end of a path of n >= 2 nodes has efficiency H(n-1) / (n-1): it
   * reaches node j at distance j for every j, so the sum is 1 + 1/2 + ... +
   * 1/(n-1).
   */
  lemma PathEndEfficiency(n: nat)
    requires 2 <= n <= IntMax
    ensures EfficiencyOf(Adjacency(n, PathEdges(n)), n, 0) == Harmonic(n - 1) / ((n - 1) as real)
  {
    var row := DistanceRow(Adjacency(n, PathEdges(n)), 0, n);
    PathRow(n);
    DistanceRowIsDistRow(Adjacency(n, PathEdges(n)), n, 0);
    NodeEffIsNormalisedSum(row, 0);
    StepsReciprocalSum(row, n);
  }
}
