/**
 * The per-node reduction every program runs after one BFS:
 *
 *   for j in 0 .. N-1:
 *     if i != j and dist[j] != INT_MAX:  eff += 1. / dist[j] / (N - 1)
 *
 * starting from 0. Values are `real`: the model is the exact sum the
 * `double` arithmetic approximates.
 */
module Efficiency {
  import opened Graph
  import opened Paths

  /**
   * A dist row as BFS leaves it for source i: one entry per node, and every
   * entry other than i's is the `INT_MAX` sentinel or a hop count of at
   * least 1, so no division by zero is ever evaluated.
   */
  predicate IsDistRow(row: seq<int>, i: int)
  {
    0 <= i < |row| && forall j :: 0 <= j < |row| && j != i ==> row[j] == IntMax || row[j] >= 1
  }

  /** What iteration j adds: `1. / dist[j] / (N - 1)` when j != i and j was reached, nothing otherwise. */
  function Term(row: seq<int>, i: int, j: int): (t: real)
    requires IsDistRow(row, i) && 0 <= j < |row|
    ensures 0.0 <= t
    ensures t > 0.0 <==> i != j && row[j] != IntMax
  {
    if i != j && row[j] != IntMax then
      Cancel(row[j] as real, (|row| - 1) as real);
      1.0 / (row[j] as real) / ((|row| - 1) as real)
    else 0.0
  }

  /** The accumulator after iterations 0 .. k-1, starting from 0. */
  function PartialEff(row: seq<int>, i: int, k: nat): (acc: real)
    requires IsDistRow(row, i) && k <= |row|
    ensures 0.0 <= acc
  {
    if k == 0 then 0.0 else PartialEff(row, i, k - 1) + Term(row, i, k - 1)
  }

  /** The efficiency of source i, given its dist row. */
  function NodeEff(row: seq<int>, i: int): (eff: real)
    requires IsDistRow(row, i)
    ensures 0.0 <= eff
  {
    PartialEff(row, i, |row|)
  }

  /**
   * The j-loop of the OpenMP and MPI programs: a private `double eff(0)`
   * accumulates the terms in ascending j.
   */
  method NodeEfficiency(dist: array<int>, i: int) returns (eff: real)
    requires IsDistRow(dist[..], i)
    ensures eff == NodeEff(dist[..], i)
  {
    eff := 0.0;
    var j := 0;
    while j < dist.Length
      invariant 0 <= j <= dist.Length
      invariant eff == PartialEff(dist[..], i, j)
    {
      if i != j && dist[j] != IntMax {
        eff := eff + 1.0 / (dist[j] as real) / ((dist.Length - 1) as real);
      }
      j := j + 1;
    }
  }

  /**
   * The j-loop of the two sequential programs: the terms are added straight
   * into `eff_list[i]`, which ends up holding its old value plus the node's
   * efficiency; every other entry is left alone.
   */
  method AccumulateEfficiency(effList: array<real>, dist: array<int>, i: int)
    requires IsDistRow(dist[..], i) && i < effList.Length
    modifies effList
    ensures effList[..] == old(effList[..])[i := old(effList[i]) + NodeEff(dist[..], i)]
  {
    var j := 0;
    while j < dist.Length
      invariant 0 <= j <= dist.Length
      invariant effList[..] == old(effList[..])[i := old(effList[i]) + PartialEff(dist[..], i, j)]
    {
      if i != j && dist[j] != IntMax {
        effList[i] := effList[i] + 1.0 / (dist[j] as real) / ((dist.Length - 1) as real);
      }
      j := j + 1;
    }
  }

  // ---------------------------------------------------------------------------
  // Properties of the reduction.

  /** Dividing by m and multiplying back by m cancels; 1 / d is at most 1 for d >= 1. */
  lemma Cancel(d: real, m: real)
    requires d >= 1.0 && m >= 1.0
    ensures 1.0 / d / m * m == 1.0 / d
    ensures 0.0 < 1.0 / d <= 1.0
    ensures 0.0 < 1.0 / d / m <= 1.0 / m
  {
  }

  /** Each term is 0 or 1 / (d (N - 1)) for a hop count d >= 1, so at most 1 / (N - 1). */
  lemma TermBounds(row: seq<int>, i: int, j: int)
    requires IsDistRow(row, i) && 0 <= j < |row|
    ensures 0.0 <= Term(row, i, j)
    ensures j != i ==> Term(row, i, j) <= 1.0 / ((|row| - 1) as real)
    ensures j == i || row[j] == IntMax ==> Term(row, i, j) == 0.0
  {
    if i != j && row[j] != IntMax {
      Cancel(row[j] as real, (|row| - 1) as real);
    }
  }

  /** u added once for every j < k other than i. */
  function Cap(i: int, k: nat, u: real): real
  {
    if k == 0 then 0.0 else Cap(i, k - 1, u) + (if k - 1 != i then u else 0.0)
  }

  /** Over all of [0, n) with i among them, u is added n - 1 times. */
  lemma {:induction false} CapCount(i: int, k: nat, u: real)
    ensures Cap(i, k, u) == (if 0 <= i < k then k - 1 else k) as real * u
  {
    if k > 0 {
      CapCount(i, k - 1, u);
    }
  }

  /** After k iterations the accumulator lies in [0, Cap(i, k, 1 / (N - 1))]. */
  lemma {:induction false} PartialEffBounds(row: seq<int>, i: int, k: nat)
    requires IsDistRow(row, i) && k <= |row| && |row| >= 2
    ensures 0.0 <= PartialEff(row, i, k) <= Cap(i, k, 1.0 / ((|row| - 1) as real))
  {
    if k > 0 {
      PartialEffBounds(row, i, k - 1);
      TermBounds(row, i, k - 1);
    }
  }

  /** Over all of [0, n), i among them, 1 / (n - 1) added n - 1 times makes 1. */
  lemma CapTotal(i: int, n: nat)
    requires 0 <= i < n && n >= 2
    ensures Cap(i, n, 1.0 / ((n - 1) as real)) == 1.0
  {
    CapCount(i, n, 1.0 / ((n - 1) as real));
  }

  /** Every efficiency lies in [0, 1]. */
  lemma NodeEffBounds(row: seq<int>, i: int)
    requires IsDistRow(row, i)
    ensures 0.0 <= NodeEff(row, i) <= 1.0
  {
    if |row| >= 2 {
      PartialEffBounds(row, i, |row|);
      CapTotal(i, |row|);
    } else {
      assert PartialEff(row, i, 1) == PartialEff(row, i, 0) + Term(row, i, 0);
    }
  }

  /** With no other node reached the sum is empty: the efficiency is exactly 0. */
  lemma {:induction false} NothingReachedPartialEff(row: seq<int>, i: int, k: nat)
    requires IsDistRow(row, i) && k <= |row|
    requires forall j :: 0 <= j < |row| && j != i ==> row[j] == IntMax
    ensures PartialEff(row, i, k) == 0.0
  {
    if k > 0 {
      NothingReachedPartialEff(row, i, k - 1);
    }
  }

  /**
   * No other node reached, in particular N = 1 where the only j is i itself:
   * no division is evaluated and the efficiency stays at its initial 0.
   */
  lemma NothingReachedNodeEff(row: seq<int>, i: int)
    requires IsDistRow(row, i)
    requires forall j :: 0 <= j < |row| && j != i ==> row[j] == IntMax
    ensures NodeEff(row, i) == 0.0
  {
    NothingReachedPartialEff(row, i, |row|);
  }

  /** 1 / dist[j] for a reached j other than i, 0 otherwise: a term before the (N - 1) normalisation. */
  function Reciprocal(row: seq<int>, i: int, j: int): real
    requires IsDistRow(row, i) && 0 <= j < |row|
  {
    if i != j && row[j] != IntMax then 1.0 / (row[j] as real) else 0.0
  }

  /** Sum of the reciprocals of the first k entries. */
  function ReciprocalSum(row: seq<int>, i: int, k: nat): real
    requires IsDistRow(row, i) && k <= |row|
  {
    if k == 0 then 0.0 else ReciprocalSum(row, i, k - 1) + Reciprocal(row, i, k - 1)
  }

  /** Each term is its reciprocal divided by N - 1. */
  lemma TermIsScaledReciprocal(row: seq<int>, i: int, j: int)
    requires IsDistRow(row, i) && 0 <= j < |row| && |row| >= 2
    ensures Term(row, i, j) == Reciprocal(row, i, j) / ((|row| - 1) as real)
  {
  }

  /** If p = a + t, a = ra / m and t = rt / m, then p = (ra + rt) / m. */
  lemma DivideSum(p: real, a: real, t: real, ra: real, rt: real, m: real)
    requires m != 0.0 && p == a + t && a == ra / m && t == rt / m
    ensures p == (ra + rt) / m
  {
  }

  /**
   * Dividing each term by N - 1, as the programs do, is dividing the sum once:
   * the accumulator is the sum of reciprocal distances, normalised by N - 1.
   */
  lemma {:induction false} PartialEffIsNormalisedSum(row: seq<int>, i: int, k: nat)
    requires IsDistRow(row, i) && k <= |row| && |row| >= 2
    ensures PartialEff(row, i, k) == ReciprocalSum(row, i, k) / ((|row| - 1) as real)
  {
    if k > 0 {
      PartialEffIsNormalisedSum(row, i, k - 1);
      TermIsScaledReciprocal(row, i, k - 1);
      DivideSum(PartialEff(row, i, k), PartialEff(row, i, k - 1), Term(row, i, k - 1),
                ReciprocalSum(row, i, k - 1), Reciprocal(row, i, k - 1), (|row| - 1) as real);
    }
  }

  /** The normalised-sum form of the efficiency. */
  lemma NodeEffIsNormalisedSum(row: seq<int>, i: int)
    requires IsDistRow(row, i) && |row| >= 2
    ensures NodeEff(row, i) == ReciprocalSum(row, i, |row|) / ((|row| - 1) as real)
  {
    PartialEffIsNormalisedSum(row, i, |row|);
  }

  /** When every other node is one hop away, the reciprocal sum counts them. */
  lemma {:induction false} AllAdjacentReciprocalSum(row: seq<int>, i: int, k: nat)
    requires IsDistRow(row, i) && k <= |row|
    requires forall j :: 0 <= j < |row| && j != i ==> row[j] == 1
    ensures ReciprocalSum(row, i, k) == Cap(i, k, 1.0)
  {
    if k > 0 {
      AllAdjacentReciprocalSum(row, i, k - 1);
    }
  }

  /** Every other node one hop away, N >= 2: the efficiency attains its maximum 1. */
  lemma AllAdjacentNodeEff(row: seq<int>, i: int)
    requires IsDistRow(row, i) && |row| >= 2
    requires forall j :: 0 <= j < |row| && j != i ==> row[j] == 1
    ensures NodeEff(row, i) == 1.0
  {
    AllAdjacentReciprocalSum(row, i, |row|);
    CapCount(i, |row|, 1.0);
    NodeEffIsNormalisedSum(row, i);
  }

  // ---------------------------------------------------------------------------
  // The efficiency of a node of a graph.

  /** The BFS row of every source is a dist row. */
  lemma DistanceRowIsDistRow(adj: seq<seq<int>>, n: nat, i: int)
    requires 0 <= i < n
    ensures IsDistRow(DistanceRow(adj, i, n), i)
  {
  }

  /** The efficiency of node i of a graph on [0, n). */
  ghost function EfficiencyOf(adj: seq<seq<int>>, n: nat, i: int): (e: real)
    requires 0 <= i < n
    ensures 0.0 <= e <= 1.0
  {
    DistanceRowIsDistRow(adj, n, i);
    NodeEffBounds(DistanceRow(adj, i, n), i);
    NodeEff(DistanceRow(adj, i, n), i)
  }

  /** `eff_list`: the efficiency of every node, index = node id. */
  ghost function EfficiencyList(adj: seq<seq<int>>, n: nat): (effs: seq<real>)
    ensures |effs| == n
    ensures forall i :: 0 <= i < n ==> effs[i] == EfficiencyOf(adj, n, i) && 0.0 <= effs[i] <= 1.0
  {
    seq(n, i requires 0 <= i < n => EfficiencyOf(adj, n, i))
  }

  /** A node with an empty adjacency list reaches no one: its efficiency is 0. */
  lemma IsolatedNodeEfficiency(adj: seq<seq<int>>, n: nat, i: int)
    requires IsGraph(adj, n) && 0 <= i < n && adj[i] == []
    ensures EfficiencyOf(adj, n, i) == 0.0
  {
    var row := DistanceRow(adj, i, n);
    forall j | 0 <= j < n && j != i ensures row[j] == IntMax {
      if Reachable(adj, i, j) {
        var k: nat :| Within(adj, i, j, k);
        IsolatedReachesOnlyItself(adj, i, j, k);
      }
    }
    NothingReachedNodeEff(row, i);
  }

  /** A node adjacent to every other node, with N >= 2, has efficiency 1. */
  lemma UniversalNodeEfficiency(adj: seq<seq<int>>, n: nat, i: int)
    requires IsGraph(adj, n) && n >= 2 && 0 <= i < n
    requires forall j :: 0 <= j < n && j != i ==> j in adj[i]
    ensures EfficiencyOf(adj, n, i) == 1.0
  {
    var row := DistanceRow(adj, i, n);
    forall j | 0 <= j < n && j != i ensures row[j] == 1 {
      assert Within(adj, i, i, 0) && j in adj[i];
      assert Within(adj, i, j, 1);
      assert IsShortest(adj, i, j, 1);
      ShortestUnique(adj, i, j, 1, Distance(adj, i, j));
    }
    AllAdjacentNodeEff(row, i);
  }

  // ---------------------------------------------------------------------------
  // A worked example: the path 0 - 1 - 2.

  /** A shortest distance that is known is what Distance returns. */
  lemma DistanceIs(adj: seq<seq<int>>, src: int, v: int, d: nat)
    requires IsShortest(adj, src, v, d)
    ensures Distance(adj, src, v) == d
  {
    assert Reachable(adj, src, v) by {
      assert Within(adj, src, v, d);
    }
    ShortestUnique(adj, src, v, Distance(adj, src, v), d);
  }

  /** The adjacency lists of the edge list "0 1", "1 2" on N = 3. */
  lemma PathAdjacency()
    ensures EdgesInRange([Edge(0, 1), Edge(1, 2)], 3)
    ensures Adjacency(3, [Edge(0, 1), Edge(1, 2)]) == [[1], [0, 2], [1]]
  {
    var first, edges := [Edge(0, 1)], [Edge(0, 1), Edge(1, 2)];
    assert first[..0] == [] && edges[..1] == first;
    assert Adjacency(3, []) == [[], [], []];
    var a := AddEdge([[], [], []], Edge(0, 1));
    assert a[0] == [1] && a[1] == [0] && a[2] == [];
    assert Adjacency(3, first) == a == [[1], [0], []];
    var b := AddEdge(a, Edge(1, 2));
    assert b[0] == [1] && b[1] == [0, 2] && b[2] == [1];
    assert Adjacency(3, edges) == b == [[1], [0, 2], [1]];
  }

  /** From an end a of the path, whose far end is b, node 1 is one hop away and b two. */
  lemma EndOfPathRow(adj: seq<seq<int>>, a: int, b: int)
    requires adj == [[1], [0, 2], [1]]
    requires (a == 0 && b == 2) || (a == 2 && b == 0)
    ensures DistanceRow(adj, a, 3) == if a == 0 then [0, 1, 2] else [2, 1, 0]
  {
    assert Within(adj, a, a, 0);
    DistanceIs(adj, a, a, 0);
    assert Within(adj, a, 1, 1) by {
      assert Within(adj, a, a, 0) && 1 in adj[a];
    }
    DistanceIs(adj, a, 1, 1);
    assert Within(adj, a, b, 2) by {
      assert Within(adj, a, 1, 1) && b in adj[1];
    }
    assert !Within(adj, a, b, 1);
    DistanceIs(adj, a, b, 2);
  }

  /** The efficiency of an end of the path: (1/1 + 1/2) / 2. */
  lemma EndOfPath(adj: seq<seq<int>>, a: int, b: int)
    requires adj == [[1], [0, 2], [1]]
    requires (a == 0 && b == 2) || (a == 2 && b == 0)
    ensures EfficiencyOf(adj, 3, a) == 0.75
  {
    EndOfPathRow(adj, a, b);
    var row := DistanceRow(adj, a, 3);
    assert PartialEff(row, a, 1) == if a == 0 then 0.0 else 0.25;
    assert PartialEff(row, a, 2) == if a == 0 then 0.5 else 0.75;
  }

  /** The path 0 - 1 - 2 on N = 3 gives the efficiency list [0.75, 1, 0.75]. */
  lemma PathOfThree()
    ensures EdgesInRange([Edge(0, 1), Edge(1, 2)], 3)
    ensures EfficiencyList(Adjacency(3, [Edge(0, 1), Edge(1, 2)]), 3) == [0.75, 1.0, 0.75]
  {
    PathAdjacency();
    var adj: seq<seq<int>> := [[1], [0, 2], [1]];
    assert IsGraph(adj, 3);
    UniversalNodeEfficiency(adj, 3, 1);
    EndOfPath(adj, 0, 2);
    EndOfPath(adj, 2, 0);
  }
}
