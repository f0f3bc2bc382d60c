/**
 * Hop distance in an unweighted graph, the quantity `breadth_first_search`
 * writes into `dist`: the least k such that a node can be reached from the
 * source in at most k steps along adjacency lists.
 */
module Paths {
  import opened Graph

  /** v can be reached from src by following at most k adjacency-list entries. */
  ghost predicate Within(adj: seq<seq<int>>, src: int, v: int, k: nat)
    decreases k
  {
    if k == 0 then v == src
    else
      Within(adj, src, v, k - 1) ||
      exists u :: 0 <= u < |adj| && Within(adj, src, u, k - 1) && v in adj[u]
  }

  /** v can be reached from src at all. */
  ghost predicate Reachable(adj: seq<seq<int>>, src: int, v: int)
  {
    exists k: nat :: Within(adj, src, v, k)
  }

  /** d is the length of a shortest path from src to v. */
  ghost predicate IsShortest(adj: seq<seq<int>>, src: int, v: int, d: nat)
  {
    Within(adj, src, v, d) && forall k: nat :: k < d ==> !Within(adj, src, v, k)
  }

  /** A bound of j hops is also a bound of k >= j hops. */
  lemma {:induction false} WithinMonotone(adj: seq<seq<int>>, src: int, v: int, j: nat, k: nat)
    requires j <= k && Within(adj, src, v, j)
    ensures Within(adj, src, v, k)
    decreases k - j
  {
    if j < k {
      WithinMonotone(adj, src, v, j, k - 1);
    }
  }

  /** Every node reachable within k hops has a shortest distance, at most k. */
  lemma {:induction false} ShortestExists(adj: seq<seq<int>>, src: int, v: int, k: nat)
    requires Within(adj, src, v, k)
    ensures exists d: nat :: d <= k && IsShortest(adj, src, v, d)
  {
    if k == 0 {
      assert IsShortest(adj, src, v, 0);
    } else if Within(adj, src, v, k - 1) {
      ShortestExists(adj, src, v, k - 1);
    } else {
      forall j: nat | j < k ensures !Within(adj, src, v, j) {
        if Within(adj, src, v, j) {
          WithinMonotone(adj, src, v, j, k - 1);
        }
      }
      assert IsShortest(adj, src, v, k);
    }
  }

  /** The shortest distance is unique. */
  lemma ShortestUnique(adj: seq<seq<int>>, src: int, v: int, d1: nat, d2: nat)
    requires IsShortest(adj, src, v, d1) && IsShortest(adj, src, v, d2)
    ensures d1 == d2
  {
  }

  /** The hop distance from src to v, or `INT_MAX` when v cannot be reached. */
  ghost function Distance(adj: seq<seq<int>>, src: int, v: int): (d: int)
    ensures Reachable(adj, src, v) ==> d >= 0 && IsShortest(adj, src, v, d)
    ensures !Reachable(adj, src, v) ==> d == IntMax
  {
    if Reachable(adj, src, v) then
      var k: nat :| Within(adj, src, v, k);
      ShortestExists(adj, src, v, k);
      var d: nat :| IsShortest(adj, src, v, d);
      d
    else
      IntMax
  }

  /** Only the source is at distance 0, and it is at distance 0. */
  lemma DistanceZeroIsSource(adj: seq<seq<int>>, src: int, v: int)
    ensures Distance(adj, src, src) == 0
    ensures v != src ==> Distance(adj, src, v) != 0
  {
    assert Within(adj, src, src, 0);
    ShortestUnique(adj, src, src, Distance(adj, src, src), 0);
  }

  /**
   * The row the BFS leaves in a `dist` vector the caller filled with
   * `INT_MAX`: the hop distance of every reachable node, `INT_MAX` elsewhere.
   */
  ghost function DistanceRow(adj: seq<seq<int>>, src: int, n: nat): (row: seq<int>)
    ensures |row| == n
    ensures 0 <= src < n ==> row[src] == 0
    ensures forall v :: 0 <= v < n && v != src ==> row[v] == IntMax || row[v] >= 1
  {
    var row := seq(n, v => Distance(adj, src, v));
    assert forall v :: 0 <= v < n && v != src ==> row[v] == IntMax || row[v] >= 1 by {
      forall v | 0 <= v < n && v != src ensures row[v] == IntMax || row[v] >= 1 {
        DistanceZeroIsSource(adj, src, v);
      }
    }
    DistanceZeroIsSource(adj, src, src);
    row
  }

  /** From a node with an empty list, nothing but itself is reachable. */
  lemma {:induction false} IsolatedReachesOnlyItself(adj: seq<seq<int>>, src: int, v: int, k: nat)
    requires 0 <= src < |adj| && adj[src] == []
    requires Within(adj, src, v, k)
    ensures v == src
    decreases k
  {
    if k > 0 {
      if Within(adj, src, v, k - 1) {
        IsolatedReachesOnlyItself(adj, src, v, k - 1);
      } else {
        var u :| 0 <= u < |adj| && Within(adj, src, u, k - 1) && v in adj[u];
        IsolatedReachesOnlyItself(adj, src, u, k - 1);
      }
    }
  }

  /** Every node reachable from a node in a graph on [0, n) is itself in [0, n). */
  lemma {:induction false} WithinInRange(adj: seq<seq<int>>, n: int, src: int, v: int, k: nat)
    requires IsGraph(adj, n) && 0 <= src < n
    requires Within(adj, src, v, k)
    ensures 0 <= v < n
    decreases k
  {
    if k > 0 {
      if Within(adj, src, v, k - 1) {
        WithinInRange(adj, n, src, v, k - 1);
      } else {
        var u :| 0 <= u < |adj| && Within(adj, src, u, k - 1) && v in adj[u];
        var j :| 0 <= j < |adj[u]| && adj[u][j] == v;
      }
    }
  }
}
