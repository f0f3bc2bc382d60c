/**
 * The four programs' main computations, each run as a sequential
 * simulation: build `adj_list`, run one BFS per source into a row filled
 * with `INT_MAX`, reduce the row to the source's efficiency and store it in
 * `eff_list`. Every variant is proved to produce `EfficiencyList` of the
 * graph, so they all agree.
 */
module Engine {
  import opened Graph
  import opened Paths
  import opened Frontier
  import opened Efficiency
  import opened Partition

  /** What a BFS from i leaves in a row that held `INT_MAX` everywhere is exactly the distance row. */
  lemma SearchedRow(adj: seq<seq<int>>, n: nat, i: int, row: seq<int>)
    requires 0 <= i < n && |row| == n
    requires forall v :: 0 <= v < n ==>
               if Reachable(adj, i, v) then row[v] == Distance(adj, i, v) else row[v] == IntMax
    ensures row == DistanceRow(adj, i, n)
  {
  }

  /** `vector<int> dist_from_src(N, INT_MAX); breadth_first_search(adj_list, i, N, dist_from_src);` with the fixed-buffer search. */
  method DistancesFrom(adj: seq<seq<int>>, n: nat, i: int) returns (dist: array<int>)
    requires IsGraph(adj, n) && n <= IntMax && 0 <= i < n
    ensures fresh(dist) && dist[..] == DistanceRow(adj, i, n)
  {
    dist := new int[n](_ => IntMax);
    BreadthFirstSearch(adj, i, n, dist);
    SearchedRow(adj, n, i, dist[..]);
  }

  /** The same with the `std::list` FIFO search of node_eff_sequential_list.cpp. */
  method DistancesFromFifo(adj: seq<seq<int>>, n: nat, i: int) returns (dist: array<int>)
    requires IsGraph(adj, n) && n <= IntMax && 0 <= i < n
    ensures fresh(dist) && dist[..] == DistanceRow(adj, i, n)
  {
    dist := new int[n](_ => IntMax);
    BreadthFirstSearchFifo(adj, i, n, dist);
    SearchedRow(adj, n, i, dist[..]);
  }

  /** The reduction of the distance row of source i is i's efficiency. */
  lemma RowEfficiency(adj: seq<seq<int>>, n: nat, i: int)
    requires 0 <= i < n
    ensures IsDistRow(DistanceRow(adj, i, n), i)
    ensures NodeEff(DistanceRow(adj, i, n), i) == EfficiencyOf(adj, n, i)
  {
    DistanceRowIsDistRow(adj, n, i);
  }

  // ---------------------------------------------------------------------------
  // Sequential programs.

  /**
   * node_eff_sequential_array.cpp: `eff_list(N, 0)`, then for i = 0 .. N-1 a
   * fixed-buffer BFS and the terms added straight into `eff_list[i]`.
   */
  method SequentialArray(n: nat, edges: seq<Edge>) returns (effs: seq<real>)
    requires EdgesInRange(edges, n) && n <= IntMax
    ensures effs == EfficiencyList(Adjacency(n, edges), n)
  {
    var adj := BuildAdjacency(n, edges);
    var effList := new real[n](_ => 0.0);
    for i := 0 to n
      invariant forall k :: 0 <= k < n ==> effList[k] == if k < i then EfficiencyOf(adj, n, k) else 0.0
    {
      var dist := DistancesFrom(adj, n, i);
      RowEfficiency(adj, n, i);
      AccumulateEfficiency(effList, dist, i);
    }
    effs := effList[..];
  }

  /** node_eff_sequential_list.cpp: the same loop over the `std::list` FIFO search. */
  method SequentialList(n: nat, edges: seq<Edge>) returns (effs: seq<real>)
    requires EdgesInRange(edges, n) && n <= IntMax
    ensures effs == EfficiencyList(Adjacency(n, edges), n)
  {
    var adj := BuildAdjacency(n, edges);
    var effList := new real[n](_ => 0.0);
    for i := 0 to n
      invariant forall k :: 0 <= k < n ==> effList[k] == if k < i then EfficiencyOf(adj, n, k) else 0.0
    {
      var dist := DistancesFromFifo(adj, n, i);
      RowEfficiency(adj, n, i);
      AccumulateEfficiency(effList, dist, i);
    }
    effs := effList[..];
  }

  // ---------------------------------------------------------------------------
  // OpenMP program.

  /**
   * node_eff_parallel_array_openmp.cpp: the iterations i = 0 .. N-1 of the
   * `omp parallel for` share only read-only `adj_list` and write distinct
   * slots `eff_list[i] = eff`, so any schedule gives the result of running
   * them one after another in some order. `order` is that order: any
   * sequence of node ids that contains every node.
   */
  method OpenMp(n: nat, edges: seq<Edge>, order: seq<int>) returns (effs: seq<real>)
    requires EdgesInRange(edges, n) && n <= IntMax
    requires forall t :: 0 <= t < |order| ==> 0 <= order[t] < n
    requires forall i :: 0 <= i < n ==> i in order
    ensures effs == EfficiencyList(Adjacency(n, edges), n)
  {
    var adj := BuildAdjacency(n, edges);
    var effList := new real[n](_ => 0.0);
    for t := 0 to |order|
      invariant forall k :: 0 <= k < n ==> effList[k] == if k in order[..t] then EfficiencyOf(adj, n, k) else 0.0
    {
      var i := order[t];
      var dist := DistancesFrom(adj, n, i);
      RowEfficiency(adj, n, i);
      var eff := NodeEfficiency(dist, i);
      effList[i] := eff;
      assert order[..t + 1] == order[..t] + [i];
    }
    assert order[..|order|] == order;
    effs := effList[..];
  }

  // ---------------------------------------------------------------------------
  // MPI program.

  /** Every entry of the flattened edge list is a node id. */
  lemma FlatInRange(n: nat, edges: seq<Edge>)
    requires EdgesInRange(edges, n)
    ensures forall k :: 0 <= k < |Flat(edges)| ==> 0 <= Flat(edges)[k] < n
  {
    FlatLayout(edges);
    forall k | 0 <= k < |Flat(edges)| ensures 0 <= Flat(edges)[k] < n {
      var e := k / 2;
      assert k == 2 * e || k == 2 * e + 1;
    }
  }

  /**
   * One rank's loop `for (i = displs[rank]; i < displs[rank] + counts[rank]; i++)`
   * with `partial_eff_list.push_back(eff)`: the rank's piece of the global list.
   */
  method RankEfficiencies(adj: seq<seq<int>>, n: nat, p: nat, rank: nat) returns (partial: seq<real>)
    requires IsGraph(adj, n) && n <= IntMax && p >= 1 && rank < p
    ensures partial == Range(n, p, EfficiencyList(adj, n), rank)
  {
    var counts, displs := Distribute(n, p);
    RangeInBounds(n, p, rank);
    var lo, hi := displs[rank], displs[rank] + counts[rank];
    ghost var effs := EfficiencyList(adj, n);
    partial := [];
    for i := lo to hi
      invariant partial == effs[lo..i]
    {
      var dist := DistancesFrom(adj, n, i);
      RowEfficiency(adj, n, i);
      var eff := NodeEfficiency(dist, i);
      partial := partial + [eff];
    }
  }

  /**
   * `MPI_Gatherv` at the root: rank k's buffer is written at displs[k] of
   * `global_eff_list`, rank by rank.
   */
  method Gather(n: nat, p: nat, global: seq<real>, parts: seq<seq<real>>) returns (result: seq<real>)
    requires p >= 1 && |global| == n && Fits(n, p, parts)
    ensures result == Gathered(n, p, global, parts, p)
  {
    var counts, displs := Distribute(n, p);
    result := global;
    for k := 0 to p
      invariant result == Gathered(n, p, global, parts, k)
    {
      DisplMonotone(n, p, k + 1, p);
      CountsSumToN(n, p);
      result := Place(result, parts[k], displs[k]);
    }
  }

  /**
   * node_eff_parallel_array_mpi.cpp: the root flattens the edge list, every
   * rank receives it (the broadcast is modelled as every rank holding the
   * same sequence) and rebuilds `adj_list`, each of the p ranks computes its
   * range, and the root gathers the pieces into `global_eff_list(N)`.
   */
  method Mpi(n: nat, edges: seq<Edge>, p: nat) returns (effs: seq<real>)
    requires EdgesInRange(edges, n) && n <= IntMax && p >= 1
    ensures effs == EfficiencyList(Adjacency(n, edges), n)
  {
    var flat := FlattenEdges(edges);
    FlatInRange(n, edges);
    var adj := RebuildAdjacency(flat, n);
    AdjacencyIsGraph(n, edges);
    ghost var all := EfficiencyList(adj, n);
    var parts: seq<seq<real>> := [];
    for rank := 0 to p
      invariant |parts| == rank
      invariant forall k :: 0 <= k < rank ==> parts[k] == Range(n, p, all, k)
    {
      var partial := RankEfficiencies(adj, n, p, rank);
      parts := parts + [partial];
    }
    assert parts == Ranges(n, p, all);
    var global := seq(n, _ => 0.0);
    effs := Gather(n, p, global, parts);
    GatherOfRanges(n, p, global, all);
  }
}
