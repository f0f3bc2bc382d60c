/**
 * The graph as the programs hold it: `adj_list`, one neighbour list per node
 * id, filled from an edge list read in file order. Also the flattened
 * `[src0, dest0, src1, dest1, ...]` form that the MPI program broadcasts and
 * every rank turns back into adjacency lists, and the neighbour-pair listing
 * of node_eff.cpp.
 */
module Graph {

  /** The largest C++ `int`; the BFS callers use it as "unreachable". */
  const IntMax: int := 0x7fff_ffff

  /** One line `src dest` of the edge-list file. */
  datatype Edge = Edge(src: int, dest: int)

  /** Both endpoints of every edge are node ids in [0, n). */
  predicate EdgesInRange(edges: seq<Edge>, n: int)
  {
    forall k :: 0 <= k < |edges| ==> 0 <= edges[k].src < n && 0 <= edges[k].dest < n
  }

  /** `adj` has exactly n lists and every neighbour is a node id in [0, n). */
  predicate IsGraph(adj: seq<seq<int>>, n: int)
  {
    |adj| == n &&
    forall u, j :: 0 <= u < n && 0 <= j < |adj[u]| ==> 0 <= adj[u][j] < n
  }

  /** The two `push_back`s one edge causes: dest onto src's list, then src onto dest's. */
  function AddEdge(adj: seq<seq<int>>, e: Edge): (adj': seq<seq<int>>)
    requires 0 <= e.src < |adj| && 0 <= e.dest < |adj|
    ensures |adj'| == |adj|
  {
    var a := adj[e.src := adj[e.src] + [e.dest]];
    a[e.dest := a[e.dest] + [e.src]]
  }

  /** One edge touches only its two endpoints' lists; a self-loop (u, u) adds u to list u twice. */
  lemma AddEdgeEffect(adj: seq<seq<int>>, e: Edge)
    requires 0 <= e.src < |adj| && 0 <= e.dest < |adj|
    ensures forall u :: 0 <= u < |adj| ==>
              AddEdge(adj, e)[u] == adj[u] + (if u == e.src then [e.dest] else []) + (if u == e.dest then [e.src] else [])
  {
  }

  /** `vector<vector<int>> adj_list(N)`: n empty lists. */
  function EmptyLists(n: nat): seq<seq<int>>
  {
    seq(n, _ => [])
  }

  /** The adjacency lists after reading `edges` in order into n empty lists. */
  function Adjacency(n: nat, edges: seq<Edge>): (adj: seq<seq<int>>)
    requires EdgesInRange(edges, n)
    ensures |adj| == n
  {
    if edges == [] then EmptyLists(n)
    else AddEdge(Adjacency(n, edges[..|edges| - 1]), edges[|edges| - 1])
  }

  /**
   * An independent, per-node description: the opposite endpoint of every edge
   * touching u, in file order; an edge (u, u) contributes u twice.
   */
  function Opposites(u: int, edges: seq<Edge>): seq<int>
  {
    if edges == [] then []
    else
      var e := edges[|edges| - 1];
      Opposites(u, edges[..|edges| - 1])
        + (if e.src == u then [e.dest] else [])
        + (if e.dest == u then [e.src] else [])
  }

  /** The total number of neighbour entries over all lists. */
  function TotalEntries(adj: seq<seq<int>>): nat
  {
    if adj == [] then 0 else |adj[0]| + TotalEntries(adj[1..])
  }

  lemma {:induction false} TotalEntriesAppend(adj: seq<seq<int>>, u: int, x: int)
    requires 0 <= u < |adj|
    ensures TotalEntries(adj[u := adj[u] + [x]]) == TotalEntries(adj) + 1
  {
    if u == 0 {
      assert adj[u := adj[u] + [x]][1..] == adj[1..];
    } else {
      assert adj[u := adj[u] + [x]][1..] == adj[1..][u - 1 := adj[u] + [x]];
      TotalEntriesAppend(adj[1..], u - 1, x);
    }
  }

  /** Every list of the built structure is the per-node description above. */
  lemma {:induction false} AdjacencyIsOpposites(n: nat, edges: seq<Edge>, u: int)
    requires EdgesInRange(edges, n) && 0 <= u < n
    ensures Adjacency(n, edges)[u] == Opposites(u, edges)
  {
    if edges != [] {
      var init := edges[..|edges| - 1];
      assert EdgesInRange(init, n) by {
        forall k | 0 <= k < |init| ensures 0 <= init[k].src < n && 0 <= init[k].dest < n {
          assert init[k] == edges[k];
        }
      }
      AdjacencyIsOpposites(n, init, u);
    }
  }

  /** Reading E edges makes 2E entries in all: no deduplication, self-loops counted twice. */
  lemma {:induction false} AdjacencyEntryCount(n: nat, edges: seq<Edge>)
    requires EdgesInRange(edges, n)
    ensures TotalEntries(Adjacency(n, edges)) == 2 * |edges|
  {
    if edges == [] {
      EmptyListsHaveNoEntries(n);
    } else {
      var init := edges[..|edges| - 1];
      var e := edges[|edges| - 1];
      assert EdgesInRange(init, n) by {
        forall k | 0 <= k < |init| ensures 0 <= init[k].src < n && 0 <= init[k].dest < n {
          assert init[k] == edges[k];
        }
      }
      AdjacencyEntryCount(n, init);
      var a0 := Adjacency(n, init);
      var a1 := a0[e.src := a0[e.src] + [e.dest]];
      TotalEntriesAppend(a0, e.src, e.dest);
      TotalEntriesAppend(a1, e.dest, e.src);
    }
  }

  lemma {:induction false} EmptyListsHaveNoEntries(n: nat)
    ensures TotalEntries(EmptyLists(n)) == 0
  {
    if n > 0 {
      assert EmptyLists(n)[1..] == EmptyLists(n - 1);
      EmptyListsHaveNoEntries(n - 1);
    }
  }

  /** The built structure is a graph on [0, n): n lists whose entries are node ids. */
  lemma {:induction false} AdjacencyIsGraph(n: nat, edges: seq<Edge>)
    requires EdgesInRange(edges, n)
    ensures IsGraph(Adjacency(n, edges), n)
  {
    forall u, j | 0 <= u < n && 0 <= j < |Adjacency(n, edges)[u]|
      ensures 0 <= Adjacency(n, edges)[u][j] < n
    {
      AdjacencyIsOpposites(n, edges, u);
      OppositesInRange(n, edges, u, j);
    }
  }

  lemma {:induction false} OppositesInRange(n: nat, edges: seq<Edge>, u: int, j: int)
    requires EdgesInRange(edges, n) && 0 <= j < |Opposites(u, edges)|
    ensures 0 <= Opposites(u, edges)[j] < n
  {
    var init := edges[..|edges| - 1];
    var e := edges[|edges| - 1];
    assert EdgesInRange(init, n) by {
      forall k | 0 <= k < |init| ensures 0 <= init[k].src < n && 0 <= init[k].dest < n {
        assert init[k] == edges[k];
      }
    }
    if j < |Opposites(u, init)| {
      OppositesInRange(n, init, u, j);
    }
  }

  /**
   * The read loop of every program: n empty lists, then for each edge in file
   * order `adj_list[src].push_back(dest); adj_list[dest].push_back(src);`.
   */
  method BuildAdjacency(n: nat, edges: seq<Edge>) returns (adj: seq<seq<int>>)
    requires EdgesInRange(edges, n)
    ensures adj == Adjacency(n, edges)
    ensures IsGraph(adj, n)
  {
    var adjList := new seq<int>[n](_ => []);
    var k := 0;
    while k < |edges|
      invariant 0 <= k <= |edges|
      invariant EdgesInRange(edges[..k], n)
      invariant adjList[..] == Adjacency(n, edges[..k])
    {
      var e := edges[k];
      assert edges[..k + 1][..k] == edges[..k];
      adjList[e.src] := adjList[e.src] + [e.dest];
      adjList[e.dest] := adjList[e.dest] + [e.src];
      k := k + 1;
    }
    assert edges[..k] == edges;
    adj := adjList[..];
    AdjacencyIsGraph(n, edges);
  }

  // ---------------------------------------------------------------------------
  // The flattened edge list of the MPI program.

  /** `[src0, dest0, src1, dest1, ...]`. */
  function Flat(edges: seq<Edge>): (flat: seq<int>)
    ensures |flat| == 2 * |edges|
  {
    if edges == [] then [] else Flat(edges[..|edges| - 1]) + [edges[|edges| - 1].src, edges[|edges| - 1].dest]
  }

  /** The edges read back from a flat list: pair i is (flat[2i], flat[2i+1]). */
  function Unflat(flat: seq<int>): (edges: seq<Edge>)
    ensures 2 * |edges| <= |flat| <= 2 * |edges| + 1
  {
    seq(|flat| / 2, i requires 0 <= i < |flat| / 2 => Edge(flat[2 * i], flat[2 * i + 1]))
  }

  /** The flat list alternates src and dest, so it has even length 2E. */
  lemma {:induction false} FlatLayout(edges: seq<Edge>)
    ensures |Flat(edges)| == 2 * |edges|
    ensures forall i :: 0 <= i < |edges| ==> Flat(edges)[2 * i] == edges[i].src && Flat(edges)[2 * i + 1] == edges[i].dest
  {
    if edges != [] {
      var init := edges[..|edges| - 1];
      FlatLayout(init);
      forall i | 0 <= i < |edges|
        ensures Flat(edges)[2 * i] == edges[i].src && Flat(edges)[2 * i + 1] == edges[i].dest
      {
        if i < |init| {
          assert init[i] == edges[i];
        }
      }
    }
  }

  /** Rebuilding the pairs of a flattened list gives back the edges. */
  lemma FlatRoundTrip(edges: seq<Edge>)
    ensures Unflat(Flat(edges)) == edges
  {
    FlatLayout(edges);
  }

  /** In the other direction: an even-length list is the flattening of its pairs. */
  lemma FlatOfUnflat(flat: seq<int>)
    requires |flat| % 2 == 0
    ensures Flat(Unflat(flat)) == flat
  {
    var edges := Unflat(flat);
    FlatLayout(edges);
    assert |Flat(edges)| == |flat|;
    forall k | 0 <= k < |flat| ensures Flat(edges)[k] == flat[k] {
      if k % 2 == 0 {
        assert Flat(edges)[2 * (k / 2)] == edges[k / 2].src;
      } else {
        assert Flat(edges)[2 * (k / 2) + 1] == edges[k / 2].dest;
      }
    }
  }

  /** Rank 0's read loop: push src then dest for each line. */
  method FlattenEdges(edges: seq<Edge>) returns (flat: seq<int>)
    ensures flat == Flat(edges)
    ensures |flat| == 2 * |edges| && Unflat(flat) == edges
  {
    flat := [];
    var k := 0;
    while k < |edges|
      invariant 0 <= k <= |edges|
      invariant flat == Flat(edges[..k])
    {
      assert edges[..k + 1][..k] == edges[..k];
      flat := flat + [edges[k].src];
      flat := flat + [edges[k].dest];
      k := k + 1;
    }
    assert edges[..k] == edges;
    FlatLayout(edges);
    FlatRoundTrip(edges);
  }

  /**
   * Every rank's rebuild loop: for i < |flat| / 2, push flat[2i+1] onto list
   * flat[2i] and flat[2i] onto list flat[2i+1].
   */
  method RebuildAdjacency(flat: seq<int>, n: nat) returns (adj: seq<seq<int>>)
    requires forall k :: 0 <= k < |flat| ==> 0 <= flat[k] < n
    ensures EdgesInRange(Unflat(flat), n)
    ensures adj == Adjacency(n, Unflat(flat))
  {
    var edges := Unflat(flat);
    assert EdgesInRange(edges, n) by {
      forall k | 0 <= k < |edges| ensures 0 <= edges[k].src < n && 0 <= edges[k].dest < n {
        assert edges[k] == Edge(flat[2 * k], flat[2 * k + 1]);
      }
    }
    var adjList := new seq<int>[n](_ => []);
    var i := 0;
    while i < |flat| / 2
      invariant 0 <= i <= |flat| / 2
      invariant EdgesInRange(edges[..i], n)
      invariant adjList[..] == Adjacency(n, edges[..i])
    {
      var src := flat[2 * i];
      var dest := flat[2 * i + 1];
      assert edges[i] == Edge(src, dest);
      assert edges[..i + 1][..i] == edges[..i];
      adjList[src] := adjList[src] + [dest];
      adjList[dest] := adjList[dest] + [src];
      i := i + 1;
    }
    assert edges[..i] == edges;
    adj := adjList[..];
  }

  /** What the MPI ranks rebuild from the broadcast list is what the sequential programs build. */
  lemma BroadcastRebuildAgrees(n: nat, edges: seq<Edge>)
    requires EdgesInRange(edges, n)
    ensures EdgesInRange(Unflat(Flat(edges)), n)
    ensures Adjacency(n, Unflat(Flat(edges))) == Adjacency(n, edges)
  {
    FlatRoundTrip(edges);
  }

  // ---------------------------------------------------------------------------
  // node_eff.cpp: listing every (node, neighbour) pair.

  /** The pairs of row u, in list order. */
  function RowPairs(adj: seq<seq<int>>, u: int): seq<(int, int)>
    requires 0 <= u < |adj|
  {
    seq(|adj[u]|, j requires 0 <= j < |adj[u]| => (u, adj[u][j]))
  }

  /** The pairs of rows 0 .. u-1, rows ascending. */
  function PairsBelow(adj: seq<seq<int>>, u: int): seq<(int, int)>
    requires 0 <= u <= |adj|
  {
    if u == 0 then [] else PairsBelow(adj, u - 1) + RowPairs(adj, u - 1)
  }

  /** One pair per entry of rows 0 .. u-1, and a pair (x, y) exactly when y is in x's list. */
  lemma {:induction false} PairsBelowContents(adj: seq<seq<int>>, u: int)
    requires 0 <= u <= |adj|
    ensures |PairsBelow(adj, u)| == TotalEntries(adj[..u])
    ensures forall x, y :: (x, y) in PairsBelow(adj, u) <==> 0 <= x < u && y in adj[x]
  {
    if u == 0 {
    } else {
      PairsBelowContents(adj, u - 1);
      TotalEntriesSnoc(adj[..u]);
      assert adj[..u][..u - 1] == adj[..u - 1];
      forall x, y ensures (x, y) in RowPairs(adj, u - 1) <==> x == u - 1 && y in adj[u - 1] {
        if x == u - 1 && y in adj[u - 1] {
          var j :| 0 <= j < |adj[u - 1]| && adj[u - 1][j] == y;
          assert RowPairs(adj, u - 1)[j] == (x, y);
        }
      }
    }
  }

  lemma {:induction false} TotalEntriesSnoc(adj: seq<seq<int>>)
    requires adj != []
    ensures TotalEntries(adj) == TotalEntries(adj[..|adj| - 1]) + |adj[|adj| - 1]|
  {
    if |adj| > 1 {
      assert adj[1..][..|adj[1..]| - 1] == adj[..|adj| - 1][1..];
      TotalEntriesSnoc(adj[1..]);
    }
  }

  /**
   * node_eff.cpp's nested print loops: node i ascending, then its list in
   * order. Returns the pairs in the order the lines are printed.
   */
  method NeighbourPairs(adj: seq<seq<int>>) returns (pairs: seq<(int, int)>)
    ensures pairs == PairsBelow(adj, |adj|)
    ensures |pairs| == TotalEntries(adj)
    ensures forall x, y :: (x, y) in pairs <==> 0 <= x < |adj| && y in adj[x]
  {
    pairs := [];
    var i := 0;
    while i < |adj|
      invariant 0 <= i <= |adj|
      invariant pairs == PairsBelow(adj, i)
    {
      var j := 0;
      while j < |adj[i]|
        invariant 0 <= j <= |adj[i]|
        invariant pairs == PairsBelow(adj, i) + RowPairs(adj, i)[..j]
      {
        assert RowPairs(adj, i)[..j + 1] == RowPairs(adj, i)[..j] + [(i, adj[i][j])];
        pairs := pairs + [(i, adj[i][j])];
        j := j + 1;
      }
      assert RowPairs(adj, i)[..j] == RowPairs(adj, i);
      i := i + 1;
    }
    PairsBelowContents(adj, |adj|);
    assert adj[..|adj|] == adj;
  }

  /** For a graph read from E edges, node_eff.cpp prints 2E pairs. */
  lemma PrintedPairCount(n: nat, edges: seq<Edge>)
    requires EdgesInRange(edges, n)
    ensures |PairsBelow(Adjacency(n, edges), n)| == 2 * |edges|
  {
    var adj := Adjacency(n, edges);
    PairsBelowContents(adj, n);
    assert adj[..n] == adj;
    AdjacencyEntryCount(n, edges);
  }
}
