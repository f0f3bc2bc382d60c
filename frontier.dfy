/**
 * `breadth_first_search`: single-source BFS writing hop distances into a
 * caller-supplied `dist` row. Two frontiers appear in the programs:
 *   - a fixed `vector<int> queue(N)` read at `pos` and written at
 *     `next_empty` (sequential array, OpenMP and MPI programs);
 *   - a `std::list<int>` used as a FIFO (sequential list program).
 * The invariants of both are stated once, over snapshots of the state as
 * sequences, and each loop step is a lemma about those snapshots.
 */
module Frontier {
  import opened Graph
  import opened Paths

  /** The number of nodes marked in `visited`. */
  function CountTrue(s: seq<bool>): nat
  {
    if s == [] then 0 else (if s[0] then 1 else 0) + CountTrue(s[1..])
  }

  /** The freshly allocated `visited(N, false)` marks nothing. */
  lemma {:induction false} CountTrueNone(n: nat)
    ensures CountTrue(seq(n, _ => false)) == 0
  {
    if n > 0 {
      assert seq(n, _ => false)[1..] == seq(n - 1, _ => false);
      CountTrueNone(n - 1);
    }
  }

  /** Marking an unmarked node adds exactly one; an unmarked node leaves room below the length. */
  lemma {:induction false} CountTrueMark(s: seq<bool>, w: int)
    requires 0 <= w < |s| && !s[w]
    ensures CountTrue(s[w := true]) == CountTrue(s) + 1
    ensures CountTrue(s) < |s|
  {
    CountTrueAtMostLength(s[1..]);
    if w == 0 {
      assert s[w := true][1..] == s[1..];
    } else {
      assert s[w := true][1..] == s[1..][w - 1 := true];
      CountTrueMark(s[1..], w - 1);
    }
  }

  lemma {:induction false} CountTrueAtMostLength(s: seq<bool>)
    ensures CountTrue(s) <= |s|
  {
    if s != [] {
      CountTrueAtMostLength(s[1..]);
    }
  }

  // ---------------------------------------------------------------------------
  // The invariants, over snapshots: Q is the sequence of nodes ever enqueued
  // (`queue[0 .. next_empty)`), vis the visited marks, d the dist row and d0
  // the row the caller passed in. Each quantified invariant goes through a
  // predicate about one slot or one node, so that a proof opens it only for
  // the slots and nodes it names.

  /** Slot k of the queue holds a visited node. */
  predicate SlotVisited(Q: seq<int>, vis: seq<bool>, k: int)
  {
    0 <= k < |Q| && 0 <= Q[k] < |vis| && vis[Q[k]]
  }

  /** Node v, when visited, has been queued. */
  predicate VisitedQueued(Q: seq<int>, vis: seq<bool>, v: int)
  {
    0 <= v < |vis| && (vis[v] ==> v in Q)
  }

  /** Node v, while unvisited, keeps the distance the caller passed in. */
  predicate Kept(vis: seq<bool>, d: seq<int>, d0: seq<int>, v: int)
  {
    0 <= v < |vis| && |d| == |vis| && |d0| == |vis| && (!vis[v] ==> d[v] == d0[v])
  }

  /** Slot k holds a node at its hop distance, which is at most k. */
  ghost predicate SlotLevel(adj: seq<seq<int>>, src: int, Q: seq<int>, d: seq<int>, k: int)
  {
    0 <= k < |Q| && 0 <= Q[k] < |d| && 0 <= d[Q[k]] <= k && IsShortest(adj, src, Q[k], d[Q[k]])
  }

  /** Slots a <= b carry non-decreasing distances. */
  predicate InOrder(Q: seq<int>, d: seq<int>, a: int, b: int)
  {
    0 <= a <= b < |Q| && 0 <= Q[a] < |d| && 0 <= Q[b] < |d| && d[Q[a]] <= d[Q[b]]
  }

  /** Slot b is at most one hop beyond `level`. */
  predicate NearLevel(Q: seq<int>, d: seq<int>, level: int, b: int)
  {
    0 <= b < |Q| && 0 <= Q[b] < |d| && d[Q[b]] <= level + 1
  }

  /** Every neighbour of the node in slot a is visited. */
  predicate SlotExpanded(adj: seq<seq<int>>, Q: seq<int>, vis: seq<bool>, a: int)
  {
    0 <= a < |Q| && 0 <= Q[a] < |adj| &&
    forall j :: 0 <= j < |adj[Q[a]]| ==> 0 <= adj[Q[a]][j] < |vis| && vis[adj[Q[a]][j]]
  }

  /** Neighbour j of u is visited. */
  predicate NeighbourVisited(adj: seq<seq<int>>, u: int, vis: seq<bool>, j: int)
  {
    0 <= u < |adj| && 0 <= j < |adj[u]| && 0 <= adj[u][j] < |vis| && vis[adj[u][j]]
  }

  /** What holds of the frontier at every step. */
  ghost predicate QueueInv(adj: seq<seq<int>>, n: int, src: int, Q: seq<int>,
                           vis: seq<bool>, d: seq<int>, d0: seq<int>)
  {
    IsGraph(adj, n) && n <= IntMax && 0 <= src < n &&
    |vis| == n && |d| == n && |d0| == n &&
    1 <= |Q| <= n && Q[0] == src && |Q| == CountTrue(vis) &&
    (forall k :: 0 <= k < |Q| ==> SlotVisited(Q, vis, k)) &&
    (forall v :: 0 <= v < n ==> VisitedQueued(Q, vis, v)) &&
    (forall v :: 0 <= v < n ==> Kept(vis, d, d0, v)) &&
    (forall k :: 0 <= k < |Q| ==> SlotLevel(adj, src, Q, d, k)) &&
    (forall a, b :: 0 <= a <= b < |Q| ==> InOrder(Q, d, a, b))
  }

  /** At the head of the outer loop: the nodes in Q[0 .. pos) have been expanded. */
  ghost predicate Waiting(adj: seq<seq<int>>, n: int, src: int, Q: seq<int>, pos: int,
                          vis: seq<bool>, d: seq<int>, d0: seq<int>)
  {
    QueueInv(adj, n, src, Q, vis, d, d0) && 0 <= pos <= |Q| &&
    (forall a :: 0 <= a < pos ==> SlotExpanded(adj, Q, vis, a)) &&
    (pos < |Q| ==> 0 <= Q[pos] < n && forall b :: 0 <= b < |Q| ==> NearLevel(Q, d, d[Q[pos]], b))
  }

  /** In the inner loop: Q[pos - 1] is being expanded and its first i neighbours are done. */
  ghost predicate Scanning(adj: seq<seq<int>>, n: int, src: int, Q: seq<int>, pos: int,
                           vis: seq<bool>, d: seq<int>, d0: seq<int>, i: int)
  {
    QueueInv(adj, n, src, Q, vis, d, d0) && 1 <= pos <= |Q| && 0 <= Q[pos - 1] < n &&
    0 <= i <= |adj[Q[pos - 1]]| &&
    (forall a :: 0 <= a < pos - 1 ==> SlotExpanded(adj, Q, vis, a)) &&
    var u := Q[pos - 1];
    (forall j :: 0 <= j < i ==> NeighbourVisited(adj, u, vis, j)) &&
    (forall b :: 0 <= b < |Q| ==> NearLevel(Q, d, d[u], b))
  }

  /** Visited nodes carry their hop distance. */
  ghost predicate DistancesCorrect(adj: seq<seq<int>>, n: int, src: int, vis: seq<bool>, d: seq<int>)
    requires |vis| == n && |d| == n
  {
    forall v :: 0 <= v < n && vis[v] ==> d[v] >= 0 && IsShortest(adj, src, v, d[v])
  }

  /** Every visited node closer than `level` has all its neighbours visited. */
  ghost predicate ClosedBelow(adj: seq<seq<int>>, n: int, vis: seq<bool>, d: seq<int>, level: int)
    requires IsGraph(adj, n) && |vis| == n && |d| == n
  {
    forall p, j :: 0 <= p < n && vis[p] && d[p] < level && 0 <= j < |adj[p]| ==> vis[adj[p][j]]
  }

  /**
   * The BFS correctness argument: when the visited nodes closer than `level`
   * are all expanded, every node within `level` hops is visited.
   */
  lemma {:induction false} VisitedCoversLevel(adj: seq<seq<int>>, n: int, src: int, vis: seq<bool>,
                                              d: seq<int>, level: nat, v: int, k: nat)
    requires IsGraph(adj, n) && 0 <= src < n && |vis| == n && |d| == n && vis[src]
    requires DistancesCorrect(adj, n, src, vis, d)
    requires ClosedBelow(adj, n, vis, d, level)
    requires k <= level && Within(adj, src, v, k)
    ensures 0 <= v < n && vis[v]
    decreases k
  {
    if k > 0 {
      if Within(adj, src, v, k - 1) {
        VisitedCoversLevel(adj, n, src, vis, d, level, v, k - 1);
      } else {
        var u :| 0 <= u < |adj| && Within(adj, src, u, k - 1) && v in adj[u];
        VisitedCoversLevel(adj, n, src, vis, d, level, u, k - 1);
        // u's hop distance is at most k - 1 < level, so u has been expanded
        assert d[u] <= k - 1;
        var j :| 0 <= j < |adj[u]| && adj[u][j] == v;
      }
    }
  }

  /** Every visited node sits in some slot of the queue, so carries its hop distance. */
  lemma QueueInvDistancesCorrect(adj: seq<seq<int>>, n: int, src: int, Q: seq<int>,
                                 vis: seq<bool>, d: seq<int>, d0: seq<int>)
    requires QueueInv(adj, n, src, Q, vis, d, d0)
    ensures DistancesCorrect(adj, n, src, vis, d)
  {
    forall v | 0 <= v < n && vis[v] ensures d[v] >= 0 && IsShortest(adj, src, v, d[v]) {
      assert VisitedQueued(Q, vis, v);
      var k :| 0 <= k < |Q| && Q[k] == v;
      assert SlotLevel(adj, src, Q, d, k);
    }
  }

  /** Visited nodes strictly closer than the node being expanded sit earlier in the queue, so are expanded. */
  lemma ScanningClosedBelow(adj: seq<seq<int>>, n: int, src: int, Q: seq<int>, pos: int,
                            vis: seq<bool>, d: seq<int>, d0: seq<int>, i: int)
    requires Scanning(adj, n, src, Q, pos, vis, d, d0, i)
    ensures ClosedBelow(adj, n, vis, d, d[Q[pos - 1]])
  {
    forall p, j | 0 <= p < n && vis[p] && d[p] < d[Q[pos - 1]] && 0 <= j < |adj[p]|
      ensures vis[adj[p][j]]
    {
      assert VisitedQueued(Q, vis, p);
      var a :| 0 <= a < |Q| && Q[a] == p;
      // a later slot would carry a distance at least d[Q[pos - 1]]
      assert pos - 1 <= a ==> InOrder(Q, d, pos - 1, a);
      assert SlotExpanded(adj, Q, vis, a);
    }
  }

  // ---------------------------------------------------------------------------
  // One lemma per step of the loops.

  /** After `visited[src] = true; dist[src] = 0; queue[0] = src;`. */
  lemma Start(adj: seq<seq<int>>, n: int, src: int, vis: seq<bool>, d: seq<int>, d0: seq<int>)
    requires IsGraph(adj, n) && n <= IntMax && 0 <= src < n && |d0| == n
    requires vis == seq(n, _ => false)[src := true] && d == d0[src := 0]
    ensures Waiting(adj, n, src, [src], 0, vis, d, d0)
  {
    var Q := [src];
    CountTrueNone(n);
    CountTrueMark(seq(n, _ => false), src);
    assert Within(adj, src, src, 0);
    assert SlotVisited(Q, vis, 0) && SlotLevel(adj, src, Q, d, 0) && InOrder(Q, d, 0, 0);
    assert NearLevel(Q, d, d[Q[0]], 0);
    forall v | 0 <= v < n ensures VisitedQueued(Q, vis, v) && Kept(vis, d, d0, v) {
    }
  }

  /** An unvisited neighbour means fewer than n nodes are queued: the fixed buffer has room. */
  lemma Room(adj: seq<seq<int>>, n: int, src: int, Q: seq<int>,
             vis: seq<bool>, d: seq<int>, d0: seq<int>, w: int)
    requires QueueInv(adj, n, src, Q, vis, d, d0) && 0 <= w < n && !vis[w]
    ensures |Q| < n
  {
    CountTrueMark(vis, w);
  }

  /** The neighbour w of u = Q[pos - 1] that is still unvisited is at exactly dist[u] + 1 hops. */
  lemma DiscoveredIsShortest(adj: seq<seq<int>>, n: int, src: int, Q: seq<int>, pos: int,
                             vis: seq<bool>, d: seq<int>, d0: seq<int>, i: int)
    requires Scanning(adj, n, src, Q, pos, vis, d, d0, i) && i < |adj[Q[pos - 1]]|
    requires !vis[adj[Q[pos - 1]][i]]
    ensures d[Q[pos - 1]] >= 0 && IsShortest(adj, src, adj[Q[pos - 1]][i], d[Q[pos - 1]] + 1)
  {
    var u := Q[pos - 1];
    var w := adj[u][i];
    var level := d[u];
    assert SlotLevel(adj, src, Q, d, pos - 1);
    assert Within(adj, src, w, level + 1);
    assert SlotVisited(Q, vis, 0);
    QueueInvDistancesCorrect(adj, n, src, Q, vis, d, d0);
    ScanningClosedBelow(adj, n, src, Q, pos, vis, d, d0, i);
    forall k: nat | k < level + 1 ensures !Within(adj, src, w, k) {
      if Within(adj, src, w, k) {
        VisitedCoversLevel(adj, n, src, vis, d, level, w, k);
      }
    }
  }

  /** Appending an unvisited node w at its hop distance level + 1 keeps the queue invariant. */
  lemma Enqueue(adj: seq<seq<int>>, n: int, src: int, Q: seq<int>,
                vis: seq<bool>, d: seq<int>, d0: seq<int>, w: int, level: int)
    requires QueueInv(adj, n, src, Q, vis, d, d0)
    requires 0 <= w < n && !vis[w]
    requires 0 <= level + 1 <= |Q| && IsShortest(adj, src, w, level + 1)
    requires forall b :: 0 <= b < |Q| ==> NearLevel(Q, d, level, b)
    ensures QueueInv(adj, n, src, Q + [w], vis[w := true], d[w := level + 1], d0)
  {
    var Q', vis', d' := Q + [w], vis[w := true], d[w := level + 1];
    Room(adj, n, src, Q, vis, d, d0, w);
    CountTrueMark(vis, w);
    forall k | 0 <= k < |Q'|
      ensures SlotVisited(Q', vis', k) && SlotLevel(adj, src, Q', d', k)
    {
      if k < |Q| {
        assert SlotVisited(Q, vis, k) && SlotLevel(adj, src, Q, d, k);
        assert Q'[k] == Q[k] != w;
      }
    }
    forall v | 0 <= v < n ensures VisitedQueued(Q', vis', v) && Kept(vis', d', d0, v) {
      assert VisitedQueued(Q, vis, v) && Kept(vis, d, d0, v);
    }
    forall a, b | 0 <= a <= b < |Q'| ensures InOrder(Q', d', a, b) {
      if b < |Q| {
        assert InOrder(Q, d, a, b);
        assert SlotVisited(Q, vis, a) && SlotVisited(Q, vis, b);
      } else if a < |Q| {
        assert NearLevel(Q, d, level, a) && SlotVisited(Q, vis, a);
      }
    }
  }

  /**
   * Discovering unvisited neighbour w of node u = Q[pos - 1]: mark it, give it
   * dist[u] + 1 and append it to the queue.
   */
  lemma Discover(adj: seq<seq<int>>, n: int, src: int, Q: seq<int>, pos: int,
                 vis: seq<bool>, d: seq<int>, d0: seq<int>, i: int)
    requires Scanning(adj, n, src, Q, pos, vis, d, d0, i) && i < |adj[Q[pos - 1]]|
    requires !vis[adj[Q[pos - 1]][i]]
    ensures Scanning(adj, n, src, Q + [adj[Q[pos - 1]][i]], pos,
                     vis[adj[Q[pos - 1]][i] := true],
                     d[adj[Q[pos - 1]][i] := d[Q[pos - 1]] + 1], d0, i + 1)
  {
    var u := Q[pos - 1];
    var w := adj[u][i];
    var Q', vis', d' := Q + [w], vis[w := true], d[w := d[u] + 1];
    assert SlotLevel(adj, src, Q, d, pos - 1);
    DiscoveredIsShortest(adj, n, src, Q, pos, vis, d, d0, i);
    Enqueue(adj, n, src, Q, vis, d, d0, w, d[u]);
    assert SlotVisited(Q, vis, pos - 1);
    assert Q'[pos - 1] == u && d'[u] == d[u];
    forall a | 0 <= a < pos - 1 ensures SlotExpanded(adj, Q', vis', a) {
      assert SlotExpanded(adj, Q, vis, a);
    }
    forall j | 0 <= j < i + 1 ensures NeighbourVisited(adj, u, vis', j) {
      if j < i {
        assert NeighbourVisited(adj, u, vis, j);
      }
    }
    forall b | 0 <= b < |Q'| ensures NearLevel(Q', d', d'[u], b) {
      if b < |Q| {
        assert NearLevel(Q, d, d[u], b) && SlotVisited(Q, vis, b);
      }
    }
  }

  /** An already visited neighbour is skipped. */
  lemma Skip(adj: seq<seq<int>>, n: int, src: int, Q: seq<int>, pos: int,
             vis: seq<bool>, d: seq<int>, d0: seq<int>, i: int)
    requires Scanning(adj, n, src, Q, pos, vis, d, d0, i) && i < |adj[Q[pos - 1]]|
    requires vis[adj[Q[pos - 1]][i]]
    ensures Scanning(adj, n, src, Q, pos, vis, d, d0, i + 1)
  {
    assert NeighbourVisited(adj, Q[pos - 1], vis, i);
  }

  /** One turn of the inner loop, whichever way the `if (!visited[w])` test goes. */
  lemma Visit(adj: seq<seq<int>>, n: int, src: int, Q: seq<int>, pos: int,
              vis: seq<bool>, d: seq<int>, d0: seq<int>, i: int)
    requires Scanning(adj, n, src, Q, pos, vis, d, d0, i) && i < |adj[Q[pos - 1]]|
    ensures 0 <= adj[Q[pos - 1]][i] < n
    ensures vis[adj[Q[pos - 1]][i]] ==> Scanning(adj, n, src, Q, pos, vis, d, d0, i + 1)
    ensures !vis[adj[Q[pos - 1]][i]] ==>
              |Q| < n &&
              Scanning(adj, n, src, Q + [adj[Q[pos - 1]][i]], pos,
                       vis[adj[Q[pos - 1]][i] := true],
                       d[adj[Q[pos - 1]][i] := d[Q[pos - 1]] + 1], d0, i + 1)
  {
    if vis[adj[Q[pos - 1]][i]] {
      Skip(adj, n, src, Q, pos, vis, d, d0, i);
    } else {
      Room(adj, n, src, Q, vis, d, d0, adj[Q[pos - 1]][i]);
      Discover(adj, n, src, Q, pos, vis, d, d0, i);
    }
  }

  /** All neighbours of Q[pos - 1] are done: back at the head of the outer loop. */
  lemma Expanded(adj: seq<seq<int>>, n: int, src: int, Q: seq<int>, pos: int,
                 vis: seq<bool>, d: seq<int>, d0: seq<int>, i: int)
    requires Scanning(adj, n, src, Q, pos, vis, d, d0, i) && i == |adj[Q[pos - 1]]|
    ensures Waiting(adj, n, src, Q, pos, vis, d, d0)
  {
    var u := Q[pos - 1];
    forall j | 0 <= j < |adj[u]| ensures 0 <= adj[u][j] < |vis| && vis[adj[u][j]] {
      assert NeighbourVisited(adj, u, vis, j);
    }
    assert SlotExpanded(adj, Q, vis, pos - 1);
    if pos < |Q| {
      assert InOrder(Q, d, pos - 1, pos) && SlotVisited(Q, vis, pos);
      forall b | 0 <= b < |Q| ensures NearLevel(Q, d, d[Q[pos]], b) {
        assert NearLevel(Q, d, d[u], b);
      }
    }
  }

  /**
   * The queue is exhausted: the visited nodes are exactly the reachable ones,
   * each carries its hop distance (below n), and every other entry of dist
   * is what the caller passed in.
   */
  lemma Done(adj: seq<seq<int>>, n: int, src: int, Q: seq<int>,
             vis: seq<bool>, d: seq<int>, d0: seq<int>)
    requires Waiting(adj, n, src, Q, |Q|, vis, d, d0)
    ensures forall v :: 0 <= v < n ==> (vis[v] <==> Reachable(adj, src, v))
    ensures forall v :: 0 <= v < n && vis[v] ==> d[v] == Distance(adj, src, v) && d[v] < n
    ensures forall v :: 0 <= v < n && !vis[v] ==> d[v] == d0[v]
  {
    QueueInvDistancesCorrect(adj, n, src, Q, vis, d, d0);
    forall v | 0 <= v < n && vis[v] ensures Reachable(adj, src, v) && d[v] == Distance(adj, src, v) && d[v] < n {
      assert VisitedQueued(Q, vis, v);
      var k :| 0 <= k < |Q| && Q[k] == v;
      assert SlotLevel(adj, src, Q, d, k);
      ShortestUnique(adj, src, v, d[v], Distance(adj, src, v));
    }
    assert forall p, j :: 0 <= p < n && vis[p] && 0 <= j < |adj[p]| ==> vis[adj[p][j]] by {
      forall p, j | 0 <= p < n && vis[p] && 0 <= j < |adj[p]| ensures vis[adj[p][j]] {
        assert VisitedQueued(Q, vis, p);
        var a :| 0 <= a < |Q| && Q[a] == p;
        assert SlotExpanded(adj, Q, vis, a);
      }
    }
    forall v | 0 <= v < n && Reachable(adj, src, v) ensures vis[v] {
      var k: nat :| Within(adj, src, v, k);
      assert SlotVisited(Q, vis, 0);
      VisitedCoversLevel(adj, n, src, vis, d, k, v, k);
    }
    forall v | 0 <= v < n && !vis[v] ensures d[v] == d0[v] {
      assert Kept(vis, d, d0, v);
    }
  }

  // ---------------------------------------------------------------------------
  // The two BFS procedures, each with its inner `for` loop over `adj[node]`
  // as a method of its own.

  /**
   * The inner loop of `breadth_first_search` over the fixed buffer: expand
   * `node` = queue[pos - 1], marking each unvisited neighbour, giving it
   * dist[node] + 1 and writing it at `next_empty`.
   */
  method ExpandNode(adj: seq<seq<int>>, src: int, n: int, node: int,
                    queue: array<int>, visited: array<bool>, dist: array<int>, nextEmpty: int,
                    ghost pos: int, ghost Q: seq<int>, ghost vis: seq<bool>, ghost d: seq<int>, ghost d0: seq<int>)
    returns (nextEmpty': int, ghost Q': seq<int>, ghost vis': seq<bool>, ghost d': seq<int>)
    requires queue != dist && queue.Length == n
    requires Scanning(adj, n, src, Q, pos, vis, d, d0, 0) && node == Q[pos - 1]
    requires nextEmpty == |Q| && queue[..nextEmpty] == Q && visited[..] == vis && dist[..] == d
    modifies queue, visited, dist
    ensures 0 <= nextEmpty' == |Q'| <= n && queue[..nextEmpty'] == Q' && visited[..] == vis' && dist[..] == d'
    ensures Waiting(adj, n, src, Q', pos, vis', d', d0)
  {
    nextEmpty', Q', vis', d' := nextEmpty, Q, vis, d;
    var i := 0;
    while i < |adj[node]|
      invariant 1 <= pos <= nextEmpty' == |Q'| <= n && node == Q'[pos - 1]
      invariant queue[..nextEmpty'] == Q' && visited[..] == vis' && dist[..] == d'
      invariant Scanning(adj, n, src, Q', pos, vis', d', d0, i)
    {
      Visit(adj, n, src, Q', pos, vis', d', d0, i);
      var w := adj[node][i];
      if !visited[w] {
        visited[w] := true;
        dist[w] := dist[node] + 1;
        queue[nextEmpty'] := w;
        nextEmpty' := nextEmpty' + 1;
        Q', vis', d' := Q' + [w], vis'[w := true], d'[w := d'[node] + 1];
        assert queue[..nextEmpty'] == Q';
      }
      i := i + 1;
    }
    Expanded(adj, n, src, Q', pos, vis', d', d0, i);
  }

  /**
   * `breadth_first_search` with the fixed frontier `vector<int> queue(N)`:
   * `pos` reads, `next_empty` writes, and a node is marked visited before it
   * is enqueued, so `pos <= next_empty <= N` throughout and the buffer never
   * overflows. Afterwards every reachable node holds its hop distance from src
   * (less than N) and every other entry keeps the caller's value.
   */
  method BreadthFirstSearch(adj: seq<seq<int>>, src: int, n: int, dist: array<int>)
    requires IsGraph(adj, n) && n <= IntMax && 0 <= src < n && dist.Length == n
    modifies dist
    ensures dist[src] == 0
    ensures forall v :: 0 <= v < n ==>
              if Reachable(adj, src, v) then dist[v] == Distance(adj, src, v) && dist[v] < n
              else dist[v] == old(dist[v])
  {
    ghost var d0 := dist[..];
    var queue := new int[n];
    var pos := 0;
    var nextEmpty := 1;
    var visited := new bool[n](_ => false);

    visited[src] := true;
    dist[src] := 0;
    queue[0] := src;
    // snapshots of queue[0 .. nextEmpty), visited and dist
    ghost var Q, vis, d := [src], visited[..], dist[..];
    assert queue[..nextEmpty] == Q;
    Start(adj, n, src, vis, d, d0);

    while pos < nextEmpty
      invariant 0 <= pos <= nextEmpty == |Q| <= n && queue[..nextEmpty] == Q && visited[..] == vis && dist[..] == d
      invariant Waiting(adj, n, src, Q, pos, vis, d, d0)
      decreases n - pos
    {
      var node := queue[pos];
      pos := pos + 1;
      nextEmpty, Q, vis, d := ExpandNode(adj, src, n, node, queue, visited, dist, nextEmpty, pos, Q, vis, d, d0);
    }
    Done(adj, n, src, Q, vis, d, d0);
    DistanceZeroIsSource(adj, src, src);
  }

  /**
   * The inner loop of `breadth_first_search` over the FIFO: expand `node`,
   * the element just taken from the front, appending each unvisited
   * neighbour with `push_back`.
   */
  method ExpandNodeFifo(adj: seq<seq<int>>, src: int, n: int, node: int,
                        queue: seq<int>, visited: array<bool>, dist: array<int>,
                        ghost popped: int, ghost pushed: seq<int>, ghost vis: seq<bool>, ghost d: seq<int>, ghost d0: seq<int>)
    returns (queue': seq<int>, ghost pushed': seq<int>, ghost vis': seq<bool>, ghost d': seq<int>)
    requires Scanning(adj, n, src, pushed, popped, vis, d, d0, 0) && node == pushed[popped - 1]
    requires queue == pushed[popped..] && visited[..] == vis && dist[..] == d
    modifies visited, dist
    ensures |pushed'| >= popped && queue' == pushed'[popped..] && visited[..] == vis' && dist[..] == d'
    ensures Waiting(adj, n, src, pushed', popped, vis', d', d0)
  {
    queue', pushed', vis', d' := queue, pushed, vis, d;
    var i := 0;
    while i < |adj[node]|
      invariant 1 <= popped <= |pushed'| && queue' == pushed'[popped..] && node == pushed'[popped - 1]
      invariant visited[..] == vis' && dist[..] == d'
      invariant Scanning(adj, n, src, pushed', popped, vis', d', d0, i)
    {
      Visit(adj, n, src, pushed', popped, vis', d', d0, i);
      var w := adj[node][i];
      if !visited[w] {
        visited[w] := true;
        dist[w] := dist[node] + 1;
        queue' := queue' + [w];
        pushed', vis', d' := pushed' + [w], vis'[w := true], d'[w := d'[node] + 1];
        assert queue' == pushed'[popped..];
      }
      i := i + 1;
    }
    Expanded(adj, n, src, pushed', popped, vis', d', d0, i);
  }

  /**
   * `breadth_first_search` with a `std::list<int>` FIFO: `push_back` to
   * enqueue, `front`/`pop_front` to dequeue. `pushed` records every node ever
   * enqueued and the FIFO is its unread suffix, so the same invariants apply
   * and the result is the same row as the fixed-buffer version's.
   */
  method BreadthFirstSearchFifo(adj: seq<seq<int>>, src: int, n: int, dist: array<int>)
    requires IsGraph(adj, n) && n <= IntMax && 0 <= src < n && dist.Length == n
    modifies dist
    ensures dist[src] == 0
    ensures forall v :: 0 <= v < n ==>
              if Reachable(adj, src, v) then dist[v] == Distance(adj, src, v) && dist[v] < n
              else dist[v] == old(dist[v])
  {
    ghost var d0 := dist[..];
    var queue: seq<int> := [];
    var visited := new bool[n](_ => false);

    visited[src] := true;
    dist[src] := 0;
    queue := queue + [src];
    ghost var pushed, popped := [src], 0;
    ghost var vis, d := visited[..], dist[..];
    Start(adj, n, src, vis, d, d0);

    while queue != []
      invariant 0 <= popped <= |pushed| && queue == pushed[popped..]
      invariant visited[..] == vis && dist[..] == d
      invariant Waiting(adj, n, src, pushed, popped, vis, d, d0)
      decreases n - popped
    {
      var node := queue[0];
      queue := queue[1..];
      popped := popped + 1;
      queue, pushed, vis, d := ExpandNodeFifo(adj, src, n, node, queue, visited, dist, popped, pushed, vis, d, d0);
    }
    Done(adj, n, src, pushed, vis, d, d0);
    DistanceZeroIsSource(adj, src, src);
  }
}
