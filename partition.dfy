/**
 * The MPI program's split of the nodes [0, N) over N_proc ranks:
 *   q = N / N_proc, r = N % N_proc;
 *   counts: the first r ranks take q + 1 nodes, the rest q;
 *   displs[0] = 0, displs[k + 1] = displs[k] + counts[k];
 * and the gather that puts rank k's buffer at displs[k] in the global list.
 */
module Partition {

  /**
   * counts[k]: `fill_n(begin(counts), r, q + 1)` then `fill(..., q)`, with
   * q and r given by Quotient and Remainder (equal to N / N_proc and
   * N % N_proc by DivisionParts).
   */
  function Count(n: nat, p: nat, k: int): (c: nat)
    requires p >= 1
    ensures c == Quotient(n, p) || c == Quotient(n, p) + 1
  {
    if k < Remainder(n, p) then Quotient(n, p) + 1 else Quotient(n, p)
  }

  /** n / p for nat n and positive p, by repeated subtraction. */
  function Quotient(n: nat, p: nat): nat
    requires p >= 1
    decreases n
  {
    if n < p then 0 else Quotient(n - p, p) + 1
  }

  /** n % p for nat n and positive p, by repeated subtraction. */
  function Remainder(n: nat, p: nat): nat
    requires p >= 1
    decreases n
  {
    if n < p then n else Remainder(n - p, p)
  }

  /** n = q * p + r with 0 <= r < p. */
  lemma {:induction false} QuotientRemainder(n: nat, p: nat)
    requires p >= 1
    ensures n == Quotient(n, p) * p + Remainder(n, p) && Remainder(n, p) < p
    decreases n
  {
    if n >= p {
      QuotientRemainder(n - p, p);
      var q := Quotient(n - p, p);
      assert (q + 1) * p == q * p + p;
    }
  }

  lemma MulAtLeast(a: int, p: int)
    requires a >= 1 && p >= 1
    ensures a * p >= p
  {
    assert a * p == (a - 1) * p + p;
  }

  /** Euclidean division is unique: any such q and r are n / p and n % p. */
  lemma DivisionUnique(n: int, p: int, q: int, r: int)
    requires p >= 1 && n == q * p + r && 0 <= r < p
    ensures q == n / p && r == n % p
  {
    var q0, r0 := n / p, n % p;
    assert n == q0 * p + r0;
    assert (q - q0) * p == q * p - q0 * p;
    if q > q0 {
      MulAtLeast(q - q0, p);
    } else if q < q0 {
      MulAtLeast(q0 - q, p);
    }
  }

  /** The q and r of the counts are the program's `N / N_proc` and `N % N_proc` (both operands are non-negative). */
  lemma DivisionParts(n: nat, p: nat)
    requires p >= 1
    ensures Quotient(n, p) == n / p && Remainder(n, p) == n % p
  {
    QuotientRemainder(n, p);
    DivisionUnique(n, p, Quotient(n, p), Remainder(n, p));
  }

  /** The whole `counts` vector. */
  function Counts(n: nat, p: nat): (counts: seq<nat>)
    requires p >= 1
    ensures |counts| == p
  {
    seq(p, k => Count(n, p, k))
  }

  /** displs[k]: the running sum of counts[0 .. k), as `partial_sum` fills it; defined up to k = p. */
  function Displ(n: nat, p: nat, k: nat): nat
    requires p >= 1
  {
    if k == 0 then 0 else Displ(n, p, k - 1) + Count(n, p, k - 1)
  }

  /** The whole `displs` vector: displs[0] = 0 and displs[k + 1] = displs[k] + counts[k]. */
  function Displs(n: nat, p: nat): (displs: seq<nat>)
    requires p >= 1
    ensures |displs| == p
  {
    seq(p, k requires 0 <= k < p => Displ(n, p, k))
  }

  /** Closed form: rank k starts after k full shares of q and one extra node for each earlier rank below r. */
  lemma {:induction false} DisplClosedForm(n: nat, p: nat, k: nat)
    requires p >= 1
    ensures Displ(n, p, k) == k * (n / p) + (if k < n % p then k else n % p)
  {
    DisplShares(n, p, k);
    DivisionParts(n, p);
  }

  /** The closed form over q and r as the recursive definitions give them. */
  lemma {:induction false} DisplShares(n: nat, p: nat, k: nat)
    requires p >= 1
    ensures Displ(n, p, k) == k * Quotient(n, p) + (if k < Remainder(n, p) then k else Remainder(n, p))
  {
    if k > 0 {
      DisplShares(n, p, k - 1);
      MulStep(k, Quotient(n, p));
    }
  }

  lemma MulStep(k: int, q: int)
    ensures k * q == (k - 1) * q + q
  {
  }

  /** The counts add up to N: the last range ends at N. */
  lemma CountsSumToN(n: nat, p: nat)
    requires p >= 1
    ensures Displ(n, p, p) == n
  {
    DisplShares(n, p, p);
    QuotientRemainder(n, p);
    assert p * Quotient(n, p) == Quotient(n, p) * p;
  }

  /** Each range starts where the previous one ends, so the ranges are ordered and do not overlap. */
  lemma {:induction false} DisplMonotone(n: nat, p: nat, j: nat, k: nat)
    requires p >= 1 && j <= k
    ensures Displ(n, p, j) <= Displ(n, p, k)
    decreases k - j
  {
    if j < k {
      DisplMonotone(n, p, j, k - 1);
    }
  }

  /** x is in rank k's range [displs[k], displs[k] + counts[k]). */
  predicate Owns(n: nat, p: nat, k: int, x: int)
    requires p >= 1
  {
    0 <= k < p && Displ(n, p, k) <= x < Displ(n, p, k) + Count(n, p, k)
  }

  /** Every node below displs[k] is owned by some rank below k. */
  lemma {:induction false} OwnerBelow(n: nat, p: nat, k: nat, x: int)
    requires p >= 1 && k <= p && 0 <= x < Displ(n, p, k)
    ensures exists j :: 0 <= j < k && Owns(n, p, j, x)
  {
    if x < Displ(n, p, k - 1) {
      OwnerBelow(n, p, k - 1, x);
      var j :| 0 <= j < k - 1 && Owns(n, p, j, x);
      assert 0 <= j < k && Owns(n, p, j, x);
    } else {
      assert Owns(n, p, k - 1, x);
    }
  }

  /** The ranges cover [0, N) exactly once: every node has one owner, and nothing outside has any. */
  lemma PartitionCovers(n: nat, p: nat, x: int)
    requires p >= 1
    ensures 0 <= x < n ==> exists k :: Owns(n, p, k, x)
    ensures forall k, l :: Owns(n, p, k, x) && Owns(n, p, l, x) ==> k == l
    ensures !(0 <= x < n) ==> forall k :: !Owns(n, p, k, x)
  {
    CountsSumToN(n, p);
    if 0 <= x < n {
      OwnerBelow(n, p, p, x);
    }
    forall k, l | Owns(n, p, k, x) && Owns(n, p, l, x) ensures k == l {
      if k < l {
        DisplMonotone(n, p, k + 1, l);
      } else if l < k {
        DisplMonotone(n, p, l + 1, k);
      }
    }
    forall k | Owns(n, p, k, x) ensures 0 <= x < n {
      DisplMonotone(n, p, k + 1, p);
    }
  }

  /** The load is balanced: any two ranks' sizes differ by at most one, and the larger ones come first. */
  lemma Balanced(n: nat, p: nat, k: int, l: int)
    requires p >= 1 && 0 <= k <= l < p
    ensures Count(n, p, l) <= Count(n, p, k) <= Count(n, p, l) + 1
  {
  }

  /** 11 nodes on 4 ranks: [0..2], [3..5], [6..8], [9..10]. */
  lemma ElevenOnFour()
    ensures Counts(11, 4) == [3, 3, 3, 2]
    ensures Displs(11, 4) == [0, 3, 6, 9]
  {
    assert Displ(11, 4, 1) == 3 && Displ(11, 4, 2) == 6 && Displ(11, 4, 3) == 9;
  }

  /**
   * Every rank's computation of `counts` and `displs`: `fill_n` puts q + 1 in
   * the first r slots, `fill` puts q in the rest, and `partial_sum` over
   * counts[0 .. p-1) fills displs[1 ..] after displs[0] = 0.
   */
  method Distribute(n: nat, p: nat) returns (counts: seq<nat>, displs: seq<nat>)
    requires p >= 1
    ensures counts == Counts(n, p) && displs == Displs(n, p)
  {
    var q, r := n / p, n % p;
    DivisionParts(n, p);
    counts := [];
    while |counts| < r
      invariant |counts| <= r && forall k :: 0 <= k < |counts| ==> counts[k] == Count(n, p, k)
    {
      counts := counts + [q + 1];
    }
    while |counts| < p
      invariant r <= |counts| <= p && forall k :: 0 <= k < |counts| ==> counts[k] == Count(n, p, k)
    {
      counts := counts + [q];
    }
    displs := Displacements(n, p, counts);
  }

  /** `displs[0] = 0` and `partial_sum(begin(counts), end(counts) - 1, begin(displs) + 1)`. */
  method Displacements(n: nat, p: nat, counts: seq<nat>) returns (displs: seq<nat>)
    requires p >= 1 && counts == Counts(n, p)
    ensures displs == Displs(n, p)
  {
    displs := [0];
    var k := 1;
    while k < p
      invariant 1 <= k <= p && displs == Displs(n, p)[..k]
    {
      assert Displs(n, p)[k] == displs[k - 1] + counts[k - 1];
      TakeSnoc(Displs(n, p), k + 1);
      displs := displs + [displs[k - 1] + counts[k - 1]];
      k := k + 1;
    }
    assert Displs(n, p)[..p] == Displs(n, p);
  }

  // ---------------------------------------------------------------------------
  // The gather.

  /** `global[displ .. displ + |part|) := part`, everything else unchanged. */
  function Place<T>(global: seq<T>, part: seq<T>, displ: nat): (r: seq<T>)
    requires displ + |part| <= |global|
    ensures |r| == |global|
    ensures forall x :: 0 <= x < |global| ==>
              r[x] == if displ <= x < displ + |part| then part[x - displ] else global[x]
  {
    global[..displ] + part + global[displ + |part|..]
  }

  /** The receive buffers `parts` fit their ranges: part k has counts[k] entries. */
  predicate Fits<T>(n: nat, p: nat, parts: seq<seq<T>>)
    requires p >= 1
  {
    |parts| == p && forall k :: 0 <= k < p ==> |parts[k]| == Count(n, p, k)
  }

  /** `MPI_Gatherv` at the root: rank k's buffer placed at displs[k], ranks 0 .. k-1 done. */
  function Gathered<T>(n: nat, p: nat, global: seq<T>, parts: seq<seq<T>>, k: nat): (r: seq<T>)
    requires p >= 1 && k <= p && |global| == n && Fits(n, p, parts)
    ensures |r| == n
  {
    if k == 0 then global
    else
      DisplMonotone(n, p, k, p);
      CountsSumToN(n, p);
      Place(Gathered(n, p, global, parts, k - 1), parts[k - 1], Displ(n, p, k - 1))
  }

  /** After ranks 0 .. k-1 are placed, the first displs[k] entries are their buffers concatenated; the rest are untouched. */
  lemma {:induction false} GatheredPrefix<T>(n: nat, p: nat, global: seq<T>, parts: seq<seq<T>>, k: nat)
    requires p >= 1 && k <= p && |global| == n && Fits(n, p, parts)
    ensures Displ(n, p, k) <= n
    ensures Gathered(n, p, global, parts, k)[..Displ(n, p, k)] == Concat(parts[..k])
    ensures Gathered(n, p, global, parts, k)[Displ(n, p, k)..] == global[Displ(n, p, k)..]
  {
    DisplMonotone(n, p, k, p);
    CountsSumToN(n, p);
    if k > 0 {
      GatheredPrefix(n, p, global, parts, k - 1);
      var d := Displ(n, p, k - 1);
      var g := Gathered(n, p, global, parts, k - 1);
      PlaceSplits(g, parts[k - 1], d);
      DropFurther(g, global, d, Displ(n, p, k));
      TakeSnoc(parts, k);
      ConcatSnoc(parts[..k - 1], parts[k - 1]);
    }
  }

  /** The concatenation of a sequence of buffers. */
  function Concat<T>(parts: seq<seq<T>>): seq<T>
  {
    if parts == [] then [] else Concat(parts[..|parts| - 1]) + parts[|parts| - 1]
  }

  /** Place leaves g's prefix before d, then part, then g's suffix from d + |part| on. */
  lemma PlaceSplits<T>(g: seq<T>, part: seq<T>, d: nat)
    requires d + |part| <= |g|
    ensures Place(g, part, d)[..d + |part|] == g[..d] + part
    ensures Place(g, part, d)[d + |part|..] == g[d + |part|..]
  {
  }

  lemma DropFurther<T>(a: seq<T>, b: seq<T>, i: nat, j: nat)
    requires i <= j <= |a| == |b| && a[i..] == b[i..]
    ensures a[j..] == b[j..]
  {
    assert a[j..] == a[i..][j - i..];
    assert b[j..] == b[i..][j - i..];
  }

  lemma TakeSnoc<T>(s: seq<T>, k: int)
    requires 0 < k <= |s|
    ensures s[..k] == s[..k - 1] + [s[k - 1]]
  {
  }

  lemma TakeSplit<T>(s: seq<T>, a: int, b: int)
    requires 0 <= a <= b <= |s|
    ensures s[..b] == s[..a] + s[a..b]
  {
  }

  lemma ConcatSnoc<T>(parts: seq<seq<T>>, last: seq<T>)
    ensures Concat(parts + [last]) == Concat(parts) + last
  {
    assert (parts + [last])[..|parts|] == parts;
  }

  /** Each rank's range has its counts[k] entries inside [0, N). */
  lemma RangeInBounds(n: nat, p: nat, k: nat)
    requires p >= 1 && k < p
    ensures Displ(n, p, k) + Count(n, p, k) <= n
  {
    assert Displ(n, p, k + 1) == Displ(n, p, k) + Count(n, p, k);
    DisplMonotone(n, p, k + 1, p);
    CountsSumToN(n, p);
  }

  /** xs cut into the ranks' ranges: piece k is xs[displs[k] .. displs[k] + counts[k]). */
  function Ranges<T>(n: nat, p: nat, xs: seq<T>): (parts: seq<seq<T>>)
    requires p >= 1 && |xs| == n
    ensures Fits(n, p, parts)
  {
    seq(p, k requires 0 <= k < p => Range(n, p, xs, k))
  }

  /** Rank k's piece of xs. */
  function Range<T>(n: nat, p: nat, xs: seq<T>, k: nat): (piece: seq<T>)
    requires p >= 1 && |xs| == n && k < p
    ensures |piece| == Count(n, p, k)
  {
    RangeInBounds(n, p, k);
    xs[Displ(n, p, k)..Displ(n, p, k) + Count(n, p, k)]
  }

  /** Concatenating the pieces of ranks 0 .. k-1 in rank order gives xs[.. displs[k]) back. */
  lemma {:induction false} ConcatOfRanges<T>(n: nat, p: nat, xs: seq<T>, k: nat)
    requires p >= 1 && k <= p && |xs| == n
    ensures Displ(n, p, k) <= n && Concat(Ranges(n, p, xs)[..k]) == xs[..Displ(n, p, k)]
  {
    DisplMonotone(n, p, k, p);
    CountsSumToN(n, p);
    if k > 0 {
      ConcatOfRanges(n, p, xs, k - 1);
      var parts := Ranges(n, p, xs);
      var a, b := Displ(n, p, k - 1), Displ(n, p, k);
      assert parts[k - 1] == Range(n, p, xs, k - 1) == xs[a..b];
      TakeSnoc(parts, k);
      ConcatSnoc(parts[..k - 1], parts[k - 1]);
      TakeSplit(xs, a, b);
    }
  }

  /**
   * Gathering at displs[k] the piece of xs that rank k computed reassembles
   * xs, whatever the root's buffer held before.
   */
  lemma GatherOfRanges<T>(n: nat, p: nat, global: seq<T>, xs: seq<T>)
    requires p >= 1 && |global| == n && |xs| == n
    ensures Gathered(n, p, global, Ranges(n, p, xs), p) == xs
  {
    var parts := Ranges(n, p, xs);
    GatherIsConcat(n, p, global, parts);
    ConcatOfRanges(n, p, xs, p);
    CountsSumToN(n, p);
    assert parts[..p] == parts;
  }

  /** The full gather at the root is the ranks' buffers concatenated in rank order. */
  lemma GatherIsConcat<T>(n: nat, p: nat, global: seq<T>, parts: seq<seq<T>>)
    requires p >= 1 && |global| == n && Fits(n, p, parts)
    ensures Gathered(n, p, global, parts, p) == Concat(parts)
  {
    GatheredPrefix(n, p, global, parts, p);
    CountsSumToN(n, p);
    assert parts[..p] == parts;
  }
}
