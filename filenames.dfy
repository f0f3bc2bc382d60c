/**
 * How the programs read N and name their output files from the input name
 * (`argv[1]`), e.g. "ws_n_100_k_4_p_0.1.edgelist":
 *   - the name is split at every '_' (`getline(s_stream, substr, '_')` while
 *     the stream is `good()`), and N is `stoi` of field 2;
 *   - the efficiency file is the name up to its first "." (the MPI program:
 *     up to ".edgelist"), or the whole name when there is none, plus ".eff";
 *     the MPI program's time file is the same prefix plus "_mpi_.time".
 */
module FileNames {
  import opened Graph

  datatype Option<T> = None | Some(value: T)

  // ---------------------------------------------------------------------------
  // Splitting at '_'.

  /** The index of the first '_' in s, or |s| when there is none. */
  function FieldEnd(s: string): (e: nat)
    ensures e <= |s|
    ensures forall k :: 0 <= k < e ==> s[k] != '_'
    ensures e < |s| ==> s[e] == '_'
  {
    if s == [] || s[0] == '_' then 0 else 1 + FieldEnd(s[1..])
  }

  /** The fields between the '_'s: k separators make k + 1 fields, empty ones included. */
  function Split(s: string): (fields: seq<string>)
    ensures |fields| >= 1
    decreases |s|
  {
    var e := FieldEnd(s);
    if e == |s| then [s] else [s[..e]] + Split(s[e + 1..])
  }

  /** The fields joined back with '_'. */
  function Join(fields: seq<string>): string
    requires |fields| >= 1
  {
    if |fields| == 1 then fields[0] else fields[0] + "_" + Join(fields[1..])
  }

  /** The number of '_' in s. */
  function Underscores(s: string): nat
  {
    if s == [] then 0 else (if s[0] == '_' then 1 else 0) + Underscores(s[1..])
  }

  lemma {:induction false} UnderscoresSplit(s: string, e: nat)
    requires e < |s| && s[e] == '_' && forall k :: 0 <= k < e ==> s[k] != '_'
    ensures Underscores(s) == 1 + Underscores(s[e + 1..])
  {
    if e > 0 {
      UnderscoresSplit(s[1..], e - 1);
      assert s[1..][e..] == s[e + 1..];
    }
  }

  lemma {:induction false} NoUnderscores(s: string)
    requires forall k :: 0 <= k < |s| ==> s[k] != '_'
    ensures Underscores(s) == 0
  {
    if s != [] {
      NoUnderscores(s[1..]);
    }
  }

  /** Splitting yields one field more than there are separators. */
  lemma {:induction false} SplitCount(s: string)
    ensures |Split(s)| == Underscores(s) + 1
    decreases |s|
  {
    var e := FieldEnd(s);
    if e == |s| {
      NoUnderscores(s);
    } else {
      SplitCount(s[e + 1..]);
      UnderscoresSplit(s, e);
    }
  }

  /** No field holds a '_'. */
  lemma {:induction false} SplitFieldsClean(s: string)
    ensures forall f, k :: 0 <= f < |Split(s)| && 0 <= k < |Split(s)[f]| ==> Split(s)[f][k] != '_'
    decreases |s|
  {
    var e := FieldEnd(s);
    if e < |s| {
      var rest := s[e + 1..];
      SplitFieldsClean(rest);
      var fields := Split(s);
      assert fields == [s[..e]] + Split(rest);
      forall f, k | 0 <= f < |fields| && 0 <= k < |fields[f]| ensures fields[f][k] != '_' {
        if f > 0 {
          assert fields[f] == Split(rest)[f - 1];
        }
      }
    }
  }

  /** Joining the fields with '_' gives the name back. */
  lemma {:induction false} SplitJoin(s: string)
    ensures Join(Split(s)) == s
    decreases |s|
  {
    var e := FieldEnd(s);
    if e < |s| {
      var rest := s[e + 1..];
      SplitJoin(rest);
      assert Split(s)[1..] == Split(rest);
      assert s == s[..e] + "_" + rest;
    }
  }

  /** Fields without '_' survive joining and splitting: the other direction of the round trip. */
  lemma {:induction false} JoinSplit(fields: seq<string>)
    requires |fields| >= 1
    requires forall f, k :: 0 <= f < |fields| && 0 <= k < |fields[f]| ==> fields[f][k] != '_'
    ensures Split(Join(fields)) == fields
    decreases |fields|
  {
    var s := Join(fields);
    if |fields| == 1 {
      FieldEndOf(fields[0], "");
    } else {
      var rest := Join(fields[1..]);
      FieldEndOf(fields[0], "_" + rest);
      assert s == fields[0] + ("_" + rest);
      assert s[|fields[0]| + 1..] == rest;
      JoinSplit(fields[1..]);
    }
  }

  /** In a + t, where a has no '_', the first field ends at |a| if t is empty or starts with '_'. */
  lemma {:induction false} FieldEndOf(a: string, t: string)
    requires forall k :: 0 <= k < |a| ==> a[k] != '_'
    requires t == [] || t[0] == '_'
    ensures FieldEnd(a + t) == |a|
  {
    if a != [] {
      assert (a + t)[1..] == a[1..] + t;
      FieldEndOf(a[1..], t);
    }
  }

  /** One step of the split: the first field, then the split of what follows its '_'. */
  lemma SplitFirst(s: string, e: nat)
    requires e <= |s| && (e < |s| ==> s[e] == '_') && forall k :: 0 <= k < e ==> s[k] != '_'
    ensures e == |s| ==> Split(s) == [s]
    ensures e < |s| ==> Split(s) == [s[..e]] + Split(s[e + 1..])
  {
    FieldEndOf(s[..e], s[e..]);
    assert s == s[..e] + s[e..];
  }

  /** The field name[start .. stop) read by one `getline`, and where the next read starts. */
  lemma SplitAdvance(name: string, start: nat, stop: nat)
    requires start <= stop <= |name| && (stop < |name| ==> name[stop] == '_')
    requires forall k :: start <= k < stop ==> name[k] != '_'
    ensures stop < |name| ==> Split(name[start..]) == [name[start..stop]] + Split(name[stop + 1..])
    ensures stop == |name| ==> Split(name[start..]) == [name[start..stop]]
  {
    var rest := name[start..];
    SplitFirst(rest, stop - start);
    assert rest[..stop - start] == name[start..stop];
    if stop < |name| {
      assert rest[stop - start + 1..] == name[stop + 1..];
    } else {
      assert rest == name[start..stop];
    }
  }

  /** Appending the field just read keeps the fields read so far plus the split of the rest equal to the whole split. */
  lemma SplitStep(name: string, start: nat, stop: nat, fields: seq<string>)
    requires start <= stop <= |name| && (stop < |name| ==> name[stop] == '_')
    requires forall k :: start <= k < stop ==> name[k] != '_'
    requires fields + Split(name[start..]) == Split(name)
    ensures stop < |name| ==> (fields + [name[start..stop]]) + Split(name[stop + 1..]) == Split(name)
    ensures stop == |name| ==> fields + [name[start..stop]] == Split(name)
  {
    SplitAdvance(name, start, stop);
    if stop < |name| {
      Regroup(fields, name[start..stop], Split(name[stop + 1..]), Split(name[start..]), Split(name));
    } else {
      Regroup(fields, name[start..stop], [], Split(name[start..]), Split(name));
    }
  }

  lemma Regroup<T>(done: seq<T>, x: T, more: seq<T>, rest: seq<T>, whole: seq<T>)
    requires rest == [x] + more && done + rest == whole
    ensures (done + [x]) + more == whole
  {
    assert (done + [x]) + more == done + ([x] + more);
  }

  /** The scan of one `getline(s_stream, substr, '_')`: the next '_' at or after start, or the end. */
  method NextSeparator(name: string, start: nat) returns (stop: nat)
    requires start <= |name|
    ensures start <= stop <= |name| && (stop < |name| ==> name[stop] == '_')
    ensures forall k :: start <= k < stop ==> name[k] != '_'
  {
    stop := start;
    while stop < |name| && name[stop] != '_'
      invariant start <= stop <= |name|
      invariant forall k :: start <= k < stop ==> name[k] != '_'
    {
      stop := stop + 1;
    }
  }

  /**
   * The split loop as the programs run it. Each `getline` reads up to the next
   * '_' (consuming it) or to the end; the stream stops being `good()` once a
   * read reaches the end, so a name ending in '_' still yields a last, empty
   * field.
   */
  method SplitFileName(name: string) returns (fields: seq<string>)
    ensures fields == Split(name)
  {
    fields := [];
    var start := 0;
    var good := true;
    while good
      invariant 0 <= start <= |name|
      invariant good ==> fields + Split(name[start..]) == Split(name)
      invariant !good ==> fields == Split(name)
      decreases |name| - start, if good then 1 else 0
    {
      var stop := NextSeparator(name, start);
      SplitStep(name, start, stop, fields);
      fields := fields + [name[start..stop]];
      if stop < |name| {
        start := stop + 1;
      } else {
        start := stop;
        good := false;
      }
    }
  }

  // ---------------------------------------------------------------------------
  // `stoi` of the N field.

  predicate IsDigit(c: char)
  {
    '0' <= c <= '9'
  }

  /** The value of a string of decimal digits, most significant first. */
  function DigitsValue(s: string): nat
    requires forall k :: 0 <= k < |s| ==> IsDigit(s[k])
  {
    if s == [] then 0
    else
      assert IsDigit(s[|s| - 1]);
      DigitsValue(s[..|s| - 1]) * 10 + (s[|s| - 1] as int - '0' as int)
  }

  /** The longest prefix of s made of digits. */
  function LeadingDigits(s: string): (d: string)
    ensures |d| <= |s| && d == s[..|d|]
    ensures forall k :: 0 <= k < |d| ==> IsDigit(s[k])
    ensures |d| < |s| ==> !IsDigit(s[|d|])
  {
    if s == [] || !IsDigit(s[0]) then [] else [s[0]] + LeadingDigits(s[1..])
  }

  /**
   * `stoi` on an unsigned field: the value of its leading digits; no digits
   * (`invalid_argument`) or a value above `INT_MAX` (`out_of_range`) is None.
   */
  function Stoi(s: string): (r: Option<int>)
    ensures r.Some? ==> 0 <= r.value <= IntMax
    ensures s == [] || !IsDigit(s[0]) ==> r.None?
  {
    var d := LeadingDigits(s);
    if d == [] || DigitsValue(d) > IntMax then None else Some(DigitsValue(d))
  }

  /** The decimal rendering of a non-negative number, no leading zeros. */
  function Decimal(x: nat): (s: string)
    ensures |s| >= 1 && forall k :: 0 <= k < |s| ==> IsDigit(s[k])
  {
    if x < 10 then [(x + '0' as int) as char] else Decimal(x / 10) + [(x % 10 + '0' as int) as char]
  }

  /** Reading back a rendered number gives the number. */
  lemma {:induction false} DecimalValue(x: nat)
    ensures DigitsValue(Decimal(x)) == x
  {
    if x >= 10 {
      DecimalValue(x / 10);
      var s := Decimal(x);
      assert s[..|s| - 1] == Decimal(x / 10);
    }
  }

  /** A digits-only string is all leading digits. */
  lemma {:induction false} AllLeadingDigits(s: string)
    requires forall k :: 0 <= k < |s| ==> IsDigit(s[k])
    ensures LeadingDigits(s) == s
  {
    if s != [] {
      AllLeadingDigits(s[1..]);
    }
  }

  /** `stoi` reads back every `int` N >= 0 rendered in decimal. */
  lemma StoiDecimal(x: nat)
    requires x <= IntMax
    ensures Stoi(Decimal(x)) == Some(x)
  {
    AllLeadingDigits(Decimal(x));
    DecimalValue(x);
  }

  /** `N = stoi(split_file_name[2])`; the name must have at least three fields. */
  function NodeCount(name: string): (r: Option<int>)
    requires |Split(name)| >= 3
    ensures r.Some? ==> 0 <= r.value <= IntMax
  {
    Stoi(Split(name)[2])
  }

  /** A name "<a>_<b>_<N>_<more>", with no '_' inside a, b or the rest, yields N. */
  lemma NodeCountOfName(a: string, b: string, x: nat, more: seq<string>)
    requires x <= IntMax
    requires forall k :: 0 <= k < |a| ==> a[k] != '_'
    requires forall k :: 0 <= k < |b| ==> b[k] != '_'
    requires forall f, k :: 0 <= f < |more| && 0 <= k < |more[f]| ==> more[f][k] != '_'
    ensures |Split(Join([a, b, Decimal(x)] + more))| >= 3
    ensures NodeCount(Join([a, b, Decimal(x)] + more)) == Some(x)
  {
    var fields := [a, b, Decimal(x)] + more;
    forall f, k | 0 <= f < |fields| && 0 <= k < |fields[f]| ensures fields[f][k] != '_' {
      if f == 2 {
        assert IsDigit(Decimal(x)[k]);
      } else if f > 2 {
        assert fields[f] == more[f - 3];
      }
    }
    JoinSplit(fields);
    StoiDecimal(x);
  }

  // ---------------------------------------------------------------------------
  // Output names.

  /** pat occurs in s at index k. */
  predicate OccursAt(s: string, pat: string, k: int)
  {
    0 <= k && k + |pat| <= |s| && s[k..k + |pat|] == pat
  }

  /** `s.find(pat)`: the first index where pat occurs, None for `npos`. */
  function Find(s: string, pat: string): (r: Option<nat>)
    ensures r.Some? ==> OccursAt(s, pat, r.value) && forall k :: 0 <= k < r.value ==> !OccursAt(s, pat, k)
    ensures r.None? ==> forall k :: !OccursAt(s, pat, k)
    decreases |s|
  {
    if |s| < |pat| then None
    else if s[..|pat|] == pat then Some(0)
    else
      match Find(s[1..], pat)
      case None =>
        assert forall k :: OccursAt(s, pat, k) ==> k == 0 || OccursAt(s[1..], pat, k - 1);
        None
      case Some(k) =>
        assert forall j :: 1 <= j <= k && OccursAt(s, pat, j) ==> OccursAt(s[1..], pat, j - 1);
        assert s[1..][k..k + |pat|] == s[k + 1..k + 1 + |pat|];
        Some(k + 1)
  }

  /** `s.substr(0, pos)`: the whole string when pos is `npos`. */
  function PrefixBefore(s: string, pos: Option<nat>): (prefix: string)
    ensures |prefix| <= |s| && prefix == s[..|prefix|]
  {
    if pos.Some? && pos.value <= |s| then s[..pos.value] else s
  }

  /** The `.eff` name of the sequential and OpenMP programs. */
  function EffFileName(name: string): (out: string)
    ensures |out| >= 4 && out[|out| - 4..] == ".eff"
    ensures |out| - 4 <= |name| && out[..|out| - 4] == name[..|out| - 4]
  {
    PrefixBefore(name, Find(name, ".")) + ".eff"
  }

  /** The MPI program's `.eff` and `_mpi_.time` names. */
  function MpiFileNames(name: string): (names: (string, string))
    ensures |names.0| >= 4 && names.0[|names.0| - 4..] == ".eff"
    ensures |names.1| >= 10 && names.1[|names.1| - 10..] == "_mpi_.time"
    ensures |names.0| - 4 <= |name| && names.0[..|names.0| - 4] == names.1[..|names.1| - 10] == name[..|names.0| - 4]
  {
    var base := PrefixBefore(name, Find(name, ".edgelist"));
    (base + ".eff", base + "_mpi_.time")
  }

  /** A name with no '.' keeps all of itself; one with a '.' keeps what precedes its first '.'. */
  lemma EffFileNameParts(name: string)
    ensures (forall k :: 0 <= k < |name| ==> name[k] != '.') ==> EffFileName(name) == name + ".eff"
    ensures forall k :: 0 <= k < |name| && name[k] == '.' && (forall j :: 0 <= j < k ==> name[j] != '.') ==>
              EffFileName(name) == name[..k] + ".eff"
  {
    DotsOccur(name);
    match Find(name, ".")
    case None =>
    case Some(p) =>
      assert name[p] == '.' by { assert name[p..p + 1] == "."; }
  }

  /** Every '.' in s is an occurrence of the pattern ".". */
  lemma DotsOccur(s: string)
    ensures forall k :: 0 <= k < |s| && s[k] == '.' ==> OccursAt(s, ".", k)
  {
    forall k | 0 <= k < |s| && s[k] == '.' ensures OccursAt(s, ".", k) {
      assert s[k..k + 1] == [s[k]];
    }
  }

  /**
   * The MPI names keep the whole name when ".edgelist" does not occur in it,
   * and what precedes its first occurrence when it does.
   */
  lemma MpiFileNamesParts(name: string)
    ensures (forall k :: !OccursAt(name, ".edgelist", k)) ==>
              MpiFileNames(name) == (name + ".eff", name + "_mpi_.time")
    ensures forall k :: OccursAt(name, ".edgelist", k) && (forall j :: 0 <= j < k ==> !OccursAt(name, ".edgelist", j)) ==>
              MpiFileNames(name) == (name[..k] + ".eff", name[..k] + "_mpi_.time")
  {
    match Find(name, ".edgelist")
    case None =>
    case Some(p) =>
      forall k | OccursAt(name, ".edgelist", k) && (forall j :: 0 <= j < k ==> !OccursAt(name, ".edgelist", j))
        ensures k == p
      {
      }
  }

  /**
   * A pattern whose first character does not recur in it is first found at
   * the end of base + pat when base holds no occurrence of its own.
   */
  lemma FindAppended(base: string, pat: string)
    requires pat != [] && forall j :: 1 <= j < |pat| ==> pat[j] != pat[0]
    requires forall k :: !OccursAt(base, pat, k)
    ensures Find(base + pat, pat) == Some(|base|)
    ensures PrefixBefore(base + pat, Find(base + pat, pat)) == base
  {
    var name := base + pat;
    assert name[|base|..|base| + |pat|] == pat;
    assert OccursAt(name, pat, |base|);
    var p := Find(name, pat).value;
    if p < |base| {
      if p + |pat| <= |base| {
        assert name[p..p + |pat|] == base[p..p + |pat|];
        assert OccursAt(base, pat, p);
      } else {
        NoStraddle(base, pat, p);
        assert false;
      }
    }
    assert name[..|base|] == base;
  }

  /**
   * An occurrence of pat cannot start inside base and run into the appended
   * copy when pat's first character recurs nowhere else in pat.
   */
  lemma NoStraddle(base: string, pat: string, p: int)
    requires forall j :: 1 <= j < |pat| ==> pat[j] != pat[0]
    requires 0 <= p < |base| < p + |pat|
    ensures !OccursAt(base + pat, pat, p)
  {
    var name := base + pat;
    assert name[|base|] == pat[0];
    assert name[p..p + |pat|][|base| - p] == name[|base|];
  }

  /**
   * The MPI program keeps all of "<base>" from "<base>.edgelist" when base
   * holds no ".edgelist" of its own: its names are "<base>.eff" and
   * "<base>_mpi_.time".
   */
  lemma MpiNamesOfEdgelist(base: string)
    requires forall k :: !OccursAt(base, ".edgelist", k)
    ensures MpiFileNames(base + ".edgelist") == (base + ".eff", base + "_mpi_.time")
  {
    var name := base + ".edgelist";
    assert Find(name, ".edgelist") == Some(|base|) && PrefixBefore(name, Find(name, ".edgelist")) == base by {
      FindAppended(base, ".edgelist");
    }
  }

  /**
   * On "<base>.edgelist" the sequential and OpenMP programs write the same
   * `.eff` name as the MPI program exactly when base has no '.': otherwise
   * they cut at base's first '.', so "a.b.edgelist" gives "a.eff" there and
   * "a.b.eff" in MPI.
   */
  lemma EffNamesAgree(base: string)
    requires forall k :: !OccursAt(base, ".edgelist", k)
    ensures (forall k :: 0 <= k < |base| ==> base[k] != '.') <==>
            EffFileName(base + ".edgelist") == MpiFileNames(base + ".edgelist").0
  {
    MpiNamesOfEdgelist(base);
    if forall k :: 0 <= k < |base| ==> base[k] != '.' {
      NoDotEffName(base);
    } else {
      var k :| 0 <= k < |base| && base[k] == '.';
      DotEffNameShorter(base, k);
    }
  }

  /** Without a '.' in base, the first '.' of "<base>.edgelist" is the one before "edgelist". */
  lemma NoDotEffName(base: string)
    requires forall k :: 0 <= k < |base| ==> base[k] != '.'
    ensures EffFileName(base + ".edgelist") == base + ".eff"
  {
    var name := base + ".edgelist";
    EffFileNameParts(name);
    assert name[|base|] == '.';
    assert forall j :: 0 <= j < |base| ==> name[j] != '.';
    assert name[..|base|] == base;
  }

  /** A '.' inside base cuts the sequential name short of "<base>.eff". */
  lemma DotEffNameShorter(base: string, k: int)
    requires 0 <= k < |base| && base[k] == '.'
    ensures |EffFileName(base + ".edgelist")| < |base| + 4
  {
    var name := base + ".edgelist";
    var first := FirstDot(base, k);
    EffFileNameParts(name);
    assert name[first] == '.';
    assert forall j :: 0 <= j < first ==> name[j] != '.';
  }

  /** Some '.' at or before k in s is the first one. */
  lemma {:induction false} FirstDot(s: string, k: int) returns (first: int)
    requires 0 <= k < |s| && s[k] == '.'
    ensures 0 <= first <= k && s[first] == '.' && forall j :: 0 <= j < first ==> s[j] != '.'
    decreases k
  {
    if exists j :: 0 <= j < k && s[j] == '.' {
      var j :| 0 <= j < k && s[j] == '.';
      first := FirstDot(s, j);
    } else {
      first := k;
    }
  }
}
