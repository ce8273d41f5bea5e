/**
 * The integer part of `plot_stat` (get_stat.py): the per-region tally of the
 * `p24` column, the 14×6 table of the tallies in sorted region order, and the
 * directory part of the figure path.
 */
module Stat {
  import opened Wrappers
  import opened Schema

  /** The `p24` codes in the order of the tally's entries: 1, 2, 3, 4, 5, then 0. */
  const P24Order: seq<int> := [1, 2, 3, 4, 5, 0]

  // ---------------------------------------------------------------- counting

  /** The rows whose region is `r` and whose `p24` is `code`. */
  function CountWhere(regions: seq<string>, p24: seq<int>, r: string, code: int): nat
    requires |regions| == |p24|
    decreases |regions|
  {
    if regions == [] then 0
    else
      var n := |regions| - 1;
      CountWhere(regions[..n], p24[..n], r, code) + (if regions[n] == r && p24[n] == code then 1 else 0)
  }

  /** The rows whose region is `r`. */
  function RowsOf(regions: seq<string>, r: string): nat
    decreases |regions|
  {
    if regions == [] then 0
    else
      var n := |regions| - 1;
      RowsOf(regions[..n], r) + (if regions[n] == r then 1 else 0)
  }

  /** The rows whose region is `r` and whose `p24` is none of the six codes. */
  function CountOther(regions: seq<string>, p24: seq<int>, r: string): nat
    requires |regions| == |p24|
    decreases |regions|
  {
    if regions == [] then 0
    else
      var n := |regions| - 1;
      CountOther(regions[..n], p24[..n], r) + (if regions[n] == r && p24[n] !in P24Order then 1 else 0)
  }

  /** The six counts of region `r`, in the order of `P24Order`. */
  function Counts(regions: seq<string>, p24: seq<int>, r: string): (c: seq<nat>)
    requires |regions| == |p24|
    ensures |c| == 6
  {
    seq(6, k requires 0 <= k < 6 => CountWhere(regions, p24, r, P24Order[k]))
  }

  function Sum6(c: seq<nat>): nat
    requires |c| == 6
  {
    c[0] + c[1] + c[2] + c[3] + c[4] + c[5]
  }

  /** The tally's reference: one entry per region value present, its six counts. */
  function Tallied(regions: seq<string>, p24: seq<int>): map<string, seq<nat>>
    requires |regions| == |p24|
  {
    map r | r in regions :: Counts(regions, p24, r)
  }

  /** `np.sum(p24[np.where(region column == region)] == code)`, a pass over the rows. */
  method CountCode(regions: seq<string>, p24: seq<int>, region: string, code: int) returns (n: nat)
    requires |regions| == |p24|
    ensures n == CountWhere(regions, p24, region, code)
  {
    n := 0;
    for j := 0 to |regions|
      invariant n == CountWhere(regions[..j], p24[..j], region, code)
    {
      assert regions[..j + 1][..j] == regions[..j] && p24[..j + 1][..j] == p24[..j];
      if regions[j] == region && p24[j] == code {
        n := n + 1;
      }
    }
    assert regions[..|regions|] == regions && p24[..|p24|] == p24;
  }

  /**
   * The loop over `set(regions)`: for each region value present, the counts of
   * `p24` codes 0 to 5, stored in the order 1, 2, 3, 4, 5, 0.
   */
  method Tally(regions: seq<string>, p24: seq<int>) returns (regDict: map<string, seq<nat>>)
    requires |regions| == |p24|
    ensures regDict.Keys == set r | r in regions
    ensures forall r :: r in regDict ==> |regDict[r]| == 6
    ensures forall r, k :: r in regDict && 0 <= k < 6 ==> regDict[r][k] == CountWhere(regions, p24, r, P24Order[k])
  {
    var present := set r | r in regions;
    var todo := present;
    regDict := map[];
    while todo != {}
      invariant todo <= present
      invariant regDict.Keys == present - todo
      invariant forall r :: r in regDict ==> regDict[r] == Counts(regions, p24, r)
      decreases todo
    {
      var region :| region in todo;
      var none := CountCode(regions, p24, region, 0);
      var yellow := CountCode(regions, p24, region, 1);
      var outOrder := CountCode(regions, p24, region, 2);
      var sign := CountCode(regions, p24, region, 3);
      var signTransport := CountCode(regions, p24, region, 4);
      var rules := CountCode(regions, p24, region, 5);
      regDict := regDict[region := [yellow, outOrder, sign, signTransport, rules, none]];
      todo := todo - {region};
    }
  }

  /** A code has a positive count for `r` exactly when some row has region `r` and that code. */
  lemma {:induction false} CountPositive(regions: seq<string>, p24: seq<int>, r: string, code: int)
    requires |regions| == |p24|
    ensures CountWhere(regions, p24, r, code) > 0 <==>
      exists j :: 0 <= j < |regions| && regions[j] == r && p24[j] == code
    decreases |regions|
  {
    if regions != [] {
      var n := |regions| - 1;
      CountPositive(regions[..n], p24[..n], r, code);
      if CountWhere(regions[..n], p24[..n], r, code) > 0 {
        var j :| 0 <= j < n && regions[..n][j] == r && p24[..n][j] == code;
        assert regions[j] == r && p24[j] == code;
      }
      if exists j :: 0 <= j < |regions| && regions[j] == r && p24[j] == code {
        var j :| 0 <= j < |regions| && regions[j] == r && p24[j] == code;
        if j < n {
          assert regions[..n][j] == r && p24[..n][j] == code;
        }
      }
    }
  }

  /** A region has rows exactly when it occurs in the region column. */
  lemma {:induction false} RowsPositive(regions: seq<string>, r: string)
    ensures RowsOf(regions, r) > 0 <==> r in regions
    decreases |regions|
  {
    if regions != [] {
      var n := |regions| - 1;
      RowsPositive(regions[..n], r);
      assert regions == regions[..n] + [regions[n]];
    }
  }

  /**
   * No row is counted twice: the six counts of a region and the rows with any
   * other `p24` value together make up the region's rows.
   */
  lemma {:induction false} CountsPartition(regions: seq<string>, p24: seq<int>, r: string)
    requires |regions| == |p24|
    ensures Sum6(Counts(regions, p24, r)) + CountOther(regions, p24, r) == RowsOf(regions, r)
    decreases |regions|
  {
    if regions != [] {
      var n := |regions| - 1;
      CountsPartition(regions[..n], p24[..n], r);
    }
  }

  /** Rows with another `p24` value are left out of the counts: there are none exactly when every row of `r` has one of the six codes. */
  lemma {:induction false} CountOtherZero(regions: seq<string>, p24: seq<int>, r: string)
    requires |regions| == |p24|
    ensures CountOther(regions, p24, r) == 0 <==>
      forall j :: 0 <= j < |regions| && regions[j] == r ==> p24[j] in P24Order
    decreases |regions|
  {
    if regions != [] {
      var n := |regions| - 1;
      CountOtherZero(regions[..n], p24[..n], r);
      if CountOther(regions, p24, r) == 0 {
        forall j | 0 <= j < |regions| && regions[j] == r ensures p24[j] in P24Order {
          if j < n {
            assert regions[..n][j] == r;
            assert p24[..n][j] == p24[j];
          }
        }
      }
      if forall j :: 0 <= j < |regions| && regions[j] == r ==> p24[j] in P24Order {
        forall j | 0 <= j < n && regions[..n][j] == r ensures p24[..n][j] in P24Order {
          assert regions[j] == r;
        }
      }
    }
  }

  /** The six counts of a region sum to at most its rows, with equality exactly when none has another code. */
  lemma CountsBounded(regions: seq<string>, p24: seq<int>, r: string)
    requires |regions| == |p24|
    ensures Sum6(Counts(regions, p24, r)) <= RowsOf(regions, r)
    ensures Sum6(Counts(regions, p24, r)) == RowsOf(regions, r) <==>
      forall j :: 0 <= j < |regions| && regions[j] == r ==> p24[j] in P24Order
  {
    CountsPartition(regions, p24, r);
    CountOtherZero(regions, p24, r);
  }

  /** The tally has an entry exactly for the regions with rows, and every entry is the region's counts. */
  lemma TalliedSpec(regions: seq<string>, p24: seq<int>)
    requires |regions| == |p24|
    ensures forall r :: r in Tallied(regions, p24) <==> RowsOf(regions, r) > 0
    ensures forall r, k :: r in Tallied(regions, p24) && 0 <= k < 6 ==>
      Tallied(regions, p24)[r][k] == CountWhere(regions, p24, r, P24Order[k])
  {
    forall r ensures r in Tallied(regions, p24) <==> RowsOf(regions, r) > 0 {
      RowsPositive(regions, r);
    }
  }

  /** The tally in index order agrees with the one taken in set order. */
  lemma TallyIsTallied(regions: seq<string>, p24: seq<int>, regDict: map<string, seq<nat>>)
    requires |regions| == |p24|
    requires regDict.Keys == set r | r in regions
    requires forall r :: r in regDict ==> |regDict[r]| == 6
    requires forall r, k :: r in regDict && 0 <= k < 6 ==> regDict[r][k] == CountWhere(regions, p24, r, P24Order[k])
    ensures regDict == Tallied(regions, p24)
  {
    forall r | r in regDict ensures regDict[r] == Tallied(regions, p24)[r] {
      assert regDict[r] == Counts(regions, p24, r);
    }
  }

  // ---------------------------------------------------------------- the table

  /** Python's `<` on strings: code point by code point, a proper prefix first. */
  predicate StrLess(a: string, b: string)
    decreases |a|
  {
    if a == [] then b != []
    else if b == [] then false
    else if a[0] != b[0] then a[0] < b[0]
    else StrLess(a[1..], b[1..])
  }

  /** Strictly increasing under `StrLess`. */
  predicate StrictlySorted(s: seq<string>) {
    forall i, j :: 0 <= i < j < |s| ==> StrLess(s[i], s[j])
  }

  /** `plot_regions`: the keys of the region table after `sort()`. */
  const PlotRegions: seq<string> :=
    ["HKK", "JHC", "JHM", "KVK", "LBK", "MSK", "OLK", "PAK", "PHA", "PLK", "STC", "ULK", "VYS", "ZLK"]

  lemma {:induction false} StrLessAsymmetric(a: string, b: string)
    ensures !(StrLess(a, b) && StrLess(b, a))
    decreases |a|
  {
    if a != [] && b != [] && a[0] == b[0] {
      StrLessAsymmetric(a[1..], b[1..]);
    }
  }

  lemma {:induction false} StrLessIrreflexive(a: string)
    ensures !StrLess(a, a)
    decreases |a|
  {
    if a != [] {
      StrLessIrreflexive(a[1..]);
    }
  }

  /** `plot_regions` holds every key of the region table once, sorted. */
  lemma PlotRegionsSorted()
    ensures |PlotRegions| == 14
    ensures forall r :: r in PlotRegions <==> r in Regions
    ensures StrictlySorted(PlotRegions)
  {
    ChainSorted(PlotRegions);
  }

  /** Sorting is determined: two strictly sorted sequences of the same strings are equal. */
  lemma {:induction false} SortedUnique(a: seq<string>, b: seq<string>)
    requires StrictlySorted(a) && StrictlySorted(b)
    requires forall s :: s in a <==> s in b
    ensures a == b
    decreases |a|
  {
    if a != [] {
      assert a[0] in a;
    }
    if b != [] {
      assert b[0] in b;
    }
    if a != [] && b != [] {
      if a[0] != b[0] {
        var j :| 0 <= j < |b| && b[j] == a[0];
        var i :| 0 <= i < |a| && a[i] == b[0];
        StrLessAsymmetric(a[0], b[0]);
        assert false;
      }
      forall s ensures s in a[1..] <==> s in b[1..] {
        if s in a[1..] {
          TailMember(a, b, s);
        }
        if s in b[1..] {
          TailMember(b, a, s);
        }
      }
      SortedUnique(a[1..], b[1..]);
    }
  }

  /** A later entry of one sorted sequence is a later entry of another with the same strings and head. */
  lemma TailMember(a: seq<string>, b: seq<string>, s: string)
    requires StrictlySorted(a) && StrictlySorted(b) && a != [] && b != [] && a[0] == b[0]
    requires forall t :: t in a <==> t in b
    requires s in a[1..]
    ensures s in b[1..]
  {
    var i :| 0 <= i < |a[1..]| && a[1..][i] == s;
    assert StrLess(a[0], a[i + 1]);
    StrLessIrreflexive(s);
    assert s in b;
    var j :| 0 <= j < |b| && b[j] == s;
    assert j != 0;
    assert b[1..][j - 1] == s;
  }

  /** `StrLess` is transitive. */
  lemma {:induction false} StrLessTransitive(a: string, b: string, c: string)
    requires StrLess(a, b) && StrLess(b, c)
    ensures StrLess(a, c)
    decreases |a|
  {
    if a != [] && b != [] && c != [] && a[0] == b[0] && b[0] == c[0] {
      StrLessTransitive(a[1..], b[1..], c[1..]);
    }
  }

  /** A sequence whose neighbours are in order is strictly sorted. */
  lemma {:induction false} ChainSorted(s: seq<string>)
    requires forall i :: 0 < i < |s| ==> StrLess(s[i - 1], s[i])
    ensures StrictlySorted(s)
    decreases |s|
  {
    if |s| > 1 {
      var n := |s| - 1;
      ChainSorted(s[..n]);
      forall i | 0 <= i < n ensures StrLess(s[i], s[n]) {
        ChainBelow(s, i, n - 1);
        if i < n - 1 {
          StrLessTransitive(s[i], s[n - 1], s[n]);
        }
      }
    }
  }

  lemma ChainBelow(s: seq<string>, i: nat, j: nat)
    requires i <= j < |s| && StrictlySorted(s[..j + 1])
    ensures i < j ==> StrLess(s[i], s[j])
  {
    if i < j {
      assert s[..j + 1][i] == s[i] && s[..j + 1][j] == s[j];
    }
  }

  /** The rows of a two-dimensional array of counts. */
  function RowsOfTable(g: array2<nat>): seq<seq<nat>>
    reads g
  {
    seq(g.Length0, i requires 0 <= i < g.Length0 reads g =>
      seq(g.Length1, k requires 0 <= k < g.Length1 reads g => g[i, k]))
  }

  /**
   * The 14×6 table: row `i` is the tally of the `i`-th region in sorted order;
   * a region without an entry raises KeyError, at the first such region.
   */
  method FillTable(regDict: map<string, seq<nat>>) returns (r: Result<seq<seq<nat>>, string>)
    requires forall q :: q in regDict ==> |regDict[q]| == 6
    ensures r.Success? <==> forall i :: 0 <= i < |PlotRegions| ==> PlotRegions[i] in regDict
    ensures r.Success? ==> |r.value| == |PlotRegions|
    ensures r.Success? ==> forall i :: 0 <= i < |PlotRegions| ==> r.value[i] == regDict[PlotRegions[i]]
    ensures r.Failure? ==> exists i ::
      && 0 <= i < |PlotRegions| && r.error == PlotRegions[i] && PlotRegions[i] !in regDict
      && forall i' :: 0 <= i' < i ==> PlotRegions[i'] in regDict
  {
    var table := new nat[|PlotRegions|, 6]((i, k) => 0);
    for i := 0 to |PlotRegions|
      invariant forall i' :: 0 <= i' < i ==> PlotRegions[i'] in regDict
      invariant forall i', k :: 0 <= i' < i && 0 <= k < 6 ==> table[i', k] == regDict[PlotRegions[i']][k]
    {
      var region := PlotRegions[i];
      if region !in regDict {
        return Failure(region);
      }
      var row := regDict[region];
      for k := 0 to 6
        invariant forall i', k' :: 0 <= i' < i && 0 <= k' < 6 ==> table[i', k'] == regDict[PlotRegions[i']][k']
        invariant forall k' :: 0 <= k' < k ==> table[i, k'] == row[k']
      {
        table[i, k] := row[k];
      }
    }
    r := Success(RowsOfTable(table));
    assert forall i :: 0 <= i < |PlotRegions| ==> r.value[i] == regDict[PlotRegions[i]] by {
      forall i | 0 <= i < |PlotRegions| ensures r.value[i] == regDict[PlotRegions[i]] {
        assert forall k :: 0 <= k < 6 ==> r.value[i][k] == regDict[PlotRegions[i]][k];
      }
    }
  }

  /** Filling the table from the tally succeeds exactly when every region of the table has rows. */
  lemma TableCompleteIff(regions: seq<string>, p24: seq<int>)
    requires |regions| == |p24|
    ensures (forall i :: 0 <= i < |PlotRegions| ==> PlotRegions[i] in Tallied(regions, p24)) <==>
      forall i :: 0 <= i < |PlotRegions| ==> RowsOf(regions, PlotRegions[i]) > 0
  {
    TalliedSpec(regions, p24);
  }

  // ---------------------------------------------------------------- the figure path

  /** Python's `s.rsplit(sep, 1)`: the text before and after the last `sep`, or `s` alone. */
  function RSplitOnce(s: string, sep: char): (parts: seq<string>)
    ensures 1 <= |parts| <= 2
    decreases |s|
  {
    if s == [] then [s]
    else if s[|s| - 1] == sep then [s[..|s| - 1], []]
    else
      var p := RSplitOnce(s[..|s| - 1], sep);
      if |p| == 1 then [s] else [p[0], p[1] + [s[|s| - 1]]]
  }

  /** The parts join back to `s`; only the text in front of the last part may hold `sep`. */
  lemma {:induction false} RSplitOnceSpec(s: string, sep: char)
    ensures var parts := RSplitOnce(s, sep);
      && (|parts| == 1 <==> sep !in s)
      && (|parts| == 1 ==> parts[0] == s)
      && (|parts| == 2 ==> s == parts[0] + [sep] + parts[1] && sep !in parts[1])
    decreases |s|
  {
    if s != [] && s[|s| - 1] != sep {
      var n := |s| - 1;
      RSplitOnceSpec(s[..n], sep);
      assert s == s[..n] + [s[n]];
      var p := RSplitOnce(s[..n], sep);
      if |p| == 2 {
        assert s == p[0] + [sep] + (p[1] + [s[n]]);
      }
    } else if s != [] {
      assert s == s[..|s| - 1] + [sep];
    }
  }

  /**
   * The directory `plot_stat` creates before saving: `rsplit('/', 1)[0:-1]`,
   * the text before the last '/', or none when the path has no '/'.
   */
  function FigureDirectory(figLocation: string): (dir: Option<string>)
  {
    var path := RSplitOnce(figLocation, '/')[..|RSplitOnce(figLocation, '/')| - 1];
    if path == [] then None else Some(path[0])
  }

  /** There is a directory exactly when the path holds a '/', and it is the text before the last one. */
  lemma FigureDirectorySpec(figLocation: string)
    ensures FigureDirectory(figLocation).None? <==> '/' !in figLocation
    ensures FigureDirectory(figLocation).Some? ==> exists name ::
      figLocation == FigureDirectory(figLocation).value + "/" + name && '/' !in name
  {
    RSplitOnceSpec(figLocation, '/');
    var parts := RSplitOnce(figLocation, '/');
    if |parts| == 2 {
      assert figLocation == parts[0] + "/" + parts[1];
    }
  }
}
