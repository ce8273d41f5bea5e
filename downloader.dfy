/**
 * The `DataDownloader` object of download.py: the data folder it reads, the
 * shared in-memory `cache`, and the gzip-pickled cache files it writes, with
 * `parse_region_data` and `get_dict` as methods that follow the source's loops.
 */
module Downloader {
  import opened Wrappers
  import opened Fields
  import opened Schema
  import opened Ingest
  import opened Cache

  /** Row `i` of a two-dimensional array of texts. */
  function RowOf(g: array2<string>, i: nat): seq<string>
    requires i < g.Length0
    reads g
  {
    seq(g.Length1, j requires 0 <= j < g.Length1 reads g => g[i, j])
  }

  /** The rows of a two-dimensional array: after the transpose, the columns of the record table. */
  function Columns(g: array2<string>): seq<seq<string>>
    reads g
  {
    seq(g.Length0, i requires 0 <= i < g.Length0 reads g => RowOf(g, i))
  }

  /** Entry x of record j once the region code is put in front of it. */
  function WithRegion(region: string, rows: seq<Row>, x: nat, j: nat): string
    requires Rectangular(rows) && x <= |Headers()| && j < |rows|
  {
    ([region] + rows[j])[x]
  }

  /** The member loop of `parse_region_data` over one archive, from the records gathered so far. */
  method GatherMembers(rows: seq<Row>, ms: seq<Member>, region: string) returns (r: Result<seq<Row>, Error>)
    ensures r == MembersFold(rows, ms, region)
  {
    var acc := rows;
    for k := 0 to |ms|
      invariant MembersFold(rows, ms[..k], region) == Success(acc)
    {
      var m := ms[k];
      assert ms[..k + 1][..k] == ms[..k];
      if region !in Regions {
        MembersFoldFails(rows, ms, k + 1, region);
        return Failure(UnknownRegion);
      }
      if Regions[region] == CsvStem(m.name) {
        if !WellFormed(m.rows) {
          MembersFoldFails(rows, ms, k + 1, region);
          return Failure(SchemaMismatch);
        }
        acc := acc + m.rows;
      }
    }
    assert ms[..|ms|] == ms;
    return Success(acc);
  }

  /** The normalisation loop: every entry of the transposed table rewritten in place. */
  method NormalizeGrid(grid: array2<string>)
    modifies grid
    ensures forall x, j :: 0 <= x < grid.Length0 && 0 <= j < grid.Length1 ==>
      grid[x, j] == Normalize(old(grid[x, j]))
  {
    for x := 0 to grid.Length0
      invariant forall x', j :: 0 <= x' < grid.Length0 && 0 <= j < grid.Length1 ==>
        grid[x', j] == if x' < x then Normalize(old(grid[x', j])) else old(grid[x', j])
    {
      for j := 0 to grid.Length1
        invariant forall x', j' :: 0 <= x' < grid.Length0 && 0 <= j' < grid.Length1 ==>
          grid[x', j'] ==
            if x' < x || (x' == x && j' < j) then Normalize(old(grid[x', j'])) else old(grid[x', j'])
      {
        var elem := NormalizeField(grid[x, j]);
        grid[x, j] := elem;
      }
    }
  }

  /** The header loop of `get_dict` and the "region" column: one region's statistics appended. */
  method MergeInto<V>(acc: Table<V>, stats: Table<V>, region: string) returns (r: Result<Table<V>, Error>)
    requires HasColumns(acc)
    ensures r == Merge(acc, stats, region)
  {
    var result := acc;
    for x := 0 to |Headers()|
      invariant MergeHeaders(acc, stats, Headers(), x) == Success(result)
    {
      var h := Headers()[x];
      if h !in stats {
        MergeHeadersFails(acc, stats, Headers(), x + 1, |Headers()|);
        return Failure(MissingColumn(h));
      }
      result := result[h := result[h] + stats[h]];
    }
    if region !in stats {
      return Failure(MissingColumn(region));
    }
    return Success(result["region" := result["region"] + stats[region]]);
  }

  class DataDownloader<V> {
    /** The data folder as `download_data` leaves it: entry names and, for archives, their members. */
    const files: seq<Archive>
    /** numpy's conversion of a text to a column type. */
    const cast: Caster<V>
    /** `cache`: statistics loaded from cache files, by region. */
    var cache: Store<V>
    /** The cache files of the data folder, by region. */
    var saved: Store<V>

    /** A downloader over a data folder, with the cache and the cache files as they stand. */
    constructor(files: seq<Archive>, cast: Caster<V>, cache: Store<V>, saved: Store<V>)
      ensures this.files == files && this.cast == cast && this.cache == cache && this.saved == saved
    {
      this.files := files;
      this.cast := cast;
      this.cache := cache;
      this.saved := saved;
    }

    /** The archive loop of `parse_region_data`: the records of the matching members of every zip archive. */
    method GatherRows(region: string) returns (r: Result<seq<Row>, Error>)
      ensures r == CollectRows(files, region)
    {
      var rows: seq<Row> := [];
      for i := 0 to |files|
        invariant CollectRows(files[..i], region) == Success(rows)
      {
        var a := files[i];
        assert files[..i + 1][..i] == files[..i];
        if IsZipName(a.name) {
          var gathered := GatherMembers(rows, a.members, region);
          if gathered.Failure? {
            CollectRowsFails(files, i + 1, region);
            return gathered;
          }
          rows := gathered.value;
        }
      }
      assert files[..|files|] == files;
      return Success(rows);
    }

    /**
     * `parse_region_data`: the records of the matching members, extended by the
     * region code, transposed, normalised field by field, named and cast.
     */
    method ParseRegionData(region: string) returns (r: Result<Table<V>, Error>)
      ensures r == Parse(files, cast, region)
    {
      var gathered := GatherRows(region);
      if gathered.Failure? {
        return Failure(gathered.error);
      }
      var rows := gathered.value;
      var n := |rows|;
      if n == 0 {
        // np.insert cannot put the region text into the empty float array
        return Failure(NoRecords);
      }

      // np.insert of the region column, then np.transpose
      var grid := new string[|Headers()| + 1, n]((x, j) requires 0 <= x <= |Headers()| && 0 <= j < n =>
        WithRegion(region, rows, x, j));
      assert forall x, j :: 0 <= x <= |Headers()| && 0 <= j < n ==> grid[x, j] == WithRegion(region, rows, x, j);
      NormalizeGrid(grid);
      assert Columns(grid) == Grid(region, rows) by {
        forall x | 0 <= x <= |Headers()| ensures Columns(grid)[x] == Grid(region, rows)[x] {
          assert forall j :: 0 <= j < n ==> RowOf(grid, x)[j] == Normalize(WithRegion(region, rows, x, j));
        }
      }
      // the dictionary comprehension, then the region column under the region code
      var result := RawTable<V>(region, Columns(grid));
      result := CastColumns(result);
      return Success(result);
    }

    /** The cast loop: each header's column cast to its type, a column that raises ValueError left as it is. */
    method CastColumns(t: Table<V>) returns (result: Table<V>)
      requires forall x :: 0 <= x < |Headers()| ==> Headers()[x] in t
      ensures result == CastAll(cast, t, |Headers()|)
    {
      result := t;
      for x := 0 to |Headers()|
        invariant result == CastAll(cast, t, x)
      {
        var h := Headers()[x];
        var casted := TryCast(cast, HeaderTypes()[x], result[h]);
        ghost var before := result;
        if casted.Some? {
          result := result[h := casted.value];
        }
        assert result == before[h := CastColumn(cast, HeaderTypes()[x], before[h])];
      }
    }

    /** The lookup in the loop of `get_dict`: the cache, else the cache file, else a parse. */
    method FetchStats(region: string) returns (r: Result<Table<V>, Error>)
      modifies this
      ensures Fetch(ParserOf(files, cast), old(cache), old(saved), region) == Outcome(r, cache, saved)
    {
      if region in cache {
        return Success(cache[region]);
      } else if region in saved {
        r := Success(saved[region]);
        cache := cache[region := saved[region]];
      } else {
        r := ParseRegionData(region);
        if r.Success? {
          saved := saved[region := r.value];
        }
      }
    }

    /** The body of the region loop of `get_dict`: fetch one region's statistics and append them. */
    method Visit(result: Table<V>, region: string) returns (r: Result<Table<V>, Error>)
      requires WellKeyed(result)
      modifies this
      ensures Step(ParserOf(files, cast), result, old(cache), old(saved), region) == Outcome(r, cache, saved)
    {
      var fetched := FetchStats(region);
      if fetched.Failure? {
        return fetched;
      }
      WellKeyedHasColumns(result);
      r := MergeInto(result, fetched.value, region);
    }

    /**
     * `get_dict`: each requested region's statistics from the cache, else from
     * its cache file (which also fills the cache), else from a parse (which
     * writes the cache file), appended to the dictionary column by column.
     */
    method GetDict(regions: Option<seq<string>>) returns (r: Result<Table<V>, Error>)
      modifies this
      ensures Run(ParserOf(files, cast), old(cache), old(saved), Requested(regions)) == Outcome(r, cache, saved)
    {
      var regs := Requested(regions);
      var result := Empty<V>();
      for i := 0 to |regs|
        invariant Run(ParserOf(files, cast), old(cache), old(saved), regs[..i]) == Outcome(Success(result), cache, saved)
      {
        var region := regs[i];
        RunSnoc(ParserOf(files, cast), old(cache), old(saved), regs, i, result, cache, saved);
        var merged := Visit(result, region);
        if merged.Failure? {
          RunFails(ParserOf(files, cast), old(cache), old(saved), regs, i + 1);
          return merged;
        }
        result := merged.value;
      }
      assert regs[..|regs|] == regs;
      return Success(result);
    }
  }
}
