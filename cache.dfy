/**
 * What `DataDownloader.get_dict` (download.py) computes, as functions: the
 * statistics of each requested region taken from the in-memory cache, else
 * from its cache file, else from a fresh parse, and appended column by column
 * to a dictionary that starts with an empty column per header and under
 * "region".
 */
module Cache {
  import opened Wrappers
  import opened Schema
  import opened Ingest

  /** `parse_region_data`, as a function of the region code. */
  type Parser<V> = string -> Result<Table<V>, Error>

  /** The parser of a data folder. */
  function ParserOf<V>(files: seq<Archive>, cast: Caster<V>): Parser<V> {
    region => Parse(files, cast, region)
  }

  /** Statistics by region: the in-memory `cache`, or the cache files of the data folder. */
  type Store<V> = map<string, Table<V>>

  /** The keys of `get_dict`'s dictionary: the headers and "region". */
  ghost predicate WellKeyed<V>(t: Table<V>) {
    forall h :: h in t <==> h == "region" || h in Headers()
  }

  /** Every entry of `keys` is a column of `t`. */
  predicate HasKeys<V>(t: Table<V>, keys: seq<string>) {
    forall x :: 0 <= x < |keys| ==> keys[x] in t
  }

  /** The dictionary has a column for every header and under "region". */
  predicate HasColumns<V>(t: Table<V>) {
    "region" in t && HasKeys(t, Headers())
  }

  /** A dictionary with exactly the expected keys has a column for each of them. */
  lemma WellKeyedHasColumns<V>(t: Table<V>)
    requires WellKeyed(t)
    ensures HasColumns(t)
  {
    forall x | 0 <= x < |Headers()| ensures Headers()[x] in t {
      assert Headers()[x] in Headers();
    }
  }

  /** The dictionary `get_dict` starts from: no entries in any column. */
  function Empty<V>(): (t: Table<V>)
    ensures WellKeyed(t)
    ensures forall h :: h in t ==> t[h] == []
  {
    (map h | h in Headers() :: [])["region" := []]
  }

  /** `regions`, or every key of the region table, in table order, when it is None. */
  function Requested(regions: Option<seq<string>>): (regs: seq<string>)
    ensures regions.None? ==> |regs| == 14 && forall r :: r in regs <==> r in Regions
  {
    RegionTable();
    regions.GetOr(RegionCodes)
  }

  /** The header loop for one region over the first `k` of `keys`: `result[h]` grows by `stats[h]`. */
  function MergeHeaders<V>(acc: Table<V>, stats: Table<V>, keys: seq<string>, k: nat): (r: Result<Table<V>, Error>)
    requires k <= |keys| && HasKeys(acc, keys)
    ensures r.Success? ==> r.value.Keys == acc.Keys
  {
    if k == 0 then Success(acc)
    else match MergeHeaders(acc, stats, keys, k - 1)
      case Failure(e) => Failure(e)
      case Success(t) =>
        var h := keys[k - 1];
        if h !in stats then Failure(MissingColumn(h)) else Success(t[h := t[h] + stats[h]])
  }

  /** One region's statistics appended: every header column, then the region's own column under "region". */
  function Merge<V>(acc: Table<V>, stats: Table<V>, region: string): (r: Result<Table<V>, Error>)
    requires HasColumns(acc)
    ensures r.Success? ==> r.value.Keys == acc.Keys
  {
    match MergeHeaders(acc, stats, Headers(), |Headers()|)
    case Failure(e) => Failure(e)
    case Success(t) =>
      if region !in stats then Failure(MissingColumn(region))
      else Success(t["region" := t["region"] + stats[region]])
  }

  /** What a call of `get_dict` leaves: its dictionary or the exception, and both stores. */
  datatype Outcome<V> = Outcome(result: Result<Table<V>, Error>, cache: Store<V>, saved: Store<V>)

  /**
   * The lookup of one region's statistics, in order: the in-memory cache; else
   * its cache file, which also enters the in-memory cache; else a parse, which
   * writes the cache file only.
   */
  function Fetch<V>(parse: Parser<V>, cache: Store<V>, saved: Store<V>, region: string): (o: Outcome<V>)
    ensures o.result == Resolve(parse, cache, saved, region)
    ensures o.cache == cache || (region !in cache && region in saved && o.cache == cache[region := saved[region]])
    ensures o.saved == saved ||
      (region !in cache && region !in saved && parse(region).Success? &&
       o.result == parse(region) && o.saved == saved[region := parse(region).value])
    ensures region !in saved ==> o.cache == cache
    ensures region !in cache && region in saved ==> o.cache == cache[region := saved[region]]
    ensures region !in cache && region !in saved && parse(region).Success? ==>
      o.saved == saved[region := parse(region).value]
  {
    if region in cache then Outcome(Success(cache[region]), cache, saved)
    else if region in saved then Outcome(Success(saved[region]), cache[region := saved[region]], saved)
    else match parse(region)
      case Failure(e) => Outcome(Failure(e), cache, saved)
      case Success(t) => Outcome(Success(t), cache, saved[region := t])
  }

  /** The loop body for one region: fetch its statistics, append them. */
  function Step<V>(parse: Parser<V>, acc: Table<V>, cache: Store<V>, saved: Store<V>,
                   region: string): (o: Outcome<V>)
    requires WellKeyed(acc)
    ensures o.result.Success? ==> WellKeyed(o.result.value)
  {
    var f := Fetch(parse, cache, saved, region);
    match f.result
    case Failure(e) => f
    case Success(stats) => Outcome(Merge(acc, stats, region), f.cache, f.saved)
  }

  /** The region loop of `get_dict` over `regs`, stopping at the first exception. */
  function Run<V>(parse: Parser<V>, cache: Store<V>, saved: Store<V>,
                  regs: seq<string>): (o: Outcome<V>)
    ensures o.result.Success? ==> WellKeyed(o.result.value)
    decreases |regs|
  {
    if regs == [] then Outcome(Success(Empty()), cache, saved)
    else
      var o := Run(parse, cache, saved, regs[..|regs| - 1]);
      if o.result.Failure? then o
      else Step(parse, o.result.value, o.cache, o.saved, regs[|regs| - 1])
  }

  /** The statistics the stores yield for `region`: the cached ones, else the saved ones, else a parse. */
  function Resolve<V>(parse: Parser<V>, cache: Store<V>, saved: Store<V>,
                      region: string): Result<Table<V>, Error>
  {
    if region in cache then Success(cache[region])
    else if region in saved then Success(saved[region])
    else parse(region)
  }

  /** The reference merge: every region resolved against fixed stores, appended in request order. */
  function MergeAll<V>(parse: Parser<V>, cache: Store<V>, saved: Store<V>,
                       regs: seq<string>): (r: Result<Table<V>, Error>)
    ensures r.Success? ==> WellKeyed(r.value)
    decreases |regs|
  {
    if regs == [] then Success(Empty())
    else match MergeAll(parse, cache, saved, regs[..|regs| - 1])
      case Failure(e) => Failure(e)
      case Success(acc) =>
        match Resolve(parse, cache, saved, regs[|regs| - 1])
        case Failure(e) => Failure(e)
        case Success(stats) => Merge(acc, stats, regs[|regs| - 1])
  }

  /** Two pairs of stores yield the same statistics for every region. */
  ghost predicate Agree<V>(parse: Parser<V>, c: Store<V>, s: Store<V>, c': Store<V>, s': Store<V>) {
    forall r :: Resolve(parse, c, s, r) == Resolve(parse, c', s', r)
  }

  /** Every stored table is what parsing its region yields. */
  ghost predicate Consistent<V>(parse: Parser<V>, store: Store<V>) {
    forall r :: r in store ==> parse(r) == Success(store[r])
  }

  // ---------------------------------------------------------------- one region

  /** The header loop succeeds exactly when every one of the first `k` keys is a key of `stats`. */
  lemma {:induction false} MergeHeadersSucceeds<V>(acc: Table<V>, stats: Table<V>, keys: seq<string>, k: nat)
    requires k <= |keys| && HasKeys(acc, keys)
    ensures MergeHeaders(acc, stats, keys, k).Success? <==> forall x :: 0 <= x < k ==> keys[x] in stats
  {
    if k > 0 {
      MergeHeadersSucceeds(acc, stats, keys, k - 1);
      if MergeHeaders(acc, stats, keys, k - 1).Success? {
        assert MergeHeaders(acc, stats, keys, k).Success? <==> keys[k - 1] in stats;
      }
    }
  }

  /** On success, each of the first `k` columns is extended by the region's column; the rest are kept. */
  lemma {:induction false} MergeHeadersColumns<V>(acc: Table<V>, stats: Table<V>, keys: seq<string>, k: nat)
    requires k <= |keys| && HasKeys(acc, keys) && forall x :: 0 <= x < k ==> keys[x] in stats
    requires forall x, y :: 0 <= x < y < |keys| ==> keys[x] != keys[y]
    ensures MergeHeaders(acc, stats, keys, k).Success?
    ensures var t := MergeHeaders(acc, stats, keys, k).value;
      && (forall x :: 0 <= x < k ==> t[keys[x]] == acc[keys[x]] + stats[keys[x]])
      && forall h :: h in acc && (forall x :: 0 <= x < k ==> keys[x] != h) ==> t[h] == acc[h]
  {
    MergeHeadersSucceeds(acc, stats, keys, k);
    if k > 0 {
      MergeHeadersColumns(acc, stats, keys, k - 1);
      var t := MergeHeaders(acc, stats, keys, k - 1).value;
      var h := keys[k - 1];
      assert MergeHeaders(acc, stats, keys, k).value == t[h := t[h] + stats[h]];
    }
  }

  /** On failure, the loop raised at the first key that `stats` lacks. */
  lemma {:induction false} MergeHeadersFirstMissing<V>(acc: Table<V>, stats: Table<V>, keys: seq<string>, k: nat)
    requires k <= |keys| && HasKeys(acc, keys) && MergeHeaders(acc, stats, keys, k).Failure?
    ensures exists y ::
      && 0 <= y < k && keys[y] !in stats
      && MergeHeaders(acc, stats, keys, k).error == MissingColumn(keys[y])
      && forall x :: 0 <= x < y ==> keys[x] in stats
  {
    MergeHeadersSucceeds(acc, stats, keys, k - 1);
    if MergeHeaders(acc, stats, keys, k - 1).Failure? {
      MergeHeadersFirstMissing(acc, stats, keys, k - 1);
    } else {
      assert MergeHeaders(acc, stats, keys, k).error == MissingColumn(keys[k - 1]);
    }
  }

  /**
   * Appending one region's statistics succeeds exactly when they hold every
   * header and the region code; each header column and the "region" column
   * then grow by the region's own columns.
   */
  lemma MergeSpec<V>(acc: Table<V>, stats: Table<V>, region: string)
    requires HasColumns(acc)
    ensures Merge(acc, stats, region).Success? <==>
      (forall x :: 0 <= x < |Headers()| ==> Headers()[x] in stats) && region in stats
    ensures Merge(acc, stats, region).Success? ==>
      var t := Merge(acc, stats, region).value;
      && (forall x :: 0 <= x < |Headers()| ==> t[Headers()[x]] == acc[Headers()[x]] + stats[Headers()[x]])
      && t["region"] == acc["region"] + stats[region]
    ensures Merge(acc, stats, region).Failure? ==> Merge(acc, stats, region).error.MissingColumn?
  {
    var keys := Headers();
    MergeHeadersSucceeds(acc, stats, keys, |keys|);
    if MergeHeaders(acc, stats, keys, |keys|).Success? {
      HeadersDistinct();
      MergeHeadersColumns(acc, stats, keys, |keys|);
    }
    RegionKeyIsNotHeader();
    match MergeHeaders(acc, stats, keys, |keys|)
    case Failure(_) =>
      MergeHeadersFirstMissing(acc, stats, keys, |keys|);
    case Success(t) =>
      assert t["region"] == acc["region"];
  }

  /** The header loop raises at most once: a prefix that raised decides the whole loop. */
  lemma {:induction false} MergeHeadersFails<V>(acc: Table<V>, stats: Table<V>, keys: seq<string>, k: nat, n: nat)
    requires k <= n <= |keys| && HasKeys(acc, keys) && MergeHeaders(acc, stats, keys, k).Failure?
    ensures MergeHeaders(acc, stats, keys, n) == MergeHeaders(acc, stats, keys, k)
    decreases n
  {
    if n > k {
      MergeHeadersFails(acc, stats, keys, k, n - 1);
    }
  }

  /**
   * One step reads the same statistics that `Resolve` names, and leaves stores
   * that still yield the same statistics for every region.
   */
  lemma StepResolves<V>(parse: Parser<V>, acc: Table<V>, c: Store<V>, s: Store<V>, region: string)
    requires WellKeyed(acc)
    ensures var o := Step(parse, acc, c, s, region);
      && o.result == (match Resolve(parse, c, s, region)
                      case Failure(e) => Failure(e)
                      case Success(stats) => Merge(acc, stats, region))
      && Agree(parse, o.cache, o.saved, c, s)
  {
  }

  // ---------------------------------------------------------------- the region loop

  /** A loop iteration: the outcome over one more region is one more step from the outcome so far. */
  lemma RunSnoc<V>(parse: Parser<V>, c: Store<V>, s: Store<V>, regs: seq<string>, i: nat,
                   acc: Table<V>, c': Store<V>, s': Store<V>)
    requires i < |regs| && Run(parse, c, s, regs[..i]) == Outcome(Success(acc), c', s')
    ensures WellKeyed(acc)
    ensures Run(parse, c, s, regs[..i + 1]) == Step(parse, acc, c', s', regs[i])
  {
    assert regs[..i + 1][..i] == regs[..i];
  }

  /** An exception ends the loop: the outcome of a prefix that raised is the outcome of the call. */
  lemma {:induction false} RunFails<V>(parse: Parser<V>, c: Store<V>, s: Store<V>,
                                      regs: seq<string>, i: nat)
    requires i <= |regs| && Run(parse, c, s, regs[..i]).result.Failure?
    ensures Run(parse, c, s, regs) == Run(parse, c, s, regs[..i])
    decreases |regs|
  {
    if i < |regs| {
      var p := regs[..|regs| - 1];
      assert p[..i] == regs[..i];
      RunFails(parse, c, s, p, i);
    } else {
      assert regs[..i] == regs;
    }
  }

  /**
   * Caching is transparent: `get_dict` returns what resolving every region
   * against the stores it started with and appending in order returns, and the
   * stores it leaves yield the same statistics as those it started with.
   */
  lemma {:induction false} RunIsMergeAll<V>(parse: Parser<V>, c: Store<V>, s: Store<V>,
                                           regs: seq<string>)
    ensures Run(parse, c, s, regs).result == MergeAll(parse, c, s, regs)
    ensures var o := Run(parse, c, s, regs); Agree(parse, o.cache, o.saved, c, s)
    decreases |regs|
  {
    if regs != [] {
      var p, r := regs[..|regs| - 1], regs[|regs| - 1];
      RunIsMergeAll(parse, c, s, p);
      var o := Run(parse, c, s, p);
      if o.result.Success? {
        StepResolves(parse, o.result.value, o.cache, o.saved, r);
        assert Resolve(parse, o.cache, o.saved, r) == Resolve(parse, c, s, r);
      }
    }
  }

  /**
   * The stores after a call: every cached entry stays; a new memory-cache entry
   * is a requested region loaded from its cache file, which was either there
   * from the start or written by a parse at an earlier request of the same
   * region, so a parse never enters the memory cache; every saved entry stays;
   * a new cache file is written only for a requested region found in neither
   * store, and holds what parsing that region yields.
   */
  lemma {:induction false} RunStores<V>(parse: Parser<V>, c: Store<V>, s: Store<V>,
                                       regs: seq<string>)
    ensures StoresFrom(parse, c, s, regs, Run(parse, c, s, regs))
    decreases |regs|
  {
    if regs != [] {
      var p := regs[..|regs| - 1];
      RunStores(parse, c, s, p);
      var o := Run(parse, c, s, p);
      assert p + [regs[|regs| - 1]] == regs;
      if o.result.Success? {
        StepStores(parse, c, s, p, o, regs[|regs| - 1]);
      }
    }
  }

  /**
   * A call that returns leaves every requested region in a store: each one was
   * cached, or has its cache file, either from the start or written by the parse
   * its request made.
   */
  lemma {:induction false} RunCovers<V>(parse: Parser<V>, c: Store<V>, s: Store<V>,
                                       regs: seq<string>)
    ensures var o := Run(parse, c, s, regs);
      o.result.Success? ==> Covered(regs, o.cache, o.saved)
    decreases |regs|
  {
    if regs != [] {
      var p, r := regs[..|regs| - 1], regs[|regs| - 1];
      RunCovers(parse, c, s, p);
      var o := Run(parse, c, s, p);
      if o.result.Success? {
        var o' := Step(parse, o.result.value, o.cache, o.saved, r);
        assert Run(parse, c, s, regs) == o';
        StepCovers(parse, o.result.value, o.cache, o.saved, r);
        if o'.result.Success? {
          forall q | q in regs
            ensures q in o'.cache || q in o'.saved
          {
            if q != r {
              assert q in p;
            }
          }
        }
      }
    }
  }

  /** Every region of `regs` is in the memory cache or has a cache file. */
  ghost predicate Covered<V>(regs: seq<string>, cache: Store<V>, saved: Store<V>) {
    forall r :: r in regs ==> r in cache || r in saved
  }

  /** One more region: the stores only grow, and a step that returns leaves its region in one. */
  lemma StepCovers<V>(parse: Parser<V>, acc: Table<V>, cache: Store<V>, saved: Store<V>, region: string)
    requires WellKeyed(acc)
    ensures var o := Step(parse, acc, cache, saved, region);
      && cache.Keys <= o.cache.Keys && saved.Keys <= o.saved.Keys
      && (o.result.Success? ==> region in o.cache || region in o.saved)
  {
    var f := Fetch(parse, cache, saved, region);
    assert cache.Keys <= f.cache.Keys && saved.Keys <= f.saved.Keys;
  }

  /** The relation `RunStores` states between the stores a call starts from and those of an outcome. */
  ghost predicate StoresFrom<V>(parse: Parser<V>, c: Store<V>, s: Store<V>,
                                regs: seq<string>, o: Outcome<V>)
  {
    && (forall r :: r in c ==> r in o.cache && o.cache[r] == c[r])
    && (forall r :: r in o.cache && r !in c ==>
          && r in regs && r in o.saved && o.cache[r] == o.saved[r]
          && (r in s || multiset(regs)[r] >= 2))
    && (forall r :: r in s ==> r in o.saved && o.saved[r] == s[r])
    && (forall r :: r in o.saved && r !in s ==>
          r in regs && r !in c && parse(r) == Success(o.saved[r]))
  }

  /** One more region keeps the relation. */
  lemma StepStores<V>(parse: Parser<V>, c: Store<V>, s: Store<V>,
                      p: seq<string>, o: Outcome<V>, r: string)
    requires o.result.Success? && WellKeyed(o.result.value) && StoresFrom(parse, c, s, p, o)
    ensures StoresFrom(parse, c, s, p + [r], Step(parse, o.result.value, o.cache, o.saved, r))
  {
    var regs := p + [r];
    var o' := Step(parse, o.result.value, o.cache, o.saved, r);
    assert multiset(regs) == multiset(p) + multiset{r};
    if r in o.cache {
      assert o'.cache == o.cache && o'.saved == o.saved;
      StoresGrow(parse, c, s, p, regs, o, o'.result);
      assert o' == Outcome(o'.result, o.cache, o.saved);
    } else if r in o.saved {
      assert o'.cache == o.cache[r := o.saved[r]] && o'.saved == o.saved;
      LoadStores(parse, c, s, p, regs, o, r, o'.result);
      assert o' == Outcome(o'.result, o.cache[r := o.saved[r]], o.saved);
    } else if parse(r).Failure? {
      assert o'.cache == o.cache && o'.saved == o.saved;
      StoresGrow(parse, c, s, p, regs, o, o'.result);
      assert o' == Outcome(o'.result, o.cache, o.saved);
    } else {
      var t := parse(r).value;
      assert o'.cache == o.cache && o'.saved == o.saved[r := t];
      ParseStores(parse, c, s, p, regs, o, r, t, o'.result);
      assert o' == Outcome(o'.result, o.cache, o.saved[r := t]);
    }
  }

  /** A region loaded from its cache file keeps the relation. */
  lemma LoadStores<V>(parse: Parser<V>, c: Store<V>, s: Store<V>,
                      p: seq<string>, regs: seq<string>, o: Outcome<V>, r: string, res: Result<Table<V>, Error>)
    requires StoresFrom(parse, c, s, p, o) && regs == p + [r]
    requires r !in o.cache && r in o.saved
    ensures StoresFrom(parse, c, s, regs, Outcome(res, o.cache[r := o.saved[r]], o.saved))
  {
  }

  /** A region parsed and written to its cache file keeps the relation. */
  lemma ParseStores<V>(parse: Parser<V>, c: Store<V>, s: Store<V>,
                       p: seq<string>, regs: seq<string>, o: Outcome<V>, r: string, t: Table<V>,
                       res: Result<Table<V>, Error>)
    requires StoresFrom(parse, c, s, p, o) && regs == p + [r]
    requires r !in o.cache && r !in o.saved && parse(r) == Success(t)
    ensures StoresFrom(parse, c, s, regs, Outcome(res, o.cache, o.saved[r := t]))
  {
    var saved := o.saved[r := t];
    var o' := Outcome(res, o.cache, saved);
    assert forall q :: q in c ==> q in o'.cache && o'.cache[q] == c[q];
    forall q | q in o'.cache && q !in c
      ensures q in regs && q in o'.saved && o'.cache[q] == o'.saved[q] && (q in s || multiset(regs)[q] >= 2)
    {
      assert q != r;
      assert multiset(regs)[q] == multiset(p)[q];
    }
    assert forall q :: q in s ==> q in o'.saved && o'.saved[q] == s[q] by {
      forall q | q in s ensures q in o'.saved && o'.saved[q] == s[q] {
        assert q != r;
      }
    }
    forall q | q in saved && q !in s
      ensures q in regs && q !in c && parse(q) == Success(saved[q])
    {
      if q != r {
        assert q in o.saved;
      }
    }
    assert StoresFrom(parse, c, s, regs, o');
  }

  /** The relation allows more requested regions. */
  lemma StoresGrow<V>(parse: Parser<V>, c: Store<V>, s: Store<V>,
                      p: seq<string>, regs: seq<string>, o: Outcome<V>, res: Result<Table<V>, Error>)
    requires StoresFrom(parse, c, s, p, o) && multiset(p) <= multiset(regs)
    ensures StoresFrom(parse, c, s, regs, Outcome(res, o.cache, o.saved))
  {
    forall q | q in p ensures q in regs {
      assert q in multiset(p);
    }
  }

  /** Stores that agree give the same merge. */
  lemma {:induction false} MergeAllCongruent<V>(parse: Parser<V>,
                                               c: Store<V>, s: Store<V>, c': Store<V>, s': Store<V>, regs: seq<string>)
    requires Agree(parse, c, s, c', s')
    ensures MergeAll(parse, c, s, regs) == MergeAll(parse, c', s', regs)
    decreases |regs|
  {
    if regs != [] {
      MergeAllCongruent(parse, c, s, c', s', regs[..|regs| - 1]);
      assert Resolve(parse, c, s, regs[|regs| - 1]) == Resolve(parse, c', s', regs[|regs| - 1]);
    }
  }

  /**
   * When both stores hold only what parsing yields, `get_dict` returns what it
   * returns with no cache at all, and keeps both stores that way.
   */
  lemma CachedIsFresh<V>(parse: Parser<V>, c: Store<V>, s: Store<V>, regs: seq<string>)
    requires Consistent(parse, c) && Consistent(parse, s)
    ensures Run(parse, c, s, regs).result == Run(parse, map[], map[], regs).result
    ensures Consistent(parse, Run(parse, c, s, regs).cache)
    ensures Consistent(parse, Run(parse, c, s, regs).saved)
  {
    RunIsMergeAll(parse, c, s, regs);
    RunIsMergeAll(parse, map[], map[], regs);
    assert Agree(parse, c, s, map[], map[]) by {
      forall r ensures Resolve(parse, c, s, r) == Resolve(parse, map[], map[], r) { }
    }
    MergeAllCongruent(parse, c, s, map[], map[], regs);
    RunStores(parse, c, s, regs);
  }

  // ---------------------------------------------------------------- columns of the result

  /** The number of records parsing gathers for each region. */
  function RowCounts(files: seq<Archive>): string -> nat {
    region => match CollectRows(files, region) case Success(rows) => |rows| case Failure(_) => 0
  }

  /** `count` summed over the regions. */
  function Total(count: string -> nat, regs: seq<string>): nat
    decreases |regs|
  {
    if regs == [] then 0 else Total(count, regs[..|regs| - 1]) + count(regs[|regs| - 1])
  }

  /** The column `key` of every table, concatenated in order. */
  function Stack<V>(sts: seq<Table<V>>, key: string): Column<V>
    requires forall i :: 0 <= i < |sts| ==> key in sts[i]
    decreases |sts|
  {
    if sts == [] then [] else Stack(sts[..|sts| - 1], key) + sts[|sts| - 1][key]
  }

  /** The column under each table's own region code, concatenated in order. */
  function StackOwn<V>(sts: seq<Table<V>>, regs: seq<string>): Column<V>
    requires |sts| == |regs| && forall i :: 0 <= i < |sts| ==> regs[i] in sts[i]
    decreases |sts|
  {
    if sts == [] then [] else StackOwn(sts[..|sts| - 1], regs[..|regs| - 1]) + sts[|sts| - 1][regs[|regs| - 1]]
  }

  /** Statistics fit for the merge: one table per region, holding every header and the region's code. */
  ghost predicate Complete<V>(sts: seq<Table<V>>, regs: seq<string>) {
    && |sts| == |regs|
    && forall i :: 0 <= i < |sts| ==> regs[i] in sts[i] && forall x :: 0 <= x < |Headers()| ==> Headers()[x] in sts[i]
  }

  /**
   * The reference merge succeeds exactly when every region resolves to
   * statistics fit for the merge; each header column is then the
   * concatenation of the regions' columns in request order, and the "region"
   * column the concatenation of each region's column under its own code.
   */
  lemma {:induction false} MergeAllColumns<V>(parse: Parser<V>, c: Store<V>, s: Store<V>,
                                             regs: seq<string>, sts: seq<Table<V>>)
    requires |sts| == |regs|
    requires forall i :: 0 <= i < |regs| ==> Resolve(parse, c, s, regs[i]) == Success(sts[i])
    ensures MergeAll(parse, c, s, regs).Success? <==> Complete(sts, regs)
    ensures MergeAll(parse, c, s, regs).Success? ==>
      var t := MergeAll(parse, c, s, regs).value;
      && (forall x :: 0 <= x < |Headers()| ==> t[Headers()[x]] == Stack(sts, Headers()[x]))
      && t["region"] == StackOwn(sts, regs)
    decreases |regs|
  {
    if regs != [] {
      var p, r := regs[..|regs| - 1], regs[|regs| - 1];
      var ps := sts[..|sts| - 1];
      MergeAllColumns(parse, c, s, p, ps);
      CompleteSnoc(sts, regs);
      match MergeAll(parse, c, s, p)
      case Failure(_) =>
      case Success(acc) =>
        MergeSpec(acc, sts[|sts| - 1], r);
    }
  }

  /** Statistics are fit for the merge when those of the earlier regions are and the last region's are. */
  lemma CompleteSnoc<V>(sts: seq<Table<V>>, regs: seq<string>)
    requires |sts| == |regs| > 0
    ensures var st, r := sts[|sts| - 1], regs[|regs| - 1];
      Complete(sts, regs) <==>
        && Complete(sts[..|sts| - 1], regs[..|regs| - 1])
        && r in st && forall x :: 0 <= x < |Headers()| ==> Headers()[x] in st
  {
    var ps, p := sts[..|sts| - 1], regs[..|regs| - 1];
    assert forall i :: 0 <= i < |ps| ==> ps[i] == sts[i] && p[i] == regs[i];
  }

  /** Statistics fit for the merge, all of whose columns hold `n` entries. */
  ghost predicate Fit<V>(t: Table<V>, region: string, n: nat) {
    && region in t
    && (forall x :: 0 <= x < |Headers()| ==> Headers()[x] in t)
    && forall h :: h in t ==> |t[h]| == n
  }

  /** Parsed statistics are fit for the merge, with one entry per gathered record. */
  lemma ParsedFit<V>(files: seq<Archive>, cast: Caster<V>, region: string)
    requires Parse(files, cast, region).Success?
    ensures Fit(Parse(files, cast, region).value, region, RowCounts(files)(region))
  {
    ParseLayout(files, cast, region);
    var rows := CollectRows(files, region).value;
    LayoutFit(cast, region, rows, Parse(files, cast, region).value);
  }

  /** A table with the layout of a parse is fit for the merge. */
  lemma LayoutFit<V>(cast: Caster<V>, region: string, rows: seq<Row>, t: Table<V>)
    requires Rectangular(rows) && Layout(cast, region, rows, t)
    ensures Fit(t, region, |rows|)
  {
  }

  /** Appending fit statistics never raises, and every column grows by their length. */
  lemma FitMerges<V>(acc: Table<V>, stats: Table<V>, region: string, n: nat, m: nat)
    requires WellKeyed(acc) && (forall h :: h in acc ==> |acc[h]| == n) && Fit(stats, region, m)
    ensures Merge(acc, stats, region).Success?
    ensures var t := Merge(acc, stats, region).value; forall h :: h in t ==> |t[h]| == n + m
  {
    MergeSpec(acc, stats, region);
    var t := Merge(acc, stats, region).value;
    forall h | h in t ensures |t[h]| == n + m {
      if h != "region" {
        var x :| 0 <= x < |Headers()| && Headers()[x] == h;
      }
    }
  }

  /** Parsing raises only its own errors. */
  lemma ParseRaisesNoMissing<V>(files: seq<Archive>, cast: Caster<V>, region: string)
    ensures Parse(files, cast, region).Failure? ==> !Parse(files, cast, region).error.MissingColumn?
  {
    CollectRowsSpec(files, region);
  }

  /** Stores that hold only parse results resolve every region as a parse does. */
  lemma ResolveConsistent<V>(parse: Parser<V>, c: Store<V>, s: Store<V>, r: string)
    requires Consistent(parse, c) && Consistent(parse, s)
    ensures Resolve(parse, c, s, r) == parse(r)
  {
  }

  /** The merge over any parser that raises no missing column and yields fit statistics. */
  lemma {:induction false} MergeAllAligned<V>(parse: Parser<V>, count: string -> nat, c: Store<V>, s: Store<V>,
                                             regs: seq<string>)
    requires Consistent(parse, c) && Consistent(parse, s)
    requires forall r :: parse(r).Failure? ==> !parse(r).error.MissingColumn?
    requires forall r :: parse(r).Success? ==> Fit(parse(r).value, r, count(r))
    ensures MergeAll(parse, c, s, regs).Failure? ==> !MergeAll(parse, c, s, regs).error.MissingColumn?
    ensures MergeAll(parse, c, s, regs).Success? ==>
      var t := MergeAll(parse, c, s, regs).value;
      forall h :: h in t ==> |t[h]| == Total(count, regs)
    decreases |regs|
  {
    if regs != [] {
      var p, r := regs[..|regs| - 1], regs[|regs| - 1];
      MergeAllAligned(parse, count, c, s, p);
      assert MergeAll(parse, c, s, p).Success? ==>
        forall h :: h in MergeAll(parse, c, s, p).value ==> |MergeAll(parse, c, s, p).value[h]| == Total(count, p);
      ResolveConsistent(parse, c, s, r);
      var m := MergeAll(parse, c, s, p);
      if m.Success? && parse(r).Success? {
        var acc := m.value;
        FitMerges(acc, parse(r).value, r, Total(count, p), count(r));
      }
    }
  }

  /**
   * With stores that hold only parse results, `get_dict` raises only what
   * parsing raises, and every column of its dictionary has one entry per
   * gathered record of the requested regions.
   */
  lemma MergedColumnsAligned<V>(files: seq<Archive>, cast: Caster<V>, c: Store<V>, s: Store<V>, regs: seq<string>)
    requires Consistent(ParserOf(files, cast), c) && Consistent(ParserOf(files, cast), s)
    ensures MergeAll(ParserOf(files, cast), c, s, regs).Failure? ==>
      !MergeAll(ParserOf(files, cast), c, s, regs).error.MissingColumn?
    ensures MergeAll(ParserOf(files, cast), c, s, regs).Success? ==>
      var t := MergeAll(ParserOf(files, cast), c, s, regs).value;
      forall h :: h in t ==> |t[h]| == Total(RowCounts(files), regs)
  {
    var parse := ParserOf(files, cast);
    forall r ensures parse(r).Failure? ==> !parse(r).error.MissingColumn? {
      ParseRaisesNoMissing(files, cast, r);
    }
    forall r | parse(r).Success? ensures Fit(parse(r).value, r, RowCounts(files)(r)) {
      ParsedFit(files, cast, r);
    }
    MergeAllAligned(parse, RowCounts(files), c, s, regs);
  }
}
