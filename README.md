# Czech road-accident statistics: downloader and tally, in Dafny

This project models the data core of a small Python tool for the Czech police's
road-accident statistics. `DataDownloader` (download.py) reads the yearly zip
archives from its data folder. Each archive holds one CSV member per region,
named by a two-digit code. For one region, `parse_region_data` gathers the
records of that region's members and puts the region code in front of every
record. It then transposes the table into columns, cleans every field, names
the columns after the 64 `headers` and casts each column to its entry in
`headers_types`. `get_dict` takes each requested region from the in-memory
`cache`, else from that region's gzip-pickled cache file, else from a fresh
parse. It appends the region's columns to a dictionary of 64 header columns
plus a `"region"` column. `plot_stat` (get_stat.py) counts, for each region,
the accidents by the `p24` code (the kind of traffic control at the scene). It
fills a 14×6 table in sorted region order and splits the directory part off
the figure path.

The modules follow the source files:

- `Schema` (schema.dfy) holds the fixed tables: `headers`, `headers_types` and `regions`.
- `Fields` (fields.dfy) holds the cleaning of one field: the `[A-G]:` marker
  removal, the decimal comma, and the `-1` for an empty field.
- `Ingest` (ingest.dfy) defines `parse_region_data` as functions: the member
  and archive loops, the insert and transpose, the naming and the cast.
- `Cache` (cache.dfy) defines the region loop of `get_dict` as functions. It
  also gives a reference merge and the caching properties.
- `Downloader` (downloader.dfy) is the `DataDownloader` class. Its `cache` and
  cache-file store are mutable fields, and its methods run the source's loops.
  One of these loops normalises a two-dimensional array in place. Each method
  is proved equal to the function the other modules define.
- `Stat` (stat.dfy) holds the integer part of `plot_stat`.
- `Wrappers` (wrappers.dfy) holds `Option` and `Result`.

The folder is a value: a sequence of archives, each with its members' names
and records. Exceptions are `Result` failures:

- `UnknownRegion` is the KeyError at `self.regions[region]`.
- `SchemaMismatch` is `np.concatenate` meeting a member that is not a table of
  64 fields.
- `NoRecords` is `np.insert` rejecting the region text when no record was
  gathered, because the accumulator is still the empty float array.
- `MissingColumn(key)` is the KeyError at `stats[header]` or `stats[region]`.

The parse stores the region column under the region code itself, not under
`"region"`, just as `result[region] = array[0]` does. `get_dict` reads that
column back through `stats[region]`.

## Model

| member | source | states |
|---|---|---|
| Schema.Header | download.py:29-32 | `headers[i]`, one name per position 0 to 63; `HeadersDistinct` and `SchemaShape` state its properties |
| Schema.HeaderType | download.py:34-40 | `headers_types[i]`, one numpy type per position 0 to 64; `SchemaShape` states the pairing |
| Schema.SchemaShape | download.py:29-40 | 64 column names and 65 column types; the pairing by index never uses the last type; column 26 is `p24`, of type int8 |
| Schema.HeadersDistinct | download.py:29-32 | no two column names are equal |
| Schema.RegionTable | download.py:42-57 | the table `regions` has 14 entries, each with a two-character archive stem; `RegionCodes`, its keys in table order, holds 14 codes with no repeats and exactly the table's keys |
| Schema.RegionCodesDistinct | download.py:42-57 | no region code occurs twice in `RegionCodes`, so `regions.keys()` visits each region once |
| Schema.RegionKeys | download.py:42-57 | the keys of `regions` are the codes of `RegionCodes` |
| Schema.RegionCount | download.py:42-57 | `regions` has as many entries as `RegionCodes` lists |
| Schema.RegionsAreNotHeaders | download.py:29-57 | no region code is a column name, so `result[region]` never overwrites a header column |
| Schema.RegionKeyIsNotHeader | download.py:165-166 | the key `"region"` is not a column name |
| Fields.FindMarkers | download.py:133 | every match of `[A-G]:` is a letter A to G followed by a colon, and the matches take at most the whole text |
| Fields.MarkerPositionsSpec | download.py:133 | the marker positions are exactly the positions where `[A-G]:` starts |
| Fields.FindMarkersAll | download.py:133 | `re.findall` returns one match per position where a marker starts, the two characters there, in ascending order: markers never overlap, so no match is skipped |
| Fields.FindMarkersEmptyIff | download.py:133-134 | the match list is empty exactly when no position of the text starts a marker |
| Fields.Replace | download.py:136-138 | `str.replace`: every occurrence, left to right without overlap, replaced; `ReplaceMarker`, `RemoveOnlyDeletes` and `ReplaceCharPointwise` state what it does |
| Fields.ReplaceMarker | download.py:135-136 | removing one marker deletes exactly its occurrences: the result is the field's characters that lie in no occurrence of the marker, in their order |
| Fields.ReplaceMarkerFrom | download.py:136 | the same, for the rest of a field from a position where no occurrence of the marker begins just before |
| Fields.RemoveOnlyDeletes | download.py:136 | removing every occurrence of one marker only deletes characters: the result is a subsequence of the field, never longer, with no character added |
| Fields.RemoveEach | download.py:134-136 | the marker loop: each found marker in turn removed from the text as it stands; `RemoveEachOnlyDeletes` states what it does |
| Fields.RemoveEachOnlyDeletes | download.py:135-136 | removing the found markers one after another only deletes characters, keeping the others in order |
| Fields.StripMarkers | download.py:133-136 | the markers found in the original field, each removed once; `StripMarkersSpec` and `StripIsSinglePass` state what it does |
| Fields.StripMarkersSpec | download.py:133-136 | marker stripping never lengthens a field, yields a subsequence of it (characters deleted, the rest in order), and leaves a field without markers unchanged |
| Fields.ReplaceCharPointwise | download.py:138 | replacing one character by another changes exactly the positions holding it |
| Fields.DecimalPoint | download.py:137-138 | the comma step; `DecimalPointSpec` states what it does |
| Fields.DecimalPointSpec | download.py:137-138 | every comma becomes a point, nothing else changes, and no comma remains |
| Fields.Normalize | download.py:133-141 | the cleaning of one field: strip, comma, sentinel; `NormalizeSpec` and `NormalizeField` state its properties |
| Fields.NormalizeSpec | download.py:133-141 | a cleaned field is never empty and has no comma; a field that strips to nothing becomes `-1`; otherwise it is the stripped text with commas turned into points |
| Fields.NormalizeUnchanged | download.py:133-141 | a non-empty field without markers or commas is left as it is |
| Fields.MarkerAlone | download.py:133-136 | a lone marker is found once and removed completely |
| Fields.FindMarkersInMarkers | download.py:133 | in a field made of markers only, each of them is found, in order |
| Fields.ReplaceInMarkers | download.py:136 | in a run of markers, removing one marker removes exactly the entries equal to it, whole |
| Fields.RemoveEachInMarkers | download.py:134-136 | the marker loop over a run of markers removes exactly the entries equal to a given marker and keeps the others in order |
| Fields.OnlyMarkersBecomeSentinel | download.py:133-140 | a field made of any number of markers and nothing else strips to nothing and becomes `-1` |
| Fields.MarkerExample | download.py:133-136 | `A:12` is cleaned to `12` |
| Fields.TwoMarkersExample | download.py:133-136 | `A:B:7` is cleaned to `7`: every marker found is removed |
| Fields.CommaExample | download.py:137-138 | `12,5` is cleaned to `12.5` |
| Fields.SentinelAndNonMarkerExample | download.py:133-140 | the empty field becomes `-1`; `H:3` is kept, since H is not a marker letter |
| Fields.StripIsSinglePass | download.py:133-136 | markers are removed in one pass over the original matches: `AB::` becomes `A:`, which still holds a marker |
| Fields.NormalizeField | download.py:131-141 | the per-field loop body equals the cleaning function `Normalize` |
| Ingest.IsZipName | download.py:115 | `re.match(r"^.*\.zip", f)`: `.zip` occurs in the name before any newline |
| Ingest.CsvStem | download.py:122 | `file.split('.csv')[0]`; `CsvStemSpec` states what it yields |
| Ingest.CsvStemSpec | download.py:122 | `file.split('.csv')[0]` is the longest prefix of the name before the first `.csv` |
| Ingest.CsvStemOfCode | download.py:122 | a code without a point, followed by `.csv`, has that code as its stem |
| Ingest.MemberStep | download.py:122-127 | one member: KeyError for an unknown region, other stems skipped, a member that is not a table of 64 fields raising SchemaMismatch, else its records appended; `MembersFoldSpec` states the loop |
| Ingest.MembersFold | download.py:121-127 | the member loop keeps the gathered records a table of 64 fields |
| Ingest.CollectRows | download.py:113-127 | the archive loop yields a table of 64 fields |
| Ingest.MatchingAppend | download.py:121-122 | selecting the members with a stem distributes over concatenation of member lists |
| Ingest.FlattenAppend | download.py:127 | concatenating the records distributes over concatenation of member lists |
| Ingest.AllWellFormedAppend | download.py:125-127 | the members of two lists are all tables of 64 fields exactly when those of each list are |
| Ingest.MembersFoldSpec | download.py:121-127 | over one archive: an unknown region raises KeyError at the first member; a known one appends the records of its members in order, or raises if one is not a table of 64 fields |
| Ingest.MembersFoldUnknown | download.py:122 | an unknown region raises at the first member, and an archive without members raises nothing |
| Ingest.MembersFoldKnown | download.py:121-127 | a known region appends exactly the records of the members with its stem, or raises SchemaMismatch |
| Ingest.CollectRowsSpec | download.py:113-127 | over the folder: the same characterisation over the members of all zip archives, in listing order |
| Ingest.MembersFoldFails | download.py:121-127 | once the member loop raises, later members do not matter |
| Ingest.CollectRowsFails | download.py:119-127 | once the archive loop raises, later archives do not matter |
| Ingest.ArchiveRaises | download.py:119-127 | the first member that raises decides the outcome of the whole parse |
| Ingest.ParseErrors | download.py:113-128 | the parse raises each of its three errors exactly in the stated cases; when it succeeds, the region is known and its records are the matching members' records in order |
| Ingest.FlattenEmpty | download.py:125-128 | well-formed members run out of records only when there are none |
| Ingest.Grid | download.py:128-141 | the region code put in front of each record, the transpose and the cleaning of every entry; `GridColumns` states its columns |
| Ingest.RawTable | download.py:143-144 | the header columns plus the region column under the region code; `RawTableLayout` states its keys and columns |
| Ingest.HeaderColumns | download.py:143 | the named table has one key per header, and header x holds column x + 1 |
| Ingest.TryCast | download.py:147-150 | `astype`: every entry converted, or ValueError (None) when one fails; text is kept as it is |
| Ingest.CastColumn | download.py:147-150 | a cast column, or the column unchanged when `astype` raises; `CastAllOrNothing` states it |
| Ingest.CastAll | download.py:146-150 | the cast loop keeps the table's keys |
| Ingest.CastAllAt | download.py:146-150 | after the loop, each header column is its own column cast to its type and every other column is unchanged |
| Ingest.CastAllOrNothing | download.py:147-150 | a column keeps its length; it is cast entry by entry when every entry converts, and left as text when the type is text or one entry fails |
| Ingest.FieldColumn | download.py:128-129 | the column of field x has one entry per record |
| Ingest.GridColumns | download.py:128-141 | after insert, transpose and cleaning, column 0 repeats the cleaned region code and column x + 1 is field x of every record, cleaned |
| Ingest.RawTableLayout | download.py:143-144 | before casting, the keys are the headers plus the region code, with the columns as `GridColumns` states |
| Ingest.Build | download.py:128-152 | the table built from gathered records: insert, transpose, clean, name, cast; `ParseOfRows` states its layout |
| Ingest.Parse | download.py:100-152 | `parse_region_data`: the gathered records, or the first error, or NoRecords when none was gathered; `ParseErrors` and `ParseLayout` state its properties |
| Ingest.ParseOfRows | download.py:128-152 | built from gathered records, the table has the layout described by `Layout` |
| Ingest.ParseLayout | download.py:100-152 | a successful parse has one key per header plus the region code, every column as long as the records, and each header column cast from its field as `CastAllOrNothing` says |
| Ingest.GatheredRegionIsKnown | download.py:122 | records are gathered only for a known region, whose code is not a header |
| Ingest.RegionCodesNormal | download.py:42-57 | cleaning leaves every region code unchanged |
| Cache.WellKeyedHasColumns | download.py:165-166 | the dictionary's keys include every header and `"region"` |
| Cache.Empty | download.py:165-166 | the starting dictionary has exactly the headers and `"region"` as keys, and all columns are empty |
| Cache.Requested | download.py:168-169 | with no argument, all 14 region codes are requested |
| Cache.MergeHeaders | download.py:182-183 | appending the header columns keeps the dictionary's keys |
| Cache.Merge | download.py:182-185 | appending one region's statistics keeps the dictionary's keys |
| Cache.Resolve | download.py:171-178 | the statistics a region's lookup yields: cached, else saved, else parsed; `StepResolves` and `RunIsMergeAll` use it as the reference |
| Cache.Fetch | download.py:171-180 | the lookup yields the statistics `Resolve` names; a region not cached but with a cache file enters the memory cache with the file's statistics; a region in neither store whose parse succeeds has that parse written to its cache file; the memory cache changes only when the region was not cached and is loaded from its cache file, which then enters the cache; the cache files change only when the region is in neither store and its parse succeeds, which is then written; a region without a cache file never enters the memory cache |
| Cache.Step | download.py:170-185 | one loop iteration keeps the dictionary keyed by the headers and `"region"` |
| Cache.Run | download.py:170-187 | the region loop keeps the dictionary keyed by the headers and `"region"` |
| Cache.MergeAll | download.py:170-187 | the reference merge keeps the same keys |
| Cache.MergeHeadersSucceeds | download.py:182-183 | the header loop succeeds exactly when the statistics hold every header |
| Cache.MergeHeadersColumns | download.py:182-183 | on success, every header column grows by the region's column and other columns stay |
| Cache.MergeHeadersFirstMissing | download.py:182-183 | on failure, the KeyError names the first header the statistics lack |
| Cache.MergeHeadersFails | download.py:182-183 | once the header loop raises, later headers do not matter |
| Cache.MergeSpec | download.py:182-185 | appending succeeds exactly when every header and the region code are keys of the statistics; each header column and the `"region"` column then grow by the region's own columns; a failure is a KeyError |
| Cache.StepResolves | download.py:170-185 | one iteration appends the statistics that the cache, else the cache file, else a parse yields, and leaves stores that yield the same statistics |
| Cache.RunSnoc | download.py:170-185 | the outcome over one more region is one more iteration from the outcome so far |
| Cache.RunFails | download.py:170-187 | an exception ends `get_dict`: later regions do not matter |
| Cache.RunIsMergeAll | download.py:170-187 | caching is transparent: `get_dict` returns the reference merge against the stores it started with |
| Cache.RunCovers | download.py:156-180 | a call that returns leaves every requested region in the memory cache or with a cache file |
| Cache.StepCovers | download.py:171-180 | one region's lookup keeps every store entry, and when it returns the region is cached or has a cache file |
| Cache.RunStores | download.py:171-180 | old cache entries stay; a new cache entry is a requested region loaded from its cache file, which either existed at the start or was written by a parse at an earlier request of the same region (so the region was requested at least twice); old cache files stay; a new cache file is written only for a requested region found in neither store, and holds its parse |
| Cache.StepStores | download.py:171-180 | one iteration keeps the store relation of `RunStores` |
| Cache.LoadStores | download.py:173-176 | loading a cache file into the cache keeps that relation |
| Cache.ParseStores | download.py:177-180 | writing a parsed region's cache file keeps that relation |
| Cache.StoresGrow | download.py:170 | the relation still holds when more regions are requested |
| Cache.MergeAllCongruent | download.py:170-187 | stores that yield the same statistics give the same merge |
| Cache.CachedIsFresh | download.py:170-187 | when both stores hold only what parsing yields, `get_dict` returns what it would with no cache at all, and the stores stay that way |
| Cache.ResolveConsistent | download.py:171-178 | such stores yield exactly the parse |
| Cache.MergeAllColumns | download.py:165-187 | the merge succeeds exactly when every region's statistics hold all headers and their region code; header columns are then the regions' columns concatenated in request order, and `"region"` the regions' own columns |
| Cache.CompleteSnoc | download.py:182-185 | the merge condition over one more region splits into that region's part and the rest |
| Cache.ParsedFit | download.py:100-152 | parsed statistics hold every header and the region code, all columns as long as the gathered records |
| Cache.LayoutFit | download.py:143-152 | a table with that layout is fit for the merge |
| Cache.FitMerges | download.py:182-185 | fit statistics always merge, and every column grows by their length |
| Cache.ParseRaisesNoMissing | download.py:100-152 | a parse never raises a KeyError on a column |
| Cache.MergeAllAligned | download.py:165-187 | with consistent stores and fit parses, the merge never raises a KeyError on a missing column and all columns have the same length, the sum of the regions' record counts |
| Cache.MergedColumnsAligned | download.py:154-187 | over a data folder with consistent stores, the reference merge `MergeAll` never raises a KeyError on a missing column and every column's length is the total number of gathered records; it reaches `get_dict` through `RunIsMergeAll`, which equates the two |
| Downloader.GatherMembers | download.py:121-127 | the member loop returns what `MembersFold` returns |
| Downloader.NormalizeGrid | download.py:131-141 | every entry of the transposed array is replaced by its cleaned form, in place |
| Downloader.MergeInto | download.py:182-185 | the append loop returns what `Merge` returns |
| Downloader.DataDownloader.constructor | download.py:61-72 | a downloader over the given folder, cache and cache files |
| Downloader.DataDownloader.GatherRows | download.py:113-127 | the archive loop returns what `CollectRows` returns |
| Downloader.DataDownloader.ParseRegionData | download.py:100-152 | `parse_region_data`, built with a two-dimensional array, returns what `Parse` returns |
| Downloader.DataDownloader.CastColumns | download.py:146-150 | the cast loop returns what `CastAll` returns |
| Downloader.DataDownloader.FetchStats | download.py:171-180 | the lookup returns, and leaves the stores, as `Fetch` says |
| Downloader.DataDownloader.Visit | download.py:170-185 | one iteration returns, and leaves the stores, as `Step` says |
| Downloader.DataDownloader.GetDict | download.py:154-187 | `get_dict` returns, and leaves the cache and cache files, as `Run` says |
| Stat.Counts | get_stat.py:30-37 | the tally of a region has six entries |
| Stat.CountWhere | get_stat.py:29-35 | the number of rows with the region and the code; `CountPositive` and `CountsPartition` state its properties |
| Stat.CountCode | get_stat.py:29-35 | one count is the number of rows with the region and the code |
| Stat.Tally | get_stat.py:26-37 | one key per region value present; entry k of a region counts its rows whose `p24` is the k-th code of 1, 2, 3, 4, 5, 0 |
| Stat.CountPositive | get_stat.py:29-35 | a count is positive exactly when some row has that region and code |
| Stat.RowsPositive | get_stat.py:26-28 | a region has rows exactly when it occurs in the region column |
| Stat.CountsPartition | get_stat.py:29-37 | the six counts plus the rows with any other code make up the region's rows, so no row is counted twice |
| Stat.CountOtherZero | get_stat.py:29-37 | no row is left out exactly when every row of the region has one of the six codes |
| Stat.CountsBounded | get_stat.py:29-37 | the six counts sum to at most the region's rows, with equality exactly when all its rows have one of the six codes |
| Stat.TalliedSpec | get_stat.py:26-37 | the reference tally has an entry exactly for regions with rows, each holding the six counts |
| Stat.TallyIsTallied | get_stat.py:26-37 | any result meeting `Tally`'s contract is the reference tally |
| Stat.StrLess | get_stat.py:40 | Python's order on strings, as `list.sort` uses it; the next three lemmas state that it is a strict order |
| Stat.StrLessAsymmetric | get_stat.py:40 | string order never holds both ways |
| Stat.StrLessIrreflexive | get_stat.py:40 | no string is below itself |
| Stat.StrLessTransitive | get_stat.py:40 | string order is transitive |
| Stat.ChainSorted | get_stat.py:40 | neighbours in order make a sorted list |
| Stat.ChainBelow | get_stat.py:40 | an entry of a sorted prefix is below every later entry of it |
| Stat.TailMember | get_stat.py:40 | after a common head, two sorted lists of the same strings share their remaining strings |
| Stat.PlotRegionsSorted | get_stat.py:39-40 | `PlotRegions`, the value of `plot_regions`, holds the 14 region codes, strictly sorted |
| Stat.SortedUnique | get_stat.py:40 | a strictly sorted list is determined by its strings, so `plot_regions` is the only result the sort can give |
| Stat.FillTable | get_stat.py:43-45 | filling succeeds exactly when every sorted region has a tally; row i is then the tally of the i-th region; a failure names the first missing region |
| Stat.TableCompleteIff | get_stat.py:39-45 | the table from the tally is complete exactly when every region has rows in the data |
| Stat.RSplitOnce | get_stat.py:79 | `rsplit('/', 1)` gives one or two parts |
| Stat.RSplitOnceSpec | get_stat.py:79 | one part exactly when there is no `/`, and then the whole text; otherwise the text is first part, `/`, second part, with no `/` in the second |
| Stat.FigureDirectory | get_stat.py:79-81 | the directory `plot_stat` creates for the figure, if any; `FigureDirectorySpec` states it |
| Stat.FigureDirectorySpec | get_stat.py:79-81 | there is a directory exactly when the path holds a `/`, and it is the text before the last one |

## Left out

- `download_data` (download.py:76-97) is left out. It covers the HTTP session, the BeautifulSoup scan of the
  page and the file writes. The folder the parse reads is a parameter, `files`.
- The constructor's `url`, `folder` and `cache_filename` parameters and `os.mkdir` (download.py:61-74)
  are left out: they name places on disk. `DataDownloader.constructor` takes the folder contents and
  both stores instead.
- Opening the zip archives, decoding cp1250 and `csv.reader` splitting on `;` are left out. A member
  arrives as its name and its list of records.
- The gzip and pickle round trip of the cache files is left out. The cache files are a mutable map,
  `saved`, from region code to statistics. This assumes `cache_filename.format(region)` names
  different files for different regions.
- `cache` is a class attribute in the source, shared by every `DataDownloader` instance. The model
  gives each object its own `cache` field. Sharing between instances is not modelled.
- numpy's conversions are left out: `astype` to int8/int16/int32/float64/datetime64, and the overflow
  and parsing rules behind them. They are the parameter `cast`, which either yields a value or fails
  (ValueError). Casting to `np.str_` is the identity.
- Cache.Merge: models `np.concatenate` as plain concatenation of cells. It does not model numpy's dtype
  promotion when a text column meets a typed one.
- Ingest.MembersFold: does not model the shape of `np.array(list(reader))` for ragged or empty CSV text. Every
  member that is not a non-empty table of 64 fields raises SchemaMismatch.
- Ingest.IsZipName: models `re.match(r"^.*\.zip", f)` as "`.zip` occurs before any newline". It does not model
  the rest of the regular-expression engine.
- The marker alphabet is the one of download.py:133, the regular expression `[A-G]:`. `Fields.IsMarker`
  takes the letters A to G, so `H:` and `J:` are kept as text.
- Stat.Tally: takes the `region` and `p24` columns as sequences of texts and integers, already cast. It does
  not model the link to `get_dict`'s cells. It requires both columns to have the same length, as
  `get_dict`'s columns do.
- Stat.FillTable: requires six counts per region, as `Tally` produces. A tally of another length would make
  numpy raise, and that is not modelled.
- The floating-point part of `plot_stat` is left out: the relative percentages, min/max and NaN
  masking (get_stat.py:47-54). All matplotlib plotting (get_stat.py:56-76, 87-91) is left out too.
- `os.path.exists`, `os.makedirs` with its PermissionError message, and `plt.savefig`
  (get_stat.py:82-87) are left out. Only the directory name they receive is modelled, by
  `Stat.FigureDirectory`. An empty or absent `fig_location` skips the block; the empty string has
  no `/` and gives no directory.
- The argparse entry points of both files (download.py:190-198, get_stat.py:94-100) are left
  out as I/O.
- analysis.py, geo.py and doc.py are not part of this model. They are pandas, seaborn,
  geopandas and plotting pipelines.
