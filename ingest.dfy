/**
 * What `DataDownloader.parse_region_data` (download.py) computes, as functions:
 * the records of the matching archive members, the region column put in front,
 * the table transposed into columns, every field normalised, the columns named
 * by `headers`, and each named column cast to its `headers_types` entry or left
 * as text.
 */
module Ingest {
  import opened Wrappers
  import opened Fields
  import opened Schema

  /** A CSV record: its semicolon-separated fields as the reader yields them. */
  type Row = seq<string>

  /** A member of a zip archive: its name and the records of its CSV text. */
  datatype Member = Member(name: string, rows: seq<Row>)

  /** An entry of the data folder: its file name and, for a zip archive, its members in `namelist()` order. */
  datatype Archive = Archive(name: string, members: seq<Member>)

  /** The exceptions that parsing and merging raise. */
  datatype Error =
    | UnknownRegion               // KeyError at `self.regions[region]`
    | SchemaMismatch              // np.concatenate meets a member that is not a table of 64 columns
    | NoRecords                   // ValueError at np.insert: the region text into the empty float array
    | MissingColumn(key: string)  // KeyError at `stats[header]` or `stats[region]` in get_dict

  /** A cell of a column: still text, or the value that casting produced. */
  datatype Cell<V> = Text(s: string) | Val(v: V)

  type Column<V> = seq<Cell<V>>

  /** The dictionary from column name to column. */
  type Table<V> = map<string, Column<V>>

  /** numpy's conversion of one text to a target type; None where it raises ValueError. */
  type Caster<V> = (DType, string) -> Option<V>

  /** `re.match(r"^.*\.zip", f)` succeeds: ".zip" occurs, with no line break before it. */
  predicate IsZipName(f: string)
    decreases |f|
  {
    |f| >= 4 && (f[..4] == ".zip" || (f[0] != '\n' && IsZipName(f[1..])))
  }

  /** An occurrence of ".csv" starts at position `i` of `s`. */
  predicate CsvAt(s: string, i: nat) {
    i + 4 <= |s| && s[i..i + 4] == ".csv"
  }

  /** `name.split('.csv')[0]`: the part of `name` before its first ".csv". */
  function CsvStem(name: string): string
    decreases |name|
  {
    if |name| < 4 then name
    else if name[..4] == ".csv" then ""
    else [name[0]] + CsvStem(name[1..])
  }

  /** The stem is the longest prefix of `name` in which no ".csv" starts. */
  lemma {:induction false} CsvStemSpec(name: string)
    ensures var stem := CsvStem(name);
      && |stem| <= |name| && name[..|stem|] == stem
      && (forall i: nat :: i < |stem| ==> !CsvAt(name, i))
      && (|stem| < |name| ==> CsvAt(name, |stem|))
    decreases |name|
  {
    if |name| < 4 {
    } else if name[..4] == ".csv" {
      assert name[0..4] == name[..4];
    } else {
      CsvStemSpec(name[1..]);
      var rest := CsvStem(name[1..]);
      forall i: nat | i < |rest| + 1 ensures !CsvAt(name, i) {
        if i == 0 {
          assert name[0..4] == name[..4];
        } else {
          assert !CsvAt(name[1..], i - 1);
          if i + 4 <= |name| {
            assert name[i..i + 4] == name[1..][i - 1..i + 3];
          }
        }
      }
      if |rest| < |name[1..]| {
        assert name[|rest| + 1..|rest| + 5] == name[1..][|rest|..|rest| + 4];
      }
    }
  }

  /** The usual member name "<code>.csv", or the bare code, selects the code's member. */
  lemma {:induction false} CsvStemOfCode(code: string, rest: string)
    requires '.' !in code
    ensures CsvStem(code + ".csv" + rest) == code
    ensures |code| < 4 ==> CsvStem(code) == code
    decreases |code|
  {
    var name := code + ".csv" + rest;
    if code == [] {
      assert name[..4] == ".csv";
    } else {
      assert name[0] == code[0] != '.';
      assert name[1..] == code[1..] + ".csv" + rest;
      CsvStemOfCode(code[1..], rest);
      assert [code[0]] + code[1..] == code;
    }
  }

  /** A member can be concatenated to the 64-column table: it has records, all of 64 fields. */
  predicate WellFormed(rows: seq<Row>) {
    |rows| > 0 && forall j :: 0 <= j < |rows| ==> |rows[j]| == |Headers()|
  }

  /** Every record has the 64 fields of the schema. */
  predicate Rectangular(rows: seq<Row>) {
    forall j :: 0 <= j < |rows| ==> |rows[j]| == |Headers()|
  }

  /**
   * The body of the member loop: the region is looked up for every member, and a
   * member whose stem is the region's code has its records appended.
   */
  function MemberStep(acc: seq<Row>, m: Member, region: string): Result<seq<Row>, Error> {
    if region !in Regions then Failure(UnknownRegion)
    else if Regions[region] != CsvStem(m.name) then Success(acc)
    else if !WellFormed(m.rows) then Failure(SchemaMismatch)
    else Success(acc + m.rows)
  }

  /** The member loop over one archive, starting from the records gathered so far. */
  function MembersFold(acc: seq<Row>, ms: seq<Member>, region: string): (r: Result<seq<Row>, Error>)
    ensures Rectangular(acc) && r.Success? ==> Rectangular(r.value)
    decreases |ms|
  {
    if ms == [] then Success(acc)
    else match MembersFold(acc, ms[..|ms| - 1], region)
      case Failure(e) => Failure(e)
      case Success(rows) => MemberStep(rows, ms[|ms| - 1], region)
  }

  /** The archive loop: the zip files of the folder, in listing order. */
  function CollectRows(files: seq<Archive>, region: string): (r: Result<seq<Row>, Error>)
    ensures r.Success? ==> Rectangular(r.value)
    decreases |files|
  {
    if files == [] then Success([])
    else match CollectRows(files[..|files| - 1], region)
      case Failure(e) => Failure(e)
      case Success(rows) =>
        var a := files[|files| - 1];
        if IsZipName(a.name) then MembersFold(rows, a.members, region) else Success(rows)
  }

  /** The members of all zip archives, in listing order. */
  function ZipMembers(files: seq<Archive>): seq<Member>
    decreases |files|
  {
    if files == [] then []
    else
      var a := files[|files| - 1];
      ZipMembers(files[..|files| - 1]) + (if IsZipName(a.name) then a.members else [])
  }

  /** The members whose stem is `code`, in order. */
  function Matching(ms: seq<Member>, code: string): seq<Member>
    decreases |ms|
  {
    if ms == [] then []
    else
      var m := ms[|ms| - 1];
      Matching(ms[..|ms| - 1], code) + (if CsvStem(m.name) == code then [m] else [])
  }

  /** The records of the members, one member after another. */
  function Flatten(ms: seq<Member>): seq<Row>
    decreases |ms|
  {
    if ms == [] then [] else Flatten(ms[..|ms| - 1]) + ms[|ms| - 1].rows
  }

  predicate AllWellFormed(ms: seq<Member>) {
    forall k :: 0 <= k < |ms| ==> WellFormed(ms[k].rows)
  }

  /**
   * The transposed, normalised table: column 0 holds the region code and
   * column x + 1 holds field x of every record.
   */
  function Grid(region: string, rows: seq<Row>): (g: seq<seq<string>>)
    requires Rectangular(rows)
  {
    seq(|Headers()| + 1, i requires 0 <= i <= |Headers()| =>
      seq(|rows|, j requires 0 <= j < |rows| => Normalize(([region] + rows[j])[i])))
  }

  /** A column of texts. */
  function Texts<V>(col: seq<string>): Column<V> {
    seq(|col|, j requires 0 <= j < |col| => Text(col[j]))
  }

  /** The dictionary comprehension: `headers[x]` names column x + 1. */
  function HeaderColumns<V>(grid: seq<seq<string>>): (t: Table<V>)
    requires |grid| == |Headers()| + 1
    ensures forall h :: h in t <==> h in Headers()
    ensures forall x :: 0 <= x < |Headers()| ==> t[Headers()[x]] == Texts(grid[x + 1])
  {
    HeadersDistinct();
    map x | 0 <= x < |Headers()| :: Headers()[x] := Texts(grid[x + 1])
  }

  /** The dictionary before casting: the header columns, and the region column under the region code. */
  function RawTable<V>(region: string, grid: seq<seq<string>>): Table<V>
    requires |grid| == |Headers()| + 1
  {
    HeaderColumns(grid)[region := Texts(grid[0])]
  }

  /** `column.astype(t)`: None when some text does not convert (ValueError). */
  function TryCast<V>(cast: Caster<V>, t: DType, col: Column<V>): Option<Column<V>> {
    if t == Str then Some(col)
    else if forall j :: 0 <= j < |col| ==> col[j].Text? && cast(t, col[j].s).Some? then
      Some(seq(|col|, j requires 0 <= j < |col| && col[j].Text? && cast(t, col[j].s).Some? =>
        Val(cast(t, col[j].s).value)))
    else None
  }

  /** `try: result[h] = result[h].astype(t) except ValueError: pass`. */
  function CastColumn<V>(cast: Caster<V>, t: DType, col: Column<V>): Column<V> {
    TryCast(cast, t, col).GetOr(col)
  }

  /** The cast loop over the first `k` headers. */
  function CastAll<V>(cast: Caster<V>, t: Table<V>, k: nat): (r: Table<V>)
    requires k <= |Headers()| && forall x :: 0 <= x < k ==> Headers()[x] in t
    ensures r.Keys == t.Keys
  {
    if k == 0 then t
    else
      var u := CastAll(cast, t, k - 1);
      u[Headers()[k - 1] := CastColumn(cast, HeaderTypes()[k - 1], u[Headers()[k - 1]])]
  }

  /** `parse_region_data` for `region` over the data folder `files`. */
  function Parse<V>(files: seq<Archive>, cast: Caster<V>, region: string): Result<Table<V>, Error> {
    match CollectRows(files, region)
    case Failure(e) => Failure(e)
    case Success(rows) => if rows == [] then Failure(NoRecords) else Success(Build(cast, region, rows))
  }

  /** The table built from the gathered records: insert, transpose, normalise, name and cast. */
  function Build<V>(cast: Caster<V>, region: string, rows: seq<Row>): Table<V>
    requires Rectangular(rows)
  {
    CastAll(cast, RawTable(region, Grid(region, rows)), |Headers()|)
  }

  lemma {:induction false} MatchingAppend(a: seq<Member>, b: seq<Member>, code: string)
    ensures Matching(a + b, code) == Matching(a, code) + Matching(b, code)
    decreases |b|
  {
    if b == [] {
      assert a + b == a;
    } else {
      var b', m := b[..|b| - 1], b[|b| - 1];
      MatchingAppend(a, b', code);
      assert (a + b)[..|a + b| - 1] == a + b';
      assert (a + b)[|a + b| - 1] == m;
      var tail := if CsvStem(m.name) == code then [m] else [];
      assert Matching(a + b, code) == Matching(a + b', code) + tail;
      assert Matching(b, code) == Matching(b', code) + tail;
      assert Matching(a, code) + Matching(b', code) + tail == Matching(a, code) + (Matching(b', code) + tail);
    }
  }

  lemma {:induction false} FlattenAppend(a: seq<Member>, b: seq<Member>)
    ensures Flatten(a + b) == Flatten(a) + Flatten(b)
    decreases |b|
  {
    if b == [] {
      assert a + b == a;
    } else {
      var b', m := b[..|b| - 1], b[|b| - 1];
      FlattenAppend(a, b');
      assert (a + b)[..|a + b| - 1] == a + b';
      assert (a + b)[|a + b| - 1] == m;
      assert Flatten(a + b) == Flatten(a + b') + m.rows;
      assert Flatten(b) == Flatten(b') + m.rows;
      assert Flatten(a) + Flatten(b') + m.rows == Flatten(a) + (Flatten(b') + m.rows);
    }
  }

  lemma AllWellFormedAppend(a: seq<Member>, b: seq<Member>)
    ensures AllWellFormed(a + b) <==> AllWellFormed(a) && AllWellFormed(b)
  {
    assert forall k :: 0 <= k < |a| ==> (a + b)[k] == a[k];
    assert forall k :: 0 <= k < |b| ==> (a + b)[|a| + k] == b[k];
  }

  /**
   * The member loop over one archive: an unknown region fails as soon as there is
   * a member; a known one appends the records of the members with the region's
   * code as stem, and fails when one of them is not a 64-column table.
   */
  lemma MembersFoldSpec(acc: seq<Row>, ms: seq<Member>, region: string)
    ensures region !in Regions ==>
      MembersFold(acc, ms, region) == if ms == [] then Success(acc) else Failure(UnknownRegion)
    ensures region in Regions ==>
      var mm := Matching(ms, Regions[region]);
      MembersFold(acc, ms, region) ==
        if AllWellFormed(mm) then Success(acc + Flatten(mm)) else Failure(SchemaMismatch)
  {
    if region in Regions {
      MembersFoldKnown(acc, ms, region);
    } else {
      MembersFoldUnknown(acc, ms, region);
    }
  }

  /** An unknown region code raises at the first member. */
  lemma {:induction false} MembersFoldUnknown(acc: seq<Row>, ms: seq<Member>, region: string)
    requires region !in Regions
    ensures MembersFold(acc, ms, region) == if ms == [] then Success(acc) else Failure(UnknownRegion)
    decreases |ms|
  {
    if ms != [] {
      MembersFoldUnknown(acc, ms[..|ms| - 1], region);
    }
  }

  /** A known region code gathers the records of the members with its stem. */
  lemma {:induction false} MembersFoldKnown(acc: seq<Row>, ms: seq<Member>, region: string)
    requires region in Regions
    ensures var mm := Matching(ms, Regions[region]);
      MembersFold(acc, ms, region) ==
        if AllWellFormed(mm) then Success(acc + Flatten(mm)) else Failure(SchemaMismatch)
    decreases |ms|
  {
    var code := Regions[region];
    if ms != [] {
      var p, m := ms[..|ms| - 1], ms[|ms| - 1];
      MembersFoldKnown(acc, p, region);
      var mp := Matching(p, code);
      if CsvStem(m.name) == code {
        var mm := mp + [m];
        assert Matching(ms, code) == mm;
        assert mm[..|mm| - 1] == mp;
        AllWellFormedAppend(mp, [m]);
        assert acc + Flatten(mp) + m.rows == acc + (Flatten(mp) + m.rows);
      } else {
        assert Matching(ms, code) == mp + [] == mp;
      }
    } else {
      assert acc + [] == acc;
    }
  }

  /**
   * The archive loop: the member loop run over the members of every zip archive
   * of the folder, in order, from no records.
   */
  lemma {:induction false} CollectRowsSpec(files: seq<Archive>, region: string)
    ensures region !in Regions ==>
      CollectRows(files, region) == if ZipMembers(files) == [] then Success([]) else Failure(UnknownRegion)
    ensures region in Regions ==>
      var mm := Matching(ZipMembers(files), Regions[region]);
      CollectRows(files, region) ==
        if AllWellFormed(mm) then Success(Flatten(mm)) else Failure(SchemaMismatch)
    decreases |files|
  {
    if files != [] {
      var p, a := files[..|files| - 1], files[|files| - 1];
      CollectRowsSpec(p, region);
      var ms := if IsZipName(a.name) then a.members else [];
      assert ZipMembers(files) == ZipMembers(p) + ms;
      if region in Regions {
        var code := Regions[region];
        var mp, ma := Matching(ZipMembers(p), code), Matching(ms, code);
        MatchingAppend(ZipMembers(p), ms, code);
        FlattenAppend(mp, ma);
        var mm := mp + ma;
        AllWellFormedAppend(mp, ma);
        if CollectRows(p, region).Success? && IsZipName(a.name) {
          MembersFoldSpec(Flatten(mp), a.members, region);
        } else if !IsZipName(a.name) {
          assert ma == [];
          assert mm == mp;
        }
      } else if CollectRows(p, region).Success? && IsZipName(a.name) {
        MembersFoldSpec([], a.members, region);
      }
    }
  }

  /** The member loop raises at most once: a prefix that raised decides the whole loop. */
  lemma {:induction false} MembersFoldFails(acc: seq<Row>, ms: seq<Member>, k: nat, region: string)
    requires k <= |ms| && MembersFold(acc, ms[..k], region).Failure?
    ensures MembersFold(acc, ms, region) == MembersFold(acc, ms[..k], region)
    decreases |ms|
  {
    if k < |ms| {
      var p := ms[..|ms| - 1];
      assert p[..k] == ms[..k];
      MembersFoldFails(acc, p, k, region);
    } else {
      assert ms[..k] == ms;
    }
  }

  /** The archive loop raises at most once: a prefix that raised decides the whole loop. */
  lemma {:induction false} CollectRowsFails(files: seq<Archive>, i: nat, region: string)
    requires i <= |files| && CollectRows(files[..i], region).Failure?
    ensures CollectRows(files, region) == CollectRows(files[..i], region)
    decreases |files|
  {
    if i < |files| {
      var p := files[..|files| - 1];
      assert p[..i] == files[..i];
      CollectRowsFails(p, i, region);
    } else {
      assert files[..i] == files;
    }
  }

  /**
   * When member `k` of zip archive `i` raises, after the earlier archives and
   * members gathered their records, the whole parse raises the same error.
   */
  lemma ArchiveRaises<V>(files: seq<Archive>, cast: Caster<V>, region: string, rows: seq<Row>, i: nat, k: nat)
    requires i < |files| && IsZipName(files[i].name) && k < |files[i].members|
    requires CollectRows(files[..i], region) == Success(rows)
    requires MembersFold(rows, files[i].members[..k], region).Success?
    requires MemberStep(MembersFold(rows, files[i].members[..k], region).value, files[i].members[k], region).Failure?
    ensures Parse(files, cast, region) ==
      Failure(MemberStep(MembersFold(rows, files[i].members[..k], region).value, files[i].members[k], region).error)
  {
    var ms := files[i].members;
    assert ms[..k + 1][..k] == ms[..k];
    MembersFoldFails(rows, ms, k + 1, region);
    assert files[..i + 1][..i] == files[..i];
    CollectRowsFails(files, i + 1, region);
  }

  /** Only the rows of the matching members of the zip archives are gathered, in order. */
  lemma ParseErrors<V>(files: seq<Archive>, cast: Caster<V>, region: string)
    ensures Parse(files, cast, region) == Failure(UnknownRegion) <==>
      region !in Regions && ZipMembers(files) != []
    ensures Parse(files, cast, region) == Failure(SchemaMismatch) <==>
      region in Regions && !AllWellFormed(Matching(ZipMembers(files), Regions[region]))
    ensures Parse(files, cast, region) == Failure(NoRecords) <==>
      if region in Regions then Matching(ZipMembers(files), Regions[region]) == [] else ZipMembers(files) == []
    ensures Parse(files, cast, region).Success? <==>
      CollectRows(files, region).Success? && CollectRows(files, region).value != []
    ensures Parse(files, cast, region).Success? ==>
      region in Regions && CollectRows(files, region).value == Flatten(Matching(ZipMembers(files), Regions[region]))
  {
    CollectRowsSpec(files, region);
    if region in Regions && AllWellFormed(Matching(ZipMembers(files), Regions[region])) {
      FlattenEmpty(Matching(ZipMembers(files), Regions[region]));
    }
  }

  /** Well-formed members always hold records: their records run out only when there are no members. */
  lemma FlattenEmpty(ms: seq<Member>)
    requires AllWellFormed(ms)
    ensures Flatten(ms) == [] <==> ms == []
  {
    if ms != [] {
      assert WellFormed(ms[|ms| - 1].rows);
    }
  }


  /** The cast loop casts the column of each of the first `k` headers once, and touches nothing else. */
  lemma {:induction false} CastAllAt<V>(cast: Caster<V>, t: Table<V>, k: nat)
    requires k <= |Headers()| && forall x :: 0 <= x < k ==> Headers()[x] in t
    ensures forall x :: 0 <= x < k ==>
      CastAll(cast, t, k)[Headers()[x]] == CastColumn(cast, HeaderTypes()[x], t[Headers()[x]])
    ensures forall h :: h in t && (forall x :: 0 <= x < k ==> Headers()[x] != h) ==>
      CastAll(cast, t, k)[h] == t[h]
  {
    if k > 0 {
      CastAllAt(cast, t, k - 1);
      HeadersDistinct();
    }
  }

  /**
   * Casting is all or nothing: every text converts and the column becomes the
   * converted values, or the column stays text; casting to str keeps the text.
   */
  lemma CastAllOrNothing<V>(cast: Caster<V>, t: DType, texts: seq<string>)
    ensures |CastColumn(cast, t, Texts<V>(texts))| == |texts|
    ensures t != Str && (forall j :: 0 <= j < |texts| ==> cast(t, texts[j]).Some?) ==>
      forall j :: 0 <= j < |texts| ==> CastColumn(cast, t, Texts<V>(texts))[j] == Val(cast(t, texts[j]).value)
    ensures (t == Str || exists j :: 0 <= j < |texts| && cast(t, texts[j]).None?) ==>
      CastColumn(cast, t, Texts<V>(texts)) == Texts(texts)
  {
    var col := Texts<V>(texts);
    assert forall j :: 0 <= j < |texts| ==> col[j].Text? && col[j].s == texts[j];
  }

  /** Field `x` of every record, normalised. */
  function FieldColumn(rows: seq<Row>, x: nat): (col: seq<string>)
    requires Rectangular(rows) && x < |Headers()|
    ensures |col| == |rows|
  {
    seq(|rows|, j requires 0 <= j < |rows| => Normalize(rows[j][x]))
  }

  /** The grid's column 0 repeats the normalised region code; column x + 1 is field x. */
  lemma GridColumns(region: string, rows: seq<Row>)
    requires Rectangular(rows)
    ensures Grid(region, rows)[0] == seq(|rows|, _ => Normalize(region))
    ensures forall x :: 0 <= x < |Headers()| ==> Grid(region, rows)[x + 1] == FieldColumn(rows, x)
  {
    var g := Grid(region, rows);
    forall x | 0 <= x < |Headers()| ensures g[x + 1] == FieldColumn(rows, x) {
      forall j | 0 <= j < |rows| ensures g[x + 1][j] == FieldColumn(rows, x)[j] {
        assert ([region] + rows[j])[x + 1] == rows[j][x];
      }
    }
  }

  /** The dictionary before casting, when the region code is not a header. */
  lemma RawTableLayout<V>(region: string, rows: seq<Row>)
    requires Rectangular(rows) && region !in Headers()
    ensures var raw := RawTable<V>(region, Grid(region, rows));
      && (forall h :: h in raw <==> h == region || h in Headers())
      && raw[region] == Texts(seq(|rows|, _ => Normalize(region)))
      && forall x :: 0 <= x < |Headers()| ==> raw[Headers()[x]] == Texts(FieldColumn(rows, x))
  {
    var g := Grid(region, rows);
    GridColumns(region, rows);
  }

  /**
   * The layout of a parsed region: one key per header plus the region code; the
   * header at x holds field x of every record, normalised and cast to its type;
   * the region key holds the normalised code once per record.
   */
  ghost predicate Layout<V>(cast: Caster<V>, region: string, rows: seq<Row>, t: Table<V>)
    requires Rectangular(rows)
  {
    && (forall h :: h in t <==> h == region || h in Headers())
    && (forall h :: h in t ==> |t[h]| == |rows|)
    && t[region] == Texts(seq(|rows|, _ => Normalize(region)))
    && forall x :: 0 <= x < |Headers()| ==>
         t[Headers()[x]] == CastColumn(cast, HeaderTypes()[x], Texts(FieldColumn(rows, x)))
  }

  /**
   * The layout of a parsed region: one key per header plus the region code; the
   * header at x holds field x of every gathered record, normalised and cast to
   * its type; the region key holds the normalised code once per record.
   */
  lemma ParseLayout<V>(files: seq<Archive>, cast: Caster<V>, region: string)
    requires Parse(files, cast, region).Success?
    ensures CollectRows(files, region).Success?
    ensures Layout(cast, region, CollectRows(files, region).value, Parse(files, cast, region).value)
  {
    var rows := CollectRows(files, region).value;
    assert Parse(files, cast, region).value == Build(cast, region, rows);
    GatheredRegionIsKnown(files, region);
    ParseOfRows(cast, region, rows);
  }

  /** Records are gathered only for a known region, whose code is not a header. */
  lemma GatheredRegionIsKnown(files: seq<Archive>, region: string)
    requires CollectRows(files, region).Success? && CollectRows(files, region).value != []
    ensures region in Regions && region !in Headers()
  {
    RegionsAreNotHeaders();
    CollectRowsSpec(files, region);
  }

  /** Parsing gathered records when the region code is not a header. */
  lemma ParseOfRows<V>(cast: Caster<V>, region: string, rows: seq<Row>)
    requires Rectangular(rows) && region !in Headers()
    ensures Layout(cast, region, rows, Build(cast, region, rows))
  {
    var raw := RawTable<V>(region, Grid(region, rows));
    RawTableLayout<V>(region, rows);
    CastAllAt(cast, raw, |Headers()|);
    var t := CastAll(cast, raw, |Headers()|);
    forall h | h in t ensures |t[h]| == |rows| {
      if h in Headers() {
        var x :| 0 <= x < |Headers()| && Headers()[x] == h;
        CastAllOrNothing(cast, HeaderTypes()[x], FieldColumn(rows, x));
      }
    }
  }

  /** An official region code is its own normal form, so the region column repeats the code. */
  lemma RegionCodesNormal()
    ensures forall r :: r in Regions ==> Normalize(r) == r
  {
    forall r | r in Regions ensures Normalize(r) == r {
      assert r != "" && ':' !in r && ',' !in r;
      forall i: nat | i < |r| ensures !MarkerAt(r, i) { }
      NormalizeUnchanged(r);
    }
  }
}
