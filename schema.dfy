/**
 * The fixed tables of download.py: the 64 column names `headers`, the 65
 * entries of `headers_types`, and the `regions` table from region code to the
 * two-digit stem of the archive member that holds the region's records.
 */
module Schema {

  /** The numpy target types of `headers_types`. */
  datatype DType = Str | Int8 | Int16 | Int32 | Float64 | DateTime64

  /** `headers[i]`. */
  function Header(i: nat): string
    requires i < 64
  {
    match i
    case 0 => "p1"
    case 1 => "p36"
    case 2 => "p37"
    case 3 => "p2a"
    case 4 => "weekday(p2a)"
    case 5 => "p2b"
    case 6 => "p6"
    case 7 => "p7"
    case 8 => "p8"
    case 9 => "p9"
    case 10 => "p10"
    case 11 => "p11"
    case 12 => "p12"
    case 13 => "p13a"
    case 14 => "p13b"
    case 15 => "p13c"
    case 16 => "p14"
    case 17 => "p15"
    case 18 => "p16"
    case 19 => "p17"
    case 20 => "p18"
    case 21 => "p19"
    case 22 => "p20"
    case 23 => "p21"
    case 24 => "p22"
    case 25 => "p23"
    case 26 => "p24"
    case 27 => "p27"
    case 28 => "p28"
    case 29 => "p34"
    case 30 => "p35"
    case 31 => "p39"
    case 32 => "p44"
    case 33 => "p45a"
    case 34 => "p47"
    case 35 => "p48a"
    case 36 => "p49"
    case 37 => "p50a"
    case 38 => "p50b"
    case 39 => "p51"
    case 40 => "p52"
    case 41 => "p53"
    case 42 => "p55a"
    case 43 => "p57"
    case 44 => "p58"
    case 45 => "a"
    case 46 => "b"
    case 47 => "d"
    case 48 => "e"
    case 49 => "f"
    case 50 => "g"
    case 51 => "h"
    case 52 => "i"
    case 53 => "j"
    case 54 => "k"
    case 55 => "l"
    case 56 => "n"
    case 57 => "o"
    case 58 => "p"
    case 59 => "q"
    case 60 => "r"
    case 61 => "s"
    case 62 => "t"
    case 63 => "p5a"
  }

  /** `headers`: the names of the CSV columns, by position. */
  function Headers(): seq<string> {
    seq(64, i requires 0 <= i < 64 => Header(i))
  }

  /** `headers_types[i]`; the list has one entry more than `headers`. */
  function HeaderType(i: nat): DType
    requires i < 65
  {
    match i
    case 0 => Str
    case 1 => Int8
    case 2 => Int8
    case 3 => DateTime64
    case 4 => Int8
    case 5 => Str
    case 6 => Int8
    case 7 => Int8
    case 8 => Int8
    case 9 => Int8
    case 10 => Int8
    case 11 => Int8
    case 12 => Int16
    case 13 => Int8
    case 14 => Int8
    case 15 => Int8
    case 16 => Int16
    case 17 => Int8
    case 18 => Int8
    case 19 => Int32
    case 20 => Int8
    case 21 => Int8
    case 22 => Int8
    case 23 => Int8
    case 24 => Int8
    case 25 => Int8
    case 26 => Int8
    case 27 => Int8
    case 28 => Int8
    case 29 => Int8
    case 30 => Int8
    case 31 => Int8
    case 32 => Int8
    case 33 => Int8
    case 34 => Str
    case 35 => Int8
    case 36 => Int8
    case 37 => Int8
    case 38 => Int8
    case 39 => Int8
    case 40 => Int8
    case 41 => Int16
    case 42 => Int8
    case 43 => Int8
    case 44 => Int8
    case 45 => Float64
    case 46 => Float64
    case 47 => Float64
    case 48 => Float64
    case 49 => Float64
    case 50 => Float64
    case 51 => Str
    case 52 => Str
    case 53 => Str
    case 54 => Str
    case 55 => Str
    case 56 => Int32
    case 57 => Str
    case 58 => Str
    case 59 => Str
    case 60 => Int32
    case 61 => Int32
    case 62 => Str
    case 63 => Int8
    case 64 => Str
  }

  /** `headers_types`: paired with `headers` by index, so entry 64 is never used. */
  function HeaderTypes(): seq<DType> {
    seq(65, i requires 0 <= i < 65 => HeaderType(i))
  }

  /** `regions`: region code to the stem of its archive member. */
  const Regions: map<string, string> := map[
    "PHA" := "00", "STC" := "01", "JHC" := "02", "PLK" := "03", "ULK" := "04",
    "HKK" := "05", "JHM" := "06", "MSK" := "07", "OLK" := "14", "ZLK" := "15",
    "VYS" := "16", "PAK" := "17", "LBK" := "18", "KVK" := "19"]

  /** `regions.keys()`, in the order the table is written. */
  const RegionCodes: seq<string> :=
    ["PHA", "STC", "JHC", "PLK", "ULK", "HKK", "JHM", "MSK", "OLK", "ZLK", "VYS", "PAK", "LBK", "KVK"]

  /*
   * Distinctness of the 64 header names, and their difference from the region
   * codes and from "region", is proved through a numeric key rather than by
   * comparing all 2016 pairs of strings, which is far beyond what the solver
   * does in one step. `ShortKey` packs the length of a name and its first four
   * characters (0 past the end) into one number, base 256; no two headers
   * agree on these, so the integers `KeyPosition` tests are the 64 headers'
   * keys, listed by position. A header's key therefore leads back to its own
   * position (`KeyPositionOf`), and two headers with different positions have
   * different names. The lemmas `KeyPositionOf0` to `KeyPositionOf15` check
   * that lookup four positions at a time, which keeps each proof small.
   */

  /** The length of `s` and its first four characters, as one number. */
  function ShortKey(s: string): int {
    var c := (i: nat) => if i < |s| then s[i] as int else 0;
    (((|s| * 256 + c(0)) * 256 + c(1)) * 256 + c(2)) * 256 + c(3)
  }

  /** The position of the header whose short key is `k`, or -1 when there is none. */
  function KeyPosition(k: int): int {
    if k == 10472194048 then 0 else
    if k == 14767306240 then 1 else
    if k == 14767306496 then 2 else
    if k == 14767251712 then 3 else
    if k == 53542741355 then 4 else
    if k == 14767251968 then 5 else
    if k == 10472521728 then 6 else
    if k == 10472587264 then 7 else
    if k == 10472652800 then 8 else
    if k == 10472718336 then 9 else
    if k == 14767173632 then 10 else
    if k == 14767173888 then 11 else
    if k == 14767174144 then 12 else
    if k == 19062141793 then 13 else
    if k == 19062141794 then 14 else
    if k == 19062141795 then 15 else
    if k == 14767174656 then 16 else
    if k == 14767174912 then 17 else
    if k == 14767175168 then 18 else
    if k == 14767175424 then 19 else
    if k == 14767175680 then 20 else
    if k == 14767175936 then 21 else
    if k == 14767239168 then 22 else
    if k == 14767239424 then 23 else
    if k == 14767239680 then 24 else
    if k == 14767239936 then 25 else
    if k == 14767240192 then 26 else
    if k == 14767240960 then 27 else
    if k == 14767241216 then 28 else
    if k == 14767305728 then 29 else
    if k == 14767305984 then 30 else
    if k == 14767307008 then 31 else
    if k == 14767371264 then 32 else
    if k == 19062338913 then 33 else
    if k == 14767372032 then 34 else
    if k == 19062339681 then 35 else
    if k == 14767372544 then 36 else
    if k == 19062403169 then 37 else
    if k == 19062403170 then 38 else
    if k == 14767436032 then 39 else
    if k == 14767436288 then 40 else
    if k == 14767436544 then 41 else
    if k == 19062404449 then 42 else
    if k == 14767437568 then 43 else
    if k == 14767437824 then 44 else
    if k == 5922357248 then 45 else
    if k == 5939134464 then 46 else
    if k == 5972688896 then 47 else
    if k == 5989466112 then 48 else
    if k == 6006243328 then 49 else
    if k == 6023020544 then 50 else
    if k == 6039797760 then 51 else
    if k == 6056574976 then 52 else
    if k == 6073352192 then 53 else
    if k == 6090129408 then 54 else
    if k == 6106906624 then 55 else
    if k == 6140461056 then 56 else
    if k == 6157238272 then 57 else
    if k == 6174015488 then 58 else
    if k == 6190792704 then 59 else
    if k == 6207569920 then 60 else
    if k == 6224347136 then 61 else
    if k == 6241124352 then 62 else
    if k == 14767448320 then 63 else
    -1
  }

  lemma KeyPositionOf0(i: nat)
    requires 0 <= i < 4
    ensures KeyPosition(ShortKey(Header(i))) == i
  {
    if i == 0 { } else if i == 1 { } else if i == 2 { } else if i == 3 { }
  }

  lemma KeyPositionOf1(i: nat)
    requires 4 <= i < 8
    ensures KeyPosition(ShortKey(Header(i))) == i
  {
    if i == 4 { } else if i == 5 { } else if i == 6 { } else if i == 7 { }
  }

  lemma KeyPositionOf2(i: nat)
    requires 8 <= i < 12
    ensures KeyPosition(ShortKey(Header(i))) == i
  {
    if i == 8 { } else if i == 9 { } else if i == 10 { } else if i == 11 { }
  }

  lemma KeyPositionOf3(i: nat)
    requires 12 <= i < 16
    ensures KeyPosition(ShortKey(Header(i))) == i
  {
    if i == 12 { } else if i == 13 { } else if i == 14 { } else if i == 15 { }
  }

  lemma KeyPositionOf4(i: nat)
    requires 16 <= i < 20
    ensures KeyPosition(ShortKey(Header(i))) == i
  {
    if i == 16 { } else if i == 17 { } else if i == 18 { } else if i == 19 { }
  }

  lemma KeyPositionOf5(i: nat)
    requires 20 <= i < 24
    ensures KeyPosition(ShortKey(Header(i))) == i
  {
    if i == 20 { } else if i == 21 { } else if i == 22 { } else if i == 23 { }
  }

  lemma KeyPositionOf6(i: nat)
    requires 24 <= i < 28
    ensures KeyPosition(ShortKey(Header(i))) == i
  {
    if i == 24 { } else if i == 25 { } else if i == 26 { } else if i == 27 { }
  }

  lemma KeyPositionOf7(i: nat)
    requires 28 <= i < 32
    ensures KeyPosition(ShortKey(Header(i))) == i
  {
    if i == 28 { } else if i == 29 { } else if i == 30 { } else if i == 31 { }
  }

  lemma KeyPositionOf8(i: nat)
    requires 32 <= i < 36
    ensures KeyPosition(ShortKey(Header(i))) == i
  {
    if i == 32 { } else if i == 33 { } else if i == 34 { } else if i == 35 { }
  }

  lemma KeyPositionOf9(i: nat)
    requires 36 <= i < 40
    ensures KeyPosition(ShortKey(Header(i))) == i
  {
    if i == 36 { } else if i == 37 { } else if i == 38 { } else if i == 39 { }
  }

  lemma KeyPositionOf10(i: nat)
    requires 40 <= i < 44
    ensures KeyPosition(ShortKey(Header(i))) == i
  {
    if i == 40 { } else if i == 41 { } else if i == 42 { } else if i == 43 { }
  }

  lemma KeyPositionOf11(i: nat)
    requires 44 <= i < 48
    ensures KeyPosition(ShortKey(Header(i))) == i
  {
    if i == 44 { } else if i == 45 { } else if i == 46 { } else if i == 47 { }
  }

  lemma KeyPositionOf12(i: nat)
    requires 48 <= i < 52
    ensures KeyPosition(ShortKey(Header(i))) == i
  {
    if i == 48 { } else if i == 49 { } else if i == 50 { } else if i == 51 { }
  }

  lemma KeyPositionOf13(i: nat)
    requires 52 <= i < 56
    ensures KeyPosition(ShortKey(Header(i))) == i
  {
    if i == 52 { } else if i == 53 { } else if i == 54 { } else if i == 55 { }
  }

  lemma KeyPositionOf14(i: nat)
    requires 56 <= i < 60
    ensures KeyPosition(ShortKey(Header(i))) == i
  {
    if i == 56 { } else if i == 57 { } else if i == 58 { } else if i == 59 { }
  }

  lemma KeyPositionOf15(i: nat)
    requires 60 <= i < 64
    ensures KeyPosition(ShortKey(Header(i))) == i
  {
    if i == 60 { } else if i == 61 { } else if i == 62 { } else if i == 63 { }
  }

  /** Short keys, hence header names, tell the 64 positions apart. */
  lemma KeyPositionOf(i: nat)
    requires i < 64
    ensures KeyPosition(ShortKey(Headers()[i])) == i
  {
    if i < 4 {
      KeyPositionOf0(i);
    } else if i < 8 {
      KeyPositionOf1(i);
    } else if i < 12 {
      KeyPositionOf2(i);
    } else if i < 16 {
      KeyPositionOf3(i);
    } else if i < 20 {
      KeyPositionOf4(i);
    } else if i < 24 {
      KeyPositionOf5(i);
    } else if i < 28 {
      KeyPositionOf6(i);
    } else if i < 32 {
      KeyPositionOf7(i);
    } else if i < 36 {
      KeyPositionOf8(i);
    } else if i < 40 {
      KeyPositionOf9(i);
    } else if i < 44 {
      KeyPositionOf10(i);
    } else if i < 48 {
      KeyPositionOf11(i);
    } else if i < 52 {
      KeyPositionOf12(i);
    } else if i < 56 {
      KeyPositionOf13(i);
    } else if i < 60 {
      KeyPositionOf14(i);
    } else {
      KeyPositionOf15(i);
    }
  }

  /** No two columns share a name, so each name keys exactly one column. */
  lemma HeadersDistinct()
    ensures forall i, j :: 0 <= i < j < |Headers()| ==> Headers()[i] != Headers()[j]
  {
    forall i | 0 <= i < |Headers()| ensures KeyPosition(ShortKey(Headers()[i])) == i {
      KeyPositionOf(i);
    }
  }

  /** 64 names, 65 types: the pairing by index never reaches the last type. */
  lemma SchemaShape()
    ensures |Headers()| == 64 && |HeaderTypes()| == 65
    ensures |HeaderTypes()| == |Headers()| + 1 && HeaderTypes()[64] == Str
    ensures Headers()[26] == "p24" && HeaderTypes()[26] == Int8
  {
  }

  /** The position of a region code in `RegionCodes`, or -1 for any other text. */
  function RegionIndex(r: string): int {
    if r == "PHA" then 0 else if r == "STC" then 1 else if r == "JHC" then 2 else
    if r == "PLK" then 3 else if r == "ULK" then 4 else if r == "HKK" then 5 else
    if r == "JHM" then 6 else if r == "MSK" then 7 else if r == "OLK" then 8 else
    if r == "ZLK" then 9 else if r == "VYS" then 10 else if r == "PAK" then 11 else
    if r == "LBK" then 12 else if r == "KVK" then 13 else -1
  }

  /** Entries of a list without repeats are as many as its elements. */
  lemma {:induction false} DistinctCard(xs: seq<string>)
    requires forall i, j :: 0 <= i < j < |xs| ==> xs[i] != xs[j]
    ensures |set x | x in xs| == |xs|
    decreases |xs|
  {
    if xs != [] {
      var init := xs[..|xs| - 1];
      DistinctCard(init);
      assert (set x | x in xs) == (set x | x in init) + {xs[|xs| - 1]} by {
        assert xs == init + [xs[|xs| - 1]];
      }
      assert xs[|xs| - 1] !in init;
    }
  }

  /** `RegionCodes` lists no code twice. */
  lemma RegionCodesDistinct()
    ensures forall i, j :: 0 <= i < j < |RegionCodes| ==> RegionCodes[i] != RegionCodes[j]
  {
    forall i | 0 <= i < |RegionCodes| ensures RegionIndex(RegionCodes[i]) == i {
      if i < 7 {
        RegionIndexLow(i);
      } else {
        RegionIndexHigh(i);
      }
    }
  }

  /** The first seven codes lead back to their positions. */
  lemma RegionIndexLow(i: nat)
    requires i < 7
    ensures RegionIndex(RegionCodes[i]) == i
  {
    if i == 0 { } else if i == 1 { } else if i == 2 { } else if i == 3 { }
    else if i == 4 { } else if i == 5 { } else { }
  }

  /** The last seven codes lead back to their positions. */
  lemma RegionIndexHigh(i: nat)
    requires 7 <= i < 14
    ensures RegionIndex(RegionCodes[i]) == i
  {
    if i == 7 { } else if i == 8 { } else if i == 9 { } else if i == 10 { }
    else if i == 11 { } else if i == 12 { } else { }
  }

  /** The region table has 14 entries, listed once each by `RegionCodes`. */
  lemma RegionTable()
    ensures |RegionCodes| == 14 && |Regions| == 14
    ensures forall i, j :: 0 <= i < j < |RegionCodes| ==> RegionCodes[i] != RegionCodes[j]
    ensures forall r :: r in Regions <==> r in RegionCodes
    ensures forall r :: r in Regions ==> |Regions[r]| == 2
  {
    RegionCodesDistinct();
    RegionCount();
    RegionStems();
  }

  /** The codes of `RegionCodes` are the keys of the table, each with a two-character stem. */
  lemma RegionStems()
    ensures forall r :: r in Regions <==> r in RegionCodes
    ensures forall r :: r in Regions ==> |Regions[r]| == 2
  {
  }

  /** The region table has as many entries as `RegionCodes`. */
  lemma RegionCount()
    ensures |Regions| == |RegionCodes|
  {
    RegionCodesDistinct();
    RegionKeys();
    DistinctCard(RegionCodes);
    assert |Regions| == |Regions.Keys|;
  }

  /** The keys of the region table are the codes `RegionCodes` lists. */
  lemma RegionKeys()
    ensures Regions.Keys == set r | r in RegionCodes
  {
  }

  /** No region code is also a column name. */
  lemma RegionsAreNotHeaders()
    ensures forall r, x :: r in Regions && 0 <= x < |Headers()| ==> Headers()[x] != r
  {
    forall r | r in Regions ensures KeyPosition(ShortKey(r)) == -1 { }
    forall x | 0 <= x < |Headers()| ensures KeyPosition(ShortKey(Headers()[x])) == x {
      KeyPositionOf(x);
    }
  }

  /** The key `get_dict` uses for the region column is not a column name. */
  lemma RegionKeyIsNotHeader()
    ensures "region" !in Headers()
  {
    assert KeyPosition(ShortKey("region")) == -1;
    forall x | 0 <= x < |Headers()| ensures KeyPosition(ShortKey(Headers()[x])) == x {
      KeyPositionOf(x);
    }
  }
}
