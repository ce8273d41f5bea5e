/**
 * Per-field normalisation of a parsed record (download.py, the inner loop of
 * `parse_region_data`): annotation markers are stripped, decimal commas become
 * periods, and an empty field becomes the sentinel "-1".
 */
module Fields {

  /** A letter of the marker pattern `[A-G]:`: C is one of them, H and J are not. */
  predicate IsMarkerLetter(c: char) {
    'A' <= c <= 'G'
  }

  /** An annotation marker: a marker letter followed by a colon. */
  predicate IsMarker(m: string) {
    |m| == 2 && IsMarkerLetter(m[0]) && m[1] == ':'
  }

  /** A marker starts at position `i` of `s`. */
  predicate MarkerAt(s: string, i: nat) {
    i + 1 < |s| && IsMarkerLetter(s[i]) && s[i + 1] == ':'
  }

  /** No marker starts anywhere in `s`. */
  predicate NoMarker(s: string) {
    forall i: nat | i < |s| :: !MarkerAt(s, i)
  }

  /**
   * The matches of `[A-G]:` in `s`, left to right and without overlap, as
   * Python's `re.findall` returns them.
   */
  function FindMarkers(s: string): (ms: seq<string>)
    ensures forall k :: 0 <= k < |ms| ==> IsMarker(ms[k])
    ensures 2 * |ms| <= |s|
  {
    if |s| < 2 then []
    else if IsMarkerLetter(s[0]) && s[1] == ':' then [s[..2]] + FindMarkers(s[2..])
    else FindMarkers(s[1..])
  }

  /** `a` is `b` with some characters deleted: the rest keep their order. */
  predicate SubSeq(a: string, b: string)
    decreases |b|
  {
    a == [] || (b != [] && ((a[0] == b[0] && SubSeq(a[1..], b[1..])) || SubSeq(a, b[1..])))
  }

  /** The positions from `from` on whose flag is set, in ascending order. */
  function Positions(flags: seq<bool>, from: nat): seq<nat>
    decreases |flags| - from
  {
    if from >= |flags| then []
    else (if flags[from] then [from] else []) + Positions(flags, from + 1)
  }

  /** For each position of `s`, whether a marker starts there. */
  function MarkerFlags(s: string): (flags: seq<bool>)
    ensures |flags| == |s| && forall i :: 0 <= i < |s| ==> flags[i] == MarkerAt(s, i)
  {
    seq(|s|, i requires 0 <= i < |s| => MarkerAt(s, i))
  }

  /** The positions from `from` on where a marker starts, in ascending order. */
  function MarkerPositions(s: string, from: nat): seq<nat> {
    Positions(MarkerFlags(s), from)
  }

  /**
   * Python's `s.replace(pat, rep)`: every occurrence of `pat`, found left to
   * right without overlap, is replaced by `rep`.
   */
  function Replace(s: string, pat: string, rep: string): string
    requires pat != []
    decreases |s|
  {
    if |s| < |pat| then s
    else if s[..|pat|] == pat then rep + Replace(s[|pat|..], pat, rep)
    else [s[0]] + Replace(s[1..], pat, rep)
  }

  /**
   * The marker loop: each marker of `ms`, in order, has all its occurrences
   * removed from the string as it stands after the previous removals.
   */
  function RemoveEach(s: string, ms: seq<string>): string
    requires forall k :: 0 <= k < |ms| ==> ms[k] != []
    decreases |ms|
  {
    if ms == [] then s
    else Replace(RemoveEach(s, ms[..|ms| - 1]), ms[|ms| - 1], "")
  }

  /**
   * Marker stripping: the markers are those found in the ORIGINAL field, and
   * each is removed once, so a marker that a removal creates survives.
   */
  function StripMarkers(s: string): string {
    RemoveEach(s, FindMarkers(s))
  }

  /** The decimal-comma step: every ',' becomes '.'. */
  function DecimalPoint(s: string): string {
    if ',' in s then Replace(s, ",", ".") else s
  }

  /** The text a raw field holds after normalisation. */
  function Normalize(s: string): string {
    var t := DecimalPoint(StripMarkers(s));
    if t == "" then "-1" else t
  }

  /**
   * One step of the in-place loop of `parse_region_data`: `elem` is rewritten
   * by the strip, comma and sentinel stages in turn.
   */
  method NormalizeField(field: string) returns (elem: string)
    ensures elem == Normalize(field)
  {
    elem := field;
    var letters := FindMarkers(field);
    if letters != [] {
      for k := 0 to |letters|
        invariant elem == RemoveEach(field, letters[..k])
      {
        assert letters[..k + 1][..k] == letters[..k];
        elem := Replace(elem, letters[k], "");
      }
      assert letters[..|letters|] == letters;
    }
    if ',' in elem {
      elem := Replace(elem, ",", ".");
    }
    if elem == "" {
      elem := "-1";
    }
  }

  /** The marker search finds nothing exactly when no marker occurs. */
  lemma {:induction false} FindMarkersEmptyIff(s: string)
    ensures FindMarkers(s) == [] <==> NoMarker(s)
    decreases |s|
  {
    if |s| < 2 {
      forall i: nat | i < |s| ensures !MarkerAt(s, i) { }
    } else if IsMarkerLetter(s[0]) && s[1] == ':' {
      assert MarkerAt(s, 0);
    } else {
      FindMarkersEmptyIff(s[1..]);
      if NoMarker(s[1..]) {
        forall i: nat | i < |s| ensures !MarkerAt(s, i) {
          if i > 0 {
            assert MarkerAt(s, i) == MarkerAt(s[1..], i - 1);
          }
        }
      }
      if NoMarker(s) {
        forall i: nat | i < |s[1..]| ensures !MarkerAt(s[1..], i) {
          assert MarkerAt(s, i + 1) == MarkerAt(s[1..], i);
        }
      }
    }
  }

  /** `Positions` lists exactly the set flags from `from` on. */
  lemma {:induction false} PositionsSpec(flags: seq<bool>, from: nat)
    ensures forall i: nat :: i in Positions(flags, from) <==> from <= i < |flags| && flags[i]
    decreases |flags| - from
  {
    if from < |flags| {
      PositionsSpec(flags, from + 1);
      var rest := Positions(flags, from + 1);
      var head := if flags[from] then [from] else [];
      assert Positions(flags, from) == head + rest;
      forall i: nat ensures i in head + rest <==> i in head || i in rest { }
    }
  }

  /** Positions that are all at least `lo`, each below the next. */
  predicate AscendingFrom(ps: seq<nat>, lo: nat) {
    && (|ps| > 0 ==> lo <= ps[0])
    && forall a :: 0 <= a < |ps| - 1 ==> ps[a] < ps[a + 1]
  }

  /** In positions each below the next, every one is below all later ones. */
  lemma {:induction false} AscendingBelow(ps: seq<nat>, lo: nat, a: nat, b: nat)
    requires AscendingFrom(ps, lo) && a < b < |ps|
    ensures ps[a] < ps[b]
    decreases b - a
  {
    if a + 1 < b {
      AscendingBelow(ps, lo, a + 1, b);
    }
  }

  /** `Positions` from `from` on are at least `from`, each below the next. */
  lemma {:induction false} PositionsAscending(flags: seq<bool>, from: nat)
    ensures AscendingFrom(Positions(flags, from), from)
    decreases |flags| - from
  {
    if from < |flags| {
      PositionsAscending(flags, from + 1);
      var rest, ps := Positions(flags, from + 1), Positions(flags, from);
      if flags[from] {
        assert ps == [from] + rest;
        forall a | 0 <= a < |ps| - 1 ensures ps[a] < ps[a + 1] {
          assert ps[a + 1] == rest[a];
          if a > 0 {
            assert ps[a] == rest[a - 1];
          }
        }
      } else {
        assert ps == [] + rest == rest;
      }
    }
  }

  /** The marker positions are exactly the positions from `from` on where a marker starts. */
  lemma MarkerPositionsSpec(s: string, from: nat)
    ensures forall i: nat :: i in MarkerPositions(s, from) <==> from <= i && MarkerAt(s, i)
  {
    PositionsSpec(MarkerFlags(s), from);
  }

  /** Markers never overlap: the colon of a marker does not start another. */
  lemma MarkersApart(s: string, i: nat)
    requires MarkerAt(s, i)
    ensures MarkerPositions(s, i) == [i] + MarkerPositions(s, i + 2)
  {
    var flags := MarkerFlags(s);
    assert flags[i] && !flags[i + 1];
    assert Positions(flags, i + 1) == [] + Positions(flags, i + 2);
  }

  /** `ms` holds, in order, the two characters of `s` at each position of `ps`. */
  predicate TakenAt(ms: seq<string>, s: string, ps: seq<nat>) {
    && |ms| == |ps|
    && forall k :: 0 <= k < |ps| ==> ps[k] + 2 <= |s| && ms[k] == s[ps[k]..ps[k] + 2]
  }

  /** One more match in front, taken at one more position in front. */
  lemma TakenAtCons(s: string, p: nat, ms: seq<string>, ps: seq<nat>)
    requires TakenAt(ms, s, ps) && p + 2 <= |s|
    ensures TakenAt([s[p..p + 2]] + ms, s, [p] + ps)
  {
    var ms', ps' := [s[p..p + 2]] + ms, [p] + ps;
    assert forall k :: 1 <= k < |ps'| ==> ms'[k] == ms[k - 1] && ps'[k] == ps[k - 1];
  }

  /**
   * `re.findall` of `[A-G]:` on the suffix of `s` from `from`: one match per
   * marker position, each being the two characters there, in order.
   */
  lemma {:induction false} FindMarkersFrom(s: string, from: nat)
    requires from <= |s|
    ensures TakenAt(FindMarkers(s[from..]), s, MarkerPositions(s, from))
    decreases |s| - from
  {
    var t, flags := s[from..], MarkerFlags(s);
    if |t| < 2 {
      if from < |s| {
        assert !flags[from];
        assert Positions(flags, from) == [] + Positions(flags, from + 1);
      }
    } else if IsMarkerLetter(t[0]) && t[1] == ':' {
      assert MarkerAt(s, from);
      MarkersApart(s, from);
      assert t[2..] == s[from + 2..];
      assert t[..2] == s[from..from + 2];
      FindMarkersFrom(s, from + 2);
      assert FindMarkers(t) == [t[..2]] + FindMarkers(s[from + 2..]);
      TakenAtCons(s, from, FindMarkers(s[from + 2..]), MarkerPositions(s, from + 2));
    } else {
      assert !flags[from];
      assert Positions(flags, from) == [] + Positions(flags, from + 1);
      assert t[1..] == s[from + 1..];
      FindMarkersFrom(s, from + 1);
    }
  }

  /**
   * The matches of `[A-G]:` are all its occurrences: `FindMarkers` lists
   * `s[i..i + 2]` for every position `i` where a marker starts, in ascending
   * order of `i`, and nothing else.
   */
  lemma FindMarkersAll(s: string)
    ensures var ms, ps := FindMarkers(s), MarkerPositions(s, 0);
      && |ms| == |ps|
      && (forall i: nat :: i in ps <==> MarkerAt(s, i))
      && (forall a, b :: 0 <= a < b < |ps| ==> ps[a] < ps[b])
      && forall k :: 0 <= k < |ps| ==> ps[k] + 2 <= |s| && ms[k] == s[ps[k]..ps[k] + 2]
  {
    assert s[0..] == s;
    FindMarkersFrom(s, 0);
    MarkerPositionsSpec(s, 0);
    var ps := MarkerPositions(s, 0);
    PositionsAscending(MarkerFlags(s), 0);
    forall a, b | 0 <= a < b < |ps| ensures ps[a] < ps[b] {
      AscendingBelow(ps, 0, a, b);
    }
  }

  /** Every string is a subsequence of itself. */
  lemma {:induction false} SubSeqRefl(a: string)
    ensures SubSeq(a, a)
    decreases |a|
  {
    if a != [] {
      SubSeqRefl(a[1..]);
    }
  }

  /** A subsequence stays one when both gain the same first character. */
  lemma SubSeqCons(c: char, a: string, b: string)
    requires SubSeq(a, b)
    ensures SubSeq([c] + a, [c] + b)
  {
    assert ([c] + a)[1..] == a && ([c] + b)[1..] == b;
  }

  /** A subsequence stays one when the longer string gains a prefix. */
  lemma {:induction false} SubSeqPrefix(p: string, a: string, b: string)
    requires SubSeq(a, b)
    ensures SubSeq(a, p + b)
    decreases |p|
  {
    if p != [] {
      SubSeqPrefix(p[1..], a, b);
      assert (p + b)[1..] == p[1..] + b;
      assert SubSeq(a, (p + b)[1..]);
    } else {
      assert p + b == b;
    }
  }

  /** A subsequence of a subsequence is a subsequence. */
  lemma {:induction false} SubSeqTrans(a: string, b: string, c: string)
    requires SubSeq(a, b) && SubSeq(b, c)
    ensures SubSeq(a, c)
    decreases |c|
  {
    if a != [] && c != [] {
      if SubSeq(b, c[1..]) {
        SubSeqTrans(a, b, c[1..]);
      } else {
        assert b[0] == c[0] && SubSeq(b[1..], c[1..]);
        if a[0] == b[0] && SubSeq(a[1..], b[1..]) {
          SubSeqTrans(a[1..], b[1..], c[1..]);
        } else {
          SubSeqTrans(a, b[1..], c[1..]);
        }
      }
    }
  }

  /** Removing a pattern only deletes characters: none is added, altered or moved. */
  lemma {:induction false} RemoveOnlyDeletes(s: string, pat: string)
    requires pat != []
    ensures |Replace(s, pat, "")| <= |s|
    ensures multiset(Replace(s, pat, "")) <= multiset(s)
    ensures SubSeq(Replace(s, pat, ""), s)
    decreases |s|
  {
    if |s| < |pat| {
      SubSeqRefl(s);
    } else if s[..|pat|] == pat {
      RemoveOnlyDeletes(s[|pat|..], pat);
      assert s == s[..|pat|] + s[|pat|..];
      assert multiset(s) == multiset(s[..|pat|]) + multiset(s[|pat|..]);
      assert Replace(s, pat, "") == Replace(s[|pat|..], pat, "");
      SubSeqPrefix(s[..|pat|], Replace(s[|pat|..], pat, ""), s[|pat|..]);
    } else {
      RemoveOnlyDeletes(s[1..], pat);
      assert s == [s[0]] + s[1..];
      assert multiset(s) == multiset([s[0]]) + multiset(s[1..]);
      SubSeqCons(s[0], Replace(s[1..], pat, ""), s[1..]);
    }
  }

  /** Replacing one character by another keeps every other character in place. */
  lemma {:induction false} ReplaceCharPointwise(s: string, a: char, b: char)
    ensures |Replace(s, [a], [b])| == |s|
    ensures forall i :: 0 <= i < |s| ==> Replace(s, [a], [b])[i] == if s[i] == a then b else s[i]
    decreases |s|
  {
    if |s| >= 1 {
      ReplaceCharPointwise(s[1..], a, b);
      var rest := Replace(s[1..], [a], [b]);
      if s[..1] == [a] {
        assert Replace(s, [a], [b]) == [b] + rest;
      } else {
        assert Replace(s, [a], [b]) == [s[0]] + rest;
      }
    }
  }

  /** The two-character pattern `m` occurs at position `i` of `s`. */
  predicate OccursAt(s: string, m: string, i: int)
    requires |m| == 2
  {
    0 <= i && i + 1 < |s| && s[i] == m[0] && s[i + 1] == m[1]
  }

  /** The characters of `s` from `from` on that lie in no occurrence of `m`, in order. */
  function Outside(s: string, m: string, from: nat): string
    requires |m| == 2
    decreases |s| - from
  {
    if from >= |s| then []
    else (if OccursAt(s, m, from) || OccursAt(s, m, from - 1) then [] else [s[from]])
         + Outside(s, m, from + 1)
  }

  /** `ReplaceMarker`, from position `from` on, where no occurrence straddles `from`. */
  lemma {:induction false} ReplaceMarkerFrom(s: string, m: string, from: nat)
    requires IsMarker(m) && from <= |s| && !OccursAt(s, m, from - 1)
    ensures Replace(s[from..], m, "") == Outside(s, m, from)
    decreases |s| - from
  {
    var t := s[from..];
    if |t| < 2 {
      if from < |s| {
        assert Outside(s, m, from) == [s[from]] + Outside(s, m, from + 1);
      }
    } else if t[..2] == m {
      assert OccursAt(s, m, from);
      assert !OccursAt(s, m, from + 1);
      ReplaceMarkerFrom(s, m, from + 2);
      assert t[2..] == s[from + 2..];
      assert Outside(s, m, from) == Outside(s, m, from + 1) == Outside(s, m, from + 2);
    } else {
      assert t[..2][0] == s[from] && t[..2][1] == s[from + 1];
      assert !OccursAt(s, m, from);
      ReplaceMarkerFrom(s, m, from + 1);
      assert t[1..] == s[from + 1..];
    }
  }

  /**
   * Removing a marker deletes exactly its occurrences: the result is the
   * characters of the field that lie in no occurrence of the marker, in order.
   * A marker cannot overlap itself, so Python's left-to-right, non-overlapping
   * scan finds every occurrence.
   */
  lemma ReplaceMarker(s: string, m: string)
    requires IsMarker(m)
    ensures Replace(s, m, "") == Outside(s, m, 0)
  {
    ReplaceMarkerFrom(s, m, 0);
    assert s[0..] == s;
  }

  /** The marker loop, as a whole, only deletes characters, keeping the rest in order. */
  lemma {:induction false} RemoveEachOnlyDeletes(s: string, ms: seq<string>)
    requires forall k :: 0 <= k < |ms| ==> ms[k] != []
    ensures |RemoveEach(s, ms)| <= |s|
    ensures multiset(RemoveEach(s, ms)) <= multiset(s)
    ensures SubSeq(RemoveEach(s, ms), s)
    decreases |ms|
  {
    if ms == [] {
      SubSeqRefl(s);
    } else {
      var before := RemoveEach(s, ms[..|ms| - 1]);
      RemoveEachOnlyDeletes(s, ms[..|ms| - 1]);
      RemoveOnlyDeletes(before, ms[|ms| - 1]);
      SubSeqTrans(RemoveEach(s, ms), before, s);
    }
  }

  /** Stripping deletes characters only, and leaves a field without markers unchanged. */
  lemma StripMarkersSpec(s: string)
    ensures |StripMarkers(s)| <= |s|
    ensures multiset(StripMarkers(s)) <= multiset(s)
    ensures SubSeq(StripMarkers(s), s)
    ensures NoMarker(s) ==> StripMarkers(s) == s
  {
    RemoveEachOnlyDeletes(s, FindMarkers(s));
    FindMarkersEmptyIff(s);
  }

  /** The comma step maps ',' to '.' and nothing else, so no comma is left. */
  lemma DecimalPointSpec(s: string)
    ensures |DecimalPoint(s)| == |s|
    ensures forall i :: 0 <= i < |s| ==> DecimalPoint(s)[i] == if s[i] == ',' then '.' else s[i]
    ensures ',' !in DecimalPoint(s)
  {
    ReplaceCharPointwise(s, ',', '.');
    var r := DecimalPoint(s);
    assert forall i :: 0 <= i < |r| ==> r[i] != ',';
  }

  /**
   * A normalised field is never empty and holds no comma; it is "-1" when
   * nothing is left after stripping, and otherwise the stripped text with each
   * comma turned into a period.
   */
  lemma NormalizeSpec(s: string)
    ensures Normalize(s) != ""
    ensures ',' !in Normalize(s)
    ensures StripMarkers(s) == "" ==> Normalize(s) == "-1"
    ensures StripMarkers(s) != "" ==>
      var t := StripMarkers(s);
      |Normalize(s)| == |t| &&
      forall i :: 0 <= i < |t| ==> Normalize(s)[i] == if t[i] == ',' then '.' else t[i]
  {
    DecimalPointSpec(StripMarkers(s));
  }

  /** A non-empty field with no marker and no comma comes out unchanged. */
  lemma NormalizeUnchanged(s: string)
    requires s != "" && NoMarker(s) && ',' !in s
    ensures Normalize(s) == s
  {
    StripMarkersSpec(s);
    assert DecimalPoint(s) == s;
  }

  /** A marker on its own is found once and removed completely. */
  lemma MarkerAlone(m: string)
    requires IsMarker(m)
    ensures FindMarkers(m) == [m]
    ensures Replace(m, m, "") == ""
  {
    assert m[..2] == m && m[2..] == [];
  }

  /** The strings of `ms` written one after another. */
  function Concat(ms: seq<string>): string
    decreases |ms|
  {
    if ms == [] then [] else ms[0] + Concat(ms[1..])
  }

  /** The entries of `ms` that are not in `gone`, in order. */
  function Keep(ms: seq<string>, gone: set<string>): (r: seq<string>)
    ensures forall k :: 0 <= k < |r| ==> r[k] in ms && r[k] !in gone
    decreases |ms|
  {
    if ms == [] then []
    else (if ms[0] in gone then [] else [ms[0]]) + Keep(ms[1..], gone)
  }

  /** In a run of markers, every occurrence of the marker `m` is one whole entry of the run. */
  lemma {:induction false} ReplaceInMarkers(ns: seq<string>, m: string)
    requires IsMarker(m) && forall k :: 0 <= k < |ns| ==> IsMarker(ns[k])
    ensures Replace(Concat(ns), m, "") == Concat(Keep(ns, {m}))
    decreases |ns|
  {
    if ns != [] {
      var n, t := ns[0], Concat(ns[1..]);
      ReplaceInMarkers(ns[1..], m);
      assert Concat(ns) == n + t;
      assert (n + t)[..2] == n && (n + t)[2..] == t;
      assert ns == [n] + ns[1..];
      KeepAppend([n], ns[1..], {m});
      assert Keep([n], {m}) == if n == m then [] else [n];
      if n == m {
        assert Replace(n + t, m, "") == Replace(t, m, "");
        assert Keep(ns, {m}) == Keep(ns[1..], {m});
      } else {
        ConcatCons(n, Keep(ns[1..], {m}));
        ReplaceAfterOtherMarker(n, t, m);
      }
    }
  }

  /** A marker other than `m` in front of a text is kept whole by removing `m`. */
  lemma ReplaceAfterOtherMarker(n: string, t: string, m: string)
    requires IsMarker(n) && IsMarker(m) && n != m
    ensures Replace(n + t, m, "") == n + Replace(t, m, "")
  {
    assert (n + t)[..2] == n;
    assert (n + t)[1..] == [':'] + t;
    assert Replace(n + t, m, "") == [n[0]] + Replace([':'] + t, m, "");
    ReplaceAfterColon(t, m);
    assert [n[0]] + [':'] == n;
  }

  /** A colon never starts a marker, so removing a marker keeps it. */
  lemma ReplaceAfterColon(t: string, m: string)
    requires IsMarker(m)
    ensures Replace([':'] + t, m, "") == [':'] + Replace(t, m, "")
  {
    if |t| == 0 {
      assert Replace([':'], m, "") == [':'];
    } else {
      assert ([':'] + t)[..2] != m;
      assert ([':'] + t)[1..] == t;
    }
  }

  /** Writing out a run with one more entry in front. */
  lemma ConcatCons(n: string, ns: seq<string>)
    ensures Concat([n] + ns) == n + Concat(ns)
  {
    assert ([n] + ns)[1..] == ns;
  }

  /** Keeping nothing of a run whose entries are all gone. */
  lemma {:induction false} KeepNone(ms: seq<string>, gone: set<string>)
    requires forall k :: 0 <= k < |ms| ==> ms[k] in gone
    ensures Keep(ms, gone) == []
    decreases |ms|
  {
    if ms != [] {
      KeepNone(ms[1..], gone);
    }
  }

  /** Dropping `m` from the entries kept so far is keeping them without `m` as well. */
  lemma {:induction false} KeepMore(ms: seq<string>, gone: set<string>, m: string)
    ensures Keep(Keep(ms, gone), {m}) == Keep(ms, gone + {m})
    decreases |ms|
  {
    if ms != [] {
      KeepMore(ms[1..], gone, m);
      var head := if ms[0] in gone then [] else [ms[0]];
      assert Keep(ms, gone) == head + Keep(ms[1..], gone);
      KeepAppend(head, Keep(ms[1..], gone), {m});
    }
  }

  /** Keeping distributes over concatenation. */
  lemma {:induction false} KeepAppend(a: seq<string>, b: seq<string>, gone: set<string>)
    ensures Keep(a + b, gone) == Keep(a, gone) + Keep(b, gone)
    decreases |a|
  {
    if a != [] {
      KeepAppend(a[1..], b, gone);
      assert (a + b)[1..] == a[1..] + b;
    } else {
      assert a + b == b;
    }
  }

  /**
   * The marker loop over a run of markers removes exactly the entries equal
   * to one of the markers it is given, whole, and keeps the others in order.
   */
  lemma {:induction false} RemoveEachInMarkers(ms: seq<string>, ns: seq<string>)
    requires forall k :: 0 <= k < |ms| ==> IsMarker(ms[k])
    requires forall k :: 0 <= k < |ns| ==> IsMarker(ns[k])
    ensures (forall k :: 0 <= k < |ns| ==> ns[k] != []) &&
      RemoveEach(Concat(ms), ns) == Concat(Keep(ms, set n | n in ns))
    decreases |ns|
  {
    if ns == [] {
      KeepNothing(ms);
      assert (set n | n in ns) == {};
    } else {
      var init, m := ns[..|ns| - 1], ns[|ns| - 1];
      RemoveEachInMarkers(ms, init);
      var kept := Keep(ms, set n | n in init);
      ReplaceInMarkers(kept, m);
      KeepMore(ms, (set n | n in init), m);
      assert ns == init + [m];
      assert (set n | n in init) + {m} == set n | n in ns;
    }
  }

  /** Keeping with nothing gone keeps everything. */
  lemma {:induction false} KeepNothing(ms: seq<string>)
    ensures Keep(ms, {}) == ms
    decreases |ms|
  {
    if ms != [] {
      KeepNothing(ms[1..]);
    }
  }

  /** Every marker of a run of markers is found, in order. */
  lemma {:induction false} FindMarkersInMarkers(ms: seq<string>)
    requires forall k :: 0 <= k < |ms| ==> IsMarker(ms[k])
    ensures FindMarkers(Concat(ms)) == ms
    decreases |ms|
  {
    if ms != [] {
      FindMarkersInMarkers(ms[1..]);
      var c := Concat(ms);
      assert c == ms[0] + Concat(ms[1..]);
      assert c[..2] == ms[0] && c[2..] == Concat(ms[1..]);
    }
  }

  /** A field made of any number of markers, and nothing else, becomes the sentinel. */
  lemma OnlyMarkersBecomeSentinel(ms: seq<string>)
    requires forall k :: 0 <= k < |ms| ==> IsMarker(ms[k])
    ensures StripMarkers(Concat(ms)) == ""
    ensures Normalize(Concat(ms)) == "-1"
  {
    FindMarkersInMarkers(ms);
    RemoveEachInMarkers(ms, ms);
    KeepNone(ms, set n | n in ms);
  }

  /** Deleting characters cannot reorder them: "ba" is not obtained from "ab". */
  lemma SubSeqKeepsOrder()
    ensures !SubSeq("ba", "ab")
  {
    assert "ab"[1..] == "b" && "b"[1..] == [];
  }

  /** A marker is stripped, and the text after it is kept. */
  lemma MarkerExample()
    ensures Normalize("A:12") == "12"
  {
  }

  /** Several markers are all stripped. */
  lemma TwoMarkersExample()
    ensures Normalize("A:B:7") == "7"
  {
    var s := "A:B:7";
    assert FindMarkers(s) == ["A:", "B:"] by {
      assert s[..2] == "A:" && s[2..] == "B:7";
      assert s[2..][..2] == "B:" && s[2..][2..] == "7";
      assert FindMarkers("7") == [];
    }
    assert Replace(s, "A:", "") == "B:7" by {
      assert s[..2] == "A:" && s[2..] == "B:7";
      assert Replace("B:7", "A:", "") == "B:7" by {
        assert "B:7"[1..] == ":7" && ":7"[1..] == "7";
      }
    }
    assert Replace("B:7", "B:", "") == "7" by {
      assert "B:7"[..2] == "B:" && "B:7"[2..] == "7";
    }
    assert StripMarkers(s) == "7" by {
      assert ["A:", "B:"][..1] == ["A:"] && ["A:"][..0] == [];
    }
  }

  /** A decimal comma becomes a decimal point. */
  lemma CommaExample()
    ensures Normalize("12,5") == "12.5"
  {
  }

  /** The empty field becomes the sentinel; a letter outside A to G is no marker. */
  lemma SentinelAndNonMarkerExample()
    ensures Normalize("") == "-1"
    ensures Normalize("H:3") == "H:3"
  {
  }

  /**
   * Stripping is one pass over the markers of the original field, not "remove
   * until none remain": in "AB::" only "B:" is found, and removing it creates
   * the marker "A:", which survives.
   */
  lemma StripIsSinglePass()
    ensures StripMarkers("AB::") == "A:"
    ensures Normalize("AB::") == "A:"
    ensures !NoMarker(Normalize("AB::"))
  {
    var s := "AB::";
    assert s[1..] == "B::" && s[1..][..2] == "B:" && s[1..][2..] == ":";
    assert FindMarkers(s) == ["B:"];
    assert RemoveEach(s, ["B:"]) == Replace(s, "B:", "");
    assert s[..2] != "B:";
    assert Replace(s, "B:", "") == "A" + Replace("B::", "B:", "");
    assert Replace(":", "B:", "") == ":";
    assert StripMarkers(s) == "A:";
    assert MarkerAt("A:", 0);
  }
}
