/**
 * tnseq_harmonize_wigs.py: parse wig tracks, guess each file's contig from
 * its name, and rewrite every track of a contig over the sorted union of the
 * group's locations, with 0 where a track had no entry.
 */
module Harmonize {
  import opened Wrappers
  import opened Text
  import opened Ordering
  import opened WigFormat

  /** What `read_wig` returns in `data`: the header line and location -> count. */
  datatype Wig = Wig(header: string, counts: map<int, int>)

  // ------------------------------------------------------------ read_wig

  /** One data line: the first two whitespace-separated fields as integers. */
  function ParseEntry(line: string): Result<(int, int), Fault> {
    var fields := SplitWs(line);
    if |fields| < 1 then Failure(IndexError)
    else
      match ParseInt(fields[0])
      case None => Failure(ValueError)
      case Some(location) =>
        if |fields| < 2 then Failure(IndexError)
        else
          match ParseInt(fields[1])
          case None => Failure(ValueError)
          case Some(count) => Success((location, count))
  }

  /** The data lines from here on, each setting its location's count. */
  function ParseEntries(lines: seq<string>, counts: map<int, int>): Result<map<int, int>, Fault>
    decreases |lines|
  {
    if lines == [] then Success(counts)
    else
      match ParseEntry(lines[0])
      case Failure(e) => Failure(e)
      case Success((location, count)) => ParseEntries(lines[1..], counts[location := count])
  }

  /** The lines `read_wig` loops over: the text as read in text mode,
      stripped and split on newlines. */
  function WigTextLines(text: string): (lines: seq<string>)
    ensures |lines| >= 1
  {
    Split(Strip(Universal(text)), "\n")
  }

  /** `read_wig` on a file's text. */
  function ParseWig(text: string): Result<Wig, Fault> {
    var lines := WigTextLines(text);
    match ParseEntries(lines[1..], map[])
    case Failure(e) => Failure(e)
    case Success(counts) => Success(Wig(lines[0], counts))
  }

  /** `read_wig(filename)`: the parsed track and its set of locations. */
  method ReadWig(fs: map<string, string>, name: string) returns (r: Result<(Wig, set<int>), Fault>)
    ensures name !in fs ==> r == Failure(FileNotFound)
    ensures name in fs && ParseWig(fs[name]).Failure? ==> r == Failure(ParseWig(fs[name]).error)
    ensures name in fs && ParseWig(fs[name]).Success? ==>
      r == Success((ParseWig(fs[name]).value, ParseWig(fs[name]).value.counts.Keys))
  {
    if name !in fs {
      return Failure(FileNotFound);
    }
    var lines := WigTextLines(fs[name]);
    var entries := ReadEntries(lines[1..]);
    match entries
    case Failure(e) =>
      return Failure(e);
    case Success((counts, locations)) =>
      return Success((Wig(lines[0], counts), locations));
  }

  /** The loop of `read_wig` over the data lines: each line's location joins
      the set and its count is stored. */
  method ReadEntries(rest: seq<string>) returns (r: Result<(map<int, int>, set<int>), Fault>)
    ensures ParseEntries(rest, map[]).Failure? ==> r == Failure(ParseEntries(rest, map[]).error)
    ensures ParseEntries(rest, map[]).Success? ==>
      r == Success((ParseEntries(rest, map[]).value, ParseEntries(rest, map[]).value.Keys))
  {
    var counts: map<int, int> := map[];
    var locations: set<int> := {};
    var i := 0;
    while i < |rest|
      invariant 0 <= i <= |rest|
      invariant locations == counts.Keys
      invariant ParseEntries(rest[i..], counts) == ParseEntries(rest, map[])
    {
      SliceCons(rest, i);
      var fields := SplitWs(rest[i]);
      if |fields| < 1 {
        return Failure(IndexError);
      }
      var location := ParseInt(fields[0]);
      if location.None? {
        return Failure(ValueError);
      }
      // the location is added to the set before the count is read; a failed
      // count ends the run, so the order does not show
      if |fields| < 2 {
        return Failure(IndexError);
      }
      var count := ParseInt(fields[1]);
      if count.None? {
        return Failure(ValueError);
      }
      locations := locations + {location.value};
      counts := counts[location.value := count.value];
      i := i + 1;
    }
    return Success((counts, locations));
  }

  /** The location of a line that parses. */
  function EntryLocation(line: string): int
    requires ParseEntry(line).Success?
  {
    ParseEntry(line).value.0
  }

  /** The first line of a successful parse is a data line, and the rest go on
      from the map with its count stored. */
  lemma ParseEntriesStep(lines: seq<string>, counts: map<int, int>)
    requires lines != [] && ParseEntries(lines, counts).Success?
    ensures ParseEntry(lines[0]).Success?
    ensures ParseEntries(lines, counts) ==
      ParseEntries(lines[1..], counts[EntryLocation(lines[0]) := ParseEntry(lines[0]).value.1])
  {
  }

  /** Lines for other locations leave a stored count as it is. */
  lemma {:induction false} OtherLinesKeep(lines: seq<string>, counts: map<int, int>, location: int)
    requires ParseEntries(lines, counts).Success? && location in counts
    requires forall j :: 0 <= j < |lines| && ParseEntry(lines[j]).Success? ==> EntryLocation(lines[j]) != location
    ensures var m := ParseEntries(lines, counts).value;
      location in m && m[location] == counts[location]
    decreases |lines|
  {
    if lines != [] {
      ParseEntriesStep(lines, counts);
      var l, n := EntryLocation(lines[0]), ParseEntry(lines[0]).value.1;
      OtherLinesTail(lines, location);
      OtherLinesKeep(lines[1..], counts[l := n], location);
    }
  }

  /** The lines after the first of lines for other locations are for other locations. */
  lemma OtherLinesTail(lines: seq<string>, location: int)
    requires lines != []
    requires forall j :: 0 <= j < |lines| && ParseEntry(lines[j]).Success? ==> EntryLocation(lines[j]) != location
    ensures forall j :: 0 <= j < |lines[1..]| && ParseEntry(lines[1..][j]).Success? ==> EntryLocation(lines[1..][j]) != location
  {
    forall j | 0 <= j < |lines[1..]| && ParseEntry(lines[1..][j]).Success? ensures EntryLocation(lines[1..][j]) != location {
      TailIndex(lines, j + 1);
    }
  }

  /** A repeated location keeps the count of its last line: a line followed
      only by lines for other locations decides its location's count. */
  lemma {:induction false} LastCountWins(before: seq<string>, x: string, after: seq<string>, counts: map<int, int>)
    requires ParseEntries(before + [x] + after, counts).Success?
    requires ParseEntry(x).Success?
    requires forall j :: 0 <= j < |after| && ParseEntry(after[j]).Success? ==> EntryLocation(after[j]) != EntryLocation(x)
    ensures var m := ParseEntries(before + [x] + after, counts).value;
      EntryLocation(x) in m && m[EntryLocation(x)] == ParseEntry(x).value.1
    decreases |before|
  {
    SplitHead(before, x, after);
    ParseEntriesStep(before + [x] + after, counts);
    if before == [] {
      OtherLinesKeep(after, counts[EntryLocation(x) := ParseEntry(x).value.1], EntryLocation(x));
    } else {
      var l, n := EntryLocation(before[0]), ParseEntry(before[0]).value.1;
      LastCountWins(before[1..], x, after, counts[l := n]);
    }
  }

  /** Every line of a successful parse is a data line. */
  lemma {:induction false} EveryLineParses(lines: seq<string>, counts: map<int, int>)
    requires ParseEntries(lines, counts).Success?
    ensures forall j :: 0 <= j < |lines| ==> ParseEntry(lines[j]).Success?
    decreases |lines|
  {
    if lines != [] {
      ParseEntriesStep(lines, counts);
      EveryLineParses(lines[1..], counts[EntryLocation(lines[0]) := ParseEntry(lines[0]).value.1]);
      forall j | 1 <= j < |lines| ensures ParseEntry(lines[j]).Success? {
        TailIndex(lines, j);
      }
    }
  }

  /** The locations stored are those of the start map and those of the lines. */
  lemma {:induction false} StoredLocations(lines: seq<string>, counts: map<int, int>, location: int)
    requires ParseEntries(lines, counts).Success?
    ensures location in ParseEntries(lines, counts).value <==>
      location in counts || exists j :: 0 <= j < |lines| && ParseEntry(lines[j]).Success? && EntryLocation(lines[j]) == location
    decreases |lines|
  {
    if lines != [] {
      ParseEntriesStep(lines, counts);
      var l, n := EntryLocation(lines[0]), ParseEntry(lines[0]).value.1;
      StoredLocations(lines[1..], counts[l := n], location);
      SomeLineFor(lines, location);
    }
  }

  /** Some line is for `location` exactly when the first one is or a later one is. */
  lemma SomeLineFor(lines: seq<string>, location: int)
    requires lines != [] && ParseEntry(lines[0]).Success?
    ensures (exists j :: 0 <= j < |lines| && ParseEntry(lines[j]).Success? && EntryLocation(lines[j]) == location) <==>
      EntryLocation(lines[0]) == location ||
      exists j :: 0 <= j < |lines[1..]| && ParseEntry(lines[1..][j]).Success? && EntryLocation(lines[1..][j]) == location
  {
    if exists j :: 0 <= j < |lines| && ParseEntry(lines[j]).Success? && EntryLocation(lines[j]) == location {
      FirstOrLater(lines, location);
    }
    if exists j :: 0 <= j < |lines[1..]| && ParseEntry(lines[1..][j]).Success? && EntryLocation(lines[1..][j]) == location {
      LaterLine(lines, location);
    }
  }

  /** A line for `location` is the first one or a later one. */
  lemma FirstOrLater(lines: seq<string>, location: int)
    requires lines != [] && ParseEntry(lines[0]).Success?
    requires exists j :: 0 <= j < |lines| && ParseEntry(lines[j]).Success? && EntryLocation(lines[j]) == location
    ensures EntryLocation(lines[0]) == location ||
      exists j :: 0 <= j < |lines[1..]| && ParseEntry(lines[1..][j]).Success? && EntryLocation(lines[1..][j]) == location
  {
    var j :| 0 <= j < |lines| && ParseEntry(lines[j]).Success? && EntryLocation(lines[j]) == location;
    if j > 0 {
      var rest := lines[1..];
      TailIndex(lines, j);
      assert 0 <= j - 1 < |rest| && ParseEntry(rest[j - 1]).Success? && EntryLocation(rest[j - 1]) == location;
    }
  }

  /** A later line for `location` is a line for it. */
  lemma LaterLine(lines: seq<string>, location: int)
    requires lines != []
    requires exists j :: 0 <= j < |lines[1..]| && ParseEntry(lines[1..][j]).Success? && EntryLocation(lines[1..][j]) == location
    ensures exists j :: 0 <= j < |lines| && ParseEntry(lines[j]).Success? && EntryLocation(lines[j]) == location
  {
    var j :| 0 <= j < |lines[1..]| && ParseEntry(lines[1..][j]).Success? && EntryLocation(lines[1..][j]) == location;
    TailIndex(lines, j + 1);
  }

  // ------------------------------------------------------ contig names

  /** Line 47: the last "_" field of the last "/" component, without ".wig". */
  function ContigOf(name: string): string {
    Replace(LastPiece(LastPiece(name, "/"), "_"), ".wig", "")
  }

  /** A name `<prefix>_<contig>.wig` gives back `<contig>` whatever the prefix
      (with or without a directory), when the contig holds no "_" or "/" and
      ".wig" occurs in `<contig>.wig` only at the end. */
  lemma ContigOfName(prefix: string, contig: string)
    requires Lacks(contig, '/') && Lacks(contig, '_')
    requires Find(contig + ".wig", ".wig") == |contig|
    ensures ContigOf(prefix + "_" + contig + ".wig") == contig
  {
    SuffixLacks(contig);
    var tail := "_" + contig + ".wig";
    AppendFour(prefix, "_", contig, ".wig");
    LastPieceAppend(prefix, tail, '/');
    var last := LastPiece(prefix, "/");
    assert last + tail == last + ['_'] + (contig + ".wig");
    SplitLastPiece(last, contig + ".wig", '_');
    ReplaceSuffix(contig, ".wig", "");
    assert contig + "" == contig;
  }

  /** What follows `<prefix>` in a track name holds no "/", and what follows its "_" no "_". */
  lemma SuffixLacks(contig: string)
    requires Lacks(contig, '/') && Lacks(contig, '_')
    ensures Lacks("_" + contig + ".wig", '/') && Lacks(contig + ".wig", '_')
  {
    assert "_" + contig + ".wig" == ['_'] + contig + ['.', 'w', 'i', 'g'];
    LacksAppend(['_'], contig, '/');
    LacksAppend(['_'] + contig, ['.', 'w', 'i', 'g'], '/');
    LacksAppend(contig, ['.', 'w', 'i', 'g'], '_');
  }

  /** The bare names that `glob` returns in the working directory,
      `<sample>_<contig>.wig`, hold no "/" and give back `<contig>` as well. */
  lemma ContigOfBareName(sample: string, contig: string)
    requires Lacks(sample, '/') && Lacks(contig, '/') && Lacks(contig, '_')
    requires Find(contig + ".wig", ".wig") == |contig|
    ensures ContigOf(sample + "_" + contig + ".wig") == contig
    ensures LastPiece(sample + "_" + contig + ".wig", "/") == sample + "_" + contig + ".wig"
  {
    ContigOfName(sample, contig);
    SuffixLacks(contig);
    var tail := "_" + contig + ".wig";
    AppendFour(sample, "_", contig, ".wig");
    LacksAppend(sample, tail, '/');
    LastPieceNone(sample + tail, '/');
  }

  /** The contig of a file name (an element of `contigs`, line 45-48). */
  method CollectContigs(names: seq<string>) returns (contigs: set<string>)
    ensures contigs == set n | n in names :: ContigOf(n)
  {
    contigs := {};
    var i := 0;
    while i < |names|
      invariant 0 <= i <= |names|
      invariant contigs == set n | n in names[..i] :: ContigOf(n)
    {
      SliceSnoc(names, i);
      contigs := contigs + {ContigOf(names[i])};
      i := i + 1;
    }
    assert names[..i] == names;
  }

  // ----------------------------------------------------- one contig group

  /** `name.replace('.wig', '_harmonized.wig')` */
  function HarmonizedName(name: string): string {
    Replace(name, ".wig", "_harmonized.wig")
  }

  /** A name ending in its only ".wig" gets "_harmonized" before the suffix. */
  lemma HarmonizedNameOf(stem: string)
    requires Find(stem + ".wig", ".wig") == |stem|
    ensures HarmonizedName(stem + ".wig") == stem + "_harmonized.wig"
  {
    ReplaceSuffix(stem, ".wig", "_harmonized.wig");
  }

  /** Parsing the group's files in order; the first failure ends the run. */
  function ReadFrom(names: seq<string>, fs: map<string, string>, wigs: seq<Wig>): (r: Result<seq<Wig>, Fault>)
    ensures r.Success? ==> |r.value| == |wigs| + |names| && r.value[..|wigs|] == wigs
    decreases |names|, 1
  {
    if names == [] then Success(wigs)
    else if names[0] !in fs then Failure(FileNotFound)
    else ReadRest(ParseWig(fs[names[0]]), names[1..], fs, wigs)
  }

  /** Going on after one file was parsed: a failure ends the run, a track joins
      the ones read so far. */
  function ReadRest(parsed: Result<Wig, Fault>, rest: seq<string>, fs: map<string, string>, wigs: seq<Wig>)
    : (r: Result<seq<Wig>, Fault>)
    ensures r.Success? ==> parsed.Success? && |r.value| == |wigs| + 1 + |rest| && r.value[..|wigs|] == wigs
    decreases |rest| + 1, 0
  {
    match parsed
    case Failure(e) => Failure(e)
    case Success(w) =>
      var r := ReadFrom(rest, fs, wigs + [w]);
      PrefixKept(r, wigs, w);
      r
  }

  /** A result that starts with `wigs + [w]` starts with `wigs`. */
  lemma PrefixKept(r: Result<seq<Wig>, Fault>, wigs: seq<Wig>, w: Wig)
    requires r.Success? ==> |r.value| >= |wigs| + 1 && r.value[..|wigs| + 1] == wigs + [w]
    ensures r.Success? ==> r.value[..|wigs|] == wigs
  {
    if r.Success? {
      assert r.value[..|wigs|] == r.value[..|wigs| + 1][..|wigs|];
    }
  }

  /** `all_locations`: the union of the tracks' location sets. */
  function Union(wigs: seq<Wig>): set<int> {
    if wigs == [] then {} else Union(wigs[..|wigs| - 1]) + wigs[|wigs| - 1].counts.Keys
  }

  /** A location is in the union exactly when some track has it. */
  lemma {:induction false} InUnion(wigs: seq<Wig>, location: int)
    ensures location in Union(wigs) <==> exists i :: 0 <= i < |wigs| && location in wigs[i].counts
  {
    if wigs != [] {
      var init := wigs[..|wigs| - 1];
      InUnion(init, location);
      assert forall i :: 0 <= i < |init| ==> wigs[i] == init[i];
      if location in Union(init) {
        var i :| 0 <= i < |init| && location in init[i].counts;
        assert location in wigs[i].counts;
      }
    }
  }

  /** A track's counts over `locations`, 0 where it had no entry. */
  function Filled(counts: map<int, int>, locations: set<int>): (m: map<int, int>)
    ensures m.Keys == locations
  {
    map l | l in locations :: if l in counts then counts[l] else 0
  }

  /** The harmonized form of the tracks of one group, as values. */
  function HarmonizeWigs(wigs: seq<Wig>): (r: seq<Wig>)
    ensures |r| == |wigs|
  {
    var all := Union(wigs);
    seq(|wigs|, j requires 0 <= j < |wigs| => Wig(wigs[j].header, Filled(wigs[j].counts, all)))
  }

  /** What lines 54-69 write for one contig group, or the failure that ends the run. */
  ghost function GroupFiles(names: seq<string>, fs: map<string, string>): Result<seq<TrackFile>, Fault> {
    match ReadFrom(names, fs, [])
    case Failure(e) => Failure(e)
    case Success(wigs) =>
      Success(HarmonizedFiles(names, HarmonizeWigs(wigs)))
  }

  /** The file line 62 opens for `name`, holding the harmonized track `w`. */
  ghost function HarmonizedFile(name: string, w: Wig): TrackFile {
    TrackFile(HarmonizedName(name), Unlines(WigLines(w.header, w.counts)))
  }

  /** One harmonized file per name, in the order of the names. */
  ghost function HarmonizedFiles(names: seq<string>, out: seq<Wig>): (files: seq<TrackFile>)
    requires |out| == |names|
  {
    seq(|names|, j requires 0 <= j < |names| => HarmonizedFile(names[j], out[j]))
  }

  /** Lines 63-69 for one track: its header, then every location of the
      sorted union with its count, or 0 (the `KeyError` default). */
  method WriteHarmonized(w: Wig, locations: seq<int>) returns (text: string)
    ensures text == Unlines([w.header] + Entries(locations, Filled(w.counts, Elems(locations))))
  {
    FilledCovers(w.counts, locations);
    text := WriteFilled(w.header, w.counts, locations, Filled(w.counts, Elems(locations)));
  }

  /** The loop of lines 64-69, against any map that holds each location's
      count or 0. */
  method WriteFilled(header: string, counts: map<int, int>, locations: seq<int>, ghost filled: map<int, int>)
    returns (text: string)
    requires forall k :: 0 <= k < |locations| ==> locations[k] in filled
    requires forall k :: 0 <= k < |locations| ==>
      filled[locations[k]] == (if locations[k] in counts then counts[locations[k]] else 0)
    ensures text == Unlines([header] + Entries(locations, filled))
  {
    text := header + "\n";
    EntryLinesStart(header, filled);
    ghost var done: seq<int> := [];
    var i := 0;
    while i < |locations|
      invariant 0 <= i <= |locations| && done == locations[..i]
      invariant forall k :: 0 <= k < |done| ==> done[k] in filled
      invariant text == Unlines([header] + Entries(done, filled))
    {
      text := WriteEntry(text, counts, locations, i, filled);
      EntryLinesSnoc(header, done, locations[i], filled);
      SliceSnoc(locations, i);
      done := done + [locations[i]];
      i := i + 1;
    }
    assert done == locations;
  }

  /** Lines 65-69 for location `i`: its count, or 0, written after the text so far. */
  method WriteEntry(text: string, counts: map<int, int>, locations: seq<int>, i: nat, ghost filled: map<int, int>)
    returns (next: string)
    requires i < |locations| && locations[i] in filled
    requires filled[locations[i]] == (if locations[i] in counts then counts[locations[i]] else 0)
    ensures next == text + FormatEntry(locations[i], filled[locations[i]]) + "\n"
  {
    var location := locations[i];
    var count := if location in counts then counts[location] else 0;
    next := text + FormatEntry(location, count) + "\n";
  }

  /** Every listed location has a filled count. */
  lemma FilledCovers(counts: map<int, int>, locations: seq<int>)
    ensures forall k :: 0 <= k < |locations| ==> locations[k] in Filled(counts, Elems(locations))
    ensures forall k :: 0 <= k < |locations| ==>
      Filled(counts, Elems(locations))[locations[k]] == (if locations[k] in counts then counts[locations[k]] else 0)
  {
    forall k | 0 <= k < |locations| ensures locations[k] in Filled(counts, Elems(locations)) {
      assert locations[k] in Elems(locations);
    }
  }

  /** The harmonized text of one track, as `WigLines` of its filled form. */
  lemma HarmonizedText(w: Wig, locations: seq<int>)
    requires Increasing(locations)
    ensures [w.header] + Entries(locations, Filled(w.counts, Elems(locations))) ==
      WigLines(w.header, Filled(w.counts, Elems(locations)))
  {
    var filled := Filled(w.counts, Elems(locations));
    IncreasingUnique(locations, SortedInts(filled.Keys));
  }

  /** The per-contig body of `main`: read every file of the group, take the
      union of their locations, and write each track over the sorted union. */
  method HarmonizeGroup(names: seq<string>, fs: map<string, string>) returns (r: Result<seq<TrackFile>, Fault>)
    ensures r == GroupFiles(names, fs)
  {
    var read := ReadGroup(names, fs);
    if read.Failure? {
      return Failure(read.error);
    }
    var (wigs, all) := read.value;
    var sorted := SortInts(all);
    var files := WriteGroup(names, wigs, sorted);
    return Success(files);
  }

  /** Lines 55-58: read the group's files in order, collecting the union of
      their locations. */
  method ReadGroup(names: seq<string>, fs: map<string, string>) returns (r: Result<(seq<Wig>, set<int>), Fault>)
    ensures ReadFrom(names, fs, []).Failure? ==> r == Failure(ReadFrom(names, fs, []).error)
    ensures ReadFrom(names, fs, []).Success? ==>
      r == Success((ReadFrom(names, fs, []).value, Union(ReadFrom(names, fs, []).value)))
  {
    var wigs: seq<Wig> := [];
    var all: set<int> := {};
    var i := 0;
    while i < |names|
      invariant 0 <= i <= |names|
      invariant ReadFrom(names[i..], fs, wigs) == ReadFrom(names, fs, [])
      invariant all == Union(wigs)
    {
      var read := ReadNext(names, i, fs, wigs);
      if read.Failure? {
        return Failure(read.error);
      }
      var (w, locations) := read.value;
      assert Union(wigs + [w]) == Union(wigs) + locations by {
        assert (wigs + [w])[..|wigs|] == wigs;
      }
      wigs := wigs + [w];
      all := all + locations;
      i := i + 1;
    }
    assert names[i..] == [];
    return Success((wigs, all));
  }

  /** `read_wig` on the file at `i`, as a step of `ReadFrom`. */
  method ReadNext(names: seq<string>, i: nat, fs: map<string, string>, ghost wigs: seq<Wig>)
    returns (r: Result<(Wig, set<int>), Fault>)
    requires i < |names|
    ensures r.Failure? ==> ReadFrom(names[i..], fs, wigs) == Failure(r.error)
    ensures r.Success? ==> r.value.1 == r.value.0.counts.Keys
    ensures r.Success? ==> ReadFrom(names[i..], fs, wigs) == ReadFrom(names[i + 1..], fs, wigs + [r.value.0])
  {
    ReadFromStep(names, i, fs, wigs);
    r := ReadWig(fs, names[i]);
  }

  /** Reading the file at `i` and going on with the rest. */
  lemma ReadFromStep(names: seq<string>, i: nat, fs: map<string, string>, wigs: seq<Wig>)
    requires i < |names|
    ensures names[i] !in fs ==> ReadFrom(names[i..], fs, wigs) == Failure(FileNotFound)
    ensures names[i] in fs && ParseWig(fs[names[i]]).Failure? ==>
      ReadFrom(names[i..], fs, wigs) == Failure(ParseWig(fs[names[i]]).error)
    ensures names[i] in fs && ParseWig(fs[names[i]]).Success? ==>
      ReadFrom(names[i..], fs, wigs) == ReadFrom(names[i + 1..], fs, wigs + [ParseWig(fs[names[i]]).value])
  {
    SliceCons(names, i);
  }

  /** The file written for track `j` of the group. */
  method WriteFileOf(names: seq<string>, wigs: seq<Wig>, j: nat, sorted: seq<int>) returns (file: TrackFile)
    requires j < |wigs| == |names| && Increasing(sorted) && Elems(sorted) == Union(wigs)
    ensures file == HarmonizedFile(names[j], HarmonizeWigs(wigs)[j])
  {
    var text := WriteHarmonized(wigs[j], sorted);
    HarmonizedText(wigs[j], sorted);
    file := TrackFile(HarmonizedName(names[j]), text);
  }

  /** Lines 61-69: one harmonized file per name, over the sorted union. */
  method WriteGroup(names: seq<string>, wigs: seq<Wig>, sorted: seq<int>) returns (files: seq<TrackFile>)
    requires |wigs| == |names| && Increasing(sorted) && Elems(sorted) == Union(wigs)
    ensures files == HarmonizedFiles(names, HarmonizeWigs(wigs))
  {
    ghost var want := HarmonizedFiles(names, HarmonizeWigs(wigs));
    files := [];
    var j := 0;
    while j < |names|
      invariant 0 <= j <= |names| && files == want[..j]
    {
      var file := WriteFileOf(names, wigs, j, sorted);
      FileAt(names, HarmonizeWigs(wigs), j);
      SliceSnoc(want, j);
      files := files + [file];
      j := j + 1;
    }
    assert want[..j] == want;
  }

  /** The file written for the `j`-th name. */
  lemma FileAt(names: seq<string>, out: seq<Wig>, j: nat)
    requires j < |out| == |names|
    ensures HarmonizedFiles(names, out)[j] == HarmonizedFile(names[j], out[j])
  {
  }

  // ------------------------------------------------------ the contig loop

  /** The files after writing `files` in order; a later file of the same name
      replaces an earlier one. */
  function WriteFiles(fs: map<string, string>, files: seq<TrackFile>): map<string, string>
    decreases |files|
  {
    if files == [] then fs else WriteFiles(fs[files[0].name := files[0].text], files[1..])
  }

  /** Lines 52-69 over the contig groups in turn: the files once the loop
      ends, and the failure that ended it early, if any. The files of the
      groups before a failure stay written; a group whose reading fails
      writes nothing. */
  ghost function RunGroups(groups: seq<seq<string>>, fs: map<string, string>): (map<string, string>, Option<Fault>)
    decreases |groups|
  {
    if groups == [] then (fs, None)
    else
      match GroupFiles(groups[0], fs)
      case Failure(e) => (fs, Some(e))
      case Success(files) => RunGroups(groups[1..], WriteFiles(fs, files))
  }

  /** The loop of `main` over the contigs, given the files each contig's glob
      selects: every group is harmonized over the files as they are then. */
  method HarmonizeAll(groups: seq<seq<string>>, fs: map<string, string>)
    returns (out: map<string, string>, fault: Option<Fault>)
    ensures (out, fault) == RunGroups(groups, fs)
  {
    out := fs;
    var i := 0;
    while i < |groups|
      invariant 0 <= i <= |groups|
      invariant RunGroups(groups[i..], out) == RunGroups(groups, fs)
    {
      SliceCons(groups, i);
      var files := HarmonizeGroup(groups[i], out);
      if files.Failure? {
        return out, Some(files.error);
      }
      out := WriteAll(out, files.value);
      i := i + 1;
    }
    assert groups[i..] == [];
    return out, None;
  }

  /** Lines 62-69 for each file of a group: open it for writing and store its text. */
  method WriteAll(fs: map<string, string>, files: seq<TrackFile>) returns (out: map<string, string>)
    ensures out == WriteFiles(fs, files)
  {
    out := fs;
    var j := 0;
    while j < |files|
      invariant 0 <= j <= |files|
      invariant WriteFiles(out, files[j..]) == WriteFiles(fs, files)
    {
      SliceCons(files, j);
      out := out[files[j].name := files[j].text];
      j := j + 1;
    }
    assert files[j..] == [];
  }

  /** Writing files of other names leaves a file as it was, or absent. */
  lemma {:induction false} WriteFilesOther(fs: map<string, string>, files: seq<TrackFile>, name: string)
    requires forall j :: 0 <= j < |files| ==> files[j].name != name
    ensures name in WriteFiles(fs, files) <==> name in fs
    ensures name in fs ==> WriteFiles(fs, files)[name] == fs[name]
    decreases |files|
  {
    if files != [] {
      forall j | 0 <= j < |files[1..]| ensures files[1..][j].name != name {
        TailIndex(files, j + 1);
      }
      WriteFilesOther(fs[files[0].name := files[0].text], files[1..], name);
    }
  }

  /** A file written for a group is named after one of the group's files. */
  lemma GroupFileNames(names: seq<string>, fs: map<string, string>, j: nat)
    requires GroupFiles(names, fs).Success?
    ensures |GroupFiles(names, fs).value| == |names|
    ensures j < |names| ==> GroupFiles(names, fs).value[j].name == HarmonizedName(names[j])
  {
  }

  /** A file whose name is the harmonized name of no grouped file keeps its
      text through the whole loop, and one that did not exist is not created. */
  lemma {:induction false} UntouchedFiles(groups: seq<seq<string>>, fs: map<string, string>, name: string)
    requires forall g, j :: 0 <= g < |groups| && 0 <= j < |groups[g]| ==> HarmonizedName(groups[g][j]) != name
    ensures name in RunGroups(groups, fs).0 <==> name in fs
    ensures name in fs ==> RunGroups(groups, fs).0[name] == fs[name]
    decreases |groups|
  {
    if groups != [] && GroupFiles(groups[0], fs).Success? {
      var files := GroupFiles(groups[0], fs).value;
      forall j | 0 <= j < |files| ensures files[j].name != name {
        GroupFileNames(groups[0], fs, j);
      }
      WriteFilesOther(fs, files, name);
      forall g, j | 0 <= g < |groups[1..]| && 0 <= j < |groups[1..][g]| ensures HarmonizedName(groups[1..][g][j]) != name {
        TailIndex(groups, g + 1);
      }
      UntouchedFiles(groups[1..], WriteFiles(fs, files), name);
    }
  }

  // ------------------------------------------------------------- properties

  /** Every harmonized track lists exactly the union of the group's locations,
      keeps each original count, and has 0 at the locations it lacked. */
  lemma HarmonizedCounts(wigs: seq<Wig>, j: nat, location: int)
    requires j < |wigs|
    ensures var out := HarmonizeWigs(wigs)[j];
      && out.header == wigs[j].header
      && (location in out.counts <==> exists i :: 0 <= i < |wigs| && location in wigs[i].counts)
      && (location in wigs[j].counts ==> out.counts[location] == wigs[j].counts[location])
      && (location in out.counts && location !in wigs[j].counts ==> out.counts[location] == 0)
  {
    InUnion(wigs, location);
  }

  /** The lines of harmonized track `j`: the input's header, then one entry
      per location of the union, strictly ascending, with the track's own
      count or 0. */
  lemma HarmonizedFileShape(wigs: seq<Wig>, j: nat)
    requires j < |wigs|
    ensures var out := HarmonizeWigs(wigs)[j];
      var ps := SortedInts(Union(wigs));
      var lines := WigLines(out.header, out.counts);
      && Increasing(ps) && Elems(ps) == Union(wigs)
      && |lines| == |ps| + 1 && lines[0] == wigs[j].header
      && forall k :: 0 <= k < |ps| ==>
        lines[k + 1] == FormatEntry(ps[k], if ps[k] in wigs[j].counts then wigs[j].counts[ps[k]] else 0)
  {
    var out := HarmonizeWigs(wigs)[j];
    assert out == Wig(wigs[j].header, Filled(wigs[j].counts, Union(wigs)));
    WigLinesShape(out.header, out.counts);
  }

  /** All harmonized tracks of a group have the same location set. */
  lemma SameLocationsAfter(wigs: seq<Wig>, i: nat, j: nat)
    requires i < |wigs| && j < |wigs|
    ensures HarmonizeWigs(wigs)[i].counts.Keys == HarmonizeWigs(wigs)[j].counts.Keys
  {
  }

  /** Tracks that already share one location set come out unchanged. */
  lemma AlreadyHarmonized(wigs: seq<Wig>, locations: set<int>)
    requires forall i :: 0 <= i < |wigs| ==> wigs[i].counts.Keys == locations
    ensures HarmonizeWigs(wigs) == wigs
  {
    var out := HarmonizeWigs(wigs);
    if wigs != [] {
      assert Union(wigs) == locations by {
        forall l ensures l in Union(wigs) <==> l in locations {
          InUnion(wigs, l);
          assert l in locations ==> l in wigs[0].counts;
        }
      }
    }
    forall j | 0 <= j < |wigs| ensures out[j] == wigs[j] {
      assert out[j].counts == wigs[j].counts;
    }
  }

  /** Harmonizing a harmonized group changes nothing. */
  lemma HarmonizeIdempotent(wigs: seq<Wig>)
    ensures HarmonizeWigs(HarmonizeWigs(wigs)) == HarmonizeWigs(wigs)
  {
    AlreadyHarmonized(HarmonizeWigs(wigs), Union(wigs));
  }

  /** Two tracks with locations {10, 20} and {15} become {10, 15, 20} in both,
      with 0 filled in where a track had no entry. */
  lemma TwoTrackExample(h1: string, h2: string)
    ensures var out := HarmonizeWigs([Wig(h1, map[10 := 3, 20 := 5]), Wig(h2, map[15 := 7])]);
      && out[0] == Wig(h1, map[10 := 3, 15 := 0, 20 := 5])
      && out[1] == Wig(h2, map[10 := 0, 15 := 7, 20 := 0])
  {
    var wigs := [Wig(h1, map[10 := 3, 20 := 5]), Wig(h2, map[15 := 7])];
    assert wigs[..1] == [wigs[0]];
    assert [wigs[0]][..0] == [];
    assert Union([wigs[0]]) == {10, 20};
    assert Union(wigs) == {10, 15, 20};
  }
}
