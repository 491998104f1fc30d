/**
 * What one tool writes, the next one reads: wig tracks written by
 * tnseq_prepmap.py and tnseq_harmonize_wigs.py parse back, under
 * tnseq_harmonize_wigs.py's `read_wig`, to the counts they were written
 * from; a track's file name gives back its contig; and the statistics file
 * of tnseq_prepmap.py reads back, under tnseq_combine_stats.py, as its
 * labels and values.
 */
module Pipeline {
  import opened Wrappers
  import opened Text
  import opened Ordering
  import opened WigFormat
  import opened Prepmap
  import opened PrepmapRun
  import opened Harmonize
  import opened CombineStats

  // ------------------------------------------------------------ entries

  /** An entry line is two numbers and two spaces: no line break, and it
      starts and ends with a non-whitespace character. */
  lemma EntryShape(position: int, count: int)
    ensures var line := FormatEntry(position, count);
      && Lacks(line, '\n') && Lacks(line, '\r') && line != [] && !IsSpace(line[0]) && !IsSpace(line[|line| - 1])
  {
    var a, b := IntToString(position), IntToString(count);
    var line := a + "  " + b;
    assert line[0] == a[0] && line[|line| - 1] == b[|b| - 1];
    forall i | 0 <= i < |line| ensures line[i] != '\n' && line[i] != '\r' {
      if i < |a| {
        assert line[i] == a[i];
      } else if i >= |a| + 2 {
        assert line[i] == b[i - |a| - 2];
      }
    }
  }

  /** `read_wig` reads an entry line back as its position and count. */
  lemma EntryReadBack(position: int, count: int)
    ensures ParseEntry(FormatEntry(position, count)) == Success((position, count))
  {
    FormatEntryFields(position, count);
    ParseIntOfString(position);
    ParseIntOfString(count);
  }

  /** The entries of a list of positions, the first one and then the rest. */
  lemma EntriesCons(positions: seq<int>, counts: map<int, int>)
    requires positions != []
    requires forall i :: 0 <= i < |positions| ==> positions[i] in counts
    ensures Entries(positions, counts) ==
      [FormatEntry(positions[0], counts[positions[0]])] + Entries(positions[1..], counts)
  {
    var rest := positions[1..];
    assert forall i :: 0 <= i < |rest| ==> rest[i] in counts by {
      forall i | 0 <= i < |rest| ensures rest[i] in counts {
        TailIndex(positions, i + 1);
      }
    }
    var whole := Entries(positions, counts);
    var tail := Entries(rest, counts);
    forall i | 0 <= i < |tail| ensures whole[i + 1] == tail[i] {
      TailIndex(positions, i + 1);
    }
    ConsByIndex(whole, FormatEntry(positions[0], counts[positions[0]]), tail);
  }

  /** Reading back the entries of `positions`: the positions are added to
      the map, each with its count, and every other location keeps its own. */
  lemma {:induction false} EntriesReadBack(positions: seq<int>, counts: map<int, int>, start: map<int, int>)
    requires forall i :: 0 <= i < |positions| ==> positions[i] in counts
    ensures ParseEntries(Entries(positions, counts), start).Success?
    ensures var m := ParseEntries(Entries(positions, counts), start).value;
      && m.Keys == start.Keys + Elems(positions)
      && forall p :: p in m ==> m[p] == if p in Elems(positions) then counts[p] else start[p]
    decreases |positions|
  {
    if positions != [] {
      var p := positions[0];
      var rest := positions[1..];
      EntriesStep(positions, counts, start);
      EntriesReadBack(rest, counts, start[p := counts[p]]);
      ElemsCons(positions);
      var m := ParseEntries(Entries(rest, counts), start[p := counts[p]]).value;
      forall q | q in Elems(rest) ensures q in counts {
        var i :| 0 <= i < |rest| && rest[i] == q;
        TailIndex(positions, i + 1);
      }
      AddFirst(m, start, counts, p, Elems(rest));
    }
  }

  /** The first entry line read sets its position's count. */
  lemma EntriesStep(positions: seq<int>, counts: map<int, int>, start: map<int, int>)
    requires positions != []
    requires forall i :: 0 <= i < |positions| ==> positions[i] in counts
    ensures forall i :: 0 <= i < |positions[1..]| ==> positions[1..][i] in counts
    ensures ParseEntries(Entries(positions, counts), start) ==
      ParseEntries(Entries(positions[1..], counts), start[positions[0] := counts[positions[0]]])
  {
    var p := positions[0];
    var rest := positions[1..];
    forall i | 0 <= i < |rest| ensures rest[i] in counts {
      TailIndex(positions, i + 1);
    }
    EntriesCons(positions, counts);
    EntryReadBack(p, counts[p]);
    var lines := Entries(positions, counts);
    assert lines[1..] == Entries(rest, counts);
  }

  /** The map facts of one more position read first. */
  lemma AddFirst(m: map<int, int>, start: map<int, int>, counts: map<int, int>, p: int, later: set<int>)
    requires p in counts && later <= counts.Keys
    requires m.Keys == start[p := counts[p]].Keys + later
    requires forall q :: q in m ==> m[q] == if q in later then counts[q] else start[p := counts[p]][q]
    ensures m.Keys == start.Keys + ({p} + later)
    ensures forall q :: q in m ==> m[q] == if q in {p} + later then counts[q] else start[q]
  {
  }

  // ------------------------------------------------------------- tracks

  /** The first character of a join is that of the first part, the last
      that of the last part. */
  lemma JoinEnds(parts: seq<string>, sep: string)
    requires parts != [] && parts[0] != [] && parts[|parts| - 1] != []
    ensures var j := Join(parts, sep);
      && j != [] && j[0] == parts[0][0] && j[|j| - 1] == parts[|parts| - 1][|parts[|parts| - 1]| - 1]
  {
    RestEnds(parts, sep);
    if |parts| > 1 {
      assert Join(parts, sep) == parts[0] + (sep + Join(parts[1..], sep));
    }
  }

  /** The last character of a join is that of its last part. */
  lemma {:induction false} RestEnds(parts: seq<string>, sep: string)
    requires parts != [] && parts[|parts| - 1] != []
    ensures var j := Join(parts, sep);
      j != [] && j[|j| - 1] == parts[|parts| - 1][|parts[|parts| - 1]| - 1]
    decreases |parts|
  {
    if |parts| > 1 {
      var rest := parts[1..];
      assert rest[|rest| - 1] == parts[|parts| - 1];
      RestEnds(rest, sep);
      assert Join(parts, sep) == parts[0] + sep + Join(rest, sep);
    }
  }

  /** A stripped text's "\n" pieces are the lines it was written from when
      no line holds "\n", and the first and the last line start and end
      with non-whitespace. */
  lemma LinesReadBack(lines: seq<string>)
    requires lines != [] && forall i :: 0 <= i < |lines| ==> Lacks(lines[i], '\n') && Lacks(lines[i], '\r')
    requires lines[0] != [] && !IsSpace(lines[0][0])
    requires lines[|lines| - 1] != [] && !IsSpace(lines[|lines| - 1][|lines[|lines| - 1]| - 1])
    ensures WigTextLines(Unlines(lines)) == lines
  {
    var text := Unlines(lines);
    UnlinesLacks(lines, '\r');
    UniversalPlain(text);
    StrippedUnlines(lines);
    JoinedLinesSplit(lines);
  }

  /** Stripping the written text takes off the final "\n" only. */
  lemma StrippedUnlines(lines: seq<string>)
    requires lines != []
    requires lines[0] != [] && !IsSpace(lines[0][0])
    requires lines[|lines| - 1] != [] && !IsSpace(lines[|lines| - 1][|lines[|lines| - 1]| - 1])
    ensures Strip(Unlines(lines)) == Join(lines, "\n")
  {
    UnlinesIsJoin(lines);
    var j := Join(lines, "\n");
    JoinEnds(lines, "\n");
    assert AllSpace("\n");
    StripAround([], j, "\n");
    assert [] + j + "\n" == Unlines(lines);
  }

  /** Lines without "\n", joined by "\n", split back into themselves. */
  lemma JoinedLinesSplit(lines: seq<string>)
    requires lines != [] && forall i :: 0 <= i < |lines| ==> Lacks(lines[i], '\n')
    ensures Split(Join(lines, "\n"), "\n") == lines
  {
    forall i | 0 <= i < |lines| ensures Find(lines[i] + "\n", "\n") == |lines[i]| {
      FindCharAtEnd(lines[i], '\n');
    }
    SplitJoin(lines, "\n");
  }

  /** A header `read_wig` reads back as it is: one line, with no whitespace
      at either end. */
  predicate PlainHeader(header: string) {
    header != [] && Lacks(header, '\n') && Lacks(header, '\r') && !IsSpace(header[0]) && !IsSpace(header[|header| - 1])
  }

  /** The lines of a track meet the conditions of `LinesReadBack`. */
  lemma TrackLinesPlain(header: string, positions: seq<int>, counts: map<int, int>)
    requires PlainHeader(header)
    requires forall i :: 0 <= i < |positions| ==> positions[i] in counts
    ensures var lines := [header] + Entries(positions, counts);
      && (forall i :: 0 <= i < |lines| ==> Lacks(lines[i], '\n') && Lacks(lines[i], '\r'))
      && lines[0] != [] && !IsSpace(lines[0][0])
      && lines[|lines| - 1] != [] && !IsSpace(lines[|lines| - 1][|lines[|lines| - 1]| - 1])
  {
    var entries := Entries(positions, counts);
    var lines := [header] + entries;
    forall i | 1 <= i < |lines|
      ensures lines[i] != [] && Lacks(lines[i], '\n') && Lacks(lines[i], '\r') && !IsSpace(lines[i][|lines[i]| - 1])
    {
      assert lines[i] == entries[i - 1];
      EntryShape(positions[i - 1], counts[positions[i - 1]]);
    }
  }

  /** The lines `read_wig` finds in a written track are the track's lines. */
  lemma TrackTextLines(header: string, counts: map<int, int>)
    requires PlainHeader(header)
    ensures forall i :: 0 <= i < |SortedInts(counts.Keys)| ==> SortedInts(counts.Keys)[i] in counts
    ensures WigTextLines(Unlines(WigLines(header, counts))) ==
      [header] + Entries(SortedInts(counts.Keys), counts)
  {
    var ps := SortedInts(counts.Keys);
    SortedInCounts(counts);
    TrackLinesPlain(header, ps, counts);
    LinesReadBack([header] + Entries(ps, counts));
  }

  /** Every location of the sorted key list is stored. */
  lemma SortedInCounts(counts: map<int, int>)
    ensures forall i :: 0 <= i < |SortedInts(counts.Keys)| ==> SortedInts(counts.Keys)[i] in counts
  {
    var ps := SortedInts(counts.Keys);
    forall i | 0 <= i < |ps| ensures ps[i] in counts {
      assert ps[i] in Elems(ps);
    }
  }

  /** `read_wig` reads a written track back as its header and counts. */
  lemma WigReadBack(header: string, counts: map<int, int>)
    requires PlainHeader(header)
    ensures ParseWig(Unlines(WigLines(header, counts))) == Success(Wig(header, counts))
  {
    TrackTextLines(header, counts);
    SortedEntriesReadBack(counts);
    ParseWigOf(Unlines(WigLines(header, counts)), header, Entries(SortedInts(counts.Keys), counts), counts);
  }

  /** `read_wig` on a text whose lines are a header and entry lines. */
  lemma ParseWigOf(text: string, header: string, entries: seq<string>, counts: map<int, int>)
    requires WigTextLines(text) == [header] + entries
    requires ParseEntries(entries, map[]) == Success(counts)
    ensures ParseWig(text) == Success(Wig(header, counts))
  {
    assert ([header] + entries)[1..] == entries;
  }

  /** The entries of every stored location, ascending, read back as the counts. */
  lemma SortedEntriesReadBack(counts: map<int, int>)
    ensures forall i :: 0 <= i < |SortedInts(counts.Keys)| ==> SortedInts(counts.Keys)[i] in counts
    ensures ParseEntries(Entries(SortedInts(counts.Keys), counts), map[]) == Success(counts)
  {
    var ps := SortedInts(counts.Keys);
    SortedInCounts(counts);
    EntriesReadBack(ps, counts, map[]);
    FromEmpty(ParseEntries(Entries(ps, counts), map[]).value, map[], counts, Elems(ps));
  }

  /** A map read from nothing, holding exactly the stored locations with
      their counts, is the counts. */
  lemma FromEmpty(m: map<int, int>, start: map<int, int>, counts: map<int, int>, keys: set<int>)
    requires start == map[] && keys == counts.Keys
    requires m.Keys == start.Keys + keys
    requires forall p :: p in m && p in keys ==> m[p] == counts[p]
    ensures m == counts
  {
    SameMap(m, counts);
  }

  /** Two maps with the same keys and the same value at each are equal. */
  lemma SameMap(m: map<int, int>, counts: map<int, int>)
    requires m.Keys == counts.Keys && forall p :: p in m ==> m[p] == counts[p]
    ensures m == counts
  {
    assert forall p :: p in m <==> p in counts;
    assert forall p :: p in m ==> m[p] == counts[p];
    assert m.Values == counts.Values;
  }

  // ------------------------------------------- tnseq_prepmap.py's tracks

  /** A contig name that keeps the header on one line, with no whitespace
      at its end. */
  predicate PlainContig(target: string) {
    Lacks(target, '\n') && Lacks(target, '\r') && (target == [] || !IsSpace(target[|target| - 1]))
  }

  /** The header of a plain contig reads back as it is. */
  lemma HeaderPlain(target: string)
    requires PlainContig(target)
    ensures PlainHeader(Header(target))
  {
    var h := Header(target);
    var prefix := "variableStep chrom=";
    assert h == prefix + target;
    forall i | 0 <= i < |h| ensures h[i] != '\n' && h[i] != '\r' {
      if i >= |prefix| {
        assert h[i] == target[i - |prefix|];
      }
    }
  }

  /** A contig track tnseq_prepmap.py writes is read back by
      tnseq_harmonize_wigs.py as the contig's header and its counts. */
  lemma TrackReadBack(target: string, counts: map<int, nat>)
    requires PlainContig(target)
    ensures ParseWig(Unlines(TrackLines(target, counts))) == Success(Wig(Header(target), counts))
  {
    HeaderPlain(target);
    WigReadBack(Header(target), counts);
  }

  /** Every track of a run reads back as its contig's coverage. */
  lemma TracksReadBack(prefix: string, cov: map<string, map<int, nat>>, target: string)
    requires target in cov && PlainContig(target)
    ensures target in Tracks(prefix, cov)
    ensures Tracks(prefix, cov)[target].name == TrackName(prefix, target)
    ensures ParseWig(Tracks(prefix, cov)[target].text) == Success(Wig(Header(target), cov[target]))
  {
    TrackReadBack(target, cov[target]);
  }

  /** A track written under any prefix, with or without a directory, is
      grouped under its own contig when the contig holds no "_", "/" or ".wig". */
  lemma TrackContig(prefix: string, target: string)
    requires Lacks(target, '/') && Lacks(target, '_')
    requires Find(target + ".wig", ".wig") == |target|
    ensures ContigOf(TrackName(prefix, target)) == target
  {
    ContigOfName(prefix, target);
  }

  // ----------------------------------- tnseq_harmonize_wigs.py run twice

  /** Files that each parse to the given tracks are read as those tracks. */
  lemma {:induction false} ReadWritten(names: seq<string>, fs: map<string, string>, wigs: seq<Wig>, acc: seq<Wig>)
    requires |names| == |wigs|
    requires forall j :: 0 <= j < |names| ==> names[j] in fs && ParseWig(fs[names[j]]) == Success(wigs[j])
    ensures ReadFrom(names, fs, acc) == Success(acc + wigs)
    decreases |names|
  {
    if names == [] {
      assert acc + wigs == acc;
    } else {
      assert names[0] in fs && ParseWig(fs[names[0]]) == Success(wigs[0]);
      forall j | 0 <= j < |names[1..]|
        ensures names[1..][j] in fs && ParseWig(fs[names[1..][j]]) == Success(wigs[1..][j])
      {
        TailIndex(names, j + 1);
        TailIndex(wigs, j + 1);
      }
      ReadWritten(names[1..], fs, wigs[1..], acc + [wigs[0]]);
      AppendHeadTail(acc, wigs);
    }
  }

  /** The headers of the tracks a group read yields read back as they are. */
  predicate PlainHeaders(wigs: seq<Wig>) {
    forall j :: 0 <= j < |wigs| ==> PlainHeader(wigs[j].header)
  }

  /** Running the harmonization again on its own output writes the same
      texts: each harmonized file reads back as its harmonized track, and
      harmonized tracks are harmonized already. */
  lemma HarmonizeAgain(names: seq<string>, fs: map<string, string>, again: seq<string>, fs2: map<string, string>)
    requires ReadFrom(names, fs, []).Success? && PlainHeaders(ReadFrom(names, fs, []).value)
    requires |again| == |names|
    requires forall j :: 0 <= j < |again| ==>
      again[j] in fs2 && fs2[again[j]] == GroupFiles(names, fs).value[j].text
    ensures GroupFiles(again, fs2).Success?
    ensures |GroupFiles(again, fs2).value| == |names|
    ensures forall j :: 0 <= j < |names| ==>
      GroupFiles(again, fs2).value[j].text == GroupFiles(names, fs).value[j].text
  {
    var wigs := ReadFrom(names, fs, []).value;
    var out := HarmonizeWigs(wigs);
    SecondRead(names, fs, again, fs2);
    HarmonizeIdempotent(wigs);
    assert GroupFiles(again, fs2) == Success(HarmonizedFiles(again, out));
    assert GroupFiles(names, fs) == Success(HarmonizedFiles(names, out));
    SameTexts(names, again, out);
  }

  /** The second run reads the harmonized tracks of the first. */
  lemma SecondRead(names: seq<string>, fs: map<string, string>, again: seq<string>, fs2: map<string, string>)
    requires ReadFrom(names, fs, []).Success? && PlainHeaders(ReadFrom(names, fs, []).value)
    requires |again| == |names|
    requires forall j :: 0 <= j < |again| ==>
      again[j] in fs2 && fs2[again[j]] == GroupFiles(names, fs).value[j].text
    ensures ReadFrom(again, fs2, []) == Success(HarmonizeWigs(ReadFrom(names, fs, []).value))
  {
    var wigs := ReadFrom(names, fs, []).value;
    var out := HarmonizeWigs(wigs);
    assert GroupFiles(names, fs) == Success(HarmonizedFiles(names, out));
    HarmonizedReadBack(names, wigs, again, fs2);
    ReadWritten(again, fs2, out, []);
    assert [] + out == out;
  }

  /** The harmonized files of the same tracks under other names hold the same texts. */
  lemma SameTexts(names: seq<string>, again: seq<string>, out: seq<Wig>)
    requires |names| == |out| && |again| == |names|
    ensures forall j :: 0 <= j < |names| ==>
      HarmonizedFiles(again, out)[j].text == HarmonizedFiles(names, out)[j].text
  {
  }

  /** Each harmonized file reads back as its harmonized track. */
  lemma HarmonizedReadBack(names: seq<string>, wigs: seq<Wig>, again: seq<string>, fs2: map<string, string>)
    requires |names| == |wigs| && PlainHeaders(wigs) && |again| == |names|
    requires forall j :: 0 <= j < |again| ==>
      again[j] in fs2 && fs2[again[j]] == HarmonizedFiles(names, HarmonizeWigs(wigs))[j].text
    ensures forall j :: 0 <= j < |again| ==>
      again[j] in fs2 && ParseWig(fs2[again[j]]) == Success(HarmonizeWigs(wigs)[j])
  {
    var out := HarmonizeWigs(wigs);
    forall j | 0 <= j < |again| ensures ParseWig(fs2[again[j]]) == Success(out[j]) {
      assert out[j].header == wigs[j].header;
      assert fs2[again[j]] == Unlines(WigLines(out[j].header, out[j].counts));
      WigReadBack(out[j].header, out[j].counts);
    }
  }

  // ------------------------------ tnseq_prepmap.py's statistics, combined

  /** The labels of a statistics file, in the order they are written. */
  const StatsFileLabels: seq<string> := ["command"] + StatsLabels

  /** The values of a statistics file: the command line, then the counters. */
  function StatsFileValues(command: string, c: Counters): (values: seq<string>)
    ensures |values| == |StatsFileLabels| && values[0] == command
    ensures forall k :: 0 <= k < |StatsLabels| ==> values[k + 1] == IntToString(StatsValues(c)[k])
  {
    [command] + seq(|StatsLabels|, k requires 0 <= k < |StatsLabels| => IntToString(StatsValues(c)[k]))
  }

  /** `write_stats` writes the labels and values as `label: value` lines. */
  lemma StatsLinesWritten(command: string, c: Counters)
    ensures StatsLines(command, c) == Written(StatsFileLabels, StatsFileValues(command, c))
  {
    var lines := StatsLines(command, c);
    var w := Written(StatsFileLabels, StatsFileValues(command, c));
    forall i | 0 <= i < |lines| ensures lines[i] == w[i] {
      if i > 0 {
        assert StatsFileLabels[i] == StatsLabels[i - 1];
      }
    }
  }

  /** Lower-case letters and underscores. */
  predicate Word(s: string) {
    forall i :: 0 <= i < |s| ==> 'a' <= s[i] <= 'z' || s[i] == '_'
  }

  /** Every label is a word. */
  lemma LabelsAreWords()
    ensures forall k :: 0 <= k < |StatsFileLabels| ==> StatsFileLabels[k] != [] && Word(StatsFileLabels[k])
  {
    ReadLabelsAreWords();
    AdapterLabelsAreWords();
    MapLabelsAreWords();
    forall k | 0 <= k < |StatsFileLabels| ensures StatsFileLabels[k] != [] && Word(StatsFileLabels[k]) {
    }
  }

  /** The read counters' labels, and the command's, are words. */
  lemma ReadLabelsAreWords()
    ensures Word("command") && Word("total_reads") && Word("correct_length")
  {
  }

  /** The adapter counters' labels are words. */
  lemma AdapterLabelsAreWords()
    ensures Word("with_perfect_adapter") && Word("with_mismatched_adapter") && Word("with_adapter")
  {
  }

  /** The mapping counters' labels are words. */
  lemma MapLabelsAreWords()
    ensures Word("total_mapped") && Word("perfect_matches") && Word("unique_perfect_matches")
  {
  }

  /** Every label is free of whitespace and ":". */
  lemma LabelsPlain()
    ensures forall k :: 0 <= k < |StatsFileLabels| ==>
      StatsFileLabels[k] != [] && NoSpace(StatsFileLabels[k]) && Lacks(StatsFileLabels[k], ':')
  {
    LabelsAreWords();
  }

  /** No label is written twice. */
  lemma LabelsDistinct()
    ensures forall i, j :: 0 <= i < j < |StatsFileLabels| ==> StatsFileLabels[i] != StatsFileLabels[j]
  {
  }

  /** A word label and a number read back as written. */
  lemma NumberWritable(key: string, n: int)
    requires key != [] && NoSpace(key) && Lacks(key, ':')
    ensures Writable(key, IntToString(n))
  {
    var v := IntToString(n);
    FindAbsent(key, ": ");
    assert Lacks(v, ':');
    FindAbsent(v, ": ");
  }

  /** The lines of a statistics file all read back when the command line does. */
  lemma StatsFileWritable(command: string, c: Counters)
    requires Writable("command", command)
    ensures forall i :: 0 <= i < |StatsFileLabels| ==>
      Writable(StatsFileLabels[i], StatsFileValues(command, c)[i])
  {
    LabelsPlain();
    var values := StatsFileValues(command, c);
    forall i | 1 <= i < |StatsFileLabels| ensures Writable(StatsFileLabels[i], values[i]) {
      NumberWritable(StatsFileLabels[i], StatsValues(c)[i - 1]);
    }
  }

  /** tnseq_combine_stats.py reads the statistics file of a run back as its
      labels in the order written, each with its own value: the command
      line, then every counter as a decimal number. */
  lemma StatsReadBack(command: string, c: Counters)
    requires Writable("command", command)
    ensures StatsOf(Unlines(StatsLines(command, c))).Success?
    ensures var (m, labels) := StatsOf(Unlines(StatsLines(command, c))).value;
      && labels == StatsFileLabels
      && m.Keys == Elems(StatsFileLabels)
      && forall i :: 0 <= i < |StatsFileLabels| ==> m[StatsFileLabels[i]] == StatsFileValues(command, c)[i]
  {
    var keys, values := StatsFileLabels, StatsFileValues(command, c);
    StatsLinesWritten(command, c);
    StatsFileWritable(command, c);
    ReadBackStats(keys, values);
    StatsStored(command, c);
  }

  /** Setting the labels of a statistics file in turn gives each its value:
      no label is written twice. */
  lemma StatsStored(command: string, c: Counters)
    ensures var m := Stored(StatsFileLabels, StatsFileValues(command, c), map[]);
      && m.Keys == Elems(StatsFileLabels)
      && forall i :: 0 <= i < |StatsFileLabels| ==> m[StatsFileLabels[i]] == StatsFileValues(command, c)[i]
  {
    var keys, values := StatsFileLabels, StatsFileValues(command, c);
    StoredKeys(keys, values, map[]);
    LabelsDistinct();
    forall i | 0 <= i < |keys| ensures Stored(keys, values, map[])[keys[i]] == values[i] {
      StoredLast(keys, values, map[], i);
    }
  }

  /** The row of a statistics file read back: its values in label order. */
  lemma StatsRow(m: map<string, string>, command: string, c: Counters)
    requires m.Keys == Elems(StatsFileLabels)
    requires forall i :: 0 <= i < |StatsFileLabels| ==> m[StatsFileLabels[i]] == StatsFileValues(command, c)[i]
    ensures RowValues(m, StatsFileLabels) == Some(StatsFileValues(command, c))
  {
    var labels := StatsFileLabels;
    forall k | 0 <= k < |labels| ensures labels[k] in m {
      assert labels[k] in Elems(labels);
    }
    var r := RowValues(m, labels).value;
    assert r == StatsFileValues(command, c);
  }

  /** The table of rows printed for `names` when each is a run's statistics file. */
  function StatsTable(names: seq<string>, commands: seq<string>, counters: seq<Counters>): (rows: seq<string>)
    requires |commands| == |names| && |counters| == |names|
    ensures |rows| == |names|
  {
    seq(|names|, i requires 0 <= i < |names| => Join([names[i]] + StatsFileValues(commands[i], counters[i]), "\t"))
  }

  /** A statistics file written by each run on the command line. */
  predicate RunFiles(names: seq<string>, fs: map<string, string>, commands: seq<string>, counters: seq<Counters>) {
    && |commands| == |names| && |counters| == |names|
    && forall i :: 0 <= i < |names| ==>
      names[i] in fs && fs[names[i]] == Unlines(StatsLines(commands[i], counters[i])) && Writable("command", commands[i])
  }

  /** tnseq_combine_stats.py over statistics files of tnseq_prepmap.py runs
      prints the header "sample", "command" and the counter labels, then
      one row per file in command-line order: its name, its command line and
      its counters; nothing goes wrong. */
  lemma CombineRuns(names: seq<string>, fs: map<string, string>, commands: seq<string>, counters: seq<Counters>)
    requires |names| >= 1 && RunFiles(names, fs, commands, counters)
    ensures Combined(names, fs) == ([HeaderRow(StatsFileLabels)] + StatsTable(names, commands, counters), None)
  {
    RunsRead(names, fs, commands, counters);
    var (data, labels) := ReadAll(names, fs, map[], []).value;
    RunsRows(names, data, commands, counters);
    CombinedOf(names, fs, data, labels, StatsTable(names, commands, counters));
  }

  /** Reading the statistics files of runs: the labels of a statistics
      file, and for every file the row of its own values. */
  lemma RunsRead(names: seq<string>, fs: map<string, string>, commands: seq<string>, counters: seq<Counters>)
    requires |names| >= 1 && RunFiles(names, fs, commands, counters)
    ensures ReadAll(names, fs, map[], []).Success?
    ensures var (data, labels) := ReadAll(names, fs, map[], []).value;
      && labels == StatsFileLabels
      && (forall n :: n in names ==> n in data)
      && forall i :: 0 <= i < |names| ==>
        RowValues(data[names[i]], labels) == Some(StatsFileValues(commands[i], counters[i]))
  {
    forall i | 0 <= i < |names| ensures StatsOf(fs[names[i]]).Success? {
      StatsReadBack(commands[i], counters[i]);
    }
    ReadAllSucceeds(names, fs, map[], []);
    var (data, labels) := ReadAll(names, fs, map[], []).value;
    ReadAllFiles(names, fs, map[], []);
    ReadAllLabels(names, fs, map[], []);
    StatsReadBack(commands[|names| - 1], counters[|names| - 1]);
    forall i | 0 <= i < |names|
      ensures RowValues(data[names[i]], StatsFileLabels) == Some(StatsFileValues(commands[i], counters[i]))
    {
      StatsReadBack(commands[i], counters[i]);
      assert names[i] in names;
      StatsRow(data[names[i]], commands[i], counters[i]);
    }
  }

  /** Rows with every label present are the rows of the table. */
  lemma RunsRows(names: seq<string>, data: map<string, map<string, string>>, commands: seq<string>, counters: seq<Counters>)
    requires |commands| == |names| && |counters| == |names|
    requires forall n :: n in names ==> n in data
    requires forall i :: 0 <= i < |names| ==>
      RowValues(data[names[i]], StatsFileLabels) == Some(StatsFileValues(commands[i], counters[i]))
    ensures Rows(names, data, StatsFileLabels) == (StatsTable(names, commands, counters), None)
  {
    forall i, k | 0 <= i < |names| && 0 <= k < |StatsFileLabels| ensures StatsFileLabels[k] in data[names[i]] {
      assert RowValues(data[names[i]], StatsFileLabels).Some?;
    }
    RowsOfFiles(names, data, StatsFileLabels);
    var rows := Rows(names, data, StatsFileLabels).0;
    var table := StatsTable(names, commands, counters);
    assert Rows(names, data, StatsFileLabels).1 == None;
    forall i | 0 <= i < |names| ensures rows[i] == table[i] {
    }
    assert rows == table;
  }
}
