/**
 * One run of tnseq_prepmap.py after its inputs are read: the read loop, the
 * SAM loop over the aligner's output, one wig track per contig, and the
 * statistics file with the derived `with_adapter` counter.
 */
module PrepmapRun {
  import opened Wrappers
  import opened Text
  import opened Ordering
  import opened WigFormat
  import opened Prepmap
  import opened Coverage

  /** `f"{prefix}_{target}.wig"` */
  function TrackName(prefix: string, target: string): string {
    prefix + "_" + target + ".wig"
  }

  /** A contig's track: the header, then one entry per position, ascending. */
  ghost function TrackLines(target: string, counts: map<int, nat>): seq<string> {
    WigLines(Header(target), counts)
  }

  /** A contig's track starts with its header; a contig with no stored
      position (mapped records, none of them unique perfect) gets the header
      line alone. The entry lines are described by `WigLinesShape`. */
  lemma TrackLinesShape(target: string, counts: map<int, nat>)
    ensures TrackLines(target, counts) != [] && TrackLines(target, counts)[0] == Header(target)
    ensures counts == map[] ==> TrackLines(target, counts) == [Header(target)]
  {
    WigLinesShape(Header(target), counts);
    if counts == map[] {
      var ps := SortedInts(counts.Keys);
      if ps != [] {
        HeadInElems(ps);
      }
    }
  }

  /** Lines 141-145: sort the positions, write the header and one line per position. */
  method WriteTrack(target: string, counts: map<int, nat>) returns (text: string)
    ensures text == Unlines(TrackLines(target, counts))
  {
    var positions := SortInts(counts.Keys);
    StoredPositions(positions, counts);
    text := WriteLines(Header(target), positions, counts);
  }

  /** The header line, then the entry of each position in the given order. */
  method WriteLines(header: string, positions: seq<int>, counts: map<int, int>) returns (text: string)
    requires forall k :: 0 <= k < |positions| ==> positions[k] in counts
    ensures text == Unlines([header] + Entries(positions, counts))
  {
    text := header + "\n";
    EntryLinesStart(header, counts);
    ghost var done: seq<int> := [];
    var i := 0;
    while i < |positions|
      invariant 0 <= i <= |positions| && done == positions[..i]
      invariant forall k :: 0 <= k < |done| ==> done[k] in counts
      invariant text == Unlines([header] + Entries(done, counts))
    {
      EntryLinesSnoc(header, done, positions[i], counts);
      SliceSnoc(positions, i);
      text := text + FormatEntry(positions[i], counts[positions[i]]) + "\n";
      done := done + [positions[i]];
      i := i + 1;
    }
    assert done == positions;
  }

  /** The sorted positions are keys of the count map. */
  lemma StoredPositions(positions: seq<int>, counts: map<int, nat>)
    requires Elems(positions) == counts.Keys
    ensures forall k :: 0 <= k < |positions| ==> positions[k] in counts
  {
    forall k | 0 <= k < |positions| ensures positions[k] in counts {
      assert positions[k] in Elems(positions);
    }
  }

  /** The files lines 139-145 write: one per contig of the coverage map. */
  ghost function Tracks(prefix: string, cov: Coverage): map<string, TrackFile> {
    map t | t in cov :: TrackFile(TrackName(prefix, t), Unlines(TrackLines(t, cov[t])))
  }

  /** Writing one more pending key: the map without the remaining keys gains
      that key's entry. */
  lemma RemovePending<K, V>(m: map<K, V>, pending: set<K>, t: K)
    requires t in pending && t in m
    ensures m - (pending - {t}) == (m - pending)[t := m[t]]
  {
    var a, b := m - (pending - {t}), (m - pending)[t := m[t]];
    assert forall u :: u in a <==> u in b;
    assert forall u :: u in a ==> a[u] == b[u];
  }

  /** The loop over the contigs of the coverage map. */
  method WriteTracks(prefix: string, cov: Coverage) returns (tracks: map<string, TrackFile>)
    ensures tracks == Tracks(prefix, cov)
  {
    ghost var all := Tracks(prefix, cov);
    assert all.Keys == cov.Keys;
    RemoveAll(all);
    tracks := map[];
    var pending := cov.Keys;
    while pending != {}
      invariant pending <= cov.Keys
      invariant tracks == all - pending
      decreases pending
    {
      var t :| t in pending;
      var text := WriteTrack(t, cov[t]);
      RemovePending(all, pending, t);
      tracks := tracks[t := TrackFile(TrackName(prefix, t), text)];
      pending := pending - {t};
    }
    RemoveNone(all);
  }

  /** Without all its keys a map is empty. */
  lemma RemoveAll<K, V>(m: map<K, V>)
    ensures m - m.Keys == map[]
  {
    assert (m - m.Keys).Keys == {};
  }

  /** Without no key a map is itself. */
  lemma RemoveNone<K, V>(m: map<K, V>)
    ensures m - {} == m
  {
    var a := m - {};
    assert forall u :: u in a <==> u in m;
    assert forall u :: u in a ==> a[u] == m[u];
  }

  /** The labels of the statistics file, in the order of the `stats` dictionary. */
  const StatsLabels: seq<string> := [
    "total_reads", "correct_length", "with_perfect_adapter", "with_mismatched_adapter",
    "total_mapped", "perfect_matches", "unique_perfect_matches", "with_adapter"]

  /** The counter values in the same order, `with_adapter` last (line 150). */
  function StatsValues(c: Counters): (v: seq<nat>)
    ensures |v| == |StatsLabels| && v[7] == v[2] + v[3]
  {
    [c.totalReads, c.correctLength, c.withPerfectAdapter, c.withMismatchedAdapter,
     c.totalMapped, c.perfectMatches, c.uniquePerfectMatches, WithAdapter(c)]
  }

  /** The lines of the statistics file `write_stats` writes: the command, then
      one `label: value` line per counter. */
  function StatsLines(command: string, c: Counters): (lines: seq<string>)
    ensures |lines| == 1 + |StatsLabels| && lines[0] == "command: " + command
    ensures forall k :: 0 <= k < |StatsLabels| ==>
      lines[k + 1] == StatsLabels[k] + ": " + IntToString(StatsValues(c)[k])
  {
    ["command: " + command] +
      seq(|StatsLabels|, k requires 0 <= k < |StatsLabels| => StatsLabels[k] + ": " + IntToString(StatsValues(c)[k]))
  }

  /** Everything a run writes: the inserts, the tracks and the statistics text. */
  datatype Output = Output(inserts: seq<Read>, tracks: map<string, TrackFile>, statsText: string)

  /** The read loop from zeroed counters, then the SAM loop from where it left them. */
  ghost function Counted(cfg: Config, records: seq<Read>, sam: seq<string>): Result<(Counters, seq<Read>, Coverage), Fault> {
    match TrimAll(cfg, Zero(), records)
    case Failure(e) => Failure(e)
    case Success((c1, inserts)) =>
      match ReduceFrom(c1, map[], sam)
      case Failure(e) => Failure(e)
      case Success((c2, cov)) => Success((c2, inserts, cov))
  }

  /** `main` of tnseq_prepmap.py, given the reads, the aligner's SAM lines for
      the inserts, the output prefix and the command line. */
  method Run(cfg: Config, prefix: string, command: string, records: seq<Read>, sam: seq<string>)
    returns (r: Result<Output, Fault>)
    ensures Counted(cfg, records, sam).Failure? ==> r == Failure(Counted(cfg, records, sam).error)
    ensures Counted(cfg, records, sam).Success? ==>
      var (c, inserts, cov) := Counted(cfg, records, sam).value;
      r == Success(Output(inserts, Tracks(prefix, cov), Unlines(StatsLines(command, c))))
  {
    var stats := new Stats();
    var trimmed := FilterAndTrim(cfg, records, stats);
    if trimmed.Failure? {
      return Failure(trimmed.error);
    }
    var coverage := ReduceSam(sam, stats);
    if coverage.Failure? {
      return Failure(coverage.error);
    }
    var tracks := WriteTracks(prefix, coverage.value);
    var lines := StatsLines(command, stats.Value());
    return Success(Output(trimmed.value, tracks, Unlines(lines)));
  }

  /** At the end of a run: `with_adapter <= correct_length <= total_reads`,
      `unique_perfect_matches <= perfect_matches <= total_mapped`, every stored
      count is at least 1 and the counts add up to `unique_perfect_matches`. */
  lemma RunBounds(cfg: Config, records: seq<Read>, sam: seq<string>)
    requires Counted(cfg, records, sam).Success?
    ensures var (c, inserts, cov) := Counted(cfg, records, sam).value;
      && WithAdapter(c) <= c.correctLength <= c.totalReads == |records|
      && |inserts| <= WithAdapter(c)
      && c.uniquePerfectMatches <= c.perfectMatches <= c.totalMapped
      && (forall t, p :: t in cov && p in cov[t] ==> cov[t][p] >= 1)
      && Total(cov) == c.uniquePerfectMatches
  {
    TrimAllBounds(cfg, Zero(), records);
    var (c1, inserts) := TrimAll(cfg, Zero(), records).value;
    EmptyCoverageTotal();
    ReduceFromKeeps(c1, map[], sam);
  }
}
