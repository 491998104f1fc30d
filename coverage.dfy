/**
 * The SAM reduction of tnseq_prepmap.py (lines 114-136): each alignment line
 * is checked for its flag and its bowtie2 tags, the mapping counters go up,
 * and unique perfect hits are counted per contig and position.
 */
module Coverage {
  import opened Wrappers
  import opened Text
  import opened Ordering
  import opened Prepmap

  /** `coverage`: contig -> position -> number of unique perfect hits there. */
  type Coverage = map<string, map<int, nat>>

  // ------------------------------------------------------- sums of maps

  /** Some key of a non-empty map. */
  ghost function AnyKey<K>(m: map<K, nat>): (k: K)
    requires m != map[]
    ensures k in m
  {
    assert m.Keys != {};
    var k :| k in m.Keys; k
  }

  /** The sum of the values of a map. */
  ghost function SumOf<K>(m: map<K, nat>): nat
    decreases m.Keys
  {
    if m == map[] then 0
    else
      var k := AnyKey(m);
      assert (m - {k}).Keys < m.Keys;
      m[k] + SumOf(m - {k})
  }

  /** Any one key can be taken out of the sum first. */
  lemma {:induction false} SumRemove<K>(m: map<K, nat>, k: K)
    requires k in m
    ensures SumOf(m) == m[k] + SumOf(m - {k})
    decreases m.Keys
  {
    var j := AnyKey(m);
    if j != k {
      assert (m - {j}).Keys < m.Keys;
      assert (m - {k}).Keys < m.Keys;
      SumRemove(m - {j}, k);
      SumRemove(m - {k}, j);
      assert m - {j} - {k} == m - {k} - {j};
    }
  }

  /** Setting one entry changes the sum by the difference at that entry. */
  lemma SumUpdate<K>(m: map<K, nat>, k: K, v: nat)
    ensures SumOf(m[k := v]) + (if k in m then m[k] else 0) == SumOf(m) + v
  {
    SumRemove(m[k := v], k);
    assert m[k := v] - {k} == m - {k};
    if k in m {
      SumRemove(m, k);
    } else {
      assert m - {k} == m;
    }
  }

  /** The per-contig totals. */
  ghost function Totals(cov: Coverage): map<string, nat> {
    map t | t in cov :: SumOf(cov[t])
  }

  /** The number of hits stored in the whole coverage map. */
  ghost function Total(cov: Coverage): nat {
    SumOf(Totals(cov))
  }

  /** Replacing one contig's counts changes the total by the difference of its sums. */
  lemma TotalUpdate(cov: Coverage, t: string, counts: map<int, nat>)
    ensures Total(cov[t := counts]) + (if t in cov then SumOf(cov[t]) else 0) == Total(cov) + SumOf(counts)
  {
    assert Totals(cov[t := counts]) == Totals(cov)[t := SumOf(counts)];
    SumUpdate(Totals(cov), t, SumOf(counts));
  }

  // --------------------------------------------------------- one line

  /** `line.rstrip('\n').split('\t')` */
  function Fields(line: string): seq<string> {
    Split(RStripChar(line, '\n'), "\t")
  }

  /** `lineg[11:]`: the optional tags. */
  function Tags(fields: seq<string>): seq<string> {
    if |fields| > 11 then fields[11..] else []
  }

  /** The tags of a perfect alignment (no mismatch). */
  predicate IsPerfect(tags: seq<string>) {
    "XM:i:0" in tags
  }

  /** A perfect alignment without a second perfect hit. */
  predicate IsUnique(tags: seq<string>) {
    IsPerfect(tags) && !("AS:i:0" in tags && "XS:i:0" in tags)
  }

  /** `coverage[target][position] += 1`, creating the entries as needed. */
  function Bump(cov: Coverage, target: string, position: int): (d: Coverage)
    ensures d.Keys == cov.Keys + {target}
  {
    var counts := if target in cov then cov[target] else map[];
    cov[target := counts[position := (if position in counts then counts[position] else 0) + 1]]
  }

  /** The effect of an aligned record with this contig, position and tags. */
  function Aligned(c: Counters, cov: Coverage, target: string, position: int, tags: seq<string>): (Counters, Coverage) {
    var c1 := c.(totalMapped := c.totalMapped + 1);
    var cov1 := if target in cov then cov else cov[target := map[]];
    if !IsPerfect(tags) then (c1, cov1)
    else
      var c2 := c1.(perfectMatches := c1.perfectMatches + 1);
      if !IsUnique(tags) then (c2, cov1)
      else (c2.(uniquePerfectMatches := c2.uniquePerfectMatches + 1), Bump(cov1, target, position))
  }

  /** The effect of one line of the SAM file on the counters and the coverage. */
  function ReduceLine(c: Counters, cov: Coverage, line: string): Result<(Counters, Coverage), Fault> {
    if |line| == 0 then Failure(IndexError)
    else if line[0] == '@' then Success((c, cov))
    else
      var fields := Fields(line);
      if |fields| < 2 then Failure(IndexError)
      else if fields[1] == "4" then Success((c, cov))
      else if |fields| < 4 then Failure(IndexError)
      else
        match ParseInt(fields[3])
        case None => Failure(ValueError)
        case Some(position) => Success(Aligned(c, cov, fields[2], position, Tags(fields)))
  }

  /** The loop over all lines, from the current state to the end. */
  function ReduceFrom(c: Counters, cov: Coverage, lines: seq<string>): Result<(Counters, Coverage), Fault>
    decreases |lines|
  {
    if lines == [] then Success((c, cov))
    else
      match ReduceLine(c, cov, lines[0])
      case Failure(e) => Failure(e)
      case Success((c', cov')) => ReduceFrom(c', cov', lines[1..])
  }

  /** Lines 122-136 for an aligned record: the counters and the coverage entry. */
  method CountAligned(target: string, position: int, tags: seq<string>, stats: Stats, coverage: Coverage)
    returns (updated: Coverage)
    modifies stats
    ensures (stats.Value(), updated) == Aligned(old(stats.Value()), coverage, target, position, tags)
  {
    stats.totalMapped := stats.totalMapped + 1;
    updated := coverage;
    if target !in updated {
      updated := updated[target := map[]];
    }
    if "XM:i:0" in tags {
      stats.perfectMatches := stats.perfectMatches + 1;
      if !("AS:i:0" in tags && "XS:i:0" in tags) {
        stats.uniquePerfectMatches := stats.uniquePerfectMatches + 1;
        ghost var before := updated;
        var counts := updated[target];
        if position !in counts {
          counts := counts[position := 0];
        }
        ghost var original := before[target];
        ghost var n := if position in original then original[position] else 0;
        assert counts[position] == n;
        assert counts[position := n + 1] == original[position := n + 1];
        updated := updated[target := counts[position := counts[position] + 1]];
        assert updated == Bump(before, target, position);
      }
    }
  }

  /** The body of the SAM loop for one line. */
  method ReduceSamLine(line: string, stats: Stats, coverage: Coverage) returns (r: Result<Coverage, Fault>)
    modifies stats
    ensures r.Success? ==> ReduceLine(old(stats.Value()), coverage, line) == Success((stats.Value(), r.value))
    ensures r.Failure? ==> ReduceLine(old(stats.Value()), coverage, line) == Failure(r.error)
  {
    if |line| == 0 {
      return Failure(IndexError);
    }
    if line[0] == '@' {
      return Success(coverage);
    }
    var fields := Fields(line);
    if |fields| < 2 {
      return Failure(IndexError);
    }
    var flag := fields[1];
    if flag == "4" {
      return Success(coverage);
    }
    // Python bumps total_mapped before it reads the contig and position
    // fields; a run that fails there writes no statistics, so the order
    // does not show.
    if |fields| < 4 {
      return Failure(IndexError);
    }
    var target := fields[2];
    var parsed := ParseInt(fields[3]);
    if parsed.None? {
      return Failure(ValueError);
    }
    var tags := if |fields| > 11 then fields[11..] else [];
    RecordFields(stats.Value(), coverage, line);
    var updated := CountAligned(target, parsed.value, tags, stats, coverage);
    return Success(updated);
  }

  /** The SAM loop of `main`: the counters in `stats` and the coverage map. */
  method ReduceSam(lines: seq<string>, stats: Stats) returns (r: Result<Coverage, Fault>)
    modifies stats
    ensures r.Success? ==> ReduceFrom(old(stats.Value()), map[], lines) == Success((stats.Value(), r.value))
    ensures r.Failure? ==> ReduceFrom(old(stats.Value()), map[], lines) == Failure(r.error)
  {
    ghost var c0 := stats.Value();
    var coverage: Coverage := map[];
    var i := 0;
    while i < |lines|
      invariant 0 <= i <= |lines|
      invariant ReduceFrom(stats.Value(), coverage, lines[i..]) == ReduceFrom(c0, map[], lines)
    {
      SliceCons(lines, i);
      var step := ReduceSamLine(lines[i], stats, coverage);
      if step.Failure? {
        return Failure(step.error);
      }
      coverage := step.value;
      i := i + 1;
    }
    return Success(coverage);
  }

  // ------------------------------------------------- what the loop keeps

  /** What holds of the counters and the coverage map throughout the SAM loop:
      unique <= perfect <= mapped, every stored count is at least 1, and the
      counts add up to the number of unique perfect matches. */
  ghost predicate SamBounds(c: Counters, cov: Coverage) {
    && c.uniquePerfectMatches <= c.perfectMatches <= c.totalMapped
    && (forall t, p :: t in cov && p in cov[t] ==> cov[t][p] >= 1)
    && Total(cov) == c.uniquePerfectMatches
  }

  lemma EmptyCoverageTotal()
    ensures Total(map[]) == 0
  {
    assert Totals(map[]) == map[];
  }

  /** Comment lines and unaligned records leave everything as it was. */
  lemma SkippedLines(c: Counters, cov: Coverage, line: string)
    requires line != [] && (line[0] == '@' || (|Fields(line)| >= 2 && Fields(line)[1] == "4"))
    ensures ReduceLine(c, cov, line) == Success((c, cov))
  {
  }

  /** One aligned record: `total_mapped` goes up by one, `perfect_matches`
      exactly when it carries XM:i:0, `unique_perfect_matches` and the count at
      its contig and position exactly when it also lacks the pair AS:i:0 and
      XS:i:0; its contig gets an entry in any case; the read counters stay. */
  lemma AlignedRecord(c: Counters, cov: Coverage, target: string, position: int, tags: seq<string>)
    ensures var (d, cov') := Aligned(c, cov, target, position, tags);
      && d.totalMapped == c.totalMapped + 1
      && d.perfectMatches == c.perfectMatches + (if IsPerfect(tags) then 1 else 0)
      && d.uniquePerfectMatches == c.uniquePerfectMatches + (if IsUnique(tags) then 1 else 0)
      && d.(totalMapped := c.totalMapped, perfectMatches := c.perfectMatches,
            uniquePerfectMatches := c.uniquePerfectMatches) == c
      && target in cov' && cov'.Keys == cov.Keys + {target}
      && (forall t :: t in cov && t != target ==> cov'[t] == cov[t])
      && (!IsUnique(tags) ==> cov'[target] == (if target in cov then cov[target] else map[]))
      && (IsUnique(tags) ==>
            var before := if target in cov && position in cov[target] then cov[target][position] else 0;
            && cov'[target].Keys == (if target in cov then cov[target].Keys else {}) + {position}
            && cov'[target][position] == before + 1
            && forall p :: p in cov'[target] && p != position ==> cov'[target][p] == cov[target][p])
  {
  }

  /** Which lines are aligned records, and how their fields are read. */
  lemma RecordFields(c: Counters, cov: Coverage, line: string)
    requires line != [] && line[0] != '@'
    requires |Fields(line)| >= 4 && Fields(line)[1] != "4"
    requires ParseInt(Fields(line)[3]).Some?
    ensures var fields := Fields(line);
      ReduceLine(c, cov, line) == Success(Aligned(c, cov, fields[2], ParseInt(fields[3]).value, Tags(fields)))
  {
  }

  /** An aligned record keeps `SamBounds` and leaves the read counters alone. */
  lemma AlignedKeeps(c: Counters, cov: Coverage, target: string, position: int, tags: seq<string>)
    requires SamBounds(c, cov)
    ensures var (d, cov') := Aligned(c, cov, target, position, tags);
      && SamBounds(d, cov')
      && d.totalReads == c.totalReads && d.correctLength == c.correctLength
      && WithAdapter(d) == WithAdapter(c)
      && cov.Keys <= cov'.Keys
  {
    var cov1 := if target in cov then cov else cov[target := map[]];
    if target !in cov {
      AddContig(cov, target);
    }
    if IsUnique(tags) {
      BumpTotal(cov1, target, position);
    }
  }

  /** A new contig with no hits adds nothing to the total. */
  lemma AddContig(cov: Coverage, target: string)
    requires target !in cov
    ensures Total(cov[target := map[]]) == Total(cov)
  {
    var none: map<int, nat> := map[];
    TotalUpdate(cov, target, none);
    assert SumOf(none) == 0;
  }

  /** One more hit adds one to the total, and keeps every count at least 1. */
  lemma BumpTotal(cov: Coverage, target: string, position: int)
    requires target in cov
    requires forall t, p :: t in cov && p in cov[t] ==> cov[t][p] >= 1
    ensures Total(Bump(cov, target, position)) == Total(cov) + 1
    ensures forall t, p :: t in Bump(cov, target, position) && p in Bump(cov, target, position)[t] ==>
      Bump(cov, target, position)[t][p] >= 1
  {
    var counts := cov[target];
    var n := if position in counts then counts[position] else 0;
    var d := cov[target := counts[position := n + 1]];
    assert Bump(cov, target, position) == d;
    SumUpdate(counts, position, n + 1);
    TotalUpdate(cov, target, counts[position := n + 1]);
    BumpPositive(cov, target, counts[position := n + 1], d);
  }

  /** Replacing a contig's counts by counts of at least 1 keeps every count at least 1. */
  lemma BumpPositive(cov: Coverage, target: string, counts: map<int, nat>, d: Coverage)
    requires forall t, p :: t in cov && p in cov[t] ==> cov[t][p] >= 1
    requires forall p :: p in counts ==> counts[p] >= 1
    requires d == cov[target := counts]
    ensures forall t, p :: t in d && p in d[t] ==> d[t][p] >= 1
  {
  }

  /** One line keeps `SamBounds` and leaves the read counters alone. */
  lemma ReduceLineKeeps(c: Counters, cov: Coverage, line: string)
    requires SamBounds(c, cov)
    requires ReduceLine(c, cov, line).Success?
    ensures var (d, cov') := ReduceLine(c, cov, line).value;
      && SamBounds(d, cov')
      && d.totalReads == c.totalReads && d.correctLength == c.correctLength
      && WithAdapter(d) == WithAdapter(c)
      && cov.Keys <= cov'.Keys
  {
    if line[0] != '@' && Fields(line)[1] != "4" {
      var fields := Fields(line);
      AlignedKeeps(c, cov, fields[2], ParseInt(fields[3]).value, Tags(fields));
    }
  }

  /** The whole SAM loop keeps `SamBounds` and the read counters. */
  lemma {:induction false} ReduceFromKeeps(c: Counters, cov: Coverage, lines: seq<string>)
    requires SamBounds(c, cov)
    requires ReduceFrom(c, cov, lines).Success?
    ensures var (d, cov') := ReduceFrom(c, cov, lines).value;
      && SamBounds(d, cov')
      && d.totalReads == c.totalReads && d.correctLength == c.correctLength
      && WithAdapter(d) == WithAdapter(c)
      && cov.Keys <= cov'.Keys
    decreases |lines|
  {
    if lines != [] {
      ReduceLineKeeps(c, cov, lines[0]);
      var (c', cov') := ReduceLine(c, cov, lines[0]).value;
      ReduceFromKeeps(c', cov', lines[1..]);
    }
  }
}
