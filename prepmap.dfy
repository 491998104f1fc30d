/**
 * The read filtering and trimming of tnseq_prepmap.py: the run's counters,
 * `find_adapter` with its counter updates, the reverse-complement retry and
 * the insert cut out just past the adapter.
 */
module Prepmap {
  import opened Wrappers
  import opened Text
  import opened AdapterSearch

  /** The seven counters of the `stats` dictionary, as a value. */
  datatype Counters = Counters(
    totalReads: nat,
    correctLength: nat,
    withPerfectAdapter: nat,
    withMismatchedAdapter: nat,
    totalMapped: nat,
    perfectMatches: nat,
    uniquePerfectMatches: nat)

  function Zero(): Counters {
    Counters(0, 0, 0, 0, 0, 0, 0)
  }

  /** The derived `with_adapter` counter. */
  function WithAdapter(c: Counters): nat {
    c.withPerfectAdapter + c.withMismatchedAdapter
  }

  /** Reads with an adapter were in the length window, and those were read. */
  predicate ReadBounds(c: Counters) {
    WithAdapter(c) <= c.correctLength <= c.totalReads
  }

  /** The `stats` dictionary that `main` and `find_adapter` update in place. */
  class Stats {
    var totalReads: nat
    var correctLength: nat
    var withPerfectAdapter: nat
    var withMismatchedAdapter: nat
    var totalMapped: nat
    var perfectMatches: nat
    var uniquePerfectMatches: nat

    constructor ()
      ensures Value() == Zero()
    {
      totalReads, correctLength := 0, 0;
      withPerfectAdapter, withMismatchedAdapter := 0, 0;
      totalMapped, perfectMatches, uniquePerfectMatches := 0, 0, 0;
    }

    function Value(): Counters
      reads this
    {
      Counters(totalReads, correctLength, withPerfectAdapter, withMismatchedAdapter,
               totalMapped, perfectMatches, uniquePerfectMatches)
    }
  }

  /** The counter a search outcome bumps: one of the two adapter counters, or none. */
  function CountHit(c: Counters, h: Hit): (d: Counters)
    ensures WithAdapter(d) == WithAdapter(c) + (if h == Miss then 0 else 1)
    ensures d.withPerfectAdapter == c.withPerfectAdapter + (if h.Perfect? then 1 else 0)
    ensures d.withMismatchedAdapter == c.withMismatchedAdapter + (if h.Mismatched? then 1 else 0)
    ensures d.(withPerfectAdapter := c.withPerfectAdapter, withMismatchedAdapter := c.withMismatchedAdapter) == c
  {
    match h
    case Perfect(_) => c.(withPerfectAdapter := c.withPerfectAdapter + 1)
    case Mismatched(_) => c.(withMismatchedAdapter := c.withMismatchedAdapter + 1)
    case Miss => c
  }

  /** `find_adapter`: the position `Locate` describes (-1 for a miss), the
      matching counter bumped; a mismatch count other than 0 or 1 ends the run. */
  method FindAdapter(sequence: string, adapter: string, stats: Stats, mismatches: int)
    returns (r: Result<int, Fault>)
    modifies stats
    ensures Locate(sequence, adapter, mismatches).None? ==>
      r == Failure(BadMismatchCount) && stats.Value() == old(stats.Value())
    ensures Locate(sequence, adapter, mismatches).Some? ==>
      r == Success(Position(Locate(sequence, adapter, mismatches).value)) &&
      stats.Value() == CountHit(old(stats.Value()), Locate(sequence, adapter, mismatches).value)
  {
    ghost var c := stats.Value();
    if mismatches == 0 {
      var start := Find(sequence, adapter);
      if start != -1 {
        stats.withPerfectAdapter := stats.withPerfectAdapter + 1;
        assert Locate(sequence, adapter, mismatches) == Some(Perfect(start));
        assert stats.Value() == CountHit(c, Perfect(start));
      } else {
        assert Locate(sequence, adapter, mismatches) == Some(Miss);
      }
      return Success(start);
    }
    if mismatches == 1 {
      var start := Find(sequence, adapter);
      if start != -1 {
        stats.withPerfectAdapter := stats.withPerfectAdapter + 1;
        assert Locate(sequence, adapter, mismatches) == Some(Perfect(start));
        assert stats.Value() == CountHit(c, Perfect(start));
        return Success(start);
      }
      var pos := FindVariant(sequence, adapter);
      if pos != -1 {
        stats.withMismatchedAdapter := stats.withMismatchedAdapter + 1;
        assert Locate(sequence, adapter, mismatches) == Some(Mismatched(pos));
        assert stats.Value() == CountHit(c, Mismatched(pos));
      } else {
        assert Locate(sequence, adapter, mismatches) == Some(Miss);
      }
      return Success(pos);
    }
    return Failure(BadMismatchCount);
  }

  // ------------------------------------------------------------ reads

  /** A FASTQ record: identifier, description line, letters and per-letter qualities. */
  datatype Read = Read(id: string, description: string, sequence: string, quality: seq<int>)

  /** The complement of one base; letters other than A, C, G, T stay as they are. */
  function Complement(b: char): char {
    match b
    case 'A' => 'T'
    case 'T' => 'A'
    case 'C' => 'G'
    case 'G' => 'C'
    case 'a' => 't'
    case 't' => 'a'
    case 'c' => 'g'
    case 'g' => 'c'
    case _ => b
  }

  function ReverseComplement(s: string): (r: string)
    ensures |r| == |s|
    ensures forall i :: 0 <= i < |s| ==> r[i] == Complement(s[|s| - 1 - i])
  {
    if s == [] then [] else [Complement(s[|s| - 1])] + ReverseComplement(s[..|s| - 1])
  }

  function Reverse<T>(s: seq<T>): (r: seq<T>)
    ensures |r| == |s|
    ensures forall i :: 0 <= i < |s| ==> r[i] == s[|s| - 1 - i]
  {
    if s == [] then [] else [s[|s| - 1]] + Reverse(s[..|s| - 1])
  }

  /** Taking the reverse complement twice gives the letters back. */
  lemma ReverseComplementTwice(s: string)
    ensures ReverseComplement(ReverseComplement(s)) == s
  {
    var once := ReverseComplement(s);
    var r := ReverseComplement(once);
    forall i | 0 <= i < |s| ensures r[i] == s[i] {
      assert r[i] == Complement(once[|s| - 1 - i]);
      assert once[|s| - 1 - i] == Complement(s[i]);
      ComplementTwice(s[i]);
    }
  }

  /** Complementing a base twice gives it back. */
  lemma ComplementTwice(b: char)
    ensures Complement(Complement(b)) == b
  {
  }

  /** The record that lines 97-101 build: reverse-complemented letters,
      reversed qualities, the id marked with "_RC", the description kept. */
  function Flip(read: Read): (f: Read)
    ensures f.id == read.id + "_RC" && f.description == read.description
    ensures f.sequence == ReverseComplement(read.sequence) && f.quality == Reverse(read.quality)
  {
    Read(read.id + "_RC", read.description, ReverseComplement(read.sequence), Reverse(read.quality))
  }

  /** Where a Python slice bound lands in a sequence of length `n`. */
  function SliceBound(i: int, n: nat): (j: nat)
    ensures j <= n
  {
    if i < 0 then (if i + n < 0 then 0 else i + n)
    else if i > n then n
    else i
  }

  /** Python's `s[start:stop]`. */
  function PySlice<T>(s: seq<T>, start: int, stop: int): seq<T> {
    var lo, hi := SliceBound(start, |s|), SliceBound(stop, |s|);
    if lo < hi then s[lo..hi] else []
  }

  /** The run's parameters: adapter, length window, insert size, mismatches allowed. */
  datatype Config = Config(adapter: string, minlen: int, maxlen: int, insertsize: int, mismatches: int)

  /** The command-line defaults: adapter, lengths 150 to 180, a 14-letter insert, no mismatch. */
  const Defaults: Config := Config("ACTTATCATCCAACCTGTTA", 150, 180, 14, 0)

  /** `element[insert_start:insert_stop]` for an adapter found at `p`. */
  function Insert(cfg: Config, read: Read, p: int): Read {
    var start := p + |cfg.adapter|;
    var stop := start + cfg.insertsize;
    Read(read.id, read.description, PySlice(read.sequence, start, stop), PySlice(read.quality, start, stop))
  }

  /** The insert is the run of letters just past the adapter, `insertsize` long
      or cut short by the end of the read, never an error. */
  lemma InsertShape(cfg: Config, read: Read, p: nat)
    requires p + |cfg.adapter| <= |read.sequence| && 0 <= cfg.insertsize
    ensures var e := Insert(cfg, read, p);
      var start := p + |cfg.adapter|;
      var n := if cfg.insertsize <= |read.sequence| - start then cfg.insertsize else |read.sequence| - start;
      && e.id == read.id && e.description == read.description
      && |e.sequence| == n
      && e.sequence == read.sequence[start..start + n]
  {
  }

  predicate InWindow(cfg: Config, read: Read) {
    cfg.minlen <= |read.sequence| <= cfg.maxlen
  }

  /** One pass of the loop at lines 91-107: the new counters and the record written, if any. */
  ghost function ReadStep(cfg: Config, c: Counters, read: Read): Result<(Counters, Option<Read>), Fault> {
    var c1 := c.(totalReads := c.totalReads + 1);
    if !InWindow(cfg, read) then Success((c1, None))
    else SearchStep(cfg, c1.(correctLength := c1.correctLength + 1), read)
  }

  /** Lines 95-107 for a read in the window: the forward search, then the
      reverse complement when it missed. */
  ghost function SearchStep(cfg: Config, c: Counters, read: Read): Result<(Counters, Option<Read>), Fault> {
    match Locate(read.sequence, cfg.adapter, cfg.mismatches)
    case None => Failure(BadMismatchCount)
    case Some(h) =>
      if h != Miss then Success((CountHit(c, h), Some(Insert(cfg, read, h.pos))))
      else ReverseStep(cfg, CountHit(c, h), read)
  }

  /** Lines 96-107 after a forward miss: the search on the reverse complement. */
  ghost function ReverseStep(cfg: Config, c: Counters, read: Read): Result<(Counters, Option<Read>), Fault> {
    var flipped := Flip(read);
    match Locate(flipped.sequence, cfg.adapter, cfg.mismatches)
    case None => Failure(BadMismatchCount)
    case Some(h) =>
      if h == Miss then Success((CountHit(c, h), None))
      else Success((CountHit(c, h), Some(Insert(cfg, flipped, h.pos))))
  }

  /** The whole read loop, as a fold over its prefix: the counters and the records written. */
  ghost function TrimAll(cfg: Config, c: Counters, records: seq<Read>): Result<(Counters, seq<Read>), Fault>
    decreases |records|
  {
    if records == [] then Success((c, []))
    else
      match TrimAll(cfg, c, records[..|records| - 1])
      case Failure(e) => Failure(e)
      case Success((c', out)) =>
        match ReadStep(cfg, c', records[|records| - 1])
        case Failure(e) => Failure(e)
        case Success((c'', emitted)) =>
          Success((c'', out + (if emitted.Some? then [emitted.value] else [])))
  }

  /** The filter and trim loop of `main`: every read is counted, reads in the
      length window are searched forward and then on the reverse complement,
      and the insert of each read with an adapter is written. */
  method FilterAndTrim(cfg: Config, records: seq<Read>, stats: Stats) returns (r: Result<seq<Read>, Fault>)
    modifies stats
    ensures r.Success? ==> TrimAll(cfg, old(stats.Value()), records) == Success((stats.Value(), r.value))
    ensures r.Failure? ==> TrimAll(cfg, old(stats.Value()), records) == Failure(r.error)
  {
    ghost var c0 := stats.Value();
    var out: seq<Read> := [];
    var i := 0;
    while i < |records|
      invariant 0 <= i <= |records|
      invariant TrimAll(cfg, c0, records[..i]) == Success((stats.Value(), out))
    {
      ghost var before := stats.Value();
      var step := TrimRead(cfg, records[i], stats);
      if step.Failure? {
        TrimAllFails(cfg, c0, records, i, before, out);
        FailureSticks(cfg, c0, records, i + 1);
        return Failure(step.error);
      }
      TrimAllStep(cfg, c0, records, i, before, out, stats.Value(), step.value);
      out := out + (if step.value.Some? then [step.value.value] else []);
      i := i + 1;
    }
    assert records[..i] == records;
    return Success(out);
  }

  /** The body of the read loop for one read: the record written, if any. */
  method TrimRead(cfg: Config, read: Read, stats: Stats) returns (r: Result<Option<Read>, Fault>)
    modifies stats
    ensures r.Success? ==> ReadStep(cfg, old(stats.Value()), read) == Success((stats.Value(), r.value))
    ensures r.Failure? ==> ReadStep(cfg, old(stats.Value()), read) == Failure(r.error)
  {
    ghost var c0 := stats.Value();
    stats.totalReads := stats.totalReads + 1;
    if !(cfg.minlen <= |read.sequence| <= cfg.maxlen) {
      return Success(None);
    }
    stats.correctLength := stats.correctLength + 1;
    InWindowStep(cfg, c0, stats.Value(), read);
    r := Search(cfg, read, stats);
  }

  /** A read in the window is counted twice and then searched. */
  lemma InWindowStep(cfg: Config, c: Counters, d: Counters, read: Read)
    requires InWindow(cfg, read)
    requires d == c.(totalReads := c.totalReads + 1, correctLength := c.correctLength + 1)
    ensures ReadStep(cfg, c, read) == SearchStep(cfg, d, read)
  {
  }

  /** Lines 95-107: the forward search, then the one on the reverse complement. */
  method Search(cfg: Config, read: Read, stats: Stats) returns (r: Result<Option<Read>, Fault>)
    modifies stats
    ensures r.Success? ==> SearchStep(cfg, old(stats.Value()), read) == Success((stats.Value(), r.value))
    ensures r.Failure? ==> SearchStep(cfg, old(stats.Value()), read) == Failure(r.error)
  {
    var found := FindAdapter(read.sequence, cfg.adapter, stats, cfg.mismatches);
    if found.Failure? {
      return Failure(found.error);
    }
    if found.value != -1 {
      return Success(Some(Insert(cfg, read, found.value)));
    }
    var element := Flip(read);
    // the mismatch count was accepted above, so this search cannot fail
    var again := FindAdapter(element.sequence, cfg.adapter, stats, cfg.mismatches);
    var start := if again.Success? then again.value else -1;
    if start == -1 {
      return Success(None);
    }
    return Success(Some(Insert(cfg, element, start)));
  }

  /** One more read that goes through: its counters, and its record appended. */
  lemma TrimAllStep(cfg: Config, c0: Counters, records: seq<Read>, i: nat, c: Counters, out: seq<Read>,
                    d: Counters, emitted: Option<Read>)
    requires i < |records| && TrimAll(cfg, c0, records[..i]) == Success((c, out))
    requires ReadStep(cfg, c, records[i]) == Success((d, emitted))
    ensures TrimAll(cfg, c0, records[..i + 1]) == Success((d, out + (if emitted.Some? then [emitted.value] else [])))
  {
    assert records[..i + 1][..i] == records[..i];
    assert records[..i + 1][i] == records[i];
  }

  /** One more read that fails ends the prefix in that failure. */
  lemma TrimAllFails(cfg: Config, c0: Counters, records: seq<Read>, i: nat, c: Counters, out: seq<Read>)
    requires i < |records| && TrimAll(cfg, c0, records[..i]) == Success((c, out))
    requires ReadStep(cfg, c, records[i]).Failure?
    ensures TrimAll(cfg, c0, records[..i + 1]) == Failure(ReadStep(cfg, c, records[i]).error)
  {
    assert records[..i + 1][..i] == records[..i];
    assert records[..i + 1][i] == records[i];
  }

  /** Once a read ends the run, later reads do not matter. */
  lemma {:induction false} FailureSticks(cfg: Config, c: Counters, records: seq<Read>, k: nat)
    requires k <= |records| && TrimAll(cfg, c, records[..k]).Failure?
    ensures TrimAll(cfg, c, records) == TrimAll(cfg, c, records[..k])
    decreases |records| - k
  {
    if k < |records| {
      assert records[..|records| - 1][..k] == records[..k];
      FailureSticks(cfg, c, records[..|records| - 1], k);
    } else {
      assert records[..k] == records;
    }
  }

  // ------------------------------------------------- what a step keeps

  /** Per read: `total_reads` goes up by one, `correct_length` by one exactly
      when the read is in the window, the adapter counters together by at
      most that much, and nothing else changes; a read outside the window
      reaches no search and yields no record. */
  lemma ReadStepCounters(cfg: Config, c: Counters, read: Read)
    requires ReadStep(cfg, c, read).Success?
    ensures var (d, emitted) := ReadStep(cfg, c, read).value;
      && d.totalReads == c.totalReads + 1
      && d.correctLength == c.correctLength + (if InWindow(cfg, read) then 1 else 0)
      && WithAdapter(c) <= WithAdapter(d) <= WithAdapter(c) + d.correctLength - c.correctLength
      && d.totalMapped == c.totalMapped && d.perfectMatches == c.perfectMatches
      && d.uniquePerfectMatches == c.uniquePerfectMatches
      && (!InWindow(cfg, read) ==> d == c.(totalReads := c.totalReads + 1) && emitted == None)
      && (emitted.Some? ==> WithAdapter(d) == WithAdapter(c) + 1)
  {
    var c1 := c.(totalReads := c.totalReads + 1);
    if InWindow(cfg, read) {
      var c2 := c1.(correctLength := c1.correctLength + 1);
      assert ReadStep(cfg, c, read) == SearchStep(cfg, c2, read);
      SearchCounters(cfg, c2, read);
    } else {
      assert ReadStep(cfg, c, read) == Success((c1, None));
    }
  }

  /** The searches of one read bump at most one adapter counter, and exactly
      one when a record is written; the other counters stay. */
  lemma SearchCounters(cfg: Config, c: Counters, read: Read)
    requires SearchStep(cfg, c, read).Success?
    ensures var (d, emitted) := SearchStep(cfg, c, read).value;
      && d.(withPerfectAdapter := c.withPerfectAdapter, withMismatchedAdapter := c.withMismatchedAdapter) == c
      && WithAdapter(c) <= WithAdapter(d) <= WithAdapter(c) + 1
      && (emitted.Some? <==> WithAdapter(d) == WithAdapter(c) + 1)
  {
    var h := Locate(read.sequence, cfg.adapter, cfg.mismatches).value;
    if h == Miss {
      var flipped := Flip(read);
      var h' := Locate(flipped.sequence, cfg.adapter, cfg.mismatches).value;
      assert CountHit(c, h) == c;
      assert SearchStep(cfg, c, read) == ReverseStep(cfg, c, read);
    }
  }

  /** Read by read, `with_adapter <= correct_length <= total_reads` is kept,
      and `total_reads` counts every read. */
  lemma {:induction false} TrimAllBounds(cfg: Config, c: Counters, records: seq<Read>)
    requires ReadBounds(c)
    requires TrimAll(cfg, c, records).Success?
    ensures var d := TrimAll(cfg, c, records).value.0;
      && ReadBounds(d)
      && d.totalReads == c.totalReads + |records|
      && d.correctLength >= c.correctLength
      && d.totalMapped == c.totalMapped && d.perfectMatches == c.perfectMatches
      && d.uniquePerfectMatches == c.uniquePerfectMatches
      && |TrimAll(cfg, c, records).value.1| <= WithAdapter(d) - WithAdapter(c)
  {
    if records != [] {
      var prefix := records[..|records| - 1];
      TrimAllBounds(cfg, c, prefix);
      var c' := TrimAll(cfg, c, prefix).value.0;
      ReadStepCounters(cfg, c', records[|records| - 1]);
    }
  }

  /** A record written after the forward search missed comes from the reverse
      complement: its id carries "_RC", its description is the original one,
      and its letters are the insert on the reverse strand. */
  lemma ReverseHitRecord(cfg: Config, c: Counters, read: Read, e: Read)
    requires ReadStep(cfg, c, read).Success? && ReadStep(cfg, c, read).value.1 == Some(e)
    requires Locate(read.sequence, cfg.adapter, cfg.mismatches) == Some(Miss)
    ensures e.id == read.id + "_RC" && e.description == read.description
    ensures exists q: nat ::
      && q + |cfg.adapter| <= |read.sequence|
      && e == Insert(cfg, Flip(read), q)
  {
    var flipped := Flip(read);
    var h := Locate(flipped.sequence, cfg.adapter, cfg.mismatches).value;
    HitIsNear(flipped.sequence, cfg.adapter, cfg.mismatches);
    assert e == Insert(cfg, flipped, h.pos);
  }

  /** A record written from a forward hit keeps the id and description. */
  lemma ForwardHitRecord(cfg: Config, c: Counters, read: Read, e: Read)
    requires ReadStep(cfg, c, read).Success? && ReadStep(cfg, c, read).value.1 == Some(e)
    requires Locate(read.sequence, cfg.adapter, cfg.mismatches).Some?
    requires Locate(read.sequence, cfg.adapter, cfg.mismatches) != Some(Miss)
    ensures e.id == read.id && e.description == read.description
    ensures exists p: nat ::
      && p + |cfg.adapter| <= |read.sequence|
      && e == Insert(cfg, read, p)
  {
    var h := Locate(read.sequence, cfg.adapter, cfg.mismatches).value;
    HitIsNear(read.sequence, cfg.adapter, cfg.mismatches);
    assert e == Insert(cfg, read, h.pos);
  }
}
