/**
 * The variableStep wig text both tnseq_prepmap.py and tnseq_harmonize_wigs.py
 * write: a header line, then one `<position>  <count>` line per location.
 */
module WigFormat {
  import opened Text
  import opened Ordering

  /** A written wig file: its name and its text. */
  datatype TrackFile = TrackFile(name: string, text: string)

  /** The header line tnseq_prepmap.py writes for a contig. */
  function Header(target: string): string {
    "variableStep chrom=" + target
  }

  /** `f"{position}  {count}"`: the two numbers separated by two spaces. */
  function FormatEntry(position: int, count: int): string {
    IntToString(position) + "  " + IntToString(count)
  }

  /** An entry line splits on whitespace into the two numbers. */
  lemma FormatEntryFields(position: int, count: int)
    ensures SplitWs(FormatEntry(position, count)) == [IntToString(position), IntToString(count)]
  {
    SplitWsPair(IntToString(position), "  ", IntToString(count));
  }

  /** The entry lines for `positions`, in that order. */
  function Entries(positions: seq<int>, counts: map<int, int>): (lines: seq<string>)
    requires forall i :: 0 <= i < |positions| ==> positions[i] in counts
    ensures |lines| == |positions|
    ensures forall i :: 0 <= i < |positions| ==> lines[i] == FormatEntry(positions[i], counts[positions[i]])
  {
    seq(|positions|, i requires 0 <= i < |positions| => FormatEntry(positions[i], counts[positions[i]]))
  }

  /** A track's lines: the header, then one entry per stored location, ascending. */
  ghost function WigLines(header: string, counts: map<int, int>): seq<string> {
    var ps := SortedInts(counts.Keys);
    assert forall i :: 0 <= i < |ps| ==> ps[i] in counts by {
      forall i | 0 <= i < |ps| ensures ps[i] in counts {
        assert ps[i] in Elems(ps);
      }
    }
    [header] + Entries(ps, counts)
  }

  /** A track lists every stored location once, in strictly ascending order,
      each with its count, after the header. */
  lemma WigLinesShape(header: string, counts: map<int, int>)
    ensures Increasing(SortedInts(counts.Keys)) && Elems(SortedInts(counts.Keys)) == counts.Keys
    ensures |WigLines(header, counts)| == |SortedInts(counts.Keys)| + 1 && WigLines(header, counts)[0] == header
    ensures forall k :: 0 <= k < |SortedInts(counts.Keys)| ==> SortedInts(counts.Keys)[k] in counts
    ensures forall k :: 0 <= k < |SortedInts(counts.Keys)| ==>
      WigLines(header, counts)[k + 1] == FormatEntry(SortedInts(counts.Keys)[k], counts[SortedInts(counts.Keys)[k]])
  {
    var ps := SortedInts(counts.Keys);
    assert forall k :: 0 <= k < |ps| ==> ps[k] in counts by {
      forall k | 0 <= k < |ps| ensures ps[k] in counts {
        assert ps[k] in Elems(ps);
      }
    }
    var entries := Entries(ps, counts);
    var lines := WigLines(header, counts);
    assert lines == [header] + entries;
    forall k | 0 <= k < |ps| ensures lines[k + 1] == FormatEntry(ps[k], counts[ps[k]]) {
      BehindHead(lines, header, entries, k);
    }
  }

  /** The entries of one more position. */
  lemma EntriesSnoc(before: seq<int>, x: int, counts: map<int, int>)
    requires x in counts && forall k :: 0 <= k < |before| ==> before[k] in counts
    ensures forall k :: 0 <= k < |before + [x]| ==> (before + [x])[k] in counts
    ensures Entries(before + [x], counts) == Entries(before, counts) + [FormatEntry(x, counts[x])]
  {
  }

  /** The text of a track before any entry: the header line. */
  lemma EntryLinesStart(header: string, counts: map<int, int>)
    ensures Unlines([header] + Entries([], counts)) == header + "\n"
  {
    assert [header] + Entries([], counts) == [] + [header];
    UnlinesSnoc([], header);
  }

  /** The text of a track with one more entry: the text before, then that
      entry and its line break. */
  lemma EntryLinesSnoc(header: string, before: seq<int>, x: int, counts: map<int, int>)
    requires x in counts && forall k :: 0 <= k < |before| ==> before[k] in counts
    ensures forall k :: 0 <= k < |before + [x]| ==> (before + [x])[k] in counts
    ensures Unlines([header] + Entries(before + [x], counts)) ==
      Unlines([header] + Entries(before, counts)) + FormatEntry(x, counts[x]) + "\n"
  {
    var entry := FormatEntry(x, counts[x]);
    EntriesSnoc(before, x, counts);
    UnlinesSnoc([header] + Entries(before, counts), entry);
    assert [header] + Entries(before + [x], counts) == [header] + Entries(before, counts) + [entry];
  }
}
