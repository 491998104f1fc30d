# Nanopore Tn-seq pipeline: a Dafny model

This project models the three Python scripts of a transposon-sequencing
(Tn-seq) pipeline for Nanopore reads and proves what they compute.

- **tnseq_prepmap.py** turns reads into coverage:
  - it keeps reads whose length is inside a window;
  - it finds the transposon adapter in each read, exactly or with one substitution, on the forward strand and then on the reverse complement;
  - it writes the insert just past the adapter;
  - it reduces the aligner's SAM output to a per-contig map of unique perfect hits per position;
  - it writes one variableStep wig track per contig and a `label: value` statistics file.
- **tnseq_harmonize_wigs.py** reads wig tracks and guesses each file's contig from its name. It rewrites every track of a contig over the sorted union of the group's locations, with 0 where a track had no entry.
- **tnseq_combine_stats.py** reads the statistics files of several runs and prints one tab-separated table. The header row holds the labels; each file gets one row.

## Modules

| module | file | what it holds |
|---|---|---|
| `Wrappers` | wrappers.dfy | `Option`, `Result` and `Fault`. A `Fault` is the Python exception or explicit exit that ends a run. |
| `Text` | text.dfy | The Python `str` operations the scripts use: `find`, `split(sep)`, `join`, `replace`, `strip()`, `rstrip(c)`, `split()`, `str(n)`, `int(s)`, text-mode newline translation. |
| `Ordering` | ordering.dfy | Lexicographic order on strings. Sorting of a set of strings or integers, as `list(s).sort()` does. |
| `AdapterSearch` | adapter.dfy | The search part of `find_adapter`, and what a hit or a miss means. |
| `Prepmap` | prepmap.dfy | The `stats` counters as a class, `find_adapter` with its counter updates, and the read filter/trim loop. |
| `Coverage` | coverage.dfy | The SAM reduction loop and the invariants it keeps. |
| `WigFormat` | wig.dfy | The variableStep text both the prep and the harmonize script write. |
| `PrepmapRun` | prepmap_run.dfy | The whole of `main` in tnseq_prepmap.py after its inputs are read: tracks and the statistics file. |
| `Harmonize` | harmonize.dfy | `read_wig`, the contig-from-name expression, per-group harmonization and the loop over groups. |
| `CombineStats` | combine.dfy | The `label: value` parser, reading all files, and the printed table. |
| `Pipeline` | pipeline.dfy | Round trips between the tools: a written track parses back under `read_wig`, harmonizing twice changes nothing, a written statistics file reads back under the combine script. |

Files are modelled as a map from name to text; a name missing from the map is `FileNotFound`. Each Python exception that ends a run is a `Failure`:

- `IndexError` for a missing field;
- `ValueError` for a bad `int()` or a bad unpacking;
- `KeyError` for a missing label;
- `BadMismatchCount` for the `sys.exit(1)` of `find_adapter`.

Reading a file in text mode translates `"\r\n"` and a lone `"\r"` to `"\n"` (`Text.Universal`).

## Model

| member | source | states |
|---|---|---|
| AdapterSearch.Variant | tnseq_prepmap.py:59 | A variant has the adapter's length, holds the new letter at its position, and equals the adapter everywhere else. |
| AdapterSearch.Hamming | tnseq_prepmap.py:55-62 | The distance used to describe variants is at most the length, and 0 exactly for equal strings. |
| AdapterSearch.VariantsMeaning | tnseq_prepmap.py:55-62 | Membership in the variant set, both directions: same length as the adapter, at most one differing position, a new letter from A, G, C, T. The adapter itself is a member only when one of its letters is among A, G, C, T. |
| AdapterSearch.Least | tnseq_prepmap.py:61-62 | The first element of the sorted variant list is in the set and lexicographically below or equal to every member. |
| AdapterSearch.LeastUnique | tnseq_prepmap.py:61-64 | Only one member of a set is below all the others, so the first occurring variant of the sorted scan is `Least`. |
| AdapterSearch.BuildVariants | tnseq_prepmap.py:55-60 | The nested loops build exactly the set of all single substitutions over "AGCT". |
| AdapterSearch.FindVariant | tnseq_prepmap.py:61-68 | The sorted scan returns -1 when no variant occurs. Otherwise it returns the first index of the lexicographically least occurring variant. |
| AdapterSearch.HitIsNear | tnseq_prepmap.py:42-68 | A returned position p is inside the read. For a perfect hit the window at p is the adapter. For a mismatched hit it differs in exactly one position, by a letter from A, G, C, T, and only when one mismatch is allowed. |
| AdapterSearch.ExactIsWindow | tnseq_prepmap.py:45 | The first exact index is a window equal to the adapter. |
| AdapterSearch.OccurringVariantIsNear | tnseq_prepmap.py:63-67 | When the adapter is absent, the window at an occurring variant's first index is that variant, at distance exactly one. |
| AdapterSearch.MissMeansNoNearWindow | tnseq_prepmap.py:68 | A miss with one mismatch allowed: no window of the read is the adapter or a single substitution of it. |
| AdapterSearch.ExactMissMeansAbsent | tnseq_prepmap.py:44-48 | A miss with no mismatch allowed: no window equals the adapter. |
| AdapterSearch.MismatchedIsLeastWindow | tnseq_prepmap.py:61-67 | A mismatched hit, stated over windows: its window is lexicographically below every near-match window of the read, and p is that window's first occurrence. |
| AdapterSearch.NearWindowOccurs | tnseq_prepmap.py:63-64 | When the adapter is absent, every near-match window is an occurring variant. |
| AdapterSearch.NearIsVariant | tnseq_prepmap.py:55-60 | A near match other than the adapter is in the variant set. |
| AdapterSearch.FindIs | tnseq_prepmap.py:45 | An occurrence with none earlier is what `find` returns. |
| AdapterSearch.TieBreakIsNotLeftmost | tnseq_prepmap.py:61-67 | For adapter "AC" and read "CCAA", "CC" at 0 is the leftmost near match, yet the result is 2, where the smaller variant "AA" occurs. |
| AdapterSearch.ExactHitExample | tnseq_prepmap.py:44-54 | "ACTT" in "XXACTTYYYY" is a perfect hit at 2 in both modes; an exact hit takes priority over variants. |
| AdapterSearch.HammingOneOff | tnseq_prepmap.py:59 | Strings that agree except at one position are at distance 0 or 1, by that position. |
| AdapterSearch.HammingOneIsSubstitution | tnseq_prepmap.py:59 | A string at distance one is the substitution of its one differing letter. |
| Prepmap.Stats.constructor | tnseq_prepmap.py:76-82 | All seven counters start at 0. |
| Prepmap.CountHit | tnseq_prepmap.py:47 | A perfect hit bumps `with_perfect_adapter`, a mismatched one `with_mismatched_adapter`, a miss nothing. `with_adapter` goes up by one exactly on a hit; every other counter stays. |
| Prepmap.FindAdapter | tnseq_prepmap.py:42-71 | Returns the position `Locate` describes, or -1, and bumps the matching counter of `stats` and nothing else. Mode 0 is exact search. Mode 1 tries an exact hit first, then the least occurring variant. Any other mismatch count is `BadMismatchCount` and leaves `stats` alone. |
| Prepmap.ReverseComplement | tnseq_prepmap.py:99 | Same length; letter i is the complement of letter n-1-i. |
| Prepmap.Reverse | tnseq_prepmap.py:99 | The qualities reversed: same length, element i is element n-1-i. |
| Prepmap.ReverseComplementTwice | tnseq_prepmap.py:99 | Taking the reverse complement twice gives the read's letters back. |
| Prepmap.ComplementTwice | tnseq_prepmap.py:99 | Complementing a letter twice gives it back. |
| Prepmap.Flip | tnseq_prepmap.py:96-101 | The retried record has id + "_RC", the original description, reverse-complemented letters and reversed qualities. |
| Prepmap.SliceBound | tnseq_prepmap.py:106 | A Python slice bound lands inside the sequence. |
| Prepmap.InsertShape | tnseq_prepmap.py:103-106 | The insert is the letters just past the adapter, `insertsize` long or cut short at the end of the read, never an error. The id and description are kept. |
| Prepmap.FilterAndTrim | tnseq_prepmap.py:91-107 | The read loop leaves in `stats` the counters of the fold `TrimAll`, and returns the records it writes, in order. A bad mismatch count ends it with that failure. |
| Prepmap.TrimRead | tnseq_prepmap.py:92-107 | One pass of the loop: the counters and the record of `ReadStep`. |
| Prepmap.Search | tnseq_prepmap.py:95-107 | The forward search, then, only after a forward -1, the search on the reverse complement. The insert comes from whichever strand matched. |
| Prepmap.TrimAllStep | tnseq_prepmap.py:91-107 | A read that goes through extends the fold by its counters and its record. |
| Prepmap.TrimAllFails | tnseq_prepmap.py:70-71 | A read that fails ends the fold in that failure. |
| Prepmap.FailureSticks | tnseq_prepmap.py:70-71 | Once a read ends the run, later reads do not matter. |
| Prepmap.ReadStepCounters | tnseq_prepmap.py:92-102 | Per read, `total_reads` goes up by one, and `correct_length` by one exactly when the read is in the window. The adapter counters together go up by at most that much, and by one when a record is written. The mapping counters stay. An out-of-window read reaches no search and writes nothing. |
| Prepmap.SearchCounters | tnseq_prepmap.py:95-102 | The forward and reverse searches of one read bump at most one adapter counter, exactly when a record is written. The forward miss that triggers the retry changed nothing. |
| Prepmap.TrimAllBounds | tnseq_prepmap.py:91-107 | Over all reads, `with_adapter <= correct_length <= total_reads` is kept, and `total_reads` counts every read. There are no more records than adapter hits. |
| Prepmap.ReverseHitRecord | tnseq_prepmap.py:96-106 | A record written after a forward miss has id + "_RC" and the original description. It is the insert of the reverse complement at a position inside the read. |
| Prepmap.ForwardHitRecord | tnseq_prepmap.py:103-106 | A record from a forward hit keeps id and description and is the forward insert at a position inside the read. |
| Coverage.Bump | tnseq_prepmap.py:134-136 | `coverage[target][position] += 1` adds the contig to the keys and nothing else. |
| Coverage.CountAligned | tnseq_prepmap.py:122-136 | For an aligned record, the counters in `stats` and the coverage map become those of `Aligned`. |
| Coverage.ReduceSamLine | tnseq_prepmap.py:116-136 | One SAM line, as `ReduceLine` describes it. A "@" line or flag "4" changes nothing. A short line is `IndexError`; a non-numeric position is `ValueError`. |
| Coverage.ReduceSam | tnseq_prepmap.py:114-136 | The SAM loop from an empty map yields the counters and the coverage of the fold `ReduceFrom`, or its first failure. |
| Coverage.SkippedLines | tnseq_prepmap.py:117-121 | Comment lines and unaligned records leave counters and coverage unchanged. |
| Coverage.RecordFields | tnseq_prepmap.py:117-126 | Which lines are aligned records: the contig is field 2, the position is `int` of field 3, and the tags are fields 11 onwards. |
| Coverage.AlignedRecord | tnseq_prepmap.py:122-136 | `total_mapped` always goes up by one. `perfect_matches` goes up exactly with tag XM:i:0. `unique_perfect_matches` and the count at (contig, position) go up exactly when the pair AS:i:0/XS:i:0 is also absent. The contig gets an entry in any case, and nothing else changes. |
| Coverage.AlignedKeeps | tnseq_prepmap.py:122-136 | An aligned record keeps the invariant: unique <= perfect <= mapped, every stored count >= 1, and the stored counts sum to `unique_perfect_matches`. The read counters stay. |
| Coverage.AddContig | tnseq_prepmap.py:127-128 | A new empty contig adds nothing to the sum of the counts. |
| Coverage.BumpTotal | tnseq_prepmap.py:133-136 | One more hit adds exactly one to the sum of the counts and keeps every count >= 1. |
| Coverage.ReduceLineKeeps | tnseq_prepmap.py:116-136 | Any one line keeps the invariant. |
| Coverage.ReduceFromKeeps | tnseq_prepmap.py:114-136 | The whole SAM loop keeps the invariant and the read counters, and never drops a contig. |
| Coverage.SumUpdate | tnseq_prepmap.py:136 | Setting one count changes the sum by the difference at that key. |
| Coverage.TotalUpdate | tnseq_prepmap.py:136 | Replacing one contig's map changes the total by the difference of its sums. |
| Coverage.EmptyCoverageTotal | tnseq_prepmap.py:114 | The empty coverage map holds no hit. |
| WigFormat.FormatEntryFields | tnseq_prepmap.py:145 | An entry line `"{position}  {count}"` splits on whitespace into the two numbers. |
| WigFormat.Entries | tnseq_prepmap.py:144-145 | One entry line per position, in the given order, each with that position's count. |
| WigFormat.WigLinesShape | tnseq_prepmap.py:141-145 | A track is its header, then every stored location exactly once in strictly ascending order, each with its count. |
| WigFormat.EntryLinesSnoc | tnseq_prepmap.py:144-145 | Writing one more entry appends its line and a newline to the text. |
| PrepmapRun.TrackLinesShape | tnseq_prepmap.py:127-128 | A contig that was mapped without any unique perfect hit gets a track holding the header line alone. |
| PrepmapRun.WriteTrack | tnseq_prepmap.py:140-145 | The text written for a contig is its header line, then one entry per position in ascending order. |
| PrepmapRun.WriteLines | tnseq_prepmap.py:143-145 | The header and each position's entry, each followed by a newline, in the given order. |
| PrepmapRun.StoredPositions | tnseq_prepmap.py:141 | Every listed key is a key of the contig's counts. |
| PrepmapRun.WriteTracks | tnseq_prepmap.py:139-145 | One file per contig of the coverage map, named `{prefix}_{target}.wig`, holding that contig's track. |
| PrepmapRun.StatsValues | tnseq_prepmap.py:150 | Eight values in dictionary order; the last, `with_adapter`, is perfect + mismatched. |
| PrepmapRun.StatsLines | tnseq_prepmap.py:27-31 | The statistics lines: `command: <command line>`, then `label: value` for each counter in order. |
| PrepmapRun.Run | tnseq_prepmap.py:74-151 | `main`: a failure of the read loop or the SAM loop ends the run with it. Otherwise the run yields the records written, one track per contig of the coverage, and the statistics text of the final counters. |
| PrepmapRun.RunBounds | tnseq_prepmap.py:150 | At the end of a run: `with_adapter <= correct_length <= total_reads == number of reads`, and at most `with_adapter` inserts. `unique <= perfect <= mapped` holds, every count is >= 1, and the counts sum to `unique_perfect_matches`. |
| Harmonize.ReadWig | tnseq_harmonize_wigs.py:25-39 | A missing file is `FileNotFound`. A line that does not parse is its failure. Otherwise the result is the header, the count map, and a location set equal to the map's keys. |
| Harmonize.ReadEntries | tnseq_harmonize_wigs.py:33-38 | The loop over data lines gives the counts of `ParseEntries` and exactly their location set. A line without two integer fields is `IndexError` or `ValueError`. |
| Harmonize.WigTextLines | tnseq_harmonize_wigs.py:28-29 | The stripped, newline-split text always has a first (header) line. |
| Harmonize.ParseEntriesStep | tnseq_harmonize_wigs.py:33-38 | In a successful parse the first line is a data line, and the rest go on from the map with its count set. |
| Harmonize.LastCountWins | tnseq_harmonize_wigs.py:38 | A repeated location keeps the count of its last line. |
| Harmonize.OtherLinesKeep | tnseq_harmonize_wigs.py:38 | Lines for other locations leave a stored count alone. |
| Harmonize.EveryLineParses | tnseq_harmonize_wigs.py:33-37 | A successful parse means every data line has two integer fields. |
| Harmonize.StoredLocations | tnseq_harmonize_wigs.py:36-38 | Both directions: a location is stored exactly when some line is for it. |
| Harmonize.ContigOfName | tnseq_harmonize_wigs.py:47 | `<prefix>_<contig>.wig` gives back `<contig>` for any prefix, with or without a directory, when the contig holds no "_" or "/" and ".wig" only at its end. |
| Harmonize.ContigOfBareName | tnseq_harmonize_wigs.py:47-54 | A bare name `<sample>_<contig>.wig`, as `glob` returns it in the working directory, is its own last "/" piece and gives back `<contig>`. |
| Harmonize.CollectContigs | tnseq_harmonize_wigs.py:45-48 | The contig set is exactly the contigs of the file names. |
| Harmonize.HarmonizedNameOf | tnseq_harmonize_wigs.py:62 | A name ending in its only ".wig" gets "_harmonized" before the suffix. |
| Harmonize.ReadFrom | tnseq_harmonize_wigs.py:56-57 | Reading a group yields one track per file, after the tracks read before. |
| Harmonize.ReadRest | tnseq_harmonize_wigs.py:56-57 | After one file: a failure ends the group, a track joins the others. |
| Harmonize.InUnion | tnseq_harmonize_wigs.py:55-58 | Both directions: a location is in the union exactly when some track has it. |
| Harmonize.Filled | tnseq_harmonize_wigs.py:64-69 | A filled track's locations are exactly the given set. |
| Harmonize.ReadGroup | tnseq_harmonize_wigs.py:55-58 | The group's tracks in file order and the union of their location sets, or the first failure. |
| Harmonize.ReadNext | tnseq_harmonize_wigs.py:57 | `read_wig` of one file is one step of `ReadFrom`. Its location set is its map's keys. |
| Harmonize.WriteHarmonized | tnseq_harmonize_wigs.py:63-69 | A harmonized text is the header, then every union location in the given order with its count, or 0 (the `KeyError` default). |
| Harmonize.WriteFilled | tnseq_harmonize_wigs.py:64-69 | The per-location loop writes the entry of each location's count, or 0. |
| Harmonize.WriteEntry | tnseq_harmonize_wigs.py:65-69 | One location's line carries its count, or 0. |
| Harmonize.FilledCovers | tnseq_harmonize_wigs.py:65-68 | Every listed location has a filled count: the track's own count, or 0. |
| Harmonize.HarmonizedText | tnseq_harmonize_wigs.py:59-60 | Over the sorted union, the written lines are the track of the filled counts. |
| Harmonize.HarmonizeGroup | tnseq_harmonize_wigs.py:53-69 | Per contig: read every file, sort the union, and write each file's harmonized track under its harmonized name. The first failure ends the group before anything is written. |
| Harmonize.WriteFileOf | tnseq_harmonize_wigs.py:62-69 | The file written for one name: its harmonized name and its harmonized track. |
| Harmonize.WriteGroup | tnseq_harmonize_wigs.py:61-69 | One harmonized file per name, in order. |
| Harmonize.HarmonizeAll | tnseq_harmonize_wigs.py:52-69 | The loop over contig groups. Each group is harmonized over the files as they are at that point. A failure ends the loop, and the files of earlier groups stay written. |
| Harmonize.WriteAll | tnseq_harmonize_wigs.py:61-62 | Writing a group's files in order; a later file of the same name replaces an earlier one. |
| Harmonize.WriteFilesOther | tnseq_harmonize_wigs.py:62 | Writing files of other names leaves a file as it was, or absent. |
| Harmonize.GroupFileNames | tnseq_harmonize_wigs.py:62 | A group writes one file per input, named by `HarmonizedName`. |
| Harmonize.UntouchedFiles | tnseq_harmonize_wigs.py:52-69 | A file that is the harmonized name of no grouped file keeps its text, and is not created. |
| Harmonize.HarmonizedCounts | tnseq_harmonize_wigs.py:55-69 | Every output keeps the input's header. Its locations are exactly the union (both directions). Every original count is kept, and 0 is filled in elsewhere. |
| Harmonize.HarmonizedFileShape | tnseq_harmonize_wigs.py:59-69 | Output lines: the input header, then every union location once, strictly ascending, with the track's own count or 0. |
| Harmonize.SameLocationsAfter | tnseq_harmonize_wigs.py:64 | All outputs of a group have the same location set. |
| Harmonize.AlreadyHarmonized | tnseq_harmonize_wigs.py:55-69 | Tracks that already share one location set come out unchanged. |
| Harmonize.HarmonizeIdempotent | tnseq_harmonize_wigs.py:55-69 | Harmonizing harmonized tracks changes nothing. |
| Harmonize.TwoTrackExample | tnseq_harmonize_wigs.py:55-69 | Tracks {10: 3, 20: 5} and {15: 7} become {10: 3, 15: 0, 20: 5} and {10: 0, 15: 7, 20: 0}. |
| CombineStats.LinesOf | tnseq_combine_stats.py:43 | No line yielded by `for line in f` is empty. |
| CombineStats.LinesOfSplitsText | tnseq_combine_stats.py:43 | The lines put back together are the text. Each line holds one "\n", at its end, except that the last may hold none. |
| CombineStats.ParseStatsLine | tnseq_combine_stats.py:44-45 | A failure is `ValueError`. A success gives label + ": " + value == the stripped line, with no ": " inside either part. |
| CombineStats.StatsLineRejected | tnseq_combine_stats.py:45 | Both directions: a line is rejected exactly when its stripped form does not hold ": " exactly once. An empty line is therefore rejected. |
| CombineStats.ParseStatsLineOf | tnseq_combine_stats.py:44-45 | A `label: value` line, with only whitespace around it, reads back as its label and value. |
| CombineStats.SepOnce | tnseq_combine_stats.py:45 | `a: b` with no ": " inside `a` or `b` splits into exactly `[a, b]`. |
| CombineStats.LabelsInOrder | tnseq_combine_stats.py:47 | The label list is the labels of the lines in file order, a repeated label as often as it occurs. |
| CombineStats.AllParse | tnseq_combine_stats.py:43-47 | Labels of all lines are the first line's, then the later lines'. |
| CombineStats.ParseStatsStep | tnseq_combine_stats.py:44-47 | In a successful parse the first line parses, and the rest go on from it. |
| CombineStats.LastValueWins | tnseq_combine_stats.py:46 | A repeated label keeps the value of its last line. |
| CombineStats.OtherLabelsKeep | tnseq_combine_stats.py:46 | Lines for other labels leave a stored value alone. |
| CombineStats.ReadStats | tnseq_combine_stats.py:40-47 | A missing file is `FileNotFound`. Otherwise the loop yields the file's map and its labels, or `ValueError`. |
| CombineStats.ReadAllKeeps | tnseq_combine_stats.py:39-40 | A name not read keeps its map. |
| CombineStats.ReadAllFiles | tnseq_combine_stats.py:39-47 | After reading, every name maps to the values of its own file. |
| CombineStats.ReadAllSucceeds | tnseq_combine_stats.py:39-47 | Reading succeeds when every file is there and parses. |
| CombineStats.ReadAllLabels | tnseq_combine_stats.py:42 | After reading, the label list is that of the last name given. |
| CombineStats.ReadAllStep | tnseq_combine_stats.py:39-47 | In a successful read the first file is there and parses, and the rest go on from it. |
| CombineStats.RowValues | tnseq_combine_stats.py:51-53 | Both directions: a row exists exactly when the file has every label. Its values are the file's, in label order. |
| CombineStats.Rows | tnseq_combine_stats.py:50-54 | At most one row per name; the only fault is `KeyError`. |
| CombineStats.Combine | tnseq_combine_stats.py:37-54 | The `__main__` block prints `Combined`. A read failure prints nothing. A `KeyError` leaves the header and the rows before it printed. |
| CombineStats.PrintRows | tnseq_combine_stats.py:49-54 | The header, then the rows of `Rows`, and its fault. |
| CombineStats.RowsStep | tnseq_combine_stats.py:50-54 | A name's row, or a `KeyError` that ends the rows. |
| CombineStats.BuildRow | tnseq_combine_stats.py:51-53 | A row is the name followed by the values for the labels, or none when a label is missing. |
| CombineStats.CombinedOf | tnseq_combine_stats.py:49-54 | What is printed once reading and rows succeed. |
| CombineStats.HeaderUsesLastFile | tnseq_combine_stats.py:42-49 | The header row is "sample" followed by the labels of the last file on the command line. |
| CombineStats.RowsOfFiles | tnseq_combine_stats.py:50-54 | Both directions: no `KeyError` exactly when every file has every header label. Then there is one row per file, in argument order, each the name and its values in header order. |
| CombineStats.RowsFault | tnseq_combine_stats.py:53 | A `KeyError` happens exactly when some file lacks some header label. |
| CombineStats.RowsContent | tnseq_combine_stats.py:50-54 | Without a `KeyError`, row i is file i's name and values. |
| CombineStats.LabelsEverywhere | tnseq_combine_stats.py:52-53 | All files have all labels when the first and the later ones do. |
| CombineStats.ShiftRows | tnseq_combine_stats.py:50-54 | The first row, then the later rows, are the rows of all files. |
| CombineStats.LinesOfCons | tnseq_combine_stats.py:43 | A line without "\n", plus its terminator, is the first line of the text. |
| CombineStats.Written | tnseq_prepmap.py:29-31 | One `label: value` line per pair. |
| CombineStats.WrittenCons | tnseq_prepmap.py:29-31 | The first written line, then the rest. |
| CombineStats.LineLacks | tnseq_prepmap.py:31 | A written line holds no character its parts lack, other than ':' and ' '. |
| CombineStats.ReadBackLines | tnseq_combine_stats.py:43-47 | Written `label: value` lines read back, line by line, as their labels and values. |
| CombineStats.FirstWrittenLine | tnseq_combine_stats.py:43-45 | The first line read from written pairs is the first pair. |
| CombineStats.WrittenLines | tnseq_combine_stats.py:43 | The written text splits into the first pair's line and the later lines. |
| CombineStats.WrittenLineParses | tnseq_combine_stats.py:44-45 | A written line with its terminator reads back as its pair. |
| CombineStats.ParseStatsCons | tnseq_combine_stats.py:44-47 | A parsing first line sets its label, then the rest go on. |
| CombineStats.WritableTail | tnseq_combine_stats.py:43-47 | The pairs after the first writable pair are writable. |
| CombineStats.ReadBackStats | tnseq_combine_stats.py:40-47 | Round trip: a file written as `label: value` lines reads back as its labels in order and the map they set. |
| CombineStats.StoredKeys | tnseq_combine_stats.py:46 | The stored labels are the earlier ones plus the written ones. |
| CombineStats.StoredLast | tnseq_combine_stats.py:46 | A label holds the value of its last line. |
| CombineStats.StoredUntouched | tnseq_combine_stats.py:46 | A label that is not written keeps its value, or stays absent. |
| CombineStats.RepeatedLabel | tnseq_combine_stats.py:46-47 | A label given twice keeps the second value and appears twice in the label list, so the column repeats. |
| CombineStats.StoredTwice | tnseq_combine_stats.py:46 | Setting a label twice leaves the second value. |
| Pipeline.EntryShape | tnseq_prepmap.py:145 | An entry line holds no line break, and starts and ends with non-whitespace. |
| Pipeline.EntryReadBack | tnseq_harmonize_wigs.py:34-37 | Round trip: an entry line parses as its position and count. |
| Pipeline.EntriesReadBack | tnseq_harmonize_wigs.py:33-38 | Round trip: entry lines always parse. Each written position gets its count, and every other location of the start map keeps its own. |
| Pipeline.LinesReadBack | tnseq_harmonize_wigs.py:28-29 | Round trip: the text of plain lines, stripped and split, is those lines. |
| Pipeline.StrippedUnlines | tnseq_harmonize_wigs.py:28 | Stripping written plain lines removes only the final newline. |
| Pipeline.JoinedLinesSplit | tnseq_harmonize_wigs.py:29 | Lines without "\n", joined by "\n", split back into themselves. |
| Pipeline.TrackTextLines | tnseq_harmonize_wigs.py:28-30 | A written track's text reads as its own lines. |
| Pipeline.WigReadBack | tnseq_harmonize_wigs.py:25-39 | Round trip: `read_wig` of a written track with a plain header gives its header and counts. |
| Pipeline.ParseWigOf | tnseq_harmonize_wigs.py:30-38 | The track read from text lines is the header of the first line and the counts of the rest. |
| Pipeline.SortedEntriesReadBack | tnseq_harmonize_wigs.py:33-38 | The sorted entry lines of a count map parse to that map. |
| Pipeline.HeaderPlain | tnseq_prepmap.py:143 | The header of a contig without line breaks or trailing whitespace is a plain header. |
| Pipeline.TrackReadBack | tnseq_prepmap.py:140-145 | Round trip: a contig's track from the prep script reads back under `read_wig` as its header and coverage. |
| Pipeline.TracksReadBack | tnseq_prepmap.py:139-145 | Every track file of a run has the contig's name and reads back as the contig's coverage. |
| Pipeline.TrackContig | tnseq_prepmap.py:140 | A track's file name `<prefix>_<contig>.wig`, whatever the prefix, gives back its contig under the harmonize script's guess. |
| Pipeline.ReadWritten | tnseq_harmonize_wigs.py:56-57 | Files that each parse to given tracks are read as those tracks. |
| Pipeline.HarmonizeAgain | tnseq_harmonize_wigs.py:55-69 | Running the harmonization on its own output writes the same texts. |
| Pipeline.SecondRead | tnseq_harmonize_wigs.py:56-57 | The second run reads the harmonized tracks of the first. |
| Pipeline.HarmonizedReadBack | tnseq_harmonize_wigs.py:63-69 | Every harmonized file reads back as its harmonized track. |
| Pipeline.SameTexts | tnseq_harmonize_wigs.py:62-69 | The same tracks under other names are written with the same texts. |
| Pipeline.StatsFileValues | tnseq_prepmap.py:29-31 | The statistics values: the command line, then each counter in decimal. |
| Pipeline.StatsLinesWritten | tnseq_prepmap.py:27-31 | `write_stats` writes exactly the `label: value` lines of the labels and values. |
| Pipeline.LabelsAreWords | tnseq_prepmap.py:76-82 | Every statistics label is a non-empty word of lower-case letters and "_". |
| Pipeline.LabelsPlain | tnseq_prepmap.py:76-82 | No label holds whitespace or ":". |
| Pipeline.LabelsDistinct | tnseq_prepmap.py:76-82 | No label is written twice. |
| Pipeline.NumberWritable | tnseq_prepmap.py:31 | A word label and a decimal number form a line that reads back. |
| Pipeline.StatsFileWritable | tnseq_prepmap.py:29-31 | Every line of a statistics file reads back when the command line does. |
| Pipeline.StatsReadBack | tnseq_combine_stats.py:40-47 | Round trip: a statistics file of the prep script reads back as "command" and the counter labels in order, each with its written value. |
| Pipeline.StatsStored | tnseq_combine_stats.py:46 | The stored map of a statistics file holds every label with its own value. |
| Pipeline.StatsRow | tnseq_combine_stats.py:51-53 | A stored statistics map yields the row of its values in label order. |
| Pipeline.StatsTable | tnseq_combine_stats.py:50-54 | One table row per file. |
| Pipeline.CombineRuns | tnseq_combine_stats.py:37-54 | Combining prep-script statistics files prints the header "sample", "command" and the counter labels. Then one row per file follows, in argument order, with no fault. |
| Pipeline.RunsRead | tnseq_combine_stats.py:39-47 | Reading prep-script statistics files succeeds. The labels are those of a statistics file, and each file's row is its own values. |
| Pipeline.RunsRows | tnseq_combine_stats.py:50-54 | Rows with every label present are the rows of the table. |
| Text.Find | tnseq_prepmap.py:45 | `str.find`: the lowest index of an occurrence, or -1 exactly when there is none. |
| Text.SplitJoin | tnseq_combine_stats.py:45 | Splitting undoes joining when no part holds the separator as its first occurrence. |
| Text.LastPieceOfSplit | tnseq_harmonize_wigs.py:47 | `split(sep)[-1]` is the text after the last separator. |
| Text.LastPieceAppend | tnseq_harmonize_wigs.py:47 | `(a + b).split(c)[-1] == a.split(c)[-1] + b` when `b` holds no `c`. |
| Text.SplitLastPiece | tnseq_harmonize_wigs.py:47 | `(a + c + b).split(c)[-1] == b` when `b` holds no `c`. |
| Text.ReplaceSuffix | tnseq_harmonize_wigs.py:47 | Replacing a pattern whose only occurrence is at the end. |
| Text.UniversalPlain | tnseq_harmonize_wigs.py:27-28 | Text without "\r" reads in text mode as it is. |
| Text.UnlinesIsJoin | tnseq_prepmap.py:143-145 | Lines each followed by "\n" are the lines joined by "\n" plus a final "\n". |
| Text.LStrip | tnseq_combine_stats.py:44 | `lstrip()` removes exactly the leading whitespace. |
| Text.RStrip | tnseq_combine_stats.py:44 | `rstrip()` removes exactly the trailing whitespace. |
| Text.Strip | tnseq_combine_stats.py:44 | `strip()` leaves no whitespace at either end. |
| Text.StripAround | tnseq_combine_stats.py:44 | Whitespace around a string whose ends are not whitespace is exactly what `strip()` removes. |
| Text.RStripChar | tnseq_prepmap.py:118 | `rstrip('\n')` removes exactly the trailing newlines. |
| Text.SplitWs | tnseq_harmonize_wigs.py:34 | `split()` yields non-empty fields without whitespace. |
| Text.SplitWsPair | tnseq_harmonize_wigs.py:34 | `split()` of two tokens separated by whitespace gives those two tokens. |
| Text.IntToString | tnseq_prepmap.py:145 | `str(n)` is non-empty, digits with at most a leading "-". |
| Text.ParseIntOfString | tnseq_harmonize_wigs.py:35 | Round trip: `int(str(n)) == n`. |
| Text.DigitsOfNat | tnseq_harmonize_wigs.py:35 | The digits of `str(n)` have the value n. |
| Ordering.SortStrings | tnseq_prepmap.py:61-62 | A set of strings as a strictly increasing list of exactly its elements. |
| Ordering.SortedStrings | tnseq_prepmap.py:61-62 | The sorted list of a string set is strictly increasing and holds exactly the set's elements. |
| Ordering.SortedInts | tnseq_prepmap.py:141-142 | The sorted list of an integer set is strictly increasing and holds exactly the set's elements. |
| Ordering.SortInts | tnseq_prepmap.py:141-142 | A set of integers as a strictly increasing list of exactly its elements. |
| Ordering.IncreasingUnique | tnseq_harmonize_wigs.py:59-60 | Two strictly increasing lists with the same elements are equal, so the sorted order is unique. |
| Ordering.LexTotal | tnseq_prepmap.py:62 | The string order is total: any two different strings compare. |
| Ordering.LexTransitive | tnseq_prepmap.py:62 | The string order is transitive. |

## Left out

- `do_command` and the bowtie2 call (tnseq_prepmap.py:34-39, 111) run an external program. The aligner's SAM output is a parameter of `PrepmapRun.Run`: its lines, each as `for line in f` yields it.
- FASTQ parsing and writing through Biopython's `SeqIO` (lines 85 and 107) are foreign calls. A read is a record (id, description, letters, qualities), and the reads are a parameter.
- `SeqRecord.reverse_complement` (line 99) complements the IUPAC ambiguity letters as well. `Prepmap.Complement` swaps only A/T and C/G, in both cases, and leaves other letters as they are.
- All file I/O is a map from file name to text: reading a missing file is `FileNotFound`, and writing is a map update. Text decoding errors are not modelled.
- The command-line surface is left out: `argparse`, `int()` of option strings (a `Config` holds integers), and `sys.argv` (the command line is a string parameter). `Prepmap.Defaults` records the option defaults.
- `glob.glob(f"*{contig}.wig")` (tnseq_harmonize_wigs.py:54) reads a directory. The names a group's glob selects are a parameter of `Harmonize.HarmonizeAll`.
- The order in which line 52 visits the contig set is arbitrary in Python, so it is a parameter too: `HarmonizeAll` takes one name list per contig.
- Messages to stderr and `print` (the "Found contigs" and "Done" lines) are not modelled. Combine's printed table is modelled as the list of printed lines.
- The commented-out transit conversion (tnseq_prepmap.py:148) is not code.
- The writes a Python run makes before it fails are not modelled in `PrepmapRun.Run`, which reports only the failure. `CombineStats.Combine` and `Harmonize.HarmonizeAll` do keep what was printed or written before the failure.
- Text.ParseInt: `int()` also accepts "_" between digits and non-ASCII decimal digits; the model accepts only ASCII digits with an optional sign and surrounding whitespace.
- CombineStats.Combine: requires at least one file name. `nargs='+'` makes argparse refuse an empty list, and with no files line 49 would raise `NameError`.
- Pipeline.CombineRuns: covers command lines that read back (`Writable`): no ": ", no line break, and no whitespace at the end.

## Behaviour worth knowing

- **The one-mismatch search.** It returns the first index of the lexicographically least variant that occurs, not the leftmost near match (`AdapterSearch.TieBreakIsNotLeftmost`).
- **The combined table's header.** It uses the labels of the last file read, because line 42 resets the list for each file (`CombineStats.HeaderUsesLastFile`).
- **Tracks for mapped contigs.**
  - Every mapped record gives its contig a coverage entry (tnseq_prepmap.py:127-128).
  - So a contig with mapped records but no unique perfect hit gets a track that holds the header line alone (`PrepmapRun.TrackLinesShape`).
- **The adapter itself as a variant.** A substitution can put back a letter the adapter already has, so the adapter itself is in the variant set. `AdapterSearch.VariantsMeaning` states when.
- **Repeated labels.** A label repeated within a statistics file appears twice in the label list and so twice in the header (`CombineStats.RepeatedLabel`).
- **Command lines containing ": ".** A statistics file whose command line contains ": " splits into three pieces, and the combine script then fails with `ValueError` (`CombineStats.StatsLineRejected`).
