/**
 * tnseq_combine_stats.py: read the `label: value` statistics files of several
 * runs and print one tab-separated table, a header row of labels and one row
 * per file.
 */
module CombineStats {
  import opened Wrappers
  import opened Text
  import opened Ordering

  // ---------------------------------------------------------- file lines

  /** The lines `for line in f` yields from (translated) text: each up to and
      including its "\n", and a last one without "\n" when the text does not
      end in one. */
  function LinesOf(u: string): (lines: seq<string>)
    decreases |u|
    ensures forall i :: 0 <= i < |lines| ==> lines[i] != []
  {
    if u == [] then []
    else
      var k := Find(u, "\n");
      if k == -1 then [u] else [u[..k + 1]] + LinesOf(u[k + 1..])
  }

  /** The concatenation of a list of strings. */
  function Concat(parts: seq<string>): string {
    if parts == [] then [] else parts[0] + Concat(parts[1..])
  }

  /** The lines put back together are the text; each line holds at most one
      "\n", at its end, and only the last line can lack it. */
  lemma {:induction false} LinesOfSplitsText(u: string)
    ensures Concat(LinesOf(u)) == u
    ensures forall i :: 0 <= i < |LinesOf(u)| ==> LineShaped(LinesOf(u)[i], i == |LinesOf(u)| - 1)
    decreases |u|
  {
    if u != [] {
      var k := Find(u, "\n");
      if k == -1 {
        assert LinesOf(u) == [u];
        assert Concat([u]) == u + Concat([]);
        NoNewlineLacks(u);
      } else {
        var head, tail := u[..k + 1], u[k + 1..];
        assert head + tail == u;
        LinesOfSplitsText(tail);
        FirstLine(u);
        assert LinesOf(u) == [head] + LinesOf(tail);
        ConsLines(head, LinesOf(tail));
      }
    }
  }

  /** Text without a "\n" to find lacks the character. */
  lemma NoNewlineLacks(u: string)
    requires Find(u, "\n") == -1
    ensures Lacks(u, '\n')
  {
    forall j | 0 <= j < |u| ensures u[j] != '\n' {
      assert !OccursAt(u, "\n", j);
      assert u[j..j + 1] == [u[j]];
    }
  }

  /** A complete first line in front of well-shaped lines. */
  lemma ConsLines(head: string, rest: seq<string>)
    requires LineShaped(head, false)
    requires forall i :: 0 <= i < |rest| ==> LineShaped(rest[i], i == |rest| - 1)
    ensures Concat([head] + rest) == head + Concat(rest)
    ensures forall i :: 0 <= i < |rest| + 1 ==> LineShaped(([head] + rest)[i], i == |rest|)
  {
    var lines := [head] + rest;
    assert lines[1..] == rest;
    forall i | 0 <= i < |lines| ensures LineShaped(lines[i], i == |rest|) {
      if i > 0 {
        assert lines[i] == rest[i - 1];
      }
    }
  }

  /** A line of a file: text without "\n", then one "\n" unless it is the last line. */
  predicate LineShaped(line: string, last: bool) {
    || (Lacks(line, '\n') && last)
    || (line != [] && line[|line| - 1] == '\n' && Lacks(line[..|line| - 1], '\n'))
  }

  /** The first line runs up to and including the first "\n". */
  lemma FirstLine(u: string)
    requires Find(u, "\n") != -1
    ensures var k := Find(u, "\n"); LineShaped(u[..k + 1], false)
  {
    var k := Find(u, "\n");
    var head := u[..k + 1];
    assert head[k] == '\n' by {
      assert u[k..k + 1] == "\n";
    }
    assert head[..k] == u[..k];
    forall j | 0 <= j < k ensures u[j] != '\n' {
      assert !OccursAt(u, "\n", j);
      assert u[j..j + 1] == [u[j]];
    }
  }

  // ------------------------------------------------------- label: value

  /** Lines 44-45: strip the line, then `label, value = line.split(': ')`,
      which raises ValueError unless there are exactly two pieces. */
  function ParseStatsLine(line: string): (r: Result<(string, string), Fault>)
    ensures r.Failure? ==> r.error == ValueError
    ensures r.Success? ==> r.value.0 + ": " + r.value.1 == Strip(line)
    ensures r.Success? ==> Find(r.value.0, ": ") == -1 && Find(r.value.1, ": ") == -1
  {
    var parts := Split(Strip(line), ": ");
    if |parts| != 2 then Failure(ValueError)
    else
      assert Join(parts, ": ") == parts[0] + ": " + parts[1] by {
        assert parts[1..] == [parts[1]];
      }
      Success((parts[0], parts[1]))
  }

  /** A line is rejected exactly when its stripped text does not contain
      `": "` exactly once. */
  lemma StatsLineRejected(line: string)
    ensures ParseStatsLine(line).Failure? <==>
      !exists a, b :: Strip(line) == a + ": " + b && Find(a, ": ") == -1 && Find(b, ": ") == -1
  {
    var t := Strip(line);
    if exists a, b :: t == a + ": " + b && Find(a, ": ") == -1 && Find(b, ": ") == -1 {
      var a, b :| t == a + ": " + b && Find(a, ": ") == -1 && Find(b, ": ") == -1;
      SepOnce(a, b);
      assert Split(t, ": ") == [a, b];
    }
  }

  /** `a + ": " + b` with no `": "` inside `a` or `b` splits into `[a, b]`. */
  lemma SepOnce(a: string, b: string)
    requires Find(a, ": ") == -1 && Find(b, ": ") == -1
    ensures Split(a + ": " + b, ": ") == [a, b]
  {
    SepAfter(a);
    SepAfter(b);
    assert Join([a, b], ": ") == a + ": " + b by {
      assert [a, b][1..] == [b];
    }
    SplitJoin([a, b], ": ");
  }

  /** In `x + ": "` the first `": "` is the appended one when `x` has none. */
  lemma SepAfter(x: string)
    requires Find(x, ": ") == -1
    ensures Find(x + ": ", ": ") == |x|
  {
    var s := x + ": ";
    assert OccursAt(s, ": ", |x|) by {
      assert s[|x|..|x| + 2] == ": ";
    }
    forall j | 0 <= j < |x| ensures !OccursAt(s, ": ", j) {
      if j + 2 <= |x| {
        OccursInPrefix(x, ": ", ": ", j);
      } else {
        assert j == |x| - 1;
        assert s[j + 1] == ':';
      }
    }
  }

  /** Reading back a written `label: value` line: the line parses to its
      label and value when neither holds `": "`, the line starts and ends
      with non-whitespace, and only whitespace surrounds it. */
  lemma ParseStatsLineOf(pre: string, key: string, value: string, post: string)
    requires AllSpace(pre) && AllSpace(post)
    requires Find(key, ": ") == -1 && Find(value, ": ") == -1
    requires key == [] || !IsSpace(key[0])
    requires value != [] && !IsSpace(value[|value| - 1])
    ensures ParseStatsLine(pre + (key + ": " + value) + post) == Success((key, value))
  {
    var x := key + ": " + value;
    assert x[|x| - 1] == value[|value| - 1];
    assert x[0] == if key == [] then ':' else key[0];
    StripAround(pre, x, post);
    SepOnce(key, value);
  }

  // ------------------------------------------------------- one stats file

  /** Lines 43-47 from here on: each line sets its label's value and adds
      the label to the list. */
  function ParseStats(lines: seq<string>, data: map<string, string>, labels: seq<string>)
    : Result<(map<string, string>, seq<string>), Fault>
    decreases |lines|
  {
    if lines == [] then Success((data, labels))
    else
      match ParseStatsLine(lines[0])
      case Failure(e) => Failure(e)
      case Success((key, value)) => ParseStats(lines[1..], data[key := value], labels + [key])
  }

  /** A whole stats file: its label -> value map and its labels in file order. */
  function StatsOf(text: string): Result<(map<string, string>, seq<string>), Fault> {
    ParseStats(LinesOf(Universal(text)), map[], [])
  }

  /** The label of a line that parses. */
  function LabelOf(line: string): string
    requires ParseStatsLine(line).Success?
  {
    ParseStatsLine(line).value.0
  }

  /** The labels of lines that all parse, in order. */
  function LineLabels(lines: seq<string>): (ls: seq<string>)
    requires forall i :: 0 <= i < |lines| ==> ParseStatsLine(lines[i]).Success?
    ensures |ls| == |lines|
  {
    if lines == [] then []
    else
      TailParses(lines);
      [LabelOf(lines[0])] + LineLabels(lines[1..])
  }

  /** The lines after the first of lines that all parse all parse. */
  lemma TailParses(lines: seq<string>)
    requires lines != [] && forall i :: 0 <= i < |lines| ==> ParseStatsLine(lines[i]).Success?
    ensures forall i :: 0 <= i < |lines[1..]| ==> ParseStatsLine(lines[1..][i]).Success?
  {
    forall i | 0 <= i < |lines[1..]| ensures ParseStatsLine(lines[1..][i]).Success? {
      TailIndex(lines, i + 1);
    }
  }

  /** The label list is the labels of the lines in file order, one per line,
      a repeated label as often as it occurs. */
  lemma {:induction false} LabelsInOrder(lines: seq<string>, data: map<string, string>, labels: seq<string>)
    requires ParseStats(lines, data, labels).Success?
    ensures forall i :: 0 <= i < |lines| ==> ParseStatsLine(lines[i]).Success?
    ensures ParseStats(lines, data, labels).value.1 == labels + LineLabels(lines)
    decreases |lines|
  {
    if lines != [] {
      ParseStatsStep(lines, data, labels);
      var key, value := LabelOf(lines[0]), ParseStatsLine(lines[0]).value.1;
      LabelsInOrder(lines[1..], data[key := value], labels + [key]);
      AllParse(lines);
      var ls := ParseStats(lines, data, labels).value.1;
      var later := LineLabels(lines[1..]);
      assert ls == labels + [key] + later;
      assert labels + [key] + later == labels + ([key] + later);
    }
  }

  /** The first line of a successful parse parses, and the rest go on from it. */
  lemma ParseStatsStep(lines: seq<string>, data: map<string, string>, labels: seq<string>)
    requires lines != [] && ParseStats(lines, data, labels).Success?
    ensures ParseStatsLine(lines[0]).Success?
    ensures ParseStats(lines, data, labels) ==
      ParseStats(lines[1..], data[LabelOf(lines[0]) := ParseStatsLine(lines[0]).value.1], labels + [LabelOf(lines[0])])
  {
  }

  /** Every line parses when the first and all the later ones do; their labels
      are the first one's, then the later ones'. */
  lemma AllParse(lines: seq<string>)
    requires lines != [] && ParseStatsLine(lines[0]).Success?
    requires forall i :: 0 <= i < |lines[1..]| ==> ParseStatsLine(lines[1..][i]).Success?
    ensures forall i :: 0 <= i < |lines| ==> ParseStatsLine(lines[i]).Success?
    ensures LineLabels(lines) == [LabelOf(lines[0])] + LineLabels(lines[1..])
  {
    EachParses(lines);
    LineLabelsStep(lines);
  }

  /** Lines parse one by one when the first and all the later ones do. */
  lemma EachParses(lines: seq<string>)
    requires lines != [] && ParseStatsLine(lines[0]).Success?
    requires forall i :: 0 <= i < |lines[1..]| ==> ParseStatsLine(lines[1..][i]).Success?
    ensures forall i :: 0 <= i < |lines| ==> ParseStatsLine(lines[i]).Success?
  {
    forall i | 0 < i < |lines| ensures ParseStatsLine(lines[i]).Success? {
      TailIndex(lines, i);
    }
  }

  /** The labels of lines that all parse are the first one's, then the later ones'. */
  lemma LineLabelsStep(lines: seq<string>)
    requires lines != [] && forall i :: 0 <= i < |lines| ==> ParseStatsLine(lines[i]).Success?
    requires forall i :: 0 <= i < |lines[1..]| ==> ParseStatsLine(lines[1..][i]).Success?
    ensures LineLabels(lines) == [LabelOf(lines[0])] + LineLabels(lines[1..])
  {
  }

  /** Lines for other labels leave a stored value as it is. */
  lemma {:induction false} OtherLabelsKeep(lines: seq<string>, data: map<string, string>, labels: seq<string>, key: string)
    requires ParseStats(lines, data, labels).Success? && key in data
    requires forall i :: 0 <= i < |lines| && ParseStatsLine(lines[i]).Success? ==> LabelOf(lines[i]) != key
    ensures var d := ParseStats(lines, data, labels).value.0;
      key in d && d[key] == data[key]
    decreases |lines|
  {
    if lines != [] {
      ParseStatsStep(lines, data, labels);
      var l, v := LabelOf(lines[0]), ParseStatsLine(lines[0]).value.1;
      var rest := lines[1..];
      forall i | 0 <= i < |rest| && ParseStatsLine(rest[i]).Success? ensures LabelOf(rest[i]) != key {
        TailIndex(lines, i + 1);
      }
      OtherLabelsKeep(rest, data[l := v], labels + [l], key);
    }
  }

  /** A repeated label keeps the value of its last line (line 46). */
  lemma {:induction false} LastValueWins(before: seq<string>, x: string, after: seq<string>,
                                         data: map<string, string>, labels: seq<string>)
    requires ParseStats(before + [x] + after, data, labels).Success?
    requires ParseStatsLine(x).Success?
    requires forall i :: 0 <= i < |after| && ParseStatsLine(after[i]).Success? ==> LabelOf(after[i]) != LabelOf(x)
    ensures var d := ParseStats(before + [x] + after, data, labels).value.0;
      LabelOf(x) in d && d[LabelOf(x)] == ParseStatsLine(x).value.1
    decreases |before|
  {
    SplitHead(before, x, after);
    if before == [] {
      var (l, v) := ParseStatsLine(x).value;
      OtherLabelsKeep(after, data[l := v], labels + [l], l);
    } else {
      var (l, v) := ParseStatsLine(before[0]).value;
      LastValueWins(before[1..], x, after, data[l := v], labels + [l]);
    }
  }

  /** Lines 40-47 for one file: the lines of a missing file are never read. */
  method ReadStats(fs: map<string, string>, name: string) returns (r: Result<(map<string, string>, seq<string>), Fault>)
    ensures name !in fs ==> r == Failure(FileNotFound)
    ensures name in fs ==> r == StatsOf(fs[name])
  {
    if name !in fs {
      return Failure(FileNotFound);
    }
    var lines := LinesOf(Universal(fs[name]));
    var data: map<string, string> := map[];
    var labels: seq<string> := [];
    var i := 0;
    while i < |lines|
      invariant 0 <= i <= |lines|
      invariant ParseStats(lines[i..], data, labels) == ParseStats(lines, map[], [])
    {
      SliceCons(lines, i);
      var line := Strip(lines[i]);
      var parts := Split(line, ": ");
      if |parts| != 2 {
        return Failure(ValueError);
      }
      var key, value := parts[0], parts[1];
      data := data[key := value];
      labels := labels + [key];
      i := i + 1;
    }
    return Success((data, labels));
  }

  // ---------------------------------------------------------- all files

  /** Lines 39-47 from here on: each file's map stored under its name; the
      label list is the one of the file read last. */
  function ReadAll(names: seq<string>, fs: map<string, string>, data: map<string, map<string, string>>, labels: seq<string>)
    : Result<(map<string, map<string, string>>, seq<string>), Fault>
    decreases |names|
  {
    if names == [] then Success((data, labels))
    else if names[0] !in fs then Failure(FileNotFound)
    else
      match StatsOf(fs[names[0]])
      case Failure(e) => Failure(e)
      case Success((values, fileLabels)) => ReadAll(names[1..], fs, data[names[0] := values], fileLabels)
  }

  /** A name that is not read keeps the map it had. */
  lemma {:induction false} ReadAllKeeps(names: seq<string>, fs: map<string, string>,
                                        data: map<string, map<string, string>>, labels: seq<string>, n: string)
    requires ReadAll(names, fs, data, labels).Success?
    requires n in data && n !in names
    ensures n in ReadAll(names, fs, data, labels).value.0
    ensures ReadAll(names, fs, data, labels).value.0[n] == data[n]
    decreases |names|
  {
    if names != [] {
      var (values, fileLabels) := StatsOf(fs[names[0]]).value;
      assert ReadAll(names, fs, data, labels) == ReadAll(names[1..], fs, data[names[0] := values], fileLabels);
      assert n != names[0];
      assert n !in names[1..];
      ReadAllKeeps(names[1..], fs, data[names[0] := values], fileLabels, n);
    }
  }

  /** After reading, every name maps to the values of its own file. */
  lemma {:induction false} ReadAllFiles(names: seq<string>, fs: map<string, string>,
                                        data: map<string, map<string, string>>, labels: seq<string>)
    requires ReadAll(names, fs, data, labels).Success?
    ensures forall n :: n in names ==> n in fs && StatsOf(fs[n]).Success?
    ensures forall n :: n in names ==> n in ReadAll(names, fs, data, labels).value.0
    ensures forall n :: n in names ==> ReadAll(names, fs, data, labels).value.0[n] == StatsOf(fs[n]).value.0
    decreases |names|
  {
    if names != [] {
      var n0 := names[0];
      var (values, fileLabels) := StatsOf(fs[n0]).value;
      var rest := names[1..];
      var next := data[n0 := values];
      assert ReadAll(names, fs, data, labels) == ReadAll(rest, fs, next, fileLabels);
      ReadAllFiles(rest, fs, next, fileLabels);
      assert forall n :: n in names ==> n == n0 || n in rest by {
        forall n | n in names ensures n == n0 || n in rest {
          var j :| 0 <= j < |names| && names[j] == n;
          if j > 0 {
            TailIndex(names, j);
          }
        }
      }
      if n0 !in rest {
        ReadAllKeeps(rest, fs, next, fileLabels, n0);
      }
    }
  }

  /** Reading succeeds when every file is there and parses. */
  lemma {:induction false} ReadAllSucceeds(names: seq<string>, fs: map<string, string>,
                                           data: map<string, map<string, string>>, labels: seq<string>)
    requires forall i :: 0 <= i < |names| ==> names[i] in fs && StatsOf(fs[names[i]]).Success?
    ensures ReadAll(names, fs, data, labels).Success?
    decreases |names|
  {
    if names != [] {
      assert names[0] in fs && StatsOf(fs[names[0]]).Success?;
      var (values, fileLabels) := StatsOf(fs[names[0]]).value;
      forall i | 0 <= i < |names[1..]| ensures names[1..][i] in fs && StatsOf(fs[names[1..][i]]).Success? {
        TailIndex(names, i + 1);
      }
      ReadAllSucceeds(names[1..], fs, data[names[0] := values], fileLabels);
    }
  }

  /** After reading, the label list is that of the last name given: line 42
      resets it for each file. */
  lemma {:induction false} ReadAllLabels(names: seq<string>, fs: map<string, string>,
                                         data: map<string, map<string, string>>, labels: seq<string>)
    requires ReadAll(names, fs, data, labels).Success? && names != []
    ensures names[|names| - 1] in fs && StatsOf(fs[names[|names| - 1]]).Success?
    ensures ReadAll(names, fs, data, labels).value.1 == StatsOf(fs[names[|names| - 1]]).value.1
    decreases |names|
  {
    ReadAllStep(names, fs, data, labels);
    if |names| > 1 {
      var file := StatsOf(fs[names[0]]).value;
      ReadAllLabels(names[1..], fs, data[names[0] := file.0], file.1);
      TailIndex(names, |names| - 1);
    }
  }

  /** The first file of a successful read is there and parses, and the rest
      go on from it. */
  lemma ReadAllStep(names: seq<string>, fs: map<string, string>,
                    data: map<string, map<string, string>>, labels: seq<string>)
    requires names != [] && ReadAll(names, fs, data, labels).Success?
    ensures names[0] in fs && StatsOf(fs[names[0]]).Success?
    ensures ReadAll(names, fs, data, labels) ==
      ReadAll(names[1..], fs, data[names[0] := StatsOf(fs[names[0]]).value.0], StatsOf(fs[names[0]]).value.1)
  {
  }

  /** The values of a row for `labels`, or `None` when one is missing (the
      KeyError of line 53). */
  function RowValues(values: map<string, string>, labels: seq<string>): (r: Option<seq<string>>)
    ensures r.Some? <==> forall k :: 0 <= k < |labels| ==> labels[k] in values
    ensures r.Some? ==> |r.value| == |labels| && forall k :: 0 <= k < |labels| ==> r.value[k] == values[labels[k]]
  {
    if labels == [] then Some([])
    else if labels[0] !in values then None
    else
      match RowValues(values, labels[1..])
      case None => None
      case Some(rest) => Some([values[labels[0]]] + rest)
  }

  /** The rows lines 50-54 print, stopping at the first row that lacks a label. */
  function Rows(names: seq<string>, data: map<string, map<string, string>>, labels: seq<string>)
    : (r: (seq<string>, Option<Fault>))
    requires forall n :: n in names ==> n in data
    ensures |r.0| <= |names|
    ensures r.1 == None || r.1 == Some(KeyError)
    decreases |names|
  {
    if names == [] then ([], None)
    else
      match RowValues(data[names[0]], labels)
      case None => ([], Some(KeyError))
      case Some(values) =>
        var (rest, fault) := Rows(names[1..], data, labels);
        ([RowLine(names[0], values)] + rest, fault)
  }

  /** One printed row: the name, then the values, tab-separated. */
  function RowLine(name: string, values: seq<string>): string {
    Join([name] + values, "\t")
  }

  /** The header row of line 49. */
  function HeaderRow(labels: seq<string>): string {
    Join(["sample"] + labels, "\t")
  }

  /** What the program prints, and the fault that ends it, if any. */
  function Combined(names: seq<string>, fs: map<string, string>): (seq<string>, Option<Fault>) {
    match ReadAll(names, fs, map[], [])
    case Failure(e) => ([], Some(e))
    case Success((data, labels)) =>
      ReadAllFiles(names, fs, map[], []);
      var (rows, fault) := Rows(names, data, labels);
      ([HeaderRow(labels)] + rows, fault)
  }

  /** What is printed once the files are read and the rows are known. */
  lemma CombinedOf(names: seq<string>, fs: map<string, string>, data: map<string, map<string, string>>,
                   labels: seq<string>, rows: seq<string>)
    requires ReadAll(names, fs, map[], []) == Success((data, labels))
    requires forall n :: n in names ==> n in data
    requires Rows(names, data, labels) == (rows, None)
    ensures Combined(names, fs) == ([HeaderRow(labels)] + rows, None)
  {
  }

  /** The `__main__` block: read every file, then print the header and one
      row per file; the rows printed before a KeyError stay printed. */
  method Combine(names: seq<string>, fs: map<string, string>) returns (printed: seq<string>, fault: Option<Fault>)
    requires |names| >= 1
    ensures (printed, fault) == Combined(names, fs)
  {
    var data: map<string, map<string, string>> := map[];
    var labels: seq<string> := [];
    var i := 0;
    while i < |names|
      invariant 0 <= i <= |names|
      invariant ReadAll(names[i..], fs, data, labels) == ReadAll(names, fs, map[], [])
    {
      SliceCons(names, i);
      var read := ReadStats(fs, names[i]);
      if read.Failure? {
        return [], Some(read.error);
      }
      var (values, fileLabels) := read.value;
      data := data[names[i] := values];
      labels := fileLabels;
      i := i + 1;
    }
    assert names[i..] == [];
    ReadAllFiles(names, fs, map[], []);
    printed, fault := PrintRows(names, data, labels);
  }

  /** Lines 49-54: the header, then each row built field by field. */
  method PrintRows(names: seq<string>, data: map<string, map<string, string>>, labels: seq<string>)
    returns (printed: seq<string>, fault: Option<Fault>)
    requires forall n :: n in names ==> n in data
    ensures printed == [HeaderRow(labels)] + Rows(names, data, labels).0
    ensures fault == Rows(names, data, labels).1
  {
    printed := [HeaderRow(labels)];
    var j := 0;
    while j < |names|
      invariant 0 <= j <= |names|
      invariant printed + Rows(names[j..], data, labels).0 == [HeaderRow(labels)] + Rows(names, data, labels).0
      invariant Rows(names[j..], data, labels).1 == Rows(names, data, labels).1
    {
      RowsStep(names, j, data, labels);
      var row := BuildRow(names[j], data[names[j]], labels);
      if row.None? {
        return printed, Some(KeyError);
      }
      printed := printed + [Join(row.value, "\t")];
      j := j + 1;
    }
    assert names[j..] == [];
    return printed, None;
  }

  /** The rows from name `j` on: that name's row unless it lacks a label, then the rest. */
  lemma RowsStep(names: seq<string>, j: nat, data: map<string, map<string, string>>, labels: seq<string>)
    requires j < |names| && forall n :: n in names ==> n in data
    ensures names[j] in data && forall n :: n in names[j + 1..] ==> n in data
    ensures RowValues(data[names[j]], labels).None? ==> Rows(names[j..], data, labels) == ([], Some(KeyError))
    ensures RowValues(data[names[j]], labels).Some? ==>
      var later := Rows(names[j + 1..], data, labels);
      Rows(names[j..], data, labels) ==
        ([RowLine(names[j], RowValues(data[names[j]], labels).value)] + later.0, later.1)
  {
    SliceCons(names, j);
    assert forall n :: n in names[j + 1..] ==> n in names;
  }

  /** Lines 51-53: the name, then the file's value for each label in turn. */
  method BuildRow(name: string, values: map<string, string>, labels: seq<string>) returns (row: Option<seq<string>>)
    ensures row == match RowValues(values, labels) case None => None case Some(vs) => Some([name] + vs)
  {
    var line := [name];
    var k := 0;
    while k < |labels|
      invariant 0 <= k <= |labels|
      invariant |line| == k + 1 && line[0] == name
      invariant forall m :: 0 <= m < k ==> labels[m] in values && line[m + 1] == values[labels[m]]
    {
      if labels[k] !in values {
        return None;
      }
      line := line + [values[labels[k]]];
      k := k + 1;
    }
    ConsByIndex(line, name, RowValues(values, labels).value);
    return Some(line);
  }

  // ---------------------------------------------------------- properties

  /** The header row is "sample" followed by the labels of the last file on
      the command line, whatever the earlier files held. */
  lemma HeaderUsesLastFile(names: seq<string>, fs: map<string, string>)
    requires |names| >= 1 && ReadAll(names, fs, map[], []).Success?
    ensures names[|names| - 1] in fs
    ensures StatsOf(fs[names[|names| - 1]]).Success?
    ensures Combined(names, fs).0[0] == HeaderRow(StatsOf(fs[names[|names| - 1]]).value.1)
  {
    ReadAllLabels(names, fs, map[], []);
  }

  /** When every file has every header label, one row per file is printed in
      command-line order, each the file name then its values in header
      order; otherwise the run ends with a KeyError. */
  lemma RowsOfFiles(names: seq<string>, data: map<string, map<string, string>>, labels: seq<string>)
    requires forall n :: n in names ==> n in data
    ensures var (rows, fault) := Rows(names, data, labels);
      (fault == None <==> forall i, k :: 0 <= i < |names| && 0 <= k < |labels| ==> labels[k] in data[names[i]])
    ensures var (rows, fault) := Rows(names, data, labels);
      fault == None ==> |rows| == |names| && forall i :: 0 <= i < |names| ==>
        rows[i] == RowLine(names[i], RowValues(data[names[i]], labels).value)
  {
    RowsFault(names, data, labels);
    if Rows(names, data, labels).1 == None {
      RowsContent(names, data, labels);
    }
  }

  /** The run ends with a KeyError exactly when some file lacks some label. */
  lemma {:induction false} RowsFault(names: seq<string>, data: map<string, map<string, string>>, labels: seq<string>)
    requires forall n :: n in names ==> n in data
    ensures Rows(names, data, labels).1 == None <==>
      forall i, k :: 0 <= i < |names| && 0 <= k < |labels| ==> labels[k] in data[names[i]]
    decreases |names|
  {
    if names != [] {
      RowsStep(names, 0, data, labels);
      assert names[0..] == names;
      RowsFault(names[1..], data, labels);
      LabelsEverywhere(names, data, labels);
    }
  }

  /** Every file has every label when the first has them all and the others do. */
  lemma LabelsEverywhere(names: seq<string>, data: map<string, map<string, string>>, labels: seq<string>)
    requires names != [] && forall n :: n in names ==> n in data
    ensures names[0] in data && forall n :: n in names[1..] ==> n in data
    ensures (forall i, k :: 0 <= i < |names| && 0 <= k < |labels| ==> labels[k] in data[names[i]]) <==>
      (forall k :: 0 <= k < |labels| ==> labels[k] in data[names[0]]) &&
      (forall i, k :: 0 <= i < |names[1..]| && 0 <= k < |labels| ==> labels[k] in data[names[1..][i]])
  {
    assert forall n :: n in names[1..] ==> n in names;
    forall i | 0 < i < |names| ensures names[1..][i - 1] == names[i] {
      TailIndex(names, i);
    }
  }

  /** Without a KeyError, one row per file, in command-line order. */
  lemma {:induction false} RowsContent(names: seq<string>, data: map<string, map<string, string>>, labels: seq<string>)
    requires forall n :: n in names ==> n in data
    requires forall i, k :: 0 <= i < |names| && 0 <= k < |labels| ==> labels[k] in data[names[i]]
    ensures var rows := Rows(names, data, labels).0;
      |rows| == |names| && forall i :: 0 <= i < |names| ==>
        rows[i] == RowLine(names[i], RowValues(data[names[i]], labels).value)
    decreases |names|
  {
    if names != [] {
      RowsStep(names, 0, data, labels);
      assert names[0..] == names;
      LabelsEverywhere(names, data, labels);
      RowsContent(names[1..], data, labels);
      ShiftRows(names, data, labels);
    }
  }

  /** The first row, then the rows of the later files, are the rows of all files. */
  lemma ShiftRows(names: seq<string>, data: map<string, map<string, string>>, labels: seq<string>)
    requires names != [] && forall n :: n in names ==> n in data
    requires forall i, k :: 0 <= i < |names| && 0 <= k < |labels| ==> labels[k] in data[names[i]]
    requires forall n :: n in names[1..] ==> n in data
    requires var later := Rows(names[1..], data, labels).0;
      |later| == |names| - 1 && forall i :: 0 <= i < |names| - 1 ==>
        later[i] == RowLine(names[1..][i], RowValues(data[names[1..][i]], labels).value)
    ensures var rows := [RowLine(names[0], RowValues(data[names[0]], labels).value)] + Rows(names[1..], data, labels).0;
      |rows| == |names| && forall i :: 0 <= i < |names| ==>
        rows[i] == RowLine(names[i], RowValues(data[names[i]], labels).value)
  {
    forall i | 0 < i < |names| ensures names[1..][i - 1] == names[i] {
      TailIndex(names, i);
    }
  }

  /** Reading a line that holds no "\n" and its terminator, then the rest. */
  lemma LinesOfCons(line: string, rest: string)
    requires Lacks(line, '\n')
    ensures LinesOf(line + "\n" + rest) == [line + "\n"] + LinesOf(rest)
  {
    var u := line + "\n" + rest;
    FindCharAtEnd(line, '\n');
    FindExtend(line + "\n", rest, "\n");
    assert u[..|line| + 1] == line + "\n";
    assert u[|line| + 1..] == rest;
  }

  // ---------------------------------------------------- written stats files

  /** A `label: value` pair that reads back as written: no line break or
      `": "` inside either part, the label starts and the value ends with
      non-whitespace. */
  predicate Writable(key: string, value: string) {
    && Lacks(key, '\n') && Lacks(value, '\n') && Lacks(key, '\r') && Lacks(value, '\r')
    && Find(key, ": ") == -1 && Find(value, ": ") == -1
    && (key == [] || !IsSpace(key[0]))
    && value != [] && !IsSpace(value[|value| - 1])
  }

  /** The lines of a stats file holding these labels and values, in order. */
  function Written(keys: seq<string>, values: seq<string>): (lines: seq<string>)
    requires |keys| == |values|
    ensures |lines| == |keys|
  {
    seq(|keys|, i requires 0 <= i < |keys| => keys[i] + ": " + values[i])
  }

  /** The map after setting each label to its value in turn from `data`. */
  function Stored(keys: seq<string>, values: seq<string>, data: map<string, string>): map<string, string>
    requires |keys| == |values|
    decreases |keys|
  {
    if keys == [] then data else Stored(keys[1..], values[1..], data[keys[0] := values[0]])
  }

  /** The first written line, then the others. */
  lemma WrittenCons(keys: seq<string>, values: seq<string>)
    requires |keys| == |values| && keys != []
    ensures Written(keys, values) == [keys[0] + ": " + values[0]] + Written(keys[1..], values[1..])
  {
  }

  /** A line holds no character its two parts lack, other than those of ": ". */
  lemma LineLacks(key: string, value: string, c: char)
    requires Lacks(key, c) && Lacks(value, c) && c != ':' && c != ' '
    ensures Lacks(key + ": " + value, c)
  {
    var x := key + ": " + value;
    forall i | 0 <= i < |x| ensures x[i] != c {
      if i < |key| {
        assert x[i] == key[i];
      } else if i >= |key| + 2 {
        assert x[i] == value[i - |key| - 2];
      }
    }
  }

  /** Written lines read back, line by line, as their labels and values. */
  lemma {:induction false} ReadBackLines(keys: seq<string>, values: seq<string>,
                                         data: map<string, string>, labels: seq<string>)
    requires |keys| == |values|
    requires forall i :: 0 <= i < |keys| ==> Writable(keys[i], values[i])
    ensures ParseStats(LinesOf(Unlines(Written(keys, values))), data, labels) ==
      Success((Stored(keys, values, data), labels + keys))
    decreases |keys|
  {
    if keys == [] {
      assert labels + keys == labels;
    } else {
      assert Writable(keys[0], values[0]);
      FirstWrittenLine(keys, values);
      ParseStatsCons(LinesOf(Unlines(Written(keys, values))), keys[0], values[0], data, labels);
      WritableTail(keys, values);
      ReadBackLines(keys[1..], values[1..], data[keys[0] := values[0]], labels + [keys[0]]);
      AppendHeadTail(labels, keys);
    }
  }

  /** The first line read from written pairs is the first pair's, and the
      lines after it are those of the later pairs. */
  lemma FirstWrittenLine(keys: seq<string>, values: seq<string>)
    requires |keys| == |values| && keys != [] && Writable(keys[0], values[0])
    ensures var ls := LinesOf(Unlines(Written(keys, values)));
      && ls != [] && ParseStatsLine(ls[0]) == Success((keys[0], values[0]))
      && ls[1..] == LinesOf(Unlines(Written(keys[1..], values[1..])))
  {
    LineLacks(keys[0], values[0], '\n');
    WrittenLines(keys, values);
    WrittenLineParses(keys[0], values[0]);
  }

  /** The written text splits into the first pair's line and the later pairs' lines. */
  lemma WrittenLines(keys: seq<string>, values: seq<string>)
    requires |keys| == |values| && keys != [] && Lacks(keys[0] + ": " + values[0], '\n')
    ensures LinesOf(Unlines(Written(keys, values))) ==
      [keys[0] + ": " + values[0] + "\n"] + LinesOf(Unlines(Written(keys[1..], values[1..])))
  {
    var line := keys[0] + ": " + values[0];
    var rest := Written(keys[1..], values[1..]);
    WrittenCons(keys, values);
    UnlinesCons(line, rest);
    LinesOfCons(line, Unlines(rest));
  }

  /** A written line with its terminator reads back as its pair. */
  lemma WrittenLineParses(key: string, value: string)
    requires Writable(key, value)
    ensures ParseStatsLine(key + ": " + value + "\n") == Success((key, value))
  {
    assert key + ": " + value + "\n" == [] + (key + ": " + value) + "\n";
    ParseStatsLineOf([], key, value, "\n");
  }

  /** A first line that parses sets its label, then the rest go on. */
  lemma ParseStatsCons(lines: seq<string>, key: string, value: string, data: map<string, string>, labels: seq<string>)
    requires lines != [] && ParseStatsLine(lines[0]) == Success((key, value))
    ensures ParseStats(lines, data, labels) == ParseStats(lines[1..], data[key := value], labels + [key])
  {
  }

  /** The pairs after the first of writable pairs are writable. */
  lemma WritableTail(keys: seq<string>, values: seq<string>)
    requires |keys| == |values| && keys != []
    requires forall i :: 0 <= i < |keys| ==> Writable(keys[i], values[i])
    ensures forall i :: 0 <= i < |keys[1..]| ==> Writable(keys[1..][i], values[1..][i])
  {
    forall i | 0 <= i < |keys[1..]| ensures Writable(keys[1..][i], values[1..][i]) {
      TailIndex(keys, i + 1);
      TailIndex(values, i + 1);
      assert Writable(keys[i + 1], values[i + 1]);
    }
  }

  /** A stats file written as `label: value` lines reads back as the labels
      in order and the map they set. */
  lemma ReadBackStats(keys: seq<string>, values: seq<string>)
    requires |keys| == |values|
    requires forall i :: 0 <= i < |keys| ==> Writable(keys[i], values[i])
    ensures StatsOf(Unlines(Written(keys, values))) == Success((Stored(keys, values, map[]), keys))
  {
    var lines := Written(keys, values);
    forall i | 0 <= i < |lines| ensures Lacks(lines[i], '\r') {
      assert Writable(keys[i], values[i]);
      LineLacks(keys[i], values[i], '\r');
    }
    var text := Unlines(lines);
    UnlinesLacks(lines, '\r');
    UniversalPlain(text);
    ReadBackLines(keys, values, map[], []);
    assert [] + keys == keys;
    assert StatsOf(text) == ParseStats(LinesOf(text), map[], []);
  }

  /** Setting labels keeps the earlier labels and adds the written ones. */
  lemma {:induction false} StoredKeys(keys: seq<string>, values: seq<string>, data: map<string, string>)
    requires |keys| == |values|
    ensures Stored(keys, values, data).Keys == data.Keys + Elems(keys)
    decreases |keys|
  {
    if keys != [] {
      StoredKeys(keys[1..], values[1..], data[keys[0] := values[0]]);
      ElemsCons(keys);
    }
  }

  /** A label holds the value of its last line. */
  lemma {:induction false} StoredLast(keys: seq<string>, values: seq<string>, data: map<string, string>, i: nat)
    requires |keys| == |values| && i < |keys|
    requires forall j :: i < j < |keys| ==> keys[j] != keys[i]
    ensures keys[i] in Stored(keys, values, data) && Stored(keys, values, data)[keys[i]] == values[i]
    decreases |keys|
  {
    var rest := data[keys[0] := values[0]];
    if i == 0 {
      StoredUntouched(keys[1..], values[1..], rest, keys[0]);
    } else {
      forall j | i - 1 < j < |keys[1..]| ensures keys[1..][j] != keys[1..][i - 1] {
        TailIndex(keys, j + 1);
        TailIndex(keys, i);
      }
      StoredLast(keys[1..], values[1..], rest, i - 1);
      TailIndex(keys, i);
      TailIndex(values, i);
    }
  }

  /** A label that is not written keeps its value. */
  lemma {:induction false} StoredUntouched(keys: seq<string>, values: seq<string>, data: map<string, string>, key: string)
    requires |keys| == |values|
    requires forall j :: 0 <= j < |keys| ==> keys[j] != key
    ensures key in data ==> key in Stored(keys, values, data) && Stored(keys, values, data)[key] == data[key]
    ensures key !in data ==> key !in Stored(keys, values, data)
    decreases |keys|
  {
    if keys != [] {
      forall j | 0 <= j < |keys[1..]| ensures keys[1..][j] != key {
        TailIndex(keys, j + 1);
      }
      StoredUntouched(keys[1..], values[1..], data[keys[0] := values[0]], key);
    }
  }

  /** A label given twice in one file keeps the second value, and both
      copies are columns of the table. */
  lemma RepeatedLabel(key: string, first: string, second: string)
    requires Writable(key, first) && Writable(key, second)
    ensures StatsOf(Unlines([key + ": " + first, key + ": " + second])) ==
      Success((map[key := second], [key, key]))
  {
    var keys := [key, key];
    var values := [first, second];
    assert Written(keys, values) == [key + ": " + first, key + ": " + second];
    ReadBackStats(keys, values);
    StoredTwice(key, first, second);
  }

  /** Setting a label twice leaves the second value. */
  lemma StoredTwice(key: string, first: string, second: string)
    ensures Stored([key, key], [first, second], map[]) == map[key := second]
  {
    var keys := [key, key];
    var values := [first, second];
    assert keys[1..] == [key] && values[1..] == [second];
    assert Stored(keys, values, map[]) == Stored([key], [second], map[key := first]);
    assert [key][1..] == [] && [second][1..] == [];
    assert Stored([key], [second], map[key := first]) == map[key := first][key := second];
    assert map[key := first][key := second] == map[key := second];
  }
}
