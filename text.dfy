/**
 * The Python string operations the three tools rely on, written out over
 * `string` (a sequence of Unicode scalar values, as Python's `str` is):
 * `str.find`, `str.split(sep)`, `sep.join`, `str.replace`, `str.strip()`,
 * `str.rstrip(c)`, `str.split()` with no argument, `str(n)` and `int(s)`.
 */
module Text {
  import opened Wrappers

  /** Python's `str.isspace()` for a single character. */
  predicate IsSpace(c: char) {
    || '\t' <= c <= '\r'
    || '\U{1C}' <= c <= '\U{1F}'
    || c == ' ' || c == '\U{85}' || c == '\U{A0}' || c == '\U{1680}'
    || '\U{2000}' <= c <= '\U{200A}'
    || c == '\U{2028}' || c == '\U{2029}' || c == '\U{202F}' || c == '\U{205F}' || c == '\U{3000}'
  }

  predicate AllSpace(s: string) {
    forall i :: 0 <= i < |s| ==> IsSpace(s[i])
  }

  predicate NoSpace(s: string) {
    forall i :: 0 <= i < |s| ==> !IsSpace(s[i])
  }

  /** True when `c` does not occur in `s`. */
  predicate Lacks(s: string, c: char) {
    forall i :: 0 <= i < |s| ==> s[i] != c
  }

  // ---------------------------------------------------------------- find

  /** `pat` occurs in `s` starting at index `i`. */
  predicate OccursAt(s: string, pat: string, i: int) {
    0 <= i && i + |pat| <= |s| && s[i..i + |pat|] == pat
  }

  /** The lowest index at or after `from` where `pat` occurs, or -1. */
  function FindFrom(s: string, pat: string, from: nat): (r: int)
    requires from <= |s|
    decreases |s| - from
    ensures r == -1 || (from <= r && OccursAt(s, pat, r))
    ensures r == -1 ==> forall j :: from <= j ==> !OccursAt(s, pat, j)
    ensures r != -1 ==> forall j :: from <= j < r ==> !OccursAt(s, pat, j)
  {
    if from + |pat| > |s| then -1
    else if s[from..from + |pat|] == pat then from
    else FindFrom(s, pat, from + 1)
  }

  /** Python's `s.find(pat)`: the lowest index of an occurrence of `pat`, or -1. */
  function Find(s: string, pat: string): (r: int)
    ensures -1 <= r <= |s|
    ensures r == -1 <==> forall j :: !OccursAt(s, pat, j)
    ensures r != -1 ==> OccursAt(s, pat, r) && forall j :: 0 <= j < r ==> !OccursAt(s, pat, j)
  {
    FindFrom(s, pat, 0)
  }

  /** An occurrence inside a prefix is an occurrence in the whole string, and back. */
  lemma OccursInPrefix(s: string, t: string, pat: string, j: int)
    requires j + |pat| <= |s|
    ensures OccursAt(s, pat, j) <==> OccursAt(s + t, pat, j)
  {
    if 0 <= j {
      assert (s + t)[j..j + |pat|] == s[j..j + |pat|];
    }
  }

  /** Appending text after an occurrence does not move the first occurrence. */
  lemma FindExtend(s: string, t: string, pat: string)
    requires Find(s, pat) != -1
    ensures Find(s + t, pat) == Find(s, pat)
  {
    var k := Find(s, pat);
    OccursInPrefix(s, t, pat, k);
    var r := Find(s + t, pat);
    if r < k {
      OccursInPrefix(s, t, pat, r);
    }
  }

  /** An occurrence-free string stays occurrence-free when cut short. */
  lemma FindNoneInPrefix(s: string, t: string, pat: string)
    requires Find(s + t, pat) == -1 || Find(s + t, pat) + |pat| > |s|
    ensures Find(s, pat) == -1
  {
    var k := Find(s, pat);
    if k != -1 {
      OccursInPrefix(s, t, pat, k);
    }
  }

  /** `pat` first occurs in `x + pat` at the end, so it first occurs at `|x|` in `x + pat + y`. */
  lemma FindAfterPrefix(x: string, pat: string, y: string)
    requires |pat| > 0 && Find(x + pat, pat) == |x|
    ensures Find(x + pat + y, pat) == |x|
    ensures Find(x, pat) == -1
  {
    FindExtend(x + pat, y, pat);
    FindNoneInPrefix(x, pat, pat);
  }

  /** For a one-character pattern, the first occurrence in `x + [c]` is the last. */
  lemma FindCharAtEnd(x: string, c: char)
    requires Lacks(x, c)
    ensures Find(x + [c], [c]) == |x|
  {
    assert OccursAt(x + [c], [c], |x|) by {
      assert (x + [c])[|x|..|x| + 1] == [c];
    }
    forall j | 0 <= j < |x|
      ensures !OccursAt(x + [c], [c], j)
    {
      assert (x + [c])[j..j + 1] == [x[j]];
    }
  }

  // ---------------------------------------------------------- split, join

  /** `sep.join(parts)` */
  function Join(parts: seq<string>, sep: string): string {
    if |parts| == 0 then []
    else if |parts| == 1 then parts[0]
    else parts[0] + sep + Join(parts[1..], sep)
  }

  /** Joining one more part appends the separator and that part. */
  lemma {:induction false} JoinSnoc(parts: seq<string>, x: string, sep: string)
    requires parts != []
    ensures Join(parts + [x], sep) == Join(parts, sep) + sep + x
  {
    if |parts| > 1 {
      assert (parts + [x])[1..] == parts[1..] + [x];
      JoinSnoc(parts[1..], x, sep);
    } else {
      assert (parts + [x])[1..] == [x];
    }
  }

  /** Python's `s.split(sep)` for a non-empty separator: the pieces between
      the non-overlapping occurrences of `sep`, found left to right. */
  function Split(s: string, sep: string): (r: seq<string>)
    requires |sep| > 0
    decreases |s|
    ensures |r| >= 1
    ensures Join(r, sep) == s
    ensures forall i :: 0 <= i < |r| ==> Find(r[i], sep) == -1
  {
    var k := Find(s, sep);
    if k == -1 then [s]
    else
      SplitAtFirst(s, sep, k);
      var rest := Split(s[k + |sep|..], sep);
      ConsPieces(s[..k], rest, sep);
      [s[..k]] + rest
  }

  /** The text before the first occurrence of `sep`, `sep` itself, and the rest. */
  lemma SplitAtFirst(s: string, sep: string, k: int)
    requires |sep| > 0 && k == Find(s, sep) && k != -1
    ensures k + |sep| <= |s| && s == s[..k] + sep + s[k + |sep|..]
    ensures Find(s[..k], sep) == -1
  {
    assert s[k..k + |sep|] == sep;
    assert s == s[..k] + s[k..];
    FindNoneInPrefix(s[..k], s[k..], sep);
  }

  /** One more piece in front: joined with a separator, still free of `sep`. */
  lemma ConsPieces(head: string, rest: seq<string>, sep: string)
    requires |rest| >= 1 && Find(head, sep) == -1
    requires forall i :: 0 <= i < |rest| ==> Find(rest[i], sep) == -1
    ensures Join([head] + rest, sep) == head + sep + Join(rest, sep)
    ensures forall i :: 0 <= i < |rest| + 1 ==> Find(([head] + rest)[i], sep) == -1
  {
    assert ([head] + rest)[1..] == rest;
    forall i | 0 < i < |rest| + 1
      ensures Find(([head] + rest)[i], sep) == -1
    {
      assert ([head] + rest)[i] == rest[i - 1];
    }
  }

  /** Splitting undoes joining when every part's first occurrence of `sep`
      in `part + sep` is the appended one (for a one-character separator:
      no part contains it). */
  lemma {:induction false} SplitJoin(parts: seq<string>, sep: string)
    requires |sep| > 0 && |parts| >= 1
    requires forall i :: 0 <= i < |parts| ==> Find(parts[i] + sep, sep) == |parts[i]|
    ensures Split(Join(parts, sep), sep) == parts
  {
    var p := parts[0];
    FindAfterPrefix(p, sep, []);
    if |parts| == 1 {
      assert Split(p, sep) == [p];
    } else {
      var rest := Join(parts[1..], sep);
      var s := p + sep + rest;
      assert Join(parts, sep) == s;
      FindAfterPrefix(p, sep, rest);
      assert s[..|p|] == p;
      assert s[|p| + |sep|..] == rest;
      assert Split(s, sep) == [p] + Split(rest, sep);
      SplitJoin(parts[1..], sep);
      assert parts == [p] + parts[1..];
    }
  }

  /** A string that lacks `c` has no occurrence of it. */
  lemma LacksFind(x: string, c: char)
    requires Lacks(x, c)
    ensures Find(x, [c]) == -1
  {
    FindCharAtEnd(x, c);
    FindNoneInPrefix(x, [c], [c]);
  }

  /** `s.split(sep)[-1]`: what follows the last occurrence of `sep`. */
  function LastPiece(s: string, sep: string): string
    requires |sep| > 0
    decreases |s|
  {
    var k := Find(s, sep);
    if k == -1 then s else LastPiece(s[k + |sep|..], sep)
  }

  /** `LastPiece` is the last element of `Split`. */
  lemma {:induction false} LastPieceOfSplit(s: string, sep: string)
    requires |sep| > 0
    ensures LastPiece(s, sep) == Last(Split(s, sep))
    decreases |s|
  {
    var k := Find(s, sep);
    if k == -1 {
      assert Split(s, sep) == [s];
    } else {
      LastPieceOfSplit(s[k + |sep|..], sep);
      LastPieceFound(s, sep);
    }
  }

  /** If the rest after the first separator keeps `LastPiece` as its last piece, so does `s`. */
  lemma LastPieceFound(s: string, sep: string)
    requires |sep| > 0 && Find(s, sep) != -1
    requires LastPiece(s[Find(s, sep) + |sep|..], sep) == Last(Split(s[Find(s, sep) + |sep|..], sep))
    ensures LastPiece(s, sep) == Last(Split(s, sep))
  {
    var k := Find(s, sep);
    var t := s[k + |sep|..];
    var rest := Split(t, sep);
    var r := Split(s, sep);
    SplitStep(s, sep);
    LastPieceStep(s, sep);
    LastOfCons(r, s[..k], rest);
  }

  /** Putting an element in front does not change the last one. */
  lemma LastOfCons(r: seq<string>, x: string, xs: seq<string>)
    requires |xs| >= 1 && r == [x] + xs
    ensures Last(r) == Last(xs)
  {
  }

  /** The last element of a non-empty sequence, Python's `xs[-1]`. */
  function Last<T>(xs: seq<T>): T
    requires |xs| >= 1
  {
    xs[|xs| - 1]
  }

  /** Past the first separator, the pieces are the one before it and those of the rest. */
  lemma SplitStep(s: string, sep: string)
    requires |sep| > 0 && Find(s, sep) != -1
    ensures Split(s, sep) == [s[..Find(s, sep)]] + Split(s[Find(s, sep) + |sep|..], sep)
  {
  }

  /** `(a + c + b).split(c)[-1] == b` when `b` holds no `c`. */
  lemma {:induction false} SplitLastPiece(a: string, b: string, c: char)
    requires Lacks(b, c)
    ensures LastPiece(a + [c] + b, [c]) == b
    decreases |a|
  {
    var s := a + [c] + b;
    CharFound(a, b, c);
    var k := Find(s, [c]);
    LastPieceStep(s, [c]);
    if k < |a| {
      assert s[k + 1..] == a[k + 1..] + [c] + b;
      SplitLastPiece(a[k + 1..], b, c);
    } else {
      assert s[k + 1..] == b;
      LacksFind(b, c);
    }
  }

  /** Text without `c` appended after the last `c` lengthens the last piece:
      `(a + b).split(c)[-1] == a.split(c)[-1] + b`. */
  lemma {:induction false} LastPieceAppend(a: string, b: string, c: char)
    requires Lacks(b, c)
    ensures LastPiece(a + b, [c]) == LastPiece(a, [c]) + b
    decreases |a|
  {
    var k := Find(a, [c]);
    if k == -1 {
      FindNoneLacks(a, c);
      LacksAppend(a, b, c);
      LacksFind(a + b, c);
    } else {
      FindExtend(a, b, [c]);
      LastPieceStep(a, [c]);
      LastPieceStep(a + b, [c]);
      assert (a + b)[k + 1..] == a[k + 1..] + b;
      LastPieceAppend(a[k + 1..], b, c);
    }
  }

  /** A string without `c` is its own last piece. */
  lemma LastPieceNone(s: string, c: char)
    requires Lacks(s, c)
    ensures LastPiece(s, [c]) == s
  {
    LacksFind(s, c);
  }

  /** Two strings without `c` make one without `c`. */
  lemma LacksAppend(x: string, y: string, c: char)
    requires Lacks(x, c) && Lacks(y, c)
    ensures Lacks(x + y, c)
  {
    forall i | 0 <= i < |x + y| ensures (x + y)[i] != c {
      if i >= |x| {
        assert (x + y)[i] == y[i - |x|];
      }
    }
  }

  /** A string with no occurrence of `[c]` lacks `c`. */
  lemma FindNoneLacks(a: string, c: char)
    requires Find(a, [c]) == -1
    ensures Lacks(a, c)
  {
    forall i | 0 <= i < |a| ensures a[i] != c {
      if a[i] == c {
        assert a[i..i + 1] == [c];
        assert OccursAt(a, [c], i);
      }
    }
  }

  /** The character between `a` and `b` is found, at the latest where it was put. */
  lemma CharFound(a: string, b: string, c: char)
    ensures 0 <= Find(a + [c] + b, [c]) <= |a|
  {
    var s := a + [c] + b;
    assert OccursAt(s, [c], |a|) by {
      assert s[|a|..|a| + 1] == [c];
    }
  }

  /** Past a separator, the last piece is that of the rest. */
  lemma LastPieceStep(s: string, sep: string)
    requires |sep| > 0 && Find(s, sep) != -1
    ensures LastPiece(s, sep) == LastPiece(s[Find(s, sep) + |sep|..], sep)
  {
  }

  /** The text a file opened in text mode yields: "\r\n" and a lone "\r"
      both read as "\n". */
  function Universal(text: string): string {
    Replace(Replace(text, "\r\n", "\n"), "\r", "\n")
  }

  /** Text without "\r" reads as it is. */
  lemma UniversalPlain(text: string)
    requires Lacks(text, '\r')
    ensures Universal(text) == text
  {
    ReplaceAbsent(text, "\r\n", "\n");
    ReplaceAbsent(text, "\r", "\n");
  }

  /** The text of a file written line by line, each line followed by "\n". */
  function Unlines(lines: seq<string>): (text: string)
    ensures lines == [] ==> text == []
  {
    if lines == [] then [] else Unlines(lines[..|lines| - 1]) + lines[|lines| - 1] + "\n"
  }

  /** The same text, as the lines joined by "\n" with one "\n" at the end. */
  lemma {:induction false} UnlinesIsJoin(lines: seq<string>)
    requires lines != []
    ensures Unlines(lines) == Join(lines, "\n") + "\n"
  {
    if |lines| > 1 {
      var init := lines[..|lines| - 1];
      UnlinesIsJoin(init);
      JoinSnoc(init, lines[|lines| - 1], "\n");
      assert init + [lines[|lines| - 1]] == lines;
    } else {
      assert lines[..0] == [];
      assert Join(lines, "\n") == lines[0];
    }
  }

  /** Writing one more line appends it and its newline. */
  lemma UnlinesSnoc(lines: seq<string>, x: string)
    ensures Unlines(lines + [x]) == Unlines(lines) + x + "\n"
  {
    assert (lines + [x])[..|lines|] == lines;
  }

  /** Read from the front: the first line and its newline, then the rest. */
  lemma {:induction false} UnlinesCons(x: string, lines: seq<string>)
    ensures Unlines([x] + lines) == x + "\n" + Unlines(lines)
    decreases |lines|
  {
    if lines == [] {
      UnlinesSnoc([], x);
      assert [x] + lines == [] + [x];
    } else {
      var init := lines[..|lines| - 1];
      var y := lines[|lines| - 1];
      UnlinesCons(x, init);
      assert lines == init + [y];
      UnlinesSnoc(init, y);
      assert [x] + lines == ([x] + init) + [y];
      UnlinesSnoc([x] + init, y);
      assert x + "\n" + Unlines(init) + y + "\n" == x + "\n" + (Unlines(init) + y + "\n");
    }
  }

  /** A character other than "\n" that no line holds is not in the text. */
  lemma {:induction false} UnlinesLacks(lines: seq<string>, c: char)
    requires c != '\n'
    requires forall i :: 0 <= i < |lines| ==> Lacks(lines[i], c)
    ensures Lacks(Unlines(lines), c)
  {
    if lines != [] {
      var init := lines[..|lines| - 1];
      assert forall i :: 0 <= i < |init| ==> Lacks(init[i], c) by {
        forall i | 0 <= i < |init| ensures Lacks(init[i], c) {
          assert init[i] == lines[i];
        }
      }
      UnlinesLacks(init, c);
      var x := lines[|lines| - 1];
      assert Lacks(x, c);
      var t := Unlines(init) + x + "\n";
      forall i | 0 <= i < |t| ensures t[i] != c {
        if i < |Unlines(init)| {
          assert t[i] == Unlines(init)[i];
        } else if i < |Unlines(init)| + |x| {
          assert t[i] == x[i - |Unlines(init)|];
        }
      }
    }
  }

  /** Python's `s.replace(pat, rep)`, by the identity `rep.join(s.split(pat))`. */
  function Replace(s: string, pat: string, rep: string): string
    requires |pat| > 0
  {
    Join(Split(s, pat), rep)
  }

  /** A pattern cannot occur where its first character does not. */
  lemma FindAbsent(s: string, pat: string)
    requires pat != [] && Lacks(s, pat[0])
    ensures Find(s, pat) == -1
  {
    forall j | 0 <= j && j + |pat| <= |s| ensures !OccursAt(s, pat, j) {
      assert s[j..j + |pat|][0] == s[j] != pat[0];
    }
  }

  /** Replacing a pattern that does not occur changes nothing. */
  lemma ReplaceAbsent(s: string, pat: string, rep: string)
    requires pat != [] && Lacks(s, pat[0])
    ensures Replace(s, pat, rep) == s
  {
    FindAbsent(s, pat);
    assert Split(s, pat) == [s];
  }

  /** Replacing a pattern whose only occurrence is at the very end. */
  lemma ReplaceSuffix(x: string, pat: string, rep: string)
    requires |pat| > 0
    requires Find(x + pat, pat) == |x|
    ensures Replace(x + pat, pat, rep) == x + rep
  {
    var s := x + pat;
    assert s[..|x|] == x;
    assert s[|x| + |pat|..] == [];
    assert Find([], pat) == -1;
    assert Split([], pat) == [[]];
    assert Split(s, pat) == [x, []];
    assert Join([x, []], rep) == x + rep + [];
    assert x + rep + [] == x + rep;
  }

  // ------------------------------------------------------------- strip

  /** Python's `s.lstrip()`: `s` without its leading whitespace. */
  function LStrip(s: string): (r: string)
    ensures |r| <= |s| && r == s[|s| - |r|..] && AllSpace(s[..|s| - |r|])
    ensures r == [] || !IsSpace(r[0])
  {
    if s != [] && IsSpace(s[0]) then
      var r := LStrip(s[1..]);
      LStripStep(s, r);
      r
    else s
  }

  /** Stripping after a leading space keeps the spaces before the rest. */
  lemma LStripStep(s: string, r: string)
    requires s != [] && IsSpace(s[0]) && |r| <= |s| - 1
    requires r == s[1..][|s| - 1 - |r|..] && AllSpace(s[1..][..|s| - 1 - |r|])
    ensures r == s[|s| - |r|..] && AllSpace(s[..|s| - |r|])
  {
    var k := |s| - |r|;
    assert s[1..][k - 1..] == s[k..];
    forall i | 0 < i < k ensures IsSpace(s[i]) {
      assert s[i] == s[1..][..k - 1][i - 1];
    }
  }

  /** Python's `s.rstrip()`: `s` without its trailing whitespace. */
  function RStrip(s: string): (r: string)
    ensures |r| <= |s| && r == s[..|r|] && AllSpace(s[|r|..])
    ensures r == [] || !IsSpace(r[|r| - 1])
  {
    if s != [] && IsSpace(s[|s| - 1]) then
      var r := RStrip(s[..|s| - 1]);
      RStripStep(s, r);
      r
    else s
  }

  /** Stripping before a trailing space keeps the spaces after the rest. */
  lemma RStripStep(s: string, r: string)
    requires s != [] && IsSpace(s[|s| - 1]) && |r| <= |s| - 1
    requires r == s[..|s| - 1][..|r|] && AllSpace(s[..|s| - 1][|r|..])
    ensures r == s[..|r|] && AllSpace(s[|r|..])
  {
    var k := |r|;
    assert s[..|s| - 1][..k] == s[..k];
    forall i | k <= i < |s| - 1 ensures IsSpace(s[i]) {
      assert s[i] == s[..|s| - 1][k..][i - k];
    }
  }

  /** Python's `s.strip()`: `s` without its leading and trailing whitespace. */
  function Strip(s: string): (r: string)
    ensures r == [] || (!IsSpace(r[0]) && !IsSpace(r[|r| - 1]))
  {
    RStrip(LStrip(s))
  }

  lemma {:induction false} LStripAfter(pre: string, y: string)
    requires AllSpace(pre) && (y == [] || !IsSpace(y[0]))
    ensures LStrip(pre + y) == y
  {
    if pre != [] {
      assert (pre + y)[1..] == pre[1..] + y;
      LStripAfter(pre[1..], y);
    }
  }

  lemma {:induction false} RStripBefore(x: string, post: string)
    requires AllSpace(post) && (x == [] || !IsSpace(x[|x| - 1]))
    ensures RStrip(x + post) == x
  {
    if post != [] {
      assert (x + post)[..|x + post| - 1] == x + post[..|post| - 1];
      RStripBefore(x, post[..|post| - 1]);
    }
  }

  /** Whitespace around a string whose ends are not whitespace is exactly what strip removes. */
  lemma StripAround(pre: string, x: string, post: string)
    requires AllSpace(pre) && AllSpace(post)
    requires x == [] || (!IsSpace(x[0]) && !IsSpace(x[|x| - 1]))
    ensures Strip(pre + x + post) == x
  {
    assert pre + x + post == pre + (x + post);
    if x == [] {
      assert AllSpace(pre + post);
      LStripAfter(pre + post, []);
      assert pre + post + [] == pre + post;
    } else {
      LStripAfter(pre, x + post);
    }
    RStripBefore(x, post);
  }

  /** Python's `s.rstrip(c)`: `s` without the copies of `c` at its end. */
  function RStripChar(s: string, c: char): (r: string)
    ensures |r| <= |s| && r == s[..|r|]
    ensures forall i :: |r| <= i < |s| ==> s[i] == c
    ensures r == [] || r[|r| - 1] != c
  {
    if s != [] && s[|s| - 1] == c then RStripChar(s[..|s| - 1], c) else s
  }

  // ------------------------------------------------- split() on whitespace

  /** The length of the run of non-whitespace characters at the start of `s`. */
  function TokenLength(s: string): (k: nat)
    ensures k <= |s| && NoSpace(s[..k]) && (k == |s| || IsSpace(s[k]))
  {
    if s != [] && !IsSpace(s[0]) then 1 + TokenLength(s[1..]) else 0
  }

  /** Python's `s.split()` with no argument: the maximal runs of non-whitespace, in order. */
  function SplitWs(s: string): (r: seq<string>)
    decreases |s|
    ensures forall i :: 0 <= i < |r| ==> r[i] != [] && NoSpace(r[i])
  {
    if s == [] then []
    else if IsSpace(s[0]) then SplitWs(s[1..])
    else
      var k := TokenLength(s);
      [s[..k]] + SplitWs(s[k..])
  }

  /** Leading whitespace does not change `split()`. */
  lemma {:induction false} SplitWsSkipsSpaces(g: string, rest: string)
    requires AllSpace(g)
    ensures SplitWs(g + rest) == SplitWs(rest)
  {
    if g != [] {
      assert (g + rest)[0] == g[0];
      assert (g + rest)[1..] == g[1..] + rest;
      SplitWsSkipsSpaces(g[1..], rest);
    } else {
      assert g + rest == rest;
    }
  }

  /** A token followed by whitespace (or nothing) is the first field of `split()`. */
  lemma SplitWsToken(a: string, rest: string)
    requires a != [] && NoSpace(a)
    requires rest == [] || IsSpace(rest[0])
    ensures SplitWs(a + rest) == [a] + SplitWs(rest)
  {
    var s := a + rest;
    assert s[..|a|] == a && s[|a|..] == rest;
    var k := TokenLength(s);
    assert s[0] == a[0];
    assert k == |a|;
  }

  /** `split()` of two tokens separated by whitespace. */
  lemma SplitWsPair(a: string, gap: string, b: string)
    requires a != [] && NoSpace(a) && b != [] && NoSpace(b)
    requires gap != [] && AllSpace(gap)
    ensures SplitWs(a + gap + b) == [a, b]
  {
    assert a + gap + b == a + (gap + b);
    SplitWsToken(a, gap + b);
    SplitWsSkipsSpaces(gap, b);
    SplitWsToken(b, []);
    assert b + [] == b;
    assert SplitWs([]) == [];
  }

  // ------------------------------------------------------- str() and int()

  predicate IsDigit(c: char) {
    '0' <= c <= '9'
  }

  /** One or more ASCII digits. */
  predicate IsDecimal(s: string) {
    s != [] && forall i :: 0 <= i < |s| ==> IsDigit(s[i])
  }

  function DigitChar(d: nat): (c: char)
    requires d < 10
    ensures IsDigit(c) && c as int - '0' as int == d
  {
    ('0' as int + d) as char
  }

  function DigitValue(c: char): (d: nat)
    requires IsDigit(c)
    ensures d < 10 && DigitChar(d) == c
  {
    c as int - '0' as int
  }

  /** The value of a string of decimal digits. */
  function DigitsValue(s: string): nat
    requires forall i :: 0 <= i < |s| ==> IsDigit(s[i])
  {
    if s == [] then 0
    else DigitsValue(s[..|s| - 1]) * 10 + DigitValue(s[|s| - 1])
  }

  /** `str(n)` for a non-negative integer. */
  function NatToString(n: nat): (r: string)
    ensures IsDecimal(r)
  {
    if n < 10 then [DigitChar(n)] else NatToString(n / 10) + [DigitChar(n % 10)]
  }

  /** `str(n)` for any integer. */
  function IntToString(n: int): (r: string)
    ensures r != [] && NoSpace(r)
    ensures forall i :: 0 <= i < |r| ==> IsDigit(r[i]) || (i == 0 && r[i] == '-')
  {
    if n < 0 then "-" + NatToString(-n) else NatToString(n)
  }

  /** Python's `int(s)` on a string: surrounding whitespace, an optional sign,
      then one or more ASCII digits; anything else raises ValueError (None). */
  function ParseInt(s: string): Option<int> {
    ParseSigned(Strip(s))
  }

  /** An optional sign, then one or more ASCII digits, and nothing else. */
  function ParseSigned(t: string): Option<int> {
    if t != [] && (t[0] == '-' || t[0] == '+') then
      if IsDecimal(t[1..]) then
        var v: int := DigitsValue(t[1..]);
        Some(if t[0] == '-' then -v else v)
      else None
    else if IsDecimal(t) then Some(DigitsValue(t))
    else None
  }

  lemma {:induction false} DigitsOfNat(n: nat)
    ensures DigitsValue(NatToString(n)) == n
  {
    if n >= 10 {
      DigitsOfNat(n / 10);
      var s := NatToString(n);
      assert s[..|s| - 1] == NatToString(n / 10);
    }
  }

  /** `str(n)` has no surrounding whitespace for strip to remove. */
  lemma StripIntString(n: int)
    ensures Strip(IntToString(n)) == IntToString(n)
  {
    var s := IntToString(n);
    StripAround([], s, []);
    assert [] + s + [] == s;
  }

  /** `int(str(n)) == n` */
  lemma ParseIntOfString(n: int)
    ensures ParseInt(IntToString(n)) == Some(n)
  {
    StripIntString(n);
    if n < 0 {
      DigitsOfNat(-n);
      ParseIntNegative(NatToString(-n), -n);
    } else {
      DigitsOfNat(n);
      ParseIntDigits(NatToString(n), n);
    }
  }

  /** A minus sign and digits with nothing to strip parse as the negated value. */
  lemma ParseIntNegative(d: string, v: int)
    requires IsDecimal(d) && DigitsValue(d) == v
    ensures ParseSigned("-" + d) == Some(-v)
  {
    assert ("-" + d)[1..] == d;
  }

  /** Digits with nothing to strip parse as their value. */
  lemma ParseIntDigits(d: string, v: nat)
    requires IsDecimal(d) && DigitsValue(d) == v
    ensures ParseSigned(d) == Some(v)
  {
    assert IsDigit(d[0]);
  }
}
