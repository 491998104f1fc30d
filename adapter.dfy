/**
 * The adapter search of tnseq_prepmap.py (`find_adapter`, without its
 * counters): an exact search, and for one allowed mismatch a scan of every
 * single-substitution variant of the adapter over A, G, C, T in sorted order.
 */
module AdapterSearch {
  import opened Wrappers
  import opened Text
  import opened Ordering

  /** The letters `find_adapter` substitutes, in its own order. */
  const Nucleotides: string := "AGCT"

  /** `adapter[:position] + nt + adapter[position+1:]` */
  function Variant(adapter: string, position: nat, nt: char): (v: string)
    requires position < |adapter|
    ensures |v| == |adapter| && v[position] == nt
    ensures forall k :: 0 <= k < |adapter| && k != position ==> v[k] == adapter[k]
  {
    adapter[..position] + [nt] + adapter[position + 1..]
  }

  /** Every single-position substitution of `adapter` by a letter of `Nucleotides`. */
  ghost function Variants(adapter: string): set<string> {
    set p: nat, k: nat | p < |adapter| && k < |Nucleotides| :: Variant(adapter, p, Nucleotides[k])
  }

  /** The number of positions where two equally long strings differ. */
  function Hamming(x: string, y: string): (d: nat)
    requires |x| == |y|
    ensures d <= |x|
    ensures d == 0 <==> x == y
  {
    if x == [] then 0
    else
      assert x == y <==> x[0] == y[0] && x[1..] == y[1..] by {
        assert x == [x[0]] + x[1..] && y == [y[0]] + y[1..];
      }
      (if x[0] == y[0] then 0 else 1) + Hamming(x[1..], y[1..])
  }

  /** Strings equal except at `p` are at distance 1 when they differ there. */
  lemma {:induction false} HammingOneOff(x: string, y: string, p: nat)
    requires |x| == |y| && p < |x|
    requires forall k :: 0 <= k < |x| && k != p ==> x[k] == y[k]
    ensures Hamming(x, y) == (if x[p] == y[p] then 0 else 1)
  {
    if p == 0 {
      assert x[1..] == y[1..];
    } else {
      HammingOneOff(x[1..], y[1..], p - 1);
    }
  }

  /** A string at distance 1 is the substitution of its one differing letter. */
  lemma {:induction false} HammingOneIsSubstitution(w: string, a: string) returns (p: nat)
    requires |w| == |a| && Hamming(w, a) == 1
    ensures p < |a| && w[p] != a[p] && w == Variant(a, p, w[p])
  {
    if w[0] != a[0] {
      p := 0;
      assert w[1..] == a[1..];
      assert w == [w[0]] + w[1..];
    } else {
      var q := HammingOneIsSubstitution(w[1..], a[1..]);
      p := q + 1;
      assert w == [w[0]] + w[1..];
    }
  }

  /** What the variant set is: every string of the adapter's length that
      differs from it in at most one position, where the new letter is one
      of A, G, C, T; the adapter itself only when a substitution can leave it
      unchanged (some position already holds one of those letters). */
  lemma VariantsMeaning(adapter: string, w: string)
    ensures w in Variants(adapter) <==>
      && |w| == |adapter|
      && Hamming(w, adapter) <= 1
      && (forall k :: 0 <= k < |w| && w[k] != adapter[k] ==> w[k] in Nucleotides)
      && (w == adapter ==> exists k :: 0 <= k < |adapter| && adapter[k] in Nucleotides)
  {
    if w in Variants(adapter) {
      var p: nat, k: nat :| p < |adapter| && k < |Nucleotides| && w == Variant(adapter, p, Nucleotides[k]);
      HammingOneOff(w, adapter, p);
      if w == adapter {
        assert adapter[p] == Nucleotides[k];
      }
    }
    if && |w| == |adapter|
       && Hamming(w, adapter) <= 1
       && (forall k :: 0 <= k < |w| && w[k] != adapter[k] ==> w[k] in Nucleotides)
       && (w == adapter ==> exists k :: 0 <= k < |adapter| && adapter[k] in Nucleotides)
    {
      var p: nat;
      if w == adapter {
        var k :| 0 <= k < |adapter| && adapter[k] in Nucleotides;
        p := k;
        assert w == Variant(adapter, p, w[p]);
      } else {
        p := HammingOneIsSubstitution(w, adapter);
      }
      var j :| 0 <= j < |Nucleotides| && Nucleotides[j] == w[p];
      assert w == Variant(adapter, p, Nucleotides[j]);
    }
  }

  /** The variants that occur somewhere in `sequence`. */
  ghost function Occurring(sequence: string, adapter: string): set<string> {
    set v | v in Variants(adapter) && Find(sequence, v) != -1
  }

  /** The lexicographically smallest string of a non-empty set. */
  ghost function Least(vs: set<string>): (m: string)
    requires vs != {}
    ensures m in vs && forall v :: v in vs ==> LexLessEq(m, v)
  {
    var sorted := SortedStrings(vs);
    assert sorted != [];
    assert forall v :: v in vs ==> LexLessEq(sorted[0], v) by {
      forall v | v in vs ensures LexLessEq(sorted[0], v) {
        assert v in Elems(sorted);
        var i :| 0 <= i < |sorted| && sorted[i] == v;
      }
    }
    assert sorted[0] in Elems(sorted);
    sorted[0]
  }

  /** Only one element of a set is below all the others. */
  lemma LeastUnique(vs: set<string>, m: string)
    requires m in vs && forall v :: v in vs ==> LexLessEq(m, v)
    ensures m == Least(vs)
  {
    var l := Least(vs);
    if m != l {
      LexAsymmetric(m, l);
    }
  }

  /** The outcome of one adapter search: which kind of hit, and where. */
  datatype Hit = Perfect(pos: nat) | Mismatched(pos: nat) | Miss

  /** The value `find_adapter` returns for a hit: its position, or -1. */
  function Position(h: Hit): int {
    match h
    case Perfect(p) => p
    case Mismatched(p) => p
    case Miss => -1
  }

  /** What `find_adapter` finds: None for a mismatch count other than 0 or 1
      (the run exits); otherwise the first exact occurrence, else (for one
      mismatch) the first occurrence of the least occurring variant, else a miss. */
  ghost function Locate(sequence: string, adapter: string, mismatches: int): Option<Hit> {
    if mismatches != 0 && mismatches != 1 then None
    else if Find(sequence, adapter) != -1 then Some(Perfect(Find(sequence, adapter)))
    else if mismatches == 0 || Occurring(sequence, adapter) == {} then Some(Miss)
    else Some(Mismatched(Find(sequence, Least(Occurring(sequence, adapter)))))
  }

  // ------------------------------------------------------- the search

  /** The nested loops of `find_adapter` that fill `all_variants`. */
  method BuildVariants(adapter: string) returns (vs: set<string>)
    ensures vs == Variants(adapter)
  {
    vs := {};
    var position := 0;
    while position < |adapter|
      invariant 0 <= position <= |adapter|
      invariant vs == set p: nat, k: nat | p < position && k < |Nucleotides| :: Variant(adapter, p, Nucleotides[k])
    {
      ghost var before := vs;
      var j := 0;
      while j < |Nucleotides|
        invariant 0 <= j <= |Nucleotides|
        invariant vs == before + set k: nat | k < j :: Variant(adapter, position, Nucleotides[k])
      {
        vs := vs + {Variant(adapter, position, Nucleotides[j])};
        j := j + 1;
      }
      position := position + 1;
    }
  }

  /** The one-mismatch part of `find_adapter`: scan the sorted variants and
      return the first index of the first one that occurs, or -1. The result
      is the position of the lexicographically least occurring variant, which
      need not be the leftmost near match (see `TieBreakIsNotLeftmost`). */
  method FindVariant(sequence: string, adapter: string) returns (pos: int)
    ensures Occurring(sequence, adapter) == {} ==> pos == -1
    ensures Occurring(sequence, adapter) != {} ==> pos == Find(sequence, Least(Occurring(sequence, adapter)))
  {
    var vs := BuildVariants(adapter);
    var sorted := SortStrings(vs);
    var i := 0;
    while i < |sorted|
      invariant 0 <= i <= |sorted|
      invariant forall j :: 0 <= j < i ==> Find(sequence, sorted[j]) == -1
    {
      pos := Find(sequence, sorted[i]);
      if pos != -1 {
        FirstOccurring(sequence, adapter, sorted, i);
        return;
      }
      MissStep(sequence, sorted, i);
      i := i + 1;
    }
    NoneOccurring(sequence, adapter, sorted);
    pos := -1;
  }

  /** The first of the sorted variants that occurs is the least occurring one. */
  lemma FirstOccurring(sequence: string, adapter: string, sorted: seq<string>, i: nat)
    requires IncreasingStrings(sorted) && Elems(sorted) == Variants(adapter)
    requires i < |sorted| && Find(sequence, sorted[i]) != -1
    requires forall j :: 0 <= j < i ==> Find(sequence, sorted[j]) == -1
    ensures Occurring(sequence, adapter) != {} && sorted[i] == Least(Occurring(sequence, adapter))
  {
    var occ := Occurring(sequence, adapter);
    assert sorted[i] in Elems(sorted);
    forall v | v in occ ensures LexLessEq(sorted[i], v) {
      assert v in Elems(sorted);
      var j :| 0 <= j < |sorted| && sorted[j] == v;
      assert i <= j;
    }
    LeastUnique(occ, sorted[i]);
  }

  /** One more variant that does not occur. */
  lemma MissStep(sequence: string, sorted: seq<string>, i: nat)
    requires i < |sorted| && Find(sequence, sorted[i]) == -1
    requires forall j :: 0 <= j < i ==> Find(sequence, sorted[j]) == -1
    ensures forall j :: 0 <= j < i + 1 ==> Find(sequence, sorted[j]) == -1
  {
  }

  /** When none of the sorted variants occurs, no variant occurs. */
  lemma NoneOccurring(sequence: string, adapter: string, sorted: seq<string>)
    requires Elems(sorted) == Variants(adapter)
    requires forall j :: 0 <= j < |sorted| ==> Find(sequence, sorted[j]) == -1
    ensures Occurring(sequence, adapter) == {}
  {
    forall v | v in Variants(adapter) ensures Find(sequence, v) == -1 {
      var j :| 0 <= j < |sorted| && sorted[j] == v;
    }
  }

  // ------------------------------------------------ what a hit means

  /** The window of `sequence` at `i` with the adapter's length. */
  function Window(sequence: string, i: nat, n: nat): string
    requires i + n <= |sequence|
  {
    sequence[i..i + n]
  }

  /** `w` is the adapter with at most one letter replaced by one of A, G, C, T. */
  predicate NearMatch(w: string, adapter: string) {
    && |w| == |adapter|
    && Hamming(w, adapter) <= 1
    && forall k :: 0 <= k < |w| && w[k] != adapter[k] ==> w[k] in Nucleotides
  }

  /** The first index where `pat` occurs, given the occurrence and that none is earlier. */
  lemma FindIs(s: string, pat: string, p: nat)
    requires OccursAt(s, pat, p) && forall j :: 0 <= j < p ==> !OccursAt(s, pat, j)
    ensures Find(s, pat) == p
  {
  }

  /** A near window other than the adapter itself is a variant. */
  lemma NearIsVariant(w: string, adapter: string)
    requires NearMatch(w, adapter) && w != adapter
    ensures w in Variants(adapter)
  {
    VariantsMeaning(adapter, w);
  }

  /** Any position found lies inside the sequence, and the window there is the
      adapter (exact hit) or differs from it in exactly one position (mismatched hit). */
  lemma HitIsNear(sequence: string, adapter: string, mismatches: int)
    requires Locate(sequence, adapter, mismatches).Some?
    requires Locate(sequence, adapter, mismatches).value != Miss
    ensures var h := Locate(sequence, adapter, mismatches).value;
      && h.pos + |adapter| <= |sequence|
      && var w := Window(sequence, h.pos, |adapter|);
      && Hamming(w, adapter) <= mismatches
      && (h.Perfect? ==> w == adapter)
      && (h.Mismatched? ==> mismatches == 1 && Hamming(w, adapter) == 1 && NearMatch(w, adapter))
  {
    if Find(sequence, adapter) != -1 {
      ExactIsWindow(sequence, adapter);
    } else {
      var v := Least(Occurring(sequence, adapter));
      assert Locate(sequence, adapter, mismatches) == Some(Mismatched(Find(sequence, v)));
      OccurringVariantIsNear(sequence, adapter, v);
    }
  }

  /** The first exact occurrence is a window equal to the adapter. */
  lemma ExactIsWindow(sequence: string, adapter: string)
    requires Find(sequence, adapter) != -1
    ensures var p := Find(sequence, adapter);
      && p + |adapter| <= |sequence| && Window(sequence, p, |adapter|) == adapter
  {
  }

  /** The first occurrence of an occurring variant, when the adapter itself
      does not occur, is a window at distance exactly one. */
  lemma OccurringVariantIsNear(sequence: string, adapter: string, v: string)
    requires v in Occurring(sequence, adapter) && Find(sequence, adapter) == -1
    ensures var p := Find(sequence, v);
      && p + |adapter| <= |sequence|
      && var w := Window(sequence, p, |adapter|);
      && w == v && Hamming(w, adapter) == 1 && NearMatch(w, adapter)
  {
    var p := Find(sequence, v);
    assert OccursAt(sequence, v, p);
    VariantsMeaning(adapter, v);
    assert Window(sequence, p, |adapter|) == v;
    assert !OccursAt(sequence, adapter, p);
  }

  /** A miss with one mismatch allowed: no window of the sequence is a near match. */
  lemma MissMeansNoNearWindow(sequence: string, adapter: string, i: nat)
    requires Locate(sequence, adapter, 1) == Some(Miss)
    requires i + |adapter| <= |sequence|
    ensures !NearMatch(Window(sequence, i, |adapter|), adapter)
  {
    var w := Window(sequence, i, |adapter|);
    assert OccursAt(sequence, w, i);
    assert !OccursAt(sequence, adapter, i);
    assert w !in Variants(adapter) by {
      assert w !in Occurring(sequence, adapter);
    }
    VariantsMeaning(adapter, w);
  }

  /** A miss with no mismatch allowed: no window equals the adapter. */
  lemma ExactMissMeansAbsent(sequence: string, adapter: string, i: nat)
    requires Locate(sequence, adapter, 0) == Some(Miss)
    requires i + |adapter| <= |sequence|
    ensures Window(sequence, i, |adapter|) != adapter
  {
    assert !OccursAt(sequence, adapter, i);
  }

  /** A mismatched hit, described by windows alone: the window there is a near
      match, it is the lexicographically least near-match window of the whole
      sequence, and the position is that window's first occurrence. */
  lemma MismatchedIsLeastWindow(sequence: string, adapter: string, p: nat, i: nat)
    requires Locate(sequence, adapter, 1) == Some(Mismatched(p))
    requires i + |adapter| <= |sequence|
    requires NearMatch(Window(sequence, i, |adapter|), adapter)
    ensures p + |adapter| <= |sequence|
    ensures LexLessEq(Window(sequence, p, |adapter|), Window(sequence, i, |adapter|))
    ensures Find(sequence, Window(sequence, p, |adapter|)) == p
  {
    assert Find(sequence, adapter) == -1;
    var v := Least(Occurring(sequence, adapter));
    assert p == Find(sequence, v);
    OccurringVariantIsNear(sequence, adapter, v);
    NearWindowOccurs(sequence, adapter, i);
  }

  /** When the adapter does not occur, every near-match window is an occurring variant. */
  lemma NearWindowOccurs(sequence: string, adapter: string, i: nat)
    requires Find(sequence, adapter) == -1
    requires i + |adapter| <= |sequence|
    requires NearMatch(Window(sequence, i, |adapter|), adapter)
    ensures Window(sequence, i, |adapter|) in Occurring(sequence, adapter)
  {
    var w := Window(sequence, i, |adapter|);
    assert OccursAt(sequence, w, i);
    assert w != adapter by {
      assert !OccursAt(sequence, adapter, i);
    }
    NearIsVariant(w, adapter);
  }

  /** The tie-break: for adapter "AC" and read "CCAA" the near match
      "CC" at index 0 is the leftmost, yet the search returns 2, where the
      lexicographically smaller variant "AA" occurs. */
  lemma TieBreakIsNotLeftmost()
    ensures NearMatch(Window("CCAA", 0, 2), "AC")
    ensures Locate("CCAA", "AC", 1) == Some(Mismatched(2))
  {
    var s, a := "CCAA", "AC";
    assert Window(s, 0, 2) == "CC";
    HammingOneOff("CC", a, 0);
    AbsentFromExample();
    FirstAAInExample();
    assert "AA" == Variant(a, 1, Nucleotides[0]);
    assert "AA" in Occurring(s, a);
    var m := Least(Occurring(s, a));
    LeastVariantOfExample(m);
  }

  lemma AbsentFromExample()
    ensures Find("CCAA", "AC") == -1
  {
    var s, a := "CCAA", "AC";
    forall j ensures !OccursAt(s, a, j) {
      if 0 <= j && j + 2 <= 4 {
        assert s[j..j + 2] == [s[j], s[j + 1]];
      }
    }
  }

  lemma FirstAAInExample()
    ensures Find("CCAA", "AA") == 2
  {
    var s := "CCAA";
    assert s[2..4] == "AA";
    assert s[0..2] == "CC" && s[1..3] == "CA";
    FindIs(s, "AA", 2);
  }

  lemma LeastVariantOfExample(m: string)
    requires m in Variants("AC") && LexLessEq(m, "AA")
    ensures m == "AA"
  {
    VariantsMeaning("AC", m);
    assert |m| == 2 && m[0] <= 'A';
    assert m[0] == 'A';
    assert m[1..] == [m[1]];
    assert m[1] <= 'A';
    assert m[1] == 'A';
    assert m == [m[0], m[1]];
  }

  /** An exact occurrence: "XXACTTYYYY" holds "ACTT" at index 2, in both modes. */
  lemma ExactHitExample()
    ensures Locate("XXACTTYYYY", "ACTT", 0) == Some(Perfect(2))
    ensures Locate("XXACTTYYYY", "ACTT", 1) == Some(Perfect(2))
  {
    var s := "XXACTTYYYY";
    assert s[2..6] == "ACTT";
    assert s[0] == 'X' && s[1] == 'X';
    FindIs(s, "ACTT", 2);
  }
}
