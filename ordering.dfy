/**
 * Python's ordering of `str` and `int` values, and `sorted(...)` of a set:
 * the one strictly increasing sequence that holds exactly the set's elements.
 */
module Ordering {

  /** The elements of a sequence, as a set. */
  function Elems<T>(r: seq<T>): set<T> {
    set x | x in r
  }

  // ------------------------------------------------------------ strings

  /** Python's `a < b` on `str`: lexicographic by code point, a proper prefix first. */
  predicate LexLess(a: string, b: string) {
    if a == [] then b != []
    else if b == [] then false
    else a[0] < b[0] || (a[0] == b[0] && LexLess(a[1..], b[1..]))
  }

  lemma {:induction false} LexIrreflexive(a: string)
    ensures !LexLess(a, a)
  {
    if a != [] {
      LexIrreflexive(a[1..]);
    }
  }

  lemma {:induction false} LexTransitive(a: string, b: string, c: string)
    requires LexLess(a, b) && LexLess(b, c)
    ensures LexLess(a, c)
  {
    if a != [] && a[0] == b[0] && b[0] == c[0] {
      LexTransitive(a[1..], b[1..], c[1..]);
    }
  }

  lemma {:induction false} LexTotal(a: string, b: string)
    ensures a == b || LexLess(a, b) || LexLess(b, a)
  {
    if a != [] && b != [] && a[0] == b[0] {
      LexTotal(a[1..], b[1..]);
      if a[1..] == b[1..] {
        assert a == [a[0]] + a[1..] && b == [b[0]] + b[1..];
      }
    }
  }

  lemma LexAsymmetric(a: string, b: string)
    ensures !(LexLess(a, b) && LexLess(b, a))
  {
    if LexLess(a, b) && LexLess(b, a) {
      LexTransitive(a, b, a);
      LexIrreflexive(a);
    }
  }

  /** `a <= b` on `str`. */
  predicate LexLessEq(a: string, b: string) {
    a == b || LexLess(a, b)
  }

  /** Strictly increasing in Python's `str` order (hence also free of duplicates). */
  predicate IncreasingStrings(r: seq<string>) {
    forall i, j :: 0 <= i < j < |r| ==> LexLess(r[i], r[j])
  }

  /** `x` put in its place in an increasing sequence (kept once if already there). */
  function InsertString(r: seq<string>, x: string): (q: seq<string>)
    requires IncreasingStrings(r)
    ensures IncreasingStrings(q) && Elems(q) == Elems(r) + {x}
  {
    if r == [] then [x]
    else if LexLess(x, r[0]) then
      forall j | 0 <= j < |r| ensures LexLess(x, r[j]) {
        if j > 0 { LexTransitive(x, r[0], r[j]); }
      }
      ConsStrings(x, r);
      ElemsCons([x] + r);
      assert ([x] + r)[1..] == r;
      [x] + r
    else if x == r[0] then r
    else
      var q' := InsertString(r[1..], x);
      LexTotal(x, r[0]);
      StringsAbove(r, x, q');
      ConsStrings(r[0], q');
      ElemsCons(r);
      ElemsCons([r[0]] + q');
      assert ([r[0]] + q')[1..] == q';
      [r[0]] + q'
  }

  /** A string below every element of an increasing sequence can go in front. */
  lemma ConsStrings(h: string, q: seq<string>)
    requires IncreasingStrings(q) && forall j :: 0 <= j < |q| ==> LexLess(h, q[j])
    ensures IncreasingStrings([h] + q)
  {
    var p := [h] + q;
    forall i, j | 0 <= i < j < |p| ensures LexLess(p[i], p[j]) {
      assert p[j] == q[j - 1];
      if i > 0 { assert p[i] == q[i - 1]; }
    }
  }

  /** The head of an increasing sequence is below every later element and below `x`. */
  lemma StringsAbove(r: seq<string>, x: string, q: seq<string>)
    requires IncreasingStrings(r) && r != [] && LexLess(r[0], x)
    requires Elems(q) == Elems(r[1..]) + {x}
    ensures forall j :: 0 <= j < |q| ==> LexLess(r[0], q[j])
  {
    forall j | 0 <= j < |q| ensures LexLess(r[0], q[j]) {
      assert q[j] in Elems(q);
      if q[j] != x {
        var k :| 0 <= k < |r[1..]| && r[1..][k] == q[j];
        assert r[k + 1] == q[j];
      }
    }
  }

  /** Two increasing sequences with the same elements are the same sequence. */
  lemma {:induction false} IncreasingStringsUnique(a: seq<string>, b: seq<string>)
    requires IncreasingStrings(a) && IncreasingStrings(b) && Elems(a) == Elems(b)
    ensures a == b
  {
    if a != [] { HeadInElems(a); }
    if b != [] { HeadInElems(b); }
    if a != [] && b != [] {
      assert a[0] in Elems(b) && b[0] in Elems(a);
      var i :| 0 <= i < |a| && a[i] == b[0];
      var j :| 0 <= j < |b| && b[j] == a[0];
      if i != 0 && j != 0 {
        LexAsymmetric(a[0], b[0]);
      } else if i != 0 {
        LexIrreflexive(a[0]);
      } else if j != 0 {
        LexIrreflexive(b[0]);
      }
      assert a[0] == b[0];
      assert Elems(a[1..]) == Elems(b[1..]) by {
        forall y ensures y in Elems(a[1..]) <==> y in Elems(b[1..]) {
          if y in Elems(a[1..]) {
            var k :| 0 <= k < |a[1..]| && a[1..][k] == y;
            assert LexLess(a[0], y);
            LexIrreflexive(y);
            assert y in Elems(b);
          }
          if y in Elems(b[1..]) {
            var k :| 0 <= k < |b[1..]| && b[1..][k] == y;
            assert LexLess(b[0], y);
            LexIrreflexive(y);
            assert y in Elems(a);
          }
        }
      }
      IncreasingStringsUnique(a[1..], b[1..]);
      assert a == [a[0]] + a[1..] && b == [b[0]] + b[1..];
    }
  }

  /** `sorted(s)` for a set of strings. */
  ghost function SortedStrings(s: set<string>): (r: seq<string>)
    ensures IncreasingStrings(r) && Elems(r) == s
  {
    if s == {} then []
    else
      var x :| x in s;
      InsertString(SortedStrings(s - {x}), x)
  }

  /** The first element and the rest of `a + [x] + b`. */
  lemma SplitHead<T>(a: seq<T>, x: T, b: seq<T>)
    ensures a == [] ==> (a + [x] + b)[0] == x && (a + [x] + b)[1..] == b
    ensures a != [] ==> (a + [x] + b)[0] == a[0] && (a + [x] + b)[1..] == a[1..] + [x] + b
  {
    if a == [] {
      assert a + [x] + b == [x] + b;
    }
  }

  /** Element `j` of a list is element `j - 1` of its tail. */
  lemma TailIndex<T>(s: seq<T>, j: nat)
    requires 0 < j < |s|
    ensures s[1..][j - 1] == s[j]
  {
  }

  /** The elements of a list: its head and those of its tail. */
  lemma ElemsCons<T>(s: seq<T>)
    requires s != []
    ensures Elems(s) == {s[0]} + Elems(s[1..])
  {
    assert s == [s[0]] + s[1..];
  }

  /** The prefix of length `i + 1`: the prefix of length `i`, then element `i`. */
  lemma SliceSnoc<T>(s: seq<T>, i: nat)
    requires i < |s|
    ensures s[..i + 1] == s[..i] + [s[i]]
  {
  }

  /** The suffix from `i`: element `i`, then the suffix from `i + 1`. */
  lemma SliceCons<T>(s: seq<T>, i: nat)
    requires i < |s|
    ensures s[i..][0] == s[i] && s[i..][1..] == s[i + 1..]
  {
  }

  /** Four pieces joined left to right are the first before the other three. */
  lemma AppendFour<T>(a: seq<T>, b: seq<T>, c: seq<T>, d: seq<T>)
    ensures a + b + c + d == a + (b + c + d)
  {
  }

  /** Past the head, the elements are the tail's. */
  lemma BehindHead<T>(whole: seq<T>, head: T, tail: seq<T>, k: nat)
    requires whole == [head] + tail && k < |tail|
    ensures whole[k + 1] == tail[k]
  {
  }

  /** A sequence whose first element is `head` and whose others are those of `tail`. */
  lemma ConsByIndex<T>(whole: seq<T>, head: T, tail: seq<T>)
    requires |whole| == 1 + |tail| && whole[0] == head
    requires forall i :: 0 <= i < |tail| ==> whole[i + 1] == tail[i]
    ensures whole == [head] + tail
  {
  }

  /** Appending the head, then the tail, appends the whole list. */
  lemma AppendHeadTail<T>(r: seq<T>, s: seq<T>)
    requires s != []
    ensures r + [s[0]] + s[1..] == r + s
  {
    assert s == [s[0]] + s[1..];
  }

  /** `l = list(s); l.sort()` for a set of strings. */
  method SortStrings(s: set<string>) returns (r: seq<string>)
    ensures r == SortedStrings(s)
  {
    r := [];
    var rest := s;
    while rest != {}
      invariant rest <= s
      invariant IncreasingStrings(r) && Elems(r) == s - rest
      decreases rest
    {
      var x :| x in rest;
      r := InsertString(r, x);
      rest := rest - {x};
    }
    IncreasingStringsUnique(r, SortedStrings(s));
  }

  // --------------------------------------------------------------- ints

  predicate Increasing(r: seq<int>) {
    forall i, j :: 0 <= i < j < |r| ==> r[i] < r[j]
  }

  function InsertInt(r: seq<int>, x: int): (q: seq<int>)
    requires Increasing(r)
    ensures Increasing(q) && Elems(q) == Elems(r) + {x}
  {
    if r == [] then [x]
    else if x < r[0] then
      ElemsCons([x] + r);
      assert ([x] + r)[1..] == r;
      [x] + r
    else if x == r[0] then r
    else
      var q' := InsertInt(r[1..], x);
      InsertIntCons(r, x, q');
      [r[0]] + q'
  }

  lemma InsertIntCons(r: seq<int>, x: int, q': seq<int>)
    requires Increasing(r) && r != [] && r[0] < x
    requires Increasing(q') && Elems(q') == Elems(r[1..]) + {x}
    ensures Increasing([r[0]] + q') && Elems([r[0]] + q') == Elems(r) + {x}
  {
    IntsAbove(r, x, q');
    ConsInts(r[0], q');
    ElemsCons(r);
    ElemsCons([r[0]] + q');
    assert ([r[0]] + q')[1..] == q';
  }

  /** An integer below every element of an increasing sequence can go in front. */
  lemma ConsInts(h: int, q: seq<int>)
    requires Increasing(q) && forall j :: 0 <= j < |q| ==> h < q[j]
    ensures Increasing([h] + q)
  {
    var p := [h] + q;
    forall i, j | 0 <= i < j < |p| ensures p[i] < p[j] {
      assert p[j] == q[j - 1];
      if i > 0 { assert p[i] == q[i - 1]; }
    }
  }

  /** The head of an increasing sequence is below every later element and below `x`. */
  lemma IntsAbove(r: seq<int>, x: int, q: seq<int>)
    requires Increasing(r) && r != [] && r[0] < x
    requires Elems(q) == Elems(r[1..]) + {x}
    ensures forall j :: 0 <= j < |q| ==> r[0] < q[j]
  {
    forall j | 0 <= j < |q| ensures r[0] < q[j] {
      assert q[j] in Elems(q);
      if q[j] != x {
        var k :| 0 <= k < |r[1..]| && r[1..][k] == q[j];
        assert r[k + 1] == q[j];
      }
    }
  }

  lemma {:induction false} IncreasingUnique(a: seq<int>, b: seq<int>)
    requires Increasing(a) && Increasing(b) && Elems(a) == Elems(b)
    ensures a == b
  {
    if a != [] { HeadInElems(a); }
    if b != [] { HeadInElems(b); }
    if a != [] && b != [] {
      assert a[0] in Elems(b) && b[0] in Elems(a);
      assert a[0] == b[0];
      ElemsCons(a);
      ElemsCons(b);
      assert a[0] !in Elems(a[1..]) && b[0] !in Elems(b[1..]);
      IncreasingUnique(a[1..], b[1..]);
      assert a == [a[0]] + a[1..] && b == [b[0]] + b[1..];
    }
  }

  lemma NonEmptyHasElement(s: set<int>)
    requires s != {}
    ensures exists x :: x in s
  {
    if forall y :: y !in s { assert false; }
  }

  lemma HeadInElems<T>(a: seq<T>)
    requires a != []
    ensures a[0] in Elems(a)
  {
  }

  /** `sorted(s)` for a set of integers. */
  ghost function SortedInts(s: set<int>): (r: seq<int>)
    ensures Increasing(r) && Elems(r) == s
  {
    if s == {} then []
    else
      NonEmptyHasElement(s);
      var x :| x in s;
      InsertInt(SortedInts(s - {x}), x)
  }

  /** `l = list(s); l.sort()` for a set of integers. */
  method SortInts(s: set<int>) returns (r: seq<int>)
    ensures r == SortedInts(s)
  {
    r := [];
    var rest := s;
    while rest != {}
      invariant rest <= s
      invariant Increasing(r) && Elems(r) == s - rest
      decreases rest
    {
      NonEmptyHasElement(rest);
      var x :| x in rest;
      r := InsertInt(r, x);
      rest := rest - {x};
    }
    IncreasingUnique(r, SortedInts(s));
  }
}
