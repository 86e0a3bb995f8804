/** Byte-wise lexicographic order, as Go compares strings, and sorting by a total order. */
module Ordering {
  import opened Common

  /** Go's `<` on strings: the first differing byte decides, a proper prefix is smaller. */
  predicate LexLess(a: seq<int>, b: seq<int>) {
    b != [] && (a == [] || a[0] < b[0] || (a[0] == b[0] && LexLess(a[1..], b[1..])))
  }

  predicate LexLeq(a: seq<int>, b: seq<int>) {
    !LexLess(b, a)
  }

  /** The order in terms of the first byte that differs. */
  lemma {:induction false} LexByFirstDifference(a: seq<int>, b: seq<int>)
    ensures LexLess(a, b)
       <==> (a <= b && a != b)
            || exists i :: 0 <= i < |a| && i < |b| && a[..i] == b[..i] && a[i] < b[i]
  {
    forall i | 0 < i <= |a| && i <= |b| && a[..i] == b[..i] ensures a[0] == b[0] {
      assert a[..i][0] == a[0] && b[..i][0] == b[0];
    }
    if a != [] && b != [] && a[0] == b[0] {
      LexByFirstDifference(a[1..], b[1..]);
      assert a == [a[0]] + a[1..] && b == [b[0]] + b[1..];
      if i :| 0 <= i < |a| && i < |b| && a[..i] == b[..i] && a[i] < b[i] {
        assert a[1..][..i - 1] == a[..i][1..] && b[1..][..i - 1] == b[..i][1..];
        assert a[1..][i - 1] < b[1..][i - 1];
      }
      if i :| 0 <= i < |a[1..]| && i < |b[1..]| && a[1..][..i] == b[1..][..i] && a[1..][i] < b[1..][i] {
        assert a[..i + 1] == [a[0]] + a[1..][..i] && b[..i + 1] == [b[0]] + b[1..][..i];
        assert a[i + 1] < b[i + 1];
      }
    } else if a != [] && b != [] {
      if a[0] < b[0] {
        assert a[..0] == b[..0];
      }
    }
  }

  lemma {:induction false} LexIrreflexive(a: seq<int>)
    ensures !LexLess(a, a)
  {
    if a == [] {
    } else {
      LexIrreflexive(a[1..]);
    }
  }

  lemma {:induction false} LexTransitive(a: seq<int>, b: seq<int>, c: seq<int>)
    requires LexLess(a, b) && LexLess(b, c)
    ensures LexLess(a, c)
  {
    if a != [] && a[0] == b[0] == c[0] {
      LexTransitive(a[1..], b[1..], c[1..]);
    }
  }

  lemma {:induction false} LexTotal(a: seq<int>, b: seq<int>)
    ensures LexLess(a, b) || LexLess(b, a) || a == b
  {
    if a != [] && b != [] && a[0] == b[0] {
      LexTotal(a[1..], b[1..]);
      assert a == [a[0]] + a[1..] && b == [b[0]] + b[1..];
    }
  }

  lemma {:induction false} LexAsymmetric(a: seq<int>, b: seq<int>)
    ensures !(LexLess(a, b) && LexLess(b, a))
  {
    if LexLess(a, b) && LexLess(b, a) {
      LexTransitive(a, b, a);
      LexIrreflexive(a);
    }
  }

  lemma {:induction false} LexLeqTransitive(a: seq<int>, b: seq<int>, c: seq<int>)
    requires LexLeq(a, b) && LexLeq(b, c)
    ensures LexLeq(a, c)
  {
    LexTotal(a, b);
    LexTotal(b, c);
    if LexLess(c, a) && a != b && b != c {
      LexTransitive(a, b, c);
      LexAsymmetric(a, c);
    }
  }

  /** A common prefix does not affect the order. */
  lemma {:induction false} LexPrefix(p: seq<int>, a: seq<int>, b: seq<int>)
    ensures LexLess(p + a, p + b) == LexLess(a, b)
  {
    if p == [] {
      assert p + a == a && p + b == b;
    } else {
      assert (p + a)[1..] == p[1..] + a && (p + b)[1..] == p[1..] + b;
      LexPrefix(p[1..], a, b);
    }
  }

  /** A common suffix does not affect the order of strings of equal length. */
  lemma {:induction false} LexSuffix(a: seq<int>, b: seq<int>, s: seq<int>)
    requires |a| == |b|
    ensures LexLess(a + s, b + s) == LexLess(a, b)
  {
    if a == [] {
      LexIrreflexive(s);
      assert a + s == s == b + s;
    } else {
      assert (a + s)[1..] == a[1..] + s && (b + s)[1..] == b[1..] + s;
      LexSuffix(a[1..], b[1..], s);
    }
  }

  // ---- sorting ----

  ghost predicate TotalPreorder<T(!new)>(leq: (T, T) -> bool) {
    && (forall x, y :: leq(x, y) || leq(y, x))
    && (forall x, y, z :: leq(x, y) && leq(y, z) ==> leq(x, z))
  }

  ghost predicate SortedBy<T>(s: seq<T>, leq: (T, T) -> bool) {
    forall i, j :: 0 <= i < j < |s| ==> leq(s[i], s[j])
  }

  function Insert<T>(x: T, s: seq<T>, leq: (T, T) -> bool): seq<T> {
    if s == [] || leq(x, s[0]) then [x] + s else [s[0]] + Insert(x, s[1..], leq)
  }

  function Sort<T>(s: seq<T>, leq: (T, T) -> bool): seq<T> {
    if s == [] then [] else Insert(s[0], Sort(s[1..], leq), leq)
  }

  lemma {:induction false} InsertCount<T>(x: T, s: seq<T>, leq: (T, T) -> bool)
    ensures multiset(Insert(x, s, leq)) == multiset(s) + multiset{x}
  {
    if s != [] && !leq(x, s[0]) {
      InsertCount(x, s[1..], leq);
      assert s == [s[0]] + s[1..];
    }
  }

  lemma {:induction false} InsertSorted<T(!new)>(x: T, s: seq<T>, leq: (T, T) -> bool)
    requires TotalPreorder(leq) && SortedBy(s, leq)
    ensures SortedBy(Insert(x, s, leq), leq)
  {
    if s == [] {
    } else if leq(x, s[0]) {
      forall j | 0 <= j < |s| ensures leq(x, s[j]) {
        assert j == 0 || leq(s[0], s[j]);
      }
    } else {
      var rest := Insert(x, s[1..], leq);
      InsertSorted(x, s[1..], leq);
      forall j | 0 <= j < |rest| ensures leq(s[0], rest[j]) {
        InsertCount(x, s[1..], leq);
        assert rest[j] in multiset(rest);
        assert leq(s[0], x);
      }
    }
  }

  lemma {:induction false} SortKeeps<T(!new)>(s: seq<T>, leq: (T, T) -> bool)
    requires TotalPreorder(leq)
    ensures SortedBy(Sort(s, leq), leq) && multiset(Sort(s, leq)) == multiset(s)
  {
    if s == [] {
    } else {
      SortKeeps(s[1..], leq);
      InsertSorted(s[0], Sort(s[1..], leq), leq);
      InsertCount(s[0], Sort(s[1..], leq), leq);
      assert s == [s[0]] + s[1..];
    }
  }

  /** Go's sort.Slice: a sorted rearrangement, with no promise about the order of ties. */
  method SortSlice<T(!new)>(s: seq<T>, leq: (T, T) -> bool) returns (r: seq<T>)
    requires TotalPreorder(leq)
    ensures SortedBy(r, leq) && multiset(r) == multiset(s)
  {
    SortKeeps(s, leq);
    r := Sort(s, leq);
  }

  lemma {:induction false} HeadIsLeast<T>(a: seq<T>, b: seq<T>, leq: (T, T) -> bool)
    requires SortedBy(a, leq) && multiset(a) == multiset(b) && a != [] && b != []
    ensures a[0] == b[0] || leq(a[0], b[0])
  {
    assert b[0] in multiset(b);
    var i :| 0 <= i < |a| && a[i] == b[0];
  }

  lemma {:induction false} TailCount<T>(a: seq<T>)
    requires a != []
    ensures multiset(a[1..]) == multiset(a) - multiset{a[0]}
  {
    assert a == [a[0]] + a[1..];
  }

  lemma {:induction false} TwiceCounted<T>(s: seq<T>, i: nat, j: nat)
    requires i < j < |s| && s[i] == s[j]
    ensures multiset(s)[s[i]] >= 2
  {
    assert s == s[..j] + [s[j]] + s[j + 1..];
    assert s[i] in s[..j];
  }

  lemma {:induction false} OnceCounted<T>(s: seq<T>, x: T)
    requires forall i, j :: 0 <= i < j < |s| ==> s[i] != s[j]
    ensures multiset(s)[x] <= 1
  {
    if s == [] {
    } else {
      assert s == [s[0]] + s[1..];
      OnceCounted(s[1..], x);
    }
  }

  /** There is one sorted arrangement when no two distinct elements tie. */
  lemma {:induction false} SortedUnique<T>(a: seq<T>, b: seq<T>, leq: (T, T) -> bool)
    requires SortedBy(a, leq) && SortedBy(b, leq) && multiset(a) == multiset(b)
    requires forall x, y :: x in a && y in a && leq(x, y) && leq(y, x) ==> x == y
    ensures a == b
  {
    assert |multiset(a)| == |a| && |multiset(b)| == |b|;
    if a == [] {
    } else {
      assert a[0] == b[0] by {
        HeadIsLeast(a, b, leq);
        HeadIsLeast(b, a, leq);
        assert b[0] in multiset(a);
        assert b[0] in a;
      }
      TailCount(a);
      TailCount(b);
      SortedUnique(a[1..], b[1..], leq);
      assert a == [a[0]] + a[1..] && b == [b[0]] + b[1..];
    }
  }

  /** Sorting a sequence that is already sorted, with no ties, changes nothing. */
  lemma {:induction false} SortSorted<T(!new)>(s: seq<T>, leq: (T, T) -> bool)
    requires TotalPreorder(leq) && SortedBy(s, leq)
    ensures Sort(s, leq) == s
  {
    if s == [] {
    } else {
      SortSorted(s[1..], leq);
      assert s == [s[0]] + s[1..];
      assert |s| > 1 ==> leq(s[0], s[1]);
    }
  }

  lemma {:induction false} InsertCons<T>(x: T, first: T, s: seq<T>, leq: (T, T) -> bool)
    ensures Insert(x, [first] + s, leq) == if leq(x, first) then [x] + ([first] + s) else [first] + Insert(x, s, leq)
  {
    assert ([first] + s)[1..] == s;
  }

  lemma {:induction false} SortCons<T>(x: T, s: seq<T>, leq: (T, T) -> bool)
    ensures Sort([x] + s, leq) == Insert(x, Sort(s, leq), leq)
  {
    assert ([x] + s)[1..] == s;
  }

  /** Filtering and inserting commute. */
  lemma {:induction false} FilterInsert<T(!new)>(x: T, s: seq<T>, leq: (T, T) -> bool, keep: T -> bool)
    requires TotalPreorder(leq) && SortedBy(s, leq)
    ensures Filter(Insert(x, s, leq), keep)
         == if keep(x) then Insert(x, Filter(s, keep), leq) else Filter(s, keep)
  {
    if s == [] || leq(x, s[0]) {
      var kept := Filter(s, keep);
      FilterCons(x, s, keep);
      if kept != [] {
        FilterMember(s, keep, kept[0]);
        assert leq(x, kept[0]) by {
          var i :| 0 <= i < |s| && s[i] == kept[0];
          assert i == 0 || leq(s[0], s[i]);
        }
      }
    } else {
      FilterInsert(x, s[1..], leq, keep);
      FilterCons(s[0], Insert(x, s[1..], leq), keep);
      if keep(s[0]) {
        InsertCons(x, s[0], Filter(s[1..], keep), leq);
      }
    }
  }

  /** Filtering and sorting commute. */
  lemma {:induction false} FilterSort<T(!new)>(s: seq<T>, leq: (T, T) -> bool, keep: T -> bool)
    requires TotalPreorder(leq)
    ensures Filter(Sort(s, leq), keep) == Sort(Filter(s, keep), leq)
  {
    if s == [] {
    } else {
      FilterSort(s[1..], leq, keep);
      SortKeeps(s[1..], leq);
      FilterInsert(s[0], Sort(s[1..], leq), leq, keep);
      if keep(s[0]) {
        SortCons(s[0], Filter(s[1..], keep), leq);
      }
    }
  }
}
