/** A stable sort, standing for `slice::sort_by`, `sort_by_key` and `sort`. */
module Sorting {
  import opened Text

  ghost predicate TotalPreorder<T(!new)>(leq: (T, T) -> bool) {
    && (forall x, y :: leq(x, y) || leq(y, x))
    && (forall x, y, z :: leq(x, y) && leq(y, z) ==> leq(x, z))
  }

  predicate Sorted<T>(s: seq<T>, leq: (T, T) -> bool) {
    forall i, j :: 0 <= i < j < |s| ==> leq(s[i], s[j])
  }

  function Insert<T>(x: T, s: seq<T>, leq: (T, T) -> bool): seq<T> {
    if s == [] then [x]
    else if leq(x, s[0]) then [x] + s
    else [s[0]] + Insert(x, s[1..], leq)
  }

  function Sort<T>(s: seq<T>, leq: (T, T) -> bool): seq<T> {
    if s == [] then [] else Insert(s[0], Sort(s[1..], leq), leq)
  }

  function Filter<T>(s: seq<T>, p: T -> bool): (r: seq<T>)
    ensures |r| <= |s|
  {
    if s == [] then [] else
      var n := |s| - 1;
      Filter(s[..n], p) + (if p(s[n]) then [s[n]] else [])
  }

  lemma {:induction false} FilterElements<T>(s: seq<T>, p: T -> bool)
    ensures forall x | x in Filter(s, p) :: x in s && p(x)
    ensures forall x | x in s :: p(x) ==> x in Filter(s, p)
  {
    if s != [] {
      var n := |s| - 1;
      FilterElements(s[..n], p);
      assert s == s[..n] + [s[n]];
    }
  }

  lemma FilterSnoc<T>(s: seq<T>, x: T, p: T -> bool)
    ensures Filter(s + [x], p) == Filter(s, p) + (if p(x) then [x] else [])
  {
    assert (s + [x])[..|s|] == s;
  }

  lemma {:induction false} FilterConcat<T>(a: seq<T>, b: seq<T>, p: T -> bool)
    ensures Filter(a + b, p) == Filter(a, p) + Filter(b, p)
  {
    if b == [] {
      assert a + b == a;
    } else {
      var front, last := b[..|b| - 1], b[|b| - 1];
      FilterConcat(a, front, p);
      FilterSnoc(a + front, last, p);
      assert a + b == a + front + [last];
      Assoc(Filter(a, p), Filter(front, p), if p(last) then [last] else []);
    }
  }

  lemma FilterCons<T>(x: T, s: seq<T>, p: T -> bool)
    ensures Filter([x] + s, p) == (if p(x) then [x] else []) + Filter(s, p)
  {
    FilterConcat([x], s, p);
    FilterSnoc([], x, p);
    assert [] + [x] == [x];
  }

  lemma {:induction false} InsertPermutes<T>(x: T, s: seq<T>, leq: (T, T) -> bool)
    ensures multiset(Insert(x, s, leq)) == multiset(s) + multiset{x}
  {
    if s != [] && !leq(x, s[0]) {
      InsertPermutes(x, s[1..], leq);
      assert s == [s[0]] + s[1..];
    }
  }

  lemma {:induction false} InsertKeepsElements<T>(x: T, s: seq<T>, leq: (T, T) -> bool)
    ensures forall y | y in Insert(x, s, leq) :: y == x || y in s
  {
    if s != [] && !leq(x, s[0]) {
      InsertKeepsElements(x, s[1..], leq);
    }
  }

  lemma {:induction false} SortPermutes<T>(s: seq<T>, leq: (T, T) -> bool)
    ensures multiset(Sort(s, leq)) == multiset(s)
  {
    if s != [] {
      SortPermutes(s[1..], leq);
      InsertPermutes(s[0], Sort(s[1..], leq), leq);
      assert s == [s[0]] + s[1..];
    }
  }

  lemma SortKeepsElements<T>(s: seq<T>, leq: (T, T) -> bool)
    ensures |Sort(s, leq)| == |s|
    ensures forall x | x in Sort(s, leq) :: x in s
    ensures forall x | x in s :: x in Sort(s, leq)
  {
    var t := Sort(s, leq);
    SortPermutes(s, leq);
    assert |t| == |multiset(t)| && |s| == |multiset(s)|;
    forall x | x in t ensures x in s {
      assert x in multiset(t);
    }
    forall x | x in s ensures x in t {
      assert x in multiset(s);
    }
  }

  lemma {:induction false} InsertSorts<T(!new)>(x: T, s: seq<T>, leq: (T, T) -> bool)
    requires TotalPreorder(leq) && Sorted(s, leq)
    ensures Sorted(Insert(x, s, leq), leq)
  {
    if s != [] && !leq(x, s[0]) {
      InsertSorts(x, s[1..], leq);
      InsertPermutes(x, s[1..], leq);
      var t := Insert(x, s[1..], leq);
      forall j | 0 <= j < |t| ensures leq(s[0], t[j]) {
        assert t[j] in multiset(t);
        assert t[j] == x || t[j] in s[1..];
      }
    } else if s != [] {
      forall j | 0 <= j < |s| ensures leq(x, s[j]) {
        assert j == 0 || leq(s[0], s[j]);
      }
    }
  }

  lemma {:induction false} SortSorts<T(!new)>(s: seq<T>, leq: (T, T) -> bool)
    requires TotalPreorder(leq)
    ensures Sorted(Sort(s, leq), leq)
  {
    if s != [] {
      SortSorts(s[1..], leq);
      InsertSorts(s[0], Sort(s[1..], leq), leq);
    }
  }

  /** What is sorted already stays as it is. */
  lemma {:induction false} SortSorted<T>(s: seq<T>, leq: (T, T) -> bool)
    requires Sorted(s, leq)
    ensures Sort(s, leq) == s
  {
    if s != [] {
      SortSorted(s[1..], leq);
      assert s == [s[0]] + s[1..];
    }
  }

  lemma {:induction false} InsertStable<T(!new)>(x: T, s: seq<T>, leq: (T, T) -> bool, p: T -> bool)
    requires forall a, b :: p(a) && p(b) ==> leq(a, b)
    ensures Filter(Insert(x, s, leq), p) == (if p(x) then [x] else []) + Filter(s, p)
  {
    if s == [] || leq(x, s[0]) {
      FilterCons(x, s, p);
      assert [x] + s == Insert(x, s, leq);
    } else {
      var first, rest := s[0], s[1..];
      assert s == [first] + rest;
      InsertStable(x, rest, leq, p);
      FilterCons(first, Insert(x, rest, leq), p);
      FilterCons(first, rest, p);
      assert !p(x) || !p(first);
    }
  }

  /** Elements that compare equal keep their order. */
  lemma {:induction false} SortStable<T(!new)>(s: seq<T>, leq: (T, T) -> bool, p: T -> bool)
    requires forall a, b :: p(a) && p(b) ==> leq(a, b)
    ensures Filter(Sort(s, leq), p) == Filter(s, p)
  {
    if s != [] {
      SortStable(s[1..], leq, p);
      InsertStable(s[0], Sort(s[1..], leq), leq, p);
      FilterCons(s[0], s[1..], p);
      assert s == [s[0]] + s[1..];
    }
  }

  predicate Distinct<T(==)>(s: seq<T>) {
    forall i, j :: 0 <= i < j < |s| ==> s[i] != s[j]
  }

  lemma {:induction false} CountOnce<T>(s: seq<T>, x: T)
    requires Distinct(s)
    ensures multiset(s)[x] <= 1
  {
    if s != [] {
      assert s == [s[0]] + s[1..];
      CountOnce(s[1..], x);
      if x == s[0] {
        assert x !in s[1..];
      }
    }
  }

  lemma CountTwice<T>(s: seq<T>, i: nat, j: nat)
    requires i < j < |s| && s[i] == s[j]
    ensures multiset(s)[s[i]] >= 2
  {
    assert s == s[..j] + [s[j]] + s[j + 1..];
    assert s[i] == s[..j][i] && s[i] in multiset(s[..j]);
  }

  /** Rearranging keeps elements distinct. */
  lemma DistinctPermutes<T>(s: seq<T>, t: seq<T>)
    requires multiset(s) == multiset(t) && Distinct(s)
    ensures Distinct(t)
  {
    forall i, j | 0 <= i < j < |t| ensures t[i] != t[j] {
      if t[i] == t[j] {
        CountTwice(t, i, j);
        CountOnce(s, t[i]);
      }
    }
  }
}
