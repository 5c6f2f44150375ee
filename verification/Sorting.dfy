/**
 The insertion sort the loader uses in two places: on scan targets
 (pe_rip_scan.c) and on the import table (import_table.c).
 */
module Sorting {

  ghost predicate TotalPreorder<T(!new)>(leq: (T, T) -> bool) {
    && (forall x, y :: leq(x, y) || leq(y, x))
    && (forall x, y, z :: leq(x, y) && leq(y, z) ==> leq(x, z))
  }

  // x goes after the last element that is not above it.
  function Insert<T>(s: seq<T>, x: T, leq: (T, T) -> bool): (r: seq<T>)
    ensures |r| == |s| + 1
  {
    if s == [] || leq(s[|s| - 1], x) then s + [x] else Insert(s[..|s| - 1], x, leq) + [s[|s| - 1]]
  }

  function Sort<T>(s: seq<T>, leq: (T, T) -> bool): (r: seq<T>)
    ensures |r| == |s|
  {
    if s == [] then [] else Insert(Sort(s[..|s| - 1], leq), s[|s| - 1], leq)
  }

  predicate Sorted<T>(s: seq<T>, leq: (T, T) -> bool) {
    forall i, j :: 0 <= i < j < |s| ==> leq(s[i], s[j])
  }

  lemma {:induction false} InsertMultiset<T>(s: seq<T>, x: T, leq: (T, T) -> bool)
    ensures multiset(Insert(s, x, leq)) == multiset(s) + multiset{x}
  {
    if s != [] && !leq(s[|s| - 1], x) {
      assert s == s[..|s| - 1] + [s[|s| - 1]];
      InsertMultiset(s[..|s| - 1], x, leq);
    }
  }

  lemma {:induction false} InsertSorted<T(!new)>(s: seq<T>, x: T, leq: (T, T) -> bool)
    requires TotalPreorder(leq) && Sorted(s, leq)
    ensures Sorted(Insert(s, x, leq), leq)
  {
    if s != [] {
      var init, last := s[..|s| - 1], s[|s| - 1];
      if leq(last, x) {
        forall i | 0 <= i < |s| ensures leq(s[i], x) {
          if i < |s| - 1 { assert leq(s[i], last); }
        }
      } else {
        InsertSorted(init, x, leq);
        InsertMultiset(init, x, leq);
        var r := Insert(init, x, leq);
        forall i | 0 <= i < |r| ensures leq(r[i], last) {
          assert r[i] in multiset(r);
          assert r[i] == x || r[i] in multiset(init);
          if r[i] != x {
            var k :| 0 <= k < |init| && init[k] == r[i];
            assert s[k] == init[k];
          }
        }
      }
    }
  }

  // The result is a sorted permutation.
  lemma {:induction false} SortSorts<T(!new)>(s: seq<T>, leq: (T, T) -> bool)
    requires TotalPreorder(leq)
    ensures Sorted(Sort(s, leq), leq) && multiset(Sort(s, leq)) == multiset(s)
  {
    if s != [] {
      var init, last := s[..|s| - 1], s[|s| - 1];
      assert s == init + [last];
      SortSorts(init, leq);
      InsertSorted(Sort(init, leq), last, leq);
      InsertMultiset(Sort(init, leq), last, leq);
    }
  }

  // ---- Stability ---------------------------------------------------------------

  function Filter<T>(s: seq<T>, p: T -> bool): seq<T> {
    if s == [] then []
    else Filter(s[..|s| - 1], p) + if p(s[|s| - 1]) then [s[|s| - 1]] else []
  }

  // p picks elements out of one class of equals only.
  ghost predicate OneClass<T(!new)>(p: T -> bool, leq: (T, T) -> bool) {
    forall x, y :: p(x) && p(y) ==> leq(x, y)
  }

  lemma {:induction false} FilterSnoc<T>(s: seq<T>, x: T, p: T -> bool)
    ensures Filter(s + [x], p) == Filter(s, p) + if p(x) then [x] else []
  {
    assert (s + [x])[..|s|] == s;
  }

  lemma {:induction false} InsertStable<T(!new)>(s: seq<T>, x: T, leq: (T, T) -> bool, p: T -> bool)
    requires OneClass(p, leq)
    ensures Filter(Insert(s, x, leq), p) == Filter(s + [x], p)
  {
    if s != [] && !leq(s[|s| - 1], x) {
      var init, last := s[..|s| - 1], s[|s| - 1];
      InsertStable(init, x, leq, p);
      FilterSnoc(Insert(init, x, leq), last, p);
      FilterSnoc(init, x, p);
      FilterSnoc(s, x, p);
      assert !p(x) || !p(last);
    }
  }

  // Equal elements keep their order.
  lemma {:induction false} SortStable<T(!new)>(s: seq<T>, leq: (T, T) -> bool, p: T -> bool)
    requires OneClass(p, leq)
    ensures Filter(Sort(s, leq), p) == Filter(s, p)
  {
    if s != [] {
      var init, last := s[..|s| - 1], s[|s| - 1];
      SortStable(init, leq, p);
      InsertStable(Sort(init, leq), last, leq, p);
      FilterSnoc(Sort(init, leq), last, p);
    }
  }

  // ---- In place ------------------------------------------------------------------

  lemma {:induction false} InsertAt<T>(s: seq<T>, x: T, leq: (T, T) -> bool, j: nat)
    requires j <= |s| && (j == 0 || leq(s[j - 1], x))
    requires forall k :: j <= k < |s| ==> !leq(s[k], x)
    ensures Insert(s, x, leq) == s[..j] + [x] + s[j..]
    decreases |s|
  {
    if j < |s| {
      var init := s[..|s| - 1];
      InsertAt(init, x, leq, j);
      assert init[..j] == s[..j] && s[j..] == init[j..] + [s[|s| - 1]];
    }
  }

  lemma {:induction false} SortSnoc<T>(s: seq<T>, x: T, leq: (T, T) -> bool)
    ensures Sort(s + [x], leq) == Insert(Sort(s, leq), x, leq)
  {
    assert (s + [x])[..|s|] == s;
  }

  lemma {:induction false} SortShort<T>(s: seq<T>, leq: (T, T) -> bool)
    ensures |s| <= 1 ==> Sort(s, leq) == s
  {
  }

  // Move a[i] down into the sorted part before it.
  method InsertInPlace<T>(a: array<T>, i: nat, leq: (T, T) -> bool)
    requires i < a.Length
    modifies a
    ensures a[..i + 1] == Insert(old(a[..i]), old(a[i]), leq)
    ensures a[i + 1..] == old(a[i + 1..])
  {
    hide Insert;
    var key, j := a[i], i;
    while j > 0 && !leq(a[j - 1], key)
      invariant 0 <= j <= i
      invariant forall k :: 0 <= k < j ==> a[k] == old(a[k])
      invariant forall k :: j <= k < i ==> a[k + 1] == old(a[k]) && !leq(old(a[k]), key)
      invariant forall k :: i < k < a.Length ==> a[k] == old(a[k])
    {
      a[j] := a[j - 1];
      j := j - 1;
    }
    a[j] := key;
    ghost var s := old(a[..i]);
    InsertAt(s, key, leq, j);
    assert a[..i + 1] == s[..j] + [key] + s[j..];
  }

  method InsertionSort<T>(a: array<T>, n: nat, leq: (T, T) -> bool)
    requires n <= a.Length
    modifies a
    ensures a[..n] == Sort(old(a[..n]), leq) && a[n..] == old(a[n..])
  {
    hide Insert, Sort;
    SortShort(old(a[..n]), leq);
    if n == 0 { return; }
    SortShort(a[..1], leq);
    for i := 1 to n
      invariant a[..i] == Sort(old(a[..i]), leq) && a[i..] == old(a[i..])
    {
      ghost var x, rest := a[i], a[i + 1..];
      assert x == old(a[i]) && rest == old(a[i + 1..]) && old(a[..i + 1]) == old(a[..i]) + [x];
      SortSnoc(old(a[..i]), x, leq);
      InsertInPlace(a, i, leq);
    }
  }
}
