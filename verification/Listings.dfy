/**
  Lists without repetition, their members and sizes.

  A list with as many entries as members repeats nothing, and two such lists of the same members
  are permutations of each other. The script and derivation orders, the extraction manifest and the
  comparison of file manifests all speak about lists in these terms: what is listed, and that it
  is listed once.
 */
module Listings {

  function Elems<T>(s: seq<T>): set<T> {
    set x | x in s
  }

  lemma ElemsEmpty<T>(s: seq<T>)
    ensures Elems(s) == {} <==> s == []
  {
    if s != [] {
      assert s[0] in Elems(s);
    }
  }

  predicate Differ<T(==)>(s: seq<T>, i: nat, j: nat)
    requires i < j < |s|
  {
    s[i] != s[j]
  }

  /** No entry is repeated. */
  predicate Distinct<T(==)>(s: seq<T>) {
    forall i, j :: 0 <= i < j < |s| ==> Differ(s, i, j)
  }

  lemma ElemsExtend<T>(s: seq<T>, x: T)
    ensures Elems(s + [x]) == Elems(s) + {x}
  {
  }

  lemma ElemsJoin<T>(a: seq<T>, b: seq<T>)
    ensures Elems(a + b) == Elems(a) + Elems(b)
  {
  }

  lemma ElemsCons<T>(s: seq<T>)
    requires s != []
    ensures Elems(s) == Elems(s[1..]) + {s[0]}
  {
  }

  lemma DistinctExtend<T>(s: seq<T>, x: T)
    requires Distinct(s) && x !in Elems(s)
    ensures Distinct(s + [x])
  {
    forall i, j | 0 <= i < j < |s + [x]| ensures Differ(s + [x], i, j) {
      if j < |s| {
        assert Differ(s, i, j);
      } else {
        assert s[i] in Elems(s);
      }
    }
  }

  lemma DistinctCons<T>(s: seq<T>)
    requires s != []
    ensures Distinct(s) <==> Distinct(s[1..]) && s[0] !in Elems(s[1..])
  {
    var rest := s[1..];
    if s[0] in Elems(rest) {
      var k :| 0 <= k < |rest| && rest[k] == s[0];
      assert !Differ(s, 0, k + 1);
    }
    if Distinct(s) {
      forall i, j | 0 <= i < j < |rest| ensures Differ(rest, i, j) {
        assert Differ(s, i + 1, j + 1);
      }
    }
    if Distinct(rest) && s[0] !in Elems(rest) {
      forall i, j | 0 <= i < j < |s| ensures Differ(s, i, j) {
        assert s[j] == rest[j - 1] && s[j] in Elems(rest);
        if i > 0 { assert Differ(rest, i - 1, j - 1); }
      }
    }
  }

  lemma RepeatedIsNotDistinct<T>(s: seq<T>, i: nat, j: nat)
    requires i < |s| && j < |s| && s[i] == s[j]
    ensures i == j || !Distinct(s)
  {
    if i < j {
      assert !Differ(s, i, j);
    } else if j < i {
      assert !Differ(s, j, i);
    }
  }

  lemma ConsJoin<T>(a: seq<T>, b: seq<T>)
    requires a != []
    ensures a == [a[0]] + a[1..] && a + b == [a[0]] + (a[1..] + b)
  {
  }

  /** How often a member of a set occurs in a listing of it without repetition. */
  function Once(b: bool): nat {
    if b then 1 else 0
  }

  lemma {:induction false} DistinctCounts<T>(s: seq<T>, x: T)
    requires Distinct(s)
    ensures multiset(s)[x] == Once(x in s)
  {
    if s != [] {
      assert s == [s[0]] + s[1..];
      DistinctCons(s);
      DistinctCounts(s[1..], x);
    }
  }

  lemma CountsDistinct<T>(s: seq<T>)
    requires forall x :: x in s ==> multiset(s)[x] <= 1
    ensures Distinct(s)
  {
    forall i, j | 0 <= i < j < |s| ensures Differ(s, i, j) {
      var tail := s[i + 1..];
      assert s == s[..i] + [s[i]] + tail;
      assert tail[j - i - 1] == s[j];
      assert s[j] in multiset(tail) && s[i] in s;
    }
  }

  /** A listing has as many entries as members exactly when nothing is repeated. */
  lemma {:induction false} ElemsSize<T>(s: seq<T>)
    ensures |Elems(s)| <= |s|
    ensures |Elems(s)| == |s| <==> Distinct(s)
  {
    if s != [] {
      ElemsSize(s[1..]);
      ElemsCons(s);
      DistinctCons(s);
      if s[0] in Elems(s[1..]) {
        assert Elems(s) == Elems(s[1..]);
      }
    }
  }

  /** Two listings without repetition of the same members are permutations of each other. */
  lemma SameMembersPermute<T>(a: seq<T>, b: seq<T>)
    requires Distinct(a) && Distinct(b) && Elems(a) == Elems(b)
    ensures multiset(a) == multiset(b)
  {
    forall x ensures multiset(a)[x] == multiset(b)[x] {
      DistinctCounts(a, x);
      DistinctCounts(b, x);
      assert x in a <==> x in Elems(a);
      assert x in b <==> x in Elems(b);
    }
  }

  lemma SplitSize<T>(all: set<T>, part: set<T>)
    requires part <= all
    ensures |all - part| + |part| == |all|
  {
  }

  lemma SubsetSize<T>(a: set<T>, b: set<T>)
    requires a <= b
    ensures |a| <= |b| && (|a| == |b| <==> a == b)
    ensures b - a == {} <==> a == b
  {
    SplitSize(b, a);
    assert a != b ==> exists x :: x in b - a;
  }

  // ----- First occurrences -----

  /** A list continued by those elements of another one that it does not have yet. */
  function AppendNew<T(==)>(s: seq<T>, more: seq<T>): seq<T> {
    if more == [] then s
    else
      var done, x := AppendNew(s, more[..|more| - 1]), more[|more| - 1];
      if x in done then done else done + [x]
  }

  lemma {:induction false} AppendNewJoin<T>(s: seq<T>, a: seq<T>, b: seq<T>)
    ensures AppendNew(s, a + b) == AppendNew(AppendNew(s, a), b)
    decreases |b|
  {
    if b == [] {
      assert a + b == a;
    } else {
      assert (a + b)[..|a + b| - 1] == a + b[..|b| - 1] && (a + b)[|a + b| - 1] == b[|b| - 1];
      AppendNewJoin(s, a, b[..|b| - 1]);
    }
  }

  lemma {:induction false} AppendNothingNew<T>(s: seq<T>, more: seq<T>)
    requires Elems(more) <= Elems(s)
    ensures AppendNew(s, more) == s
    decreases |more|
  {
    if more != [] {
      var init := more[..|more| - 1];
      assert forall x :: x in Elems(init) ==> x in Elems(more);
      AppendNothingNew(s, init);
      assert more[|more| - 1] in Elems(more);
    }
  }

  /** The first position of an element, or the length of the list. */
  function FirstAt<T(==)>(s: seq<T>, x: T): (i: nat)
    ensures i <= |s| && (i < |s| ==> s[i] == x) && forall j :: 0 <= j < i ==> s[j] != x
  {
    if s == [] || s[0] == x then 0
    else
      assert forall j :: 0 < j < |s| ==> s[j] == s[1..][j - 1];
      FirstAt(s[1..], x) + 1
  }

  lemma FirstAtIs<T>(s: seq<T>, x: T, i: nat)
    requires i < |s| && s[i] == x && forall j :: 0 <= j < i ==> s[j] != x
    ensures FirstAt(s, x) == i
  {
  }

  lemma FirstAtMore<T>(s: seq<T>, y: T, x: T)
    requires x in s || x == y
    ensures FirstAt(s + [y], x) == if x in s then FirstAt(s, x) else |s|
  {
    var more := s + [y];
    assert forall j :: 0 <= j < |s| ==> more[j] == s[j];
    FirstAtIs(more, x, if x in s then FirstAt(s, x) else |s|);
  }

  /** Appending to nothing lists the elements once each, in the order of their first occurrences. */
  lemma {:induction false} FirstOccurrences<T>(s: seq<T>)
    ensures var r := AppendNew([], s);
            && Elems(r) == Elems(s)
            && forall i, j {:trigger r[i], r[j]} :: 0 <= i < j < |r| ==> FirstAt(s, r[i]) < FirstAt(s, r[j])
  {
    if s != [] {
      var init, x := s[..|s| - 1], s[|s| - 1];
      var done := AppendNew([], init);
      assert s == init + [x];
      FirstOccurrences(init);
      ElemsExtend(init, x);
      ElemsExtend(done, x);
      assert x in done <==> x in Elems(done);
      forall y | y in done ensures FirstAt(s, y) == FirstAt(init, y) < |init| {
        assert y in Elems(done);
        FirstAtMore(init, x, y);
      }
      if x !in done {
        FirstAtMore(init, x, x);
      }
    }
  }
}
