/**
  Byte strings with the bytewise order that Rust strings and file names are compared by.

  A byte is represented by its value. The order and the archive format do not depend on the
  range; contracts that do depend on it say so with `IsBytes`. Sorting the members of a set gives
  one list only, which is what makes archives, script orders and merged file lists independent of
  the order in which directories and maps are enumerated.
 */
module Bytes {
  import opened Listings

  type byte = int

  predicate IsBytes(s: seq<byte>) {
    forall i :: 0 <= i < |s| ==> 0 <= s[i] < 256
  }

  type Text = seq<byte>

  /** Strict lexicographic order. */
  predicate Below(a: Text, b: Text) {
    if b == [] then false
    else if a == [] then true
    else if a[0] != b[0] then a[0] < b[0]
    else Below(a[1..], b[1..])
  }

  /** The first difference decides, and a proper prefix comes first. */
  lemma {:induction false} BelowAtFirstDifference(a: Text, b: Text, i: nat)
    requires i <= |a| && i <= |b| && a[..i] == b[..i] && (i == |a| || i == |b| || a[i] != b[i])
    ensures Below(a, b) <==> i < |b| && (i == |a| || a[i] < b[i])
    decreases i
  {
    if i > 0 {
      assert a[0] == a[..i][0] == b[..i][0] == b[0];
      assert a[1..][..i - 1] == a[..i][1..] && b[1..][..i - 1] == b[..i][1..];
      BelowAtFirstDifference(a[1..], b[1..], i - 1);
    }
  }

  lemma {:induction false} BelowIrreflexive(a: Text)
    ensures !Below(a, a)
  {
    if a != [] { BelowIrreflexive(a[1..]); }
  }

  lemma {:induction false} BelowTotal(a: Text, b: Text)
    ensures a == b || Below(a, b) || Below(b, a)
  {
    if a != [] && b != [] && a[0] == b[0] {
      BelowTotal(a[1..], b[1..]);
      assert a == [a[0]] + a[1..] && b == [b[0]] + b[1..];
    }
  }

  lemma {:induction false} BelowTransitive(a: Text, b: Text, c: Text)
    requires Below(a, b) && Below(b, c)
    ensures Below(a, c)
  {
    if a != [] && a[0] == b[0] && b[0] == c[0] {
      BelowTransitive(a[1..], b[1..], c[1..]);
    }
  }

  predicate IsMin(s: set<Text>, m: Text) {
    m in s && forall x :: x in s ==> x == m || Below(m, x)
  }

  lemma {:induction false} MinExists(s: set<Text>)
    requires s != {}
    ensures exists m :: IsMin(s, m)
    decreases s
  {
    var x :| x in s;
    if s == {x} {
      assert IsMin(s, x);
    } else {
      var rest := s - {x};
      MinExists(rest);
      var m :| IsMin(rest, m);
      BelowTotal(x, m);
      if Below(x, m) {
        forall y | y in rest && y != m ensures Below(x, y) { BelowTransitive(x, m, y); }
        assert IsMin(s, x);
      } else {
        assert IsMin(s, m);
      }
    }
  }

  lemma MinUnique(s: set<Text>, a: Text, b: Text)
    requires IsMin(s, a) && IsMin(s, b)
    ensures a == b
  {
    if a != b {
      BelowTransitive(a, b, a);
      BelowIrreflexive(a);
    }
  }

  function Min(s: set<Text>): (m: Text)
    requires s != {}
    ensures IsMin(s, m)
  {
    MinExists(s);
    assert forall a, b | IsMin(s, a) && IsMin(s, b) :: a == b by {
      forall a, b | IsMin(s, a) && IsMin(s, b) ensures a == b { MinUnique(s, a, b); }
    }
    var m :| IsMin(s, m);
    m
  }

  /** Sorted without repetition. */
  predicate Ascending(s: seq<Text>) {
    forall i, j {:trigger Below(s[i], s[j])} :: 0 <= i < j < |s| ==> Below(s[i], s[j])
  }

  /** The members of a set in ascending order: what sorting any enumeration of it gives. */
  function Sorted(s: set<Text>): (r: seq<Text>)
    ensures Elems(r) == s && Ascending(r)
    decreases s
  {
    if s == {} then []
    else
      var m := Min(s);
      var rest := Sorted(s - {m});
      assert forall x :: x in rest <==> x in Elems(rest);
      assert Elems([m] + rest) == {m} + Elems(rest);
      [m] + rest
  }

  lemma AscendingIsDistinct(s: seq<Text>)
    requires Ascending(s)
    ensures Distinct(s)
  {
    forall i, j | 0 <= i < j < |s| ensures Differ(s, i, j) { BelowIrreflexive(s[i]); }
  }

  /** Sorting is determined by the members alone. */
  lemma {:induction false} AscendingUnique(a: seq<Text>, b: seq<Text>)
    requires Ascending(a) && Ascending(b) && Elems(a) == Elems(b)
    ensures a == b
  {
    ElemsEmpty(a);
    ElemsEmpty(b);
    if a != [] && b != [] {
      assert a[0] in Elems(a) && a[0] in b;
      assert b[0] in Elems(b) && b[0] in a;
      assert IsMin(Elems(a), a[0]) && IsMin(Elems(b), b[0]);
      MinUnique(Elems(a), a[0], b[0]);
      DropFirst(a);
      DropFirst(b);
      AscendingUnique(a[1..], b[1..]);
    }
  }

  lemma DropFirst(a: seq<Text>)
    requires Ascending(a) && a != []
    ensures Elems(a[1..]) == Elems(a) - {a[0]} && Ascending(a[1..])
  {
    AscendingIsDistinct(a);
    DistinctCons(a);
    ElemsCons(a);
  }

  function Insert(x: Text, s: seq<Text>): seq<Text> {
    if s == [] || Below(x, s[0]) then [x] + s else [s[0]] + Insert(x, s[1..])
  }

  /** Sorting a list, repetitions kept. */
  function SortTexts(s: seq<Text>): seq<Text> {
    if s == [] then [] else Insert(s[0], SortTexts(s[1..]))
  }

  lemma {:induction false} InsertAscending(x: Text, s: seq<Text>)
    requires Ascending(s) && x !in s
    ensures Ascending(Insert(x, s)) && Elems(Insert(x, s)) == Elems(s) + {x}
  {
    if s != [] {
      assert s == [s[0]] + s[1..];
      if Below(x, s[0]) {
        forall i | 0 < i < |s| ensures Below(x, s[i]) { BelowTransitive(x, s[0], s[i]); }
      } else {
        BelowTotal(x, s[0]);
        InsertAscending(x, s[1..]);
        var rest := Insert(x, s[1..]);
        forall i | 0 <= i < |rest| ensures Below(s[0], rest[i]) {
          assert rest[i] in Elems(rest);
        }
      }
    }
  }

  /** Sorting a list without repetitions gives its members in ascending order. */
  lemma {:induction false} SortTextsSorted(s: seq<Text>)
    requires Distinct(s)
    ensures SortTexts(s) == Sorted(Elems(s))
  {
    if s != [] {
      DistinctCons(s);
      ElemsCons(s);
      SortTextsSorted(s[1..]);
      assert s[0] !in Elems(SortTexts(s[1..]));
      InsertAscending(s[0], SortTexts(s[1..]));
      AscendingUnique(SortTexts(s), Sorted(Elems(s)));
    }
  }

  lemma SortedCounts(s: set<Text>, x: Text)
    ensures multiset(Sorted(s))[x] == Once(x in s)
  {
  }
}
