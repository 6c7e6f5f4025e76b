/**
  What the manifest collected by extraction (`ManifestEntry` in snix-redox/src/nar.rs) says
  about the extracted tree.
 */
module NarManifest {
  import opened Results
  import opened Bytes
  import opened Listings
  import opened Nar
  import opened NarWriter
  import opened NarTree
  import opened NarExtract
  import opened Utf8

  // ----- Which objects are listed -----

  /** How one filesystem object is described. */
  function Describe(rel: Path, n: FsNode): Item {
    match n
    case Dir => Item(rel, DirEntry, 0, false)
    case Reg(mode, contents) => Item(rel, FileEntry, |contents|, mode == ModeOf(true))
    case Link(_) => Item(rel, SymlinkEntry, 0, false)
  }

  /** The item describes an object of the tree `t` rooted at `at`. */
  predicate Describes(t: Node, at: Path, i: Item) {
    at <= i.rel && DescribesBelow(t, i.rel[|at|..], i)
  }

  predicate DescribesBelow(t: Node, r: Path, i: Item) {
    Lookup(t, r).Some? && i == Describe(i.rel, Lookup(t, r).value)
  }

  lemma OwnItem(t: Node, at: Path, i: Item)
    requires i.rel == at
    ensures Describes(t, at, i) <==> i == ItemOf(at, t)
  {
  }

  lemma LeafItem(t: Node, at: Path, i: Item)
    requires !t.Directory?
    ensures Describes(t, at, i) <==> i == ItemOf(at, t)
  {
  }

  /** An item is recorded exactly when it describes an object of the tree; only a root directory is left out. */
  lemma {:induction false} ItemsExact(t: Node, at: Path, i: Item)
    requires Ordered(t)
    ensures i in Items(t, at) <==> Describes(t, at, i) && !(t.Directory? && i.rel == [])
    decreases t, 1
  {
    if t.Directory? {
      EntryItemsExact(t.entries, at, i, |t.entries|);
      assert t.entries[..|t.entries|] == t.entries;
      if i.rel == at {
        OwnItem(t, at, i);
      }
    } else {
      LeafItem(t, at, i);
    }
  }

  lemma {:induction false} EntryItemsExact(es: seq<Entry>, at: Path, i: Item, n: nat)
    requires OrderedEntries(es, None) && n <= |es|
    ensures i in EntryItems(es[..n], at) <==> i.rel != at && Describes(Directory(es[..n]), at, i)
    decreases es, 0, n
  {
    if n == 0 {
      assert es[..0] == [];
      EmptyDirectory(at, i);
    } else {
      var init, e := es[..n - 1], es[n - 1];
      NewName(es, None, n - 1);
      EntryItemsExact(es, at, i, n - 1);
      ItemsExact(e.node, at + [Comp(e.name)], i);
      EntryItemsLast(es, n, at);
      DescribesAdded(init, e, at, i);
    }
  }

  lemma EmptyDirectory(at: Path, i: Item)
    ensures i.rel == at || !Describes(Directory([]), at, i)
  {
    if at <= i.rel {
      var r := i.rel[|at|..];
      assert i.rel == at + r;
      if r != [] {
        LookupMissing([], r[0].name, r);
        assert r[0] == Comp(r[0].name);
      }
    }
  }

  lemma EntryItemsLast(es: seq<Entry>, n: nat, at: Path)
    requires 0 < n <= |es|
    ensures es[..n] == es[..n - 1] + [es[n - 1]]
    ensures EntryItems(es[..n], at) == EntryItems(es[..n - 1], at) + Items(es[n - 1].node, at + [Comp(es[n - 1].name)])
  {
  }

  lemma DescribesAdded(init: seq<Entry>, e: Entry, at: Path, i: Item)
    requires e.name !in Names(init)
    ensures i.rel != at && Describes(Directory(init + [e]), at, i)
            <==> (i.rel != at && Describes(Directory(init), at, i)) || Describes(e.node, at + [Comp(e.name)], i)
  {
    PrefixChild(at, Comp(e.name), i.rel);
    if at <= i.rel {
      LookupAdded(init, e, i.rel[|at|..]);
      LookupMissing(init, e.name, i.rel[|at|..]);
    }
  }

  // ----- Once each -----

  lemma DistinctJoin<T>(a: seq<T>, b: seq<T>)
    requires Distinct(a) && Distinct(b) && forall x :: x in a ==> x !in b
    ensures Distinct(a + b)
  {
    forall i, j | 0 <= i < j < |a + b| ensures Differ(a + b, i, j) {
      if j < |a| {
        assert Differ(a, i, j);
      } else if i >= |a| {
        assert Differ(b, i - |a|, j - |a|);
      } else {
        assert a[i] in a && b[j - |a|] in b;
      }
    }
  }

  lemma {:induction false} ItemsDistinct(t: Node, at: Path)
    requires Ordered(t)
    ensures Distinct(Items(t, at))
    decreases t, 1
  {
    if t.Directory? {
      var es := t.entries;
      EntryItemsDistinct(es, at, |es|);
      assert es[..|es|] == es;
      forall i | i in EntryItems(es, at) ensures i.rel != at { EntryItemsExact(es, at, i, |es|); }
      DistinctJoin(if at == [] then [] else [ItemOf(at, t)], EntryItems(es, at));
    }
  }

  lemma {:induction false} EntryItemsDistinct(es: seq<Entry>, at: Path, n: nat)
    requires OrderedEntries(es, None) && n <= |es|
    ensures Distinct(EntryItems(es[..n], at))
    decreases es, 0, n
  {
    if n > 0 {
      var init, e := es[..n - 1], es[n - 1];
      var here := at + [Comp(e.name)];
      NewName(es, None, n - 1);
      EntryItemsDistinct(es, at, n - 1);
      ItemsDistinct(e.node, here);
      EntryItemsLast(es, n, at);
      forall i | i in EntryItems(init, at) ensures i !in Items(e.node, here) {
        EntryItemsExact(es, at, i, n - 1);
        ItemsExact(e.node, here, i);
        PrefixChild(at, Comp(e.name), i.rel);
        LookupMissing(init, e.name, i.rel[|at|..]);
      }
      DistinctJoin(EntryItems(init, at), Items(e.node, here));
    }
  }

  // ----- Parents first -----

  predicate IsDirAt(i: Item, rel: Path) {
    i.rel == rel && i.kind == DirEntry
  }

  /** The directory that holds item `k` is recorded earlier, unless it is at or above `top`. */
  ghost predicate ParentEarlier(items: seq<Item>, k: nat, top: nat)
    requires k < |items|
  {
    var rel := items[k].rel;
    |rel| > top + 1 ==> exists j :: 0 <= j < k && IsDirAt(items[j], rel[..|rel| - 1])
  }

  ghost predicate ParentsFirst(items: seq<Item>, top: nat) {
    forall k :: 0 <= k < |items| ==> ParentEarlier(items, k, top)
  }

  lemma ParentsJoin(a: seq<Item>, b: seq<Item>, top: nat)
    requires ParentsFirst(a, top) && ParentsFirst(b, top)
    ensures ParentsFirst(a + b, top)
  {
    forall k | 0 <= k < |a + b| ensures ParentEarlier(a + b, k, top) {
      var rel := (a + b)[k].rel;
      if |rel| > top + 1 {
        if k < |a| {
          assert ParentEarlier(a, k, top);
          var j :| 0 <= j < k && IsDirAt(a[j], rel[..|rel| - 1]);
          assert IsDirAt((a + b)[j], rel[..|rel| - 1]);
        } else {
          assert ParentEarlier(b, k - |a|, top);
          var j :| 0 <= j < k - |a| && IsDirAt(b[j], rel[..|rel| - 1]);
          assert IsDirAt((a + b)[j + |a|], rel[..|rel| - 1]);
        }
      }
    }
  }

  /** A directory's own item serves the entries directly in it. */
  lemma ParentsUnder(head: Item, items: seq<Item>)
    requires head.rel != [] && head.kind == DirEntry && ParentsFirst(items, |head.rel|)
    requires forall i :: i in items ==> head.rel <= i.rel
    ensures ParentsFirst([head] + items, |head.rel| - 1)
  {
    var all, top := [head] + items, |head.rel| - 1;
    forall k | 0 <= k < |all| ensures ParentEarlier(all, k, top) {
      var rel := all[k].rel;
      if |rel| > |head.rel| {
        assert all[k] == items[k - 1] && items[k - 1] in items;
        if |rel| == |head.rel| + 1 {
          assert IsDirAt(all[0], rel[..|rel| - 1]);
        } else {
          assert ParentEarlier(items, k - 1, |head.rel|);
          var j :| 0 <= j < k - 1 && IsDirAt(items[j], rel[..|rel| - 1]);
          assert IsDirAt(all[j + 1], rel[..|rel| - 1]);
        }
      }
    }
  }

  lemma {:induction false} ItemsParents(t: Node, at: Path)
    requires Ordered(t)
    ensures ParentsFirst(Items(t, at), if at == [] then 0 else |at| - 1)
    decreases t, 1
  {
    if t.Directory? {
      var es := t.entries;
      EntryItemsParents(es, at, |es|);
      assert es[..|es|] == es;
      if at == [] {
        assert Items(t, at) == EntryItems(es, at);
      } else {
        forall i | i in EntryItems(es, at) ensures at <= i.rel { EntryItemsExact(es, at, i, |es|); }
        ParentsUnder(ItemOf(at, t), EntryItems(es, at));
      }
    }
  }

  lemma {:induction false} EntryItemsParents(es: seq<Entry>, at: Path, n: nat)
    requires OrderedEntries(es, None) && n <= |es|
    ensures ParentsFirst(EntryItems(es[..n], at), |at|)
    decreases es, 0, n
  {
    if n > 0 {
      NewName(es, None, n - 1);
      EntryItemsParents(es, at, n - 1);
      ItemsParents(es[n - 1].node, at + [Comp(es[n - 1].name)]);
      EntryItemsLast(es, n, at);
      ParentsJoin(EntryItems(es[..n - 1], at), Items(es[n - 1].node, at + [Comp(es[n - 1].name)]), |at|);
    }
  }

  // ----- In the order of paths -----

  /** Paths compared component by component; what lies in a directory comes after it. */
  predicate PathBelow(p: Path, q: Path) {
    if q == [] then false
    else if p == [] then true
    else if p[0] != q[0] then Below(p[0].name, q[0].name)
    else PathBelow(p[1..], q[1..])
  }

  predicate AscendingPaths(items: seq<Item>) {
    forall i, j {:trigger items[i], items[j]} :: 0 <= i < j < |items| ==> PathBelow(items[i].rel, items[j].rel)
  }

  lemma {:induction false} BelowInside(at: Path, p: Path, q: Path)
    ensures PathBelow(at + p, at + q) <==> PathBelow(p, q)
  {
    if at == [] {
      assert at + p == p && at + q == q;
    } else {
      assert (at + p)[1..] == at[1..] + p && (at + q)[1..] == at[1..] + q;
      BelowInside(at[1..], p, q);
    }
  }

  lemma BelowBranch(at: Path, a: Comp, b: Comp, p: Path, q: Path)
    requires Below(a.name, b.name) && at + [a] <= p && at + [b] <= q
    ensures PathBelow(p, q)
  {
    var x, y := p[|at|..], q[|at|..];
    assert p == at + x && q == at + y;
    BelowInside(at, x, y);
    BelowIrreflexive(a.name);
    assert x[0] == (at + [a])[|at|] == a && y[0] == (at + [b])[|at|] == b;
  }

  lemma BelowItsDirectory(at: Path, p: Path)
    requires at <= p && at != p
    ensures PathBelow(at, p)
  {
    assert at == at + [] && p == at + p[|at|..];
    BelowInside(at, [], p[|at|..]);
  }

  lemma {:induction false} EntryNamesBelow(es: seq<Entry>, prev: Option<Text>, i: nat, j: nat)
    requires OrderedEntries(es, prev) && i < j < |es|
    ensures Below(es[i].name, es[j].name)
    decreases |es|
  {
    if i == 0 {
      assert es[1..][j - 1] in es[1..];
      NamesFollow(es[1..], es[0].name, es[j].name);
    } else {
      EntryNamesBelow(es[1..], Some(es[0].name), i - 1, j - 1);
    }
  }

  /** Items of one of the first entries. */
  lemma {:induction false} ItemOfEntry(es: seq<Entry>, at: Path, n: nat, i: Item)
    requires OrderedEntries(es, None) && n <= |es| && i in EntryItems(es[..n], at)
    ensures exists k :: 0 <= k < n && at + [Comp(es[k].name)] <= i.rel
    decreases n
  {
    EntryItemsLast(es, n, at);
    if i in EntryItems(es[..n - 1], at) {
      ItemOfEntry(es, at, n - 1, i);
    } else {
      OrderedAt(es, None, n - 1);
      ItemsExact(es[n - 1].node, at + [Comp(es[n - 1].name)], i);
    }
  }

  lemma {:induction false} OrderedAt(es: seq<Entry>, prev: Option<Text>, k: nat)
    requires OrderedEntries(es, prev) && k < |es|
    ensures Ordered(es[k].node)
    decreases |es|
  {
    if k > 0 { OrderedAt(es[1..], Some(es[0].name), k - 1); }
  }

  /** The items are recorded in the order of their paths. */
  lemma {:induction false} ItemsAscend(t: Node, at: Path)
    requires Ordered(t)
    ensures AscendingPaths(Items(t, at))
    decreases t, 1
  {
    if t.Directory? {
      var es := t.entries;
      EntryItemsAscend(es, at, |es|);
      assert es[..|es|] == es;
      forall i | i in EntryItems(es, at) ensures PathBelow(at, i.rel) {
        EntryItemsExact(es, at, i, |es|);
        BelowItsDirectory(at, i.rel);
      }
    }
  }

  lemma {:induction false} EntryItemsAscend(es: seq<Entry>, at: Path, n: nat)
    requires OrderedEntries(es, None) && n <= |es|
    ensures AscendingPaths(EntryItems(es[..n], at))
    decreases es, 0, n
  {
    if n > 0 {
      var init, last := EntryItems(es[..n - 1], at), Items(es[n - 1].node, at + [Comp(es[n - 1].name)]);
      EntryItemsAscend(es, at, n - 1);
      OrderedAt(es, None, n - 1);
      ItemsAscend(es[n - 1].node, at + [Comp(es[n - 1].name)]);
      EntryItemsLast(es, n, at);
      forall i, j | i in init && j in last ensures PathBelow(i.rel, j.rel) {
        ItemOfEntry(es, at, n - 1, i);
        var k :| 0 <= k < n - 1 && at + [Comp(es[k].name)] <= i.rel;
        EntryNamesBelow(es, None, k, n - 1);
        ItemsExact(es[n - 1].node, at + [Comp(es[n - 1].name)], j);
        BelowBranch(at, Comp(es[k].name), Comp(es[n - 1].name), i.rel, j.rel);
      }
      AscendingJoin(init, last);
    }
  }

  lemma AscendingJoin(a: seq<Item>, b: seq<Item>)
    requires AscendingPaths(a) && AscendingPaths(b)
    requires forall i, j :: i in a && j in b ==> PathBelow(i.rel, j.rel)
    ensures AscendingPaths(a + b)
  {
    var s := a + b;
    forall i, j | 0 <= i < j < |s| ensures PathBelow(s[i].rel, s[j].rel) {
      if j < |a| {
        assert s[i] == a[i] && s[j] == a[j];
      } else if i >= |a| {
        assert s[i] == b[i - |a|] && s[j] == b[j - |a|];
      } else {
        assert s[i] in a && s[j] in b;
      }
    }
  }

  // ----- Paths as text -----

  predicate CleanName(n: Text) {
    n != [] && forall i :: 0 <= i < |n| ==> n[i] != SLASH
  }

  predicate CleanPath(p: Path) {
    forall i :: 0 <= i < |p| ==> CleanName(p[i].name)
  }

  /** Split at slashes. */
  function Split(s: Text, current: Text): (p: Path)
    ensures p != []
    decreases |s|
  {
    if s == [] then [Comp(current)]
    else if s[0] == SLASH then [Comp(current)] + Split(s[1..], [])
    else Split(s[1..], current + [s[0]])
  }

  lemma {:induction false} SplitName(n: Text, rest: Text, current: Text)
    requires forall i :: 0 <= i < |n| ==> n[i] != SLASH
    ensures Split(n + rest, current) == Split(rest, current + n)
    decreases |n|
  {
    if n == [] {
      assert n + rest == rest && current + n == current;
    } else {
      SplitName(n[1..], rest, current + [n[0]]);
      ConsJoin(n, rest);
      assert (n + rest)[1..] == n[1..] + rest;
      assert current + [n[0]] + n[1..] == current + n;
    }
  }

  lemma {:induction false} SplitJoinMore(p: Path, rest: Text)
    requires p != [] && CleanPath(p)
    ensures Split(Join(p) + [SLASH] + rest, []) == p + Split(rest, [])
    decreases |p|
  {
    var init, last := p[..|p| - 1], p[|p| - 1].name;
    var tail := [SLASH] + rest;
    SplitName(last, tail, []);
    assert [] + last == last;
    assert tail[0] == SLASH && tail[1..] == rest;
    assert Split(last + tail, []) == [Comp(last)] + Split(rest, []);
    assert p == init + [Comp(last)];
    if |p| == 1 {
      assert Join(p) + [SLASH] + rest == last + tail;
      assert p == [Comp(last)];
    } else {
      SplitJoinMore(init, last + tail);
      assert Join(p) + [SLASH] + rest == Join(init) + [SLASH] + (last + tail);
      assert init + ([Comp(last)] + Split(rest, [])) == p + Split(rest, []);
    }
  }

  /** The text of a clean path determines its components. */
  lemma SplitJoin(p: Path)
    requires p != [] && CleanPath(p)
    ensures Split(Join(p), []) == p
  {
    var init, last := p[..|p| - 1], p[|p| - 1].name;
    SplitName(last, [], []);
    assert last + [] == last && [] + last == last;
    assert Split(last, []) == [Comp(last)];
    assert p == init + [Comp(last)];
    if |p| > 1 {
      SplitJoinMore(init, last);
    }
  }

  lemma JoinInjective(p: Path, q: Path)
    requires CleanPath(p) && CleanPath(q) && Join(p) == Join(q)
    ensures p == q
  {
    if p != [] {
      SplitJoin(p);
      SplitJoin(q);
    }
  }

  lemma {:induction false} FoundIsClean(t: Node, r: Path)
    requires Ordered(t) && Extractable(t) && Lookup(t, r).Some?
    ensures CleanPath(r)
    decreases |r|
  {
    if r != [] {
      var es, n := t.entries, r[0].name;
      var node := Find(es, n).value;
      var i :| 0 <= i < |es| && es[i].node == node && es[i].name == n;
      NewName(es, None, i);
      assert AcceptedEntry(es[i]);
      FoundIsClean(node, r[1..]);
      assert r == [r[0]] + r[1..];
    }
  }

  lemma RecordedIsClean(t: Node, i: Item)
    requires Ordered(t) && Extractable(t) && i in Items(t, [])
    ensures CleanPath(i.rel)
  {
    ItemsExact(t, [], i);
    assert i.rel[0..] == i.rel;
    FoundIsClean(t, i.rel);
  }

  lemma RecordDetermines(a: Node, b: Node, i: Item, j: Item)
    requires Ordered(a) && Extractable(a) && i in Items(a, [])
    requires Ordered(b) && Extractable(b) && j in Items(b, [])
    requires Record(i) == Record(j)
    ensures i == j
  {
    RecordedIsClean(a, i);
    RecordedIsClean(b, j);
    JoinInjective(i.rel, j.rel);
  }

  // ----- What the manifest determines -----

  predicate PathDiffer(m: seq<ManifestEntry>, i: nat, j: nat)
    requires i < j < |m|
  {
    m[i].path != m[j].path
  }

  /** No path is listed twice. */
  lemma PathsDistinct(t: Node, i: nat, j: nat)
    requires Ordered(t) && Extractable(t) && i < j < |Records(Items(t, []))|
    ensures PathDiffer(Records(Items(t, [])), i, j)
  {
    var items := Items(t, []);
    ItemsDistinct(t, []);
    assert Differ(items, i, j);
    assert items[i] in items && items[j] in items;
    if Join(items[i].rel) == Join(items[j].rel) {
      RecordedIsClean(t, items[i]);
      RecordedIsClean(t, items[j]);
      JoinInjective(items[i].rel, items[j].rel);
      ItemsExact(t, [], items[i]);
      ItemsExact(t, [], items[j]);
      assert false;
    }
  }

  /** A component that leads into a directory and nowhere else. */
  predicate StaysInside(c: Comp) {
    CleanName(c.name) && c.name != Ascii(".") && c.name != Ascii("..")
  }

  /** Every path of the tree stays inside and is UTF-8, and so is what lies there when it is a link. */
  ghost predicate AllAcceptable(t: Node) {
    forall r :: Lookup(t, r).Some? ==> AcceptableAt(t, r)
  }

  predicate AcceptableAt(t: Node, r: Path)
    requires Lookup(t, r).Some?
  {
    && (forall i :: 0 <= i < |r| ==> StaysInside(r[i]) && IsUtf8(r[i].name))
    && (Lookup(t, r).value.Link? ==> IsUtf8(Lookup(t, r).value.target))
  }

  lemma {:induction false} AcceptedAt(t: Node, r: Path)
    requires Ordered(t) && Extractable(t) && Lookup(t, r).Some?
    ensures AcceptableAt(t, r)
    decreases |r|
  {
    if r != [] {
      var es, n := t.entries, r[0].name;
      var node := Find(es, n).value;
      var i :| 0 <= i < |es| && es[i].node == node && es[i].name == n;
      NewName(es, None, i);
      assert AcceptedEntry(es[i]);
      AcceptedAt(node, r[1..]);
      assert r == [r[0]] + r[1..];
    }
  }

  lemma {:induction false} AcceptableIsExtractable(t: Node)
    requires Ordered(t) && AllAcceptable(t)
    ensures Extractable(t)
    decreases t
  {
    match t
    case File(_, _) =>
    case Symlink(_) =>
      assert Lookup(t, []).Some?;
      assert AcceptableAt(t, []);
    case Directory(es) =>
      forall i | 0 <= i < |es| ensures AcceptedEntry(es[i]) {
        EntryAcceptable(es, i);
        OrderedAt(es, None, i);
        AcceptableIsExtractable(es[i].node);
      }
  }

  lemma {:induction false} EntryAcceptable(es: seq<Entry>, i: nat)
    requires OrderedEntries(es, None) && i < |es| && AllAcceptable(Directory(es))
    ensures AcceptedName(es[i].name) && AllAcceptable(es[i].node)
  {
    var t, n, node := Directory(es), es[i].name, es[i].node;
    FoundEntry(es, None, i);
    forall r: Path | Lookup(node, r).Some? ensures AcceptableAt(node, r) {
      LookupStep(es, n, r);
      var deep := [Comp(n)] + r;
      assert AcceptableAt(t, deep);
      forall j | 0 <= j < |r| ensures StaysInside(r[j]) && IsUtf8(r[j].name) {
        assert deep[j + 1] == r[j];
      }
    }
    var one: Path := [Comp(n)];
    LookupStep(es, n, []);
    assert one + [] == one;
    assert AcceptableAt(t, one);
    assert StaysInside(one[0]) && IsUtf8(one[0].name);
  }

  lemma {:induction false} FoundEntry(es: seq<Entry>, prev: Option<Text>, i: nat)
    requires OrderedEntries(es, prev) && i < |es|
    ensures Find(es, es[i].name) == Some(es[i].node)
    decreases |es|
  {
    FindFirst(es, es[i].name);
    if i > 0 {
      EntryNamesBelow(es, prev, 0, i);
      BelowIrreflexive(es[0].name);
      FoundEntry(es[1..], Some(es[0].name), i - 1);
    }
  }

  /** A tree is extracted exactly when all its paths stay below the destination and are UTF-8 and all
      its links have UTF-8 targets. */
  lemma ExtractableMeans(t: Node)
    requires Ordered(t)
    ensures Extractable(t) <==> AllAcceptable(t)
  {
    if Extractable(t) {
      forall r | Lookup(t, r).Some? ensures AcceptableAt(t, r) { AcceptedAt(t, r); }
    }
    if AllAcceptable(t) {
      AcceptableIsExtractable(t);
    }
  }

  /** The tree with file contents blanked and link targets dropped. */
  function Shape(t: Node): Node
    decreases t, 1
  {
    match t
    case File(x, contents) => File(x, Zeros(|contents|))
    case Symlink(_) => Symlink([])
    case Directory(es) => Directory(ShapeEntries(es))
  }

  function ShapeEntries(es: seq<Entry>): seq<Entry>
    decreases es, 0
  {
    if es == [] then [] else [Entry(es[0].name, Shape(es[0].node))] + ShapeEntries(es[1..])
  }

  function ShapeObject(n: FsNode): FsNode {
    match n
    case Dir => Dir
    case Reg(mode, contents) => Reg(mode, Zeros(|contents|))
    case Link(_) => Link([])
  }

  lemma {:induction false} ShapeOrdered(t: Node)
    requires Ordered(t)
    ensures Ordered(Shape(t))
    decreases t, 1
  {
    if t.Directory? { ShapeEntriesOrdered(t.entries, None); }
  }

  lemma {:induction false} ShapeEntriesOrdered(es: seq<Entry>, prev: Option<Text>)
    requires OrderedEntries(es, prev)
    ensures OrderedEntries(ShapeEntries(es), prev)
    decreases es, 0
  {
    if es != [] {
      ShapeOrdered(es[0].node);
      ShapeEntriesOrdered(es[1..], Some(es[0].name));
      assert ShapeEntries(es)[1..] == ShapeEntries(es[1..]);
    }
  }

  lemma {:induction false} FindShape(es: seq<Entry>, n: Text)
    ensures Find(ShapeEntries(es), n) == if Find(es, n).Some? then Some(Shape(Find(es, n).value)) else None
    decreases |es|
  {
    if es != [] {
      FindShape(es[1..], n);
      FindFirst(es, n);
      FindFirst(ShapeEntries(es), n);
      assert ShapeEntries(es)[1..] == ShapeEntries(es[1..]);
    }
  }

  lemma {:induction false} LookupShape(t: Node, r: Path)
    ensures Lookup(Shape(t), r) == if Lookup(t, r).Some? then Some(ShapeObject(Lookup(t, r).value)) else None
    decreases |r|
  {
    if r != [] && t.Directory? {
      FindShape(t.entries, r[0].name);
      var child := Find(t.entries, r[0].name);
      if child.Some? { LookupShape(child.value, r[1..]); }
    }
  }

  lemma {:induction false} LookupModes(t: Node, r: Path)
    ensures Lookup(t, r).Some? && Lookup(t, r).value.Reg?
            ==> Lookup(t, r).value.mode == ModeOf(true) || Lookup(t, r).value.mode == ModeOf(false)
    decreases |r|
  {
    if r != [] && t.Directory? {
      var child := Find(t.entries, r[0].name);
      if child.Some? { LookupModes(child.value, r[1..]); }
    }
  }

  /** The item that describes what lies at a path, if it is recorded. */
  lemma RecordedAt(t: Node, r: Path)
    requires Ordered(t) && Lookup(t, r).Some? && !(t.Directory? && r == [])
    ensures Describe(r, Lookup(t, r).value) in Items(t, [])
  {
    ItemsExact(t, [], Describe(r, Lookup(t, r).value));
    assert r[0..] == r;
  }

  lemma SameItemsFound(a: Node, b: Node, r: Path)
    requires Ordered(a) && Ordered(b) && Items(a, []) == Items(b, [])
    requires Lookup(a, r).Some? && !(a.Directory? && r == [])
    ensures Lookup(b, r).Some? && Describe(r, Lookup(b, r).value) == Describe(r, Lookup(a, r).value)
    ensures !(b.Directory? && r == [])
  {
    RecordedAt(a, r);
    ItemsExact(b, [], Describe(r, Lookup(a, r).value));
    assert r[0..] == r;
  }

  lemma SameItemsAt(a: Node, b: Node, r: Path)
    requires Ordered(a) && Ordered(b) && Items(a, []) == Items(b, [])
    ensures Lookup(Shape(a), r) == Lookup(Shape(b), r)
  {
    LookupShape(a, r);
    LookupShape(b, r);
    LookupModes(a, r);
    LookupModes(b, r);
    if Lookup(a, r).Some? && !(a.Directory? && r == []) {
      SameItemsFound(a, b, r);
    } else if Lookup(b, r).Some? && !(b.Directory? && r == []) {
      SameItemsFound(b, a, r);
    }
  }

  lemma {:induction false} ItemsOfShape(t: Node, at: Path)
    ensures Items(Shape(t), at) == Items(t, at)
    decreases t, 1
  {
    if t.Directory? {
      var es := t.entries;
      ShapeLength(es);
      EntryItemsOfShape(es, at, |es|);
      assert es[..|es|] == es && ShapeEntries(es)[..|es|] == ShapeEntries(es);
    }
  }

  lemma {:induction false} ShapeLength(es: seq<Entry>)
    ensures |ShapeEntries(es)| == |es|
    ensures forall i :: 0 <= i < |es| ==> ShapeEntries(es)[i] == Entry(es[i].name, Shape(es[i].node))
  {
    if es != [] { ShapeLength(es[1..]); }
  }

  lemma {:induction false} EntryItemsOfShape(es: seq<Entry>, at: Path, n: nat)
    requires n <= |es| && |ShapeEntries(es)| == |es|
    ensures EntryItems(ShapeEntries(es)[..n], at) == EntryItems(es[..n], at)
    decreases es, 0, n
  {
    if n > 0 {
      EntryItemsOfShape(es, at, n - 1);
      ShapeLength(es);
      ItemsOfShape(es[n - 1].node, at + [Comp(es[n - 1].name)]);
      EntryItemsLast(es, n, at);
      EntryItemsLast(ShapeEntries(es), n, at);
    }
  }

  lemma {:induction false} SameRecordsSameItems(a: Node, b: Node)
    requires Ordered(a) && Extractable(a) && Ordered(b) && Extractable(b)
    requires Records(Items(a, [])) == Records(Items(b, []))
    ensures Items(a, []) == Items(b, [])
  {
    var xs, ys := Items(a, []), Items(b, []);
    assert |xs| == |Records(xs)| == |Records(ys)| == |ys|;
    forall k | 0 <= k < |xs| ensures xs[k] == ys[k] {
      assert Records(xs)[k] == Record(xs[k]) && Records(ys)[k] == Record(ys[k]);
      assert xs[k] in xs && ys[k] in ys;
      RecordDetermines(a, b, xs[k], ys[k]);
    }
  }

  /** Two trees have the same manifest exactly when they have the same names, kinds, sizes and executable bits. */
  lemma ManifestDetermines(a: Node, b: Node)
    requires Ordered(a) && Extractable(a) && Ordered(b) && Extractable(b)
    ensures Records(Items(a, [])) == Records(Items(b, [])) <==> Shape(a) == Shape(b)
  {
    ItemsOfShape(a, []);
    ItemsOfShape(b, []);
    if Records(Items(a, [])) == Records(Items(b, [])) {
      SameRecordsSameItems(a, b);
      forall r ensures Lookup(Shape(a), r) == Lookup(Shape(b), r) { SameItemsAt(a, b, r); }
      ShapeOrdered(a);
      ShapeOrdered(b);
      LookupDetermines(Shape(a), Shape(b));
    }
  }
}
