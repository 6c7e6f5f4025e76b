/** Trees seen through paths. */
module NarTree {
  // What lies at each relative path of a node. Extraction, serialising an extracted path again, the
  // manifest and the source writer are all stated by what is found at every path, so that they can be
  // compared although they walk their trees in different ways. An ordered tree is determined by what
  // lies at its paths.

  import opened Results
  import opened Bytes
  import Listings
  import opened Nar
  import opened NarWriter

  /** One component of a path. */
  datatype Comp = Comp(name: Text)

  type Path = seq<Comp>

  /** One filesystem object; directories hold their children only through paths. */
  datatype FsNode = Dir | Reg(mode: nat, contents: seq<byte>) | Link(target: Text)

  /** Modes 0o555 and 0o444. */
  function ModeOf(executable: bool): nat {
    if executable then 0x16D else 0x124
  }

  function Own(t: Node): FsNode {
    match t
    case File(x, contents) => Reg(ModeOf(x), contents)
    case Symlink(target) => Link(target)
    case Directory(_) => Dir
  }

  /** What lies at a relative path below a node. */
  function Lookup(t: Node, rel: Path): Option<FsNode>
    decreases |rel|
  {
    if rel == [] then Some(Own(t))
    else if t.Directory? then LookupIn(t.entries, rel)
    else None
  }

  function LookupIn(es: seq<Entry>, rel: Path): Option<FsNode>
    requires rel != []
    decreases |rel|, 0
  {
    var child := Find(es, rel[0].name);
    if child.None? then None else Lookup(child.value, rel[1..])
  }

  lemma LookupStep(es: seq<Entry>, n: Text, r: Path)
    ensures Lookup(Directory(es), [Comp(n)] + r) == if Find(es, n).None? then None else Lookup(Find(es, n).value, r)
  {
  }

  /** Entry names are not empty and strictly ascend, at every level: what an archive reader hands over. */
  predicate Ordered(t: Node)
    decreases t, 1
  {
    t.Directory? ==> OrderedEntries(t.entries, None)
  }

  predicate OrderedEntries(es: seq<Entry>, prev: Option<Text>)
    decreases es, 0
  {
    es == [] ||
    (&& es[0].name != [] && Follows(prev, es[0].name) && Ordered(es[0].node)
     && OrderedEntries(es[1..], Some(es[0].name)))
  }

  lemma {:induction false} CanonicalIsOrdered(t: Node)
    requires Canonical(t)
    ensures Ordered(t)
    decreases t, 1
  {
    if t.Directory? { CanonicalEntriesOrdered(t.entries, None); }
  }

  lemma {:induction false} CanonicalEntriesOrdered(es: seq<Entry>, prev: Option<Text>)
    requires CanonicalEntries(es, prev)
    ensures OrderedEntries(es, prev)
    decreases es, 0
  {
    if es != [] {
      CanonicalIsOrdered(es[0].node);
      CanonicalEntriesOrdered(es[1..], Some(es[0].name));
    }
  }

  lemma {:induction false} NamesFollow(es: seq<Entry>, prev: Text, n: Text)
    requires OrderedEntries(es, Some(prev)) && n in Names(es)
    ensures Below(prev, n)
    decreases |es|
  {
    var e := es[0];
    if n != e.name {
      assert es == [e] + es[1..];
      assert n in Names(es[1..]);
      NamesFollow(es[1..], e.name, n);
      BelowTransitive(prev, e.name, n);
    }
  }

  /** In an ordered directory no later entry repeats the first name. */
  lemma FirstIsAlone(es: seq<Entry>, prev: Option<Text>)
    requires es != [] && OrderedEntries(es, prev)
    ensures es[0].name !in Names(es[1..])
  {
    if es[0].name in Names(es[1..]) {
      NamesFollow(es[1..], es[0].name, es[0].name);
      BelowIrreflexive(es[0].name);
    }
  }

  lemma FindFirst(es: seq<Entry>, n: Text)
    requires es != []
    ensures Find(es, n) == if es[0].name == n then Some(es[0].node) else Find(es[1..], n)
    ensures Names(es) == {es[0].name} + Names(es[1..])
  {
  }

  // ----- Paths determine trees -----

  ghost predicate SameBelow(a: Node, b: Node) {
    forall r :: Lookup(a, r) == Lookup(b, r)
  }

  lemma SameNames(xs: seq<Entry>, ys: seq<Entry>)
    requires forall r: Path :: r != [] ==> LookupIn(xs, r) == LookupIn(ys, r)
    ensures Names(xs) == Names(ys)
  {
    forall n ensures n in Names(xs) <==> n in Names(ys) {
      assert LookupIn(xs, [Comp(n)]) == LookupIn(ys, [Comp(n)]);
      assert [Comp(n)][1..] == [];
    }
  }

  lemma FirstNames(xs: seq<Entry>, ys: seq<Entry>, prev: Option<Text>)
    requires xs != [] && ys != [] && OrderedEntries(xs, prev) && OrderedEntries(ys, prev) && Names(xs) == Names(ys)
    ensures xs[0].name == ys[0].name
  {
    FindFirst(xs, xs[0].name);
    FindFirst(ys, ys[0].name);
    if xs[0].name != ys[0].name {
      NamesFollow(ys[1..], ys[0].name, xs[0].name);
      NamesFollow(xs[1..], xs[0].name, ys[0].name);
      BelowTransitive(xs[0].name, ys[0].name, xs[0].name);
      BelowIrreflexive(xs[0].name);
    }
  }

  /** Ordered trees with the same objects at the same paths are equal. */
  lemma {:induction false} LookupDetermines(a: Node, b: Node)
    requires Ordered(a) && Ordered(b) && SameBelow(a, b)
    ensures a == b
    decreases a, 1
  {
    assert Lookup(a, []) == Lookup(b, []);
    match a
    case File(x, contents) => 
    case Symlink(_) =>
    case Directory(es) =>
      forall r: Path | r != [] ensures LookupIn(es, r) == LookupIn(b.entries, r) {
        assert Lookup(a, r) == Lookup(b, r);
      }
      EntriesDetermine(es, b.entries, None);
  }

  lemma {:induction false} EntriesDetermine(xs: seq<Entry>, ys: seq<Entry>, prev: Option<Text>)
    requires OrderedEntries(xs, prev) && OrderedEntries(ys, prev)
    requires forall r: Path :: r != [] ==> LookupIn(xs, r) == LookupIn(ys, r)
    ensures xs == ys
    decreases xs, 0
  {
    SameNames(xs, ys);
    if xs == [] || ys == [] {
      NoNames(xs);
      NoNames(ys);
    } else {
      FirstNames(xs, ys, prev);
      var n := xs[0].name;
      FirstIsAlone(xs, prev);
      FirstIsAlone(ys, prev);
      forall r ensures Lookup(xs[0].node, r) == Lookup(ys[0].node, r) {
        assert LookupIn(xs, [Comp(n)] + r) == LookupIn(ys, [Comp(n)] + r);
        assert ([Comp(n)] + r)[1..] == r;
      }
      LookupDetermines(xs[0].node, ys[0].node);
      forall r: Path | r != [] ensures LookupIn(xs[1..], r) == LookupIn(ys[1..], r) {
        assert LookupIn(xs, r) == LookupIn(ys, r);
        FindFirst(xs, r[0].name);
        FindFirst(ys, r[0].name);
      }
      EntriesDetermine(xs[1..], ys[1..], Some(n));
      assert xs == [xs[0]] + xs[1..] && ys == [ys[0]] + ys[1..];
    }
  }

  lemma NoNames(es: seq<Entry>)
    ensures Names(es) == {} <==> es == []
  {
    if es != [] {
      assert es[0].name in Names(es);
    }
  }

  // ----- Sorting keeps every object -----

  lemma {:induction false} FindSorted(es: seq<Entry>, names: seq<Text>, n: Text)
    ensures Find(CanonEntries(es, names), n)
            == if n in names && Find(es, n).Some? then Some(Canon(Find(es, n).value)) else None
    decreases |names|
  {
    if names != [] {
      FindSorted(es, names[1..], n);
      assert names == [names[0]] + names[1..];
      var found, rest := Find(es, names[0]), CanonEntries(es, names[1..]);
      if found.Some? {
        var sorted := [Entry(names[0], Canon(found.value))] + rest;
        assert sorted[1..] == rest;
        FindFirst(sorted, n);
      } else {
        assert [] + rest == rest;
      }
    }
  }

  /** The sorted tree that is written has the same objects at the same paths, executable bits included. */
  lemma {:induction false} SortedShowsSame(t: Node, rel: Path)
    ensures Lookup(Canon(t), rel) == Lookup(t, rel)
    decreases |rel|
  {
    if rel != [] && t.Directory? {
      var es, n := t.entries, rel[0].name;
      var names := Sorted(Names(es));
      assert n in names <==> n in Listings.Elems(names);
      FindSorted(es, names, n);
      if Find(es, n).Some? {
        SortedShowsSame(Find(es, n).value, rel[1..]);
      }
    }
  }

  /** What is decoded from the archive of a well-named tree, listed in any order, has the same objects
      at the same paths as that tree. */
  lemma SerializedRecovers(t: Node, rel: Path)
    requires WellNamed(t) && Fit(Tokens(Canon(t)))
    ensures Decode(Archive(Canon(t))).Some? && Lookup(Decode(Archive(Canon(t))).value, rel) == Lookup(t, rel)
  {
    SerializedDecodes(t);
    SortedShowsSame(t, rel);
  }

  /** Extracted files can be read by everyone, written by no one and executed exactly when marked. */
  lemma ModeBits(x: bool)
    ensures ModeOf(x) < 512
    ensures forall shift :: shift in {1, 8, 64} ==>
              var bits := ModeOf(x) / shift % 8;
              bits / 4 == 1 && bits / 2 % 2 == 0 && bits % 2 == if x then 1 else 0
  {
  }
}
