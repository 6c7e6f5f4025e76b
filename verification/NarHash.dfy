/**
  Serialising an installed path again (`write_path_to_nar` and `nar_hash_path` in
  snix-redox/src/local_build.rs), and its agreement with extraction.
 */
module NarHash {
  import opened Results
  import opened Bytes
  import opened Listings
  import opened Nar
  import opened NarWriter
  import opened NarTree
  import opened NarExtract

  /** Is one of the three execute bits (0o111) set? */
  predicate IsExecutable(mode: nat) {
    mode % 2 == 1 || mode / 8 % 2 == 1 || mode / 64 % 2 == 1
  }

  function Under(fs: Fs, path: Path): set<Path> {
    set q | q in fs && path <= q
  }

  function Children(fs: Fs, path: Path): set<Text> {
    set q: Path | q in fs && |q| == |path| + 1 && path <= q :: q[|path|].name
  }

  lemma ChildUnder(fs: Fs, path: Path, n: Text)
    requires path in fs && path + [Comp(n)] in fs
    ensures Under(fs, path + [Comp(n)]) < Under(fs, path)
  {
    assert path in Under(fs, path);
    forall q | q in Under(fs, path + [Comp(n)]) ensures q in Under(fs, path) && q != path {
      PrefixChild(path, Comp(n), q);
    }
  }

  lemma ChildrenPresent(fs: Fs, path: Path, n: Text)
    ensures n in Children(fs, path) <==> path + [Comp(n)] in fs
  {
    var c := path + [Comp(n)];
    if c in fs {
      assert c[|path|].name == n;
    }
    if n in Children(fs, path) {
      var q: Path :| q in fs && |q| == |path| + 1 && path <= q && q[|path|].name == n;
      assert q == q[..|path|] + [q[|path|]];
      assert q == c;
    }
  }

  /** The tree found at a path, directory entries sorted by name. */
  function ReadTree(fs: Fs, path: Path): Node
    requires path in fs
    decreases Under(fs, path), 1, 0
  {
    match fs[path]
    case Link(target) => Symlink(target)
    case Reg(mode, contents) => File(IsExecutable(mode), contents)
    case Dir => Directory(ReadEntries(fs, path, Sorted(Children(fs, path))))
  }

  function ReadEntries(fs: Fs, path: Path, names: seq<Text>): seq<Entry>
    requires path in fs
    decreases Under(fs, path), 0, |names|
  {
    if names == [] then []
    else
      var c := path + [Comp(names[0])];
      (if c in fs then ChildUnder(fs, path, names[0]); [Entry(names[0], ReadTree(fs, c))] else [])
      + ReadEntries(fs, path, names[1..])
  }

  /** Serialise what lies at a path. */
  method WritePathToNar(w: Writer, fs: Fs, path: Path)
    requires path in fs
    modifies w
    decreases Under(fs, path), 2, 0
    ensures Wrote(old(w.out), old(w.size), w.out, w.size, Tokens(ReadTree(fs, path)))
  {
    ReadKinds(fs, path);
    match fs[path]
    case Link(target) =>
      w.PutSymlink(target);
    case Reg(mode, contents) =>
      w.PutFile(IsExecutable(mode), contents);
    case Dir =>
      WriteDirectory(w, fs, path);
  }

  lemma ReadKinds(fs: Fs, path: Path)
    requires path in fs
    ensures fs[path].Link? ==> ReadTree(fs, path) == Symlink(fs[path].target)
    ensures fs[path].Reg? ==> ReadTree(fs, path) == File(IsExecutable(fs[path].mode), fs[path].contents)
    ensures fs[path].Dir? ==>
              Tokens(ReadTree(fs, path)) == DirectoryTokens(ReadEntries(fs, path, Sorted(Children(fs, path))))
  {
  }

  function DirectoryTokens(es: seq<Entry>): seq<Token> {
    [OPEN, TYPE, DIRECTORY] + EntriesTokens(es) + [CLOSE]
  }

  method WriteDirectory(w: Writer, fs: Fs, path: Path)
    requires path in fs
    modifies w
    decreases Under(fs, path), 1, 0
    ensures Wrote(old(w.out), old(w.size), w.out, w.size,
                  DirectoryTokens(ReadEntries(fs, path, Sorted(Children(fs, path)))))
  {
    var names := Sorted(Children(fs, path));
    ghost var open, entries := [OPEN, TYPE, DIRECTORY], EntriesTokens(ReadEntries(fs, path, names));
    WroteNothing(w.out, w.size);
    w.PutTokens([OPEN, TYPE, DIRECTORY], old(w.out), old(w.size), []);
    assert [] + open == open;
    WriteEntries(w, fs, path, names, old(w.out), old(w.size), open);
    w.PutTokens([CLOSE], old(w.out), old(w.size), open + entries);
  }

  /** The entries of a directory; `before` has been written since `out0`. */
  method WriteEntries(w: Writer, fs: Fs, path: Path, names: seq<Text>, ghost out0: seq<byte>, ghost size0: nat,
                      ghost before: seq<Token>)
    requires path in fs && Wrote(out0, size0, w.out, w.size, before)
    modifies w
    decreases Under(fs, path), 0, |names|
    ensures Wrote(out0, size0, w.out, w.size, before + EntriesTokens(ReadEntries(fs, path, names)))
  {
    if names == [] {
      assert before + [] == before;
      return;
    }
    var c := path + [Comp(names[0])];
    if c in fs {
      ghost var done := WriteEntry(w, fs, path, names[0], out0, size0, before);
      WriteEntries(w, fs, path, names[1..], out0, size0, done);
      ReadFirst(fs, path, names);
      JoinFour(before, [ENTRY, OPEN, NAME, Token(names[0]), NODE], Tokens(ReadTree(fs, c)), [CLOSE],
               EntriesTokens(ReadEntries(fs, path, names[1..])));
    } else {
      WriteEntries(w, fs, path, names[1..], out0, size0, before);
      assert ReadEntries(fs, path, names) == ReadEntries(fs, path, names[1..]);
    }
  }

  method WriteEntry(w: Writer, fs: Fs, path: Path, name: Text, ghost out0: seq<byte>, ghost size0: nat,
                    ghost before: seq<Token>)
    returns (ghost done: seq<Token>)
    requires path in fs && path + [Comp(name)] in fs && Wrote(out0, size0, w.out, w.size, before)
    modifies w
    decreases Under(fs, path), 0, 0
    ensures Wrote(out0, size0, w.out, w.size, done)
    ensures done
            == before + [ENTRY, OPEN, NAME, Token(name), NODE] + Tokens(ReadTree(fs, path + [Comp(name)])) + [CLOSE]
  {
    var c := path + [Comp(name)];
    ghost var head := before + [ENTRY, OPEN, NAME, Token(name), NODE];
    ChildUnder(fs, path, name);
    w.PutTokens([ENTRY, OPEN, NAME, Token(name), NODE], out0, size0, before);
    ghost var out1, size1 := w.out, w.size;
    WritePathToNar(w, fs, c);
    WroteMore(out0, size0, out1, size1, w.out, w.size, head, Tokens(ReadTree(fs, c)));
    w.PutTokens([CLOSE], out0, size0, head + Tokens(ReadTree(fs, c)));
    done := head + Tokens(ReadTree(fs, c)) + [CLOSE];
  }

  lemma ReadFirst(fs: Fs, path: Path, names: seq<Text>)
    requires path in fs && names != [] && path + [Comp(names[0])] in fs
    ensures EntriesTokens(ReadEntries(fs, path, names))
            == [ENTRY, OPEN, NAME, Token(names[0]), NODE] + Tokens(ReadTree(fs, path + [Comp(names[0])])) + [CLOSE]
               + EntriesTokens(ReadEntries(fs, path, names[1..]))
  {
  }

  // ----- Agreement with extraction -----

  function NameList(es: seq<Entry>): seq<Text> {
    if es == [] then [] else [es[0].name] + NameList(es[1..])
  }

  lemma {:induction false} NameListSorted(es: seq<Entry>, prev: Option<Text>)
    requires OrderedEntries(es, prev)
    ensures Ascending(NameList(es)) && Elems(NameList(es)) == Names(es)
    decreases |es|
  {
    if es != [] {
      var e, rest := es[0], NameList(es[1..]);
      NameListSorted(es[1..], Some(e.name));
      FindFirst(es, e.name);
      ElemsCons(NameList(es));
      assert NameList(es)[1..] == rest;
      forall i, j | 0 <= i < j < |NameList(es)| ensures Below(NameList(es)[i], NameList(es)[j]) {
        if i == 0 {
          assert rest[j - 1] in Elems(rest);
          NamesFollow(es[1..], e.name, rest[j - 1]);
        } else {
          assert Below(rest[i - 1], rest[j - 1]);
        }
      }
    }
  }

  ghost predicate Agree(fs: Fs, path: Path, t: Node, r: Path) {
    Get(fs, path + r) == Lookup(t, r)
  }

  /** The filesystem holds exactly the tree at and below the path. */
  ghost predicate Shows(fs: Fs, path: Path, t: Node) {
    forall r :: Agree(fs, path, t, r)
  }

  lemma ShowsChild(fs: Fs, path: Path, es: seq<Entry>, n: Text, node: Node)
    requires Shows(fs, path, Directory(es)) && Find(es, n) == Some(node)
    ensures Shows(fs, path + [Comp(n)], node) && path + [Comp(n)] in fs
  {
    forall r ensures Agree(fs, path + [Comp(n)], node, r) {
      assert Agree(fs, path, Directory(es), [Comp(n)] + r);
      assert path + ([Comp(n)] + r) == path + [Comp(n)] + r;
      LookupStep(es, n, r);
    }
    assert Agree(fs, path + [Comp(n)], node, []);
    assert path + [Comp(n)] + [] == path + [Comp(n)];
  }

  lemma ShowsNames(fs: Fs, path: Path, es: seq<Entry>)
    requires Shows(fs, path, Directory(es))
    ensures Children(fs, path) == Names(es)
  {
    forall n ensures n in Children(fs, path) <==> n in Names(es) {
      ChildrenPresent(fs, path, n);
      assert Agree(fs, path, Directory(es), [Comp(n)]);
      LookupStep(es, n, []);
      assert [Comp(n)] + [] == [Comp(n)];
    }
  }

  /** Reading gives back the tree that is there. */
  lemma {:induction false} ReadShown(fs: Fs, path: Path, t: Node)
    requires Ordered(t) && Shows(fs, path, t)
    ensures path in fs && ReadTree(fs, path) == t
    decreases t, 1
  {
    assert Agree(fs, path, t, []);
    assert path + [] == path;
    match t
    case File(x, contents) => 
    case Symlink(_) =>
    case Directory(es) =>
      ShowsNames(fs, path, es);
      NameListSorted(es, None);
      AscendingUnique(Sorted(Children(fs, path)), NameList(es));
      ReadShownEntries(fs, path, es, es, None);
  }

  /** The entries are found under their names in the whole list. */
  ghost predicate PartOf(es: seq<Entry>, all: seq<Entry>) {
    forall n :: n in Names(es) ==> Find(all, n) == Find(es, n)
  }

  lemma PartOfRest(es: seq<Entry>, all: seq<Entry>, prev: Option<Text>)
    requires es != [] && OrderedEntries(es, prev) && PartOf(es, all)
    ensures PartOf(es[1..], all) && Find(all, es[0].name) == Some(es[0].node)
  {
    FindFirst(es, es[0].name);
    FirstIsAlone(es, prev);
    forall n | n in Names(es[1..]) ensures Find(all, n) == Find(es[1..], n) {
      FindFirst(es, n);
    }
  }

  lemma {:induction false} ReadShownEntries(fs: Fs, path: Path, all: seq<Entry>, es: seq<Entry>, prev: Option<Text>)
    requires path in fs && Shows(fs, path, Directory(all)) && OrderedEntries(es, prev) && PartOf(es, all)
    ensures ReadEntries(fs, path, NameList(es)) == es
    decreases es, 0
  {
    if es != [] {
      var e := es[0];
      PartOfRest(es, all, prev);
      ShowsChild(fs, path, all, e.name, e.node);
      ReadShown(fs, path + [Comp(e.name)], e.node);
      ReadShownEntries(fs, path, all, es[1..], Some(e.name));
    }
  }

  /** Extracting an archive and serialising the result gives back the archive, executable bits included. */
  lemma ExtractedHashesBack(fs: Fs, fs': Fs, path: Path, t: Node)
    requires Ordered(t) && Extracted(fs, fs', path, t)
    ensures path in fs' && ReadTree(fs', path) == t && Archive(ReadTree(fs', path)) == Archive(t)
  {
    forall r ensures Agree(fs', path, t, r) {
      assert At(fs, fs', path, t, path + r);
      assert (path + r)[|path|..] == r;
    }
    ReadShown(fs', path, t);
  }

  /** The archive of an installed path, as it is hashed and measured. */
  method NarBytes(fs: Fs, path: Path) returns (buf: seq<byte>)
    requires path in fs
    ensures buf == Archive(ReadTree(fs, path))
  {
    var w := new Writer();
    WroteNothing(w.out, w.size);
    w.PutTokens([MAGIC], [], 0, []);
    ghost var out1, size1 := w.out, w.size;
    assert [] + [MAGIC] == [MAGIC];
    WritePathToNar(w, fs, path);
    WroteMore([], 0, out1, size1, w.out, w.size, [MAGIC], Tokens(ReadTree(fs, path)));
    buf := w.out;
    assert [] + Archive(ReadTree(fs, path)) == Archive(ReadTree(fs, path));
  }

  /** Every archive a reader accepts, once extracted, is serialised back byte for byte. */
  lemma ArchiveRestored(s: seq<byte>, fs: Fs, fs': Fs, path: Path)
    requires IsBytes(s) && Decode(s).Some? && Extracted(fs, fs', path, Decode(s).value)
    ensures path in fs' && Archive(ReadTree(fs', path)) == s
  {
    ArchiveDecode(s);
    CanonicalIsOrdered(Decode(s).value);
    ExtractedHashesBack(fs, fs', path, Decode(s).value);
  }

  // ----- Any filesystem -----

  /** Every object on the way from a path to what lies below it is a directory. */
  predicate Walkable(fs: Fs, path: Path, r: Path) {
    forall i :: 0 <= i < |r| ==> Get(fs, path + r[..i]) == Some(Dir)
  }

  /** An object as an archive can tell it: of the mode only whether one of the execute bits is set. */
  function Archived(x: Option<FsNode>): Option<FsNode> {
    match x
    case Some(Reg(mode, contents)) =>
      Some(Reg(ModeOf(exists shift :: shift in {1, 8, 64} && mode / shift % 2 == 1), contents))
    case _ => x
  }

  lemma {:induction false} FindRead(fs: Fs, path: Path, names: seq<Text>, n: Text)
    requires path in fs
    ensures Find(ReadEntries(fs, path, names), n)
            == if n in names && path + [Comp(n)] in fs then Some(ReadTree(fs, path + [Comp(n)])) else None
    decreases |names|
  {
    if names != [] {
      FindRead(fs, path, names[1..], n);
      assert names == [names[0]] + names[1..];
      var c, rest := path + [Comp(names[0])], ReadEntries(fs, path, names[1..]);
      if c in fs {
        var all := [Entry(names[0], ReadTree(fs, c))] + rest;
        assert all[1..] == rest;
        FindFirst(all, n);
      } else {
        assert [] + rest == rest;
      }
    }
  }

  lemma WalkableChild(fs: Fs, path: Path, r: Path)
    requires r != [] && Get(fs, path) == Some(Dir)
    ensures Walkable(fs, path, r) <==> Walkable(fs, path + [r[0]], r[1..])
  {
    var c, rest := path + [r[0]], r[1..];
    forall i | 0 <= i < |rest| ensures path + r[..i + 1] == c + rest[..i] {
      assert r[..i + 1] == [r[0]] + rest[..i];
    }
    if Walkable(fs, c, rest) {
      forall i | 0 <= i < |r| ensures Get(fs, path + r[..i]) == Some(Dir) {
        if i == 0 {
          assert path + r[..0] == path;
        } else {
          assert path + r[..i - 1 + 1] == c + rest[..i - 1];
        }
      }
    }
  }

  lemma ReadHere(fs: Fs, path: Path)
    requires path in fs
    ensures Lookup(ReadTree(fs, path), []) == Archived(Get(fs, path))
  {
    if fs[path].Reg? {
      var mode := fs[path].mode;
      assert IsExecutable(mode) <==> exists shift :: shift in {1, 8, 64} && mode / shift % 2 == 1 by {
        assert 1 in {1, 8, 64} && 8 in {1, 8, 64} && 64 in {1, 8, 64};
        assert mode / 1 == mode;
      }
    }
  }

  lemma ReadBelow(fs: Fs, path: Path, r: Path)
    requires path in fs && r != []
    ensures Lookup(ReadTree(fs, path), r)
            == if fs[path].Dir? && path + [r[0]] in fs then Lookup(ReadTree(fs, path + [r[0]]), r[1..]) else None
  {
    if fs[path].Dir? {
      var n, names := r[0].name, Sorted(Children(fs, path));
      assert r[0] == Comp(n);
      ChildrenPresent(fs, path, n);
      assert n in names <==> n in Elems(names);
      FindRead(fs, path, names, n);
    }
  }

  /** The tree that is written for a path holds exactly what can be reached below it, for every filesystem. */
  lemma {:induction false} ReadTreeAt(fs: Fs, path: Path, r: Path)
    requires path in fs
    ensures Lookup(ReadTree(fs, path), r) == if Walkable(fs, path, r) then Archived(Get(fs, path + r)) else None
    decreases |r|
  {
    if r == [] {
      assert path + r == path;
      ReadHere(fs, path);
    } else {
      ReadBelow(fs, path, r);
      assert path + r[..0] == path;
      if fs[path].Dir? {
        var c := path + [r[0]];
        assert path + r == c + r[1..];
        WalkableChild(fs, path, r);
        if c in fs {
          ReadTreeAt(fs, c, r[1..]);
        } else if Walkable(fs, c, r[1..]) {
          NothingBelow(fs, c, r[1..]);
        }
      }
    }
  }

  lemma NothingBelow(fs: Fs, c: Path, r: Path)
    requires c !in fs && Walkable(fs, c, r)
    ensures Get(fs, c + r) == None
  {
    if r != [] {
      assert c + r[..0] == c;
    } else {
      assert c + r == c;
    }
  }
}
