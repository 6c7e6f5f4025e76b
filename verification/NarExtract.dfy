/**
  Extraction of archives (`extract_node_with_sink` in snix-redox/src/nar.rs) onto a filesystem
  given as a map from paths to objects, and the manifest collected on the way.

  The destination starts absent and its parent directory exists.
 */
module NarExtract {
  import opened Results
  import opened Bytes
  import opened Nar
  import opened NarWriter
  import opened NarTree
  import opened Utf8

  type Fs = map<Path, FsNode>

  function Get(fs: Fs, q: Path): Option<FsNode> {
    if q in fs then Some(fs[q]) else None
  }

  // ----- What extraction accepts -----

  predicate PlainName(n: Text) {
    n != Ascii(".") && n != Ascii("..") && forall i :: 0 <= i < |n| ==> n[i] != '/' as int
  }

  predicate AcceptedName(n: Text) {
    IsUtf8(n) && PlainName(n)
  }

  predicate AcceptedEntry(e: Entry)
    decreases e, 0
  {
    AcceptedName(e.name) && Extractable(e.node)
  }

  predicate Extractable(t: Node)
    decreases t, 1
  {
    match t
    case File(_, _) => true
    case Symlink(target) => IsUtf8(target)
    case Directory(es) => forall i :: 0 <= i < |es| ==> AcceptedEntry(es[i])
  }

  // ----- Manifest -----

  datatype Kind = FileEntry | DirEntry | SymlinkEntry

  datatype Item = Item(rel: Path, kind: Kind, size: nat, executable: bool)

  function ItemOf(rel: Path, t: Node): Item {
    match t
    case File(x, contents) => Item(rel, FileEntry, |contents|, x)
    case Symlink(_) => Item(rel, SymlinkEntry, 0, false)
    case Directory(_) => Item(rel, DirEntry, 0, false)
  }

  /** The items recorded for a node at relative path `at`: itself, unless it is the root
      directory, then those of its entries in order. */
  function Items(t: Node, at: Path): seq<Item>
    decreases t, 1
  {
    match t
    case Directory(es) => (if at == [] then [] else [ItemOf(at, t)]) + EntryItems(es, at)
    case _ => [ItemOf(at, t)]
  }

  function EntryItems(es: seq<Entry>, at: Path): seq<Item>
    decreases es, 0
  {
    if es == [] then []
    else EntryItems(es[..|es| - 1], at) + Items(es[|es| - 1].node, at + [Comp(es[|es| - 1].name)])
  }

  datatype ManifestEntry = ManifestEntry(path: Text, kind: Kind, size: nat, executable: bool)

  const SLASH: byte := '/' as int

  /** Components separated by slashes. */
  function Join(rel: Path): Text {
    if rel == [] then []
    else if |rel| == 1 then rel[0].name
    else Join(rel[..|rel| - 1]) + [SLASH] + rel[|rel| - 1].name
  }

  function Record(i: Item): ManifestEntry {
    ManifestEntry(Join(i.rel), i.kind, i.size, i.executable)
  }

  function Records(items: seq<Item>): seq<ManifestEntry> {
    seq(|items|, i requires 0 <= i < |items| => Record(items[i]))
  }

  lemma DirectoryRecords(before: seq<ManifestEntry>, es: seq<Entry>, at: Path)
    ensures (if at == [] then before else before + [ManifestEntry(Join(at), DirEntry, 0, false)])
            + Records(EntryItems(es, at))
            == before + Records(Items(Directory(es), at))
  {
    if at == [] {
      assert Items(Directory(es), at) == EntryItems(es, at);
    } else {
      var own := ItemOf(at, Directory(es));
      JoinThree(before, [Record(own)], Records(EntryItems(es, at)));
    }
  }

  // ----- Effect on the filesystem -----

  predicate Fresh(fs: Fs, path: Path) {
    forall q :: q in fs ==> !(path <= q)
  }

  /** Outside the destination nothing changes. */
  ghost predicate Elsewhere(fs: Fs, fs': Fs, path: Path) {
    forall q :: !(path <= q) ==> Get(fs', q) == Get(fs, q)
  }

  ghost predicate At(fs: Fs, fs': Fs, path: Path, t: Node, q: Path) {
    Get(fs', q) == if path <= q then Lookup(t, q[|path|..]) else Get(fs, q)
  }

  /** At and below the destination lies exactly the tree; everything else is as before. */
  ghost predicate Extracted(fs: Fs, fs': Fs, path: Path, t: Node) {
    forall q :: At(fs, fs', path, t, q)
  }

  lemma FindLast(es: seq<Entry>, n: Text)
    requires es != []
    ensures var init, last := es[..|es| - 1], es[|es| - 1];
            Find(es, n) == if n in Names(init) then Find(init, n) else if last.name == n then Some(last.node) else None
    decreases |es|
  {
    var init, last := es[..|es| - 1], es[|es| - 1];
    FindFirst(es, n);
    if |es| > 1 {
      FindLast(es[1..], n);
      FindFirst(init, n);
      assert es[1..][..|es| - 2] == init[1..];
    } else {
      assert es == [last];
    }
  }

  lemma {:induction false} NewName(es: seq<Entry>, prev: Option<Text>, i: nat)
    requires OrderedEntries(es, prev) && i < |es|
    ensures es[i].name !in Names(es[..i]) && es[i].name != [] && Ordered(es[i].node)
    decreases |es|
  {
    if i > 0 {
      NewName(es[1..], Some(es[0].name), i - 1);
      FirstIsAlone(es, prev);
      assert es[i] in es[1..];
      FindFirst(es[..i], es[i].name);
      assert es[..i][1..] == es[1..][..i - 1];
    }
  }

  lemma PrefixChild(path: Path, c: Comp, q: Path)
    ensures path + [c] <= q <==> path <= q && |path| < |q| && q[|path|] == c
    ensures path + [c] <= q ==> q[|path|..] != [] && q[|path|..][0] == c && q[|path|..][1..] == q[|path + [c]|..]
  {
  }

  lemma EntrySlot(fs: Fs, fs': Fs, path: Path, es: seq<Entry>, name: Text)
    requires Extracted(fs, fs', path, Directory(es)) && name !in Names(es)
    ensures Fresh(fs', path + [Comp(name)])
  {
    forall q | q in fs' ensures !(path + [Comp(name)] <= q) {
      PrefixChild(path, Comp(name), q);
      assert At(fs, fs', path, Directory(es), q);
      if path <= q {
        LookupMissing(es, name, q[|path|..]);
      }
    }
  }

  lemma LookupMissing(es: seq<Entry>, name: Text, r: Path)
    requires name !in Names(es)
    ensures r != [] && r[0] == Comp(name) ==> Lookup(Directory(es), r).None?
  {
  }

  /** Adding an entry changes what is found below its name and nothing else. */
  lemma LookupAdded(es: seq<Entry>, e: Entry, r: Path)
    requires e.name !in Names(es)
    ensures Lookup(Directory(es + [e]), r)
            == if r != [] && r[0] == Comp(e.name) then Lookup(e.node, r[1..]) else Lookup(Directory(es), r)
  {
    if r != [] {
      FindLast(es + [e], r[0].name);
      assert (es + [e])[..|es|] == es;
      assert r[0] == Comp(r[0].name);
    }
  }

  /** Extracting one more entry extends the directory by it. */
  lemma EntryAdded(fs: Fs, fs1: Fs, fs2: Fs, path: Path, es: seq<Entry>, e: Entry)
    requires Extracted(fs, fs1, path, Directory(es)) && e.name !in Names(es)
    requires Extracted(fs1, fs2, path + [Comp(e.name)], e.node)
    ensures Extracted(fs, fs2, path, Directory(es + [e]))
  {
    forall q ensures At(fs, fs2, path, Directory(es + [e]), q) {
      EntryAddedAt(fs, fs1, fs2, path, es, e, q);
    }
  }

  lemma EntryAddedAt(fs: Fs, fs1: Fs, fs2: Fs, path: Path, es: seq<Entry>, e: Entry, q: Path)
    requires Extracted(fs, fs1, path, Directory(es)) && e.name !in Names(es)
    requires Extracted(fs1, fs2, path + [Comp(e.name)], e.node)
    ensures At(fs, fs2, path, Directory(es + [e]), q)
  {
    assert At(fs, fs1, path, Directory(es), q);
    assert At(fs1, fs2, path + [Comp(e.name)], e.node, q);
    PrefixChild(path, Comp(e.name), q);
    if path <= q {
      LookupAdded(es, e, q[|path|..]);
    }
  }

  lemma LeafWritten(fs: Fs, path: Path, t: Node)
    requires Fresh(fs, path) && (t.Directory? ==> t.entries == [])
    ensures Extracted(fs, fs[path := Own(t)], path, t)
  {
    var fs' := fs[path := Own(t)];
    forall q ensures At(fs, fs', path, t, q) {
      if path <= q && q != path {
        assert q !in fs;
        assert q[|path|..] != [];
      } else if q == path {
        assert q[|path|..] == [];
      }
    }
  }

  lemma ExtractedElsewhere(fs: Fs, fs': Fs, path: Path, t: Node)
    requires Extracted(fs, fs', path, t)
    ensures Elsewhere(fs, fs', path)
  {
    forall q | !(path <= q) ensures Get(fs', q) == Get(fs, q) {
      assert At(fs, fs', path, t, q);
    }
  }

  // ----- Extraction -----

  datatype ExtractError = InvalidData(text: Text)

  class Extractor {
    var fs: Fs
    var manifest: seq<ManifestEntry>

    /** Write a node to `path`, recording it under the relative path `rel`; `at` is `rel` as components. */
    method ExtractNode(node: Node, path: Path, rel: Text, ghost at: Path) returns (r: Result<(), ExtractError>)
      requires Ordered(node) && Fresh(fs, path)
      requires rel == Join(at) && (rel == [] <==> at == [])
      modifies this
      decreases node, 2
      ensures Elsewhere(old(fs), fs, path)
      ensures r.Success? <==> Extractable(node)
      ensures r.Success? ==> Extracted(old(fs), fs, path, node)
      ensures r.Success? ==> manifest == old(manifest) + Records(Items(node, at))
    {
      match node
      case File(x, contents) =>
        LeafWritten(fs, path, node);
        ExtractedElsewhere(fs, fs[path := Own(node)], path, node);
        fs := fs[path := Reg(ModeOf(x), contents)];
        manifest := manifest + [ManifestEntry(rel, FileEntry, |contents|, x)];
        r := Success(());
      case Symlink(target) =>
        if !IsUtf8(target) {
          return Failure(InvalidData(target));
        }
        LeafWritten(fs, path, node);
        ExtractedElsewhere(fs, fs[path := Own(node)], path, node);
        fs := fs[path := Link(target)];
        manifest := manifest + [ManifestEntry(rel, SymlinkEntry, 0, false)];
        r := Success(());
      case Directory(es) =>
        r := ExtractDirectory(es, path, rel, at);
    }

    method ExtractDirectory(es: seq<Entry>, path: Path, rel: Text, ghost at: Path) returns (r: Result<(), ExtractError>)
      requires OrderedEntries(es, None) && Fresh(fs, path)
      requires rel == Join(at) && (rel == [] <==> at == [])
      modifies this
      decreases es, 2
      ensures Elsewhere(old(fs), fs, path)
      ensures r.Success? <==> Extractable(Directory(es))
      ensures r.Success? ==> Extracted(old(fs), fs, path, Directory(es))
      ensures r.Success? ==> manifest == old(manifest) + Records(Items(Directory(es), at))
    {
      LeafWritten(fs, path, Directory([]));
      fs := fs[path := Dir];
      if rel != [] {
        manifest := manifest + [ManifestEntry(rel, DirEntry, 0, false)];
      }
      DirectoryRecords(old(manifest), es, at);
      r := ExtractEntries(es, path, rel, at, old(fs));
    }

    /** One step of the loop over a directory's entries. */
    method ExtractEntry(es: seq<Entry>, i: nat, path: Path, rel: Text, ghost at: Path,
                        ghost before: Fs) returns (r: Result<(), ExtractError>)
      requires i < |es| && OrderedEntries(es, None) && Extracted(before, fs, path, Directory(es[..i]))
      requires rel == Join(at) && (rel == [] <==> at == [])
      modifies this
      decreases es, 0
      ensures Elsewhere(before, fs, path)
      ensures r.Success? <==> AcceptedName(es[i].name) && Extractable(es[i].node)
      ensures r.Success? ==> Extracted(before, fs, path, Directory(es[..i] + [es[i]]))
      ensures r.Success? ==> manifest == old(manifest) + Records(Items(es[i].node, at + [Comp(es[i].name)]))
    {
      var e := es[i];
      ExtractedElsewhere(before, fs, path, Directory(es[..i]));
      if !AcceptedName(e.name) {
        return Failure(InvalidData(e.name));
      }
      NewName(es, None, i);
      EntrySlot(before, fs, path, es[..i], e.name);
      ghost var fs1 := fs;
      r := ExtractNode(e.node, path + [Comp(e.name)], if rel == [] then e.name else rel + [SLASH] + e.name,
                       at + [Comp(e.name)]);
      if r.Success? {
        EntryAdded(before, fs1, fs, path, es[..i], e);
      }
    }

    /** The loop over a directory's entries. */
    method ExtractEntries(es: seq<Entry>, path: Path, rel: Text, ghost at: Path,
                          ghost before: Fs) returns (r: Result<(), ExtractError>)
      requires OrderedEntries(es, None) && Extracted(before, fs, path, Directory([]))
      requires rel == Join(at) && (rel == [] <==> at == [])
      modifies this
      decreases es, 1
      ensures Elsewhere(before, fs, path)
      ensures r.Success? <==> Extractable(Directory(es))
      ensures r.Success? ==> Extracted(before, fs, path, Directory(es))
      ensures r.Success? ==> manifest == old(manifest) + Records(EntryItems(es, at))
    {
      ghost var recorded := manifest;
      for i := 0 to |es|
        invariant Extracted(before, fs, path, Directory(es[..i]))
        invariant AllAccepted(es, i)
        invariant manifest == recorded + Records(EntryItems(es[..i], at))
      {
        r := ExtractEntry(es, i, path, rel, at, before);
        if r.Failure? {
          return;
        }
        OneMoreEntry(es, i, at, recorded);
      }
      assert es[..|es|] == es;
      ExtractedElsewhere(before, fs, path, Directory(es));
      assert Extractable(Directory(es));
      r := Success(());
    }
  }

  ghost predicate AllAccepted(es: seq<Entry>, i: nat) {
    i <= |es| && forall j :: 0 <= j < i ==> AcceptedEntry(es[j])
  }

  lemma OneMoreEntry(es: seq<Entry>, i: nat, at: Path, recorded: seq<ManifestEntry>)
    requires i < |es|
    ensures es[..i + 1] == es[..i] + [es[i]]
    ensures recorded + Records(EntryItems(es[..i], at)) + Records(Items(es[i].node, at + [Comp(es[i].name)]))
            == recorded + Records(EntryItems(es[..i + 1], at))
  {
  }

  lemma JoinThree<T>(a: seq<T>, b: seq<T>, c: seq<T>)
    ensures a + b + c == a + (b + c)
  {
  }
}
