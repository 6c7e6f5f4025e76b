/** Writing a source tree with an explicit stack (snix-redox/src/eval.rs). */
module SourceWriter {
  // Directories are found by digest. Content addressing makes the references among them acyclic,
  // which a ranking of the digests states.

  import opened Results
  import opened Bytes
  import opened Nar
  import opened NarWriter
  import opened NarTree
  import opened NarExtract

  datatype Digest = Digest(id: int)

  datatype SourceNode =
    | DirRef(d: Digest)
    | FileRef(d: Digest, size: nat, executable: bool)
    | LinkTo(target: Text)

  datatype Child = Child(name: Text, node: SourceNode)

  /** The directory and blob services. */
  datatype Services = Services(dirs: map<Digest, seq<Child>>, blobs: map<Digest, seq<byte>>)

  type Ranks = map<Digest, nat>

  function Level(s: Services, rank: Ranks, n: SourceNode): nat {
    if n.DirRef? && n.d in s.dirs && n.d in rank then rank[n.d] + 1 else 0
  }

  predicate AtMost(s: Services, rank: Ranks, cs: seq<Child>, bound: nat) {
    forall i :: 0 <= i < |cs| ==> Level(s, rank, cs[i].node) <= bound
  }

  predicate DistinctNames(cs: seq<Child>) {
    forall i, j :: 0 <= i < j < |cs| ==> cs[i].name != cs[j].name
  }

  /** References lead to lower ranks, and no directory repeats a name. */
  predicate Ranked(s: Services, rank: Ranks) {
    forall d :: d in s.dirs ==> d in rank && AtMost(s, rank, s.dirs[d], rank[d]) && DistinctNames(s.dirs[d])
  }

  // ----- The tree that a node stands for -----

  /** `None` when a directory or blob is missing or a blob has another size than announced. */
  ghost function Denote(s: Services, rank: Ranks, n: SourceNode): Option<Node>
    requires Ranked(s, rank)
    decreases Level(s, rank, n), 1, 0
  {
    match n
    case LinkTo(target) => Some(Symlink(target))
    case FileRef(d, size, x) => if d in s.blobs && |s.blobs[d]| == size then Some(File(x, s.blobs[d])) else None
    case DirRef(d) =>
      if d !in s.dirs then None
      else match DenoteAll(s, rank, s.dirs[d], rank[d])
        case None => None
        case Some(es) => Some(Directory(es))
  }

  ghost function DenoteAll(s: Services, rank: Ranks, cs: seq<Child>, bound: nat): Option<seq<Entry>>
    requires Ranked(s, rank) && AtMost(s, rank, cs, bound)
    decreases bound, 2, |cs|
  {
    if cs == [] then Some([])
    else
      var init, c := DenoteAll(s, rank, cs[..|cs| - 1], bound), cs[|cs| - 1];
      var t := Denote(s, rank, c.node);
      if init.None? || t.None? then None else Some(init.value + [Entry(c.name, t.value)])
  }

  /** The number of objects to write. */
  ghost function Weight(s: Services, rank: Ranks, n: SourceNode): nat
    requires Ranked(s, rank)
    decreases Level(s, rank, n), 1, 0
  {
    if n.DirRef? && n.d in s.dirs then 1 + WeightAll(s, rank, s.dirs[n.d], rank[n.d]) else 1
  }

  ghost function WeightAll(s: Services, rank: Ranks, cs: seq<Child>, bound: nat): nat
    requires Ranked(s, rank) && AtMost(s, rank, cs, bound)
    decreases bound, 2, |cs|
  {
    if cs == [] then 0 else WeightAll(s, rank, cs[..|cs| - 1], bound) + Weight(s, rank, cs[|cs| - 1].node)
  }

  // ----- The same, path by path -----

  function ChildNamed(cs: seq<Child>, n: Text): (r: Option<SourceNode>)
    ensures r.None? ==> forall i :: 0 <= i < |cs| ==> cs[i].name != n
    ensures r.Some? ==> exists i :: 0 <= i < |cs| && cs[i] == Child(n, r.value)
  {
    if cs == [] then None
    else if cs[|cs| - 1].name == n then Some(cs[|cs| - 1].node)
    else
      var r := ChildNamed(cs[..|cs| - 1], n);
      assert forall i :: 0 <= i < |cs| - 1 ==> cs[i] == cs[..|cs| - 1][i];
      r
  }

  /** The node that is reached from another one by following names. */
  function Walk(s: Services, n: SourceNode, rel: Path): Option<SourceNode>
    decreases |rel|
  {
    if rel == [] then Some(n)
    else if n.DirRef? && n.d in s.dirs then
      match ChildNamed(s.dirs[n.d], rel[0].name)
      case None => None
      case Some(child) => Walk(s, child, rel[1..])
    else None
  }

  /** A directory or blob is there, and a blob has the announced size. */
  predicate Intact(s: Services, n: SourceNode) {
    match n
    case DirRef(d) => d in s.dirs
    case FileRef(d, size, _) => d in s.blobs && |s.blobs[d]| == size
    case LinkTo(_) => true
  }

  /** What a node is on disk; files are read-only. */
  function OnDisk(s: Services, n: SourceNode): FsNode
    requires Intact(s, n)
  {
    match n
    case DirRef(_) => Dir
    case FileRef(d, _, x) => Reg(if x then 0x16D else 0x124, s.blobs[d])
    case LinkTo(target) => Link(target)
  }

  ghost predicate AllIntact(s: Services, n: SourceNode) {
    forall rel :: Walk(s, n, rel).Some? ==> Intact(s, Walk(s, n, rel).value)
  }

  lemma ChildIs(cs: seq<Child>, i: nat)
    requires DistinctNames(cs) && i < |cs|
    ensures ChildNamed(cs, cs[i].name) == Some(cs[i].node)
  {
    assert cs[i] == Child(cs[i].name, cs[i].node);
    assert ChildNamed(cs, cs[i].name).Some?;
  }

  lemma WalkChild(s: Services, d: Digest, i: nat, rel: Path)
    requires d in s.dirs && DistinctNames(s.dirs[d]) && i < |s.dirs[d]|
    ensures var c := s.dirs[d][i]; Walk(s, DirRef(d), [Comp(c.name)] + rel) == Walk(s, c.node, rel)
  {
    ChildIs(s.dirs[d], i);
  }

  lemma ChildIntact(s: Services, d: Digest, i: nat)
    requires d in s.dirs && DistinctNames(s.dirs[d]) && i < |s.dirs[d]| && AllIntact(s, DirRef(d))
    ensures AllIntact(s, s.dirs[d][i].node)
  {
    var c := s.dirs[d][i];
    forall rel | Walk(s, c.node, rel).Some? ensures Intact(s, Walk(s, c.node, rel).value) {
      WalkChild(s, d, i, rel);
      assert Walk(s, DirRef(d), [Comp(c.name)] + rel).Some?;
    }
  }

  /** A node stands for a tree exactly when everything that can be reached from it is intact. */
  lemma {:induction false} DenotesIfIntact(s: Services, rank: Ranks, n: SourceNode)
    requires Ranked(s, rank) && AllIntact(s, n)
    ensures Denote(s, rank, n).Some?
    decreases Level(s, rank, n), 1, 0
  {
    assert Walk(s, n, []) == Some(n);
    if n.DirRef? {
      forall i | 0 <= i < |s.dirs[n.d]| ensures AllIntact(s, s.dirs[n.d][i].node) {
        ChildIntact(s, n.d, i);
      }
      AllDenoteIfIntact(s, rank, s.dirs[n.d], rank[n.d]);
    }
  }

  lemma {:induction false} AllDenoteIfIntact(s: Services, rank: Ranks, cs: seq<Child>, bound: nat)
    requires Ranked(s, rank) && AtMost(s, rank, cs, bound)
    requires forall i :: 0 <= i < |cs| ==> AllIntact(s, cs[i].node)
    ensures DenoteAll(s, rank, cs, bound).Some?
    decreases bound, 2, |cs|
  {
    if cs != [] {
      AllDenoteIfIntact(s, rank, cs[..|cs| - 1], bound);
      DenotesIfIntact(s, rank, cs[|cs| - 1].node);
    }
  }

  lemma {:induction false} FindDenoted(s: Services, rank: Ranks, cs: seq<Child>, bound: nat, es: seq<Entry>, n: Text)
    requires Ranked(s, rank) && AtMost(s, rank, cs, bound) && DenoteAll(s, rank, cs, bound) == Some(es)
    requires DistinctNames(cs)
    ensures Find(es, n) == match ChildNamed(cs, n) case None => None case Some(c) => Denote(s, rank, c)
    ensures ChildNamed(cs, n).Some? ==>
              Level(s, rank, ChildNamed(cs, n).value) <= bound && Denote(s, rank, ChildNamed(cs, n).value).Some?
    decreases |cs|
  {
    if cs != [] {
      var init, last := cs[..|cs| - 1], cs[|cs| - 1];
      var es', t := DenoteAll(s, rank, init, bound).value, Denote(s, rank, last.node).value;
      FindDenoted(s, rank, init, bound, es', n);
      DenotedNames(s, rank, cs, bound, es);
      FindAdded(es', Entry(last.name, t), n);
    }
  }

  /** The tree holds at every path what is reached there. */
  lemma {:induction false} DenotedAt(s: Services, rank: Ranks, n: SourceNode, rel: Path)
    requires Ranked(s, rank) && Denote(s, rank, n).Some?
    ensures Walk(s, n, rel).Some? ==> Intact(s, Walk(s, n, rel).value)
    ensures Lookup(Denote(s, rank, n).value, rel)
            == if Walk(s, n, rel).Some? then Some(OnDisk(s, Walk(s, n, rel).value)) else None
    decreases |rel|
  {
    if rel != [] && n.DirRef? {
      var cs, bound := s.dirs[n.d], rank[n.d];
      FindDenoted(s, rank, cs, bound, DenoteAll(s, rank, cs, bound).value, rel[0].name);
      var child := ChildNamed(cs, rel[0].name);
      if child.Some? {
        DenotedAt(s, rank, child.value, rel[1..]);
      }
    }
  }

  lemma DenotesIffIntact(s: Services, rank: Ranks, n: SourceNode)
    requires Ranked(s, rank)
    ensures Denote(s, rank, n).Some? <==> AllIntact(s, n)
  {
    if Denote(s, rank, n).Some? {
      forall rel | Walk(s, n, rel).Some? ensures Intact(s, Walk(s, n, rel).value) {
        DenotedAt(s, rank, n, rel);
      }
    } else if AllIntact(s, n) {
      DenotesIfIntact(s, rank, n);
    }
  }

  // ----- The stack -----

  datatype Pending = Pending(path: Path, node: SourceNode)

  function Kids(path: Path, cs: seq<Child>): seq<Pending> {
    seq(|cs|, i requires 0 <= i < |cs| => Pending(path + [Comp(cs[i].name)], cs[i].node))
  }

  ghost function StackWeight(s: Services, rank: Ranks, stack: seq<Pending>): nat
    requires Ranked(s, rank)
  {
    if stack == [] then 0 else StackWeight(s, rank, stack[..|stack| - 1]) + Weight(s, rank, stack[|stack| - 1].node)
  }

  ghost predicate AllDenote(s: Services, rank: Ranks, stack: seq<Pending>)
    requires Ranked(s, rank)
  {
    forall i :: 0 <= i < |stack| ==> Denote(s, rank, stack[i].node).Some?
  }

  /** What will be found at a path once the whole stack is written. */
  ghost function Shown(fs: Fs, s: Services, rank: Ranks, stack: seq<Pending>, q: Path): Option<FsNode>
    requires Ranked(s, rank)
  {
    if stack == [] then Get(fs, q)
    else
      var p := stack[|stack| - 1];
      if p.path <= q then
        var t := Denote(s, rank, p.node);
        if t.Some? then Lookup(t.value, q[|p.path|..]) else None
      else Shown(fs, s, rank, stack[..|stack| - 1], q)
  }

  predicate Comparable(p: Path, q: Path) {
    p <= q || q <= p
  }

  ghost predicate Unrelated(stack: seq<Pending>, path: Path) {
    forall i :: 0 <= i < |stack| ==> !Comparable(stack[i].path, path)
  }

  /** Only the disk decides at and below a path unrelated to the stack. */
  lemma {:induction false} ShownUnrelated(fs: Fs, s: Services, rank: Ranks, stack: seq<Pending>, path: Path, q: Path)
    requires Ranked(s, rank) && Unrelated(stack, path) && path <= q
    ensures Shown(fs, s, rank, stack, q) == Get(fs, q)
  {
    if stack != [] {
      if stack[|stack| - 1].path <= q {
      }
      ShownUnrelated(fs, s, rank, stack[..|stack| - 1], path, q);
    }
  }

  lemma {:induction false} ShownSame(fs: Fs, fs': Fs, s: Services, rank: Ranks, stack: seq<Pending>, q: Path)
    requires Ranked(s, rank) && Get(fs, q) == Get(fs', q)
    ensures Shown(fs, s, rank, stack, q) == Shown(fs', s, rank, stack, q)
  {
    if stack != [] { ShownSame(fs, fs', s, rank, stack[..|stack| - 1], q); }
  }

  /** Writing a leaf does not change what will be found. */
  lemma LeafStep(fs: Fs, s: Services, rank: Ranks, stack: seq<Pending>, p: Pending, t: Node, q: Path)
    requires Ranked(s, rank) && Unrelated(stack, p.path) && Fresh(fs, p.path)
    requires Denote(s, rank, p.node) == Some(t) && !t.Directory?
    ensures Shown(fs[p.path := Own(t)], s, rank, stack, q) == Shown(fs, s, rank, stack + [p], q)
  {
    var fs' := fs[p.path := Own(t)];
    if p.path <= q {
      ShownUnrelated(fs', s, rank, stack, p.path, q);
      assert q == p.path + q[|p.path|..];
      if q[|p.path|..] == [] {
        assert q == p.path;
      } else {
        assert q !in fs;
      }
    } else {
      ShownSame(fs, fs', s, rank, stack, q);
    }
  }

  // ----- Opening a directory -----

  lemma JoinKids(stack: seq<Pending>, path: Path, cs: seq<Child>)
    requires cs != []
    ensures stack + Kids(path, cs)
            == stack + Kids(path, cs[..|cs| - 1]) + [Pending(path + [Comp(cs[|cs| - 1].name)], cs[|cs| - 1].node)]
  {
  }

  /** A child's path leads to the last child of that name, otherwise past all of them. */
  lemma {:induction false} ShownKids(fs: Fs, s: Services, rank: Ranks, stack: seq<Pending>, path: Path, cs: seq<Child>,
                                     bound: nat,
                                     es: seq<Entry>, c: Comp, q: Path)
    requires Ranked(s, rank) && AtMost(s, rank, cs, bound) && DenoteAll(s, rank, cs, bound) == Some(es)
    requires DistinctNames(cs)
    requires path + [c] <= q
    ensures Shown(fs, s, rank, stack + Kids(path, cs), q)
            == match Find(es, c.name)
               case Some(t) => Lookup(t, q[|path| + 1..])
               case None => Shown(fs, s, rank, stack, q)
    decreases |cs|
  {
    if cs == [] {
      assert stack + Kids(path, cs) == stack;
      assert c.name !in Names(es);
    } else {
      var init, last := cs[..|cs| - 1], cs[|cs| - 1];
      var es', t := DenoteAll(s, rank, init, bound).value, Denote(s, rank, last.node).value;
      var here := path + [Comp(last.name)];
      JoinKids(stack, path, cs);
      ShownKids(fs, s, rank, stack, path, init, bound, es', c, q);
      DenotedNames(s, rank, cs, bound, es);
      FindAdded(es', Entry(last.name, t), c.name);
      SamePrefix(path, Comp(last.name), c, q);
    }
  }

  lemma SamePrefix(path: Path, a: Comp, c: Comp, q: Path)
    requires path + [c] <= q
    ensures path + [a] <= q <==> a.name == c.name
  {
    PrefixChild(path, a, q);
    PrefixChild(path, c, q);
  }

  lemma FindAdded(es: seq<Entry>, e: Entry, n: Text)
    requires e.name !in Names(es)
    ensures Find(es + [e], n) == if e.name == n then Some(e.node) else Find(es, n)
  {
    FindLast(es + [e], n);
    assert (es + [e])[..|es|] == es;
  }

  lemma {:induction false} NamesDenoted(s: Services, rank: Ranks, cs: seq<Child>, bound: nat, es: seq<Entry>)
    requires Ranked(s, rank) && AtMost(s, rank, cs, bound) && DenoteAll(s, rank, cs, bound) == Some(es)
    ensures |es| == |cs| && forall i :: 0 <= i < |cs| ==> es[i].name == cs[i].name
    decreases |cs|
  {
    if cs != [] {
      NamesDenoted(s, rank, cs[..|cs| - 1], bound, DenoteAll(s, rank, cs[..|cs| - 1], bound).value);
    }
  }

  /** The name of the last child is new. */
  lemma DenotedNames(s: Services, rank: Ranks, cs: seq<Child>, bound: nat, es: seq<Entry>)
    requires cs != [] && Ranked(s, rank) && AtMost(s, rank, cs, bound) && DenoteAll(s, rank, cs, bound) == Some(es)
    requires DistinctNames(cs)
    ensures var init := DenoteAll(s, rank, cs[..|cs| - 1], bound);
            init.Some? && cs[|cs| - 1].name !in Names(init.value)
  {
    var init := DenoteAll(s, rank, cs[..|cs| - 1], bound).value;
    NamesDenoted(s, rank, cs[..|cs| - 1], bound, init);
  }

  /** Opening a directory and pushing its children does not change what will be found. */
  lemma DirectoryStep(fs: Fs, s: Services, rank: Ranks, stack: seq<Pending>, p: Pending, q: Path)
    requires Ranked(s, rank) && Unrelated(stack, p.path) && Fresh(fs, p.path)
    requires p.node.DirRef? && Denote(s, rank, p.node).Some?
    ensures Shown(fs[p.path := Dir], s, rank, stack + Kids(p.path, s.dirs[p.node.d]), q)
            == Shown(fs, s, rank, stack + [p], q)
  {
    var fs', cs, bound := fs[p.path := Dir], s.dirs[p.node.d], rank[p.node.d];
    var es := DenoteAll(s, rank, cs, bound).value;
    if p.path <= q && p.path != q {
      var c := q[|p.path|];
      PrefixChild(p.path, c, q);
      ShownKids(fs', s, rank, stack, p.path, cs, bound, es, c, q);
      ShownUnrelated(fs', s, rank, stack, p.path, q);
      assert c == Comp(c.name) && q !in fs;
      LookupBelow(es, p.path, q);
    } else {
      ShownPastKids(fs', s, rank, stack, p.path, cs, q);
      if p.path == q {
        ShownUnrelated(fs', s, rank, stack, p.path, q);
        assert q[|p.path|..] == [];
      } else {
        ShownSame(fs, fs', s, rank, stack, q);
      }
    }
  }

  lemma LookupBelow(es: seq<Entry>, path: Path, q: Path)
    requires path <= q && path != q
    ensures Lookup(Directory(es), q[|path|..])
            == match Find(es, q[|path|].name)
               case Some(t) => Lookup(t, q[|path| + 1..])
               case None => None
  {
  }

  lemma {:induction false} ShownPastKids(fs: Fs, s: Services, rank: Ranks, stack: seq<Pending>, path: Path,
                                         cs: seq<Child>, q: Path)
    requires Ranked(s, rank) && (path == q || !(path <= q))
    ensures Shown(fs, s, rank, stack + Kids(path, cs), q) == Shown(fs, s, rank, stack, q)
    decreases |cs|
  {
    if cs == [] {
      assert stack + Kids(path, cs) == stack;
    } else {
      var init, last := cs[..|cs| - 1], cs[|cs| - 1];
      JoinKids(stack, path, cs);
      PrefixChild(path, Comp(last.name), q);
      ShownPastKids(fs, s, rank, stack, path, init, q);
    }
  }

  // ----- What the loop keeps -----

  /** The pending paths are unrelated to each other, lie below the destination and are not on disk yet. */
  ghost predicate Sound(fs: Fs, stack: seq<Pending>, dest: Path) {
    && (forall i, j :: 0 <= i < j < |stack| ==> ApartAt(stack, i, j))
    && (forall i :: 0 <= i < |stack| ==> Open(fs, stack[i].path, dest))
  }

  ghost predicate ApartAt(stack: seq<Pending>, i: nat, j: nat)
    requires i < j < |stack|
  {
    !Comparable(stack[i].path, stack[j].path)
  }

  ghost predicate Open(fs: Fs, path: Path, dest: Path) {
    dest <= path && Fresh(fs, path)
  }

  lemma SoundTop(fs: Fs, stack: seq<Pending>, p: Pending, dest: Path)
    requires Sound(fs, stack + [p], dest)
    ensures Sound(fs, stack, dest) && Unrelated(stack, p.path) && Open(fs, p.path, dest)
  {
    var all := stack + [p];
    forall i | 0 <= i < |stack| ensures Open(fs, stack[i].path, dest) && !Comparable(stack[i].path, p.path) {
      assert all[i] == stack[i] && all[|stack|] == p;
      assert Open(fs, all[i].path, dest) && ApartAt(all, i, |stack|);
    }
    forall i, j | 0 <= i < j < |stack| ensures ApartAt(stack, i, j) {
      assert ApartAt(all, i, j);
    }
    assert Open(fs, all[|stack|].path, dest);
  }

  lemma SiblingsUnrelated(path: Path, a: Comp, b: Comp)
    requires a != b
    ensures !Comparable(path + [a], path + [b])
  {
    assert (path + [a])[|path|] == a && (path + [b])[|path|] == b;
  }

  lemma SoundKids(fs: Fs, stack: seq<Pending>, path: Path, cs: seq<Child>, dest: Path)
    requires Sound(fs, stack, dest) && Unrelated(stack, path) && Open(fs, path, dest) && DistinctNames(cs)
    ensures Sound(fs[path := Dir], stack + Kids(path, cs), dest)
  {
    var fs', kids := fs[path := Dir], Kids(path, cs);
    var all := stack + kids;
    forall i | 0 <= i < |all| ensures Open(fs', all[i].path, dest) {
      if i >= |stack| {
      } else {
        assert Open(fs', stack[i].path, dest);
      }
    }
    forall i, j | 0 <= i < j < |all| ensures ApartAt(all, i, j) {
      if j < |stack| {
        assert ApartAt(stack, i, j);
      } else if i < |stack| {
        assert !Comparable(stack[i].path, path);
      } else {
        SiblingsUnrelated(path, Comp(cs[i - |stack|].name), Comp(cs[j - |stack|].name));
      }
    }
  }

  // ----- Weights and failures -----

  lemma {:induction false} WeightKids(s: Services, rank: Ranks, stack: seq<Pending>, path: Path, cs: seq<Child>,
                                      bound: nat)
    requires Ranked(s, rank) && AtMost(s, rank, cs, bound)
    ensures StackWeight(s, rank, stack + Kids(path, cs)) == StackWeight(s, rank, stack) + WeightAll(s, rank, cs, bound)
    decreases |cs|
  {
    if cs == [] {
      assert stack + Kids(path, cs) == stack;
    } else {
      var init, last := cs[..|cs| - 1], cs[|cs| - 1];
      JoinKids(stack, path, cs);
      WeightKids(s, rank, stack, path, init, bound);
    }
  }

  lemma WeightTop(s: Services, rank: Ranks, stack: seq<Pending>, p: Pending)
    requires Ranked(s, rank)
    ensures StackWeight(s, rank, stack + [p]) == StackWeight(s, rank, stack) + Weight(s, rank, p.node)
    ensures Weight(s, rank, p.node) > 0
  {
  }

  lemma DenoteTop(s: Services, rank: Ranks, stack: seq<Pending>, p: Pending)
    requires Ranked(s, rank)
    ensures AllDenote(s, rank, stack + [p]) <==> AllDenote(s, rank, stack) && Denote(s, rank, p.node).Some?
  {
    var all := stack + [p];
    if AllDenote(s, rank, all) {
      forall i | 0 <= i < |stack| ensures Denote(s, rank, stack[i].node).Some? {
        assert all[i] == stack[i];
      }
      assert all[|stack|] == p;
    }
  }

  lemma {:induction false} DenoteKids(s: Services, rank: Ranks, stack: seq<Pending>, path: Path, cs: seq<Child>,
                                      bound: nat)
    requires Ranked(s, rank) && AtMost(s, rank, cs, bound)
    ensures AllDenote(s, rank, stack + Kids(path, cs))
            <==> AllDenote(s, rank, stack) && DenoteAll(s, rank, cs, bound).Some?
    decreases |cs|
  {
    if cs == [] {
      assert stack + Kids(path, cs) == stack;
    } else {
      var init, last := cs[..|cs| - 1], cs[|cs| - 1];
      JoinKids(stack, path, cs);
      DenoteTop(s, rank, stack + Kids(path, init), Pending(path + [Comp(last.name)], last.node));
      DenoteKids(s, rank, stack, path, init, bound);
    }
  }

  // ----- The loop -----

  /** The state of the loop for a root at `dest`, from the disk `before`. */
  ghost predicate Progress(before: Fs, fs: Fs, s: Services, rank: Ranks, stack: seq<Pending>, root: Pending)
    requires Ranked(s, rank)
  {
    && Sound(fs, stack, root.path)
    && Elsewhere(before, fs, root.path)
    && (AllDenote(s, rank, stack) <==> Denote(s, rank, root.node).Some?)
    && (Denote(s, rank, root.node).Some? ==> forall q :: SameShown(before, fs, s, rank, stack, root, q))
  }

  ghost predicate SameShown(before: Fs, fs: Fs, s: Services, rank: Ranks, stack: seq<Pending>, root: Pending, q: Path)
    requires Ranked(s, rank)
  {
    Shown(fs, s, rank, stack, q) == Shown(before, s, rank, [root], q)
  }

  lemma Started(fs: Fs, s: Services, rank: Ranks, root: Pending)
    requires Ranked(s, rank) && Fresh(fs, root.path)
    ensures Progress(fs, fs, s, rank, [root], root)
  {
    assert [root][0] == root;
  }

  lemma WroteElsewhere(before: Fs, fs: Fs, dest: Path, path: Path, x: FsNode)
    requires Elsewhere(before, fs, dest) && dest <= path
    ensures Elsewhere(before, fs[path := x], dest)
  {
  }

  lemma LeafProgress(before: Fs, fs: Fs, s: Services, rank: Ranks, stack: seq<Pending>, p: Pending, t: Node,
                     root: Pending)
    requires Ranked(s, rank) && Progress(before, fs, s, rank, stack + [p], root)
    requires Denote(s, rank, p.node) == Some(t) && !t.Directory?
    ensures Progress(before, fs[p.path := Own(t)], s, rank, stack, root)
    ensures StackWeight(s, rank, stack) < StackWeight(s, rank, stack + [p])
  {
    SoundTop(fs, stack, p, root.path);
    WroteElsewhere(before, fs, root.path, p.path, Own(t));
    DenoteTop(s, rank, stack, p);
    WeightTop(s, rank, stack, p);
    if Denote(s, rank, root.node).Some? {
      var fs' := fs[p.path := Own(t)];
      forall q ensures SameShown(before, fs', s, rank, stack, root, q) {
        assert SameShown(before, fs, s, rank, stack + [p], root, q);
        LeafStep(fs, s, rank, stack, p, t, q);
      }
    }
  }

  lemma DirectoryProgress(before: Fs, fs: Fs, s: Services, rank: Ranks, stack: seq<Pending>, p: Pending, root: Pending)
    requires Ranked(s, rank) && Progress(before, fs, s, rank, stack + [p], root)
    requires p.node.DirRef? && p.node.d in s.dirs
    ensures Progress(before, fs[p.path := Dir], s, rank, stack + Kids(p.path, s.dirs[p.node.d]), root)
    ensures StackWeight(s, rank, stack + Kids(p.path, s.dirs[p.node.d])) < StackWeight(s, rank, stack + [p])
  {
    var cs, bound := s.dirs[p.node.d], rank[p.node.d];
    SoundTop(fs, stack, p, root.path);
    SoundKids(fs, stack, p.path, cs, root.path);
    WroteElsewhere(before, fs, root.path, p.path, Dir);
    DenoteTop(s, rank, stack, p);
    DenoteKids(s, rank, stack, p.path, cs, bound);
    WeightTop(s, rank, stack, p);
    WeightKids(s, rank, stack, p.path, cs, bound);
    if Denote(s, rank, root.node).Some? {
      var fs', after := fs[p.path := Dir], stack + Kids(p.path, cs);
      forall q ensures SameShown(before, fs', s, rank, after, root, q) {
        assert SameShown(before, fs, s, rank, stack + [p], root, q);
        DirectoryStep(fs, s, rank, stack, p, q);
      }
    }
  }

  lemma Stopped(before: Fs, fs: Fs, s: Services, rank: Ranks, stack: seq<Pending>, p: Pending, root: Pending)
    requires Ranked(s, rank) && Progress(before, fs, s, rank, stack + [p], root) && Denote(s, rank, p.node).None?
    ensures Denote(s, rank, root.node).None? && root.path <= p.path
  {
    DenoteTop(s, rank, stack, p);
    SoundTop(fs, stack, p, root.path);
  }

  lemma Finished(before: Fs, fs: Fs, s: Services, rank: Ranks, root: Pending)
    requires Ranked(s, rank) && Progress(before, fs, s, rank, [], root)
    ensures Denote(s, rank, root.node).Some?
    ensures Extracted(before, fs, root.path, Denote(s, rank, root.node).value)
  {
    var t := Denote(s, rank, root.node).value;
    forall q ensures At(before, fs, root.path, t, q) {
      assert SameShown(before, fs, s, rank, [], root, q);
      assert [root][..0] == [];
    }
  }

  datatype WriteError = MissingDirectory(d: Digest) | MissingBlob(d: Digest) | WrongSize(d: Digest)

  /** The error describes a node. */
  predicate Blames(s: Services, e: WriteError, n: SourceNode) {
    match e
    case MissingDirectory(d) => n == DirRef(d) && d !in s.dirs
    case MissingBlob(d) => n.FileRef? && n.d == d && d !in s.blobs
    case WrongSize(d) => n.FileRef? && n.d == d && d in s.blobs && |s.blobs[d]| != n.size
  }

  /** The error describes a node that is reached from the root. */
  ghost predicate BlamesReached(s: Services, e: WriteError, root: SourceNode) {
    exists rel :: Walk(s, root, rel).Some? && Blames(s, e, Walk(s, root, rel).value)
  }

  /** The pending node is the one that its path leads to. */
  predicate ReachedAt(s: Services, root: Pending, p: Pending) {
    root.path <= p.path && Walk(s, root.node, p.path[|root.path|..]) == Some(p.node)
  }

  ghost predicate AllReached(s: Services, root: Pending, stack: seq<Pending>) {
    forall i :: 0 <= i < |stack| ==> ReachedAt(s, root, stack[i])
  }

  lemma {:induction false} WalkMore(s: Services, n: SourceNode, rel: Path, d: Digest, i: nat)
    requires Walk(s, n, rel) == Some(DirRef(d)) && d in s.dirs && DistinctNames(s.dirs[d]) && i < |s.dirs[d]|
    ensures Walk(s, n, rel + [Comp(s.dirs[d][i].name)]) == Some(s.dirs[d][i].node)
    decreases |rel|
  {
    var c := Comp(s.dirs[d][i].name);
    if rel == [] {
      assert rel + [c] == [c] + [];
      WalkChild(s, d, i, []);
    } else {
      assert (rel + [c])[0] == rel[0] && (rel + [c])[1..] == rel[1..] + [c];
      WalkMore(s, ChildNamed(s.dirs[n.d], rel[0].name).value, rel[1..], d, i);
    }
  }

  lemma KidsReached(s: Services, root: Pending, rest: seq<Pending>, p: Pending)
    requires AllReached(s, root, rest + [p]) && p.node.DirRef? && p.node.d in s.dirs && DistinctNames(s.dirs[p.node.d])
    ensures AllReached(s, root, rest + Kids(p.path, s.dirs[p.node.d]))
  {
    var cs, all := s.dirs[p.node.d], rest + [p];
    var kids := Kids(p.path, cs);
    assert all[|rest|] == p && ReachedAt(s, root, all[|rest|]);
    forall i | 0 <= i < |cs| ensures ReachedAt(s, root, kids[i]) {
      WalkMore(s, root.node, p.path[|root.path|..], p.node.d, i);
      assert kids[i].path[|root.path|..] == p.path[|root.path|..] + [Comp(cs[i].name)];
    }
    forall i | 0 <= i < |rest + kids| ensures ReachedAt(s, root, (rest + kids)[i]) {
      if i < |rest| { assert all[i] == rest[i]; }
    }
  }

  lemma RestReached(s: Services, root: Pending, rest: seq<Pending>, p: Pending)
    requires AllReached(s, root, rest + [p])
    ensures AllReached(s, root, rest) && ReachedAt(s, root, p)
  {
    var all := rest + [p];
    assert all[|rest|] == p;
    forall i | 0 <= i < |rest| ensures ReachedAt(s, root, rest[i]) { assert all[i] == rest[i]; }
  }

  /** The disk holds at every path below the destination what is reached there. */
  ghost predicate HoldsSource(fs: Fs, dest: Path, s: Services, node: SourceNode) {
    forall rel :: HoldsAt(fs, dest, s, node, rel)
  }

  predicate HoldsAt(fs: Fs, dest: Path, s: Services, node: SourceNode, rel: Path) {
    match Walk(s, node, rel)
    case None => Get(fs, dest + rel) == None
    case Some(n) => Intact(s, n) && Get(fs, dest + rel) == Some(OnDisk(s, n))
  }

  lemma ExtractedHolds(before: Fs, fs: Fs, dest: Path, s: Services, rank: Ranks, node: SourceNode)
    requires Ranked(s, rank) && Denote(s, rank, node).Some?
    requires Extracted(before, fs, dest, Denote(s, rank, node).value)
    ensures HoldsSource(fs, dest, s, node)
  {
    var t := Denote(s, rank, node).value;
    forall rel ensures HoldsAt(fs, dest, s, node, rel) {
      assert At(before, fs, dest, t, dest + rel);
      assert (dest + rel)[|dest|..] == rel;
      DenotedAt(s, rank, node, rel);
    }
  }

  class SourceDisk {
    var fs: Fs

    /** Write a source tree; the disk then holds exactly the tree that the node stands for. */
    method WriteSourceNode(node: SourceNode, dest: Path, s: Services,
                           ghost rank: Ranks) returns (r: Result<(), WriteError>)
      requires Ranked(s, rank) && Fresh(fs, dest)
      modifies this
      ensures Elsewhere(old(fs), fs, dest)
      ensures r.Success? <==> AllIntact(s, node)
      ensures r.Success? ==> HoldsSource(fs, dest, s, node)
      ensures r.Success? ==>
                Denote(s, rank, node).Some? && Extracted(old(fs), fs, dest, Denote(s, rank, node).value)
      ensures r.Failure? ==> BlamesReached(s, r.error, node)
    {
      ghost var root := Pending(dest, node);
      Started(fs, s, rank, root);
      DenotesIffIntact(s, rank, node);
      var pending := [Pending(dest, node)];
      while pending != []
        invariant Progress(old(fs), fs, s, rank, pending, root) && AllReached(s, root, pending)
        decreases StackWeight(s, rank, pending)
      {
        var p, rest := pending[|pending| - 1], pending[..|pending| - 1];
        assert pending == rest + [p];
        RestReached(s, root, rest, p);
        if p.node.DirRef? {
          if p.node.d !in s.dirs {
            Stopped(old(fs), fs, s, rank, rest, p, root);
            return Failure(MissingDirectory(p.node.d));
          }
          DirectoryProgress(old(fs), fs, s, rank, rest, p, root);
          KidsReached(s, root, rest, p);
          fs := fs[p.path := Dir];
          pending := rest + Kids(p.path, s.dirs[p.node.d]);
        } else {
          r := WriteLeaf(p, s, rank, rest, root, old(fs));
          if r.Failure? {
            return;
          }
          pending := rest;
        }
      }
      Finished(old(fs), fs, s, rank, root);
      ExtractedHolds(old(fs), fs, dest, s, rank, node);
      r := Success(());
    }

    /** A file or a symbolic link. */
    method WriteLeaf(p: Pending, s: Services, ghost rank: Ranks, ghost rest: seq<Pending>, ghost root: Pending,
                     ghost before: Fs)
      returns (r: Result<(), WriteError>)
      requires Ranked(s, rank) && Progress(before, fs, s, rank, rest + [p], root) && !p.node.DirRef?
      modifies this
      ensures Elsewhere(before, fs, root.path)
      ensures r.Failure? ==> Denote(s, rank, root.node).None? && Blames(s, r.error, p.node)
      ensures r.Success? ==> Progress(before, fs, s, rank, rest, root)
      ensures r.Success? ==> StackWeight(s, rank, rest) < StackWeight(s, rank, rest + [p])
    {
      match p.node
      case FileRef(d, size, x) =>
        if d !in s.blobs {
          Stopped(before, fs, s, rank, rest, p, root);
          return Failure(MissingBlob(d));
        }
        if |s.blobs[d]| != size {
          Stopped(before, fs, s, rank, rest, p, root);
          WroteElsewhere(before, fs, root.path, p.path, Reg(0x1A4, s.blobs[d]));
          fs := fs[p.path := Reg(0x1A4, s.blobs[d])];
          return Failure(WrongSize(d));
        }
        LeafProgress(before, fs, s, rank, rest, p, File(x, s.blobs[d]), root);
        fs := fs[p.path := Reg(ModeOf(x), s.blobs[d])];
        r := Success(());
      case LinkTo(target) =>
        LeafProgress(before, fs, s, rank, rest, p, Symlink(target), root);
        fs := fs[p.path := Link(target)];
        r := Success(());
    }
  }
}
