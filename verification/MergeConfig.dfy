/**
  Merging an evaluated configuration into the current manifest (`merge_config` in
  snix-redox/src/rebuild.rs): packages, users, groups and managed files.
 */
module MergeConfig {
  import opened Results
  import opened Bytes
  import opened Listings
  import opened NarTree
  import opened NarExtract
  import opened NarManifest
  import opened ConfigFiles
  import opened ManagedMode

  datatype Name = Name(text: string)

  // ----- Packages -----

  /** A package; `pin` stands for its version, store path and the rest. */
  datatype Package = Package(name: Name, pin: int)

  const BOOT_ESSENTIAL: set<Name> := {
    Name("ion"), Name("ion-shell"), Name("base"), Name("redox-base"), Name("init"), Name("logd"), Name("ramfs"),
    Name("zerod"), Name("nulld"), Name("randd"), Name("snix"), Name("snix-redox"), Name("uutils")
  }

  /** The first package of the list with the given name. */
  function First(ps: seq<Package>, n: Name): Option<Package> {
    if ps == [] then None
    else if First(ps[..|ps| - 1], n).Some? then First(ps[..|ps| - 1], n)
    else if ps[|ps| - 1].name == n then Some(ps[|ps| - 1])
    else None
  }

  /** The boot-essential packages, or the others. */
  function Part(ps: seq<Package>, boot: bool): seq<Package> {
    if ps == [] then []
    else Part(ps[..|ps| - 1], boot) + if (ps[|ps| - 1].name in BOOT_ESSENTIAL) == boot then [ps[|ps| - 1]] else []
  }

  function Essential(ps: seq<Package>): seq<Package> {
    Part(ps, true)
  }

  function Others(ps: seq<Package>): seq<Package> {
    Part(ps, false)
  }

  /** The list with only the first package of every name. */
  function Dedup(ps: seq<Package>): seq<Package> {
    if ps == [] then []
    else
      var init, p := ps[..|ps| - 1], ps[|ps| - 1];
      Dedup(init) + if First(init, p.name).None? then [p] else []
  }

  function MergedPackages(current: seq<Package>, resolved: seq<Package>): seq<Package> {
    Dedup(Essential(current) + resolved)
  }

  lemma LastOf<T>(s: seq<T>, x: T)
    ensures (s + [x])[..|s|] == s && (s + [x])[|s|] == x
  {
  }

  lemma SplitLast<T>(s: seq<T>)
    requires s != []
    ensures s == s[..|s| - 1] + [s[|s| - 1]]
  {
  }

  lemma JoinLast<T>(a: seq<T>, b: seq<T>)
    requires b != []
    ensures (a + b)[..|a + b| - 1] == a + b[..|b| - 1] && (a + b)[|a + b| - 1] == b[|b| - 1]
  {
  }

  lemma {:induction false} FirstIsNamed(ps: seq<Package>, n: Name)
    ensures First(ps, n).Some? ==> First(ps, n).value.name == n && First(ps, n).value in ps
    ensures First(ps, n).None? ==> forall p :: p in ps ==> p.name != n
  {
    if ps != [] {
      FirstIsNamed(ps[..|ps| - 1], n);
      SplitLast(ps);
    }
  }

  lemma {:induction false} FirstJoin(a: seq<Package>, b: seq<Package>, n: Name)
    ensures First(a + b, n) == if First(a, n).Some? then First(a, n) else First(b, n)
    decreases |b|
  {
    if b == [] {
      assert a + b == a;
    } else {
      JoinLast(a, b);
      FirstJoin(a, b[..|b| - 1], n);
    }
  }

  lemma FirstMore(ps: seq<Package>, p: Package, n: Name)
    ensures First(ps + [p], n) == if First(ps, n).Some? then First(ps, n) else if p.name == n then Some(p) else None
  {
  }

  lemma {:induction false} FirstPart(ps: seq<Package>, boot: bool, n: Name)
    ensures First(Part(ps, boot), n) == if (n in BOOT_ESSENTIAL) == boot then First(ps, n) else None
  {
    if ps != [] {
      var init, p := ps[..|ps| - 1], ps[|ps| - 1];
      FirstPart(init, boot, n);
      if (p.name in BOOT_ESSENTIAL) == boot {
        FirstMore(Part(init, boot), p, n);
      } else {
        assert Part(init, boot) + [] == Part(init, boot);
      }
    }
  }

  lemma {:induction false} FirstDedup(ps: seq<Package>, n: Name)
    ensures First(Dedup(ps), n) == First(ps, n)
  {
    if ps != [] {
      var init, p := ps[..|ps| - 1], ps[|ps| - 1];
      FirstDedup(init, n);
      if First(init, p.name).None? {
        FirstMore(Dedup(init), p, n);
      } else {
        assert Dedup(init) + [] == Dedup(init);
      }
    }
  }

  predicate DistinctNames(ps: seq<Package>) {
    forall i, j :: 0 <= i < j < |ps| ==> ps[i].name != ps[j].name
  }

  lemma {:induction false} DedupDistinct(ps: seq<Package>)
    ensures DistinctNames(Dedup(ps))
  {
    if ps != [] {
      var init, p := ps[..|ps| - 1], ps[|ps| - 1];
      DedupDistinct(init);
      FirstDedup(init, p.name);
      FirstIsNamed(Dedup(init), p.name);
    }
  }

  /** Boot-essential packages keep their current first entry, every other name gets its first
      resolved entry, and no name is listed twice. */
  lemma MergedPackagesByName(current: seq<Package>, resolved: seq<Package>, n: Name)
    ensures DistinctNames(MergedPackages(current, resolved))
    ensures First(MergedPackages(current, resolved), n)
            == if n in BOOT_ESSENTIAL && First(current, n).Some? then First(current, n) else First(resolved, n)
  {
    DedupDistinct(Essential(current) + resolved);
    FirstDedup(Essential(current) + resolved, n);
    FirstJoin(Essential(current), resolved, n);
    FirstPart(current, true, n);
  }

  /** Merging twice selects the same package for every name. */
  lemma PackagesMergeTwice(current: seq<Package>, resolved: seq<Package>, n: Name)
    ensures First(MergedPackages(MergedPackages(current, resolved), resolved), n)
            == First(MergedPackages(current, resolved), n)
  {
    MergedPackagesByName(current, resolved, n);
    MergedPackagesByName(MergedPackages(current, resolved), resolved, n);
  }

  // ----- Order of packages -----

  lemma {:induction false} DedupId(ps: seq<Package>)
    requires DistinctNames(ps)
    ensures Dedup(ps) == ps
  {
    if ps != [] {
      var init, p := ps[..|ps| - 1], ps[|ps| - 1];
      DedupId(init);
      SplitLast(ps);
      FirstIsNamed(init, p.name);
    }
  }

  lemma {:induction false} PartJoin(a: seq<Package>, b: seq<Package>, boot: bool)
    ensures Part(a + b, boot) == Part(a, boot) + Part(b, boot)
    decreases |b|
  {
    if b == [] {
      assert a + b == a && Part(a, boot) + [] == Part(a, boot);
    } else {
      JoinLast(a, b);
      PartJoin(a, b[..|b| - 1], boot);
    }
  }

  lemma PartMore(ps: seq<Package>, p: Package, boot: bool)
    ensures Part(ps + [p], boot) == Part(ps, boot) + if (p.name in BOOT_ESSENTIAL) == boot then [p] else []
  {
    LastOf(ps, p);
  }

  lemma DedupMore(ps: seq<Package>, p: Package)
    ensures Dedup(ps + [p]) == Dedup(ps) + if First(ps, p.name).None? then [p] else []
  {
    LastOf(ps, p);
  }

  lemma {:induction false} PartDedup(ps: seq<Package>, boot: bool)
    ensures Part(Dedup(ps), boot) == Dedup(Part(ps, boot))
  {
    if ps != [] {
      var init, p := ps[..|ps| - 1], ps[|ps| - 1];
      PartDedup(init, boot);
      FirstPart(init, boot, p.name);
      SplitLast(ps);
      DedupMore(init, p);
      PartMore(init, p, boot);
      assert Dedup(init) + [] == Dedup(init) && Part(init, boot) + [] == Part(init, boot);
      if First(init, p.name).None? {
        PartMore(Dedup(init), p, boot);
      }
      if (p.name in BOOT_ESSENTIAL) == boot {
        DedupMore(Part(init, boot), p);
      }
    }
  }

  lemma {:induction false} PartTwice(ps: seq<Package>, boot: bool)
    ensures Part(Part(ps, boot), boot) == Part(ps, boot) && Part(Part(ps, boot), !boot) == []
    ensures forall p :: p in Part(ps, boot) ==> p in ps && (p.name in BOOT_ESSENTIAL) == boot
  {
    if ps != [] {
      var init, p := ps[..|ps| - 1], ps[|ps| - 1];
      PartTwice(init, boot);
      PartMore(Part(init, boot), p, boot);
      PartMore(Part(init, boot), p, !boot);
      SplitLast(ps);
      assert Part(init, boot) + [] == Part(init, boot);
    }
  }

  lemma NamesBefore(ps: seq<Package>)
    requires ps != [] && DistinctNames(ps)
    ensures DistinctNames(ps[..|ps| - 1])
    ensures forall q :: q in ps[..|ps| - 1] ==> q.name != ps[|ps| - 1].name
  {
  }

  lemma NamesMore(ps: seq<Package>, p: Package)
    requires DistinctNames(ps) && forall q :: q in ps ==> q.name != p.name
    ensures DistinctNames(ps + [p])
  {
  }

  lemma {:induction false} EssentialDistinct(ps: seq<Package>)
    requires DistinctNames(ps)
    ensures DistinctNames(Essential(ps))
  {
    if ps != [] {
      var init, p := ps[..|ps| - 1], ps[|ps| - 1];
      NamesBefore(ps);
      EssentialDistinct(init);
      PartTwice(init, true);
      NamesMore(Essential(init), p);
    }
  }

  lemma MergedCoversResolved(current: seq<Package>, resolved: seq<Package>)
    ensures forall p :: p in resolved ==> First(MergedPackages(current, resolved), p.name).Some?
  {
    forall p | p in resolved ensures First(MergedPackages(current, resolved), p.name).Some? {
      MergedPackagesByName(current, resolved, p.name);
      FirstIsNamed(resolved, p.name);
    }
  }

  /** Behind boot-essential packages that cover those of a list, only its other packages add anything. */
  lemma {:induction false} DedupBehind(e: seq<Package>, b: seq<Package>)
    requires forall n :: First(e, n).Some? ==> n in BOOT_ESSENTIAL
    requires forall p :: p in b && p.name in BOOT_ESSENTIAL ==> First(e, p.name).Some?
    ensures Dedup(e + b) == Dedup(e) + Dedup(Others(b))
    decreases |b|
  {
    if b == [] {
      assert e + b == e && Dedup(e) + [] == Dedup(e);
    } else {
      var init, p := b[..|b| - 1], b[|b| - 1];
      SplitLast(b);
      DedupBehind(e, init);
      assert e + b == e + init + [p];
      DedupMore(e + init, p);
      PartMore(init, p, false);
      FirstJoin(e, init, p.name);
      FirstPart(init, false, p.name);
      OthersStep(e, init, p);
    }
  }

  lemma OthersStep(e: seq<Package>, init: seq<Package>, p: Package)
    requires p.name in BOOT_ESSENTIAL ==> First(e, p.name).Some?
    requires p.name !in BOOT_ESSENTIAL ==> First(e, p.name).None?
    ensures Dedup(e) + Dedup(Others(init)) + (if First(e, p.name).None? && First(init, p.name).None? then [p] else [])
            == Dedup(e) + Dedup(Others(init + [p]))
  {
    PartMore(init, p, false);
    FirstPart(init, false, p.name);
    if p.name in BOOT_ESSENTIAL {
      assert Others(init) + [] == Others(init);
      JoinThree(Dedup(e), Dedup(Others(init)), []);
    } else {
      DedupMore(Others(init), p);
      JoinThree(Dedup(e), Dedup(Others(init)), if First(init, p.name).None? then [p] else []);
    }
  }

  /** The second merge moves the boot-essential packages to the front and keeps the order otherwise. */
  lemma SecondMergePartitions(current: seq<Package>, resolved: seq<Package>)
    ensures var once := MergedPackages(current, resolved);
            MergedPackages(once, resolved) == Essential(once) + Others(once)
  {
    var once := MergedPackages(current, resolved);
    var e := Essential(once);
    MergedCoversResolved(current, resolved);
    forall n ensures First(e, n).Some? ==> n in BOOT_ESSENTIAL { FirstPart(once, true, n); }
    forall p | p in resolved && p.name in BOOT_ESSENTIAL ensures First(e, p.name).Some? {
      FirstPart(once, true, p.name);
    }
    DedupBehind(e, resolved);
    DedupDistinct(Essential(current) + resolved);
    EssentialDistinct(once);
    DedupId(e);
    PartDedup(Essential(current) + resolved, false);
    PartJoin(Essential(current), resolved, false);
    PartTwice(current, true);
    assert [] + Others(resolved) == Others(resolved);
  }

  /** The order settles with the second merge: the third gives the same list. */
  lemma OrderSettles(current: seq<Package>, resolved: seq<Package>)
    ensures var twice := MergedPackages(MergedPackages(current, resolved), resolved);
            MergedPackages(twice, resolved) == twice
  {
    var once := MergedPackages(current, resolved);
    var e, o := Essential(once), Others(once);
    SecondMergePartitions(current, resolved);
    SecondMergePartitions(once, resolved);
    PartJoin(e, o, true);
    PartJoin(e, o, false);
    PartTwice(once, true);
    PartTwice(once, false);
    assert e + [] == e && [] + o == o;
  }

  /** Boot-essential packages come first. */
  predicate Partitioned(ps: seq<Package>) {
    ps == Essential(ps) + Others(ps)
  }

  lemma PartitionedMore(ps: seq<Package>, p: Package)
    ensures Partitioned(ps + [p]) <==> Partitioned(ps) && (p.name !in BOOT_ESSENTIAL || Others(ps) == [])
  {
    var e, o := Essential(ps), Others(ps);
    PartMore(ps, p, true);
    PartMore(ps, p, false);
    if p.name !in BOOT_ESSENTIAL {
      assert e + [] == e;
      CancelLast(ps, e + o, p);
      JoinThree(e, o, [p]);
    } else if o == [] {
      assert e + o == e && o + [] == [] && e + [p] + [] == e + [p];
      CancelLast(ps, e, p);
    } else {
      PartTwice(ps, false);
      assert o + [] == o && o[|o| - 1] in o;
      assert (e + [p] + o)[|e + [p] + o| - 1] == o[|o| - 1];
      assert (ps + [p])[|ps|] == p;
    }
  }

  lemma CancelLast<T>(a: seq<T>, b: seq<T>, x: T)
    ensures a + [x] == b + [x] <==> a == b
  {
    LastOf(a, x);
    LastOf(b, x);
  }

  /** A boot-essential package that is neither installed nor listed earlier, behind another package. */
  predicate LateEssential(current: seq<Package>, resolved: seq<Package>, i: nat)
    requires i < |resolved|
  {
    && resolved[i].name in BOOT_ESSENTIAL
    && First(current, resolved[i].name).None?
    && First(resolved[..i], resolved[i].name).None?
    && Others(resolved[..i]) != []
  }

  predicate NoneLate(current: seq<Package>, resolved: seq<Package>) {
    forall i :: 0 <= i < |resolved| ==> !LateEssential(current, resolved, i)
  }

  lemma NoneLateMore(current: seq<Package>, resolved: seq<Package>, p: Package)
    ensures NoneLate(current, resolved + [p])
            <==> NoneLate(current, resolved) && !LateEssential(current, resolved + [p], |resolved|)
  {
    var more := resolved + [p];
    forall i | 0 <= i < |resolved| ensures LateEssential(current, more, i) <==> LateEssential(current, resolved, i) {
      assert more[..i] == resolved[..i];
    }
  }

  lemma OthersMerged(current: seq<Package>, resolved: seq<Package>)
    ensures Others(MergedPackages(current, resolved)) == Dedup(Others(resolved))
    ensures Others(MergedPackages(current, resolved)) == [] <==> Others(resolved) == []
  {
    PartDedup(Essential(current) + resolved, false);
    PartJoin(Essential(current), resolved, false);
    PartTwice(current, true);
    assert [] + Others(resolved) == Others(resolved);
    DedupEmpty(Others(resolved));
  }

  lemma {:induction false} DedupEmpty(ps: seq<Package>)
    ensures Dedup(ps) == [] <==> ps == []
  {
    if ps != [] {
      DedupEmpty(ps[..|ps| - 1]);
    }
  }

  lemma {:induction false} OncePartitioned(current: seq<Package>, resolved: seq<Package>)
    ensures Partitioned(MergedPackages(current, resolved)) <==> NoneLate(current, resolved)
    decreases |resolved|
  {
    var e := Essential(current);
    if resolved == [] {
      assert e + resolved == e;
      PartDedup(e, true);
      PartTwice(current, true);
      OthersMerged(current, resolved);
      assert Dedup(e) + [] == Dedup(e);
    } else {
      var init, p := resolved[..|resolved| - 1], resolved[|resolved| - 1];
      var merged := MergedPackages(current, init);
      SplitLast(resolved);
      OncePartitioned(current, init);
      NoneLateMore(current, init, p);
      JoinThree(e, init, [p]);
      DedupMore(e + init, p);
      FirstJoin(e, init, p.name);
      FirstPart(current, true, p.name);
      OthersMerged(current, init);
      PartitionedMore(merged, p);
      assert merged + [] == merged;
      assert (init + [p])[..|init|] == init;
    }
  }

  /** The second merge leaves the list as it is exactly when no new boot-essential package comes
      behind another package. */
  lemma SecondMergeKeepsOrder(current: seq<Package>, resolved: seq<Package>)
    ensures var once := MergedPackages(current, resolved);
            MergedPackages(once, resolved) == once <==> NoneLate(current, resolved)
  {
    SecondMergePartitions(current, resolved);
    OncePartitioned(current, resolved);
  }

  const VIM := Package(Name("vim"), 1)
  const ION := Package(Name("ion"), 2)

  /** Lists that the second merge reorders: a shell that is new to the system comes behind an editor. */
  lemma SecondMergeCanReorder()
    ensures MergedPackages(MergedPackages([], [VIM, ION]), [VIM, ION]) != MergedPackages([], [VIM, ION])
  {
    var both := [VIM, ION];
    VimIsNotEssential();
    assert both[..1] == [VIM];
    FirstIsNamed([VIM], ION.name);
    assert LateEssential([], both, 1);
    SecondMergeKeepsOrder([], both);
  }

  lemma VimIsNotEssential()
    ensures VIM.name !in BOOT_ESSENTIAL && ION.name in BOOT_ESSENTIAL
  {
    assert VIM.name.text[0] == 'v';
    forall n | n in BOOT_ESSENTIAL ensures n.text[0] != 'v' {
    }
  }

  /** The loops over the packages: `seen` holds the names taken so far. */
  method MergePackages(current: seq<Package>, resolved: seq<Package>) returns (merged: seq<Package>)
    ensures merged == MergedPackages(current, resolved)
  {
    var boot := [];
    for i := 0 to |current|
      invariant boot == Essential(current[..i])
    {
      LastOf(current[..i], current[i]);
      assert current[..i + 1] == current[..i] + [current[i]];
      PartMore(current[..i], current[i], true);
      if current[i].name in BOOT_ESSENTIAL {
        boot := boot + [current[i]];
      }
    }
    assert current[..|current|] == current;
    var seen := {};
    merged, seen := TakeNew([], {}, boot, []);
    assert [] + boot == boot;
    merged, seen := TakeNew(merged, seen, resolved, boot);
  }

  ghost predicate NamesTaken(seen: set<Name>, ps: seq<Package>) {
    forall n :: n in seen <==> First(ps, n).Some?
  }

  /** Append the packages whose names are new; `before` lists everything offered earlier. */
  method TakeNew(taken: seq<Package>, names: set<Name>, offered: seq<Package>, ghost before: seq<Package>)
    returns (merged: seq<Package>, seen: set<Name>)
    requires taken == Dedup(before) && NamesTaken(names, before)
    ensures merged == Dedup(before + offered) && NamesTaken(seen, before + offered)
  {
    merged, seen := taken, names;
    assert before + offered[..0] == before;
    for i := 0 to |offered|
      invariant merged == Dedup(before + offered[..i]) && NamesTaken(seen, before + offered[..i])
    {
      var p := offered[i];
      assert before + offered[..i + 1] == before + offered[..i] + [p];
      DedupMore(before + offered[..i], p);
      forall n ensures n in seen + {p.name} <==> First(before + offered[..i + 1], n).Some? {
        FirstMore(before + offered[..i], p, n);
      }
      if p.name !in seen {
        merged := merged + [p];
      }
      seen := seen + {p.name};
    }
    assert offered[..|offered|] == offered;
  }

  // ----- Files -----

  /** A managed file as a configuration gives it; the mode defaults to 0644. */
  datatype FileInput = FileInput(text: Text, mode: Option<Text>)

  /** A file in a manifest; `text` is present when the file is inline. */
  datatype FileRecord = FileRecord(hash: Hash, size: nat, mode: Text, text: Option<Text>)

  type Records = map<Key, FileRecord>

  const DEFAULT_MODE: Text := FormatMode(0x1A4)

  /** The path as it is stored, when it is accepted. */
  function StoredKey(k: Key): Option<Key> {
    match Resolve(k)
    case None => None
    case Some(p) => Some(Key(Join(p.parts)))
  }

  function StoredMode(i: FileInput): Option<Text> {
    NormalizeMode(if i.mode.Some? then i.mode.value else DEFAULT_MODE)
  }

  predicate Accepted(k: Key, i: FileInput) {
    StoredKey(k).Some? && StoredMode(i).Some?
  }

  function RecordOf(i: FileInput, h: Text -> Hash): FileRecord
    requires StoredMode(i).Some?
  {
    FileRecord(h(i.text), |i.text|, StoredMode(i).value, Some(i.text))
  }

  /** The files that are not inline. */
  function Tracked(files: Records): Records {
    map k | k in files && files[k].text.None? :: files[k]
  }

  /** The last of the listed spellings of a path. */
  function LastSpelling(names: seq<Text>, q: Key): Option<Key> {
    if names == [] then None
    else if StoredKey(Key(names[|names| - 1])) == Some(q) then Some(Key(names[|names| - 1]))
    else LastSpelling(names[..|names| - 1], q)
  }

  function Spellings(input: map<Key, FileInput>): seq<Text> {
    Sorted(set k | k in input :: k.text)
  }

  function Lookup(files: Records, q: Key): Option<FileRecord> {
    if q in files then Some(files[q]) else None
  }

  /** The files after the first listed inputs were put in: the last spelling of a path decides. */
  ghost predicate FilesAre(files: Records, before: Records, input: map<Key, FileInput>, names: seq<Text>,
                           h: Text -> Hash) {
    forall q :: FileIs(files, before, input, names, h, q)
  }

  ghost predicate FileIs(files: Records, before: Records, input: map<Key, FileInput>, names: seq<Text>,
                         h: Text -> Hash, q: Key) {
    match LastSpelling(names, q)
    case None => Lookup(files, q) == Lookup(before, q)
    case Some(k) => k in input && StoredMode(input[k]).Some? && Lookup(files, q) == Some(RecordOf(input[k], h))
  }

  lemma SpellingsAre(input: map<Key, FileInput>, t: Text)
    ensures t in Spellings(input) <==> Key(t) in input
  {
    var all := set k | k in input :: k.text;
    assert t in Spellings(input) <==> t in Elems(Spellings(input));
    if Key(t) in input {
      assert Key(t).text in all;
    }
    if t in all {
      var k :| k in input && k.text == t;
      assert k == Key(t);
    }
  }

  datatype MergeError = BadFilePath(k: Key) | BadFileMode(k: Key)

  /** The error names a file of the configuration and what is wrong with it. */
  predicate Refused(input: map<Key, FileInput>, e: MergeError) {
    && e.k in input
    && if e.BadFilePath? then StoredKey(e.k).None? else StoredKey(e.k).Some? && StoredMode(input[e.k]).None?
  }

  predicate AllAccepted(input: map<Key, FileInput>) {
    forall k :: k in input ==> Accepted(k, input[k])
  }

  /** Drop the inline files and put in those of the configuration, in the order of their paths. */
  method MergeFiles(current: Records, input: map<Key, FileInput>, h: Text -> Hash)
    returns (r: Result<Records, MergeError>)
    ensures r.Success? <==> AllAccepted(input)
    ensures r.Failure? ==> Refused(input, r.error)
    ensures r.Success? ==> FilesAre(r.value, Tracked(current), input, Spellings(input), h)
  {
    var files := Tracked(current);
    var names := Spellings(input);
    MergedNothing(files, input, names, h);
    for i := 0 to |names|
      invariant MergedSoFar(files, Tracked(current), input, names, i, h)
    {
      SpellingsAre(input, names[i]);
      r := PutFile(files, input, Key(names[i]), h);
      if r.Failure? {
        return;
      }
      MergedMore(files, r.value, Tracked(current), input, names, i, h);
      files := r.value;
    }
    assert names[..|names|] == names;
    EveryAccepted(input);
    r := Success(files);
  }

  /** Check one path and its mode, then put the file in. */
  method PutFile(files: Records, input: map<Key, FileInput>, k: Key, h: Text -> Hash)
    returns (r: Result<Records, MergeError>)
    requires k in input
    ensures r.Success? <==> Accepted(k, input[k])
    ensures r.Failure? ==> Refused(input, r.error)
    ensures r.Success? ==> r.value == files[StoredKey(k).value := RecordOf(input[k], h)]
  {
    var path, mode := StoredKey(k), StoredMode(input[k]);
    if path.None? {
      return Failure(BadFilePath(k));
    }
    if mode.None? {
      return Failure(BadFileMode(k));
    }
    r := Success(files[path.value := FileRecord(h(input[k].text), |input[k].text|, mode.value, Some(input[k].text))]);
  }

  ghost predicate AcceptedAt(names: seq<Text>, j: nat, input: map<Key, FileInput>)
    requires j < |names|
  {
    Key(names[j]) in input && Accepted(Key(names[j]), input[Key(names[j])])
  }

  ghost predicate AcceptedSoFar(names: seq<Text>, i: nat, input: map<Key, FileInput>) {
    i <= |names| && forall j :: 0 <= j < i ==> AcceptedAt(names, j, input)
  }

  lemma EveryAccepted(input: map<Key, FileInput>)
    requires AcceptedSoFar(Spellings(input), |Spellings(input)|, input)
    ensures AllAccepted(input)
  {
    var names := Spellings(input);
    forall k | k in input ensures Accepted(k, input[k]) {
      SpellingsAre(input, k.text);
      var j :| 0 <= j < |names| && names[j] == k.text;
      assert AcceptedAt(names, j, input);
    }
  }

  /** The first `i` inputs were accepted and put in. */
  ghost predicate MergedSoFar(files: Records, before: Records, input: map<Key, FileInput>, names: seq<Text>, i: nat,
                              h: Text -> Hash) {
    AcceptedSoFar(names, i, input) && FilesAre(files, before, input, names[..i], h)
  }

  lemma MergedNothing(files: Records, input: map<Key, FileInput>, names: seq<Text>, h: Text -> Hash)
    ensures MergedSoFar(files, files, input, names, 0, h)
  {
    assert forall q :: LastSpelling(names[..0], q) == None;
  }

  lemma MergedMore(files: Records, after: Records, before: Records, input: map<Key, FileInput>, names: seq<Text>,
                   i: nat, h: Text -> Hash)
    requires i < |names| && MergedSoFar(files, before, input, names, i, h) && PutIn(files, after, input, names[i], h)
    ensures MergedSoFar(after, before, input, names, i + 1, h)
  {
    PutOne(files, after, before, input, names[..i], names[i], h);
    OneMoreName(names, i);
    assert AcceptedAt(names, i, input);
  }

  lemma OneMoreName(names: seq<Text>, i: nat)
    requires i < |names|
    ensures names[..i + 1] == names[..i] + [names[i]]
  {
  }

  lemma PutOne(files: Records, after: Records, before: Records, input: map<Key, FileInput>, names: seq<Text>, t: Text,
               h: Text -> Hash)
    requires FilesAre(files, before, input, names, h) && PutIn(files, after, input, t, h)
    ensures FilesAre(after, before, input, names + [t], h)
  {
    forall q ensures FileIs(after, before, input, names + [t], h, q) {
      assert FileIs(files, before, input, names, h, q);
      PutOneAt(files, after, before, input, names, t, h, q);
    }
  }

  /** The file that an input describes was put in. */
  ghost predicate PutIn(files: Records, after: Records, input: map<Key, FileInput>, t: Text, h: Text -> Hash) {
    && Key(t) in input && Accepted(Key(t), input[Key(t)])
    && after == files[StoredKey(Key(t)).value := RecordOf(input[Key(t)], h)]
  }

  lemma PutOneAt(files: Records, after: Records, before: Records, input: map<Key, FileInput>, names: seq<Text>,
                 t: Text, h: Text -> Hash, q: Key)
    requires FileIs(files, before, input, names, h, q) && PutIn(files, after, input, t, h)
    ensures FileIs(after, before, input, names + [t], h, q)
  {
    LastOf(names, t);
  }

  /** Putting the same files in again changes nothing. */
  lemma FilesMergeTwice(current: Records, once: Records, twice: Records, input: map<Key, FileInput>, h: Text -> Hash)
    requires FilesAre(once, Tracked(current), input, Spellings(input), h)
    requires FilesAre(twice, Tracked(once), input, Spellings(input), h)
    ensures twice == once
  {
    forall q ensures Lookup(twice, q) == Lookup(once, q) {
      assert FileIs(once, Tracked(current), input, Spellings(input), h, q);
      assert FileIs(twice, Tracked(once), input, Spellings(input), h, q);
    }
    assert forall q :: q in twice <==> Lookup(twice, q).Some?;
    assert forall q :: q in once <==> Lookup(once, q).Some?;
    forall q | q in once ensures q in twice && twice[q] == once[q] {
      assert Lookup(twice, q) == Lookup(once, q);
    }
  }

  // ----- Stored files can be activated -----

  lemma {:induction false} KeptIsPlain(parts: Path)
    requires DOTDOT !in parts && forall i :: 0 <= i < |parts| ==> NoSlash(parts[i].name)
    ensures PlainPath(Kept(parts))
    decreases |parts|
  {
    if parts != [] {
      assert parts == [parts[0]] + parts[1..];
      KeptIsPlain(parts[1..]);
      assert NoSlash(parts[0].name);
    }
  }

  predicate NoSlash(t: Text) {
    forall i :: 0 <= i < |t| ==> t[i] != SLASH
  }

  lemma {:induction false} SplitHasNoSlash(s: Text, current: Text)
    requires NoSlash(current)
    ensures forall i :: 0 <= i < |Split(s, current)| ==> NoSlash(Split(s, current)[i].name)
    decreases |s|
  {
    if s != [] {
      if s[0] == SLASH {
        SplitHasNoSlash(s[1..], []);
      } else {
        SplitHasNoSlash(s[1..], current + [s[0]]);
      }
    }
  }

  /** Stored paths are normal, and storing them again changes nothing. */
  lemma StoredKeyIsNormal(k: Key)
    requires StoredKey(k).Some?
    ensures Normal(StoredKey(k).value)
    ensures Resolve(StoredKey(k).value) == Resolve(k) && StoredKey(StoredKey(k).value) == StoredKey(k)
  {
    var parts := Split(k.text, []);
    SplitHasNoSlash(k.text, []);
    KeptIsPlain(parts);
    ResolveJoined(Kept(parts));
  }

  function View(files: Records): Files {
    map k | k in files :: FileInfo(files[k].hash, files[k].text, ParseMode(files[k].mode))
  }

  /** Every inline file of a merged manifest has a normal path, a readable mode and the hash of its text. */
  lemma MergedFilesActivate(current: Records, merged: Records, input: map<Key, FileInput>, h: Text -> Hash, q: Key)
    requires FilesAre(merged, Tracked(current), input, Spellings(input), h) && Inline(View(merged), q)
    ensures Normal(q) && View(merged)[q].mode.Some? && View(merged)[q].hash == h(View(merged)[q].text.value)
  {
    assert FileIs(merged, Tracked(current), input, Spellings(input), h, q);
    LastSpellingIs(Spellings(input), q);
    var k := LastSpelling(Spellings(input), q).value;
    StoredKeyIsNormal(k);
    NormalizeKeepsMode(if input[k].mode.Some? then input[k].mode.value else DEFAULT_MODE);
  }

  lemma {:induction false} LastSpellingIs(names: seq<Text>, q: Key)
    ensures LastSpelling(names, q).Some? ==> StoredKey(LastSpelling(names, q).value) == Some(q)
  {
    if names != [] { LastSpellingIs(names[..|names| - 1], q); }
  }

  // ----- The whole merge -----

  datatype User = User(uid: nat, gid: nat, home: string, shell: string)

  datatype Group = Group(gid: nat, members: seq<Name>)

  datatype Manifest = Manifest(packages: seq<Package>, users: map<Name, User>, groups: map<Name, Group>, files: Records)

  /** What a configuration sets; `packages` says whether it lists packages. */
  datatype Config = Config(packages: bool, users: Option<map<Name, User>>, files: Option<map<Key, FileInput>>)

  function GroupsOf(users: map<Name, User>): map<Name, Group> {
    map n | n in users :: Group(users[n].gid, [n])
  }

  predicate PackagesReplaced(c: Config, resolved: seq<Package>) {
    c.packages && resolved != []
  }

  /** How a merged manifest follows from the current one. */
  ghost predicate IsMerge(current: Manifest, c: Config, resolved: seq<Package>, h: Text -> Hash, m: Manifest) {
    && m.packages == (if PackagesReplaced(c, resolved) then MergedPackages(current.packages, resolved)
                      else current.packages)
    && m.users == (if c.users.Some? then c.users.value else current.users)
    && m.groups == (if c.users.Some? then GroupsOf(c.users.value) else current.groups)
    && (c.files.None? ==> m.files == current.files)
    && (c.files.Some? ==> FilesAre(m.files, Tracked(current.files), c.files.value, Spellings(c.files.value), h))
  }

  method Merge(current: Manifest, c: Config, resolved: seq<Package>, h: Text -> Hash)
    returns (r: Result<Manifest, MergeError>)
    ensures r.Success? <==> (c.files.Some? ==> AllAccepted(c.files.value))
    ensures r.Failure? ==> c.files.Some? && Refused(c.files.value, r.error)
    ensures r.Success? ==> IsMerge(current, c, resolved, h, r.value)
  {
    var m := current;
    if c.users.Some? {
      m := m.(users := c.users.value, groups := GroupsOf(c.users.value));
    }
    if c.files.Some? {
      var files := MergeFiles(current.files, c.files.value, h);
      if files.Failure? {
        return Failure(files.error);
      }
      m := m.(files := files.value);
    }
    if c.packages && resolved != [] {
      var merged := MergePackages(current.packages, resolved);
      m := m.(packages := merged);
    }
    r := Success(m);
  }

  /** Merging the same configuration twice gives the same files, users, groups and packages by name. */
  lemma MergeTwice(current: Manifest, c: Config, resolved: seq<Package>,
                   h: Text -> Hash, once: Manifest, twice: Manifest, n: Name)
    requires IsMerge(current, c, resolved, h, once) && IsMerge(once, c, resolved, h, twice)
    ensures twice.files == once.files && twice.users == once.users && twice.groups == once.groups
    ensures First(twice.packages, n) == First(once.packages, n)
    ensures !PackagesReplaced(c, resolved) ==> twice.packages == once.packages
  {
    if c.files.Some? {
      FilesMergeTwice(current.files, once.files, twice.files, c.files.value, h);
    }
    PackagesMergeTwice(current.packages, resolved, n);
  }
}
