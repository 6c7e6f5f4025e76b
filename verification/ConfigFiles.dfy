/**
  Managed configuration files: comparing two manifests and applying the difference to the disk
  (`diff_config_files`, `write_inline_config_file_at` and `update_config_files_at` in
  snix-redox/src/activate.rs).
 */
module ConfigFiles {
  import opened Results
  import opened Bytes
  import opened Listings
  import opened Nar
  import opened NarTree
  import opened NarExtract
  import opened NarManifest

  /** A path as a manifest spells it. */
  datatype Key = Key(text: Text)

  /** A place on disk, below the root. */
  datatype Place = Place(parts: Path)

  // ----- Paths -----

  const DOT := Comp(Ascii("."))
  const DOTDOT := Comp(Ascii(".."))
  const NOTHING := Comp([])

  function Kept(parts: Path): Path {
    if parts == [] then []
    else if parts[0] == DOT || parts[0] == NOTHING then Kept(parts[1..])
    else [parts[0]] + Kept(parts[1..])
  }

  /** The components of a path: repeated slashes and dots after the first component are skipped; a
      leading slash or dot, any double dot and the empty path are refused. */
  function Resolve(k: Key): Option<Place> {
    var parts := Split(k.text, []);
    if k.text == [] || parts == [] || parts[0] == NOTHING || parts[0] == DOT then None
    else if DOTDOT in parts || Kept(parts) == [] then None
    else Some(Place(Kept(parts)))
  }

  /** A path written as its components joined by single slashes. */
  ghost predicate Normal(k: Key) {
    exists p: Path :: p != [] && PlainPath(p) && k.text == Join(p)
  }

  predicate PlainPath(p: Path) {
    CleanPath(p) && forall i :: 0 <= i < |p| ==> p[i] != DOT && p[i] != DOTDOT
  }

  lemma {:induction false} KeptAll(p: Path)
    requires PlainPath(p)
    ensures Kept(p) == p
  {
    if p != [] {
      assert CleanName(p[0].name);
      KeptAll(p[1..]);
      assert p == [p[0]] + p[1..];
    }
  }

  lemma ResolveJoined(p: Path)
    requires p != [] && PlainPath(p)
    ensures Resolve(Key(Join(p))) == Some(Place(p))
  {
    SplitJoin(p);
    KeptAll(p);
    assert CleanName(p[0].name);
  }

  /** Normal paths are accepted, and different ones name different places. */
  lemma NormalPathsApart(a: Key, b: Key)
    requires Normal(a) && Normal(b)
    ensures Resolve(a).Some? && (Resolve(a) == Resolve(b) <==> a == b)
  {
    var p: Path :| p != [] && PlainPath(p) && a.text == Join(p);
    var q: Path :| q != [] && PlainPath(q) && b.text == Join(q);
    ResolveJoined(p);
    ResolveJoined(q);
    assert a == Key(Join(p)) && b == Key(Join(q));
  }

  lemma {:induction false} SplitAtSlash(a: Text, b: Text, current: Text)
    ensures Split(a + [SLASH] + b, current) == Split(a, current) + Split(b, [])
    decreases |a|
  {
    var t := a + [SLASH] + b;
    if a == [] {
      assert t[0] == SLASH && t[1..] == b;
    } else {
      assert t[0] == a[0] && t[1..] == a[1..] + [SLASH] + b;
      if a[0] == SLASH {
        SplitAtSlash(a[1..], b, []);
      } else {
        SplitAtSlash(a[1..], b, current + [a[0]]);
      }
    }
  }

  lemma {:induction false} KeptJoin(a: Path, b: Path)
    ensures Kept(a + b) == Kept(a) + Kept(b)
    decreases |a|
  {
    if a == [] {
      assert a + b == b;
    } else {
      assert (a + b)[1..] == a[1..] + b;
      KeptJoin(a[1..], b);
    }
  }

  /** What a path becomes when something is written behind it. */
  lemma ResolveMore(a: Text, b: Text)
    requires a != []
    ensures Resolve(Key(a + [SLASH] + b))
            == match Resolve(Key(a))
               case None => None
               case Some(p) =>
                 if DOTDOT in Split(b, []) then None else Some(Place(p.parts + Kept(Split(b, []))))
  {
    SplitAtSlash(a, b, []);
    KeptJoin(Split(a, []), Split(b, []));
    var parts, more := Split(a, []), Split(b, []);
    assert (parts + more)[0] == parts[0] && Kept([]) == [];
  }

  /** Repeated slashes, dots in the middle and slashes or dots at the end change nothing. */
  lemma SlashesAndDotsIgnored(a: Text, b: Text)
    requires a != []
    ensures Resolve(Key(a + [SLASH] + ([SLASH] + b))) == Resolve(Key(a + [SLASH] + b))
    ensures Resolve(Key(a + [SLASH] + (Ascii(".") + [SLASH] + b))) == Resolve(Key(a + [SLASH] + b))
    ensures Resolve(Key(a + [SLASH] + [])) == Resolve(Key(a)) == Resolve(Key(a + [SLASH] + Ascii(".")))
  {
    var dot := Ascii(".");
    ResolveMore(a, b);
    ResolveMore(a, [SLASH] + b);
    ResolveMore(a, dot + [SLASH] + b);
    ResolveMore(a, []);
    ResolveMore(a, dot);
    SplitAtSlash([], b, []);
    assert [] + [SLASH] + b == [SLASH] + b;
    SplitAtSlash(dot, b, []);
    SplitName(dot, [], []);
    assert dot + [] == dot && [] + dot == dot;
    assert Split(dot, []) == [DOT] && Split([], []) == [NOTHING];
    KeptJoin([NOTHING], Split(b, []));
    KeptJoin([DOT], Split(b, []));
    assert Kept([DOT]) == [] && Kept([NOTHING]) == [];
    assert Resolve(Key(a)).Some? ==> Resolve(Key(a)).value.parts + [] == Resolve(Key(a)).value.parts;
  }

  /** One of the parts between slashes is a double dot. */
  ghost predicate HasParentPart(t: Text) {
    exists a, b :: ParentPart(t, a, b)
  }

  predicate ParentPart(t: Text, a: Text, b: Text) {
    var up := Ascii("..");
    t == up || t == up + [SLASH] + b || t == a + [SLASH] + up || t == a + [SLASH] + up + [SLASH] + b
  }

  /** The part before the first slash. */
  lemma LeadingPart(t: Text) returns (n: Text, rest: Option<Text>)
    ensures forall i :: 0 <= i < |n| ==> n[i] != SLASH
    ensures rest.None? ==> t == n && Split(t, []) == [Comp(n)]
    ensures rest.Some? ==> t == n + [SLASH] + rest.value && Split(t, []) == [Comp(n)] + Split(rest.value, [])
  {
    var i := 0;
    while i < |t| && t[i] != SLASH
      invariant i <= |t| && forall j :: 0 <= j < i ==> t[j] != SLASH
    {
      i := i + 1;
    }
    n := t[..i];
    SplitName(n, [], []);
    assert n + [] == n && [] + n == n;
    if i == |t| {
      rest := None;
    } else {
      rest := Some(t[i + 1..]);
      assert t == n + [SLASH] + t[i + 1..];
      SplitAtSlash(n, t[i + 1..], []);
    }
  }

  lemma {:induction false} ParentPartSplit(t: Text)
    ensures DOTDOT in Split(t, []) <==> HasParentPart(t)
    decreases |t|
  {
    var up := Ascii("..");
    var n, rest := LeadingPart(t);
    if DOTDOT in Split(t, []) {
      if n == up {
        assert ParentPart(t, [], if rest.Some? then rest.value else []);
      } else {
        ParentPartSplit(rest.value);
        var a, b :| ParentPart(rest.value, a, b);
        ParentBehind(n, rest.value, a, b);
      }
    }
    if a, b :| ParentPart(t, a, b) {
      ParentIsPart(t, a, b);
    }
  }

  lemma ParentBehind(n: Text, rest: Text, a: Text, b: Text)
    requires ParentPart(rest, a, b)
    ensures HasParentPart(n + [SLASH] + rest)
  {
    var up, t := Ascii(".."), n + [SLASH] + rest;
    if rest == up {
      assert ParentPart(t, n, b);
    } else if rest == up + [SLASH] + b {
      assert t == n + [SLASH] + up + [SLASH] + b;
      assert ParentPart(t, n, b);
    } else if rest == a + [SLASH] + up {
      assert t == (n + [SLASH] + a) + [SLASH] + up;
      assert ParentPart(t, n + [SLASH] + a, b);
    } else {
      assert t == (n + [SLASH] + a) + [SLASH] + up + [SLASH] + b;
      assert ParentPart(t, n + [SLASH] + a, b);
    }
  }

  lemma ParentIsPart(t: Text, a: Text, b: Text)
    requires ParentPart(t, a, b)
    ensures DOTDOT in Split(t, [])
  {
    var up := Ascii("..");
    SplitName(up, [], []);
    assert up + [] == up && [] + up == up;
    assert Split(up, []) == [DOTDOT];
    SplitAtSlash(up, b, []);
    SplitAtSlash(a, up, []);
    SplitAtSlash(a, up + [SLASH] + b, []);
    assert a + [SLASH] + up + [SLASH] + b == a + [SLASH] + (up + [SLASH] + b);
  }

  /** A leading slash, a leading dot, a double dot anywhere and the empty path are refused; nothing else is. */
  lemma RefusedPaths(k: Key)
    ensures Resolve(k).None?
            <==> || k.text == [] || k.text[0] == SLASH || k.text == Ascii(".") || Ascii(".") + [SLASH] <= k.text
                 || HasParentPart(k.text)
  {
    ParentPartSplit(k.text);
    var n, rest := LeadingPart(k.text);
    var parts := Split(k.text, []);
    assert parts[0] == Comp(n);
    if rest.Some? {
      assert k.text[..|n|] == n && k.text[|n|] == SLASH;
    }
  }

  // ----- Manifests and the disk -----

  type Hash = int

  /** A managed file: its hash, its text when it is inline, its mode when that can be read. */
  datatype FileInfo = FileInfo(hash: Hash, text: Option<Text>, mode: Option<nat>)

  type Files = map<Key, FileInfo>

  /** A regular file, a symbolic link to a file and what is read through it, or a directory. */
  datatype Object = Data(contents: Text, mode: nat) | Alias(through: Option<Text>) | Folder

  type Disk = map<Place, Object>

  function Found(d: Disk, p: Place): Option<Object> {
    if p in d then Some(d[p]) else None
  }

  /** The text read from an object; `None` when there is no file. */
  function ReadObject(x: Option<Object>): Option<Text> {
    match x
    case None => None
    case Some(Data(contents, _)) => Some(contents)
    case Some(Alias(through)) => through
    case Some(Folder) => None
  }

  /** A file that can be read, or a directory. */
  predicate Exists(x: Option<Object>) {
    x == Some(Folder) || ReadObject(x).Some?
  }

  function Read(d: Disk, p: Place): Option<Text> {
    ReadObject(Found(d, p))
  }

  function Put(d: Disk, p: Place, x: Option<Object>): Disk {
    match x
    case None => d - {p}
    case Some(o) => d[p := o]
  }

  /** The directories that lead to a place. */
  function Prefixes(p: Place): set<Place> {
    set i | 0 < i < |p.parts| :: Place(p.parts[..i])
  }

  predicate BlocksAt(d: Disk, p: Place, i: nat)
    requires i <= |p.parts|
  {
    Place(p.parts[..i]) in d && !d[Place(p.parts[..i])].Folder?
  }

  /** Something that is no directory lies on the way to the place. */
  predicate Hindered(d: Disk, p: Place) {
    exists i :: 0 < i < |p.parts| && BlocksAt(d, p, i)
  }

  /** The disk with the missing directories on the way to a place. */
  function Parents(d: Disk, p: Place): Disk {
    map q | q in d.Keys + Prefixes(p) :: if q in d then d[q] else Folder
  }

  // ----- The difference -----

  function Added(before: Files, after: Files): set<Key> {
    after.Keys - before.Keys
  }

  function Removed(before: Files, after: Files): set<Key> {
    before.Keys - after.Keys
  }

  function Changed(before: Files, after: Files): set<Key> {
    set k | k in after && k in before && before[k].hash != after[k].hash
  }

  /** The listing names exactly the members of the set, once each. */
  predicate Lists(s: seq<Key>, members: set<Key>) {
    Distinct(s) && Elems(s) == members
  }

  method DiffConfigFiles(before: Files, after: Files) returns (added: seq<Key>, removed: seq<Key>, changed: seq<Key>)
    ensures Lists(added, Added(before, after))
    ensures Lists(removed, Removed(before, after))
    ensures Lists(changed, Changed(before, after))
  {
    added, removed, changed := [], [], [];
    var rest := after.Keys;
    while rest != {}
      invariant rest <= after.Keys
      invariant Lists(added, Added(before, after) - rest)
      invariant Lists(changed, Changed(before, after) - rest)
    {
      var k :| k in rest;
      if k !in before {
        ListsMore(added, Added(before, after), rest, k);
        added := added + [k];
      } else if before[k].hash != after[k].hash {
        ListsMore(changed, Changed(before, after), rest, k);
        changed := changed + [k];
      } else {
      }
      rest := rest - {k};
    }
    assert Added(before, after) - {} == Added(before, after);
    assert Changed(before, after) - {} == Changed(before, after);
    removed := DroppedKeys(before, after);
  }

  method DroppedKeys(before: Files, after: Files) returns (removed: seq<Key>)
    ensures Lists(removed, Removed(before, after))
  {
    removed := [];
    var rest := before.Keys;
    while rest != {}
      invariant rest <= before.Keys
      invariant Lists(removed, Removed(before, after) - rest)
    {
      var k :| k in rest;
      if k !in after {
        ListsMore(removed, Removed(before, after), rest, k);
        removed := removed + [k];
      } else {
      }
      rest := rest - {k};
    }
    assert Removed(before, after) - {} == Removed(before, after);
  }

  lemma ListsMore(s: seq<Key>, members: set<Key>, rest: set<Key>, k: Key)
    requires Lists(s, members - rest) && k in members && k in rest
    ensures Lists(s + [k], members - (rest - {k}))
  {
    DistinctExtend(s, k);
    ElemsExtend(s, k);
    assert members - (rest - {k}) == (members - rest) + {k};
  }

  // ----- Applying it -----

  /** What fails: a failed write leaves something at its place, a failed removal leaves everything. */
  datatype Faults = Faults(writes: map<Place, Option<Object>>, removals: set<Place>)

  datatype Warning =
    | BadPath(k: Key)
    | WriteFailed(k: Key)
    | Missing(k: Key)
    | RemoveFailed(k: Key)
    | NeedsUpdate(k: Key)

  /** The mode of a file that is written without setting it. */
  function ModeBefore(x: Option<Object>): nat {
    if x.Some? && x.value.Data? then x.value.mode else 0x1A4
  }

  predicate Inline(files: Files, k: Key) {
    k in files && files[k].text.Some?
  }

  datatype Job = Add(k: Key) | Remove(k: Key) | Change(k: Key)

  /** What a job leaves at its place, whether the directories on the way are made, and whether it
      warns and counts as an update. */
  datatype Outcome = Outcome(left: Option<Object>, folders: bool, warning: Option<Warning>, counted: bool)

  function WriteOutcome(k: Key, p: Place, x: Option<Object>, hindered: bool, info: FileInfo, f: Faults): Outcome
    requires info.text.Some?
  {
    if hindered then Outcome(x, false, Some(WriteFailed(k)), false)
    else if x == Some(Folder) then Outcome(x, true, Some(WriteFailed(k)), false)
    else if p in f.writes then Outcome(f.writes[p], true, Some(WriteFailed(k)), false)
    else if info.mode.None? then Outcome(Some(Data(info.text.value, ModeBefore(x))), true, Some(WriteFailed(k)), false)
    else Outcome(Some(Data(info.text.value, info.mode.value)), true, None, true)
  }

  /** The outcome of a job at its place `p`, where `x` lies. */
  function OutcomeAt(j: Job, p: Place, x: Option<Object>, hindered: bool, files: Files, f: Faults,
                     h: Text -> Hash): Outcome {
    match j
    case Add(k) =>
      if Inline(files, k) then WriteOutcome(k, p, x, hindered, files[k], f)
      else Outcome(x, false, if Exists(x) then None else Some(Missing(k)), false)
    case Remove(k) =>
      if !Exists(x) then Outcome(x, false, None, false)
      else if x == Some(Folder) || p in f.removals then Outcome(x, false, Some(RemoveFailed(k)), false)
      else Outcome(None, false, None, true)
    case Change(k) =>
      if Inline(files, k) then WriteOutcome(k, p, x, hindered, files[k], f)
      else if !Exists(x) then Outcome(x, false, None, false)
      else if k in files && ReadObject(x).Some? && h(ReadObject(x).value) == files[k].hash
      then Outcome(x, false, None, true)
      else Outcome(x, false, Some(NeedsUpdate(k)), true)
  }

  /** The disk, the warnings so far and the number of files updated. */
  datatype Site = Site(disk: Disk, warnings: seq<Warning>, updated: nat)

  function Altered(d: Disk, p: Place, o: Outcome): Disk {
    Put(if o.folders then Parents(d, p) else d, p, o.left)
  }

  function Advance(s: Site, p: Place, o: Outcome): Site {
    Site(Altered(s.disk, p, o), if o.warning.Some? then s.warnings + [o.warning.value] else s.warnings,
         if o.counted then s.updated + 1 else s.updated)
  }

  /** The outcome of a job on a disk. */
  function OutcomeOn(d: Disk, j: Job, p: Place, files: Files, f: Faults, h: Text -> Hash): Outcome {
    OutcomeAt(j, p, Found(d, p), Hindered(d, p), files, f, h)
  }

  function Step(s: Site, j: Job, files: Files, f: Faults, h: Text -> Hash): Site {
    match Resolve(j.k)
    case None => s.(warnings := s.warnings + [BadPath(j.k)])
    case Some(p) => Advance(s, p, OutcomeOn(s.disk, j, p, files, f, h))
  }

  function Apply(s: Site, jobs: seq<Job>, files: Files, f: Faults, h: Text -> Hash): Site {
    if jobs == [] then s
    else Step(Apply(s, jobs[..|jobs| - 1], files, f, h), jobs[|jobs| - 1], files, f, h)
  }

  lemma ApplyMore(s: Site, jobs: seq<Job>, j: Job, files: Files, f: Faults, h: Text -> Hash)
    ensures Apply(s, jobs + [j], files, f, h) == Step(Apply(s, jobs, files, f, h), j, files, f, h)
  {
  }

  lemma PutSame(d: Disk, p: Place)
    ensures Put(d, p, Found(d, p)) == d
  {
  }

  function Adds(ks: seq<Key>): seq<Job> {
    seq(|ks|, i requires 0 <= i < |ks| => Add(ks[i]))
  }

  function Removes(ks: seq<Key>): seq<Job> {
    seq(|ks|, i requires 0 <= i < |ks| => Remove(ks[i]))
  }

  function Changes(ks: seq<Key>): seq<Job> {
    seq(|ks|, i requires 0 <= i < |ks| => Change(ks[i]))
  }

  class ConfigSite {
    var disk: Disk
    var warnings: seq<Warning>
    var updated: nat

    function Now(): Site
      reads this
    {
      Site(disk, warnings, updated)
    }

    /** Write an inline file: make the directories, replace a link, write the text, then set the mode. */
    method WriteInline(k: Key, p: Place, info: FileInfo, f: Faults) returns (ok: bool)
      requires info.text.Some?
      modifies this`disk
      ensures ok == WriteOutcome(k, p, Found(old(disk), p), Hindered(old(disk), p), info, f).warning.None?
      ensures disk == Altered(old(disk), p, WriteOutcome(k, p, Found(old(disk), p), Hindered(old(disk), p), info, f))
    {
      PutSame(disk, p);
      if Hindered(disk, p) {
        return false;
      }
      ParentsKeep(disk, p);
      disk := Parents(disk, p);
      PutSame(disk, p);
      if Found(disk, p) == Some(Folder) {
        return false;
      }
      if p in f.writes {
        disk := Put(disk, p, f.writes[p]);
        return false;
      }
      var mode := ModeBefore(Found(disk, p));
      if p in disk && disk[p].Alias? {
        disk := disk - {p};
      }
      disk := disk[p := Data(info.text.value, mode)];
      if info.mode.None? {
        return false;
      }
      disk := disk[p := Data(info.text.value, info.mode.value)];
      ok := true;
    }

    method PutInline(k: Key, p: Place, info: FileInfo, f: Faults)
      requires info.text.Some?
      modifies this
      ensures Now() == Advance(old(Now()), p, WriteOutcome(k, p, Found(old(disk), p), Hindered(old(disk), p), info, f))
    {
      var ok := WriteInline(k, p, info, f);
      if ok {
        updated := updated + 1;
      } else {
        warnings := warnings + [WriteFailed(k)];
      }
    }

    method AddFile(k: Key, files: Files, f: Faults, h: Text -> Hash)
      modifies this
      ensures Now() == Step(old(Now()), Add(k), files, f, h)
    {
      var full := Resolve(k);
      if full.None? {
        warnings := warnings + [BadPath(k)];
        return;
      }
      var p := full.value;
      if k in files && files[k].text.Some? {
        PutInline(k, p, files[k], f);
        return;
      }
      PutSame(disk, p);
      if !Exists(Found(disk, p)) {
        warnings := warnings + [Missing(k)];
      }
    }

    method RemoveFile(k: Key, files: Files, f: Faults, h: Text -> Hash)
      modifies this
      ensures Now() == Step(old(Now()), Remove(k), files, f, h)
    {
      var full := Resolve(k);
      if full.None? {
        warnings := warnings + [BadPath(k)];
        return;
      }
      var p := full.value;
      PutSame(disk, p);
      if Exists(Found(disk, p)) {
        if disk[p].Folder? || p in f.removals {
          warnings := warnings + [RemoveFailed(k)];
        } else {
          disk := disk - {p};
          updated := updated + 1;
        }
      }
    }

    method ChangeFile(k: Key, files: Files, f: Faults, h: Text -> Hash)
      modifies this
      ensures Now() == Step(old(Now()), Change(k), files, f, h)
    {
      var full := Resolve(k);
      if full.None? {
        warnings := warnings + [BadPath(k)];
        return;
      }
      var p := full.value;
      if k in files && files[k].text.Some? {
        PutInline(k, p, files[k], f);
        return;
      }
      PutSame(disk, p);
      if Exists(Found(disk, p)) {
        if !(k in files && Read(disk, p).Some? && h(Read(disk, p).value) == files[k].hash) {
          warnings := warnings + [NeedsUpdate(k)];
        }
        updated := updated + 1;
      }
    }

    method AddFiles(added: seq<Key>, files: Files, f: Faults, h: Text -> Hash)
      modifies this
      ensures Now() == Apply(old(Now()), Adds(added), files, f, h)
    {
      for i := 0 to |added|
        invariant Now() == Apply(old(Now()), Adds(added[..i]), files, f, h)
      {
        AddFile(added[i], files, f, h);
        assert Adds(added[..i + 1]) == Adds(added[..i]) + [Add(added[i])];
        ApplyMore(old(Now()), Adds(added[..i]), Add(added[i]), files, f, h);
      }
      assert added[..|added|] == added;
    }

    method RemoveFiles(removed: seq<Key>, files: Files, f: Faults, h: Text -> Hash)
      modifies this
      ensures Now() == Apply(old(Now()), Removes(removed), files, f, h)
    {
      for i := 0 to |removed|
        invariant Now() == Apply(old(Now()), Removes(removed[..i]), files, f, h)
      {
        RemoveFile(removed[i], files, f, h);
        assert Removes(removed[..i + 1]) == Removes(removed[..i]) + [Remove(removed[i])];
        ApplyMore(old(Now()), Removes(removed[..i]), Remove(removed[i]), files, f, h);
      }
      assert removed[..|removed|] == removed;
    }

    method ChangeFiles(changed: seq<Key>, files: Files, f: Faults, h: Text -> Hash)
      modifies this
      ensures Now() == Apply(old(Now()), Changes(changed), files, f, h)
    {
      for i := 0 to |changed|
        invariant Now() == Apply(old(Now()), Changes(changed[..i]), files, f, h)
      {
        ChangeFile(changed[i], files, f, h);
        assert Changes(changed[..i + 1]) == Changes(changed[..i]) + [Change(changed[i])];
        ApplyMore(old(Now()), Changes(changed[..i]), Change(changed[i]), files, f, h);
      }
      assert changed[..|changed|] == changed;
    }

    /** Compare two manifests and bring the disk from one to the other. */
    method Activate(before: Files, after: Files, f: Faults, h: Text -> Hash)
      modifies this
      ensures Activated(old(Now()), Now(), before, after, f, h)
    {
      var added, removed, changed := DiffConfigFiles(before, after);
      AddFiles(added, after, f, h);
      RemoveFiles(removed, after, f, h);
      ChangeFiles(changed, after, f, h);
      ApplyJoin(old(Now()), Adds(added), Removes(removed), after, f, h);
      ApplyJoin(old(Now()), Adds(added) + Removes(removed), Changes(changed), after, f, h);
      assert IsDifference(added, removed, changed, before, after);
    }
  }

  /** Making directories changes nothing that is there, and nothing but the places on the way. */
  lemma ParentsKeep(d: Disk, p: Place)
    ensures Found(Parents(d, p), p) == Found(d, p)
    ensures forall q :: q in d ==> Found(Parents(d, p), q) == Found(d, q)
    ensures forall q :: q !in Prefixes(p) ==> Found(Parents(d, p), q) == Found(d, q)
  {
    assert p !in Prefixes(p);
  }

  lemma {:induction false} ApplyJoin(s: Site, a: seq<Job>, b: seq<Job>, files: Files, f: Faults, h: Text -> Hash)
    ensures Apply(s, a + b, files, f, h) == Apply(Apply(s, a, files, f, h), b, files, f, h)
    decreases |b|
  {
    if b == [] {
      assert a + b == a;
    } else {
      var init, j := b[..|b| - 1], b[|b| - 1];
      ApplyJoin(s, a, init, files, f, h);
      assert a + b == (a + init) + [j];
      ApplyMore(s, a + init, j, files, f, h);
    }
  }

  /** What the difference of two manifests asks for one path. */
  predicate Asked(j: Job, before: Files, after: Files) {
    match j
    case Add(k) => k in Added(before, after)
    case Remove(k) => k in Removed(before, after)
    case Change(k) => k in Changed(before, after)
  }

  /** The jobs are those of the difference, one per path. */
  ghost predicate Covers(jobs: seq<Job>, before: Files, after: Files) {
    && Distinct(jobs)
    && forall j :: j in jobs <==> Asked(j, before, after)
  }

  predicate IsDifference(added: seq<Key>, removed: seq<Key>, changed: seq<Key>, before: Files, after: Files) {
    && Lists(added, Added(before, after))
    && Lists(removed, Removed(before, after))
    && Lists(changed, Changed(before, after))
  }

  /** The difference is applied: what is new, then what is dropped, then what changed. */
  ghost predicate Activated(s: Site, s': Site, before: Files, after: Files, f: Faults, h: Text -> Hash) {
    exists added, removed, changed ::
      && IsDifference(added, removed, changed, before, after)
      && s' == Apply(s, Adds(added) + Removes(removed) + Changes(changed), after, f, h)
  }

  lemma PlanCovers(added: seq<Key>, removed: seq<Key>, changed: seq<Key>, before: Files, after: Files)
    requires IsDifference(added, removed, changed, before, after)
    ensures Covers(Adds(added) + Removes(removed) + Changes(changed), before, after)
  {
    var a, r, c := Adds(added), Removes(removed), Changes(changed);
    forall i, j | 0 <= i < j < |a| ensures Differ(a, i, j) { assert Differ(added, i, j); }
    forall i, j | 0 <= i < j < |r| ensures Differ(r, i, j) { assert Differ(removed, i, j); }
    forall i, j | 0 <= i < j < |c| ensures Differ(c, i, j) { assert Differ(changed, i, j); }
    DistinctJoin(a, r);
    DistinctJoin(a + r, c);
    forall j: Job ensures j in a + r + c <==> Asked(j, before, after) {
      match j
      case Add(k) => InAdds(added, k);
      case Remove(k) => InRemoves(removed, k);
      case Change(k) => InChanges(changed, k);
    }
  }

  lemma InAdds(ks: seq<Key>, k: Key)
    ensures Add(k) in Adds(ks) <==> k in Elems(ks)
  {
    if k in Elems(ks) {
      var i :| 0 <= i < |ks| && ks[i] == k;
      assert Adds(ks)[i] == Add(k);
    }
  }

  lemma InRemoves(ks: seq<Key>, k: Key)
    ensures Remove(k) in Removes(ks) <==> k in Elems(ks)
  {
    if k in Elems(ks) {
      var i :| 0 <= i < |ks| && ks[i] == k;
      assert Removes(ks)[i] == Remove(k);
    }
  }

  lemma InChanges(ks: seq<Key>, k: Key)
    ensures Change(k) in Changes(ks) <==> k in Elems(ks)
  {
    if k in Elems(ks) {
      var i :| 0 <= i < |ks| && ks[i] == k;
      assert Changes(ks)[i] == Change(k);
    }
  }
}
