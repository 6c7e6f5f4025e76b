/** Merging configurations and activating the result, any number of times. */
module Rebuild {
  import opened Results
  import opened Bytes
  import opened NarTree
  import opened NarExtract
  import opened NarManifest
  import opened ManagedMode
  import opened ConfigFiles
  import opened ConfigProperties
  import opened ConfigQuiet
  import opened MergeConfig
  import opened MergedManifest
  import opened ConfigReport

  // ----- Manifests that merging keeps in order -----

  ghost predicate ManagedAt(files: Records, h: Text -> Hash, k: Key)
    requires k in files
  {
    Normal(k) && (files[k].text.Some? ==> ParseMode(files[k].mode).Some? && files[k].hash == h(files[k].text.value))
  }

  /** Every path is normal; inline files have a readable mode and the hash of their text. Files of the
      root tree are tracked without their text. */
  ghost predicate Managed(files: Records, h: Text -> Hash) {
    forall k :: k in files ==> ManagedAt(files, h, k)
  }

  lemma MergedFile(current: Manifest, c: Config, resolved: seq<Package>, h: Text -> Hash, m: Manifest, k: Key)
    requires IsMerge(current, c, resolved, h, m) && k in m.files
    ensures (k in current.files && m.files[k] == current.files[k])
            || (m.files[k].text.Some? && ParseMode(m.files[k].mode).Some? && ManagedAt(m.files, h, k))
  {
    if c.files.Some? {
      var input := c.files.value;
      assert FileIs(m.files, Tracked(current.files), input, Spellings(input), h, k);
      if LastSpelling(Spellings(input), k).Some? {
        MergedFilesActivate(current.files, m.files, input, h, k);
      }
    }
  }

  /** A merge never adds a tracked file and changes none. */
  lemma MergeKeepsTracked(current: Manifest, c: Config, resolved: seq<Package>, h: Text -> Hash, m: Manifest, k: Key)
    requires IsMerge(current, c, resolved, h, m) && k in m.files && m.files[k].text.None?
    ensures k in current.files && m.files[k] == current.files[k]
  {
    MergedFile(current, c, resolved, h, m, k);
  }

  lemma MergeKeepsManaged(current: Manifest, c: Config, resolved: seq<Package>, h: Text -> Hash, m: Manifest)
    requires IsMerge(current, c, resolved, h, m) && Managed(current.files, h)
    ensures Managed(m.files, h)
  {
    forall k | k in m.files ensures ManagedAt(m.files, h, k) {
      MergedFile(current, c, resolved, h, m, k);
      if k in current.files { assert ManagedAt(current.files, h, k); }
    }
  }

  lemma MergeWrites(current: Manifest, c: Config, resolved: seq<Package>, h: Text -> Hash, m: Manifest)
    requires IsMerge(current, c, resolved, h, m)
    ensures WritesReadably(View(current.files), View(m.files)) && WritesInline(View(current.files), View(m.files))
  {
    var before, after := View(current.files), View(m.files);
    forall k | k in Added(before, after) + Changed(before, after) ensures after[k].text.Some? && after[k].mode.Some? {
      MergedFile(current, c, resolved, h, m, k);
    }
  }

  lemma ManagedPlaces(a: Records, b: Records, h: Text -> Hash)
    requires Managed(a, h) && Managed(b, h)
    ensures DistinctPlaces(View(a), View(b))
  {
    forall k | k in View(a).Keys + View(b).Keys ensures Normal(k) && Resolve(k).Some? {
      assert if k in a then ManagedAt(a, h, k) else ManagedAt(b, h, k);
      NormalPathsApart(k, k);
    }
    forall x, y | x in View(a).Keys + View(b).Keys && y in View(a).Keys + View(b).Keys && Resolve(x) == Resolve(y)
      ensures x == y
    {
      NormalPathsApart(x, y);
    }
  }

  // ----- Merge, then activate -----

  /** A system: its manifest and its disk. */
  datatype System = System(manifest: Manifest, site: Site)

  datatype Change = Change(config: Config, resolved: seq<Package>, faults: Faults)

  /** One rebuild: merge the configuration, then apply the difference to the disk. */
  ghost predicate RebuildStep(a: System, c: Change, b: System, h: Text -> Hash) {
    && IsMerge(a.manifest, c.config, c.resolved, h, b.manifest)
    && Activated(a.site, b.site, View(a.manifest.files), View(b.manifest.files), c.faults, h)
  }

  /** The manifest is in order and the disk, which is a tree, holds what it says. */
  ghost predicate InOrder(s: System, h: Text -> Hash) {
    && Managed(s.manifest.files, h)
    && Tree(s.site.disk)
    && Matches(s.site.disk, View(s.manifest.files), h)
  }

  predicate Quiet(a: System, b: System) {
    |b.site.warnings| == |a.site.warnings|
  }

  /** The paths of both manifests are separate when a rebuild gives no warning. */
  lemma QuietIsSeparate(a: System, c: Change, b: System, h: Text -> Hash)
    requires RebuildStep(a, c, b, h) && InOrder(a, h) && Quiet(a, b)
    ensures Managed(b.manifest.files, h) && Separate(View(a.manifest.files), View(b.manifest.files))
  {
    var before, after := View(a.manifest.files), View(b.manifest.files);
    MergeKeepsManaged(a.manifest, c.config, c.resolved, h, b.manifest);
    MergeWrites(a.manifest, c.config, c.resolved, h, b.manifest);
    ManagedPlaces(a.manifest.files, b.manifest.files, h);
    QuietIsWritable(a.site, b.site, before, after, c.faults, h);
    WritableIsSeparate(a.site.disk, before, after, h);
  }

  /** A rebuild without a warning leaves the system in order. */
  lemma RebuildKeepsOrder(a: System, c: Change, b: System, h: Text -> Hash)
    requires RebuildStep(a, c, b, h) && InOrder(a, h) && Quiet(a, b) && NoCollision(h)
    ensures InOrder(b, h)
  {
    var before, after := View(a.manifest.files), View(b.manifest.files);
    QuietIsSeparate(a, c, b, h);
    MergeWrites(a.manifest, c.config, c.resolved, h, b.manifest);
    MatchesAfter(a.site, b.site, before, after, c.faults, h);
    var _, _, _, jobs := TheJobs(a.site, b.site, before, after, c.faults, h);
    ApplyTree(a.site, jobs, after, c.faults, h);
  }

  /** Then inline files are on disk with their text, dropped files are gone and tracked files untouched. */
  lemma RebuildConverges(a: System, c: Change, b: System, h: Text -> Hash, k: Key)
    requires RebuildStep(a, c, b, h) && InOrder(a, h) && Quiet(a, b) && NoCollision(h)
    ensures k in b.manifest.files && b.manifest.files[k].text.Some? ==>
              Resolve(k).Some? && Read(b.site.disk, Resolve(k).value) == b.manifest.files[k].text
    ensures k in a.manifest.files && k !in b.manifest.files ==>
              Resolve(k).Some? && Found(b.site.disk, Resolve(k).value) == None
    ensures k in b.manifest.files && b.manifest.files[k].text.None? ==>
              k in a.manifest.files && b.manifest.files[k] == a.manifest.files[k]
              && Resolve(k).Some? && Found(b.site.disk, Resolve(k).value) == Found(a.site.disk, Resolve(k).value)
  {
    var before, after := View(a.manifest.files), View(b.manifest.files);
    QuietIsSeparate(a, c, b, h);
    ActivationConverges(a.site, b.site, before, after, c.faults, h, k);
    if k in b.manifest.files && b.manifest.files[k].text.None? {
      MergeKeepsTracked(a.manifest, c.config, c.resolved, h, b.manifest, k);
      SameHashUntouched(a.site, b.site, before, after, c.faults, h, k);
    }
  }

  /** The text that the configuration gives for a path is what is then read there. */
  lemma ConfiguredTextShown(a: System, c: Change, b: System, h: Text -> Hash, k: Key)
    requires RebuildStep(a, c, b, h) && InOrder(a, h) && Quiet(a, b) && NoCollision(h)
    requires c.config.files.Some? && Decides(c.config.files.value, k)
    ensures Resolve(k).Some? && Read(b.site.disk, Resolve(k).value) == Some(c.config.files.value[k].text)
  {
    ConfiguredFile(a.manifest, c.config, c.resolved, h, b.manifest, k);
    StoredKeyIsNormal(k);
    RebuildConverges(a, c, b, h, StoredKey(k).value);
  }

  /** The mode that a configuration gives for a file; 0644 when it gives none. */
  function ConfiguredMode(file: FileInput): Option<nat> {
    if file.mode.Some? then ParseMode(file.mode.value) else Some(0x1A4)
  }

  /** The mode is set exactly when the path is new, the text changed, or text and mode were there already. */
  lemma ConfiguredModeShown(a: System, c: Change, b: System, h: Text -> Hash, k: Key)
    requires RebuildStep(a, c, b, h) && InOrder(a, h) && Quiet(a, b) && NoCollision(h)
    requires c.config.files.Some? && Decides(c.config.files.value, k)
    ensures Resolve(k).Some? && ConfiguredMode(c.config.files.value[k]).Some?
    ensures var p, file, known := Resolve(k).value, c.config.files.value[k], a.manifest.files;
            var shown, q := Some(Data(file.text, ConfiguredMode(file).value)), StoredKey(k).value;
            Found(b.site.disk, p) == shown
            <==> q !in known || known[q].hash != h(file.text) || Found(a.site.disk, p) == shown
  {
    var q := StoredKey(k).value;
    ConfiguredFile(a.manifest, c.config, c.resolved, h, b.manifest, k);
    StoredKeyIsNormal(k);
    QuietIsSeparate(a, c, b, h);
    QuietFileExact(a.site, b.site, View(a.manifest.files), View(b.manifest.files), c.faults, h, q,
                   ConfiguredMode(c.config.files.value[k]).value);
  }

  /** A rebuild in which no operation fails gives no warning exactly when the new paths can be written. */
  lemma RebuildIsQuiet(a: System, c: Change, b: System, h: Text -> Hash)
    requires RebuildStep(a, c, b, h) && InOrder(a, h) && c.faults == NO_FAULTS
    ensures Quiet(a, b) <==> Writable(a.site.disk, View(a.manifest.files), View(b.manifest.files))
  {
    MergeKeepsManaged(a.manifest, c.config, c.resolved, h, b.manifest);
    MergeWrites(a.manifest, c.config, c.resolved, h, b.manifest);
    ManagedPlaces(a.manifest.files, b.manifest.files, h);
    FaultlessIsQuiet(a.site, b.site, View(a.manifest.files), View(b.manifest.files), h);
  }

  /** Merging accepts a path together with one below it, which no activation can put on disk. */
  lemma NestedPathsAccepted(p: Path, name: Comp)
    requires p != [] && PlainPath(p + [name])
    ensures StoredKey(Key(Join(p))) == Some(Key(Join(p)))
    ensures StoredKey(Key(Join(p + [name]))) == Some(Key(Join(p + [name])))
    ensures !UnrelatedKeys(Key(Join(p)), Key(Join(p + [name])))
  {
    var q := p + [name];
    assert PlainPath(p) by {
      forall i | 0 <= i < |p| ensures CleanName(p[i].name) && p[i] != DOT && p[i] != DOTDOT {
        assert q[i] == p[i] && CleanName(q[i].name);
      }
    }
    ResolveJoined(p);
    ResolveJoined(q);
    assert p <= q;
  }

  // ----- Runs -----

  ghost predicate IsRun(states: seq<System>, changes: seq<Change>, h: Text -> Hash) {
    |states| == |changes| + 1 && forall i :: 0 <= i < |changes| ==> StepAt(states, changes, h, i)
  }

  ghost predicate StepAt(states: seq<System>, changes: seq<Change>, h: Text -> Hash, i: nat)
    requires i < |changes| < |states|
  {
    RebuildStep(states[i], changes[i], states[i + 1], h) && Quiet(states[i], states[i + 1])
  }

  /** Over any number of rebuilds without a warning, the disk holds at every moment what the manifest
      says, and every inline file has its text. */
  lemma {:induction false} RunConverges(states: seq<System>, changes: seq<Change>, h: Text -> Hash, i: nat, k: Key)
    requires IsRun(states, changes, h) && InOrder(states[0], h) && NoCollision(h) && i < |states|
    ensures InOrder(states[i], h)
    ensures var files := states[i].manifest.files;
            k in files && files[k].text.Some? ==>
              Resolve(k).Some? && Read(states[i].site.disk, Resolve(k).value) == files[k].text
  {
    if i > 0 {
      RunConverges(states, changes, h, i - 1, k);
      assert StepAt(states, changes, h, i - 1);
      RebuildKeepsOrder(states[i - 1], changes[i - 1], states[i], h);
    }
    var files := states[i].manifest.files;
    if k in files && files[k].text.Some? {
      MatchesText(states[i].site.disk, View(files), h, k);
    }
  }
}
