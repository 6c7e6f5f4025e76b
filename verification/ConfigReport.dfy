/** What an activation of managed files reports and leaves, path by path. */
module ConfigReport {
  // Every statement is about the disk before the activation and the two manifests, for paths of
  // which none is a prefix of another; nothing is assumed about the disk or about failures.

  import opened Results
  import opened Bytes
  import opened Listings
  import opened ConfigFiles
  import opened ConfigProperties

  function Touched(before: Files, after: Files): set<Key> {
    Added(before, after) + Removed(before, after) + Changed(before, after)
  }

  /** A file can be put at a place: nothing is in the way, the write works and the mode can be read. */
  predicate CanPut(d: Disk, p: Place, info: FileInfo, f: Faults) {
    !Hindered(d, p) && Found(d, p) != Some(Folder) && p !in f.writes && info.mode.Some?
  }

  /** Following links, there is a file or a directory. */
  predicate IsThere(d: Disk, p: Place) {
    match Found(d, p)
    case None => false
    case Some(Data(_, _)) => true
    case Some(Alias(through)) => through.Some?
    case Some(Folder) => true
  }

  predicate CanRemove(d: Disk, p: Place, f: Faults) {
    Found(d, p) != Some(Folder) && p !in f.removals
  }

  /** A file that is there has the hash that the manifest gives. */
  predicate UpToDate(d: Disk, p: Place, info: FileInfo, h: Text -> Hash) {
    Read(d, p).Some? && h(Read(d, p).value) == info.hash
  }

  // ----- What is reported -----

  /** The trouble that a warning names is there. */
  predicate Trouble(d: Disk, w: Warning, before: Files, after: Files, f: Faults, h: Text -> Hash) {
    && w.k in Touched(before, after)
    && match Resolve(w.k)
       case None => w.BadPath?
       case Some(p) => TroubleAt(d, w, p, before, after, f, h)
  }

  predicate TroubleAt(d: Disk, w: Warning, p: Place, before: Files, after: Files, f: Faults, h: Text -> Hash) {
    match w
    case BadPath(_) => false
    case WriteFailed(k) =>
      k in Added(before, after) + Changed(before, after) && after[k].text.Some? && !CanPut(d, p, after[k], f)
    case Missing(k) => k in Added(before, after) && after[k].text.None? && !IsThere(d, p)
    case RemoveFailed(k) => k in Removed(before, after) && IsThere(d, p) && !CanRemove(d, p, f)
    case NeedsUpdate(k) =>
      k in Changed(before, after) && after[k].text.None? && IsThere(d, p) && !UpToDate(d, p, after[k], h)
  }

  /** A warning that was not there before. */
  predicate Reported(s: Site, s': Site, w: Warning) {
    s.warnings <= s'.warnings && w in s'.warnings[|s.warnings|..]
  }

  /** The warning of a job, told from the disk before all jobs. */
  function WarningOf(d: Disk, j: Job, files: Files, f: Faults, h: Text -> Hash): Option<Warning> {
    match Resolve(j.k)
    case None => Some(BadPath(j.k))
    case Some(p) => OutcomeOn(d, j, p, files, f, h).warning
  }

  function AsList<T>(x: Option<T>): seq<T> {
    match x
    case None => []
    case Some(v) => [v]
  }

  function Warnings(d: Disk, jobs: seq<Job>, files: Files, f: Faults, h: Text -> Hash): seq<Warning> {
    if jobs == [] then []
    else Warnings(d, jobs[..|jobs| - 1], files, f, h) + AsList(WarningOf(d, jobs[|jobs| - 1], files, f, h))
  }

  lemma StepReports(s: Site, j: Job, files: Files, f: Faults, h: Text -> Hash)
    ensures Step(s, j, files, f, h).warnings == s.warnings + AsList(WarningOf(s.disk, j, files, f, h))
    ensures Step(s, j, files, f, h).updated == s.updated + Once(CountedAt(s.disk, j, files, f, h))
  {
  }

  /** The last job reports what it would report alone. */
  lemma LastReports(s: Site, jobs: seq<Job>, files: Files, f: Faults, h: Text -> Hash)
    requires jobs != [] && Apart(jobs)
    ensures var d, last := Apply(s, jobs[..|jobs| - 1], files, f, h).disk, jobs[|jobs| - 1];
            && WarningOf(d, last, files, f, h) == WarningOf(s.disk, last, files, f, h)
            && (CountedAt(d, last, files, f, h) <==> CountedAt(s.disk, last, files, f, h))
  {
    InitApart(jobs);
    var at := Resolve(jobs[|jobs| - 1].k);
    if at.Some? {
      ApplyUnrelated(s, jobs[..|jobs| - 1], files, f, h, at.value);
    }
  }

  lemma {:induction false} ApplyReports(s: Site, jobs: seq<Job>, files: Files, f: Faults, h: Text -> Hash)
    requires Apart(jobs)
    ensures Apply(s, jobs, files, f, h).warnings == s.warnings + Warnings(s.disk, jobs, files, f, h)
    ensures Apply(s, jobs, files, f, h).updated == s.updated + |Counting(s.disk, jobs, files, f, h)|
  {
    if jobs != [] {
      var init := jobs[..|jobs| - 1];
      InitApart(jobs);
      ApplyReports(s, init, files, f, h);
      StepReports(Apply(s, init, files, f, h), jobs[|jobs| - 1], files, f, h);
      LastReports(s, jobs, files, f, h);
    }
  }

  lemma {:induction false} WarningsAre(d: Disk, jobs: seq<Job>, files: Files, f: Faults, h: Text -> Hash, w: Warning)
    ensures w in Warnings(d, jobs, files, f, h) <==> exists j :: j in jobs && WarningOf(d, j, files, f, h) == Some(w)
  {
    if jobs != [] {
      var init, last := jobs[..|jobs| - 1], jobs[|jobs| - 1];
      WarningsAre(d, init, files, f, h, w);
      assert jobs == init + [last];
    }
  }

  lemma WarningNamesKey(d: Disk, j: Job, files: Files, f: Faults, h: Text -> Hash)
    ensures WarningOf(d, j, files, f, h).Some? ==> WarningOf(d, j, files, f, h).value.k == j.k
  {
  }

  /** A job that the difference asks for warns of the trouble at its path. */
  lemma JobWarns(d: Disk, j: Job, before: Files, after: Files, f: Faults, h: Text -> Hash, w: Warning)
    requires Asked(j, before, after) && w.k == j.k
    ensures WarningOf(d, j, after, f, h) == Some(w) <==> Trouble(d, w, before, after, f, h)
  {
  }

  function JobFor(k: Key, before: Files, after: Files): Job {
    if k !in before then Add(k) else if k !in after then Remove(k) else Change(k)
  }

  /** The new warnings are exactly the troubles that the paths of the difference have. */
  lemma WarningsExact(s: Site, s': Site, before: Files, after: Files, f: Faults, h: Text -> Hash)
    requires Disjoint(before, after) && Activated(s, s', before, after, f, h)
    ensures s.warnings <= s'.warnings
    ensures forall w :: Reported(s, s', w) <==> Trouble(s.disk, w, before, after, f, h)
    ensures |s'.warnings| == |s.warnings| <==> forall w :: !Trouble(s.disk, w, before, after, f, h)
  {
    var _, _, _, jobs := TheJobs(s, s', before, after, f, h);
    CoveringJobsApart(jobs, before, after);
    ApplyReports(s, jobs, after, f, h);
    var new' := Warnings(s.disk, jobs, after, f, h);
    assert s'.warnings[|s.warnings|..] == new';
    forall w ensures w in new' <==> Trouble(s.disk, w, before, after, f, h) {
      WarningIsTrouble(s.disk, jobs, before, after, f, h, w);
    }
    if new' != [] {
      assert new'[0] in new';
    }
  }

  lemma WarningIsTrouble(d: Disk, jobs: seq<Job>, before: Files, after: Files, f: Faults, h: Text -> Hash, w: Warning)
    requires Covers(jobs, before, after)
    ensures w in Warnings(d, jobs, after, f, h) <==> Trouble(d, w, before, after, f, h)
  {
    WarningsAre(d, jobs, after, f, h, w);
    if w in Warnings(d, jobs, after, f, h) {
      var j :| j in jobs && WarningOf(d, j, after, f, h) == Some(w);
      WarningNamesKey(d, j, after, f, h);
      JobWarns(d, j, before, after, f, h, w);
    }
    if Trouble(d, w, before, after, f, h) {
      var j := JobFor(w.k, before, after);
      JobWarns(d, j, before, after, f, h, w);
      assert Asked(j, before, after) && j in jobs;
    }
  }

  /** A file without a text of its own whose hash changed is never brought up to date, and the
      activation says so. */
  lemma TrackedChangeWarns(s: Site, s': Site, before: Files, after: Files, f: Faults, h: Text -> Hash, k: Key)
    requires Disjoint(before, after) && Activated(s, s', before, after, f, h)
    requires Matches(s.disk, before, h) && k in Changed(before, after) && after[k].text.None?
    ensures Reported(s, s', NeedsUpdate(k))
  {
    assert MatchesAt(s.disk, before, h, k);
    WarningsExact(s, s', before, after, f, h);
    assert Trouble(s.disk, NeedsUpdate(k), before, after, f, h);
  }

  // ----- What is counted -----

  /** The jobs that count as an update, told from the disk before all of them. */
  function Counting(d: Disk, jobs: seq<Job>, files: Files, f: Faults, h: Text -> Hash): seq<Job> {
    if jobs == [] then []
    else
      var init, last := jobs[..|jobs| - 1], jobs[|jobs| - 1];
      Counting(d, init, files, f, h) + if CountedAt(d, last, files, f, h) then [last] else []
  }

  /** The path was written or removed, or is a changed file without a text that is there. */
  predicate Updated(d: Disk, k: Key, before: Files, after: Files, f: Faults) {
    && k in Touched(before, after) && Resolve(k).Some?
    && var p := Resolve(k).value;
       if k !in after then IsThere(d, p) && CanRemove(d, p, f)
       else if after[k].text.Some? then CanPut(d, p, after[k], f)
       else k in before && IsThere(d, p)
  }

  lemma {:induction false} CountingAre(d: Disk, jobs: seq<Job>, files: Files, f: Faults, h: Text -> Hash, j: Job)
    ensures j in Counting(d, jobs, files, f, h) <==> j in jobs && CountedAt(d, j, files, f, h)
  {
    if jobs != [] {
      CountingAre(d, jobs[..|jobs| - 1], files, f, h, j);
      assert jobs == jobs[..|jobs| - 1] + [jobs[|jobs| - 1]];
    }
  }

  predicate KeysDiffer(jobs: seq<Job>) {
    forall i, j :: 0 <= i < j < |jobs| ==> jobs[i].k != jobs[j].k
  }

  function Keys(jobs: seq<Job>): set<Key> {
    set j | j in jobs :: j.k
  }

  lemma {:induction false} CountingKeysDiffer(d: Disk, jobs: seq<Job>, files: Files, f: Faults, h: Text -> Hash)
    requires KeysDiffer(jobs)
    ensures KeysDiffer(Counting(d, jobs, files, f, h))
  {
    if jobs != [] {
      var init, last := jobs[..|jobs| - 1], jobs[|jobs| - 1];
      CountingKeysDiffer(d, init, files, f, h);
      forall j | j in Counting(d, init, files, f, h) ensures j.k != last.k {
        CountingAre(d, init, files, f, h, j);
        var i :| 0 <= i < |init| && init[i] == j;
        assert jobs[i] == j;
      }
    }
  }

  lemma {:induction false} KeysSize(jobs: seq<Job>)
    requires KeysDiffer(jobs)
    ensures |Keys(jobs)| == |jobs|
  {
    if jobs != [] {
      var init, last := jobs[..|jobs| - 1], jobs[|jobs| - 1];
      KeysSize(init);
      assert jobs == init + [last];
      assert Keys(jobs) == Keys(init) + {last.k} && last.k !in Keys(init);
    }
  }

  lemma CoveringKeysDiffer(jobs: seq<Job>, before: Files, after: Files)
    requires Covers(jobs, before, after)
    ensures KeysDiffer(jobs)
  {
    forall i, j | 0 <= i < j < |jobs| ensures jobs[i].k != jobs[j].k {
      assert jobs[i] in jobs && jobs[j] in jobs && Differ(jobs, i, j);
      if jobs[i].k == jobs[j].k { AskedOnce(jobs[i], jobs[j], before, after); }
    }
  }

  lemma JobCounts(d: Disk, j: Job, before: Files, after: Files, f: Faults, h: Text -> Hash)
    requires Asked(j, before, after)
    ensures CountedAt(d, j, after, f, h) <==> Updated(d, j.k, before, after, f)
  {
  }

  /** The number reported is the number of such paths. */
  lemma CountExact(s: Site, s': Site, before: Files, after: Files, f: Faults, h: Text -> Hash)
    requires Disjoint(before, after) && Activated(s, s', before, after, f, h)
    ensures s'.updated
         == s.updated + |set k | k in Touched(before, after) && Updated(s.disk, k, before, after, f)|
  {
    var _, _, _, jobs := TheJobs(s, s', before, after, f, h);
    CoveringJobsApart(jobs, before, after);
    ApplyReports(s, jobs, after, f, h);
    CountedKeys(s.disk, jobs, before, after, f, h);
  }

  lemma CountedKeys(d: Disk, jobs: seq<Job>, before: Files, after: Files, f: Faults, h: Text -> Hash)
    requires Covers(jobs, before, after)
    ensures |Counting(d, jobs, after, f, h)|
         == |set k | k in Touched(before, after) && Updated(d, k, before, after, f)|
  {
    CoveringKeysDiffer(jobs, before, after);
    CountingKeysDiffer(d, jobs, after, f, h);
    var counted := Counting(d, jobs, after, f, h);
    KeysSize(counted);
    var keys := set k | k in Touched(before, after) && Updated(d, k, before, after, f);
    forall k ensures k in keys <==> k in Keys(counted) {
      KeyCounts(d, jobs, before, after, f, h, k);
    }
    assert keys == Keys(counted);
  }

  lemma KeyCounts(d: Disk, jobs: seq<Job>, before: Files, after: Files, f: Faults, h: Text -> Hash, k: Key)
    requires Covers(jobs, before, after)
    ensures k in Keys(Counting(d, jobs, after, f, h)) <==> Updated(d, k, before, after, f)
  {
    if k in Keys(Counting(d, jobs, after, f, h)) {
      var j :| j in Counting(d, jobs, after, f, h) && j.k == k;
      CountingAre(d, jobs, after, f, h, j);
      JobCounts(d, j, before, after, f, h);
    }
    if Updated(d, k, before, after, f) {
      var j := JobFor(k, before, after);
      JobCounts(d, j, before, after, f, h);
      CountingAre(d, jobs, after, f, h, j);
      assert Asked(j, before, after) && j in jobs;
    }
  }

  // ----- What is left -----

  lemma JobLeaves(s: Site, s': Site, before: Files, after: Files, f: Faults, h: Text -> Hash, j: Job, p: Place)
    requires Disjoint(before, after) && Activated(s, s', before, after, f, h)
    requires Asked(j, before, after) && Resolve(j.k) == Some(p)
    ensures Found(s'.disk, p) == OutcomeOn(s.disk, j, p, after, f, h).left
  {
    var _, _, _, jobs := TheJobs(s, s', before, after, f, h);
    CoveringJobsApart(jobs, before, after);
    var i :| 0 <= i < |jobs| && jobs[i] == j;
    ApplyAt(s, jobs, after, f, h, i, p);
  }

  /** A new or changed file with a text of its own ends with that text and its mode. */
  lemma WrittenFile(s: Site, s': Site, before: Files, after: Files, f: Faults, h: Text -> Hash, k: Key, p: Place)
    requires Disjoint(before, after) && Activated(s, s', before, after, f, h)
    requires k in Added(before, after) + Changed(before, after) && after[k].text.Some? && Resolve(k) == Some(p)
    ensures CanPut(s.disk, p, after[k], f) ==>
              Found(s'.disk, p) == Some(Data(after[k].text.value, after[k].mode.value))
    ensures Hindered(s.disk, p) || Found(s.disk, p) == Some(Folder) ==> Found(s'.disk, p) == Found(s.disk, p)
    ensures !Hindered(s.disk, p) && Found(s.disk, p) != Some(Folder) && p in f.writes ==>
              Found(s'.disk, p) == f.writes[p]
    ensures !Hindered(s.disk, p) && Found(s.disk, p) != Some(Folder) && p !in f.writes && after[k].mode.None? ==>
              Found(s'.disk, p)
              == match Found(s.disk, p)
                 case Some(Data(_, mode)) => Some(Data(after[k].text.value, mode))
                 case _ => Some(Data(after[k].text.value, 0x1A4))
  {
    JobLeaves(s, s', before, after, f, h, JobFor(k, before, after), p);
  }

  /** A file without a text of its own is left alone, and a dropped path that is there goes if it can. */
  lemma UnwrittenFile(s: Site, s': Site, before: Files, after: Files, f: Faults, h: Text -> Hash, k: Key, p: Place)
    requires Disjoint(before, after) && Activated(s, s', before, after, f, h)
    requires k in Touched(before, after) && Resolve(k) == Some(p)
    ensures k in after && after[k].text.None? ==> Found(s'.disk, p) == Found(s.disk, p)
    ensures k !in after ==>
              Found(s'.disk, p)
              == if IsThere(s.disk, p) && CanRemove(s.disk, p, f) then None else Found(s.disk, p)
  {
    var j := JobFor(k, before, after);
    JobLeaves(s, s', before, after, f, h, j, p);
    UnwrittenLeft(s.disk, j, p, before, after, f, h);
  }

  lemma UnwrittenLeft(d: Disk, j: Job, p: Place, before: Files, after: Files, f: Faults, h: Text -> Hash)
    requires Asked(j, before, after)
    ensures j.k in after && after[j.k].text.None? ==> OutcomeOn(d, j, p, after, f, h).left == Found(d, p)
    ensures j.k !in after ==>
              OutcomeOn(d, j, p, after, f, h).left
              == if IsThere(d, p) && CanRemove(d, p, f) then None else Found(d, p)
  {
  }

  /** An activation without a warning leaves text and mode of every file that it writes. */
  lemma QuietFile(s: Site, s': Site, before: Files, after: Files, f: Faults, h: Text -> Hash, k: Key)
    requires Disjoint(before, after) && Activated(s, s', before, after, f, h) && |s'.warnings| == |s.warnings|
    requires k in Added(before, after) + Changed(before, after) && after[k].text.Some?
    ensures Resolve(k).Some? && after[k].mode.Some?
    ensures Found(s'.disk, Resolve(k).value) == Some(Data(after[k].text.value, after[k].mode.value))
  {
    WarningsExact(s, s', before, after, f, h);
    assert !Trouble(s.disk, BadPath(k), before, after, f, h);
    assert !Trouble(s.disk, WriteFailed(k), before, after, f, h);
    WrittenFile(s, s', before, after, f, h, k, Resolve(k).value);
  }

  /** Whether a managed file has its text and mode after an activation without a warning: it does if its path
      is new or its hash changed, and otherwise exactly if it had them before. */
  lemma QuietFileExact(s: Site, s': Site, before: Files, after: Files, f: Faults, h: Text -> Hash, k: Key, mode: nat)
    requires Separate(before, after) && Activated(s, s', before, after, f, h) && |s'.warnings| == |s.warnings|
    requires Inline(after, k) && after[k].mode == Some(mode)
    ensures Resolve(k).Some?
    ensures var p, file := Resolve(k).value, Some(Data(after[k].text.value, mode));
            Found(s'.disk, p) == file
            <==> k !in before || before[k].hash != after[k].hash || Found(s.disk, p) == file
  {
    if k !in before || before[k].hash != after[k].hash {
      QuietFile(s, s', before, after, f, h, k);
    } else {
      SameHashUntouched(s, s', before, after, f, h, k);
    }
  }

  /** Only hashes are compared, so a change of mode alone does nothing, without a warning. */
  lemma ModeChangeIgnored(s: Site, k: Key, text: Text, mode: nat, mode': nat, f: Faults, h: Text -> Hash)
    ensures Activated(s, s, map[k := FileInfo(h(text), Some(text), Some(mode))],
                      map[k := FileInfo(h(text), Some(text), Some(mode'))], f, h)
  {
    var before := map[k := FileInfo(h(text), Some(text), Some(mode))];
    var after := map[k := FileInfo(h(text), Some(text), Some(mode'))];
    var none: seq<Key> := [];
    ElemsEmpty(none);
    assert IsDifference(none, none, none, before, after);
    assert Adds(none) + Removes(none) + Changes(none) == [];
  }
}
