/** What applying the difference of two manifests achieves on disk. */
module ConfigProperties {
  import opened Results
  import opened Bytes
  import opened Listings
  import opened ConfigFiles

  // ----- Jobs at unrelated places do not interfere -----

  /** One place is the other or leads to it. */
  predicate Nested(a: Place, b: Place) {
    a.parts <= b.parts || b.parts <= a.parts
  }

  lemma PrefixesLead(p: Place, q: Place)
    ensures q in Prefixes(p) <==> q.parts != [] && q.parts < p.parts
  {
    if q.parts != [] && q.parts < p.parts {
      assert Place(p.parts[..|q.parts|]) == q;
    }
  }

  lemma StepAt(s: Site, j: Job, files: Files, f: Faults, h: Text -> Hash, p: Place)
    requires Resolve(j.k) == Some(p)
    ensures Found(Step(s, j, files, f, h).disk, p) == OutcomeOn(s.disk, j, p, files, f, h).left
  {
  }

  /** Between the two disks nothing at or leading to the place changed, except that directories were made on the way. */
  predicate SameFor(d: Disk, d': Disk, p: Place) {
    Found(d', p) == Found(d, p) && (Hindered(d', p) <==> Hindered(d, p))
  }

  lemma HinderedAfter(s: Site, j: Job, files: Files, f: Faults, h: Text -> Hash, p: Place, i: nat)
    requires 0 < i < |p.parts| && (Resolve(j.k).Some? ==> !Nested(Resolve(j.k).value, p))
    ensures BlocksAt(Step(s, j, files, f, h).disk, p, i) <==> BlocksAt(s.disk, p, i)
  {
  }

  lemma StepUnrelated(s: Site, j: Job, files: Files, f: Faults, h: Text -> Hash, p: Place)
    requires Resolve(j.k).Some? ==> !Nested(Resolve(j.k).value, p)
    ensures SameFor(s.disk, Step(s, j, files, f, h).disk, p)
  {
    if Resolve(j.k).Some? { PrefixesLead(Resolve(j.k).value, p); }
    forall i | 0 < i < |p.parts| ensures BlocksAt(Step(s, j, files, f, h).disk, p, i) <==> BlocksAt(s.disk, p, i) {
      HinderedAfter(s, j, files, f, h, p, i);
    }
  }

  ghost predicate Apart(jobs: seq<Job>) {
    forall i, j :: 0 <= i < j < |jobs| ==> ApartAt(jobs, i, j)
  }

  ghost predicate ApartAt(jobs: seq<Job>, i: nat, j: nat)
    requires i < j < |jobs|
  {
    Resolve(jobs[i].k).Some? && Resolve(jobs[j].k).Some? ==> !Nested(Resolve(jobs[i].k).value, Resolve(jobs[j].k).value)
  }

  /** No job's place is related to this one. */
  ghost predicate Avoids(jobs: seq<Job>, p: Place) {
    forall i :: 0 <= i < |jobs| ==> AvoidsAt(jobs[i], p)
  }

  predicate AvoidsAt(j: Job, p: Place) {
    Resolve(j.k).Some? ==> !Nested(Resolve(j.k).value, p)
  }

  lemma InitAvoids(jobs: seq<Job>, p: Place)
    requires jobs != [] && Avoids(jobs, p)
    ensures Avoids(jobs[..|jobs| - 1], p) && AvoidsAt(jobs[|jobs| - 1], p)
  {
  }

  lemma {:induction false} ApplyUnrelated(s: Site, jobs: seq<Job>, files: Files, f: Faults, h: Text -> Hash, p: Place)
    requires Avoids(jobs, p)
    ensures SameFor(s.disk, Apply(s, jobs, files, f, h).disk, p)
  {
    if jobs != [] {
      var init, j := jobs[..|jobs| - 1], jobs[|jobs| - 1];
      InitAvoids(jobs, p);
      ApplyUnrelated(s, init, files, f, h, p);
      StepUnrelated(Apply(s, init, files, f, h), j, files, f, h, p);
    }
  }

  lemma InitApart(jobs: seq<Job>)
    requires jobs != [] && Apart(jobs)
    ensures Apart(jobs[..|jobs| - 1])
    ensures Resolve(jobs[|jobs| - 1].k).Some? ==> Avoids(jobs[..|jobs| - 1], Resolve(jobs[|jobs| - 1].k).value)
  {
    var last := |jobs| - 1;
    var init := jobs[..last];
    forall i, j | 0 <= i < j < |init| ensures ApartAt(init, i, j) {
      assert ApartAt(jobs, i, j);
    }
    if Resolve(jobs[last].k).Some? {
      forall i | 0 <= i < |init| ensures AvoidsAt(init[i], Resolve(jobs[last].k).value) {
        assert ApartAt(jobs, i, last);
      }
    }
  }

  /** Each job has the outcome it would have alone. */
  lemma {:induction false} ApplyAt(s: Site, jobs: seq<Job>, files: Files, f: Faults, h: Text -> Hash, i: nat, p: Place)
    requires Apart(jobs) && i < |jobs| && Resolve(jobs[i].k) == Some(p)
    ensures Found(Apply(s, jobs, files, f, h).disk, p) == OutcomeOn(s.disk, jobs[i], p, files, f, h).left
    decreases |jobs|
  {
    var init, last := jobs[..|jobs| - 1], jobs[|jobs| - 1];
    var mid := Apply(s, init, files, f, h);
    InitApart(jobs);
    if i < |init| {
      ApplyAt(s, init, files, f, h, i, p);
      assert ApartAt(jobs, i, |init|);
      StepUnrelated(mid, last, files, f, h, p);
    } else {
      ApplyUnrelated(s, init, files, f, h, p);
      StepAt(mid, last, files, f, h, p);
    }
  }

  predicate QuietAt(d: Disk, j: Job, files: Files, f: Faults, h: Text -> Hash) {
    match Resolve(j.k)
    case None => false
    case Some(p) => OutcomeOn(d, j, p, files, f, h).warning.None?
  }

  lemma StepWarns(s: Site, j: Job, files: Files, f: Faults, h: Text -> Hash)
    ensures |s.warnings| <= |Step(s, j, files, f, h).warnings|
    ensures |Step(s, j, files, f, h).warnings| == |s.warnings| <==> QuietAt(s.disk, j, files, f, h)
  {
  }

  ghost predicate AllQuiet(d: Disk, jobs: seq<Job>, files: Files, f: Faults, h: Text -> Hash) {
    forall i :: 0 <= i < |jobs| ==> QuietAt(d, jobs[i], files, f, h)
  }

  lemma AllQuietLast(d: Disk, jobs: seq<Job>, files: Files, f: Faults, h: Text -> Hash)
    requires jobs != []
    ensures AllQuiet(d, jobs, files, f, h)
            <==> AllQuiet(d, jobs[..|jobs| - 1], files, f, h) && QuietAt(d, jobs[|jobs| - 1], files, f, h)
  {
    var init := jobs[..|jobs| - 1];
    assert forall i :: 0 <= i < |init| ==> init[i] == jobs[i];
    if AllQuiet(d, init, files, f, h) && QuietAt(d, jobs[|jobs| - 1], files, f, h) {
      forall i | 0 <= i < |jobs| ensures QuietAt(d, jobs[i], files, f, h) {
        if i < |init| { assert QuietAt(d, init[i], files, f, h); }
      }
    }
  }

  /** Whether the last job warns can be told from the disk before all of them. */
  lemma LastQuiet(s: Site, jobs: seq<Job>, files: Files, f: Faults, h: Text -> Hash)
    requires jobs != [] && Apart(jobs)
    ensures QuietAt(Apply(s, jobs[..|jobs| - 1], files, f, h).disk, jobs[|jobs| - 1], files, f, h)
            <==> QuietAt(s.disk, jobs[|jobs| - 1], files, f, h)
  {
    InitApart(jobs);
    var at := Resolve(jobs[|jobs| - 1].k);
    if at.Some? {
      ApplyUnrelated(s, jobs[..|jobs| - 1], files, f, h, at.value);
    }
  }

  /** There is no warning exactly when no job, taken alone, warns. */
  lemma {:induction false} ApplyQuiet(s: Site, jobs: seq<Job>, files: Files, f: Faults, h: Text -> Hash)
    requires Apart(jobs)
    ensures |s.warnings| <= |Apply(s, jobs, files, f, h).warnings|
    ensures |Apply(s, jobs, files, f, h).warnings| == |s.warnings| <==> AllQuiet(s.disk, jobs, files, f, h)
  {
    if jobs != [] {
      var init := jobs[..|jobs| - 1];
      InitApart(jobs);
      ApplyQuiet(s, init, files, f, h);
      StepWarns(Apply(s, init, files, f, h), jobs[|jobs| - 1], files, f, h);
      LastQuiet(s, jobs, files, f, h);
      AllQuietLast(s.disk, jobs, files, f, h);
    }
  }

  predicate CountedAt(d: Disk, j: Job, files: Files, f: Faults, h: Text -> Hash) {
    match Resolve(j.k)
    case None => false
    case Some(p) => OutcomeOn(d, j, p, files, f, h).counted
  }

  lemma {:induction false} ApplyCounts(s: Site, jobs: seq<Job>, files: Files, f: Faults, h: Text -> Hash)
    requires Apart(jobs) && forall i :: 0 <= i < |jobs| ==> CountedAt(s.disk, jobs[i], files, f, h)
    ensures Apply(s, jobs, files, f, h).updated == s.updated + |jobs|
  {
    if jobs != [] {
      var init, last := jobs[..|jobs| - 1], jobs[|jobs| - 1];
      InitApart(jobs);
      assert CountedAt(s.disk, jobs[|jobs| - 1], files, f, h);
      assert forall i :: 0 <= i < |init| ==> init[i] == jobs[i];
      ApplyCounts(s, init, files, f, h);
      ApplyUnrelated(s, init, files, f, h, Resolve(last.k).value);
    }
  }

  // ----- One activation -----

  /** The paths of both manifests are accepted. */
  ghost predicate Resolved(before: Files, after: Files) {
    forall k :: k in before.Keys + after.Keys ==> Resolve(k).Some?
  }

  ghost predicate UnrelatedKeys(a: Key, b: Key) {
    Resolve(a).Some? && Resolve(b).Some? ==> !Nested(Resolve(a).value, Resolve(b).value)
  }

  /** No accepted path of either manifest is the prefix of another. */
  ghost predicate Disjoint(before: Files, after: Files) {
    forall a, b :: a in before.Keys + after.Keys && b in before.Keys + after.Keys && a != b ==> UnrelatedKeys(a, b)
  }

  /** The paths of both manifests are accepted, and none is the prefix of another. */
  ghost predicate Separate(before: Files, after: Files) {
    Resolved(before, after) && Disjoint(before, after)
  }

  /** Normalised paths of which none is the prefix of another are separate. */
  lemma NormalIsSeparate(before: Files, after: Files)
    requires forall k :: k in before.Keys + after.Keys ==> Normal(k)
    requires forall a, b :: a in before.Keys + after.Keys && b in before.Keys + after.Keys && a != b ==>
               UnrelatedKeys(a, b)
    ensures Separate(before, after)
  {
    forall k | k in before.Keys + after.Keys ensures Resolve(k).Some? { NormalPathsApart(k, k); }
  }

  lemma AskedOnce(a: Job, b: Job, before: Files, after: Files)
    requires Asked(a, before, after) && Asked(b, before, after) && a.k == b.k
    ensures a == b && a.k in before.Keys + after.Keys
  {
  }

  lemma CoveringJobsApart(jobs: seq<Job>, before: Files, after: Files)
    requires Disjoint(before, after) && Covers(jobs, before, after)
    ensures Apart(jobs)
  {
    forall i, j | 0 <= i < j < |jobs| ensures ApartAt(jobs, i, j) {
      assert jobs[i] in jobs && jobs[j] in jobs;
      AskedOnce(jobs[i], jobs[i], before, after);
      AskedOnce(jobs[j], jobs[j], before, after);
      assert Differ(jobs, i, j);
      if jobs[i].k == jobs[j].k {
        AskedOnce(jobs[i], jobs[j], before, after);
      } else {
        assert UnrelatedKeys(jobs[i].k, jobs[j].k);
      }
    }
  }

  /** The jobs of an activation. */
  lemma TheJobs(s: Site, s': Site, before: Files, after: Files, f: Faults, h: Text -> Hash)
    returns (added: seq<Key>, removed: seq<Key>, changed: seq<Key>, jobs: seq<Job>)
    requires Activated(s, s', before, after, f, h)
    ensures IsDifference(added, removed, changed, before, after)
    ensures jobs == Adds(added) + Removes(removed) + Changes(changed)
    ensures Covers(jobs, before, after) && s' == Apply(s, jobs, after, f, h)
  {
    added, removed, changed :|
      && IsDifference(added, removed, changed, before, after)
      && s' == Apply(s, Adds(added) + Removes(removed) + Changes(changed), after, f, h);
    jobs := Adds(added) + Removes(removed) + Changes(changed);
    PlanCovers(added, removed, changed, before, after);
  }

  /** Every path of the difference gets its own outcome, without a warning if there is none at all. */
  lemma JobDone(s: Site, s': Site, before: Files, after: Files, f: Faults, h: Text -> Hash, j: Job)
    requires Separate(before, after) && Activated(s, s', before, after, f, h) && Asked(j, before, after)
    ensures Resolve(j.k).Some?
    ensures Found(s'.disk, Resolve(j.k).value) == OutcomeOn(s.disk, j, Resolve(j.k).value, after, f, h).left
    ensures |s'.warnings| == |s.warnings| ==> QuietAt(s.disk, j, after, f, h)
  {
    var _, _, _, jobs := TheJobs(s, s', before, after, f, h);
    CoveringJobsApart(jobs, before, after);
    AskedOnce(j, j, before, after);
    var i :| 0 <= i < |jobs| && jobs[i] == j;
    ApplyAt(s, jobs, after, f, h, i, Resolve(j.k).value);
    ApplyQuiet(s, jobs, after, f, h);
  }

  lemma {:induction false} ApplyElsewhere(s: Site, jobs: seq<Job>, files: Files, f: Faults, h: Text -> Hash, p: Place)
    requires forall i :: 0 <= i < |jobs| ==> Resolve(jobs[i].k) != Some(p)
    ensures var x, x' := Found(s.disk, p), Found(Apply(s, jobs, files, f, h).disk, p);
            x' == x || (x == None && x' == Some(Folder))
    ensures (forall i :: 0 <= i < |jobs| ==> Resolve(jobs[i].k).None? || p !in Prefixes(Resolve(jobs[i].k).value))
            ==> Found(Apply(s, jobs, files, f, h).disk, p) == Found(s.disk, p)
  {
    if jobs != [] {
      var init, j := jobs[..|jobs| - 1], jobs[|jobs| - 1];
      ApplyElsewhere(s, init, files, f, h, p);
    }
  }

  /** Nothing else is touched, with or without failures, except that missing directories are made on
      the way to a path of the difference. */
  lemma RestUntouched(s: Site, s': Site, before: Files, after: Files, f: Faults, h: Text -> Hash, p: Place)
    requires Activated(s, s', before, after, f, h)
    requires forall j: Job :: Asked(j, before, after) ==> Resolve(j.k) != Some(p)
    ensures Found(s'.disk, p) == Found(s.disk, p) || (Found(s.disk, p) == None && Found(s'.disk, p) == Some(Folder))
    ensures (forall j: Job :: Asked(j, before, after) ==> Resolve(j.k).None? || p !in Prefixes(Resolve(j.k).value))
            ==> Found(s'.disk, p) == Found(s.disk, p)
  {
    var _, _, _, jobs := TheJobs(s, s', before, after, f, h);
    forall i | 0 <= i < |jobs| ensures Asked(jobs[i], before, after) {
      assert jobs[i] in jobs;
    }
    ApplyElsewhere(s, jobs, after, f, h, p);
  }

  /** A path whose hash stays the same is untouched. */
  lemma SameHashUntouched(s: Site, s': Site, before: Files, after: Files, f: Faults, h: Text -> Hash, k: Key)
    requires Separate(before, after) && Activated(s, s', before, after, f, h)
    requires k in before && k in after && before[k].hash == after[k].hash
    ensures Resolve(k).Some? && Found(s'.disk, Resolve(k).value) == Found(s.disk, Resolve(k).value)
  {
    var p := Resolve(k).value;
    forall j: Job | Asked(j, before, after)
      ensures Resolve(j.k) != Some(p) && (Resolve(j.k).None? || p !in Prefixes(Resolve(j.k).value))
    {
      AskedOnce(j, j, before, after);
      assert UnrelatedKeys(j.k, k);
      PrefixesLead(Resolve(j.k).value, p);
    }
    RestUntouched(s, s', before, after, f, h, p);
  }

  lemma WrittenRight(s: Site, s': Site, before: Files, after: Files, f: Faults, h: Text -> Hash, j: Job)
    requires Separate(before, after) && Activated(s, s', before, after, f, h) && |s'.warnings| == |s.warnings|
    requires Asked(j, before, after) && Inline(after, j.k)
    ensures Resolve(j.k).Some? && Read(s'.disk, Resolve(j.k).value) == after[j.k].text
  {
    JobDone(s, s', before, after, f, h, j);
    QuietWrite(s.disk, j, Resolve(j.k).value, after, f, h);
  }

  /** A write that does not warn had its way free and leaves the text. */
  lemma QuietWrite(d: Disk, j: Job, p: Place, files: Files, f: Faults, h: Text -> Hash)
    requires !j.Remove? && Inline(files, j.k) && OutcomeOn(d, j, p, files, f, h).warning.None?
    ensures ReadObject(OutcomeOn(d, j, p, files, f, h).left) == files[j.k].text
    ensures OutcomeOn(d, j, p, files, f, h).left.Some? && OutcomeOn(d, j, p, files, f, h).left.value.Data?
    ensures !Hindered(d, p) && Found(d, p) != Some(Folder)
  {
  }

  /** Without warnings an inline file holds its text exactly when its path is new, its hash
      changed, or the text was there already. */
  lemma InlineFileRight(s: Site, s': Site, before: Files, after: Files, f: Faults, h: Text -> Hash, k: Key)
    requires Separate(before, after) && Activated(s, s', before, after, f, h) && |s'.warnings| == |s.warnings|
    requires Inline(after, k)
    ensures Resolve(k).Some?
    ensures Read(s'.disk, Resolve(k).value) == after[k].text
            <==> k !in before || before[k].hash != after[k].hash || Read(s.disk, Resolve(k).value) == after[k].text
  {
    if k !in before {
      WrittenRight(s, s', before, after, f, h, Add(k));
    } else if before[k].hash != after[k].hash {
      WrittenRight(s, s', before, after, f, h, Change(k));
    } else {
      SameHashUntouched(s, s', before, after, f, h, k);
    }
  }

  /** The disk holds what the manifest says. */
  ghost predicate Matches(d: Disk, files: Files, h: Text -> Hash) {
    forall k :: k in files ==> MatchesAt(d, files, h, k)
  }

  ghost predicate MatchesAt(d: Disk, files: Files, h: Text -> Hash, k: Key)
    requires k in files
  {
    Resolve(k).Some? && Read(d, Resolve(k).value).Some? && h(Read(d, Resolve(k).value).value) == files[k].hash
  }

  /** The hash of every inline file is the hash of its text. */
  ghost predicate Honest(files: Files, h: Text -> Hash) {
    forall k :: Inline(files, k) ==> files[k].hash == h(files[k].text.value)
  }

  ghost predicate NoCollision(h: Text -> Hash) {
    forall x, y :: h(x) == h(y) ==> x == y
  }

  /** From a disk that matches the old manifest, an activation without warnings puts every inline
      file on disk and removes every dropped path. */
  lemma ActivationConverges(s: Site, s': Site, before: Files, after: Files, f: Faults, h: Text -> Hash, k: Key)
    requires Separate(before, after) && Activated(s, s', before, after, f, h) && |s'.warnings| == |s.warnings|
    requires Matches(s.disk, before, h) && Honest(after, h) && NoCollision(h)
    ensures Inline(after, k) ==> Resolve(k).Some? && Read(s'.disk, Resolve(k).value) == after[k].text
    ensures k in before && k !in after ==> Resolve(k).Some? && Found(s'.disk, Resolve(k).value) == None
  {
    if Inline(after, k) {
      InlineFileRight(s, s', before, after, f, h, k);
      if k in before && before[k].hash == after[k].hash {
        assert MatchesAt(s.disk, before, h, k);
      }
    } else if k in before && k !in after {
      assert MatchesAt(s.disk, before, h, k);
      JobDone(s, s', before, after, f, h, Remove(k));
    }
  }

  /** What the difference writes is inline; the rest of the new manifest has the hash it had. */
  predicate WritesInline(before: Files, after: Files) {
    forall k :: k in Added(before, after) + Changed(before, after) ==> after[k].text.Some?
  }

  /** Then the disk matches the new manifest. */
  lemma MatchesAfter(s: Site, s': Site, before: Files, after: Files, f: Faults, h: Text -> Hash)
    requires Separate(before, after) && Activated(s, s', before, after, f, h) && |s'.warnings| == |s.warnings|
    requires Matches(s.disk, before, h) && Honest(after, h) && NoCollision(h) && WritesInline(before, after)
    ensures Matches(s'.disk, after, h)
  {
    forall k | k in after ensures MatchesAt(s'.disk, after, h, k) {
      if Inline(after, k) {
        ActivationConverges(s, s', before, after, f, h, k);
      } else {
        assert k in before && before[k].hash == after[k].hash;
        SameHashUntouched(s, s', before, after, f, h, k);
        assert MatchesAt(s.disk, before, h, k);
      }
    }
  }

  /** Every file of the manifest is inline. */
  predicate AllInline(files: Files) {
    forall k :: k in files ==> files[k].text.Some?
  }

  lemma MatchesText(d: Disk, files: Files, h: Text -> Hash, k: Key)
    requires Matches(d, files, h) && Honest(files, h) && NoCollision(h) && Inline(files, k)
    ensures Resolve(k).Some? && Read(d, Resolve(k).value) == files[k].text
  {
    assert MatchesAt(d, files, h, k);
  }

  lemma ReadElsewhere(s: Site, s': Site, before: Files, after: Files, f: Faults, h: Text -> Hash, p: Place)
    requires Activated(s, s', before, after, f, h)
    requires forall k :: k in before.Keys + after.Keys ==> Resolve(k) != Some(p)
    ensures Read(s'.disk, p) == Read(s.disk, p)
  {
    forall j: Job | Asked(j, before, after) ensures Resolve(j.k) != Some(p) { AskedOnce(j, j, before, after); }
    RestUntouched(s, s', before, after, f, h, p);
  }

  /** Applying the difference and its reverse restores the contents of every place. */
  lemma ThereAndBack(s: Site, s1: Site, s2: Site, before: Files, after: Files, f: Faults, g: Faults,
                     h: Text -> Hash, p: Place)
    requires Separate(before, after)
    requires Activated(s, s1, before, after, f, h) && |s1.warnings| == |s.warnings|
    requires Activated(s1, s2, after, before, g, h) && |s2.warnings| == |s1.warnings|
    requires AllInline(before) && AllInline(after) && Honest(before, h) && Honest(after, h) && NoCollision(h)
    requires Matches(s.disk, before, h)
    requires forall k :: k in after && k !in before ==> Resolve(k).Some? ==> Found(s.disk, Resolve(k).value) == None
    ensures Read(s2.disk, p) == Read(s.disk, p)
  {
    assert Separate(after, before) by {
      assert before.Keys + after.Keys == after.Keys + before.Keys;
    }
    MatchesAfter(s, s1, before, after, f, h);
    if k :| k in before.Keys + after.Keys && Resolve(k) == Some(p) {
      BackAt(s, s1, s2, before, after, g, h, k);
    } else {
      ReadElsewhere(s, s1, before, after, f, h, p);
      ReadElsewhere(s1, s2, after, before, g, h, p);
    }
  }

  lemma BackAt(s: Site, s1: Site, s2: Site, before: Files, after: Files, g: Faults, h: Text -> Hash, k: Key)
    requires Separate(after, before) && Activated(s1, s2, after, before, g, h) && |s2.warnings| == |s1.warnings|
    requires AllInline(before) && Honest(before, h) && NoCollision(h)
    requires Matches(s.disk, before, h) && Matches(s1.disk, after, h)
    requires k in before.Keys + after.Keys && Resolve(k).Some?
    requires k !in before ==> Found(s.disk, Resolve(k).value) == None
    ensures Read(s2.disk, Resolve(k).value) == Read(s.disk, Resolve(k).value)
  {
    ActivationConverges(s1, s2, after, before, g, h, k);
    if k in before {
      MatchesText(s.disk, before, h, k);
    }
  }

  lemma ListedSize(s: seq<Key>, members: set<Key>)
    requires Lists(s, members)
    ensures |s| == |members|
  {
    ElemsSize(s);
  }

  lemma AskedIsCounted(s: Site, before: Files, after: Files, f: Faults, h: Text -> Hash, j: Job)
    requires Separate(before, after) && Asked(j, before, after) && QuietAt(s.disk, j, after, f, h)
    requires Matches(s.disk, before, h) && WritesInline(before, after)
    ensures CountedAt(s.disk, j, after, f, h)
  {
    if j.Remove? {
      assert MatchesAt(s.disk, before, h, j.k);
    } else {
      assert j.k in Added(before, after) + Changed(before, after);
    }
  }

  lemma PlanCounts(s: Site, s': Site, jobs: seq<Job>, before: Files, after: Files, f: Faults, h: Text -> Hash)
    requires Separate(before, after) && Covers(jobs, before, after)
    requires s' == Apply(s, jobs, after, f, h) && |s'.warnings| == |s.warnings|
    requires Matches(s.disk, before, h) && WritesInline(before, after)
    ensures s'.updated == s.updated + |jobs|
  {
    CoveringJobsApart(jobs, before, after);
    ApplyQuiet(s, jobs, after, f, h);
    forall i | 0 <= i < |jobs| ensures CountedAt(s.disk, jobs[i], after, f, h) {
      assert jobs[i] in jobs;
      AskedIsCounted(s, before, after, f, h, jobs[i]);
    }
    ApplyCounts(s, jobs, after, f, h);
  }

  /** The reported number is the size of the difference. */
  lemma ReportedCount(s: Site, s': Site, before: Files, after: Files, f: Faults, h: Text -> Hash)
    requires Separate(before, after) && Activated(s, s', before, after, f, h) && |s'.warnings| == |s.warnings|
    requires Matches(s.disk, before, h) && WritesInline(before, after)
    ensures s'.updated == s.updated + |Added(before, after)| + |Removed(before, after)| + |Changed(before, after)|
  {
    var added, removed, changed, jobs := TheJobs(s, s', before, after, f, h);
    PlanCounts(s, s', jobs, before, after, f, h);
    ListedSize(added, Added(before, after));
    ListedSize(removed, Removed(before, after));
    ListedSize(changed, Changed(before, after));
  }
}
