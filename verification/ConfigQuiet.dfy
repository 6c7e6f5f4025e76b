/** When applying the difference of two manifests gives no warning. */
module ConfigQuiet {
  import opened Results
  import opened Bytes
  import opened Listings
  import opened ConfigFiles
  import opened ConfigProperties

  // ----- Disks are trees -----

  /** Whatever is on disk lies in directories. */
  ghost predicate Tree(d: Disk) {
    forall p :: p in d ==> InFolders(d, p)
  }

  predicate InFolders(d: Disk, p: Place) {
    forall q :: q in Prefixes(p) ==> Found(d, q) == Some(Folder)
  }

  lemma NothingBelow(d: Disk, p: Place, q: Place)
    requires Tree(d) && Found(d, p) != Some(Folder) && p in Prefixes(q)
    ensures q !in d
  {
  }

  lemma NotHindered(d: Disk, p: Place, q: Place)
    requires !Hindered(d, p) && q in Prefixes(p)
    ensures Found(d, q) == None || Found(d, q) == Some(Folder)
  {
    var i :| 0 < i < |p.parts| && Place(p.parts[..i]) == q;
    assert !BlocksAt(d, p, i);
  }

  lemma HinderedBy(d: Disk, p: Place, q: Place)
    requires q in d && !d[q].Folder? && q in Prefixes(p)
    ensures Hindered(d, p)
  {
    var i :| 0 < i < |p.parts| && Place(p.parts[..i]) == q;
    assert BlocksAt(d, p, i);
  }

  lemma PrefixOfPrefix(p: Place, q: Place, r: Place)
    requires q in Prefixes(p) && r in Prefixes(q)
    ensures r in Prefixes(p)
  {
    PrefixesLead(p, q);
    PrefixesLead(q, r);
    PrefixesLead(p, r);
  }

  lemma ParentsTree(d: Disk, p: Place)
    requires Tree(d) && !Hindered(d, p)
    ensures Tree(Parents(d, p)) && InFolders(Parents(d, p), p)
  {
    var d' := Parents(d, p);
    forall q | q in Prefixes(p) ensures Found(d', q) == Some(Folder) {
      NotHindered(d, p, q);
    }
    forall q | q in d' ensures InFolders(d', q) {
      forall r | r in Prefixes(q) ensures Found(d', r) == Some(Folder) {
        if q in d {
          assert InFolders(d, q);
        } else {
          PrefixOfPrefix(p, q, r);
        }
      }
    }
  }

  lemma PutTree(d: Disk, p: Place, x: Option<Object>)
    requires Tree(d) && Found(d, p) != Some(Folder) && (x.Some? ==> InFolders(d, p))
    ensures Tree(Put(d, p, x))
  {
    var d' := Put(d, p, x);
    forall q | q in d' ensures InFolders(d', q) {
      if p in Prefixes(q) && q in d {
        NothingBelow(d, p, q);
      }
      assert p !in Prefixes(p);
      assert InFolders(d, q);
    }
  }

  lemma FolderStays(d: Disk, p: Place)
    requires Found(d, p) == Some(Folder)
    ensures Put(d, p, Some(Folder)) == d
  {
  }

  /** Every job, whatever fails, leaves the disk a tree. */
  lemma StepTree(s: Site, j: Job, files: Files, f: Faults, h: Text -> Hash)
    requires Tree(s.disk)
    ensures Tree(Step(s, j, files, f, h).disk)
  {
    if Resolve(j.k).Some? {
      var p := Resolve(j.k).value;
      var o := OutcomeOn(s.disk, j, p, files, f, h);
      PutSame(s.disk, p);
      ParentsKeep(s.disk, p);
      if o.folders {
        ParentsTree(s.disk, p);
        if Found(s.disk, p) == Some(Folder) {
          FolderStays(Parents(s.disk, p), p);
        } else {
          PutTree(Parents(s.disk, p), p, o.left);
        }
      } else if j.Remove? && o.left == None {
        PutTree(s.disk, p, None);
      }
    }
  }

  lemma {:induction false} ApplyTree(s: Site, jobs: seq<Job>, files: Files, f: Faults, h: Text -> Hash)
    requires Tree(s.disk)
    ensures Tree(Apply(s, jobs, files, f, h).disk)
  {
    if jobs != [] {
      ApplyTree(s, jobs[..|jobs| - 1], files, f, h);
      StepTree(Apply(s, jobs[..|jobs| - 1], files, f, h), jobs[|jobs| - 1], files, f, h);
    }
  }

  // ----- When the way is free -----

  /** No file on the way and no directory at the place. */
  predicate CanWrite(d: Disk, p: Place) {
    !Hindered(d, p) && Found(d, p) != Some(Folder)
  }

  predicate CanWriteKey(d: Disk, k: Key) {
    Resolve(k).Some? && CanWrite(d, Resolve(k).value)
  }

  /** The new paths can be written, and none of them is the prefix of another. */
  ghost predicate Writable(d: Disk, before: Files, after: Files) {
    && (forall k :: k in Added(before, after) ==> CanWriteKey(d, k))
    && forall a, b :: a in Added(before, after) && b in Added(before, after) && a != b ==> UnrelatedKeys(a, b)
  }

  /** The accepted paths name different places. */
  ghost predicate DistinctPlaces(before: Files, after: Files) {
    && Resolved(before, after)
    && forall a, b :: a in before.Keys + after.Keys && b in before.Keys + after.Keys && Resolve(a) == Resolve(b) ==>
         a == b
  }

  /** What the difference writes is inline and has a readable mode. */
  predicate WritesReadably(before: Files, after: Files) {
    forall k :: k in Added(before, after) + Changed(before, after) ==> after[k].text.Some? && after[k].mode.Some?
  }

  lemma ProperPrefix<T>(a: seq<T>, b: seq<T>)
    ensures a <= b <==> a == b || a < b
  {
    if a <= b && |a| == |b| {
      assert a == b;
    }
  }

  lemma RelatedPlaces(a: Key, b: Key)
    requires Resolve(a).Some? && Resolve(b).Some? && Resolve(a) != Resolve(b)
    ensures UnrelatedKeys(a, b)
            <==> Resolve(a).value !in Prefixes(Resolve(b).value) && Resolve(b).value !in Prefixes(Resolve(a).value)
  {
    var p, q := Resolve(a).value, Resolve(b).value;
    PrefixesLead(p, q);
    PrefixesLead(q, p);
    ProperPrefix(p.parts, q.parts);
    ProperPrefix(q.parts, p.parts);
  }

  lemma {:induction false} WarningsGrow(s: Site, jobs: seq<Job>, files: Files, f: Faults, h: Text -> Hash)
    ensures |s.warnings| <= |Apply(s, jobs, files, f, h).warnings|
  {
    if jobs != [] {
      WarningsGrow(s, jobs[..|jobs| - 1], files, f, h);
      StepWarns(Apply(s, jobs[..|jobs| - 1], files, f, h), jobs[|jobs| - 1], files, f, h);
    }
  }

  lemma ApartMore(jobs: seq<Job>, j: Job)
    requires Apart(jobs) && forall i :: 0 <= i < |jobs| ==> UnrelatedKeys(jobs[i].k, j.k)
    ensures Apart(jobs + [j])
  {
    var more := jobs + [j];
    forall a, b | 0 <= a < b < |more| ensures ApartAt(more, a, b) {
      if b < |jobs| {
        assert ApartAt(jobs, a, b);
      } else {
        assert UnrelatedKeys(jobs[a].k, j.k);
      }
    }
  }

  /** Once a file is written, nothing can be written above or below it. */
  lemma WrittenIsInTheWay(d: Disk, a: Key, b: Key)
    requires Tree(d) && Resolve(a).Some? && Resolve(b).Some? && Resolve(a) != Resolve(b)
    requires Resolve(a).value in d && !d[Resolve(a).value].Folder? && CanWrite(d, Resolve(b).value)
    ensures UnrelatedKeys(a, b)
  {
    var p, q := Resolve(a).value, Resolve(b).value;
    RelatedPlaces(a, b);
    if p in Prefixes(q) {
      HinderedBy(d, q, p);
    }
    if q in Prefixes(p) {
      NothingBelow(d, q, p);
    }
  }

  /** The keys are written inline. */
  ghost predicate AllWritten(files: Files, ks: seq<Key>) {
    && (forall i :: 0 <= i < |ks| ==> Inline(files, ks[i]) && Resolve(ks[i]).Some?)
    && forall i, j :: 0 <= i < j < |ks| ==> Resolve(ks[i]) != Resolve(ks[j])
  }

  /** Adding files without a warning, whatever could have failed, shows that their ways were free. */
  lemma {:induction false} AddsQuiet(s: Site, ks: seq<Key>, files: Files, f: Faults, h: Text -> Hash)
    requires Tree(s.disk) && AllWritten(files, ks)
    requires |Apply(s, Adds(ks), files, f, h).warnings| == |s.warnings|
    ensures Apart(Adds(ks)) && AllFree(s.disk, ks)
  {
    if ks != [] {
      var init, k := ks[..|ks| - 1], ks[|ks| - 1];
      assert ks == init + [k];
      InitWritten(files, init, k);
      InitQuiet(s, init, k, files, f, h);
      AddsQuiet(s, init, files, f, h);
      OneMoreAdd(s, init, k, files, f, h);
      AllFreeMore(s.disk, init, k);
    }
  }

  predicate AllFree(d: Disk, ks: seq<Key>) {
    forall i :: 0 <= i < |ks| ==> CanWriteKey(d, ks[i])
  }

  lemma AllFreeMore(d: Disk, init: seq<Key>, k: Key)
    requires AllFree(d, init) && CanWriteKey(d, k)
    ensures AllFree(d, init + [k])
  {
    var ks := init + [k];
    forall i | 0 <= i < |ks| ensures CanWriteKey(d, ks[i]) {
      if i < |init| { assert CanWriteKey(d, init[i]); }
    }
  }

  lemma InitWritten(files: Files, init: seq<Key>, k: Key)
    requires AllWritten(files, init + [k])
    ensures AllWritten(files, init)
  {
    var ks := init + [k];
    forall i | 0 <= i < |init| ensures Inline(files, init[i]) && Resolve(init[i]).Some? {
      assert ks[i] == init[i];
    }
    forall i, j | 0 <= i < j < |init| ensures Resolve(init[i]) != Resolve(init[j]) {
      assert ks[i] == init[i] && ks[j] == init[j];
    }
  }

  lemma InitQuiet(s: Site, init: seq<Key>, k: Key, files: Files, f: Faults, h: Text -> Hash)
    requires |Apply(s, Adds(init + [k]), files, f, h).warnings| == |s.warnings|
    ensures Adds(init + [k]) == Adds(init) + [Add(k)]
    ensures |Apply(s, Adds(init), files, f, h).warnings| == |s.warnings|
    ensures QuietAt(Apply(s, Adds(init), files, f, h).disk, Add(k), files, f, h)
  {
    assert Adds(init + [k]) == Adds(init) + [Add(k)];
    ApplyMore(s, Adds(init), Add(k), files, f, h);
    WarningsGrow(s, Adds(init), files, f, h);
    StepWarns(Apply(s, Adds(init), files, f, h), Add(k), files, f, h);
  }

  lemma OneMoreAdd(s: Site, init: seq<Key>, k: Key, files: Files, f: Faults, h: Text -> Hash)
    requires Tree(s.disk) && AllWritten(files, init + [k]) && Apart(Adds(init))
    requires |Apply(s, Adds(init), files, f, h).warnings| == |s.warnings|
    requires QuietAt(Apply(s, Adds(init), files, f, h).disk, Add(k), files, f, h)
    ensures Apart(Adds(init) + [Add(k)]) && CanWriteKey(s.disk, k)
  {
    var mid, p := Apply(s, Adds(init), files, f, h), Resolve((init + [k])[|init|]).value;
    assert (init + [k])[|init|] == k;
    ApplyTree(s, Adds(init), files, f, h);
    QuietWrite(mid.disk, Add(k), p, files, f, h);
    forall i | 0 <= i < |init| ensures UnrelatedKeys(Adds(init)[i].k, k) {
      assert (init + [k])[i] == init[i];
      AddedIsThere(s, init, files, f, h, i);
      WrittenIsInTheWay(mid.disk, init[i], k);
    }
    ApartMore(Adds(init), Add(k));
    assert Avoids(Adds(init), p) by {
      forall i | 0 <= i < |init| ensures AvoidsAt(Adds(init)[i], p) {
        assert UnrelatedKeys(Adds(init)[i].k, k);
      }
    }
    ApplyUnrelated(s, Adds(init), files, f, h, p);
  }

  lemma AddedIsThere(s: Site, ks: seq<Key>, files: Files, f: Faults, h: Text -> Hash, i: nat)
    requires i < |ks| && Inline(files, ks[i]) && Resolve(ks[i]).Some? && Apart(Adds(ks))
    requires |Apply(s, Adds(ks), files, f, h).warnings| == |s.warnings|
    ensures var d, p := Apply(s, Adds(ks), files, f, h).disk, Resolve(ks[i]).value; p in d && d[p].Data?
  {
    var p := Resolve(ks[i]).value;
    ApplyQuiet(s, Adds(ks), files, f, h);
    assert QuietAt(s.disk, Adds(ks)[i], files, f, h);
    ApplyAt(s, Adds(ks), files, f, h, i, p);
    QuietWrite(s.disk, Add(ks[i]), p, files, f, h);
  }

  lemma ListIsWritten(added: seq<Key>, before: Files, after: Files)
    requires Lists(added, Added(before, after)) && DistinctPlaces(before, after) && WritesInline(before, after)
    ensures AllWritten(after, added)
  {
    forall i | 0 <= i < |added| ensures Inline(after, added[i]) && Resolve(added[i]).Some? {
      assert added[i] in Elems(added);
      assert added[i] in Added(before, after) + Changed(before, after);
    }
    forall i, j | 0 <= i < j < |added| ensures Resolve(added[i]) != Resolve(added[j]) {
      assert added[i] in Elems(added) && added[j] in Elems(added);
      assert Differ(added, i, j);
    }
  }

  /** An activation without a warning, whatever could have failed, found the new paths writable. */
  lemma QuietIsWritable(s: Site, s': Site, before: Files, after: Files, f: Faults, h: Text -> Hash)
    requires Tree(s.disk) && DistinctPlaces(before, after) && WritesInline(before, after)
    requires Activated(s, s', before, after, f, h) && |s'.warnings| == |s.warnings|
    ensures Writable(s.disk, before, after)
  {
    var added, removed, changed, jobs := TheJobs(s, s', before, after, f, h);
    var rest := Removes(removed) + Changes(changed);
    assert jobs == Adds(added) + rest;
    ApplyJoin(s, Adds(added), rest, after, f, h);
    WarningsGrow(s, Adds(added), after, f, h);
    WarningsGrow(Apply(s, Adds(added), after, f, h), rest, after, f, h);
    ListIsWritten(added, before, after);
    AddsQuiet(s, added, after, f, h);
    AddsWritable(s.disk, added, before, after);
  }

  lemma AddsWritable(d: Disk, added: seq<Key>, before: Files, after: Files)
    requires Lists(added, Added(before, after)) && Apart(Adds(added))
    requires AllFree(d, added)
    ensures Writable(d, before, after)
  {
    forall k | k in Added(before, after) ensures CanWriteKey(d, k) {
      assert k in Elems(added);
      var i :| 0 <= i < |added| && added[i] == k;
      assert CanWriteKey(d, added[i]);
    }
    forall a, b | a in Added(before, after) && b in Added(before, after) && a != b ensures UnrelatedKeys(a, b) {
      assert a in Elems(added) && b in Elems(added);
      AddsUnrelated(added, a, b);
    }
  }

  lemma AddsUnrelated(added: seq<Key>, a: Key, b: Key)
    requires Apart(Adds(added)) && a in added && b in added && a != b
    ensures UnrelatedKeys(a, b)
  {
    var i :| 0 <= i < |added| && added[i] == a;
    var j :| 0 <= j < |added| && added[j] == b;
    if i < j {
      assert ApartAt(Adds(added), i, j);
    } else {
      assert ApartAt(Adds(added), j, i);
    }
  }

  lemma FileIsFree(d: Disk, p: Place)
    requires Tree(d) && p in d && !d[p].Folder?
    ensures CanWrite(d, p)
  {
    assert InFolders(d, p);
    forall i | 0 < i < |p.parts| ensures !BlocksAt(d, p, i) {
      assert Place(p.parts[..i]) in Prefixes(p);
    }
  }

  /** On a disk that holds the old manifest, writable new paths are separate from everything managed. */
  lemma WritableIsSeparate(d: Disk, before: Files, after: Files, h: Text -> Hash)
    requires Tree(d) && DistinctPlaces(before, after) && Matches(d, before, h) && Writable(d, before, after)
    ensures Separate(before, after)
  {
    forall a, b | a in before.Keys + after.Keys && b in before.Keys + after.Keys && a != b ensures UnrelatedKeys(a, b) {
      KeysUnrelated(d, before, after, h, a, b);
    }
  }

  lemma KeysUnrelated(d: Disk, before: Files, after: Files, h: Text -> Hash, a: Key, b: Key)
    requires Tree(d) && DistinctPlaces(before, after) && Matches(d, before, h) && Writable(d, before, after)
    requires a in before.Keys + after.Keys && b in before.Keys + after.Keys && a != b
    ensures UnrelatedKeys(a, b)
  {
    if a in before {
      if b in before {
        FileIsFree(d, Resolve(b).value);
      } else {
        assert b in Added(before, after);
      }
      WrittenIsInTheWay(d, a, b);
    } else if b in before {
      assert a in Added(before, after);
      WrittenIsInTheWay(d, b, a);
    } else {
      assert a in Added(before, after) && b in Added(before, after);
    }
  }

  const NO_FAULTS := Faults(map[], {})

  lemma FreeJobQuiet(d: Disk, before: Files, after: Files, h: Text -> Hash, j: Job)
    requires Tree(d) && Matches(d, before, h) && Writable(d, before, after) && WritesReadably(before, after)
    requires Asked(j, before, after)
    ensures QuietAt(d, j, after, NO_FAULTS, h)
  {
    if j.Add? {
      assert CanWriteKey(d, j.k);
      assert j.k in Added(before, after) + Changed(before, after);
    } else {
      assert MatchesAt(d, before, h, j.k);
      FileIsFree(d, Resolve(j.k).value);
      if j.Change? { assert j.k in Added(before, after) + Changed(before, after); }
    }
  }

  /** Where no operation fails, there is no warning exactly when the new paths can be written. */
  lemma FaultlessIsQuiet(s: Site, s': Site, before: Files, after: Files, h: Text -> Hash)
    requires Tree(s.disk) && DistinctPlaces(before, after) && Matches(s.disk, before, h)
    requires WritesReadably(before, after)
    requires Activated(s, s', before, after, NO_FAULTS, h)
    ensures |s'.warnings| == |s.warnings| <==> Writable(s.disk, before, after)
  {
    if |s'.warnings| == |s.warnings| {
      QuietIsWritable(s, s', before, after, NO_FAULTS, h);
    }
    if Writable(s.disk, before, after) {
      var _, _, _, jobs := TheJobs(s, s', before, after, NO_FAULTS, h);
      WritableIsSeparate(s.disk, before, after, h);
      CoveringJobsApart(jobs, before, after);
      forall i | 0 <= i < |jobs| ensures QuietAt(s.disk, jobs[i], after, NO_FAULTS, h) {
        assert jobs[i] in jobs;
        FreeJobQuiet(s.disk, before, after, h, jobs[i]);
      }
      ApplyQuiet(s, jobs, after, NO_FAULTS, h);
    }
  }

  /** Two new paths of which one is a prefix of the other always give a warning. */
  lemma NestedPathsWarn(s: Site, s': Site, before: Files, after: Files, f: Faults, h: Text -> Hash, a: Key, b: Key)
    requires Tree(s.disk) && DistinctPlaces(before, after) && WritesInline(before, after)
    requires Activated(s, s', before, after, f, h)
    requires a in Added(before, after) && b in Added(before, after) && a != b && !UnrelatedKeys(a, b)
    ensures |s'.warnings| != |s.warnings|
  {
    if |s'.warnings| == |s.warnings| {
      QuietIsWritable(s, s', before, after, f, h);
    }
  }

  /** Replacing a file by a directory always gives a warning, even where the new manifest drops the
      file: new paths are written before dropped ones are removed. */
  lemma FolderForFileWarns(s: Site, s': Site, before: Files, after: Files, f: Faults, h: Text -> Hash, k: Key, p: Place)
    requires Activated(s, s', before, after, f, h)
    requires k in Added(before, after) && Inline(after, k) && Resolve(k).Some? && p in Prefixes(Resolve(k).value)
    requires p in s.disk && !s.disk[p].Folder? && forall a :: a in Added(before, after) ==> Resolve(a) != Some(p)
    ensures |s'.warnings| != |s.warnings|
  {
    if |s'.warnings| == |s.warnings| {
      var added, removed, changed, jobs := TheJobs(s, s', before, after, f, h);
      assert k in Elems(added);
      var i :| 0 <= i < |added| && added[i] == k;
      var first := added[..i];
      assert jobs == Adds(added) + (Removes(removed) + Changes(changed));
      AddTurn(added, Removes(removed) + Changes(changed), i, jobs);
      QuietInTurn(s, Adds(first), Add(k), jobs[i + 1..], after, f, h);
      forall j | 0 <= j < |first| ensures Resolve(Adds(first)[j].k) != Some(p) {
        assert added[j] in Elems(added);
      }
      StaysInTheWay(s, first, after, f, h, k, p);
    }
  }

  lemma AddTurn(added: seq<Key>, others: seq<Job>, i: nat, jobs: seq<Job>)
    requires i < |added| && jobs == Adds(added) + others
    ensures jobs == Adds(added[..i]) + [Add(added[i])] + jobs[i + 1..]
  {
  }

  /** A job of a quiet run is quiet when its turn comes. */
  lemma QuietInTurn(s: Site, first: seq<Job>, j: Job, rest: seq<Job>, files: Files, f: Faults, h: Text -> Hash)
    requires |Apply(s, first + [j] + rest, files, f, h).warnings| == |s.warnings|
    ensures QuietAt(Apply(s, first, files, f, h).disk, j, files, f, h)
  {
    ApplyJoin(s, first + [j], rest, files, f, h);
    ApplyMore(s, first, j, files, f, h);
    WarningsGrow(s, first, files, f, h);
    StepWarns(Apply(s, first, files, f, h), j, files, f, h);
    WarningsGrow(Apply(s, first + [j], files, f, h), rest, files, f, h);
  }

  lemma StaysInTheWay(s: Site, first: seq<Key>, files: Files, f: Faults, h: Text -> Hash, k: Key, p: Place)
    requires Inline(files, k) && Resolve(k).Some? && p in Prefixes(Resolve(k).value)
    requires p in s.disk && !s.disk[p].Folder?
    requires forall j :: 0 <= j < |first| ==> Resolve(Adds(first)[j].k) != Some(p)
    ensures !QuietAt(Apply(s, Adds(first), files, f, h).disk, Add(k), files, f, h)
  {
    ApplyElsewhere(s, Adds(first), files, f, h, p);
    HinderedBy(Apply(s, Adds(first), files, f, h).disk, Resolve(k).value, p);
  }
}
