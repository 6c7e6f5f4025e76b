/** What mark-and-sweep collection guarantees (snix-redox/src/store.rs). */
module GcProperties {
  import opened Graph
  import opened Store

  /** A live path that finds its own record keeps it, and its files, through any sweep, finished or not. */
  lemma LiveKeepsRecord(rs: Records, disk: set<StorePath>, roots: Roots, rs': Records, disk': set<StorePath>,
                        p: StorePath)
    requires Swept(rs, disk, roots, rs', disk') && IsLive(rs, roots, p)
    requires Registered(rs, p) && Faithful(rs, p)
    ensures Registered(rs', p) && rs'[p.digest] == rs[p.digest]
    ensures p in disk ==> p in disk'
  {
  }

  /** A complete root keeps exactly its closure, registered and on disk, through any sweep. */
  lemma SweepKeepsClosure(rs: Records, disk: set<StorePath>, roots: Roots, rs': Records, disk': set<StorePath>,
                          n: string)
    requires Coherent(rs, roots) && Swept(rs, disk, roots, rs', disk')
    requires n in roots && Complete(rs, roots[n])
    ensures Complete(rs', roots[n])
    ensures forall p :: InClosure(rs, roots[n], p) <==> InClosure(rs', roots[n], p)
    ensures ClosurePresent(rs, disk, roots[n]) ==> ClosurePresent(rs', disk', roots[n])
  {
    var root := roots[n];
    forall p | InClosure(rs, root, p)
      ensures Registered(rs', p) && Refs(rs, p) == Refs(rs', p) && (p in disk ==> p in disk')
    {
      LiveIsOwnRecord(rs, roots, p);
      LiveKeepsRecord(rs, disk, roots, rs', disk', p);
    }
    TransferExact(RefGraph(rs), RefGraph(rs'), root);
  }

  lemma LiveStep(rs: Records, roots: Roots, p: StorePath, q: StorePath)
    requires IsLive(rs, roots, p) && q in Refs(rs, p)
    ensures IsLive(rs, roots, q)
  {
    var n :| n in roots && Complete(rs, roots[n]) && InClosure(rs, roots[n], p);
    ReachesStep(RefGraph(rs), roots[n], p, q);
    assert InClosure(rs, roots[n], q);
  }

  /** The result of a finished collection is itself a sweep of the database. */
  lemma RetainedIsSwept(rs: Records, disk: set<StorePath>, roots: Roots)
    ensures Swept(rs, disk, roots, Retained(rs, roots), disk)
  {
  }

  /** After a finished collection no record points at an unregistered path. */
  lemma RetainedHasNoDanglingReference(rs: Records, roots: Roots, h: string, r: StorePath)
    requires WellKeyed(rs) && Coherent(rs, roots)
    requires h in Retained(rs, roots) && r in rs[h].references
    ensures Registered(Retained(rs, roots), r)
  {
    var p := rs[h].storePath;
    assert r in Refs(rs, p);
    LiveStep(rs, roots, p, r);
    LiveIsOwnRecord(rs, roots, r);
  }

  /** Everything in the closure of a path finds its own record. Other roots may clash. */
  ghost predicate OwnRecords(rs: Records, p: StorePath) {
    forall q :: InClosure(rs, p, q) ==> Faithful(rs, q)
  }

  /** The closure of a live path is the same after any sweep, registered and, where it was, on disk. */
  lemma SweepKeepsLive(rs: Records, disk: set<StorePath>, roots: Roots, rs': Records, disk': set<StorePath>,
                       p: StorePath)
    requires Swept(rs, disk, roots, rs', disk') && OwnRecords(rs, p)
    requires IsLive(rs, roots, p) && ClosurePresent(rs, disk, p)
    ensures ClosurePresent(rs', disk', p)
    ensures forall q :: InClosure(rs, p, q) <==> InClosure(rs', p, q)
  {
    var n :| n in roots && Complete(rs, roots[n]) && InClosure(rs, roots[n], p);
    forall q | InClosure(rs, p, q)
      ensures Registered(rs', q) && Refs(rs, q) == Refs(rs', q) && q in disk'
    {
      ReachesTrans(RefGraph(rs), roots[n], p, q);
      assert InClosure(rs, roots[n], q);
      LiveKeepsRecord(rs, disk, roots, rs', disk', q);
    }
    TransferExact(RefGraph(rs), RefGraph(rs'), p);
  }

  /** A finished collection keeps a path that finds its own record, and a closure that is present,
      exactly when a complete root reaches it. */
  lemma SurvivesIffLive(rs: Records, disk: set<StorePath>, roots: Roots, disk': set<StorePath>, p: StorePath)
    requires OwnRecords(rs, p)
    requires forall q :: q in disk' <==> q in disk && !IsDead(rs, roots, q)
    ensures Registered(Retained(rs, roots), p) <==> IsLive(rs, roots, p)
    ensures ClosurePresent(rs, disk, p) ==> (ClosurePresent(Retained(rs, roots), disk', p) <==> IsLive(rs, roots, p))
  {
    ReachesSelf(RefGraph(rs), p);
    assert InClosure(rs, p, p);
    if IsLive(rs, roots, p) {
      RetainedIsSwept(rs, disk, roots);
      if ClosurePresent(rs, disk, p) {
        SweepKeepsLive(rs, disk, roots, Retained(rs, roots), disk', p);
      }
    } else {
      ReachesSelf(RefGraph(Retained(rs, roots)), p);
      assert InClosure(Retained(rs, roots), p, p);
    }
  }

  /** With or without clashing digests: a complete root stays complete through a finished collection
      exactly when every path of its closure finds the record of a live path. */
  lemma CompleteIffRecordsLive(rs: Records, roots: Roots, n: string)
    requires n in roots && Complete(rs, roots[n])
    ensures Complete(Retained(rs, roots), roots[n])
            <==> forall p :: InClosure(rs, roots[n], p) ==>
                   Registered(rs, p) && IsLive(rs, roots, rs[p.digest].storePath)
  {
    var rs', root := Retained(rs, roots), roots[n];
    if forall p :: InClosure(rs, root, p) ==> Registered(rs, p) && IsLive(rs, roots, rs[p.digest].storePath) {
      forall p | InClosure(rs, root, p) ensures Refs(rs, p) == Refs(rs', p) && Registered(rs', p) {
      }
      TransferExact(RefGraph(rs), RefGraph(rs'), root);
    }
    if Complete(rs', root) {
      forall p | InClosure(rs', root, p) ensures Refs(rs', p) == Refs(rs, p) {
        assert Registered(rs', p);
      }
      TransferExact(RefGraph(rs'), RefGraph(rs), root);
    }
  }

  /** A root left behind by a collection has a complete closure there: an incomplete root cannot become complete. */
  lemma RetainedRootsAreComplete(rs: Records, roots: Roots, n: string)
    requires WellKeyed(rs) && Coherent(rs, roots)
    requires n in roots && Registered(Retained(rs, roots), roots[n])
    ensures Complete(rs, roots[n])
  {
    var t := roots[n];
    var m :| m in roots && Complete(rs, roots[m]) && InClosure(rs, roots[m], t);
    forall p | InClosure(rs, t, p) ensures Registered(rs, p) {
      ReachesTrans(RefGraph(rs), roots[m], t, p);
      assert InClosure(rs, roots[m], p);
    }
  }

  /** Collection does not change what is live. */
  lemma LiveIsStable(rs: Records, roots: Roots, p: StorePath)
    requires WellKeyed(rs) && Coherent(rs, roots)
    ensures IsLive(rs, roots, p) <==> IsLive(Retained(rs, roots), roots, p)
  {
    var rs' := Retained(rs, roots);
    RetainedIsSwept(rs, {}, roots);
    if IsLive(rs, roots, p) {
      var n :| n in roots && Complete(rs, roots[n]) && InClosure(rs, roots[n], p);
      SweepKeepsClosure(rs, {}, roots, rs', {}, n);
      assert IsLive(rs', roots, p);
    }
    if IsLive(rs', roots, p) {
      var n :| n in roots && Complete(rs', roots[n]) && InClosure(rs', roots[n], p);
      ReachesSelf(RefGraph(rs'), roots[n]);
      assert InClosure(rs', roots[n], roots[n]);
      RetainedRootsAreComplete(rs, roots, n);
      SweepKeepsClosure(rs, {}, roots, rs', {}, n);
      assert IsLive(rs, roots, p);
    }
  }

  lemma RetainedStaysCoherent(rs: Records, roots: Roots)
    requires WellKeyed(rs) && Coherent(rs, roots)
    ensures WellKeyed(Retained(rs, roots)) && Coherent(Retained(rs, roots), roots)
  {
    var rs' := Retained(rs, roots);
    forall h, r | h in rs' && r in rs'[h].references ensures Faithful(rs', r) {
      assert Faithful(rs, r);
    }
    forall n | n in roots ensures Faithful(rs', roots[n]) {
      assert Faithful(rs, roots[n]);
    }
  }

  /** A second collection deletes nothing. */
  lemma SecondCollectionIsIdle(rs: Records, roots: Roots)
    requires WellKeyed(rs) && Coherent(rs, roots)
    ensures Retained(Retained(rs, roots), roots) == Retained(rs, roots)
    ensures forall p :: !IsDead(Retained(rs, roots), roots, p)
  {
    var rs' := Retained(rs, roots);
    forall h | h in rs' ensures IsLive(rs', roots, rs'[h].storePath) {
      LiveIsStable(rs, roots, rs'[h].storePath);
    }
  }

  /** Two paths that share a digest share a record, and collection of the one removes the record of
      the live other; `CompleteIffRecordsLive` says exactly when. */
  lemma DigestClashLosesLivePath()
    ensures var a, b := StorePath("d", "kept"), StorePath("d", "shadow");
            var rs: Records := map["d" := PathInfo(b, 1, [])];
            var roots: Roots := map["r" := a];
            WellKeyed(rs) && IsLive(rs, roots, a) && !Coherent(rs, roots) && !Registered(Retained(rs, roots), a)
  {
    var a, b := StorePath("d", "kept"), StorePath("d", "shadow");
    assert "kept"[0] != "shadow"[0];
    var rs: Records := map["d" := PathInfo(b, 1, [])];
    var roots: Roots := map["r" := a];
    forall p ensures InClosure(rs, a, p) <==> p == a {
      assert Closed(RefGraph(rs), {a});
      ClosedTraps(RefGraph(rs), {a}, a);
      ReachesSelf(RefGraph(rs), a);
    }
    assert Complete(rs, roots["r"]) && InClosure(rs, roots["r"], a);
    assert !Faithful(rs, roots["r"]);
    assert !IsLive(rs, roots, b);
  }
}
