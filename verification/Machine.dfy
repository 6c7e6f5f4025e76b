/**
  The commands run against one system (snix-redox/src/install.rs, snix-redox/src/store.rs):
  every execution is a step of the relation that the run theorems are about.
 */
module Machine {
  import opened Results
  import Graph
  import opened Store
  import opened Fetch
  import opened Lifecycle

  datatype CommandError =
    | UnknownPackage
    | NotInstalled
    | FetchFailed(path: StorePath)
    | StoreFailed(error: StoreError)
    | ProfileFailed

  /** The error names what stopped the command. */
  ghost predicate Explains(w: World, s: Lifecycle.State, c: Command, e: CommandError) {
    match e
    case UnknownPackage => c.Install? && c.name !in w.index
    case NotInstalled => c.Remove? && c.name !in s.profile
    case FetchFailed(p) =>
      || (c.FetchPath? && Unobtainable(w, s, c, c.path, p))
      || (c.Install? && c.name in w.index && Unobtainable(w, s, c, w.index[c.name], p))
    case StoreFailed(InvalidPath(p)) => c.AddRoot? && c.path == p && p.Malformed?
    case StoreFailed(RootNotFound(n)) => c.DropRoot? && c.rootName == n && n !in s.roots
    case StoreFailed(DiskFailure(p)) => c.Collect? && IsDead(s.records, s.roots, p) && Stuck(s.disk, c.sweepFaults, p)
    case StoreFailed(NotRegistered(_)) => false
    case ProfileFailed =>
      || (c.Install? && (c.linkFails || !c.save.Saved? || !c.rootOutcome.Linked?))
      || (c.Remove? && (c.unlinkFails || !c.save.Saved?))
  }

  /** A fetch of the root meets a path that cannot be obtained. */
  ghost predicate Unobtainable(w: World, s: Lifecycle.State, c: Command, root: StorePath, p: StorePath)
    requires c.FetchPath? || c.Install?
  {
    && Graph.Reaches(SourceGraph(s.records, s.disk, w.cache), root, p)
    && !Obtainable(s.records, s.disk, w.cache, c.fetchFaults, p)
  }

  class System {
    const db: PathInfoDb
    const gc: GcRoots
    const disk: Disk
    var profile: Profile

    constructor ()
      ensures State() == Lifecycle.State(map[], {}, map[], map[])
      ensures fresh(db) && fresh(gc) && fresh(disk)
    {
      db := new PathInfoDb();
      gc := new GcRoots();
      disk := new Disk();
      profile := map[];
    }

    ghost function State(): Lifecycle.State
      reads this, db, gc, disk
    {
      Lifecycle.State(db.records, disk.present, gc.roots, profile)
    }

    /** Fetch the closure of an indexed package, then link it, save the manifest and add the root. */
    method InstallRecursive(c: Command, w: World, ghost u: set<StorePath>) returns (r: Result<(), CommandError>)
      requires c.Install? && Inv(u, State()) && Offers(u, w)
      modifies this, db, gc, disk
      ensures Step(u, w, old(State()), c, State())
      ensures r.Success? <==> Succeeds(w, old(State()), c)
      ensures r.Success? ==> Achieved(w, old(State()), c, State())
      ensures r.Failure? ==> Explains(w, old(State()), c, r.error)
    {
      InPlay(u, w, State());
      AcquiredSelf(w.cache, db.records, disk.present);
      if c.name !in w.index {
        return Failure(UnknownPackage);
      }
      var path := w.index[c.name];
      var fetched := FetchRecursive(db, disk, path, w.cache, c.fetchFaults, u);
      if fetched.Failure? {
        return Failure(FetchFailed(fetched.error));
      }
      RootIsRegistered(db.records, disk.present, path);
      var linked := LinkPackage(c, path);
      r := if linked then Success(()) else Failure(ProfileFailed);
      InstallIsStep(u, w, old(State()), c, State());
    }

    /** Link a fetched package, save the manifest and add the root. */
    method LinkPackage(c: Command, path: StorePath) returns (ok: bool)
      requires c.Install? && path.StorePath?
      modifies this, gc
      ensures ok <==> c.name in old(profile) || (!c.linkFails && c.save.Saved? && c.rootOutcome.Linked?)
      ensures profile == if c.name in old(profile) || c.linkFails then old(profile)
                         else ProfileAfter(old(profile), old(profile)[c.name := path], c.save)
      ensures gc.roots == if c.name in old(profile) || c.linkFails || !c.save.Saved? then old(gc.roots)
                          else RootsAfter(old(gc.roots), c.name, path, c.rootOutcome)
    {
      if c.name in profile {
        return true;
      }
      if c.linkFails {
        return false;
      }
      profile := ProfileAfter(profile, profile[c.name := path], c.save);
      if !c.save.Saved? {
        return false;
      }
      ok := LinkRoot(c.name, path, c.rootOutcome);
    }

    /** Replace the root link of a package, as far as that works. */
    method LinkRoot(name: string, path: StorePath, outcome: RootOutcome) returns (ok: bool)
      requires path.StorePath?
      modifies gc
      ensures gc.roots == RootsAfter(old(gc.roots), name, path, outcome)
      ensures ok <==> outcome.Linked?
    {
      match outcome
      case Linked =>
        var _ := gc.AddRoot(RootName(name), path);
        ok := true;
      case LinkLost =>
        var _ := gc.RemoveRoot(RootName(name));
        ok := false;
      case LinkKept =>
        ok := false;
    }

    /** Unlink, drop the root (ignoring failure), then save the manifest. */
    method RemovePackage(c: Command, w: World, ghost u: set<StorePath>) returns (r: Result<(), CommandError>)
      requires c.Remove?
      modifies this, gc
      ensures Step(u, w, old(State()), c, State())
      ensures r.Success? <==> Succeeds(w, old(State()), c)
      ensures r.Success? ==> Achieved(w, old(State()), c, State())
      ensures r.Failure? ==> Explains(w, old(State()), c, r.error)
    {
      if c.name !in profile {
        return Failure(NotInstalled);
      }
      if c.unlinkFails {
        return Failure(ProfileFailed);
      }
      if !c.rootStuck {
        var _ := gc.RemoveRoot(RootName(c.name));
      }
      profile := ProfileAfter(profile, profile - {c.name}, c.save);
      r := if c.save.Saved? then Success(()) else Failure(ProfileFailed);
    }

    /** Carry out any command. */
    method Execute(c: Command, w: World, ghost u: set<StorePath>) returns (r: Result<(), CommandError>)
      requires Inv(u, State()) && Offers(u, w)
      requires c.FetchPath? ==> c.path in u
      modifies this, db, gc, disk
      ensures Step(u, w, old(State()), c, State())
      ensures Inv(u, State())
      ensures r.Success? <==> Succeeds(w, old(State()), c)
      ensures r.Success? ==> Achieved(w, old(State()), c, State())
      ensures r.Failure? ==> Explains(w, old(State()), c, r.error)
    {
      ghost var before := State();
      InPlay(u, w, before);
      match c {
        case FetchPath(path, faults) =>
          var fetched := FetchRecursive(db, disk, path, w.cache, faults, u);
          r := if fetched.Success? then Success(()) else Failure(FetchFailed(fetched.error));
        case Install(_, _, _, _, _) =>
          r := InstallRecursive(c, w, u);
        case Remove(_, _, _, _) =>
          r := RemovePackage(c, w, u);
        case Collect(dryRun, faults) =>
          var swept := GarbageCollect(db, gc, disk, dryRun, faults);
          r := if swept.Success? then Success(()) else Failure(StoreFailed(swept.error));
        case AddRoot(rootName, path) =>
          var added := gc.AddRoot(rootName, path);
          r := if added.Success? then Success(()) else Failure(StoreFailed(added.error));
        case DropRoot(rootName) =>
          var dropped := gc.RemoveRoot(rootName);
          r := if dropped.Success? then Success(()) else Failure(StoreFailed(dropped.error));
      }
      StepKeepsInv(u, w, before, c, State());
      if r.Success? {
        SuccessAchieves(u, w, before, c, State());
      }
    }
  }

  /** Installing after a successful fetch. */
  lemma InstallIsStep(u: set<StorePath>, w: World, s: State, c: Command, s': State)
    requires c.Install? && c.name in w.index && CanFetch(w, s, c, w.index[c.name])
    requires Fetched(u, w, s, s') && Has(s', w.index[c.name])
    requires s'.profile == if c.name in s.profile || c.linkFails then s.profile
                           else ProfileAfter(s.profile, s.profile[c.name := w.index[c.name]], c.save)
    requires s'.roots == if c.name in s.profile || c.linkFails || !c.save.Saved? then s.roots
                         else RootsAfter(s.roots, c.name, w.index[c.name], c.rootOutcome)
    ensures Step(u, w, s, c, s')
    ensures Succeeds(w, s, c) <==> c.name in s.profile || (!c.linkFails && c.save.Saved? && c.rootOutcome.Linked?)
    ensures Succeeds(w, s, c) ==> Achieved(w, s, c, s')
  {
  }

  lemma AcquiredSelf(cache: Cache, rs: Records, disk: set<StorePath>)
    ensures Acquired(cache, rs, disk, rs, disk)
  {
  }

  lemma RootIsRegistered(rs: Records, disk: set<StorePath>, root: StorePath)
    requires ClosurePresent(rs, disk, root)
    ensures Registered(rs, root) && root in disk
  {
    if !Registered(rs, root) {
      UnregisteredIsIncomplete(rs, root);
      assert Complete(rs, root);
    }
    Graph.ReachesSelf(RefGraph(rs), root);
    assert InClosure(rs, root, root);
  }
}
