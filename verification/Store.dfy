/** Path database, closures, GC roots and collection (snix-redox/src/store.rs). */
module Store {
  // The filesystem is a set of present store paths; the database is a map from the
  // digest part of a path to its record, exactly as records are filed under
  // `{digest}.json`.

  import opened Results
  import opened Graph
  import opened Listings

  /** A parsed absolute store path, or text that does not parse as one. */
  datatype StorePath = StorePath(digest: string, name: string) | Malformed(text: string)

  datatype PathInfo = PathInfo(storePath: StorePath, narSize: nat, references: seq<StorePath>)

  type Records = map<string, PathInfo>

  type Roots = map<string, StorePath>

  datatype StoreError =
    | InvalidPath(path: StorePath)
    | NotRegistered(path: StorePath)
    | RootNotFound(root: string)
    | DiskFailure(path: StorePath)

  // ----- The reference graph of a database -----

  predicate Registered(rs: Records, p: StorePath) {
    p.StorePath? && p.digest in rs
  }

  function Refs(rs: Records, p: StorePath): set<StorePath> {
    if Registered(rs, p) then set r | r in rs[p.digest].references else {}
  }

  function RefGraph(rs: Records): StorePath -> set<StorePath> {
    p => Refs(rs, p)
  }

  ghost predicate InClosure(rs: Records, root: StorePath, p: StorePath) {
    Reaches(RefGraph(rs), root, p)
  }

  /** Everything the root needs, itself included, is registered. */
  ghost predicate Complete(rs: Records, root: StorePath) {
    forall p :: InClosure(rs, root, p) ==> Registered(rs, p)
  }

  ghost predicate ClosurePresent(rs: Records, disk: set<StorePath>, root: StorePath) {
    forall p :: InClosure(rs, root, p) ==> Registered(rs, p) && p in disk
  }

  /** Every record sits under the digest of the path it describes. */
  predicate WellKeyed(rs: Records) {
    forall h :: h in rs ==> rs[h].storePath.StorePath? && rs[h].storePath.digest == h
  }

  /** No other path's record is found when `p` is looked up. */
  predicate Faithful(rs: Records, p: StorePath) {
    Registered(rs, p) ==> rs[p.digest].storePath == p
  }

  /** References and root targets find their own records. */
  predicate Coherent(rs: Records, roots: Roots) {
    && (forall h, r :: h in rs && r in rs[h].references ==> Faithful(rs, r))
    && (forall n :: n in roots ==> Faithful(rs, roots[n]))
  }

  function AllPaths(rs: Records): (s: set<StorePath>)
  {
    set h | h in rs :: rs[h].storePath
  }

  function AllRefs(rs: Records): set<StorePath> {
    set h, r | h in rs && r in rs[h].references :: r
  }

  /** Sum of the NAR sizes recorded for a set of paths. */
  ghost function NarTotal(rs: Records, s: set<StorePath>): nat {
    if s == {} then 0
    else var p :| p in s; NarSize(rs, p) + NarTotal(rs, s - {p})
  }

  function NarSize(rs: Records, p: StorePath): nat {
    if Registered(rs, p) then rs[p.digest].narSize else 0
  }

  lemma {:induction false} NarTotalAdd(rs: Records, s: set<StorePath>, p: StorePath)
    requires p !in s
    ensures NarTotal(rs, s + {p}) == NarTotal(rs, s) + NarSize(rs, p)
    decreases s
  {
    var t := s + {p};
    var q :| q in t && NarTotal(rs, t) == NarSize(rs, q) + NarTotal(rs, t - {q});
    if q == p {
      assert t - {q} == s;
    } else {
      assert t - {q} == (s - {q}) + {p};
      NarTotalAdd(rs, s - {q}, p);
      NarTotalAdd(rs, s - {q}, q);
      assert s == (s - {q}) + {q};
    }
  }

  /** For one path the sum is the size in its record; `NarTotalAdd` gives the rest. */
  lemma NarTotalOfOne(rs: Records, p: StorePath)
    requires Registered(rs, p)
    ensures NarTotal(rs, {p}) == rs[p.digest].narSize
  {
    NarTotalAdd(rs, {}, p);
    assert {} + {p} == {p};
  }

  // ----- Database (PathInfoDb) -----

  class PathInfoDb {
    var records: Records

    constructor ()
      ensures records == map[]
    {
      records := map[];
    }

    method Get(p: StorePath) returns (r: Result<Option<PathInfo>, StoreError>)
      ensures p.Malformed? ==> r == Failure(InvalidPath(p))
      ensures p.StorePath? ==> r.Success? && (r.value.Some? <==> Registered(records, p))
      ensures r.Success? && r.value.Some? ==> r.value.value == records[p.digest]
    {
      if p.Malformed? {
        return Failure(InvalidPath(p));
      }
      if p.digest in records {
        return Success(Some(records[p.digest]));
      }
      return Success(None);
    }

    method Register(info: PathInfo) returns (r: Result<(), StoreError>)
      modifies this
      ensures r.Success? <==> info.storePath.StorePath?
      ensures r.Success? ==> records == old(records)[info.storePath.digest := info]
      ensures r.Failure? ==> records == old(records) && r.error == InvalidPath(info.storePath)
    {
      if info.storePath.Malformed? {
        return Failure(InvalidPath(info.storePath));
      }
      records := records[info.storePath.digest := info];
      r := Success(());
    }

    method Delete(p: StorePath) returns (r: Result<(), StoreError>)
      modifies this
      ensures r.Success? <==> p.StorePath?
      ensures r.Success? ==> records == old(records) - {p.digest}
      ensures r.Failure? ==> records == old(records) && r.error == InvalidPath(p)
    {
      if p.Malformed? {
        return Failure(InvalidPath(p));
      }
      records := records - {p.digest};
      r := Success(());
    }
  }

  /** What exists under the store directory. */
  class Disk {
    var present: set<StorePath>

    constructor ()
      ensures present == {}
    {
      present := {};
    }
  }

  // ----- Closure computation -----

  datatype Closure = Closure(paths: set<StorePath>, totalNarSize: nat)

  /** Breadth-first search over references. */
  method ComputeClosure(db: PathInfoDb, root: StorePath) returns (r: Result<Closure, StoreError>)
    ensures r.Success? <==> Complete(db.records, root)
    ensures r.Success? ==> forall p :: p in r.value.paths <==> InClosure(db.records, root, p)
    ensures r.Success? ==> forall p :: p in r.value.paths ==> Registered(db.records, p)
    ensures r.Success? ==> r.value.totalNarSize == NarTotal(db.records, r.value.paths)
    ensures r.Failure? ==> r.error.InvalidPath? || r.error.NotRegistered?
    ensures r.Failure? ==> InClosure(db.records, root, r.error.path) && !Registered(db.records, r.error.path)
  {
    ghost var rs, g := db.records, RefGraph(db.records);
    ghost var world := AllRefs(rs) + {root};
    var visited: set<StorePath> := {};
    var queue := [root];
    var total := 0;
    FrontierStart(g, root);
    while queue != []
      invariant Frontier(g, root, visited, queue)
      invariant forall p :: p in queue ==> p in world
      invariant forall p :: p in visited ==> Registered(rs, p)
      invariant total == NarTotal(rs, visited)
      decreases world - visited, |queue|
    {
      var path := queue[0];
      if path in visited {
        FrontierSkip(g, root, visited, queue);
        queue := queue[1..];
        continue;
      }
      assert InClosure(rs, root, path);
      var got := db.Get(path);
      if got.Failure? {
        return Failure(got.error);
      }
      if got.value.None? {
        return Failure(NotRegistered(path));
      }
      var info := got.value.value;
      NarTotalAdd(rs, visited, path);
      total := total + info.narSize;
      var more := Unseen(info.references, visited + {path});
      FrontierExpand(g, root, visited, queue, more);
      visited := visited + {path};
      queue := queue[1..] + more;
    }
    FrontierDone(g, root, visited);
    r := Success(Closure(visited, total));
  }

  /** The references that still have to be queued, in order. */
  function Unseen(refs: seq<StorePath>, visited: set<StorePath>): (r: seq<StorePath>)
    ensures forall q :: q in r <==> q in refs && q !in visited
  {
    if refs == [] then []
    else (if refs[0] in visited then [] else [refs[0]]) + Unseen(refs[1..], visited)
  }

  // ----- GC roots -----

  /** `p` is kept alive by some root whose closure is complete. */
  ghost predicate IsLive(rs: Records, roots: Roots, p: StorePath) {
    exists n :: n in roots && Complete(rs, roots[n]) && InClosure(rs, roots[n], p)
  }

  class GcRoots {
    var roots: Roots

    constructor ()
      ensures roots == map[]
    {
      roots := map[];
    }

    method AddRoot(name: string, target: StorePath) returns (r: Result<(), StoreError>)
      modifies this
      ensures r.Success? <==> target.StorePath?
      ensures r.Success? ==> roots == old(roots)[name := target]
      ensures r.Failure? ==> roots == old(roots) && r.error == InvalidPath(target)
    {
      if target.Malformed? {
        return Failure(InvalidPath(target));
      }
      roots := roots[name := target];
      r := Success(());
    }

    method RemoveRoot(name: string) returns (r: Result<(), StoreError>)
      modifies this
      ensures r.Success? <==> name in old(roots)
      ensures roots == old(roots) - {name}
      ensures r.Failure? ==> r.error == RootNotFound(name)
    {
      if name !in roots {
        return Failure(RootNotFound(name));
      }
      roots := roots - {name};
      r := Success(());
    }

    /** Union of the closures of the roots that are registered and complete; the
        result does not depend on the order in which roots are visited. */
    method ComputeLiveSet(db: PathInfoDb) returns (live: set<StorePath>)
      ensures forall p :: p in live <==> IsLive(db.records, roots, p)
    {
      live := {};
      var todo := roots.Keys;
      while todo != {}
        invariant todo <= roots.Keys
        invariant forall p :: p in live <==>
                    exists n :: n in roots && n !in todo
                      && Complete(db.records, roots[n]) && InClosure(db.records, roots[n], p)
        decreases todo
      {
        var n :| n in todo;
        ghost var was := todo;
        ghost var had := live;
        todo := todo - {n};
        var target := roots[n];
        if !Registered(db.records, target) {
          UnregisteredIsIncomplete(db.records, target);
        } else {
          var c := ComputeClosure(db, target);
          if c.Success? {
            live := live + c.value.paths;
          }
        }
        forall p ensures p in live <==>
            exists m :: m in roots && m !in todo && Complete(db.records, roots[m]) && InClosure(db.records, roots[m], p)
        {
          if p in live && p !in had {
            assert n in roots && n !in todo && Complete(db.records, roots[n]) && InClosure(db.records, roots[n], p);
          }
        }
      }
    }
  }

  lemma UnregisteredIsIncomplete(rs: Records, p: StorePath)
    requires !Registered(rs, p)
    ensures !Complete(rs, p)
  {
    ReachesSelf(RefGraph(rs), p);
    assert InClosure(rs, p, p);
  }

  // ----- Garbage collection -----

  /** How the removal of one dead path can fail. */
  datatype SweepFault = DiskStuck | RecordStuck

  /** The removal of a path will fail: its files are there and stuck, or its record is. */
  predicate Stuck(disk: set<StorePath>, faults: map<StorePath, SweepFault>, p: StorePath) {
    p in faults && (p in disk || faults[p].RecordStuck?)
  }

  predicate AnyStuck(dead: set<StorePath>, disk: set<StorePath>, faults: map<StorePath, SweepFault>) {
    exists p :: p in dead && Stuck(disk, faults, p)
  }

  /** A path that has to go is stuck. */
  ghost predicate SweepFails(rs: Records, disk: set<StorePath>, roots: Roots, faults: map<StorePath, SweepFault>) {
    exists p :: IsDead(rs, roots, p) && Stuck(disk, faults, p)
  }

  /** The files of a path whose record is stuck are gone when the removal fails. */
  function FailedFiles(faults: map<StorePath, SweepFault>, p: StorePath): set<StorePath> {
    if p in faults && faults[p].RecordStuck? then {p} else {}
  }

  function LostFiles<T>(r: Result<T, StoreError>, faults: map<StorePath, SweepFault>): set<StorePath> {
    if r.Failure? && r.error.DiskFailure? then FailedFiles(faults, r.error.path) else {}
  }

  datatype GcStats = GcStats(deleted: nat, kept: nat)

  /** What a complete collection leaves in the database. */
  ghost function Retained(rs: Records, roots: Roots): Records {
    map h | h in rs && IsLive(rs, roots, rs[h].storePath) :: rs[h]
  }

  /** A registered path that no complete root reaches. */
  ghost predicate IsDead(rs: Records, roots: Roots, p: StorePath) {
    p in AllPaths(rs) && !IsLive(rs, roots, p)
  }

  /** Any collection, finished or aborted: only dead paths lose their record or their files. */
  ghost predicate Swept(rs: Records, disk: set<StorePath>, roots: Roots, rs': Records, disk': set<StorePath>) {
    && (forall h :: h in rs' ==> h in rs && rs'[h] == rs[h])
    && (forall h :: h in rs && h !in rs' ==> IsDead(rs, roots, rs[h].storePath))
    && disk' <= disk
    && (forall p :: p in disk && p !in disk' ==> IsDead(rs, roots, p))
  }

  function Digests(s: set<StorePath>): set<string> {
    set p | p in s && p.StorePath? :: p.digest
  }

  /** Remove one dead path: files first, then the record. */
  method SweepPath(db: PathInfoDb, disk: Disk, path: StorePath, faults: map<StorePath, SweepFault>)
    returns (r: Result<(), StoreError>)
    requires path.StorePath?
    modifies db, disk
    ensures r.Success? ==> db.records == old(db.records) - {path.digest} && disk.present == old(disk.present) - {path}
    ensures r.Failure? <==> Stuck(old(disk.present), faults, path)
    ensures r.Failure? ==> r.error == DiskFailure(path) && db.records == old(db.records)
    ensures r.Failure? ==> disk.present == old(disk.present) - FailedFiles(faults, path)
  {
    if path in disk.present {
      if path in faults && faults[path].DiskStuck? {
        return Failure(DiskFailure(path));
      }
      disk.present := disk.present - {path};
    }
    if path in faults && faults[path].RecordStuck? {
      return Failure(DiskFailure(path));
    }
    r := db.Delete(path);
  }

  lemma MinusDigest(rs: Records, done: set<StorePath>, p: StorePath)
    requires p.StorePath?
    ensures rs - Digests(done) - {p.digest} == rs - Digests(done + {p})
  {
  }

  /** Remove the dead paths in some order, stopping at the first failure. */
  method Sweep(db: PathInfoDb, disk: Disk, dead: set<StorePath>, dryRun: bool, faults: map<StorePath, SweepFault>)
    returns (r: Result<nat, StoreError>, ghost done: set<StorePath>)
    requires forall p :: p in dead ==> p.StorePath?
    modifies db, disk
    ensures r.Failure? <==> !dryRun && AnyStuck(dead, old(disk.present), faults)
    ensures r.Success? ==> r.value == |dead| && done == if dryRun then {} else dead
    ensures r.Failure? ==>
              && r.error.DiskFailure? && r.error.path in dead && r.error.path !in done
              && Stuck(old(disk.present), faults, r.error.path)
    ensures done <= dead && db.records == old(db.records) - Digests(done)
    ensures disk.present == old(disk.present) - done - LostFiles(r, faults)
    ensures dryRun ==> db.records == old(db.records) && disk.present == old(disk.present)
  {
    var todo := dead;
    var deleted := 0;
    done := {};
    while todo != {}
      invariant todo <= dead
      invariant deleted + |todo| == |dead|
      invariant done == if dryRun then {} else dead - todo
      invariant !AnyStuck(done, old(disk.present), faults)
      invariant db.records == old(db.records) - Digests(done) && disk.present == old(disk.present) - done
      invariant dryRun ==> db.records == old(db.records) && disk.present == old(disk.present)
      decreases todo
    {
      var path :| path in todo;
      todo := todo - {path};
      if !dryRun {
        var swept := SweepPath(db, disk, path, faults);
        if swept.Failure? {
          return Failure(swept.error), done;
        }
        MinusDigest(old(db.records), done, path);
        done := done + {path};
      }
      deleted := deleted + 1;
    }
    r := Success(deleted);
  }

  function FailedAt<T>(r: Result<T, StoreError>): set<StorePath> {
    if r.Failure? && r.error.DiskFailure? then {r.error.path} else {}
  }

  /** Records and files of a path go together, except where the removal failed. */
  ghost predicate InStep(rs: Records, disk: set<StorePath>, rs': Records, disk': set<StorePath>,
                         failed: set<StorePath>) {
    && (forall h :: h in rs && h !in rs' ==> rs[h].storePath !in disk')
    && (forall h :: h in rs' && rs'[h].storePath in disk && rs'[h].storePath !in disk' ==> rs'[h].storePath in failed)
  }

  method GarbageCollect(db: PathInfoDb, gc: GcRoots, disk: Disk, dryRun: bool, faults: map<StorePath, SweepFault>)
    returns (r: Result<GcStats, StoreError>)
    requires WellKeyed(db.records)
    modifies db, disk
    ensures WellKeyed(db.records)
    ensures Swept(old(db.records), old(disk.present), gc.roots, db.records, disk.present)
    ensures InStep(old(db.records), old(disk.present), db.records, disk.present, FailedAt(r))
    ensures r.Failure? <==> !dryRun && SweepFails(old(db.records), old(disk.present), gc.roots, faults)
    ensures r.Failure? ==> FailsAt(old(db.records), old(disk.present), gc.roots, faults, r.error)
    ensures dryRun ==> db.records == old(db.records) && disk.present == old(disk.present)
    ensures r.Success? && !dryRun ==> Finished(old(db.records), old(disk.present), gc.roots, db.records, disk.present)
    ensures r.Success? ==> r.value.deleted == |old(db.records)| - |Retained(old(db.records), gc.roots)|
    ensures r.Success? && Coherent(old(db.records), gc.roots) ==> r.value.deleted + r.value.kept == |old(db.records)|
  {
    ghost var rs, files := db.records, disk.present;
    var dead, kept := FindDead(db, gc);
    var deleted, done := Sweep(db, disk, dead, dryRun, faults);
    DeadStuck(rs, files, gc.roots, dead, faults);
    SweptSoFar(rs, files, gc.roots, dead, done, LostFiles(deleted, faults), db.records, disk.present);
    SweptInStep(rs, files, dead, done, LostFiles(deleted, faults), FailedAt(deleted), db.records, disk.present);
    DeadSize(rs, gc.roots, dead);
    if deleted.Failure? {
      return Failure(deleted.error);
    }
    r := Success(GcStats(deleted.value, kept));
  }

  /** Everything dead is gone and nothing else. */
  ghost predicate Finished(rs: Records, disk: set<StorePath>, roots: Roots, rs': Records, disk': set<StorePath>) {
    rs' == Retained(rs, roots) && forall p :: p in disk' <==> p in disk && !IsDead(rs, roots, p)
  }

  ghost predicate FailsAt(rs: Records, disk: set<StorePath>, roots: Roots, faults: map<StorePath, SweepFault>,
                          e: StoreError) {
    e.DiskFailure? && IsDead(rs, roots, e.path) && Stuck(disk, faults, e.path)
  }

  /** The registered paths that are not live, and the number of live ones. */
  method FindDead(db: PathInfoDb, gc: GcRoots) returns (dead: set<StorePath>, kept: nat)
    requires WellKeyed(db.records)
    ensures forall p :: p in dead <==> IsDead(db.records, gc.roots, p)
    ensures forall p :: p in dead ==> p.StorePath?
    ensures Coherent(db.records, gc.roots) ==> |dead| + kept == |db.records|
  {
    var all := AllPaths(db.records);
    var live := gc.ComputeLiveSet(db);
    dead, kept := all - live, |live|;
    if Coherent(db.records, gc.roots) {
      CountsAddUp(db.records, gc.roots, all, live);
    }
  }

  /** Deleting the records and files of dead paths only is a sweep, and deleting all of them leaves the live part. */
  lemma SweptSoFar(rs: Records, disk: set<StorePath>, roots: Roots, dead: set<StorePath>, done: set<StorePath>,
                   lost: set<StorePath>, rs': Records, disk': set<StorePath>)
    requires WellKeyed(rs) && done <= dead && lost <= dead
    requires forall p :: p in dead <==> IsDead(rs, roots, p)
    requires rs' == rs - Digests(done) && disk' == disk - done - lost
    ensures WellKeyed(rs') && Swept(rs, disk, roots, rs', disk')
    ensures done == dead ==> Finished(rs, disk, roots, rs', disk')
  {
    assert dead <= AllPaths(rs);
    DigestsOf(rs, done);
  }

  /** The dead paths are as many as the records that a finished collection removes. */
  lemma DeadSize(rs: Records, roots: Roots, dead: set<StorePath>)
    requires WellKeyed(rs) && forall p :: p in dead <==> IsDead(rs, roots, p)
    ensures |dead| == |rs| - |Retained(rs, roots)|
  {
    SweptSoFar(rs, {}, roots, dead, dead, {}, rs - Digests(dead), {});
    DigestsSize(rs, dead);
  }

  lemma DigestsOf(rs: Records, done: set<StorePath>)
    requires WellKeyed(rs) && done <= AllPaths(rs)
    ensures forall h :: h in rs ==> (h in Digests(done) <==> rs[h].storePath in done)
  {
  }

  lemma DeadStuck(rs: Records, disk: set<StorePath>, roots: Roots, dead: set<StorePath>,
                  faults: map<StorePath, SweepFault>)
    requires forall p :: p in dead <==> IsDead(rs, roots, p)
    ensures AnyStuck(dead, disk, faults) <==> SweepFails(rs, disk, roots, faults)
    ensures dead <= AllPaths(rs)
  {
  }

  lemma SweptInStep(rs: Records, disk: set<StorePath>, dead: set<StorePath>, done: set<StorePath>,
                    lost: set<StorePath>, failed: set<StorePath>, rs': Records, disk': set<StorePath>)
    requires WellKeyed(rs) && done <= dead <= AllPaths(rs) && lost <= failed
    requires rs' == rs - Digests(done) && disk' == disk - done - lost
    ensures InStep(rs, disk, rs', disk', failed)
  {
    DigestsOf(rs, done);
  }

  /** Deleting the records of some paths shrinks the database by as many. */
  lemma DigestsSize(rs: Records, dead: set<StorePath>)
    requires WellKeyed(rs) && dead <= AllPaths(rs)
    ensures |rs - Digests(dead)| == |rs| - |dead|
  {
    var all, rest := AllPaths(rs), rs - Digests(dead);
    forall p | p in all && p !in dead ensures p in AllPaths(rest) {
      assert p.digest in rest && rest[p.digest].storePath == p;
    }
    assert AllPaths(rest) == all - dead;
    AllPathsSize(rs);
    AllPathsSize(rest);
    SplitSize(all, dead);
  }

  /** With faithful references, live paths are registered under their own names. */
  lemma LiveIsOwnRecord(rs: Records, roots: Roots, p: StorePath)
    requires Coherent(rs, roots) && IsLive(rs, roots, p)
    ensures Registered(rs, p) && rs[p.digest].storePath == p
  {
    var n :| n in roots && Complete(rs, roots[n]) && InClosure(rs, roots[n], p);
    var k: nat :| ReachesIn(RefGraph(rs), roots[n], p, k);
    if k > 0 {
      var m :| ReachesIn(RefGraph(rs), roots[n], m, k - 1) && p in Refs(rs, m);
      assert Faithful(rs, p);
    }
  }

  lemma CountsAddUp(rs: Records, roots: Roots, all: set<StorePath>, live: set<StorePath>)
    requires WellKeyed(rs) && Coherent(rs, roots)
    requires all == AllPaths(rs) && forall p :: p in live <==> IsLive(rs, roots, p)
    ensures live <= all && |all - live| + |live| == |rs|
  {
    forall p | p in live ensures p in all {
      LiveIsOwnRecord(rs, roots, p);
    }
    AllPathsSize(rs);
    SplitSize(all, live);
  }

  lemma {:induction false} AllPathsSize(rs: Records)
    requires WellKeyed(rs)
    ensures |AllPaths(rs)| == |rs|
    decreases |rs|
  {
    if rs != map[] {
      var h :| h in rs;
      var rest := rs - {h};
      AllPathsSize(rest);
      forall p | p in AllPaths(rs) ensures p in AllPaths(rest) + {rs[h].storePath} {
        assert p.digest in rs && rs[p.digest].storePath == p;
        assert p.digest != h ==> p.digest in rest;
      }
      assert AllPaths(rs) == AllPaths(rest) + {rs[h].storePath};
      assert rs.Keys == rest.Keys + {h};
      assert rs[h].storePath !in AllPaths(rest);
    }
  }
}
