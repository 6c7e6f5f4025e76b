/** Recursive fetching from a binary cache (snix-redox/src/cache.rs). */
module Fetch {
  // The cache is a fixed map from digests to narinfo metadata. Downloads and registrations
  // may fail at any path, as chosen by the `faults` argument.

  import opened Results
  import opened Graph
  import opened Store

  datatype NarInfo = NarInfo(narSize: nat, references: seq<StorePath>)

  type Cache = map<string, NarInfo>

  /** Where fetching one path can fail: before anything is written, or between extraction and registration. */
  datatype FetchFault = DownloadFails | RegisterFails

  predicate DigestsUnique(u: set<StorePath>) {
    forall p, q :: p in u && q in u && p.StorePath? && q.StorePath? && p.digest == q.digest ==> p == q
  }

  /** The paths in play: no two of them share a digest, and nothing recorded or advertised points outside. */
  predicate Universe(u: set<StorePath>, rs: Records, cache: Cache) {
    && DigestsUnique(u)
    && WellKeyed(rs)
    && (forall h :: h in rs ==> rs[h].storePath in u)
    && (forall h, r :: h in rs && r in rs[h].references ==> r in u)
    && (forall h, r :: h in cache && r in cache[h].references ==> r in u)
  }

  /** The effect of any fetching, finished or not: files only appear, records only appear or, when
      their path was missing on disk, are renewed from the cache. */
  ghost predicate Acquired(cache: Cache, rs: Records, disk: set<StorePath>, rs': Records, disk': set<StorePath>) {
    && disk <= disk'
    && (forall h :: h in rs ==> h in rs')
    && (forall h :: h in rs && rs[h].storePath in disk ==> rs'[h] == rs[h])
    && (forall h :: h in rs' ==> (h in rs && rs'[h] == rs[h]) || FromCache(cache, h, rs'[h]))
  }

  predicate FromCache(cache: Cache, h: string, info: PathInfo) {
    h in cache && info.narSize == cache[h].narSize && info.references == cache[h].references
  }

  function RecordOf(cache: Cache, p: StorePath): PathInfo
    requires p.StorePath? && p.digest in cache
  {
    PathInfo(p, cache[p.digest].narSize, cache[p.digest].references)
  }

  /** A path whose registration fails was extracted before. */
  function LeftBehind(cache: Cache, faults: map<StorePath, FetchFault>, p: StorePath): set<StorePath> {
    if p.StorePath? && p.digest in cache && p in faults && faults[p].RegisterFails? then {p} else {}
  }

  /** Download, extract and register one path (`fetch_inner`); extraction is all-or-nothing. */
  method FetchInner(db: PathInfoDb, disk: Disk, path: StorePath, cache: Cache, faults: map<StorePath, FetchFault>)
    returns (r: Result<(), StorePath>)
    modifies db, disk
    ensures r.Success? && path !in old(disk.present) ==>
              && path.StorePath? && path.digest in cache
              && disk.present == old(disk.present) + {path}
              && db.records == old(db.records)[path.digest := RecordOf(cache, path)]
    ensures path in old(disk.present) ==> (r.Success? <==> path.StorePath?)
    ensures path !in old(disk.present) ==> (r.Success? <==> path.StorePath? && path.digest in cache && path !in faults)
    ensures r.Failure? || path in old(disk.present) ==>
              && db.records == old(db.records)
              && disk.present == old(disk.present) + if r.Failure? then LeftBehind(cache, faults, path) else {}
    ensures r.Failure? ==> r.error == path && (path.Malformed? || path.digest !in cache || path in faults)
  {
    if path.Malformed? {
      return Failure(path);
    }
    if path in disk.present {
      return Success(());
    }
    if path.digest !in cache {
      return Failure(path);
    }
    if path in faults && faults[path].DownloadFails? {
      return Failure(path);
    }
    disk.present := disk.present + {path};
    if path in faults && faults[path].RegisterFails? {
      return Failure(path);
    }
    var _ := db.Register(RecordOf(cache, path));
    r := Success(());
  }

  /** Writing the record of a path that is not both present and registered disturbs nothing else. */
  lemma RegisterEffect(rs: Records, disk: set<StorePath>, disk': set<StorePath>, path: StorePath, cache: Cache,
                       u: set<StorePath>)
    requires path in u && Universe(u, rs, cache) && path.StorePath? && path.digest in cache
    requires !(path in disk && Registered(rs, path)) && disk <= disk'
    ensures var rs' := rs[path.digest := RecordOf(cache, path)];
            Universe(u, rs', cache) && Acquired(cache, rs, disk, rs', disk') && OnlyTouched(u, path, rs, rs')
  {
    var rs' := rs[path.digest := RecordOf(cache, path)];
    forall h | h in rs && rs[h].storePath in disk ensures rs'[h] == rs[h] {
      assert Faithful(rs, path);
    }
  }

  /** Only the record of `path` may have changed. */
  ghost predicate OnlyTouched(u: set<StorePath>, path: StorePath, rs: Records, rs': Records) {
    forall p :: p in u && p != path ==>
      (Registered(rs, p) <==> Registered(rs', p)) && (Registered(rs, p) ==> rs'[p.digest] == rs[p.digest])
  }

  // ----- What a fetch will find, before it starts -----

  predicate InStore(rs: Records, disk: set<StorePath>, p: StorePath) {
    p in disk && Registered(rs, p)
  }

  /** The references that will be followed: the recorded ones of a path in the store, else those of its narinfo. */
  function SourceRefs(rs: Records, disk: set<StorePath>, cache: Cache, p: StorePath): seq<StorePath> {
    if InStore(rs, disk, p) then rs[p.digest].references
    else if p.StorePath? && p.digest in cache then cache[p.digest].references
    else []
  }

  function SourceGraph(rs: Records, disk: set<StorePath>, cache: Cache): StorePath -> set<StorePath> {
    p => set q | q in SourceRefs(rs, disk, cache, p)
  }

  /** In the store already, or advertised by the cache and not faulty. */
  predicate Obtainable(rs: Records, disk: set<StorePath>, cache: Cache, faults: map<StorePath, FetchFault>,
                       p: StorePath) {
    InStore(rs, disk, p) || (p.StorePath? && p.digest in cache && p !in faults)
  }

  /** Everything that a fetch of the root will meet can be obtained. */
  ghost predicate AllObtainable(rs: Records, disk: set<StorePath>, cache: Cache, faults: map<StorePath, FetchFault>,
                                root: StorePath)
  {
    forall p :: Reaches(SourceGraph(rs, disk, cache), root, p) ==> Obtainable(rs, disk, cache, faults, p)
  }

  /** Make one path present and registered (the body of the loop in `fetch_recursive`); on
      success the references now recorded for it are returned. */
  method Obtain(db: PathInfoDb, disk: Disk, path: StorePath, cache: Cache, faults: map<StorePath, FetchFault>,
                ghost u: set<StorePath>)
    returns (r: Result<seq<StorePath>, StorePath>)
    requires path in u && Universe(u, db.records, cache)
    modifies db, disk
    ensures Universe(u, db.records, cache)
    ensures Acquired(cache, old(db.records), old(disk.present), db.records, disk.present)
    ensures r.Success? <==> Obtainable(old(db.records), old(disk.present), cache, faults, path)
    ensures r.Success? ==> InStore(db.records, disk.present, path)
    ensures r.Success? ==> db.records[path.digest].references == r.value
    ensures r.Success? ==> r.value == SourceRefs(old(db.records), old(disk.present), cache, path)
    ensures OnlyTouched(u, path, old(db.records), db.records) && disk.present <= old(disk.present) + {path}
    ensures r.Failure? ==> r.error == path && db.records == old(db.records)
  {
    ghost var rs, files := db.records, disk.present;
    var present := path in disk.present;
    var registered := Registered(db.records, path);
    if present && registered {
      return Success(db.records[path.digest].references);
    }
    if path.Malformed? || path.digest !in cache {
      return Failure(path);
    }
    if !present {
      var got := FetchInner(db, disk, path, cache, faults);
      if got.Failure? {
        return Failure(path);
      }
    } else {
      if path in faults {
        return Failure(path);
      }
      var _ := db.Register(RecordOf(cache, path));
    }
    RegisterEffect(rs, files, disk.present, path, cache, u);
    r := Success(cache[path.digest].references);
  }

  // ----- The search -----

  /** A path that has not been expanded is as it was before the fetch. */
  ghost predicate Unmet(rs0: Records, disk0: set<StorePath>, rs: Records, disk: set<StorePath>, p: StorePath) {
    && (Registered(rs0, p) <==> Registered(rs, p))
    && (Registered(rs0, p) ==> rs[p.digest] == rs0[p.digest])
    && (p in disk <==> p in disk0)
  }

  /** An expanded path was obtainable and is in the store with the references that were followed. */
  ghost predicate Met(rs0: Records, disk0: set<StorePath>, rs: Records, disk: set<StorePath>,
                      cache: Cache, faults: map<StorePath, FetchFault>, p: StorePath)
  {
    && Obtainable(rs0, disk0, cache, faults, p)
    && InStore(rs, disk, p)
    && Refs(rs, p) == SourceGraph(rs0, disk0, cache)(p)
  }

  ghost predicate Fetching(rs0: Records, disk0: set<StorePath>, rs: Records, disk: set<StorePath>, u: set<StorePath>,
                           cache: Cache, faults: map<StorePath, FetchFault>,
                           visited: set<StorePath>, queue: seq<StorePath>)
  {
    && (forall p :: p in queue ==> p in u)
    && (forall p :: p in visited ==> p in u && Met(rs0, disk0, rs, disk, cache, faults, p))
    && (forall p :: p in u && p !in visited ==> Unmet(rs0, disk0, rs, disk, p))
    && disk <= disk0 + visited
  }

  /** Nothing has happened to the paths that a fetch of the root does not meet. */
  ghost predicate ElsewhereSame(g: StorePath -> set<StorePath>, root: StorePath, rs0: Records, disk0: set<StorePath>,
                                rs: Records, disk: set<StorePath>, u: set<StorePath>)
  {
    forall p :: !Reaches(g, root, p) ==> (p in disk ==> p in disk0) && (p in u ==> Unmet(rs0, disk0, rs, disk, p))
  }

  /** Expanding one more path leaves the others as they are. */
  lemma FetchStep(rs0: Records, disk0: set<StorePath>, rs: Records, disk: set<StorePath>, rs': Records,
                  disk': set<StorePath>,
                  u: set<StorePath>, cache: Cache, faults: map<StorePath, FetchFault>,
                  visited: set<StorePath>, queue: seq<StorePath>, refs: seq<StorePath>)
    requires queue != [] && queue[0] !in visited && Fetching(rs0, disk0, rs, disk, u, cache, faults, visited, queue)
    requires Obtainable(rs, disk, cache, faults, queue[0]) && refs == SourceRefs(rs, disk, cache, queue[0])
    requires InStore(rs', disk', queue[0]) && rs'[queue[0].digest].references == refs
    requires OnlyTouched(u, queue[0], rs, rs') && disk <= disk' <= disk + {queue[0]} && forall q :: q in refs ==> q in u
    ensures Fetching(rs0, disk0, rs', disk', u, cache, faults, visited + {queue[0]},
                     queue[1..] + Unseen(refs, visited + {queue[0]}))
  {
    var path := queue[0];
    assert Unmet(rs0, disk0, rs, disk, path);
    assert Met(rs0, disk0, rs', disk', cache, faults, path);
    forall p | p in visited ensures Met(rs0, disk0, rs', disk', cache, faults, p) {
      assert Met(rs0, disk0, rs, disk, cache, faults, p);
    }
    forall p | p in u && p !in visited + {path} ensures Unmet(rs0, disk0, rs', disk', p) {
      assert Unmet(rs0, disk0, rs, disk, p);
    }
  }

  /** What the next path offers is what it offered before the fetch. */
  lemma UnmetOffers(rs0: Records, disk0: set<StorePath>, rs: Records, disk: set<StorePath>, cache: Cache,
                    faults: map<StorePath, FetchFault>, p: StorePath)
    requires Unmet(rs0, disk0, rs, disk, p)
    ensures Obtainable(rs, disk, cache, faults, p) <==> Obtainable(rs0, disk0, cache, faults, p)
    ensures SourceRefs(rs, disk, cache, p) == SourceRefs(rs0, disk0, cache, p)
  {
  }

  lemma RefsInUniverse(rs: Records, disk: set<StorePath>, cache: Cache, u: set<StorePath>, p: StorePath)
    requires Universe(u, rs, cache)
    ensures forall q :: q in SourceRefs(rs, disk, cache, p) ==> q in u
  {
  }

  lemma AcquiredTrans(cache: Cache, r0: Records, d0: set<StorePath>, r1: Records, d1: set<StorePath>, r2: Records,
                      d2: set<StorePath>)
    requires Acquired(cache, r0, d0, r1, d1) && Acquired(cache, r1, d1, r2, d2)
    ensures Acquired(cache, r0, d0, r2, d2)
  {
  }

  /** Fetch a path and everything it references, transitively. On success the visited set is returned. */
  method FetchRecursive(db: PathInfoDb, disk: Disk, root: StorePath, cache: Cache, faults: map<StorePath, FetchFault>,
                        ghost u: set<StorePath>)
    returns (r: Result<set<StorePath>, StorePath>)
    requires root in u && Universe(u, db.records, cache)
    modifies db, disk
    ensures Universe(u, db.records, cache)
    ensures Acquired(cache, old(db.records), old(disk.present), db.records, disk.present)
    ensures r.Success? <==> AllObtainable(old(db.records), old(disk.present), cache, faults, root)
    ensures r.Success? ==> Complete(db.records, root) && ClosurePresent(db.records, disk.present, root)
    ensures r.Success? ==> forall p :: p in r.value <==> InClosure(db.records, root, p)
    ensures r.Success? ==> disk.present == old(disk.present) + r.value
    ensures ElsewhereSame(SourceGraph(old(db.records), old(disk.present), cache), root, old(db.records),
                          old(disk.present), db.records, disk.present, u)
    ensures r.Failure? ==> Reaches(SourceGraph(old(db.records), old(disk.present), cache), root, r.error)
    ensures r.Failure? ==> !Obtainable(old(db.records), old(disk.present), cache, faults, r.error)
  {
    ghost var rs0, disk0 := db.records, disk.present;
    ghost var g := SourceGraph(rs0, disk0, cache);
    var queue := [root];
    var visited: set<StorePath> := {};
    FrontierStart(g, root);
    while queue != []
      invariant Universe(u, db.records, cache)
      invariant Acquired(cache, rs0, disk0, db.records, disk.present)
      invariant Frontier(g, root, visited, queue)
      invariant Fetching(rs0, disk0, db.records, disk.present, u, cache, faults, visited, queue)
      decreases u - visited, |queue|
    {
      var path := queue[0];
      if path in visited {
        FetchSkip(rs0, disk0, db.records, disk.present, u, cache, faults, root, visited, queue);
        queue := queue[1..];
        continue;
      }
      var more := FetchNext(db, disk, root, cache, faults, u, rs0, disk0, visited, queue);
      if more.Failure? {
        return Failure(more.error);
      }
      visited := visited + {path};
      queue := queue[1..] + more.value;
    }
    FetchDone(rs0, disk0, db.records, disk.present, u, cache, faults, root, visited);
    r := Success(visited);
  }

  lemma FetchSkip(rs0: Records, disk0: set<StorePath>, rs: Records, disk: set<StorePath>, u: set<StorePath>,
                  cache: Cache, faults: map<StorePath, FetchFault>, root: StorePath, visited: set<StorePath>,
                  queue: seq<StorePath>)
    requires queue != [] && queue[0] in visited && Frontier(SourceGraph(rs0, disk0, cache), root, visited, queue)
    requires Fetching(rs0, disk0, rs, disk, u, cache, faults, visited, queue)
    ensures Frontier(SourceGraph(rs0, disk0, cache), root, visited, queue[1..])
    ensures Fetching(rs0, disk0, rs, disk, u, cache, faults, visited, queue[1..])
  {
    FrontierSkip(SourceGraph(rs0, disk0, cache), root, visited, queue);
  }

  lemma FetchDone(rs0: Records, disk0: set<StorePath>, rs: Records, disk: set<StorePath>, u: set<StorePath>,
                  cache: Cache, faults: map<StorePath, FetchFault>, root: StorePath, visited: set<StorePath>)
    requires Frontier(SourceGraph(rs0, disk0, cache), root, visited, [])
    requires Fetching(rs0, disk0, rs, disk, u, cache, faults, visited, []) && disk0 <= disk
    ensures disk == disk0 + visited
    ensures AllObtainable(rs0, disk0, cache, faults, root)
    ensures Complete(rs, root) && ClosurePresent(rs, disk, root)
    ensures forall p :: p in visited <==> InClosure(rs, root, p)
    ensures ElsewhereSame(SourceGraph(rs0, disk0, cache), root, rs0, disk0, rs, disk, u)
  {
    forall p | p in visited ensures Refs(rs, p) == SourceGraph(rs0, disk0, cache)(p) {
      assert Met(rs0, disk0, rs, disk, cache, faults, p);
    }
    FetchedIsClosure(SourceGraph(rs0, disk0, cache), rs, root, visited);
    forall p | p in visited ensures Obtainable(rs0, disk0, cache, faults, p) && InStore(rs, disk, p) {
      assert Met(rs0, disk0, rs, disk, cache, faults, p);
    }
  }

  lemma StoppedElsewhere(rs0: Records, disk0: set<StorePath>, rs: Records, disk: set<StorePath>,
                         disk': set<StorePath>, u: set<StorePath>, cache: Cache, faults: map<StorePath, FetchFault>,
                         root: StorePath, visited: set<StorePath>, queue: seq<StorePath>)
    requires queue != [] && Frontier(SourceGraph(rs0, disk0, cache), root, visited, queue)
    requires Fetching(rs0, disk0, rs, disk, u, cache, faults, visited, queue)
    requires disk <= disk' <= disk + {queue[0]}
    ensures ElsewhereSame(SourceGraph(rs0, disk0, cache), root, rs0, disk0, rs, disk', u)
  {
    var g := SourceGraph(rs0, disk0, cache);
    assert queue[0] in queue;
    forall p | !Reaches(g, root, p)
      ensures (p in disk' ==> p in disk0) && (p in u ==> Unmet(rs0, disk0, rs, disk', p))
    {
      assert p !in visited && p != queue[0];
    }
  }

  /** Expand the first path of the queue and return what has to be queued. */
  method FetchNext(db: PathInfoDb, disk: Disk, ghost root: StorePath, cache: Cache, faults: map<StorePath, FetchFault>,
                   ghost u: set<StorePath>, ghost rs0: Records, ghost disk0: set<StorePath>,
                   visited: set<StorePath>, queue: seq<StorePath>)
    returns (r: Result<seq<StorePath>, StorePath>)
    requires Universe(u, db.records, cache) && Acquired(cache, rs0, disk0, db.records, disk.present)
    requires queue != [] && queue[0] !in visited && Frontier(SourceGraph(rs0, disk0, cache), root, visited, queue)
    requires Fetching(rs0, disk0, db.records, disk.present, u, cache, faults, visited, queue)
    modifies db, disk
    ensures Universe(u, db.records, cache) && Acquired(cache, rs0, disk0, db.records, disk.present)
    ensures r.Success? ==> Frontier(SourceGraph(rs0, disk0, cache), root, visited + {queue[0]}, queue[1..] + r.value)
    ensures r.Success? ==> Fetching(rs0, disk0, db.records, disk.present, u, cache, faults, visited + {queue[0]},
                                    queue[1..] + r.value)
    ensures r.Failure? ==> r.error == queue[0] && !Obtainable(rs0, disk0, cache, faults, queue[0])
    ensures r.Failure? ==>
              ElsewhereSame(SourceGraph(rs0, disk0, cache), root, rs0, disk0, db.records, disk.present, u)
  {
    var path := queue[0];
    ghost var rs, files := db.records, disk.present;
    assert Unmet(rs0, disk0, rs, files, path);
    UnmetOffers(rs0, disk0, rs, files, cache, faults, path);
    RefsInUniverse(rs, files, cache, u, path);
    r := Obtain(db, disk, path, cache, faults, u);
    AcquiredTrans(cache, rs0, disk0, rs, files, db.records, disk.present);
    if r.Success? {
      var refs := r.value;
      FetchStep(rs0, disk0, rs, files, db.records, disk.present, u, cache, faults, visited, queue, refs);
      FrontierExpand(SourceGraph(rs0, disk0, cache), root, visited, queue, Unseen(refs, visited + {path}));
      r := Success(Unseen(refs, visited + {path}));
    } else {
      StoppedElsewhere(rs0, disk0, rs, files, disk.present, u, cache, faults, root, visited, queue);
    }
  }

  /** A search over what was on offer before the fetch ends with the closure in the database after it. */
  lemma FetchedIsClosure(g: StorePath -> set<StorePath>, rs: Records, root: StorePath, visited: set<StorePath>)
    requires Frontier(g, root, visited, []) && forall p :: p in visited ==> Refs(rs, p) == g(p)
    ensures forall p :: p in visited <==> InClosure(rs, root, p)
    ensures forall p :: p in visited <==> Reaches(g, root, p)
  {
    FrontierDone(g, root, visited);
    TransferExact(g, RefGraph(rs), root);
  }

  /** What is present and complete stays so through any fetching. */
  lemma AcquiredKeepsClosure(rs: Records, disk: set<StorePath>, rs': Records, disk': set<StorePath>, u: set<StorePath>,
                             cache: Cache, root: StorePath)
    requires Universe(u, rs, cache) && root in u
    requires Acquired(cache, rs, disk, rs', disk')
    requires ClosurePresent(rs, disk, root)
    ensures ClosurePresent(rs', disk', root)
    ensures forall p :: InClosure(rs, root, p) <==> InClosure(rs', root, p)
  {
    forall p | InClosure(rs, root, p)
      ensures Registered(rs', p) && Refs(rs, p) == Refs(rs', p) && p in disk'
    {
      InUniverse(rs, u, cache, root, p);
      assert rs[p.digest].storePath == p;
    }
    TransferExact(RefGraph(rs), RefGraph(rs'), root);
  }

  lemma InUniverse(rs: Records, u: set<StorePath>, cache: Cache, root: StorePath, p: StorePath)
    requires Universe(u, rs, cache) && root in u && InClosure(rs, root, p)
    ensures p in u && Faithful(rs, p)
  {
  }
}
