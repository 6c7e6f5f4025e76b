/**
  The file worker and its bounded cache of open files (`FileIoWorker::spawn` and `worker_read` in
  snix-redox/src/file_io_worker.rs), against reading every file afresh.

  An open file keeps reading what it was opened on, even when its path is replaced later.
 */
module FileCache {

  datatype Path = Path(text: string)

  datatype Request = Read(path: Path, offset: nat, len: nat) | Preload(path: Path) | Shutdown

  datatype Response = Data(bytes: seq<int>) | OpenFailed

  type Disk = map<Path, seq<int>>

  const MAX_FILE_CACHE: nat := 64

  /** At most `len` bytes from an offset; nothing past the end. */
  function Slice(contents: seq<int>, offset: nat, len: nat): seq<int> {
    if offset >= |contents| then []
    else if offset + len <= |contents| then contents[offset..offset + len]
    else contents[offset..]
  }

  /** What a slice holds: the bytes from the offset on, as many as asked for and available. */
  lemma SliceHolds(contents: seq<int>, offset: nat, len: nat)
    ensures |Slice(contents, offset, len)| <= len
    ensures |Slice(contents, offset, len)| < len ==> offset + |Slice(contents, offset, len)| >= |contents|
    ensures forall i :: 0 <= i < |Slice(contents, offset, len)| ==>
              offset + i < |contents| && Slice(contents, offset, len)[i] == contents[offset + i]
  {
  }

  /** A file read in pieces of a given length from an offset on. */
  function InPieces(contents: seq<int>, offset: nat, piece: nat): seq<int>
    requires piece > 0
    decreases |contents| - offset
  {
    if offset >= |contents| then []
    else Slice(contents, offset, piece) + InPieces(contents, offset + piece, piece)
  }

  /** Reading piece by piece gives the file. */
  lemma {:induction false} PiecesJoin(contents: seq<int>, offset: nat, piece: nat)
    requires piece > 0 && offset <= |contents|
    ensures InPieces(contents, offset, piece) == contents[offset..]
    decreases |contents| - offset
  {
    if offset + piece <= |contents| {
      PiecesJoin(contents, offset + piece, piece);
    }
  }

  /** The answer without any cache. */
  function Direct(disk: Disk, q: Request): Response {
    match q
    case Read(path, offset, len) => if path in disk then Data(Slice(disk[path], offset, len)) else OpenFailed
    case Preload(path) => if path in disk then Data(disk[path]) else OpenFailed
    case Shutdown => OpenFailed
  }

  /** The requests before the first shutdown. */
  function Served(qs: seq<Request>): seq<Request> {
    if qs == [] || qs[0].Shutdown? then [] else [qs[0]] + Served(qs[1..])
  }

  /** An open file: what it was opened on and where the next read starts. */
  datatype Handle = Handle(contents: seq<int>, position: nat)

  /** A file stays open, except that a full cache may drop one. */
  ghost predicate OneDropped(before: map<Path, Handle>, after: map<Path, Handle>) {
    before.Keys <= after.Keys || (|before| >= MAX_FILE_CACHE && exists v :: before.Keys - {v} <= after.Keys)
  }

  class Worker {
    var cache: map<Path, Handle>

    predicate Bounded()
      reads this
    {
      |cache| <= MAX_FILE_CACHE
    }

    /** Every open file reads what its path names now. */
    ghost predicate Current(disk: Disk)
      reads this
    {
      forall p :: p in cache ==> p in disk && cache[p].contents == disk[p]
    }

    constructor ()
      ensures cache == map[] && Bounded()
    {
      cache := map[];
    }

    /** Open a file that is not open yet; a full cache first drops one entry. */
    method Open(disk: Disk, path: Path) returns (ok: bool)
      requires Bounded() && path !in cache
      modifies this
      ensures Bounded()
      ensures ok <==> path in disk
      ensures !ok ==> cache == old(cache)
      ensures ok ==> path in cache && cache[path] == Handle(disk[path], 0)
      ensures OneDropped(old(cache), cache)
      ensures forall p :: p in cache && p != path ==> p in old(cache) && cache[p] == old(cache)[p]
    {
      if path !in disk {
        return false;
      }
      if |cache| >= MAX_FILE_CACHE {
        assert cache.Keys != {};
        var victim :| victim in cache;
        cache := cache - {victim};
        assert old(cache).Keys - {victim} <= cache.Keys;
      }
      cache := cache[path := Handle(disk[path], 0)];
      ok := true;
    }

    /** Seek and read; the answer comes from what the open file, if there is one, was opened on. */
    method WorkerRead(disk: Disk, path: Path, offset: nat, len: nat) returns (r: Response)
      requires Bounded()
      modifies this
      ensures Bounded()
      ensures r
              == if path in old(cache) then Data(Slice(old(cache)[path].contents, offset, len))
                 else Direct(disk, Read(path, offset, len))
      ensures forall p :: p in cache ==>
                if p in old(cache) then cache[p].contents == old(cache)[p].contents
                else p == path && p in disk && cache[p].contents == disk[p]
      ensures r.OpenFailed? ==> cache == old(cache)
      ensures r.Data? ==> path in cache
      ensures path in old(cache) ==> cache.Keys == old(cache).Keys
      ensures OneDropped(old(cache), cache)
    {
      if path !in cache {
        var ok := Open(disk, path);
        if !ok {
          return OpenFailed;
        }
      }
      var file := cache[path].(position := offset);
      var bytes := Slice(file.contents, file.position, len);
      cache := cache[path := file.(position := offset + |bytes|)];
      r := Data(bytes);
    }

    /** The request loop, while the files do not change: every answer is that of a fresh read. */
    method Serve(disk: Disk, requests: seq<Request>) returns (responses: seq<Response>)
      requires Bounded() && Current(disk)
      modifies this
      ensures Bounded() && Current(disk)
      ensures |responses| == |Served(requests)|
      ensures forall i :: 0 <= i < |responses| ==> responses[i] == Direct(disk, Served(requests)[i])
    {
      responses := [];
      var i := 0;
      while i < |requests| && !requests[i].Shutdown?
        invariant 0 <= i <= |requests| && |responses| == i
        invariant Bounded() && Current(disk)
        invariant forall j :: 0 <= j < i ==> !requests[j].Shutdown? && responses[j] == Direct(disk, requests[j])
      {
        var r: Response;
        match requests[i] {
          case Read(path, offset, len) => r := WorkerRead(disk, path, offset, len);
          case Preload(path) => r := if path in disk then Data(disk[path]) else OpenFailed;
        }
        responses := responses + [r];
        i := i + 1;
      }
      ServedPrefix(requests, i);
    }
  }

  lemma {:induction false} ServedPrefix(qs: seq<Request>, n: nat)
    requires n <= |qs| && (n < |qs| ==> qs[n].Shutdown?) && forall j :: 0 <= j < n ==> !qs[j].Shutdown?
    ensures Served(qs) == qs[..n]
    decreases n
  {
    if n > 0 {
      ServedPrefix(qs[1..], n - 1);
      assert qs[..n] == [qs[0]] + qs[1..][..n - 1];
    }
  }
}
