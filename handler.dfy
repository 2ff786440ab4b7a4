/**
  fsHandler: the request handler FSHandler returns. It keeps a cache from
  stripped request path to fsFile, fills it on a miss by resolving the path
  under the root folder (a file, a directory's index file, or a generated
  listing), and is swept by cleanCache, which drops and closes the entries
  older than the cache duration.
 */
module Handler {
  import opened Wrappers
  import opened ByteStrings
  import opened PathNormalizer
  import opened FileSystem
  import opened Resolver
  import opened Resource
  import opened DirIndex
  import opened Readers

  /** FSHandlerCacheDuration, ten seconds, in nanoseconds (time.Duration). */
  const CacheDuration: int := 10 * 1_000_000_000

  const StatusBadRequest: int := 400
  const StatusNotFound: int := 404

  /** What the handler does with the response: an error status, or a body stream with its length and type. */
  datatype Outcome =
    | Status(code: int)
    | Body(reader: FileReader, contentLength: int, contentType: string)

  /**
    What a request that misses the cache serves: the bytes its reader will
    deliver, and the content type and length it announces.
   */
  datatype Served = Served(content: string, contentType: string, contentLength: int)

  /**
    cleanCache's test: more than the cache duration has passed since the
    entry's time. Go's Time.Sub saturates instead of overflowing, which does
    not change the outcome of this comparison.
   */
  predicate Expired(now: int, ff: FsFile) {
    now - ff.t > CacheDuration
  }

  /** The cache a sweep at `now` leaves: the entries that have not expired, unchanged. */
  function Swept(cache: map<string, FsFile>, now: int): map<string, FsFile> {
    map k | k in cache && !Expired(now, cache[k]) :: cache[k]
  }

  /** The paths a sweep at `now` evicts. */
  function Evicted(cache: map<string, FsFile>, now: int): set<string> {
    set k | k in cache && Expired(now, cache[k])
  }

  /** The file handles held by the entries under `keys`; listings hold none. */
  ghost function Handles(cache: map<string, FsFile>, keys: set<string>): set<File?> {
    set k | k in keys && k in cache && cache[k].f != null :: cache[k].f
  }

  /**
    The insertion h.cache[path] = ff as the source writes it: the
    descriptor keeps the `t` that openFSFile and createDirIndex left unset,
    Go's zero time.
   */
  function InsertAsWritten(cache: map<string, FsFile>, path: string, ff: FsFile): (r: map<string, FsFile>)
    ensures r.Keys == cache.Keys + {path}
    ensures r[path] == ff && r[path].t == ff.t
    ensures forall k | k in cache && k != path :: r[k] == cache[k]
  {
    cache[path := ff]
  }

  /** The insertion the cache duration calls for: the entry is stamped with the time it was cached. */
  function InsertStamped(cache: map<string, FsFile>, path: string, ff: FsFile, now: int): map<string, FsFile> {
    cache[path := ff.(t := now)]
  }

  /** What openFSFile and createDirIndex together make of a path that is not cached. */
  function Resolve(fs: Fs, filePath: string, uri: Uri, typeByExtension: string -> string,
                   update: (Uri, string) -> Uri): Result<Served, Error>
  {
    var res := OpenFSFile(fs, filePath, typeByExtension);
    match res.result
    case Ok(o) => Ok(Served(fs[o.path].content, o.contentType, o.contentLength))
    case Err(DirIndexRequired) =>
      (match DirIndexResult(uri, filePath, fs, update)
       case Ok(listing) => Ok(Served(listing.dirIndex, listing.contentType, listing.contentLength))
       case Err(e) => Err(e))
    case Err(e) => Err(e)
  }

  /** The handles opened and closed while resolving a path that is not cached. */
  function ResolveTrace(fs: Fs, filePath: string, typeByExtension: string -> string): seq<HandleOp> {
    var res := OpenFSFile(fs, filePath, typeByExtension);
    if res.result == Err(DirIndexRequired) then res.trace + DirIndexTrace(fs, filePath) else res.trace
  }

  /** A cached descriptor announces the length of exactly the bytes its readers deliver. */
  predicate Consistent(ff: FsFile) {
    if ff.f != null then ff.dirIndex == [] && ff.contentLength == |ff.f.content| <= MaxInt
    else ff.contentType == ListingContentType && ff.contentLength == |ff.dirIndex|
  }

  ghost predicate NoDuplicates(s: seq<File?>) {
    forall i, j | 0 <= i < j < |s| :: s[i] != s[j]
  }

  class FsHandler {
    const root: string
    const stripSlashes: nat
    var cache: map<string, FsFile>
    /** Every file handle closed so far, in order. */
    ghost var closed: seq<File?>
    /** Every open and close the handler has made on the filesystem while resolving paths. */
    ghost var opsLog: seq<HandleOp>

    ghost predicate Valid()
      reads this
    {
      && (forall k | k in cache :: Nul !in k && Consistent(cache[k]))
      && (forall k | k in cache && cache[k].f != null :: cache[k].f !in closed)
      && (forall k, k' | k in cache && k' in cache && k != k' && cache[k].f != null :: cache[k].f != cache[k'].f)
      && NoDuplicates(closed)
    }

    /** The cache key of a request path: stripPathSlashes with the handler's count. */
    function RequestPath(ctxPath: string): string
      requires CanStrip(ctxPath, stripSlashes)
    {
      Stripped(ctxPath, stripSlashes)
    }

    /**
      FSHandler: the root loses its trailing slashes and becomes "." when
      nothing is left, a negative strip count becomes 0, and the cache
      starts empty.
     */
    constructor (root: string, stripSlashes: int)
      ensures TrimTrailingSlashes(root) == [] ==> this.root == "."
      ensures TrimTrailingSlashes(root) != [] ==> this.root == TrimTrailingSlashes(root)
      ensures this.stripSlashes == ClampCount(stripSlashes)
      ensures cache == map[] && closed == [] && opsLog == []
      ensures Valid()
    {
      var r := NormalizeRoot(root);
      this.root := r;
      this.stripSlashes := if stripSlashes < 0 then 0 else stripSlashes;
      cache := map[];
      closed := [];
      opsLog := [];
    }

    /**
      cleanCache at time `now`: the entries that have expired leave the
      cache, and each file handle among them is closed, once; listings are
      dropped without a close.
     */
    method CleanCache(now: int)
      requires Valid()
      modifies this
      ensures Valid()
      ensures cache == Swept(old(cache), now)
      ensures opsLog == old(opsLog)
      ensures |closed| >= |old(closed)| && closed[..|old(closed)|] == old(closed)
      ensures forall x :: x in closed[|old(closed)|..] <==> x in Handles(old(cache), Evicted(old(cache), now))
    {
      ghost var start := cache;
      ghost var before := closed;
      ghost var closes, done := SweepKeys(now);
      SweepDone(start, now, before, cache, done, closes);
      assert closed[|before|..] == closes;
    }

    /**
      The loop of cleanCache: each key of the cache is looked at once; an
      expired entry is dropped and its handle, if any, closed. The loop runs
      under the cache lock, so it works on a copy of the map and the closes
      it makes, and stores them when it is done.
     */
    method SweepKeys(now: int) returns (ghost closes: seq<File?>, ghost done: set<string>)
      requires forall k, k' | k in cache && k' in cache && k != k' && cache[k].f != null :: cache[k].f != cache[k'].f
      modifies this
      ensures SweepInv(old(cache), now, {}, cache, done, closes)
      ensures closed == old(closed) + closes
      ensures opsLog == old(opsLog)
    {
      var c := cache;
      closes, done := [], {};
      var keys := c.Keys;
      while keys != {}
        invariant SweepInv(old(cache), now, keys, c, done, closes)
        modifies {}
        decreases keys
      {
        var k :| k in keys;
        var v := c[k];
        ghost var c0, done0, closes0 := c, done, closes;
        if now - v.t > CacheDuration {
          if v.f != null {
            closes := closes + [v.f];
          }
          done := done + {k};
          c := c - {k};
        }
        SweepStep(old(cache), now, keys, c0, done0, closes0, k, c, done, closes);
        keys := keys - {k};
      }
      cache := c;
      closed := closed + closes;
    }

    /**
      The miss branch of handleRequest: openFSFile on the path under the
      root and, when that asks for a listing, createDirIndex. A file served
      from its handle gets a handle of its own, shared with no cache entry.
     */
    method ResolveMiss(filePath: string, uri: Uri, fs: Fs, typeByExtension: string -> string,
                       update: (Uri, string) -> Uri) returns (res: Result<FsFile, Error>)
      modifies this
      ensures cache == old(cache) && closed == old(closed)
      ensures opsLog == old(opsLog) + ResolveTrace(fs, filePath, typeByExtension)
      ensures res.Ok? <==> Resolve(fs, filePath, uri, typeByExtension, update).Ok?
      ensures res.Ok? ==> && Consistent(res.value)
                          && res.value.Content() == Resolve(fs, filePath, uri, typeByExtension, update).value.content
                          && res.value.contentType == Resolve(fs, filePath, uri, typeByExtension, update).value.contentType
                          && res.value.contentLength == Resolve(fs, filePath, uri, typeByExtension, update).value.contentLength
                          && (res.value.f != null ==> fresh(res.value.f))
                          && res.value.t == ZeroTime
    {
      var resolution := OpenFSFile(fs, filePath, typeByExtension);
      opsLog := opsLog + resolution.trace;
      if resolution.result == Err(DirIndexRequired) {
        var listing, trace := CreateDirIndex(uri, filePath, fs, update);
        opsLog := opsLog + trace;
        if listing.Err? {
          return Err(listing.error);
        }
        return Ok(listing.value);
      } else if resolution.result.Err? {
        return Err(resolution.result.error);
      }
      var o := resolution.result.value;
      var file := new File(o.path, fs[o.path].content);
      res := Ok(FsFile(file, [], o.contentType, o.contentLength, ZeroTime));
    }

    /**
      The insertion of handleRequest, h.cache[path] = ff, with the entry
      stamped with the time of insertion.
     */
    method Insert(path: string, ff: FsFile, now: int)
      requires Valid()
      requires Nul !in path && path !in cache && Consistent(ff)
      requires ff.f != null ==> ff.f !in closed && forall k | k in cache :: cache[k].f != ff.f
      modifies this
      ensures Valid()
      ensures cache == InsertStamped(old(cache), path, ff, now)
      ensures closed == old(closed) && opsLog == old(opsLog)
    {
      cache := cache[path := ff.(t := now)];
    }

    /**
      handleRequest. A path with a NUL byte is refused with 400 before the
      cache is consulted; any other path is served by ServePath under its
      stripped form.
     */
    method HandleRequest(ctxPath: string, uri: Uri, now: int, fs: Fs, typeByExtension: string -> string,
                         update: (Uri, string) -> Uri, pool: ReaderPool) returns (out: Outcome)
      requires Valid() && pool.Valid()
      requires CanStrip(ctxPath, stripSlashes)
      modifies this, pool, pool.free
      ensures Valid() && pool.Valid()
      ensures closed == old(closed)
      ensures Nul in RequestPath(ctxPath) ==>
                out == Status(StatusBadRequest) && cache == old(cache) && opsLog == old(opsLog)
                && pool.free == old(pool.free)
      ensures Nul !in RequestPath(ctxPath) ==>
                Served(RequestPath(ctxPath), uri, now, fs, typeByExtension, update, out)
      ensures Nul !in RequestPath(ctxPath) && RequestPath(ctxPath) in old(cache) ==>
                out.Body? && out.reader.Content() == old(cache)[RequestPath(ctxPath)].Content()
      ensures Nul !in RequestPath(ctxPath) && RequestPath(ctxPath) !in old(cache)
              && Resolve(fs, root + RequestPath(ctxPath), uri, typeByExtension, update).Ok? ==>
                out.Body? && out.reader.Content()
                             == Resolve(fs, root + RequestPath(ctxPath), uri, typeByExtension, update).value.content
      ensures out.Body? ==> out.reader.offset == 0 && out.reader !in pool.free
                            && out.contentLength == |out.reader.Content()|
      ensures out.Body? ==> Taken(pool, out.reader)
      ensures out.Status? ==> pool.free == old(pool.free)
    {
      var path := StripPathSlashes(ctxPath, stripSlashes);
      var n := IndexByte(path, Nul);
      if n >= 0 {
        return Status(StatusBadRequest);
      }
      out := ServePath(path, uri, now, fs, typeByExtension, update, pool);
    }

    /**
      What handleRequest does with a stripped path free of NUL bytes: a
      cached path is served as cached, with no filesystem access; any other
      path is resolved under the root and then served and cached under that
      path, or refused with 404.
     */
    twostate predicate Served(path: string, uri: Uri, now: int, fs: Fs, typeByExtension: string -> string,
                              update: (Uri, string) -> Uri, new out: Outcome)
      reads this
    {
      && (path in old(cache) ==>
            && cache == old(cache) && opsLog == old(opsLog) && out.Body?
            && out.contentType == old(cache)[path].contentType
            && out.contentLength == old(cache)[path].contentLength)
      && (path !in old(cache) ==>
            opsLog == old(opsLog) + ResolveTrace(fs, root + path, typeByExtension))
      && (path !in old(cache) && Resolve(fs, root + path, uri, typeByExtension, update).Err? ==>
            out == Status(StatusNotFound) && cache == old(cache))
      && (path !in old(cache) && Resolve(fs, root + path, uri, typeByExtension, update).Ok? ==>
            && cache.Keys == old(cache).Keys + {path}
            && (forall k | k in old(cache) :: cache[k] == old(cache)[k])
            && cache[path].t == now
            && cache[path].Content() == Resolve(fs, root + path, uri, typeByExtension, update).value.content
            && cache[path].contentType == Resolve(fs, root + path, uri, typeByExtension, update).value.contentType
            && out.Body?
            && out.contentType == Resolve(fs, root + path, uri, typeByExtension, update).value.contentType
            && out.contentLength == Resolve(fs, root + path, uri, typeByExtension, update).value.contentLength)
    }

    method ServePath(path: string, uri: Uri, now: int, fs: Fs, typeByExtension: string -> string,
                     update: (Uri, string) -> Uri, pool: ReaderPool) returns (out: Outcome)
      requires Valid() && pool.Valid()
      requires Nul !in path
      modifies this, pool, pool.free
      ensures Valid() && pool.Valid()
      ensures closed == old(closed)
      ensures Served(path, uri, now, fs, typeByExtension, update, out)
      ensures path in old(cache) ==> out.Body? && out.reader.Content() == old(cache)[path].Content()
      ensures path !in old(cache) && Resolve(fs, root + path, uri, typeByExtension, update).Ok? ==>
                out.Body? && out.reader.Content() == Resolve(fs, root + path, uri, typeByExtension, update).value.content
      ensures out.Body? ==> out.reader.offset == 0 && out.reader !in pool.free
                            && out.contentLength == |out.reader.Content()|
      ensures out.Body? ==> Taken(pool, out.reader)
      ensures out.Status? ==> pool.free == old(pool.free)
    {
      var ff: FsFile;
      if path in cache {
        ff := cache[path];
      } else {
        var res := ResolveMiss(root + path, uri, fs, typeByExtension, update);
        if res.Err? {
          return Status(StatusNotFound);
        }
        ff := res.value;
        Insert(path, ff, now);
        assert cache[path] == ff.(t := now);
      }
      out := Respond(ff, pool);
    }
  }

  /**
    The end of handleRequest: the body stream is a reader of the descriptor,
    taken from the pool, announced with the descriptor's length and type.
   */
  method Respond(ff: FsFile, pool: ReaderPool) returns (out: Outcome)
    requires pool.Valid()
    modifies pool, pool.free
    ensures pool.Valid()
    ensures out.Body? && out.contentLength == ff.contentLength && out.contentType == ff.contentType
    ensures out.reader.Content() == ff.Content() && out.reader.offset == 0 && out.reader !in pool.free
    ensures Taken(pool, out.reader)
  {
    var r := Reader(ff, pool);
    out := Body(r, ff.contentLength, ff.contentType);
  }

  /**
    The state of cleanCache's loop over the keys of the cache it started
    from: the keys still to look at, the expired entries already dropped
    (and their handles closed once each), the rest unchanged.
   */
  ghost predicate SweepInv(start: map<string, FsFile>, now: int, keys: set<string>,
                           cache: map<string, FsFile>, done: set<string>, closes: seq<File?>)
  {
    && keys <= start.Keys
    && done == Evicted(start, now) - keys
    && (forall k :: k in cache <==> k in start && (k in keys || !Expired(now, start[k])))
    && (forall k | k in cache :: cache[k] == start[k])
    && (forall x | x in closes :: x in Handles(start, done))
    && (forall x | x in Handles(start, done) :: x in closes)
    && NoDuplicates(closes)
  }

  /** One turn of cleanCache's loop keeps its state. */
  lemma SweepStep(start: map<string, FsFile>, now: int, keys: set<string>,
                  cache: map<string, FsFile>, done: set<string>, closes: seq<File?>, k: string,
                  cache': map<string, FsFile>, done': set<string>, closes': seq<File?>)
    requires SweepInv(start, now, keys, cache, done, closes) && k in keys
    requires forall k, k' | k in start && k' in start && k != k' && start[k].f != null :: start[k].f != start[k'].f
    requires cache' == if Expired(now, cache[k]) then cache - {k} else cache
    requires done' == if Expired(now, cache[k]) then done + {k} else done
    requires closes' == if Expired(now, cache[k]) && cache[k].f != null then closes + [cache[k].f] else closes
    ensures SweepInv(start, now, keys - {k}, cache', done', closes')
  {
    assert cache[k] == start[k];
    if Expired(now, start[k]) {
      HandlesStep(start, done, k);
      if start[k].f != null {
        SweepCloses(start, closes, done, k);
      }
    }
  }

  /** When cleanCache's loop ends, the cache is the sweep of the one it started from, in a valid state. */
  lemma SweepDone(start: map<string, FsFile>, now: int, before: seq<File?>,
                  cache: map<string, FsFile>, done: set<string>, closes: seq<File?>)
    requires SweepInv(start, now, {}, cache, done, closes)
    requires forall k | k in start :: Nul !in k && Consistent(start[k])
    requires forall k | k in start && start[k].f != null :: start[k].f !in before
    requires forall k, k' | k in start && k' in start && k != k' && start[k].f != null :: start[k].f != start[k'].f
    requires NoDuplicates(before)
    ensures cache == Swept(start, now)
    ensures forall x :: x in closes <==> x in Handles(start, Evicted(start, now))
    ensures forall k | k in cache :: Nul !in k && Consistent(cache[k])
    ensures forall k | k in cache && cache[k].f != null :: cache[k].f !in before + closes
    ensures forall k, k' | k in cache && k' in cache && k != k' && cache[k].f != null :: cache[k].f != cache[k'].f
    ensures NoDuplicates(before + closes)
  {
    SweptHandles(start, now, before, closes);
  }

  /** Closing the handle of `k`, not yet evicted, closes no handle twice. */
  lemma SweepCloses(start: map<string, FsFile>, closes: seq<File?>, done: set<string>, k: string)
    requires k in start && k !in done && start[k].f != null
    requires forall k, k' | k in start && k' in start && k != k' && start[k].f != null :: start[k].f != start[k'].f
    requires forall x :: x in closes <==> x in Handles(start, done)
    requires NoDuplicates(closes)
    ensures NoDuplicates(closes + [start[k].f])
  {
    assert start[k].f !in Handles(start, done);
  }

  /**
    After a sweep, no handle has been closed twice, and the handles of the
    entries that stay are still open.
   */
  lemma SweptHandles(start: map<string, FsFile>, now: int, before: seq<File?>, closes: seq<File?>)
    requires forall k | k in start && start[k].f != null :: start[k].f !in before
    requires forall k, k' | k in start && k' in start && k != k' && start[k].f != null :: start[k].f != start[k'].f
    requires NoDuplicates(before) && NoDuplicates(closes)
    requires forall x :: x in closes <==> x in Handles(start, Evicted(start, now))
    ensures NoDuplicates(before + closes)
    ensures forall k | k in start && !Expired(now, start[k]) && start[k].f != null :: start[k].f !in before + closes
  {
    var all := before + closes;
    forall i, j | 0 <= i < j < |all| ensures all[i] != all[j] {
      if i < |before| && j >= |before| {
        assert all[j] == closes[j - |before|];
        assert all[j] in Handles(start, Evicted(start, now));
      }
    }
    forall k | k in start && !Expired(now, start[k]) && start[k].f != null ensures start[k].f !in all {
      assert start[k].f !in Handles(start, Evicted(start, now));
    }
  }

  /** The handles evicted so far grow by the handle of the key just looked at, when it expired. */
  lemma HandlesStep(start: map<string, FsFile>, done: set<string>, k: string)
    ensures Handles(start, done + {k})
         == Handles(start, done) + (if k in start && start[k].f != null then {start[k].f} else {})
  {
  }

  /** Resolution announces exactly the length of the bytes it serves. */
  lemma ResolvedLength(fs: Fs, filePath: string, uri: Uri, typeByExtension: string -> string,
                       update: (Uri, string) -> Uri)
    requires Resolve(fs, filePath, uri, typeByExtension, update).Ok?
    ensures var s := Resolve(fs, filePath, uri, typeByExtension, update).value;
            s.contentLength == |s.content|
  {
  }

  /** A directory without an index file is served as its listing, announced as HTML of its own length. */
  lemma ResolveListing(fs: Fs, dir: string, uri: Uri, typeByExtension: string -> string,
                       update: (Uri, string) -> Uri, names: seq<string>)
    requires dir in fs && fs[dir] == Directory(Ok(names))
    requires OpenError(fs, dir + IndexSuffix) == Some(NotExist)
    ensures Resolve(fs, dir, uri, typeByExtension, update)
         == Ok(Served(Page(uri, names, update), ListingContentType, |Page(uri, names, update)|))
    ensures ResolveTrace(fs, dir, typeByExtension) == [Open(dir), Close(dir), Open(dir), Close(dir)]
  {
    DirectoryWithoutIndex(fs, dir, typeByExtension);
  }

  /** A sweep keeps nothing it would drop at a second sweep at the same time. */
  lemma SweepIdempotent(cache: map<string, FsFile>, now: int)
    ensures Swept(Swept(cache, now), now) == Swept(cache, now)
  {
  }

  /** Sweeping at a later time drops everything an earlier sweep dropped, and more. */
  lemma SweepMonotone(cache: map<string, FsFile>, earlier: int, later: int)
    requires earlier <= later
    ensures Swept(Swept(cache, earlier), later) == Swept(cache, later)
  {
  }

  /**
    As written, an entry keeps Go's zero time, so the first sweep at any
    real clock reading, which lies more than ten seconds after the zero
    time, evicts it: nothing stays cached for the cache duration.
   */
  lemma AsWrittenEvictedAtFirstSweep(cache: map<string, FsFile>, path: string, ff: FsFile, now: int)
    requires ff.t == ZeroTime && now > ZeroTime + CacheDuration
    ensures path !in Swept(InsertAsWritten(cache, path, ff), now)
  {
  }

  /**
    Stamped at insertion, an entry survives every sweep within the cache
    duration, unchanged, and is evicted by the first sweep after it.
   */
  lemma StampedKeptForCacheDuration(cache: map<string, FsFile>, path: string, ff: FsFile, inserted: int, now: int)
    requires inserted <= now
    ensures now <= inserted + CacheDuration ==>
              path in Swept(InsertStamped(cache, path, ff, inserted), now)
              && Swept(InsertStamped(cache, path, ff, inserted), now)[path] == ff.(t := inserted)
    ensures now > inserted + CacheDuration ==> path !in Swept(InsertStamped(cache, path, ff, inserted), now)
  {
  }
}
