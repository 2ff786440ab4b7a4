/**
  openFSFile: resolves a full path to an open regular file, following a
  directory to its "index.html", and reports errDirIndexRequired when a
  directory has no index file so that the caller renders a listing instead.
 */
module Resolver {
  import opened Wrappers
  import opened FileSystem
  import opened PathNormalizer

  /**
    The largest value of Go's `int` on a platform where it is narrower than
    the int64 that Stat reports (32 bits). Only there can a file be too big;
    where `int` has 64 bits the check in openFSFile never fires.
   */
  const MaxInt: int := 0x7FFF_FFFF

  const IndexSuffix: string := "/index.html"

  datatype Error =
    | Os(err: OsError)
      /** "too big file": the size does not fit in `int` */
    | TooBig(size: nat)
      /** errDirIndexRequired: a directory without an index file */
    | DirIndexRequired

  /** The part of the fsFile that openFSFile fills in, with the path its handle was opened on. */
  datatype Opened = Opened(path: string, contentType: string, contentLength: nat)

  datatype Resolution = Resolution(result: Result<Opened, Error>, trace: seq<HandleOp>)

  /** Every handle in `trace` is closed right after it was opened, before the next is opened. */
  predicate AllClosed(trace: seq<HandleOp>) {
    trace == [] || (|trace| >= 2 && trace[0].Open? && trace[1] == Close(trace[0].path) && AllClosed(trace[2..]))
  }

  /** As AllClosed, except that the last handle opened, the one on `path`, stays open. */
  predicate LeavesOpen(trace: seq<HandleOp>, path: string) {
    trace != [] && trace[|trace| - 1] == Open(path) && AllClosed(trace[..|trace| - 1])
  }

  /** What a successful resolution of `filePath` promises about the file it opened. */
  predicate Serves(fs: Fs, filePath: string, o: Opened, typeByExtension: string -> string) {
    && filePath <= o.path
    && o.path in fs && fs[o.path].RegularFile?
    && o.contentLength == |fs[o.path].content| <= MaxInt
    && o.contentType == typeByExtension(FileExtension(o.path))
  }

  /** The paths of `fs` at least as long as `path`: the recursion's measure. */
  function LongerPaths(fs: Fs, path: string): set<string> {
    set k | k in fs && |path| <= |k|
  }

  /**
    openFSFile over the model filesystem. `typeByExtension` stands for
    mime.TypeByExtension. On success exactly the returned file's handle is
    left open; on every error path each handle opened has been closed.
   */
  function OpenFSFile(fs: Fs, filePath: string, typeByExtension: string -> string): (res: Resolution)
    ensures res.result.Ok? ==> Serves(fs, filePath, res.result.value, typeByExtension)
    ensures res.result.Ok? ==> LeavesOpen(res.trace, res.result.value.path)
    ensures res.result.Err? ==> AllClosed(res.trace)
    ensures res.result == Err(DirIndexRequired) ==> filePath in fs && fs[filePath].Directory?
    ensures filePath in fs && fs[filePath].Directory? ==> res.result != Err(Os(NotExist))
    decreases LongerPaths(fs, filePath)
  {
    if OpenError(fs, filePath).Some? then
      Resolution(Err(Os(OpenError(fs, filePath).value)), [])
    else
      var openClose := [Open(filePath), Close(filePath)];
      match fs[filePath]
      case Unreadable(e) => Resolution(Err(Os(e)), openClose)
      case Directory(_) =>
        var indexPath := filePath + IndexSuffix;
        assert filePath in LongerPaths(fs, filePath) - LongerPaths(fs, indexPath);
        var index := OpenFSFile(fs, indexPath, typeByExtension);
        var result :=
          if index.result.Ok? then index.result
          else if index.result.error == Os(NotExist) then Err(DirIndexRequired)
          else index.result;
        assert (openClose + index.trace)[2..] == index.trace;
        if index.result.Ok? then
          assert (openClose + index.trace)[..|openClose + index.trace| - 1]
              == openClose + index.trace[..|index.trace| - 1];
          Resolution(result, openClose + index.trace)
        else
          Resolution(result, openClose + index.trace)
      case RegularFile(content) =>
        if |content| > MaxInt then Resolution(Err(TooBig(|content|)), openClose)
        else Resolution(Ok(Opened(filePath, typeByExtension(FileExtension(filePath)), |content|)), [Open(filePath)])
  }

  /** An os.Open failure is returned as it is, and no handle has been opened. */
  lemma OpenFailureReturned(fs: Fs, path: string, typeByExtension: string -> string)
    requires OpenError(fs, path).Some?
    ensures OpenFSFile(fs, path, typeByExtension) == Resolution(Err(Os(OpenError(fs, path).value)), [])
  {
  }

  /** A Stat failure is returned after the handle has been closed. */
  lemma StatFailureClosed(fs: Fs, path: string, typeByExtension: string -> string)
    requires path in fs && fs[path].Unreadable?
    ensures OpenFSFile(fs, path, typeByExtension)
         == Resolution(Err(Os(fs[path].statErr)), [Open(path), Close(path)])
  {
  }

  /**
    What is served is the path asked for, when it is a regular file, or a
    file under its "index.html", when it is a directory; a path that does
    not exist serves nothing.
   */
  lemma ServedPath(fs: Fs, path: string, typeByExtension: string -> string)
    requires OpenFSFile(fs, path, typeByExtension).result.Ok?
    ensures path in fs
    ensures fs[path].RegularFile? ==> OpenFSFile(fs, path, typeByExtension).result.value.path == path
    ensures fs[path].Directory? ==> path + IndexSuffix <= OpenFSFile(fs, path, typeByExtension).result.value.path
    ensures fs[path].RegularFile? || fs[path].Directory?
  {
  }

  /** A regular file that fits is served from its own handle, typed by its extension. */
  lemma ServesRegularFile(fs: Fs, path: string, typeByExtension: string -> string)
    requires path in fs && fs[path].RegularFile? && |fs[path].content| <= MaxInt
    ensures OpenFSFile(fs, path, typeByExtension)
         == Resolution(Ok(Opened(path, typeByExtension(FileExtension(path)), |fs[path].content|)), [Open(path)])
  {
  }

  /** A file whose size does not fit in `int` is refused, and its handle closed. */
  lemma RefusesTooBig(fs: Fs, path: string, typeByExtension: string -> string)
    requires path in fs && fs[path].RegularFile? && |fs[path].content| > MaxInt
    ensures OpenFSFile(fs, path, typeByExtension)
         == Resolution(Err(TooBig(|fs[path].content|)), [Open(path), Close(path)])
  {
  }

  /** A directory with an index file is served from that file, typed as ".html". */
  lemma DirectoryServesIndex(fs: Fs, dir: string, typeByExtension: string -> string)
    requires dir in fs && fs[dir].Directory?
    requires dir + IndexSuffix in fs && fs[dir + IndexSuffix].RegularFile?
    requires |fs[dir + IndexSuffix].content| <= MaxInt
    ensures OpenFSFile(fs, dir, typeByExtension)
         == Resolution(Ok(Opened(dir + IndexSuffix, typeByExtension(".html"), |fs[dir + IndexSuffix].content|)),
                       [Open(dir), Close(dir), Open(dir + IndexSuffix)])
  {
    IndexFileExtension(dir);
  }

  /** A directory whose index file does not exist asks for a listing. */
  lemma DirectoryWithoutIndex(fs: Fs, dir: string, typeByExtension: string -> string)
    requires dir in fs && fs[dir].Directory?
    requires OpenError(fs, dir + IndexSuffix) == Some(NotExist)
    ensures OpenFSFile(fs, dir, typeByExtension) == Resolution(Err(DirIndexRequired), [Open(dir), Close(dir)])
  {
  }

  /** Any other failure to open a directory's index file is passed on unchanged. */
  lemma DirectoryPropagatesIndexError(fs: Fs, dir: string, typeByExtension: string -> string)
    requires dir in fs && fs[dir].Directory?
    requires OpenFSFile(fs, dir + IndexSuffix, typeByExtension).result.Err?
    requires OpenFSFile(fs, dir + IndexSuffix, typeByExtension).result.error != Os(NotExist)
    ensures OpenFSFile(fs, dir, typeByExtension).result == OpenFSFile(fs, dir + IndexSuffix, typeByExtension).result
  {
  }

  /**
    The index fallback is recursive: when "index.html" is itself a directory,
    its own "index.html" is served.
   */
  lemma NestedIndexDirectories(fs: Fs, dir: string, typeByExtension: string -> string)
    requires dir in fs && fs[dir].Directory?
    requires dir + IndexSuffix in fs && fs[dir + IndexSuffix].Directory?
    requires var inner := dir + IndexSuffix + IndexSuffix;
             inner in fs && fs[inner].RegularFile? && |fs[inner].content| <= MaxInt
    ensures OpenFSFile(fs, dir, typeByExtension).result.Ok?
    ensures OpenFSFile(fs, dir, typeByExtension).result.value.path == dir + IndexSuffix + IndexSuffix
  {
    DirectoryServesIndex(fs, dir + IndexSuffix, typeByExtension);
  }
}
