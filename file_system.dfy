/**
  The filesystem as the handler sees it through os.Open, File.Stat,
  File.Readdirnames, File.ReadAt and File.Close. The tree is a finite map
  from full path to what is found there; it does not change while it is
  being served. A path that is not in the map does not exist.
 */
module FileSystem {
  import opened Wrappers

  /** The classes of OS error the handler tells apart (os.IsNotExist) or logs. */
  datatype OsError = NotExist | Permission | OtherError

  datatype Node =
    | RegularFile(content: string)
      /** a directory; `listing` is what Readdirnames reports for it */
    | Directory(listing: Result<seq<string>, OsError>)
      /** os.Open fails */
    | Unopenable(openErr: OsError)
      /** os.Open succeeds, but Stat (and Readdirnames) fail */
    | Unreadable(statErr: OsError)

  type Fs = map<string, Node>

  /** What a call does with file handles; within one resolution a handle is named by its path. */
  datatype HandleOp = Open(path: string) | Close(path: string)

  /** os.Open: the error it reports, or None when it yields an open handle. */
  function OpenError(fs: Fs, path: string): Option<OsError> {
    if path !in fs then Some(NotExist)
    else match fs[path]
      case Unopenable(e) => Some(e)
      case _ => None
  }

  /** f.Readdirnames(0) on a handle that os.Open gave for `path`. */
  function ReadDirNames(fs: Fs, path: string): Result<seq<string>, OsError>
    requires OpenError(fs, path).None?
  {
    match fs[path]
    case Directory(listing) => listing
    case Unreadable(e) => Err(e)
    case RegularFile(_) => Err(OtherError)
  }

  /**
    An open *os.File. It keeps the bytes of the file it was opened on, which
    positional reads (ReadAt) return; `name` is the path it was opened with.
   */
  class File {
    const name: string
    const content: string

    constructor (name: string, content: string)
      ensures this.name == name && this.content == content
    {
      this.name := name;
      this.content := content;
    }
  }
}
