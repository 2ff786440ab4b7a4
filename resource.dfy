/**
  fsFile, the resource descriptor the handler caches per path: either an open
  file handle (a regular file) or generated listing bytes (a directory
  without an index file), with the content type and length to announce, and
  the time `t` that the cache sweep compares against.
 */
module Resource {
  import opened FileSystem

  /** Go's zero time.Time, the value of a `t` field that nothing assigns. */
  const ZeroTime: int := 0

  datatype FsFile = FsFile(f: File?, dirIndex: string, contentType: string, contentLength: int, t: int)
  {
    /** The bytes a reader bound to this descriptor delivers. */
    function Content(): string {
      if f != null then f.content else dirIndex
    }
  }
}
