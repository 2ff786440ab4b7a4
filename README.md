# fasthttp static-file handler, modelled in Dafny

This project models the static-file handler of fasthttp (`fshandler.go`):
`FSHandler` and the request handler it returns, with the following parts.

- **Request paths.** `stripPathSlashes` removes the configured number of
  leading `/segment` groups and every trailing slash. A request path
  holding a NUL byte is refused with 400.
- **Cache.** Stripped paths map to `fsFile` descriptors. A miss fills the
  cache, and `cleanCache` sweeps out the entries older than
  `FSHandlerCacheDuration`, closing their file handles.
- **Resolution.** `openFSFile` resolves a path to an open regular file or to
  a directory's `index.html`. When a directory has no index it asks for a
  listing, which `createDirIndex` renders as HTML.
- **Readers.** `fsFileReader` is the body stream: a cursor over the file or
  over the listing bytes, recycled through a pool.

Layout, one module per file:

| file | module | models |
|---|---|---|
| `wrappers.dfy` | `Wrappers` | `Option` and `Result` |
| `byte_strings.dfy` | `ByteStrings` | `bytes.IndexByte`, `strings.LastIndexByte`, the trailing-slash loop |
| `path_normalizer.dfy` | `PathNormalizer` | `stripPathSlashes`, `fileExtension`, root normalisation |
| `file_system.dfy` | `FileSystem` | the file tree as a map from path to node; `*os.File` as the class `File` |
| `resolver.dfy` | `Resolver` | `openFSFile`, as a recursive function returning its result and the handles it opened and closed |
| `html.dfy` | `Html` | `html.EscapeString` |
| `sorting.dfy` | `Sorting` | `sort.Sort(sort.StringSlice(...))`, Go's byte-wise string order |
| `resource.dfy` | `Resource` | `fsFile` |
| `dir_index.dfy` | `DirIndex` | `createDirIndex`, with a reference description of the page and its items |
| `readers.dfy` | `Readers` | `fsFileReader`, `fsFile.Reader` and the reader pool |
| `handler.dfy` | `Handler` | `FSHandler`, `cleanCache`, `handleRequest` |

How the model represents the state:

- The cache is a field of type `map` on the class `FsHandler`.
- Two ghost fields log the handler's effects: `closed` lists every file handle closed, in order, and `opsLog` lists every open and close made while resolving.
- Time is an integer number of nanoseconds.

Two behaviours of the code worth knowing:

- Stripping one segment from `/foo/bar` gives `/bar`, as the doc comment at fshandler.go:29 says: the leading slash of what remains is kept. `PathNormalizer.StripExampleOne` states it.
- The `index.html` fallback recurses through nested `index.html` directories: when `index.html` is itself a directory, its own `index.html` is served. `Resolver.NestedIndexDirectories` states it.

## Model

| member | source | states |
|---|---|---|
| ByteStrings.IndexByte | fshandler.go:286 | the result is -1 exactly when the byte is absent; otherwise the byte is at that index and not before it |
| ByteStrings.LastIndexByte | fshandler.go:304 | the result is -1 exactly when the byte is absent; otherwise the byte is at that index and not after it |
| ByteStrings.TrimTrailingSlashes | fshandler.go:296-298 | the input is the result followed by slashes only, and the result does not end with '/' |
| PathNormalizer.StripLeading | fshandler.go:282-293 | the leading rounds leave a suffix of the path; after at least one round it is empty or begins with '/' |
| PathNormalizer.Stripped | fshandler.go:280-301 | the result never ends with '/'; with a positive count a non-empty result begins with '/' |
| PathNormalizer.StripPathSlashes | fshandler.go:280-301 | the two loops compute `Stripped`; the panic on a path without a leading '/' is the precondition `CanStrip` |
| PathNormalizer.StripRound | fshandler.go:286-291 | one round drops "/segment" and keeps the following '/'; with no further '/' the path becomes empty |
| PathNormalizer.StripLeadingJoin | fshandler.go:282-293 | against paths written as segments: k rounds drop the first k segments, and leave nothing once k reaches their number |
| PathNormalizer.StripZeroTrimsOnly | fshandler.go:282-298 | with count 0 only the trailing slashes are removed |
| PathNormalizer.StrippedIsSlice | fshandler.go:280-301 | from where the leading rounds stopped, the input is the result followed by slashes only |
| PathNormalizer.StripExampleZero | fshandler.go:28 | "/foo/bar" with count 0 stays "/foo/bar" |
| PathNormalizer.StripExampleOne | fshandler.go:29 | "/foo/bar" with count 1 becomes "/bar" |
| PathNormalizer.StripExampleTwo | fshandler.go:30 | "/foo/bar" with count 2 becomes "" |
| PathNormalizer.FileExtension | fshandler.go:303-309 | "" exactly when the path has no '.'; otherwise the suffix that begins at the last '.' and holds no other '.' |
| PathNormalizer.ExtensionIsLastDotSuffix | fshandler.go:303-309 | any suffix that begins with '.' and holds no other '.' is the extension, so the characterisation is unique |
| PathNormalizer.IndexFileExtension | fshandler.go:251 | the index file's extension is ".html" |
| PathNormalizer.ExtensionInDirectoryName | fshandler.go:303-309 | a '.' in a directory name starts the extension when the file name has none |
| PathNormalizer.NormalizeRoot | fshandler.go:40-48 | the root loses its trailing slashes, becomes "." when nothing is left, and never ends with '/' |
| Resolver.OpenFSFile | fshandler.go:236-278 | success serves a regular file no shorter in path than the one asked for. That file's length fits in `int` and its type comes from its extension. Only its handle stays open. Every error path closes every handle it opened. errDirIndexRequired only comes from a directory |
| Resolver.OpenFailureReturned | fshandler.go:237-240 | an os.Open failure, a missing path included, is returned as it is, with no handle opened |
| Resolver.StatFailureClosed | fshandler.go:242-246 | a Stat failure is returned after the handle has been closed |
| Resolver.ServedPath | fshandler.go:248-277 | a success serves the path itself when it is a regular file, and a file under its `index.html` when it is a directory; a missing path serves nothing |
| Resolver.ServesRegularFile | fshandler.go:262-277 | a regular file that fits is served from its own open handle, with its length and extension type |
| Resolver.RefusesTooBig | fshandler.go:262-267 | a file too big for `int` is refused and its handle closed |
| Resolver.DirectoryServesIndex | fshandler.go:248-255 | a directory with a regular `index.html` serves it, typed as ".html"; the directory's handle is closed first |
| Resolver.DirectoryWithoutIndex | fshandler.go:256-259 | a directory whose `index.html` does not exist asks for a listing, with every handle closed |
| Resolver.DirectoryPropagatesIndexError | fshandler.go:256-257 | any other failure on `index.html` is passed on unchanged |
| Resolver.NestedIndexDirectories | fshandler.go:248-255 | the fallback recurses through an `index.html` that is itself a directory |
| Html.EscapeString | fshandler.go:221-222 | the output holds no markup character, and text with no markup and no '&' is left unchanged |
| Sorting.Insert | fshandler.go:218 | insertion into a sorted list keeps it sorted and adds exactly the one name |
| Sorting.SortNames | fshandler.go:218 | the result is sorted in Go's string order and is a permutation of the names |
| Sorting.SortedPermutationsAgree | fshandler.go:218 | two sorted permutations of the same names are equal, so the listing order is determined |
| DirIndex.CreateDirIndex | fshandler.go:191-234 | the result is the listing or the error of os.Open or Readdirnames, with the directory handle opened and closed. A listing has no file, type "text/html", and the length of its bytes |
| DirIndex.WriteItems | fshandler.go:215-223 | the loop writes one item per name, in order, each linked to the URI updated with the names so far |
| DirIndex.ListingPage | fshandler.go:195-225 | the page is the header, the ".." item if any, the children's items and the footer |
| DirIndex.ChildEntryAt | fshandler.go:219-222 | item i shows the i-th name and links to the URI updated with names 0 to i |
| DirIndex.ListingItems | fshandler.go:200-223 | the ".." item comes first exactly when the escaped request path is longer than one byte; then one item per entry, in sorted order, showing the escaped name |
| DirIndex.ListingIsEscaped | fshandler.go:195-222 | no link and no label of the listing holds a markup character |
| DirIndex.ListingOrderExample | fshandler.go:218-222 | b.txt, a.txt and index.htm are listed as a.txt, b.txt, index.htm |
| Readers.DeliveredIsConsecutive | fshandler.go:120-133 | successive reads deliver the consecutive bytes from the offset, cut at the total buffer size |
| Readers.ReadsReassemble | fshandler.go:127-132 | reads from the start whose buffers cover the content reproduce it exactly |
| Readers.FileReader.constructor | fshandler.go:86-89 | a freshly allocated reader is bound to the descriptor at offset 0 |
| Readers.FileReader.Read | fshandler.go:120-133 | copies min(buffer, remaining) bytes of the content from the offset and advances the offset by that count. A listing reports EOF exactly when already at its end, a file exactly when the buffer is not filled. The offset never passes the end |
| Readers.ReadToEnd | fshandler.go:120-133 | reading into one buffer until EOF yields the rest of the reader's content, exactly what `Delivered` gives for reads of that size, and leaves the offset at the end |
| Readers.CopyInto | fshandler.go:130 | the copy fills the first n bytes of the buffer and leaves the rest untouched |
| Readers.FileReader.Close | fshandler.go:112-118 | the reader drops its file and listing, rewinds to offset 0, and is appended to the pool, which stays valid |
| Readers.ReaderPool.constructor | fshandler.go:102 | the pool starts empty |
| Readers.Reader | fshandler.go:83-100 | takes the last pooled reader or allocates one (`Taken`), and binds it to the descriptor at offset 0. A pooled reader is always reset, so the panic cannot happen |
| Handler.FsHandler.constructor | fshandler.go:39-58 | the root is normalised, a negative strip count becomes 0, and the cache starts empty |
| Handler.FsHandler.CleanCache | fshandler.go:135-147 | the cache becomes the entries with `now - t` at most the cache duration, values unchanged. The handles closed are exactly those of the evicted entries, each once. Listings close nothing |
| Handler.FsHandler.SweepKeys | fshandler.go:138-145 | the loop visits each key once, dropping the expired entries and closing their handles |
| Handler.FsHandler.ResolveMiss | fshandler.go:163-178 | a miss runs openFSFile and, when asked, createDirIndex, and logs their opens and closes. It succeeds exactly when `Resolve` does, with that content, type and length, and a fresh handle |
| Handler.FsHandler.Insert | fshandler.go:180-182 | the entry is stored under the stripped path, stamped with the time of insertion (the corrected insertion, see "## Findings") |
| Handler.FsHandler.HandleRequest | fshandler.go:149-187 | a stripped path with a NUL byte gets 400 and changes nothing, the pool included. Any other path is served as `Served` describes: a hit's reader delivers the cached bytes, a successful miss's reader the bytes the resolution found. A body's announced length is the length of what its reader delivers, and its reader is fresh or the last one pooled (`Taken`); a 404 leaves the pool alone |
| Handler.FsHandler.ServePath | fshandler.go:159-186 | a hit serves the cached descriptor with no filesystem access and no insert. A failed miss gives 404 and leaves the cache and the pool alone. A successful miss caches the resolved content and content type under the path and serves them. The reader comes from the pool as `Taken` says |
| Handler.Respond | fshandler.go:185-186 | the body is a reader at offset 0 of the descriptor's bytes, taken from the pool, announced with the descriptor's length and content type |
| Handler.ResolvedLength | fshandler.go:228-232 | a resolution announces exactly the length of the bytes it serves |
| Handler.ResolveListing | fshandler.go:163-173 | a directory without an index file is served as its listing, typed "text/html", with two open/close pairs |
| Handler.SweepIdempotent | fshandler.go:135-147 | a second sweep at the same time drops nothing more |
| Handler.SweepMonotone | fshandler.go:135-147 | a later sweep after an earlier one equals the later sweep alone |
| Handler.InsertAsWritten | fshandler.go:181 | the descriptor is stored under the path as it is, with the `t` it came with; the other entries are unchanged |
| Handler.AsWrittenEvictedAtFirstSweep | fshandler.go:181 | as written, an inserted entry keeps the zero time and is evicted by the first sweep |
| Handler.StampedKeptForCacheDuration | fshandler.go:139 | stamped, an entry survives every sweep within the cache duration, unchanged, and is evicted by the first one after it |

## Left out

- The background goroutine that calls `cleanCache` every five seconds (fshandler.go:59-64) is left out: it is an endless timer loop. `CleanCache` is a single sweep at an explicit `now`.
- The cache mutex (fshandler.go:159-161, 180-182, 137, 146) is left out: the model is sequential. Because the sweep runs under the lock, `Handler.FsHandler.SweepKeys` edits a copy of the map and stores it once the loop ends.
- sync.Pool is modelled as a LIFO list (fshandler.go:84, 102, 116), and its thread safety is left out. `Readers.Reader` takes the last reader put back, because `sync.Pool.Get` may return any pooled value, or none.
- The `v` self-reference of `fsFileReader` (fshandler.go:90, 109) is left out: it only exists to avoid an allocation in `sync.Pool.Put`.
- mime.TypeByExtension (fshandler.go:270) and `URI.Update` (fshandler.go:220) are function parameters, `typeByExtension` and `update`, because their code is not part of this model. `URI.Path` (fshandler.go:195, 221) is read as the `path` field of `DirIndex.Uri`; the normalisation `URI.Path` applies belongs to the `URI` code and is not modelled. `URI.CopyTo` (fshandler.go:216) is the copy of a value. `ctx.Path()` (fshandler.go:150) is the `ctxPath` parameter.
- I/O through `os.Open`, `Stat`, `Readdirnames`, `ReadAt` and `Close` is modelled over a fixed file tree. The open and close calls are recorded as a trace.
- Readers.FileReader.Read: `ReadAt` delivers the file's bytes from the offset and reports EOF only when the buffer is not filled. Other read errors and files that change while open are not modelled.
- Readers.FileReader.Read does not model the int64 offset overflowing; the offset is a `nat`.
- Readers.FileReader.Close requires that the reader is not already pooled. A second `Close` in the source would put the same reader in the pool twice, and the model does not represent that misuse. Reads after `Close` are not modelled either.
- Logging, the error strings and the `RequestCtx` plumbing (fshandler.go:154-155, 170-176) are left out. The result is an `Outcome`: a status code, or a body stream with its length and content type; `Handler.Respond` builds the body in place of `SetBodyStream` and `SetContentType` (fshandler.go:185-186).
- time.Time and `time.Duration` are integers of nanoseconds. `Handler.Expired` compares `now - t` with the cache duration; Go's saturating `Time.Sub` gives the same comparison.
- Handler.FsHandler.ResolveMiss creates the `File` object for the opened handle. In the source it comes out of `openFSFile`, which the model keeps as a pure function over paths.
- DirIndex.CreateDirIndex writes the items into a separate buffer in `DirIndex.WriteItems` and appends it afterwards. The bytes are the same as writing straight into one buffer.
- The configured strip count is an unbounded `nat`; Go's `int` is not modelled.
- Resolver.OpenFSFile takes Go's `int` to have 32 bits (`Resolver.MaxInt`), the only width at which the "too big file" check (fshandler.go:262-266) can fire. On a 64-bit platform the program serves files over 2 GiB that the model refuses; `Resolver.RefusesTooBig` inherits the same choice.
- Handler.FsHandler.Insert stamps the entry with `now`, where fshandler.go:181 stores the descriptor with its zero `t` (see "## Findings"). `Handler.FsHandler.ServePath` and `Handler.FsHandler.HandleRequest` inherit this: their `cache[path].t == now` is the corrected behaviour, not the program's. `Handler.InsertAsWritten` and `Handler.AsWrittenEvictedAtFirstSweep` state what the program does.
- Readers.ReadToEnd stands for the response writer that copies the body stream out; that code is not part of this model, so it is written as a plain read loop. It requires a buffer of at least one byte: with an empty buffer Read never reports EOF on a listing with bytes left, and the loop would not end.

## Findings

| source | as written | input that shows it | evidently intended | confidence | as-written member | corrected member |
|---|---|---|---|---|---|---|
| fshandler.go:181 | `fsFile.t` is never assigned: neither constructor sets it (fshandler.go:228-232, 272-276), nor does the insertion. Every cached entry therefore carries the zero time, and `t.Sub(v.t) > FSHandlerCacheDuration` (fshandler.go:139) holds at the first sweep | any request that fills the cache, followed by `cleanCache` at any real clock reading (more than ten seconds after the zero time) | an entry is stamped with the time it is cached, and stays for `FSHandlerCacheDuration` | not executed | Handler.AsWrittenEvictedAtFirstSweep | Handler.StampedKeptForCacheDuration |

`Handler.InsertAsWritten` is the insertion as written. `Handler.InsertStamped`
and `Handler.FsHandler.Insert` stamp the entry with `now`; the rest of the
model uses them.
