/**
  fsFileReader, the body stream handed to the response: a cursor over either
  an open file or the bytes of a generated listing, and the pool of readers
  that Close returns them to and fsFile.Reader takes them from.
 */
module Readers {
  import opened FileSystem
  import opened Resource

  /** The error half of Read's result: nil or io.EOF. */
  datatype ReadStatus = Done | Eof

  function Min(a: int, b: int): int {
    if a <= b then a else b
  }

  /**
    The bytes delivered by successive reads into buffers of the given sizes,
    starting at `offset`: each read takes as many bytes as fit, up to the end.
   */
  function Delivered(content: string, offset: nat, sizes: seq<nat>): string
    requires offset <= |content|
    decreases |sizes|
  {
    if sizes == [] then []
    else
      var n := Min(sizes[0], |content| - offset);
      content[offset..offset + n] + Delivered(content, offset + n, sizes[1..])
  }

  function Sum(sizes: seq<nat>): nat {
    if sizes == [] then 0 else sizes[0] + Sum(sizes[1..])
  }

  /**
    Successive reads deliver consecutive bytes of the content: what they
    deliver is the content from `offset` on, cut at the total buffer size,
    so reads whose buffers add up to what remains reproduce it exactly.
   */
  lemma {:induction false} DeliveredIsConsecutive(content: string, offset: nat, sizes: seq<nat>)
    requires offset <= |content|
    ensures Delivered(content, offset, sizes) == content[offset..offset + Min(Sum(sizes), |content| - offset)]
    decreases |sizes|
  {
    if sizes != [] {
      var n := Min(sizes[0], |content| - offset);
      var tail := sizes[1..];
      DeliveredIsConsecutive(content, offset + n, tail);
      MinSplit(sizes[0], Sum(tail), |content| - offset);
      ConsecutiveStep(content, offset, n, Min(Sum(tail), |content| - (offset + n)), Min(Sum(sizes), |content| - offset),
                      Delivered(content, offset + n, tail), Delivered(content, offset, sizes));
    } else {
      assert content[offset..offset + 0] == [];
    }
  }

  /** The slice up to `n` followed by the next `rest` bytes is the slice of both. */
  lemma ConsecutiveStep(content: string, offset: nat, n: nat, rest: nat, total: nat, d: string, whole: string)
    requires offset + n + rest <= |content| && total == n + rest
    requires d == content[offset + n..offset + n + rest]
    requires whole == content[offset..offset + n] + d
    ensures whole == content[offset..offset + total]
  {
    assert content[offset..offset + n] + content[offset + n..offset + n + rest] == content[offset..offset + n + rest];
  }

  /** Taking what fits of `a` and then what fits of `b` takes what fits of both. */
  lemma MinSplit(a: nat, b: nat, room: nat)
    ensures Min(a, room) + Min(b, room - Min(a, room)) == Min(a + b, room)
  {
  }

  /** Reading a whole listing or file from the start, until the buffers cover it, yields all of it. */
  lemma ReadsReassemble(content: string, sizes: seq<nat>)
    requires Sum(sizes) >= |content|
    ensures Delivered(content, 0, sizes) == content
  {
    DeliveredIsConsecutive(content, 0, sizes);
    assert content[0..|content|] == content;
  }

  class FileReader {
    var f: File?
    var dirIndex: string
    /** How many bytes have been delivered so far (int64 in the source). */
    var offset: nat

    /** The bytes this reader delivers: the file's content, or the listing when there is no file. */
    function Content(): string
      reads this
    {
      if f != null then f.content else dirIndex
    }

    /** The cursor never passes the end of the content. */
    predicate Valid()
      reads this
    {
      offset <= |Content()|
    }

    /** The state Close leaves a reader in, and the only state a pooled reader may have. */
    predicate Reset()
      reads this
    {
      f == null && dirIndex == [] && offset == 0
    }

    /** A fresh reader, as fsFile.Reader allocates when the pool is empty: offset 0. */
    constructor (f: File?, dirIndex: string)
      ensures this.f == f && this.dirIndex == dirIndex && offset == 0
      ensures Valid()
    {
      this.f := f;
      this.dirIndex := dirIndex;
      offset := 0;
    }

    /**
      Read. From a file it is ReadAt at the current offset, which fills the
      buffer as far as the content goes and reports EOF exactly when it
      could not fill it. From a listing it reports (0, EOF) exactly when the
      offset is at the end, and otherwise copies what fits with no error.
      Either way the offset advances by the count delivered.
     */
    method Read(p: array<char>) returns (n: nat, status: ReadStatus)
      requires Valid()
      modifies this, p
      ensures Valid()
      ensures f == old(f) && dirIndex == old(dirIndex)
      ensures n == Min(p.Length, |Content()| - old(offset))
      ensures offset == old(offset) + n
      ensures p[..n] == Content()[old(offset)..offset]
      ensures p[n..] == old(p[n..])
      ensures f != null ==> (status == Eof <==> n < p.Length)
      ensures f == null ==> (status == Eof <==> old(offset) == |dirIndex|)
    {
      var content := Content();
      var start := offset;
      if f == null && offset == |dirIndex| {
        assert p[..0] == content[start..start];
        return 0, Eof;
      }
      n := Min(p.Length, |content| - offset);
      CopyInto(p, content, start, n);
      offset := start + n;
      status := if f != null && n < p.Length then Eof else Done;
    }

    /**
      Close: drops the file and the listing, rewinds the offset to 0 and puts
      the reader in the pool. The file handle itself stays open; it belongs
      to the cache.
     */
    method Close(pool: ReaderPool)
      requires pool.Valid()
      requires this !in pool.free
      modifies this, pool
      ensures Reset()
      ensures pool.free == old(pool.free) + [this]
      ensures pool.Valid()
    {
      f := null;
      dirIndex := [];
      offset := 0;
      pool.free := pool.free + [this];
    }
  }

  /** One more buffer adds its size to the total. */
  lemma {:induction false} SumSnoc(sizes: seq<nat>, size: nat)
    ensures Sum(sizes + [size]) == Sum(sizes) + size
    decreases |sizes|
  {
    if sizes != [] {
      assert (sizes + [size])[1..] == sizes[1..] + [size];
      SumSnoc(sizes[1..], size);
    }
  }

  /**
    How the response body is drained: Read into the same buffer until it
    reports EOF. What comes out is the rest of the reader's content, which is
    what Delivered says reads into buffers of that size deliver.
   */
  method ReadToEnd(r: FileReader, p: array<char>) returns (out: string, ghost sizes: seq<nat>)
    requires r.Valid() && p.Length > 0
    modifies r, p
    ensures r.f == old(r.f) && r.dirIndex == old(r.dirIndex)
    ensures r.Valid() && r.offset == |r.Content()|
    ensures out == r.Content()[old(r.offset)..]
    ensures forall i | 0 <= i < |sizes| :: sizes[i] == p.Length
    ensures out == Delivered(r.Content(), old(r.offset), sizes)
  {
    ghost var content := r.Content();
    ghost var start := r.offset;
    out, sizes := [], [];
    DrainStart(content, start, p.Length);
    var status := Done;
    while status != Eof
      invariant r.f == old(r.f) && r.dirIndex == old(r.dirIndex) && r.Content() == content && r.Valid()
      invariant Drained(content, start, r.offset, out, sizes, p.Length)
      invariant status == Eof ==> r.offset == |content|
      decreases |content| - r.offset, if status == Eof then 0 else 1
    {
      ghost var before := r.offset;
      var n;
      n, status := r.Read(p);
      DrainStep(content, start, before, out, sizes, p.Length, n, p[..n]);
      out := out + p[..n];
      sizes := sizes + [p.Length];
    }
    DrainDone(content, start, out, sizes, p.Length);
  }

  /**
    The state of ReadToEnd's loop: the reads so far, each into a buffer of
    `size` bytes, have delivered the content from `start` up to `offset`.
   */
  ghost predicate Drained(content: string, start: nat, offset: nat, out: string, sizes: seq<nat>, size: nat) {
    && start <= offset <= |content|
    && out == content[start..offset]
    && offset == start + Min(Sum(sizes), |content| - start)
    && forall i | 0 <= i < |sizes| :: sizes[i] == size
  }

  lemma DrainStart(content: string, start: nat, size: nat)
    requires start <= |content|
    ensures Drained(content, start, start, [], [], size)
  {
    assert content[start..start] == [];
  }

  /** One more read of `n` bytes keeps ReadToEnd's loop state. */
  lemma DrainStep(content: string, start: nat, offset: nat, out: string, sizes: seq<nat>, size: nat,
                  n: nat, chunk: string)
    requires Drained(content, start, offset, out, sizes, size)
    requires n == Min(size, |content| - offset) && chunk == content[offset..offset + n]
    ensures Drained(content, start, offset + n, out + chunk, sizes + [size], size)
  {
    MinSplit(Sum(sizes), size, |content| - start);
    SumSnoc(sizes, size);
    assert content[start..offset] + content[offset..offset + n] == content[start..offset + n];
  }

  /** At the end of the content, what ReadToEnd collected is what Delivered describes. */
  lemma DrainDone(content: string, start: nat, out: string, sizes: seq<nat>, size: nat)
    requires Drained(content, start, |content|, out, sizes, size)
    ensures out == content[start..] && out == Delivered(content, start, sizes)
  {
    DeliveredIsConsecutive(content, start, sizes);
  }

  /** The copy into the caller's buffer: `n` bytes of `content` from `start`, the rest of the buffer untouched. */
  method CopyInto(p: array<char>, content: string, start: nat, n: nat)
    requires start + n <= |content| && n <= p.Length
    modifies p
    ensures p[..n] == content[start..start + n]
    ensures p[n..] == old(p[n..])
  {
    forall k | 0 <= k < n {
      p[k] := content[start + k];
    }
  }

  /** fsFileReaderPool: the readers put back by Close, each at most once. */
  class ReaderPool {
    var free: seq<FileReader>

    /** Every pooled reader is reset, and no reader is pooled twice. */
    predicate Valid()
      reads this, free
    {
      && (forall i | 0 <= i < |free| :: free[i].Reset())
      && (forall i, j | 0 <= i < j < |free| :: free[i] != free[j])
    }

    constructor ()
      ensures free == []
      ensures Valid()
    {
      free := [];
    }
  }

  /**
    Where a reader handed out by fsFile.Reader comes from: a fresh one when
    the pool was empty, otherwise the last reader put back, which leaves the
    pool.
   */
  twostate predicate Taken(pool: ReaderPool, new r: FileReader)
    reads pool
  {
    && (old(pool.free) == [] ==> fresh(r) && pool.free == [])
    && (old(pool.free) != [] ==> r == old(pool.free)[|old(pool.free)| - 1]
                                 && pool.free == old(pool.free)[..|old(pool.free)| - 1])
  }

  /**
    fsFile.Reader: takes a reader from the pool, or allocates one when the
    pool is empty, and binds it to the descriptor's file and listing. A
    pooled reader with a non-zero offset is the panic of the source; in a
    valid pool there is none.
   */
  method Reader(ff: FsFile, pool: ReaderPool) returns (r: FileReader)
    requires pool.Valid()
    modifies pool, pool.free
    ensures pool.Valid()
    ensures r.f == ff.f && r.dirIndex == ff.dirIndex && r.offset == 0
    ensures r.Content() == ff.Content() && r.Valid()
    ensures r !in pool.free
    ensures Taken(pool, r)
  {
    if pool.free == [] {
      r := new FileReader(ff.f, ff.dirIndex);
      return;
    }
    r := pool.free[|pool.free| - 1];
    pool.free := pool.free[..|pool.free| - 1];
    r.f := ff.f;
    r.dirIndex := ff.dirIndex;
    if r.offset > 0 {
      assert false;
    }
  }
}
