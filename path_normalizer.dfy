/**
  Path normalisation of the static-file handler: stripPathSlashes, which
  drops a configured number of leading "/segment" groups and then every
  trailing '/', fileExtension, and the normalisation FSHandler applies to its
  configuration (root folder and strip count).
 */
module PathNormalizer {
  import opened ByteStrings

  /**
    What stripPathSlashes demands of its caller: with a positive count, a
    non-empty path must begin with '/' (otherwise the Go code panics). After
    the first round the remaining path always begins with '/', so this is the
    only way the panic can be reached.
   */
  predicate CanStrip(path: string, stripSlashes: int) {
    stripSlashes > 0 && |path| > 0 ==> path[0] == Slash
  }

  /** A negative strip count behaves as zero (and FSHandler clamps it so). */
  function ClampCount(stripSlashes: int): nat {
    if stripSlashes < 0 then 0 else stripSlashes
  }

  /**
    The leading-segment rounds of stripPathSlashes: each round drops "/segment"
    and keeps the '/' that follows it; when no further '/' exists the path
    becomes empty. The result is a suffix of the input, and after at least one
    round it is empty or begins with '/'.
   */
  function StripLeading(path: string, count: nat): (r: string)
    requires CanStrip(path, count)
    ensures |r| <= |path| && r == path[|path| - |r|..]
    ensures count > 0 && r != [] ==> r[0] == Slash
    decreases count
  {
    if count == 0 || |path| == 0 then path
    else
      var n := IndexByte(path[1..], Slash);
      if n < 0 then []
      else
        assert path[n + 1] == Slash;
        var r := StripLeading(path[n + 1..], count - 1);
        SuffixOfSuffix(path, n + 1, r);
        r
  }

  /** A suffix of a suffix of `path` is a suffix of `path`. */
  lemma SuffixOfSuffix(path: string, m: nat, r: string)
    requires m <= |path|
    requires |r| <= |path[m..]| && r == path[m..][|path[m..]| - |r|..]
    ensures |r| <= |path| && r == path[|path| - |r|..]
  {
    assert path[m..][|path[m..]| - |r|..] == path[|path| - |r|..];
  }

  /** The whole of stripPathSlashes: the leading rounds, then the trailing slashes. */
  function Stripped(path: string, stripSlashes: int): (r: string)
    requires CanStrip(path, stripSlashes)
    ensures r == [] || r[|r| - 1] != Slash
    ensures stripSlashes > 0 && r != [] ==> r[0] == Slash
  {
    TrimTrailingSlashes(StripLeading(path, ClampCount(stripSlashes)))
  }

  /**
    stripPathSlashes, with its two loops. The first loop reassigns `p` and
    counts `count` down; the second drops trailing slashes.
   */
  method StripPathSlashes(path: string, stripSlashes: int) returns (r: string)
    requires CanStrip(path, stripSlashes)
    ensures r == Stripped(path, stripSlashes)
  {
    var p := path;
    var count := stripSlashes;
    while count > 0 && |p| > 0
      invariant CanStrip(p, count)
      invariant StripLeading(p, ClampCount(count)) == StripLeading(path, ClampCount(stripSlashes))
      decreases count
    {
      // the Go code panics here when `p` does not begin with '/'
      assert p[0] == Slash;
      var n := IndexByte(p[1..], Slash);
      if n < 0 {
        p := p[..0];
        break;
      }
      p := p[n + 1..];
      count := count - 1;
    }
    assert p == StripLeading(path, ClampCount(stripSlashes));
    ghost var lead := p;
    while |p| > 0 && p[|p| - 1] == Slash
      invariant TrimTrailingSlashes(p) == TrimTrailingSlashes(lead)
    {
      p := p[..|p| - 1];
    }
    r := p;
  }

  /** "/seg1/seg2/.../segN" for segments that hold no '/'. */
  function Join(segments: seq<string>): string
  {
    if segments == [] then [] else [Slash] + segments[0] + Join(segments[1..])
  }

  predicate NoSlashIn(segments: seq<string>) {
    forall i | 0 <= i < |segments| :: Slash !in segments[i]
  }

  /**
    One leading round: "/seg" is dropped and the '/' that follows is kept,
    or, when no '/' follows, the path becomes empty.
   */
  lemma StripRound(segment: string, rest: string, count: nat)
    requires Slash !in segment && count > 0
    requires rest == [] || rest[0] == Slash
    ensures CanStrip([Slash] + segment + rest, count)
    ensures StripLeading([Slash] + segment + rest, count)
         == if rest == [] then [] else StripLeading(rest, count - 1)
  {
    var path := [Slash] + segment + rest;
    assert path[1..] == segment + rest;
    if rest == [] {
      assert segment + rest == segment;
    } else {
      assert (segment + rest)[|segment|] == Slash;
      assert (segment + rest)[..|segment|] == segment;
      var n := IndexByte(path[1..], Slash);
      assert n == |segment|;
      assert path[n + 1..] == rest;
    }
  }

  /**
    The leading rounds against an independent description of paths as lists of
    segments: stripping k rounds from "/s1/.../sN" leaves "/s(k+1)/.../sN", and
    the empty path once k reaches N. (With k segments or fewer nothing is left.)
   */
  lemma {:induction false} StripLeadingJoin(segments: seq<string>, k: nat)
    requires NoSlashIn(segments)
    ensures CanStrip(Join(segments), k)
    ensures StripLeading(Join(segments), k) == Join(Drop(segments, k))
    decreases k
  {
    if segments == [] {
      assert Drop(segments, k) == [];
    } else if k == 0 {
      assert Drop(segments, k) == segments;
    } else {
      NoSlashInTail(segments);
      StripLeadingJoin(segments[1..], k - 1);
      assert CanStrip(Join(segments[1..]), k - 1);
      JoinRound(segments, k);
    }
  }

  lemma NoSlashInTail(segments: seq<string>)
    requires segments != [] && NoSlashIn(segments)
    ensures Slash !in segments[0] && NoSlashIn(segments[1..])
  {
    forall i | 0 <= i < |segments| - 1 ensures Slash !in segments[1..][i] {
      assert segments[1..][i] == segments[i + 1];
    }
  }

  /** Segments `k` onwards, or none when there are fewer than `k`. */
  function Drop(segments: seq<string>, k: nat): seq<string> {
    if k < |segments| then segments[k..] else []
  }

  /** One round of StripLeadingJoin: the first segment goes. */
  lemma JoinRound(segments: seq<string>, k: nat)
    requires segments != [] && k > 0
    requires Slash !in segments[0]
    requires StripLeading(Join(segments[1..]), k - 1) == Join(Drop(segments[1..], k - 1))
    ensures CanStrip(Join(segments), k)
    ensures StripLeading(Join(segments), k) == Join(Drop(segments, k))
  {
    var tail := segments[1..];
    var rest := Join(tail);
    assert Join(segments) == [Slash] + segments[0] + rest;
    if tail == [] {
      StripRound(segments[0], rest, k);
      assert Drop(segments, k) == [];
    } else {
      assert rest == [Slash] + tail[0] + Join(tail[1..]);
      StripRound(segments[0], rest, k);
      assert Drop(tail, k - 1) == Drop(segments, k);
    }
  }

  /** With count 0 only the trailing slashes are removed. */
  lemma StripZeroTrimsOnly(path: string)
    ensures Stripped(path, 0) == TrimTrailingSlashes(path)
  {
  }

  /**
    The result is a slice of the input: the input from where the leading
    rounds stopped is the result followed by slashes only.
   */
  lemma StrippedIsSlice(path: string, stripSlashes: int)
    requires CanStrip(path, stripSlashes)
    ensures var s := StripLeading(path, ClampCount(stripSlashes));
            var r := Stripped(path, stripSlashes);
            |r| <= |s| && path[|path| - |s|..] == r + Slashes(|s| - |r|)
  {
    var count := ClampCount(stripSlashes);
    assert CanStrip(path, count);
    var s := StripLeading(path, count);
    var r := TrimTrailingSlashes(s);
    assert Stripped(path, stripSlashes) == r;
    assert path[|path| - |s|..] == s;
  }

  /** The worked examples of FSHandler's documentation, as the code computes them. */
  lemma StripExampleZero()
    ensures Stripped("/foo/bar", 0) == "/foo/bar"
  {
    assert "/foo/bar"[|"/foo/bar"| - 1] != Slash;
  }

  lemma StripExampleOne()
    ensures Stripped("/foo/bar", 1) == "/bar"
  {
    assert "/foo/bar" == [Slash] + "foo" + "/bar";
    StripRound("foo", "/bar", 1);
  }

  lemma StripExampleTwo()
    ensures Stripped("/foo/bar", 2) == ""
  {
    var segments := ["foo", "bar"];
    assert Join(segments) == "/foo/bar" by {
      assert Join(segments[1..]) == "/bar" by {
        assert segments[1..][1..] == [];
      }
    }
    StripLeadingJoin(segments, 2);
    assert Drop(segments, 2) == [];
  }

  /**
    fileExtension: the suffix of `path` from its last '.', or "" when there
    is no '.' anywhere in it (a '.' in a directory name counts too).
   */
  function FileExtension(path: string): (ext: string)
    ensures ext == [] <==> Dot !in path
    ensures ext != [] ==> |ext| <= |path| && ext == path[|path| - |ext|..]
    ensures ext != [] ==> ext[0] == Dot && Dot !in ext[1..]
  {
    var n := LastIndexByte(path, Dot);
    if n < 0 then "" else path[n..]
  }

  /**
    fileExtension is determined by its characterisation: a suffix that starts
    with '.' and holds no other '.' is the extension.
   */
  lemma {:induction false} ExtensionIsLastDotSuffix(path: string, ext: string)
    requires |ext| <= |path| && ext == path[|path| - |ext|..]
    requires ext != [] && ext[0] == Dot && Dot !in ext[1..]
    ensures FileExtension(path) == ext
  {
    var e := FileExtension(path);
    assert e != [];
  }

  /** The extension of a directory's index file is ".html". */
  lemma IndexFileExtension(dir: string)
    ensures FileExtension(dir + "/index.html") == ".html"
  {
    var path := dir + "/index.html";
    assert path[|path| - 5..] == ".html";
    ExtensionIsLastDotSuffix(path, ".html");
  }

  /**
    A '.' inside a directory name is taken as the start of the extension:
    when the file name itself has no '.', the extension runs from the last '.'
    of the directory part to the end of the path.
   */
  lemma ExtensionInDirectoryName(dir: string, name: string)
    requires Dot in dir && Dot !in name
    ensures FileExtension(dir + [Slash] + name) == FileExtension(dir) + [Slash] + name
  {
    var e := FileExtension(dir);
    var path := dir + [Slash] + name;
    var ext := e + [Slash] + name;
    assert path[|path| - |ext|..] == ext;
    assert ext[1..] == e[1..] + [Slash] + name;
    ExtensionIsLastDotSuffix(path, ext);
  }

  /**
    The root-folder normalisation of FSHandler: drop trailing slashes, and
    serve the current directory when nothing is left.
   */
  method NormalizeRoot(root: string) returns (r: string)
    ensures TrimTrailingSlashes(root) == [] ==> r == "."
    ensures TrimTrailingSlashes(root) != [] ==> r == TrimTrailingSlashes(root)
    ensures r != [] && r[|r| - 1] != Slash
  {
    r := root;
    while |r| > 0 && r[|r| - 1] == Slash
      invariant TrimTrailingSlashes(r) == TrimTrailingSlashes(root)
    {
      r := r[..|r| - 1];
    }
    if |r| == 0 {
      r := ".";
    }
  }
}
