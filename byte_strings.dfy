/**
  The byte-string helpers the static-file handler relies on: bytes.IndexByte,
  strings.LastIndexByte, and the "drop trailing slashes" loop that the handler
  writes out twice (once for the root folder, once for request paths).

  A Go byte is modelled as a `char`; nothing here depends on an encoding.
 */
module ByteStrings {

  const Slash: char := '/'
  const Dot: char := '.'
  const Nul: char := '\0'

  /** bytes.IndexByte: the index of the first `c` in `s`, or -1 when there is none. */
  function IndexByte(s: string, c: char): (n: int)
    ensures -1 <= n < |s|
    ensures n == -1 <==> c !in s
    ensures 0 <= n ==> s[n] == c && c !in s[..n]
  {
    if |s| == 0 then -1
    else if s[0] == c then 0
    else
      var k := IndexByte(s[1..], c);
      assert s == [s[0]] + s[1..];
      if k < 0 then -1
      else
        assert s[..k + 1] == [s[0]] + s[1..][..k];
        k + 1
  }

  /** strings.LastIndexByte: the index of the last `c` in `s`, or -1 when there is none. */
  function LastIndexByte(s: string, c: char): (n: int)
    ensures -1 <= n < |s|
    ensures n == -1 <==> c !in s
    ensures 0 <= n ==> s[n] == c && c !in s[n + 1..]
  {
    if |s| == 0 then -1
    else if s[|s| - 1] == c then |s| - 1
    else
      var k := LastIndexByte(s[..|s| - 1], c);
      LastIndexStep(s, c, k);
      k
  }

  /** The last `c` of `s`, when `s` does not end in `c`, is the last `c` of `s` without its last byte. */
  lemma LastIndexStep(s: string, c: char, k: int)
    requires |s| > 0 && s[|s| - 1] != c
    requires -1 <= k < |s| - 1
    requires k == -1 <==> c !in s[..|s| - 1]
    requires 0 <= k ==> s[..|s| - 1][k] == c && c !in s[..|s| - 1][k + 1..]
    ensures k == -1 <==> c !in s
    ensures 0 <= k ==> s[k] == c && c !in s[k + 1..]
  {
    var init, last := s[..|s| - 1], s[|s| - 1];
    assert s == init + [last];
    if 0 <= k {
      assert s[k + 1..] == init[k + 1..] + [last];
    }
  }

  /** `n` slashes. */
  function Slashes(n: nat): string {
    if n == 0 then [] else Slashes(n - 1) + [Slash]
  }

  /**
    `s` without its trailing slashes: the longest prefix of `s` that does not
    end with '/', the rest of `s` being slashes only. The two postconditions
    determine the result.
   */
  function TrimTrailingSlashes(s: string): (r: string)
    ensures |r| <= |s| && s == r + Slashes(|s| - |r|)
    ensures r == [] || r[|r| - 1] != Slash
  {
    if |s| > 0 && s[|s| - 1] == Slash then
      var r := TrimTrailingSlashes(s[..|s| - 1]);
      assert s == s[..|s| - 1] + [Slash];
      assert r + Slashes(|s| - 1 - |r|) + [Slash] == r + (Slashes(|s| - 1 - |r|) + [Slash]);
      r
    else
      assert s + [] == s;
      s
  }
}
