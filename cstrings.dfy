/**
 * NUL-terminated C strings and the size rule of strlcpy/snprintf, as used by
 * src/http_dl.c. A buffer is a sequence (or an array) of characters; its
 * string content is everything before the first NUL.
 */
module CStrings {

  const NUL: char := '\0'

  function Min(a: nat, b: nat): nat
  {
    if a <= b then a else b
  }

  /** Position of the first occurrence of `c` in `s` (what strstr finds for a one-character needle). */
  function FirstIndex(s: string, c: char): (r: nat)
    requires c in s
    ensures r < |s| && s[r] == c
    ensures c !in s[..r]
  {
    if s[0] == c then 0
    else
      assert s == [s[0]] + s[1..];
      var k := FirstIndex(s[1..], c);
      assert s[..k + 1] == [s[0]] + s[1..][..k];
      k + 1
  }

  /** The first occurrence is the only position holding `c` with no `c` before it. */
  lemma FirstIndexUnique(s: string, c: char, n: nat)
    requires n < |s| && s[n] == c && c !in s[..n]
    ensures FirstIndex(s, c) == n
  {
  }

  /** strlen: the length of the string held in a NUL-terminated buffer. */
  function StrLen(buf: seq<char>): (n: nat)
    requires NUL in buf
    ensures n < |buf| && buf[n] == NUL && NUL !in buf[..n]
  {
    FirstIndex(buf, NUL)
  }

  /** The string content of a NUL-terminated buffer. */
  function CStr(buf: seq<char>): (s: string)
    requires NUL in buf
    ensures NUL !in s && s <= buf && |s| < |buf| && buf[|s|] == NUL
  {
    buf[..StrLen(buf)]
  }

  /**
   * The string that a buffer holding `dst` holds after strlcpy(buf, src, size)
   * (snprintf(buf, size, "%s", src) follows the same rule): with size 0 nothing is
   * written; otherwise the longest prefix of `src` that leaves room for the NUL.
   */
  function StrlcpyContent(dst: string, src: string, size: nat): (r: string)
    ensures size == 0 ==> r == dst
    ensures size > 0 ==> r <= src && |r| < size
    ensures size > 0 ==> |r| == |src| || |r| == size - 1
  {
    if size == 0 then dst else src[..Min(|src|, size - 1)]
  }

  /** A source shorter than the size is copied whole. */
  lemma StrlcpyFits(dst: string, src: string, size: nat)
    requires |src| < size
    ensures StrlcpyContent(dst, src, size) == src
  {
  }

  /**
   * strlcpy(dst + at, src, size) on a buffer in place: the first Min(|src|, size - 1)
   * characters of `src` are written from `at` on, then a NUL; nothing else changes.
   */
  method Strlcpy(dst: array<char>, at: nat, src: string, size: nat)
    requires at + size <= dst.Length
    modifies dst
    ensures size == 0 ==> dst[..] == old(dst[..])
    ensures size > 0 ==> forall j :: 0 <= j < dst.Length ==>
      dst[j] == (if j < at || j > at + Min(|src|, size - 1) then old(dst[j])
                 else if j < at + Min(|src|, size - 1) then src[j - at]
                 else NUL)
  {
    if size == 0 {
      return;
    }
    var k := Min(|src|, size - 1);
    var i := 0;
    while i < k
      invariant 0 <= i <= k
      invariant forall j :: 0 <= j < dst.Length ==>
        dst[j] == (if at <= j < at + i then src[j - at] else old(dst[j]))
    {
      dst[at + i] := src[i];
      i := i + 1;
    }
    dst[at + k] := NUL;
  }
}
