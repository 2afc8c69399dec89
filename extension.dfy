/**
 * ChangeFileExtension (src/http_dl.c): find the first '.' of a file name and
 * strlcpy the new extension over it, with strlen of the old suffix as the size.
 */
module FileExtension {
  import opened CStrings

  /** The name that ChangeFileExtension leaves in the buffer, as written in the source. */
  function ReplaceExtension(name: string, ext: string): (r: string)
    requires '.' in name
    ensures |r| < |name|
  {
    var d := FirstIndex(name, '.');
    name[..d] + StrlcpyContent(name[d..], ext, |name| - d)
  }

  /** The text before the first '.' is kept. */
  lemma ReplaceExtensionKeepsStem(name: string, ext: string, d: nat)
    requires '.' in name && d == FirstIndex(name, '.')
    ensures |ReplaceExtension(name, ext)| >= d && ReplaceExtension(name, ext)[..d] == name[..d]
  {
  }

  /** The new name, written out: the stem, then the extension cut to one less than the old suffix's length. */
  lemma ReplaceExtensionIs(name: string, ext: string, d: nat)
    requires '.' in name && d == FirstIndex(name, '.')
    ensures ReplaceExtension(name, ext) == name[..d] + ext[..Min(|ext|, |name| - d - 1)]
  {
    CopyAt(name, d, ext);
  }

  /** strlcpy at position d with the rest of the name's length as the size. */
  lemma CopyAt(name: string, d: nat, ext: string)
    requires d < |name|
    ensures StrlcpyContent(name[d..], ext, |name| - d) == ext[..Min(|ext|, |name| - d - 1)]
  {
  }

  /** From the first '.' on, the name holds the new extension cut to one less than the old suffix's length. */
  lemma ReplaceExtensionSuffix(name: string, ext: string, d: nat)
    requires '.' in name && d == FirstIndex(name, '.')
    ensures |ReplaceExtension(name, ext)| >= d
    ensures ReplaceExtension(name, ext)[d..] == ext[..Min(|ext|, |name| - d - 1)]
  {
    ReplaceExtensionIs(name, ext, d);
    StemThenTail(name[..d], ext[..Min(|ext|, |name| - d - 1)]);
  }

  lemma StemThenTail(stem: string, tail: string)
    ensures (stem + tail)[|stem|..] == tail
  {
  }

  /**
   * ChangeFileExtension on the file name's buffer. The source does not handle a
   * name without '.' (strstr returns NULL and strlcpy writes through it), so the
   * caller must supply one.
   */
  method ChangeFileExtension(filename: array<char>, newExtension: string)
    requires NUL in filename[..]
    requires '.' in CStr(filename[..])
    requires NUL !in newExtension
    modifies filename
    ensures NUL in filename[..]
    ensures CStr(filename[..]) == ReplaceExtension(old(CStr(filename[..])), newExtension)
    ensures forall j :: |CStr(filename[..])| < j < filename.Length ==> filename[j] == old(filename[j])
  {
    ghost var before := filename[..];
    var len := StrLen(filename[..]);
    var dot := FirstIndex(filename[..len], '.');   // strstr(filename, ".")
    var suffixLen := len - dot;                   // strlen(lastSlash)
    Strlcpy(filename, dot, newExtension, suffixLen);
    CopiedName(before, filename[..], dot, newExtension, Min(|newExtension|, suffixLen - 1));
  }

  /**
   * The buffer after the copy at the first '.' holds ReplaceExtension of the
   * old name, and every cell after its new NUL is the old one.
   */
  lemma CopiedName(before: seq<char>, after: seq<char>, dot: nat, ext: string, k: nat)
    requires NUL in before && NUL !in ext
    requires '.' in CStr(before) && dot == FirstIndex(CStr(before), '.')
    requires k == Min(|ext|, StrLen(before) - dot - 1)
    requires |after| == |before|
    requires forall j :: 0 <= j < |after| ==>
      after[j] == (if j < dot || j > dot + k then before[j] else if j < dot + k then ext[j - dot] else NUL)
    ensures NUL in after
    ensures CStr(after) == ReplaceExtension(CStr(before), ext)
    ensures forall j :: |CStr(after)| < j < |after| ==> after[j] == before[j]
  {
    CopiedNulAt(before, after, dot, ext, k);
    SpliceIs(before, after, StrLen(before), dot, ext, k);
    CopiedContent(CStr(before), after, dot, ext, k);
  }

  /** A buffer holding the stem, then k extension characters, then NUL, holds the new name. */
  lemma CopiedContent(name: string, after: seq<char>, dot: nat, ext: string, k: nat)
    requires '.' in name && dot == FirstIndex(name, '.')
    requires k == Min(|ext|, |name| - dot - 1)
    requires NUL in after && StrLen(after) == dot + k
    requires after[..dot + k] == name[..dot] + ext[..k]
    ensures CStr(after) == ReplaceExtension(name, ext)
  {
    ReplaceExtensionIs(name, ext, dot);
  }

  /** The copy puts the buffer's first NUL right after the k extension characters. */
  lemma CopiedNulAt(before: seq<char>, after: seq<char>, dot: nat, ext: string, k: nat)
    requires NUL in before && NUL !in ext
    requires '.' in CStr(before) && dot == FirstIndex(CStr(before), '.')
    requires k == Min(|ext|, StrLen(before) - dot - 1)
    requires |after| == |before|
    requires forall j :: 0 <= j < |after| ==>
      after[j] == (if j < dot || j > dot + k then before[j] else if j < dot + k then ext[j - dot] else NUL)
    ensures NUL in after && StrLen(after) == dot + k < StrLen(before)
  {
    NoNulBefore(before, after, StrLen(before), dot, ext, k);
    FirstIndexUnique(after, NUL, dot + k);
  }

  lemma SpliceIs(before: seq<char>, after: seq<char>, len: nat, dot: nat, ext: string, k: nat)
    requires len < |before| == |after| && dot + k < len && k <= |ext|
    requires forall j :: 0 <= j < |after| ==>
      after[j] == (if j < dot || j > dot + k then before[j] else if j < dot + k then ext[j - dot] else NUL)
    ensures after[..dot + k] == before[..len][..dot] + ext[..k]
  {
    var lhs := after[..dot + k];
    var rhs := before[..len][..dot] + ext[..k];
    assert |lhs| == |rhs|;
    forall j | 0 <= j < dot + k ensures lhs[j] == rhs[j] {
      if j < dot {
        assert rhs[j] == before[j];
      } else {
        assert rhs[j] == ext[..k][j - dot];
      }
    }
  }

  /**
   * After the copy, the buffer has no NUL before position dot + k: the cells
   * before the dot are the old name's, the next k are the extension's.
   */
  lemma NoNulBefore(before: seq<char>, after: seq<char>, len: nat, dot: nat, ext: string, k: nat)
    requires len < |before| == |after| && NUL !in before[..len] && dot + k < len && k <= |ext|
    requires NUL !in ext
    requires forall j :: 0 <= j < |after| ==>
      after[j] == (if j < dot || j > dot + k then before[j] else if j < dot + k then ext[j - dot] else NUL)
    ensures after[dot + k] == NUL && NUL !in after[..dot + k]
  {
    forall j | 0 <= j < dot + k ensures after[j] != NUL {
      if j < dot {
        assert before[..len][j] == before[j];
      } else {
        assert ext[j - dot] in ext;
      }
    }
  }

  /** A name whose extension is replaced by one of the same length loses the last character. */
  lemma SameLengthExtensionIsCut(name: string, ext: string)
    requires '.' in name
    requires |ext| == |name| - FirstIndex(name, '.')
    ensures ReplaceExtension(name, ext) == name[..FirstIndex(name, '.')] + ext[..|ext| - 1]
    ensures ReplaceExtension(name, ext) != name[..FirstIndex(name, '.')] + ext
  {
    var d := FirstIndex(name, '.');
    assert |ReplaceExtension(name, ext)| == |name| - 1;
  }

  /** The concrete case: "map.wad" with ".pk3" becomes "map.pk". */
  lemma WadToPk3IsCut()
    ensures ReplaceExtension("map.wad", ".pk3") == "map.pk"
  {
    FirstIndexUnique("map.wad", '.', 3);
  }

  /** The evidently intended rule: the size also counts the NUL, so the old suffix's room is usable. */
  function IntendedExtension(name: string, ext: string): (r: string)
    requires '.' in name
    ensures |r| <= |name|
  {
    var d := FirstIndex(name, '.');
    name[..d] + StrlcpyContent(name[d..], ext, |name| - d + 1)
  }

  /** With the intended size, an extension no longer than the old one is written whole. */
  lemma IntendedExtensionFits(name: string, ext: string)
    requires '.' in name
    ensures |ext| <= |name| - FirstIndex(name, '.') ==>
      IntendedExtension(name, ext) == name[..FirstIndex(name, '.')] + ext
  {
  }
}
