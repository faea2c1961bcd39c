/**
 * File-suffix classification: `getFileSuffix` and the `allowTypes`
 * allow-list that the listing and player handlers look suffixes up in.
 */
module Suffix {
  import opened Wrappers
  import opened Strings

  /** The allow-list: lower-case extension (no dot) to MIME type. */
  const AllowTypes: map<string, string> :=
    map["mp4" := "video/mp4", "rmvb" := "video/rmvb", "avi" := "video/avi"]

  /** `getFileSuffix`: split on '.', and when there is more than one piece
      return the last one lower-cased; otherwise the empty string. */
  function FileSuffix(file: string): (suffix: string)
    ensures '.' !in suffix
    ensures '.' !in file ==> suffix == ""
  {
    var ls := Split(file, '.');
    SplitPiecesFree(file, '.');
    SplitWithoutSeparator(file, '.');
    if |ls| > 1 then
      ToLowerFacts(ls[|ls| - 1], '.');
      ToLower(ls[|ls| - 1])
    else
      ""
  }

  /** A name ending in `.ext` (with no dot in `ext`) has suffix `ext`
      lower-cased, whatever comes before the dot. */
  lemma FileSuffixOfExtension(base: string, ext: string)
    requires '.' !in ext
    ensures FileSuffix(base + "." + ext) == ToLower(ext)
  {
    LastPieceAfterSeparator(base, '.', ext);
  }

  /** Equivalently: the suffix is the lower-cased text after the last dot. */
  lemma FileSuffixAfterLastDot(file: string, k: nat)
    requires k < |file| && file[k] == '.' && '.' !in file[k + 1..]
    ensures FileSuffix(file) == ToLower(file[k + 1..])
  {
    assert file == file[..k] + "." + file[k + 1..];
    FileSuffixOfExtension(file[..k], file[k + 1..]);
  }

  /** The suffix is empty exactly when the name has no dot or ends in one. */
  lemma FileSuffixEmpty(file: string)
    ensures FileSuffix(file) == "" <==> '.' !in file || file[|file| - 1] == '.'
  {
    if '.' in file {
      var k :| 0 <= k < |file| && file[k] == '.';
      while k + 1 < |file| && '.' in file[k + 1..]
        invariant 0 <= k < |file| && file[k] == '.'
        decreases |file| - k
      {
        var j :| 0 <= j < |file[k + 1..]| && file[k + 1..][j] == '.';
        k := k + 1 + j;
      }
      FileSuffixAfterLastDot(file, k);
    }
  }

  /** The allow-list lookup `allowTypes[getFileSuffix(file)]`: the MIME type
      when the suffix is allowed, None when the lookup fails. */
  function MimeType(file: string): (mime: Option<string>)
    ensures mime.Some? <==> FileSuffix(file) in {"mp4", "rmvb", "avi"}
    ensures mime.Some? ==> mime.value == "video/" + FileSuffix(file)
  {
    var suffix := FileSuffix(file);
    if suffix in AllowTypes then Some(AllowTypes[suffix]) else None
  }

  /** A listing entry is marked playable when its suffix is in the allow-list. */
  predicate Playable(file: string)
  {
    MimeType(file).Some?
  }

  /** Names ending in `.mp4`, `.rmvb` or `.avi` in any letter case, and no
      others, get the matching MIME type; a name without a dot gets none. */
  lemma MimeTypeOfExtension(base: string, ext: string)
    requires '.' !in ext
    ensures MimeType(base + "." + ext) ==
      if ToLower(ext) == "mp4" then Some("video/mp4")
      else if ToLower(ext) == "rmvb" then Some("video/rmvb")
      else if ToLower(ext) == "avi" then Some("video/avi")
      else None
  {
    FileSuffixOfExtension(base, ext);
  }
}
