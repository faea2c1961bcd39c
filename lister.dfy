/**
 * File listing, `getFileList`: walk the tree under a path and collect the
 * regular files, each prefixed with the walk root and a '/'.
 */
module Lister {
  import opened Wrappers
  import opened FileSystem

  /** The walk root: the requested path, or "." when it is empty. */
  function WalkRoot(path: string): (root: string)
    ensures root != ""
    ensures path == "" ==> root == "."
    ensures path != "" ==> root == path
  {
    if path == "" then "." else path
  }

  /** The error of the first entry that reports one, if any. */
  function FirstError(walk: seq<WalkEntry>): (e: Option<string>)
  {
    if walk == [] then None
    else if walk[0].err.Some? then walk[0].err
    else FirstError(walk[1..])
  }

  /** Whether an error-free entry is kept: it has file info and is regular.
      An entry with nil info is skipped. */
  predicate Kept(entry: WalkEntry)
  {
    entry.info.Some? && entry.info.value.IsRegular()
  }

  /** The listed paths of a walk, in walk order: `root + "/" + fpath` for
      every kept entry. */
  function KeptPaths(root: string, walk: seq<WalkEntry>): seq<string>
  {
    if walk == [] then []
    else (if Kept(walk[0]) then [root + "/" + walk[0].fpath] else []) + KeptPaths(root, walk[1..])
  }

  /** What `getFileList(path)` returns when the walk of its root visits
      `walk`: the first reported error, or the listed paths. */
  function Listing(root: string, walk: seq<WalkEntry>): Result<seq<string>>
  {
    if FirstError(walk).Some? then Failure(FirstError(walk).value)
    else Success(KeptPaths(root, walk))
  }

  lemma {:induction false} KeptPathsAppend(root: string, walk: seq<WalkEntry>, e: WalkEntry)
    ensures KeptPaths(root, walk + [e]) ==
      KeptPaths(root, walk) + (if Kept(e) then [root + "/" + e.fpath] else [])
  {
    if walk != [] {
      assert (walk + [e])[1..] == walk[1..] + [e];
      KeptPathsAppend(root, walk[1..], e);
    } else {
      assert ([] + [e])[1..] == [];
    }
  }

  lemma {:induction false} FirstErrorAppend(walk: seq<WalkEntry>, e: WalkEntry)
    ensures FirstError(walk + [e]) == if FirstError(walk).Some? then FirstError(walk) else e.err
  {
    if walk != [] {
      assert (walk + [e])[1..] == walk[1..] + [e];
      FirstErrorAppend(walk[1..], e);
    } else {
      assert ([] + [e])[1..] == [];
    }
  }

  /** An error reported early is the walk's error whatever follows. */
  lemma {:induction false} FirstErrorPrefix(walk: seq<WalkEntry>, n: nat)
    requires n <= |walk| && FirstError(walk[..n]).Some?
    ensures FirstError(walk) == FirstError(walk[..n])
  {
    assert walk[..n] != [];
    assert walk[..n][0] == walk[0];
    if walk[0].err.None? {
      assert walk[..n][1..] == walk[1..][..n - 1];
      FirstErrorPrefix(walk[1..], n - 1);
    }
  }

  /** The reported error is the error of some entry, and no earlier entry
      reports one; no error is reported exactly when no entry reports one. */
  lemma {:induction false} FirstErrorIsFirst(walk: seq<WalkEntry>)
    ensures FirstError(walk).None? <==> forall i :: 0 <= i < |walk| ==> walk[i].err.None?
    ensures FirstError(walk).Some? ==>
      exists i :: 0 <= i < |walk| && walk[i].err == FirstError(walk)
        && forall j :: 0 <= j < i ==> walk[j].err.None?
  {
    if walk != [] {
      FirstErrorIsFirst(walk[1..]);
      if walk[0].err.None? {
        if FirstError(walk).Some? {
          var i :| 0 <= i < |walk[1..]| && walk[1..][i].err == FirstError(walk[1..])
            && forall j :: 0 <= j < i ==> walk[1..][j].err.None?;
          assert walk[i + 1].err == FirstError(walk);
          assert forall j :: 0 <= j < i + 1 ==> walk[j].err.None? by {
            forall j | 0 <= j < i + 1 ensures walk[j].err.None? {
              if j > 0 { assert walk[j] == walk[1..][j - 1]; }
            }
          }
        } else {
          assert forall i :: 0 <= i < |walk| ==> walk[i].err.None? by {
            forall i | 0 <= i < |walk| ensures walk[i].err.None? {
              if i > 0 { assert walk[i] == walk[1..][i - 1]; }
            }
          }
        }
      } else {
        assert walk[0].err == FirstError(walk);
      }
    }
  }

  /** A path is listed exactly when some regular entry with file info
      produced it; the listing never has more paths than the walk has
      entries. */
  lemma {:induction false} KeptPathsMembers(root: string, walk: seq<WalkEntry>, p: string)
    ensures |KeptPaths(root, walk)| <= |walk|
    ensures p in KeptPaths(root, walk) <==>
      exists i :: 0 <= i < |walk| && Kept(walk[i]) && p == root + "/" + walk[i].fpath
  {
    if walk != [] {
      KeptPathsMembers(root, walk[1..], p);
      if p in KeptPaths(root, walk) && !(Kept(walk[0]) && p == root + "/" + walk[0].fpath) {
        var i :| 0 <= i < |walk[1..]| && Kept(walk[1..][i]) && p == root + "/" + walk[1..][i].fpath;
        assert walk[i + 1] == walk[1..][i];
      }
      if exists i :: 0 <= i < |walk| && Kept(walk[i]) && p == root + "/" + walk[i].fpath {
        var i :| 0 <= i < |walk| && Kept(walk[i]) && p == root + "/" + walk[i].fpath;
        if i > 0 {
          assert walk[1..][i - 1] == walk[i];
        }
      }
    }
  }

  /** `getFileList`: the callback appends each regular file to `includes`
      and returns the entry's error, which ends the walk. */
  method GetFileList(path: string, walkFrom: string -> seq<WalkEntry>) returns (r: Result<seq<string>>)
    ensures r == Listing(WalkRoot(path), walkFrom(WalkRoot(path)))
  {
    var includes: seq<string> := [];
    var root := path;
    if root == "" {
      root := ".";
    }
    var walk := walkFrom(root);
    var i := 0;
    while i < |walk|
      invariant 0 <= i <= |walk|
      invariant FirstError(walk[..i]).None?
      invariant includes == KeptPaths(root, walk[..i])
    {
      var entry := walk[i];
      assert walk[..i + 1] == walk[..i] + [entry];
      FirstErrorAppend(walk[..i], entry);
      KeptPathsAppend(root, walk[..i], entry);
      if entry.info.None? || entry.err.Some? {
        if entry.err.Some? {
          FirstErrorPrefix(walk, i + 1);
          return Failure(entry.err.value);
        }
      } else if entry.info.value.IsRegular() {
        includes := includes + [root + "/" + entry.fpath];
      }
      i := i + 1;
    }
    assert walk[..i] == walk;
    return Success(includes);
  }
}
