/**
 * Whole-request consequences of the model: what `route` answers for the
 * typical requests, derived from the handler contracts.
 */
module Scenarios {
  import opened Wrappers
  import opened Strings
  import opened Suffix
  import opened FileSystem
  import opened Classifier
  import opened Lister
  import opened Dispatch

  /** The walk of "." in the example below: the directory itself and two
      regular files. */
  const ExampleWalk := [
    WalkEntry(".", Some(Directory), None),
    WalkEntry("a.mp4", Some(Regular), None),
    WalkEntry("b.txt", Some(Regular), None)]

  /** A walk of one non-regular entry followed by two regular files lists
      the two files in walk order. */
  lemma ListingOfTwoFiles(root: string, d: WalkEntry, a: WalkEntry, b: WalkEntry)
    requires d.err.None? && a.err.None? && b.err.None?
    requires !Kept(d) && Kept(a) && Kept(b)
    ensures Listing(root, [d, a, b]) == Success([root + "/" + a.fpath, root + "/" + b.fpath])
  {
    assert [d, a, b][1..] == [a, b] && [a, b][1..] == [b] && [b][1..] == [];
    assert FirstError([]) == None;
    assert FirstError([b]) == FirstError([]);
    assert FirstError([a, b]) == FirstError([b]);
    assert FirstError([d, a, b]) == FirstError([a, b]);
    assert KeptPaths(root, [b]) == [root + "/" + b.fpath];
    assert KeptPaths(root, [a, b]) == [root + "/" + a.fpath] + [root + "/" + b.fpath];
    assert KeptPaths(root, [d, a, b]) == [root + "/" + a.fpath, root + "/" + b.fpath];
    assert Listing(root, [d, a, b]) == Success(KeptPaths(root, [d, a, b]));
  }

  lemma ExampleMimeTypes()
    ensures MimeType("./a.mp4") == Some("video/mp4")
    ensures MimeType("./b.txt") == None
  {
    assert ToLower("mp4") == "mp4";
    assert "./a" + "." + "mp4" == "./a.mp4";
    MimeTypeOfExtension("./a", "mp4");
    assert ToLower("txt") == "txt";
    assert "./b" + "." + "txt" == "./b.txt";
    MimeTypeOfExtension("./b", "txt");
  }

  lemma FileShowOfTwo(x: string, y: string)
    requires x != y
    ensures FileShow([x, y]) == map[x := Playable(x), y := Playable(y)]
  {
    var m := FileShow([x, y]);
    assert m.Keys == {x, y};
  }

  /** `/` on a directory holding `a.mp4` and `b.txt` lists both, prefixed
      with the walk root ".", and marks only the video playable. */
  lemma RootListing(stat: string -> StatResult, walkFrom: string -> seq<WalkEntry>, execute: Executor)
    requires walkFrom(".") == ExampleWalk
    requires forall v :: execute(v).None?
    ensures Respond(Request("/", true, ""), stat, walkFrom, execute)
      == Page(ListingView(map["./a.mp4" := true, "./b.txt" := false]))
  {
    assert Classify(Request("/", true, ""), stat) == Parsed("", DoIndex);
    ListingOfTwoFiles(".", ExampleWalk[0], ExampleWalk[1], ExampleWalk[2]);
    assert ExampleWalk == [ExampleWalk[0], ExampleWalk[1], ExampleWalk[2]];
    assert "." + "/" + "a.mp4" == "./a.mp4" && "." + "/" + "b.txt" == "./b.txt";
    ExampleMimeTypes();
    FileShowOfTwo("./a.mp4", "./b.txt");
  }

  /** A parsed play request is answered by the player branch alone. */
  lemma PlayAnswer(req: Request, stat: string -> StatResult, walkFrom: string -> seq<WalkEntry>, execute: Executor)
    requires req.formParsed && ParseBool(req.playValue)
    ensures Respond(req, stat, walkFrom, execute) == ToResponse(Video(req.urlPath, execute))
  {
  }

  /** A play request for a path ending in `.mp4`, in any letter case, such
      as `/a.mp4?play=true`, renders the player for the untrimmed path as
      `video/mp4` whatever stat reports: also when the file does not exist,
      since the play flag is decided before the path is looked at. */
  lemma PlayMp4(req: Request, base: string, ext: string,
                stat: string -> StatResult, walkFrom: string -> seq<WalkEntry>, execute: Executor)
    requires req.formParsed && ParseBool(req.playValue)
    requires req.urlPath == base + "." + ext && '.' !in ext && ToLower(ext) == "mp4"
    requires forall v :: execute(v).None?
    ensures Respond(req, stat, walkFrom, execute)
      == Page(PlayerView(VideoFile(req.urlPath, "video/mp4", 264, 640)))
  {
    PlayAnswer(req, stat, walkFrom, execute);
    MimeTypeOfExtension(base, ext);
    var v := PlayerView(VideoFile(req.urlPath, "video/mp4", 264, 640));
    assert execute(v).None?;
  }

  /** A play request for an existing file whose extension is outside the
      allow-list, such as `/doc.pdf?play=true`, is refused with 400 and the
      unsupported-type text, whose type part is empty. */
  lemma PlayUnsupportedType(req: Request, base: string, ext: string,
                            stat: string -> StatResult, walkFrom: string -> seq<WalkEntry>, execute: Executor)
    requires req.formParsed && ParseBool(req.playValue)
    requires req.urlPath == base + "." + ext && '.' !in ext
    requires ToLower(ext) != "mp4" && ToLower(ext) != "rmvb" && ToLower(ext) != "avi"
    ensures Respond(req, stat, walkFrom, execute) == ErrorResponse(400, "not support video file type: ")
  {
    PlayAnswer(req, stat, walkFrom, execute);
    MimeTypeOfExtension(base, ext);
  }

  /** A play request for a path without a dot, such as `/` or a directory
      name, never lists: it is refused with 400. */
  lemma PlayWithoutDot(req: Request, stat: string -> StatResult, walkFrom: string -> seq<WalkEntry>, execute: Executor)
    requires req.formParsed && ParseBool(req.playValue) && '.' !in req.urlPath
    ensures Respond(req, stat, walkFrom, execute) == ErrorResponse(400, UnsupportedVideo)
  {
  }

  /** A listing whose walk reports an error answers 400 with the first
      reported error's text. */
  lemma ListingError(req: Request, stat: string -> StatResult, walkFrom: string -> seq<WalkEntry>, execute: Executor, i: nat)
    requires Classify(req, stat).which == DoIndex
    requires var walk := walkFrom(WalkRoot(Classify(req, stat).path));
      i < |walk| && walk[i].err.Some? && forall j :: 0 <= j < i ==> walk[j].err.None?
    ensures Respond(req, stat, walkFrom, execute)
      == ErrorResponse(400, walkFrom(WalkRoot(Classify(req, stat).path))[i].err.value)
  {
    var walk := walkFrom(WalkRoot(Classify(req, stat).path));
    FirstErrorIsFirst(walk);
    var k :| 0 <= k < |walk| && walk[k].err == FirstError(walk)
      && forall j :: 0 <= j < k ==> walk[j].err.None?;
    assert k == i;
  }

  /** When the form cannot be parsed, the request lists the current
      directory, whatever its path and play flag. */
  lemma UnparsedFormListsCurrentDirectory(req: Request, stat: string -> StatResult, walkFrom: string -> seq<WalkEntry>, execute: Executor)
    requires !req.formParsed
    ensures Respond(req, stat, walkFrom, execute) == ToResponse(IndexPage(".", walkFrom, execute))
  {
  }
}
