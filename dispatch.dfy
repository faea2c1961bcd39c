/**
 * The handlers behind the single catch-all route: `index` (directory
 * listing), `video` (player page) and `route`, which classifies the request
 * and turns any handler error into a 400 response carrying the error text.
 */
module Dispatch {
  import opened Wrappers
  import opened Suffix
  import opened FileSystem
  import opened Classifier
  import opened Lister

  /** `VideoFile`, the player template's parameters. */
  datatype VideoFile = VideoFile(filePath: string, fileType: string, width: int, height: int)

  /** The data a template is executed with: the listing's `FileList`, or the
      player's `VideoFile`. The HTML itself is not modelled. */
  datatype View = ListingView(fileList: map<string, bool>) | PlayerView(video: VideoFile)

  /** What the handler writes back: the raw file (left to `http.ServeFile`),
      a rendered page, or an error status with the error text as body. */
  datatype Response = ServeFile(path: string) | Page(view: View) | ErrorResponse(status: int, body: string)

  /** Template execution, `tmpl.Execute`: `execute(v)` is the error text when
      executing with `v` fails, None when it succeeds. */
  type Executor = View -> Option<string>

  /** Executing a template: the view on success, the template's error otherwise. */
  function Render(v: View, execute: Executor): (r: Result<View>)
    ensures r.Success? <==> execute(v).None?
    ensures r.Success? ==> r.value == v
    ensures r.Failure? ==> r.error == execute(v).value
  {
    match execute(v)
    case None => Success(v)
    case Some(e) => Failure(e)
  }

  /** The listing map: each listed file, marked playable or not. */
  function FileShow(list: seq<string>): (m: map<string, bool>)
    ensures m.Keys == set f | f in list
    ensures forall f :: f in m ==> (m[f] <==> Playable(f))
  {
    map f | f in list :: Playable(f)
  }

  /** Listing the same file twice gives one key: the map has at most as many
      entries as the list, and exactly as many when the list has no
      duplicates. */
  lemma {:induction false} FileShowSize(list: seq<string>)
    ensures |FileShow(list)| <= |list|
    ensures (forall i, j :: 0 <= i < j < |list| ==> list[i] != list[j]) ==> |FileShow(list)| == |list|
  {
    if list != [] {
      var rest := list[1..];
      FileShowSize(rest);
      assert (set f | f in list) == (set f | f in rest) + {list[0]};
      if forall i, j :: 0 <= i < j < |list| ==> list[i] != list[j] {
        assert forall i, j :: 0 <= i < j < |rest| ==> rest[i] != rest[j] by {
          forall i, j | 0 <= i < j < |rest| ensures rest[i] != rest[j] {
            assert rest[i] == list[i + 1] && rest[j] == list[j + 1];
          }
        }
        assert list[0] !in (set f | f in rest);
      }
    }
  }

  /** Adding one more listed file adds (or overwrites) its key. */
  lemma FileShowSnoc(list: seq<string>, f: string)
    ensures FileShow(list + [f]) == FileShow(list)[f := Playable(f)]
  {
    assert (set g | g in list + [f]) == (set g | g in list) + {f};
  }

  /** What `index(path)` produces: the listing error, or the listing view
      after the template ran (or the template's error). */
  function IndexPage(path: string, walkFrom: string -> seq<WalkEntry>, execute: Executor): Result<View>
  {
    match Listing(WalkRoot(path), walkFrom(WalkRoot(path)))
    case Failure(e) => Failure(e)
    case Success(list) => Render(ListingView(FileShow(list)), execute)
  }

  /** `index`: list the files, then fill the `fileshow` map one file at a
      time with whether its suffix is in the allow-list. */
  method Index(path: string, walkFrom: string -> seq<WalkEntry>, execute: Executor) returns (r: Result<View>)
    ensures r == IndexPage(path, walkFrom, execute)
  {
    var listed := GetFileList(path, walkFrom);
    if listed.Failure? {
      return Failure(listed.error);
    }
    var list := listed.value;

    var fileshow: map<string, bool> := map[];
    assert list[..0] == [];
    for k := 0 to |list|
      invariant fileshow == FileShow(list[..k])
    {
      var file := list[k];
      assert list[..k + 1] == list[..k] + [file];
      FileShowSnoc(list[..k], file);
      if MimeType(file).Some? {
        fileshow := fileshow[file := true];
        continue;
      }
      fileshow := fileshow[file := false];
    }
    assert list[..|list|] == list;

    r := Render(ListingView(fileshow), execute);
  }

  /** The error text `video` reports for an unsupported type: the format
      string with the looked-up type, which is always empty because the
      lookup failed. */
  const UnsupportedVideo := "not support video file type: "

  /** `video`: look up the suffix of the untrimmed URL path; reject a type
      outside the allow-list, otherwise run the player template with a
      264 by 640 descriptor. */
  function Video(urlPath: string, execute: Executor): (r: Result<View>)
    ensures MimeType(urlPath).None? ==> r == Failure(UnsupportedVideo)
    ensures MimeType(urlPath).Some? ==>
      var v := PlayerView(VideoFile(urlPath, MimeType(urlPath).value, 264, 640));
      (r.Success? <==> execute(v).None?) && (r.Success? ==> r.value == v)
      && (r.Failure? ==> r.error == execute(v).value)
  {
    var file := urlPath;
    var lookup := MimeType(file);
    var tagType := if lookup.Some? then lookup.value else "";
    if lookup.None? then
      assert UnsupportedVideo + tagType == UnsupportedVideo;
      Failure(UnsupportedVideo + tagType)
    else Render(PlayerView(VideoFile(file, tagType, 264, 640)), execute)
  }

  /** The `width` and `height` attributes the player template writes: it
      puts the descriptor's Height in `width` and its Width in `height`. */
  function PlayerAttributes(v: VideoFile): (int, int)
  {
    (v.height, v.width)
  }

  /** Every player page is rendered 640 wide and 264 high, with the MIME
      type of the file's suffix and the untrimmed URL path as its source. */
  lemma PlayerPage(urlPath: string, execute: Executor)
    requires Video(urlPath, execute).Success?
    ensures var v := Video(urlPath, execute).value;
      v.PlayerView? && PlayerAttributes(v.video) == (640, 264)
      && v.video.filePath == urlPath && Playable(urlPath)
      && v.video.fileType == "video/" + FileSuffix(urlPath)
  {
  }

  /** A handler outcome as a response: 400 with the error text on failure. */
  function ToResponse(r: Result<View>): (resp: Response)
    ensures r.Failure? ==> resp == ErrorResponse(400, r.error)
    ensures r.Success? ==> resp == Page(r.value)
  {
    match r
    case Failure(e) => ErrorResponse(400, e)
    case Success(v) => Page(v)
  }

  /** What `route` answers to a request. */
  function Respond(req: Request, stat: string -> StatResult, walkFrom: string -> seq<WalkEntry>, execute: Executor): (resp: Response)
    ensures resp.ErrorResponse? ==> resp.status == 400
    ensures resp.ServeFile? <==> Classify(req, stat).which == DoGet
    ensures resp.ServeFile? ==> resp.path == Classify(req, stat).path
    ensures Classify(req, stat).which != DoGet ==>
      var branch :=
        if Classify(req, stat).which == DoIndex then IndexPage(Classify(req, stat).path, walkFrom, execute)
        else Video(req.urlPath, execute);
      resp == (if branch.Failure? then ErrorResponse(400, branch.error) else Page(branch.value))
  {
    var parsed := Classify(req, stat);
    match parsed.which
    case DoIndex => ToResponse(IndexPage(parsed.path, walkFrom, execute))
    case DoGet => ServeFile(parsed.path)
    case DoPlay => ToResponse(Video(req.urlPath, execute))
  }

  /** `route`: classify, dispatch, and write 400 with the error text when
      the chosen handler fails. */
  method Route(req: Request, stat: string -> StatResult, walkFrom: string -> seq<WalkEntry>, execute: Executor)
    returns (resp: Response)
    ensures resp == Respond(req, stat, walkFrom, execute)
  {
    var path, which := ParseUrl(req, stat);

    var err: Option<string> := None;
    match which {
      case DoIndex =>
        var r := Index(path, walkFrom, execute);
        if r.Failure? {
          err := Some(r.error);
        } else {
          resp := Page(r.value);
        }
      case DoGet =>
        resp := ServeFile(path);
      case DoPlay =>
        var r := Video(req.urlPath, execute);
        if r.Failure? {
          err := Some(r.error);
        } else {
          resp := Page(r.value);
        }
    }

    if err.Some? {
      resp := ErrorResponse(400, err.value);
    }
  }
}
