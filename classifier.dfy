/**
 * Request classification, `parseUrl`: from the URL path, the `play` form
 * value and what `os.Stat` says about the path, decide whether the request
 * serves the raw file, lists a directory or renders the player.
 */
module Classifier {
  import opened Wrappers
  import opened Strings
  import opened FileSystem

  /** `DoWhich`: DO_GET, DO_INDEX, DO_PLAY. */
  datatype DoWhich = DoGet | DoIndex | DoPlay

  /** The parts of an `*http.Request` the handlers read: the URL path,
      whether `ParseForm` succeeded, and the raw `play` form value (the empty
      string when absent). */
  datatype Request = Request(urlPath: string, formParsed: bool, playValue: string)

  /** The pair `parseUrl` returns. */
  datatype Parsed = Parsed(path: string, which: DoWhich)

  /** What `parseUrl` decides, stated as a value. `stat` stands for
      `os.Stat` and is consulted only for a non-empty path. */
  function Classify(req: Request, stat: string -> StatResult): (r: Parsed)
    ensures !req.formParsed ==> r == Parsed("", DoIndex)
    ensures req.formParsed && |req.urlPath| > 0 && req.urlPath[0] == '/' ==> "/" + r.path == req.urlPath
    ensures req.formParsed && !(|req.urlPath| > 0 && req.urlPath[0] == '/') ==> r.path == req.urlPath
    ensures r.which == DoPlay <==> req.formParsed && ParseBool(req.playValue)
    ensures r.which == DoGet <==>
      req.formParsed && !ParseBool(req.playValue) && r.path != ""
      && stat(r.path).Success? && !stat(r.path).value.IsDir()
  {
    if !req.formParsed then Parsed("", DoIndex)
    else
      var path := TrimPrefix(req.urlPath, "/");
      var which :=
        if ParseBool(req.playValue) then DoPlay
        else if path == "" then DoIndex
        else match stat(path)
          case Failure(_) => DoIndex
          case Success(mode) => if mode.IsDir() then DoIndex else DoGet;
      Parsed(path, which)
  }

  /** `parseUrl`, step by step: `which` starts as DO_INDEX, becomes DO_PLAY
      as soon as `play` is true, and becomes DO_GET only for an existing
      non-directory when `play` is false. */
  method ParseUrl(req: Request, stat: string -> StatResult) returns (path: string, which: DoWhich)
    ensures Parsed(path, which) == Classify(req, stat)
  {
    path := "";
    which := DoIndex;
    if !req.formParsed {
      return;
    }

    path := TrimPrefix(req.urlPath, "/");
    var play := ParseBool(req.playValue);
    if play {
      which := DoPlay;
    }

    if path == "" {
      return;
    }

    var fi := stat(path);
    if fi.Failure? {
      return;
    }
    if !fi.value.IsDir() {
      if !play {
        which := DoGet;
      }
    }
  }
}
