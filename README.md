# Projectionist request handling, modelled in Dafny

Projectionist is a small HTTP file browser and video player written in Go
(`main.go`). Every request goes through one catch-all handler, `route`.
`parseUrl` classifies the request as DO_GET (serve the raw file), DO_INDEX
(list a directory) or DO_PLAY (render a video player page). `route` then
runs the matching branch, and any branch error becomes a 400 response whose
body is the error text. The listing, `index`, walks the tree with
`getFileList` and marks each file playable when `getFileSuffix` finds its
extension in the `allowTypes` allow-list (mp4, rmvb, avi). The player,
`video`, builds a `VideoFile` descriptor for the untrimmed URL path.

The model keeps the source's decision logic and makes its inputs explicit:

- `os.Stat` becomes a function `stat: string -> StatResult`. It is consulted only for a non-empty path.
- `filepath.Walk` becomes a function `walkFrom` from the walk root to the sequence of callback calls `(fpath, info, err)`.
- Template execution becomes `execute: View -> Option<string>`, which gives the error text when executing a template with a view fails.
- The request becomes the URL path, whether `ParseForm` succeeded, and the raw `play` form value.

Files and modules:

- `wrappers.dfy` (`Wrappers`): Option and Result. A Go error is carried as its text.
- `strings.dfy` (`Strings`): `strings.Split` with its inverse `Join`, ASCII `ToLower`, `TrimPrefix`, and `strconv.ParseBool` as the handler uses it.
- `suffix.dfy` (`Suffix`): `getFileSuffix` and the allow-list lookup.
- `filesystem.dfy` (`FileSystem`): file modes, stat results and walk entries.
- `classifier.dfy` (`Classifier`): `parseUrl`. It is specified by the function `Classify` and written step by step as the method `ParseUrl`.
- `lister.dfy` (`Lister`): `getFileList`. It is specified by `Listing` and written as the loop `GetFileList`.
- `dispatch.dfy` (`Dispatch`): `index` (method `Index`, with the `fileshow` loop), `video` (function `Video`) and `route` (method `Route`, specified by `Respond`).
- `scenarios.dfy` (`Scenarios`): whole-request consequences for typical requests.

Behaviour of the code that the model keeps as written:

- `parseUrl` sets DO_PLAY as soon as `play` is true (main.go:133-136). The empty-path, stat and directory checks come after that, and none of them undo it. So a play request for `/`, for a missing path or for a directory is never listed.
- As a consequence, `/a.mp4?play=true` renders the player page even when the file does not exist (`Scenarios.PlayMp4`). A play request for `/` or for a directory name without a dot is answered with 400 (`Scenarios.PlayWithoutDot`).
- The file test is "not a directory" (`!fi.IsDir()`), not "regular file". Any existing non-directory is served raw when `play` is false.
- The player template swaps the descriptor's sizes: its `width` attribute shows Height (640) and its `height` attribute shows Width (264). The model keeps the descriptor as built, with Width 264 and Height 640, and records the swap in `Dispatch.PlayerPage`.

## Model

| member | source | states |
|---|---|---|
| `Strings.Split` | main.go:221 | `strings.Split` on '.' always returns at least one piece |
| `Strings.SplitPiecesFree` | main.go:221 | no piece returned by Split contains the separator |
| `Strings.SplitWithoutSeparator` | main.go:221-225 | a name without a dot splits into the single piece of the whole name, so `getFileSuffix` takes its `""` branch |
| `Strings.SplitAround` | main.go:221 | splitting `a + "." + b` gives the pieces of `a` followed by the pieces of `b` |
| `Strings.JoinSplit` | main.go:221 | joining the pieces with the separator gives back the original name (round trip) |
| `Strings.SplitJoin` | main.go:221 | splitting a join of separator-free pieces gives back the pieces (the other round trip) |
| `Strings.LastPieceAfterSeparator` | main.go:221-223 | a name with a dot has more than one piece, and the last piece is the text after the last dot |
| `Strings.ToLowerFacts` | main.go:223 | lower-casing is idempotent, leaves no upper-case ASCII letter, and neither adds nor removes a '.' |
| `Strings.ToLower` | main.go:223 | the lower-cased name has the same length, and each character is the ASCII lower case of the original one |
| `Strings.ParseBool` | main.go:133 | the `play` value counts as true exactly when it lower-cases to 1, t or true and is written all lower-case, or as T, True or TRUE; any other text, unparsable text included, counts as false |
| `Strings.TrimPrefix` | main.go:132 | exactly one leading "/" is removed when present; otherwise the path is unchanged |
| `Suffix.FileSuffix` | main.go:220-226 | the suffix never contains '.', and is `""` for a name without a dot |
| `Suffix.FileSuffixOfExtension` | main.go:220-226 | for `base + "." + ext` with no dot in `ext`, the suffix is `ext` lower-cased, whatever `base` holds |
| `Suffix.FileSuffixAfterLastDot` | main.go:220-226 | the suffix is the lower-cased text after the last dot |
| `Suffix.FileSuffixEmpty` | main.go:220-226 | the suffix is empty exactly when the name has no dot or ends with one |
| `Suffix.MimeType` | main.go:61-65 | the lookup succeeds exactly for the suffixes mp4, rmvb and avi, and then yields "video/" followed by the suffix |
| `Suffix.MimeTypeOfExtension` | main.go:61-65 | `.mp4`, `.rmvb` and `.avi` in any letter case map to video/mp4, video/rmvb and video/avi; every other extension maps to nothing |
| `Classifier.Classify` | main.go:125-157 | failed form parsing gives `("", DO_INDEX)`; otherwise the path is the URL path less one leading "/"; DO_PLAY exactly when the form parsed and `play` is true; DO_GET exactly when `play` is false, the path is non-empty, stat succeeds and the target is not a directory |
| `Classifier.ParseUrl` | main.go:125-157 | the step-by-step `parseUrl` returns exactly the pair `Classify` describes |
| `Lister.WalkRoot` | main.go:200-202 | an empty path is walked, and prefixed, as "."; any other path is used as given; the root is never empty |
| `Lister.FirstErrorPrefix` | main.go:203-206 | once an entry reports an error, later entries cannot change the walk's error |
| `Lister.FirstErrorIsFirst` | main.go:203-215 | the listing fails exactly when some entry reports an error, and then with the error of the first such entry |
| `Lister.KeptPathsMembers` | main.go:204-210 | a path is listed exactly when an error-free entry with file info that is a regular file produced it as `root + "/" + fpath`; entries with nil info are skipped; the list is never longer than the walk |
| `Lister.GetFileList` | main.go:197-218 | the walk loop returns the first entry error, or the paths of the regular entries in walk order, each prefixed with the root and "/" |
| `Dispatch.FileShow` | main.go:166-173 | the listing map's keys are exactly the listed files, and each value is true exactly when the file is playable |
| `Dispatch.FileShowSize` | main.go:166-173 | duplicate files collapse to one key: the map has at most as many entries as the list, and exactly as many when the list has no duplicates |
| `Dispatch.Index` | main.go:159-181 | `index` fails with the listing error, or fills the playable map for the listed files and renders it |
| `Dispatch.Video` | main.go:183-195 | an unsupported suffix of the untrimmed URL path fails with "not support video file type: " and an empty type; otherwise the descriptor is `(path, mime, 264, 640)`, which is rendered, or the template's own error is returned when it fails |
| `Dispatch.ToResponse` | main.go:118-122 | a branch error becomes status 400 with the error text as body; a successful branch becomes its rendered page |
| `Dispatch.PlayerPage` | main.go:39-40 | a rendered player page uses the untrimmed URL path as its source, has the MIME type of its suffix, and is 640 wide and 264 high because the template swaps the two sizes |
| `Dispatch.Respond` | main.go:99-123 | every error response has status 400; DO_GET, and only DO_GET, serves the raw file at the parsed path; for DO_INDEX and DO_PLAY, a failing branch gives 400 with that branch's error text (listing or template error, unsupported type) and a successful branch gives its page |
| `Dispatch.Route` | main.go:99-123 | the handler returns exactly the response `Respond` describes |
| `Scenarios.RootListing` | main.go:159-173 | `/` on a directory holding `a.mp4` and `b.txt` lists `./a.mp4` as playable and `./b.txt` as not |
| `Scenarios.PlayAnswer` | main.go:112-113 | a parsed play request is answered by the player branch alone |
| `Scenarios.PlayMp4` | main.go:133-136 | a play request for a path ending in `.mp4` in any letter case, `/a.mp4?play=true` for example, renders the player for the untrimmed path with type video/mp4, whatever stat reports (a missing file included) |
| `Scenarios.PlayUnsupportedType` | main.go:183-188 | a play request for a path whose extension is outside the allow-list, `/doc.pdf?play=true` for example, is answered with 400 and "not support video file type: " |
| `Scenarios.PlayWithoutDot` | main.go:133-144 | a play request for a path without a dot, `/` or a directory name for example, is answered with 400 and is not listed |
| `Scenarios.ListingError` | main.go:203-215 | a listing whose walk reports an error is answered with 400 and the first error's text |
| `Scenarios.UnparsedFormListsCurrentDirectory` | main.go:126-130 | when form parsing fails, the request lists the current directory, whatever its path and play flag |

## Left out

- HTTP plumbing is not modelled: `main`, the `ServeMux`, `ListenAndServe`, response writing, and `http.ServeFile`. A DO_GET request is modelled as the decision to serve the file at the parsed path. It never errors at the `route` level.
- Template parsing (`init`) and the HTML output are not modelled. A template execution is its view plus an optional failure text. Only the width/height swap is recorded.
- `ErrorResponse(400, e)` is the handler's decision. When a template fails after it has written part of a page, net/http has already sent status 200 and ignores the later `WriteHeader(400)`; the client then sees 200, the partial page and the error text. The model does not capture the bytes written before the failure or the status actually sent in that case.
- Real `os.Stat` and `filepath.Walk` are inputs. The walk order is whatever sequence the input gives. `filepath.SkipDir` cannot arise, because the callback only returns an entry's own error.
- The `logrus` logging and `CK_DEBUG` configuration are side effects only.
- Concurrent request handling is not modelled. Handlers share no mutable state.
- `Strings.ToLower` lower-cases ASCII letters only. Go's `strings.ToLower` also maps non-ASCII letters, which are out of scope. One consequence: Go maps 'İ' (U+0130) to 'i', so `x.AVİ` is playable in the program and not in the model. `Suffix.MimeTypeOfExtension`'s "every other extension maps to nothing" therefore holds only for this ASCII lower-casing.
- `strconv.ParseBool` is modelled only as its set of true spellings, because the handler discards its error. `req.FormValue` is the `playValue` input.
- The `default:` branch of `route` ("not support method") cannot be reached. `parseUrl` only returns the three `DoWhich` constants, and the `DoWhich` datatype has exactly three constructors.
