# video_protect: job naming and lookup of the video processing API

A Dafny model of the HTTP service in `api/main.py`, a FastAPI application with
three handlers:

- `POST /upload/` accepts a video file by name, stores it in the `uploads`
  directory as `<file_id><extension>` and returns the generated `file_id`;
- `GET /process/{file_id}` finds the stored upload whose name starts with the
  id, has the media library re-encode it (resized to a preset height) into
  `processed/<file_id>_processed.mp4`, and returns the duration and a
  download reference;
- `GET /download/{filename}` serves `processed/<filename>` or answers 404.

The model keeps every decision the service makes itself, and leaves the media
work to an oracle:

- `text.dfy` (module `Text`): the Python string operations used —
  `str.lower`, `str.endswith`, `str.startswith` and `str.rfind`, and the
  decimal digits of a number, used to state which heights the preset names select.
- `paths.dfy` (module `PathOps`): `os.path.join` and `os.path.splitext`
  (POSIX rules: the extension starts at the last `.` of the last segment, and
  leading dots of the segment never start one).
- `naming.dfy` (module `Naming`): the module-level directory names, the
  acceptance test, the stored name, the upload listing and the prefix lookup,
  the artifact name and output path, the download reference and its route,
  and the resolution presets.
- `service.dfy` (module `VideoApi`): the class `VideoService`, which holds the
  two directories as state: `uploads` is the upload directory's listing, in
  the order the file system lists it; `processed` is the set of names in the
  processed directory. The three handlers are methods of this class. Each
  returns `Ok(body)` or `Err(HttpError(status, detail))` with the source's
  status codes and detail texts. The media library is a function parameter
  `transcode` that maps a request (input path, target height or none, output
  path) to `Encoded(duration)` or `Failed(message, outputWritten)`.

Behaviour of the code worth knowing:

- The code never deletes a partly written artifact after a failed transcode.
  In the model, `Failed(_, true)` leaves the artifact name in `processed`.
- The code uses one fixed temporary audio file name for every job.
- The code checks the suffix of the lower-cased whole name, not the
  extension. A name that is only `.mp4` is therefore accepted, and it is
  stored under the bare id with no extension (`BareSuffixStoredAsId`).
- The 400 detail is the code's text, "Only video files are allowed".

## Model

| member | source | states |
|---|---|---|
| `Text.Lower` | api/main.py:28 | lower-casing keeps the length and lower-cases each character in place (ASCII letters only, see below) |
| `Text.EndsWith` | api/main.py:28 | `str.endswith`: the last `|suffix|` characters equal the suffix, position by position |
| `Text.StartsWith` | api/main.py:44 | `str.startswith`: the first `|prefix|` characters equal the prefix, position by position |
| `Text.DecimalText` | api/main.py:57-64 | the decimal text of a number is a non-empty string of digits |
| `Text.DecimalTextValue` | api/main.py:57-64 | reading the digits back gives the number, and there is no leading zero, so a preset name denotes one height |
| `Text.RFind` | api/main.py:32 | the index of the last occurrence of a character, or -1; nothing after it is that character (the search `splitext` performs) |
| `Text.LowerSlice` | api/main.py:28 | lower-casing the name and then taking its last characters is the same as lower-casing those characters |
| `PathOps.Join` | api/main.py:34 | `os.path.join(dir, name)` is `dir`, one `/`, then `name`, each recoverable from the result |
| `PathOps.LastSegment` | api/main.py:32 | the last segment is a suffix of the path, contains no `/`, and is either the whole path or preceded by a `/` |
| `PathOps.ExtensionStart` | api/main.py:32 | where `splitext` cuts: a `.` with no `.` or `/` after it, preceded within its segment by a non-dot; `|p|` means no extension |
| `PathOps.SplitExt` | api/main.py:32 | `root + ext == name`; a non-empty `ext` starts with its only `.`, has no `/`, and its root's last segment holds a non-dot |
| `PathOps.SplitExtAt` | api/main.py:32 | independent reading: for a `.` followed by no `.` or `/`, `ext` is the suffix from that dot iff its segment has a non-dot before it, else empty |
| `PathOps.ExtensionStartAt` | api/main.py:32 | the cut point of `splitext` for a name whose last `.` is at a given index |
| `PathOps.NoDotNoExtension` | api/main.py:32 | a name whose last segment has no `.` has an empty extension |
| `Naming.IsAcceptedName` | api/main.py:28-29 | an upload is accepted iff its last four characters, lower-cased, are `.mp4`, `.mov` or `.avi` |
| `Naming.AcceptedIffLastFour` | api/main.py:28 | trying the three suffixes on the lower-cased name is the same as comparing its last four characters with the suffix set |
| `Naming.AcceptanceIgnoresCase` | api/main.py:28 | a name and its lower-cased form are accepted or rejected alike |
| `Naming.AcceptedSuffixShape` | api/main.py:28 | an accepted name ends in a `.` followed by three characters that are neither `.` nor `/` |
| `Naming.VideoSuffixShape` | api/main.py:28 | four characters that lower-case to a video suffix are a `.` and three characters that are neither `.` nor `/` |
| `Naming.AcceptedExtension` | api/main.py:28-32 | for an accepted name, `splitext` gives either its last four characters exactly as sent (lower-casing to a video suffix), or nothing; nothing exactly when all of its segment before the suffix is dots |
| `Naming.StoredName` | api/main.py:32-34 | the stored name starts with the job id; the rest is a suffix of the client's file name, unchanged in case, without `/` |
| `Naming.StoredNameOfAccepted` | api/main.py:28-34 | an accepted upload is stored as the bare id or as id plus the client's last four characters, the bare id exactly when the segment before the suffix is all dots |
| `Naming.UpperCaseExtensionKept` | api/main.py:28-34 | `a.MP4` is accepted and stored as `<id>.MP4` |
| `Naming.UpperCaseNameAccepted` | api/main.py:28 | `a.MP4` passes the case-insensitive check |
| `Naming.UpperCaseExtensionSplit` | api/main.py:32 | `splitext("a.MP4")` yields `.MP4` |
| `Naming.SimpleNameExtension` | api/main.py:32 | a slash-free name not starting with `.` splits at its last `.` |
| `Naming.BareSuffixStoredAsId` | api/main.py:28-34 | `.mp4` is accepted but stored as the bare id |
| `Naming.BareSuffixAccepted` | api/main.py:28 | `.mp4` passes the check |
| `Naming.BareSuffixHasNoExtension` | api/main.py:32 | `splitext(".mp4")` yields no extension |
| `Naming.DotNameHasNoExtension` | api/main.py:32 | a name made of one leading `.` and dot-free, slash-free text has no extension |
| `Naming.UuidIsPlainSegment` | api/main.py:33 | the text of a uuid4 holds no `/`, `?`, `#` or `%`, so it travels through a URL path unchanged |
| `Naming.InsertEntry` | api/main.py:34-37 | writing a file adds exactly its name to the listing (as a multiset), changes nothing when the name already exists, and keeps names unique |
| `Naming.Matching` | api/main.py:44 | the comprehension keeps exactly the listed entries that start with the id |
| `Naming.MatchingHead` | api/main.py:44-48 | the first kept entry is the entry at the least index that starts with the id |
| `Naming.FindInput` | api/main.py:44-48 | no input iff no entry starts with the id (the 404 case); otherwise the input starts with the id and is the first such entry in listing order |
| `Naming.UploadThenFind` | api/main.py:32-48 | after an upload stores a name starting with the id, the id finds an input; when no entry started with the id before, that input is the stored name |
| `Naming.AnyPrefixFinds` | api/main.py:44 | any prefix of a stored name, not only a full id, finds an input |
| `Naming.EmptyIdTakesFirstEntry` | api/main.py:44-48 | the empty id takes the first listed entry |
| `Naming.ArtifactName` | api/main.py:49 | the artifact name is the id followed by `_processed.mp4` and nothing else: it starts with the id, ends with the suffix, and has exactly their combined length |
| `Naming.ArtifactNameInjective` | api/main.py:49 | distinct ids have distinct artifact names |
| `Naming.OutputPath` | api/main.py:49 | the output path is `processed/` joined with the artifact name; it depends on the id only |
| `Naming.DownloadRef` | api/main.py:78 | the reference is `/download/` followed by the artifact name |
| `Naming.RouteFilename` | api/main.py:83-84 | whatever the route binds is a non-empty, slash-free segment that follows `/download/` and makes up the rest of the path |
| `Naming.RouteBindsSegment` | api/main.py:83-84 | every non-empty, slash-free segment after `/download/` is bound, and bound whole |
| `Naming.DownloadRefRoundTrip` | api/main.py:78-87 | for a slash-free id, the returned reference routes to the artifact name, and the download handler checks exactly the output path |
| `Naming.EffectiveResolution` | api/main.py:42 | a given resolution is used as is; an omitted one selects height 480 |
| `Naming.PresetHeight` | api/main.py:57-64 | a height is selected iff the value is `720p`, `480p` or `360p`, and the value is then the height's decimal text followed by `p`; anything else means no resize |
| `Naming.PresetNamesSelectHeights` | api/main.py:57-64 | each of 720, 480 and 360, written in decimal and followed by `p`, selects itself |
| `VideoApi.ProcessingFailed` | api/main.py:80-81 | a transcode failure becomes status 500 whose detail is the fixed prefix followed by the library's message, intact |
| `VideoApi.RequestFor` | api/main.py:48-64 | the media request reads `uploads/` joined with the found entry and writes to the output path; its height is the preset height of the effective resolution, so it resizes iff that is a preset, and to 480 when none was given |
| `VideoApi.VideoService.constructor` | api/main.py:21-24 | start-up keeps whatever both directories already hold |
| `VideoApi.VideoService.UploadVideo` | api/main.py:26-39 | success iff the name is accepted; rejection is 400 with nothing written; success inserts exactly the stored name, leaves `processed` alone and echoes the id and the original name |
| `VideoApi.VideoService.ProcessVideo` | api/main.py:41-81 | 404 iff no upload starts with the id; otherwise the request for the first match, and on success `("success", duration, /download/<id>_processed.mp4)` with the artifact added, on failure 500 with the message and the artifact added iff it was written; uploads never change |
| `VideoApi.VideoService.DownloadFile` | api/main.py:83-88 | success iff the name exists in the processed directory, serving `processed/<name>` as `video/mp4`; otherwise 404 |
| `VideoApi.UploadProcessDownload` | api/main.py:26-88 | an accepted upload is always found by `process`; after a successful `process`, the returned reference routes to the artifact and `download` serves the output path |

## Left out

- The transcode itself (api/main.py:53-73): opening the clip, `resize`,
  `write_videofile`, the codecs and the temporary audio file. It is a foreign
  library call and is modelled as the `transcode` oracle. The width moviepy
  derives from the height is not visible to the service and is not modelled.
- Durations are floats reported by the media library. The model passes them
  through as `real` values and states nothing about them.
- `uuid.uuid4()` (api/main.py:33): the id is a parameter. The model requires
  only its text form (`IsUuidText`) and assumes no uniqueness.
- File contents and `await file.read()` (api/main.py:36-37): only directory
  membership is modelled. A failing write (full disk, permissions) is not
  modelled, so an accepted upload always succeeds.
- Directory listing order belongs to the file system. The position of a new
  entry is a parameter of `UploadVideo`.
- `Naming.InsertEntry`: keeps the relative order of the entries already
  listed when a file is written. File systems do not promise this, so the
  model fixes one admissible listing order rather than all of them.
- Concurrency: each handler runs as one atomic step. Races between requests
  are not modelled. Examples are two `process` calls for one id (last write
  wins) and the shared temporary audio file name.
- FastAPI routing, multipart parsing, the CORS middleware, `FileResponse`
  streaming and the `uvicorn` start-up (api/main.py:9-18, 88-92).
  `ProcessVideo` accepts any `fileId`, including one with `/` that the
  route `/process/{file_id}` never binds; the artifact name recorded for
  such an id would then contain `/`.
  `RouteFilename` models only how the download route binds its path
  segment, on the path after percent-decoding, with no query string or
  fragment. An id containing `?`, `#` or `%` would not survive the round trip
  through a URL; the uuid text of a real job id never contains them. A missing file name on an upload (`None`) is not modelled.
- Path semantics beyond plain joining (api/main.py:85). Absolute names, `..`,
  and names that denote directories are not modelled, and the model makes no
  safety claim about them. `os.path.exists` is modelled as membership in the
  processed directory's set of names.
- Failures of `os.makedirs` and `os.listdir` (api/main.py:23-24, 44).
- `Text.Lower`: maps only the ASCII letters `A`-`Z`, while Python's
  `str.lower` maps all of Unicode. Non-ASCII letters are left unchanged, and
  the length is always kept, although Python lengthens a string holding
  U+0130 (it becomes `i` followed by the combining dot U+0307). The
  acceptance decision is the same either way. Apart from U+0130 and the
  Kelvin sign (which becomes `k`), no character outside ASCII lower-cases to
  ASCII. And when U+0130 is among the last four characters, the combining
  dot it produces falls among the last four lowered characters, so no video
  suffix can match in either reading.
- ui/main.py is not part of this model. It is a NiceGUI client making network
  calls. It reads a `duration` key, while the API returns `original_duration`.
