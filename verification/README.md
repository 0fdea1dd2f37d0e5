# Video anomaly detection front end: upload and history core

This project models, in Dafny, the decision logic of the two React
components of a video anomaly ("fight") detection front end.

- **Upload page** (`src/components/Home.jsx`). A chosen file must have a
  `video/` MIME type. A file whose lower-cased name ends in `.avi` is
  converted to MP4 by an embedded transcoding engine (ffmpeg compiled to
  WebAssembly). The `converting` flag is up while the engine runs. The file
  used becomes the current `video`, the previous prediction is cleared, and
  a fresh object URL (`blob:` URL) previews it, replacing and revoking the
  previous one. `handleUpload` sends the current video to the prediction
  service with `loading` up for the duration of the request.
- **History page** (`src/components/History.jsx`). The list of stored
  files is joined, file by file, with the prediction looked up for each.
  A failed lookup becomes the placeholder `Unknown` / 0 / `null`. The
  joined list is published once, in listing order. Each record gets a
  "Fight" badge and an anomalous-frame image according to two display
  predicates. Its video and frame are addressed as
  `http://localhost:5000/uploads/` followed by `encodeURIComponent` of the
  identifier. Selecting a record opens a player. Any player already in the
  player slot is disposed first.

Both components are classes (`HomePage.Home`, `HistoryPage.History`) whose
fields are the component's React state. Their methods take the outcome of
the outside world as parameters:
- the transcoding engine: `EngineOutcome`;
- the upload request: `UploadOutcome`;
- the listing request: `Listing`;
- the per-file lookups: one `Lookup` per listed file;
- the clock: one `Timestamp` per record;
- the player library: `PlayerInit`.

Object URLs and player handles are numbered from a counter. The sets
`liveUrls` and `livePlayers` hold those not yet revoked or disposed. A ghost
`trace` on `Home` records each engine run and each prediction request, with
the value the `converting` or `loading` flag had while it was in progress.

The supporting modules are these:
- `Text`: the JavaScript string operations used, namely `includes`,
  `replace` with a string pattern, `startsWith`, `endsWith` and
  `toLowerCase`; `IndexOf` models the first-occurrence search that
  `includes` and `replace` both perform.
- `Utf8`: UTF-8 as in section 3 of RFC 3629.
- `Uri`: `encodeURIComponent` as ECMA-262 defines it. Characters of its
  unreserved set are kept. Every other character becomes the
  percent-encoded octets (section 2.1 of RFC 3986) of its UTF-8 encoding.
  An inverse decoder goes with it, and the round trip is proved.

The model follows the code where a reader might expect otherwise:
- Any `video/*` file that is not `.avi` passes through unconverted, `.mkv`
  included. No container is rejected.
- A failed conversion leaves the previous selection in place. The AVI file
  is not kept as the current video.
- `handleUpload` has no in-flight guard of its own. Only the button's
  `disabled={loading || !video}` prevents a second request.
- Closing the detail view does not dispose the player. The cleanup closure
  at `History.jsx:273-277` is returned from the inner async function, not
  from the effect. The player is disposed only when a record is next
  selected, the one just closed included: closing sets the selection to
  none, so selecting any record afterwards changes it and reruns the effect.
- No request identifier guards against late asynchronous results.

## Model

| member | source | states |
|---|---|---|
| `Text.IndexOf` | src/components/History.jsx:328 | the first occurrence is found exactly when the pattern occurs somewhere, and no earlier position matches; `includes` is this search succeeding |
| `Text.ReplaceFirst` | src/components/Home.jsx:43 | `replace` with a string pattern keeps a string without the pattern and otherwise replaces only the first occurrence |
| `Text.ToLower` | src/components/Home.jsx:65 | lower-casing maps each character in place and keeps the length |
| `Text.EndsWithLowered` | src/components/Home.jsx:65 | a name ends, once lower-cased, with what its own ending lower-cases to |
| `Utf8.DecodeEncode` | src/components/History.jsx:236 | UTF-8 decoding gives back every string that was encoded |
| `Uri.EncodeUriComponent` | src/components/History.jsx:236 | the encoding is made of unreserved characters and `%` only, and a string of unreserved characters is left unchanged |
| `Uri.DecodeEncode` | src/components/History.jsx:236 | percent-decoding then UTF-8 decoding recovers the encoded identifier exactly |
| `Uri.EncodeInjective` | src/components/History.jsx:236 | two different identifiers never encode alike |
| `HomePage.ConvertedName` | src/components/Home.jsx:43 | the converted name is the original with its first case-sensitive `.avi` replaced by `.mp4`, or unchanged when it has none |
| `HomePage.Converted` | src/components/Home.jsx:43 | a converted file is typed `video/mp4`, holds the engine's output and bears the converted name |
| `HomePage.Chosen` | src/components/Home.jsx:52-72 | a file is used exactly when it is present, its type starts with `video/`, and the conversion succeeded if one was needed; a non-AVI video is used unchanged; an AVI-named one is replaced by the converted file, typed `video/mp4`, holding the engine's output and bearing the converted name |
| `HomePage.AviInAnyCaseNeedsConversion` | src/components/Home.jsx:65 | any case variant of the `.avi` ending triggers a conversion |
| `HomePage.AviSuffixReplaced` | src/components/Home.jsx:43 | a name whose only `.avi` is its ending is converted and renamed to end in `.mp4` |
| `HomePage.UpperCaseAviKeepsItsName` | src/components/Home.jsx:43 | an upper-case `.AVI` ending triggers conversion but is not renamed: the MP4 file keeps the `.AVI` name |
| `HomePage.DoubleExtensionKeepsAviSuffix` | src/components/Home.jsx:43 | `a.avi.avi` becomes `a.mp4.avi`: only the first `.avi` is replaced |
| `HomePage.Home.constructor` | src/components/Home.jsx:7-11 | the component starts with no video, no prediction, no preview URL and both flags down |
| `HomePage.Home.AtMostOnePreview` | src/components/Home.jsx:116-122 | at most one object URL is alive between handlers |
| `HomePage.Home.ConvertAviToMp4` | src/components/Home.jsx:23-50 | the engine runs once with `converting` up; `converting` is down afterwards on success and failure; the result is the MP4 file or the engine's error; nothing else changes |
| `HomePage.Home.HandleVideoChange` | src/components/Home.jsx:52-79 | no file, a non-video type or a failed conversion changes nothing; the engine runs exactly for a video with an `.avi` name; otherwise the file becomes current, the prediction is cleared, a fresh preview URL is created, and the previous one is revoked so that only the new one is alive; no anomalous frame is shown any more |
| `HomePage.Home.HandleUpload` | src/components/Home.jsx:90-113 | without a video no request is sent; otherwise one request carries the current video while `loading` is up; `loading` is down afterwards; the prediction becomes the response or stays as it was on failure; after a response the result panel (lines 210-227) shows the anomalous frame exactly when the response's frame path is non-empty, at the service base followed by the route and the unencoded frame path; after a failure the frame shown is unchanged; the button is then disabled exactly when there is no video |
| `HomePage.Home.Unmount` | src/components/Home.jsx:115-122 | the cleanup on unmount revokes the preview URL, leaving no object URL alive |
| `HistoryPage.RecordFor` | src/components/History.jsx:197-216 | a found lookup gives its own label, confidence and frame path; a failed one gives `Unknown`, 0 and `null`; the filename and the timestamp are kept |
| `HistoryPage.Join` | src/components/History.jsx:196-218 | one record per listed file, at the same index, each with its own lookup's data or the placeholder |
| `HistoryPage.JoinKeepsListing` | src/components/History.jsx:196-220 | the published filenames are exactly the listing, in its order, with no deduplication |
| `HistoryPage.JoinWithOneFailedLookup` | src/components/History.jsx:198-216 | for `v1.mp4` found as `Fight`, 0.92 and `v2.mp4` failing, the list is the `v1` record and then the `v2` placeholder |
| `HistoryPage.MimeTypeFor` | src/components/History.jsx:237-243 | a lower-cased `.webm` ending gives `video/webm`, else `.ogg` gives `video/ogg`, else `video/mp4` |
| `HistoryPage.WebmInAnyCase` | src/components/History.jsx:239 | any case variant of `.webm` gives `video/webm` |
| `HistoryPage.MediaUrl` | src/components/History.jsx:236 | the address is the uploads prefix followed by a single path segment that decodes back to the identifier |
| `HistoryPage.FrameUrl` | src/components/History.jsx:328-334 | an image address exists exactly when the record shows the anomalous frame, and it is the uploads prefix followed by a segment that decodes back to the frame path |
| `HistoryPage.MediaUrlInjective` | src/components/History.jsx:317 | different filenames or frame paths never share an address |
| `HistoryPage.ShowsFightBadge` | src/components/History.jsx:343-345 | the Fight badge is chosen exactly when `Fight` occurs in the label |
| `HistoryPage.ShowsAnomalousFrame` | src/components/History.jsx:328 | the frame image is shown exactly when `Fight` occurs in the label and the frame path is present and non-empty |
| `HistoryPage.PlaceholderShowsNothing` | src/components/History.jsx:209-215 | a placeholder record shows neither the Fight badge nor a frame |
| `HistoryPage.History.constructor` | src/components/History.jsx:181-187 | the page starts loading, with an empty list, no selection, no error and no player |
| `HistoryPage.History.AtMostOnePlayer` | src/components/History.jsx:260-265 | at most one player is alive |
| `HistoryPage.History.FetchVideos` | src/components/History.jsx:189-230 | a successful listing publishes the joined list in one assignment; a failed listing leaves the list empty and sets `Error loading video history: ` plus the message; loading ends false either way |
| `HistoryPage.History.InitializePlayer` | src/components/History.jsx:232-286 | the player in the slot is disposed before the new one is assigned: the player trace gets the disposal first and then a creation with no player alive, and every creation ever recorded found no player alive; the new player plays the record's address with the inferred MIME type and is the only live player; if the library throws, the error is reported and no player is alive |
| `HistoryPage.History.HandleVideoClick` | src/components/History.jsx:288-291 | the record becomes the selection and the error is cleared; the player is re-initialised, disposal before creation, only when the selection changed |
| `HistoryPage.History.HandleCloseModal` | src/components/History.jsx:293-296 | the selection and the error are cleared, and the player is neither disposed nor replaced |
| `HistoryPage.History.HandleThumbnailError` | src/components/History.jsx:323-326 | a thumbnail load failure sets `Error loading video: ` plus the message |

## Left out

- Network calls (`axios.get`, `axios.post`) are outcome parameters. The
  request URLs and the multipart packaging are not modelled.
- The transcoding engine (`ffmpeg.load`, `writeFile`, `exec`, `readFile`) is
  one outcome: output bytes or an error. The fixed working-file names, the
  codec arguments and the unawaited `load` on mount (a race) are not modelled.
- Concurrency is not modelled. Each handler runs to completion before the
  next event. React's batching of state updates and its effect scheduling
  are collapsed into the handler that causes them. So a second upload or
  a new selection while a conversion or request is pending is not modelled.
- `Promise.all` is a sequential map. Only its result order is observable.
- The player library (videojs) is an outcome: created or threw. The
  player's own `error` event wiring, DOM refs and the check that the video
  element is mounted are not modelled. The element is mounted whenever a
  record is selected.
- Confidence percentages (`Math.round(confidence * 100)`) are floating point
  and are not modelled; confidences are `real` values carried unchanged.
- `new Date().toISOString()` and `toLocaleDateString` are clock and locale.
  Timestamps are parameters.
- `alert`, `console` logging, JSX rendering and styles are not modelled.
  Neither are the "no videos found" and "loading" screens, apart from the
  rule that nothing can be selected while loading.
- `Text.ToLower`: lower-cases ASCII letters only. JavaScript's
  `toLowerCase` maps all of Unicode. For the endings tested (`.avi`,
  `.webm`, `.ogg`) the verdicts agree. No other character lower-cases to a
  single one of their letters. U+0130 lower-cases to `i` followed by the
  combining mark U+0307, and that mark, not the `i`, then ends the name, so
  the lower-cased name cannot end in `.avi`.
- `Uri.EncodeUriComponent`: strings are sequences of Unicode scalar values.
  So the URIError that JavaScript raises for a lone UTF-16 surrogate cannot
  arise.
- `HomePage.Prediction`: models the upload response's frame path as a
  string. A `null` or missing frame path is not modelled.
- `src/components/Graphs.jsx` (static chart data), `src/App.jsx` (routing) and
  `src/components/VideoPlayer.jsx` (a call into a global player library) are
  not part of this model.
