# Photo booth: server photo store and client capture session

A Dafny model of the two pieces of logic in the photo-booth app:

- **The server's photo store** (`server.js`). The uploads directory is a map from file name to
  bytes and creation time, held by the class `PhotoStore.Store`. Its methods are the handlers of
  `POST /api/upload-base64`, `POST /api/upload`, `GET /api/photos` and
  `DELETE /api/photos/:filename`. Each returns the HTTP status and the JSON body, and states the
  new contents of the directory. Around them sit pure functions:
  - the payload pattern `^data:(image\/\w+);base64,(.+)$` (module `DataUrl`). Its
    `data:image/<subtype>;base64,` prefix is a restriction of the `data:` URL syntax of
    section 3 of RFC 2397. Its data part is any non-empty run of characters other than line
    terminators, so it also admits characters that RFC 2397 does not allow (a space, `<`,
    `"`, `{`, a `%` without two hex digits, non-ASCII);
  - the extension taken from the media type;
  - Node's POSIX `path.basename` and `path.extname` (module `NodePath`);
  - the generated names `<millis>-<token>.<ext>` and multer's `<millis>-<token><ext>`;
  - JavaScript's `encodeURIComponent` (module `UriComponent`), the percent-encoding of
    section 2.1 of RFC 3986 over UTF-8 (section 3 of RFC 3629), with `decodeURIComponent` as
    its proved inverse.

  `GET /api/photos` builds the list in the order `readdir` gives, which the model leaves
  arbitrary. It then sorts the list in place, newest first, with an insertion sort on an array.
- **The client's capture session** (`client.js`). The class `CaptureSession.Session` holds the
  camera stream, the facing mode, whether the preview is shown, the capture button's disabled
  flag and the alerts shown so far. Its methods are `startCamera`, `stopCamera` and the
  start, flip and capture handlers. The countdown (`RunCountdown`) is a loop, one iteration per
  850 ms timer tick. `CaptureSize` is the canvas size rule.

Browser and system calls become parameters:
- `getUserMedia` → `granted`; `video.play()` → `playOk`;
- the upload response → `UploadOutcome`; the video's reported size → `videoWidth`, `videoHeight`;
- `Date.now()` → `now`; `Math.random().toString(36).slice(2, 8)` → `token`;
- `Buffer.from(data, 'base64')` → the function parameter `decode`;
- a file's birth time → `createdAt`;
- a failing `writeFile`, `readdir`/`stat` or `unlink` → `writeFails`, `readFails`, `unlinkFails`.

Behaviour the model takes from the code:
- **`.` and `..` as names.** `path.basename` keeps `.` and `..`. In the code such a name
  resolves to the uploads directory or its parent. The write then fails (500), and the delete
  finds an existing directory that it cannot unlink (500). The model does the same: these names,
  and the empty name on delete, give 500 and change nothing. They are never keys of the store
  (`Store.Valid`). None of them gives 404.
- **Non-string `filename`.** A truthy `filename` that is not a string makes `path.basename`
  throw. The answer is then 500, with nothing written.
- **No decode error.** There is no base64 decode error: the decoder never fails. So the only
  400 answers are a missing image and a failed pattern match.
- **Failed `stat`.** A file that disappears between `readdir` and `stat` fails the whole
  listing with 500. It is not skipped.
- **Ties in the listing.** Photos with equal `createdAt` come out in `readdir` order. The code
  has no tie-break by file name.
- **Capture without a camera.** If the camera cannot be started, the capture still goes on. The
  video then reports 0 x 0, so a blank 1280 x 720 frame is drawn and uploaded. Capture does not
  wait for a live camera.

## Model

| member | source | states |
|---|---|---|
| `Text.Decimal` | server.js:75 | the clock rendering is a non-empty digit string with no leading zero |
| `Text.DecimalRoundTrip` | server.js:75 | reading the digits of the rendered clock value gives the value back |
| `NodePath.TrimTrailingSlashes` | server.js:89 | the result is a prefix of the path without a final `/`, and only slashes were dropped |
| `NodePath.LastSegment` | server.js:89 | the result is the suffix after the last `/`, holds no `/`, and is preceded by `/` or nothing |
| `NodePath.Basename` | server.js:75 | `path.basename` never returns a name containing `/` |
| `NodePath.BasenameEmptyIffAllSlashes` | server.js:75 | the base name is empty exactly when the path is empty or all slashes, which is when the generated name is used instead |
| `NodePath.BasenameOfPlainName` | server.js:89 | a name without `/` (every stored name) is its own base name, so delete finds it |
| `NodePath.BasenameIdempotent` | server.js:89 | reducing to the base name twice gives the same name |
| `NodePath.LastDot` | server.js:28 | position of the last `.` of a name, or -1 when it has none |
| `NodePath.BaseExt` | server.js:28 | the extension of a base name is empty or a proper suffix of it that starts with `.` |
| `NodePath.ExtName` | server.js:28 | `path.extname` is empty or starts with `.` and holds no `/` |
| `NodePath.BaseExtFound` | server.js:28 | a base name has an extension exactly when it has a dot after its first character and is not `..` |
| `NodePath.ExtNameFound` | server.js:28 | `ExtName` (`path.extname`) finds an extension exactly when the base name has a dot after its first character and is not `..` |
| `NodePath.ExtNameShape` | server.js:28 | a found extension starts with its only dot, holds no `/`, and is a proper suffix of the base name |
| `UriComponent.HexDigitValue` | server.js:79 | each upper-case hex digit written by the encoder reads back as its value |
| `UriComponent.EscapeAll` | server.js:79 | escaping bytes gives three characters per byte, all unreserved or `%` |
| `UriComponent.Encode` | server.js:79 | `encodeURIComponent` output holds only `A-Z a-z 0-9 - _ . ! ~ * ' ( )` and `%`, so no `/` |
| `UriComponent.EncodeIdentityIffUnreserved` | server.js:43 | a name is left as it is exactly when all its characters are unreserved |
| `UriComponent.Decode` | server.js:79 | `decodeURIComponent` (which the static mount and the delete route apply to the URL segment) never yields more characters than its input; None where it throws |
| `UriComponent.DecodeEncode` | server.js:79 | `Decode(Encode(s)) == Some(s)` for every string: `decodeURIComponent` undoes `encodeURIComponent` |
| `UriComponent.EscapesOfCharDecode` | server.js:79 | the escapes of one character's UTF-8 bytes decode to that character and consume exactly them |
| `DataUrl.WordRun` | server.js:68 | `\w+` matches the maximal run of `[A-Za-z0-9_]` characters |
| `DataUrl.Parse` | server.js:68 | an accepted string is exactly `data:image/` + subtype + `;base64,` + data, with the captures the pattern allows |
| `DataUrl.SubtypeRun` | server.js:68 | in a matching string the subtype is word characters closed by `;` |
| `DataUrl.MatchUnique` | server.js:68 | a string matches the pattern with at most one pair of captures |
| `DataUrl.ParseComplete` | server.js:68-69 | every string that matches the whole pattern is accepted with its captures, so only non-matching strings get "Invalid image data" |
| `DataUrl.ParseIffMatches` | server.js:68-69 | the payload is accepted exactly when some captures make the string match |
| `DataUrl.ParseFormat` | server.js:68 | formatting well-formed captures and matching again gives them back |
| `DataUrl.IndexOfSlash` | server.js:71 | position of the first `/`, with no `/` before it |
| `DataUrl.SecondField` | server.js:71 | `split('/')[1]` exists exactly when the media type has a `/`, and holds no `/` |
| `DataUrl.Extension` | server.js:71 | the extension, `split('/')[1]` or else `'png'`, is never empty and holds no `/` |
| `DataUrl.ExtensionIsSubtype` | server.js:71 | `Extension` of an accepted payload is its subtype, so the `'png'` fallback is never taken |
| `PhotoStore.Url` | server.js:79 | the URL is `/uploads/` followed by a segment with no `/` |
| `PhotoStore.UrlNamesFile` | server.js:79 | decoding the URL's last segment gives the stored name back |
| `PhotoStore.GeneratedNameIsFileName` | server.js:75 | `GeneratedName`, the name template `Date.now() + '-' + token + '.' + ext`, starts with the clock digits, ends in `.ext`, and is a plain file name |
| `PhotoStore.ChooseName` | server.js:75 | the `safeName` choice fails exactly for a truthy non-string `filename` (where `path.basename` throws), and otherwise is never empty |
| `PhotoStore.ChosenNameIsBaseName` | server.js:75 | `ChooseName` is the caller's base name when that is non-empty, otherwise the generated name; it is non-empty with no `/`; a non-string filename throws |
| `PhotoStore.MulterNameKeepsExtension` | server.js:27-31 | `MulterName`, multer's `filename` callback, is a plain file name whose own `extname` is the original's extension, or `.png` without one |
| `PhotoStore.MulterExtensionShape` | server.js:28 | multer's extension, `path.extname(originalname)` or else `.png`, is a dot followed by characters that are neither dots nor slashes |
| `PhotoStore.NameWithExtension` | server.js:29 | clock digits, `-`, token, then an extension make a plain name whose `extname` is that extension |
| `PhotoStore.StemIsPlain` | server.js:29 | `<millis>-<token>` starts with a digit and has no `/` or `.` |
| `PhotoStore.LastDotOfStemAndExtension` | server.js:28-29 | after a dot-free stem, the extension's dot is the name's last dot |
| `PhotoStore.DistinctCountsOnce` | server.js:39-47 | a listing with distinct names holds each element at most once |
| `PhotoStore.RepeatCountsTwice` | server.js:48 | an element at two positions occurs at least twice in the multiset |
| `PhotoStore.PermutationListsEachOnce` | server.js:48 | reordering a listing keeps exactly one correct element per stored file |
| `PhotoStore.NamesOfMember` | server.js:38-42 | a name is among a listing's names exactly when some entry carries it |
| `PhotoStore.DistinctNamesCount` | server.js:38-42 | a listing with distinct names mentions as many names as it has entries |
| `PhotoStore.ListingSize` | server.js:38-49 | the listing has exactly as many entries as the uploads directory has files |
| `PhotoStore.SortNewestFirst` | server.js:48 | the in-place sort leaves `createdAt` non-increasing and is a permutation of the list |
| `PhotoStore.InsertNewestFirst` | server.js:48 | one insertion pass: the prefix up to `i` becomes newest first and the array keeps its multiset |
| `PhotoStore.SinkStep` | server.js:48 | moving the sinking entry one place forward past an older one keeps the rest newest first |
| `PhotoStore.SwapAdjacent` | server.js:48 | the new array is the old one with the two neighbours exchanged, and the multiset is kept |
| `PhotoStore.Store.constructor` | server.js:14 | the first run: the uploads directory is created empty, and so valid; after a restart the directory keeps its files, and every handler contract assumes only `Valid()` |
| `PhotoStore.Store.Describe` | server.js:38-47 | one element per stored file, each its `ListingOf`: name, URL, size and creation time |
| `PhotoStore.ListsOneMore` | server.js:39-47 | describing one more file keeps every described file listed once and correctly |
| `PhotoStore.Store.List` | server.js:36-53 | 500 with no list on a read failure; otherwise exactly one entry per file, newest first (an empty store gives `[]`) |
| `PhotoStore.Store.UploadBase64` | server.js:63-84 | 400 "Image data missing" or "Invalid image data" with no write; 500 with no write for a throwing basename, a directory name or a failed write; otherwise the name maps to the decoded bytes, every other entry is unchanged, and the reply is the name and its URL |
| `PhotoStore.Store.UploadMultipart` | server.js:57-60 | no file gives 400 and no change; otherwise the file is stored under multer's name and the reply carries it |
| `PhotoStore.Store.Delete` | server.js:87-98 | the name is reduced to its base name; a directory name or a failed unlink gives 500, an absent name 404, both with no change; otherwise exactly that entry is removed with 204 |
| `StoreScenario.UploadListDelete` | server.js:36-98 | on an empty directory, a PNG data URL uploaded without a file name is saved under a `.png` name with its URL, the list shows exactly that file, deleting it answers 204 and the next list is empty |
| `StoreScenario.UploadPng` | server.js:63-84 | a PNG data URL uploaded without a file name into an empty directory is saved as the only file, under a plain `.png` name, with reply 200 |
| `StoreScenario.PngName` | server.js:75 | without a file name, a PNG upload is named by the template, a plain name that is its own base name and ends in `.png` |
| `StoreScenario.DeleteAndList` | server.js:87-98 | deleting the only file answers 204 and the next list is empty |
| `StoreScenario.OnlyFileListed` | server.js:38-49 | with one file stored, the listing has one entry, for that file |
| `StoreScenario.NothingListed` | server.js:38-49 | with no file stored, the listing is empty |
| `CaptureSession.CountdownShape` | client.js:67-89 | a countdown from n shows n digits, the i-th being n - i |
| `CaptureSession.CountdownDecreases` | client.js:67-89 | the digits strictly decrease and 0 is never shown |
| `CaptureSession.RunCountdown` | client.js:67-89 | for n > 0 the digits shown are n, ..., 1 and it resolves after exactly n ticks; otherwise it shows n once and resolves after one tick; it takes 850 ms per tick |
| `CaptureSession.CaptureSize` | client.js:52-53 | width is `videoWidth` or 1280; height is `videoHeight` or the integer nearest 9w/16 (halves up), 720 when both are unknown; both positive |
| `CaptureSession.SnapshotPayloadAccepted` | client.js:62 | the PNG data URL of a snapshot passes the server's pattern and gets extension `png` |
| `CaptureSession.UploadAlert` | client.js:98-105 | an alert exactly when the upload did not succeed, always with the upload-error prefix; a refusal shows the server's `error` or "Upload failed", a thrown error its message (its name when the message is empty) |
| `CaptureSession.Session.constructor` | client.js:15-16 | no stream, facing `user`, button enabled |
| `CaptureSession.Session.StartCamera` | client.js:18-32 | a no-op with a stream; if access is denied the stream stays absent; if playback fails the stream stays set; any failure adds the camera alert |
| `CaptureSession.Session.StopCamera` | client.js:34-44 | a no-op without a stream; otherwise the stream is absent and the preview hidden |
| `CaptureSession.Session.ClickStart` | client.js:186-189 | stops a live camera and starts an idle one |
| `CaptureSession.Session.ChangeFlip` | client.js:196-203 | facing is `environment` exactly when checked; a live camera is stopped and restarted 250 ms later with the new facing; an idle one only changes facing |
| `CaptureSession.Session.UploadBase64` | client.js:91-107 | a failed upload adds its alert and is swallowed; no other field changes |
| `CaptureSession.Session.DoCapture` | client.js:46-65 | starts the camera if idle (so the preview is on exactly when access and playback succeed), counts down from 3 if the timer is checked, draws a frame of `CaptureSize` (1280 x 720 without a stream), uploads and refreshes; all steps keep the button state; alerts are the camera's then the upload's |
| `CaptureSession.Session.ClickCapture` | client.js:190-193 | while disabled nothing happens; otherwise the button is disabled for every step of `doCapture` (the camera start if idle, the 3-2-1 countdown if the timer is checked, the frame, the upload, then the gallery refresh whatever the upload's outcome) and enabled again at the end; the stream, the preview and the alerts are those `doCapture` leaves |

## Left out

- Express setup, CORS and request logging, the 20 MB JSON limit, static file serving and `listen` (server.js:9-22, server.js:100-102): framework plumbing.
- `PhotoStore.Store.constructor` models only the first run, when `mkdirSync` creates the uploads directory empty (server.js:14). On a restart the directory already exists and keeps its files. That state is any `Valid()` store, and every handler contract holds for any `Valid()` store.
- multer's multipart parsing, its 10 MB limit and its own storage errors, which go to Express's default error handler: a foreign library. Only the naming callback and the handler are modelled.
- Base64 decoding: `Buffer.from(data, 'base64')` is lenient and never throws, so it is the opaque parameter `decode`.
- Real file-system behaviour: `readdir` order is an arbitrary choice, `Promise.all` runs in sequence, and `createdAt` is supplied with each write. An overwrite sets a new `createdAt`, although a real file system may keep the original birth time.
- `Date.now()` and `Math.random()` are parameters. No collision freedom of generated names is claimed, and none holds in the code.
- Windows `path.basename`/`path.extname` semantics: only POSIX is modelled.
- Lone UTF-16 surrogates: the model's characters are Unicode scalar values. So `encodeURIComponent` cannot throw after the write, which in the code would give 500 with the file already stored.
- Rendering the gallery, the per-photo delete button, `refreshGallery`'s fetch and error placeholder, `alert`/`confirm` dialogs other than the alert texts, `toLocaleString`, canvas drawing and `toDataURL` (client.js:109-183, client.js:56-62): UI and browser APIs. A refresh is one trace step.
- Timers and races: the 250 ms restart gap in flip is a returned constant, and the restart runs with nothing in between. A camera stopped in the middle of a countdown is not modelled. Neither are clicks that arrive while a capture is awaiting, beyond the disabled button.
- The DOM classes, button text and `aria-pressed` that `startCamera` and `stopCamera` toggle are the single flag `previewActive`.
