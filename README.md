# video-service in Dafny

A model of the core of a small Flask service (`app.py`) that lists the
formats of a media URL and then downloads, optionally re-encodes and
publishes one file while clients poll its progress. The external tools are
parameters of the model: the metadata resolver and the downloader (yt-dlp),
the height probe (ffprobe) and the encoder (ffmpeg). What is modelled:

- `Sanitize`: `sanitize_filename`, which turns a title into the public file
  stem.
- `Formats`: the `/download` route. It covers the availability check on the
  resolver's answer, the video filter, the audio picker and the route's
  outcomes.
- `Progress`: the progress store `download_progress`. It covers the
  downloader's progress hook and `get_progress`.
- `Folder`: the download directory as a map from file name to contents. It
  covers `os.remove`, `os.rename` and the two ways a job publishes its file.
- `Combine`: the `/combine` route. It covers validation, defaults, naming,
  the format selector, the transcode decision and publication.
- `Wrappers`: `Option` and `Result`.

The video filter (`FilterVideo`) and the audio picker (`PickAudio`) are
loops, as in the source. `FilterVideo` is proved equal to the specification
`SelectVideo`, and lemmas characterise that specification. `PickAudio` is
proved equal to the specification `AudioChoice` in the same way. The progress store and the
directory are classes whose methods update a `map` field.

Some behaviour of the code differs from what one might expect of such a
service; the model follows the code:

- One might expect a job's progress never to decrease and to stay within
  0..100. The code neither clamps nor enforces monotonicity. A video job's
  selector `format+bestaudio` makes the downloader run two passes, and the
  second pass starts low again (`ProgressCanDecrease`). The entry stays within
  0..100 when the downloader reports no more bytes than the total
  (`HooksStayInRange`); a single reading is at most 100 exactly when
  downloaded * 100 < 101 * total (`Percent`).
- One might expect the original to be deleted only after a successful
  encode. Once ffmpeg has run, the code deletes the original whatever ffmpeg
  did and reports success, and it does not delete an existing file at the
  public name before encoding. So when the encoder writes nothing, the file
  an earlier job published under that name is what the new link serves
  (`StaleFileSurvivesFailedEncode`). Only when ffmpeg cannot be started at
  all does the call raise: the job then reports an error and the temporary
  file stays.
- ffmpeg is invoked without its overwrite flag, so when a file already sits
  at the public name it may decline to replace it even when encoding would
  succeed. The encoder's answer "wrote nothing" covers that case, and then
  the earlier file survives: last writer wins only for jobs published by
  rename (`LastWriterWins`).
- A title none of whose characters the sanitiser keeps (after lower-casing,
  none is an ASCII letter, a digit, `_`, `-` or `.`; a title written wholly in
  another script, for instance) sanitises to the empty stem (`NoAllowedCharacterGivesEmpty`),
  so every such job publishes as `.mp4` or `.mp3` and they overwrite one
  another (`UnnamedTitlesShareOneFile`).
- The temporary name `{id}_original.{ext}` and the public name
  `{title}.{ext}` coincide only for a title that sanitises to
  `{id}_original` (`NamesCollide`). In that case the pass-through branch
  deletes the download and then fails to rename it.

## Model

| member | source | states |
|---|---|---|
| `Sanitize.Lower` | app.py:24 | lower-casing maps A-Z to a-z and leaves every other character |
| `Sanitize.Strip` | app.py:24 | removes leading and trailing characters of Python's whitespace set (ASCII and Unicode spaces, separators 0x1C-0x1F, NEL, NBSP) |
| `Sanitize.Truncate` | app.py:26 | the first n characters, or the whole text when shorter |
| `Sanitize.SanitizeFilename` | app.py:23-26 | the public stem has only characters of [a-z0-9_.-], at most 100 of them, and does not end with `_` or `.` |
| `Sanitize.Collapse` | app.py:25 | replacing each run of disallowed characters by `_` leaves only allowed characters and never lengthens the text |
| `Sanitize.TrimTrailing` | app.py:26 | the right-strip of `_` and `.` yields a prefix that ends with neither |
| `Sanitize.CollapseKeepsSafe` | app.py:25 | the substitution leaves a text of allowed characters unchanged |
| `Sanitize.StripKeepsSafe` | app.py:24 | stripping whitespace leaves a text of allowed characters unchanged |
| `Sanitize.SanitizeFixedPoints` | app.py:23-26 | a name is left unchanged by the sanitiser if and only if it is a safe name (alphabet, length, ending) |
| `Sanitize.SanitizeIdempotent` | app.py:23-26 | sanitising a sanitised name returns it unchanged |
| `Sanitize.NoAllowedCharacterGivesEmpty` | app.py:23-26 | a title none of whose lower-cased characters is in [a-z0-9_.-] sanitises to the empty stem |
| `Sanitize.JapaneseTitleGivesEmpty` | app.py:23-26 | a two-character Japanese title sanitises to the empty stem |
| `Formats.CheckAvailable` | app.py:47-53 | the answer is refused exactly when it is a bare URL reference, a live stream or lists no formats; otherwise the route works on its non-empty format list |
| `Formats.Usable` | app.py:61-66 | a format is kept only when it has a non-zero height, a non-empty extension and a non-empty video codec other than "none" |
| `Formats.HdIndices` | app.py:60-82 | every position collected for the HD list holds a first occurrence of its (height, ext) pair with height at least 720 |
| `Formats.HdIndicesExact` | app.py:60-82 | the HD list holds exactly the de-duplicated formats of 720p and above, in input order |
| `Formats.HdKeysDistinct` | app.py:68-71 | no two HD entries share a (height, ext) pair |
| `Formats.BestLow` | app.py:83-85 | the fallback, when there is one, is a usable format of positive height below 720 |
| `Formats.BestLowExact` | app.py:81-85 | the fallback is missing only when no usable format lies strictly between 0 and 720; otherwise it is the first of greatest height among them |
| `Formats.SelectVideo` | app.py:87-104 | the video outcome: the HD list when it is non-empty, else the fallback format alone, else no usable format |
| `Formats.SelectVideoUsable` | app.py:61-85 | every reported video entry has a height, an extension and a codec other than "none", and is the entry of a first-occurrence input format (of 720p or above in the HD list, strictly between 0 and 720 for the fallback) |
| `Formats.SelectVideoCases` | app.py:87-104 | the HD list is reported exactly when some de-duplicated format is 720p or above; the error exactly when there is neither an HD nor a low format |
| `Formats.FilterVideo` | app.py:54-104 | the loop with `seen`, `filtered_hd`, `best_format` and `max_height` reports what `SelectVideo` specifies |
| `Formats.AudioEligible` | app.py:111-116 | an audio candidate has extension mp3, m4a or webm, video codec "none" and a positive bitrate (a zero or negative one never beats the starting best of 0) |
| `Formats.BestAudio` | app.py:110-123 | the picked position, when there is one, holds an mp3/m4a/webm audio-only stream with a positive bitrate |
| `Formats.BestAudioExact` | app.py:110-129 | nothing is picked exactly when no stream is eligible; otherwise the pick has a bitrate no eligible stream exceeds and strictly above every earlier eligible one (the first wins ties) |
| `Formats.BestAudioUnique` | app.py:116 | at most one position is the first of the highest bitrate |
| `Formats.AudioChoice` | app.py:125-135 | the audio outcome: the entry of the picked stream, or nothing when no stream was picked |
| `Formats.PickAudio` | app.py:106-129 | the loop with `best_audio` and `best_bitrate` reports what `AudioChoice` specifies: the picked stream labelled "MP3", or nothing |
| `Formats.Download` | app.py:29-135 | a missing URL, a resolver failure, an unavailable answer, no usable video, no audio and an unknown type each give their own error; otherwise the listing of the requested kind |
| `Progress.TotalOf` | app.py:168 | the total used for the percentage is always positive |
| `Progress.Percent` | app.py:168-170 | the recorded percentage is the floor of downloaded * 100 / total; it is at most 100 exactly when downloaded * 100 < 101 * total, so whenever no more than the total was downloaded, and at least 100 once the whole total was |
| `Progress.AfterHook` | app.py:167-173 | one hook call: "downloading" stores the percentage for the job, "finished" stores 100, anything else leaves the store |
| `Progress.ProgressStore.constructor` | app.py:17 | the store starts empty |
| `Progress.ProgressStore.Hook` | app.py:165-173 | "downloading" sets the job's entry to the percentage, "finished" sets it to 100, any other status changes nothing, and no other key changes |
| `Progress.ProgressStore.Get` | app.py:234-240 | an unknown id reads 0 and a known one its stored value; the store is not modified |
| `Progress.HooksTouchOnlyJob` | app.py:165-173 | over any sequence of hook calls, entries of other jobs are neither added, removed nor changed |
| `Progress.LastHookDecides` | app.py:167-173 | after a final "finished" call the job reads 100; after a final "downloading" call it reads that call's percentage; another status leaves the store as before |
| `Progress.HooksStayInRange` | app.py:167-173 | the entry stays within 0..100 provided every "downloading" call reports no more bytes than its total |
| `Progress.ProgressCanDecrease` | app.py:165-178 | a second download pass after "finished" lowers the entry from 100 |
| `Folder.DownloadFolder.Write` | app.py:186-188 | the downloader creates or overwrites the temporary file |
| `Folder.DownloadFolder.Exists` | app.py:217 | `os.path.exists`: the name is in the directory |
| `Folder.DownloadFolder.Remove` | app.py:218 | `os.remove` deletes the name and fails when it is missing |
| `Folder.DownloadFolder.Rename` | app.py:219 | `os.rename` moves the contents to the target, replacing it, and fails without change when the source is missing |
| `Folder.DownloadFolder.MoveIntoPlace` | app.py:216-223 | the public name then holds the former temporary contents, the temporary name is gone and nothing else changes; it fails exactly when the temporary file is missing or has the public name |
| `Folder.DownloadFolder.EncodeInto` | app.py:204-215 | once the encoder has run, its output, if any, lands at the public name, then the temporary file is removed whether or not it wrote anything |
| `Combine.Complete` | app.py:149 | a request goes ahead only when both url and format_id are present and non-empty |
| `Combine.WantsVideo` | app.py:146 | type defaults to "video"; every other value is handled as audio (mp3, raw selector, no probe) |
| `Combine.TitleOf` | app.py:158 | the title is never empty: the resolver's title when it has a non-empty one, "video" otherwise |
| `Combine.Extension` | app.py:160 | mp4 for a video job, mp3 otherwise |
| `Combine.TempName` | app.py:162 | the temporary file is `{id}_original.{ext}` |
| `Combine.FinalName` | app.py:163 | the public file is `{stem}.{ext}` |
| `Combine.FormatSelector` | app.py:178 | a video job asks for the chosen format followed by `+bestaudio/best`; an audio job asks for the format id unchanged |
| `Combine.PlanJob` | app.py:147-178 | the job is a video job iff type is "video" or absent; the extension is mp4 for video and mp3 otherwise; the ceiling defaults to 1080; the temporary name is `{id}_original.{ext}`; the selector is `FormatSelector` of the format id; the public name is the sanitised title plus the extension, has no path separator, and equals the temporary name only for a title that sanitises to `{id}_original` |
| `Combine.NamesCollide` | app.py:162-163 | the temporary and public names coincide if and only if the sanitised title is the job id followed by `_original` |
| `Combine.FinalNameStaysInFolder` | app.py:159-163 | a public name built from a sanitised stem contains no `/` |
| `Combine.ShouldTranscode` | app.py:201-203 | re-encode iff the probed height is strictly above the ceiling and the file holds at least 100 * 1024 * 1024 bytes |
| `Combine.SizeTestExact` | app.py:20-21 | comparing the size in MB (a float) with 100 is exactly comparing the bytes with 100 * 1024 * 1024 |
| `Combine.TranscodeQuadrants` | app.py:203 | with ceiling 1080: 1440p at 150 MB is re-encoded; 1440p at 50 MB, 720p at 150 MB and 1080p at 150 MB are not |
| `Combine.LastWriterWins` | app.py:216-223 | two jobs publishing under the same name leave one file there with the second job's content and neither temporary file |
| `Combine.StaleFileSurvivesFailedEncode` | app.py:203-215 | when the encoder writes nothing, a file already at the public name survives and the temporary file is gone |
| `Combine.UnnamedTitlesShareOneFile` | app.py:158-163 | any two titles with no character the sanitiser keeps publish under the same name `.{ext}`, whatever the job ids |
| `Combine.Combine` | app.py:141-231 | missing parameters or a resolver failure change nothing. The job's progress entry follows the hook calls. A failed download leaves the directory unchanged. A failed probe, or an encoder that cannot be started, reports its error and leaves the temporary file. Re-encoding happens iff height > ceiling and size >= 100 MB; once the encoder ran, success is reported and the temporary file is gone. A pass-through publishes the temporary contents under the public name. Success returns `/file/{public name}` and the job id |

## Left out

- HTTP plumbing is left out: Flask routing, `request.get_json`, `jsonify`, status codes, CORS and the thumbnail in responses. Only the outcome and the title are modelled.
- yt-dlp is a foreign library. The resolver and the downloader are function parameters. Download options other than the selector and the container are not modelled, including `noplaylist` and `nocheckcertificate`. Partial files that a failed download may leave are not modelled either.
- ffprobe and ffmpeg are external processes. Their answers are parameters: the probed height, or None when the JSON lacks a height, and the encoder's outcome: `NotStarted` when ffmpeg cannot be started (the call raises), otherwise `Ran` with its output, or None when it writes nothing. The scale filter, CRF 23, the `fast` preset and 192k AAC are not modelled.
- `progress_lock` and concurrency across requests are left out. The model is sequential, and the lock only serialises single map operations.
- `uuid.uuid4()` is left out: the job id is a parameter.
- `Progress.Percent`: uses the exact floor of downloaded * 100 / total. The source computes `int(downloaded / total * 100)` in floating point, which can come out one lower (29 bytes of 100 gives 28.999… and so 28).
- `Sanitize.SanitizeFilename`: `lower()` is modelled on the ASCII letters only. Unicode case mappings that produce ASCII are not modelled, for example KELVIN SIGN to `k`. Stripping uses Python's full whitespace set.
- `Formats.FilterVideo`: the `"resolution"` string (`f"{height}p"`) is not built because it is determined by `height`. The fallback message is represented by the listing's `hdAvailable` flag.
- `Formats.PickAudio`: the bitrate `abr` is an integer rather than a float.
- A format without `format_id` is left out. The source would raise `KeyError` and answer with a generic error.
- `int(data.get("compress_to", 1080))` failing on a non-integer value is left out. `compress_to` is an optional integer.
- A JSON `null` for `type` or `title` is not told apart from an absent key.
- `Formats.Download`: for a type other than "video" or "audio" the route returns nothing and the web framework answers with its own server error; the model reports `UnknownType` in its place.
- `serve_file` and `os.makedirs` are left out: a static file responder and start-up I/O.
