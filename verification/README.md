# In-browser file converter: a Dafny model

This project models the conversion queue of the converter page
`src/app/open-source-apps/file-converter/page.tsx`. The page accepts video, audio
and image files and routes each to one of two backends: a WebAssembly
transcoding engine (FFmpeg) for audio and video, or a canvas raster pipeline
for images, with a HEIC/HEIF normalisation step first. It tracks every queued
item through `pending → converting → complete | error` and offers the results
for download.

The model is functional. Items are immutable records kept in a `seq<Item>`,
and every page operation is a pure function from the queue to the next queue.
`convertAll` is a method that folds `convertFile` over the selected items.

| module | file | models |
|---|---|---|
| `Wrappers` | `wrappers.dfy` | `Option` and `Result` |
| `Text` | `text.dfy` | `split(".")` with `pop()` and `[0]`, ASCII `toLowerCase`, integers in template literals |
| `Media` | `media.dfy` | bytes, source files, blobs, decoded sizes |
| `Registry` | `registry.dfy` | `conversionFormats`, `getFileCategory`, the two output MIME tables |
| `Classifier` | `classifier.dfy` | `isHeicFileByType`, `getEffectiveMimeType`, the submission filter |
| `Command` | `command.dfy` | the FFmpeg argument list built in `convertMedia` |
| `Queue` | `queue.dfy` | the item record, `updateFile`, `handleDimensionChange`, `removeFile`, `toggleSettings`, `addFiles`, `resetAll`, the download names |
| `Backends` | `backends.dfy` | `convertImage` and `convertMedia`, as written and corrected |
| `Conversion` | `conversion.dfy` | `convertFile` and `convertAll` |

The browser is not modelled. Everything it contributes is a parameter: the
HEIC converter, image decoding, canvas encoding, FFmpeg loading, writing and
running, the last progress event and `URL.createObjectURL`. Each one is the
outcome it produced (`ImagePlatform`, `MediaPlatform`, `Platform`). Item ids,
which the page draws from `Math.random`, are inputs as well. The engine is
`Engine(loaded, files)`: whether `ffmpegRef.current` is set, and which names
its virtual file system holds.

Where the code may surprise a reader, the model follows the code:
- Some types are classified but have no registry entry. `video/ogg` is
  classified as video, yet it has no entry and is refused at submission
  (`Registry.ClassifiedButUnregistered`).
- `convertFile` routes by the declared `file.type`, not by the effective type.
  A `.heic` file with no declared type is accepted as `image/heic` but is
  classified `unknown`, so it goes to the transcoder
  (`Classifier.UntypedHeicPhoto`, `Conversion.RoutesToImage`). Its
  preselected format is `jpg`, and the transcoder types a `jpg` result as
  `application/octet-stream`, a type the registry does not hold
  (`Conversion.UntypedHeicTranscoded`).
- A successful retry does not clear `errorMessage`. Nothing in the model
  requires the message to be empty outside the error state.
- Starting a new conversion does not release an earlier result or its object
  URL. Only `removeFile` and `resetAll` revoke URLs.
- Transcoder scratch files are deleted only on the success path. See
  "## Findings".
- The unmount cleanup revokes no URL, because it reads the queue of the
  first render. See "## Findings".

## Model

| member | source | states |
|---|---|---|
| Registry.Formats | src/app/open-source-apps/file-converter/page.tsx:31-55 | The lookup is non-empty exactly for the registered input types and then is their ordered list of outputs. |
| Registry.DefaultFormat | src/app/open-source-apps/file-converter/page.tsx:208 | The preselected format is the first registry entry, which is one of the allowed formats; an unregistered type gets `jpg`. |
| Registry.GetFileCategory | src/app/open-source-apps/file-converter/page.tsx:84-89 | Video, audio and image hold exactly for the `video/`, `audio/` and `image/` prefixes, and unknown holds exactly when none of them matches. |
| Registry.ImageOutputMime | src/app/open-source-apps/file-converter/page.tsx:291-304 | A format in the table (`jpg` and `jpeg` to `image/jpeg`, `ico` to `image/x-icon`, and so on) is asked for as the table's type; any other format falls back to `image/<format>`. The type always starts with `image/`. |
| Registry.MediaOutputMime | src/app/open-source-apps/file-converter/page.tsx:412-428 | A transcoded blob gets the generic binary type exactly when its format is missing from the table; otherwise it gets the table's type. |
| Registry.RegistryEntriesUsable | src/app/open-source-apps/file-converter/page.tsx:31-55 | Every registered type has a non-empty list, is classified as video, audio or image, and is an image type exactly when its list is the raster list. |
| Registry.MediaDefaultRoundTrip | src/app/open-source-apps/file-converter/page.tsx:32-41 | For each audio and video type, converting to its default format gives a blob of that same type. |
| Registry.MediaEntries | src/app/open-source-apps/file-converter/page.tsx:32-41 | Every format offered for an audio or video type is in the transcoder's MIME table, and the first one maps back to the input type. |
| Registry.OutputsAreRegistered | src/app/open-source-apps/file-converter/page.tsx:291-304 | For a registered type and an allowed format, the type requested for the output under that type's own category is registered again. It speaks about registry entries, not about what the page routes: routing is by the declared type (see `Conversion.ConvertedOutputRegistered`). |
| Conversion.ConvertedOutputRegistered | src/app/open-source-apps/file-converter/page.tsx:436-452 | When a valid item's declared type is registered and the canvas returns the requested type or PNG, a converted blob's type is registered, so the output can be resubmitted. |
| Conversion.UntypedHeicTranscoded | src/app/open-source-apps/file-converter/page.tsx:187-208 | An untyped `stem.HEIC` is accepted, preselects `jpg`, and is sent to the transcoder, whose result is typed `application/octet-stream`, which the registry does not hold. |
| Registry.ClassifiedButUnregistered | src/app/open-source-apps/file-converter/page.tsx:84-89 | `video/ogg` classifies as video but has no registry entry. |
| Text.Split | src/app/open-source-apps/file-converter/page.tsx:93 | `split` never returns an empty list, no segment contains the separator, and joining the segments gives the string back. |
| Text.SplitJoin | src/app/open-source-apps/file-converter/page.tsx:93 | Splitting the join of separator-free segments recovers those segments. |
| Text.LastSegment | src/app/open-source-apps/file-converter/page.tsx:359 | `split(".").pop()` is the longest dot-free suffix, preceded by a dot unless it is the whole string. |
| Text.FirstSegment | src/app/open-source-apps/file-converter/page.tsx:489 | `split(".")[0]` is the longest dot-free prefix, followed by a dot unless it is the whole string. |
| Text.LastSegmentAfterSep | src/app/open-source-apps/file-converter/page.tsx:359 | After a dot, a dot-free tail is the last segment, whatever comes before it. |
| Text.FirstSegmentBeforeSep | src/app/open-source-apps/file-converter/page.tsx:489 | A dot-free head before a dot is the first segment, whatever follows it. |
| Text.ToLower | src/app/open-source-apps/file-converter/page.tsx:93 | Lower-casing works character by character, keeps the length, and changes only `A`–`Z`. |
| Text.IntToString | src/app/open-source-apps/file-converter/page.tsx:386 | The decimal text of an integer starts with `-` exactly when it is negative, and the rest is a non-empty run of digits with no leading zero. |
| Text.ParseIntToString | src/app/open-source-apps/file-converter/page.tsx:386 | The decimal text of an integer in a template literal reads back as that integer. |
| Classifier.ExtensionOf | src/app/open-source-apps/file-converter/page.tsx:93 | The extension of `stem.ext` is the lower-cased `ext`, whatever dots the stem holds. |
| Classifier.Extension | src/app/open-source-apps/file-converter/page.tsx:93 | The extension never holds a dot, and a name without a dot is its own extension, lower-cased (`split` yields the whole name). |
| Classifier.HeicByNameOrType | src/app/open-source-apps/file-converter/page.tsx:92-98 | A file named `stem.ext` is treated as HEIC exactly when it declares `image/heic` or `image/heif`, or `ext` is `heic` or `heif` in any letter case, whatever the stem. |
| Classifier.GetEffectiveMimeType | src/app/open-source-apps/file-converter/page.tsx:187-192 | A declared type is kept. With no declared type, the result is `image/heic` exactly for a `.heic`/`.heif` extension, and empty otherwise. |
| Classifier.AcceptsCharacterized | src/app/open-source-apps/file-converter/page.tsx:196-200 | A file passes the filter exactly when its declared type is registered, or when it declares no type and has a HEIC/HEIF extension. |
| Classifier.EffectiveHeicIsHeic | src/app/open-source-apps/file-converter/page.tsx:92-98 | An effective type of `image/heic` implies HEIC treatment; an untyped file treated as HEIC has effective type `image/heic`. |
| Classifier.UntypedHeicPhoto | src/app/open-source-apps/file-converter/page.tsx:187-192 | An untyped `stem.HEIC` is accepted as `image/heic` and treated as HEIC, yet its declared type is classified unknown. |
| Command.BuildCommand | src/app/open-source-apps/file-converter/page.tsx:370-407 | The command starts with `-i input_<id>.<last extension>` and ends with `output_<id>.<format>`. |
| Command.InputName | src/app/open-source-apps/file-converter/page.tsx:359 | The input name keeps the file name's last extension; with a dot-free id it splits on dots into exactly `input_<id>` and that extension. |
| Command.OutputName | src/app/open-source-apps/file-converter/page.tsx:360 | With a dot-free format the output name's extension is the format; with a dot-free id and format it splits on dots into exactly `output_<id>` and the format. |
| Command.CommandShape | src/app/open-source-apps/file-converter/page.tsx:377-405 | Audio targets carry `-vn` and never `-vf`. `aac` and unknown targets add nothing. Video containers get `-vf scale=W:H` exactly for custom dimensions, then their codecs. `gif` gets its filter and `-loop 0`. |
| Command.ScaleArgs | src/app/open-source-apps/file-converter/page.tsx:373-374 | The resize pair is present exactly when all four dimensions are truthy and the target differs from the original. |
| Command.FormatArgs | src/app/open-source-apps/file-converter/page.tsx:377-405 | `mp3` gives `-vn -acodec libmp3lame -q:a 2`, `wav` gives `-vn -acodec pcm_s16le`, and `ogg` gives `-vn -acodec libvorbis -q:a 4`. A video container gives the resize pair followed by its codecs, and `gif` gives its filter and `-loop 0`. An unknown target, `aac` included, adds nothing. |
| Command.GifWidth | src/app/open-source-apps/file-converter/page.tsx:388 | The GIF width is the target width when truthy, else 480. |
| Command.CodecArgs | src/app/open-source-apps/file-converter/page.tsx:384-405 | `webm` uses `libvpx` and `libvorbis`, `mp4` and `mov` use `libx264` and `aac`, and `avi` uses `mpeg4` and `mp3`, each as `-c:v V -c:a A`, with no filter and no `-vn`. |
| Command.AudioIgnoresDimensions | src/app/open-source-apps/file-converter/page.tsx:377-383 | For audio targets and `aac`, the command does not depend on any dimension field. |
| Command.NoOpScaleAvoided | src/app/open-source-apps/file-converter/page.tsx:373-374 | An item left at its original size never gets `-vf`, except for the GIF filter. |
| Command.ScaleFilterRoundTrip | src/app/open-source-apps/file-converter/page.tsx:386 | The `scale=W:H` text reads back as exactly `(W, H)`. |
| Command.ScopedNamesDistinct | src/app/open-source-apps/file-converter/page.tsx:359-360 | Distinct dot-free ids give distinct input and output names, and no input name equals any output name. |
| Queue.Apply | src/app/open-source-apps/file-converter/page.tsx:239 | Each field the patch sets takes the patch's value, and each field it leaves out keeps the item's value. The id, the file and the originals never change, and the empty patch changes nothing. |
| Queue.ApplyLaws | src/app/open-source-apps/file-converter/page.tsx:238-240 | Spreading two patches in turn equals spreading their merge; the empty patch is the identity; patches are idempotent; the id, file and originals are never touched. |
| Queue.UpdateFile | src/app/open-source-apps/file-converter/page.tsx:238-240 | Items with the id are patched, the others are kept, and the ids stay in place. |
| Queue.UpdateLaws | src/app/open-source-apps/file-converter/page.tsx:238-240 | Two updates of one id compose into one, and an update for an id that is not queued changes nothing. |
| Queue.SelectFormatKeepsValid | src/app/open-source-apps/file-converter/page.tsx:674-678 | Picking a format the registry offers sets it on the matching items, changes nothing else, and keeps every item valid. |
| Queue.ToggleSettings | src/app/open-source-apps/file-converter/page.tsx:273-277 | Each item keeps every field but `showSettings`, and that flag changes exactly on the items with the given id. |
| Queue.ToggleTwice | src/app/open-source-apps/file-converter/page.tsx:273-277 | Toggling the same id twice gives back the queue. |
| Queue.RoundDiv | src/app/open-source-apps/file-converter/page.tsx:254-256 | The result is the nearest integer to the quotient, with halves rounded up, as `Math.round` does. |
| Queue.RoundDivExact | src/app/open-source-apps/file-converter/page.tsx:254-256 | An exact quotient rounds to itself. |
| Queue.Resize | src/app/open-source-apps/file-converter/page.tsx:245-257 | The edited dimension takes the value. Under the lock, the other dimension is the value scaled by the original ratio and rounded. Without it, the other is kept. Nothing else changes. |
| Queue.HandleDimensionChange | src/app/open-source-apps/file-converter/page.tsx:243-259 | Matching items are resized and all others are unchanged. |
| Queue.DimensionChangeKeepsValid | src/app/open-source-apps/file-converter/page.tsx:243-259 | Editing a dimension keeps a valid queue valid. |
| Queue.AspectRoundTrip | src/app/open-source-apps/file-converter/page.tsx:251-257 | Under the lock, a width whose rescaled height is exact round-trips: setting the produced height gives the same width back. |
| Queue.AspectExample | src/app/open-source-apps/file-converter/page.tsx:251-257 | At 1920×1080, width 960 gives height 540, and height 540 gives width 960 back. |
| Queue.Without | src/app/open-source-apps/file-converter/page.tsx:268 | The filtered queue holds exactly the items whose id differs. |
| Queue.Find | src/app/open-source-apps/file-converter/page.tsx:264 | `find` returns the first item with the id: it is the item at the first matching position, it is absent exactly when no item has the id, and what it returns is queued with that id. |
| Queue.RemoveFile | src/app/open-source-apps/file-converter/page.tsx:262-270 | Removal filters every item with the id out, and revokes exactly the URL of the first match when that URL is non-empty. With no match nothing is revoked. |
| Queue.CollidingIdsRemoval | src/app/open-source-apps/file-converter/page.tsx:262-270 | With two items sharing an id, removal drops both but revokes only the first one's URL; the second's stays unrevoked. |
| Queue.RemoveExactlyOne | src/app/open-source-apps/file-converter/page.tsx:262-270 | With unique ids, removal deletes exactly that position, keeps the rest in order, and revokes its URL, which a complete valid item always has. |
| Queue.WithoutAt | src/app/open-source-apps/file-converter/page.tsx:268 | With unique ids, filtering out the id of position `k` removes just that position. |
| Queue.FindFirst | src/app/open-source-apps/file-converter/page.tsx:264 | With unique ids, `find` returns the item at the id's position. |
| Queue.HeldUrls | src/app/open-source-apps/file-converter/page.tsx:502-506 | A URL is collected exactly when some item holds it and it is non-empty. |
| Queue.ResetAll | src/app/open-source-apps/file-converter/page.tsx:501-508 | The queue becomes empty, and the revoked URLs are exactly the non-empty URLs the items hold (`HeldUrls`): every complete item's URL is among them, and the empty string never is. |
| Queue.UnmountCleanupAsWritten | src/app/open-source-apps/file-converter/page.tsx:510-519 | The unmount cleanup as written revokes nothing: its callback sees the queue of the first render, which is empty (page.tsx:75). |
| Queue.UnmountCleanup | src/app/open-source-apps/file-converter/page.tsx:510-519 | The cleanup as intended revokes every non-empty URL the current queue holds, never the empty string, and the same set `resetAll` revokes. |
| Queue.UnmountLeaksUrls | src/app/open-source-apps/file-converter/page.tsx:510-519 | An item holding a URL at unmount keeps it unrevoked as written, and has it revoked by the corrected cleanup. |
| Queue.ProbeDimensions | src/app/open-source-apps/file-converter/page.tsx:101-149 | Images and videos (by effective type) report the decoded size, or nothing when decoding failed; all other files report nothing. |
| Queue.NonZero | src/app/open-source-apps/file-converter/page.tsx:209-212 | `n \|\| null` is absent exactly for zero and otherwise holds `n`. |
| Queue.NewItem | src/app/open-source-apps/file-converter/page.tsx:202-222 | A new item is fresh and valid: pending at 0 with no result, the lock on, the first registry format, and targets equal to the probed originals with 0 as unknown. |
| Queue.Admit | src/app/open-source-apps/file-converter/page.tsx:196-200 | Every admitted file passes the filter. |
| Queue.AdmitExactly | src/app/open-source-apps/file-converter/page.tsx:196-200 | Admitted and refused files together are the offered ones, counting repeats, and a file is admitted exactly when it is offered and accepted. |
| Queue.AdmitAppend | src/app/open-source-apps/file-converter/page.tsx:196-200 | Filtering a concatenation filters each part, keeping the order. |
| Queue.NewItems | src/app/open-source-apps/file-converter/page.tsx:202-223 | One new item per admitted file, in the order offered. |
| Queue.AddFiles | src/app/open-source-apps/file-converter/page.tsx:195-224 | The old queue is an unchanged prefix; the admitted files follow as fresh, valid items in order; a valid queue stays valid. |
| Queue.DownloadName | src/app/open-source-apps/file-converter/page.tsx:484-493 | There is no download without a URL. Otherwise the name's first segment is the file name's first segment and its last is the format; with a dot-free format, the name is exactly `<stem>.<format>`. |
| Queue.Completed | src/app/open-source-apps/file-converter/page.tsx:497 | The completed list holds exactly the queue's complete items, and no more than the queue. |
| Queue.CompletedOne | src/app/open-source-apps/file-converter/page.tsx:497 | A lone item is kept exactly when it is complete. |
| Queue.CompletedAppend | src/app/open-source-apps/file-converter/page.tsx:497 | The complete items of a concatenation are those of each part, in order, so `filter` keeps queue order and counts. |
| Queue.DownloadAll | src/app/open-source-apps/file-converter/page.tsx:496-498 | At most one download per complete item. |
| Queue.DownloadOne | src/app/open-source-apps/file-converter/page.tsx:484-498 | A lone item is downloaded, under its download name, exactly when it is complete and holds a URL; otherwise it is skipped. |
| Queue.DownloadAllAppend | src/app/open-source-apps/file-converter/page.tsx:496-498 | Downloading a concatenation downloads each part in turn, so downloads follow queue order. |
| Queue.DownloadAllNames | src/app/open-source-apps/file-converter/page.tsx:484-498 | In a valid queue, one download per complete item in queue order, each named as `downloadFile` names it. |
| Backends.Message | src/app/open-source-apps/file-converter/page.tsx:465 | An `Error` shows its message; any other thrown value shows "Conversion failed". |
| Backends.CanvasSize | src/app/open-source-apps/file-converter/page.tsx:321-322 | Each canvas side is the target when truthy, else the decoded natural size. |
| Backends.Draw | src/app/open-source-apps/file-converter/page.tsx:324-341 | A blob is exactly what the encoder returned at the canvas size for the requested type, and under the canvas rule its type is the requested one or PNG. An empty encoding fails with "Failed to convert image". |
| Backends.ConvertImage | src/app/open-source-apps/file-converter/page.tsx:307-348 | A HEIC failure propagates. A decode failure gives "Failed to load image". Otherwise the result is the canvas draw of the decoded image at the canvas size for the image MIME type. It succeeds exactly when there is no HEIC failure, the image decodes and the encoder returns a blob, and the blob is typed as requested or as PNG under the canvas rule. |
| Backends.ConvertMediaAsWritten | src/app/open-source-apps/file-converter/page.tsx:351-429 | If the engine is not loaded and cannot load, the result is "Failed to load conversion engine." and no change. Once loaded it stays loaded. A write failure rejects with the thrown value; otherwise a run failure rejects with the run's thrown value. It succeeds exactly when the engine is or can be loaded, the write succeeds and the run succeeds, with the run's output typed by the media table. When the run fails after a successful write, the file system keeps the input name. |
| Backends.FailedRunLeaksInput | src/app/open-source-apps/file-converter/page.tsx:409-426 | As written, a failing run leaves the scoped input file in the engine's file system. |
| Backends.LeakExample | src/app/open-source-apps/file-converter/page.tsx:409-426 | As written, from an empty file system, one failing run leaves it non-empty. |
| Backends.ConvertMedia | src/app/open-source-apps/file-converter/page.tsx:351-429 | The same results as `ConvertMediaAsWritten` (load failure, write failure, run failure, and success exactly when all three steps succeed), except that whenever the engine loads, the file system ends without this item's two scoped names and never grows. |
| Backends.MediaVersionsAgree | src/app/open-source-apps/file-converter/page.tsx:351-429 | The corrected and the as-written transcode give the same result and the same loaded flag. |
| Backends.MediaResultLoadOnly | src/app/open-source-apps/file-converter/page.tsx:351-355 | The transcode's result depends on the engine only through whether it is or can be loaded; an engine that cannot load gives "Failed to load conversion engine.". |
| Conversion.ImageOutcome | src/app/open-source-apps/file-converter/page.tsx:439-447 | A raster attempt converts exactly when `convertImage` resolves, and a failure is shown at 90%. |
| Conversion.MediaOutcome | src/app/open-source-apps/file-converter/page.tsx:448-452 | A transcode attempt converts exactly when `convertMedia` resolves. A failure is shown at the last reported percentage, or 0. |
| Conversion.Attempt | src/app/open-source-apps/file-converter/page.tsx:436-452 | A declared image goes to the raster path and leaves the engine alone; anything else is transcoded. A transcoded blob carries the media table's type; a raster blob carries the requested image type or PNG under the canvas rule. |
| Conversion.Settle | src/app/open-source-apps/file-converter/page.tsx:455-466 | A converted item is complete at 100% with its blob and URL; a failed one is in error with the thrown value's message and keeps its previous result. Only the status, progress, blob, URL and message can change; every other field is kept. |
| Conversion.SettleKeepsValid | src/app/open-source-apps/file-converter/page.tsx:455-467 | Settling a valid item that was not complete keeps it valid. |
| Conversion.BeginConversion | src/app/open-source-apps/file-converter/page.tsx:433 | Each matching item is its previous self, converting at 0%, and the others are untouched. |
| Conversion.ShowProgress | src/app/open-source-apps/file-converter/page.tsx:441-444 | After the progress updates, the matching items show the last percentage and the others are untouched. |
| Conversion.ImageUpdates | src/app/open-source-apps/file-converter/page.tsx:440-447 | The raster path's updates leave the matching items settled by the raster outcome and the others untouched. |
| Conversion.MediaUpdates | src/app/open-source-apps/file-converter/page.tsx:448-452 | The transcode path's updates leave the matching items settled by the transcode outcome and the others untouched. |
| Conversion.ConvertFile | src/app/open-source-apps/file-converter/page.tsx:432-468 | Every item with the id ends settled by the attempt's outcome, every other item is untouched, and the engine ends as the attempt leaves it. |
| Conversion.ConvertFileSettles | src/app/open-source-apps/file-converter/page.tsx:432-468 | The item ends complete (at 100%, with its blob and URL) exactly when the attempt converted. Otherwise it ends in error with the thrown message, at 90% on the raster path. Only the status, progress, blob, URL and message can change. |
| Conversion.OutcomeDependsOnLoadOnly | src/app/open-source-apps/file-converter/page.tsx:152-153 | The outcome depends on the engine only through whether it is loaded. Success on an unloaded engine implies the same success on a loaded one, and failure on a loaded one implies failure on any. |
| Conversion.Selected | src/app/open-source-apps/file-converter/page.tsx:474 | The snapshot holds only pending and failed items, in queue order, and no more than the queue. |
| Conversion.SelectedOne | src/app/open-source-apps/file-converter/page.tsx:474 | A single item is kept exactly when it is pending or failed. |
| Conversion.SelectedAppend | src/app/open-source-apps/file-converter/page.tsx:474 | Selecting from a concatenation concatenates the selections, so order is kept. |
| Conversion.SelectedCount | src/app/open-source-apps/file-converter/page.tsx:474 | Each pending or failed item occurs in the snapshot exactly as often as in the queue, and every other item never occurs. |
| Conversion.SelectedUnique | src/app/open-source-apps/file-converter/page.tsx:474 | Selection keeps ids unique. |
| Conversion.SelectedIdsExact | src/app/open-source-apps/file-converter/page.tsx:474 | With unique ids, an item's id is selected exactly when the item is pending or failed. |
| Conversion.SelectedIdsCover | src/app/open-source-apps/file-converter/page.tsx:474 | With unique ids, every pending or failed item's id is selected, and no complete item's id is. |
| Conversion.SequentialStep | src/app/open-source-apps/file-converter/page.tsx:476-478 | Each conversion starts after the previous one has settled. |
| Conversion.ConvertStep | src/app/open-source-apps/file-converter/page.tsx:476-478 | Converting the next selected item extends every loop fact to its id. |
| Conversion.ConvertAll | src/app/open-source-apps/file-converter/page.tsx:471-481 | Every selected id ends complete or in error, regardless of the others. Unselected ids are untouched, and the log alternates begin and settle in snapshot order. With unique ids, each selected item is settled by its own attempt on a loaded or an unloaded engine, and the outcome is fixed whenever it does not depend on loading. Complete items are unchanged and validity is kept. The engine's file system never grows under the corrected transcode. With unique ids, each logged settle status is the final status of that item. |

## Left out

- I/O and foreign calls (FFmpeg, heic2any, `Image`, `<video>`, canvas, object URLs) are replaced by the outcomes they produce, given as parameters. Their internals are not modelled.
- Backends.MediaPlatform: the last progress percentage is an input. Nothing ties it to whether the engine actually ran. It is assumed to lie in 0..100, while the page's `Math.round(progress * 100)` (page.tsx:366) is not clamped, so FFmpeg's progress report can show values outside that range.
- Queue.Valid: the progress bound, and "complete means 100%", do not hold in the page once leaked progress listeners (below) overwrite a completed item's progress. The model keeps them because each attempt reports only to its own item.
- Progress listeners that `convertMedia` registers with `ffmpeg.on` are never removed. During later runs, earlier items' listeners keep updating those items' progress. Each attempt is modelled as reporting only to its own item.
- Floating point is left out. The aspect ratio `ow / oh` and `Math.round` are computed exactly on integers, which idealises JavaScript doubles. Integers beyond 2^53 are not modelled.
- `parseInt` of the dimension inputs (page.tsx:741, 773) can yield `NaN`; values are modelled as integers or absent.
- `conversionFormats` is a plain object. Keys inherited from `Object.prototype` (such as `constructor`) are not modelled; the registry is its own keys only.
- The encoder is an oracle returning the browser's blob, or nothing. Which type the browser encodes is assumed only through `Backends.CanvasEncodes`: the requested type, or PNG when the browser cannot encode it, as the HTML Standard's rule for serialising a bitmap to a file says. The quality argument 0.92 and the canvas behaviour for zero or negative sizes are not modelled.
- React state batching and the stale `files` snapshot of `convertAll` are left out. The queue is a value, and `convertAll` folds over a snapshot. The effect machinery itself is left out; the unmount cleanup is modelled as a function of the queue its callback sees.
- `setIsConverting`, drag and drop, and the JSX rendering are left out; they hold no conversion logic.
- `ffmpeg.deleteFile` failures are not modelled; deletions always succeed.
- Conversion.ConvertAll: for an outcome that depends on whether the engine is loaded, the model does not state which of the loaded or unloaded attempt applies; that depends on the items converted before it.
- Conversion.ConvertAll: the file-system bound holds for the corrected transcode only. The transcode as written leaves a failed run's input behind (see "## Findings").
- Text.ToLower: only `A`–`Z` are lowered; JavaScript's `toLowerCase` also lowers non-ASCII letters. This cannot change the HEIC/HEIF decision, because no character other than ASCII `H`, `E`, `I`, `C`, `F` lowers to exactly `h`, `e`, `i`, `c` or `f` (`İ` lowers to two characters).
- Conversion.ConvertAll: the per-item outcome and validity guarantees assume unique ids. `Math.random` ids can collide; in that case only the weaker, id-wise guarantees are stated.
- Conversion.ConvertAll: the platform outcome for an item is a function of the item, so the model does not represent a browser that behaves differently on a later retry within the same call.

## Findings

| source | as written | input that shows it | evidently intended | confidence | as-written member | corrected member |
|---|---|---|---|---|---|---|
| src/app/open-source-apps/file-converter/page.tsx:409-426 | The scoped input and output files are deleted after `readFile` on the success path only. A failing `exec`/`readFile` leaves `input_<id>.<ext>` in the engine's file system. | A loaded engine with an empty file system, a successful write and a failing run: the file system then holds the input name (`Backends.LeakExample`). | The scratch files are removed whether or not the run succeeds. | not executed | Backends.ConvertMediaAsWritten, Backends.FailedRunLeaksInput | Backends.ConvertMedia |
| src/app/open-source-apps/file-converter/page.tsx:510-519 | The cleanup effect has an empty dependency list, so its callback closes over `files` of the first render, the empty initial queue of page.tsx:75. On unmount it revokes no URL. | A queue holding an item whose `convertedUrl` is set at unmount (`Queue.UnmountLeaksUrls`). | Every URL the queue holds at unmount is revoked. | not executed | Queue.UnmountCleanupAsWritten, Queue.UnmountLeaksUrls | Queue.UnmountCleanup |

For the first row, the rest of the model (`Conversion.Attempt`, `Conversion.ConvertFile`,
`Conversion.ConvertAll`) uses the corrected `Backends.ConvertMedia`.
`Backends.MediaVersionsAgree` shows the correction changes nothing the page
displays: the two versions give the same result and the same loaded flag.
