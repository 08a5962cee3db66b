# Animated WebP recompressor: a Dafny model

This project models the core of a small Python tool that recompresses
animated WebP files with Pillow, and the Flask upload handler in front of it:

- `compress_animated_webp` (`Animated_WebP.py`). It opens a file and rejects it unless it is animated. It copies every frame in order and scales each one by `resize_ratio` (truncating to an integer size) unless the ratio is one. It settles one frame duration: the caller's, else the file's own, else 100 ms. It hands the frames to Pillow's WebP writer. Any exception becomes `False`.
- `process_multiple_webp`. It runs the recompressor over every `*.webp` file a glob finds, writing `output_dir/<base name>.webp`, and carries on after failures.
- `allowed_file` and `upload()` (`app.py`). These parse the quality, ratio and duration fields, name each upload `<8-char prefix>_<secure name>` and its result `compressed_<saved name>`, and build one result entry per uploaded file.

Modules:

- `Wrappers`: `Option` and `Result`.
- `PyText`: the string operations the code relies on. These are `rfind`, `lower`, `strip`, `isdigit`, `str(n)` and `int(s)`.
- `PyPath`: POSIX `join`, `basename` and the root part of `splitext`.
- `Pillow`: the collaborators. These are the disk (a class holding a map from path to file), the image handle with its seek cursor, resize, and the WebP writer. The writer is a class that logs the calls it completes; a `Codec` value decides which calls it accepts and what file it writes.
- `AnimatedWebP`: the recompressor and the batch driver.
  - `Recompress` is a function that says what one call does to the disk and why it returns what it returns.
  - `CompressAnimatedWebP` is the imperative method with the frame loop, proved equal to it.
  - `RunBatch`, `ProcessMultipleWebP` and `CompressEach` do the same for the batch.
- `App`: the upload handler.
  - `HandleStep` and `RunUpload` specify it.
  - `HandleFile`, `HandleAll` and `Upload` are the methods proved against them.

The model follows the code on two points a reader might expect otherwise:

- The scaled frame size is `int(width * resize_ratio)`, which truncates toward zero. It is not rounded.
- `compress_animated_webp` reports failure as a plain `False`. It has no tagged error. The `Outcome` datatype records the reason only inside the specification; the method returns a `bool`.

## Model

| member | source | states |
|---|---|---|
| PyText.RFind | app.py:25 | `rsplit(".", 1)` splits at the last '.': the index holds the character, no later index does, -1 when absent |
| PyText.RFindBelow | app.py:25 | the last occurrence below a bound, with the same three facts |
| PyText.TrimLeft | app.py:41 | dropping the leading characters of a class (`lstrip()` for the `isspace()` class) leaves a suffix; every dropped character is in the class and the first kept one is not |
| PyText.TrimRight | app.py:41 | dropping the trailing characters of a class (`rstrip()` for the `isspace()` class) leaves a prefix; every dropped character is in the class and the last kept one is not |
| PyText.ShowNat | app.py:42 | `str(n)` of a natural number is a non-empty run of 0-9 |
| PyText.DecimalValueOfShowNat | app.py:42 | the value of the digits `str(n)` prints is n |
| PyText.IsSpace | app.py:41 | definition: the characters `str.isspace()` accepts, which `strip()` removes |
| PyText.IsIntSpace | app.py:34 | definition: the whitespace `int()` skips around a number: every `isspace()` character except the separators U+001C-U+001F |
| PyText.Strip | app.py:41 | definition: `lstrip()` then `rstrip()`, characterised by `TrimLeft` and `TrimRight` |
| PyText.StripPadded | app.py:41 | stripping gives the same text whatever padding of the stripped class surrounds its argument; this holds for `strip()` and for the whitespace `int()` skips |
| PyText.StripIdempotent | app.py:41 | stripping twice is stripping once |
| PyText.IsDigit | app.py:42 | definition: `str.isdigit()`, non-empty and every character 0-9 or a superscript or subscript digit |
| PyText.ParseInt | app.py:34 | definition: `int(s)` skips surrounding `IsIntSpace` whitespace and accepts one optional sign and 1 to 4300 digits 0-9, and raises otherwise |
| PyText.ParseShowInt | app.py:34 | `int(str(n)) == n` for every integer of at most 4300 digits, negative ones included; longer digit strings are rejected |
| PyText.ParseIntIgnoresPadding | app.py:34 | `int()` gives the same result with any whitespace it skips around the number; on text without U+001C-U+001F it gives the same result on the `strip()`ped text |
| PyText.StripWithoutSeparators | app.py:41-42 | on text without U+001C-U+001F, `strip()` removes exactly what `int()` skips |
| PyText.SeparatorRejected | app.py:34 | a separator U+001C-U+001F at either end makes `int()` raise, whatever the rest of the text is |
| PyText.ParseNegative | app.py:34 | `int()` of a minus sign and digits 0-9 is the negated value, and raises past 4300 digits |
| PyText.ParseDigits | app.py:42 | on `isdigit()` text, `int()` yields the digits' value exactly when they are all 0-9 and at most 4300 of them, and raises otherwise |
| PyPath.Join | Animated_WebP.py:96 | definition: posix `join` of two parts: an absolute second part wins, otherwise one '/' between them |
| PyPath.BaseName | Animated_WebP.py:94 | definition: the text after the last '/' |
| PyPath.SplitExtRoot | Animated_WebP.py:94 | definition: the path without the extension of its last component; a name that is only dots before its last '.' has none |
| PyPath.BaseNameIsLastComponent | Animated_WebP.py:94 | `basename` is the longest '/'-free suffix of the path |
| PyPath.SplitExtRootIsPrefix | Animated_WebP.py:94 | the `splitext` root is a prefix; what it cuts is one '.' and then neither '.' nor '/' |
| PyPath.BaseNameOfJoin | Animated_WebP.py:83 | the base name of `join(dir, name)` is `name` when `name` holds no '/' |
| PyPath.JoinInjective | Animated_WebP.py:96 | joining two relative names onto one directory gives equal paths only for equal names |
| PyPath.SplitExtOfWebPName | Animated_WebP.py:94 | `stem.webp`, with a stem that does not start with '.', has root `stem` |
| Pillow.CopyAt | Animated_WebP.py:29 | definition: the copied frame keeps its index and size, or the copy raises for an undecodable frame |
| Pillow.Resize | Animated_WebP.py:34 | definition: a resize keeps the frame's index and takes the requested size; Pillow raises when either dimension is below 1 |
| Pillow.Disk.Write | app.py:56 | saving a file replaces exactly that path's content |
| Pillow.Disk.Size | Animated_WebP.py:55-56 | `getsize` returns the stored byte count |
| Pillow.Open | Animated_WebP.py:18 | `Image.open` fails exactly when the file is missing or does not decode; otherwise a fresh handle at frame 0 |
| Pillow.ImageHandle.Seek | Animated_WebP.py:28 | `seek(i)` moves the cursor to i |
| Pillow.ImageHandle.Copy | Animated_WebP.py:29 | `copy()` yields the frame under the cursor, or fails when that frame does not decode |
| Pillow.Encoder.Save | Animated_WebP.py:42-52 | the writer either raises and changes nothing, or logs the call and writes the output path |
| AnimatedWebP.TruncDiv | Animated_WebP.py:33 | definition: `int()` of a quotient with a positive divisor, cut toward zero |
| AnimatedWebP.Scaled | Animated_WebP.py:33 | definition: `int(x * resize_ratio)` for a side x and an exact ratio |
| AnimatedWebP.TruncDivBounds | Animated_WebP.py:33 | `int()` of a quotient is the integer part, cut toward zero on both signs |
| AnimatedWebP.ScaledTruncates | Animated_WebP.py:33 | the new frame size n satisfies n·den ≤ x·num < (n+1)·den: the product truncated, not rounded |
| AnimatedWebP.TruncationNotRounding | Animated_WebP.py:33 | half of 7 pixels is 3, a ratio of -1/2 on 3 gives -1, and 0.9 of 100 is 90 |
| AnimatedWebP.FrameAt | Animated_WebP.py:28-34 | definition: one iteration of the frame loop: copy frame i, and resize both sides by `Scaled` unless the ratio is one; None when the copy or the resize raises |
| AnimatedWebP.ExtractPrefix | Animated_WebP.py:26-36 | definition: the frame list after the loop has run for the first k indices, or the index at which it raised |
| AnimatedWebP.ExtractPrefixSpec | Animated_WebP.py:26-36 | the frame loop succeeds exactly when every frame copies and resizes; frame i lands at position i; a failure is reported at the first failing index |
| AnimatedWebP.ExtractAll | Animated_WebP.py:26-36 | the whole loop succeeds exactly when every frame converts, and then its list is the converted frames in source order |
| AnimatedWebP.ExtractFailsAt | Animated_WebP.py:26-36 | once frame i fails after frames 0..i-1 succeeded, the whole loop fails at i |
| AnimatedWebP.ExtractedFrames | Animated_WebP.py:31-36 | the loop yields `n_frames` frames in source order; with ratio one every frame keeps its size, otherwise every frame gets the same truncated scale |
| AnimatedWebP.ResolveDuration | Animated_WebP.py:39 | definition: the caller's duration if given, else `info.get('duration', 100)` |
| AnimatedWebP.ResolveDurationPriority | Animated_WebP.py:39 | duration is the first of the override, the file's `duration` and 100; an override of 0 still wins |
| AnimatedWebP.SaveCallFor | Animated_WebP.py:42-45 | the base frame followed by the appended images is exactly the frame list |
| AnimatedWebP.Recompress | Animated_WebP.py:16-65 | definition: one call's outcome, in the order open, animation check, frame loop, `frames[0]`, save, and the size report. The report reads the input's size after the write and fails on a zero size |
| AnimatedWebP.NotAnimatedRejected | Animated_WebP.py:21-23 | a file without a true `is_animated` is rejected, with no write and no writer call |
| AnimatedWebP.RecompressSucceedsIff | Animated_WebP.py:16-65 | `True` exactly when the file opens, is animated, has a frame, every frame converts on its own (`FrameAt` succeeds for each index), the writer accepts the call built from the converted frames in order, and the input size is non-zero |
| AnimatedWebP.CompressedCall | Animated_WebP.py:42-52 | on success the writer got all frames in order, the resolved duration, the caller's quality unclamped, loop 0, method 6, minimize_size, save_all, WEBP, the output path |
| AnimatedWebP.RecompressWritesOutput | Animated_WebP.py:42-56 | a call writes only its output path; on success both sizes reported are those on disk after the write |
| AnimatedWebP.RecompressReadsOnlyInput | Animated_WebP.py:16-65 | the result depends on the disk only through the input file |
| AnimatedWebP.HalfSizeScenario | Animated_WebP.py:26-52 | three 100x100 frames at ratio 1/2, duration 20, quality 10 reach the writer as three 50x50 frames in order |
| AnimatedWebP.CompressAnimatedWebP | Animated_WebP.py:5-65 | the method returns, writes and calls the writer exactly as `Recompress` specifies |
| AnimatedWebP.OutputPathFor | Animated_WebP.py:93-96 | definition: `join(output_dir, splitext(basename(input))[0] + ".webp")` |
| AnimatedWebP.MatchesWebPGlob | Animated_WebP.py:83 | definition: the names `glob("*.webp")` can return from one directory: ending in ".webp", no '/', and not starting with '.' |
| AnimatedWebP.GlobOutputKeepsName | Animated_WebP.py:83-96 | a name the `*.webp` glob returns is written under the same name in the output directory |
| AnimatedWebP.RunBatch | Animated_WebP.py:92-99 | definition: the batch loop, each file compressed on the disk the previous ones left |
| AnimatedWebP.BatchReportsEveryFile | Animated_WebP.py:92-99 | every found file is processed, in order, with its own output path, whatever happens to the others |
| AnimatedWebP.BatchWritesOnlyOutputs | Animated_WebP.py:92-99 | the batch changes no file other than the output paths |
| AnimatedWebP.BatchIndependence | Animated_WebP.py:92-99 | when no output path is a later input, each file's result equals its result alone on the original disk |
| AnimatedWebP.GlobBatchIndependent | Animated_WebP.py:83-96 | files one glob finds have distinct outputs, none of them a later input |
| AnimatedWebP.ProcessMultipleWebP | Animated_WebP.py:67-99 | the driver leaves the disk, the writer log and the reports `RunBatch` specifies; nothing found means nothing done |
| AnimatedWebP.CompressEach | Animated_WebP.py:92-99 | the loop compresses each file into its output path in order, as `RunBatch` specifies |
| App.AllowedFile | app.py:24-25 | definition: a '.' is present and the text after the last one, lower-cased, is "webp" |
| App.AllowedFileIff | app.py:24-25 | a name is allowed exactly when it ends in '.' plus four characters that lower-case to "webp" |
| App.AllowedFileExamples | app.py:24-25 | "x.WEBP" and ".webp" are allowed; "webp" and "x.webp.png" are not |
| App.QualityFieldSeparator | app.py:33-36 | a quality field with U+001C-U+001F before or after the number falls back to 80 |
| App.QualityField | app.py:33-36 | definition: `int()` of the field, 80 when it is missing or `int()` raises |
| App.QualityFieldSpec | app.py:33-36 | quality defaults to 80 when missing, not an integer or over 4300 digits, and any other typed integer is kept unclamped |
| App.RatioField | app.py:37-40 | definition: `float()` of the field (the parameter `parseFloat`), 1 when it is missing or `float()` raises |
| App.DurationText | app.py:41 | definition: `request.form.get("duration", "").strip()` |
| App.DurationFieldAsWritten | app.py:41-42 | definition: the stripped field parsed with `int()` when `isdigit()` holds, None otherwise, and an uncaught raise when `int()` rejects it |
| App.DurationField | app.py:41-42 | the intended parse: what `int()` gives on stripped text of digits 0-9, None for any other text and wherever `int()` raises; never negative |
| App.DurationFieldAsWrittenAgrees | app.py:41-42 | the handler as written raises exactly on `isdigit()` text that is not all 0-9 or is over 4300 digits, and agrees with `DurationField` otherwise |
| App.NonDecimalDurationRaises | app.py:41-42 | a superscript or subscript digit as the duration makes the handler raise |
| App.LongDurationRaises | app.py:41-42 | more than 4300 digits 0-9 as the duration make the handler raise |
| App.DurationFieldExamples | app.py:41-42 | a typed non-negative number of at most 4300 digits comes back as itself; a longer or negative number, an empty field or a missing one gives no override |
| App.ParseForm | app.py:33-42 | definition: the quality, ratio and duration the handler passes on, from `QualityField`, `RatioField` and `DurationField` |
| App.SavedName | app.py:54 | definition: `f"{unique_prefix}_{filename}"` |
| App.OutputName | app.py:58 | definition: `f"compressed_{saved_name}"` |
| App.SavedNamesDistinct | app.py:53-58 | with 8-character prefixes, two saved names (and two output names) are equal only for equal prefix and name |
| App.Accepted | app.py:51 | definition: `file and allowed_file(file.filename)`; an upload without a file name is falsy |
| App.HandleStep | app.py:51-76 | definition: one iteration of the loop: save the upload, compress it, and list the result |
| App.RunUpload | app.py:49-76 | definition: the loop over the uploads in order, each on the disk the previous ones left |
| App.HandleStepEntry | app.py:51-76 | one file's entry. A rejected file gets the invalid-extension error under its own name and the disk is unchanged. An accepted file is `Done` exactly when the compressor returns `True` on the disk with the upload saved, and then carries the `compressed_` name and both files' sizes on the disk afterwards; otherwise "Processing failed" |
| App.HandleStepSaves | app.py:51-61 | one file causes at most one writer call, only when accepted, and only to its own output path |
| App.UploadEntries | app.py:49-76 | one entry per uploaded file, in upload order; entry i is as `HandleStepEntry` describes, on the disk left by files 0..i-1 |
| App.RejectedNeverCompressed | app.py:50-76 | every writer call targets the output path of an accepted upload |
| App.HandleFile | app.py:51-76 | the loop body saves, compresses and records exactly as `HandleStep` specifies |
| App.HandleAll | app.py:49-76 | the loop leaves the disk, the writer log and the entries `RunUpload` specifies |
| App.Upload | app.py:32-78 | no files: redirect with "No file uploaded" and nothing changed; otherwise render the entries `RunUpload` specifies |

## Left out

- App.Upload: parses the duration with the corrected `DurationField`, not the raising parse at app.py:41-42 (see Findings).
- `resize_ratio` is an exact fraction. The model does not capture the floating-point product (`0.29 * 100` truncates to 28 in Python), NaN or infinity from `float()`, or how `float()` parses text. That parse is the parameter `parseFloat`.
- Sizes in the upload entries are bytes. The division by 1024 and `round(..., 2)` at app.py:67-68 are not modelled.
- The recompressor's printed lines are not modelled, apart from the division by a zero original size, which raises and so returns `False`. The batch driver's prints become one `Report` per file. Its "no files found" message becomes an empty result.
- `os.makedirs` and `os.path.exists` (directory creation) are not modelled, because paths are keys of one map.
- The glob's result is an input. Its order comes from the file system. `MatchesWebPGlob` states which names it can return.
- `secure_filename` and `uuid.uuid4().hex[:8]` are inputs. Their internals are Werkzeug's and Python's.
- Flask is not modelled: request and file parsing, `flash`, `redirect`, `render_template`, the `index` and `download_file` routes, `MAX_CONTENT_LENGTH` and app start-up. `run_smoke.py` is not part of this model.
- Pillow's pixels are not modelled. Neither is LANCZOS resampling, nor any change of `info` when seeking: `info` stands for the handle's dictionary as it is at Animated_WebP.py:39, after the last frame was loaded. Which encodes succeed and what they write are the abstract `Codec`.
- The model does not capture a partial output file left by a writer that raises: a raising save changes nothing.
- `int()` is modelled for surrounding whitespace (without U+001C-U+001F), one sign and the digits 0-9. It does not capture underscores between digits or non-ASCII decimal digits, which Python accepts.
- `int()` and `str()` have the 4300-digit limit of Python 3.11 and later, and of the 3.7-3.10 security releases, at its default value. Older Pythons without the limit, and a limit changed with `sys.set_int_max_str_digits`, are not modelled.
- `isdigit()` is modelled for 0-9 and the superscript and subscript digits. Other Unicode digits, such as circled digits, are not modelled.
- `lower()` folds only ASCII capitals. This does not change which names end in "webp", but other non-ASCII case mappings are not modelled.
- `os.path.join` takes one component, the only form the code uses.

## Findings

| source | as written | input that shows it | evidently intended | confidence | as-written member | corrected member |
|---|---|---|---|---|---|---|
| app.py:41-42 | `int(duration_val) if duration_val.isdigit() else None`; `isdigit()` accepts superscript and subscript digits that `int()` rejects, and the ValueError is not caught, so the request fails | duration field "²" (U+00B2) | fall back to no duration override, as for any other non-numeric text (test with `isdecimal()`) | not executed | App.NonDecimalDurationRaises | App.DurationField |
| app.py:41-42 | the same line: `int()` raises on more than 4300 digits, which `isdigit()` lets through, and the ValueError is not caught | duration field of 4301 "1" characters | fall back to no duration override, as the quality field does when `int()` raises | not executed | App.LongDurationRaises | App.DurationField |
