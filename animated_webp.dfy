/** `compress_animated_webp` and `process_multiple_webp`: open an animated
    WebP, copy every frame in order, optionally scale each one, resolve one
    frame duration, and hand the frames to the WebP writer; every raised
    exception turns into `False`. */
module AnimatedWebP {
  import opened Wrappers
  import opened PyPath
  import opened Pillow

  /** `resize_ratio`, taken as an exact fraction num/den. */
  datatype Fraction = Fraction(num: int, den: int)
  type Ratio = r: Fraction | r.den > 0 witness Fraction(1, 1)

  /** `resize_ratio == 1.0`. */
  predicate IsUnit(r: Ratio) {
    r.num == r.den
  }

  /** Python's `int(...)` on a quotient: division truncating toward zero
      (Dafny's own `/` rounds toward negative infinity for a positive divisor). */
  function TruncDiv(a: int, b: int): int
    requires b > 0
  {
    if a >= 0 then a / b else -((-a) / b)
  }

  /** `int(x * resize_ratio)`. */
  function Scaled(x: nat, r: Ratio): int {
    TruncDiv(x * r.num, r.den)
  }

  lemma TruncDivBounds(a: int, b: int)
    requires b > 0
    ensures a >= 0 ==> 0 <= TruncDiv(a, b) && TruncDiv(a, b) * b <= a < (TruncDiv(a, b) + 1) * b
    ensures a < 0 ==> TruncDiv(a, b) <= 0 && (TruncDiv(a, b) - 1) * b < a <= TruncDiv(a, b) * b
  {
    if a >= 0 {
      DivBounds(a, b);
    } else {
      var q := (-a) / b;
      DivBounds(-a, b);
      assert TruncDiv(a, b) == -q;
      assert (-q) * b == -(q * b);
      assert (-q - 1) * b == -((q + 1) * b);
    }
  }

  lemma DivBounds(m: nat, b: int)
    requires b > 0
    ensures 0 <= m / b && (m / b) * b <= m < (m / b + 1) * b
  {
    var q := m / b;
    assert m == q * b + m % b;
    assert (q + 1) * b == q * b + b;
  }

  /** The new size is the exact product cut toward zero, not rounded: the
      result is the integer part of x * num / den. */
  lemma ScaledTruncates(x: nat, r: Ratio)
    ensures var n := Scaled(x, r);
      && (r.num >= 0 ==> 0 <= n && n * r.den <= x * r.num < (n + 1) * r.den)
      && (r.num < 0 && x > 0 ==> n <= 0 && (n - 1) * r.den < x * r.num <= n * r.den)
  {
    var a := x * r.num;
    assert r.num >= 0 ==> a >= 0;
    assert r.num < 0 && x > 0 ==> a < 0;
    TruncDivBounds(a, r.den);
  }

  /** Half of 7 pixels is 3 (rounding would give 4), and a negative ratio
      truncates toward zero, not downward. */
  lemma TruncationNotRounding()
    ensures Scaled(7, Fraction(1, 2)) == 3
    ensures Scaled(3, Fraction(-1, 2)) == -1
    ensures Scaled(100, Fraction(9, 10)) == 90
  {
  }

  /** The frame appended for sequence index `i`: its copy, resized to the
      truncated scaled size unless the ratio is one. None when the copy or
      the resize raises. */
  function FrameAt(img: ImageData, ratio: Ratio, i: nat): Option<Frame>
    requires i < |img.frames|
  {
    match CopyAt(img, i)
    case None => None
    case Some(f) =>
      if IsUnit(ratio) then Some(f)
      else Resize(f, Scaled(f.width, ratio), Scaled(f.height, ratio))
  }

  /** The list `frames` after the loop has run for indices 0..k-1, or the
      first index at which it raised. */
  function ExtractPrefix(img: ImageData, ratio: Ratio, k: nat): Result<seq<Frame>, nat>
    requires k <= |img.frames|
  {
    if k == 0 then Ok([])
    else match ExtractPrefix(img, ratio, k - 1)
      case Err(i) => Err(i)
      case Ok(frames) =>
        match FrameAt(img, ratio, k - 1)
        case None => Err(k - 1)
        case Some(f) => Ok(frames + [f])
  }

  /** Extraction succeeds exactly when every frame can be produced; then the
      list holds frame i at position i, and otherwise the error names the
      first index that could not be produced. */
  lemma {:induction false} ExtractPrefixSpec(img: ImageData, ratio: Ratio, k: nat)
    requires k <= |img.frames|
    ensures ExtractPrefix(img, ratio, k).Ok? <==> forall i :: 0 <= i < k ==> FrameAt(img, ratio, i).Some?
    ensures ExtractPrefix(img, ratio, k).Ok? ==>
      var frames := ExtractPrefix(img, ratio, k).value;
      |frames| == k && forall i :: 0 <= i < k ==> FrameAt(img, ratio, i) == Some(frames[i])
    ensures ExtractPrefix(img, ratio, k).Err? ==>
      var j := ExtractPrefix(img, ratio, k).error;
      j < k && FrameAt(img, ratio, j).None? && forall i :: 0 <= i < j ==> FrameAt(img, ratio, i).Some?
  {
    if k > 0 {
      ExtractPrefixSpec(img, ratio, k - 1);
    }
  }

  /** Once frame i fails after 0..i-1 succeeded, the whole extraction
      fails at i. */
  lemma ExtractFailsAt(img: ImageData, ratio: Ratio, i: nat)
    requires i < |img.frames| && ExtractPrefix(img, ratio, i).Ok? && FrameAt(img, ratio, i).None?
    ensures ExtractPrefix(img, ratio, |img.frames|) == Err(i)
  {
    ExtractPrefixSpec(img, ratio, i);
    ExtractPrefixSpec(img, ratio, |img.frames|);
  }

  /** A completed extraction has `n_frames` entries, entry i copied at
      index i (so indices strictly increase); with ratio one every frame
      keeps its source size, otherwise every frame gets the same truncating
      scale. */
  lemma ExtractedFrames(img: ImageData, ratio: Ratio)
    requires ExtractPrefix(img, ratio, |img.frames|).Ok?
    ensures var frames := ExtractPrefix(img, ratio, |img.frames|).value;
      && |frames| == |img.frames|
      && (forall i :: 0 <= i < |frames| ==> frames[i].index == i && i !in img.undecodable)
      && (forall i, j :: 0 <= i < j < |frames| ==> frames[i].index < frames[j].index)
      && (IsUnit(ratio) ==> forall i :: 0 <= i < |frames| ==>
            frames[i].width == img.frames[i].width && frames[i].height == img.frames[i].height)
      && (!IsUnit(ratio) ==> forall i :: 0 <= i < |frames| ==>
            frames[i].width == Scaled(img.frames[i].width, ratio)
            && frames[i].height == Scaled(img.frames[i].height, ratio))
  {
    ExtractPrefixSpec(img, ratio, |img.frames|);
  }

  /** The first present value of `options`, else `fallback`. */
  function FirstAvailable(options: seq<Option<int>>, fallback: int): int {
    if options == [] then fallback
    else if options[0].Some? then options[0].value
    else FirstAvailable(options[1..], fallback)
  }

  /** `duration if duration is not None else img.info.get('duration', 100)`. */
  function ResolveDuration(duration: Option<int>, info: map<string, int>): int {
    duration.GetOr(if "duration" in info then info["duration"] else 100)
  }

  /** The duration is the first available of the caller's override, the
      source's `duration` metadata and 100; an override of 0 still wins. */
  lemma ResolveDurationPriority(duration: Option<int>, info: map<string, int>)
    ensures ResolveDuration(duration, info) ==
      FirstAvailable([duration, if "duration" in info then Some(info["duration"]) else None], 100)
    ensures ResolveDuration(Some(0), info) == 0
  {
    var options := [duration, if "duration" in info then Some(info["duration"]) else None];
    if duration.None? {
      assert FirstAvailable(options, 100) == FirstAvailable(options[1..], 100);
      if "duration" !in info {
        assert FirstAvailable(options[1..], 100) == FirstAvailable(options[1..][1..], 100);
        assert options[1..][1..] == [];
      }
    }
  }

  /** The `frames[0].save(...)` call. */
  function SaveCallFor(path: string, frames: seq<Frame>, quality: int, duration: int): (call: SaveCall)
    requires |frames| > 0
    ensures [call.base] + call.appendImages == frames
  {
    SaveCall(path, frames[0], frames[1..], true, "WEBP", quality, 6, 0, duration, true)
  }

  /** Why `compress_animated_webp` returned what it did. */
  datatype Outcome =
    | OpenFailed                 // Image.open raised
    | NotAnimated                // no is_animated attribute, or it is false
    | FrameFailed(index: nat)    // copying or resizing this frame raised
    | NoFrames                   // frames[0] raised IndexError
    | EncodeFailed(call: SaveCall)
    | ReportFailed(call: SaveCall)  // the written file's report divided by a zero original size
    | Compressed(call: SaveCall, originalBytes: nat, outputBytes: nat)
  {
    /** The writer completed the call, so the output file was written. */
    predicate Wrote() {
      ReportFailed? || Compressed?
    }
  }

  /** What one call of `compress_animated_webp` does, given the files on
      disk and the writer's behaviour. The size of the input is read after
      the output was written, as the program does. */
  function Recompress(files: map<string, StoredFile>, inputPath: string, outputPath: string,
                      quality: int, ratio: Ratio, duration: Option<int>, codec: Codec): Outcome
  {
    if OpenFails(files, inputPath) then OpenFailed
    else
      var img := files[inputPath].image.value;
      if img.isAnimated != Some(true) then NotAnimated
      else match ExtractPrefix(img, ratio, |img.frames|)
        case Err(i) => FrameFailed(i)
        case Ok(frames) =>
          if |frames| == 0 then NoFrames
          else
            var call := SaveCallFor(outputPath, frames, quality, ResolveDuration(duration, img.info));
            if !codec.accepts(call) then EncodeFailed(call)
            else
              var after := files[outputPath := codec.output(call)];
              if after[inputPath].bytes == 0 then ReportFailed(call)
              else Compressed(call, after[inputPath].bytes, after[outputPath].bytes)
  }

  /** The files after a call with outcome `o`. */
  function FilesAfter(files: map<string, StoredFile>, o: Outcome, codec: Codec): map<string, StoredFile> {
    if o.Wrote() then files[o.call.path := codec.output(o.call)] else files
  }

  /** The writer calls a call with outcome `o` completed. */
  function SavesOf(o: Outcome): seq<SaveCall> {
    if o.Wrote() then [o.call] else []
  }

  /** A source without a true `is_animated` is rejected: no file is
      written and the writer is never called. */
  lemma NotAnimatedRejected(files: map<string, StoredFile>, inputPath: string, outputPath: string,
                            quality: int, ratio: Ratio, duration: Option<int>, codec: Codec)
    requires !OpenFails(files, inputPath) && files[inputPath].image.value.isAnimated != Some(true)
    ensures var o := Recompress(files, inputPath, outputPath, quality, ratio, duration, codec);
      o == NotAnimated && FilesAfter(files, o, codec) == files && SavesOf(o) == []
  {
  }

  /** `True` exactly when the file opens, is animated, has at least one
      frame, every frame copies and resizes, the writer accepts the call
      and the input's size is not zero. */
  lemma RecompressSucceedsIff(files: map<string, StoredFile>, inputPath: string, outputPath: string,
                              quality: int, ratio: Ratio, duration: Option<int>, codec: Codec)
    ensures Recompress(files, inputPath, outputPath, quality, ratio, duration, codec).Compressed? <==>
      && !OpenFails(files, inputPath)
      && var img := files[inputPath].image.value;
      && img.isAnimated == Some(true)
      && |img.frames| > 0
      && (forall i :: 0 <= i < |img.frames| ==> FrameAt(img, ratio, i).Some?)
      && var frames := seq(|img.frames|, i requires 0 <= i < |img.frames| && FrameAt(img, ratio, i).Some? =>
                                             FrameAt(img, ratio, i).value);
      && var call := SaveCallFor(outputPath, frames, quality, ResolveDuration(duration, img.info));
      && codec.accepts(call)
      && files[outputPath := codec.output(call)][inputPath].bytes > 0
  {
    if !OpenFails(files, inputPath) {
      ExtractAll(files[inputPath].image.value, ratio);
    }
  }

  /** The whole frame loop succeeds exactly when every frame converts, and
      then yields the converted frames in order. */
  lemma ExtractAll(img: ImageData, ratio: Ratio)
    ensures ExtractPrefix(img, ratio, |img.frames|).Ok? <==> forall i :: 0 <= i < |img.frames| ==> FrameAt(img, ratio, i).Some?
    ensures ExtractPrefix(img, ratio, |img.frames|).Ok? ==>
      ExtractPrefix(img, ratio, |img.frames|).value ==
        seq(|img.frames|, i requires 0 <= i < |img.frames| && FrameAt(img, ratio, i).Some? => FrameAt(img, ratio, i).value)
  {
    var n := |img.frames|;
    ExtractPrefixSpec(img, ratio, n);
    if ExtractPrefix(img, ratio, n).Ok? {
      var frames := ExtractPrefix(img, ratio, n).value;
      assert frames == seq(n, i requires 0 <= i < n && FrameAt(img, ratio, i).Some? => FrameAt(img, ratio, i).value);
    }
  }

  /** On success the writer received every source frame, in order, as base
      plus appended images; the resolved duration once for all frames; the
      caller's quality unclamped; loop 0, method 6, minimize_size, and the
      output path. */
  lemma CompressedCall(files: map<string, StoredFile>, inputPath: string, outputPath: string,
                       quality: int, ratio: Ratio, duration: Option<int>, codec: Codec)
    requires Recompress(files, inputPath, outputPath, quality, ratio, duration, codec).Compressed?
    ensures var call := Recompress(files, inputPath, outputPath, quality, ratio, duration, codec).call;
      var img := files[inputPath].image.value;
      var encoded := [call.base] + call.appendImages;
      && |encoded| == |img.frames|
      && (forall i :: 0 <= i < |encoded| ==> encoded[i].index == i)
      && call.path == outputPath
      && call.quality == quality
      && call.duration == ResolveDuration(duration, img.info)
      && call.loop == 0 && call.encodeMethod == 6 && call.minimizeSize
      && call.saveAll && call.format == "WEBP"
  {
    var img := files[inputPath].image.value;
    ExtractedFrames(img, ratio);
  }

  /** A call writes, if at all, only its output path. */
  lemma RecompressWritesOutput(files: map<string, StoredFile>, inputPath: string, outputPath: string,
                               quality: int, ratio: Ratio, duration: Option<int>, codec: Codec)
    ensures var o := Recompress(files, inputPath, outputPath, quality, ratio, duration, codec);
      && (o.Wrote() ==> o.call.path == outputPath)
      && (!OpenFails(files, inputPath) ==> inputPath in FilesAfter(files, o, codec))
      && (o.Compressed? ==>
            && outputPath in FilesAfter(files, o, codec)
            && FilesAfter(files, o, codec)[inputPath].bytes == o.originalBytes
            && FilesAfter(files, o, codec)[outputPath].bytes == o.outputBytes)
  {
  }

  /** The call depends on the disk only through the input file. */
  lemma RecompressReadsOnlyInput(f1: map<string, StoredFile>, f2: map<string, StoredFile>,
                                 inputPath: string, outputPath: string,
                                 quality: int, ratio: Ratio, duration: Option<int>, codec: Codec)
    requires inputPath in f1 <==> inputPath in f2
    requires inputPath in f1 ==> f1[inputPath] == f2[inputPath]
    ensures Recompress(f1, inputPath, outputPath, quality, ratio, duration, codec)
         == Recompress(f2, inputPath, outputPath, quality, ratio, duration, codec)
  {
  }

  /** Example: three 100x100 frames at 100 ms, quality 10, ratio 0.5,
      duration 20 are handed to the writer as three 50x50 frames in order,
      20 ms each, at quality 10. */
  lemma HalfSizeScenario(codec: Codec)
    requires var img := ImageData(Some(true), [Size(100, 100), Size(100, 100), Size(100, 100)], {}, map["duration" := 100]);
      var frames := [Frame(0, 50, 50), Frame(1, 50, 50), Frame(2, 50, 50)];
      codec.accepts(SaveCallFor("out.webp", frames, 10, 20))
    ensures var img := ImageData(Some(true), [Size(100, 100), Size(100, 100), Size(100, 100)], {}, map["duration" := 100]);
      var files := map["in.webp" := StoredFile(4096, Some(img))];
      var o := Recompress(files, "in.webp", "out.webp", 10, Fraction(1, 2), Some(20), codec);
      o.Compressed? && o.call.base == Frame(0, 50, 50)
      && o.call.appendImages == [Frame(1, 50, 50), Frame(2, 50, 50)]
      && o.call.duration == 20 && o.call.quality == 10 && o.originalBytes == 4096
  {
    var img := ImageData(Some(true), [Size(100, 100), Size(100, 100), Size(100, 100)], {}, map["duration" := 100]);
    var r: Ratio := Fraction(1, 2);
    assert FrameAt(img, r, 0) == Some(Frame(0, 50, 50));
    assert FrameAt(img, r, 1) == Some(Frame(1, 50, 50));
    assert FrameAt(img, r, 2) == Some(Frame(2, 50, 50));
    assert ExtractPrefix(img, r, 0) == Ok([]);
    assert ExtractPrefix(img, r, 1) == Ok([] + [Frame(0, 50, 50)]);
    assert [] + [Frame(0, 50, 50)] == [Frame(0, 50, 50)];
    assert ExtractPrefix(img, r, 2) == Ok([Frame(0, 50, 50)] + [Frame(1, 50, 50)]);
    assert [Frame(0, 50, 50)] + [Frame(1, 50, 50)] == [Frame(0, 50, 50), Frame(1, 50, 50)];
    assert ExtractPrefix(img, r, 3) == Ok([Frame(0, 50, 50), Frame(1, 50, 50)] + [Frame(2, 50, 50)]);
    var frames := [Frame(0, 50, 50), Frame(1, 50, 50), Frame(2, 50, 50)];
    assert [Frame(0, 50, 50), Frame(1, 50, 50)] + [Frame(2, 50, 50)] == frames;
    assert frames[1..] == [Frame(1, 50, 50), Frame(2, 50, 50)];
  }

  /** `compress_animated_webp(input_path, output_path, quality, resize_ratio, duration)`. */
  method CompressAnimatedWebP(disk: Disk, inputPath: string, outputPath: string,
                              quality: int, ratio: Ratio, duration: Option<int>, enc: Encoder)
    returns (ok: bool)
    modifies disk, enc
    ensures var o := Recompress(old(disk.files), inputPath, outputPath, quality, ratio, duration, enc.codec);
      && ok == o.Compressed?
      && disk.files == FilesAfter(old(disk.files), o, enc.codec)
      && enc.saves == old(enc.saves) + SavesOf(o)
  {
    var img := Open(disk, inputPath);
    if img == null {
      return false;
    }
    if img.data.isAnimated != Some(true) {
      return false;
    }
    var frames: seq<Frame> := [];
    for i := 0 to img.NFrames()
      invariant ExtractPrefix(img.data, ratio, i) == Ok(frames)
      modifies img
    {
      img.Seek(i);
      var copy := img.Copy();
      if copy.None? {
        ExtractFailsAt(img.data, ratio, i);
        return false;
      }
      var frame := copy.value;
      if !IsUnit(ratio) {
        var resized := Resize(frame, Scaled(frame.width, ratio), Scaled(frame.height, ratio));
        if resized.None? {
          ExtractFailsAt(img.data, ratio, i);
          return false;
        }
        frame := resized.value;
      }
      frames := frames + [frame];
    }
    var frameDuration := ResolveDuration(duration, img.data.info);
    if |frames| == 0 {
      return false;
    }
    var call := SaveCallFor(outputPath, frames, quality, frameDuration);
    ok := enc.Save(call, disk);
    if !ok {
      return;
    }
    var originalSize := disk.Size(inputPath);
    var compressedSize := disk.Size(outputPath);
    if originalSize == 0 {
      return false;
    }
  }

  /** The output path for one input: `output_dir` joined with the input's
      base name minus its extension, plus ".webp". */
  function OutputPathFor(outputDir: string, inputPath: string): string {
    Join(outputDir, SplitExtRoot(BaseName(inputPath)) + ".webp")
  }

  /** A name `glob("*.webp")` can return: it ends in ".webp", holds no '/',
      and does not start with '.' (a wildcard does not match a leading dot). */
  predicate MatchesWebPGlob(name: string) {
    |name| > 5 && name[0] != '.' && '/' !in name && name[|name| - 5..] == ".webp"
  }

  /** A file found by the glob is written under its own name in the
      output directory. */
  lemma GlobOutputKeepsName(outputDir: string, inputDir: string, name: string)
    requires MatchesWebPGlob(name)
    ensures OutputPathFor(outputDir, Join(inputDir, name)) == Join(outputDir, name)
  {
    var stem := name[..|name| - 5];
    assert name == stem + ".webp";
    assert '/' !in stem by {
      forall k | 0 <= k < |stem| ensures stem[k] != '/' {
        assert stem[k] == name[k];
      }
    }
    BaseNameOfJoin(inputDir, name);
    SplitExtOfWebPName(stem);
  }

  /** What the batch driver leaves behind: the files, the writer calls that
      completed, and one report per processed file. */
  datatype Report = Report(input: string, output: string, ok: bool)
  datatype BatchRun = BatchRun(files: map<string, StoredFile>, saves: seq<SaveCall>, reports: seq<Report>)

  /** The output path of every found file, in order. */
  function OutputPaths(outputDir: string, found: seq<string>): (outputs: seq<string>)
    ensures |outputs| == |found|
    ensures forall i :: 0 <= i < |found| ==> outputs[i] == OutputPathFor(outputDir, found[i])
  {
    seq(|found|, i requires 0 <= i < |found| => OutputPathFor(outputDir, found[i]))
  }

  /** The batch loop run over `found`, compressing `found[i]` into
      `outputs[i]`, one file after another. */
  function RunBatch(files: map<string, StoredFile>, found: seq<string>, outputs: seq<string>,
                    quality: int, ratio: Ratio, duration: Option<int>, codec: Codec): BatchRun
    requires |outputs| == |found|
  {
    if found == [] then BatchRun(files, [], [])
    else
      var n := |found|;
      var prev := RunBatch(files, found[..n - 1], outputs[..n - 1], quality, ratio, duration, codec);
      var o := Recompress(prev.files, found[n - 1], outputs[n - 1], quality, ratio, duration, codec);
      BatchRun(FilesAfter(prev.files, o, codec), prev.saves + SavesOf(o),
               prev.reports + [Report(found[n - 1], outputs[n - 1], o.Compressed?)])
  }

  /** Every found file is processed, in order, whatever happens to the
      others: one report per file, naming it and its output path. */
  lemma {:induction false} BatchReportsEveryFile(files: map<string, StoredFile>, found: seq<string>, outputs: seq<string>,
                                                 quality: int, ratio: Ratio, duration: Option<int>, codec: Codec)
    requires |outputs| == |found|
    ensures var run := RunBatch(files, found, outputs, quality, ratio, duration, codec);
      && |run.reports| == |found|
      && forall i :: 0 <= i < |found| ==> run.reports[i].input == found[i] && run.reports[i].output == outputs[i]
  {
    if found != [] {
      var n := |found|;
      BatchReportsEveryFile(files, found[..n - 1], outputs[..n - 1], quality, ratio, duration, codec);
    }
  }

  /** The batch changes files only at output paths. */
  lemma {:induction false} BatchWritesOnlyOutputs(files: map<string, StoredFile>, found: seq<string>, outputs: seq<string>,
                                                  quality: int, ratio: Ratio, duration: Option<int>, codec: Codec,
                                                  p: string)
    requires |outputs| == |found| && p !in outputs
    ensures var run := RunBatch(files, found, outputs, quality, ratio, duration, codec);
      (p in run.files <==> p in files) && (p in files ==> run.files[p] == files[p])
  {
    if found != [] {
      var n := |found|;
      assert outputs == outputs[..n - 1] + [outputs[n - 1]];
      BatchWritesOnlyOutputs(files, found[..n - 1], outputs[..n - 1], quality, ratio, duration, codec, p);
    }
  }

  /** When no file's output path is the input of a later file, each file
      succeeds or fails exactly as it would alone on the original disk. */
  lemma {:induction false} BatchIndependence(files: map<string, StoredFile>, found: seq<string>, outputs: seq<string>,
                                             quality: int, ratio: Ratio, duration: Option<int>, codec: Codec)
    requires |outputs| == |found|
    requires forall i, j :: 0 <= j < i < |found| ==> outputs[j] != found[i]
    ensures var run := RunBatch(files, found, outputs, quality, ratio, duration, codec);
      && |run.reports| == |found|
      && forall i :: 0 <= i < |found| ==>
           run.reports[i].ok == Recompress(files, found[i], outputs[i], quality, ratio, duration, codec).Compressed?
  {
    if found != [] {
      var n := |found|;
      var prefix, prefixOut := found[..n - 1], outputs[..n - 1];
      BatchIndependence(files, prefix, prefixOut, quality, ratio, duration, codec);
      BatchWritesOnlyOutputs(files, prefix, prefixOut, quality, ratio, duration, codec, found[n - 1]);
      var prev := RunBatch(files, prefix, prefixOut, quality, ratio, duration, codec);
      RecompressReadsOnlyInput(prev.files, files, found[n - 1], outputs[n - 1], quality, ratio, duration, codec);
    }
  }

  /** Files found by one glob in one directory, with distinct names, write
      distinct outputs, and none writes over a later input; so the batch's
      per-file results are independent of each other. */
  lemma GlobBatchIndependent(inputDir: string, outputDir: string, names: seq<string>, found: seq<string>)
    requires forall i :: 0 <= i < |names| ==> MatchesWebPGlob(names[i])
    requires forall i, j :: 0 <= i < j < |names| ==> names[i] != names[j]
    requires |found| == |names| && forall i :: 0 <= i < |found| ==> found[i] == Join(inputDir, names[i])
    ensures var outputs := OutputPaths(outputDir, found);
      && (forall i, j :: 0 <= j < i < |found| ==> outputs[j] != found[i])
      && (forall i, j :: 0 <= i < j < |found| ==> outputs[i] != outputs[j])
  {
    var outputs := OutputPaths(outputDir, found);
    forall i, j | 0 <= j < |found| && 0 <= i < |found| && i != j
      ensures outputs[j] != found[i] && outputs[i] != outputs[j]
    {
      GlobOutputKeepsName(outputDir, inputDir, names[i]);
      GlobOutputKeepsName(outputDir, inputDir, names[j]);
      BaseNameOfJoin(outputDir, names[j]);
      BaseNameOfJoin(inputDir, names[i]);
      if outputs[i] == outputs[j] {
        JoinInjective(outputDir, names[i], names[j]);
      }
    }
  }

  /** `process_multiple_webp(input_dir, output_dir, ...)`, given the list
      `glob` returned; `reports` stands for the lines it prints. */
  method ProcessMultipleWebP(disk: Disk, outputDir: string, found: seq<string>,
                             quality: int, ratio: Ratio, duration: Option<int>, enc: Encoder)
    returns (reports: seq<Report>)
    modifies disk, enc
    ensures var run := RunBatch(old(disk.files), found, OutputPaths(outputDir, found), quality, ratio, duration, enc.codec);
      disk.files == run.files && enc.saves == old(enc.saves) + run.saves && reports == run.reports
  {
    if found == [] {
      return [];
    }
    var outputs := OutputPaths(outputDir, found);
    reports := CompressEach(disk, found, outputs, quality, ratio, duration, enc);
  }

  /** The loop of the batch driver: compress `found[i]` into `outputs[i]`
      for every i in order, continuing after failures. */
  method CompressEach(disk: Disk, found: seq<string>, outputs: seq<string>,
                      quality: int, ratio: Ratio, duration: Option<int>, enc: Encoder)
    returns (reports: seq<Report>)
    requires |outputs| == |found|
    modifies disk, enc
    ensures var run := RunBatch(old(disk.files), found, outputs, quality, ratio, duration, enc.codec);
      disk.files == run.files && enc.saves == old(enc.saves) + run.saves && reports == run.reports
  {
    reports := [];
    for i := 0 to |found|
      invariant var run := RunBatch(old(disk.files), found[..i], outputs[..i], quality, ratio, duration, enc.codec);
        disk.files == run.files && enc.saves == old(enc.saves) + run.saves && reports == run.reports
    {
      var ok := CompressAnimatedWebP(disk, found[i], outputs[i], quality, ratio, duration, enc);
      reports := reports + [Report(found[i], outputs[i], ok)];
      assert found[..i + 1][..i] == found[..i] && outputs[..i + 1][..i] == outputs[..i];
    }
    assert found[..|found|] == found && outputs[..|found|] == outputs;
  }
}
