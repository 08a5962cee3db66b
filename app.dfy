/** The upload handler of the web front end: `allowed_file`, the parsing
    of the form fields, the naming of the saved and compressed files and the
    loop that builds one result entry per uploaded file. Flask itself,
    `secure_filename` and `uuid` are outside the model: the sanitised name
    and the random prefix of each file arrive as inputs. */
module App {
  import opened Wrappers
  import opened PyText
  import opened PyPath
  import opened Pillow
  import opened AnimatedWebP

  const ALLOWED_EXTENSIONS: set<string> := {"webp"}
  const DEFAULT_QUALITY := 80
  const PROCESSING_FAILED := "Processing failed"
  const INVALID_EXTENSION := "Invalid extension (allowed: .webp)"
  const NO_FILE_UPLOADED := "No file uploaded"

  /** `allowed_file(filename)`: there is a '.' and the text after the last
      one, lower-cased, is an allowed extension. */
  predicate AllowedFile(filename: string) {
    '.' in filename && Lower(filename[RFind(filename, '.') + 1..]) in ALLOWED_EXTENSIONS
  }

  /** A file is allowed exactly when its name ends in '.' followed by four
      characters that lower-case to "webp". */
  lemma AllowedFileIff(f: string)
    ensures AllowedFile(f) <==> |f| >= 5 && f[|f| - 5] == '.' && Lower(f[|f| - 4..]) == "webp"
  {
    var d := RFind(f, '.');
    if AllowedFile(f) {
      assert d >= 0;
      assert |f[d + 1..]| == |Lower(f[d + 1..])| == 4;
    }
    if |f| >= 5 && f[|f| - 5] == '.' && Lower(f[|f| - 4..]) == "webp" {
      assert '.' in f;
      forall k | |f| - 4 <= k < |f| ensures f[k] != '.' {
        assert LowerChar(f[k]) == "webp"[k - (|f| - 4)];
      }
      assert d == |f| - 5;
    }
  }

  lemma AllowedFileExamples()
    ensures AllowedFile("x.WEBP")
    ensures AllowedFile(".webp")
    ensures !AllowedFile("webp")
    ensures !AllowedFile("x.webp.png")
  {
    AllowedFileIff("x.WEBP");
    AllowedFileIff(".webp");
    AllowedFileIff("x.webp.png");
  }

  /** `int(request.form.get("quality", 80))`, or 80 when `int` raises. */
  function QualityField(form: map<string, string>): int {
    if "quality" in form then ParseInt(form["quality"]).GetOr(DEFAULT_QUALITY) else DEFAULT_QUALITY
  }

  /** The quality field holds any integer the user types, unclamped, as
      long as `int()` accepts its length, and falls back to 80 when it is
      missing, not an integer, or too long. */
  lemma QualityFieldSpec(form: map<string, string>, n: int)
    ensures "quality" !in form ==> QualityField(form) == 80
    ensures "quality" in form && ParseInt(form["quality"]).None? ==> QualityField(form) == 80
    ensures |ShowNat(if n < 0 then -n else n)| <= MAX_STR_DIGITS ==> QualityField(form["quality" := ShowInt(n)]) == n
    ensures |ShowNat(if n < 0 then -n else n)| > MAX_STR_DIGITS ==> QualityField(form["quality" := ShowInt(n)]) == 80
  {
    ParseShowInt(n);
  }

  /** A separator (U+001C-U+001F) before or after the number makes `int()`
      raise, so the quality falls back to 80 whatever the number is. */
  lemma QualityFieldSeparator(form: map<string, string>, c: char, s: string)
    requires IsSeparator(c)
    ensures QualityField(form["quality" := [c] + s]) == 80
    ensures QualityField(form["quality" := s + [c]]) == 80
  {
    SeparatorRejected(c, s);
    assert form["quality" := [c] + s]["quality"] == [c] + s;
    assert form["quality" := s + [c]]["quality"] == s + [c];
  }

  /** `float(request.form.get("resize_ratio", 1.0))`, or 1.0 when `float`
      raises; `parseFloat` stands for Python's `float` on a string. */
  function RatioField(form: map<string, string>, parseFloat: string -> Option<Ratio>): Ratio {
    if "resize_ratio" in form then parseFloat(form["resize_ratio"]).GetOr(Fraction(1, 1)) else Fraction(1, 1)
  }

  /** The stripped duration field (empty when missing). */
  function DurationText(form: map<string, string>): string {
    Strip(if "duration" in form then form["duration"] else "")
  }

  /** The duration field as the handler parses it: `Raises` when
      `isdigit()` holds but `int()` then raises, an exception no handler
      catches. */
  datatype FieldParse = Parsed(duration: Option<int>) | Raises

  /** `int(v) if v.isdigit() else None` on the stripped field. */
  function DurationFieldAsWritten(form: map<string, string>): FieldParse {
    var v := DurationText(form);
    if IsDigit(v) then
      match ParseInt(v)
      case Some(n) => Parsed(Some(n))
      case None => Raises
    else Parsed(None)
  }

  /** A superscript or subscript digit (such as U+00B2, "²") passes
      `isdigit()` but `int()` rejects it, so the request fails instead of
      falling back to no duration. */
  lemma NonDecimalDurationRaises(form: map<string, string>, c: char)
    requires IsNonDecimalDigit(c) && "duration" in form && form["duration"] == [c]
    ensures DurationFieldAsWritten(form) == Raises
  {
    var v := [c];
    StripUntrimmed(v);
    assert DurationText(form) == v;
    assert IsDigit(v) && !IsDecimal(v);
    DurationFieldAsWrittenAgrees(form);
  }

  /** More than `MAX_STR_DIGITS` digits 0-9 (4301 ones, say) pass
      `isdigit()` but `int()` rejects them, so the request fails too. */
  lemma LongDurationRaises(form: map<string, string>)
    requires "duration" in form && IsDecimal(form["duration"]) && |form["duration"]| > MAX_STR_DIGITS
    ensures DurationFieldAsWritten(form) == Raises
  {
    var v := form["duration"];
    assert IsDigitChar(v[0]) && IsDigitChar(v[|v| - 1]);
    DigitsAreNotSpace(v[0]);
    DigitsAreNotSpace(v[|v| - 1]);
    StripUntrimmed(v);
    assert DurationText(form) == v;
    DurationFieldAsWrittenAgrees(form);
  }

  /** The duration field as intended: what `int()` makes of the stripped
      text when it is made of the digits 0-9, and None wherever `int()`
      would raise, as for the quality field. */
  function DurationField(form: map<string, string>): (d: Option<int>)
    ensures d == (if IsDecimal(DurationText(form)) then ParseInt(DurationText(form)) else None)
    ensures d.Some? ==> d.value >= 0
  {
    var v := DurationText(form);
    if IsDecimal(v) then
      ParseDigits(v);
      if |v| <= MAX_STR_DIGITS then Some(DecimalValue(v)) else None
    else None
  }

  /** The handler as written raises exactly on digit text that is not all
      0-9 or is longer than `int()` accepts, and agrees with the intended
      parse on every other input. */
  lemma DurationFieldAsWrittenAgrees(form: map<string, string>)
    ensures var v := DurationText(form);
      DurationFieldAsWritten(form) == Raises <==> IsDigit(v) && (!IsDecimal(v) || |v| > MAX_STR_DIGITS)
    ensures DurationFieldAsWritten(form) != Raises ==> DurationFieldAsWritten(form) == Parsed(DurationField(form))
  {
    var v := DurationText(form);
    if IsDigit(v) {
      ParseDigits(v);
    }
  }

  /** A typed non-negative number comes back as itself, unless it has more
      digits than `int()` accepts; a negative number or an empty field gives
      no override. */
  lemma {:induction false} DurationFieldExamples(form: map<string, string>, n: nat)
    ensures |ShowNat(n)| <= MAX_STR_DIGITS ==> DurationField(form["duration" := ShowNat(n)]) == Some(n)
    ensures |ShowNat(n)| > MAX_STR_DIGITS ==> DurationField(form["duration" := ShowNat(n)]) == None
    ensures DurationField(form["duration" := "-" + ShowNat(n)]) == None
    ensures DurationField(form["duration" := ""]) == None
    ensures "duration" !in form ==> DurationField(form) == None
  {
    var s := ShowNat(n);
    var typed := form["duration" := s];
    assert typed["duration"] == s;
    ParseDigits(s);
    assert IsDigitChar(s[0]) && IsDigitChar(s[|s| - 1]);
    DigitsAreNotSpace(s[0]);
    DigitsAreNotSpace(s[|s| - 1]);
    StripUntrimmed(s);
    assert DurationText(typed) == s;
    DecimalValueOfShowNat(n);

    var m := "-" + s;
    var negative := form["duration" := m];
    assert negative["duration"] == m;
    assert !IsSpace(m[0]) && m[|m| - 1] == s[|s| - 1];
    StripUntrimmed(m);
    assert DurationText(negative) == m;
    assert !IsDecimalChar(m[0]);

    var empty := form["duration" := ""];
    assert empty["duration"] == "";
    assert TrimLeft("", IsSpace) == "";
    assert DurationText(empty) == "";
  }

  /** The parameters the handler passes to the compressor. */
  datatype Settings = Settings(quality: int, ratio: Ratio, duration: Option<int>)

  function ParseForm(form: map<string, string>, parseFloat: string -> Option<Ratio>): Settings {
    Settings(QualityField(form), RatioField(form, parseFloat), DurationField(form))
  }

  /** `f"{unique_prefix}_{filename}"`. */
  function SavedName(prefix: string, secureName: string): string {
    prefix + "_" + secureName
  }

  /** `f"compressed_{saved_name}"`. */
  function OutputName(savedName: string): string {
    "compressed_" + savedName
  }

  /** With the 8-character prefixes `uuid4().hex[:8]` yields, two saved
      names (and so two output names) are equal only when both the prefix
      and the sanitised name are. */
  lemma SavedNamesDistinct(p1: string, n1: string, p2: string, n2: string)
    requires |p1| == 8 && |p2| == 8
    ensures SavedName(p1, n1) == SavedName(p2, n2) <==> p1 == p2 && n1 == n2
    ensures OutputName(SavedName(p1, n1)) == OutputName(SavedName(p2, n2)) <==> p1 == p2 && n1 == n2
  {
    var s1, s2 := SavedName(p1, n1), SavedName(p2, n2);
    if s1 == s2 {
      assert p1 == s1[..8] && p2 == s2[..8];
      assert n1 == s1[9..] && n2 == s2[9..];
    }
    var o1, o2 := OutputName(s1), OutputName(s2);
    if o1 == o2 {
      assert s1 == o1[11..] && s2 == o2[11..];
    }
  }

  /** Where the handler stores uploads and compressed results. */
  datatype Config = Config(uploadFolder: string, outputFolder: string)

  /** One uploaded file: the name the browser sent and its content. */
  datatype UploadedFile = UploadedFile(filename: string, content: StoredFile)

  /** One entry of `processed`. Sizes are in bytes. */
  datatype Entry =
    | Done(original: string, output: string, originalBytes: nat, outputBytes: nat)
    | Failed(original: string, error: string)

  datatype Response = Redirect(message: string) | Rendered(processed: seq<Entry>)

  /** `file and allowed_file(file.filename)`: an upload without a name is
      falsy. */
  predicate Accepted(item: UploadedFile) {
    item.filename != "" && AllowedFile(item.filename)
  }

  /** What handling one file leaves behind. */
  datatype Step = Step(files: map<string, StoredFile>, saves: seq<SaveCall>, entry: Entry)

  /** The body of the loop for one file, `secureName` being
      `secure_filename(file.filename)` and `prefix` the uuid prefix. */
  function HandleStep(files: map<string, StoredFile>, item: UploadedFile, prefix: string, secureName: string,
                      config: Config, settings: Settings, codec: Codec): Step
  {
    if Accepted(item) then
      var saved := SavedName(prefix, secureName);
      var inputPath := Join(config.uploadFolder, saved);
      var outName := OutputName(saved);
      var outputPath := Join(config.outputFolder, outName);
      var stored := files[inputPath := item.content];
      var o := Recompress(stored, inputPath, outputPath, settings.quality, settings.ratio, settings.duration, codec);
      var after := FilesAfter(stored, o, codec);
      RecompressWritesOutput(stored, inputPath, outputPath, settings.quality, settings.ratio, settings.duration, codec);
      var entry := if o.Compressed? then Done(saved, outName, after[inputPath].bytes, after[outputPath].bytes)
                   else Failed(saved, PROCESSING_FAILED);
      Step(after, SavesOf(o), entry)
    else
      Step(files, [], Failed(item.filename, INVALID_EXTENSION))
  }

  datatype UploadRun = UploadRun(files: map<string, StoredFile>, saves: seq<SaveCall>, entries: seq<Entry>)

  /** The loop over `files`, in upload order. */
  function RunUpload(files: map<string, StoredFile>, items: seq<UploadedFile>, prefixes: seq<string>,
                     secure: string -> string, config: Config, settings: Settings, codec: Codec): UploadRun
    requires |prefixes| == |items|
  {
    if items == [] then UploadRun(files, [], [])
    else
      var n := |items|;
      var prev := RunUpload(files, items[..n - 1], prefixes[..n - 1], secure, config, settings, codec);
      var step := HandleStep(prev.files, items[n - 1], prefixes[n - 1], secure(items[n - 1].filename),
                             config, settings, codec);
      UploadRun(step.files, prev.saves + step.saves, prev.entries + [step.entry])
  }

  /** The entry `upload()` lists for one file, given the files before and
      after handling it. A rejected file gets the invalid-extension error
      under its own name and leaves the disk alone. An accepted one is
      listed under its saved name; it is `Done` exactly when the compressor
      returns `True` on the disk with the upload saved, and then names the
      "compressed_" output and the sizes of both files on the disk
      afterwards; otherwise it says "Processing failed". */
  predicate EntryFor(entry: Entry, item: UploadedFile, prefix: string, secureName: string,
                     before: map<string, StoredFile>, after: map<string, StoredFile>,
                     config: Config, settings: Settings, codec: Codec)
  {
    if !Accepted(item) then
      entry == Failed(item.filename, INVALID_EXTENSION) && after == before
    else
      var saved := SavedName(prefix, secureName);
      var inputPath := Join(config.uploadFolder, saved);
      var outputPath := Join(config.outputFolder, OutputName(saved));
      var ok := Recompress(before[inputPath := item.content], inputPath, outputPath,
                           settings.quality, settings.ratio, settings.duration, codec).Compressed?;
      && entry.original == saved
      && (entry.Done? <==> ok)
      && (entry.Done? ==>
            && entry.output == OutputName(saved)
            && inputPath in after && outputPath in after
            && entry.originalBytes == after[inputPath].bytes
            && entry.outputBytes == after[outputPath].bytes)
      && (entry.Failed? ==> entry.error == PROCESSING_FAILED)
  }

  lemma HandleStepEntry(files: map<string, StoredFile>, item: UploadedFile, prefix: string, secureName: string,
                        config: Config, settings: Settings, codec: Codec)
    ensures var step := HandleStep(files, item, prefix, secureName, config, settings, codec);
      EntryFor(step.entry, item, prefix, secureName, files, step.files, config, settings, codec)
  {
    if Accepted(item) {
      var saved := SavedName(prefix, secureName);
      var inputPath := Join(config.uploadFolder, saved);
      var outputPath := Join(config.outputFolder, OutputName(saved));
      RecompressWritesOutput(files[inputPath := item.content], inputPath, outputPath,
                             settings.quality, settings.ratio, settings.duration, codec);
    }
  }

  /** One entry per uploaded file, in upload order, entry i as `EntryFor`
      describes on the disk left by the files before it. */
  lemma {:induction false} UploadEntries(files: map<string, StoredFile>, items: seq<UploadedFile>, prefixes: seq<string>,
                                         secure: string -> string, config: Config, settings: Settings, codec: Codec)
    requires |prefixes| == |items|
    ensures var run := RunUpload(files, items, prefixes, secure, config, settings, codec);
      && |run.entries| == |items|
      && forall i :: 0 <= i < |items| ==>
           EntryFor(run.entries[i], items[i], prefixes[i], secure(items[i].filename),
                    RunUpload(files, items[..i], prefixes[..i], secure, config, settings, codec).files,
                    RunUpload(files, items[..i + 1], prefixes[..i + 1], secure, config, settings, codec).files,
                    config, settings, codec)
  {
    if items != [] {
      var n := |items|;
      var its, ps := items[..n - 1], prefixes[..n - 1];
      var prev := RunUpload(files, its, ps, secure, config, settings, codec);
      UploadEntries(files, its, ps, secure, config, settings, codec);
      var step := HandleStep(prev.files, items[n - 1], prefixes[n - 1], secure(items[n - 1].filename), config, settings, codec);
      HandleStepEntry(prev.files, items[n - 1], prefixes[n - 1], secure(items[n - 1].filename), config, settings, codec);
      var run := RunUpload(files, items, prefixes, secure, config, settings, codec);
      assert run.entries == prev.entries + [step.entry];
      forall i | 0 <= i < n
        ensures EntryFor(run.entries[i], items[i], prefixes[i], secure(items[i].filename),
                         RunUpload(files, items[..i], prefixes[..i], secure, config, settings, codec).files,
                         RunUpload(files, items[..i + 1], prefixes[..i + 1], secure, config, settings, codec).files,
                         config, settings, codec)
      {
        if i < n - 1 {
          assert items[i] == its[i] && prefixes[i] == ps[i];
          assert its[..i] == items[..i] && ps[..i] == prefixes[..i];
          assert its[..i + 1] == items[..i + 1] && ps[..i + 1] == prefixes[..i + 1];
        } else {
          assert items[..i] == its && prefixes[..i] == ps;
          assert items[..i + 1] == items && prefixes[..i + 1] == prefixes;
        }
      }
    }
  }

  /** The output path `upload()` gives the i-th file. */
  function UploadOutputPath(items: seq<UploadedFile>, prefixes: seq<string>, secure: string -> string,
                            config: Config, i: nat): string
    requires i < |items| == |prefixes|
  {
    Join(config.outputFolder, OutputName(SavedName(prefixes[i], secure(items[i].filename))))
  }

  /** Every writer call targets the output path of an accepted upload. */
  predicate OnlyAcceptedWritten(saves: seq<SaveCall>, items: seq<UploadedFile>, prefixes: seq<string>,
                                secure: string -> string, config: Config)
    requires |prefixes| == |items|
  {
    forall k :: 0 <= k < |saves| ==>
      exists i :: 0 <= i < |items| && Accepted(items[i]) && saves[k].path == UploadOutputPath(items, prefixes, secure, config, i)
  }

  /** Handling one file makes at most one writer call, only for an
      accepted file, and only to that file's output path. */
  lemma HandleStepSaves(files: map<string, StoredFile>, item: UploadedFile, prefix: string, secureName: string,
                        config: Config, settings: Settings, codec: Codec)
    ensures var saves := HandleStep(files, item, prefix, secureName, config, settings, codec).saves;
      && |saves| <= 1
      && (|saves| == 1 ==> Accepted(item) && saves[0].path == Join(config.outputFolder, OutputName(SavedName(prefix, secureName))))
  {
    if Accepted(item) {
      var saved := SavedName(prefix, secureName);
      var inputPath := Join(config.uploadFolder, saved);
      var outputPath := Join(config.outputFolder, OutputName(saved));
      RecompressWritesOutput(files[inputPath := item.content], inputPath, outputPath,
                             settings.quality, settings.ratio, settings.duration, codec);
    }
  }

  /** The compressor only ever runs for accepted files: a rejected upload
      causes no writer call. */
  lemma {:induction false} RejectedNeverCompressed(files: map<string, StoredFile>, items: seq<UploadedFile>, prefixes: seq<string>,
                                                   secure: string -> string, config: Config, settings: Settings, codec: Codec)
    requires |prefixes| == |items|
    ensures OnlyAcceptedWritten(RunUpload(files, items, prefixes, secure, config, settings, codec).saves,
                                items, prefixes, secure, config)
  {
    if items != [] {
      var n := |items|;
      var its, ps := items[..n - 1], prefixes[..n - 1];
      var prev := RunUpload(files, its, ps, secure, config, settings, codec);
      RejectedNeverCompressed(files, its, ps, secure, config, settings, codec);
      var step := HandleStep(prev.files, items[n - 1], prefixes[n - 1], secure(items[n - 1].filename), config, settings, codec);
      HandleStepSaves(prev.files, items[n - 1], prefixes[n - 1], secure(items[n - 1].filename), config, settings, codec);
      var saves := RunUpload(files, items, prefixes, secure, config, settings, codec).saves;
      assert saves == prev.saves + step.saves;
      forall k | 0 <= k < |saves|
        ensures exists i ::
          0 <= i < |items| && Accepted(items[i]) && saves[k].path == UploadOutputPath(items, prefixes, secure, config, i)
      {
        if k < |prev.saves| {
          assert saves[k] == prev.saves[k];
          var i :| 0 <= i < |its| && Accepted(its[i]) &&
            prev.saves[k].path == UploadOutputPath(its, ps, secure, config, i);
          assert items[i] == its[i] && prefixes[i] == ps[i];
          assert UploadOutputPath(items, prefixes, secure, config, i) == UploadOutputPath(its, ps, secure, config, i);
        } else {
          assert saves[k] == step.saves[0];
          assert Accepted(items[n - 1]) && saves[k].path == UploadOutputPath(items, prefixes, secure, config, n - 1);
        }
      }
      assert OnlyAcceptedWritten(saves, items, prefixes, secure, config);
    }
  }

  /** The loop body of `upload()` for one file. */
  method HandleFile(disk: Disk, item: UploadedFile, prefix: string, secureName: string,
                    config: Config, settings: Settings, enc: Encoder)
    returns (entry: Entry)
    modifies disk, enc
    ensures var step := HandleStep(old(disk.files), item, prefix, secureName, config, settings, enc.codec);
      disk.files == step.files && enc.saves == old(enc.saves) + step.saves && entry == step.entry
  {
    if item.filename != "" && AllowedFile(item.filename) {
      var savedName := SavedName(prefix, secureName);
      var inputPath := Join(config.uploadFolder, savedName);
      disk.Write(inputPath, item.content);
      var outputName := OutputName(savedName);
      var outputPath := Join(config.outputFolder, outputName);
      ghost var stored := disk.files;
      var ok := CompressAnimatedWebP(disk, inputPath, outputPath, settings.quality, settings.ratio, settings.duration, enc);
      RecompressWritesOutput(stored, inputPath, outputPath, settings.quality, settings.ratio, settings.duration, enc.codec);
      if ok {
        var originalSize := disk.Size(inputPath);
        var outputSize := disk.Size(outputPath);
        entry := Done(savedName, outputName, originalSize, outputSize);
      } else {
        entry := Failed(savedName, PROCESSING_FAILED);
      }
    } else {
      entry := Failed(item.filename, INVALID_EXTENSION);
    }
  }

  /** The `for file in files` loop of `upload()`. */
  method HandleAll(disk: Disk, items: seq<UploadedFile>, prefixes: seq<string>, secure: string -> string,
                   config: Config, settings: Settings, enc: Encoder)
    returns (processed: seq<Entry>)
    requires |prefixes| == |items|
    modifies disk, enc
    ensures var run := RunUpload(old(disk.files), items, prefixes, secure, config, settings, enc.codec);
      disk.files == run.files && enc.saves == old(enc.saves) + run.saves && processed == run.entries
  {
    processed := [];
    for i := 0 to |items|
      invariant var run := RunUpload(old(disk.files), items[..i], prefixes[..i], secure, config, settings, enc.codec);
        disk.files == run.files && enc.saves == old(enc.saves) + run.saves && processed == run.entries
    {
      var entry := HandleFile(disk, items[i], prefixes[i], secure(items[i].filename), config, settings, enc);
      processed := processed + [entry];
      assert items[..i + 1][..i] == items[..i] && prefixes[..i + 1][..i] == prefixes[..i];
    }
    assert items[..|items|] == items && prefixes[..|items|] == prefixes;
  }

  /** `upload()`: parse the form, redirect when nothing was uploaded,
      otherwise handle every file and render the entries. */
  method Upload(form: map<string, string>, parseFloat: string -> Option<Ratio>, items: seq<UploadedFile>,
                secure: string -> string, prefixes: seq<string>, config: Config, disk: Disk, enc: Encoder)
    returns (resp: Response)
    requires |prefixes| == |items|
    modifies disk, enc
    ensures items == [] ==> resp == Redirect(NO_FILE_UPLOADED) && disk.files == old(disk.files) && enc.saves == old(enc.saves)
    ensures items != [] ==>
      var run := RunUpload(old(disk.files), items, prefixes, secure, config, ParseForm(form, parseFloat), enc.codec);
      resp == Rendered(run.entries) && disk.files == run.files && enc.saves == old(enc.saves) + run.saves
  {
    var settings := ParseForm(form, parseFloat);
    if items == [] {
      return Redirect(NO_FILE_UPLOADED);
    }
    var processed := HandleAll(disk, items, prefixes, secure, config, settings, enc);
    resp := Rendered(processed);
  }
}
