/** The batch front end of main.py: per image, recognition then correction
    assembled into one record (falling back to the recognised text when
    correction fails); records with an error are not persisted; a directory
    run selects the image files by extension, processes them one by one
    without letting one failure stop the others, and tallies successes.

    Logging, timestamps and the JSON encoding of what is written are not
    modelled: a written file is described by its path and its content. */
module Pipeline {
  import opened Wrappers
  import opened Text
  import opened LlmCorrector
  import opened OcrEngine

  /** The Ollama server and model the batch run corrects with. */
  const OllamaHost: string := "http://localhost:11434"
  const OllamaModel: string := "mistral"

  /** The correction template of the configuration, split around its
      single `{text}` field; the part before the field is kept in two
      pieces so that each is shown brace-free on its own. */
  const ConfigIntro: string :=
    "다음은 OCR로 추출한 텍스트입니다. " +
    "문법 오류를 수정하고, " +
    "명확하지 않은 부분을 보정해주세요. "
  const ConfigRequest: string :=
    "원본 의미는 보존하면서 " +
    "자연스럽게 정정해주세요.\n\n" +
    "[원본 텍스트]\n"
  const ConfigTemplateHead: string := ConfigIntro + ConfigRequest
  const ConfigTemplateTail: string := "\n\n[정정된 텍스트]"
  const ConfigTemplate: string := ConfigTemplateHead + Placeholder + ConfigTemplateTail

  /** Which output files are written for a successful record. */
  const SaveJsonResult: bool := true
  const SaveRawText: bool := true
  const SaveCorrectedText: bool := true

  /** The suffixes (lower-cased) of the files a directory run processes. */
  const ImageExtensions: set<string> := {".jpg", ".jpeg", ".png", ".bmp", ".gif", ".tiff"}

  /** The `ocr` part of a record. */
  datatype OcrSummary = OcrSummary(rawText: string, confidence: real, wordCount: nat)

  /** The `correction` part of a record. */
  datatype CorrectionSummary = CorrectionSummary(
    correctedText: string,
    success: bool,
    model: string,
    error: Option<string>)

  /** The dictionary `process_single_image` returns: a full record, or one
      with exactly the keys `filename` and `error` (the message of the
      exception recognition raised). */
  datatype Record =
    | Processed(filename: string, ocr: OcrSummary, correction: CorrectionSummary)
    | Failed(filename: string, error: string)

  /** The record built from a recognition result and its correction: the
      corrected text is replaced by the raw text when correction failed, and
      a missing model reads as "unknown"; the error is kept as its message. */
  function AssembleRecord(filename: string, o: OcrResult, c: Correction): Record
  {
    Processed(
      filename,
      OcrSummary(o.fullText, o.confidenceAvg, o.numWords),
      CorrectionSummary(
        if c.success then c.corrected else o.fullText,
        c.success,
        c.model.GetOr("unknown"),
        if c.error.Some? then Some(ErrorMessage(c.error.value)) else None))
  }

  /** `process_single_image(path)` against `disk`, with the correction
      server answering `replies`. */
  function Process(c: Corrector, disk: Disk, path: string, replies: seq<Outcome>): Record
    requires DefaultMaxRetries <= |replies|
  {
    match Extract(disk, path)
    case Err(e) => Failed(Name(path), OcrErrorMessage(e))
    case Ok(o) => AssembleRecord(Name(path), o, Correct(c, o.fullText, DefaultMaxRetries, replies).0)
  }

  /** Every request in `posts` is the one `correct_text` posts for the text
      recognised in `path` with the correction template `template`; there
      are none when recognition fails. */
  ghost predicate PostedFor(c: Corrector, template: string, disk: Disk, path: string, posts: seq<Request>)
  {
    forall j :: 0 <= j < |posts| ==>
      && Extract(disk, path).Ok?
      && posts[j] == Request(c.apiUrl, c.model, Substitute(template, Extract(disk, path).value.fullText), false, Temperature, RequestTimeoutSeconds)
  }

  /** `process_single_image`, with `template` standing for the configured
      correction template it passes to `correct_text`: `posts` are the
      requests posted for the file, one per attempt, each with that
      template. */
  method ProcessSingleImage(c: Corrector, template: string, disk: Disk, path: string, replies: seq<Outcome>)
    returns (rec: Record, ghost posts: seq<Request>)
    requires DefaultMaxRetries <= |replies|
    ensures rec == Process(c, disk, path, replies)
    ensures Extract(disk, path).Ok? ==> |posts| == Correct(c, Extract(disk, path).value.fullText, DefaultMaxRetries, replies).1
    ensures PostedFor(c, template, disk, path, posts)
  {
    var ocr, _ := ExtractText(disk, path);
    if ocr.Err? {
      return Failed(Name(path), OcrErrorMessage(ocr.error)), [];
    }
    var rawText := ocr.value.fullText;
    var correction, sent, _ := CorrectText(c, rawText, Some(template), DefaultMaxRetries, replies);
    posts := sent;
    var correctedText := correction.corrected;
    if !correction.success {
      correctedText := rawText;
    }
    rec := Processed(
      Name(path),
      OcrSummary(rawText, ocr.value.confidenceAvg, ocr.value.numWords),
      CorrectionSummary(correctedText, correction.success, correction.model.GetOr("unknown"),
        if correction.error.Some? then Some(ErrorMessage(correction.error.value)) else None));
  }

  /** A file written by `save_results`. */
  datatype Output =
    | JsonResult(path: string, record: Record)
    | TextFile(path: string, content: string)

  /** `save_results(rec, base)`: the files written for one record. */
  function SaveResults(outputDir: string, rec: Record, base: string): seq<Output>
  {
    if rec.Failed? then []
    else
      var prefix := outputDir + "/" + base;
      (if SaveJsonResult then [JsonResult(prefix + "_result.json", rec)] else []) +
      (if SaveRawText then [TextFile(prefix + "_raw.txt", rec.ocr.rawText)] else []) +
      (if SaveCorrectedText then [TextFile(prefix + "_corrected.txt", rec.correction.correctedText)] else [])
  }

  /** Nothing is written for a record with an error; otherwise the JSON
      record, the raw text and the corrected text, under the base name. */
  lemma SaveResultsSkipsErrors(outputDir: string, rec: Record, base: string)
    ensures rec.Failed? <==> SaveResults(outputDir, rec, base) == []
    ensures rec.Processed? ==> SaveResults(outputDir, rec, base) == [
      JsonResult(outputDir + "/" + base + "_result.json", rec),
      TextFile(outputDir + "/" + base + "_raw.txt", rec.ocr.rawText),
      TextFile(outputDir + "/" + base + "_corrected.txt", rec.correction.correctedText)]
  {
  }

  /** The extension filter: the lower-cased suffix of the file's name is an
      image extension. */
  predicate IsImageFile(path: string)
  {
    IsImageSuffix(Suffix(Name(path)))
  }

  /** A suffix names an image when, lower-cased, it is one of the image
      extensions. */
  predicate IsImageSuffix(suffix: string)
  {
    Lower(suffix) in ImageExtensions
  }

  /** `[f for f in entries if keep(f)]`. */
  function Filter(entries: seq<string>, keep: string -> bool): (r: seq<string>)
    ensures |r| <= |entries|
    ensures forall x :: x in r ==> x in entries
  {
    if entries == [] then []
    else (if keep(entries[0]) then [entries[0]] else []) + Filter(entries[1..], keep)
  }

  /** `[f for f in entries if f.suffix.lower() in image_extensions]`. */
  function ImageFiles(entries: seq<string>): (r: seq<string>)
    ensures |r| <= |entries|
    ensures forall x :: x in r ==> x in entries
  {
    Filter(entries, IsImageFile)
  }

  /** `sum(1 for r in records if 'error' not in r)`. */
  function CountSuccessful(records: seq<Record>): nat
  {
    if records == [] then 0
    else CountSuccessful(records[..|records| - 1]) + (if records[|records| - 1].Failed? then 0 else 1)
  }

  /** The number of records with an error. */
  function CountFailed(records: seq<Record>): nat
  {
    if records == [] then 0
    else CountFailed(records[..|records| - 1]) + (if records[|records| - 1].Failed? then 1 else 0)
  }

  /** The base name `save_results` is given for each file: the stem of its
      name. */
  function BaseNames(files: seq<string>): (r: seq<string>)
    ensures |r| == |files|
  {
    seq(|files|, i requires 0 <= i < |files| => Stem(Name(files[i])))
  }

  /** Everything `save_results` writes for the first `n` records, each
      under its base name, in order. */
  function Outputs(outputDir: string, bases: seq<string>, records: seq<Record>, n: nat): seq<Output>
    requires n <= |bases| && n <= |records|
  {
    if n == 0 then []
    else Outputs(outputDir, bases, records, n - 1) + SaveResults(outputDir, records[n - 1], bases[n - 1])
  }

  /** The outputs for the first `n` records depend on those records only. */
  lemma {:induction false} OutputsOfPrefix(outputDir: string, bases: seq<string>, a: seq<Record>, b: seq<Record>, n: nat)
    requires n <= |bases| && n <= |a| && n <= |b|
    requires forall k :: 0 <= k < n ==> a[k] == b[k]
    ensures Outputs(outputDir, bases, a, n) == Outputs(outputDir, bases, b, n)
  {
    if n > 0 {
      OutputsOfPrefix(outputDir, bases, a, b, n - 1);
      assert a[n - 1] == b[n - 1];
    }
  }

  /** Writing the next record's files extends the outputs by that record. */
  lemma OutputsStep(outputDir: string, files: seq<string>, records: seq<Record>, rec: Record, i: nat)
    requires i == |records| < |files|
    ensures Outputs(outputDir, BaseNames(files), records, i) + SaveResults(outputDir, rec, Stem(Name(files[i])))
      == Outputs(outputDir, BaseNames(files), records + [rec], i + 1)
  {
    OutputsOfPrefix(outputDir, BaseNames(files), records, records + [rec], i);
  }

  /** How a directory run ends: nothing exists at the path; the path is not
      a directory, so listing it raises after both engines were built and
      the run aborts with no record and no summary; the directory holds no
      image file; or every image file was processed. */
  datatype DirectoryRun =
    | MissingDirectory
    | NotADirectory
    | NoImages
    | Completed(results: seq<Record>, outputs: seq<Output>, successful: nat, failures: nat)

  /** The corrector a directory run uses. */
  function BatchCorrector(): Corrector
  {
    NewCorrector(OllamaHost, OllamaModel)
  }

  /** The records of the first `n` paths, in order: what processing each
      file one after the other produces. */
  function Records(c: Corrector, disk: Disk, paths: seq<string>, replies: map<string, seq<Outcome>>, n: nat): (r: seq<Record>)
    requires n <= |paths|
    requires forall p :: p in paths ==> p in replies && DefaultMaxRetries <= |replies[p]|
    ensures |r| == n
  {
    if n == 0 then []
    else Records(c, disk, paths, replies, n - 1) + [Process(c, disk, paths[n - 1], replies[paths[n - 1]])]
  }

  /** The i-th record is the i-th path's. */
  lemma {:induction false} RecordAt(c: Corrector, disk: Disk, paths: seq<string>, replies: map<string, seq<Outcome>>, n: nat, i: nat)
    requires i < n <= |paths|
    requires forall p :: p in paths ==> p in replies && DefaultMaxRetries <= |replies[p]|
    ensures paths[i] in replies && DefaultMaxRetries <= |replies[paths[i]]|
    ensures Records(c, disk, paths, replies, n)[i] == Process(c, disk, paths[i], replies[paths[i]])
  {
    if i < n - 1 {
      RecordAt(c, disk, paths, replies, n - 1, i);
    } else {
      assert paths[i] in paths;
    }
  }

  /** Appending the next path's record extends the records by one path. */
  lemma RecordsStep(c: Corrector, disk: Disk, paths: seq<string>, replies: map<string, seq<Outcome>>, i: nat, results: seq<Record>, rec: Record)
    requires i < |paths|
    requires forall p :: p in paths ==> p in replies && DefaultMaxRetries <= |replies[p]|
    requires results == Records(c, disk, paths, replies, i)
    requires rec == Process(c, disk, paths[i], replies[paths[i]])
    ensures results + [rec] == Records(c, disk, paths, replies, i + 1)
  {
  }

  /** Appending the next file's posts keeps every file's posts its own. */
  lemma PostedStep(c: Corrector, template: string, disk: Disk, images: seq<string>, posts: seq<seq<Request>>, sent: seq<Request>, i: nat)
    requires i == |posts| < |images|
    requires forall k :: 0 <= k < i ==> PostedFor(c, template, disk, images[k], posts[k])
    requires PostedFor(c, template, disk, images[i], sent)
    ensures forall k :: 0 <= k < i + 1 ==> PostedFor(c, template, disk, images[k], (posts + [sent])[k])
  {
  }

  /** The loop of `process_directory` over the selected files: one record
      per file, in order, each file's outputs written after its record;
      `posts[k]` are the requests posted for the k-th file, none when its
      recognition failed. */
  method ProcessImages(c: Corrector, template: string, outputDir: string, images: seq<string>, disk: Disk, replies: map<string, seq<Outcome>>)
    returns (results: seq<Record>, outputs: seq<Output>, ghost posts: seq<seq<Request>>)
    requires forall p :: p in images ==> p in replies && DefaultMaxRetries <= |replies[p]|
    ensures results == Records(c, disk, images, replies, |images|)
    ensures outputs == Outputs(outputDir, BaseNames(images), results, |images|)
    ensures |posts| == |images|
    ensures forall k :: 0 <= k < |images| ==> PostedFor(c, template, disk, images[k], posts[k])
  {
    results, outputs, posts := [], [], [];
    for i := 0 to |images|
      invariant results == Records(c, disk, images, replies, i)
      invariant outputs == Outputs(outputDir, BaseNames(images), results, i)
      invariant |posts| == i
      invariant forall k :: 0 <= k < i ==> PostedFor(c, template, disk, images[k], posts[k])
    {
      var path := images[i];
      assert path in images;
      var rec, sent := ProcessSingleImage(c, template, disk, path, replies[path]);
      RecordsStep(c, disk, images, replies, i, results, rec);
      OutputsStep(outputDir, images, results, rec, i);
      results := results + [rec];
      outputs := outputs + SaveResults(outputDir, rec, Stem(Name(path)));
      PostedStep(c, template, disk, images, posts, sent, i);
      posts := posts + [sent];
    }
  }

  /** `process_directory`: `pathExists` is whether anything exists at the
      path, `isDirectory` whether it is a directory, `entries` the directory
      listing in iteration order and `replies[p]` what the correction server
      answers for `p`; `posts[k]` are the requests posted for the k-th
      selected file, all with the configured correction template. */
  method ProcessDirectory(outputDir: string, pathExists: bool, isDirectory: bool, entries: seq<string>, disk: Disk, replies: map<string, seq<Outcome>>)
    returns (run: DirectoryRun, ghost posts: seq<seq<Request>>)
    requires forall p :: p in entries ==> p in replies && DefaultMaxRetries <= |replies[p]|
    ensures !pathExists ==> run == MissingDirectory
    ensures pathExists && !isDirectory ==> run == NotADirectory
    ensures pathExists && isDirectory && ImageFiles(entries) == [] ==> run == NoImages
    ensures pathExists && isDirectory && ImageFiles(entries) != [] ==> run.Completed?
    ensures run.Completed? ==>
      var images := ImageFiles(entries);
      && run.results == Records(BatchCorrector(), disk, images, replies, |images|)
      && run.outputs == Outputs(outputDir, BaseNames(images), run.results, |images|)
      && run.successful == CountSuccessful(run.results)
      && run.failures == CountFailed(run.results)
      && run.successful + run.failures == |images|
    ensures !run.Completed? ==> posts == []
    ensures run.Completed? ==>
      var images := ImageFiles(entries);
      && |posts| == |images|
      && forall k :: 0 <= k < |images| ==> PostedFor(BatchCorrector(), ConfigTemplate, disk, images[k], posts[k])
  {
    if !pathExists {
      return MissingDirectory, [];
    }
    var c := NewCorrector(OllamaHost, OllamaModel);
    if !isDirectory {
      return NotADirectory, [];
    }
    var images := ImageFiles(entries);
    if images == [] {
      return NoImages, [];
    }
    var results, outputs, sent := ProcessImages(c, ConfigTemplate, outputDir, images, disk, replies);
    posts := sent;
    var successful := CountSuccessful(results);
    CountsPartition(results);
    run := Completed(results, outputs, successful, |images| - successful);
  }

  // ---------------------------------------------------------------------
  // Properties of record assembly, persistence and the directory run

  /** A record has an error exactly when recognition failed, and then it
      holds only the file name and that error. */
  lemma ErrorRecordIffRecognitionFails(c: Corrector, disk: Disk, path: string, replies: seq<Outcome>)
    requires DefaultMaxRetries <= |replies|
    ensures Process(c, disk, path, replies).Failed? <==> Extract(disk, path).Err?
    ensures Extract(disk, path).Err? ==>
      Process(c, disk, path, replies) == Failed(Name(path), OcrErrorMessage(Extract(disk, path).error))
  {
  }

  /** A processed record copies the recognition result and never loses
      text: a failed correction falls back to the raw text and to the model
      "unknown", and a blank raw text is always kept as it is, with the
      "empty text" error. */
  lemma FailedCorrectionFallsBackToRawText(c: Corrector, disk: Disk, path: string, replies: seq<Outcome>)
    requires DefaultMaxRetries <= |replies|
    requires Extract(disk, path).Ok?
    ensures var rec, o := Process(c, disk, path, replies), Extract(disk, path).value;
      && rec.Processed?
      && rec.ocr == OcrSummary(o.fullText, o.confidenceAvg, o.numWords)
      && (!rec.correction.success ==> rec.correction.correctedText == o.fullText && rec.correction.model == "unknown")
      && (!rec.correction.success <==> rec.correction.error.Some?)
      && (IsBlank(o.fullText) ==>
            rec.correction.correctedText == o.fullText && !rec.correction.success &&
            rec.correction.error == Some(ErrorMessage(EmptyText)) && rec.correction.model == "unknown")
  {
    var o := Extract(disk, path).value;
    BlankTextIsRefused(c, o.fullText, DefaultMaxRetries, replies);
    CorrectionShape(c, o.fullText, DefaultMaxRetries, replies);
  }

  /** A successful correction names the corrector's model, reports no error,
      and its text is the stripped answer of one of the server's 200 replies
      to a non-blank raw text. */
  lemma SuccessfulCorrectionComesFromServer(c: Corrector, disk: Disk, path: string, replies: seq<Outcome>)
    requires DefaultMaxRetries <= |replies|
    requires Process(c, disk, path, replies).Processed?
    requires Process(c, disk, path, replies).correction.success
    ensures var rec := Process(c, disk, path, replies);
      && rec.correction.model == c.model && rec.correction.error == None
      && !IsBlank(rec.ocr.rawText)
      && exists k :: 0 <= k < DefaultMaxRetries && replies[k].Http200? &&
           rec.correction.correctedText == Strip(replies[k].response.GetOr(""))
  {
    var o := Extract(disk, path).value;
    BlankTextIsRefused(c, o.fullText, DefaultMaxRetries, replies);
    CorrectionShape(c, o.fullText, DefaultMaxRetries, replies);
    CorrectCharacterised(c, o.fullText, DefaultMaxRetries, replies);
    var (r, n) := Correct(c, o.fullText, DefaultMaxRetries, replies);
    assert Process(c, disk, path, replies) == AssembleRecord(Name(path), o, r);
    assert r.success;
    assert Classify(c, o.fullText, replies[n - 1], n - 1, DefaultMaxRetries) == Finish(r);
    assert replies[n - 1].Http200?;
  }

  /** The batch run's template puts the raw text between its instructions
      and its answer marker. */
  lemma ConfigPrompt(text: string)
    ensures Prompt(Some(ConfigTemplate), text) == ConfigTemplateHead + text + ConfigTemplateTail
  {
    ConfigIntroBraceFree();
    ConfigRequestBraceFree();
    assert '{' !in ConfigTemplateTail;
    SubstituteSingle(ConfigTemplateHead, ConfigTemplateTail, text);
  }

  /** Every request a directory run posts for a file carries the raw text
      of that file between the configured instructions and answer marker. */
  lemma ConfigPosts(c: Corrector, disk: Disk, path: string, posts: seq<Request>)
    requires PostedFor(c, ConfigTemplate, disk, path, posts)
    ensures posts != [] ==> Extract(disk, path).Ok?
    ensures Extract(disk, path).Ok? ==> forall j :: 0 <= j < |posts| ==>
      posts[j].prompt == ConfigTemplateHead + Extract(disk, path).value.fullText + ConfigTemplateTail
  {
    if posts != [] {
      assert posts[0] in posts;
    }
    if Extract(disk, path).Ok? {
      var text := Extract(disk, path).value.fullText;
      ConfigPrompt(text);
      assert Prompt(Some(ConfigTemplate), text) == Substitute(ConfigTemplate, text);
    }
  }

  lemma ConfigIntroBraceFree()
    ensures '{' !in ConfigIntro
  {
  }

  lemma ConfigRequestBraceFree()
    ensures '{' !in ConfigRequest
  {
  }

  /** Selection is exactly the entries with an image extension. */
  lemma ImageFilesMembership(entries: seq<string>, x: string)
    ensures x in ImageFiles(entries) <==> x in entries && IsImageFile(x)
  {
    FilterMembership(entries, IsImageFile, x);
  }

  /** Selection keeps the listing's order: filtering a concatenation is
      concatenating the filtered parts. */
  lemma ImageFilesAppend(a: seq<string>, b: seq<string>)
    ensures ImageFiles(a + b) == ImageFiles(a) + ImageFiles(b)
  {
    FilterAppend(a, b, IsImageFile);
  }

  lemma {:induction false} FilterMembership(entries: seq<string>, keep: string -> bool, x: string)
    ensures x in Filter(entries, keep) <==> x in entries && keep(x)
  {
    if entries != [] {
      FilterMembership(entries[1..], keep, x);
      assert entries == [entries[0]] + entries[1..];
    }
  }

  lemma {:induction false} FilterAppend(a: seq<string>, b: seq<string>, keep: string -> bool)
    ensures Filter(a + b, keep) == Filter(a, keep) + Filter(b, keep)
  {
    if a == [] {
      assert a + b == b;
    } else {
      var head := if keep(a[0]) then [a[0]] else [];
      calc {
        Filter(a + b, keep);
        == { assert (a + b)[0] == a[0]; assert (a + b)[1..] == a[1..] + b; }
        head + Filter(a[1..] + b, keep);
        == { FilterAppend(a[1..], b, keep); }
        head + (Filter(a[1..], keep) + Filter(b, keep));
        ==
        Filter(a, keep) + Filter(b, keep);
      }
    }
  }

  /** A file `dir/stem.ext` is selected exactly when its stem is not empty
      and `.ext`, lower-cased, is an image extension: the comparison ignores
      case, and a hidden file such as `.png` has no suffix at all. */
  lemma SelectionByExtension(dir: string, stem: string, ext: string)
    requires '/' !in stem && '/' !in ext && '.' !in ext && ext != []
    ensures IsImageFile(dir + "/" + stem + "." + ext) <==> stem != [] && IsImageSuffix("." + ext)
  {
    var name := stem + "." + ext;
    var path := dir + "/" + stem + "." + ext;
    assert path == dir + "/" + name;
    assert '/' !in name;
    NameAfterSlash(dir, name);
    var suffix := SuffixOfDotted(stem, ext);
    assert Suffix(Name(path)) == suffix;
    if stem == [] {
      assert !IsImageSuffix("");
    }
  }

  /** The suffix of `stem.ext`: `.ext`, or nothing when the stem is empty. */
  lemma SuffixOfDotted(stem: string, ext: string) returns (suffix: string)
    requires '.' !in ext && ext != []
    ensures suffix == Suffix(stem + "." + ext)
    ensures suffix == if stem == [] then "" else "." + ext
  {
    var name := stem + "." + ext;
    LastDotAfter(stem, ext);
    suffix := Suffix(name);
    if stem != [] {
      assert name[|stem|..] == "." + ext;
    }
  }

  lemma NameAfterSlash(dir: string, file: string)
    requires '/' !in file
    ensures Name(dir + "/" + file) == file
  {
    var p := dir + "/" + file;
    LastIndexSpec(p, '/', |p|, |dir|);
    assert p[|dir| + 1..] == file;
  }

  lemma LastDotAfter(a: string, b: string)
    requires '.' !in b
    ensures LastDot(a + "." + b) == |a|
  {
    var s := a + "." + b;
    LastIndexSpec(s, '.', |s|, |a|);
  }

  /** Every record is counted once, as a success or as a failure. */
  lemma {:induction false} CountsPartition(records: seq<Record>)
    ensures CountSuccessful(records) + CountFailed(records) == |records|
  {
    if records != [] {
      CountsPartition(records[..|records| - 1]);
    }
  }

  /** Three files are written per successful record and none per failure. */
  lemma {:induction false} OutputsPerSuccess(outputDir: string, bases: seq<string>, records: seq<Record>, n: nat)
    requires n <= |bases| && n <= |records|
    ensures |Outputs(outputDir, bases, records, n)| == 3 * CountSuccessful(records[..n])
  {
    if n > 0 {
      OutputsPerSuccess(outputDir, bases, records, n - 1);
      SaveResultsSkipsErrors(outputDir, records[n - 1], bases[n - 1]);
      assert records[..n][..n - 1] == records[..n - 1];
    }
  }
}
