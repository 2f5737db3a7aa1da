/** The recognition adapter of ocr_engine.py: checks that the image file
    exists and decodes, hands it to the recogniser, and aggregates the
    recogniser's `(bbox, text, confidence)` fragments into one result.

    The file system, the image decoder and the recogniser are replaced by a
    `Disk`: what is stored under each existing path. */
module OcrEngine {
  import opened Wrappers
  import opened Text

  datatype Point = Point(x: real, y: real)

  /** The corner points of a fragment's box, passed through untouched. */
  type BoundingBox = seq<Point>

  /** One `(bbox, text, confidence)` triple returned by `readtext`. */
  datatype Fragment = Fragment(bbox: BoundingBox, text: string, confidence: real)

  /** One `{'bbox', 'text', 'confidence'}` entry of `details`. */
  datatype Detail = Detail(bbox: BoundingBox, text: string, confidence: real)

  /** The dictionary `extract_text` returns. */
  datatype OcrResult = OcrResult(fullText: string, confidenceAvg: real, numWords: nat, details: seq<Detail>)

  /** What is found under an existing path:
      - `Unreadable`: a file that cannot be opened or read (a directory, say);
      - `Undecodable`: bytes for which `cv2.imdecode` returns `None`;
      - `DecoderRaised`: bytes on which `cv2.imdecode` itself raises (an
        empty file fails its non-empty-buffer assertion), with the message;
      - `Decoded`: an image, with what the recogniser makes of it (its
        fragments, or the message of the exception it raised). */
  datatype Stored =
    | Unreadable(message: string)
    | Undecodable
    | DecoderRaised(message: string)
    | Decoded(recognised: Result<seq<Fragment>, string>)

  type Disk = map<string, Stored>

  /** `Path(path).exists()`. */
  predicate Exists(disk: Disk, path: string)
  {
    path in disk
  }

  /** `cv2.imdecode` returns an image for the file's bytes. */
  predicate Decodes(s: Stored)
  {
    s.Decoded?
  }

  /** The exceptions `extract_text` raises. */
  datatype OcrError =
    | FileNotFound(path: string)
    | ReadFailed(message: string)
    | DecodeFailed(path: string)
    | DecoderError(message: string)
    | RecogniserFailed(message: string)

  /** `str(e)` of those exceptions. */
  function OcrErrorMessage(e: OcrError): string
  {
    match e
    case FileNotFound(path) => "이미지 파일을 찾을 수 없습니다: " + path
    case ReadFailed(message) => message
    case DecodeFailed(path) => "이미지를 읽을 수 없습니다: " + path
    case DecoderError(message) => message
    case RecogniserFailed(message) => message
  }

  /** The external steps `extract_text` takes, in order. */
  datatype Stage = ReadFile | Decode | Recognise

  function Texts(fs: seq<Fragment>): seq<string>
  {
    seq(|fs|, i requires 0 <= i < |fs| => fs[i].text)
  }

  function Confidences(fs: seq<Fragment>): seq<real>
  {
    seq(|fs|, i requires 0 <= i < |fs| => fs[i].confidence)
  }

  function DetailOf(f: Fragment): Detail
  {
    Detail(f.bbox, f.text, f.confidence)
  }

  function Details(fs: seq<Fragment>): seq<Detail>
  {
    seq(|fs|, i requires 0 <= i < |fs| => DetailOf(fs[i]))
  }

  /** `sum(xs)`. */
  function Sum(xs: seq<real>): real
  {
    if xs == [] then 0.0 else Sum(xs[..|xs| - 1]) + xs[|xs| - 1]
  }

  /** `sum(xs) / len(xs) if xs else 0.0`. */
  function Mean(xs: seq<real>): real
  {
    if xs == [] then 0.0 else Sum(xs) / (|xs| as real)
  }

  /** The result built from the recogniser's fragments. */
  function Aggregate(fs: seq<Fragment>): OcrResult
  {
    if fs == [] then OcrResult("", 0.0, 0, [])
    else OcrResult(Join(Texts(fs)), Mean(Confidences(fs)), |fs|, Details(fs))
  }

  /** `extract_text(path)`: its result, or the exception it raises. */
  function Extract(disk: Disk, path: string): Result<OcrResult, OcrError>
  {
    if !Exists(disk, path) then Err(FileNotFound(path))
    else match disk[path]
      case Unreadable(message) => Err(ReadFailed(message))
      case Undecodable => Err(DecodeFailed(path))
      case DecoderRaised(message) => Err(DecoderError(message))
      case Decoded(Err(message)) => Err(RecogniserFailed(message))
      case Decoded(Ok(fs)) => Ok(Aggregate(fs))
  }

  /** `OCREngine.extract_text`: a missing path fails before anything is
      read, an undecodable file fails before the recogniser runs, and the
      recogniser's fragments are aggregated in order. */
  method ExtractText(disk: Disk, path: string) returns (res: Result<OcrResult, OcrError>, ghost stages: seq<Stage>)
    ensures res == Extract(disk, path)
    ensures !Exists(disk, path) ==> stages == []
    ensures Exists(disk, path) && disk[path].Unreadable? ==> stages == [ReadFile]
    ensures Exists(disk, path) && !disk[path].Unreadable? && !Decodes(disk[path]) ==> stages == [ReadFile, Decode]
    ensures Exists(disk, path) && Decodes(disk[path]) ==> stages == [ReadFile, Decode, Recognise]
  {
    if !Exists(disk, path) {
      return Err(FileNotFound(path)), [];
    }
    var stored := disk[path];
    stages := [ReadFile];
    if stored.Unreadable? {
      return Err(ReadFailed(stored.message)), stages;
    }
    stages := stages + [Decode];
    if stored.DecoderRaised? {
      return Err(DecoderError(stored.message)), stages;
    }
    if !Decodes(stored) {
      return Err(DecodeFailed(path)), stages;
    }
    stages := stages + [Recognise];
    if stored.recognised.Err? {
      return Err(RecogniserFailed(stored.recognised.error)), stages;
    }
    var fragments := stored.recognised.value;
    if fragments == [] {
      return Ok(OcrResult("", 0.0, 0, [])), stages;
    }
    var texts: seq<string> := [];
    var confidences: seq<real> := [];
    var details: seq<Detail> := [];
    for i := 0 to |fragments|
      invariant |texts| == |confidences| == |details| == i
      invariant forall j :: 0 <= j < i ==> texts[j] == fragments[j].text
      invariant forall j :: 0 <= j < i ==> confidences[j] == fragments[j].confidence
      invariant forall j :: 0 <= j < i ==> details[j] == DetailOf(fragments[j])
    {
      var f := fragments[i];
      texts := texts + [f.text];
      confidences := confidences + [f.confidence];
      details := details + [Detail(f.bbox, f.text, f.confidence)];
    }
    assert texts == Texts(fragments);
    assert confidences == Confidences(fragments);
    assert details == Details(fragments);
    var fullText := Join(texts);
    var average := if confidences != [] then Sum(confidences) / (|confidences| as real) else 0.0;
    res := Ok(OcrResult(fullText, average, |texts|, details));
  }

  /** One entry of `extract_text_batch`'s result: a failure keeps the
      message of the exception. */
  datatype BatchEntry =
    | Extracted(filename: string, result: OcrResult)
    | ExtractFailed(filename: string, error: string)

  /** The entry for one path: its file name, with the result or the error. */
  function EntryFor(disk: Disk, path: string): (e: BatchEntry)
    ensures e.filename == Name(path)
    ensures e.Extracted? <==> Extract(disk, path).Ok?
    ensures e.Extracted? ==> e.result == Extract(disk, path).value
    ensures e.ExtractFailed? ==> e.error == OcrErrorMessage(Extract(disk, path).error)
  {
    match Extract(disk, path)
    case Ok(r) => Extracted(Name(path), r)
    case Err(e) => ExtractFailed(Name(path), OcrErrorMessage(e))
  }

  /** `OCREngine.extract_text_batch`: one entry per path, in order; a path
      that fails yields a failure entry and the later paths are still
      processed. */
  method ExtractTextBatch(disk: Disk, paths: seq<string>) returns (entries: seq<BatchEntry>)
    ensures |entries| == |paths|
    ensures forall i :: 0 <= i < |paths| ==> entries[i] == EntryFor(disk, paths[i])
  {
    entries := [];
    for i := 0 to |paths|
      invariant |entries| == i
      invariant forall j :: 0 <= j < i ==> entries[j] == EntryFor(disk, paths[j])
    {
      var res, _ := ExtractText(disk, paths[i]);
      var entry := if res.Ok? then Extracted(Name(paths[i]), res.value) else ExtractFailed(Name(paths[i]), OcrErrorMessage(res.error));
      assert entry == EntryFor(disk, paths[i]);
      entries := entries + [entry];
    }
  }

  // ---------------------------------------------------------------------
  // Properties of the aggregation

  /** Every fragment is kept, in the recogniser's order: one word and one
      detail per fragment, each detail carrying the fragment's box, text
      and confidence unchanged. */
  lemma AggregateKeepsEveryFragment(fs: seq<Fragment>)
    ensures var r := Aggregate(fs);
      && r.numWords == |fs| && |r.details| == |fs|
      && forall i :: 0 <= i < |fs| ==>
           r.details[i].bbox == fs[i].bbox && r.details[i].text == fs[i].text &&
           r.details[i].confidence == fs[i].confidence
  {
  }

  /** With no fragments the result is empty text, confidence 0, no words
      and no details. */
  lemma AggregateEmpty()
    ensures Aggregate([]) == OcrResult("", 0.0, 0, [])
  {
  }

  /** The full text is the fragment texts separated by single spaces: its
      length is theirs plus one per gap, and splitting it at spaces gives
      the fragment texts back when none of them contains a space. */
  lemma {:induction false} FullTextJoinsFragments(fs: seq<Fragment>)
    requires fs != []
    ensures |Aggregate(fs).fullText| == TotalLength(Texts(fs)) + |fs| - 1
    ensures (forall i :: 0 <= i < |fs| ==> ' ' !in fs[i].text) ==> Split(Aggregate(fs).fullText) == Texts(fs)
  {
    if forall i :: 0 <= i < |fs| ==> ' ' !in fs[i].text {
      SplitJoin(Texts(fs));
    }
  }

  lemma {:induction false} SumBounds(xs: seq<real>)
    requires forall i :: 0 <= i < |xs| ==> 0.0 <= xs[i] <= 1.0
    ensures 0.0 <= Sum(xs) <= |xs| as real
  {
    if xs != [] {
      SumBounds(xs[..|xs| - 1]);
    }
  }

  /** Confidences between 0 and 1 average to a value between 0 and 1. */
  lemma MeanConfidenceBounds(fs: seq<Fragment>)
    requires forall i :: 0 <= i < |fs| ==> 0.0 <= fs[i].confidence <= 1.0
    ensures 0.0 <= Aggregate(fs).confidenceAvg <= 1.0
  {
    SumBounds(Confidences(fs));
  }

  /** A file that does not exist fails with "not found"; one whose bytes
      decode to nothing fails with the decode error, and one on which the
      decoder raises fails with the decoder's own message; only a decoded
      image yields a result. */
  lemma ExtractErrors(disk: Disk, path: string)
    ensures !Exists(disk, path) ==> Extract(disk, path) == Err(FileNotFound(path))
    ensures Exists(disk, path) && disk[path] == Undecodable ==> Extract(disk, path) == Err(DecodeFailed(path))
    ensures Exists(disk, path) && disk[path].DecoderRaised? ==>
      Extract(disk, path).Err? && OcrErrorMessage(Extract(disk, path).error) == disk[path].message
    ensures Extract(disk, path).Ok? ==> Exists(disk, path) && Decodes(disk[path])
  {
  }
}
