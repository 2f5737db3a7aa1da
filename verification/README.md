# MyEasyOCR core, modelled in Dafny

MyEasyOCR reads text from images with EasyOCR and then asks a local Ollama
language model to correct what was recognised. This project models the
logic that the program itself contributes, with each external service
replaced by an input:

- **The correction client** (`LLMCorrector`, `llm_corrector.py`).
  - It builds a prompt from a template with `{text}` replaced by the input.
    The built-in template is used when no template is given.
  - It POSTs the prompt up to `max_retries` times, pausing one second
    between attempts.
  - It classifies each outcome:
    - an HTTP 200 returns success with the stripped `response` field;
    - a refused connection returns failure at once;
    - any other status, a timeout or any other exception is retried;
    - on the last attempt, those retryable failures return failure with the
      original text.
  - Blank input is refused before any request.
  - `batch_correct` corrects a list of texts in order.
  - The HTTP transport is a sequence of `Outcome`s, one per POST. The
    requests posted and the pauses taken are ghost results of
    `LlmCorrector.CorrectText`. The requests are also ghost results of
    `BatchCorrect`, `ProcessSingleImage`, `ProcessImages` and
    `ProcessDirectory`, so that each states which template its requests
    carry.
- **The recognition adapter** (`OCREngine`, `ocr_engine.py`).
  - `extract_text` fails, in this order, on a missing file, an unreadable
    file, bytes on which the decoder raises, bytes it decodes to nothing,
    or a recogniser error. Each failure is reported by its message.
  - Otherwise it aggregates the recogniser's `(bbox, text, confidence)`
    fragments. The result holds:
    - the texts joined by single spaces;
    - the mean confidence;
    - the fragment count;
    - one detail per fragment, in order.
  - `extract_text_batch` gives one entry per path, and a failing path does
    not stop the others.
  - The file system, the decoder and the recogniser are a `Disk` map from
    path to what is stored there.
- **The batch front end** (`main.py`).
  - `process_single_image` assembles one record from recognition and
    correction. It falls back to the raw text when correction fails, and
    returns an error record when recognition fails.
  - `save_results` writes nothing for an error record, and otherwise writes
    three files.
  - `process_directory` does the following:
    - selects the files whose lower-cased suffix is an image extension;
    - processes them one by one;
    - writes each one's outputs;
    - counts the successes and failures.
  - A path that exists but is not a directory aborts the run when it is
    listed, after both engines are built, with no record written.
  - `process_single_image` reads the correction template from the module
    constant `CORRECTION_PROMPT_TEMPLATE`. Here it takes that template as
    the parameter `template`, and `ProcessDirectory` passes the configured
    `ConfigTemplate` down through `ProcessImages`.

The Python string operations the code relies on are modelled in `text.dfy`:
`strip`, `' '.join`, `str.format` with a single `{text}` field,
`rstrip('/')`, `lower`, and `PurePath.name`, `.suffix` and `.stem`. Each
except `lower` comes with lemmas that characterise it; how far `lower` is
modelled is stated under "## Left out".

Every stateful operation is a method that matches the source's loop:
- `CorrectText`, `BatchCorrect`, `ExtractText`, `ExtractTextBatch` and
  `ProcessImages` each loop as the source does;
- `ProcessSingleImage` and `ProcessDirectory` follow the source's branches.

Each method is proved against a specification function (`Correct`,
`Extract`, `EntryFor`, `Process`, `Records`, `Outputs`). The properties the
source promises are lemmas about those functions.

## Model

| member | source | states |
|---|---|---|
| LlmCorrector.NewCorrector | llm_corrector.py:17-27 | the model is kept, the host loses exactly its trailing `/` characters (what remains is a prefix not ending in `/`), and the endpoint is `<host>/api/generate` |
| LlmCorrector.Classify | llm_corrector.py:122-176 | an attempt is retried iff its outcome is neither a 200 nor a refused connection and it is not the last attempt; a finishing 200 gives success with the stripped `response` field (empty when absent), the corrector's model and no error; every other finish is a failure that keeps the original text and reports the outcome's error kind |
| LlmCorrector.CorrectText | llm_corrector.py:67-185 | the result and the number of POSTs are those of the retry policy `Correct`; every POST carries the corrector's endpoint and model, the prompt built from the template, `stream` false, temperature 0.3 and a 120-second timeout; one pause is taken between consecutive POSTs and none after the last |
| LlmCorrector.BatchCorrect | llm_corrector.py:187-203 | one result per text, in input order, each the result of correcting that text with the default 3 attempts; the requests posted for each text are as many as that correction's attempts, and each is the request for that text with the caller's template |
| LlmCorrector.AttemptsStopAtFirstFinish | llm_corrector.py:107-178 | from any attempt on, the loop makes at least one more POST, stops at the first attempt whose outcome finishes, and every attempt before that one retried |
| LlmCorrector.CorrectCharacterised | llm_corrector.py:107-178 | with at least one attempt allowed, a non-blank text makes between 1 and `max_retries` POSTs, all but the last retried, and the last one's classification is the result |
| LlmCorrector.AttemptsSkipRetries | llm_corrector.py:107-178 | a run of attempts that all retry does not change where the loop ends |
| LlmCorrector.FirstSuccessWins | llm_corrector.py:122-133 | if the first outcome that is not retryable is a 200 at attempt k, the call succeeds with the stripped `response` field, the corrector's model and no error, after exactly k+1 POSTs |
| LlmCorrector.RefusedConnectionIsFatal | llm_corrector.py:156-166 | a refused connection at attempt k, after only retryable failures, ends the call after exactly k+1 POSTs with a failure that keeps the original text and reports the unreachable server |
| LlmCorrector.RetryableFailuresUseEveryAttempt | llm_corrector.py:134-176 | when every outcome is a non-200 status, a timeout or another exception, all `max_retries` POSTs are made and the call fails with the original text and the last outcome's error |
| LlmCorrector.BlankTextIsRefused | llm_corrector.py:84-90 | the "empty text" error is reported iff the text is blank (empty or only whitespace), and then with corrected text `''`, no success and no POST |
| LlmCorrector.ExhaustedOnlyWithoutAttempts | llm_corrector.py:107-185 | the trailing "retries exhausted" result is reached iff a non-blank text is given `max_retries <= 0`, and then no POST is made |
| LlmCorrector.CorrectionShape | llm_corrector.py:84-185 | every result keeps the original text; a success reports the corrector's model and a failure no model; success iff there is no error; a failure's corrected text is the original text, or `''` for blank input; at most `max_retries` POSTs |
| LlmCorrector.DefaultPrompt | llm_corrector.py:93-105 | without a template, the prompt is the built-in instructions with the text in place of `{text}` |
| OcrEngine.ExtractText | ocr_engine.py:48-125 | the result is `Extract`; a missing path fails before any read, an unreadable file after the read, bytes on which the decoder raises or that decode to nothing after the decode and before the recogniser, and only a decoded image reaches the recogniser (the stages taken are a ghost result) |
| OcrEngine.EntryFor | ocr_engine.py:139-153 | a batch entry carries the path's file name; it is a success iff extraction succeeds, and then holds extraction's result, and otherwise holds the message of extraction's error |
| OcrEngine.ExtractTextBatch | ocr_engine.py:127-155 | one entry per path, in order, each the entry for that path alone, so a failure does not affect later paths |
| OcrEngine.AggregateKeepsEveryFragment | ocr_engine.py:93-115 | the word count and the number of details equal the number of fragments, and the i-th detail carries the i-th fragment's box, text and confidence unchanged |
| OcrEngine.AggregateEmpty | ocr_engine.py:83-90 | no fragments give empty text, confidence 0.0, no words and no details |
| OcrEngine.FullTextJoinsFragments | ocr_engine.py:106-107 | the full text is as long as the fragment texts plus one separator per gap, and splitting it at spaces gives the fragment texts back when none contains a space |
| OcrEngine.SumBounds | ocr_engine.py:110 | confidences in [0, 1] sum to between 0 and their count |
| OcrEngine.MeanConfidenceBounds | ocr_engine.py:110 | confidences in [0, 1] average to a value in [0, 1] |
| OcrEngine.ExtractErrors | ocr_engine.py:66-81 | a missing file fails with "not found", one that decodes to nothing with the decode error, one on which the decoder raises with the decoder's own message, and a result implies the file exists and decodes |
| Pipeline.ProcessSingleImage | main.py:37-95 | the record is `Process`: an error record with the file name and the error's message when extraction fails, otherwise the assembled record, whose correction error is the correction's message; no request is posted when extraction fails, and otherwise one per correction attempt, each carrying the raw text formatted with the template passed in (`CORRECTION_PROMPT_TEMPLATE`) to the corrector's URL and model |
| Pipeline.ErrorRecordIffRecognitionFails | main.py:49-95 | a record has an error iff recognition failed, and then it holds exactly the file name and that error's message |
| Pipeline.FailedCorrectionFallsBackToRawText | main.py:61-86 | a processed record copies full text, mean confidence and word count; when correction fails the corrected text is the raw text and the model is "unknown"; failure iff an error is reported; blank raw text keeps the raw text with the "empty text" message and model "unknown" |
| Pipeline.SuccessfulCorrectionComesFromServer | main.py:60-86 | a successful correction reports the corrector's model and no error, its raw text is not blank, and its text is the stripped answer of a 200 among the first three replies |
| Pipeline.ConfigPrompt | config/config.py:22-27 | the batch template puts the raw text between its instructions and its answer marker |
| Pipeline.ConfigPosts | main.py:60 | a request posted for a file with the configured template exists only when recognition succeeded, and its prompt is the configured instructions, the file's raw text and the answer marker |
| Pipeline.SaveResultsSkipsErrors | main.py:98-130 | nothing is written iff the record has an error; otherwise the JSON record, the raw text and the corrected text are written, in that order, under `<output>/<base>_result.json`, `_raw.txt` and `_corrected.txt` |
| Pipeline.ImageFiles | main.py:161-165 | selection never grows the listing and selects only listed files |
| Pipeline.ImageFilesMembership | main.py:161-165 | a file is selected iff it is listed and its lower-cased suffix is an image extension |
| Pipeline.ImageFilesAppend | main.py:162-165 | selection keeps the listing's order: selecting from a concatenation concatenates the selections |
| Pipeline.SelectionByExtension | main.py:161-165 | `dir/stem.ext` is selected iff the stem is non-empty and `.ext`, lower-cased, is an image extension (so `.PNG` counts and a hidden file `.png` does not) |
| Pipeline.SuffixOfDotted | main.py:164 | the suffix of `stem.ext` is `.ext`, or nothing when the stem is empty |
| Pipeline.Records | main.py:174-178 | the specification of the loop's records: one per path |
| Pipeline.RecordAt | main.py:174-178 | the i-th record is the record of the i-th path alone, so a failing file does not affect the others |
| Pipeline.OutputsOfPrefix | main.py:180-182 | what has been written after n files depends on those files' records only |
| Pipeline.ProcessImages | main.py:173-182 | the records are those of the selected files in order, and the writes are each record's outputs in the same order; the requests posted for each file are those of its own raw text with the given template |
| Pipeline.ProcessDirectory | main.py:136-194 | a missing path and an empty selection end the run before any processing, and a path that is not a directory aborts it when it is listed; otherwise the records and writes are those of the selected files in listing order, `successful` counts records without error, `failures` the others, and the two sum to the number of files; every request posted for a file carries that file's raw text formatted with the configured template, to the configured host and model, and none is posted when the run ends early |
| Pipeline.CountsPartition | main.py:193-194 | every record is counted once, as a success or as a failure |
| Pipeline.OutputsPerSuccess | main.py:107-130 | three files are written per successful record and none per failed one |
| Pipeline.NameAfterSlash | main.py:73 | the file name of `dir/file` is `file` when `file` has no `/` |
| Pipeline.LastDotAfter | main.py:164 | the last dot of `a.b` is the one after `a` when `b` has no dot |
| Text.LStripSpec | llm_corrector.py:84 | `lstrip` removes exactly the leading whitespace |
| Text.RStripSpec | llm_corrector.py:84 | `rstrip` removes exactly the trailing whitespace |
| Text.StripIsTrimmedSlice | llm_corrector.py:84 | `strip` returns a slice of the input outside which every character is whitespace, and which neither starts nor ends with whitespace |
| Text.BlankIffAllSpace | llm_corrector.py:84 | `not text.strip()` holds iff every character is whitespace |
| Text.StripIdempotent | llm_corrector.py:124 | stripping twice is stripping once |
| Text.Join | ocr_engine.py:107 | joining nothing gives `''`; otherwise the length is the pieces' total plus one per gap |
| Text.Split | ocr_engine.py:107 | splitting at spaces gives at least one piece, and no piece contains a space |
| Text.SplitJoin | ocr_engine.py:107 | space-free pieces are recovered by splitting their join |
| Text.JoinSplit | ocr_engine.py:107 | joining the pieces of a split gives the string back |
| Text.SubstituteBraceFree | llm_corrector.py:105 | a template without `{` is unchanged by `Substitute` |
| Text.SubstituteBraceFreePrefix | llm_corrector.py:105 | a brace-free prefix of the template passes through `Substitute` unchanged |
| Text.SubstituteSingle | llm_corrector.py:105 | a template with one `{text}` field and no other brace formats to its head, the text and its tail |
| Text.RStripChar | llm_corrector.py:25 | `rstrip('/')` returns a prefix followed only by `/` characters in the input, and the prefix does not end in `/` |
| Text.NatToString | llm_corrector.py:135 | a status code prints as a non-empty string of decimal digits |
| Text.NatToStringValue | llm_corrector.py:135 | the digits printed for a status code denote exactly that code, with no leading zero unless the code is 0 |
| Text.LastIndexSpec | ocr_engine.py:143 | `rfind` returns an occurrence with none after it, and exactly that index |
| Text.NameSpec | ocr_engine.py:143 | a path's name is its longest `/`-free tail |
| Text.StemSuffix | main.py:164-181 | a name is its stem followed by its suffix, and a non-empty suffix is a dot, at least one more character and no further dot, after a non-empty stem |

## Left out

- The HTTP transport is replaced by the sequence of outcomes. This leaves
  out the connection check in the constructor and its warning,
  `_wait_for_model` (a wall-clock polling loop) and `get_model_info`
  (llm_corrector.py:29-65, 205-213). The one-second `time.sleep` becomes a
  count of pauses.
- EasyOCR reader construction, file reading, OpenCV decoding and numpy
  buffers (ocr_engine.py:21-46, 73-81) are foreign calls. They become the
  `Disk` map, which says for each path whether reading fails, whether the
  decoder returns nothing or raises (with its message), and what the
  recogniser returns or raises.
- Confidences and their mean are real numbers, not IEEE floats, so rounding
  is not modelled. Only the arithmetic mean is stated.
- LlmCorrector.Prompt: `str.format` is modelled for templates whose only
  brace is the `{text}` field, which covers both templates the program
  uses. The following are not modelled:
  - `{{`/`}}` escapes;
  - format specs;
  - the `KeyError` a template with another field raises before any request.
- Text.Lower: only ASCII letters are lower-cased, not the full Unicode
  mapping of `str.lower`. For the image extensions this selects the same
  files. The non-ASCII characters that lower-case to ASCII letters are
  U+212A KELVIN SIGN, which gives `k`, and U+0130, which gives `i`
  followed by a combining dot. No extension contains `k`, and no
  extension contains a combining dot.
- Text.Name: only `/` is treated as a path separator. The Windows flavour
  of `PurePath`, which also splits at `\`, is not modelled. Neither is the
  normalisation of repeated or trailing slashes and of `.` components. A
  path is taken as a plain string whose name is the part after the last
  `/`.
- Timestamps, logging, the JSON encoding of records, the actual file
  writes and the final batch summary file (main.py:18-34, 74, 111-130,
  185-188) are I/O. Each written file is described by its path and its
  content.
- `setup_directories`, `test_single_image` and the command-line entry of
  main.py are not part of this model. Neither are gui_app.py,
  quickstart.py, run_gui.py, test_ollama.py and create_sample_image.py,
  which are UI, concurrency, subprocess and interactive code.
- The configuration (config/config.py) is inlined: the Ollama host and
  model, the correction template and the three save flags. The extension
  set is the literal of main.py:161. The output directory is not inlined:
  it is the parameter `outputDir`. The directory listing is an input
  sequence in iteration order.
- The GUI has a confidence threshold spin box (gui_app.py:229-234) whose
  value nothing reads. Recognition keeps every fragment, whatever its
  confidence, and joins them all with one space (ocr_engine.py:97-107).
  The model does the same.
