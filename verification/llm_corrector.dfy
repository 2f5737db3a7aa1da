/** The text-correction client of llm_corrector.py: a prompt built from a
    template, POSTed to the Ollama `/api/generate` endpoint with a bounded
    number of attempts, a one-second pause between attempts, and a fallback
    to the original text whenever correction fails.

    The HTTP transport is replaced by a sequence of outcomes: `replies[i]`
    is what the `i`-th POST of one `correct_text` call produced. The
    requests posted and the pauses taken are reported as ghost values. */
module LlmCorrector {
  import opened Wrappers
  import opened Text

  /** Attempts made by `correct_text` when the caller gives no limit. */
  const DefaultMaxRetries: int := 3

  /** Sampling temperature and per-request timeout (seconds) of every POST. */
  const Temperature: real := 0.3
  const RequestTimeoutSeconds: nat := 120

  /** An `LLMCorrector`: the server address without trailing slashes, the
      model name, and the generation endpoint derived from the address. */
  datatype Corrector = Corrector(host: string, model: string, apiUrl: string)

  /** `LLMCorrector(host, model)`: trailing `/` are dropped from the host
      and the endpoint is `<host>/api/generate`. */
  function NewCorrector(host: string, model: string): (c: Corrector)
    ensures c.model == model
    ensures |c.host| <= |host| && c.host == host[..|c.host|] && (c.host != [] ==> c.host[|c.host| - 1] != '/')
    ensures forall k :: |c.host| <= k < |host| ==> host[k] == '/'
    ensures c.apiUrl == c.host + "/api/generate"
  {
    var h := RStripChar(host, '/');
    Corrector(h, model, h + "/api/generate")
  }

  /** HTTP status codes other than 200. */
  type ErrStatus = s: int | s != 200 witness 500

  /** What one POST to the generation endpoint produced.
      - `Http200(response)`: status 200 with a JSON object whose `response`
        field is `response` (`None` when the field is absent);
      - `HttpErr(status, body)`: any other status, with the response text;
      - `Timeout`: `requests.exceptions.Timeout` was raised;
      - `ConnRefused`: `requests.exceptions.ConnectionError` was raised;
      - `OtherExc(message)`: any other exception, including a 200 whose body
        is not JSON or whose `response` field is not a string. */
  datatype Outcome =
    | Http200(response: Option<string>)
    | HttpErr(status: ErrStatus, body: string)
    | Timeout
    | ConnRefused
    | OtherExc(message: string)

  /** The error a failed correction reports. */
  datatype CorrectionError =
    | EmptyText
    | HttpStatus(status: int, body: string)
    | RequestTimeout
    | ServerUnreachable
    | Unexpected(message: string)
    | RetriesExhausted

  /** The `error` string stored in the result dictionary. */
  function ErrorMessage(e: CorrectionError): string
  {
    match e
    case EmptyText => "빈 텍스트"
    case HttpStatus(status, body) => "HTTP " + IntToString(status) + ": " + body
    case RequestTimeout => "요청 타임아웃"
    case ServerUnreachable => "Ollama 서버 연결 불가"
    case Unexpected(message) => message
    case RetriesExhausted => "최대 재시도 횟수 초과"
  }

  /** The dictionary `correct_text` returns: `model` is present only on
      success and `error` only on failure. */
  datatype Correction = Correction(
    original: string,
    corrected: string,
    success: bool,
    model: Option<string>,
    error: Option<CorrectionError>)

  /** The JSON body (and target) of one POST. */
  datatype Request = Request(
    url: string,
    model: string,
    prompt: string,
    stream: bool,
    temperature: real,
    timeout: nat)

  /** The built-in template used when the caller passes no template, split
      around its single `{text}` field; the part before the field is kept in
      three pieces so that each is shown brace-free on its own. */
  const DefaultIntro: string := "다음은 OCR로 추출한 텍스트입니다. 다음 작업을 수행해주세요:\n"
  const DefaultSteps: string :=
    "1. OCR 오류로 인한 문자 치환 수정\n" +
    "2. 자연스럽지 않은 표현 정정\n"
  const DefaultMoreSteps: string :=
    "3. 띄어쓰기 및 문법 오류 수정\n" +
    "4. 원본의 의미는 최대한 보존\n\n" +
    "[원본 텍스트]\n"
  const DefaultTemplateHead: string := DefaultIntro + DefaultSteps + DefaultMoreSteps
  const DefaultTemplateTail: string := "\n\n[정정된 텍스트만 출력]"
  const DefaultTemplate: string := DefaultTemplateHead + Placeholder + DefaultTemplateTail

  /** The prompt sent for `text`: the template (the built-in one when none
      is given) with `{text}` replaced by the text. */
  function Prompt(template: Option<string>, text: string): string
  {
    Substitute(template.GetOr(DefaultTemplate), text)
  }

  /** Without a template, the prompt is the built-in instructions with the
      text in place of `{text}`. */
  lemma DefaultPrompt(text: string)
    ensures Prompt(None, text) == DefaultTemplateHead + text + DefaultTemplateTail
  {
    DefaultPiecesBraceFree();
    SubstituteSingle(DefaultTemplateHead, DefaultTemplateTail, text);
  }

  lemma DefaultPiecesBraceFree()
    ensures '{' !in DefaultIntro && '{' !in DefaultSteps && '{' !in DefaultMoreSteps
    ensures '{' !in DefaultTemplateTail
  {
    IntroBraceFree();
    StepsBraceFree();
  }

  lemma IntroBraceFree()
    ensures '{' !in DefaultIntro
  {
  }

  lemma StepsBraceFree()
    ensures '{' !in DefaultSteps
  {
  }

  /** The request every attempt of `correct_text` posts. */
  function RequestFor(c: Corrector, template: Option<string>, text: string): Request
  {
    Request(c.apiUrl, c.model, Prompt(template, text), false, Temperature, RequestTimeoutSeconds)
  }

  /** The failure result: the original text stands in for the correction. */
  function Failure(text: string, e: CorrectionError): Correction
  {
    Correction(text, text, false, None, Some(e))
  }

  /** What an attempt leads to: the call returns `result`, or it pauses and
      tries again. */
  datatype Step = Finish(result: Correction) | Retry

  /** Classification of the outcome of attempt `attempt` (0-based) out of
      `maxRetries`: a 200 returns success, a refused connection returns
      failure at once, and every other outcome is retried unless this was
      the last attempt, which returns failure. */
  function Classify(c: Corrector, text: string, o: Outcome, attempt: int, maxRetries: int): (s: Step)
    ensures s.Retry? <==> !o.Http200? && !o.ConnRefused? && attempt != maxRetries - 1
    ensures s.Finish? ==> s.result.original == text && (s.result.success <==> o.Http200?)
    ensures s.Finish? && o.Http200? ==>
      s.result.corrected == Strip(o.response.GetOr("")) && s.result.model == Some(c.model) && s.result.error == None
    ensures s.Finish? && !o.Http200? ==> s.result == Failure(text, ErrorKind(o))
  {
    match o
    case Http200(response) => Finish(Correction(text, Strip(response.GetOr("")), true, Some(c.model), None))
    case ConnRefused => Finish(Failure(text, ServerUnreachable))
    case _ => if attempt == maxRetries - 1 then Finish(Failure(text, ErrorKind(o))) else Retry
  }

  /** The error reported for an outcome that is not a 200. */
  function ErrorKind(o: Outcome): CorrectionError
  {
    match o
    case Http200(_) => Unexpected("")
    case HttpErr(status, body) => HttpStatus(status, body)
    case Timeout => RequestTimeout
    case ConnRefused => ServerUnreachable
    case OtherExc(message) => Unexpected(message)
  }

  /** The attempts from `attempt` on: the result, and the number of POSTs
      made in all (counting those before `attempt`). */
  function Attempts(c: Corrector, text: string, maxRetries: int, replies: seq<Outcome>, attempt: nat): (Correction, nat)
    requires maxRetries <= |replies|
    decreases maxRetries - attempt
  {
    if attempt >= maxRetries then (Failure(text, RetriesExhausted), attempt)
    else match Classify(c, text, replies[attempt], attempt, maxRetries)
      case Finish(r) => (r, attempt + 1)
      case Retry => Attempts(c, text, maxRetries, replies, attempt + 1)
  }

  /** `correct_text(text, template, maxRetries)` against a server that
      answers `replies`: the result and the number of POSTs made. */
  function Correct(c: Corrector, text: string, maxRetries: int, replies: seq<Outcome>): (Correction, nat)
    requires maxRetries <= |replies|
  {
    if IsBlank(text) then (Correction(text, "", false, None, Some(EmptyText)), 0)
    else Attempts(c, text, maxRetries, replies, 0)
  }

  /** `LLMCorrector.correct_text`. */
  method CorrectText(c: Corrector, text: string, template: Option<string>, maxRetries: int, replies: seq<Outcome>)
    returns (r: Correction, ghost posts: seq<Request>, ghost sleeps: nat)
    requires maxRetries <= |replies|
    ensures r == Correct(c, text, maxRetries, replies).0
    ensures |posts| == Correct(c, text, maxRetries, replies).1
    ensures forall i :: 0 <= i < |posts| ==> posts[i] == RequestFor(c, template, text)
    ensures sleeps == if posts == [] then 0 else |posts| - 1
  {
    if IsBlank(text) {
      return Correction(text, "", false, None, Some(EmptyText)), [], 0;
    }
    var request := RequestFor(c, template, text);
    posts, sleeps := [], 0;
    var attempt := 0;
    while attempt < maxRetries
      invariant attempt == 0 || attempt < maxRetries
      invariant |posts| == attempt && sleeps == attempt
      invariant forall i :: 0 <= i < attempt ==> posts[i] == request
      invariant Attempts(c, text, maxRetries, replies, 0) == Attempts(c, text, maxRetries, replies, attempt)
      decreases maxRetries - attempt
    {
      posts := posts + [request];
      var last := attempt == maxRetries - 1;
      match replies[attempt] {
        case Http200(response) =>
          return Correction(text, Strip(response.GetOr("")), true, Some(c.model), None), posts, sleeps;
        case HttpErr(status, body) =>
          if last { return Failure(text, HttpStatus(status, body)), posts, sleeps; }
        case Timeout =>
          if last { return Failure(text, RequestTimeout), posts, sleeps; }
        case ConnRefused =>
          return Failure(text, ServerUnreachable), posts, sleeps;
        case OtherExc(message) =>
          if last { return Failure(text, Unexpected(message)), posts, sleeps; }
      }
      sleeps := sleeps + 1;
      attempt := attempt + 1;
    }
    r := Failure(text, RetriesExhausted);
  }

  /** `LLMCorrector.batch_correct`: one correction per text, in order, each
      with the default number of attempts; `replies[i]` answers the POSTs
      made for `texts[i]`, and `posts[i]` are the requests posted for it,
      each with the caller's template. */
  method BatchCorrect(c: Corrector, texts: seq<string>, template: Option<string>, replies: seq<seq<Outcome>>)
    returns (results: seq<Correction>, ghost posts: seq<seq<Request>>)
    requires |replies| == |texts|
    requires forall i :: 0 <= i < |replies| ==> DefaultMaxRetries <= |replies[i]|
    ensures |results| == |texts|
    ensures forall i :: 0 <= i < |texts| ==> results[i] == Correct(c, texts[i], DefaultMaxRetries, replies[i]).0
    ensures |posts| == |texts|
    ensures forall i :: 0 <= i < |texts| ==> |posts[i]| == Correct(c, texts[i], DefaultMaxRetries, replies[i]).1
    ensures forall i, j :: 0 <= i < |texts| && 0 <= j < |posts[i]| ==> posts[i][j] == RequestFor(c, template, texts[i])
  {
    results, posts := [], [];
    var i := 0;
    while i < |texts|
      invariant 0 <= i <= |texts| && |results| == i && |posts| == i
      invariant forall j :: 0 <= j < i ==> results[j] == Correct(c, texts[j], DefaultMaxRetries, replies[j]).0
      invariant forall j :: 0 <= j < i ==> |posts[j]| == Correct(c, texts[j], DefaultMaxRetries, replies[j]).1
      invariant forall j, k :: 0 <= j < i && 0 <= k < |posts[j]| ==> posts[j][k] == RequestFor(c, template, texts[j])
    {
      var r, sent, _ := CorrectText(c, texts[i], template, DefaultMaxRetries, replies[i]);
      results := results + [r];
      posts := posts + [sent];
      i := i + 1;
    }
  }

  // ---------------------------------------------------------------------
  // Properties of the retry protocol

  /** Attempts from `attempt` on make at least one more POST and stop at the
      first attempt whose outcome finishes; every attempt before it retried. */
  lemma {:induction false} AttemptsStopAtFirstFinish(c: Corrector, text: string, maxRetries: int, replies: seq<Outcome>, attempt: nat)
    requires maxRetries <= |replies|
    requires attempt < maxRetries
    ensures var (r, n) := Attempts(c, text, maxRetries, replies, attempt);
      && attempt < n <= maxRetries
      && (forall i :: attempt <= i < n - 1 ==> Classify(c, text, replies[i], i, maxRetries) == Retry)
      && Classify(c, text, replies[n - 1], n - 1, maxRetries) == Finish(r)
    decreases maxRetries - attempt
  {
    if Classify(c, text, replies[attempt], attempt, maxRetries).Retry? {
      AttemptsStopAtFirstFinish(c, text, maxRetries, replies, attempt + 1);
    }
  }

  /** With at least one attempt allowed, a non-blank text is answered by the
      first attempt that finishes: between 1 and `maxRetries` POSTs, every
      earlier attempt retried, and the last one's classification is the
      result. */
  lemma CorrectCharacterised(c: Corrector, text: string, maxRetries: int, replies: seq<Outcome>)
    requires maxRetries <= |replies|
    requires !IsBlank(text) && maxRetries >= 1
    ensures var (r, n) := Correct(c, text, maxRetries, replies);
      && 1 <= n <= maxRetries
      && (forall i :: 0 <= i < n - 1 ==> Classify(c, text, replies[i], i, maxRetries) == Retry)
      && Classify(c, text, replies[n - 1], n - 1, maxRetries) == Finish(r)
  {
    AttemptsStopAtFirstFinish(c, text, maxRetries, replies, 0);
  }

  /** Attempts that all retry are skipped over. */
  lemma {:induction false} AttemptsSkipRetries(c: Corrector, text: string, maxRetries: int, replies: seq<Outcome>, from: nat, to: nat)
    requires maxRetries <= |replies|
    requires from <= to <= maxRetries
    requires forall i :: from <= i < to ==> Classify(c, text, replies[i], i, maxRetries) == Retry
    ensures Attempts(c, text, maxRetries, replies, from) == Attempts(c, text, maxRetries, replies, to)
    decreases maxRetries - from
  {
    if from < to {
      AttemptsSkipRetries(c, text, maxRetries, replies, from + 1, to);
    }
  }

  /** The first 200 ends the call: success, the stripped `response` field
      (empty when absent), the corrector's model, and no further POST. */
  lemma FirstSuccessWins(c: Corrector, text: string, maxRetries: int, replies: seq<Outcome>, k: nat, response: Option<string>)
    requires maxRetries <= |replies|
    requires !IsBlank(text) && k < maxRetries
    requires forall i :: 0 <= i < k ==> replies[i].HttpErr? || replies[i].Timeout? || replies[i].OtherExc?
    requires replies[k] == Http200(response)
    ensures Correct(c, text, maxRetries, replies) ==
      (Correction(text, Strip(response.GetOr("")), true, Some(c.model), None), k + 1)
  {
    AttemptsSkipRetries(c, text, maxRetries, replies, 0, k);
  }

  /** A refused connection ends the call at once with a failure that keeps
      the original text; no later attempt is made. */
  lemma RefusedConnectionIsFatal(c: Corrector, text: string, maxRetries: int, replies: seq<Outcome>, k: nat)
    requires maxRetries <= |replies|
    requires !IsBlank(text) && k < maxRetries
    requires forall i :: 0 <= i < k ==> replies[i].HttpErr? || replies[i].Timeout? || replies[i].OtherExc?
    requires replies[k] == ConnRefused
    ensures Correct(c, text, maxRetries, replies) == (Failure(text, ServerUnreachable), k + 1)
  {
    AttemptsSkipRetries(c, text, maxRetries, replies, 0, k);
  }

  /** When every attempt fails in a retryable way, all `maxRetries` POSTs
      are made and the call reports the last attempt's error with the
      original text. */
  lemma RetryableFailuresUseEveryAttempt(c: Corrector, text: string, maxRetries: int, replies: seq<Outcome>)
    requires maxRetries <= |replies|
    requires !IsBlank(text) && maxRetries >= 1
    requires forall i :: 0 <= i < maxRetries ==> replies[i].HttpErr? || replies[i].Timeout? || replies[i].OtherExc?
    ensures Correct(c, text, maxRetries, replies) == (Failure(text, ErrorKind(replies[maxRetries - 1])), maxRetries)
  {
    AttemptsSkipRetries(c, text, maxRetries, replies, 0, maxRetries - 1);
  }

  /** Blank text is refused without any POST. */
  lemma BlankTextIsRefused(c: Corrector, text: string, maxRetries: int, replies: seq<Outcome>)
    requires maxRetries <= |replies|
    ensures IsBlank(text) <==> Correct(c, text, maxRetries, replies).0.error == Some(EmptyText)
    ensures IsBlank(text) ==> Correct(c, text, maxRetries, replies) == (Correction(text, "", false, None, Some(EmptyText)), 0)
  {
    if !IsBlank(text) && maxRetries >= 1 {
      CorrectCharacterised(c, text, maxRetries, replies);
    }
  }

  /** The trailing "retries exhausted" result is reached exactly when a
      non-blank text is given no attempt at all; it makes no POST. */
  lemma ExhaustedOnlyWithoutAttempts(c: Corrector, text: string, maxRetries: int, replies: seq<Outcome>)
    requires maxRetries <= |replies|
    ensures Correct(c, text, maxRetries, replies).0.error == Some(RetriesExhausted) <==>
      !IsBlank(text) && maxRetries <= 0
    ensures !IsBlank(text) && maxRetries <= 0 ==>
      Correct(c, text, maxRetries, replies) == (Failure(text, RetriesExhausted), 0)
  {
    if !IsBlank(text) && maxRetries >= 1 {
      CorrectCharacterised(c, text, maxRetries, replies);
    }
  }

  /** The shape of every result: success carries the model and no error,
      failure carries an error and no model, and a failure's corrected text
      is the original text except for blank input, where it is empty. */
  lemma CorrectionShape(c: Corrector, text: string, maxRetries: int, replies: seq<Outcome>)
    requires maxRetries <= |replies|
    ensures var (r, n) := Correct(c, text, maxRetries, replies);
      && r.original == text
      && r.model == (if r.success then Some(c.model) else None)
      && (r.success <==> r.error == None)
      && (!r.success ==> r.corrected == if IsBlank(text) then "" else text)
      && n <= if maxRetries < 0 then 0 else maxRetries
  {
    if !IsBlank(text) && maxRetries >= 1 {
      CorrectCharacterised(c, text, maxRetries, replies);
    }
  }
}
