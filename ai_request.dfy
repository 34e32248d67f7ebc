/**
 * The AI request handler, processar_ia.php.  The repository holds two
 * copies of it (WorkIdeas/WorkIdeas/processar_ia.php and the current
 * WorkIdeas/processar_ia.php) that differ only in the model named in the
 * endpoint URL; `Variant` tells them apart.
 *
 * The handler is a fixed-order pipeline: session start, login test,
 * request test, trim and emptiness test, length test, prompt, one
 * upstream call, transport-error test, HTTP-status mapping, answer
 * extraction, best-effort insert into `historico_ia`.  The pipeline up to
 * the insert is the pure function `Decide`; the upstream call is an input
 * (`Upstream`: what cURL and `json_decode` produced), and `Decide` reports
 * the call it would make, or `None` when it makes no call.
 */
module AiRequest {
  import opened Wrappers
  import opened Bytes
  import opened SessionGuard
  import Store
  import Env

  /** The request method the handler accepts, "POST". */
  const POST: Bytes := [80, 79, 83, 84]

  /** Bound on the trimmed question, in bytes (`strlen`). */
  const MAX_QUESTION: int := 1000

  /** Which of the two copies of the handler. */
  datatype Variant =
    | Legacy   // WorkIdeas/WorkIdeas/processar_ia.php, model gemini-pro
    | Current  // WorkIdeas/processar_ia.php, model gemini-2.5-flash

  /** The endpoint each copy posts to; the API key is appended as the `key` query parameter. */
  function Endpoint(v: Variant, apiKey: Bytes): (url: Bytes)
    ensures v == Legacy ==> |url| == |LEGACY_URL| + |apiKey| && url[..|LEGACY_URL|] == LEGACY_URL
    ensures v == Current ==> |url| == |CURRENT_URL| + |apiKey| && url[..|CURRENT_URL|] == CURRENT_URL
    ensures |url| >= |apiKey| && url[|url| - |apiKey|..] == apiKey
  {
    (match v case Legacy => LEGACY_URL case Current => CURRENT_URL) + apiKey
  }

  const LEGACY_URL: Bytes := Ascii(LEGACY_URL_TEXT)
  const LEGACY_URL_TEXT: string := "https://generativelanguage.googleapis.com/v1beta/models/gemini-pro:generateContent?key="
  const CURRENT_URL: Bytes := Ascii(CURRENT_URL_TEXT)
  const CURRENT_URL_TEXT: string :=
    "https://generativelanguage.googleapis.com/v1beta/models/gemini-2.5-flash:generateContent?key="

  /** The name of the constant the handler reads the provider key from. */
  const API_KEY_NAME: Bytes := Ascii("GEMINI_API_KEY")

  /**
   * `GEMINI_API_KEY` as the handler reads it from PHP's constant table:
   * `None` when `carregarEnv` never defined it, and reading it then throws
   * "Undefined constant".
   */
  function ConfiguredKey(constants: Env.Table): (k: Option<Bytes>)
    ensures k.Some? <==> API_KEY_NAME in constants
    ensures k.Some? ==> k.value == constants[API_KEY_NAME]
  {
    if API_KEY_NAME in constants then Some(constants[API_KEY_NAME]) else None
  }

  /** The key the handler sees after loading `.env` into an empty table is the value of its first definition in the file. */
  lemma ConfiguredKeyIsFirstDefinition(lines: seq<Bytes>)
    ensures ConfiguredKey(Env.Loaded(map[], Env.Entries(lines))) == Env.FirstDefinition(Env.Entries(lines), API_KEY_NAME)
  {
    Env.LoadedIsFirstDefinition(map[], Env.Entries(lines), API_KEY_NAME);
  }

  /** The fixed instruction placed before every question. */
  const SYSTEM_PROMPT: Bytes := Utf8(SYSTEM_TEXT)
  const SYSTEM_TEXT: string := (
    "Você é um assistente especializado em sugestões de projetos acadêmicos. " +
    "Sua função é ajudar estudantes universitários a desenvolver ideias criativas e viáveis " +
    "para trabalhos de conclusão de curso (TCC), artigos científicos, projetos de pesquisa e trabalhos acadêmicos.\n\n" +
    "IMPORTANTE:\n" +
    "- Forneça sugestões práticas e inovadoras\n" +
    "- Inclua sempre: título do projeto, objetivos principais, metodologia sugerida e resultados esperados\n" +
    "- Adapte suas sugestões ao nível universitário\n" +
    "- Use linguagem clara e profissional\n" +
    "- Sugira de 2 a 3 ideias quando apropriado\n\n")

  const QUESTION_LABEL: Bytes := Ascii("Pergunta do aluno: ")

  /** The needle the status mapping looks for in the provider's message. */
  const API_KEY: Bytes := Ascii("API key")

  const UNKNOWN_ERROR: Bytes := Ascii("Erro desconhecido")

  /** A PHP array key: `json_decode(..., true)` yields integer keys for lists and string keys for objects. */
  datatype PhpKey = IntKey(n: int) | StrKey(name: Bytes)

  /** A decoded JSON value, as PHP holds it (numbers with a fraction are not modelled). */
  datatype PhpValue =
    | PNull
    | PBool(b: bool)
    | PInt(i: int)
    | PStr(s: Bytes)
    | PArray(entries: map<PhpKey, PhpValue>)

  /** `$v[$k]` exists. */
  predicate Has(v: PhpValue, k: PhpKey) {
    v.PArray? && k in v.entries
  }

  /** One step of `$v[$k]` inside `isset`: a missing key, or a non-array, reads as null. */
  function Get(v: PhpValue, k: PhpKey): (r: PhpValue)
    ensures r != PNull ==> Has(v, k) && r == v.entries[k]
    ensures Has(v, k) ==> r == v.entries[k]
  {
    if Has(v, k) then v.entries[k] else PNull
  }

  const CANDIDATES: PhpKey := StrKey(Ascii("candidates"))
  const CONTENT: PhpKey := StrKey(Ascii("content"))
  const PARTS: PhpKey := StrKey(Ascii("parts"))
  const TEXT: PhpKey := StrKey(Ascii("text"))
  const ERROR: PhpKey := StrKey(Ascii("error"))
  const MESSAGE: PhpKey := StrKey(Ascii("message"))

  /** Every step of the answer's path exists: the reply nests as the provider documents. */
  ghost predicate HasAnswerPath(body: PhpValue) {
    Has(body, CANDIDATES) &&
      var c := body.entries[CANDIDATES];
      Has(c, IntKey(0)) &&
        var c0 := c.entries[IntKey(0)];
        Has(c0, CONTENT) &&
          var ct := c0.entries[CONTENT];
          Has(ct, PARTS) &&
            var p := ct.entries[PARTS];
            Has(p, IntKey(0)) && Has(p.entries[IntKey(0)], TEXT)
  }

  /** The value at the end of the answer's path. */
  ghost function AnswerAtPath(body: PhpValue): PhpValue
    requires HasAnswerPath(body)
  {
    body.entries[CANDIDATES].entries[IntKey(0)].entries[CONTENT].entries[PARTS].entries[IntKey(0)].entries[TEXT]
  }

  /**
   * `$body['candidates'][0]['content']['parts'][0]['text']` under `isset`:
   * set only when every step of the path exists, and then the value found
   * there.
   */
  function AnswerText(body: PhpValue): (r: PhpValue)
    ensures r != PNull ==> HasAnswerPath(body)
    ensures HasAnswerPath(body) ==> r == AnswerAtPath(body)
  {
    Get(Get(Get(Get(Get(Get(body, CANDIDATES), IntKey(0)), CONTENT), PARTS), IntKey(0)), TEXT)
  }

  /** `$body['error']['message']`, null when either step is missing. */
  function MessageField(body: PhpValue): (r: PhpValue)
    ensures r != PNull ==> Has(body, ERROR) && Has(body.entries[ERROR], MESSAGE)
    ensures Has(body, ERROR) && Has(body.entries[ERROR], MESSAGE) ==> r == body.entries[ERROR].entries[MESSAGE]
  {
    Get(Get(body, ERROR), MESSAGE)
  }

  /**
   * PHP's conversion of a scalar argument to string, as `trim` and `strpos`
   * do it; an array argument is a TypeError (`None`).
   */
  function ToText(v: PhpValue): (r: Option<Bytes>)
    ensures r.None? <==> v.PArray?
    ensures v.PStr? ==> r == Some(v.s)
    ensures v.PNull? ==> r == Some([])
    ensures v.PInt? ==> r == Some(IntToBytes(v.i))
    ensures v.PBool? ==> r == Some(if v.b then [ZERO + 1] else [])
  {
    match v
    case PNull => Some([])
    case PBool(b) => Some(if b then [ZERO + 1] else [])
    case PInt(i) => Some(IntToBytes(i))
    case PStr(s) => Some(s)
    case PArray(_) => None
  }

  /** The handler's two inputs from the browser. */
  datatype Request = Request(httpMethod: Bytes, pergunta: Option<Bytes>)

  /** What the upstream call produced: `curl_error`, the HTTP code and the decoded body. */
  datatype Upstream = Upstream(curlError: Bytes, httpCode: int, body: PhpValue)

  /**
   * The one upstream request: its URL and the trimmed question; the text
   * sent as the single content part is `Prompt(question)`.
   */
  datatype Call = Call(url: Bytes, question: Bytes)

  /** The errors the handler reports as `{sucesso: false, erro: ...}`. */
  datatype AiError =
    | SessionExpired
    | NotSent
    | EmptyQuestion
    | TooLong
    | Communication(detail: Bytes)
    | InvalidApiKey
    | RateLimited
    | AccessDenied
    | ProviderError(message: Bytes)
    | UnexpectedFormat

  /** How the request ends. */
  datatype Reply =
    | Answered(answer: Bytes)  // {sucesso: true, resposta: answer, timestamp: ...}
    | Failed(error: AiError)   // {sucesso: false, erro: ...}
    | Crashed                  // an uncaught TypeError: no JSON reply
    | SessionRedirect          // `iniciarSessao` saw another address and redirected

  /** The values bound to the `historico_ia` insert. */
  datatype Record = Record(usuarioId: int, pergunta: Bytes, resposta: Bytes)

  datatype Decision = Decision(call: Option<Call>, insert: Option<Record>, reply: Reply)

  /**
   * The text of each error, as the handler writes it into `erro`: the
   * transport error follows a fixed prefix, a provider message is passed
   * on as it is, and every other error has a fixed text.
   */
  function ErrorText(e: AiError): (r: Bytes)
    ensures e.ProviderError? ==> r == e.message
    ensures e.Communication? ==>
              |r| == |COMMUNICATION_PREFIX| + |e.detail| &&
              r[..|COMMUNICATION_PREFIX|] == COMMUNICATION_PREFIX && r[|COMMUNICATION_PREFIX|..] == e.detail
  {
    match e
    case Communication(detail) => COMMUNICATION_PREFIX + detail
    case ProviderError(message) => message
    case _ => FixedText(e)
  }

  const COMMUNICATION_PREFIX: Bytes := Utf8(COMMUNICATION_TEXT)
  const COMMUNICATION_TEXT: string := "Erro na comunicação com a API Gemini: "

  /** The fixed texts of the errors that carry no text of their own. */
  function FixedText(e: AiError): Bytes
    requires !e.Communication? && !e.ProviderError?
  {
    match e
    case SessionExpired => Utf8("Sessão expirada. Faça login novamente.")
    case NotSent => Utf8("Pergunta não enviada.")
    case EmptyQuestion => Utf8("Pergunta vazia. Digite algo para continuar.")
    case TooLong => Utf8("Pergunta muito longa. Limite: 1000 caracteres.")
    case InvalidApiKey => Utf8("Chave da API Gemini inválida. Verifique o arquivo .env")
    case RateLimited => Utf8("Limite de requisições excedido. Tente novamente em alguns minutos.")
    case AccessDenied => Utf8("Acesso negado. Verifique se a API Key está ativa no Google Cloud.")
    case UnexpectedFormat => Utf8("Resposta da IA em formato inesperado. Tente novamente.")
  }

  /** The request and question tests, in their order; success yields the trimmed question. */
  function Validate(req: Request): (r: Result<Bytes, AiError>)
    ensures r.Err? ==> r.error in {NotSent, EmptyQuestion, TooLong}
    ensures r == Err(NotSent) <==> req.httpMethod != POST || req.pergunta.None?
    ensures r == Err(EmptyQuestion) <==>
      req.httpMethod == POST && req.pergunta.Some? && PhpEmpty(Trim(req.pergunta.value))
    ensures r == Err(TooLong) <==>
      req.httpMethod == POST && req.pergunta.Some? && !PhpEmpty(Trim(req.pergunta.value)) &&
      |Trim(req.pergunta.value)| > MAX_QUESTION
    ensures r.Ok? ==>
      req.pergunta.Some? && r.value == Trim(req.pergunta.value) && !PhpEmpty(r.value) && |r.value| <= MAX_QUESTION
  {
    if req.httpMethod != POST || req.pergunta.None? then Err(NotSent)
    else
      var q := Trim(req.pergunta.value);
      if PhpEmpty(q) then Err(EmptyQuestion)
      else if |q| > MAX_QUESTION then Err(TooLong)
      else Ok(q)
  }

  /**
   * An accepted question is between 1 and 1000 bytes, is not "0", and
   * neither starts nor ends with whitespace; exactly 1000 bytes is still
   * accepted.
   */
  lemma AcceptedQuestion(req: Request)
    requires Validate(req).Ok?
    ensures var q := Validate(req).value;
      0 < |q| <= MAX_QUESTION && q != [ZERO] && q[0] !in WHITESPACE && q[|q| - 1] !in WHITESPACE
  {
  }

  /** The length bound is inclusive: a question that trims to exactly 1000 bytes passes, 1001 does not. */
  lemma LengthBoundary(p: Bytes)
    ensures |Trim(p)| == MAX_QUESTION ==> Validate(Request(POST, Some(p))) == Ok(Trim(p))
    ensures |Trim(p)| == MAX_QUESTION + 1 ==> Validate(Request(POST, Some(p))) == Err(TooLong)
  {
  }

  /** The prompt sent upstream: the system prompt, the label, then the question. */
  function Prompt(q: Bytes): (p: Bytes)
    ensures |p| == |SYSTEM_PROMPT| + |QUESTION_LABEL| + |q|
    ensures p[..|SYSTEM_PROMPT|] == SYSTEM_PROMPT
    ensures p[|SYSTEM_PROMPT|..|SYSTEM_PROMPT| + |QUESTION_LABEL|] == QUESTION_LABEL
    ensures p[|SYSTEM_PROMPT| + |QUESTION_LABEL|..] == q
  {
    var p := SYSTEM_PROMPT + QUESTION_LABEL + q;
    assert p[..|SYSTEM_PROMPT|] == SYSTEM_PROMPT;
    p
  }

  /**
   * `$mensagem_erro` for a non-200 reply, as `strpos` receives it: the
   * provider's `error.message` when set, 'Erro desconhecido' otherwise;
   * `None` when the message is an array (a TypeError).
   */
  function ProviderMessage(body: PhpValue): (r: Option<Bytes>)
    ensures MessageField(body) == PNull ==> r == Some(UNKNOWN_ERROR)
    ensures MessageField(body).PStr? ==> r == Some(MessageField(body).s)
    ensures MessageField(body) != PNull ==> r == ToText(MessageField(body))
    ensures r.None? <==> MessageField(body).PArray?
  {
    var m := MessageField(body);
    if m == PNull then Some(UNKNOWN_ERROR) else ToText(m)
  }

  /** 'Erro desconhecido' does not mention the API key. */
  lemma UnknownErrorHasNoApiKey()
    ensures !Contains(UNKNOWN_ERROR, API_KEY)
  {
    AsciiAbsent("Erro desconhecido", 'A');
    AbsentFirstByte(UNKNOWN_ERROR, API_KEY);
  }

  /** The status mapping for a reply whose code is not 200: the API-key text wins over 429 and 403. */
  function HttpError(code: int, body: PhpValue): (r: Reply)
    requires code != 200
    ensures r.Crashed? <==> ProviderMessage(body).None?
    ensures r == Failed(InvalidApiKey) <==> ProviderMessage(body).Some? && Contains(ProviderMessage(body).value, API_KEY)
    ensures r == Failed(RateLimited) <==>
      ProviderMessage(body).Some? && !Contains(ProviderMessage(body).value, API_KEY) && code == 429
    ensures r == Failed(AccessDenied) <==>
      ProviderMessage(body).Some? && !Contains(ProviderMessage(body).value, API_KEY) && code == 403
    ensures r.Failed? && r.error.ProviderError? ==>
      code != 429 && code != 403 && r.error.message == ProviderMessage(body).value &&
      !Contains(r.error.message, API_KEY)
    ensures !r.Crashed? ==>
      r.Failed? && (r.error.InvalidApiKey? || r.error.RateLimited? || r.error.AccessDenied? || r.error.ProviderError?)
  {
    match ProviderMessage(body)
    case None => Crashed
    case Some(m) =>
      if Contains(m, API_KEY) then Failed(InvalidApiKey)
      else if code == 429 then Failed(RateLimited)
      else if code == 403 then Failed(AccessDenied)
      else Failed(ProviderError(m))
  }

  /** A non-200 reply with no provider message maps on the status alone. */
  lemma MissingMessageMapsOnStatus(code: int, body: PhpValue)
    requires code != 200 && MessageField(body) == PNull
    ensures HttpError(code, body) ==
      if code == 429 then Failed(RateLimited)
      else if code == 403 then Failed(AccessDenied)
      else Failed(ProviderError(UNKNOWN_ERROR))
  {
    UnknownErrorHasNoApiKey();
  }

  /** A message mentioning the API key is reported as such, even on a 429 or a 403. */
  lemma ApiKeyMessageWins(code: int, rest: Bytes)
    requires code != 200
    ensures HttpError(code, ErrorBody(API_KEY + rest)) == Failed(InvalidApiKey)
  {
    var m := API_KEY + rest;
    assert MessageField(ErrorBody(m)) == PStr(m);
    assert API_KEY <= m[0..];
  }

  /**
   * A number as the provider's message is converted to its digits, which
   * never spell "API key", so it maps on the status alone and is otherwise
   * passed on as its digits.
   */
  lemma NumericMessageMapsOnStatus(code: int, body: PhpValue)
    requires code != 200 && MessageField(body).PInt?
    ensures HttpError(code, body) ==
      if code == 429 then Failed(RateLimited)
      else if code == 403 then Failed(AccessDenied)
      else Failed(ProviderError(IntToBytes(MessageField(body).i)))
  {
    var t := IntToBytes(MessageField(body).i);
    assert API_KEY[0] == 65;
    assert API_KEY[0] !in t by {
      forall k | 0 <= k < |t|
        ensures t[k] != 65
      {
        if k == 0 && t[0] == 45 {
        } else {
          assert ZERO <= t[k] <= ZERO + 9;
        }
      }
    }
    AbsentFirstByte(t, API_KEY);
  }

  /** The two copies post to different URLs for the same key: they name different models. */
  lemma EndpointsDiffer(apiKey: Bytes)
    ensures Endpoint(Legacy, apiKey) != Endpoint(Current, apiKey)
  {
    assert |LEGACY_URL| != |CURRENT_URL|;
  }

  /** A body `{"error": {"message": m}}`. */
  function ErrorBody(m: Bytes): PhpValue {
    PArray(map[ERROR := PArray(map[MESSAGE := PStr(m)])])
  }

  /**
   * Everything after the upstream `call` for the trimmed question `q` of
   * user `userId`: the transport-error test, the status mapping, the
   * answer extraction and the row to insert.
   */
  function Respond(call: Call, userId: int, q: Bytes, up: Upstream): (d: Decision)
    ensures d.call == Some(call) && !d.reply.SessionRedirect?
    ensures d.insert.Some? <==> d.reply.Answered?
  {
    if !PhpEmpty(up.curlError) then Decision(Some(call), None, Failed(Communication(up.curlError)))
    else if up.httpCode != 200 then Decision(Some(call), None, HttpError(up.httpCode, up.body))
    else
      var t := AnswerText(up.body);
      if t == PNull then Decision(Some(call), None, Failed(UnexpectedFormat))
      else
        match ToText(t)
        case None => Decision(Some(call), None, Crashed)
        case Some(text) =>
          var answer := Trim(text);
          Decision(Some(call), Some(Record(userId, q, answer)), Answered(answer))
  }

  /**
   * A transport error is reported before the status is looked at, a
   * status other than 200 goes through the status mapping, and a 200
   * reply without the answer field is an unexpected format; none of them
   * inserts a row.
   */
  lemma RespondFailures(call: Call, userId: int, q: Bytes, up: Upstream)
    ensures !PhpEmpty(up.curlError) ==>
      Respond(call, userId, q, up) == Decision(Some(call), None, Failed(Communication(up.curlError)))
    ensures PhpEmpty(up.curlError) && up.httpCode != 200 ==>
      Respond(call, userId, q, up) == Decision(Some(call), None, HttpError(up.httpCode, up.body))
    ensures PhpEmpty(up.curlError) && up.httpCode == 200 && AnswerText(up.body) == PNull ==>
      Respond(call, userId, q, up) == Decision(Some(call), None, Failed(UnexpectedFormat))
    // `trim` on an array answer throws
    ensures PhpEmpty(up.curlError) && up.httpCode == 200 && AnswerText(up.body).PArray? ==>
      Respond(call, userId, q, up) == Decision(Some(call), None, Crashed)
  {
  }

  /**
   * An answer comes only from a 200 reply without transport error whose
   * answer field converts to a string; it is that string trimmed, and it
   * is exactly the exchange that gets logged.
   */
  lemma RespondAnswer(call: Call, userId: int, q: Bytes, up: Upstream)
    ensures Respond(call, userId, q, up).reply.Answered? <==>
      PhpEmpty(up.curlError) && up.httpCode == 200 && AnswerText(up.body) != PNull &&
      ToText(AnswerText(up.body)).Some?
    ensures Respond(call, userId, q, up).reply.Answered? ==>
      var answer := Trim(ToText(AnswerText(up.body)).value);
      Respond(call, userId, q, up).reply == Answered(answer) &&
      Respond(call, userId, q, up).insert == Some(Record(userId, q, answer))
  {
  }

  /** What happens after the call does not depend on where the call went. */
  lemma RespondIgnoresCall(c1: Call, c2: Call, userId: int, q: Bytes, up: Upstream)
    ensures Respond(c1, userId, q, up).(call := Some(c2)) == Respond(c2, userId, q, up)
  {
  }

  /** The handler after `iniciarSessao`, for a session `s` and the result `up` of the call if it is made. */
  function Decide(v: Variant, s: SessionState, req: Request, apiKey: Option<Bytes>, up: Upstream): (d: Decision)
    requires s.Valid()
    ensures !d.reply.SessionRedirect?
    ensures d.call.Some? <==> s.usuarioLogado && Validate(req).Ok? && apiKey.Some?
    ensures d.insert.Some? <==> d.reply.Answered?
  {
    if !s.usuarioLogado then Decision(None, None, Failed(SessionExpired))
    else
      match Validate(req)
      case Err(e) => Decision(None, None, Failed(e))
      case Ok(q) =>
        match apiKey
        case None => Decision(None, None, Crashed)
        case Some(key) => Respond(Call(Endpoint(v, key), q), s.usuarioId.value, q, up)
  }

  /**
   * With `GEMINI_API_KEY` undefined, a valid question reaches the read of
   * the constant and the handler dies there: no call, no insert, no JSON
   * reply.
   */
  lemma DecideNeedsKey(v: Variant, s: SessionState, req: Request, up: Upstream)
    requires s.Valid() && s.usuarioLogado && Validate(req).Ok?
    ensures Decide(v, s, req, None, up) == Decision(None, None, Crashed)
  {
  }

  /** Without a login the handler answers with the session-expired error and calls nobody. */
  lemma DecideNeedsLogin(v: Variant, s: SessionState, req: Request, apiKey: Option<Bytes>, up: Upstream)
    requires s.Valid() && !s.usuarioLogado
    ensures Decide(v, s, req, apiKey, up) == Decision(None, None, Failed(SessionExpired))
  {
  }

  /** A logged-in request that fails the request or question tests is refused before any call. */
  lemma DecideValidatesFirst(v: Variant, s: SessionState, req: Request, apiKey: Option<Bytes>, up: Upstream)
    requires s.Valid() && s.usuarioLogado && Validate(req).Err?
    ensures Decide(v, s, req, apiKey, up) == Decision(None, None, Failed(Validate(req).error))
  {
  }

  /**
   * A request that passes every test is sent once, to the copy's endpoint,
   * with the trimmed question after the system prompt, and the rest is
   * decided by what comes back.
   */
  lemma DecideCall(v: Variant, s: SessionState, req: Request, apiKey: Bytes, up: Upstream)
    requires s.Valid() && s.usuarioLogado && Validate(req).Ok?
    ensures var call := Call(Endpoint(v, apiKey), Validate(req).value);
      Decide(v, s, req, Some(apiKey), up) == Respond(call, s.usuarioId.value, Validate(req).value, up)
  {
  }

  /**
   * The handler never looks at the last-access time: it runs after
   * `iniciarSessao` alone, not `verificarLogin`, so the idle limit does not
   * apply to it.
   */
  lemma DecideIgnoresIdleTime(v: Variant, s: SessionState, t: Option<int>, req: Request, apiKey: Option<Bytes>,
                              up: Upstream)
    requires s.Valid()
    ensures Decide(v, s.(ultimoAcesso := t), req, apiKey, up) == Decide(v, s, req, apiKey, up)
  {
  }

  /**
   * A session idle for longer than the limit, which `verificarLogin` would
   * end with the timeout redirect, still gets its valid question sent.
   */
  lemma IdleSessionStillServed(v: Variant, s: SessionState, now: int, addr: Bytes, agent: Bytes,
                               req: Request, apiKey: Bytes, up: Upstream)
    requires s.LoggedIn() && StartSession(s, addr, agent).outcome == Pass
    requires s.ultimoAcesso.Some? && now - s.ultimoAcesso.value > IDLE_LIMIT && Validate(req).Ok?
    ensures CheckLogin(s, now, addr, agent) == Step(EMPTY, RedirectTimeout)
    ensures Decide(v, StartSession(s, addr, agent).state, req, Some(apiKey), up).call ==
      Some(Call(Endpoint(v, apiKey), Validate(req).value))
  {
  }

  /** A body shaped like the provider's answer, with `text` at `candidates[0].content.parts[0].text`. */
  function AnswerBody(text: Bytes): PhpValue {
    PArray(map[CANDIDATES := PArray(map[IntKey(0) :=
      PArray(map[CONTENT := PArray(map[PARTS := PArray(map[IntKey(0) :=
        PArray(map[TEXT := PStr(text)])])])])])])
  }

  /** The body shaped like the provider's answer holds `text` where the handler looks. */
  lemma AnswerBodyHoldsText(text: Bytes)
    ensures AnswerText(AnswerBody(text)) == PStr(text)
  {
  }

  /**
   * A 200 reply without transport error whose answer field is a string,
   * to a logged-in user's valid question, is answered with the trimmed
   * text, and that exchange is what gets logged.
   */
  lemma TextReplyIsAnswered(v: Variant, s: SessionState, req: Request, apiKey: Bytes, up: Upstream, text: Bytes)
    requires s.Valid() && s.usuarioLogado && Validate(req).Ok?
    requires PhpEmpty(up.curlError) && up.httpCode == 200 && AnswerText(up.body) == PStr(text)
    ensures var d := Decide(v, s, req, Some(apiKey), up);
      d.reply == Answered(Trim(text)) &&
      d.insert == Some(Record(s.usuarioId.value, Validate(req).value, Trim(text)))
  {
    DecideCall(v, s, req, apiKey, up);
    RespondAnswer(Call(Endpoint(v, apiKey), Validate(req).value), s.usuarioId.value, Validate(req).value, up);
  }

  /** So a well-formed provider reply to a valid question is answered. */
  lemma WellFormedReplyIsAnswered(v: Variant, s: SessionState, req: Request, apiKey: Bytes, text: Bytes)
    requires s.Valid() && s.usuarioLogado && Validate(req).Ok?
    ensures var d := Decide(v, s, req, Some(apiKey), Upstream([], 200, AnswerBody(text)));
      d.reply == Answered(Trim(text)) &&
      d.insert == Some(Record(s.usuarioId.value, Validate(req).value, Trim(text)))
  {
    AnswerBodyHoldsText(text);
    TextReplyIsAnswered(v, s, req, apiKey, Upstream([], 200, AnswerBody(text)), text);
  }

  /** The two copies of the handler decide alike; only the URL of the call differs. */
  lemma VariantsAgree(s: SessionState, req: Request, apiKey: Option<Bytes>, up: Upstream)
    requires s.Valid()
    ensures var a, b := Decide(Legacy, s, req, apiKey, up), Decide(Current, s, req, apiKey, up);
      a.reply == b.reply && a.insert == b.insert && (a.call.Some? <==> b.call.Some?) &&
      (a.call.Some? ==> a.call.value.question == b.call.value.question)
  {
    if s.usuarioLogado && Validate(req).Ok? && apiKey.Some? {
      var q, key := Validate(req).value, apiKey.value;
      DecideCall(Legacy, s, req, key, up);
      DecideCall(Current, s, req, key, up);
      RespondIgnoresCall(Call(Endpoint(Legacy, key), q), Call(Endpoint(Current, key), q),
                         s.usuarioId.value, q, up);
    }
  }

  /** The interaction log after a decision: one new row when an answer was produced and the insert succeeded. */
  function Logged(log: seq<Store.Interaction>, d: Decision, insertOk: bool, now: int): (r: seq<Store.Interaction>)
    ensures |r| == |log| + (if d.insert.Some? && insertOk then 1 else 0)
    ensures r[..|log|] == log
    ensures d.insert.Some? && insertOk ==>
      r[|log|] == Store.Interaction(d.insert.value.usuarioId, d.insert.value.pergunta, d.insert.value.resposta, now)
  {
    match d.insert
    case Some(rec) =>
      if insertOk then log + [Store.Interaction(rec.usuarioId, rec.pergunta, rec.resposta, now)] else log
    case None => log
  }

  /**
   * processar_ia.php for one POST.  `env` is PHP's constant table as
   * `carregarEnv` left it, `up` is what the upstream call returns if it is
   * made, `insertOk` whether the insert executes, `now` the server's clock
   * at the insert.
   */
  method HandleRequest(v: Variant, session: SessionGuard.Session, db: Store.Database, req: Request,
                       addr: Bytes, agent: Bytes, env: Env.Constants, up: Upstream, insertOk: bool, now: int)
    returns (call: Option<Call>, reply: Reply)
    requires session.State().Valid() && !session.active
    modifies session, db
    ensures var st := StartSession(old(session.State()), addr, agent);
      session.State() == st.state &&
      (st.outcome == Redirect ==> call == None && reply == SessionRedirect && db.historico == old(db.historico)) &&
      (st.outcome == Pass ==>
        var d := Decide(v, st.state, req, ConfiguredKey(env.defined), up);
        call == d.call && reply == d.reply && db.historico == Logged(old(db.historico), d, insertOk, now))
    ensures db.usuarios == old(db.usuarios)
  {
    ghost var st := StartSession(session.State(), addr, agent);
    var outcome := session.Start(addr, agent);
    assert session.State() == st.state && outcome == st.outcome;
    if outcome != Pass {
      return None, SessionRedirect;
    }
    var d := Decide(v, session.State(), req, ConfiguredKey(env.defined), up);
    call, reply := d.call, d.reply;
    ghost var log := db.historico;
    if d.insert.Some? {
      var rec := d.insert.value;
      db.InsertInteraction(rec.usuarioId, rec.pergunta, rec.resposta, now, insertOk);
    }
    assert db.historico == Logged(log, d, insertOk, now);
  }
}
