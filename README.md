# WorkIdeas core, modelled in Dafny

WorkIdeas is a small PHP site where students ask a generative-AI service for
project ideas. This project models the decision and state logic under its
pages:

- the `.env` loader and the session guard of `config.php` (`carregarEnv`,
  `iniciarSessao`, `verificarLogin`, `logout`);
- the AI request handler `processar_ia.php`, in both of its copies. They
  differ only in the model named in the endpoint URL (`AiRequest.Variant`);
- the login and registration blocks of `index.php`;
- the guard, logout dispatch, history query, collection loop and answer
  excerpt of `dashboard.php`.

PHP strings are byte sequences (`Bytes.Bytes`, a `seq` of a `byte` newtype),
because `strlen`, `substr`, `trim` and `strpos` count bytes. `$_SESSION` is the
class `SessionGuard.Session`, whose methods update its fields in place. Each
method is proved equal to a pure function on `SessionState`. The two database
tables live in the class `Store.Database` as sequences the methods append to.
The PHP library functions the pages call are the arrow-typed fields of
`Foreign.Library`, so every proved property holds whatever those functions
compute. The upstream HTTP call is an input (`AiRequest.Upstream`), and so are
`time()`, `REMOTE_ADDR`, `HTTP_USER_AGENT` and the result of each `execute()`.
The handler reads the provider key from the constant table that
`carregarEnv` fills (`Env.Constants`); when `.env` never defines
`GEMINI_API_KEY`, a valid question makes the handler die without a reply
(`AiRequest.DecideNeedsKey`).

Files: `wrappers.dfy` (Option, Result), `bytes.dfy` (byte-string primitives),
`env.dfy`, `session.dfy`, `store.dfy`, `foreign.dfy`, `ai_request.dfy`,
`accounts.dfy`, `history.dfy`.

The status mapping of a failed provider call runs in the order of
WorkIdeas/WorkIdeas/processar_ia.php:213-219: the provider's message is
tested for "API key" before the status is looked at, so a 429 or 403 whose
message mentions the key is reported as an invalid key, not as the rate
limit or the access denial (`AiRequest.ApiKeyMessageWins`).

Both copies of the AI handler call only `iniciarSessao` and then test
`usuario_logado` themselves (WorkIdeas/WorkIdeas/processar_ia.php:28-36,
WorkIdeas/processar_ia.php:16-24). They never call `verificarLogin`, so the
1800-second idle limit that ends a dashboard session does not apply to
them: a session the dashboard would end with the timeout redirect still
has its question sent (`AiRequest.IdleSessionStillServed`,
`AiRequest.DecideIgnoresIdleTime`).

`iniciarSessao` stores the user agent at first initialisation, but the
code compares only the address (WorkIdeas/WorkIdeas/config.php:106), though
its doc comment speaks of validating both; the model follows the code
(`SessionGuard.AgentNotChecked`).

`SessionState.active` is `session_status()` within one request. The three
page methods (`Accounts.ServeIndex`, `AiRequest.HandleRequest`,
`History.ServeDashboard`) require it false, as at the start of every PHP
request, and `SessionGuard.Session.EndRequest` closes the session between
two requests.

## Model

| member | source | states |
|---|---|---|
| Bytes.TrimChars | WorkIdeas/WorkIdeas/config.php:42-46 | `trim` never lengthens its input, leaves neither end a stripped byte, gives the empty string when every byte is stripped, and adds no byte |
| Bytes.TrimCharsIsInfix | WorkIdeas/WorkIdeas/config.php:42-46 | `trim` removes bytes of the set only at the two ends: the result is the slice of the input between a run of stripped bytes at the start and one at the end |
| Bytes.Trim | WorkIdeas/WorkIdeas/config.php:42-43 | `trim` with PHP's default set: space, tab, newline, carriage return, NUL and vertical tab |
| Bytes.PhpEmpty | WorkIdeas/WorkIdeas/config.php:35 | `empty()` of a string holds for "" and "0" |
| Bytes.Digits | WorkIdeas/WorkIdeas/processar_ia.php:213 | the decimal digits of a natural number: only digit bytes, reading back as the number under the reference `DecimalValue`, and with a leading zero only for 0 itself |
| Bytes.IntToBytes | WorkIdeas/WorkIdeas/processar_ia.php:213 | PHP's string form of an integer: a leading '-' exactly for a negative number, then digits that read back as its magnitude under `DecimalValue`, with no leading zero except "0" itself |
| Bytes.Prefix | WorkIdeas/dashboard.php:548 | `substr($s, 0, n)`: the first n bytes, or the whole string when it is shorter, and always a prefix of it |
| Bytes.TrimCharsIdempotent | WorkIdeas/WorkIdeas/config.php:43-46 | trimming an already trimmed value changes nothing |
| Bytes.Contains | WorkIdeas/WorkIdeas/processar_ia.php:213 | `strpos(...) !== false` holds exactly when the needle occurs at some offset of the haystack |
| Bytes.IndexOf | WorkIdeas/WorkIdeas/config.php:40 | the first position of a byte: none exactly when the byte is absent, otherwise a position holding it with no earlier occurrence |
| Env.SplitAtFirst | WorkIdeas/WorkIdeas/config.php:40 | `explode('=', $line, 2)`: the key part holds no `=` and key, `=`, value put back together give the line |
| Env.ValueKeepsLaterEquals | WorkIdeas/WorkIdeas/config.php:40 | the split is at the first `=` only: a value containing `=` is kept whole |
| Env.CleanValue | WorkIdeas/WorkIdeas/config.php:43-46 | the value after `trim` and the quote `trim` neither starts nor ends with a double or single quote |
| Env.Skipped | WorkIdeas/WorkIdeas/config.php:35-37 | a line that is not skipped trims to a non-empty text other than "0" that does not start with `#` |
| Env.Parse | WorkIdeas/WorkIdeas/config.php:40-46 | the key is the trimmed text before the first `=` (the whole line when it has none) and holds no `=`; the value is the cleaned text after that `=` (empty when there is none), so it neither starts nor ends with a quote |
| Env.Define | WorkIdeas/WorkIdeas/config.php:49-51 | one loop step on a line's entry: a skipped line defines nothing; otherwise its key ends up defined, no existing constant changes, no other name is added, and a new key gets the line's value |
| Env.FirstDefinitionIsEarliest | WorkIdeas/WorkIdeas/config.php:33-52 | the reference value of a key is that of the earliest line defining it, and there is none exactly when no line defines it |
| Env.LoadedIsFirstDefinition | WorkIdeas/WorkIdeas/config.php:33-52 | after loading, a predefined name keeps its value, and any other name holds the reference value, the first line's, or stays undefined when no line defines it |
| Env.Loaded | WorkIdeas/WorkIdeas/config.php:49-51 | the table after the loop over the entries: no constant defined before the loop is redefined or loses its value |
| Env.Constants.DefineEntry | WorkIdeas/WorkIdeas/config.php:49-51 | the in-place update of the constant table is the loop step `Define` |
| Env.Constants.LoadEnv | WorkIdeas/WorkIdeas/config.php:22-53 | the loop leaves the constant table equal to `Loaded` of the old table over the entries of all lines, in file order |
| SessionGuard.AgentNotChecked | WorkIdeas/WorkIdeas/config.php:97-111 | whether `iniciarSessao` passes or redirects does not depend on the user agent: it is stored at first initialisation but only the address is compared |
| SessionGuard.StartSession | WorkIdeas/WorkIdeas/config.php:88-112 | first initialisation records `iniciada`, the address and the agent and then passes; later calls keep them; a redirect happens exactly when the stored address differs from the request's, and it destroys the session; a pass touches no login field; an already active session is left alone; the session invariant is kept |
| SessionGuard.CheckLogin | WorkIdeas/WorkIdeas/config.php:120-141 | the start-up test runs first; without `usuario_id` and `usuario_logado === true` it redirects with the session kept; the timeout redirect happens exactly when the idle time exceeds 1800 s, and it empties the session; a pass exactly when logged in and not idle too long, refreshing `ultimo_acesso` to now, and leaving every other field as `iniciarSessao` left it |
| SessionGuard.EndSession | WorkIdeas/WorkIdeas/config.php:150-166 | logout always leaves the session empty and redirects with `logout=sucesso` exactly when the start-up test passed |
| SessionGuard.IdleBoundary | WorkIdeas/WorkIdeas/config.php:130-137 | exactly 1800 idle seconds still pass; 1801 destroy the session with the timeout redirect |
| SessionGuard.ActiveSessionSurvives | WorkIdeas/WorkIdeas/config.php:120-141 | a logged-in session from its own address passes every one of a series of requests no two of which are more than 1800 s apart |
| SessionGuard.Session.Start | WorkIdeas/WorkIdeas/config.php:88-112 | the in-place update of the session fields, and the outcome, are those of `StartSession` |
| SessionGuard.Session.VerifyLogin | WorkIdeas/WorkIdeas/config.php:120-141 | the new fields and the outcome are those of `CheckLogin` |
| SessionGuard.Session.Logout | WorkIdeas/WorkIdeas/config.php:150-166 | the new fields and the outcome are those of `EndSession` |
| SessionGuard.Session.Destroy | WorkIdeas/WorkIdeas/config.php:107 | `session_destroy()` leaves every session field unset |
| SessionGuard.Session.EndRequest | WorkIdeas/WorkIdeas/config.php:89-95 | between requests the session is closed and every stored field is kept, so the next `iniciarSessao` finds `session_status()` at none |
| SessionGuard.Session.SignIn | WorkIdeas/WorkIdeas/index.php:54-56 | a successful login writes exactly `usuario_id`, `usuario_nome` and `usuario_logado = true` |
| Store.FindByEmail | WorkIdeas/WorkIdeas/index.php:43-49 | the lookup finds nothing exactly when no user has the email; otherwise it returns the earliest user with it |
| Store.FindByEmailUnique | WorkIdeas/WorkIdeas/index.php:43-49 | with distinct emails the lookup returns the one user with that email |
| Store.WithUser | WorkIdeas/WorkIdeas/index.php:100-103 | the insert keeps every earlier row and appends one with the next identifier and the bound name, email and hash |
| Store.WithUserKeepsUnique | WorkIdeas/WorkIdeas/index.php:97-104 | inserting a user whose email is not found keeps emails distinct |
| Store.Database.InsertUser | WorkIdeas/WorkIdeas/index.php:100-103 | the users table grows by the new row with the next identifier exactly when `execute()` succeeds; the log is untouched and the table invariant is kept |
| Store.Database.InsertInteraction | WorkIdeas/WorkIdeas/processar_ia.php:258-284 | the log grows by exactly the bound row when `execute()` succeeds, and is unchanged otherwise |
| AiRequest.Validate | WorkIdeas/WorkIdeas/processar_ia.php:42-69 | not-sent exactly for a non-POST or missing `pergunta`; empty exactly when the trimmed question is "" or "0"; too long exactly when it is non-empty and over 1000 bytes; otherwise the trimmed question is accepted |
| AiRequest.AcceptedQuestion | WorkIdeas/processar_ia.php:39-57 | an accepted question has 1 to 1000 bytes, is not "0" and starts and ends with a non-whitespace byte |
| AiRequest.LengthBoundary | WorkIdeas/WorkIdeas/processar_ia.php:63-69 | a question that trims to exactly 1000 bytes is accepted; 1001 bytes is too long |
| AiRequest.Prompt | WorkIdeas/WorkIdeas/processar_ia.php:78-89 | the text sent is the system prompt, then "Pergunta do aluno: ", then the trimmed question, and nothing else |
| AiRequest.ToText | WorkIdeas/WorkIdeas/processar_ia.php:244-247 | string conversion fails exactly for an array; a string is returned unchanged, null becomes "", an integer its decimal digits, `true` "1" and `false` "" |
| AiRequest.Get | WorkIdeas/WorkIdeas/processar_ia.php:235-240 | one `isset` step: a non-null value is the entry of that key of an array, and an existing entry is returned as it is |
| AiRequest.AnswerText | WorkIdeas/WorkIdeas/processar_ia.php:235-240 | the answer `candidates[0].content.parts[0].text` is set only when every step of that path exists, and is then the value found there |
| AiRequest.AnswerBodyHoldsText | WorkIdeas/WorkIdeas/processar_ia.php:235-240 | a reply shaped as the provider documents yields its text |
| AiRequest.ProviderMessage | WorkIdeas/WorkIdeas/processar_ia.php:205-210 | the message defaults to 'Erro desconhecido'; when `error.message` is set it is that value's string conversion (the string itself for a string); it fails to convert exactly when it is an array |
| AiRequest.NumericMessageMapsOnStatus | WorkIdeas/WorkIdeas/processar_ia.php:205-219 | a number at `error.message` never contains "API key", so 429 and 403 map on the status and any other status passes on the number's digits |
| AiRequest.MessageField | WorkIdeas/WorkIdeas/processar_ia.php:207-210 | `error.message` is set only when both steps exist, and is then the value found there |
| AiRequest.Endpoint | WorkIdeas/WorkIdeas/processar_ia.php:152 | the URL is the copy's fixed address (model gemini-pro here, gemini-2.5-flash in WorkIdeas/processar_ia.php:140), ending in `?key=`, followed by the API key and nothing else |
| AiRequest.EndpointsDiffer | WorkIdeas/processar_ia.php:140 | the two copies post to different URLs for the same key |
| AiRequest.ErrorText | WorkIdeas/WorkIdeas/processar_ia.php:189-223 | a transport error is the fixed prefix 'Erro na comunicação com a API Gemini: ' followed by the transport text and nothing else, and the provider's message is written unchanged |
| AiRequest.UnknownErrorHasNoApiKey | WorkIdeas/WorkIdeas/processar_ia.php:205-213 | the default message does not contain "API key" |
| AiRequest.HttpError | WorkIdeas/WorkIdeas/processar_ia.php:204-226 | for a non-200 reply: invalid key exactly when the message contains "API key"; rate limit exactly for 429 without it; access denied exactly for 403 without it; otherwise the provider's own message; a crash exactly when the message is an array |
| AiRequest.MissingMessageMapsOnStatus | WorkIdeas/processar_ia.php:191-213 | with no provider message the mapping depends on the status alone, and falls back to 'Erro desconhecido' |
| AiRequest.ApiKeyMessageWins | WorkIdeas/processar_ia.php:191-213 | a message starting with "API key" is reported as an invalid key whatever the status, 429 and 403 included |
| AiRequest.Respond | WorkIdeas/WorkIdeas/processar_ia.php:189-297 | every path after the call reports that call and never redirects, and a row is to be inserted exactly when the reply is an answer |
| AiRequest.RespondFailures | WorkIdeas/WorkIdeas/processar_ia.php:189-247 | a transport error is reported, with its text, before the status is looked at; a non-200 status goes through the status mapping; a 200 reply without the answer path is an unexpected format; an answer field holding an array makes `trim` throw; none of them inserts a row |
| AiRequest.RespondAnswer | WorkIdeas/WorkIdeas/processar_ia.php:235-297 | an answer comes exactly from a 200 reply without transport error whose answer converts to a string; it is that text trimmed, and the row to insert is (user, trimmed question, that answer) |
| AiRequest.RespondIgnoresCall | WorkIdeas/processar_ia.php:176-234 | what happens after the call does not depend on its URL |
| AiRequest.Decide | WorkIdeas/WorkIdeas/processar_ia.php:30-297 | the upstream call is made exactly when the user is logged in, the request passes validation and `GEMINI_API_KEY` is defined; a row is to be inserted exactly when the reply is an answer |
| AiRequest.DecideNeedsKey | WorkIdeas/WorkIdeas/processar_ia.php:149 | with `GEMINI_API_KEY` undefined, a valid question from a logged-in user ends in the "Undefined constant" error: no call, no insert, no JSON reply |
| AiRequest.ConfiguredKey | WorkIdeas/WorkIdeas/processar_ia.php:149 | the key is present exactly when the constant table defines `GEMINI_API_KEY`, and is then its value |
| AiRequest.ConfiguredKeyIsFirstDefinition | WorkIdeas/WorkIdeas/config.php:22-53 | after `carregarEnv` over an empty table, the key the handler reads is the value of the first `.env` line defining `GEMINI_API_KEY`, and absent when no line does |
| AiRequest.DecideIgnoresIdleTime | WorkIdeas/WorkIdeas/processar_ia.php:28-36 | the handler's decision is the same whatever the session's last-access time |
| AiRequest.IdleSessionStillServed | WorkIdeas/WorkIdeas/processar_ia.php:28-36 | a logged-in session idle past the limit, which `verificarLogin` would destroy with the timeout redirect, still has its valid question sent to the endpoint |
| AiRequest.DecideNeedsLogin | WorkIdeas/WorkIdeas/processar_ia.php:30-36 | without a login the reply is session-expired, with no call and no insert |
| AiRequest.DecideValidatesFirst | WorkIdeas/processar_ia.php:39-57 | a request that fails validation is refused with that error, with no call and no insert |
| AiRequest.DecideCall | WorkIdeas/WorkIdeas/processar_ia.php:78-152 | with the key defined, a valid request is sent once, to the copy's endpoint with the key, carrying the trimmed question, and the rest is decided by the reply |
| AiRequest.TextReplyIsAnswered | WorkIdeas/WorkIdeas/processar_ia.php:235-297 | a 200 reply whose answer is the string `text` gives the answer `trim(text)` and logs exactly that exchange for the session user |
| AiRequest.WellFormedReplyIsAnswered | WorkIdeas/processar_ia.php:222-284 | a well-formed provider reply to a valid question is answered with its trimmed text, and that exchange is logged |
| AiRequest.VariantsAgree | WorkIdeas/processar_ia.php:140 | the two copies give the same reply, the same insert and the same question; only the URL of the call differs |
| AiRequest.Logged | WorkIdeas/processar_ia.php:245-284 | the log grows by one row exactly when there is an answer and the insert succeeds, keeps every earlier row, and the new row is the decided exchange (user, question, answer) at the time of the insert |
| AiRequest.HandleRequest | WorkIdeas/WorkIdeas/processar_ia.php:28-297 | the session becomes that of `iniciarSessao`; an address redirect makes no call and leaves the log alone; otherwise the call and the reply are those of `Decide` with the key read from the constant table `carregarEnv` built, the log is `Logged` of the old log, and the users table is untouched |
| Accounts.Authenticate | WorkIdeas/WorkIdeas/index.php:34-72 | fill-all exactly when the sanitised email or the password is empty; otherwise unknown user or wrong password; signing in only as a stored user with that email whose hash verifies the password |
| Accounts.SignInState | WorkIdeas/WorkIdeas/index.php:54-56 | a signed-in session is logged in as the user, with that user's id and name, and no other field changes |
| Accounts.UnknownEmailRejected | WorkIdeas/WorkIdeas/index.php:48-65 | an address no user has gives the unknown-user message |
| Accounts.LoginDecidedByOwnHash | WorkIdeas/WorkIdeas/index.php:48-62 | with distinct emails, the owner of the address signs in exactly when the password verifies against their own hash, and otherwise gets the wrong-password message |
| Accounts.PlanRegistration | WorkIdeas/WorkIdeas/index.php:79-122 | fill-all exactly when the escaped trimmed name, the sanitised email or the password is empty; a planned row has the escaped name, the sanitised email and the password's hash, not the password, and exists only when the passwords match, the email is valid and not yet registered; a form that passes every test is planned |
| Accounts.RegistrationOrder | WorkIdeas/WorkIdeas/index.php:84-122 | after the fill-all test: a mismatch is reported first, then an invalid email, then a duplicate email, which is reported exactly when a user has that email |
| Accounts.RegisteredUserCanLogIn | WorkIdeas/WorkIdeas/index.php:99-104 | once the planned row is stored, logging in with the same address and password signs in as the new user, given that the hash verifies its own password |
| Accounts.IndexPage | WorkIdeas/WorkIdeas/index.php:14-123 | the page redirects on the address exactly when `iniciarSessao` does, and then the session is the emptied one and the table is unchanged; whenever it shows the form again the session is as `iniciarSessao` left it |
| Accounts.VerifiedLoginSignsIn | WorkIdeas/WorkIdeas/index.php:34-59 | a verified login on a started session not yet logged in writes the matched user's id and name into the session, logs it in and sends the visitor to the dashboard, with the users table unchanged |
| Accounts.PlannedRegistrationStored | WorkIdeas/WorkIdeas/index.php:77-108 | a registration that passes every test stores the planned row and shows the success message when `execute()` succeeds, keeping a refused login's message; when it fails the table is unchanged and the insert-failure message is shown |
| Accounts.RefusedRegistrationShowsNotice | WorkIdeas/WorkIdeas/index.php:77-122 | a registration that fails a test shows exactly that test's message, replacing a refused login's, with the session as `iniciarSessao` left it and the table unchanged |
| Accounts.PlainVisitShowsForm | WorkIdeas/WorkIdeas/index.php:28-77 | a visit posting no form shows the page with both message boxes empty, the session as `iniciarSessao` left it and the table unchanged |
| Accounts.RejectedLoginKeepsSession | WorkIdeas/WorkIdeas/index.php:48-72 | a refused login shows its message and leaves the session as `iniciarSessao` left it |
| Accounts.IndexPageInvariants | WorkIdeas/WorkIdeas/index.php:16-123 | a request keeps the session invariant and distinct emails, and leaves the users table unchanged or adds exactly the planned row |
| Accounts.DashboardNeedsLogin | WorkIdeas/WorkIdeas/index.php:22-59 | the page sends a visitor to the dashboard only with a logged-in session: one that already was, or one just signed in as a stored user whose password verified |
| Accounts.LoggedInSkipsForms | WorkIdeas/WorkIdeas/index.php:22-25 | a logged-in visitor is sent to the dashboard before any form is processed, and nothing else changes |
| Accounts.ServeIndex | WorkIdeas/WorkIdeas/index.php:16-123 | the new session, the new users table and the outcome are those of `IndexPage`; the log is untouched and the table invariant is kept |
| History.OfUser | WorkIdeas/dashboard.php:30-31 | `WHERE usuario_id = ?`: exactly the log's rows of that user, each at most as often as in the log |
| History.OfUserKeepsEachRow | WorkIdeas/dashboard.php:30-31 | the filter drops no row: each row of the user is kept exactly as often as the log holds it, and no other row is kept |
| History.InsertByDate | WorkIdeas/dashboard.php:30 | one insertion step of the ordering: one row more, and a permutation of the old rows plus the new one |
| History.InsertKeepsOrder | WorkIdeas/dashboard.php:30 | inserting into a newest-first sequence keeps it newest first |
| History.SortByDate | WorkIdeas/dashboard.php:30 | `ORDER BY data_interacao DESC`: a permutation of the rows, newest first |
| History.Selected | WorkIdeas/dashboard.php:30 | the query returns at most 20 rows, the `LIMIT` |
| History.SelectedOwnRowsOnly | WorkIdeas/dashboard.php:30-31 | the history holds only logged rows of the session user |
| History.SelectedSize | WorkIdeas/dashboard.php:30 | a user with n rows gets min(20, n) of them |
| History.SelectedIsNewestPrefix | WorkIdeas/dashboard.php:30 | the history is newest first and is the first rows of an ordering of all the user's rows, so no row it leaves out is newer than its last |
| History.NewestPrefix | WorkIdeas/dashboard.php:30 | the first k rows of a newest-first sequence are newest first and no older than the rest |
| History.HistoryRows | WorkIdeas/dashboard.php:30-33 | the result set has one row per selected interaction, in order, and at most 20 |
| History.CollectRows | WorkIdeas/dashboard.php:35-38 | the fetch loop collects exactly the rows returned, in order, none dropped or added |
| History.Excerpt | WorkIdeas/dashboard.php:548 | every shown answer ends with "...", even a short one |
| History.ExcerptCuts | WorkIdeas/dashboard.php:548 | an answer of at most 200 bytes is shown whole, a longer one by its first 200 bytes |
| History.ExcerptIgnoresTail | WorkIdeas/dashboard.php:548 | answers that agree on their first 200 bytes are shown the same |
| History.Render | WorkIdeas/dashboard.php:542-554 | the placeholder shows exactly when there are no rows; otherwise one item per row, in order, with the escaped question in full and the answer excerpt |
| History.Dashboard | WorkIdeas/dashboard.php:15-41 | the history page is shown exactly when `verificarLogin` passes and there is no `logout` parameter; every other request ends with a redirect |
| History.DashboardGuardFirst | WorkIdeas/dashboard.php:16-33 | the login guard decides first: a failing guard ends the page with its redirect, and a page is shown only after a pass without `logout`, with the session user's history |
| History.LogoutBeforeHistory | WorkIdeas/dashboard.php:21-23 | with `logout` present, the session is emptied with the logout redirect before any history is loaded |
| History.PageShowsOwnHistory | WorkIdeas/dashboard.php:542-553 | the placeholder shows exactly when the user has no rows, and every item shown renders one of that user's logged exchanges |
| History.ServeDashboard | WorkIdeas/dashboard.php:15-41 | the new session and the outcome are those of `Dashboard` on the stored log |

## Left out

- HTML, CSS and client-side JavaScript of the pages are not modelled; the model ends at which page, message box or history item is shown.
- Each request is modelled alone, one after another. Concurrent requests are not: the duplicate-email test of registration (the SELECT at index.php lines 92-97, then the INSERT) is not atomic, so two simultaneous registrations of one address can both pass it, which the model cannot show.
- cURL, HTTPS and JSON encoding and decoding are not modelled. The upstream call's result is the input `Upstream`: the `curl_error` text, the status and the decoded body. The JSON reply the handler prints is its `Reply` value, with the message texts of `ErrorText`, except as the next two lines say.
- `Call.question`: the call records the trimmed question, and `Prompt` defines the text that goes with it. The JSON request body, the floating-point generation parameters and the safety settings are constants with no behaviour.
- AiRequest.HttpError: a number or boolean at `error.message` is carried in `ProviderError` as its string conversion, the text `strpos` tests; the handler prints the raw value in `erro`, so its JSON reply has a number or boolean there.
- Integers in the decoded body (`PInt`) are unbounded. `json_decode` turns an integer outside the 64-bit range into a float, whose text differs from the digits the model gives; such numbers are not modelled.
- JSON numbers with a fraction are not among the decoded values. A float at `error.message` or at the answer's `text` is converted to its decimal text by `strpos` and `trim`; the model does not capture that conversion.
- mysqli connections, `die` on connect failure, `prepare` and `bind_param` are not modelled. The tables are in-memory sequences, and whether each `execute()` succeeds is a boolean input.
- `ORDER BY data_interacao DESC` leaves the order of equal times to the database. The model puts the later-logged row first, so `SelectedIsNewestPrefix` states the order only up to such ties.
- Store.FindByEmail: compares emails byte for byte. MySQL's `WHERE email = ?` compares under the column's collation, and the default utf8mb4 collations ignore case, so a login as "A@x.com" against a stored "a@x.com", and the duplicate test of registration at index.php line 97, can differ from the model.
- `FindByEmail` returns the earliest row with the email, where MySQL's row order is unspecified; with distinct emails, which registration maintains, the two agree.
- `password_hash`, `password_verify`, `filter_var`, `htmlspecialchars` and `nl2br` are uninterpreted fields of `Foreign.Library`. The wrappers `sanitizar`, `validarEmail`, `gerarHashSenha` and `verificarSenha` are never called by the modelled pages.
- Session plumbing is not modelled: `session_start`, `session_regenerate_id`, cookies, `ini_set` and `setcookie`. Redirects are outcomes, and `exit()` is the end of the modelled function.
- Date formatting (`date`, `strtotime`) and `error_log` are not modelled; times are integers in seconds.
- The `.env` existence check and its `file()` read are not modelled; the file is its sequence of lines.
- Env.Parse: a non-skipped line without `=` defines its trimmed text with the empty value, as `list()` leaves `$value` null and `trim(null)` gives the empty string; the warning PHP prints for the missing list element is not modelled.
- Env.Constants.LoadEnv: `define` is modelled as a plain map update, without PHP's own rules on constant names.
- Form fields that are absent from `$_POST` read as the empty string in `Accounts`; PHP's notice for the missing index is not modelled. The password tests treat that string as the empty field directly. The email tests see `Library.sanitizeEmail` of it, which the model leaves unconstrained: PHP's `filter_var('', FILTER_SANITIZE_EMAIL)` gives `''`, but no contract relies on that, so an absent email field is refused as empty only when the library does the same.
- Form fields sent as arrays (`pergunta[]=x`, `nome[]=x`, `senha[]=x`) are not modelled: `trim` and `password_verify` throw a TypeError on them and the request ends without a reply. The fields of `AiRequest.Request` and of the `Accounts` forms are byte strings, so that crash is not captured.
- Store.Database.Valid: numbers users 1, 2, … without gaps. InnoDB's AUTO_INCREMENT can skip a value after a failed insert; the pages rely only on the identifiers being distinct, which such gaps keep.
