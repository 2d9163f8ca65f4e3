# Prova Online — a Dafny model of the browser-side logic

Prova Online is a small school exam site. Students and professors register or log in, each
user gets a personal link, and professors write exams in the browser: questions with
alternatives, a correct answer, and a save step that checks everything before sending. The
server side only stores records. The rules that decide anything live in the browser scripts
under `frontend/js/`, and this project models those scripts as pure Dafny functions over
strings, sequences and small records.

Anything those scripts read from the outside is passed in as a parameter:

- the DOM fields;
- `Date.now()`;
- `localStorage` and `sessionStorage` entries;
- the answers of `confirm`;
- the success of a storage write;
- the page origin;
- the answer of the session-check request.

Anything they write or show becomes part of the result:

- `alert` texts and warnings, as datatype constructors;
- redirects, as target strings;
- stored records, as fields of the result.

Modules, one per script or concern:

| module | file | models |
|---|---|---|
| `Wrappers` | `wrappers.dfy` | `Option` |
| `Text` | `text.dfy` | `replace(/\D/g,'')`, `trim()` with the ECMAScript white-space set, `includes`, `startsWith`, `endsWith`, `split(' ')`, `charAt(0)`, ASCII `toUpperCase` |
| `Cpf` | `cpf.dfy` | `isValidCPF` of `cadastro.js`, as a loop method, and the modulo-11 check digits |
| `Registration` | `registration.dfy` | the submit-time field checks of `cadastro.js` |
| `CpfFormat` | `cpf_format.dfy` | `formatCPF` (`user-display.js`) and `formatarCPF` (`url.js`) |
| `UserDisplay` | `user_display.dfy` | `getInitials`, `isProfessor`/`isStudent`, `displayUserInfo` and the landing redirect |
| `UniqueUrl` | `unique_url.dfy` | `atualizarInterface` and the authentication-check decision of `url.js` |
| `Links` | `links.dfy` | the 32-bit string hash, base 36, `gerarIdUnico`, `gerarLinkUnico`, `validarTokenAcesso`, `verificarPermissaoAcesso` |
| `Login` | `login.dfy` | `isValidEmail` and the `CREDENCIAIS` matching of `login.js` |
| `Session` | `session.dfy` | `noCheckPages`/`isExcluded`, `handleAuthenticated`, `updateUserInterface`, `handleNotAuthenticated` |
| `Credentials` | `credentials.dfy` | the professor list of `credenciais.js` |
| `Exam` | `exam.dfy` | `examData.js` |
| `Alternatives` | `alternatives.dfy` | `alternativeManager.js` |
| `Questions` | `questions.dfy` | the add, delete and edit operations of `questionManager.js` and `criarprova.js` |
| `ExamEditor` | `exam_editor.dfy` | `saveExam`, the checks and payload of `sendExamToServer`, and `handleApiError` |

`saveExam` appears twice in the source, in `frontend/js/criarprova.js` (306-331) and in
`frontend/js/serverSevice.js` (2-28). The two copies apply the same normalisation and the same
checks in the same order, so `ExamEditor.SaveExam` models both. The `addQuestion`,
`deleteQuestion` and `editQuestion` of `criarprova.js` likewise repeat those of
`questionManager.js`, with the collection loop of `getAlternativesFromForm` inlined.

## Model

| member | source | states |
|---|---|---|
| Text.DigitsOnly | frontend/js/cadastro.js:120 | stripping non-digits leaves only digits, never lengthens, and leaves a digit string unchanged |
| Text.DigitsOnlyAppend | frontend/js/cadastro.js:120 | stripping non-digits distributes over concatenation |
| Text.DigitsOnlySingle | frontend/js/cadastro.js:120 | a single character is kept exactly when it is a digit, which with `DigitsOnlyAppend` fixes the result on every string |
| Text.DigitsOnlyKeepsDigits | frontend/js/cadastro.js:120 | a character occurs in the result exactly when it is a digit of the input |
| Text.DigitsOnlyIdempotent | frontend/js/cadastro.js:37 | stripping twice (once on submit, once inside the validator) is stripping once |
| Text.Trim | frontend/js/questionManager.js:3 | `trim()` leaves no white space at either end and never lengthens |
| Text.TrimIsInfix | frontend/js/questionManager.js:3 | `trim()` returns a slice of the input, with only white space cut before and after it |
| Text.TrimEmptyIffAllSpace | frontend/js/questionManager.js:3-9 | a text is blank after `trim()` exactly when it is all white space |
| Text.DigitsOnlyTrim | frontend/js/cadastro.js:37 | trimming before stripping non-digits changes nothing |
| Text.JoinSplit | frontend/js/user-display.js:78 | `split(' ')` loses nothing: joining the pieces gives the name back |
| Text.SplitSingleIff | frontend/js/user-display.js:79 | there is one piece exactly when the name has no space |
| Text.LastPiece | frontend/js/user-display.js:83 | the last piece is the text after the last space |
| Text.FirstPiece | frontend/js/user-display.js:83 | the first piece is the text before the first space |
| Text.Split | frontend/js/user-display.js:78 | `split(' ')` gives at least one piece and no piece contains the separator |
| Text.UpperChar | frontend/js/user-display.js:80-83 | `toUpperCase` maps `a`-`z` to `A`-`Z` and leaves every other character alone |
| Text.Contains | frontend/js/session-check.js:64-65 | defines `includes` as a scan over the suffixes of the text |
| Text.ContainsIff | frontend/js/session-check.js:64-65 | `includes` holds exactly when the searched text sits at some offset |
| Text.StartsWith | frontend/js/login.js:62 | defines `startsWith`: the text begins with the prefix |
| Text.EndsWith | frontend/js/login.js:62 | defines `endsWith`: the text ends with the suffix |
| Cpf.ValidateCpf | frontend/js/cadastro.js:118-150 | the loop-based validator returns true exactly for a valid CPF: eleven digits after stripping, not all equal, both check digits right |
| Cpf.CheckDigit | frontend/js/cadastro.js:135-137 | the check digit is below 10; it is 0 exactly when the remainder by 11 is below 2, and otherwise completes the sum to a multiple of 11 |
| Cpf.TimesTenReduction | frontend/js/cadastro.js:135-137 | `(soma*10) % 11` with 10 and 11 read as 0 is that check digit |
| Cpf.VerdictIgnoresSeparators | frontend/js/cadastro.js:120 | a formatted CPF and its bare digits get the same verdict |
| Cpf.RejectsWrongLength | frontend/js/cadastro.js:123 | anything not reducing to eleven digits is rejected |
| Cpf.CompleteCpf | frontend/js/cadastro.js:132-147 | nine base digits are extended by their two check digits |
| Cpf.ConstantWeightedSum | frontend/js/cadastro.js:132-133 | the weighted sum of a run of one digit `k` in closed form |
| Cpf.RepdigitChecksOut | frontend/js/cadastro.js:126 | a run of one digit carries consistent check digits, so only the explicit repeated-digit test rejects it |
| Cpf.CompleteCpfValidIff | frontend/js/cadastro.js:123-149 | completing nine digits gives a valid CPF exactly when they are not all equal |
| Cpf.ValidCpfIsCompletion | frontend/js/cadastro.js:132-149 | every valid CPF is the completion of its first nine digits |
| Registration.TurmaFor | frontend/js/cadastro.js:43-48 | a class is read only for the two user types |
| Registration.CheckForm | frontend/js/cadastro.js:37-67 | missing CPF, password or type first; then a missing class, with the student message exactly for `aluno` and the other message for any other type; then the CPF verdict; success carries the stripped CPF |
| Registration.PresenceBeforeCpf | frontend/js/cadastro.js:50-67 | a missing-field warning does not depend on the CPF's digits |
| CpfFormat.GroupDigits | frontend/js/user-display.js:69 | the grouping regex leaves fewer than eleven digits alone; otherwise `.` at 3 and 7, `-` at 11, and the rest follows unchanged |
| CpfFormat.GroupDigitsRoundTrip | frontend/js/user-display.js:65-70 | removing `.` and `-` from the grouped digits gives them back |
| CpfFormat.GroupDigitsKeepsDigits | frontend/js/user-display.js:65-70 | grouping adds no digit |
| CpfFormat.FormatCpf | frontend/js/user-display.js:61-73 | empty or absent gives `''`; exactly eleven digits are grouped; any other count gives the digits unchanged |
| CpfFormat.FormatarCpf | frontend/js/url.js:5-9 | empty gives `''`; fewer than eleven digits unchanged; from eleven on the first eleven are grouped and the rest follows |
| CpfFormat.FormatRoundTrip | frontend/js/user-display.js:65-70 | removing separators from either formatter's output gives the stripped digits |
| CpfFormat.FormattedCpfSameVerdict | frontend/js/cadastro.js:120 | formatting a CPF does not change its validity |
| CpfFormat.FormattersAgree | frontend/js/url.js:7-8 | the two formatters agree up to eleven digits |
| UserDisplay.GetInitials | frontend/js/user-display.js:75-84 | `'U'` for no name, at most two characters, the upper-cased first character of a name without spaces |
| UserDisplay.InitialsOfFullName | frontend/js/user-display.js:75-83 | a name with a space gives the upper-cased first character before its first space and the one after its last space, an empty first or last piece giving no letter |
| UserDisplay.RolesExclusive | frontend/js/user-display.js:100-106 | no user is both professor and student |
| UserDisplay.IsProfessor | frontend/js/user-display.js:100-102 | defines `isProfessor`: a stored user of type `professor` |
| UserDisplay.IsStudent | frontend/js/user-display.js:104-106 | defines `isStudent`: a stored user of type `aluno` |
| UserDisplay.DisplayUserInfo | frontend/js/user-display.js:31-53 | name, avatar and CPF are written exactly when their field is non-empty and the title exactly for professors; the CPF shown is `formatCPF` of the stored CPF (so it loses only separators) and the avatar is `getInitials` of the name (so at most two letters) |
| UserDisplay.LandingFor | frontend/js/user-display.js:114-124 | professors stay, students go to `/aluno`, anyone else to `/login`, exactly |
| UniqueUrl.AtualizarInterface | frontend/js/url.js:12-31 | an incomplete user is rejected first, an unknown type next; otherwise the name, `CPF: ` followed by `formatarCPF` of the CPF, and the role's base followed by the id |
| UniqueUrl.UrlEndsWithId | frontend/js/url.js:22-29 | the URL ends with the id and starts with the student base exactly for students |
| UniqueUrl.OnAuthCheck | frontend/js/url.js:37-57 | the page is shown exactly to an authenticated student or professor with name, CPF and id, and then it is what `atualizarInterface` fills in; a failed reply or an incomplete record alerts and goes to `/login/`; any other user goes to the login page with the access-restricted error |
| Links.ToInt32 | frontend/js/linksUnicos.js:9 | `x \| 0` lies in the signed 32-bit range and is congruent to `x` modulo 2^32 |
| Links.Hash | frontend/js/linksUnicos.js:6-10 | the hash stays in the signed 32-bit range |
| Links.HashStep | frontend/js/linksUnicos.js:8-9 | defines one loop step, `(h << 5) - h + c` followed by `\| 0`, with each 32-bit conversion written out |
| Links.HashStepIsTimes31 | frontend/js/linksUnicos.js:8-9 | `(h << 5) - h + c` then `\| 0` is `h*31 + c` wrapped to int32 |
| Links.HashIsWrappedPolyHash | frontend/js/linksUnicos.js:6-10 | wrapping after every step gives the unbounded polynomial hash wrapped once |
| Links.HashEmpty | frontend/js/linksUnicos.js:6 | the hash of the empty string is 0 |
| Links.ToBase36 | frontend/js/linksUnicos.js:13 | `toString(36)` is non-empty, uses `0-9a-z` only, and has no leading zero |
| Links.Base36RoundTrip | frontend/js/linksUnicos.js:13-16 | reading the base-36 numeral back gives the number |
| Links.Base36Injective | frontend/js/linksUnicos.js:16 | distinct numbers render differently |
| Links.GerarIdUnico | frontend/js/linksUnicos.js:4-17 | the id is the base-36 hash magnitude followed by a base-36 tail of exactly the timestamp's numeral length that reads back as the timestamp, all in `0-9a-z` |
| Links.IdsCanCollide | frontend/js/linksUnicos.js:4-17 | two different e-mails get the same id at the same instant |
| Links.GerarLinkUnico | frontend/js/linksUnicos.js:20-23 | the link starts with `origin/tipo/`, ends with `/acesso?token=id` and is one character shorter than their combined length, so the two overlap exactly on the `/` after `tipo` and nothing lies between them |
| Links.TokenOf | frontend/js/linksUnicos.js:22 | the text after the last `=` ends the link and holds no `=` |
| Links.LinkCarriesId | frontend/js/linksUnicos.js:20-23 | a generated link gives back its id as its token |
| Links.ValidarTokenAcesso | frontend/js/linksUnicos.js:26-32 | valid exactly when a stored user exists and its id equals the token |
| Links.VerificarPermissaoAcesso | frontend/js/linksUnicos.js:35-49 | allowed exactly when the stored user has the allowed type; no user goes to `/login`, a mismatch to `/<tipo>` |
| Login.EmailCheckIffPattern | frontend/js/login.js:154-157 | the stated checks (no white space, one `@`, non-empty local part, a `.` inside the domain) accept exactly what the regex accepts |
| Login.IsValidEmail | frontend/js/login.js:154-157 | defines the e-mail check as a reader states it: no white space, one `@` with something before it, and a `.` strictly inside the domain |
| Login.EmailCheckMatchesPattern | frontend/js/login.js:155 | an e-mail passing the checks matches the regex |
| Login.PatternPassesEmailCheck | frontend/js/login.js:155 | a regex match passes the checks |
| Login.OnlyOneAt | frontend/js/login.js:155 | a valid e-mail has one `@` |
| Login.CredenciaisShape | frontend/js/login.js:5-36 | six accounts `aluno1-3`, `professor1-3` of their own role, all with password `123456` |
| Login.FindMatch | frontend/js/login.js:63 | `match` finds the leftmost occurrence of `word<digit>@escola.com` |
| Login.Lookup | frontend/js/login.js:62-81 | one role's block finds an account only for its own prefix and domain, an existing digit, and the right password (`Login.LookupFindsNamedAccount` gives the converse) |
| Login.Submit | frontend/js/login.js:44-142 | presence first, then e-mail shape, then the lookup; a success stores the account's role with the generated id and link (`Login.LoginIff` says exactly when it succeeds) |
| Login.RolePrefixesExclusive | frontend/js/login.js:62-73 | no e-mail starts with both role words, so at most one block can match |
| Login.LoggedInByLookup | frontend/js/login.js:62-84 | a successful login went through its role's lookup |
| Login.AccountKey | frontend/js/login.js:64-65 | the table has a key for a role word plus a digit exactly when the digit is 1-3 |
| Login.MatchAtEnd | frontend/js/login.js:63 | in a valid e-mail ending with the domain, the pattern can only match at the end |
| Login.LookupMatchesEnd | frontend/js/login.js:62-69 | a successful lookup means the e-mail ends with `word<1-3>@escola.com` |
| Login.LoggedInNamesAccount | frontend/js/login.js:62-81 | an accepted e-mail ends with `<role><1-3>@escola.com` for the role it logs in as |
| Login.AccountEmailValid | frontend/js/login.js:154-157 | each account's own e-mail passes the e-mail check |
| Login.AccountLookup | frontend/js/login.js:62-81 | an account's e-mail is found under its own role and not under the other |
| Login.AccountsLogIn | frontend/js/login.js:44-98 | each of the six accounts logs in with its e-mail and `123456`, with its own role |
| Login.LookupFindsNamedAccount | frontend/js/login.js:62-81 | under its own role, the lookup finds the account a valid e-mail names at its end, given the shared password |
| Login.NamedAccountLogsIn | frontend/js/login.js:44-98 | every valid e-mail starting with a role word and ending with `<role><1-3>@escola.com` logs in with `123456` under that role, not only the six account e-mails |
| Login.LoginIff | frontend/js/login.js:44-98 | a login succeeds exactly for a valid e-mail starting with a role word and ending with `<role><1-3>@escola.com`, with password `123456` |
| Login.LoginGrantsAccess | frontend/js/login.js:86-98 | the stored user's own link passes the token check and its role passes the permission check |
| Login.RedirectIfLoggedIn | frontend/js/login.js:147-151 | a stored user on `/login` is sent to `/<tipo>`, and only then |
| Session.NoCheckPagesFor | frontend/js/session-check.js:8-21 | the fixed list, extended by the path itself only when it is a per-user URL |
| Session.IsExcluded | frontend/js/session-check.js:23-25 | defines the skip test: the path equals a listed page, or a listed page followed by `/` |
| Session.AnyPageMatchesIff | frontend/js/session-check.js:23-25 | `some` holds exactly when the path equals a page or a page followed by `/` |
| Session.ExcludedIffListedOrUserUrl | frontend/js/session-check.js:8-25 | excluded exactly when the path matches a listed page or is a per-user URL |
| Session.ExcludedPaths | frontend/js/session-check.js:8-25 | excluded exactly when the path is one of the fifteen spelled-out paths or `/aluno/<id>` or `/professor/<id>` with `id` in `[a-f0-9-]+` |
| Session.HandleAuthenticated | frontend/js/session-check.js:63-76 | a `/professor` path denies non-professors; otherwise an `/aluno` path denies non-students; otherwise the user is shown |
| Session.BothRolesAdmitNobody | frontend/js/session-check.js:64-74 | a path mentioning both roles admits nobody |
| Session.UpdateUserInterface | frontend/js/session-check.js:107-112 | each element receives its property only when the user's value is present and non-empty; otherwise it keeps its text |
| Session.HandleNotAuthenticated | frontend/js/session-check.js:78-93 | `/login` paths stay; a login less than 300000 ms ago stays; anything else is sent to the expiry URL |
| Session.RedirectIff | frontend/js/session-check.js:79-92 | a guest is redirected exactly when off the login pages and without a recent login |
| Session.CheckSession | frontend/js/session-check.js:23-61 | excluded paths skip the check; otherwise a session user goes through the role gate of `handleAuthenticated` and, when admitted, has the page filled by `updateUserInterface`; anyone else, a failed reply included, is handled as a guest |
| Session.ShowsUserIff | frontend/js/session-check.js:23-76 | the user's properties are written into the page exactly for an authenticated user on a checked path whose `/professor` or `/aluno` marker matches the user's type |
| Session.TipoElementShowsCheckedType | frontend/js/session-check.js:63-112 | a `data-user="tipo"` element shows the same type the role gate checked |
| Session.LoginPagesNeverRedirect | frontend/js/session-check.js:79 | a guest on a `/login…` path is never redirected |
| Credentials.Load | frontend/js/credenciais.js:19-32 | a non-empty saved list replaces the base professors; nothing else changes |
| Credentials.AdicionarProfessor | frontend/js/credenciais.js:38-51 | an absent CPF is appended, even if persisting fails; a present one changes nothing; true exactly when absent and persisted |
| Credentials.AddKeepsNoDuplicates | frontend/js/credenciais.js:39-40 | adding keeps the list duplicate-free |
| Credentials.AddTwice | frontend/js/credenciais.js:39-50 | the second addition of a CPF returns false and changes nothing |
| Credentials.AddThenReload | frontend/js/credenciais.js:21-44 | after a persisted addition, loading the stored list restores the same record |
| Credentials.AddAllContents | frontend/js/credenciais.js:38-51 | any run of additions keeps the list duplicate-free, keeps the old list as a prefix, and holds exactly the old and added CPFs |
| Exam.UpdateExamData | frontend/js/examData.js:16-18 | the fields present in the patch are overridden, all others preserved |
| Exam.UpdateIdempotent | frontend/js/examData.js:17 | the same update twice is the update once |
| Exam.UpdateExtremes | frontend/js/examData.js:17 | an empty patch changes nothing; a whole-record patch replaces the record |
| Exam.UpdateCompose | frontend/js/examData.js:17 | two updates are one update by the merged patch |
| Exam.ClearExamData | frontend/js/examData.js:21-29 | clearing gives title, description and date `''`, 60 minutes and no questions |
| Exam.ClearForgetsUpdates | frontend/js/examData.js:2-29 | clearing after any update gives the initial record |
| Alternatives.Kept | frontend/js/alternativeManager.js:110-111 | the kept texts are no more than the rows and each is trimmed and non-empty |
| Alternatives.Collect | frontend/js/alternativeManager.js:101-120 | the collection as written: the kept texts and the index among all rows of the last checked filled row |
| Alternatives.LastChecked | frontend/js/alternativeManager.js:104-115 | `-1` exactly when no checked row has text; otherwise a checked filled row with none after it |
| Alternatives.GetAlternativesFromForm | frontend/js/alternativeManager.js:101-120 | the loop returns the kept texts and the last checked filled row's position among all rows |
| Alternatives.CollectStep | frontend/js/alternativeManager.js:106-117 | one more row extends the kept texts and the mark as one loop iteration does |
| Alternatives.KeptAppend | frontend/js/alternativeManager.js:106-117 | collection works piecewise over concatenated rows |
| Alternatives.KeptAt | frontend/js/alternativeManager.js:110-111 | a filled row lands at the count of filled rows before it |
| Alternatives.KeptAllFilled | frontend/js/alternativeManager.js:110-111 | without blank rows every row is kept, trimmed, in place |
| Alternatives.CorrectAnswerMarksWrongAlternative | frontend/js/criarprova.js:120-131 | with a blank first row, a checked `a` and a `b`, the stored answer marks `b` |
| Alternatives.CollectCorrected | frontend/js/alternativeManager.js:113-115 | the corrected answer indexes `alternatives` at the checked row's trimmed text |
| Alternatives.CorrectedAgreesIff | frontend/js/alternativeManager.js:106-115 | the written and corrected collections agree exactly when no row before the checked one is blank |
| Alternatives.KeptShorterWithBlank | frontend/js/alternativeManager.js:110-111 | a blank row is dropped, so fewer texts are kept than there are rows |
| Alternatives.LetterCode | frontend/js/alternativeManager.js:10 | the letter is a UTF-16 code unit, `A`-`Z` for counts 0-25 |
| Alternatives.ResetAlternatives | frontend/js/alternativeManager.js:69-85 | two empty rows A and B valued 0 and 1, and the counter at 2 |
| Alternatives.AddAlternative | frontend/js/alternativeManager.js:5-30 | one empty row at the end lettered and valued by the counter, and the counter one higher |
| Alternatives.RemoveAlternative | frontend/js/alternativeManager.js:21-27 | a row is removed only while more than two exist |
| Alternatives.ToggleAlternatives | frontend/js/alternativeManager.js:33-66 | true/false replaces the rows by unchecked `Verdadeiro`/`Falso`; other types keep them |
| Alternatives.AtLeastTwoRows | frontend/js/alternativeManager.js:22-26 | no sequence of editor steps goes below two rows |
| Alternatives.Prefill | frontend/js/questionManager.js:81-100 | the edit form gets at least two rows, the stored alternatives in order, and the rest empty |
| Alternatives.KeptPrefill | frontend/js/questionManager.js:81-100 | collecting a filled edit form gives back the stored alternatives |
| Alternatives.LastCheckedPrefill | frontend/js/questionManager.js:96-98 | the checked row of a filled edit form is the stored answer |
| Alternatives.PrefillRoundTrip | frontend/js/questionManager.js:81-100 | both collections of a filled edit form give back the stored alternatives and answer |
| Alternatives.TrueFalseEditLosesAnswer | frontend/js/questionManager.js:81-103 | after the true/false switch nothing is checked, so the answer is lost |
| Questions.AddWith | frontend/js/questionManager.js:6-43 | a success appends exactly one question stamped `now` and keeps the earlier ones |
| Questions.AddQuestion | frontend/js/questionManager.js:2-43 | the same, for the form as read |
| Questions.AddQuestionVerdicts | frontend/js/questionManager.js:2-43 | blank text, then fewer than two kept alternatives, then no checked filled row, exactly; a success stores trimmed text, the kept alternatives and the checked row's position, or nothing and `-1` for other types |
| Questions.AddQuestionCorrected | frontend/js/criarprova.js:104-154 | the corrected add appends exactly one question stamped `now` |
| Questions.AddCorrectedStoresValid | frontend/js/criarprova.js:117-151 | the corrected add stores a valid question whose answer names the checked row's text |
| Questions.CorrectedRefusesAlike | frontend/js/criarprova.js:108-141 | the corrected add refuses exactly what the written one refuses, with the same warning |
| Questions.AddCorrectedKeepsValid | frontend/js/criarprova.js:154 | the corrected add keeps every question in the list valid |
| Questions.WithoutId | frontend/js/questionManager.js:61 | the filter keeps no question with the id and invents none |
| Questions.DeleteQuestion | frontend/js/questionManager.js:58-65 | an unconfirmed delete changes nothing; a confirmed one leaves no question with the id |
| Questions.WithoutIdAppend | frontend/js/questionManager.js:61 | filtering works piecewise, so the survivors keep their order |
| Questions.WithoutIdKeepsOthers | frontend/js/questionManager.js:61 | every question with another id survives, as many times as before |
| Questions.WithoutAbsentId | frontend/js/questionManager.js:61 | a list without the id is left as it is |
| Questions.DeleteIdempotent | frontend/js/questionManager.js:58-65 | deleting twice is deleting once |
| Questions.FindIndex | frontend/js/questionManager.js:71 | `-1` exactly when no question has the id; otherwise the first with it |
| Questions.EditQuestion | frontend/js/questionManager.js:68-112 | an unknown id changes nothing; otherwise the first match leaves the list and its text and type fill the form |
| Questions.EditFillsForm | frontend/js/questionManager.js:77-100 | the edit form holds the question's text, type and, for multiple choice, the prefilled rows |
| Questions.EditFormReady | frontend/js/questionManager.js:77-103 | for a valid non-true/false question, the edit form collects to the stored alternatives and answer |
| Questions.AddBack | frontend/js/questionManager.js:2-43 | adding a form that holds a valid question's data recreates it under the new id |
| Questions.EditThenAdd | frontend/js/questionManager.js:68-106 | editing a valid multiple-choice or open question and adding it back moves it to the end under the new id, otherwise unchanged |
| Questions.EditTrueFalseThenAdd | frontend/js/questionManager.js:81-106 | editing a true/false question and adding it back is refused for want of a correct answer |
| Questions.TrueFalseRowsKept | frontend/js/alternativeManager.js:41-61 | the two true/false rows are both kept |
| ExamEditor.SaveExam | frontend/js/criarprova.js:306-331 | title and description are trimmed and stored with duration and date on every path; empty title, then empty date, then no questions are refused, exactly in that order; only then is the exam sent |
| ExamEditor.SaveIdempotent | frontend/js/criarprova.js:308-311 | saving twice from the same fields is saving once |
| ExamEditor.SendIsComplete | frontend/js/criarprova.js:345-350 | a save that decides to send never meets the incomplete-record check |
| ExamEditor.ToPayload | frontend/js/criarprova.js:391-402 | the body keeps the header fields and, per question in order, text, type, alternatives and answer |
| ExamEditor.Ids | frontend/js/criarprova.js:396-401 | the ids the body leaves out, in order |
| ExamEditor.WithIds | frontend/js/criarprova.js:396-401 | putting ids back on bodies position by position |
| ExamEditor.PayloadRoundTrip | frontend/js/criarprova.js:396-401 | the body loses only the ids: restoring them gives the question list back |
| ExamEditor.PayloadIgnoresIds | frontend/js/criarprova.js:396-401 | any ids give the same body |
| ExamEditor.SendExamToServer | frontend/js/criarprova.js:345-378 | an incomplete record is refused; otherwise the first failing question is reported with its check (blank text, then fewer than two alternatives, then no answer); otherwise the body is built |
| ExamEditor.ProblemOf | frontend/js/criarprova.js:355-377 | defines the per-question checks in their order: blank text, then fewer than two alternatives for a choice type, then no answer for a choice type |
| ExamEditor.TrimmedNotBlank | frontend/js/criarprova.js:356 | trimmed non-empty text passes the blank-text check |
| ExamEditor.ValidPassesChecks | frontend/js/criarprova.js:353-378 | a valid question passes every per-question check |
| ExamEditor.AddedPassesChecks | frontend/js/criarprova.js:353-378 | whatever `addQuestion` appends passes the per-question checks |
| ExamEditor.ValidListPassesChecks | frontend/js/criarprova.js:353-378 | a list of valid questions passes every per-question check |
| ExamEditor.Classify | frontend/js/criarprova.js:442-453 | `Failed to fetch` first, then `404`, then `401`/`403`, then `500`, each exactly when the earlier ones are absent |
| ExamEditor.HandleApiError | frontend/js/criarprova.js:437-456 | the message is the common prefix followed by the explanation of the message's class (connection, missing route, expired session, server error); an unclassified message is shown as it is, an empty one as the default text |
| ExamEditor.ExplanationNamesClass | frontend/js/criarprova.js:437-456 | two classified messages produce the same text exactly when they fall in the same class |
| ExamEditor.ShortNotContains | frontend/js/criarprova.js:442 | a text shorter than the marker cannot contain it |
| ExamEditor.MissingFirstNotContains | frontend/js/criarprova.js:444-449 | a text without the marker's first character cannot contain it |
| ExamEditor.ConnectionFirst | frontend/js/criarprova.js:442-443 | a connection failure wins over any status code in the message |
| ExamEditor.RouteBeforeStatus | frontend/js/criarprova.js:444-446 | a `404` wins over `401`, `403` and `500` |
| ExamEditor.Http500IsServerError | frontend/js/criarprova.js:412-413 | the `Erro HTTP: 500` error is reported as a server error |

## Left out

- The backend (`backend/`): ORM and SQL CRUD, table definitions and maintenance scripts. It has no decision logic of its own.
- `fetch`, promises, `finally` and the network in `sendExamToServer`, `session-check.js`, `url.js`, `cadastro.js` and `serverService.js`. The session-check answer and the authentication-check answer are parameters. The login request of `cadastro.js` after the local checks is not modelled.
- The simulated `sendExamToServer` of `frontend/js/serverSevice.js` (31-64). It only logs and shows a fixed success alert.
- DOM rendering, visibility toggles, button states, focus, toasts, clipboard and share calls (`uiManager.js`, `main.js`, `professor.js`, `aluno.js`, `logout.js`, `displayQuestions`).
- The form reset at the end of `addQuestion` (`questionManager.js:49-54`). It is a DOM write; the model's `ResetAlternatives` and `ToggleAlternatives` are the same steps.
- `getExamData`. It returns the record itself; the model passes the record explicitly.
- Timers: `setTimeout` delays, the 5-second abort, and the 1-second and 5-second redirect delays. Only the redirect targets are modelled.
- `Date.now()`, storage contents, `confirm` answers and storage-write success. These are parameters.
- `parseInt` of non-digit text and its `NaN`. The duration arrives already parsed as an integer. `parseInt` applied to an integer from 10^21 upwards reads its exponent notation (`1e+21` gives 1); the model passes every integer through unchanged. Stored `lastLogin` values are integers or absent.
- `JSON.parse` of malformed or non-array storage entries. The model receives the parsed list or `None`.
- `encodeURIComponent` in the access-denied redirect. The denial is returned without the URL.
- Text.UpperChar: `toUpperCase` is modelled for ASCII `a`-`z` only, because full Unicode case mapping (which can change length) is out of scope.
- UserDisplay.GetInitials: `charAt(0)` is modelled as the first character, a whole code point, where JavaScript returns one UTF-16 code unit. For a name or piece that begins outside the Basic Multilingual Plane the source gives a lone high surrogate and the model the whole character. The same holds for `UserDisplay.InitialsOfFullName` and for the avatar written by `UserDisplay.DisplayUserInfo`.
- Links.Hash: `charCodeAt` is modelled as the character's code point, which equals the UTF-16 code unit for characters of the Basic Multilingual Plane only. A character outside it counts as one code point, where JavaScript would hash two surrogate units.
- Alternatives.LetterCode: the result is the UTF-16 code unit `String.fromCharCode` produces, kept as an integer, because code units in the surrogate range are not Dafny characters.
- Text.Trim: its own contract states only the two clean ends and the length bound. That the result is a slice of the input with white space cut on both sides is stated by `Text.TrimIsInfix`, so that the many callers of `Trim` do not carry the quantifier.
- ExamEditor.SendExamToServer: the `correctAnswer === undefined` and `!question.alternatives` cases of the pre-submit checks cannot arise, because every modelled question has both fields.

## Findings

| source | as written | input that shows it | evidently intended | confidence | as-written member | corrected member |
|---|---|---|---|---|---|---|
| frontend/js/alternativeManager.js:106-115 (and frontend/js/criarprova.js:120-131) | `correctAnswer = index`, the checked row's position among all rows, blank rows included; the list display (`criarprova.js:219`) and the edit prefill (`questionManager.js:96`) read it as an index into `alternatives` | rows `""`, `"a"` (checked), `"b"`: `alternatives == ["a","b"]`, `correctAnswer == 1`, so `b` is shown as correct | the checked row's index among the kept alternatives (0 here) | not executed | Alternatives.CorrectAnswerMarksWrongAlternative | Alternatives.CollectCorrected |

`Alternatives.Collect`, `Questions.AddQuestion` and `Alternatives.GetAlternativesFromForm` model the
collection as written. `Questions.AddQuestionCorrected` uses the corrected collection and is the
one proved to keep every stored question valid (`Questions.AddCorrectedKeepsValid`). The two
collections agree exactly when no row before the checked one is blank
(`Alternatives.CorrectedAgreesIff`), which covers every form an edit fills in.

A related behaviour, not a finding: editing a true/false question rebuilds its rows unchecked
(`toggleAlternatives`), so adding it straight back is refused for want of a correct answer
(`Questions.EditTrueFalseThenAdd`).
