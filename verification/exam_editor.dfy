/** Saving the exam (`saveExam` in `frontend/js/criarprova.js` and in
    `frontend/js/serverSevice.js`), the checks `sendExamToServer` makes before its request,
    the request body it builds, and the message `handleApiError` shows. */
module ExamEditor {
  import opened Wrappers
  import opened Text
  import opened Exam
  import opened Alternatives
  import opened Questions

  // ---------------------------------------------------------------------------
  // saveExam
  // ---------------------------------------------------------------------------

  /** The exam header fields as the page holds them: the title and description boxes, the
      duration box already read as a number, and the date box. */
  datatype Fields = Fields(title: string, description: string, duration: int, date: string)

  /** The warning `saveExam` raises, or the go-ahead to send. */
  datatype SaveVerdict = MissingTitle | MissingDate | NoQuestions | Send

  /** `saveExam` writes the fields into the exam record before it checks anything, so the
      record changes on every path. */
  datatype Saved = Saved(exam: ExamData, verdict: SaveVerdict)

  /** `saveExam`: store the trimmed title and description, the duration and the date, then
      refuse an empty title, then an empty date, then an empty question list, in that order;
      only when all three pass is the exam sent. The questions are never touched. */
  function SaveExam(e: ExamData, f: Fields): (r: Saved)
    ensures r.exam.questions == e.questions
    ensures r.exam.duration == f.duration && r.exam.date == f.date
    ensures r.exam.title == Trim(f.title) && r.exam.description == Trim(f.description)
    ensures r.verdict == MissingTitle <==> AllSpace(f.title)
    ensures r.verdict == MissingDate <==> !AllSpace(f.title) && f.date == ""
    ensures r.verdict == NoQuestions <==> !AllSpace(f.title) && f.date != "" && e.questions == []
    ensures r.verdict == Send <==> !AllSpace(f.title) && f.date != "" && e.questions != []
  {
    TrimEmptyIffAllSpace(f.title);
    var exam := e.(title := Trim(f.title), description := Trim(f.description), duration := f.duration, date := f.date);
    var verdict :=
      if exam.title == "" then MissingTitle
      else if exam.date == "" then MissingDate
      else if |exam.questions| == 0 then NoQuestions
      else Send;
    Saved(exam, verdict)
  }

  /** Saving twice from the same boxes gives what saving once gave: the second save finds
      the fields it is about to write already in place. */
  lemma SaveIdempotent(e: ExamData, f: Fields)
    ensures SaveExam(SaveExam(e, f).exam, f) == SaveExam(e, f)
  {
  }

  /** The check at the top of `sendExamToServer`: a record without a title, a date or
      questions is incomplete. */
  predicate Incomplete(e: ExamData) {
    e.title == "" || e.date == "" || |e.questions| == 0
  }

  /** Whenever `saveExam` decides to send, the record it sends is never found incomplete,
      so the second check is redundant on this path. */
  lemma SendIsComplete(e: ExamData, f: Fields)
    ensures SaveExam(e, f).verdict == Send <==> !Incomplete(SaveExam(e, f).exam)
  {
  }

  // ---------------------------------------------------------------------------
  // The per-question checks of sendExamToServer
  // ---------------------------------------------------------------------------

  /** The three per-question warnings, checked in this order. */
  datatype Problem = NoText | FewAlternatives | NoAnswer

  /** What is wrong with one question, if anything: a blank statement; a choice question
      with fewer than two alternatives; a choice question whose answer is `-1`. */
  function ProblemOf(q: Question): Option<Problem> {
    if AllSpace(q.text) then Some(NoText)
    else if IsChoiceType(q.qtype) && |q.alternatives| < 2 then Some(FewAlternatives)
    else if IsChoiceType(q.qtype) && q.correctAnswer == -1 then Some(NoAnswer)
    else None
  }

  /** The request body of one question: the identifier is not sent. */
  datatype QuestionBody = QuestionBody(text: string, qtype: string, alternatives: seq<string>, correctAnswer: int)

  /** The request body: the header fields and the questions, in list order. */
  datatype Payload = Payload(
    title: string,
    description: string,
    duration: int,
    date: string,
    questions: seq<QuestionBody>)

  function BodyOf(q: Question): QuestionBody {
    QuestionBody(q.text, q.qtype, q.alternatives, q.correctAnswer)
  }

  /** `JSON.stringify({...})` before serialisation: the header fields and, per question,
      its statement, type, alternatives and answer in the list's order. The numbers pass
      through `parseInt`, which gives an integer below 10^21 back unchanged (larger ones are
      printed in exponent notation first); the model passes every integer through. */
  function ToPayload(e: ExamData): (p: Payload)
    ensures p.title == e.title && p.description == e.description
    ensures p.duration == e.duration && p.date == e.date
    ensures |p.questions| == |e.questions|
    ensures forall k :: 0 <= k < |e.questions| ==>
      var q := e.questions[k];
      && p.questions[k].text == q.text && p.questions[k].qtype == q.qtype
      && p.questions[k].alternatives == q.alternatives
      && p.questions[k].correctAnswer == q.correctAnswer
  {
    Payload(e.title, e.description, e.duration, e.date, seq(|e.questions|, k requires 0 <= k < |e.questions| => BodyOf(e.questions[k])))
  }

  /** The identifiers the payload leaves out. */
  function Ids(questions: seq<Question>): (r: seq<int>)
    ensures |r| == |questions|
    ensures forall k :: 0 <= k < |questions| ==> r[k] == questions[k].id
  {
    seq(|questions|, k requires 0 <= k < |questions| => questions[k].id)
  }

  /** Puts identifiers back on question bodies, position by position. */
  function WithIds(bodies: seq<QuestionBody>, ids: seq<int>): (r: seq<Question>)
    requires |ids| == |bodies|
    ensures |r| == |bodies|
    ensures forall k :: 0 <= k < |bodies| ==> r[k].id == ids[k] && BodyOf(r[k]) == bodies[k]
  {
    seq(|bodies|, k requires 0 <= k < |bodies| =>
      Question(ids[k], bodies[k].text, bodies[k].qtype, bodies[k].alternatives, bodies[k].correctAnswer))
  }

  /** The payload loses nothing but the identifiers: putting them back restores the question
      list exactly. */
  lemma PayloadRoundTrip(e: ExamData)
    ensures WithIds(ToPayload(e).questions, Ids(e.questions)) == e.questions
  {
    var p := ToPayload(e);
    var r := WithIds(p.questions, Ids(e.questions));
    assert forall k :: 0 <= k < |r| ==> r[k] == e.questions[k];
  }

  /** And the identifiers do not reach the payload: any identifiers give the same body. */
  lemma PayloadIgnoresIds(e: ExamData, ids: seq<int>)
    requires |ids| == |e.questions|
    ensures ToPayload(e.(questions := WithIds(ToPayload(e).questions, ids))) == ToPayload(e)
  {
    var p := ToPayload(e);
    var e2 := e.(questions := WithIds(p.questions, ids));
    var p2 := ToPayload(e2);
    assert forall k :: 0 <= k < |p.questions| ==> p2.questions[k] == p.questions[k];
  }

  /** What `sendExamToServer` does before its request: report an incomplete record, or the
      first question that fails a check (with its 0-based position; the warning shows it
      1-based), or hand over the request body. */
  datatype SubmitVerdict =
    | IncompleteExam
    | BadQuestion(index: nat, problem: Problem)
    | Ready(payload: Payload)

  /** The checks of `sendExamToServer`, scanning the questions in order and stopping at the
      first that fails. */
  method SendExamToServer(e: ExamData) returns (v: SubmitVerdict)
    ensures v == IncompleteExam <==> Incomplete(e)
    ensures v.BadQuestion? ==>
      && !Incomplete(e) && v.index < |e.questions|
      && ProblemOf(e.questions[v.index]) == Some(v.problem)
      && forall k :: 0 <= k < v.index ==> ProblemOf(e.questions[k]) == None
    ensures v.Ready? <==> !Incomplete(e) && forall k :: 0 <= k < |e.questions| ==> ProblemOf(e.questions[k]) == None
    ensures v.Ready? ==> v.payload == ToPayload(e)
  {
    if e.title == "" || e.date == "" || |e.questions| == 0 {
      return IncompleteExam;
    }
    var i := 0;
    while i < |e.questions|
      invariant 0 <= i <= |e.questions|
      invariant forall k :: 0 <= k < i ==> ProblemOf(e.questions[k]) == None
    {
      var question := e.questions[i];
      TrimEmptyIffAllSpace(question.text);
      if Trim(question.text) == "" {
        return BadQuestion(i, NoText);
      }
      if IsChoiceType(question.qtype) && |question.alternatives| < 2 {
        return BadQuestion(i, FewAlternatives);
      }
      if IsChoiceType(question.qtype) && question.correctAnswer == -1 {
        return BadQuestion(i, NoAnswer);
      }
      i := i + 1;
    }
    return Ready(ToPayload(e));
  }

  /** A trimmed non-empty statement is not blank. */
  lemma TrimmedNotBlank(s: string)
    requires Trimmed(s)
    ensures !AllSpace(s)
  {
    assert !IsSpace(s[0]);
  }

  /** Every question the valid-question invariant admits passes the per-question checks. */
  lemma ValidPassesChecks(q: Question)
    requires ValidQuestion(q)
    ensures ProblemOf(q) == None
  {
    TrimmedNotBlank(q.text);
  }

  /** Whatever `addQuestion` appends, as written, passes the per-question checks: they ask
      less than it does. */
  lemma AddedPassesChecks(questions: seq<Question>, form: Form, now: int)
    requires AddQuestion(questions, form, now).Added?
    ensures ProblemOf(AddQuestion(questions, form, now).questions[|questions|]) == None
  {
    AddQuestionVerdicts(questions, form, now);
    TrimmedNotBlank(AddQuestion(questions, form, now).questions[|questions|].text);
  }

  /** A list built by the corrected add passes every per-question check, so the exam is
      held back only when its header is incomplete. */
  lemma ValidListPassesChecks(questions: seq<Question>)
    requires AllValid(questions)
    ensures forall k :: 0 <= k < |questions| ==> ProblemOf(questions[k]) == None
  {
    forall k | 0 <= k < |questions|
      ensures ProblemOf(questions[k]) == None
    {
      ValidPassesChecks(questions[k]);
    }
  }

  // ---------------------------------------------------------------------------
  // handleApiError
  // ---------------------------------------------------------------------------

  const ErrorPrefix: string := "Erro ao salvar prova: "
  const ConnectionText: string := "Erro de conexão. Verifique sua internet e tente novamente."
  const RouteText: string := "Rota da API não encontrada. Verifique se o servidor está rodando e se a rota /api/exams está configurada."
  const SessionText: string := "Sessão expirada. Faça login novamente."
  const ServerText: string := "Erro interno do servidor. Tente novamente mais tarde."
  const UnknownText: string := "Erro desconhecido ao salvar a prova"

  /** The classes `handleApiError` tells apart. */
  datatype ErrorKind = Connection | RouteMissing | SessionExpired | ServerError | Other

  /** The classification: `Failed to fetch` first, then `404`, then `401` or `403`, then
      `500`; anything else is passed through. */
  function Classify(message: string): (k: ErrorKind)
    ensures k == Connection <==> Contains(message, "Failed to fetch")
    ensures k == RouteMissing <==> !Contains(message, "Failed to fetch") && Contains(message, "404")
    ensures k == SessionExpired <==>
      !Contains(message, "Failed to fetch") && !Contains(message, "404")
      && (Contains(message, "401") || Contains(message, "403"))
    ensures k == ServerError <==>
      !Contains(message, "Failed to fetch") && !Contains(message, "404")
      && !Contains(message, "401") && !Contains(message, "403") && Contains(message, "500")
  {
    if Contains(message, "Failed to fetch") then Connection
    else if Contains(message, "404") then RouteMissing
    else if Contains(message, "401") || Contains(message, "403") then SessionExpired
    else if Contains(message, "500") then ServerError
    else Other
  }

  /** `handleApiError`: the common prefix followed by the explanation for the message's
      class; an unclassified message is shown as it is, or as the default text when it is
      empty. */
  function HandleApiError(message: string): (r: string)
    ensures StartsWith(r, ErrorPrefix)
    ensures Classify(message) == Other && message != "" ==> r[|ErrorPrefix|..] == message
    ensures message == "" ==> r == ErrorPrefix + UnknownText
    ensures Classify(message) == Connection ==> r == ErrorPrefix + ConnectionText
    ensures Classify(message) == RouteMissing ==> r == ErrorPrefix + RouteText
    ensures Classify(message) == SessionExpired ==> r == ErrorPrefix + SessionText
    ensures Classify(message) == ServerError ==> r == ErrorPrefix + ServerText
  {
    var explanation :=
      match Classify(message)
      case Connection => ConnectionText
      case RouteMissing => RouteText
      case SessionExpired => SessionText
      case ServerError => ServerText
      case Other => if message == "" then UnknownText else message;
    assert (ErrorPrefix + explanation)[..|ErrorPrefix|] == ErrorPrefix;
    ErrorPrefix + explanation
  }

  /** The four explanations differ, so the text shown for a classified message names its
      class: two such messages read the same exactly when they fall in the same class. */
  lemma ExplanationNamesClass(m1: string, m2: string)
    requires Classify(m1) != Other && Classify(m2) != Other
    ensures HandleApiError(m1) == HandleApiError(m2) <==> Classify(m1) == Classify(m2)
  {
    var r1, r2 := HandleApiError(m1), HandleApiError(m2);
    if r1 == r2 {
      assert |r1| == |r2|;
    }
  }

  /** A string shorter than `sub` cannot contain it. */
  lemma {:induction false} ShortNotContains(s: string, sub: string)
    requires |s| < |sub|
    ensures !Contains(s, sub)
    decreases |s|
  {
    if |s| > 0 {
      ShortNotContains(s[1..], sub);
    }
  }

  /** A string none of whose characters opens `sub` cannot contain it. */
  lemma {:induction false} MissingFirstNotContains(s: string, sub: string)
    requires sub != []
    requires forall k :: 0 <= k < |s| ==> s[k] != sub[0]
    ensures !Contains(s, sub)
    decreases |s|
  {
    if |s| > 0 {
      assert !StartsWith(s, sub) by {
        if |sub| <= |s| {
          assert s[..|sub|][0] == s[0];
        }
      }
      MissingFirstNotContains(s[1..], sub);
    }
  }

  /** A mention of `404` wins over `401`, `403` and `500` when the connection did not
      fail. */
  lemma RouteBeforeStatus(message: string)
    requires !Contains(message, "Failed to fetch") && Contains(message, "404")
    ensures HandleApiError(message) == ErrorPrefix + RouteText
  {
  }

  /** The error `sendExamToServer` raises on every failed reply other than a 404 (the status
      error thrown inside the body-reading step is caught and replaced by the same text):
      an HTTP 500 is reported as a server error. */
  lemma Http500IsServerError(m: string)
    requires m == "Erro HTTP: 500"
    ensures Classify(m) == ServerError
  {
    ShortNotContains(m, "Failed to fetch");
    MissingFirstNotContains(m, "404");
    MissingFirstNotContains(m, "401");
    MissingFirstNotContains(m, "403");
    ContainsAt(m, 11, "500");
  }

  /** `includes` holds once `sub` is found at one offset `k`. */
  lemma ContainsAt(s: string, k: nat, sub: string)
    requires k + |sub| <= |s| && s[k..k + |sub|] == sub
    ensures Contains(s, sub)
  {
    assert StartsWith(s[k..], sub);
    ContainsInSuffix(s, k, sub);
  }

  /** A connection failure wins over every status code the message may also mention. */
  lemma ConnectionFirst(message: string)
    requires Contains(message, "Failed to fetch")
    ensures HandleApiError(message) == ErrorPrefix + ConnectionText
  {
  }
}
