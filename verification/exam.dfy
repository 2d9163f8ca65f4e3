/** The exam being edited (`frontend/js/examData.js`, and the same record at the top of
    `frontend/js/criarprova.js`): its fields, the initial value, the merge-update and the
    reset. */
module Exam {
  import opened Wrappers

  /** One question: `id` is the creation timestamp, `qtype` the value of the type selector
      (`multiple`, `truefalse` or an open-answer type), and `correctAnswer` the stored index of
      the correct alternative, `-1` for none. */
  datatype Question = Question(
    id: int,
    text: string,
    qtype: string,
    alternatives: seq<string>,
    correctAnswer: int)

  datatype ExamData = ExamData(
    title: string,
    description: string,
    duration: int,
    date: string,
    questions: seq<Question>)

  /** The question types that carry alternatives. */
  predicate IsChoiceType(qtype: string) {
    qtype == "multiple" || qtype == "truefalse"
  }

  /** The exam record at page load: empty title, description and date, 60 minutes, no
      questions. */
  const Initial: ExamData := ExamData("", "", 60, "", [])

  /** The argument of `updateExamData`: the fields present in it. */
  datatype ExamPatch = ExamPatch(
    title: Option<string>,
    description: Option<string>,
    duration: Option<int>,
    date: Option<string>,
    questions: Option<seq<Question>>)

  /** A patch carrying every field of `e`, which is what the question operations pass when
      they hand the whole record back. */
  function WholeRecord(e: ExamData): ExamPatch {
    ExamPatch(Some(e.title), Some(e.description), Some(e.duration), Some(e.date), Some(e.questions))
  }

  /** `{ ...examData, ...newData }`: a field present in the patch wins, every other field
      keeps its value. */
  function UpdateExamData(e: ExamData, p: ExamPatch): (r: ExamData)
    ensures p.title.Some? ==> r.title == p.title.value
    ensures p.title.None? ==> r.title == e.title
    ensures p.description.Some? ==> r.description == p.description.value
    ensures p.description.None? ==> r.description == e.description
    ensures p.duration.Some? ==> r.duration == p.duration.value
    ensures p.duration.None? ==> r.duration == e.duration
    ensures p.date.Some? ==> r.date == p.date.value
    ensures p.date.None? ==> r.date == e.date
    ensures p.questions.Some? ==> r.questions == p.questions.value
    ensures p.questions.None? ==> r.questions == e.questions
  {
    ExamData(
      p.title.GetOr(e.title),
      p.description.GetOr(e.description),
      p.duration.GetOr(e.duration),
      p.date.GetOr(e.date),
      p.questions.GetOr(e.questions))
  }

  /** Applying the same update twice is applying it once. */
  lemma UpdateIdempotent(e: ExamData, p: ExamPatch)
    ensures UpdateExamData(UpdateExamData(e, p), p) == UpdateExamData(e, p)
  {
  }

  /** An empty patch changes nothing, and a whole-record patch replaces the record. */
  lemma UpdateExtremes(e: ExamData, e2: ExamData)
    ensures UpdateExamData(e, ExamPatch(None, None, None, None, None)) == e
    ensures UpdateExamData(e, WholeRecord(e2)) == e2
  {
  }

  /** The later of two patches wins field by field. */
  function Merge(p: ExamPatch, q: ExamPatch): ExamPatch {
    ExamPatch(
      if q.title.Some? then q.title else p.title,
      if q.description.Some? then q.description else p.description,
      if q.duration.Some? then q.duration else p.duration,
      if q.date.Some? then q.date else p.date,
      if q.questions.Some? then q.questions else p.questions)
  }

  /** Two successive updates are one update by the merged patch. */
  lemma UpdateCompose(e: ExamData, p: ExamPatch, q: ExamPatch)
    ensures UpdateExamData(UpdateExamData(e, p), q) == UpdateExamData(e, Merge(p, q))
  {
  }

  /** `clearExamData`: back to the page-load record whatever came before. */
  function ClearExamData(e: ExamData): (r: ExamData)
    ensures r.title == "" && r.description == "" && r.date == ""
    ensures r.duration == 60 && r.questions == []
  {
    Initial
  }

  /** Clearing forgets every update. */
  lemma ClearForgetsUpdates(e: ExamData, p: ExamPatch)
    ensures ClearExamData(UpdateExamData(e, p)) == ClearExamData(e) == Initial
  {
  }
}
