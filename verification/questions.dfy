/** The question list of the exam page (`frontend/js/questionManager.js` and the same
    functions in `frontend/js/criarprova.js`): adding a question from the form, deleting by id,
    and taking a question back into the form for editing. */
module Questions {
  import opened Wrappers
  import opened Text
  import opened Exam
  import opened Alternatives

  /** What `addQuestion` does: one of its three warnings, or the list with the new question. */
  datatype AddOutcome = BlankText | TooFewAlternatives | NoCorrectAnswer | Added(questions: seq<Question>)

  /** The question form: the statement box, the type selector and the alternatives editor. */
  datatype Form = Form(text: string, qtype: string, editor: Editor)

  /** The checks and the append of `addQuestion`, given the trimmed statement `text`, the
      selected type and the collected alternatives, at time `now` (the new id). */
  function AddWith(questions: seq<Question>, text: string, qtype: string, now: int, c: Collected): (r: AddOutcome)
    ensures r.Added? ==>
      |r.questions| == |questions| + 1 && r.questions[..|questions|] == questions
      && r.questions[|questions|].id == now
  {
    if text == "" then BlankText
    else if IsChoiceType(qtype) && |c.alternatives| < 2 then TooFewAlternatives
    else if IsChoiceType(qtype) && c.correctAnswer == -1 then NoCorrectAnswer
    else
      var alternatives := if IsChoiceType(qtype) then c.alternatives else [];
      var correctAnswer := if IsChoiceType(qtype) then c.correctAnswer else -1;
      var r := questions + [Question(now, text, qtype, alternatives, correctAnswer)];
      assert r[..|questions|] == questions;
      Added(r)
  }

  /** `addQuestion` as written: collect the alternatives from the rows and apply the checks
      of `AddWith`. A success appends exactly one question, stamped with `now`. */
  function AddQuestion(questions: seq<Question>, form: Form, now: int): (r: AddOutcome)
    ensures r.Added? ==>
      |r.questions| == |questions| + 1 && r.questions[..|questions|] == questions
      && r.questions[|questions|].id == now
  {
    var text := Trim(form.text);
    var c := Collect(form.editor.rows);
    AddWith(questions, text, form.qtype, now, c)
  }

  /** What `addQuestion` decides: the statement is trimmed and must not be blank; a choice
      question needs two filled alternatives and a checked filled row, and stores the checked
      row's position among all rows; any other type stores no alternatives and `-1`. */
  lemma AddQuestionVerdicts(questions: seq<Question>, form: Form, now: int)
    ensures var r := AddQuestion(questions, form, now);
      && (r == BlankText <==> AllSpace(form.text))
      && (r == TooFewAlternatives <==>
            !AllSpace(form.text) && IsChoiceType(form.qtype) && |Kept(form.editor.rows)| < 2)
      && (r == NoCorrectAnswer <==>
            !AllSpace(form.text) && IsChoiceType(form.qtype) && |Kept(form.editor.rows)| >= 2
            && LastChecked(form.editor.rows) == -1)
      && (r.Added? ==>
            var q := r.questions[|questions|];
            && q.qtype == form.qtype && Trimmed(q.text) && q.text == Trim(form.text)
            && (IsChoiceType(form.qtype) ==>
                  q.alternatives == Kept(form.editor.rows)
                  && 0 <= q.correctAnswer < |form.editor.rows|
                  && Marked(form.editor.rows[q.correctAnswer]))
            && (!IsChoiceType(form.qtype) ==> q.alternatives == [] && q.correctAnswer == -1))
  {
    AddWithVerdicts(questions, Trim(form.text), form.qtype, now, Collect(form.editor.rows));
    TrimEmptyIffAllSpace(form.text);
  }

  /** The verdicts of `AddWith` in terms of its inputs: the checks run in order, and a success
      stores the statement, the type and, for a choice type, the collection. */
  lemma AddWithVerdicts(questions: seq<Question>, text: string, qtype: string, now: int, c: Collected)
    ensures var r := AddWith(questions, text, qtype, now, c);
      && (r == BlankText <==> text == "")
      && (r == TooFewAlternatives <==> text != "" && IsChoiceType(qtype) && |c.alternatives| < 2)
      && (r == NoCorrectAnswer <==>
            text != "" && IsChoiceType(qtype) && |c.alternatives| >= 2 && c.correctAnswer == -1)
      && (r.Added? ==>
            var q := r.questions[|questions|];
            && text != "" && q.qtype == qtype && q.text == text
            && (IsChoiceType(qtype) ==>
                  q.alternatives == c.alternatives && q.correctAnswer == c.correctAnswer
                  && |c.alternatives| >= 2 && c.correctAnswer != -1)
            && (!IsChoiceType(qtype) ==> q.alternatives == [] && q.correctAnswer == -1))
  {
  }

  /** A question the list can show and edit faithfully: a trimmed statement, and for choice
      types at least two trimmed alternatives with the correct answer indexing one of them;
      other types carry no alternatives and `-1`. */
  predicate ValidQuestion(q: Question) {
    && Trimmed(q.text)
    && (IsChoiceType(q.qtype) ==>
          |q.alternatives| >= 2 && WellFormedAlternatives(q.alternatives)
          && 0 <= q.correctAnswer < |q.alternatives|)
    && (!IsChoiceType(q.qtype) ==> q.alternatives == [] && q.correctAnswer == -1)
  }

  predicate AllValid(questions: seq<Question>) {
    forall k :: 0 <= k < |questions| ==> ValidQuestion(questions[k])
  }

  /** `addQuestion` with the corrected collection: the same checks, and the stored answer is
      the selected alternative's index in `alternatives`. */
  function AddQuestionCorrected(questions: seq<Question>, form: Form, now: int): (r: AddOutcome)
    ensures r.Added? ==>
      |r.questions| == |questions| + 1 && r.questions[..|questions|] == questions
      && r.questions[|questions|].id == now
  {
    var text := Trim(form.text);
    var c := CollectCorrected(form.editor.rows);
    AddWith(questions, text, form.qtype, now, c)
  }

  /** The corrected add stores only valid questions, and a choice question's stored answer
      names the text of the row the user checked. */
  lemma AddCorrectedStoresValid(questions: seq<Question>, form: Form, now: int)
    ensures var r := AddQuestionCorrected(questions, form, now);
      r.Added? ==>
      && ValidQuestion(r.questions[|questions|])
      && (IsChoiceType(form.qtype) ==>
            var q := r.questions[|questions|];
            var i := LastChecked(form.editor.rows);
            && 0 <= i && 0 <= q.correctAnswer < |q.alternatives|
            && q.alternatives[q.correctAnswer] == Trim(form.editor.rows[i].text))
  {
    var c := CollectCorrected(form.editor.rows);
    AddWithVerdicts(questions, Trim(form.text), form.qtype, now, c);
    assert WellFormedAlternatives(c.alternatives);
  }

  /** The corrected add refuses exactly what the written one refuses, with the same
      warning. */
  lemma CorrectedRefusesAlike(questions: seq<Question>, form: Form, now: int)
    ensures var r := AddQuestionCorrected(questions, form, now);
      !r.Added? ==> r == AddQuestion(questions, form, now)
    ensures AddQuestionCorrected(questions, form, now).Added? <==> AddQuestion(questions, form, now).Added?
  {
    var c := CollectCorrected(form.editor.rows);
    assert c.alternatives == Collect(form.editor.rows).alternatives;
    assert c.correctAnswer == -1 <==> Collect(form.editor.rows).correctAnswer == -1;
  }

  /** The corrected add keeps every question in the list valid. */
  lemma AddCorrectedKeepsValid(questions: seq<Question>, form: Form, now: int)
    requires AllValid(questions)
    ensures var r := AddQuestionCorrected(questions, form, now);
      r.Added? ==> AllValid(r.questions)
  {
    var r := AddQuestionCorrected(questions, form, now);
    AddCorrectedStoresValid(questions, form, now);
    if r.Added? {
      var q := r.questions[|questions|];
      assert r.questions == questions + [q];
      AppendValid(questions, q);
    }
  }

  lemma AppendValid(questions: seq<Question>, q: Question)
    requires AllValid(questions) && ValidQuestion(q)
    ensures AllValid(questions + [q])
  {
    var r := questions + [q];
    forall k | 0 <= k < |r| ensures ValidQuestion(r[k]) {
      if k < |questions| {
        assert r[k] == questions[k];
      }
    }
  }

  // ---------------------------------------------------------------------------
  // deleteQuestion
  // ---------------------------------------------------------------------------

  /** `questions.filter(q => q.id !== id)`. */
  function WithoutId(questions: seq<Question>, id: int): (r: seq<Question>)
    ensures |r| <= |questions|
    ensures forall k :: 0 <= k < |r| ==> r[k].id != id
    ensures forall q :: q in r ==> q in questions
    decreases |questions|
  {
    if questions == [] then []
    else (if questions[0].id == id then [] else [questions[0]]) + WithoutId(questions[1..], id)
  }

  /** `deleteQuestion`: only a confirmed delete changes the list. */
  function DeleteQuestion(questions: seq<Question>, id: int, confirmed: bool): (r: seq<Question>)
    ensures !confirmed ==> r == questions
    ensures confirmed ==> forall k :: 0 <= k < |r| ==> r[k].id != id
  {
    if confirmed then WithoutId(questions, id) else questions
  }

  /** Filtering works piece by piece, so the survivors keep their order. */
  lemma {:induction false} WithoutIdAppend(a: seq<Question>, b: seq<Question>, id: int)
    ensures WithoutId(a + b, id) == WithoutId(a, id) + WithoutId(b, id)
    decreases |a|
  {
    if a == [] {
      assert a + b == b;
    } else {
      assert (a + b)[1..] == a[1..] + b;
      WithoutIdAppend(a[1..], b, id);
    }
  }

  /** Every question with another id survives as many times as it occurred. */
  lemma {:induction false} WithoutIdKeepsOthers(questions: seq<Question>, id: int, q: Question)
    requires q.id != id
    ensures multiset(WithoutId(questions, id))[q] == multiset(questions)[q]
    decreases |questions|
  {
    if questions != [] {
      WithoutIdKeepsOthers(questions[1..], id, q);
      assert questions == [questions[0]] + questions[1..];
    }
  }

  /** A list without the id is left as it is, so deleting twice is deleting once. */
  lemma {:induction false} WithoutAbsentId(questions: seq<Question>, id: int)
    requires forall k :: 0 <= k < |questions| ==> questions[k].id != id
    ensures WithoutId(questions, id) == questions
    decreases |questions|
  {
    if questions != [] {
      WithoutAbsentId(questions[1..], id);
    }
  }

  lemma DeleteIdempotent(questions: seq<Question>, id: int)
    ensures DeleteQuestion(DeleteQuestion(questions, id, true), id, true) == DeleteQuestion(questions, id, true)
  {
    WithoutAbsentId(WithoutId(questions, id), id);
  }

  // ---------------------------------------------------------------------------
  // editQuestion
  // ---------------------------------------------------------------------------

  /** The first position at or after `from` holding the id, or `-1`. */
  function FindFrom(questions: seq<Question>, id: int, from: nat): (i: int)
    requires from <= |questions|
    ensures i == -1 || from <= i < |questions|
    ensures i == -1 <==> forall k :: from <= k < |questions| ==> questions[k].id != id
    ensures i >= 0 ==> questions[i].id == id && forall k :: from <= k < i ==> questions[k].id != id
    decreases |questions| - from
  {
    if from == |questions| then -1
    else if questions[from].id == id then from
    else FindFrom(questions, id, from + 1)
  }

  /** `findIndex(q => q.id === id)`. */
  function FindIndex(questions: seq<Question>, id: int): (i: int)
    ensures -1 <= i < |questions|
    ensures i == -1 <==> forall k :: 0 <= k < |questions| ==> questions[k].id != id
    ensures i >= 0 ==> questions[i].id == id && forall k :: 0 <= k < i ==> questions[k].id != id
  {
    FindFrom(questions, id, 0)
  }

  /** What `editQuestion` leaves: the list, and the form, which changes only when the id is
      found. */
  datatype EditOutcome = EditOutcome(questions: seq<Question>, form: Form)

  /** `editQuestion`: an unknown id changes nothing; otherwise the form receives the
      question's statement and type, a choice question's alternatives are filled in row by row
      with the correct one checked, the type switch is applied, and the first question with
      that id leaves the list. */
  function EditQuestion(questions: seq<Question>, id: int, form: Form): (r: EditOutcome)
    ensures FindIndex(questions, id) == -1 ==> r == EditOutcome(questions, form)
    ensures var i := FindIndex(questions, id);
      i >= 0 ==>
        && r.questions == questions[..i] + questions[i + 1..]
        && r.form.text == questions[i].text && r.form.qtype == questions[i].qtype
  {
    var i := FindIndex(questions, id);
    if i == -1 then EditOutcome(questions, form)
    else
      var q := questions[i];
      var editor := if IsChoiceType(q.qtype) then Prefill(q.alternatives, q.correctAnswer) else form.editor;
      EditOutcome(questions[..i] + questions[i + 1..], Form(q.text, q.qtype, ToggleAlternatives(editor, q.qtype)))
  }

  /** Adding back a form that holds `q`'s statement, type and a collection equal to `q`'s
      stored answer recreates `q` under the new id. */
  lemma AddBack(rest: seq<Question>, q: Question, f: Form, now: int)
    requires ValidQuestion(q) && f.text == q.text && f.qtype == q.qtype
    requires IsChoiceType(q.qtype) ==> Collect(f.editor.rows) == Collected(q.alternatives, q.correctAnswer)
    ensures AddQuestion(rest, f, now) == Added(rest + [q.(id := now)])
  {
    TrimOfTrimmed(q.text);
    AddWithBack(rest, q, now, Collect(f.editor.rows));
  }

  lemma AddWithBack(rest: seq<Question>, q: Question, now: int, c: Collected)
    requires ValidQuestion(q)
    requires IsChoiceType(q.qtype) ==> c == Collected(q.alternatives, q.correctAnswer)
    ensures AddWith(rest, q.text, q.qtype, now, c) == Added(rest + [q.(id := now)])
  {
  }

  /** Editing a valid multiple-choice or open question and adding it straight back moves it
      to the end of the list under the new id, unchanged otherwise. */
  lemma EditThenAdd(questions: seq<Question>, id: int, form: Form, now: int)
    requires FindIndex(questions, id) >= 0
    requires var q := questions[FindIndex(questions, id)];
      ValidQuestion(q) && q.qtype != "truefalse"
    ensures var i := FindIndex(questions, id);
      var e := EditQuestion(questions, id, form);
      AddQuestion(e.questions, e.form, now)
        == Added(questions[..i] + questions[i + 1..] + [questions[i].(id := now)])
  {
    var i := FindIndex(questions, id);
    var e := EditQuestion(questions, id, form);
    EditFormReady(questions, id, form);
    AddBack(e.questions, questions[i], e.form, now);
  }

  /** The form an edit leaves holds everything `AddBack` needs about the edited question. */
  lemma EditFormReady(questions: seq<Question>, id: int, form: Form)
    requires FindIndex(questions, id) >= 0
    requires var q := questions[FindIndex(questions, id)];
      ValidQuestion(q) && q.qtype != "truefalse"
    ensures var q := questions[FindIndex(questions, id)];
      var f := EditQuestion(questions, id, form).form;
      && f.text == q.text && f.qtype == q.qtype
      && (IsChoiceType(q.qtype) ==> Collect(f.editor.rows) == Collected(q.alternatives, q.correctAnswer))
  {
    var q := questions[FindIndex(questions, id)];
    EditFillsForm(questions, id, form);
    if IsChoiceType(q.qtype) {
      CollectPrefill(q.alternatives, q.correctAnswer);
    }
  }

  lemma EditFillsForm(questions: seq<Question>, id: int, form: Form)
    requires FindIndex(questions, id) >= 0
    ensures var q := questions[FindIndex(questions, id)];
      var f := EditQuestion(questions, id, form).form;
      && f.text == q.text && f.qtype == q.qtype
      && (q.qtype == "multiple" ==> f.editor == Prefill(q.alternatives, q.correctAnswer))
  {
  }

  lemma CollectPrefill(alternatives: seq<string>, correctAnswer: int)
    requires |alternatives| >= 2 && WellFormedAlternatives(alternatives)
    requires -1 <= correctAnswer < |alternatives|
    ensures Collect(Prefill(alternatives, correctAnswer).rows) == Collected(alternatives, correctAnswer)
  {
    PrefillRoundTrip(alternatives, correctAnswer);
  }

  /** Editing a true/false question and adding it straight back is refused for want of a
      correct answer: the type switch rebuilt the rows unchecked. */
  lemma EditTrueFalseThenAdd(questions: seq<Question>, id: int, form: Form, now: int)
    requires FindIndex(questions, id) >= 0
    requires var q := questions[FindIndex(questions, id)];
      Trimmed(q.text) && q.qtype == "truefalse"
    ensures var e := EditQuestion(questions, id, form);
      AddQuestion(e.questions, e.form, now) == NoCorrectAnswer
  {
    var q := questions[FindIndex(questions, id)];
    var e := EditQuestion(questions, id, form);
    TrimEmptyIffAllSpace(q.text);
    TrueFalseRowsKept();
    TrueFalseEditLosesAnswer(q.alternatives, q.correctAnswer);
  }

  lemma TrueFalseRowsKept()
    ensures |Kept([Row("Verdadeiro", false, 0, None), Row("Falso", false, 1, None)])| == 2
  {
    var r0 := Row("Verdadeiro", false, 0, None);
    var r1 := Row("Falso", false, 1, None);
    assert r0.text[0] == 'V' && r1.text[0] == 'F';
    FilledFromFirst(r0);
    FilledFromFirst(r1);
    KeptSnoc([], r0);
    assert [] + [r0] == [r0];
    KeptSnoc([r0], r1);
    assert [r0] + [r1] == [r0, r1];
  }
}
