/** The alternatives editor of the exam page (`frontend/js/alternativeManager.js`, repeated in
    `frontend/js/criarprova.js`): the rows on screen, the counter that names new rows, the
    guarded removal, the reset, the true/false switch, and the collection of the filled rows
    into a question's alternatives and correct answer. */
module Alternatives {
  import opened Wrappers
  import opened Text

  /** One `.alternative-item`: its text box, whether its radio button is checked, the radio's
      `value`, and the code unit of the letter in its placeholder (`None` for the read-only
      true/false rows, which have none). */
  datatype Row = Row(text: string, checked: bool, radioValue: int, letter: Option<int>)

  /** A row counts when its text is not all white space, that is, when its trimmed text is
      non-empty (`Text.TrimEmptyIffAllSpace`). */
  predicate Filled(row: Row) {
    !AllSpace(row.text)
  }

  /** A row whose first character is not white space counts. */
  lemma FilledFromFirst(row: Row)
    requires row.text != [] && !IsSpace(row.text[0])
    ensures Filled(row)
  {
  }

  /** A non-empty text without white space at either end: what `trim()` leaves of a text
      that is not blank. */
  predicate Trimmed(a: string) {
    a != [] && !IsSpace(a[0]) && !IsSpace(a[|a| - 1])
  }

  // ---------------------------------------------------------------------------
  // getAlternativesFromForm
  // ---------------------------------------------------------------------------

  /** The trimmed texts of the filled rows, in row order. */
  function Kept(rows: seq<Row>): (r: seq<string>)
    ensures |r| <= |rows|
    ensures forall k :: 0 <= k < |r| ==> Trimmed(r[k])
    decreases |rows|
  {
    if rows == [] then []
    else
      var init := Kept(rows[..|rows| - 1]);
      var last := rows[|rows| - 1];
      if Filled(last) then
        var t := Trim(last.text);
        TrimEmptyIffAllSpace(last.text);
        assert Trimmed(t);
        init + [t]
      else init
  }

  /** A checked row whose text counts: the rows that can set the correct answer. */
  predicate Marked(row: Row) {
    row.checked && Filled(row)
  }

  /** The position, among all rows, of the last marked row; `-1` when there is none. */
  function LastChecked(rows: seq<Row>): (i: int)
    ensures -1 <= i < |rows|
    ensures i == -1 <==> forall k :: 0 <= k < |rows| ==> !Marked(rows[k])
    ensures i >= 0 ==> Marked(rows[i])
    ensures i >= 0 ==> forall k :: i < k < |rows| ==> !Marked(rows[k])
    decreases |rows|
  {
    if rows == [] then -1
    else if Marked(rows[|rows| - 1]) then |rows| - 1
    else
      var init := rows[..|rows| - 1];
      var i := LastChecked(init);
      assert forall k :: 0 <= k < |init| ==> init[k] == rows[k];
      i
  }

  /** What `getAlternativesFromForm` returns. */
  datatype Collected = Collected(alternatives: seq<string>, correctAnswer: int)

  /** `getAlternativesFromForm` (and the same loop inside `addQuestion` of the page script):
      walk the rows, keep each filled row's trimmed text, and remember the row index of every
      checked filled row, so the last one wins. */
  method GetAlternativesFromForm(rows: seq<Row>) returns (c: Collected)
    ensures c.alternatives == Kept(rows)
    ensures c.correctAnswer == LastChecked(rows)
  {
    var alternatives: seq<string> := [];
    var correctAnswer := -1;
    var index := 0;
    while index < |rows|
      invariant 0 <= index <= |rows|
      invariant Collected(alternatives, correctAnswer) == Collect(rows[..index])
    {
      var item := rows[index];
      var text := Trim(item.text);
      ghost var before, mark := alternatives, correctAnswer;
      if text != "" {
        alternatives := alternatives + [text];
        if item.checked {
          correctAnswer := index;
        }
      }
      LoopStep(rows, index, before, mark, text, alternatives, correctAnswer);
      index := index + 1;
    }
    assert rows[..|rows|] == rows;
    c := Collected(alternatives, correctAnswer);
    assert c == Collect(rows);
  }

  /** One iteration of the loop keeps its invariant. */
  lemma LoopStep(rows: seq<Row>, index: nat, alternatives: seq<string>, correctAnswer: int, text: string,
                 alternatives': seq<string>, correctAnswer': int)
    requires index < |rows| && text == Trim(rows[index].text)
    requires Collected(alternatives, correctAnswer) == Collect(rows[..index])
    requires alternatives' == if text != "" then alternatives + [text] else alternatives
    requires correctAnswer' == if text != "" && rows[index].checked then index else correctAnswer
    ensures Collected(alternatives', correctAnswer') == Collect(rows[..index + 1])
  {
    CollectStep(rows, index);
    TrimEmptyIffAllSpace(rows[index].text);
  }

  /** One more row extends the kept texts and the last mark as the loop does. */
  lemma CollectStep(rows: seq<Row>, i: nat)
    requires i < |rows|
    ensures Kept(rows[..i + 1]) == Kept(rows[..i]) + (if Filled(rows[i]) then [Trim(rows[i].text)] else [])
    ensures LastChecked(rows[..i + 1]) == if Marked(rows[i]) then i else LastChecked(rows[..i])
  {
    var pre := rows[..i + 1];
    assert pre[..i] == rows[..i];
    assert pre[i] == rows[i];
  }

  /** The collection as a function, for use in the question operations. */
  function Collect(rows: seq<Row>): (c: Collected)
    ensures c.alternatives == Kept(rows) && c.correctAnswer == LastChecked(rows)
    ensures |c.alternatives| <= |rows|
  {
    Collected(Kept(rows), LastChecked(rows))
  }

  lemma {:induction false} KeptAppend(a: seq<Row>, b: seq<Row>)
    ensures Kept(a + b) == Kept(a) + Kept(b)
    decreases |b|
  {
    if b == [] {
      assert a + b == a;
    } else {
      var b' := b[..|b| - 1];
      assert (a + b)[..|a + b| - 1] == a + b';
      KeptAppend(a, b');
    }
  }

  /** A filled row at position `i` lands in the kept texts at the number of filled rows
      before it. */
  lemma KeptAt(rows: seq<Row>, i: nat)
    requires i < |rows| && Filled(rows[i])
    ensures |Kept(rows[..i])| < |Kept(rows)|
    ensures Kept(rows)[|Kept(rows[..i])|] == Trim(rows[i].text)
  {
    assert rows == rows[..i] + rows[i..];
    KeptAppend(rows[..i], rows[i..]);
    assert rows[i..] == [rows[i]] + rows[i + 1..];
    KeptAppend([rows[i]], rows[i + 1..]);
    KeptSnoc([], rows[i]);
    assert [] + [rows[i]] == [rows[i]];
  }

  /** When no row is blank, every row is kept. */
  lemma {:induction false} KeptAllFilled(rows: seq<Row>)
    requires forall k :: 0 <= k < |rows| ==> Filled(rows[k])
    ensures |Kept(rows)| == |rows|
    ensures forall k :: 0 <= k < |rows| ==> Kept(rows)[k] == Trim(rows[k].text)
    decreases |rows|
  {
    if rows != [] {
      var init := rows[..|rows| - 1];
      var last := rows[|rows| - 1];
      assert rows == init + [last];
      assert forall k :: 0 <= k < |init| ==> init[k] == rows[k];
      KeptAllFilled(init);
      KeptSnoc(init, last);
    }
  }

  lemma KeptSkip(init: seq<Row>, last: Row)
    requires !Filled(last)
    ensures Kept(init + [last]) == Kept(init)
  {
    assert (init + [last])[..|init|] == init;
  }

  lemma KeptSnoc(init: seq<Row>, last: Row)
    requires Filled(last)
    ensures Kept(init + [last]) == Kept(init) + [Trim(last.text)]
  {
    assert (init + [last])[..|init|] == init;
  }

  // ---------------------------------------------------------------------------
  // The correct-answer index: as written, and as the display expects it
  // ---------------------------------------------------------------------------

  /** How the question list marks an alternative as correct: its index in `alternatives`
      equals `correctAnswer`. */
  predicate MarkedCorrect(c: Collected, altIndex: int) {
    altIndex == c.correctAnswer
  }

  /** The rows of the counterexample: a blank first row, then `a` (checked) and `b`. */
  const BlankFirstRows: seq<Row> :=
    [Row("", false, 0, Some(65)), Row("a", true, 1, Some(66)), Row("b", false, 2, Some(67))]

  lemma KeptBlankFirstRows()
    ensures Kept(BlankFirstRows) == ["a", "b"]
  {
    var r0, r1, r2 := BlankFirstRows[0], BlankFirstRows[1], BlankFirstRows[2];
    assert !IsSpace("a"[0]) && !IsSpace("b"[0]);
    TrimOfTrimmed("a");
    TrimOfTrimmed("b");
    KeptSkip([], r0);
    assert [] + [r0] == [r0];
    KeptSnoc([r0], r1);
    assert [r0] + [r1] == [r0, r1];
    KeptSnoc([r0, r1], r2);
    assert [r0, r1] + [r2] == BlankFirstRows;
  }

  lemma LastCheckedBlankFirstRows()
    ensures LastChecked(BlankFirstRows) == 1
  {
    assert !IsSpace("a"[0]);
    assert BlankFirstRows[..2][..1] == [BlankFirstRows[0]];
  }

  /** As written, a blank row before the checked one shifts the mark: the rows
      `["", "a" (checked), "b"]` collect to `["a", "b"]` with `correctAnswer == 1`, so the
      list marks `"b"` although `"a"` was selected. */
  lemma CorrectAnswerMarksWrongAlternative()
    ensures var c := Collect(BlankFirstRows);
      && c.alternatives == ["a", "b"]
      && c.correctAnswer == 1
      && BlankFirstRows[1].checked && BlankFirstRows[1].text == "a"
      && MarkedCorrect(c, 1) && c.alternatives[1] == "b"
      && !MarkedCorrect(c, 0)
  {
    KeptBlankFirstRows();
    LastCheckedBlankFirstRows();
  }

  /** The intended collection: the correct answer is the checked row's position among the
      kept alternatives, so it indexes `alternatives` the way the list and the edit form read
      it. */
  function CollectCorrected(rows: seq<Row>): (c: Collected)
    ensures c.alternatives == Kept(rows)
    ensures c.correctAnswer == -1 <==> LastChecked(rows) == -1
    ensures c.correctAnswer != -1 ==>
      0 <= c.correctAnswer < |c.alternatives|
      && c.alternatives[c.correctAnswer] == Trim(rows[LastChecked(rows)].text)
  {
    var i := LastChecked(rows);
    if i == -1 then Collected(Kept(rows), -1)
    else
      KeptAt(rows, i);
      Collected(Kept(rows), |Kept(rows[..i])|)
  }

  /** The two collections agree exactly when no row before the checked one is blank (or
      nothing is checked); every form the edit dialog produces is of this kind. */
  lemma CorrectedAgreesIff(rows: seq<Row>)
    ensures CollectCorrected(rows) == Collect(rows) <==>
      forall k :: 0 <= k < LastChecked(rows) ==> Filled(rows[k])
  {
    var i := LastChecked(rows);
    if i != -1 {
      var before := rows[..i];
      if forall k :: 0 <= k < i ==> Filled(rows[k]) {
        assert forall k :: 0 <= k < |before| ==> before[k] == rows[k];
        KeptAllFilled(before);
      } else {
        var k :| 0 <= k < i && !Filled(rows[k]);
        assert before[k] == rows[k];
        KeptShorterWithBlank(before, k);
      }
    }
  }

  /** A blank row is dropped, so fewer texts are kept than there are rows. */
  lemma {:induction false} KeptShorterWithBlank(rows: seq<Row>, k: nat)
    requires k < |rows| && !Filled(rows[k])
    ensures |Kept(rows)| < |rows|
    decreases |rows|
  {
    var init := rows[..|rows| - 1];
    var last := rows[|rows| - 1];
    assert rows == init + [last];
    if k == |rows| - 1 {
      KeptSkip(init, last);
    } else {
      assert init[k] == rows[k];
      KeptShorterWithBlank(init, k);
      if Filled(last) {
        KeptSnoc(init, last);
      } else {
        KeptSkip(init, last);
      }
    }
  }

  // ---------------------------------------------------------------------------
  // The editor: rows and `alternativeCount`
  // ---------------------------------------------------------------------------

  datatype Editor = Editor(rows: seq<Row>, count: int)

  /** `String.fromCharCode(65 + alternativeCount)`: a UTF-16 code unit. */
  function LetterCode(count: int): (u: int)
    ensures 0 <= u < 0x1_0000
    ensures 0 <= count <= 25 ==> 'A' as int <= u <= 'Z' as int && u - 'A' as int == count
  {
    (65 + count) % 0x1_0000
  }

  /** `resetAlternatives`: two empty rows A and B with radio values 0 and 1, and the counter
      back at 2. */
  function ResetAlternatives(): (ed: Editor)
    ensures |ed.rows| == 2 && ed.count == 2
    ensures forall k :: 0 <= k < 2 ==>
      ed.rows[k] == Row("", false, k, Some(LetterCode(k)))
  {
    Editor([Row("", false, 0, Some(65)), Row("", false, 1, Some(66))], 2)
  }

  /** `addAlternative`: a new empty row at the end, lettered and valued by the counter, and
      the counter one higher. */
  function AddAlternative(ed: Editor): (r: Editor)
    ensures r.count == ed.count + 1
    ensures |r.rows| == |ed.rows| + 1 && r.rows[..|ed.rows|] == ed.rows
    ensures r.rows[|ed.rows|] == Row("", false, ed.count, Some(LetterCode(ed.count)))
  {
    Editor(ed.rows + [Row("", false, ed.count, Some(LetterCode(ed.count)))], ed.count + 1)
  }

  /** The remove button of row `k`: the row goes only while more than two rows exist;
      otherwise nothing changes (the page shows a warning). The counter is not touched. */
  function RemoveAlternative(ed: Editor, k: nat): (r: Editor)
    requires k < |ed.rows|
    ensures r.count == ed.count
    ensures |ed.rows| > 2 ==> r.rows == ed.rows[..k] + ed.rows[k + 1..]
    ensures |ed.rows| <= 2 ==> r == ed
    ensures |r.rows| >= 2 <==> |ed.rows| >= 2
  {
    if |ed.rows| > 2 then Editor(ed.rows[..k] + ed.rows[k + 1..], ed.count) else ed
  }

  /** `toggleAlternatives` on the rows: the true/false type replaces them by the read-only
      `Verdadeiro`/`Falso` pair, unchecked; other types leave them (only the visibility
      changes). The counter is not reset. */
  function ToggleAlternatives(ed: Editor, qtype: string): (r: Editor)
    ensures r.count == ed.count
    ensures qtype == "truefalse" ==>
      r.rows == [Row("Verdadeiro", false, 0, None), Row("Falso", false, 1, None)]
    ensures qtype != "truefalse" ==> r == ed
  {
    if qtype == "truefalse" then
      Editor([Row("Verdadeiro", false, 0, None), Row("Falso", false, 1, None)], ed.count)
    else ed
  }

  /** The steps a user can take on the alternatives editor. */
  datatype Step = Add | Remove(k: nat) | Reset | Toggle(qtype: string)

  function Apply(ed: Editor, s: Step): Editor {
    match s
    case Add => AddAlternative(ed)
    case Remove(k) => if k < |ed.rows| then RemoveAlternative(ed, k) else ed
    case Reset => ResetAlternatives()
    case Toggle(t) => ToggleAlternatives(ed, t)
  }

  function ApplyAll(ed: Editor, steps: seq<Step>): Editor
    decreases |steps|
  {
    if steps == [] then ed else ApplyAll(Apply(ed, steps[0]), steps[1..])
  }

  /** Starting from a reset editor, no sequence of steps leaves fewer than two rows. */
  lemma {:induction false} AtLeastTwoRows(ed: Editor, steps: seq<Step>)
    requires |ed.rows| >= 2
    ensures |ApplyAll(ed, steps).rows| >= 2
    decreases |steps|
  {
    if steps != [] {
      AtLeastTwoRows(Apply(ed, steps[0]), steps[1..]);
    }
  }

  // ---------------------------------------------------------------------------
  // Filling the form from a stored question (editQuestion)
  // ---------------------------------------------------------------------------

  /** The rows `editQuestion` leaves after `resetAlternatives` and one `addAlternative` per
      alternative past the second: row `k` holds alternative `k` and is checked when `k`
      equals the stored correct answer. With fewer than two alternatives the reset rows stay
      partly empty. */
  function Prefill(alternatives: seq<string>, correctAnswer: int): (ed: Editor)
    ensures |ed.rows| == if |alternatives| < 2 then 2 else |alternatives|
    ensures ed.count == |ed.rows|
    ensures forall k :: 0 <= k < |alternatives| ==>
      ed.rows[k].text == alternatives[k] && ed.rows[k].checked == (k == correctAnswer)
    ensures forall k :: |alternatives| <= k < |ed.rows| ==> ed.rows[k].text == ""
    decreases |alternatives|
  {
    if |alternatives| <= 2 then
      var base := ResetAlternatives();
      Editor(seq(2, k requires 0 <= k < 2 =>
        if k < |alternatives| then Row(alternatives[k], k == correctAnswer, k, Some(LetterCode(k)))
        else base.rows[k]), 2)
    else
      var init := Prefill(alternatives[..|alternatives| - 1], correctAnswer);
      var added := AddAlternative(init);
      var k := |alternatives| - 1;
      var r := Editor(added.rows[k := added.rows[k].(text := alternatives[k], checked := k == correctAnswer)],
                      added.count);
      assert forall j :: 0 <= j < k ==> alternatives[..k][j] == alternatives[j];
      r
  }

  /** Alternatives as collection stores them: trimmed and non-empty. */
  predicate WellFormedAlternatives(alternatives: seq<string>) {
    forall k :: 0 <= k < |alternatives| ==> Trimmed(alternatives[k])
  }

  lemma PrefillAllFilled(alternatives: seq<string>, correctAnswer: int)
    requires |alternatives| >= 2 && WellFormedAlternatives(alternatives)
    ensures var rows := Prefill(alternatives, correctAnswer).rows;
      forall k :: 0 <= k < |rows| ==> Filled(rows[k])
  {
    var rows := Prefill(alternatives, correctAnswer).rows;
    forall k | 0 <= k < |rows| ensures Filled(rows[k]) {
      assert Trimmed(alternatives[k]);
    }
  }

  lemma KeptPrefill(alternatives: seq<string>, correctAnswer: int)
    requires |alternatives| >= 2 && WellFormedAlternatives(alternatives)
    ensures Kept(Prefill(alternatives, correctAnswer).rows) == alternatives
  {
    var rows := Prefill(alternatives, correctAnswer).rows;
    PrefillAllFilled(alternatives, correctAnswer);
    KeptAllFilled(rows);
    var kept := Kept(rows);
    assert |kept| == |alternatives|;
    forall k | 0 <= k < |kept| ensures kept[k] == alternatives[k] {
      var a := alternatives[k];
      assert rows[k].text == a;
      assert kept[k] == Trim(rows[k].text);
      TrimOfTrimmed(a);
    }
  }

  lemma LastCheckedPrefill(alternatives: seq<string>, correctAnswer: int)
    requires |alternatives| >= 2 && WellFormedAlternatives(alternatives)
    requires -1 <= correctAnswer < |alternatives|
    ensures LastChecked(Prefill(alternatives, correctAnswer).rows) == correctAnswer
  {
    var rows := Prefill(alternatives, correctAnswer).rows;
    PrefillAllFilled(alternatives, correctAnswer);
    var i := LastChecked(rows);
    if correctAnswer != -1 {
      assert Marked(rows[correctAnswer]);
    }
  }

  /** Collecting a form filled from a stored choice question gives back its alternatives and
      its correct answer. */
  lemma PrefillRoundTrip(alternatives: seq<string>, correctAnswer: int)
    requires |alternatives| >= 2 && WellFormedAlternatives(alternatives)
    requires -1 <= correctAnswer < |alternatives|
    ensures Collect(Prefill(alternatives, correctAnswer).rows) == Collected(alternatives, correctAnswer)
    ensures CollectCorrected(Prefill(alternatives, correctAnswer).rows) == Collected(alternatives, correctAnswer)
  {
    KeptPrefill(alternatives, correctAnswer);
    LastCheckedPrefill(alternatives, correctAnswer);
    PrefillAllFilled(alternatives, correctAnswer);
    CorrectedAgreesIff(Prefill(alternatives, correctAnswer).rows);
  }

  /** Editing a true/false question loses its answer: after the form is filled, switching the
      type rebuilds the two rows unchecked, so collecting again finds no correct answer. */
  lemma TrueFalseEditLosesAnswer(alternatives: seq<string>, correctAnswer: int)
    ensures Collect(ToggleAlternatives(Prefill(alternatives, correctAnswer), "truefalse").rows).correctAnswer == -1
  {
  }
}
