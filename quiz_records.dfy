/**
 * The records the quiz session keeps: the answer details of
 * `process_answer`, how an answer is judged, and the invariant that ties the
 * session fields together, stated on their values.
 */
module QuizRecords {
  import opened Wrappers
  import opened QuestionBank

  /** One entry of `answered_details` (app.py:184-191). */
  datatype AnswerDetail = AnswerDetail(
    questionId: Cell,
    questionText: Cell,
    userChoiceText: string,
    correctAnswerText: string,
    isCorrect: bool,
    comment: Cell)

  /** The feedback block shown above a question for the previous answer. */
  datatype Feedback = Feedback(lastAnswerCorrect: Option<bool>, lastAnswerComment: Cell)

  /** What a run of the quiz page shows once the quiz has started. */
  datatype Screen =
    | ResultsScreen
    | QuestionScreen(index: nat, question: Question, feedback: Option<Feedback>)

  /** `choices.index(x)`: the position of the first occurrence of `x`. */
  function FirstIndex(choices: seq<string>, x: string): (i: nat)
    requires x in choices
    ensures i < |choices| && choices[i] == x
    ensures forall j :: 0 <= j < i ==> choices[j] != x
  {
    if choices[0] == x then 0 else 1 + FirstIndex(choices[1..], x)
  }

  /** Whether `choice` is judged correct for `q` (app.py:177-178). */
  function IsCorrect(q: Question, choice: string): (r: bool)
    requires choice in q.choices
    ensures r ==> 0 <= q.correctAnswerIndex < |q.choices| && q.choices[q.correctAnswerIndex] == choice
  {
    FirstIndex(q.choices, choice) == q.correctAnswerIndex
  }

  /** The detail `process_answer` records for answering `q` with `choice`. */
  function Detail(q: Question, choice: string): AnswerDetail
    requires WellFormed(q) && choice in q.choices
  {
    AnswerDetail(
      questionId := q.id,
      questionText := q.questionText,
      userChoiceText := choice,
      correctAnswerText := q.choices[q.correctAnswerIndex],
      isCorrect := IsCorrect(q, choice),
      comment := q.comment)
  }

  /** A recorded detail names two of the question's choices, and one judged correct names the same choice twice. */
  lemma DetailNamesChoices(q: Question, choice: string)
    requires WellFormed(q) && choice in q.choices
    ensures Detail(q, choice).userChoiceText in q.choices && Detail(q, choice).correctAnswerText in q.choices
    ensures Detail(q, choice).isCorrect ==> Detail(q, choice).userChoiceText == Detail(q, choice).correctAnswerText
  {
  }

  /** The number of correct answers in a transcript. */
  function CountCorrect(details: seq<AnswerDetail>): (n: nat)
    ensures n <= |details|
    decreases |details|
  {
    if details == [] then 0
    else CountCorrect(details[..|details| - 1]) + (if details[|details| - 1].isCorrect then 1 else 0)
  }

  /** Full marks exactly when every recorded answer is correct. */
  lemma {:induction false} FullScoreIffAllCorrect(details: seq<AnswerDetail>)
    ensures CountCorrect(details) == |details| <==> forall k :: 0 <= k < |details| ==> details[k].isCorrect
    decreases |details|
  {
    if details != [] {
      var init := details[..|details| - 1];
      FullScoreIffAllCorrect(init);
      assert forall k :: 0 <= k < |init| ==> init[k] == details[k];
    }
  }

  /** Every question of a list is well formed. */
  predicate AllWellFormed(questions: seq<Question>) {
    forall k :: 0 <= k < |questions| ==> WellFormed(questions[k])
  }

  /** The k-th detail records an answer to the k-th question. */
  ghost predicate Transcript(questions: seq<Question>, details: seq<AnswerDetail>) {
    && AllWellFormed(questions)
    && |details| <= |questions|
    && forall k :: 0 <= k < |details| ==>
         details[k].userChoiceText in questions[k].choices &&
         details[k] == Detail(questions[k], details[k].userChoiceText)
  }

  /** Appending an answer adds one to the correct count exactly when that answer is correct. */
  lemma CountCorrectAppend(details: seq<AnswerDetail>, d: AnswerDetail)
    ensures CountCorrect(details + [d]) == CountCorrect(details) + (if d.isCorrect then 1 else 0)
  {
    assert (details + [d])[..|details|] == details;
  }

  /** Answering the next question extends the transcript and counts one more correct answer or none. */
  lemma TranscriptExtends(questions: seq<Question>, details: seq<AnswerDetail>, choice: string)
    requires Transcript(questions, details) && |details| < |questions|
    requires choice in questions[|details|].choices
    ensures Transcript(questions, details + [Detail(questions[|details|], choice)])
    ensures CountCorrect(details + [Detail(questions[|details|], choice)]) ==
      CountCorrect(details) + (if IsCorrect(questions[|details|], choice) then 1 else 0)
  {
    var d := Detail(questions[|details|], choice);
    var extended := details + [d];
    forall k | 0 <= k < |extended|
      ensures extended[k].userChoiceText in questions[k].choices
      ensures extended[k] == Detail(questions[k], extended[k].userChoiceText)
    {
      if k < |details| {
        assert extended[k] == details[k];
      }
    }
    CountCorrectAppend(details, d);
  }

  /** The verdict of the last answer, or `None` before the first. */
  function LastVerdict(details: seq<AnswerDetail>): Option<bool> {
    if details == [] then None else Some(details[|details| - 1].isCorrect)
  }

  /** The comment of the last answer, or `''` before the first. */
  function LastComment(details: seq<AnswerDetail>): Cell {
    if details == [] then Some("") else details[|details| - 1].comment
  }

  /** After an answer is recorded, the last verdict and comment are that answer's. */
  lemma LastOfAppend(details: seq<AnswerDetail>, d: AnswerDetail)
    ensures LastVerdict(details + [d]) == Some(d.isCorrect)
    ensures LastComment(details + [d]) == d.comment
  {
    assert (details + [d])[|details|] == d;
  }

  /** The feedback fields describe the last answer, and nothing is pending before the first. */
  predicate FeedbackOfLast(details: seq<AnswerDetail>, lastAnswerCorrect: Option<bool>, lastAnswerComment: Cell, showFeedback: bool) {
    && lastAnswerCorrect == LastVerdict(details)
    && lastAnswerComment == LastComment(details)
    && (showFeedback ==> details != [])
  }

  /**
   * The session invariant on the values of the eight fields. The k-th detail
   * answers the k-th question; the score counts the correct details; the
   * index is the number of answers; the feedback fields describe the last
   * answer; before the quiz starts there are no questions.
   */
  ghost predicate SessionInvariant(
    quizStarted: bool, questions: seq<Question>, currentQuestionIndex: nat, score: nat,
    answeredDetails: seq<AnswerDetail>, lastAnswerCorrect: Option<bool>, lastAnswerComment: Cell, showFeedback: bool)
  {
    && Transcript(questions, answeredDetails)
    && currentQuestionIndex == |answeredDetails|
    && score == CountCorrect(answeredDetails)
    && FeedbackOfLast(answeredDetails, lastAnswerCorrect, lastAnswerComment, showFeedback)
    && (quizStarted <==> questions != [])
  }

  /** The text of the correct choice does not also stand at an earlier position. */
  predicate NoEarlierDuplicate(q: Question)
    requires WellFormed(q)
  {
    forall j :: 0 <= j < q.correctAnswerIndex ==> q.choices[j] != q.choices[q.correctAnswerIndex]
  }

  /** Choosing the text of the correct choice is judged correct, unless that text also appears earlier among the choices. */
  lemma CorrectTextIsJudgedCorrect(q: Question)
    requires WellFormed(q) && NoEarlierDuplicate(q)
    ensures IsCorrect(q, q.choices[q.correctAnswerIndex])
  {
  }

  /**
   * `list.index` finds the first occurrence, so when the correct choice's text
   * also appears at an earlier position, no choice is ever judged correct.
   */
  lemma EarlierDuplicateIsNeverCorrect(q: Question, j: nat, choice: string)
    requires WellFormed(q)
    requires j < q.correctAnswerIndex && q.choices[j] == q.choices[q.correctAnswerIndex]
    requires choice in q.choices
    ensures !IsCorrect(q, choice)
  {
  }
}
