/**
 * The quiz session: the `st.session_state` fields of app.py and the
 * functions that change them. One `Session` object stands for the state that
 * survives from one page run to the next; each method is one interaction.
 */
module QuizSession {
  import opened Wrappers
  import opened QuestionBank
  import opened QuizRecords
  import Shuffling

  class Session {
    var quizStarted: bool
    var questions: seq<Question>
    var currentQuestionIndex: nat
    var score: nat
    var answeredDetails: seq<AnswerDetail>
    var lastAnswerCorrect: Option<bool>
    var lastAnswerComment: Cell
    var showFeedback: bool

    /** The session invariant, on the current field values. */
    ghost predicate Valid()
      reads this
    {
      SessionInvariant(quizStarted, questions, currentQuestionIndex, score,
        answeredDetails, lastAnswerCorrect, lastAnswerComment, showFeedback)
    }

    /** The values `initialize_session_state` gives and `reset_quiz_state` restores. */
    predicate IsInitial()
      reads this
    {
      && !quizStarted
      && questions == []
      && currentQuestionIndex == 0
      && score == 0
      && answeredDetails == []
      && lastAnswerCorrect == None
      && lastAnswerComment == Some("")
      && !showFeedback
    }

    /** `initialize_session_state` on a new session. */
    constructor ()
      ensures Valid() && IsInitial()
    {
      quizStarted := false;
      questions := [];
      currentQuestionIndex := 0;
      score := 0;
      answeredDetails := [];
      lastAnswerCorrect := None;
      lastAnswerComment := Some("");
      showFeedback := false;
    }

    /** The test at app.py:131: every question has been answered. */
    predicate Finished()
      reads this
      requires Valid()
      ensures Finished() <==> |answeredDetails| == |questions|
    {
      currentQuestionIndex >= |questions|
    }

    /** `reset_quiz_state`: back to the initial values, from any state. */
    method ResetQuizState()
      modifies this
      ensures Valid() && IsInitial()
    {
      quizStarted := false;
      questions := [];
      currentQuestionIndex := 0;
      score := 0;
      answeredDetails := [];
      lastAnswerCorrect := None;
      lastAnswerComment := Some("");
      showFeedback := false;
    }

    /**
     * `start_quiz`, called from the start screen. The CSV contents are
     * parameters, and `draw` is the random source of the shuffle. Returns
     * the loader's warnings.
     */
    method StartQuiz(header: seq<string>, rows: seq<Row>, draw: nat -> nat) returns (diagnostics: seq<Diagnostic>)
      requires Valid() && !quizStarted
      modifies this
      ensures Valid()
      ensures diagnostics == LoadDiagnostics(header, rows)
      ensures LoadedBank(header, rows) == [] ==>
        && !quizStarted && questions == []
        && currentQuestionIndex == old(currentQuestionIndex) && score == old(score)
        && answeredDetails == old(answeredDetails) && lastAnswerCorrect == old(lastAnswerCorrect)
        && lastAnswerComment == old(lastAnswerComment) && showFeedback == old(showFeedback)
        && IsInitial()
      ensures LoadedBank(header, rows) != [] ==>
        && quizStarted
        && multiset(questions) == multiset(LoadedBank(header, rows))
        && currentQuestionIndex == 0 && score == 0 && answeredDetails == []
        && lastAnswerCorrect == None && lastAnswerComment == Some("") && !showFeedback
    {
      var bank;
      bank, diagnostics := LoadQuestionsFromCsv(header, rows);
      LoadedBankProperties(header, rows);
      questions := bank;
      if questions == [] {
        quizStarted := false;
        return;
      }
      var shuffled := Shuffling.Shuffle(questions, draw);
      forall k | 0 <= k < |shuffled|
        ensures WellFormed(shuffled[k])
      {
        assert shuffled[k] in multiset(bank);
      }
      questions := shuffled;
      currentQuestionIndex := 0;
      score := 0;
      answeredDetails := [];
      quizStarted := true;
      lastAnswerCorrect := None;
      lastAnswerComment := Some("");
      showFeedback := false;
    }

    /**
     * `process_answer` for the current question: count a correct answer,
     * record the detail, set the feedback for the next page run, advance.
     */
    method ProcessAnswer(choice: string)
      requires Valid() && quizStarted && !Finished()
      requires choice in questions[currentQuestionIndex].choices
      modifies this
      ensures Valid()
      ensures var q := old(questions[currentQuestionIndex]);
        && quizStarted && questions == old(questions)
        && currentQuestionIndex == old(currentQuestionIndex) + 1
        && score == old(score) + (if IsCorrect(q, choice) then 1 else 0)
        && answeredDetails == old(answeredDetails) + [Detail(q, choice)]
        && answeredDetails[|answeredDetails| - 1].correctAnswerText == q.choices[q.correctAnswerIndex]
        && lastAnswerCorrect == Some(IsCorrect(q, choice))
        && lastAnswerComment == q.comment
        && showFeedback
    {
      var q := questions[currentQuestionIndex];
      TranscriptExtends(questions, answeredDetails, choice);
      var userChoiceIndex := FirstIndex(q.choices, choice);
      var isCorrect := userChoiceIndex == q.correctAnswerIndex;
      if isCorrect {
        score := score + 1;
      }
      var detail := Detail(q, choice);
      LastOfAppend(answeredDetails, detail);
      answeredDetails := answeredDetails + [detail];
      lastAnswerCorrect := Some(isCorrect);
      lastAnswerComment := q.comment;
      showFeedback := true;
      currentQuestionIndex := currentQuestionIndex + 1;
    }

    /**
     * The state-touching part of `display_question`: once every question is
     * answered it shows the results and changes nothing; otherwise it shows
     * the current question and, if feedback is pending, shows it and clears
     * the flag, so each feedback block appears at most once.
     */
    method DisplayQuestion() returns (screen: Screen)
      requires Valid() && quizStarted
      modifies this
      ensures Valid()
      ensures old(Finished()) ==> screen == ResultsScreen && unchanged(this)
      ensures !old(Finished()) ==>
        && quizStarted == old(quizStarted) && questions == old(questions)
        && currentQuestionIndex == old(currentQuestionIndex) && score == old(score)
        && answeredDetails == old(answeredDetails) && lastAnswerCorrect == old(lastAnswerCorrect)
        && lastAnswerComment == old(lastAnswerComment)
        && !showFeedback
        && screen == QuestionScreen(currentQuestionIndex, questions[currentQuestionIndex],
             if old(showFeedback) then Some(Feedback(lastAnswerCorrect, lastAnswerComment)) else None)
    {
      if currentQuestionIndex >= |questions| {
        return ResultsScreen;
      }
      var feedback := None;
      if showFeedback {
        feedback := Some(Feedback(lastAnswerCorrect, lastAnswerComment));
        showFeedback := false;
      }
      screen := QuestionScreen(currentQuestionIndex, questions[currentQuestionIndex], feedback);
    }

    /**
     * The answer form's submit (app.py:167-172): with no choice selected it
     * only warns and the state is unchanged; otherwise it processes the answer.
     */
    method SubmitAnswer(choice: Option<string>)
      requires Valid() && quizStarted && !Finished()
      requires choice.Some? ==> choice.value in questions[currentQuestionIndex].choices
      modifies this
      ensures Valid()
      ensures choice.None? ==> unchanged(this)
      ensures choice.Some? ==> var q := old(questions[currentQuestionIndex]);
        && currentQuestionIndex == old(currentQuestionIndex) + 1
        && score == old(score) + (if IsCorrect(q, choice.value) then 1 else 0)
        && answeredDetails == old(answeredDetails) + [Detail(q, choice.value)]
        && questions == old(questions) && quizStarted
        && lastAnswerCorrect == Some(IsCorrect(q, choice.value))
        && lastAnswerComment == q.comment && showFeedback
    {
      if choice.Some? {
        ProcessAnswer(choice.value);
      }
    }
  }

  /** The session invariant gives the progress bounds: score <= answers == index <= questions. */
  lemma ProgressBounds(s: Session)
    requires s.Valid()
    ensures s.score <= |s.answeredDetails| == s.currentQuestionIndex <= |s.questions|
    ensures s.score <= |s.questions|
  {
  }

  /** Feedback is shown once: the next page run after it shows the same question without it. */
  method FeedbackShownOnce(s: Session) returns (first: Screen, second: Screen)
    requires s.Valid() && s.quizStarted
    modifies s
    ensures s.Valid()
    ensures first.QuestionScreen? ==> second.QuestionScreen? && second.question == first.question && second.feedback == None
    ensures first.ResultsScreen? ==> second.ResultsScreen?
  {
    first := s.DisplayQuestion();
    second := s.DisplayQuestion();
  }

  /**
   * The feedback for the last answer is never displayed: after it, the
   * finished test comes first and the results screen is shown instead,
   * with the feedback still pending.
   */
  method LastFeedbackNeverShown(s: Session, choice: string) returns (screen: Screen)
    requires s.Valid() && s.quizStarted && s.currentQuestionIndex == |s.questions| - 1
    requires choice in s.questions[s.currentQuestionIndex].choices
    modifies s
    ensures s.Valid() && s.Finished()
    ensures screen == ResultsScreen && s.showFeedback
  {
    s.ProcessAnswer(choice);
    screen := s.DisplayQuestion();
  }

  /** Answering every question with its correct text, when no correct text repeats an earlier choice, scores full marks. */
  method AnswerAllCorrectly(s: Session)
    requires s.Valid() && s.quizStarted && s.currentQuestionIndex == 0
    requires forall k :: 0 <= k < |s.questions| ==> WellFormed(s.questions[k]) && NoEarlierDuplicate(s.questions[k])
    modifies s
    ensures s.Valid() && s.Finished()
    ensures s.score == |s.questions| == |old(s.questions)|
  {
    while !s.Finished()
      invariant s.Valid() && s.quizStarted
      invariant s.questions == old(s.questions)
      invariant s.score == s.currentQuestionIndex
      decreases |s.questions| - s.currentQuestionIndex
    {
      var q := s.questions[s.currentQuestionIndex];
      CorrectTextIsJudgedCorrect(q);
      s.SubmitAnswer(Some(q.choices[q.correctAnswerIndex]));
    }
  }
}
