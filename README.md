# Four-choice quiz: question bank and session, in Dafny

This project models the logic of a small Streamlit quiz app (`app.py`). It has two parts.

- **The question-bank loader** (`load_questions_from_csv`). It reads the CSV file through the CSV reader. If any of the eight required headers (問題No, 難易度, 問題, 選択肢1–4, 正解) is missing, it returns nothing. Otherwise it walks the data rows in order. For each row it builds the choices from the non-blank 選択肢1..4 cells: blank cells are dropped and the rest close up. It skips the row with a warning when 正解 is blank, is not an integer, or gives an answer index outside the choices. A skipped row does not stop the loop, and each other row becomes a question record.
- **The quiz session** (`st.session_state`). The session is not started, then in progress, then finished. `start_quiz` loads and shuffles the bank. `process_answer` judges an answer, counts it, records it and advances. `display_question` shows results once every question is answered. Otherwise it shows the current question and the pending feedback, once. `reset_quiz_state` returns to the initial values.

Modules:

- `Wrappers` (`wrappers.dfy`): `Option`, standing for Python's `None` or a value.
- `Decimal` (`decimal.dfy`): a restricted `int(text)`, which accepts an optional sign and then ASCII digits, and `str(n)`. The two are proved to round-trip.
- `QuestionBank` (`question_bank.dfy`): the loader. A row is a map from column name to cell. A cell is `Option<string>` because the CSV reader gives `None` for fields missing from a short line. `Rejection`, `Record`, `Bank` and `Skips` define what the loader computes. `LoadQuestionsFromCsv` is its loop, proved equal to them. The lemmas then state what the result means: row order, one question per accepted row and none per rejected row, well-formed records, and the defaults.
- `Shuffling` (`shuffling.dfy`): `random.shuffle` as the Fisher–Yates loop, with the random numbers passed in as a parameter. It is proved to return a permutation.
- `QuizRecords` (`quiz_records.dfy`): the values a session holds and judges. These are the answer detail, `choices.index`, the verdict, the correct-answer count, and the session invariant on the eight field values:
  - the k-th answer detail records an answer to the k-th question;
  - `score` is the number of correct details;
  - `current_question_index` is the number of details and at most the number of questions;
  - the last-answer fields describe the last detail;
  - the quiz is started exactly when there are questions.
- `QuizSession` (`quiz_session.dfy`): the class `Session` holds the eight session fields. `Valid()` is the invariant above on its fields. Every method keeps `Valid()` and states the whole new state.

Two consequences of the code as written are stated as lemmas:

- `choices.index(text)` finds the first occurrence of the text. If the correct choice's text also stands at an earlier position, no answer to that question is ever judged correct (`EarlierDuplicateIsNeverCorrect`).
- The finished test comes before the feedback block in `display_question`. So the feedback for the last answer is never displayed: the results screen replaces it. `DisplayQuestion` models exactly that, and `LastFeedbackNeverShown` states it.

Three further facts about what `app.py` does, which the model follows:

- A question has one to four choices. Blank choice cells are dropped and the remaining choices close up.
- The loader reads no status column. The quiz applies no difficulty filter, draws no sample of N questions, and never appends questions to the bank.
- A file without the required headers gives an empty bank and one error. No exception is raised.

## Model

| member | source | states |
|---|---|---|
| `Decimal.ParseDigits` | app.py:56 | yields a value exactly when the text is a non-empty run of ASCII digits |
| `Decimal.ParseInt` | app.py:56 | `int(text)` succeeds exactly on an optional sign followed by digits; after '-' the value is at most 0, otherwise at least 0 |
| `Decimal.NatToString` | app.py:63 | `str(n)` for n ≥ 0 is a non-empty run of digits with no leading zero |
| `Decimal.IntToString` | app.py:63 | `str(n)` is non-empty and starts with '-' exactly when n < 0 |
| `Decimal.ParseDigitsOfNatToString` | app.py:56 | reading back the digits of `str(n)` gives n |
| `Decimal.ParseIntOfIntToString` | app.py:56 | `int(str(n)) == n` for every integer n |
| `Decimal.LeadingZeroIgnored` | app.py:56 | a leading zero does not change the value `int()` reads |
| `Decimal.NatToStringOfParseDigits` | app.py:56 | for a digit run without a leading zero, `str` of the value read gives back the same text |
| `Decimal.IntToStringOfParseInt` | app.py:56 | `str(int(s)) == s` for every numeral without a '+', a leading zero or "-0" |
| `Decimal.LeadingZerosIgnored` | app.py:56 | any run of leading zeros in front of a digit run leaves the value `int()` reads unchanged |
| `Decimal.SignedNumeral` | app.py:56 | a '+' or '-' in front of `str(v)`, padded with any number of zeros, reads as v with that sign (`int("+3") == 3`, `int("-007") == -7`, `int("+000") == 0`) |
| `QuestionBank.Lookup` | app.py:48-68 | `row.get(key, default)`: the cell when the column exists, otherwise the default; pinned down by `FullRowKeepsAllChoices`, `Record` and `CommentDefaultsToEmpty` |
| `QuestionBank.NonBlank` | app.py:48-52 | Python truthiness of a cell: neither `None` nor `''`; pinned down by `ChoicesFrom` (no kept choice is empty) and `BlankChoiceCompacts` |
| `QuestionBank.ChoicesFrom` | app.py:48 | the comprehension keeps at most one value per column, and every value kept is non-empty |
| `QuestionBank.ChoicesFromSplit` | app.py:48 | each column contributes its own non-blank cell or nothing, in column order (the comprehension distributes over the column list) |
| `QuestionBank.BlankChoiceCompacts` | app.py:48 | with 選択肢2 blank, 選択肢3 becomes the second choice (index 1) |
| `QuestionBank.FullRowKeepsAllChoices` | app.py:48 | a row with all four choice cells filled has exactly those four choices, in column order |
| `QuestionBank.NoChoicesRejected` | app.py:48-60 | a row with no non-blank choice is always skipped, since no answer index is in range |
| `QuestionBank.Rejection` | app.py:51-60 | the first failing check (blank answer, then not a number, then out of range), or none when the row is kept; a kept row has 1 to 4 choices and a numeric answer; pinned down by `OutOfRangeAnswerSkipped`, `NoChoicesRejected`, `FourChoiceRowKept` and `SkipsFollowRows` |
| `QuestionBank.Record` | app.py:62-69 | a kept record is well formed; its choices are the row's non-blank choices; `int(正解) == correct_answer_index + 1`; the comment is `''` when the column is absent; the id is the 問題No cell when present |
| `QuestionBank.FourChoiceRowKept` | app.py:48-69 | a row with four choices and an answer cell that `int()` reads as n in 1..4 (written as in "3", "+3" or "03") is kept, with answer index n − 1 and four choices |
| `QuestionBank.OutOfRangeAnswerSkipped` | app.py:56-60 | an answer cell that `int()` reads as n outside 1..len(choices) ("9", "+9", "09", "-05" alike) makes the row skipped as out of range |
| `QuestionBank.HasRequiredHeaders` | app.py:41-42 | the header test of app.py:41-42 over the eight names of app.py:41; pinned down by `LoadQuestionsFromCsv` and `LoadedBankProperties` (no questions and the one `MissingHeaders` error when it fails) |
| `QuestionBank.LoadQuestionsFromCsv` | app.py:32-87 | the loop returns exactly the bank and warnings that `Bank` and `Skips` define; with a required header missing it returns no questions and the one header error; with no valid question it adds the empty-bank warning |
| `QuestionBank.BankWellFormed` | app.py:46-69 | every kept question has 1 to 4 non-empty choices and an answer index among them |
| `QuestionBank.BankAndSkipsPartitionRows` | app.py:46-75 | every row yields exactly one question or one skip warning, so there is at most one question per row |
| `QuestionBank.KeptRows` | app.py:46-69 | the rows that become questions: one per question, in file order, each an accepted row of the file |
| `QuestionBank.BankFollowsRows` | app.py:46-69 | the k-th question is the record built from the k-th accepted row, numbered k for the default id |
| `QuestionBank.AcceptedRowsAreKept` | app.py:52-69 | every accepted row becomes a question, whatever rows precede it |
| `QuestionBank.SkipsFollowRows` | app.py:51-60 | each skip warning carries the rejected row's record number (the reader's record count, starting at 2, not a physical line of the file) and its reason, and every rejected row has a warning |
| `QuestionBank.RejectedRowIsInvisible` | app.py:52-60 | removing a rejected row anywhere leaves the bank unchanged: a bad row never affects the rows after it. This holds for rows the reader delivers; a reader error during the loop discards the whole bank (see Left out) |
| `QuestionBank.CommentDefaultsToEmpty` | app.py:68 | with no コメント column, every kept question's comment is `''` |
| `QuestionBank.LoadedBankProperties` | app.py:41-44 | without the required headers the result is empty; otherwise it has at most one question per row, all well formed |
| `QuestionBank.IdsComeFromTheFile` | app.py:63 | with the required headers present and rows as the reader makes them, every id is the row's 問題No cell (the numbered default is never used) |
| `Shuffling.SwapKeepsItems` | app.py:97 | swapping two items keeps the same multiset |
| `Shuffling.Shuffle` | app.py:97 | the shuffled list is a permutation (multiset-equal) of the input, for any random draws |
| `QuizRecords.FirstIndex` | app.py:177 | `choices.index(x)` is a position of x, and x does not occur before it |
| `QuizRecords.IsCorrect` | app.py:177-178 | `choices.index(choice) == correct_answer_index`; a correct answer is the text at the correct index; pinned down by `CorrectTextIsJudgedCorrect` and `EarlierDuplicateIsNeverCorrect` |
| `QuizRecords.DetailNamesChoices` | app.py:184-191 | the detail `process_answer` records (`Detail`) names the chosen and the correct text, both among the choices, and a detail judged correct has the chosen text equal to the correct text |
| `QuizRecords.CountCorrect` | app.py:180-181 | the number of correct answers is at most the number of answers |
| `QuizRecords.CountCorrectAppend` | app.py:180-181 | one more answer adds one to the correct count exactly when that answer is correct |
| `QuizRecords.FullScoreIffAllCorrect` | app.py:180-196 | the score equals the number of answers exactly when every recorded answer is correct |
| `QuizRecords.TranscriptExtends` | app.py:177-196 | recording the answer to the next question keeps the transcript matched to the questions and raises the correct count by 1 exactly when the answer is judged correct |
| `QuizRecords.CorrectTextIsJudgedCorrect` | app.py:177-178 | choosing the correct choice's text is judged correct when that text does not also stand at an earlier position |
| `QuizRecords.EarlierDuplicateIsNeverCorrect` | app.py:177-178 | when the correct choice's text also stands at an earlier position, no choice is judged correct |
| `QuizSession.Session.constructor` | app.py:10-26 | a new session holds the initial values, and the invariant holds |
| `QuizSession.Session.Finished` | app.py:127-133 | the quiz is finished exactly when every question has been answered |
| `QuizSession.Session.ResetQuizState` | app.py:107-116 | from any state, restores exactly the initial values that `initialize_session_state` gives |
| `QuizSession.Session.StartQuiz` | app.py:90-105 | on an empty bank the quiz stays not started and the state stays initial; otherwise the questions are a permutation of the loaded bank, the index, score and details are reset, the quiz is started and every feedback field is cleared |
| `QuizSession.Session.ProcessAnswer` | app.py:175-197 | the index goes up by exactly 1; the score goes up by 1 exactly when `choices.index(choice) == correct_answer_index`; exactly one detail is appended, with `correct_answer_text == choices[correct_answer_index]`; the feedback fields are set from the answered question and `show_feedback` becomes true |
| `QuizSession.Session.DisplayQuestion` | app.py:125-153 | when finished, shows the results and changes nothing; otherwise shows the current question with the pending feedback, if any, and clears the flag; nothing else changes |
| `QuizSession.Session.SubmitAnswer` | app.py:167-172 | with no choice selected the state is unchanged; with a choice it has the effect of `process_answer` |
| `QuizSession.ProgressBounds` | app.py:181-196 | in every valid session, score ≤ number of details == current index ≤ number of questions |
| `QuizSession.FeedbackShownOnce` | app.py:143-153 | after a page run shows a question, the next run shows the same question without feedback |
| `QuizSession.LastFeedbackNeverShown` | app.py:131-153 | answering the last question and then displaying shows the results screen, with the feedback for that answer still pending and never shown |
| `QuizSession.AnswerAllCorrectly` | app.py:175-197 | answering every question with its correct text, when no correct text repeats an earlier choice, finishes the quiz with full marks |

## Left out

- Rendering and widgets (`st.write`, `st.markdown`, `st.radio`, `st.form`, columns, page configuration) are not modelled. They are presentation, not state: app.py:119-124, 137-141, 155-165, 199-244. `display_results` and `main` have no state of their own. Their one effect here is which method is called: `StartQuiz` starts only from a not-started session, `DisplayQuestion` runs only once the quiz has started, finished or not (app.py:241-244), and `SubmitAnswer` only while a question is on screen. These conditions are preconditions in the model.
- `st.rerun()` (app.py:105, 197, 234) is not modelled. It only redraws the page.
- File reading and the CSV reader's tokenising are not modelled (app.py:39-40). They are I/O: the header and the already-split rows are parameters.
- The `FileNotFoundError` path, the generic error path and the `st.secrets` lookup (app.py:77-82) are not modelled. Each returns an empty list, unless the secrets lookup in the message at app.py:78 itself raises (as it can when no secrets file exists); that exception then escapes `load_questions_from_csv`.
- The generic handler at app.py:80-82 also catches errors that the reader raises while the row loop (app.py:46) asks for the next record, such as a UTF-8 decode error or a `csv.Error` in a later record. Such an error discards every question already kept and returns `[]`. The model takes the rows as already delivered, so it has no such error. Its row-by-row lemmas (`RejectedRowIsInvisible`, `AcceptedRowsAreKept`) hold only for files the reader reads to the end.
- An empty file (no header line) is not modelled faithfully. The CSV reader's `fieldnames` is then `None`, the header test raises, and the generic handler returns an empty list. The model reports it as missing headers, which also returns no questions.
- The `KeyError` and generic-exception handlers in the row loop (app.py:72-75) are not modelled because no input reaches them. `row[...]` is read only after `row.get(...)` found the key, and nothing else in the loop can raise.
- `@st.cache_data` (app.py:31) is not modelled. With no expiry, every `start_quiz` after the first gets the bank of the first read, so later edits to the CSV file are not seen. The model's `rows` are the rows of that cached read.
- Warning and error texts are not modelled. They become the `Diagnostic` values `MissingHeaders`, `SkippedRow(record, reason)` and `NoValidQuestions`.
- Python's full `int()` grammar is not modelled: surrounding whitespace, `_` separators and non-ASCII Unicode digits. Only an optional sign followed by ASCII digits is accepted.
- Decimal.ParseInt: does not model CPython's limit on the length of integer strings (4300 digits by default). Past that limit `int()` raises `ValueError`: the row is then skipped as not a number (app.py:70-71), while the model reads the value. A long numeral whose value is out of range is then skipped as out of range instead of as not a number. A long numeral padded with zeros, such as 4300 zeros followed by 1, is skipped by the source but kept by the model, with answer index 0.
- Shuffling.Shuffle: states only that the result is a permutation. The uniform distribution of `random.shuffle` is not modelled. The random source is the parameter `draw`, and each draw is reduced into the range `0..i` that the swap step needs.
- The accuracy percentage and its formatting (app.py:205-207) are not modelled, because they are floating point. Only `score ≤ number of questions` is stated (`ProgressBounds`).
- QuizSession.Session.ProcessAnswer: takes the question from the session (`questions[current_question_index]`) instead of as an argument, because that is what its only caller passes (app.py:135, 172).
- The per-key guard of `initialize_session_state` (app.py:11-26) is not modelled beyond the first call, the constructor. All eight keys are always set together, so later calls find each one present and change nothing.
