/**
 * The question-bank loader, `load_questions_from_csv` in app.py.
 *
 * The CSV file arrives already split by the CSV reader: a header (the column
 * names of the first line) and the data rows, each a map from column name to
 * cell. A cell is `None` where the reader fills in a field the record is too
 * short to have, and a column that the header lacks is absent from the map.
 *
 * `Rejection`, `Record`, `Bank` and `Skips` say what the loader computes;
 * `LoadQuestionsFromCsv` is the loader's loop, proved against them.
 */
module QuestionBank {
  import opened Wrappers
  import opened Decimal

  /** One CSV field as the reader hands it over. */
  type Cell = Option<string>

  /** One data row: column name to cell. */
  type Row = map<string, Cell>

  const ID_COLUMN := "問題No"
  const DIFFICULTY_COLUMN := "難易度"
  const TEXT_COLUMN := "問題"
  const CHOICE_COLUMNS := ["選択肢1", "選択肢2", "選択肢3", "選択肢4"]
  const ANSWER_COLUMN := "正解"
  const COMMENT_COLUMN := "コメント"
  const REQUIRED_HEADERS := [ID_COLUMN, DIFFICULTY_COLUMN, TEXT_COLUMN] + CHOICE_COLUMNS + [ANSWER_COLUMN]

  /** A loaded question, the dictionary appended at app.py:62-69. */
  datatype Question = Question(
    id: Cell,
    difficulty: Cell,
    questionText: Cell,
    choices: seq<string>,
    correctAnswerIndex: int,
    comment: Cell)

  /** Why a row was skipped: the three warnings of the row loop. */
  datatype Reason = BlankAnswer | NotANumber | OutOfRange

  /** What the loader reports besides the questions (its `st.error` and `st.warning` calls). */
  datatype Diagnostic =
    | MissingHeaders
    | SkippedRow(rowNumber: nat, reason: Reason)
    | NoValidQuestions

  /** What every question the loader keeps satisfies. */
  predicate WellFormed(q: Question) {
    && 1 <= |q.choices| <= 4
    && 0 <= q.correctAnswerIndex < |q.choices|
    && forall c :: c in q.choices ==> c != ""
  }

  /** `row.get(key, default)`. */
  function Lookup(row: Row, key: string, default: Cell): Cell {
    if key in row then row[key] else default
  }

  /** Python truthiness of a cell: neither `None` nor the empty string. */
  predicate NonBlank(c: Cell) {
    c.Some? && c.value != ""
  }

  /** `[row[c] for c in columns if row.get(c)]`. */
  function ChoicesFrom(row: Row, columns: seq<string>): (r: seq<string>)
    ensures |r| <= |columns|
    ensures forall x :: x in r ==> x != ""
  {
    if columns == [] then []
    else
      var cell := Lookup(row, columns[0], None);
      (if NonBlank(cell) then [cell.value] else []) + ChoicesFrom(row, columns[1..])
  }

  /** The choices of a row: its non-blank 選択肢1..4 cells, blanks dropped, order kept. */
  function Choices(row: Row): seq<string> {
    ChoicesFrom(row, CHOICE_COLUMNS)
  }

  /** Why the loop skips a row (the first check it fails), or None when it keeps it. */
  function Rejection(row: Row): (r: Option<Reason>)
    ensures r.None? ==> 1 <= |Choices(row)| <= 4
    ensures r.None? ==> NonBlank(Lookup(row, ANSWER_COLUMN, None)) && ParseInt(Lookup(row, ANSWER_COLUMN, None).value).Some?
  {
    var answer := Lookup(row, ANSWER_COLUMN, None);
    if !NonBlank(answer) then Some(BlankAnswer)
    else
      match ParseInt(answer.value)
      case None => Some(NotANumber)
      case Some(n) => if 0 <= n - 1 < |Choices(row)| then None else Some(OutOfRange)
  }

  /** The record built from an accepted row when `kept` questions are already in the list. */
  function Record(row: Row, kept: nat): (q: Question)
    requires Rejection(row).None?
    ensures WellFormed(q)
    ensures q.choices == Choices(row)
    ensures ParseInt(Lookup(row, ANSWER_COLUMN, None).value) == Some(q.correctAnswerIndex + 1)
    ensures COMMENT_COLUMN !in row ==> q.comment == Some("")
    ensures ID_COLUMN in row ==> q.id == row[ID_COLUMN]
  {
    var n := ParseInt(Lookup(row, ANSWER_COLUMN, None).value).value;
    Question(
      id := Lookup(row, ID_COLUMN, Some(IntToString(kept + 1))),
      difficulty := Lookup(row, DIFFICULTY_COLUMN, Some("N/A")),
      questionText := Lookup(row, TEXT_COLUMN, Some("問題文がありません")),
      choices := Choices(row),
      correctAnswerIndex := n - 1,
      comment := Lookup(row, COMMENT_COLUMN, Some("")))
  }

  /** The questions kept from `rows`, in order (the header already accepted). */
  function Bank(rows: seq<Row>): seq<Question>
    decreases |rows|
  {
    if rows == [] then []
    else
      var before := Bank(rows[..|rows| - 1]);
      var row := rows[|rows| - 1];
      if Rejection(row).None? then before + [Record(row, |before|)] else before
  }

  /** The skip warnings for `rows`; records are numbered from 2, as `enumerate(reader, 2)` counts them. */
  function Skips(rows: seq<Row>): seq<Diagnostic>
    decreases |rows|
  {
    if rows == [] then []
    else
      var before := Skips(rows[..|rows| - 1]);
      match Rejection(rows[|rows| - 1])
      case None => before
      case Some(reason) => before + [SkippedRow(|rows| + 1, reason)]
  }

  /** Every required header is among the header's column names. */
  predicate HasRequiredHeaders(header: seq<string>) {
    forall h :: h in REQUIRED_HEADERS ==> h in header
  }

  /** What the loader returns. */
  function LoadedBank(header: seq<string>, rows: seq<Row>): seq<Question> {
    if HasRequiredHeaders(header) then Bank(rows) else []
  }

  /** What the loader reports. */
  function LoadDiagnostics(header: seq<string>, rows: seq<Row>): seq<Diagnostic> {
    if !HasRequiredHeaders(header) then [MissingHeaders]
    else Skips(rows) + (if Bank(rows) == [] then [NoValidQuestions] else [])
  }

  /** The loader: header check, then one pass over the rows that skips bad rows and keeps going. */
  method LoadQuestionsFromCsv(header: seq<string>, rows: seq<Row>) returns (questions: seq<Question>, diagnostics: seq<Diagnostic>)
    ensures questions == LoadedBank(header, rows)
    ensures diagnostics == LoadDiagnostics(header, rows)
    ensures !HasRequiredHeaders(header) ==> questions == [] && diagnostics == [MissingHeaders]
  {
    questions := [];
    if !(forall h | h in REQUIRED_HEADERS :: h in header) {
      diagnostics := [MissingHeaders];
      return;
    }
    diagnostics := [];
    var i := 0;
    while i < |rows|
      invariant 0 <= i <= |rows|
      invariant questions == Bank(rows[..i])
      invariant diagnostics == Skips(rows[..i])
    {
      assert rows[..i + 1][..i] == rows[..i];
      var row := rows[i];
      var rowNumber := i + 2;
      var choices := Choices(row);
      var answer := Lookup(row, ANSWER_COLUMN, None);
      if !NonBlank(answer) {
        diagnostics := diagnostics + [SkippedRow(rowNumber, BlankAnswer)];
      } else {
        var parsed := ParseInt(answer.value);
        if parsed.None? {
          diagnostics := diagnostics + [SkippedRow(rowNumber, NotANumber)];
        } else {
          var correctIndex := parsed.value - 1;
          if !(0 <= correctIndex < |choices|) {
            diagnostics := diagnostics + [SkippedRow(rowNumber, OutOfRange)];
          } else {
            questions := questions + [Question(
              id := Lookup(row, ID_COLUMN, Some(IntToString(|questions| + 1))),
              difficulty := Lookup(row, DIFFICULTY_COLUMN, Some("N/A")),
              questionText := Lookup(row, TEXT_COLUMN, Some("問題文がありません")),
              choices := choices,
              correctAnswerIndex := correctIndex,
              comment := Lookup(row, COMMENT_COLUMN, Some("")))];
          }
        }
      }
      i := i + 1;
    }
    assert rows[..|rows|] == rows;
    if questions == [] {
      diagnostics := diagnostics + [NoValidQuestions];
    }
  }

  // ---------------------------------------------------------------------------
  // Choices

  /** The comprehension distributes over the columns: each column contributes its own cell or nothing. */
  lemma {:induction false} ChoicesFromSplit(row: Row, a: seq<string>, b: seq<string>)
    ensures ChoicesFrom(row, a + b) == ChoicesFrom(row, a) + ChoicesFrom(row, b)
    decreases |a|
  {
    if a != [] {
      var cell := Lookup(row, a[0], None);
      var head := if NonBlank(cell) then [cell.value] else [];
      assert (a + b)[0] == a[0];
      assert (a + b)[1..] == a[1..] + b;
      ChoicesFromSplit(row, a[1..], b);
      assert ChoicesFrom(row, a + b) == head + ChoicesFrom(row, a[1..] + b);
      assert ChoicesFrom(row, a) == head + ChoicesFrom(row, a[1..]);
    } else {
      assert a + b == b;
    }
  }

  /** A choice fills the first free slot: if 選択肢2 is blank, 選択肢3 becomes choice number 2 (index 1). */
  lemma BlankChoiceCompacts(row: Row)
    requires NonBlank(Lookup(row, CHOICE_COLUMNS[0], None))
    requires !NonBlank(Lookup(row, CHOICE_COLUMNS[1], None))
    requires NonBlank(Lookup(row, CHOICE_COLUMNS[2], None))
    ensures |Choices(row)| >= 2
    ensures Choices(row)[0] == Lookup(row, CHOICE_COLUMNS[0], None).value
    ensures Choices(row)[1] == Lookup(row, CHOICE_COLUMNS[2], None).value
  {
    assert CHOICE_COLUMNS == [CHOICE_COLUMNS[0]] + [CHOICE_COLUMNS[1]] + ([CHOICE_COLUMNS[2]] + [CHOICE_COLUMNS[3]]);
    ChoicesFromSplit(row, [CHOICE_COLUMNS[0]] + [CHOICE_COLUMNS[1]], [CHOICE_COLUMNS[2]] + [CHOICE_COLUMNS[3]]);
    ChoicesFromSplit(row, [CHOICE_COLUMNS[0]], [CHOICE_COLUMNS[1]]);
    ChoicesFromSplit(row, [CHOICE_COLUMNS[2]], [CHOICE_COLUMNS[3]]);
  }

  /** A row with all four choices filled in has exactly those four, in column order. */
  lemma FullRowKeepsAllChoices(row: Row)
    requires forall k :: 0 <= k < 4 ==> NonBlank(Lookup(row, CHOICE_COLUMNS[k], None))
    ensures |Choices(row)| == 4
    ensures forall k :: 0 <= k < 4 ==> Some(Choices(row)[k]) == Lookup(row, CHOICE_COLUMNS[k], None)
  {
    var cols := CHOICE_COLUMNS;
    assert NonBlank(Lookup(row, cols[0], None)) && NonBlank(Lookup(row, cols[1], None));
    assert NonBlank(Lookup(row, cols[2], None)) && NonBlank(Lookup(row, cols[3], None));
    assert cols == [cols[0]] + [cols[1]] + ([cols[2]] + [cols[3]]);
    ChoicesFromSplit(row, [cols[0]] + [cols[1]], [cols[2]] + [cols[3]]);
    ChoicesFromSplit(row, [cols[0]], [cols[1]]);
    ChoicesFromSplit(row, [cols[2]], [cols[3]]);
  }

  /** A row with no choice at all is always skipped: no answer number is in range. */
  lemma NoChoicesRejected(row: Row)
    requires forall k :: 0 <= k < 4 ==> !NonBlank(Lookup(row, CHOICE_COLUMNS[k], None))
    ensures Rejection(row).Some?
  {
    var cols := CHOICE_COLUMNS;
    assert !NonBlank(Lookup(row, cols[0], None)) && !NonBlank(Lookup(row, cols[1], None));
    assert !NonBlank(Lookup(row, cols[2], None)) && !NonBlank(Lookup(row, cols[3], None));
    assert cols == [cols[0]] + [cols[1]] + ([cols[2]] + [cols[3]]);
    ChoicesFromSplit(row, [cols[0]] + [cols[1]], [cols[2]] + [cols[3]]);
    ChoicesFromSplit(row, [cols[0]], [cols[1]]);
    ChoicesFromSplit(row, [cols[2]], [cols[3]]);
  }

  // ---------------------------------------------------------------------------
  // Rows

  /** A row with four choices and an answer numeral n in 1..4 is kept, with answer index n - 1. */
  lemma FourChoiceRowKept(row: Row, n: int, kept: nat)
    requires forall k :: 0 <= k < 4 ==> NonBlank(Lookup(row, CHOICE_COLUMNS[k], None))
    requires NonBlank(Lookup(row, ANSWER_COLUMN, None)) && ParseInt(Lookup(row, ANSWER_COLUMN, None).value) == Some(n)
    requires 1 <= n <= 4
    ensures Rejection(row).None?
    ensures Record(row, kept).correctAnswerIndex == n - 1
    ensures |Record(row, kept).choices| == 4
  {
    FullRowKeepsAllChoices(row);
  }

  /** An answer numeral outside 1..(number of choices) makes the row skipped as out of range. */
  lemma OutOfRangeAnswerSkipped(row: Row, n: int)
    requires NonBlank(Lookup(row, ANSWER_COLUMN, None)) && ParseInt(Lookup(row, ANSWER_COLUMN, None).value) == Some(n)
    requires !(1 <= n <= |Choices(row)|)
    ensures Rejection(row) == Some(OutOfRange)
  {
  }

  // ---------------------------------------------------------------------------
  // The bank

  /** Every kept question is well formed: 1 to 4 non-empty choices and an answer index among them. */
  lemma {:induction false} BankWellFormed(rows: seq<Row>)
    ensures forall q :: q in Bank(rows) ==> WellFormed(q)
    decreases |rows|
  {
    if rows != [] {
      BankWellFormed(rows[..|rows| - 1]);
    }
  }

  /** Every row yields exactly one question or one skip warning. */
  lemma {:induction false} BankAndSkipsPartitionRows(rows: seq<Row>)
    ensures |Bank(rows)| + |Skips(rows)| == |rows|
    decreases |rows|
  {
    if rows != [] {
      BankAndSkipsPartitionRows(rows[..|rows| - 1]);
    }
  }

  /** The indices of the rows that are kept: increasing, in range, each an accepted row, one per question. */
  function KeptRows(rows: seq<Row>): (kept: seq<nat>)
    ensures |kept| == |Bank(rows)|
    ensures forall k :: 0 <= k < |kept| ==> kept[k] < |rows| && Rejection(rows[kept[k]]).None?
    ensures forall k, l :: 0 <= k < l < |kept| ==> kept[k] < kept[l]
    decreases |rows|
  {
    if rows == [] then []
    else
      var before := KeptRows(rows[..|rows| - 1]);
      if Rejection(rows[|rows| - 1]).None? then before + [|rows| - 1] else before
  }

  /** The k-th question of the bank is the record of the k-th kept row. */
  lemma {:induction false} BankFollowsRows(rows: seq<Row>)
    ensures forall k :: 0 <= k < |KeptRows(rows)| ==> Bank(rows)[k] == Record(rows[KeptRows(rows)[k]], k)
    decreases |rows|
  {
    if rows != [] {
      var init := rows[..|rows| - 1];
      BankFollowsRows(init);
      assert forall j :: 0 <= j < |init| ==> init[j] == rows[j];
    }
  }

  /** Every accepted row is kept, whatever rows precede it. */
  lemma {:induction false} AcceptedRowsAreKept(rows: seq<Row>)
    ensures forall j :: 0 <= j < |rows| && Rejection(rows[j]).None? ==> j in KeptRows(rows)
    decreases |rows|
  {
    if rows != [] {
      var init := rows[..|rows| - 1];
      AcceptedRowsAreKept(init);
      assert forall j :: 0 <= j < |init| ==> init[j] == rows[j];
    }
  }

  /** A skip warning carries the record number (counted from 2) of a rejected row and its reason, and every rejected row has one. */
  lemma {:induction false} SkipsFollowRows(rows: seq<Row>)
    ensures forall d :: d in Skips(rows) ==>
      d.SkippedRow? && 2 <= d.rowNumber < |rows| + 2 && Rejection(rows[d.rowNumber - 2]) == Some(d.reason)
    ensures forall j :: 0 <= j < |rows| && Rejection(rows[j]).Some? ==>
      SkippedRow(j + 2, Rejection(rows[j]).value) in Skips(rows)
    decreases |rows|
  {
    if rows != [] {
      var init := rows[..|rows| - 1];
      SkipsFollowRows(init);
      assert forall j :: 0 <= j < |init| ==> init[j] == rows[j];
    }
  }

  /** Rows that the loader rejects are exactly notes in the log; dropping them leaves the bank as it was. */
  lemma {:induction false} RejectedRowIsInvisible(before: seq<Row>, bad: Row, after: seq<Row>)
    requires Rejection(bad).Some?
    ensures Bank(before + [bad] + after) == Bank(before + after)
    decreases |after|
  {
    if after == [] {
      assert (before + [bad] + after)[..|before + [bad] + after| - 1] == before;
      assert before + after == before;
    } else {
      var last := after[|after| - 1];
      var init := after[..|after| - 1];
      RejectedRowIsInvisible(before, bad, init);
      assert (before + [bad] + after)[..|before + [bad] + after| - 1] == before + [bad] + init;
      assert (before + after)[..|before + after| - 1] == before + init;
    }
  }

  /** With no コメント column, every kept question carries the empty comment. */
  lemma {:induction false} CommentDefaultsToEmpty(rows: seq<Row>)
    requires forall j :: 0 <= j < |rows| ==> COMMENT_COLUMN !in rows[j]
    ensures forall q :: q in Bank(rows) ==> q.comment == Some("")
    decreases |rows|
  {
    if rows != [] {
      var init := rows[..|rows| - 1];
      assert forall j :: 0 <= j < |init| ==> init[j] == rows[j];
      CommentDefaultsToEmpty(init);
    }
  }

  /** The loader's result: empty without the required headers, else the well-formed bank, at most one question per row. */
  lemma LoadedBankProperties(header: seq<string>, rows: seq<Row>)
    ensures !HasRequiredHeaders(header) ==> LoadedBank(header, rows) == []
    ensures |LoadedBank(header, rows)| <= |rows|
    ensures forall q :: q in LoadedBank(header, rows) ==> WellFormed(q)
  {
    BankWellFormed(rows);
    BankAndSkipsPartitionRows(rows);
  }

  /** The CSV reader gives every row a cell for every header column. */
  predicate FitsHeader(header: seq<string>, row: Row) {
    forall h :: h in header ==> h in row
  }

  /**
   * With the required headers present and rows as the reader makes them,
   * every kept question's id is the 問題No cell of its row: the numbered
   * default id is never used.
   */
  lemma IdsComeFromTheFile(header: seq<string>, rows: seq<Row>)
    requires HasRequiredHeaders(header)
    requires forall j :: 0 <= j < |rows| ==> FitsHeader(header, rows[j])
    ensures |KeptRows(rows)| == |Bank(rows)|
    ensures forall k :: 0 <= k < |Bank(rows)| ==>
      KeptRows(rows)[k] < |rows| && ID_COLUMN in rows[KeptRows(rows)[k]] &&
      Bank(rows)[k].id == rows[KeptRows(rows)[k]][ID_COLUMN]
  {
    BankFollowsRows(rows);
    assert ID_COLUMN in REQUIRED_HEADERS;
  }
}
