/**
 * The row parser of the survey logic builder (app.py lines 64-86): an
 * ordered sequence of spreadsheet rows, each a text and a mark, becomes
 * the ordered list of questions, each owning its ordered answers.
 */
module SurveyParser {
  import opened Decimal

  /** One spreadsheet row: `contents` (already stripped) and `qa_mark`. */
  datatype Row = Row(text: string, mark: int)

  datatype Answer = Answer(aid: string, text: string)

  datatype Question = Question(qid: string, text: string, answers: seq<Answer>)

  // ---------------------------------------------------------------------
  // Identifiers
  // ---------------------------------------------------------------------

  /** The id of the `n`-th question, `f"Q{n}"`. */
  function QuestionId(n: nat): string
  {
    "Q" + NatToString(n)
  }

  /** The id of the `k`-th answer of question `qid`, `f"{qid}A{k}"`. */
  function AnswerId(qid: string, k: nat): string
  {
    qid + "A" + NatToString(k)
  }

  /** A question id is 'Q' followed by one or more decimal digits. */
  lemma QuestionIdShape(n: nat)
    ensures var id := QuestionId(n);
      |id| >= 2 && id[0] == 'Q' && id[1..] == NatToString(n) && AllDigits(id[1..])
  {
    assert QuestionId(n)[1..] == NatToString(n);
  }

  /** An answer id is its question id, then 'A', then one or more decimal digits. */
  lemma AnswerIdShape(qid: string, k: nat)
    ensures var id := AnswerId(qid, k);
      && |id| > |qid| + 1 && id[..|qid|] == qid && id[|qid|] == 'A'
      && id[|qid| + 1..] == NatToString(k) && AllDigits(id[|qid| + 1..])
  {
    var id := AnswerId(qid, k);
    assert id[..|qid|] == qid;
    assert id[|qid| + 1..] == NatToString(k);
  }

  lemma QuestionIdInjective(m: nat, n: nat)
    requires QuestionId(m) == QuestionId(n)
    ensures m == n
  {
    assert QuestionId(m)[1..] == NatToString(m);
    assert QuestionId(n)[1..] == NatToString(n);
    NatToStringInjective(m, n);
  }

  /**
   * An answer id determines both its question number and its answer
   * number: no two answers anywhere in a document share an id.
   */
  lemma AnswerIdInjective(m: nat, j: nat, n: nat, k: nat)
    requires AnswerId(QuestionId(m), j) == AnswerId(QuestionId(n), k)
    ensures m == n && j == k
  {
    var x, y := QuestionId(m), QuestionId(n);
    var s := AnswerId(x, j);
    QuestionIdShape(m);
    QuestionIdShape(n);
    AnswerIdShape(x, j);
    AnswerIdShape(y, k);
    // The first 'A' of an answer id ends its question id, so both
    // question ids have the same length.
    if |x| != |y| {
      assert false;
    }
    assert x == s[..|x|] == y;
    QuestionIdInjective(m, n);
    assert s[|x| + 1..] == NatToString(j) == NatToString(k);
    NatToStringInjective(j, k);
  }

  /** Ids are made of 'Q', 'A' and digits only: no blank, newline or colon. */
  lemma AnswerIdIsPlain(m: nat, j: nat)
    ensures forall c :: c in AnswerId(QuestionId(m), j) ==> c == 'Q' || c == 'A' || IsDigit(c)
  {
    var x := QuestionId(m);
    var s := AnswerId(x, j);
    forall i | 0 <= i < |s| ensures s[i] == 'Q' || s[i] == 'A' || IsDigit(s[i]) {
      if 0 < i < |x| {
        assert s[i] == x[1..][i - 1];
      } else if i > |x| {
        assert s[i] == s[|x| + 1..][i - |x| - 1];
      }
    }
  }

  lemma QuestionIdIsPlain(n: nat)
    ensures forall c :: c in QuestionId(n) ==> c == 'Q' || IsDigit(c)
  {
    var s := QuestionId(n);
    forall i | 0 < i < |s| ensures IsDigit(s[i]) {
      assert s[i] == s[1..][i - 1];
    }
  }

  lemma QuestionIdHasNoColon(n: nat)
    ensures ':' !in QuestionId(n)
  {
    var id := QuestionId(n);
    forall i | 0 <= i < |id| ensures id[i] != ':' {
      if i > 0 { assert IsDigit(id[1..][i - 1]); }
    }
  }

  // ---------------------------------------------------------------------
  // The parse, as a fold over the rows
  // ---------------------------------------------------------------------

  /**
   * One iteration of the parse loop.  A mark-1 row opens question number
   * |qs| + 1 with no answers; any other row becomes the next answer of the
   * last question, or is dropped while there is no question yet.
   */
  function Step(qs: seq<Question>, r: Row): seq<Question>
  {
    if r.mark == 1 then qs + [Question(QuestionId(|qs| + 1), r.text, [])]
    else if qs == [] then qs
    else
      var q := qs[|qs| - 1];
      qs[|qs| - 1 := q.(answers := q.answers + [Answer(AnswerId(q.qid, |q.answers| + 1), r.text)])]
  }

  /** The questions built from `rows`, read from first to last. */
  function Parse(rows: seq<Row>): seq<Question>
  {
    if rows == [] then [] else Step(Parse(rows[..|rows| - 1]), rows[|rows| - 1])
  }

  // ---------------------------------------------------------------------
  // Reference description of the result, by counting rows
  // ---------------------------------------------------------------------

  /** The number of rows with mark 1. */
  function CountMarks(rows: seq<Row>): nat
  {
    if rows == [] then 0
    else CountMarks(rows[..|rows| - 1]) + (if rows[|rows| - 1].mark == 1 then 1 else 0)
  }

  /** The texts of the mark-1 rows, in row order. */
  function QuestionTexts(rows: seq<Row>): (ts: seq<string>)
    ensures |ts| == CountMarks(rows)
  {
    if rows == [] then []
    else
      QuestionTexts(rows[..|rows| - 1])
      + (if rows[|rows| - 1].mark == 1 then [rows[|rows| - 1].text] else [])
  }

  /**
   * The texts of the rows with a mark other than 1 that have exactly `n`
   * mark-1 rows before them, in row order.  For n >= 1 these are the rows
   * that follow the n-th question row and precede the next one.
   */
  function AnswerTexts(rows: seq<Row>, n: nat): seq<string>
  {
    if rows == [] then []
    else
      var init, r := rows[..|rows| - 1], rows[|rows| - 1];
      AnswerTexts(init, n) + (if r.mark != 1 && CountMarks(init) == n then [r.text] else [])
  }

  lemma {:induction false} NoAnswerTextsBeyondCount(rows: seq<Row>, n: nat)
    requires n > CountMarks(rows)
    ensures AnswerTexts(rows, n) == []
  {
    if rows != [] {
      NoAnswerTextsBeyondCount(rows[..|rows| - 1], n);
    }
  }

  /**
   * `q` is what the rows describe as question number n: it has id Q<n>,
   * the text of the n-th mark-1 row, and as answers the rows after that
   * row and before the next question row, numbered <qid>A1, <qid>A2, ...
   * without gaps.
   */
  ghost predicate DescribesQuestion(q: Question, rows: seq<Row>, n: nat)
    requires 1 <= n <= CountMarks(rows)
  {
    && q.qid == QuestionId(n)
    && q.text == QuestionTexts(rows)[n - 1]
    && |q.answers| == |AnswerTexts(rows, n)|
    && forall j :: 0 <= j < |q.answers| ==>
         q.answers[j] == Answer(AnswerId(QuestionId(n), j + 1), AnswerTexts(rows, n)[j])
  }

  /** `qs` holds, in row order, one described question per mark-1 row. */
  ghost predicate Describes(qs: seq<Question>, rows: seq<Row>)
  {
    && |qs| == CountMarks(rows)
    && forall i :: 0 <= i < |qs| ==> DescribesQuestion(qs[i], rows, i + 1)
  }

  lemma DescribesAfterQuestionRow(init: seq<Row>, r: Row, rows: seq<Row>)
    requires r.mark == 1 && rows == init + [r] && Describes(Parse(init), init)
    ensures Describes(Parse(rows), rows)
  {
    assert rows[..|rows| - 1] == init;
    var p, qs := Parse(init), Parse(rows);
    var m := |p|;
    NoAnswerTextsBeyondCount(init, m + 1);
    assert QuestionTexts(rows) == QuestionTexts(init) + [r.text];
    forall i | 0 <= i < |qs| ensures DescribesQuestion(qs[i], rows, i + 1) {
      assert AnswerTexts(rows, i + 1) == AnswerTexts(init, i + 1);
      if i < m {
        assert DescribesQuestion(p[i], init, i + 1);
      }
    }
  }

  lemma LastQuestionAfterAnswerRow(init: seq<Row>, r: Row, rows: seq<Row>, q: Question)
    requires r.mark != 1 && rows == init + [r]
    requires 1 <= CountMarks(init) && DescribesQuestion(q, init, CountMarks(init))
    ensures CountMarks(rows) == CountMarks(init)
    ensures DescribesQuestion(q.(answers := q.answers + [Answer(AnswerId(q.qid, |q.answers| + 1), r.text)]),
                              rows, CountMarks(init))
  {
    assert rows[..|rows| - 1] == init;
    var m := CountMarks(init);
    assert QuestionTexts(rows) == QuestionTexts(init);
    assert AnswerTexts(rows, m) == AnswerTexts(init, m) + [r.text];
  }

  lemma DescribesAfterAnswerRow(init: seq<Row>, r: Row, rows: seq<Row>)
    requires r.mark != 1 && rows == init + [r] && Describes(Parse(init), init)
    ensures Describes(Parse(rows), rows)
  {
    assert rows[..|rows| - 1] == init;
    var p, qs := Parse(init), Parse(rows);
    var m := |p|;
    if m > 0 {
      var q := p[m - 1];
      assert qs == p[m - 1 := q.(answers := q.answers + [Answer(AnswerId(q.qid, |q.answers| + 1), r.text)])];
      assert QuestionTexts(rows) == QuestionTexts(init);
      forall i | 0 <= i < |qs| ensures DescribesQuestion(qs[i], rows, i + 1) {
        assert DescribesQuestion(p[i], init, i + 1);
        if i + 1 == m {
          LastQuestionAfterAnswerRow(init, r, rows, q);
        } else {
          assert AnswerTexts(rows, i + 1) == AnswerTexts(init, i + 1);
        }
      }
    }
  }

  /** The parse produces exactly what the rows describe. */
  lemma {:induction false} ParseDescribes(rows: seq<Row>)
    ensures Describes(Parse(rows), rows)
  {
    if rows != [] {
      var init, r := rows[..|rows| - 1], rows[|rows| - 1];
      assert rows == init + [r];
      ParseDescribes(init);
      if r.mark == 1 {
        DescribesAfterQuestionRow(init, r, rows);
      } else {
        DescribesAfterAnswerRow(init, r, rows);
      }
    }
  }

  /** The number of questions is the number of mark-1 rows. */
  lemma QuestionCount(rows: seq<Row>)
    ensures |Parse(rows)| == CountMarks(rows)
  {
    ParseDescribes(rows);
  }

  /**
   * Question i (from 0) of `qs` has id Q<i+1>, and its answer j (from 0)
   * has id Q<i+1>A<j+1>.
   */
  ghost predicate NumberedIds(qs: seq<Question>) {
    && (forall i :: 0 <= i < |qs| ==> qs[i].qid == QuestionId(i + 1))
    && (forall i, j :: 0 <= i < |qs| && 0 <= j < |qs[i].answers| ==>
          qs[i].answers[j].aid == AnswerId(QuestionId(i + 1), j + 1))
  }

  /** The parse numbers questions and answers without gaps, from 1. */
  lemma ParsedNumberedIds(rows: seq<Row>)
    ensures NumberedIds(Parse(rows))
  {
    var qs := Parse(rows);
    ParseDescribes(rows);
    forall i | 0 <= i < |qs|
      ensures qs[i].qid == QuestionId(i + 1)
      ensures forall j :: 0 <= j < |qs[i].answers| ==> qs[i].answers[j].aid == AnswerId(QuestionId(i + 1), j + 1)
    {
      assert DescribesQuestion(qs[i], rows, i + 1);
    }
  }

  /** In a numbered list, distinct questions have distinct ids. */
  lemma NumberedQuestionIdsUnique(qs: seq<Question>, i: nat, i': nat)
    requires NumberedIds(qs) && i < |qs| && i' < |qs| && i != i'
    ensures qs[i].qid != qs[i'].qid
  {
    if qs[i].qid == qs[i'].qid {
      QuestionIdInjective(i + 1, i' + 1);
    }
  }

  /** In a numbered list, equal answer ids belong to the same answer. */
  lemma NumberedAnswerIdsUnique(qs: seq<Question>, i: nat, j: nat, i': nat, j': nat)
    requires NumberedIds(qs)
    requires i < |qs| && j < |qs[i].answers| && i' < |qs| && j' < |qs[i'].answers|
    requires qs[i].answers[j].aid == qs[i'].answers[j'].aid
    ensures i == i' && j == j'
  {
    AnswerIdInjective(i + 1, j + 1, i' + 1, j' + 1);
  }

  /** Distinct questions of a document have distinct ids. */
  lemma QuestionIdsUnique(rows: seq<Row>, i: nat, i': nat)
    requires i < |Parse(rows)| && i' < |Parse(rows)| && i != i'
    ensures Parse(rows)[i].qid != Parse(rows)[i'].qid
  {
    ParsedNumberedIds(rows);
    NumberedQuestionIdsUnique(Parse(rows), i, i');
  }

  /**
   * Answer ids are unique across the whole document: two answers with the
   * same id are the same answer of the same question.
   */
  lemma AnswerIdsUnique(rows: seq<Row>, i: nat, j: nat, i': nat, j': nat)
    requires i < |Parse(rows)| && j < |Parse(rows)[i].answers|
    requires i' < |Parse(rows)| && j' < |Parse(rows)[i'].answers|
    requires Parse(rows)[i].answers[j].aid == Parse(rows)[i'].answers[j'].aid
    ensures i == i' && j == j'
  {
    ParsedNumberedIds(rows);
    NumberedAnswerIdsUnique(Parse(rows), i, j, i', j');
  }

  // ---------------------------------------------------------------------
  // What one more row does
  // ---------------------------------------------------------------------

  /** A question row appends a fresh, answerless question with the next id. */
  lemma ParseQuestionRow(rows: seq<Row>, r: Row)
    requires r.mark == 1
    ensures Parse(rows + [r]) == Parse(rows) + [Question(QuestionId(|Parse(rows)| + 1), r.text, [])]
  {
    assert (rows + [r])[..|rows|] == rows;
  }

  /**
   * An answer row adds exactly one answer, numbered after the others, to
   * the last question; every other question is untouched.
   */
  lemma ParseAnswerRow(rows: seq<Row>, r: Row)
    requires r.mark != 1 && Parse(rows) != []
    ensures |Parse(rows + [r])| == |Parse(rows)|
    ensures forall i :: 0 <= i < |Parse(rows)| - 1 ==> Parse(rows + [r])[i] == Parse(rows)[i]
    ensures var q, q' := Parse(rows)[|Parse(rows)| - 1], Parse(rows + [r])[|Parse(rows)| - 1];
      && q'.qid == q.qid && q'.text == q.text
      && q'.answers == q.answers + [Answer(AnswerId(q.qid, |q.answers| + 1), r.text)]
  {
    assert (rows + [r])[..|rows|] == rows;
  }

  /** A row with a mark other than 1 before any question row is dropped. */
  lemma ParseOrphanRow(rows: seq<Row>, r: Row)
    requires r.mark != 1 && Parse(rows) == []
    ensures Parse(rows + [r]) == []
  {
    assert (rows + [r])[..|rows|] == rows;
  }

  lemma {:induction false} NoQuestionRowsParseEmpty(rows: seq<Row>)
    requires CountMarks(rows) == 0
    ensures Parse(rows) == []
  {
    if rows != [] {
      NoQuestionRowsParseEmpty(rows[..|rows| - 1]);
    }
  }

  /**
   * Rows that come before the first question row have no effect at all:
   * the document parses as if they were not there.
   */
  lemma {:induction false} LeadingAnswerRowsIgnored(prefix: seq<Row>, rest: seq<Row>)
    requires CountMarks(prefix) == 0
    ensures Parse(prefix + rest) == Parse(rest)
  {
    if rest == [] {
      assert prefix + rest == prefix;
      NoQuestionRowsParseEmpty(prefix);
    } else {
      var init := rest[..|rest| - 1];
      LeadingAnswerRowsIgnored(prefix, init);
      assert (prefix + rest)[..|prefix + rest| - 1] == prefix + init;
    }
  }

  // ---------------------------------------------------------------------
  // The parse loop
  // ---------------------------------------------------------------------

  /**
   * The loop of app.py: `q_counter` and `a_counter` count questions and
   * answers of the current question, `hasCurrent` is `current_q is not
   * None`, and the current question is the last one of `questions`.
   */
  method ParseRows(rows: seq<Row>) returns (questions: seq<Question>)
    ensures questions == Parse(rows)
    ensures Describes(questions, rows)
  {
    questions := [];
    var qCounter: nat := 0;
    var aCounter: nat := 0;
    var hasCurrent := false;
    for i := 0 to |rows|
      invariant questions == Parse(rows[..i])
      invariant qCounter == |questions|
      invariant hasCurrent <==> questions != []
      invariant hasCurrent ==> aCounter == |questions[|questions| - 1].answers|
      invariant hasCurrent ==> questions[|questions| - 1].qid == QuestionId(qCounter)
    {
      var row := rows[i];
      assert rows[..i + 1][..i] == rows[..i];
      if row.mark == 1 {
        qCounter := qCounter + 1;
        aCounter := 0;
        var qid := QuestionId(qCounter);
        questions := questions + [Question(qid, row.text, [])];
        hasCurrent := true;
      } else {
        if !hasCurrent {
          continue;
        }
        aCounter := aCounter + 1;
        var current := questions[|questions| - 1];
        var aid := AnswerId(current.qid, aCounter);
        questions := questions[|questions| - 1 := current.(answers := current.answers + [Answer(aid, row.text)])];
      }
    }
    assert rows[..|rows|] == rows;
    ParseDescribes(rows);
  }
}
