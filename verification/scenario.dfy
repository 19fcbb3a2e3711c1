/**
 * A worked survey: two questions, three answers, and one selection of
 * each kind (End, a question, blank).
 */
module Scenario {
  import opened Options
  import opened Text
  import opened SurveyParser
  import opened JumpTarget
  import opened OrderedDict
  import opened LogicExport

  const Rows: seq<Row> :=
    [Row("Fav color?", 1), Row("Red", 0), Row("Blue", 0), Row("Fav animal?", 1), Row("Cat", 0)]

  const Q1 := Question("Q1", "Fav color?", [Answer("Q1A1", "Red"), Answer("Q1A2", "Blue")])
  const Q2 := Question("Q2", "Fav animal?", [Answer("Q2A1", "Cat")])

  /** Q1A1 chooses "End", Q1A2 chooses question 2, Q2A1 stays blank. */
  const Selections := map["Q1A1" := "End", "Q1A2" := "Q2: Fav animal?", "Q2A1" := ""]

  lemma ColorAnimalIds()
    ensures QuestionId(1) == "Q1" && QuestionId(2) == "Q2"
    ensures AnswerId("Q1", 1) == "Q1A1" && AnswerId("Q1", 2) == "Q1A2" && AnswerId("Q2", 1) == "Q2A1"
  {
  }

  lemma ColorAnimalPrefix1()
    ensures Parse(Rows[..1]) == [Question("Q1", "Fav color?", [])]
  {
    ColorAnimalIds();
    ParseQuestionRow([], Rows[0]);
    assert [] + [Rows[0]] == Rows[..1];
  }

  lemma ColorAnimalPrefix2()
    ensures Parse(Rows[..2]) == [Question("Q1", "Fav color?", [Answer("Q1A1", "Red")])]
  {
    ColorAnimalIds();
    ColorAnimalPrefix1();
    ParseAnswerRow(Rows[..1], Rows[1]);
    assert Rows[..1] + [Rows[1]] == Rows[..2];
    assert [] + [Answer("Q1A1", "Red")] == [Answer("Q1A1", "Red")];
  }

  lemma ColorAnimalPrefix3()
    ensures Parse(Rows[..3]) == [Q1]
  {
    ColorAnimalIds();
    ColorAnimalPrefix2();
    ParseAnswerRow(Rows[..2], Rows[2]);
    assert Rows[..2] + [Rows[2]] == Rows[..3];
    assert [Answer("Q1A1", "Red")] + [Answer("Q1A2", "Blue")] == Q1.answers;
  }

  lemma ColorAnimalPrefix4()
    ensures Parse(Rows[..4]) == [Q1, Question("Q2", "Fav animal?", [])]
  {
    ColorAnimalIds();
    ColorAnimalPrefix3();
    ParseQuestionRow(Rows[..3], Rows[3]);
    assert Rows[..3] + [Rows[3]] == Rows[..4];
  }

  /** The worked survey parses into two questions with ids Q1, Q2 and answers Q1A1, Q1A2, Q2A1. */
  lemma ColorAnimalQuestions()
    ensures Parse(Rows) == [Q1, Q2]
  {
    ColorAnimalIds();
    ColorAnimalPrefix4();
    ParseAnswerRow(Rows[..4], Rows[4]);
    assert Rows[..4] + [Rows[4]] == Rows;
    assert [] + [Answer("Q2A1", "Cat")] == Q2.answers;
  }

  lemma ColorAnimalAnswerIds()
    ensures AnswerIds([Q1, Q2]) == ["Q1A1", "Q1A2", "Q2A1"]
  {
    assert Q1.answers[..1] == [Answer("Q1A1", "Red")];
    assert Q1.answers[..1][..0] == [];
    assert AnswerIdsOf(Q1.answers[..1]) == ["Q1A1"];
    assert AnswerIdsOf(Q1.answers) == ["Q1A1", "Q1A2"];
    assert Q2.answers[..0] == [];
    assert AnswerIdsOf(Q2.answers) == ["Q2A1"];
    assert [Q1, Q2][..1] == [Q1];
    assert [Q1, Q2][..1][..0] == [];
    assert AnswerIds([Q1]) == ["Q1A1", "Q1A2"];
  }

  /** How each of the three selections resolves. */
  lemma ColorAnimalResolutions()
    ensures Resolve(Selection(Selections, "Q1A1")) == Some("END")
    ensures Resolve(Selection(Selections, "Q1A2")) == Some("Q2")
    ensures Resolve(Selection(Selections, "Q2A1")) == None
  {
    assert Selection(Selections, "Q1A2") == Label(Q2);
    QuestionIdHasNoColon(2);
    ColorAnimalIds();
    ResolveLabel(Q2);
  }

  lemma ColorAnimalLogic()
    ensures LogicMap(Parse(Rows), Selections) == Logic
  {
    ColorAnimalQuestions();
    ColorAnimalAnswerIds();
    ColorAnimalResolutions();
    LogicMapOfParsed(Rows, Selections);
    var ps := LogicPairs(AnswerIds([Q1, Q2]), Selections);
    assert ps[0] == Logic[0] && ps[1] == Logic[1] && ps[2] == Logic[2];
  }

  const Logic: Dict<string, Option<string>> := [("Q1A1", Some("END")), ("Q1A2", Some("Q2")), ("Q2A1", None)]

  lemma ColorAnimalLines()
    ensures ExportLines(Logic) == ["if Q1A1 then end", "if Q1A2 then show Q2"]
  {
    assert "if " + "Q1A1" + " then end" == "if Q1A1 then end";
    assert FormatLine("Q1A1", Some("END")) == Some("if Q1A1 then end");
    assert Some("Q2") != Some("END");
    assert "if " + "Q1A2" + " then show " + "Q2" == "if Q1A2 then show Q2";
    assert FormatLine("Q1A2", Some("Q2")) == Some("if Q1A2 then show Q2");
    assert Logic[..1] == [("Q1A1", Some("END"))];
    assert Logic[..1][..0] == [];
    assert ExportLines(Logic[..1]) == ["if Q1A1 then end"];
    assert Logic[..2][..1] == Logic[..1];
    assert ExportLines(Logic[..2]) == ["if Q1A1 then end", "if Q1A2 then show Q2"];
    assert Logic[..2] == Logic[..|Logic| - 1];
  }

  /** The export is exactly the two lines for the two non-blank selections. */
  lemma ColorAnimalExport()
    ensures Join(ExportLines(LogicMap(Parse(Rows), Selections))) == "if Q1A1 then end" + "\n" + "if Q1A2 then show Q2"
  {
    ColorAnimalLogic();
    ColorAnimalLines();
    var lines := ["if Q1A1 then end", "if Q1A2 then show Q2"];
    assert lines[1..] == ["if Q1A2 then show Q2"];
  }
}
