/**
 * The logic map and the logic exporter (app.py lines 106-130 and
 * 142-148): each answer's selected option is resolved into `logic_map`,
 * and the map is rendered as one `if <aid> then ...` line per answer
 * with a target, joined by newlines.
 */
module LogicExport {
  import opened Options
  import opened OrderedDict
  import opened Text
  import opened SurveyParser
  import opened JumpTarget

  // ---------------------------------------------------------------------
  // Building logic_map
  // ---------------------------------------------------------------------

  /**
   * The option an answer's dropdown holds: the operator's choice, or the
   * first option "" when none was made.
   */
  function Selection(sels: map<string, string>, aid: string): string
  {
    if aid in sels then sels[aid] else ""
  }

  /** The ids of one question's answers, in order. */
  function AnswerIdsOf(answers: seq<Answer>): (ids: seq<string>)
    ensures |ids| == |answers|
  {
    if answers == [] then []
    else AnswerIdsOf(answers[..|answers| - 1]) + [answers[|answers| - 1].aid]
  }

  lemma {:induction false} AnswerIdsOfAt(answers: seq<Answer>, j: nat)
    requires j < |answers|
    ensures AnswerIdsOf(answers)[j] == answers[j].aid
  {
    if j < |answers| - 1 {
      AnswerIdsOfAt(answers[..|answers| - 1], j);
    }
  }

  /** All answer ids, question by question, in document order. */
  function AnswerIds(qs: seq<Question>): seq<string>
  {
    if qs == [] then [] else AnswerIds(qs[..|qs| - 1]) + AnswerIdsOf(qs[|qs| - 1].answers)
  }

  /** The assignments `logic_map[aid] = <resolved selection>`, in order. */
  function LogicPairs(ids: seq<string>, sels: map<string, string>): (ps: seq<(string, Option<string>)>)
    ensures |ps| == |ids|
    ensures forall k :: 0 <= k < |ids| ==> ps[k] == (ids[k], Resolve(Selection(sels, ids[k])))
  {
    seq(|ids|, k requires 0 <= k < |ids| => (ids[k], Resolve(Selection(sels, ids[k]))))
  }

  /** `logic_map` after every answer of every question has been visited. */
  function LogicMap(qs: seq<Question>, sels: map<string, string>): Dict<string, Option<string>>
  {
    FromPairs(LogicPairs(AnswerIds(qs), sels))
  }

  lemma AnswerIdsSnoc(qs: seq<Question>, i: nat)
    requires i < |qs|
    ensures AnswerIds(qs[..i + 1]) == AnswerIds(qs[..i]) + AnswerIdsOf(qs[i].answers)
  {
    assert qs[..i + 1][..i] == qs[..i];
  }

  /** Assigning one more answer's resolution extends the assignments by one. */
  lemma RecordStep(logic: Dict<string, Option<string>>, visited: seq<string>, aid: string,
                   sels: map<string, string>)
    requires logic == FromPairs(LogicPairs(visited, sels))
    ensures Insert(logic, aid, Resolve(Selection(sels, aid))) == FromPairs(LogicPairs(visited + [aid], sels))
  {
    assert LogicPairs(visited + [aid], sels) == LogicPairs(visited, sels) + [(aid, Resolve(Selection(sels, aid)))];
    FromPairsSnoc(LogicPairs(visited, sels), aid, Resolve(Selection(sels, aid)));
  }

  lemma AnswerIdsOfSnoc(done: seq<string>, answers: seq<Answer>, j: nat)
    requires j < |answers|
    ensures done + AnswerIdsOf(answers[..j + 1]) == done + AnswerIdsOf(answers[..j]) + [answers[j].aid]
  {
    assert answers[..j + 1][..j] == answers[..j];
  }

  /**
   * The inner loop of app.py: one question's answers, each assigned the
   * resolution of its selection.  `done` names the ids already assigned.
   */
  method RecordAnswers(logic0: Dict<string, Option<string>>, answers: seq<Answer>,
                       sels: map<string, string>, ghost done: seq<string>)
    returns (logic: Dict<string, Option<string>>)
    requires logic0 == FromPairs(LogicPairs(done, sels))
    ensures logic == FromPairs(LogicPairs(done + AnswerIdsOf(answers), sels))
  {
    logic := logic0;
    assert done + AnswerIdsOf(answers[..0]) == done;
    for j := 0 to |answers|
      invariant logic == FromPairs(LogicPairs(done + AnswerIdsOf(answers[..j]), sels))
    {
      var aid := answers[j].aid;
      var sel := Selection(sels, aid);
      RecordStep(logic, done + AnswerIdsOf(answers[..j]), aid, sels);
      logic := Insert(logic, aid, Resolve(sel));
      AnswerIdsOfSnoc(done, answers, j);
    }
    assert answers[..|answers|] == answers;
  }

  /** The outer loop of app.py that fills `logic_map`, question by question. */
  method BuildLogicMap(questions: seq<Question>, sels: map<string, string>)
    returns (logic: Dict<string, Option<string>>)
    ensures logic == LogicMap(questions, sels)
  {
    logic := [];
    for i := 0 to |questions|
      invariant logic == FromPairs(LogicPairs(AnswerIds(questions[..i]), sels))
    {
      logic := RecordAnswers(logic, questions[i].answers, sels, AnswerIds(questions[..i]));
      AnswerIdsSnoc(questions, i);
    }
    assert questions[..|questions|] == questions;
  }

  lemma {:induction false} AnswerIdsFrom(qs: seq<Question>, k: nat)
    requires k < |AnswerIds(qs)|
    ensures exists i, j :: 0 <= i < |qs| && 0 <= j < |qs[i].answers| && AnswerIds(qs)[k] == qs[i].answers[j].aid
  {
    var init, last := qs[..|qs| - 1], qs[|qs| - 1];
    if k < |AnswerIds(init)| {
      AnswerIdsFrom(init, k);
      var i, j :| 0 <= i < |init| && 0 <= j < |init[i].answers| && AnswerIds(init)[k] == init[i].answers[j].aid;
      assert AnswerIds(qs)[k] == qs[i].answers[j].aid;
    } else {
      var j := k - |AnswerIds(init)|;
      AnswerIdsOfAt(last.answers, j);
      assert AnswerIds(qs)[k] == qs[|qs| - 1].answers[j].aid;
    }
  }

  /** No id occurs twice. */
  predicate AllDistinct(ids: seq<string>) {
    forall p, p' :: 0 <= p < p' < |ids| ==> ids[p] != ids[p']
  }

  /** No two answers of `qs`, in the same or different questions, share an id. */
  ghost predicate UniqueAnswerIds(qs: seq<Question>) {
    forall i, j, i', j' ::
      (0 <= i < |qs| && 0 <= j < |qs[i].answers| && 0 <= i' < |qs| && 0 <= j' < |qs[i'].answers|
       && qs[i].answers[j].aid == qs[i'].answers[j'].aid) ==> i == i' && j == j'
  }

  /** Answers with unique ids give an id list without repetitions. */
  lemma {:induction false} AnswerIdsDistinct(qs: seq<Question>)
    requires UniqueAnswerIds(qs)
    ensures AllDistinct(AnswerIds(qs))
  {
    if qs != [] {
      var init, last := qs[..|qs| - 1], qs[|qs| - 1];
      assert UniqueAnswerIds(init) by {
        forall i, j, i', j' |
          0 <= i < |init| && 0 <= j < |init[i].answers| && 0 <= i' < |init| && 0 <= j' < |init[i'].answers|
          && init[i].answers[j].aid == init[i'].answers[j'].aid
          ensures i == i' && j == j'
        {
          assert qs[i] == init[i] && qs[i'] == init[i'];
        }
      }
      AnswerIdsDistinct(init);
      var a, b := AnswerIds(init), AnswerIdsOf(last.answers);
      assert AnswerIds(qs) == a + b;
      forall p, p' | 0 <= p < p' < |a + b| ensures (a + b)[p] != (a + b)[p'] {
        if p' >= |a| {
          AnswerIdsOfAt(last.answers, p' - |a|);
          if p >= |a| {
            AnswerIdsOfAt(last.answers, p - |a|);
          } else {
            AnswerIdsFrom(init, p);
            var i, j :| 0 <= i < |init| && 0 <= j < |init[i].answers| && a[p] == init[i].answers[j].aid;
            assert qs[i] == init[i];
          }
        }
      }
    }
  }

  lemma NumberedUniqueAnswerIds(qs: seq<Question>)
    requires NumberedIds(qs)
    ensures UniqueAnswerIds(qs)
  {
    forall i, j, i', j' |
      0 <= i < |qs| && 0 <= j < |qs[i].answers| && 0 <= i' < |qs| && 0 <= j' < |qs[i'].answers|
      && qs[i].answers[j].aid == qs[i'].answers[j'].aid
      ensures i == i' && j == j'
    {
      NumberedAnswerIdsUnique(qs, i, j, i', j');
    }
  }

  /**
   * For a parsed document, `logic_map` holds exactly one entry per
   * answer, in document order, each with the resolution of that answer's
   * selection.
   */
  lemma LogicMapOfParsed(rows: seq<Row>, sels: map<string, string>)
    ensures LogicMap(Parse(rows), sels) == LogicPairs(AnswerIds(Parse(rows)), sels)
  {
    var qs := Parse(rows);
    ParsedNumberedIds(rows);
    NumberedUniqueAnswerIds(qs);
    AnswerIdsDistinct(qs);
    FromDistinctPairs(LogicPairs(AnswerIds(qs), sels));
  }

  // ---------------------------------------------------------------------
  // Rendering the export text
  // ---------------------------------------------------------------------

  /**
   * The line for one entry of `logic_map`: "END" means the survey ends,
   * no target or an empty one gives no line, any other target is shown.
   */
  function FormatLine(aid: string, tgt: Option<string>): Option<string>
  {
    if tgt == Some("END") then Some("if " + aid + " then end")
    else if tgt.Some? && tgt.value != "" then Some("if " + aid + " then show " + tgt.value)
    else None
  }

  /** The lines of the export, one per entry that has a line, in map order. */
  function ExportLines(logic: Dict<string, Option<string>>): seq<string>
  {
    if logic == [] then []
    else
      var init, e := logic[..|logic| - 1], logic[|logic| - 1];
      ExportLines(init) + (match FormatLine(e.0, e.1) case Some(l) => [l] case None => [])
  }

  /** The export loop of app.py and the final `"\n".join(lines)`. */
  method ExportLogic(logic: Dict<string, Option<string>>) returns (exportText: string)
    ensures exportText == Join(ExportLines(logic))
  {
    var lines: seq<string> := [];
    for k := 0 to |logic|
      invariant lines == ExportLines(logic[..k])
    {
      var (aid, tgt) := logic[k];
      assert logic[..k + 1][..k] == logic[..k];
      if tgt == Some("END") {
        lines := lines + ["if " + aid + " then end"];
      } else if tgt.Some? && tgt.value != "" {
        lines := lines + ["if " + aid + " then show " + tgt.value];
      }
    }
    assert logic[..|logic|] == logic;
    exportText := Join(lines);
  }

  // ---------------------------------------------------------------------
  // Reading the export back
  // ---------------------------------------------------------------------

  /** A rule of the exported logic. */
  datatype Rule = EndRule(aid: string) | ShowRule(aid: string, target: string)

  /** What an entry of `logic_map` asks for, if anything. */
  function RuleOf(aid: string, tgt: Option<string>): Option<Rule>
  {
    match tgt
    case None => None
    case Some(t) =>
      if t == "" then None else if t == "END" then Some(EndRule(aid)) else Some(ShowRule(aid, t))
  }

  /** The rules a logic map asks for, in map order. */
  function Rules(logic: Dict<string, Option<string>>): seq<Rule>
  {
    if logic == [] then []
    else
      var init, e := logic[..|logic| - 1], logic[|logic| - 1];
      Rules(init) + (match RuleOf(e.0, e.1) case Some(r) => [r] case None => [])
  }

  /**
   * Reads one line of the export grammar
   * `if <aid> then end` | `if <aid> then show <target>`.
   */
  function ReadLine(line: string): Option<Rule>
  {
    if |line| < 3 || line[..3] != "if " then None
    else
      var rest := line[3..];
      var aid := TakeUntil(rest, ' ');
      var tail := rest[|aid|..];
      if tail == " then end" then Some(EndRule(aid))
      else if |tail| > 11 && tail[..11] == " then show " then Some(ShowRule(aid, tail[11..]))
      else None
  }

  function ReadLines(lines: seq<string>): Option<seq<Rule>>
  {
    if lines == [] then Some([])
    else
      match (ReadLines(lines[..|lines| - 1]), ReadLine(lines[|lines| - 1]))
      case (Some(rs), Some(r)) => Some(rs + [r])
      case _ => None
  }

  /** Reads a whole export text; the empty text holds no rules. */
  function ReadExport(text: string): Option<seq<Rule>>
  {
    if text == "" then Some([]) else ReadLines(Split(text))
  }

  /**
   * An entry has a line exactly when it asks for a rule, and reading the
   * line gives that rule back.
   */
  lemma ReadFormattedLine(aid: string, tgt: Option<string>)
    requires ' ' !in aid
    ensures FormatLine(aid, tgt).Some? <==> RuleOf(aid, tgt).Some?
    ensures FormatLine(aid, tgt).Some? ==> ReadLine(FormatLine(aid, tgt).value) == RuleOf(aid, tgt)
  {
    if tgt.Some? && tgt.value != "" {
      var t := tgt.value;
      var line := FormatLine(aid, tgt).value;
      var tail := if t == "END" then " then end" else " then show " + t;
      assert line == "if " + aid + tail;
      assert line[3..] == aid + [' '] + tail[1..];
      TakeUntilDelimited(aid, ' ', tail[1..]);
      assert line[3..][|aid|..] == tail;
      if t != "END" {
        assert tail[..11] == " then show " && tail[11..] == t;
      }
    }
  }

  /** Entries whose ids have no blank and whose ids and targets have no newline. */
  ghost predicate Printable(logic: Dict<string, Option<string>>)
  {
    forall k :: 0 <= k < |logic| ==>
      ' ' !in logic[k].0 && '\n' !in logic[k].0 &&
      (logic[k].1.Some? ==> '\n' !in logic[k].1.value)
  }

  /** A line that has a rule, for an id and target fit for printing. */
  lemma FormattedLineShape(aid: string, tgt: Option<string>)
    requires FormatLine(aid, tgt).Some?
    requires '\n' !in aid && (tgt.Some? ==> '\n' !in tgt.value)
    ensures |FormatLine(aid, tgt).value| >= 3 && FormatLine(aid, tgt).value[..3] == "if "
    ensures '\n' !in FormatLine(aid, tgt).value
  {
  }

  /** Every exported line starts with "if " and holds no newline. */
  lemma {:induction false} ExportLinesShape(logic: Dict<string, Option<string>>)
    requires Printable(logic)
    ensures forall i :: 0 <= i < |ExportLines(logic)| ==>
      |ExportLines(logic)[i]| >= 3 && ExportLines(logic)[i][..3] == "if " && '\n' !in ExportLines(logic)[i]
  {
    if logic != [] {
      var init, e := logic[..|logic| - 1], logic[|logic| - 1];
      assert Printable(init);
      ExportLinesShape(init);
      if FormatLine(e.0, e.1).Some? {
        FormattedLineShape(e.0, e.1);
      }
    }
  }

  lemma ReadLinesSnoc(ls: seq<string>, l: string, rs: seq<Rule>, r: Rule)
    requires ReadLines(ls) == Some(rs) && ReadLine(l) == Some(r)
    ensures ReadLines(ls + [l]) == Some(rs + [r])
  {
    assert (ls + [l])[..|ls|] == ls;
  }

  /** Reading the exported lines one by one gives the rules of the map. */
  lemma {:induction false} ReadExportLines(logic: Dict<string, Option<string>>)
    requires Printable(logic)
    ensures ReadLines(ExportLines(logic)) == Some(Rules(logic))
  {
    if logic != [] {
      var init, e := logic[..|logic| - 1], logic[|logic| - 1];
      assert Printable(init);
      ReadExportLines(init);
      ReadFormattedLine(e.0, e.1);
      if FormatLine(e.0, e.1).Some? {
        var l, r := FormatLine(e.0, e.1).value, RuleOf(e.0, e.1).value;
        assert ExportLines(logic) == ExportLines(init) + [l];
        assert Rules(logic) == Rules(init) + [r];
        ReadLinesSnoc(ExportLines(init), l, Rules(init), r);
      } else {
        assert ExportLines(logic) == ExportLines(init);
        assert Rules(logic) == Rules(init);
      }
    }
  }

  /**
   * The export text determines the logic: reading it back yields exactly
   * the rules the map asks for, in map order, one per entry with a target.
   */
  lemma ExportRoundTrip(logic: Dict<string, Option<string>>)
    requires Printable(logic)
    ensures ReadExport(Join(ExportLines(logic))) == Some(Rules(logic))
  {
    var lines := ExportLines(logic);
    ReadExportLines(logic);
    ExportLinesShape(logic);
    if lines != [] {
      SplitJoin(lines);
      assert Join(lines) != "" by {
        if |lines| > 1 { assert Join(lines)[..|lines[0]|] == lines[0]; }
      }
    }
  }

  // ---------------------------------------------------------------------
  // A parsed document, end to end
  // ---------------------------------------------------------------------

  /** Every selection made is one of the options the dropdown offers. */
  ghost predicate FromDropdown(rows: seq<Row>, sels: map<string, string>)
  {
    forall aid :: aid in sels ==> sels[aid] in DropdownItems(Parse(rows))
  }

  /**
   * A selection from the dropdown resolves to no target, "END" or the id
   * of one of the document's own questions.
   */
  lemma SelectionTarget(rows: seq<Row>, sels: map<string, string>, aid: string)
    requires FromDropdown(rows, sels)
    ensures var t := Resolve(Selection(sels, aid));
      || t == None || t == Some("END")
      || exists i :: 0 <= i < |Parse(rows)| && t == Some(Parse(rows)[i].qid)
  {
    if aid in sels {
      var qs := Parse(rows);
      var items := DropdownItems(qs);
      var k :| 0 <= k < |items| && items[k] == sels[aid];
      ResolveDropdownOption(rows, k);
      if k >= 2 {
        DropdownOfParsed(rows);
        ParsedNumberedIds(rows);
        assert qs[k - 2].qid == QuestionId(k - 1);
        assert Resolve(Selection(sels, aid)) == Some(qs[k - 2].qid);
      }
    }
  }

  /** Every id in a parsed document's answer list has the form Q<m>A<j>. */
  lemma ParsedAnswerIdForm(rows: seq<Row>, k: nat) returns (m: nat, j: nat)
    requires k < |AnswerIds(Parse(rows))|
    ensures AnswerIds(Parse(rows))[k] == AnswerId(QuestionId(m), j)
  {
    var qs := Parse(rows);
    AnswerIdsFrom(qs, k);
    var i, j' :| 0 <= i < |qs| && 0 <= j' < |qs[i].answers| && AnswerIds(qs)[k] == qs[i].answers[j'].aid;
    ParsedNumberedIds(rows);
    m, j := i + 1, j' + 1;
  }

  lemma ParsedAnswerIdPlain(rows: seq<Row>, k: nat)
    requires k < |AnswerIds(Parse(rows))|
    ensures ' ' !in AnswerIds(Parse(rows))[k] && '\n' !in AnswerIds(Parse(rows))[k]
  {
    var m, j := ParsedAnswerIdForm(rows, k);
    AnswerIdIsPlain(m, j);
  }

  lemma DropdownTargetPlain(rows: seq<Row>, sels: map<string, string>, aid: string)
    requires FromDropdown(rows, sels)
    ensures Resolve(Selection(sels, aid)).Some? ==> '\n' !in Resolve(Selection(sels, aid)).value
  {
    SelectionTarget(rows, sels, aid);
    var t := Resolve(Selection(sels, aid));
    if t.Some? && t.value != "END" {
      var i :| 0 <= i < |Parse(rows)| && t == Some(Parse(rows)[i].qid);
      ParsedNumberedIds(rows);
      QuestionIdIsPlain(i + 1);
    }
  }

  lemma ParsedLogicPrintable(rows: seq<Row>, sels: map<string, string>)
    requires FromDropdown(rows, sels)
    ensures Printable(LogicPairs(AnswerIds(Parse(rows)), sels))
  {
    var ids := AnswerIds(Parse(rows));
    forall k | 0 <= k < |ids|
      ensures ' ' !in ids[k] && '\n' !in ids[k]
      ensures Resolve(Selection(sels, ids[k])).Some? ==> '\n' !in Resolve(Selection(sels, ids[k])).value
    {
      ParsedAnswerIdPlain(rows, k);
      DropdownTargetPlain(rows, sels, ids[k]);
    }
  }

  /**
   * For a parsed document and selections made in the dropdowns, the
   * export text reads back as one rule per answer with a non-blank
   * selection, in document order.
   */
  lemma ExportOfParsed(rows: seq<Row>, sels: map<string, string>)
    requires FromDropdown(rows, sels)
    ensures ReadExport(Join(ExportLines(LogicMap(Parse(rows), sels))))
      == Some(Rules(LogicPairs(AnswerIds(Parse(rows)), sels)))
  {
    LogicMapOfParsed(rows, sels);
    ParsedLogicPrintable(rows, sels);
    ExportRoundTrip(LogicPairs(AnswerIds(Parse(rows)), sels));
  }
}
