/**
 * The jump-target selector (app.py lines 88-96 and 123-130): every
 * question gets a display label, every answer a dropdown over "" (no
 * jump), "End" and the labels, and the chosen option is resolved to no
 * target, "END" or the bare question id.
 */
module JumpTarget {
  import opened Options
  import opened OrderedDict
  import opened SurveyParser
  import opened Text

  /** The display label of a question, `f"{qid}: {text}"`. */
  function Label(q: Question): string
  {
    q.qid + ": " + q.text
  }

  function LabelPairs(qs: seq<Question>): (ps: seq<(string, string)>)
    ensures |ps| == |qs|
    ensures forall i :: 0 <= i < |qs| ==> ps[i] == (qs[i].qid, Label(qs[i]))
  {
    seq(|qs|, i requires 0 <= i < |qs| => (qs[i].qid, Label(qs[i])))
  }

  /** `question_display_map`: question id to label, one assignment per question. */
  function DisplayMap(qs: seq<Question>): Dict<string, string>
  {
    FromPairs(LabelPairs(qs))
  }

  /** `dropdown_items`: "", "End", then the values of the display map. */
  function DropdownItems(qs: seq<Question>): seq<string>
  {
    ["", "End"] + Values(DisplayMap(qs))
  }

  /**
   * The stored target of a chosen option: None for "", "END" for "End",
   * otherwise the text before the first colon.
   */
  function Resolve(sel: string): Option<string>
  {
    if sel == "" then None
    else if sel == "End" then Some("END")
    else Some(TakeUntil(sel, ':'))
  }

  /**
   * Resolving a question's own label gives back exactly its id, whatever
   * its text holds (colons included), provided the id has no colon.
   */
  lemma ResolveLabel(q: Question)
    requires ':' !in q.qid
    ensures Resolve(Label(q)) == Some(q.qid)
  {
    assert Label(q) == q.qid + [':'] + (" " + q.text);
    TakeUntilDelimited(q.qid, ':', " " + q.text);
  }

  /** In a numbered list no two questions share a key of the display map. */
  lemma NumberedLabelKeysDistinct(qs: seq<Question>)
    requires NumberedIds(qs)
    ensures DistinctKeys(LabelPairs(qs))
  {
    var ps := LabelPairs(qs);
    forall i, j | 0 <= i < j < |ps| ensures ps[i].0 != ps[j].0 {
      NumberedQuestionIdsUnique(qs, i, j);
    }
  }

  /**
   * With distinct question ids the option list is "", "End", then one
   * label per question in order, so it has two more options than there
   * are questions.
   */
  lemma DropdownOfDistinct(qs: seq<Question>)
    requires DistinctKeys(LabelPairs(qs))
    ensures var items := DropdownItems(qs);
      && |items| == 2 + |qs|
      && items[0] == "" && items[1] == "End"
      && forall i :: 0 <= i < |qs| ==> items[i + 2] == Label(qs[i])
  {
    FromDistinctPairs(LabelPairs(qs));
  }

  /** The dropdown of a parsed document: "", "End", then every question's label in document order. */
  lemma DropdownOfParsed(rows: seq<Row>)
    ensures var qs, items := Parse(rows), DropdownItems(Parse(rows));
      && |items| == 2 + |qs|
      && items[0] == "" && items[1] == "End"
      && forall i :: 0 <= i < |qs| ==> items[i + 2] == Label(qs[i])
  {
    ParsedNumberedIds(rows);
    NumberedLabelKeysDistinct(Parse(rows));
    DropdownOfDistinct(Parse(rows));
  }

  /**
   * With questions numbered Q1, Q2, ..., option 0 resolves to no target,
   * option 1 to "END", and option k >= 2 to the id of question k - 1.
   */
  lemma ResolveNumberedOption(qs: seq<Question>, k: nat)
    requires NumberedIds(qs) && k < |DropdownItems(qs)|
    ensures Resolve(DropdownItems(qs)[k]) ==
      if k == 0 then None else if k == 1 then Some("END") else Some(QuestionId(k - 1))
  {
    NumberedLabelKeysDistinct(qs);
    DropdownOfDistinct(qs);
    if k >= 2 {
      QuestionIdHasNoColon(k - 1);
      ResolveLabel(qs[k - 2]);
    }
  }

  /**
   * Every option of a parsed document's dropdown resolves to a valid
   * target: the first to none, the second to "END", and option k >= 2 to
   * the id of question k - 1.
   */
  lemma ResolveDropdownOption(rows: seq<Row>, k: nat)
    requires k < |DropdownItems(Parse(rows))|
    ensures Resolve(DropdownItems(Parse(rows))[k]) ==
      if k == 0 then None else if k == 1 then Some("END") else Some(QuestionId(k - 1))
  {
    ParsedNumberedIds(rows);
    ResolveNumberedOption(Parse(rows), k);
  }
}
