# Survey logic builder — a Dafny model

The survey logic helper turns a survey-structure spreadsheet into
conditional-logic rules. The spreadsheet is an ordered list of rows, each
with a text (`contents`) and an integer marker (`qa_mark`):

- a row marked 1 opens a new question with id `Q1`, `Q2`, …;
- any other row becomes the next answer of the latest question, with id
  `<qid>A1`, `<qid>A2`, …;
- such a row is dropped when no question has been opened yet.

Each answer then gets a dropdown. Its options are "" (no jump), "End", and
one `"<qid>: <text>"` label per question. The chosen option is resolved
into the logic map:

- "" becomes no target;
- "End" becomes `"END"`;
- a label becomes the text before its first colon, which is the question id.

The export writes one line per answer that has a target, `if <aid> then end`
or `if <aid> then show <qid>`, and joins the lines with newlines.

The project has seven modules:

- `Decimal` (decimal.dfy): the decimal rendering of counters. Reading a
  rendering back gives the counter, so ids built from different counters differ.
- `Options` and `OrderedDict` (ordered_dict.dfy): Python's `dict` as a
  sequence of entries in iteration order. Assigning to a present key keeps
  its place; assigning to a new key appends it. `Get` reads the value
  stored under a key; it only states what an assignment does, since the
  builder never looks a key up.
- `SurveyParser` (parser.dfy): the parse loop as a method with the
  source's counters. It is proved equal to a fold over the rows, `Parse`.
  `Parse` in turn is proved to match a row-counting description,
  `Describes`.
- `Text` (text.dfy): `s.split(c)[0]`, `"\n".join`, and `split("\n")` as
  the inverse of the join.
- `JumpTarget` (selector.dfy): the display labels, the dropdown, and the
  resolution of a chosen option.
- `LogicExport` (export.dfy): the loops that fill `logic_map` and that
  render the export. It also has a reader for the export grammar, which
  recovers the rules from the text.
- `Scenario` (scenario.dfy): the five-row example survey, worked end to end.

The code does not validate marker values: every marker other than 1 is an
answer, so `Row.mark` is any integer.

## Model

| member | source | states |
|---|---|---|
| SurveyParser.ParseRows | app.py:64-86 | The parse loop, with its question counter, answer counter and current-question flag, returns exactly `Parse(rows)`, and that list is what the rows describe (`Describes`) |
| SurveyParser.ParseDescribes | app.py:69-86 | For every row list there is one question per mark-1 row, in row order. Question n has id `Q<n>` and the text of the n-th mark-1 row. Its answers are exactly the later non-1 rows that come before the next question row, with ids `<qid>A1`…`<qid>Ak` and no gaps |
| SurveyParser.QuestionCount | app.py:73-79 | The number of questions equals the number of rows marked 1 |
| SurveyParser.QuestionIdsUnique | app.py:75-77 | Two different questions of a document never share an id |
| SurveyParser.AnswerIdsUnique | app.py:84-86 | Two answers anywhere in a document with the same id are the same answer of the same question |
| SurveyParser.AnswerIdInjective | app.py:85 | An answer id `Q<m>A<j>` determines both m and j |
| SurveyParser.QuestionIdShape | app.py:77 | Unfolding helper for the other id lemmas: a question id is 'Q' followed by the decimal rendering of its number |
| SurveyParser.AnswerIdShape | app.py:85 | Unfolding helper for `AnswerIdInjective`: an answer id is its question id, then 'A', then the decimal rendering of its number |
| SurveyParser.ParsedNumberedIds | app.py:75-85 | In a parsed document question i has id `Q<i>` and its answer j has id `Q<i>A<j>`, both counted from 1 |
| SurveyParser.NumberedAnswerIdsUnique | app.py:84-85 | In any list numbered that way, two answers with the same id are the same answer of the same question |
| SurveyParser.QuestionIdInjective | app.py:77 | Different question numbers give different ids `Q<n>` |
| SurveyParser.QuestionIdHasNoColon | app.py:77 | A question id contains no colon, so the split at the first colon cannot cut into it |
| SurveyParser.AnswerIdIsPlain | app.py:77-85 | An answer id consists only of 'Q', 'A' and decimal digits, so it has no blank, newline or colon |
| SurveyParser.ParseQuestionRow | app.py:73-79 | One-step unfolding of the fold, used by the worked example: a mark-1 row appends one question with the next id, the row's text and no answers; the earlier questions are unchanged |
| SurveyParser.ParseAnswerRow | app.py:80-86 | One-step unfolding of the fold, used by the worked example: a non-1 row after a question changes only the last question. It keeps that question's id and text and appends exactly one answer numbered after the existing ones; the question count is unchanged |
| SurveyParser.ParseOrphanRow | app.py:82-83 | One-step unfolding of the fold: a non-1 row while there is no question leaves the (empty) result empty |
| SurveyParser.LeadingAnswerRowsIgnored | app.py:82-83 | Any rows before the first mark-1 row can be removed without changing the result |
| Decimal.DecimalValueOfNatToString | app.py:77 | Reading back the decimal rendering of a counter gives the counter |
| Decimal.NatToStringCanonical | app.py:77 | The rendering has no leading zero: only 0 renders with a first digit '0' |
| Decimal.NatToStringInjective | app.py:77 | Different counters render to different texts |
| OrderedDict.Insert | app.py:124-130 | Assigning to an absent key appends the entry at the end of the iteration order |
| OrderedDict.InsertPresent | app.py:124-130 | Assigning to a present key keeps the length and every key's position, and the key then maps to the new value |
| OrderedDict.InsertKeepsOtherKeys | app.py:124-130 | Assigning to one key leaves the value of every other key unchanged |
| OrderedDict.FromDistinctPairs | app.py:90-92 | A dict built by assigning pairs with distinct keys iterates those pairs in assignment order |
| Text.TakeUntil | app.py:129 | The part before the first colon is a prefix of the option, contains no colon, and is followed by a colon or by the end of the text |
| Text.SplitJoin | app.py:148 | Splitting the newline-joined lines on newlines gives the lines back, provided there is at least one line and no line contains a newline |
| JumpTarget.ResolveLabel | app.py:128-130 | Resolving a question's display label gives exactly that question's id, whatever colons its text holds |
| JumpTarget.DropdownOfParsed | app.py:90-96 | For a parsed document the options are "", "End", then each question's label in document order, so there are two more options than questions |
| JumpTarget.DropdownOfDistinct | app.py:90-96 | When question ids are distinct, the options are "", "End", then one label per question in order |
| JumpTarget.ResolveDropdownOption | app.py:119-130 | Option 0 resolves to no target, option 1 to "END", and option k ≥ 2 to the id `Q<k-1>` |
| LogicExport.RecordAnswers | app.py:113-130 | The inner loop extends the logic map by one assignment per answer of the question, in answer order, each the resolution of that answer's selection |
| LogicExport.BuildLogicMap | app.py:106-130 | The nested loops build exactly `LogicMap`: one assignment per answer, question by question |
| LogicExport.LogicMapOfParsed | app.py:106-130 | For a parsed document every answer id is assigned exactly once, so the map holds one entry per answer in document order |
| LogicExport.AnswerIdsDistinct | app.py:108-114 | When no two answers share an id, the answer ids visited by the loops contain no repetition |
| LogicExport.ExportLogic | app.py:142-148 | The export loop and join give the newline-join of `ExportLines`: one line per entry with target "END" or a non-empty target, in map order |
| LogicExport.ReadFormattedLine | app.py:144-147 | An entry gets a line exactly when it asks for a rule, and reading that line back gives the rule |
| LogicExport.ExportRoundTrip | app.py:142-148 | When ids have no blanks or newlines and targets have no newlines, reading the export text gives back exactly the rules of the map, in map order, and nothing else |
| LogicExport.SelectionTarget | app.py:117-130 | A selection taken from the dropdown resolves to no target, "END" or the id of one of the document's own questions |
| LogicExport.ExportOfParsed | app.py:64-148 | For a parsed document and dropdown selections, the export text reads back as one rule per answer with a non-blank choice, in document order |
| Scenario.ColorAnimalQuestions | app.py:64-86 | The rows Fav color?/Red/Blue/Fav animal?/Cat parse into Q1 (answers Q1A1, Q1A2) and Q2 (answer Q2A1) |
| Scenario.ColorAnimalLogic | app.py:106-130 | With Q1A1 on "End", Q1A2 on the Q2 label and Q2A1 blank, the logic map is Q1A1 → END, Q1A2 → Q2, Q2A1 → none |
| Scenario.ColorAnimalExport | app.py:142-148 | That logic map exports exactly `if Q1A1 then end` and `if Q1A2 then show Q2` on two lines |

## Left out

- Fetching the signed-in user's profile over the network (app.py:17-50): network I/O, outside the logic builder.
- The commented-out thread-pool block (app.py:165-185): it is dead code.
- The secrets read at start-up (app.py:13-14): configuration only.
- Reading the spreadsheet (app.py:62): file I/O. The rows are the model's input instead.
- The `str(...)`, `int(...)` and `.strip()` coercions of each cell (app.py:70-71): rows arrive with an already-stripped text and an integer marker. A cell that cannot be read as an integer raises inside the spreadsheet library in the source; the model does not cover this.
- All Streamlit rendering, widget keys, buttons, the text area and the download file name and type (app.py:99-104, 109-111, 115-122, 132-141, 150-159): UI only.
- The dropdown choice of each answer: a map from answer id to the chosen option text is the model's input. An answer missing from the map holds the widget's default first option, "".
- SurveyParser.ParseRows: `current_q` is an alias of the last element of `questions`. The model captures this by replacing that last element. It does not model the shared mutable reference itself.
- LogicExport.ExportRoundTrip: requires ids without blanks or newlines and targets without newlines, because otherwise the export text is ambiguous. Ids and targets from a parsed document with dropdown selections always meet this, as `LogicExport.ExportOfParsed` shows.
