/**
 * The worksheet handed to the quiz loader, and how one data row is read from it:
 * the header check, the per-row skip rules and the difficulty default.
 * The workbook itself is given as a header row and data rows of cell values.
 */
module Spreadsheet {
  import opened Wrappers

  /** A cell's value as the workbook gives it; `None` is an empty cell. */
  type Cell = Option<string>

  /** The active sheet: row 1 (the headers) and rows 2.. (the data). */
  datatype Worksheet = Worksheet(headers: seq<Cell>, rows: seq<seq<Cell>>)

  /** What one accepted data row contributes: a topic name and one question. */
  datatype Entry = Entry(topic: string, text: string, hint: Cell, answer: string, difficulty: string)

  const TopicHeader: string := "Тема"
  const QuestionHeader: string := "Вопрос"
  const HintHeader: string := "Подсказка"
  const AnswerHeader: string := "Ответ"
  const DifficultyHeader: string := "Сложность"
  const DefaultDifficulty: string := "medium"

  /** Columns without which the file is rejected as a whole. */
  const RequiredHeaders: seq<string> := [TopicHeader, QuestionHeader, HintHeader, AnswerHeader]

  /** Python truthiness of a text cell: present and non-empty. */
  predicate Truthy(c: Cell) {
    c.Some? && c.value != ""
  }

  predicate HasRequiredHeaders(headers: seq<Cell>) {
    forall k :: 0 <= k < |RequiredHeaders| ==> Some(RequiredHeaders[k]) in headers
  }

  /** Position of the first header cell equal to `name` (Python's `list.index`). */
  function IndexOf(headers: seq<Cell>, name: string): (r: nat)
    requires Some(name) in headers
    ensures r < |headers| && headers[r] == Some(name)
    ensures forall k :: 0 <= k < r ==> headers[k] != Some(name)
  {
    if headers[0] == Some(name) then 0 else 1 + IndexOf(headers[1..], name)
  }

  /** The value in column `k` of a data row; columns past the row's end read as empty. */
  function CellAt(row: seq<Cell>, k: nat): Cell {
    if k < |row| then row[k] else None
  }

  /** The value of the column headed `name` in a data row. */
  function Field(headers: seq<Cell>, row: seq<Cell>, name: string): Cell
    requires Some(name) in headers
  {
    CellAt(row, IndexOf(headers, name))
  }

  /** Every cell under a header is empty (the row is skipped outright). */
  predicate IsBlankRow(headers: seq<Cell>, row: seq<Cell>) {
    forall k :: 0 <= k < |headers| ==> !Truthy(CellAt(row, k))
  }

  /** Characters Python's `str.isspace` accepts, hence those `str.strip()` removes. */
  predicate IsSpace(c: char) {
    || c == ' ' || c == '\t' || c == '\n' || c == '\r'
    || c == '\U{000B}' || c == '\U{000C}'
    || ('\U{001C}' <= c <= '\U{001F}')
    || c == '\U{0085}' || c == '\U{00A0}' || c == '\U{1680}'
    || ('\U{2000}' <= c <= '\U{200A}')
    || c == '\U{2028}' || c == '\U{2029}' || c == '\U{202F}' || c == '\U{205F}' || c == '\U{3000}'
  }

  predicate AllSpace(s: string) {
    forall i :: 0 <= i < |s| ==> IsSpace(s[i])
  }

  function TrimLeft(s: string): (r: string)
    ensures |r| <= |s| && r == s[|s| - |r|..]
    ensures AllSpace(s[..|s| - |r|])
    ensures r == [] || !IsSpace(r[0])
  {
    if s == [] || !IsSpace(s[0]) then s else TrimLeft(s[1..])
  }

  function TrimRight(s: string): (r: string)
    ensures |r| <= |s| && r == s[..|r|]
    ensures AllSpace(s[|r|..])
    ensures r == [] || !IsSpace(r[|r| - 1])
  {
    if s == [] || !IsSpace(s[|s| - 1]) then s else TrimRight(s[..|s| - 1])
  }

  /** Python's `str.strip()` with no argument. */
  function Strip(s: string): (r: string)
    ensures r == [] <==> AllSpace(s)
  {
    var t := TrimLeft(s);
    assert t == [] ==> s == s[..|s|];
    TrimRight(t)
  }

  /** The difficulty stored for a row: its `Сложность` cell when that column exists and
      the cell is non-empty, otherwise the default. */
  function Difficulty(headers: seq<Cell>, row: seq<Cell>): (d: string)
    ensures d != ""
    ensures Some(DifficultyHeader) in headers && Truthy(Field(headers, row, DifficultyHeader))
            ==> Some(d) == Field(headers, row, DifficultyHeader)
    ensures !(Some(DifficultyHeader) in headers && Truthy(Field(headers, row, DifficultyHeader)))
            ==> d == DefaultDifficulty
  {
    if Some(DifficultyHeader) in headers then
      var c := Field(headers, row, DifficultyHeader);
      if Truthy(c) then c.value else DefaultDifficulty
    else
      DefaultDifficulty
  }

  /** The row is accepted when topic, question and answer are all non-empty and the
      topic is not whitespace only; the hint may be empty. */
  predicate Accepts(headers: seq<Cell>, row: seq<Cell>)
    requires HasRequiredHeaders(headers)
  {
    assert Some(RequiredHeaders[0]) in headers && Some(RequiredHeaders[1]) in headers;
    assert Some(RequiredHeaders[3]) in headers;
    && Truthy(Field(headers, row, TopicHeader))
    && Truthy(Field(headers, row, QuestionHeader))
    && Truthy(Field(headers, row, AnswerHeader))
    && !AllSpace(Field(headers, row, TopicHeader).value)
  }

  /** Reads one data row in the loader's order of checks: a blank row, a missing
      required field, a whitespace-only topic each skip the row (`None`). */
  function ReadRow(headers: seq<Cell>, row: seq<Cell>): (r: Option<Entry>)
    requires HasRequiredHeaders(headers)
    ensures r.Some? <==> Accepts(headers, row)
    ensures r.Some? ==>
      assert Some(RequiredHeaders[2]) in headers;
      && Some(r.value.topic) == Field(headers, row, TopicHeader)
      && Some(r.value.text) == Field(headers, row, QuestionHeader)
      && r.value.hint == Field(headers, row, HintHeader)
      && Some(r.value.answer) == Field(headers, row, AnswerHeader)
      && r.value.difficulty == Difficulty(headers, row)
  {
    assert Some(RequiredHeaders[0]) in headers && Some(RequiredHeaders[1]) in headers;
    assert Some(RequiredHeaders[2]) in headers && Some(RequiredHeaders[3]) in headers;
    if IsBlankRow(headers, row) then
      assert !Truthy(CellAt(row, IndexOf(headers, TopicHeader)));
      None
    else
      var topic := Field(headers, row, TopicHeader);
      var question := Field(headers, row, QuestionHeader);
      var hint := Field(headers, row, HintHeader);
      var answer := Field(headers, row, AnswerHeader);
      if !(Truthy(topic) && Truthy(question) && Truthy(answer)) then
        None
      else
        var difficulty := Difficulty(headers, row);
        if Strip(topic.value) == [] then
          None
        else
          Some(Entry(topic.value, question.value, hint, answer.value, difficulty))
  }
}
