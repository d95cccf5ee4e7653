/**
 * Loading a worksheet into the quiz tables: the header check, the optional wipe
 * (replace mode), and row by row "insert the topic or reuse it, then append a question".
 * The functions here specify the loader; `Bot.QuizBot.ParseExcelFile` implements it.
 */
module Ingestion {
  import opened Wrappers
  import opened Spreadsheet
  import opened Store

  /** Question `q` carries the fields of entry `e` and is linked to a topic named `e.topic`. */
  ghost predicate Holds(topics: seq<Topic>, q: Question, e: Entry) {
    && q.text == e.text && q.hint == e.hint && q.answer == e.answer && q.difficulty == e.difficulty
    && exists k :: 0 <= k < |topics| && topics[k].id == q.topicId && topics[k].name == e.topic
  }

  /** The two statements run for an accepted row: `INSERT OR IGNORE` of its topic,
      then `INSERT` of a question under that topic's id. SQLite draws the topic's
      AUTOINCREMENT id before the UNIQUE check, so an ignored insert still uses one up. */
  function AddEntry(db: Db, e: Entry): (r: Db)
    ensures |r.questions| == |db.questions| + 1 && r.questions[..|db.questions|] == db.questions
    ensures Holds(r.topics, r.questions[|db.questions|], e)
    ensures r.questions[|db.questions|].id == r.questionSeq == db.questionSeq + 1
    ensures r.topicSeq == db.topicSeq + 1
    ensures FindTopic(db.topics, e.topic).Some? ==>
      && r.topics == db.topics
      && r.questions[|db.questions|].topicId == db.topics[FindTopic(db.topics, e.topic).value].id
    ensures FindTopic(db.topics, e.topic).None? ==>
      r.topics == db.topics + [Topic(db.topicSeq + 1, e.topic)]
  {
    var tid := db.topicSeq + 1;
    var qid := db.questionSeq + 1;
    match FindTopic(db.topics, e.topic)
    case Some(k) =>
      var q := Question(qid, db.topics[k].id, e.text, e.hint, e.answer, e.difficulty);
      Db(db.topics, db.questions + [q], tid, qid)
    case None =>
      var t := Topic(tid, e.topic);
      var q := Question(qid, tid, e.text, e.hint, e.answer, e.difficulty);
      assert (db.topics + [t])[|db.topics|] == t;
      Db(db.topics + [t], db.questions + [q], tid, qid)
  }

  /** One pass of the row loop: a skipped row leaves the tables as they were. */
  function ApplyRow(db: Db, headers: seq<Cell>, row: seq<Cell>): (r: Db)
    requires HasRequiredHeaders(headers)
    ensures ReadRow(headers, row).None? ==> r == db
    ensures ReadRow(headers, row).Some? ==> |r.questions| == |db.questions| + 1
  {
    match ReadRow(headers, row)
    case None => db
    case Some(e) => AddEntry(db, e)
  }

  /** The tables after the row loop has run over `rows`, in order. */
  function LoadRows(db: Db, headers: seq<Cell>, rows: seq<seq<Cell>>): Db
    requires HasRequiredHeaders(headers)
    decreases |rows|
  {
    if rows == [] then db
    else ApplyRow(LoadRows(db, headers, rows[..|rows| - 1]), headers, rows[|rows| - 1])
  }

  /** Loading one more row applies that row to what the earlier rows gave. */
  lemma LoadRowsStep(db: Db, headers: seq<Cell>, rows: seq<seq<Cell>>, i: nat)
    requires HasRequiredHeaders(headers) && i < |rows|
    ensures LoadRows(db, headers, rows[..i + 1]) == ApplyRow(LoadRows(db, headers, rows[..i]), headers, rows[i])
  {
    assert rows[..i + 1][..i] == rows[..i];
  }

  /** The entries of the accepted rows, in sheet order. */
  function Accepted(headers: seq<Cell>, rows: seq<seq<Cell>>): (r: seq<Entry>)
    requires HasRequiredHeaders(headers)
    ensures |r| <= |rows|
    decreases |rows|
  {
    if rows == [] then []
    else
      var init := Accepted(headers, rows[..|rows| - 1]);
      match ReadRow(headers, rows[|rows| - 1])
      case None => init
      case Some(e) => init + [e]
  }

  /** The loader's outcome: whether it reports success, and the tables afterwards. */
  datatype Loaded = Loaded(ok: bool, db: Db)

  /** `parse_excel_file(sheet, replace)`: a missing required column fails before anything
      is deleted; otherwise replace mode empties both tables and the rows are loaded. */
  function Ingest(db: Db, sheet: Worksheet, replace: bool): (r: Loaded)
    ensures r.ok <==> HasRequiredHeaders(sheet.headers)
    ensures !r.ok ==> r.db == db
    ensures Valid(db) ==> Valid(r.db)
  {
    if !HasRequiredHeaders(sheet.headers) then Loaded(false, db)
    else
      var start := if replace then Cleared(db) else db;
      assert Valid(db) ==> Valid(LoadRows(start, sheet.headers, sheet.rows)) by {
        if Valid(db) { LoadRowsValid(start, sheet.headers, sheet.rows); }
      }
      Loaded(true, LoadRows(start, sheet.headers, sheet.rows))
  }

  lemma AddEntryValid(db: Db, e: Entry)
    requires Valid(db)
    ensures Valid(AddEntry(db, e))
  {
    var qid := db.questionSeq + 1;
    match FindTopic(db.topics, e.topic)
    case Some(k) =>
      var q := Question(qid, db.topics[k].id, e.text, e.hint, e.answer, e.difficulty);
      AddToExistingValid(db, k, q);
      assert AddEntry(db, e) == Db(db.topics, db.questions + [q], db.topicSeq + 1, qid);
    case None =>
      var q := Question(qid, db.topicSeq + 1, e.text, e.hint, e.answer, e.difficulty);
      AddWithNewTopicValid(db, e.topic, q);
      assert AddEntry(db, e) == Db(db.topics + [Topic(db.topicSeq + 1, e.topic)], db.questions + [q], db.topicSeq + 1, qid);
  }

  /** Loading keeps the table constraints, in particular topic names stay unique. */
  lemma {:induction false} LoadRowsValid(db: Db, headers: seq<Cell>, rows: seq<seq<Cell>>)
    requires HasRequiredHeaders(headers)
    requires Valid(db)
    ensures Valid(LoadRows(db, headers, rows))
    decreases |rows|
  {
    if rows != [] {
      var prev := LoadRows(db, headers, rows[..|rows| - 1]);
      LoadRowsValid(db, headers, rows[..|rows| - 1]);
      match ReadRow(headers, rows[|rows| - 1])
      case None =>
      case Some(e) => AddEntryValid(prev, e);
    }
  }

  /** `r` is `db` with the entries `acc` loaded: every row already stored is unchanged,
      and one question per entry follows, in order, carrying that entry's fields under
      a topic of its name. */
  ghost predicate Extends(db: Db, r: Db, acc: seq<Entry>) {
    && |r.questions| == |db.questions| + |acc|
    && r.questions[..|db.questions|] == db.questions
    && |db.topics| <= |r.topics| && r.topics[..|db.topics|] == db.topics
    && forall k :: 0 <= k < |acc| ==> Holds(r.topics, r.questions[|db.questions| + k], acc[k])
  }

  lemma ExtendsStep(db: Db, prev: Db, acc: seq<Entry>, e: Entry)
    requires Extends(db, prev, acc)
    ensures Extends(db, AddEntry(prev, e), acc + [e])
  {
    var r := AddEntry(prev, e);
    var n := |db.questions|;
    var acc' := acc + [e];
    assert r.questions[..n] == prev.questions[..n];
    assert r.topics[..|db.topics|] == prev.topics[..|db.topics|];
    forall k | 0 <= k < |acc'|
      ensures Holds(r.topics, r.questions[n + k], acc'[k])
    {
      if k < |acc| {
        assert acc'[k] == acc[k];
        assert Holds(prev.topics, prev.questions[n + k], acc[k]);
        assert r.questions[n + k] == prev.questions[n + k];
        var j :| 0 <= j < |prev.topics| && prev.topics[j].id == prev.questions[n + k].topicId
                 && prev.topics[j].name == acc[k].topic;
        assert r.topics[j] == prev.topics[j];
      }
    }
  }

  /** Rows already in the tables stay as they were and each accepted row appends
      exactly one question, carrying that row's fields under a topic of its name. */
  lemma {:induction false} LoadRowsAppends(db: Db, headers: seq<Cell>, rows: seq<seq<Cell>>)
    requires HasRequiredHeaders(headers)
    ensures Extends(db, LoadRows(db, headers, rows), Accepted(headers, rows))
    decreases |rows|
  {
    if rows == [] {
      assert db.questions[..|db.questions|] == db.questions;
      assert db.topics[..|db.topics|] == db.topics;
    } else {
      var init := rows[..|rows| - 1];
      LoadRowsAppends(db, headers, init);
      match ReadRow(headers, rows[|rows| - 1])
      case None =>
      case Some(e) => ExtendsStep(db, LoadRows(db, headers, init), Accepted(headers, init), e);
    }
  }

  ghost function TopicNames(topics: seq<Topic>): set<string> {
    set t | t in topics :: t.name
  }

  ghost function EntryTopics(entries: seq<Entry>): set<string> {
    set e | e in entries :: e.topic
  }

  lemma AddEntryTopicNames(db: Db, e: Entry)
    ensures TopicNames(AddEntry(db, e).topics) == TopicNames(db.topics) + {e.topic}
  {
    match FindTopic(db.topics, e.topic)
    case Some(k) =>
      assert db.topics[k] in db.topics;
    case None =>
      var t := Topic(db.topicSeq + 1, e.topic);
      assert AddEntry(db, e).topics == db.topics + [t];
      assert t in db.topics + [t];
  }

  /** The set of topic names after a load is the set before plus the topic of every
      accepted row: re-inserting an existing name adds no topic. */
  lemma {:induction false} LoadRowsTopicNames(db: Db, headers: seq<Cell>, rows: seq<seq<Cell>>)
    requires HasRequiredHeaders(headers)
    ensures TopicNames(LoadRows(db, headers, rows).topics)
            == TopicNames(db.topics) + EntryTopics(Accepted(headers, rows))
    decreases |rows|
  {
    if rows != [] {
      var init := rows[..|rows| - 1];
      LoadRowsTopicNames(db, headers, init);
      match ReadRow(headers, rows[|rows| - 1])
      case None =>
      case Some(e) =>
        TopicNamesStep(LoadRows(db, headers, init), LoadRows(db, headers, rows), e,
                       TopicNames(db.topics), Accepted(headers, init), Accepted(headers, rows));
    }
  }

  /** One accepted row adds its topic to the set of names. */
  lemma TopicNamesStep(prev: Db, r: Db, e: Entry, before: set<string>, acc: seq<Entry>, acc': seq<Entry>)
    requires r == AddEntry(prev, e) && acc' == acc + [e]
    requires TopicNames(prev.topics) == before + EntryTopics(acc)
    ensures TopicNames(r.topics) == before + EntryTopics(acc')
  {
    EntryTopicsSnoc(acc, e);
    AddEntryTopicNames(prev, e);
  }

  lemma EntryTopicsSnoc(acc: seq<Entry>, e: Entry)
    ensures EntryTopics(acc + [e]) == EntryTopics(acc) + {e.topic}
  {
    assert e in acc + [e];
    assert forall x :: x in acc + [e] <==> x in acc || x == e;
  }

  /** Question count after a successful load: the accepted rows, plus the questions
      already stored in append mode; append mode leaves every stored row unchanged. */
  lemma IngestQuestionCount(db: Db, sheet: Worksheet, replace: bool)
    requires HasRequiredHeaders(sheet.headers)
    ensures var r := Ingest(db, sheet, replace).db;
      |r.questions| == (if replace then 0 else |db.questions|) + |Accepted(sheet.headers, sheet.rows)|
    ensures !replace ==> var r := Ingest(db, sheet, replace).db;
      && |db.questions| <= |r.questions| && r.questions[..|db.questions|] == db.questions
      && |db.topics| <= |r.topics| && r.topics[..|db.topics|] == db.topics
  {
    LoadRowsAppends(if replace then Cleared(db) else db, sheet.headers, sheet.rows);
  }

  /** Replace mode keeps nothing of the old store: afterwards there is one question per
      accepted row, in sheet order, with that row's fields under a topic of its name, and
      the topic names are exactly the accepted rows' topics. */
  lemma IngestReplaceLeavesOnlySheet(db: Db, sheet: Worksheet)
    requires HasRequiredHeaders(sheet.headers)
    ensures var r := Ingest(db, sheet, true).db;
      var acc := Accepted(sheet.headers, sheet.rows);
      && |r.questions| == |acc|
      && (forall k :: 0 <= k < |acc| ==> Holds(r.topics, r.questions[k], acc[k]))
      && TopicNames(r.topics) == EntryTopics(acc)
  {
    var start := Cleared(db);
    assert Ingest(db, sheet, true).db == LoadRows(start, sheet.headers, sheet.rows);
    LoadIntoEmpty(start, sheet.headers, sheet.rows);
  }

  /** Loading rows into empty tables leaves exactly the accepted rows and their topics. */
  lemma LoadIntoEmpty(start: Db, headers: seq<Cell>, rows: seq<seq<Cell>>)
    requires HasRequiredHeaders(headers)
    requires start.topics == [] && start.questions == []
    ensures var r := LoadRows(start, headers, rows);
      var acc := Accepted(headers, rows);
      && |r.questions| == |acc|
      && (forall k :: 0 <= k < |acc| ==> Holds(r.topics, r.questions[k], acc[k]))
      && TopicNames(r.topics) == EntryTopics(acc)
  {
    LoadRowsAppends(start, headers, rows);
    LoadRowsTopicNames(start, headers, rows);
    assert TopicNames(start.topics) == {};
  }

  /** Adding the same entry twice stores two questions that differ only in their id,
      under the same topic, and adds at most one topic. */
  lemma AddEntryTwice(db: Db, e: Entry)
    ensures var twice := AddEntry(AddEntry(db, e), e);
      var n := |db.questions|;
      && |twice.questions| == n + 2
      && twice.questions[n].(id := 0) == twice.questions[n + 1].(id := 0)
      && twice.questions[n].id < twice.questions[n + 1].id
      && |twice.topics| <= |db.topics| + 1
  {
    var once := AddEntry(db, e);
    var n := |db.questions|;
    assert AddEntry(once, e).questions[n] == once.questions[n];
    match FindTopic(db.topics, e.topic)
    case Some(k) =>
    case None =>
      assert once.topics[|db.topics|].name == e.topic;
  }

  /** Two identical accepted rows give two questions with the same fields and topic
      under different ids, and at most one new topic. */
  lemma SameRowTwice(db: Db, headers: seq<Cell>, row: seq<Cell>)
    requires HasRequiredHeaders(headers) && ReadRow(headers, row).Some?
    ensures var r := LoadRows(db, headers, [row, row]);
      var n := |db.questions|;
      && |r.questions| == n + 2
      && r.questions[n].(id := 0) == r.questions[n + 1].(id := 0)
      && r.questions[n].id < r.questions[n + 1].id
      && |r.topics| <= |db.topics| + 1
  {
    var e := ReadRow(headers, row).value;
    assert [row, row][..1] == [row] && [row][..0] == [];
    assert ApplyRow(db, headers, row) == AddEntry(db, e);
    assert LoadRows(db, headers, [row]) == AddEntry(db, e);
    assert LoadRows(db, headers, [row, row]) == ApplyRow(AddEntry(db, e), headers, row);
    AddEntryTwice(db, e);
  }
}
