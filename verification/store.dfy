/**
 * The quiz database: the `topics` and `questions` tables and the `users` table,
 * held as in-memory sequences and a map.
 */
module Store {
  import opened Wrappers
  import opened Spreadsheet

  /** A row of `topics`: an AUTOINCREMENT id and a UNIQUE name. */
  datatype Topic = Topic(id: nat, name: string)

  /** A row of `questions`, linked to its topic by `topicId`. */
  datatype Question = Question(id: nat, topicId: nat, text: string, hint: Cell, answer: string, difficulty: string)

  /** Both quiz tables, with the largest id each AUTOINCREMENT column has ever issued
      (SQLite keeps that across `DELETE`, so ids are never reused). */
  datatype Db = Db(topics: seq<Topic>, questions: seq<Question>, topicSeq: nat, questionSeq: nat)

  /** A row of `users`. */
  datatype User = User(id: int, firstName: Cell, username: Cell)

  /** A topic row whose id is `id` exists. */
  ghost predicate HasTopicId(topics: seq<Topic>, id: nat) {
    exists k :: 0 <= k < |topics| && topics[k].id == id
  }

  /** Topic ids rise in insertion order, never pass the counter, and names are unique. */
  ghost predicate TopicsValid(topics: seq<Topic>, topicSeq: nat) {
    && (forall i, j :: 0 <= i < j < |topics| ==> topics[i].id < topics[j].id)
    && (forall i, j :: 0 <= i < j < |topics| ==> topics[i].name != topics[j].name)
    && (forall i :: 0 <= i < |topics| ==> 1 <= topics[i].id <= topicSeq)
  }

  /** Question ids rise in insertion order and never pass the counter. */
  ghost predicate QuestionsValid(questions: seq<Question>, questionSeq: nat) {
    && (forall i, j :: 0 <= i < j < |questions| ==> questions[i].id < questions[j].id)
    && (forall i :: 0 <= i < |questions| ==> 1 <= questions[i].id <= questionSeq)
  }

  /** Every question refers to an existing topic. */
  ghost predicate Linked(topics: seq<Topic>, questions: seq<Question>) {
    forall i :: 0 <= i < |questions| ==> HasTopicId(topics, questions[i].topicId)
  }

  /** The table constraints the loader keeps. */
  ghost predicate Valid(db: Db) {
    && TopicsValid(db.topics, db.topicSeq)
    && QuestionsValid(db.questions, db.questionSeq)
    && Linked(db.topics, db.questions)
  }

  lemma AddTopicValid(topics: seq<Topic>, topicSeq: nat, name: string)
    requires TopicsValid(topics, topicSeq)
    requires forall k :: 0 <= k < |topics| ==> topics[k].name != name
    ensures TopicsValid(topics + [Topic(topicSeq + 1, name)], topicSeq + 1)
  {
  }

  lemma AddQuestionValid(questions: seq<Question>, questionSeq: nat, q: Question)
    requires QuestionsValid(questions, questionSeq) && q.id == questionSeq + 1
    ensures QuestionsValid(questions + [q], questionSeq + 1)
  {
  }

  lemma LinkedGrows(topics: seq<Topic>, more: seq<Topic>, questions: seq<Question>, q: Question)
    requires Linked(topics, questions)
    requires HasTopicId(topics + more, q.topicId)
    ensures Linked(topics + more, questions + [q])
  {
    forall i | 0 <= i < |questions + [q]|
      ensures HasTopicId(topics + more, (questions + [q])[i].topicId)
    {
      if i < |questions| {
        var k :| 0 <= k < |topics| && topics[k].id == questions[i].topicId;
        assert (topics + more)[k] == topics[k];
      }
    }
  }

  /** A question filed under an existing topic keeps the tables valid, also when the
      ignored topic insert has used up an id. */
  lemma AddToExistingValid(db: Db, k: nat, q: Question)
    requires Valid(db) && k < |db.topics|
    requires q.topicId == db.topics[k].id && q.id == db.questionSeq + 1
    ensures Valid(Db(db.topics, db.questions + [q], db.topicSeq + 1, q.id))
  {
    AddQuestionValid(db.questions, db.questionSeq, q);
    assert db.topics + [] == db.topics;
    LinkedGrows(db.topics, [], db.questions, q);
  }

  /** A question filed under a freshly inserted topic keeps the tables valid. */
  lemma AddWithNewTopicValid(db: Db, name: string, q: Question)
    requires Valid(db)
    requires forall k :: 0 <= k < |db.topics| ==> db.topics[k].name != name
    requires q.topicId == db.topicSeq + 1 && q.id == db.questionSeq + 1
    ensures Valid(Db(db.topics + [Topic(db.topicSeq + 1, name)], db.questions + [q], db.topicSeq + 1, q.id))
  {
    var t := Topic(db.topicSeq + 1, name);
    AddQuestionValid(db.questions, db.questionSeq, q);
    AddTopicValid(db.topics, db.topicSeq, name);
    assert (db.topics + [t])[|db.topics|] == t;
    LinkedGrows(db.topics, [t], db.questions, q);
  }

  /** `SELECT id FROM topics WHERE name = ?`: the position of the topic named `name`. */
  function FindTopic(topics: seq<Topic>, name: string): (r: Option<nat>)
    ensures r.Some? ==> r.value < |topics| && topics[r.value].name == name
    ensures r.None? ==> forall k :: 0 <= k < |topics| ==> topics[k].name != name
  {
    if topics == [] then None
    else if topics[0].name == name then Some(0)
    else match FindTopic(topics[1..], name)
      case Some(k) => Some(k + 1)
      case None => None
  }

  /** `DELETE FROM questions; DELETE FROM topics`: both tables emptied, the
      AUTOINCREMENT counters kept. */
  function Cleared(db: Db): (r: Db)
    ensures r.topics == [] && r.questions == []
    ensures r.topicSeq == db.topicSeq && r.questionSeq == db.questionSeq
    ensures Valid(r)
  {
    Db([], [], db.topicSeq, db.questionSeq)
  }

  /** `INSERT OR IGNORE INTO users`: the first row stored for an id wins. */
  function InsertOrIgnore(users: map<int, User>, u: User): (r: map<int, User>)
    ensures r.Keys == users.Keys + {u.id}
    ensures forall id :: id in users ==> r[id] == users[id]
    ensures u.id !in users ==> r[u.id] == u
  {
    if u.id in users then users else users[u.id := u]
  }

  /** Saving a user twice under one id keeps the first record. */
  lemma FirstUserRecordWins(users: map<int, User>, first: User, second: User)
    requires first.id == second.id && first.id !in users
    ensures InsertOrIgnore(InsertOrIgnore(users, first), second)[first.id] == first
    ensures InsertOrIgnore(InsertOrIgnore(users, first), second) == InsertOrIgnore(users, first)
  {
  }
}
