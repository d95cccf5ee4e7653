/**
 * The two read-only queries over the quiz tables: the topic list shown to the user
 * (`ORDER BY name`) and the questions of a chosen topic (joined to their topic,
 * matched with `LOWER(t.name) = LOWER(?)`, `ORDER BY q.id`).
 */
module Queries {
  import opened Wrappers
  import opened Spreadsheet
  import opened Store

  // ---------------------------------------------------------------------------
  // Topic listing
  // ---------------------------------------------------------------------------

  /** SQLite's BINARY collation on text: code point by code point, a proper prefix first
      (comparing UTF-8 bytes orders strings as comparing code points does). */
  predicate LexLe(a: string, b: string) {
    if a == [] then true
    else if b == [] then false
    else if a[0] != b[0] then a[0] < b[0]
    else LexLe(a[1..], b[1..])
  }

  lemma {:induction false} LexLeTotal(a: string, b: string)
    ensures LexLe(a, b) || LexLe(b, a)
  {
    if a != [] && b != [] && a[0] == b[0] {
      LexLeTotal(a[1..], b[1..]);
    }
  }

  lemma {:induction false} LexLeTransitive(a: string, b: string, c: string)
    requires LexLe(a, b) && LexLe(b, c)
    ensures LexLe(a, c)
  {
    if a != [] && b != [] && c != [] && a[0] == b[0] && b[0] == c[0] {
      LexLeTransitive(a[1..], b[1..], c[1..]);
    }
  }

  lemma {:induction false} LexLeAntisymmetric(a: string, b: string)
    requires LexLe(a, b) && LexLe(b, a)
    ensures a == b
  {
    if a != [] && b != [] {
      LexLeAntisymmetric(a[1..], b[1..]);
      assert a == [a[0]] + a[1..] && b == [b[0]] + b[1..];
    }
  }

  /** Each name is at most the next one. */
  predicate Sorted(s: seq<string>) {
    forall i :: 0 < i < |s| ==> LexLe(s[i - 1], s[i])
  }

  function Insert(x: string, s: seq<string>): (r: seq<string>)
    requires Sorted(s)
    ensures Sorted(r)
    ensures multiset(r) == multiset(s) + multiset{x}
    ensures r[0] == x || (s != [] && r[0] == s[0])
  {
    if s == [] then [x]
    else if LexLe(x, s[0]) then [x] + s
    else
      var rest := Insert(x, s[1..]);
      LexLeTotal(x, s[0]);
      assert s == [s[0]] + s[1..];
      [s[0]] + rest
  }

  function SortNames(s: seq<string>): (r: seq<string>)
    ensures Sorted(r)
    ensures multiset(r) == multiset(s)
  {
    if s == [] then []
    else
      assert s == [s[0]] + s[1..];
      Insert(s[0], SortNames(s[1..]))
  }

  /** The `name` column, in table order. */
  function Names(topics: seq<Topic>): (r: seq<string>)
    ensures |r| == |topics| && forall k :: 0 <= k < |topics| ==> r[k] == topics[k].name
  {
    seq(|topics|, k requires 0 <= k < |topics| => topics[k].name)
  }

  /** `SELECT name FROM topics ORDER BY name`. */
  function ListTopicNames(db: Db): (r: seq<string>)
    ensures Sorted(r)
    ensures multiset(r) == multiset(Names(db.topics))
  {
    SortNames(Names(db.topics))
  }

  /** Adjacent order extends to every pair: the listing is ascending throughout, and
      with unique topic names strictly so. */
  lemma {:induction false} SortedAllPairs(s: seq<string>, i: nat, j: nat)
    requires Sorted(s) && i <= j < |s|
    ensures LexLe(s[i], s[j])
    decreases j - i
  {
    if i == j {
      LexLeReflexive(s[i]);
    } else {
      SortedAllPairs(s, i, j - 1);
      LexLeTransitive(s[i], s[j - 1], s[j]);
    }
  }

  lemma {:induction false} LexLeReflexive(a: string)
    ensures LexLe(a, a)
  {
    if a != [] { LexLeReflexive(a[1..]); }
  }

  /** Every stored topic is listed once per row, and nothing else is listed. */
  lemma ListedExactlyStored(db: Db, name: string)
    ensures name in ListTopicNames(db) <==> exists k :: 0 <= k < |db.topics| && db.topics[k].name == name
  {
    var r := ListTopicNames(db);
    var names := Names(db.topics);
    assert name in r <==> name in multiset(r);
    assert name in names <==> name in multiset(names);
    if name in names {
      var k :| 0 <= k < |names| && names[k] == name;
      assert db.topics[k].name == name;
    }
  }

  // ---------------------------------------------------------------------------
  // Questions of a topic
  // ---------------------------------------------------------------------------

  /** One result row of the question query. */
  datatype QuizItem = QuizItem(id: nat, text: string, hint: Cell, answer: string, difficulty: string)

  function Item(q: Question): QuizItem {
    QuizItem(q.id, q.text, q.hint, q.answer, q.difficulty)
  }

  /** SQLite's built-in `lower()`: only the ASCII capitals A-Z are folded; every other
      character, Cyrillic included, is kept as it is. */
  function LowerChar(c: char): (d: char)
    ensures 'A' <= c <= 'Z' ==> d as int == c as int + 32
    ensures !('A' <= c <= 'Z') ==> d == c
  {
    if 'A' <= c <= 'Z' then (c as int + 32) as char else c
  }

  function Lower(s: string): (r: string)
    ensures |r| == |s| && forall i :: 0 <= i < |s| ==> r[i] == LowerChar(s[i])
  {
    seq(|s|, i requires 0 <= i < |s| => LowerChar(s[i]))
  }

  /** The join `q.topic_id = t.id` finds a topic whose name equals `selection` ignoring ASCII case. */
  predicate TopicMatches(topics: seq<Topic>, topicId: nat, selection: string) {
    exists k :: 0 <= k < |topics| && topics[k].id == topicId && Lower(topics[k].name) == Lower(selection)
  }

  predicate Ascending(items: seq<QuizItem>) {
    forall i, j :: 0 <= i < j < |items| ==> items[i].id < items[j].id
  }

  /** The matching questions, in table order. */
  function Select(topics: seq<Topic>, questions: seq<Question>, selection: string): (r: seq<QuizItem>)
    ensures |r| <= |questions|
  {
    if questions == [] then []
    else
      var rest := Select(topics, questions[1..], selection);
      if TopicMatches(topics, questions[0].topicId, selection) then [Item(questions[0])] + rest else rest
  }

  /** Whatever the query returns is a stored question of a matching topic. */
  lemma {:induction false} SelectSound(topics: seq<Topic>, questions: seq<Question>, selection: string, x: QuizItem)
    requires x in Select(topics, questions, selection)
    ensures exists q :: q in questions && x == Item(q) && TopicMatches(topics, q.topicId, selection)
  {
    var rest := Select(topics, questions[1..], selection);
    if x in rest {
      SelectSound(topics, questions[1..], selection, x);
      var q :| q in questions[1..] && x == Item(q) && TopicMatches(topics, q.topicId, selection);
      assert q in questions;
    } else {
      assert questions[0] in questions;
    }
  }

  /** Every stored question of a matching topic is returned. */
  lemma {:induction false} SelectComplete(topics: seq<Topic>, questions: seq<Question>, selection: string, q: Question)
    requires q in questions && TopicMatches(topics, q.topicId, selection)
    ensures Item(q) in Select(topics, questions, selection)
  {
    if q != questions[0] {
      assert q in questions[1..];
      SelectComplete(topics, questions[1..], selection, q);
    }
  }

  /** Every result carries the id of a question at or after the start of the table. */
  lemma {:induction false} SelectIdsFrom(topics: seq<Topic>, questions: seq<Question>, selection: string, k: nat)
    requires k < |Select(topics, questions, selection)|
    ensures exists i :: 0 <= i < |questions| && Select(topics, questions, selection)[k].id == questions[i].id
  {
    var rest := Select(topics, questions[1..], selection);
    var r := Select(topics, questions, selection);
    if TopicMatches(topics, questions[0].topicId, selection) {
      if k == 0 {
        assert r[0].id == questions[0].id;
      } else {
        assert r[k] == rest[k - 1];
        SelectIdsFrom(topics, questions[1..], selection, k - 1);
        var i :| 0 <= i < |questions[1..]| && rest[k - 1].id == questions[1..][i].id;
        assert questions[1..][i] == questions[i + 1];
      }
    } else {
      SelectIdsFrom(topics, questions[1..], selection, k);
      var i :| 0 <= i < |questions[1..]| && rest[k].id == questions[1..][i].id;
      assert questions[1..][i] == questions[i + 1];
    }
  }

  /** Question ids rising in table order make the result rise by id (`ORDER BY q.id`). */
  lemma {:induction false} SelectAscending(topics: seq<Topic>, questions: seq<Question>, selection: string)
    requires forall i, j :: 0 <= i < j < |questions| ==> questions[i].id < questions[j].id
    ensures Ascending(Select(topics, questions, selection))
  {
    if questions != [] {
      var rest := Select(topics, questions[1..], selection);
      SelectAscending(topics, questions[1..], selection);
      if TopicMatches(topics, questions[0].topicId, selection) {
        var r := [Item(questions[0])] + rest;
        forall i, j | 0 <= i < j < |r| ensures r[i].id < r[j].id {
          if i == 0 {
            SelectIdsFrom(topics, questions[1..], selection, j - 1);
            var m :| 0 <= m < |questions[1..]| && rest[j - 1].id == questions[1..][m].id;
            assert questions[1..][m] == questions[m + 1];
          } else {
            assert r[i] == rest[i - 1] && r[j] == rest[j - 1];
          }
        }
      }
    }
  }

  /** `get_questions_for_topic(selection)`: exactly the stored questions whose topic name
      equals the selection ignoring ASCII case, rising by id. */
  function QuestionsForTopic(db: Db, selection: string): (r: seq<QuizItem>)
    ensures forall x :: x in r ==>
      exists q :: q in db.questions && x == Item(q) && TopicMatches(db.topics, q.topicId, selection)
    ensures forall q :: q in db.questions && TopicMatches(db.topics, q.topicId, selection) ==> Item(q) in r
    ensures Valid(db) ==> Ascending(r)
  {
    var r := Select(db.topics, db.questions, selection);
    assert forall x :: x in r ==>
      exists q :: q in db.questions && x == Item(q) && TopicMatches(db.topics, q.topicId, selection)
    by {
      forall x | x in r
        ensures exists q :: q in db.questions && x == Item(q) && TopicMatches(db.topics, q.topicId, selection)
      {
        SelectSound(db.topics, db.questions, selection, x);
      }
    }
    assert forall q :: q in db.questions && TopicMatches(db.topics, q.topicId, selection) ==> Item(q) in r by {
      forall q | q in db.questions && TopicMatches(db.topics, q.topicId, selection) ensures Item(q) in r {
        SelectComplete(db.topics, db.questions, selection, q);
      }
    }
    assert Valid(db) ==> Ascending(r) by {
      if Valid(db) { SelectAscending(db.topics, db.questions, selection); }
    }
    r
  }

  /** Selections that differ only in ASCII case select the same questions. */
  lemma {:induction false} SelectionIgnoresAsciiCase(topics: seq<Topic>, questions: seq<Question>, a: string, b: string)
    requires Lower(a) == Lower(b)
    ensures Select(topics, questions, a) == Select(topics, questions, b)
  {
    if questions != [] {
      SelectionIgnoresAsciiCase(topics, questions[1..], a, b);
    }
  }

  /** A store holding two topics whose names differ only in case, one question each. */
  function CaseVariantsExample(): (db: Db)
    ensures Valid(db)
  {
    var q1 := Question(1, 1, "2+2", None, "4", "medium");
    var q2 := Question(2, 2, "3+3", None, "6", "medium");
    var empty := Db([], [], 0, 0);
    AddWithNewTopicValid(empty, "Pi", q1);
    var one := Db(empty.topics + [Topic(1, "Pi")], empty.questions + [q1], 1, 1);
    assert one.topics[0].name[0] != "pi"[0];
    AddWithNewTopicValid(one, "pi", q2);
    Db(one.topics + [Topic(2, "pi")], one.questions + [q2], 2, 2)
  }

  /** The query keeps both questions of a two-question table when both topics match. */
  lemma SelectBoth(topics: seq<Topic>, q1: Question, q2: Question, selection: string)
    requires TopicMatches(topics, q1.topicId, selection) && TopicMatches(topics, q2.topicId, selection)
    ensures Select(topics, [q1, q2], selection) == [Item(q1), Item(q2)]
  {
    assert [q1, q2][1..] == [q2] && [q2][1..] == [];
  }

  /** Topic names are unique only as written, so two stored topics, "Pi" and "pi",
      both serve the selection "PI". */
  lemma TwoTopicsOneSelection()
    ensures QuestionsForTopic(CaseVariantsExample(), "PI")
            == [QuizItem(1, "2+2", None, "4", "medium"), QuizItem(2, "3+3", None, "6", "medium")]
  {
    var db := CaseVariantsExample();
    var q1 := Question(1, 1, "2+2", None, "4", "medium");
    var q2 := Question(2, 2, "3+3", None, "6", "medium");
    assert db.questions == [q1, q2] && db.topics == [Topic(1, "Pi"), Topic(2, "pi")];
    assert Lower("PI") == "pi" by {
      assert Lower("PI")[0] == 'p' && Lower("PI")[1] == 'i';
    }
    assert TopicMatches(db.topics, 1, "PI") by {
      assert Lower(db.topics[0].name) == "pi" by {
        assert Lower("Pi")[0] == 'p' && Lower("Pi")[1] == 'i';
      }
    }
    assert TopicMatches(db.topics, 2, "PI") by {
      assert Lower(db.topics[1].name) == "pi" by {
        assert Lower("pi")[0] == 'p' && Lower("pi")[1] == 'i';
      }
    }
    SelectBoth(db.topics, q1, q2, "PI");
  }

  /** The fold is ASCII-only: the Cyrillic topic "Алгебра" is not found by "алгебра". */
  lemma CyrillicCaseMatters()
    ensures var db := Db([Topic(1, "Алгебра")], [Question(1, 1, "x?", None, "y", "medium")], 1, 1);
      QuestionsForTopic(db, "алгебра") == []
  {
    assert Lower("Алгебра")[0] == 'А';
    assert Lower("алгебра")[0] == 'а';
  }
}
