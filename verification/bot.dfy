/**
 * The bot object: its tables, its users and its per-user sessions, updated in place
 * by the loader and by the quiz handlers. Each method is proved against the function
 * in `Ingestion`, `Store`, `Queries` or `Navigation` that specifies it.
 */
module Bot {
  import opened Wrappers
  import opened Spreadsheet
  import Store
  import Ingestion
  import Queries
  import Navigation

  class QuizBot {
    var topics: seq<Store.Topic>
    var questions: seq<Store.Question>
    var topicSeq: nat
    var questionSeq: nat
    var users: map<int, Store.User>
    var userStates: map<int, Navigation.Session>

    /** The two quiz tables with their AUTOINCREMENT counters. */
    function Tables(): Store.Db
      reads this
    {
      Store.Db(topics, questions, topicSeq, questionSeq)
    }

    ghost predicate Valid()
      reads this
    {
      Store.Valid(Tables())
    }

    /** A bot over an empty database with no sessions. */
    constructor ()
      ensures Valid()
      ensures topics == [] && questions == [] && topicSeq == 0 && questionSeq == 0
      ensures users == map[] && userStates == map[]
    {
      topics := [];
      questions := [];
      topicSeq := 0;
      questionSeq := 0;
      users := map[];
      userStates := map[];
    }

    /** Records a user unless one with the same id is already stored. */
    method SaveUser(user: Store.User)
      modifies this`users
      ensures users == Store.InsertOrIgnore(old(users), user)
    {
      if user.id !in users {
        users := users[user.id := user];
      }
    }

    /** Empties both quiz tables. */
    method ClearDatabase()
      modifies this`topics, this`questions
      ensures Tables() == Store.Cleared(old(Tables()))
      ensures Valid()
    {
      questions := [];
      topics := [];
    }

    /** Loads a worksheet: rejects it untouched when a required header is missing,
        otherwise empties the tables first when `replace` holds and adds every
        accepted row in order. */
    method ParseExcelFile(sheet: Worksheet, replace: bool) returns (ok: bool)
      modifies this`topics, this`questions, this`topicSeq, this`questionSeq
      ensures Ingestion.Loaded(ok, Tables()) == Ingestion.Ingest(old(Tables()), sheet, replace)
      ensures old(Valid()) ==> Valid()
    {
      var headers := sheet.headers;
      ok := CheckHeaders(headers);
      if !ok {
        return;
      }
      if replace {
        questions := [];
        topics := [];
      }
      ghost var start := Tables();
      var rows := sheet.rows;
      var i := 0;
      while i < |rows|
        invariant 0 <= i <= |rows|
        invariant Tables() == Ingestion.LoadRows(start, headers, rows[..i])
      {
        ghost var before := Tables();
        var entry := ReadRow(headers, rows[i]);
        if entry.Some? {
          SaveEntry(entry.value);
        }
        assert Tables() == Ingestion.ApplyRow(before, headers, rows[i]);
        Ingestion.LoadRowsStep(start, headers, rows, i);
        assert Tables() == Ingestion.LoadRows(start, headers, rows[..i + 1]);
        i := i + 1;
      }
      assert rows[..i] == sheet.rows;
    }

    /** The header row holds every required column. */
    static method CheckHeaders(headers: seq<Cell>) returns (ok: bool)
      ensures ok <==> HasRequiredHeaders(headers)
    {
      for k := 0 to |RequiredHeaders|
        invariant forall j :: 0 <= j < k ==> Some(RequiredHeaders[j]) in headers
      {
        if Some(RequiredHeaders[k]) !in headers {
          return false;
        }
      }
      return true;
    }

    /** Stores one accepted row: the topic is inserted unless a topic of that name
        exists (the insert draws an id either way), then the question is added under
        the topic's id. */
    method SaveEntry(e: Entry)
      modifies this`topics, this`questions, this`topicSeq, this`questionSeq
      ensures Tables() == Ingestion.AddEntry(old(Tables()), e)
    {
      topicSeq := topicSeq + 1;
      var topicId;
      match Store.FindTopic(topics, e.topic) {
        case Some(k) =>
          topicId := topics[k].id;
        case None =>
          topics := topics + [Store.Topic(topicSeq, e.topic)];
          topicId := topicSeq;
      }
      questionSeq := questionSeq + 1;
      questions := questions + [Store.Question(questionSeq, topicId, e.text, e.hint, e.answer, e.difficulty)];
    }

    /** The topic names, sorted ascending. */
    method GetTopics() returns (names: seq<string>)
      ensures names == Queries.ListTopicNames(Tables())
      ensures Queries.Sorted(names)
      ensures multiset(names) == multiset(Queries.Names(topics))
    {
      names := Queries.ListTopicNames(Tables());
    }

    /** The questions of the topic the user selected, matched ignoring ASCII case. */
    method GetQuestionsForTopic(selection: string) returns (items: seq<Queries.QuizItem>)
      ensures items == Queries.QuestionsForTopic(Tables(), selection)
      ensures Valid() ==> Queries.Ascending(items)
    {
      items := Queries.QuestionsForTopic(Tables(), selection);
    }

    /** The user picks a topic: their session restarts on its first question. */
    method ChooseTopic(user: int, topicName: string) returns (next: Navigation.ConvState)
      modifies this`userStates
      ensures Navigation.Outcome(userStates, next)
              == Navigation.Step(old(userStates), Tables(), user, Navigation.Choose(topicName))
    {
      var items := GetQuestionsForTopic(topicName);
      userStates := userStates[user := Navigation.Session(topicName, items, 0)];
      if |items| > 0 {
        next := Navigation.Question;
      } else {
        next := Navigation.ChooseTopic;
      }
    }

    /** Shows the user's current question, if there is one. */
    method ShowQuestion(user: int) returns (next: Navigation.ConvState)
      ensures Navigation.Outcome(userStates, next)
              == Navigation.Step(userStates, Tables(), user, Navigation.ShowQuestion)
    {
      if user in userStates {
        var s := userStates[user];
        if s.index < |s.questions| {
          return Navigation.Question;
        }
        return Navigation.ChooseTopic;
      }
      return Navigation.ChooseTopic;
    }

    /** Shows the hint of the user's current question, if there is one. */
    method ShowHint(user: int) returns (next: Navigation.ConvState)
      ensures Navigation.Outcome(userStates, next)
              == Navigation.Step(userStates, Tables(), user, Navigation.ShowHint)
    {
      if user in userStates {
        var s := userStates[user];
        if s.index < |s.questions| {
          return Navigation.Hint;
        }
      }
      return Navigation.Question;
    }

    /** Shows the answer of the user's current question, if there is one. */
    method ShowAnswer(user: int) returns (next: Navigation.ConvState)
      ensures Navigation.Outcome(userStates, next)
              == Navigation.Step(userStates, Tables(), user, Navigation.ShowAnswer)
    {
      if user in userStates {
        var s := userStates[user];
        if s.index < |s.questions| {
          return Navigation.Answer;
        }
      }
      return Navigation.Question;
    }

    /** Moves the user on by one question and shows it. */
    method NextQuestion(user: int) returns (next: Navigation.ConvState)
      modifies this`userStates
      ensures Navigation.Outcome(userStates, next)
              == Navigation.Step(old(userStates), Tables(), user, Navigation.Next)
    {
      if user in userStates {
        var s := userStates[user];
        userStates := userStates[user := s.(index := s.index + 1)];
        next := ShowQuestion(user);
        return;
      }
      return Navigation.ChooseTopic;
    }

    /** Forgets the user's session and ends the conversation. */
    method Cancel(user: int) returns (next: Navigation.ConvState)
      modifies this`userStates
      ensures Navigation.Outcome(userStates, next)
              == Navigation.Step(old(userStates), Tables(), user, Navigation.Cancel)
    {
      userStates := userStates - {user};
      return Navigation.End;
    }
  }
}
