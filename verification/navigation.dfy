/**
 * Per-user quiz navigation: the map from user id to session (topic, its questions,
 * the current position) and the transition each handler makes on it, with the
 * conversation state the handler returns. Reply texts and keyboards are not modelled.
 */
module Navigation {
  import opened Wrappers
  import Store
  import Queries

  /** The conversation states `UPLOAD .. ADMIN_CONFIRM_CLEAR` and `ConversationHandler.END`;
      only their identity matters here, not the integers that stand for them. */
  datatype ConvState =
    | Upload | ChooseTopic | Question | Hint | Answer
    | AdminMenu | AdminUpload | AdminConfirmClear
    | End

  /** One entry of `user_states`: `current_topic`, `questions`, `current_question_index`. */
  datatype Session = Session(currentTopic: string, questions: seq<Queries.QuizItem>, index: nat)

  /** The handlers that read or change `user_states`, and the question view
      `show_question`, which is reached only through `/next`. */
  datatype Command =
    | Choose(topic: string)   // choose_topic: the user's message names a topic
    | ShowQuestion            // show_question
    | ShowHint                // /hint
    | ShowAnswer              // /answer
    | Next                    // /next
    | Cancel                  // /cancel

  /** The sessions after a handler, and the state it returns. */
  datatype Outcome = Outcome(states: map<int, Session>, next: ConvState)

  /** The user has a session whose index still points at a question. */
  predicate OnQuestion(states: map<int, Session>, user: int) {
    user in states && states[user].index < |states[user].questions|
  }

  /** What `user`'s command does to the sessions, given the question tables `db`. */
  function Step(states: map<int, Session>, db: Store.Db, user: int, cmd: Command): (r: Outcome)
    ensures forall u :: u != user ==> (u in r.states <==> u in states)
    ensures forall u :: u != user && u in states ==> r.states[u] == states[u]
    ensures (cmd.ShowQuestion? || cmd.ShowHint? || cmd.ShowAnswer?) ==> r.states == states
    ensures cmd.Cancel? <==> r.next == End
  {
    match cmd
    case Choose(topic) =>
      var questions := Queries.QuestionsForTopic(db, topic);
      Outcome(states[user := Session(topic, questions, 0)], if questions != [] then Question else ChooseTopic)
    case ShowQuestion =>
      Outcome(states, if OnQuestion(states, user) then Question else ChooseTopic)
    case ShowHint =>
      Outcome(states, if OnQuestion(states, user) then Hint else Question)
    case ShowAnswer =>
      Outcome(states, if OnQuestion(states, user) then Answer else Question)
    case Next =>
      if user in states then
        var s := states[user];
        var states' := states[user := s.(index := s.index + 1)];
        Outcome(states', if OnQuestion(states', user) then Question else ChooseTopic)
      else
        Outcome(states, ChooseTopic)
    case Cancel =>
      Outcome(states - {user}, End)
  }

  /** The question, hint and answer views agree on whether there is a current question;
      without one they send the user to CHOOSE_TOPIC, QUESTION and QUESTION. */
  lemma ViewsAgree(states: map<int, Session>, db: Store.Db, user: int)
    ensures var q := Step(states, db, user, ShowQuestion).next;
      var h := Step(states, db, user, ShowHint).next;
      var a := Step(states, db, user, ShowAnswer).next;
      && (q == Question <==> OnQuestion(states, user))
      && (h == Hint <==> OnQuestion(states, user))
      && (a == Answer <==> OnQuestion(states, user))
      && (!OnQuestion(states, user) ==> q == ChooseTopic && h == Question && a == Question)
  {
  }

  /** `choose_topic` starts the user at the first question of the looked-up list. */
  lemma ChooseStartsAtFirst(states: map<int, Session>, db: Store.Db, user: int, topic: string)
    ensures var r := Step(states, db, user, Choose(topic));
      && user in r.states
      && r.states[user] == Session(topic, Queries.QuestionsForTopic(db, topic), 0)
      && (r.next == Question <==> OnQuestion(r.states, user))
  {
  }

  /** `next_question` moves only the caller's index, by one. */
  lemma NextAdvancesByOne(states: map<int, Session>, db: Store.Db, user: int)
    requires user in states
    ensures var r := Step(states, db, user, Next);
      && user in r.states
      && r.states[user].index == states[user].index + 1
      && r.states[user].questions == states[user].questions
      && r.states[user].currentTopic == states[user].currentTopic
  {
  }

  /** After `/cancel` the user has no session, and every view sends them back to choosing. */
  lemma CancelForgets(states: map<int, Session>, db: Store.Db, user: int)
    ensures var after := Step(states, db, user, Cancel).states;
      && user !in after
      && Step(after, db, user, ShowQuestion).next == ChooseTopic
      && Step(after, db, user, Next) == Outcome(after, ChooseTopic)
  {
  }

  /** A command issued by one user. */
  datatype Event = Event(user: int, cmd: Command)

  /** The sessions after a sequence of commands, applied in arrival order. */
  function Run(states: map<int, Session>, db: Store.Db, events: seq<Event>): map<int, Session>
    decreases |events|
  {
    if events == [] then states
    else
      var last := events[|events| - 1];
      Step(Run(states, db, events[..|events| - 1]), db, last.user, last.cmd).states
  }

  /** The commands of one user, in order. */
  function OnlyOf(events: seq<Event>, user: int): (r: seq<Event>)
    ensures forall k :: 0 <= k < |r| ==> r[k].user == user
    decreases |events|
  {
    if events == [] then []
    else
      var init := OnlyOf(events[..|events| - 1], user);
      if events[|events| - 1].user == user then init + [events[|events| - 1]] else init
  }

  function Lookup(states: map<int, Session>, user: int): Option<Session> {
    if user in states then Some(states[user]) else None
  }

  /** A step for `user` reads nothing of the sessions but `user`'s own. */
  lemma StepLocal(a: map<int, Session>, b: map<int, Session>, db: Store.Db, user: int, cmd: Command)
    requires Lookup(a, user) == Lookup(b, user)
    ensures Lookup(Step(a, db, user, cmd).states, user) == Lookup(Step(b, db, user, cmd).states, user)
    ensures Step(a, db, user, cmd).next == Step(b, db, user, cmd).next
  {
  }

  /** Users do not disturb one another: over a fixed store, interleaving other users'
      commands leaves each user's session exactly as their own commands alone would. */
  lemma {:induction false} SessionsIndependent(states: map<int, Session>, db: Store.Db, events: seq<Event>, user: int)
    ensures Lookup(Run(states, db, events), user) == Lookup(Run(states, db, OnlyOf(events, user)), user)
    decreases |events|
  {
    if events != [] {
      var init := events[..|events| - 1];
      var last := events[|events| - 1];
      SessionsIndependent(states, db, init, user);
      var mine := OnlyOf(init, user);
      if last.user == user {
        assert OnlyOf(events, user) == mine + [last];
        assert (mine + [last])[..|mine|] == mine;
        StepLocal(Run(states, db, init), Run(states, db, mine), db, user, last.cmd);
      } else {
        var before := Run(states, db, init);
        assert Lookup(Step(before, db, last.user, last.cmd).states, user) == Lookup(before, user);
      }
    }
  }

  /** `k` presses of /next by `user`. */
  function Nexts(user: int, k: nat): (r: seq<Event>)
    ensures |r| == k && forall i :: 0 <= i < k ==> r[i] == Event(user, Next)
  {
    if k == 0 then [] else Nexts(user, k - 1) + [Event(user, Next)]
  }

  /** Pressing /next `k` times moves the user's index on by `k` and changes nothing else
      in their session. */
  lemma {:induction false} NextsAdvance(states: map<int, Session>, db: Store.Db, user: int, k: nat)
    requires user in states
    ensures var after := Run(states, db, Nexts(user, k));
      user in after && after[user] == states[user].(index := states[user].index + k)
    decreases k
  {
    if k > 0 {
      NextsAdvance(states, db, user, k - 1);
      RunSnoc(states, db, Nexts(user, k - 1), Event(user, Next));
    }
  }

  /** Choosing a topic and pressing /next `k` times puts the user on question `k` of the
      topic's list; the last press shows a question exactly while `k` is below its length. */
  lemma WalkThroughTopic(states: map<int, Session>, db: Store.Db, user: int, topic: string, k: nat)
    ensures var after := Run(states, db, [Event(user, Choose(topic))] + Nexts(user, k));
      && user in after
      && after[user] == Session(topic, Queries.QuestionsForTopic(db, topic), k)
    ensures k > 0 ==>
      var before := Run(states, db, [Event(user, Choose(topic))] + Nexts(user, k - 1));
      (Step(before, db, user, Next).next == Question <==> k < |Queries.QuestionsForTopic(db, topic)|)
  {
    var choose := [Event(user, Choose(topic))];
    var chosen := Run(states, db, choose);
    assert chosen == Step(states, db, user, Choose(topic)).states by {
      RunSnoc(states, db, [], choose[0]);
      assert [] + [choose[0]] == choose;
    }
    RunAppend(states, db, choose, Nexts(user, k));
    NextsAdvance(chosen, db, user, k);
    if k > 0 {
      RunAppend(states, db, choose, Nexts(user, k - 1));
      NextsAdvance(chosen, db, user, k - 1);
    }
  }

  /** Running one more command is one more step. */
  lemma RunSnoc(states: map<int, Session>, db: Store.Db, events: seq<Event>, e: Event)
    ensures Run(states, db, events + [e]) == Step(Run(states, db, events), db, e.user, e.cmd).states
  {
    assert (events + [e])[..|events|] == events;
  }

  /** Running two command sequences one after the other is running them joined. */
  lemma {:induction false} RunAppend(states: map<int, Session>, db: Store.Db, first: seq<Event>, second: seq<Event>)
    ensures Run(states, db, first + second) == Run(Run(states, db, first), db, second)
    decreases |second|
  {
    if second == [] {
      assert first + second == first;
    } else {
      var init := second[..|second| - 1];
      var last := second[|second| - 1];
      assert second == init + [last];
      assert first + second == (first + init) + [last];
      RunAppend(states, db, first, init);
      RunSnoc(states, db, first + init, last);
      RunSnoc(Run(states, db, first), db, init, last);
    }
  }
}
