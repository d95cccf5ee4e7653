# School Olympiad Quiz Bot — Dafny model

The quiz bot keeps a small SQLite database of topics and questions, filled from an
Excel workbook. The header row names the columns `Тема` (topic), `Вопрос` (question),
`Подсказка` (hint), `Ответ` (answer) and, optionally, `Сложность` (difficulty). A
workbook sent after `/start` replaces the whole store. This path is open to every user.
Only the admin menu's upload appends to the store. After a successful `/start` upload
that leaves at least one topic, the bot offers the topic names as a keyboard. Users pick
a topic and step through its questions with `/hint`, `/answer`, `/next` and `/cancel`. The bot keeps each user's position in an in-memory map from user id to session.

The model has seven modules:

- `Wrappers`: the `Option` type.
- `Spreadsheet`: the worksheet as a header row and data rows of optional text cells. It
  holds the required-header check, column lookup by the first matching header,
  Python's `str.strip()`, the per-row skip rules and the difficulty default.
- `Store`: the `topics`, `questions` and `users` tables as sequences and a map. It holds
  the table invariant (ids rising, topic names unique, every question linked to a
  topic), the topic lookup by name, the clear operation and `INSERT OR IGNORE` for
  users. The AUTOINCREMENT counters are explicit: SQLite never reuses an id, even after
  `DELETE`. It draws a topic id for every `INSERT OR IGNORE`, including one that is
  ignored because the name exists, so topic ids may have gaps.
- `Ingestion`: functions that specify the loader, row by row. Lemmas cover validity,
  append-only growth, the topic-name set, question counts and duplicate rows.
- `Queries`: the topic list (`ORDER BY name`, BINARY collation = code-point order) and
  the questions of a selected topic (`LOWER(t.name) = LOWER(?)`, `ORDER BY q.id`). SQLite's
  `lower()` folds only ASCII letters.
- `Navigation`: the conversation states, the sessions map and one transition function
  for every quiz handler. Lemmas cover isolation between users, walking through a topic
  and cancelling.
- `Bot`: the class `QuizBot`. Its fields are the tables, the users and the sessions, and
  its methods update them in place. Each method is proved against the specification
  function above: `ParseExcelFile` is a loop whose invariant is
  `Tables() == LoadRows(start, headers, rows[..i])`.

## Model

| member | source | states |
|---|---|---|
| Spreadsheet.HasRequiredHeaders | SchoolOlympiadQuizBot.py:88-91 | the header row contains each of the four required column names |
| Spreadsheet.IndexOf | SchoolOlympiadQuizBot.py:118-121 | the column used is the first header equal to the name (`list.index`) |
| Spreadsheet.Strip | SchoolOlympiadQuizBot.py:134 | the stripped topic is empty exactly when every character is Python whitespace |
| Spreadsheet.Difficulty | SchoolOlympiadQuizBot.py:129-131 | the difficulty is the `Сложность` cell when that column exists and the cell is non-empty, otherwise `'medium'`; never empty |
| Spreadsheet.Accepts | SchoolOlympiadQuizBot.py:109-136 | a row is kept when topic, question and answer are non-empty and the topic is not whitespace-only |
| Spreadsheet.ReadRow | SchoolOlympiadQuizBot.py:102-136 | a row yields an entry exactly when topic, question and answer are non-empty and the topic is not whitespace-only (blank rows are among the skipped ones); the entry carries those cells, the hint as given and the difficulty |
| Store.Valid | SchoolOlympiadQuizBot.py:37-50 | the table constraints: AUTOINCREMENT ids rising and never above the counter, topic names UNIQUE, every question's topic id referring to a stored topic |
| Store.FindTopic | SchoolOlympiadQuizBot.py:140 | `SELECT id FROM topics WHERE name = ?`: a found position holds that exact name; not found means no topic has it |
| Store.AddToExistingValid | SchoolOlympiadQuizBot.py:139-146 | filing a question under an existing topic, with the ignored topic insert using up an id, keeps ids rising, names unique and every question linked |
| Store.AddWithNewTopicValid | SchoolOlympiadQuizBot.py:139-146 | inserting a topic whose name is not yet stored, with the next AUTOINCREMENT id, and filing a question under it keeps the table invariant |
| Store.Cleared | SchoolOlympiadQuizBot.py:156-163 | both tables end empty, the id counters are kept, and the result satisfies the invariant |
| Store.InsertOrIgnore | SchoolOlympiadQuizBot.py:66-69 | the stored ids become the old ids plus the user's; existing records are untouched; a new id maps to the user |
| Store.FirstUserRecordWins | SchoolOlympiadQuizBot.py:66-69 | saving a second record under the same id leaves the first one in place |
| Ingestion.AddEntry | SchoolOlympiadQuizBot.py:139-146 | an accepted row appends exactly one question with the row's fields and the next question id. The topic insert always uses up one topic id. An existing name reuses that topic's id and leaves `topics` unchanged; a new name appends one topic carrying the id just drawn |
| Ingestion.ApplyRow | SchoolOlympiadQuizBot.py:102-146 | a skipped row leaves the tables unchanged; an accepted row adds one question |
| Ingestion.LoadRows | SchoolOlympiadQuizBot.py:102-146 | the tables after the row loop: each row in sheet order is skipped or stored |
| Ingestion.Ingest | SchoolOlympiadQuizBot.py:73-154 | success exactly when every required header is present; on failure the store is unchanged (the check precedes the delete); the invariant is preserved |
| Ingestion.AddEntryValid | SchoolOlympiadQuizBot.py:139-146 | one accepted row keeps topic names unique, ids rising and questions linked |
| Ingestion.LoadRowsValid | SchoolOlympiadQuizBot.py:102-146 | loading any rows keeps the table invariant |
| Ingestion.LoadRowsAppends | SchoolOlympiadQuizBot.py:102-146 | the rows already stored stay unchanged, and there is one new question per accepted row, in sheet order, with that row's fields under a topic of that row's name |
| Ingestion.LoadRowsTopicNames | SchoolOlympiadQuizBot.py:139-141 | the set of topic names after loading is the old set plus the topics of the accepted rows |
| Ingestion.IngestQuestionCount | SchoolOlympiadQuizBot.py:96-146 | question count = accepted rows (replace) or old count + accepted rows (append); append keeps every stored topic and question |
| Ingestion.IngestReplaceLeavesOnlySheet | SchoolOlympiadQuizBot.py:96-146 | after a replace there is exactly one question per accepted row, in order, with its fields and topic, and the topic names are exactly the accepted rows' topics |
| Ingestion.AddEntryTwice | SchoolOlympiadQuizBot.py:139-146 | adding one entry twice gives two questions equal but for their rising ids, and at most one new topic |
| Ingestion.SameRowTwice | SchoolOlympiadQuizBot.py:144-146 | two identical accepted rows give duplicate questions under one topic |
| Queries.LexLe | SchoolOlympiadQuizBot.py:228 | the BINARY collation of `ORDER BY name`: code point by code point, a proper prefix first |
| Queries.LexLeTotal | SchoolOlympiadQuizBot.py:228 | any two names are ordered one way or the other |
| Queries.LexLeTransitive | SchoolOlympiadQuizBot.py:228 | the name order is transitive |
| Queries.LexLeAntisymmetric | SchoolOlympiadQuizBot.py:228 | names ordered both ways are equal |
| Queries.Insert | SchoolOlympiadQuizBot.py:228 | inserting into a sorted list keeps it sorted and adds exactly that name |
| Queries.SortNames | SchoolOlympiadQuizBot.py:228 | the result is sorted and a permutation of the input |
| Queries.ListTopicNames | SchoolOlympiadQuizBot.py:223-232 | the topic list is sorted ascending and is a permutation of the stored names |
| Queries.SortedAllPairs | SchoolOlympiadQuizBot.py:228 | in the listing every earlier name is at most every later one |
| Queries.ListedExactlyStored | SchoolOlympiadQuizBot.py:228-229 | a name is listed exactly when some stored topic has it |
| Queries.Lower | SchoolOlympiadQuizBot.py:242 | `lower()` keeps the length and folds each character on its own, ASCII capitals only |
| Queries.Select | SchoolOlympiadQuizBot.py:240-242 | the join and filter: the stored questions, in table order, whose topic matches the selection ignoring ASCII case |
| Queries.SelectSound | SchoolOlympiadQuizBot.py:239-243 | every returned item is a stored question whose topic matches the selection |
| Queries.SelectComplete | SchoolOlympiadQuizBot.py:239-243 | every stored question whose topic matches is returned |
| Queries.SelectAscending | SchoolOlympiadQuizBot.py:243 | with ids rising in the table, returned ids are strictly ascending |
| Queries.QuestionsForTopic | SchoolOlympiadQuizBot.py:234-256 | sound, complete, and (under the table invariant) strictly ascending by id for the questions whose topic name equals the selection ignoring ASCII case |
| Queries.SelectionIgnoresAsciiCase | SchoolOlympiadQuizBot.py:242 | selections equal after `lower()` return the same questions |
| Queries.CaseVariantsExample | SchoolOlympiadQuizBot.py:38-40 | a store with topics "Pi" and "pi" satisfies the invariant (names are unique only as written) |
| Queries.TwoTopicsOneSelection | SchoolOlympiadQuizBot.py:242 | the selection "PI" returns the questions of both "Pi" and "pi", in id order |
| Queries.CyrillicCaseMatters | SchoolOlympiadQuizBot.py:242 | "алгебра" does not find the topic "Алгебра" |
| Navigation.Step | SchoolOlympiadQuizBot.py:258-373 | every handler leaves other users' sessions as they were; the three views change no session; the state returned is END exactly for `/cancel` |
| Navigation.ViewsAgree | SchoolOlympiadQuizBot.py:290-359 | question, hint and answer views return QUESTION, HINT and ANSWER exactly when the user's index points at a question, otherwise CHOOSE_TOPIC, QUESTION and QUESTION |
| Navigation.ChooseStartsAtFirst | SchoolOlympiadQuizBot.py:258-288 | choosing a topic stores that topic, its looked-up questions and index 0, and returns QUESTION exactly when the list is non-empty |
| Navigation.NextAdvancesByOne | SchoolOlympiadQuizBot.py:361-366 | `/next` raises the caller's index by one and keeps the topic and question list |
| Navigation.CancelForgets | SchoolOlympiadQuizBot.py:369-373 | after `/cancel` the user has no session, the question view returns CHOOSE_TOPIC, and `/next` returns CHOOSE_TOPIC without creating one |
| Navigation.SessionsIndependent | SchoolOlympiadQuizBot.py:28 | over a fixed store, after any interleaving of users' commands, each user's session equals what that user's own commands alone produce |
| Navigation.NextsAdvance | SchoolOlympiadQuizBot.py:361-366 | k presses of `/next` raise the index by k and change nothing else in the session |
| Navigation.WalkThroughTopic | SchoolOlympiadQuizBot.py:258-317 | choose then k × `/next` leaves the user on question k of the topic's list; the last press shows a question exactly while k is below the list length |
| Navigation.RunAppend | SchoolOlympiadQuizBot.py:28 | running two command sequences one after the other is running them joined |
| Bot.QuizBot.SaveUser | SchoolOlympiadQuizBot.py:55-71 | the users map becomes `InsertOrIgnore` of the old map |
| Bot.QuizBot.ClearDatabase | SchoolOlympiadQuizBot.py:156-163 | the tables become `Cleared` of the old tables and satisfy the invariant |
| Bot.QuizBot.CheckHeaders | SchoolOlympiadQuizBot.py:88-91 | true exactly when every required header is present |
| Bot.QuizBot.SaveEntry | SchoolOlympiadQuizBot.py:139-146 | the tables become `AddEntry` of the old tables |
| Bot.QuizBot.ParseExcelFile | SchoolOlympiadQuizBot.py:73-154 | the result and the new tables equal `Ingest` of the old tables; the invariant is preserved |
| Bot.QuizBot.GetTopics | SchoolOlympiadQuizBot.py:223-232 | the result is `ListTopicNames` of the tables; the returned names are sorted and are a permutation of the stored names |
| Bot.QuizBot.GetQuestionsForTopic | SchoolOlympiadQuizBot.py:234-256 | the result is `QuestionsForTopic` of the tables, ascending by id while the invariant holds |
| Bot.QuizBot.ChooseTopic | SchoolOlympiadQuizBot.py:258-288 | the sessions and the returned state are those of `Step` for `Choose` |
| Bot.QuizBot.ShowQuestion | SchoolOlympiadQuizBot.py:290-317 | the returned state is that of `Step` for the question view; nothing changes |
| Bot.QuizBot.ShowHint | SchoolOlympiadQuizBot.py:319-339 | the returned state is that of `Step` for the hint view; nothing changes |
| Bot.QuizBot.ShowAnswer | SchoolOlympiadQuizBot.py:341-359 | the returned state is that of `Step` for the answer view; nothing changes |
| Bot.QuizBot.NextQuestion | SchoolOlympiadQuizBot.py:361-367 | the sessions and the returned state are those of `Step` for `/next` |
| Bot.QuizBot.Cancel | SchoolOlympiadQuizBot.py:369-373 | the sessions and the returned state are those of `Step` for `/cancel` |
| Bot.QuizBot.constructor | SchoolOlympiadQuizBot.py:24-28 | a new bot starts with empty tables, no users and no sessions |

## Left out

- Telegram I/O: message texts, reply keyboards, `start`, `upload_file`, the admin
  handlers, the admin-id check and the `ConversationHandler` wiring that routes each
  update to a handler. The model has the handlers' effects on the sessions and their
  returned states, but not which handler a state admits.
- File handling: downloading the document, the `.xlsx` extension check, temporary
  files, and `openpyxl` opening the workbook. The worksheet is given as a header row and
  data rows; an unreadable workbook, which makes the loader return false, is not
  modelled.
- Cell types: cells are text or empty. Numbers and dates, and `str()` applied to them
  before stripping, are not modelled.
- The conversation-state integers (`range(8)` and -1 for END) are left out. The model
  tells the states apart by name only.
- The column-count check at SchoolOlympiadQuizBot.py:113 is left out. It can never skip a
  row, because every row is read with as many cells as there are headers, and four
  required headers are present.
- Errors inside the row loop: such an error makes the loader return false. Nothing is
  committed before SchoolOlympiadQuizBot.py:148, so the store stays as it was, deletes
  included. The model has no such error, because each row's topic lookup always
  succeeds after the insert.
- SQLite mechanics: connections, commits, `PRAGMA foreign_keys` and `ON DELETE CASCADE`.
  The foreign key appears only as the `Linked` invariant. The tables live in memory and
  start empty, so a database file that persists between runs (`init_database`) is not
  modelled.
- Logging, the asynchronous event loop and `PicklePersistence` are left out.
- Collations: names are ordered by Unicode code point, which is what SQLite's BINARY
  collation gives on UTF-8. Other collations are not modelled.
- Case folding: `lower()` folds only `A`–`Z`, as SQLite's built-in function does. The
  ICU extension's Unicode folding is not modelled, so Cyrillic topic names match
  case-sensitively.
