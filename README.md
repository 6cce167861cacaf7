# LexiGO core, modelled in Dafny

LexiGO is a Telegram bot for learning English vocabulary. A user types a
word. The bot answers from a shared definition cache, or asks a language
model and caches the answer. The user can put the word on a personal study
list and then take flashcard quizzes scheduled by an Anki-like spaced
repetition scheduler. Administrators can broadcast a message to every user.

This project models the bot's core:

- the tables (users, the definition cache, the study list), as one object
  `Tables.Database` whose fields the updates reassign;
- the database operations: each query is a function of the tables, and each
  update is a module-level method that takes the `Database` object and is
  specified by a pure function of the old tables:
  - `save_to_global_dict` and `get_cached_definition`
  - `add_to_study_list` and `get_user_dictionary`
  - `add_user`
  - `get_due_words`, `get_study_details` and `update_anki_progress`
- the route handlers:
  - search, and "add to dictionary"
  - the quiz: `start_quiz`, `show_definition`, `handle_quiz_grade`
  - the admin panel and the broadcast loop with its progress bar
- the per-chat session data (`last_word`, `failed_words`, the
  broadcast-waiting state), as the object `Fsm.Context`;
- the older single-table module `src/database.py`, with its boolean
  learning-step scheduler, as module `Legacy`.

Python's truncating `int()` is written out as `Srs.TruncDiv`. The ease factor
is kept in tenths: 25 means 2.5. Time is a parameter `now` in seconds. The
language model, the channel-membership check, the user-id list and the
outcome of each Telegram send are parameters of the handlers that use them.

Modules:

| file | module | models |
|---|---|---|
| wrappers.dfy | Wrappers | Option, Min, Max |
| text.dfy | Text | `str.lower().strip()`, `split(":")`, `int()` / f-string integers |
| ordering.dfy | Ordering | `ORDER BY key` with ties broken by id (insertion sort) |
| models.dfy | Models | rows of `src/database/models.py` |
| tables.dfy | Tables | the database object and its integrity invariants |
| users.dfy | Users | `src/database/users.py` |
| dictionary.dfy | Dictionary | `src/database/dictionary.py` |
| srs.dfy | Srs | `src/database/quiz.py` |
| fsm.dfy | Fsm | the aiogram FSM storage for one chat |
| keyboards.dfy | Keyboards | the callback data of `src/keyboards.py` |
| search_route.dfy | SearchRoute | `src/routes/search.py` |
| menu_route.dfy | MenuRoute | `src/routes/menu.py` |
| quiz_routes.dfy | QuizRoutes | `src/routes/quiz.py` |
| admin_route.dfy | AdminRoute | `src/routes/admin.py` |
| legacy.dfy | Legacy | `src/database.py` |

## Model

| member | source | states |
|---|---|---|
| Text.Normalize | src/database/dictionary.py:8 | `lower().strip()` yields a key with no whitespace at either end and no upper-case letter, never longer than the input |
| Text.NormalizeIdempotent | src/database/dictionary.py:8 | normalising (lower, then strip) a normalised word changes nothing |
| Text.StripLowerCommute | src/routes/search.py:14 | `strip().lower()` as the search handler writes it equals the cache's `lower().strip()` |
| Text.NormalizeIgnoresPadding | src/database/dictionary.py:31 | surrounding whitespace never changes the cache key |
| Text.NormalizeIgnoresCase | src/database/dictionary.py:31 | lower-casing first never changes the cache key |
| Text.StripSplits | src/database/dictionary.py:8 | `strip()` removes only whitespace from the two ends and leaves no whitespace at either end |
| Text.LowerConcat | src/database/dictionary.py:8 | lower-casing works character by character, so it distributes over concatenation |
| Text.SplitAt | src/routes/quiz.py:101 | `split(":")` cuts at the first colon and splits the rest again |
| Text.SplitPlain | src/routes/quiz.py:75 | a text without a colon splits into itself alone |
| Text.Join | src/database/dictionary.py:14-15 | `sep.join`: nothing for no pieces, the piece itself for one, and otherwise the pieces' lengths plus one separator between neighbours, starting with the first piece |
| Text.SplitJoin | src/database/dictionary.py:14-15 | splitting a join on a one-character separator that no piece contains gives back the pieces |
| Text.IntRoundTrip | src/routes/quiz.py:102 | `int()` reads back every integer that an f-string wrote |
| Text.IntToString | src/keyboards.py:19 | an integer's text is non-empty and has no colon, so it is safe inside callback data |
| Ordering.SortSorted | src/database/quiz.py:14 | with distinct tie keys, the sort yields ascending keys with ties in id order |
| Ordering.FindKey | src/database/quiz.py:31 | `session.get` by primary key: the first position holding that key, or none exactly when no row has it |
| Ordering.PrefixIsEarliest | src/database.py:80 | a prefix of a sorted list holds elements that precede everything after it (`ORDER BY ... LIMIT`) |
| Tables.Database.constructor | src/database/models.py:7-32 | empty tables satisfy the table invariants (ids increasing, one row per user and word, cache keyed by word) |
| Users.Registered | src/database/users.py:5-12 | the user is present afterwards; an existing user is left as is; a new user adds exactly one entry |
| Users.RegisteredIdempotent | src/database/users.py:7-12 | registering twice is the same as registering once |
| Users.AddUser | src/database/users.py:5-12 | returns true exactly when the user was absent; the user table becomes `Registered` of the old one |
| Dictionary.MakeEntry | src/database/dictionary.py:8-25 | the stored row is keyed by the normalised word; definition and example are copied; a present pronunciation, level or importance rate is stored as given and a missing one as '', 'N/A' or '5/10'; a synonym list is stored joined with ", ", a synonym text as given, and no synonyms as '' |
| Dictionary.WithEntry | src/database/dictionary.py:8-25 | the normalised key is present afterwards; an existing key leaves the cache unchanged; otherwise only that key is added |
| Dictionary.SaveToGlobalDict | src/database/dictionary.py:6-26 | the cache becomes `WithEntry` of the old cache, and the table invariants are kept |
| Dictionary.GetCachedDefinition | src/database/dictionary.py:29-42 | none exactly when the normalised word is not cached; otherwise the cached entry |
| Dictionary.LookupAfterSave | src/database/dictionary.py:6-42 | after a save, every spelling with the same normal form finds the entry: the old one if the key existed, the payload with defaults if not |
| Dictionary.FirstWriteWins | src/database/dictionary.py:10-11 | a second save of the same key changes nothing |
| Dictionary.EntryDefaults | src/database/dictionary.py:13-24 | missing pronunciation, level, importance rate and synonyms are stored as '', 'N/A', '5/10' and '' |
| Dictionary.FindPair | src/database/dictionary.py:50-51 | finds a row of that user and word exactly when one exists |
| Dictionary.AddToStudyList | src/database/dictionary.py:45-64 | adds exactly when the user does not yet study the normalised word; the new row is learning, step 0, interval 1, ease 2.5, due now, under a fresh id |
| Dictionary.UserRowsDesc | src/database/dictionary.py:71-79 | the join in descending id order: only the user's rows, each with its cache entry, and every row of the user whose word is cached |
| Dictionary.Window | src/database/dictionary.py:76-77 | `LIMIT`/`OFFSET`: at most `limit` rows, the rows from `offset` on |
| Dictionary.GetUserDictionary | src/database/dictionary.py:67-90 | the page is the slice from `page*limit` of the joined, newest-first list, at most `limit` rows and exactly `limit` when enough rows follow; `has_next` holds exactly when the user has more than `(page+1)*limit` study rows, counted without the join |
| Dictionary.PageNewestFirst | src/database/dictionary.py:67-79 | a page holds at most `limit` of the user's own rows, newest first, each with its entry |
| Dictionary.PagesTile | src/database/dictionary.py:69-77 | row `i` of the full list is entry `i % limit` of page `i / limit` |
| Dictionary.JoinedCount | src/database/dictionary.py:71-88 | when every row has a cache entry, the join drops no row |
| Dictionary.HasNextMeansMore | src/database/dictionary.py:81-88 | when every study row has its cache entry, `has_next` holds exactly when the next page is non-empty (its count clause holds without that condition too) |
| Srs.ParseGrade | src/database/quiz.py:37-63 | "again", "good" and "easy" are grades; every other text is not |
| Srs.GradeNameRoundTrip | src/database/quiz.py:37-63 | each grade's name parses back to that grade |
| Srs.Transition | src/database/quiz.py:35-63 | one answer keeps the row's id, user and word, and never schedules it before now |
| Srs.TransitionKeepsConsistent | src/database/quiz.py:35-63 | from a consistent row every grade gives a consistent row: ease within 1.3 to 3.0, a learning row on step 0 or 1, a review row on step 0 with an interval of at least one day |
| Srs.AgainResets | src/database/quiz.py:37-42 | "again" returns any row to learning step 0 with interval 0, due at once, and lowers ease by 0.2 but not below 1.3 |
| Srs.GoodInLearning | src/database/quiz.py:45-53 | "good" on learning step 0 moves to step 1 for ten minutes; on any other step it graduates to review for one day |
| Srs.GoodOutsideLearning | src/database/quiz.py:54-56 | "good" in review sets a non-negative interval to `max(1, int(interval * ease))` exactly, and always to at least one day, due that many days from now |
| Srs.EasyPromotes | src/database/quiz.py:58-63 | "easy" moves any row to review, step 0, with a non-negative interval becoming `max(4, int(interval * ease * 1.3))` exactly and any interval at least four days, and raises ease by 0.1 but not above 3.0 |
| Srs.GoodNeverShortens | src/database/quiz.py:54-56 | with the ease at least 1.3, "good" in review never shortens the interval |
| Srs.EasyNoSoonerThanGood | src/database/quiz.py:44-63 | from the same review row, "easy" never schedules sooner than "good" |
| Srs.LearningLadder | src/database/quiz.py:44-53 | a new row that is answered "good" twice reaches review with a one-day interval |
| Srs.ApplyGrade | src/database/quiz.py:29-65 | the table keeps its length and every row's id, user and word; every row with another id is unchanged |
| Srs.ApplyGradeEffect | src/database/quiz.py:29-65 | an unknown id or an unknown grade leaves the table unchanged; otherwise exactly that row takes one `Transition` |
| Srs.UpdateAnkiProgress | src/database/quiz.py:29-65 | the row list becomes `ApplyGrade` of the old one, and the table invariants are kept |
| Srs.DueRows | src/database/quiz.py:11-13 | exactly the user's rows due by now that have a cache entry, each with that entry |
| Srs.DueRowsIncreasing | src/database/quiz.py:11-13 | the filter keeps table order, so ids increase |
| Srs.GetDueWords | src/database/quiz.py:7-16 | a row is in the result exactly when it is one of the user's rows due by now, joined with its cache entry |
| Srs.DueWordsSpec | src/database/quiz.py:7-16 | the due list holds exactly the due, cached rows of the user, by `next_review` with ties in id order |
| Srs.GetStudyDetails | src/database/quiz.py:19-26 | the row with that id and its entry, or none exactly when no such row has a cache entry |
| Srs.NewItemIsDue | src/database/dictionary.py:54-62 | a row just added to the study list is due at once |
| Srs.AgainMakesDue | src/database/quiz.py:37-42 | a row answered "again" is in the user's due list at once |
| Fsm.Context.constructor | src/states.py:1-5 | a new chat has no last word, no failed words and no pending broadcast |
| Fsm.Context.Clear | src/routes/admin.py:128 | `state.clear()` drops all three session fields |
| Keyboards.ParseShowData | src/routes/quiz.py:75 | the id is the integer after the first colon, and there is none without a colon |
| Keyboards.ParseGradeData | src/routes/quiz.py:101-102 | accepts exactly three colon-separated parts with an integer in the middle |
| Keyboards.ShowRoundTrip | src/keyboards.py:19 | the show button's data parses back to its word id |
| Keyboards.GradeRoundTrip | src/keyboards.py:25-26 | a grade button's data parses back to its id and grade when the grade has no colon |
| Keyboards.ColonGradeRejected | src/routes/quiz.py:101 | a grade containing a colon gives four or more parts, and the handler cannot unpack them |
| SearchRoute.HandleSearch | src/routes/search.py:12-62 | registers the user; ignores commands; asks non-subscribers to join; answers from the cache, or else asks the model and caches only a real answer; after a found answer, `last_word` is a cached word |
| MenuRoute.CallbackAddWord | src/routes/menu.py:23-42 | no or empty last word expires the session; an uncached word crashes; a cached word is always either added or reported as already listed: it is added exactly when new, which clears `last_word`, and the new row is in the user's due list at once |
| QuizRoutes.WithoutDue | src/routes/quiz.py:19-20 | the failed ids that are not due now |
| QuizRoutes.WithoutDueAppend | src/routes/quiz.py:20 | the comprehension filters each part of a list separately, so it keeps the list's order |
| QuizRoutes.WithoutDueHead | src/routes/quiz.py:20-42 | the first kept id is the first failed id that is not due, every id before it is due, and the rest of the kept list filters what follows it |
| QuizRoutes.FirstFresh | src/routes/quiz.py:26-31 | the first due row whose id has not failed, or none when every due id has failed |
| QuizRoutes.FirstNotFailed | src/routes/quiz.py:27-31 | the loop stops at the first due row whose id has not failed, and runs to the end when there is none |
| QuizRoutes.StartQuiz | src/routes/quiz.py:10-70 | the screen shown and the stored failed list are those `Select` gives for the due list and the old failed list |
| QuizRoutes.Select | src/routes/quiz.py:10-61 | the stored failed list is part of the old one; a flashcard shows a due row that has not failed; a re-learning card shows a due row, or a studied row whose id has failed and is not due |
| QuizRoutes.SelectCases | src/routes/quiz.py:26-61 | the four priorities: a fresh due row, else the first due row, else the first failed id still in the tables (dropping stale ids), else the session is complete and the list is emptied |
| QuizRoutes.SessionCompleteIff | src/routes/quiz.py:51-61 | the session is complete exactly when nothing is due and no failed id has a row with a cache entry; the failed list is then empty |
| QuizRoutes.SelectKeepsNoDup | src/routes/quiz.py:40-53 | the stored failed list is a duplicate-free part of the old one |
| QuizRoutes.DueServedFirst | src/routes/quiz.py:26-38 | while anything is due the card is a due row and the failed list is left alone |
| QuizRoutes.ShowDefinition | src/routes/quiz.py:73-96 | malformed data raises; "Word not found" is shown exactly when no row with that id has a cache entry; otherwise the card holds the row `get_study_details` returns, with its entry, and the buttons `quiz_grade_kb` builds as written (grades "0" and "1") |
| QuizRoutes.ShowButtonOpensCard | src/routes/quiz.py:73-96 | the show button of any studied, cached row opens that row's card, with the as-written "0"/"1" grade buttons |
| QuizRoutes.RemoveFirst | src/routes/quiz.py:113-114 | `list.remove`: one occurrence fewer when present, the list unchanged otherwise |
| QuizRoutes.RemoveFirstAt | src/routes/quiz.py:113-114 | `list.remove` deletes the first occurrence and keeps the other ids in their order |
| QuizRoutes.UpdateFailed | src/routes/quiz.py:106-116 | after "again" the id is in the list; every other id is in it exactly when it was before; the list grows by at most one |
| QuizRoutes.UpdateFailedSpec | src/routes/quiz.py:106-116 | "again" appends a new id at the end and leaves a listed one in place; every other grade deletes the first occurrence, keeping the order of the rest; the list stays duplicate-free |
| QuizRoutes.HandleQuizGrade | src/routes/quiz.py:99-119 | malformed data changes nothing; otherwise the grade is applied, the failed list is updated, and the next screen is `Select` of the new state |
| QuizRoutes.WrittenForgotIsLost | src/keyboards.py:25 | the "Forgot" button sends grade "0": the scheduler ignores it and the id leaves the failed list |
| QuizRoutes.WrittenRememberedIsIgnored | src/keyboards.py:26 | the "Remembered" button sends grade "1", which the scheduler ignores |
| QuizRoutes.GradeButtonsReachScheduler | src/routes/quiz.py:104-116 | with "again" and "good" as the button grades, both reach the scheduler and the failed list as intended |
| AdminRoute.ProgressBar | src/routes/admin.py:198-200 | the bar is made of filled and empty cells only, and has `length` cells for 0 to 100 percent |
| AdminRoute.ProgressBarShape | src/routes/admin.py:198-200 | for 0 to 100 percent, the bar has `length` cells: `int(length*percent/100)` filled ones, then empty ones |
| AdminRoute.ProgressBarEnds | src/routes/admin.py:198-200 | 0% is all empty and 100% is all filled |
| AdminRoute.CountsAddUp | src/routes/admin.py:143-160 | sent plus failed equals the number of attempts, and blocked never exceeds failed; applied to a prefix of the outcomes, this holds at every point of the loop |
| AdminRoute.ForbiddenIdsSpec | src/routes/admin.py:151-155 | users are marked inactive exactly for the sends that were forbidden, one mark per blocked send |
| AdminRoute.RefreshCount | src/routes/admin.py:162-171 | the progress message is refreshed every ten sends and on the last one |
| AdminRoute.LastRefreshComplete | src/routes/admin.py:163-164 | the last refresh shows 100% and counts every send |
| AdminRoute.PercentBounds | src/routes/admin.py:164 | the percentage shown stays between 0 and 100 |
| AdminRoute.HandleBroadcastMessage | src/routes/admin.py:123-184 | non-admins change nothing; an admin's session is cleared; no users gives "No users found"; otherwise the totals, the inactive marks and the progress refreshes are those the count functions give |
| AdminRoute.HandleAdminAction | src/routes/admin.py:41-120 | non-admins are ignored; "Mailing" sets the waiting state; "Cancel" clears the session; the other actions leave it alone |
| Legacy.PyIndex | src/database.py:100 | Python indexing: defined exactly for `-len <= i < len`, and negative indices count from the end |
| Legacy.Store.constructor | src/database.py:14-35 | empty tables satisfy the table invariants (ids increasing and below the next id, one row per user and word text) |
| Legacy.AddUser | src/database.py:43-52 | true exactly when the user was new; the user set gains that user |
| Legacy.FindText | src/database.py:57-58 | finds a row of that user and text exactly when one exists |
| Legacy.AddWord | src/database.py:54-75 | adds exactly when the user has no row with that text; the new row is learning, step 0, interval 1, due in one minute; the table invariants, one row per user and text among them, are kept |
| Legacy.DueFilter | src/database.py:80 | exactly the user's rows due by now |
| Legacy.DueFilterIncreasing | src/database.py:80 | the filter keeps table order, so ids increase |
| Legacy.GetDueWords | src/database.py:77-81 | at most ten rows, each a row of the table that belongs to the user and is due by now |
| Legacy.DueWordsSpec | src/database.py:77-81 | at most ten due rows of the user, by `next_review`; every due row left out comes after all that are shown |
| Legacy.GetWord | src/database.py:83-85 | the row with that id, or none exactly when there is no such row |
| Legacy.Step | src/database.py:93-117 | the step fails exactly for a remembered learning row at step -4 or below; otherwise it keeps the row's id, user, text, definition, example and pronunciation |
| Legacy.StepKeepsLadder | src/database.py:93-117 | on a row at step 0 or 1 every answer succeeds, keeps the row at step 0 or 1, and keeps its identity and text |
| Legacy.StepTable | src/database.py:95-117 | remembered: step 0 goes to step 1 for ten minutes, step 1 graduates to review for a day, review doubles the interval; forgotten: step 0 for one minute |
| Legacy.StepOffLadder | src/database.py:97-100 | a learning step of -4 or below makes `LEARNING_STEPS[step]` raise |
| Legacy.ApplyAnswer | src/database.py:87-119 | the table keeps its length and every row's id, user and text; every row with another id is unchanged |
| Legacy.UpdateWordProgress | src/database.py:87-119 | the row list becomes `ApplyAnswer` of the old one; the result is false exactly when the step index raised |
| Legacy.LadderScenario | src/database.py:95-111 | a new word graduates after two remembered answers and then doubles its interval |

## Left out

- Persistence, sessions and `async`: each handler runs to completion against one `Database` object, with no interleaving between chats.
- Telegram rendering: message texts, HTML, button labels and keyboard layout are not modelled. Replies are datatypes naming the screen or alert shown.
- The language model (`src/services/llm.py`) is a parameter `llm` of `SearchRoute.HandleSearch`. Its JSON parsing, and a payload that lacks `word`, `definition` or `example` (a `KeyError` in the source, at src/routes/search.py:44 and src/database/dictionary.py:8 and 19-20), are not modelled: a payload always has all three fields.
- SearchRoute.HandleSearch: the channel-membership check is the parameter `subscribed`. The source's `is_subscribed` also answers true when the Telegram call fails (src/core/bot.py:19-26); the model takes that as the parameter's value.
- `get_stats`, `get_all_user_ids` and `mark_user_inactive` are imported from `src/database/__init__.py:10-14`, but `src/database/admin.py` defines only `get_admin_stats`. Their bodies are not part of this model:
  - the broadcast gets the user ids as a parameter;
  - `mark_user_inactive` is recorded as the list `marked` that the handler returns;
  - the statistics screen is the reply `StatsShown` with no counts.
  - as written, importing the package `src.database` raises `ImportError`, so no handler can start; the model assumes the three functions exist with the behaviour above.
- AdminRoute.HandleBroadcastMessage: the outcome of each `copy_message` is the parameter `results`. The 0.05-second sleep is left out, and so is the routing that reaches the handler only in the `waiting_for_broadcast` state.
- AdminRoute.Percent: the source computes `int(((i + 1) / total) * 100)` in floating point, and the model uses the exact integer `(i + 1) * 100 / total`. They can differ by one: at the refresh after 290 of 1000 users the float is 28.999999999999996, so the source shows 28% where the model shows 29%. The progress bar's `int(length * percent / 100)` is modelled exactly in the same way.
- Srs.Transition: the source keeps `ease_factor` as a float (2.5, adding 0.1, subtracting 0.2). The model keeps exact tenths, so it does not reproduce float drift. For example, after two "again" answers the float ease is 2.0999999999999996, and "good" on a review row with interval 10 gives 20 days in the source and 21 in the model.
- Text.ParseInt: reads an optional `-` or `+` sign followed by ASCII digits. Python's `int()` also accepts surrounding whitespace, underscores between digits and non-ASCII digits; those forms cannot come from the bot's own buttons.
- Text.Lower: lower-cases ASCII letters only; Python's `str.lower` also folds other scripts. Text.IsSpace is the full set of characters for which Python's `str.isspace` is true.
- Srs.GetDueWords: SQL leaves the order of rows with equal `next_review` unspecified. The model breaks ties by id. Legacy.GetDueWords does the same.
- Dictionary.GetUserDictionary: `has_next` is counted without the join, as in the source. Only the second clause of `Dictionary.HasNextMeansMore` (`has_next` exactly when the next page is non-empty) needs every study row to have its cache entry; the count clause holds without it.
- `importance_rate` is kept as text, whatever JSON type the language model returns for it (its prompt's example, src/services/llm.py:28, sends the integer 8). The conversion on storing into the `String(50)` column is not modelled.
- The admin router is never registered: `register_all_routers` (src/routes/__init__.py:8-13) includes the start, search, menu, dictionary and quiz routers only. As wired, no `AdminRoute` handler can be reached; the model describes the handlers as written.
- `src/routes/dictionary.py:4` imports `dictionary_pagination_kb`, which `src/keyboards.py` does not define, so importing that route module fails as written.
- The route in `src/routes/dictionary.py` that pages through the study list, the start screen (`src/routes/start.py`), text-to-speech (`src/services/tts.py`) and the migration script (`src/migrate.py`) are outside the modelled core.
- Time: every handler takes one `now` for the whole call. The source reads the clock separately in each database function.

## Findings

| source | as written | input that shows it | evidently intended | confidence | as-written member | corrected member |
|---|---|---|---|---|---|---|
| src/keyboards.py:25-26 | the quiz's grade buttons send `grade:<id>:0` and `grade:<id>:1`, but `update_anki_progress` knows only "again", "good" and "easy", and `handle_quiz_grade` adds an id to the failed list only for "again" | pressing either button on any card, e.g. data `grade:7:0` | "Forgot" sends "again" and "Remembered" sends "good", so the answer reaches the scheduler and "Forgot" re-queues the word | not executed | QuizRoutes.WrittenForgotIsLost | QuizRoutes.GradeButtonsReachScheduler |
