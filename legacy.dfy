/** The older-generation store and scheduler (src/database.py): its own
    `users` and `words` tables, where each word row carries its definition,
    and a remembered/forgot ladder of learning steps [1 min, 10 min]
    followed by a doubling review interval. */
module Legacy {
  import opened Wrappers
  import opened Models
  import opened Ordering

  /** One row of the older `words` table. */
  datatype Word = Word(
    id: int,
    userId: int,
    word: string,
    definition: string,
    example: string,
    pronunciation: string,
    phase: Phase,
    step: int,
    nextReview: int,
    interval: int)

  /** The fields `add_word` reads from its payload. */
  datatype WordData = WordData(word: string, definition: string, example: string, pronunciation: Option<string>)

  /** `LEARNING_STEPS`, in minutes. */
  const LearningSteps: seq<int> := [1, 10]

  /** Python list indexing: a negative index counts from the end; None
      where Python raises IndexError. */
  function PyIndex(s: seq<int>, i: int): (r: Option<int>)
    ensures r.Some? <==> -|s| <= i < |s|
    ensures 0 <= i < |s| ==> r == Some(s[i])
    ensures -|s| <= i < 0 ==> r == Some(s[|s| + i])
  {
    if 0 <= i < |s| then Some(s[i])
    else if -|s| <= i < 0 then Some(s[|s| + i])
    else None
  }

  /** Ids increase along the table. The older module keeps its own table
      of `Word` rows, so this predicate and the helpers `TailIncreasing` and
      `ConsIncreasing` below restate, for `Word`, what `Tables` and `Srs`
      state for `UserWord`. */
  predicate IdsIncreasing(ws: seq<Word>)
  {
    forall i, j :: 0 <= i < j < |ws| ==> ws[i].id < ws[j].id
  }

  /** At most one row per user and word text: `add_word` refuses a
      duplicate, and its `scalar_one_or_none()` relies on that. */
  predicate UniqueTexts(ws: seq<Word>)
  {
    forall i, j :: 0 <= i < j < |ws| ==> ws[i].userId != ws[j].userId || ws[i].word != ws[j].word
  }

  /** The user has a row with exactly this word text. */
  predicate HasText(ws: seq<Word>, userId: int, text: string)
  {
    exists i :: 0 <= i < |ws| && ws[i].userId == userId && ws[i].word == text
  }

  class Store {
    var users: set<int>
    var words: seq<Word>
    var nextId: int

    ghost predicate Valid()
      reads this
    {
      && 1 <= nextId
      && IdsIncreasing(words)
      && UniqueTexts(words)
      && (forall i :: 0 <= i < |words| ==> 1 <= words[i].id < nextId)
    }

    constructor ()
      ensures Valid()
      ensures users == {} && words == [] && nextId == 1
    {
      users := {};
      words := [];
      nextId := 1;
    }
  }

  /** `add_user`: true exactly when the user was absent; the user is
      present afterwards and no other user is touched. */
  method AddUser(db: Store, userId: int) returns (isNew: bool)
    modifies db`users
    ensures isNew == (userId !in old(db.users))
    ensures db.users == old(db.users) + {userId}
  {
    if userId !in db.users {
      db.users := db.users + {userId};
      return true;
    }
    return false;
  }

  /** The row `add_word` inserts: learning step 0, interval 1, due one
      minute after `now`. */
  function NewWord(id: int, userId: int, data: WordData, now: int): Word
  {
    Word(id, userId, data.word, data.definition, data.example, data.pronunciation.GetOr(""),
         Learning, 0, now + 60, 1)
  }

  function FindText(ws: seq<Word>, userId: int, text: string): (r: Option<nat>)
    ensures r.Some? ==> r.value < |ws| && ws[r.value].userId == userId && ws[r.value].word == text
    ensures r.None? <==> !HasText(ws, userId, text)
  {
    if |ws| == 0 then None
    else if ws[0].userId == userId && ws[0].word == text then Some(0)
    else
      match FindText(ws[1..], userId, text)
      case Some(i) => Some(i + 1)
      case None =>
        assert forall i :: 1 <= i < |ws| ==> ws[i] == ws[1..][i - 1];
        None
  }

  /** `add_word`: refuses a word text the user already has (compared
      exactly, without normalisation); otherwise appends one row. */
  method AddWord(db: Store, userId: int, data: WordData, now: int) returns (added: bool)
    requires db.Valid()
    modifies db`words, db`nextId
    ensures db.Valid()
    ensures added == !HasText(old(db.words), userId, data.word)
    ensures added ==> db.words == old(db.words) + [NewWord(old(db.nextId), userId, data, now)]
    ensures added ==> db.nextId == old(db.nextId) + 1
    ensures !added ==> db.words == old(db.words) && db.nextId == old(db.nextId)
  {
    var existing := FindText(db.words, userId, data.word);
    if existing.Some? {
      return false;
    }
    db.words := db.words + [NewWord(db.nextId, userId, data, now)];
    db.nextId := db.nextId + 1;
    return true;
  }

  // ---------------------------------------------------------------------
  // Queries
  // ---------------------------------------------------------------------

  function NextReviewOf(w: Word): int { w.nextReview }
  function IdOf(w: Word): int { w.id }

  /** The user's rows with `next_review <= now`, in table order. */
  function DueFilter(ws: seq<Word>, userId: int, now: int): (r: seq<Word>)
    ensures forall x :: x in r <==> x in ws && x.userId == userId && x.nextReview <= now
  {
    if ws == [] then []
    else
      var rest := DueFilter(ws[1..], userId, now);
      assert forall x :: x in ws[1..] ==> x in ws;
      assert forall x :: x in ws ==> x == ws[0] || x in ws[1..];
      if ws[0].userId == userId && ws[0].nextReview <= now then [ws[0]] + rest else rest
  }

  lemma TailIncreasing(ws: seq<Word>)
    requires |ws| > 0 && IdsIncreasing(ws)
    ensures IdsIncreasing(ws[1..])
  {
    forall i, j | 0 <= i < j < |ws[1..]|
      ensures ws[1..][i].id < ws[1..][j].id
    {
      assert ws[1..][i] == ws[i + 1] && ws[1..][j] == ws[j + 1];
    }
  }

  lemma ConsIncreasing(h: Word, rest: seq<Word>)
    requires IdsIncreasing(rest)
    requires |rest| > 0 ==> h.id < rest[0].id
    ensures IdsIncreasing([h] + rest)
  {
    var r := [h] + rest;
    forall i, j | 0 <= i < j < |r|
      ensures r[i].id < r[j].id
    {
      assert r[j] == rest[j - 1];
      if i > 0 {
        assert r[i] == rest[i - 1];
      }
    }
  }

  /** The filter keeps table order, so the due rows have increasing ids,
      none below the first row's. */
  lemma {:induction false} DueFilterIncreasing(ws: seq<Word>, userId: int, now: int)
    requires IdsIncreasing(ws)
    ensures IdsIncreasing(DueFilter(ws, userId, now))
    ensures |ws| > 0 && |DueFilter(ws, userId, now)| > 0 ==> DueFilter(ws, userId, now)[0].id >= ws[0].id
  {
    if ws != [] {
      var rest := DueFilter(ws[1..], userId, now);
      TailIncreasing(ws);
      DueFilterIncreasing(ws[1..], userId, now);
      var r := DueFilter(ws, userId, now);
      if ws[0].userId == userId && ws[0].nextReview <= now {
        assert r == [ws[0]] + rest;
        assert |rest| > 0 ==> |ws| > 1 && rest[0].id >= ws[1].id > ws[0].id;
        ConsIncreasing(ws[0], rest);
      } else {
        assert r == rest;
        assert |r| > 0 ==> |ws| > 1 && r[0].id >= ws[1].id > ws[0].id;
      }
    }
  }

  /** `get_due_words`: the due rows by `next_review`, ties in id order, at
      most ten. */
  function GetDueWords(ws: seq<Word>, userId: int, now: int): (r: seq<Word>)
    ensures |r| <= 10
    ensures forall x :: x in r ==> x in ws && x.userId == userId && x.nextReview <= now
  {
    var due := Sort(NextReviewOf, IdOf, DueFilter(ws, userId, now));
    if |due| <= 10 then due else due[..10]
  }

  /** At most ten rows, all of them the user's and due, earliest first;
      a due row left out comes after every row returned, and with ten or
      fewer due rows none is left out. */
  lemma DueWordsSpec(ws: seq<Word>, userId: int, now: int)
    requires IdsIncreasing(ws)
    ensures var r := GetDueWords(ws, userId, now);
      && |r| <= 10
      && (forall x :: x in r ==> x in ws && x.userId == userId && x.nextReview <= now)
      && Sorted(NextReviewOf, IdOf, r)
      && (forall y :: y in ws && y.userId == userId && y.nextReview <= now && y !in r ==>
            |r| == 10 && forall x :: x in r ==> Precedes(NextReviewOf, IdOf, x, y))
  {
    var all := Sort(NextReviewOf, IdOf, DueFilter(ws, userId, now));
    DueFilterIncreasing(ws, userId, now);
    SortSorted(NextReviewOf, IdOf, DueFilter(ws, userId, now));
    var r := GetDueWords(ws, userId, now);
    if |all| > 10 {
      assert r == all[..10];
      forall x | x in r
        ensures x in all
      {
        var k :| 0 <= k < 10 && r[k] == x;
        assert all[k] == x;
      }
      forall i, j | 0 <= i < j < |r|
        ensures Precedes(NextReviewOf, IdOf, r[i], r[j])
      {
        assert r[i] == all[i] && r[j] == all[j];
      }
      forall y | y in ws && y.userId == userId && y.nextReview <= now && y !in r
        ensures forall x :: x in r ==> Precedes(NextReviewOf, IdOf, x, y)
      {
        PrefixIsEarliest(NextReviewOf, IdOf, all, 10, y);
      }
    }
  }

  /** `get_word`: the row with that id, if any. */
  function GetWord(ws: seq<Word>, id: int): (r: Option<Word>)
    ensures r.Some? ==> r.value in ws && r.value.id == id
    ensures r.None? <==> forall i :: 0 <= i < |ws| ==> ws[i].id != id
  {
    if ws == [] then None
    else if ws[0].id == id then Some(ws[0])
    else
      var r := GetWord(ws[1..], id);
      assert forall i :: 1 <= i < |ws| ==> ws[i] == ws[1..][i - 1];
      r
  }

  // ---------------------------------------------------------------------
  // The boolean scheduler
  // ---------------------------------------------------------------------

  /** The row after one answer, or None where `LEARNING_STEPS[step]`
      raises and the update is never committed. */
  function Step(w: Word, remembered: bool, now: int): (r: Option<Word>)
    ensures r.None? <==> remembered && w.phase == Learning && w.step <= -4
    ensures r.Some? ==>
      r.value.id == w.id && r.value.userId == w.userId && r.value.word == w.word
      && r.value.definition == w.definition && r.value.example == w.example
      && r.value.pronunciation == w.pronunciation
  {
    if remembered then
      if w.phase == Learning then
        if w.step < |LearningSteps| - 1 then
          var s := w.step + 1;
          match PyIndex(LearningSteps, s)
          case None => None
          case Some(minutes) => Some(w.(step := s, nextReview := now + minutes * 60))
        else
          Some(w.(phase := Review, step := 0, interval := 1, nextReview := now + 86400))
      else
        var i := w.interval * 2;
        Some(w.(interval := i, nextReview := now + i * 86400))
    else
      Some(w.(phase := Learning, step := 0, interval := 1, nextReview := now + 60))
  }

  /** The shape the scheduler keeps: a learning row on step 0 or 1. */
  predicate OnLadder(w: Word)
  {
    w.phase == Learning ==> w.step == 0 || w.step == 1
  }

  /** On a row on the ladder every answer succeeds, keeps the row on the
      ladder and keeps its identity and its definition. */
  lemma StepKeepsLadder(w: Word, remembered: bool, now: int)
    requires OnLadder(w)
    ensures Step(w, remembered, now).Some?
    ensures OnLadder(Step(w, remembered, now).value)
    ensures var r := Step(w, remembered, now).value;
      r.id == w.id && r.userId == w.userId && r.word == w.word && r.definition == w.definition
      && r.example == w.example && r.pronunciation == w.pronunciation
  {
  }

  /** Remembered: step 0 moves to step 1 for ten minutes, the last step
      graduates to review for one day, and review doubles the interval.
      Forgot: back to step 0 for one minute, whatever the phase. */
  lemma StepTable(w: Word, now: int)
    ensures w.phase == Learning && w.step == 0 ==>
      Step(w, true, now) == Some(w.(step := 1, nextReview := now + 600))
    ensures w.phase == Learning && w.step >= 1 ==>
      Step(w, true, now) == Some(w.(phase := Review, step := 0, interval := 1, nextReview := now + 86400))
    ensures w.phase != Learning ==>
      Step(w, true, now) == Some(w.(interval := 2 * w.interval, nextReview := now + 2 * w.interval * 86400))
    ensures Step(w, false, now) == Some(w.(phase := Learning, step := 0, interval := 1, nextReview := now + 60))
  {
  }

  /** Off the ladder, a step of -4 or below makes the index fall outside
      `LEARNING_STEPS`, and the answer is lost. */
  lemma StepOffLadder(w: Word, now: int)
    requires w.phase == Learning && w.step <= -4
    ensures Step(w, true, now).None?
  {
  }

  /** The table after `update_word_progress`: unchanged for an unknown id
      or a failed index. */
  function ApplyAnswer(ws: seq<Word>, id: int, remembered: bool, now: int): (r: seq<Word>)
    ensures |r| == |ws|
    ensures forall i :: 0 <= i < |ws| ==> r[i].id == ws[i].id && r[i].userId == ws[i].userId && r[i].word == ws[i].word
    ensures forall i :: 0 <= i < |ws| && ws[i].id != id ==> r[i] == ws[i]
  {
    match FindKey(ws, IdOf, id)
    case None => ws
    case Some(k) =>
      match Step(ws[k], remembered, now)
      case None => ws
      case Some(w) => ws[k := w]
  }

  /** `update_word_progress`: loads the row, updates its fields in place
      and commits; `ok` is false where the step index raised before the
      commit. */
  method UpdateWordProgress(db: Store, wordId: int, remembered: bool, now: int) returns (ok: bool)
    requires db.Valid()
    modifies db`words
    ensures db.Valid()
    ensures db.words == ApplyAnswer(old(db.words), wordId, remembered, now)
    ensures !ok <==> (exists k :: 0 <= k < |old(db.words)| && old(db.words)[k].id == wordId)
                     && Step(old(db.words)[FindKey(old(db.words), IdOf, wordId).value], remembered, now).None?
  {
    var found := FindKey(db.words, IdOf, wordId);
    if found.None? {
      return true;
    }
    var k := found.value;
    var word := db.words[k];

    if remembered {
      if word.phase == Learning {
        if word.step < |LearningSteps| - 1 {
          word := word.(step := word.step + 1);
          var delayMinutes := PyIndex(LearningSteps, word.step);
          if delayMinutes.None? {
            return false;
          }
          word := word.(nextReview := now + delayMinutes.value * 60);
        } else {
          word := word.(phase := Review);
          word := word.(step := 0);
          word := word.(interval := 1);
          word := word.(nextReview := now + 86400);
        }
      } else {
        word := word.(interval := word.interval * 2);
        word := word.(nextReview := now + word.interval * 86400);
      }
    } else {
      word := word.(phase := Learning);
      word := word.(step := 0);
      word := word.(interval := 1);
      word := word.(nextReview := now + 60);
    }

    db.words := db.words[k := word];
    return true;
  }

  /** A row added by `add_word` graduates after two remembered answers and
      then doubles its interval on every further one. */
  lemma LadderScenario(w: Word, t1: int, t2: int, t3: int)
    requires w.phase == Learning && w.step == 0 && w.interval == 1
    ensures var a := Step(w, true, t1).value;
      && a.step == 1 && a.nextReview == t1 + 600
      && var b := Step(a, true, t2).value;
      && b.phase == Review && b.interval == 1 && b.nextReview == t2 + 86400
      && var c := Step(b, true, t3).value;
      && c.interval == 2 && c.nextReview == t3 + 2 * 86400
  {
  }
}
