/** The live spaced-repetition scheduler (src/database/quiz.py): the
    three-grade transition, the due list and the lookup by id. */
module Srs {
  import opened Wrappers
  import opened Models
  import opened Tables
  import opened Ordering

  datatype Grade = Again | Good | Easy

  /** The grade strings the scheduler acts on; any other string is ignored. */
  function ParseGrade(s: string): (g: Option<Grade>)
    ensures g == Some(Again) <==> s == "again"
    ensures g == Some(Good) <==> s == "good"
    ensures g == Some(Easy) <==> s == "easy"
  {
    if s == "again" then Some(Again)
    else if s == "good" then Some(Good)
    else if s == "easy" then Some(Easy)
    else None
  }

  function GradeName(g: Grade): string
  {
    match g
    case Again => "again"
    case Good => "good"
    case Easy => "easy"
  }

  lemma GradeNameRoundTrip(g: Grade)
    ensures ParseGrade(GradeName(g)) == Some(g)
  {
  }

  /** Python's `int()` of a quotient: truncation toward zero. */
  function TruncDiv(a: int, b: int): int
    requires b > 0
  {
    if a >= 0 then a / b else -((-a) / b)
  }

  /** The review interval after `good`: the interval times the ease factor,
      truncated, and at least one day. */
  function GoodInterval(interval: int, ease: int): int
  {
    Max(1, TruncDiv(interval * ease, 10))
  }

  /** The interval after `easy`: interval times ease times 1.3, truncated,
      and at least four days. */
  function EasyInterval(interval: int, ease: int): int
  {
    Max(4, TruncDiv(interval * ease * 13, 100))
  }

  /** The transition table of `update_anki_progress` for one record. */
  function Transition(w: UserWord, g: Grade, now: int): (r: UserWord)
    ensures r.id == w.id && r.userId == w.userId && r.word == w.word
    ensures r.nextReview >= now
  {
    match g
    case Again =>
      w.(phase := Learning, step := 0, interval := 0, nextReview := now, ease := Max(MinEase, w.ease - 2))
    case Good =>
      if w.phase == Learning then
        if w.step == 0 then w.(step := 1, nextReview := now + TenMinutes)
        else w.(phase := Review, step := 0, interval := 1, nextReview := now + Day)
      else
        var i := GoodInterval(w.interval, w.ease);
        w.(interval := i, nextReview := now + i * Day)
    case Easy =>
      var i := EasyInterval(w.interval, w.ease);
      w.(phase := Review, step := 0, interval := i, nextReview := now + i * Day,
         ease := Min(MaxEase, w.ease + 1))
  }

  /** The shape of a record the scheduler itself produces: the ease factor
      within [1.3, 3.0], a learning item on step 0 or 1, a review item on
      step 0 with an interval of at least one day. */
  predicate Consistent(w: UserWord)
  {
    && MinEase <= w.ease <= MaxEase
    && w.interval >= 0
    && (w.phase == Learning ==> w.step == 0 || w.step == 1)
    && (w.phase == Review ==> w.step == 0 && w.interval >= 1)
  }

  /** Every grade keeps a consistent record consistent; in particular the
      ease factor never leaves [1.3, 3.0]. */
  lemma TransitionKeepsConsistent(w: UserWord, g: Grade, now: int)
    requires Consistent(w)
    ensures Consistent(Transition(w, g, now))
  {
    match g
    case Again =>
    case Good =>
      if w.phase != Learning {
        assert w.interval * w.ease >= 0;
      }
    case Easy =>
      assert w.interval * w.ease * 13 >= 0;
  }

  /** `again` resets the record to learning step 0, due now, whatever its
      phase, and lowers the ease factor by 0.2 down to 1.3. */
  lemma AgainResets(w: UserWord, now: int)
    ensures var r := Transition(w, Again, now);
      && r.phase == Learning && r.step == 0 && r.interval == 0 && r.nextReview == now
      && r.ease == (if w.ease - 2 < MinEase then MinEase else w.ease - 2)
  {
  }

  /** `good` on a learning item: step 0 moves to step 1 ten minutes out and
      keeps interval and ease; any other step graduates to review for one
      day. */
  lemma GoodInLearning(w: UserWord, now: int)
    requires w.phase == Learning
    ensures var r := Transition(w, Good, now);
      && (w.step == 0 ==> r == w.(step := 1, nextReview := now + 600))
      && (w.step != 0 ==>
            r.phase == Review && r.step == 0 && r.interval == 1 && r.nextReview == now + 86400 && r.ease == w.ease)
  {
  }

  /** `good` outside learning multiplies the interval by the ease factor
      (at least one day), schedules that many days out, and keeps the ease
      factor and the phase. */
  lemma GoodOutsideLearning(w: UserWord, now: int)
    requires w.phase != Learning
    ensures var r := Transition(w, Good, now);
      && r.interval >= 1 && r.nextReview == now + r.interval * 86400
      && r.ease == w.ease && r.phase == w.phase && r.step == w.step
      && (w.interval >= 0 ==> r.interval * 10 <= Max(10, w.interval * w.ease))
      && (w.interval >= 0 && w.ease >= 0 ==> r.interval == Max(1, w.interval * w.ease / 10))
  {
    var r := Transition(w, Good, now);
    if w.interval * w.ease >= 0 {
      assert TruncDiv(w.interval * w.ease, 10) * 10 <= w.interval * w.ease;
    }
    if w.interval >= 0 && w.ease >= 0 {
      assert w.interval * w.ease >= 0;
    }
  }

  /** `easy` moves any item to review for at least four days and raises
      the ease factor by 0.1 up to 3.0. */
  lemma EasyPromotes(w: UserWord, now: int)
    ensures var r := Transition(w, Easy, now);
      && r.phase == Review && r.step == 0 && r.interval >= 4
      && r.nextReview == now + r.interval * 86400 && r.nextReview >= now + 4 * 86400
      && r.ease == (if w.ease + 1 > MaxEase then MaxEase else w.ease + 1)
      && (w.interval >= 0 && w.ease >= 0 ==> r.interval == Max(4, w.interval * w.ease * 13 / 100))
  {
    if w.interval >= 0 && w.ease >= 0 {
      assert w.interval * w.ease * 13 >= 0;
    }
  }

  /** A review item graded `good` never gets a shorter interval: the ease
      factor is at least 1.3. */
  lemma GoodNeverShortens(w: UserWord, now: int)
    requires w.phase == Review && w.interval >= 0 && w.ease >= MinEase
    ensures Transition(w, Good, now).interval >= w.interval
  {
    var a := w.interval * w.ease;
    assert a >= w.interval * 10;
    assert TruncDiv(a, 10) >= w.interval;
  }

  /** On a review item, `easy` schedules at least as far out as `good`. */
  lemma EasyNoSoonerThanGood(w: UserWord, now: int)
    requires w.phase == Review && w.interval >= 0 && w.ease >= 0
    ensures Transition(w, Easy, now).interval >= Transition(w, Good, now).interval
    ensures Transition(w, Easy, now).nextReview >= Transition(w, Good, now).nextReview
  {
    var a := w.interval * w.ease;
    assert a >= 0;
    assert w.interval * w.ease * 13 == a * 13;
    assert a * 13 >= a * 10;
    assert (a * 13) / 100 >= (a * 10) / 100;
    assert (a * 10) / 100 == a / 10;
  }

  /** A fresh learning item graded `good` twice is in review one day after
      the second grade. */
  lemma LearningLadder(w: UserWord, t1: int, t2: int)
    requires w.phase == Learning && w.step == 0
    ensures var r := Transition(Transition(w, Good, t1), Good, t2);
      r.phase == Review && r.step == 0 && r.interval == 1 && r.nextReview == t2 + 86400
  {
  }

  // ---------------------------------------------------------------------
  // Updating the table
  // ---------------------------------------------------------------------

  function WordId(w: UserWord): int { w.id }

  /** The `words` table after `update_anki_progress(id, grade)`. */
  function ApplyGrade(ws: seq<UserWord>, id: int, grade: string, now: int): (r: seq<UserWord>)
    ensures |r| == |ws|
    ensures forall i :: 0 <= i < |ws| ==> r[i].id == ws[i].id && r[i].userId == ws[i].userId && r[i].word == ws[i].word
    ensures forall i :: 0 <= i < |ws| && ws[i].id != id ==> r[i] == ws[i]
  {
    match FindKey(ws, WordId, id)
    case None => ws
    case Some(i) =>
      match ParseGrade(grade)
      case None => ws
      case Some(g) => ws[i := Transition(ws[i], g, now)]
  }

  /** An unknown id or an unknown grade string leaves the table unchanged;
      otherwise exactly the record with that id is transformed. */
  lemma ApplyGradeEffect(ws: seq<UserWord>, id: int, grade: string, now: int)
    requires IdsIncreasing(ws)
    ensures var r := ApplyGrade(ws, id, grade, now);
      && |r| == |ws|
      && ((forall i :: 0 <= i < |ws| ==> ws[i].id != id) || ParseGrade(grade).None? ==> r == ws)
      && (forall i :: 0 <= i < |ws| && ws[i].id != id ==> r[i] == ws[i])
      && (forall i :: 0 <= i < |ws| && ws[i].id == id && ParseGrade(grade).Some? ==>
            r[i] == Transition(ws[i], ParseGrade(grade).value, now))
  {
    match FindKey(ws, WordId, id)
    case None =>
    case Some(k) =>
      assert forall i :: 0 <= i < |ws| && ws[i].id == id ==> i == k;
  }

  /** `update_anki_progress`: loads the record, reassigns its fields
      according to the grade, and writes it back. */
  method UpdateAnkiProgress(db: Database, wordId: int, grade: string, now: int)
    requires db.Valid()
    modifies db`words
    ensures db.Valid()
    ensures db.words == ApplyGrade(old(db.words), wordId, grade, now)
  {
    var found := FindKey(db.words, WordId, wordId);
    if found.None? {
      return;
    }
    var k := found.value;
    var word := db.words[k];

    if grade == "again" {
      word := word.(phase := Learning);
      word := word.(step := 0);
      word := word.(interval := 0);
      word := word.(nextReview := now);
      word := word.(ease := Max(MinEase, word.ease - 2));
    } else if grade == "good" {
      if word.phase == Learning {
        if word.step == 0 {
          word := word.(step := 1);
          word := word.(nextReview := now + TenMinutes);
        } else {
          word := word.(phase := Review);
          word := word.(step := 0);
          word := word.(interval := 1);
          word := word.(nextReview := now + Day);
        }
      } else {
        word := word.(interval := Max(1, TruncDiv(word.interval * word.ease, 10)));
        word := word.(nextReview := now + word.interval * Day);
      }
    } else if grade == "easy" {
      word := word.(phase := Review);
      word := word.(step := 0);
      word := word.(interval := Max(4, TruncDiv(word.interval * word.ease * 13, 100)));
      word := word.(nextReview := now + word.interval * Day);
      word := word.(ease := Min(MaxEase, word.ease + 1));
    }

    assert word.id == db.words[k].id && word.userId == db.words[k].userId && word.word == db.words[k].word;
    db.words := db.words[k := word];
  }

  // ---------------------------------------------------------------------
  // Queries
  // ---------------------------------------------------------------------

  function RowNextReview(r: Row): int { r.uw.nextReview }
  function RowId(r: Row): int { r.uw.id }

  predicate IsDue(w: UserWord, userId: int, now: int)
  {
    w.userId == userId && w.nextReview <= now
  }

  /** The user's due items joined with their cache entries, in table order. */
  function DueRows(ws: seq<UserWord>, d: map<string, Entry>, userId: int, now: int): (r: seq<Row>)
    ensures forall x :: x in r <==> x.uw in ws && IsDue(x.uw, userId, now) && x.uw.word in d && x.entry == d[x.uw.word]
  {
    if ws == [] then []
    else
      var rest := DueRows(ws[1..], d, userId, now);
      assert forall x :: x in ws[1..] ==> x in ws;
      assert forall x :: x in ws ==> x == ws[0] || x in ws[1..];
      if IsDue(ws[0], userId, now) && ws[0].word in d then [Row(ws[0], d[ws[0].word])] + rest else rest
  }

  lemma TailIncreasing(ws: seq<UserWord>)
    requires |ws| > 0 && IdsIncreasing(ws)
    ensures IdsIncreasing(ws[1..])
  {
    forall i, j | 0 <= i < j < |ws[1..]|
      ensures ws[1..][i].id < ws[1..][j].id
    {
      assert ws[1..][i] == ws[i + 1] && ws[1..][j] == ws[j + 1];
    }
  }

  predicate RowIdsIncreasing(r: seq<Row>)
  {
    forall i, j :: 0 <= i < j < |r| ==> r[i].uw.id < r[j].uw.id
  }

  lemma ConsIncreasing(h: Row, rest: seq<Row>)
    requires RowIdsIncreasing(rest)
    requires |rest| > 0 ==> h.uw.id < rest[0].uw.id
    ensures RowIdsIncreasing([h] + rest)
  {
    var r := [h] + rest;
    forall i, j | 0 <= i < j < |r|
      ensures r[i].uw.id < r[j].uw.id
    {
      assert r[j] == rest[j - 1];
      if i > 0 {
        assert r[i] == rest[i - 1];
      }
    }
  }

  /** The filter keeps table order, so the due rows have increasing ids,
      none below the first item's. */
  lemma {:induction false} DueRowsIncreasing(ws: seq<UserWord>, d: map<string, Entry>, userId: int, now: int)
    requires IdsIncreasing(ws)
    ensures RowIdsIncreasing(DueRows(ws, d, userId, now))
    ensures |ws| > 0 && |DueRows(ws, d, userId, now)| > 0 ==> DueRows(ws, d, userId, now)[0].uw.id >= ws[0].id
  {
    if ws != [] {
      var rest := DueRows(ws[1..], d, userId, now);
      TailIncreasing(ws);
      DueRowsIncreasing(ws[1..], d, userId, now);
      var r := DueRows(ws, d, userId, now);
      if IsDue(ws[0], userId, now) && ws[0].word in d {
        assert r == [Row(ws[0], d[ws[0].word])] + rest;
        assert |rest| > 0 ==> |ws| > 1 && rest[0].uw.id >= ws[1].id > ws[0].id;
        ConsIncreasing(Row(ws[0], d[ws[0].word]), rest);
      } else {
        assert r == rest;
        assert |r| > 0 ==> |ws| > 1 && r[0].uw.id >= ws[1].id > ws[0].id;
      }
    }
  }

  /** `get_due_words`: the due rows ordered by `next_review`, ties in id
      order. */
  function GetDueWords(ws: seq<UserWord>, d: map<string, Entry>, userId: int, now: int): (r: seq<Row>)
    ensures forall x :: x in r <==> x.uw in ws && IsDue(x.uw, userId, now) && x.uw.word in d && x.entry == d[x.uw.word]
  {
    Sort(RowNextReview, RowId, DueRows(ws, d, userId, now))
  }

  /** The due list holds exactly the user's items with `next_review <= now`
      that have a cache entry, each with that entry, in ascending
      `next_review` order. */
  lemma DueWordsSpec(ws: seq<UserWord>, d: map<string, Entry>, userId: int, now: int)
    requires IdsIncreasing(ws)
    ensures forall x :: x in GetDueWords(ws, d, userId, now) <==>
      x.uw in ws && x.uw.userId == userId && x.uw.nextReview <= now && x.uw.word in d && x.entry == d[x.uw.word]
    ensures var due := GetDueWords(ws, d, userId, now);
      forall i, j :: 0 <= i < j < |due| ==>
        due[i].uw.nextReview < due[j].uw.nextReview
        || (due[i].uw.nextReview == due[j].uw.nextReview && due[i].uw.id < due[j].uw.id)
  {
    var rows := DueRows(ws, d, userId, now);
    DueRowsIncreasing(ws, d, userId, now);
    assert DistinctTies(RowId, rows) by {
      forall i, j | 0 <= i < j < |rows|
        ensures RowId(rows[i]) != RowId(rows[j])
      {
        assert rows[i].uw.id < rows[j].uw.id;
      }
    }
    SortSorted(RowNextReview, RowId, rows);
  }

  /** `get_study_details`: the record with that id joined with its entry. */
  function GetStudyDetails(ws: seq<UserWord>, d: map<string, Entry>, id: int): (r: Option<Row>)
    ensures r.Some? ==>
      r.value.uw in ws && r.value.uw.id == id && r.value.uw.word in d && r.value.entry == d[r.value.uw.word]
    ensures r.None? <==> forall i :: 0 <= i < |ws| && ws[i].id == id ==> ws[i].word !in d
  {
    if ws == [] then None
    else if ws[0].id == id && ws[0].word in d then Some(Row(ws[0], d[ws[0].word]))
    else
      var r := GetStudyDetails(ws[1..], d, id);
      assert forall i :: 1 <= i < |ws| ==> ws[i] == ws[1..][i - 1];
      r
  }

  /** A fresh study item is in the due list from the moment it is added. */
  lemma NewItemIsDue(ws: seq<UserWord>, d: map<string, Entry>, w: UserWord, now: int)
    requires IdsIncreasing(ws) && w in ws && w.nextReview == now && w.word in d
    ensures Row(w, d[w.word]) in GetDueWords(ws, d, w.userId, now)
  {
    DueWordsSpec(ws, d, w.userId, now);
  }

  /** An item graded `again` is due again at once. */
  lemma AgainMakesDue(ws: seq<UserWord>, d: map<string, Entry>, id: int, now: int, i: nat)
    requires IdsIncreasing(ws) && i < |ws| && ws[i].id == id && ws[i].word in d
    ensures var ws' := ApplyGrade(ws, id, "again", now);
      IdsIncreasing(ws') && Row(ws'[i], d[ws[i].word]) in GetDueWords(ws', d, ws[i].userId, now)
  {
    ApplyGradeEffect(ws, id, "again", now);
    var ws' := ApplyGrade(ws, id, "again", now);
    assert forall j :: 0 <= j < |ws| ==> ws'[j].id == ws[j].id;
    DueWordsSpec(ws', d, ws[i].userId, now);
  }
}
