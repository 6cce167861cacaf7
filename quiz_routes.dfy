/** The quiz handlers (src/routes/quiz.py): the four-priority selection of
    the next card, the definition screen, and grading with its session
    queue of failed words. */
module QuizRoutes {
  import opened Wrappers
  import opened Models
  import opened Tables
  import opened Srs
  import opened Fsm
  import opened Keyboards

  /** What `start_quiz` shows: a card titled "Flashcard" or "Re-learning
      Round", or the session-complete screen. */
  datatype Screen = Flashcard(item: Row) | Relearning(item: Row) | SessionComplete

  predicate NoDup(s: seq<int>)
  {
    forall i, j :: 0 <= i < j < |s| ==> s[i] != s[j]
  }

  /** `due_word_ids`. */
  function DueIds(due: seq<Row>): (r: set<int>)
    ensures forall x :: x in r <==> exists k :: 0 <= k < |due| && due[k].uw.id == x
  {
    set k | 0 <= k < |due| :: due[k].uw.id
  }

  /** `unique_failed_ids`: the failed ids that are not due, in order. */
  function WithoutDue(failed: seq<int>, due: seq<Row>): (r: seq<int>)
    ensures |r| <= |failed|
    ensures forall x :: x in r <==> x in failed && x !in DueIds(due)
    ensures (forall x :: x in failed ==> x !in DueIds(due)) ==> r == failed
  {
    if failed == [] then []
    else
      var rest := WithoutDue(failed[1..], due);
      assert forall x :: x in failed <==> x == failed[0] || x in failed[1..];
      if failed[0] in DueIds(due) then rest
      else
        assert failed == [failed[0]] + failed[1..];
        [failed[0]] + rest
  }

  /** The filter keeps the order of the failed list: filtering a
      concatenation concatenates the filtered parts. */
  lemma {:induction false} WithoutDueAppend(a: seq<int>, b: seq<int>, due: seq<Row>)
    ensures WithoutDue(a + b, due) == WithoutDue(a, due) + WithoutDue(b, due)
  {
    if a == [] {
      assert a + b == b;
    } else {
      assert (a + b)[0] == a[0];
      assert (a + b)[1..] == a[1..] + b;
      WithoutDueAppend(a[1..], b, due);
    }
  }

  /** The head of the filtered list, which priority 3 shows, is the
      earliest failed id that is not due. */
  lemma {:induction false} WithoutDueHead(failed: seq<int>, due: seq<Row>) returns (k: nat)
    requires |WithoutDue(failed, due)| > 0
    ensures k < |failed| && WithoutDue(failed, due)[0] == failed[k] && failed[k] !in DueIds(due)
    ensures forall j :: 0 <= j < k ==> failed[j] in DueIds(due)
    ensures WithoutDue(failed, due)[1..] == WithoutDue(failed[k + 1..], due)
  {
    if failed[0] in DueIds(due) {
      var k' := WithoutDueHead(failed[1..], due);
      k := k' + 1;
      assert failed[1..][k' + 1..] == failed[k + 1..];
      forall j | 0 <= j < k
        ensures failed[j] in DueIds(due)
      {
        if j > 0 {
          assert failed[j] == failed[1..][j - 1];
        }
      }
    } else {
      k := 0;
    }
  }

  /** The position of the first due row whose id is not in the failed list. */
  function FirstFresh(due: seq<Row>, failed: seq<int>): (r: Option<nat>)
    ensures r.Some? ==> r.value < |due| && due[r.value].uw.id !in failed
    ensures r.Some? ==> forall k :: 0 <= k < r.value ==> due[k].uw.id in failed
    ensures r.None? <==> forall k :: 0 <= k < |due| ==> due[k].uw.id in failed
  {
    if due == [] then None
    else if due[0].uw.id !in failed then Some(0)
    else
      match FirstFresh(due[1..], failed)
      case Some(k) => Some(k + 1)
      case None =>
        assert forall k :: 1 <= k < |due| ==> due[k] == due[1..][k - 1];
        None
  }

  lemma FirstFreshAt(due: seq<Row>, failed: seq<int>, k: nat)
    requires k < |due| && due[k].uw.id !in failed
    requires forall j :: 0 <= j < k ==> due[j].uw.id in failed
    ensures FirstFresh(due, failed) == Some(k)
  {
    var r := FirstFresh(due, failed);
    assert r.Some?;
    assert !(r.value < k) && !(r.value > k);
  }

  /** The priority-1 loop of `start_quiz`: scans the due rows in order and
      stops at the first one whose id is not in the failed list; `|due|`
      when there is none. */
  method FirstNotFailed(due: seq<Row>, failed: seq<int>) returns (k: nat)
    ensures k <= |due|
    ensures k < |due| ==> FirstFresh(due, failed) == Some(k)
    ensures k == |due| <==> FirstFresh(due, failed).None?
  {
    k := 0;
    while k < |due|
      invariant 0 <= k <= |due|
      invariant forall j :: 0 <= j < k ==> due[j].uw.id in failed
    {
      if due[k].uw.id !in failed {
        FirstFreshAt(due, failed, k);
        return;
      }
      k := k + 1;
    }
  }

  /** An id is stale when `get_study_details` finds no row for it. */
  predicate Stale(ws: seq<UserWord>, d: map<string, Entry>, id: int)
  {
    GetStudyDetails(ws, d, id).None?
  }

  /** The screen `start_quiz` shows and the failed list it leaves behind,
      given the due list and the stored failed list. A stale head of the
      filtered failed list is dropped, stored, and the selection rerun. */
  function Select(due: seq<Row>, failed: seq<int>, ws: seq<UserWord>, d: map<string, Entry>)
    : (result: (Screen, seq<int>))
    ensures forall x :: x in result.1 ==> x in failed
    ensures result.0.Flashcard? ==> result.0.item in due && result.0.item.uw.id !in failed
    ensures result.0.Relearning? ==>
      result.0.item in due
      || (result.0.item.uw in ws && result.0.item.uw.id in failed && result.0.item.uw.id !in DueIds(due))
    decreases |failed|
  {
    match FirstFresh(due, failed)
    case Some(k) => (Flashcard(due[k]), failed)
    case None =>
      if |due| > 0 then (Relearning(due[0]), failed)
      else
        var unique := WithoutDue(failed, due);
        if |unique| > 0 then
          match GetStudyDetails(ws, d, unique[0])
          case None => Select(due, unique[1..], ws, d)
          case Some(row) => (Relearning(row), failed)
        else (SessionComplete, [])
  }

  /** `start_quiz`: priority 1 is the earliest due row not in the failed
      list, priority 2 the earliest due row, priority 3 the head of the
      failed ids that are not due, priority 4 the end of the session. */
  method StartQuiz(db: Database, ctx: Context, userId: int, now: int) returns (screen: Screen)
    modifies ctx`failedWords
    ensures (screen, ctx.failedWords)
         == Select(GetDueWords(db.words, db.dictionary, userId, now), old(ctx.failedWords), db.words, db.dictionary)
    decreases |ctx.failedWords|
  {
    var dueItems := GetDueWords(db.words, db.dictionary, userId, now);
    var failedIds := ctx.failedWords;
    var uniqueFailedIds := WithoutDue(failedIds, dueItems);

    var chosen: Option<Screen> := None;

    // priority 1
    var k := FirstNotFailed(dueItems, failedIds);
    if k < |dueItems| {
      chosen := Some(Flashcard(dueItems[k]));
    }

    // priority 2
    if chosen.None? && |dueItems| > 0 {
      chosen := Some(Relearning(dueItems[0]));
    }

    // priority 3
    if chosen.None? && |uniqueFailedIds| > 0 {
      var nextId := uniqueFailedIds[0];
      var result := GetStudyDetails(db.words, db.dictionary, nextId);
      if result.None? {
        ctx.failedWords := uniqueFailedIds[1..];
        screen := StartQuiz(db, ctx, userId, now);
        return;
      }
      chosen := Some(Relearning(result.value));
    }

    // priority 4
    if chosen.None? {
      ctx.failedWords := [];
      return SessionComplete;
    }
    return chosen.value;
  }

  /** The selection, case by case. Priority 1 picks the earliest due row not
      in the failed list, as a flashcard; priority 2 the earliest due row,
      for re-learning, when every due row has failed; otherwise the first
      `j` failed ids are stale and were dropped, and the next one is shown
      for re-learning, or the session is complete with an empty list. */
  lemma {:induction false} SelectCases(due: seq<Row>, failed: seq<int>, ws: seq<UserWord>, d: map<string, Entry>)
    returns (j: nat)
    ensures var (screen, stored) := Select(due, failed, ws, d);
      && (FirstFresh(due, failed).Some? ==>
            screen == Flashcard(due[FirstFresh(due, failed).value]) && stored == failed)
      && (FirstFresh(due, failed).None? && |due| > 0 ==>
            screen == Relearning(due[0]) && stored == failed)
      && (|due| == 0 ==>
            && j <= |failed|
            && (forall i :: 0 <= i < j ==> Stale(ws, d, failed[i]))
            && (j < |failed| ==>
                  && GetStudyDetails(ws, d, failed[j]).Some?
                  && screen == Relearning(GetStudyDetails(ws, d, failed[j]).value)
                  && stored == failed[j..])
            && (j == |failed| ==> screen == SessionComplete && stored == []))
    decreases |failed|
  {
    if |due| == 0 && |failed| > 0 {
      assert WithoutDue(failed, due) == failed;
      if GetStudyDetails(ws, d, failed[0]).None? {
        var j' := SelectCases(due, failed[1..], ws, d);
        j := j' + 1;
        forall i | 0 <= i < j
          ensures Stale(ws, d, failed[i])
        {
          if i > 0 {
            assert failed[i] == failed[1..][i - 1];
          }
        }
        assert failed[1..][j'..] == failed[j..];
      } else {
        j := 0;
      }
    } else {
      j := 0;
    }
  }

  /** The session is complete exactly when nothing is due and every stored
      failed id is stale; the list is then emptied. */
  lemma SessionCompleteIff(due: seq<Row>, failed: seq<int>, ws: seq<UserWord>, d: map<string, Entry>)
    ensures Select(due, failed, ws, d).0 == SessionComplete
        <==> |due| == 0 && forall i :: 0 <= i < |failed| ==> Stale(ws, d, failed[i])
    ensures Select(due, failed, ws, d).0 == SessionComplete ==> Select(due, failed, ws, d).1 == []
  {
    var j := SelectCases(due, failed, ws, d);
    if |due| == 0 && forall i :: 0 <= i < |failed| ==> Stale(ws, d, failed[i]) {
      assert j < |failed| ==> Stale(ws, d, failed[j]);
    }
  }

  /** Selection never reorders or adds to the failed list: what it stores is
      a suffix of what it read, or empty; so it never creates a duplicate. */
  lemma SelectKeepsNoDup(due: seq<Row>, failed: seq<int>, ws: seq<UserWord>, d: map<string, Entry>)
    requires NoDup(failed)
    ensures NoDup(Select(due, failed, ws, d).1)
    ensures forall x :: x in Select(due, failed, ws, d).1 ==> x in failed
  {
    var j := SelectCases(due, failed, ws, d);
    var stored := Select(due, failed, ws, d).1;
    if |due| == 0 && j < |failed| {
      assert stored == failed[j..];
      forall a, b | 0 <= a < b < |stored|
        ensures stored[a] != stored[b]
      {
        assert stored[a] == failed[j + a] && stored[b] == failed[j + b];
      }
    }
  }

  /** While anything is due, the card shown is a due row: a failed id that
      is not due is shown only when nothing is due. */
  lemma DueServedFirst(due: seq<Row>, failed: seq<int>, ws: seq<UserWord>, d: map<string, Entry>)
    requires |due| > 0
    ensures !Select(due, failed, ws, d).0.SessionComplete?
    ensures Select(due, failed, ws, d).0.item in due
    ensures Select(due, failed, ws, d).1 == failed
  {
    var j := SelectCases(due, failed, ws, d);
    match FirstFresh(due, failed)
    case Some(k) =>
      assert Select(due, failed, ws, d).0.item == due[k];
    case None =>
      assert Select(due, failed, ws, d).0.item == due[0];
  }

  // ---------------------------------------------------------------------
  // Definition screen
  // ---------------------------------------------------------------------

  /** The definition screen: the card with its grade keyboard (the one
      `quiz_grade_kb` builds, as written), or the "Word not found." alert. */
  datatype ShowReply = WordNotFound | Card(item: Row, buttons: seq<string>)

  /** `show_definition`: None where parsing the callback data raises. */
  function ShowDefinition(data: string, ws: seq<UserWord>, d: map<string, Entry>): (r: Option<ShowReply>)
    ensures r.None? <==> ParseShowData(data).None?
    ensures r.Some? && r.value.Card? ==>
      r.value.item.uw.id == ParseShowData(data).value && r.value.item.uw in ws
      && r.value.buttons == WrittenGradeButtons(r.value.item.uw.id)
    ensures r.Some? && r.value.Card? ==>
      r.value.item.uw.word in d && r.value.item.entry == d[r.value.item.uw.word]
      && GetStudyDetails(ws, d, ParseShowData(data).value) == Some(r.value.item)
    ensures r.Some? ==> (r.value.WordNotFound? <==> Stale(ws, d, ParseShowData(data).value))
    ensures r.Some? ==> (r.value.WordNotFound? <==>
      forall i :: 0 <= i < |ws| && ws[i].id == ParseShowData(data).value ==> ws[i].word !in d)
  {
    match ParseShowData(data)
    case None => None
    case Some(wordId) =>
      match GetStudyDetails(ws, d, wordId)
      case None => Some(WordNotFound)
      case Some(row) => Some(Card(row, WrittenGradeButtons(wordId)))
  }

  /** The button under a flashcard opens that card's definition. */
  lemma ShowButtonOpensCard(ws: seq<UserWord>, d: map<string, Entry>, row: Row)
    requires IdsIncreasing(ws) && row.uw in ws && row.uw.word in d && row.entry == d[row.uw.word]
    ensures ShowDefinition(ShowData(row.uw.id), ws, d) == Some(Card(row, WrittenGradeButtons(row.uw.id)))
  {
    ShowRoundTrip(row.uw.id);
    var r := GetStudyDetails(ws, d, row.uw.id);
    assert r.Some? by {
      var k :| 0 <= k < |ws| && ws[k] == row.uw;
    }
    assert r.value.uw == row.uw by {
      var a :| 0 <= a < |ws| && ws[a] == r.value.uw;
      var b :| 0 <= b < |ws| && ws[b] == row.uw;
      assert a == b;
    }
  }

  // ---------------------------------------------------------------------
  // Grading
  // ---------------------------------------------------------------------

  /** `list.remove(x)`: drops the first occurrence of `x`. */
  function RemoveFirst(s: seq<int>, x: int): (r: seq<int>)
    ensures x in s ==> |r| == |s| - 1
    ensures x !in s ==> r == s
    ensures multiset(r) == multiset(s) - multiset{x}
  {
    if s == [] then []
    else if s[0] == x then
      assert s == [s[0]] + s[1..];
      s[1..]
    else
      assert s == [s[0]] + s[1..];
      [s[0]] + RemoveFirst(s[1..], x)
  }

  /** `list.remove(x)` drops exactly the first occurrence of `x` and keeps
      the other ids in their order. */
  lemma {:induction false} RemoveFirstAt(s: seq<int>, x: int) returns (k: nat)
    requires x in s
    ensures k < |s| && s[k] == x
    ensures forall j :: 0 <= j < k ==> s[j] != x
    ensures RemoveFirst(s, x) == s[..k] + s[k + 1..]
  {
    var t := s[1..];
    assert s == [s[0]] + t;
    if s[0] == x {
      k := 0;
      assert s[..k] + s[k + 1..] == t;
    } else {
      var k' := RemoveFirstAt(t, x);
      k := k' + 1;
      PrependSplit(s[0], t, k');
      forall j | 0 < j < k
        ensures s[j] != x
      {
        assert s[j] == t[j - 1];
      }
    }
  }

  lemma PrependSplit(h: int, t: seq<int>, k: nat)
    requires k < |t|
    ensures ([h] + t)[..k + 1] + ([h] + t)[k + 2..] == [h] + (t[..k] + t[k + 1..])
  {
    assert ([h] + t)[..k + 1] == [h] + t[..k];
    assert ([h] + t)[k + 2..] == t[k + 1..];
  }

  /** The failed list after a grade: `again` appends the id when absent,
      any other grade removes it when present. */
  function UpdateFailed(failed: seq<int>, wordId: int, grade: string): (r: seq<int>)
    ensures grade == "again" ==> wordId in r
    ensures forall x :: x != wordId ==> (x in r <==> x in failed)
    ensures |r| <= |failed| + 1
  {
    if grade == "again" then (if wordId in failed then failed else failed + [wordId])
    else
      var r := RemoveFirst(failed, wordId);
      assert forall x :: (x in r <==> multiset(r)[x] > 0) && (x in failed <==> multiset(failed)[x] > 0);
      r
  }

  /** The grading update keeps the list free of duplicates; afterwards the
      id is in the list exactly when the grade was `again`, and every other
      id is in it exactly when it was before. */
  lemma UpdateFailedSpec(failed: seq<int>, wordId: int, grade: string)
    requires NoDup(failed)
    ensures var r := UpdateFailed(failed, wordId, grade);
      && NoDup(r)
      && (wordId in r <==> grade == "again")
      && (forall x :: x != wordId ==> (x in r <==> x in failed))
      && (grade == "again" && wordId !in failed ==> r == failed + [wordId])
      && (grade == "again" && wordId in failed ==> r == failed)
      && (grade != "again" && wordId !in failed ==> r == failed)
      && (grade != "again" && wordId in failed ==>
            exists k :: 0 <= k < |failed| && failed[k] == wordId && r == failed[..k] + failed[k + 1..])
  {
    var r := UpdateFailed(failed, wordId, grade);
    if grade != "again" && wordId in failed {
      var k := RemoveFirstAt(failed, wordId);
    }
    assert forall x :: x in r <==> multiset(r)[x] > 0;
    assert forall x :: x in failed <==> multiset(failed)[x] > 0;
    NoDupCounts(failed);
    if grade != "again" {
      assert multiset(r)[wordId] == 0;
    }
    assert forall x :: multiset(r)[x] <= 1;
    CountsNoDup(r);
  }

  lemma {:induction false} NoDupCounts(s: seq<int>)
    requires NoDup(s)
    ensures forall x :: multiset(s)[x] <= 1
  {
    if s != [] {
      assert NoDup(s[1..]) by {
        forall i, j | 0 <= i < j < |s[1..]|
          ensures s[1..][i] != s[1..][j]
        {
          assert s[1..][i] == s[i + 1] && s[1..][j] == s[j + 1];
        }
      }
      NoDupCounts(s[1..]);
      assert s == [s[0]] + s[1..];
      forall k | 0 <= k < |s[1..]|
        ensures s[1..][k] != s[0]
      {
        assert s[1..][k] == s[k + 1];
      }
    }
  }

  lemma CountsNoDup(s: seq<int>)
    requires forall x :: multiset(s)[x] <= 1
    ensures NoDup(s)
  {
    forall i, j | 0 <= i < j < |s|
      ensures s[i] != s[j]
    {
      var a, b := s[..i + 1], s[i + 1..];
      assert s == a + b;
      assert a[i] == s[i] && b[j - i - 1] == s[j];
      assert multiset(s) == multiset(a) + multiset(b);
      var c := multiset(s)[s[i]];
      assert c <= 1;
    }
  }

  /** What `handle_quiz_grade` ends with: an unparsable callback raises
      before any effect; otherwise the grade was applied and the next
      screen is shown. */
  datatype GradeReply = Malformed | Graded(grade: string, next: Screen)

  /** `handle_quiz_grade`: applies the grade, stores the updated failed
      list, then reruns the selection. */
  method HandleQuizGrade(db: Database, ctx: Context, userId: int, data: string, now: int)
    returns (reply: GradeReply)
    requires db.Valid()
    modifies db`words, ctx`failedWords
    ensures db.Valid()
    ensures ParseGradeData(data).None? ==>
      reply == Malformed && db.words == old(db.words) && ctx.failedWords == old(ctx.failedWords)
    ensures ParseGradeData(data).Some? ==>
      var cb := ParseGradeData(data).value;
      && db.words == ApplyGrade(old(db.words), cb.wordId, cb.grade, now)
      && reply.Graded? && reply.grade == cb.grade
      && (reply.next, ctx.failedWords)
         == Select(GetDueWords(db.words, db.dictionary, userId, now),
                   UpdateFailed(old(ctx.failedWords), cb.wordId, cb.grade), db.words, db.dictionary)
  {
    var parsed := ParseGradeData(data);
    if parsed.None? {
      return Malformed;
    }
    var wordId, grade := parsed.value.wordId, parsed.value.grade;

    UpdateAnkiProgress(db, wordId, grade, now);

    var failedList := ctx.failedWords;
    if grade == "again" {
      if wordId !in failedList {
        failedList := failedList + [wordId];
      }
    } else {
      if wordId in failedList {
        failedList := RemoveFirst(failedList, wordId);
      }
    }
    ctx.failedWords := failedList;

    var next := StartQuiz(db, ctx, userId, now);
    return Graded(grade, next);
  }

  /** As written, the "Forgot" button sends grade `0`: the scheduler
      leaves the record untouched and the id leaves the failed list, so a
      forgotten word is neither reset nor queued for re-learning. */
  lemma WrittenForgotIsLost(ws: seq<UserWord>, failed: seq<int>, wordId: int, now: int)
    requires NoDup(failed)
    ensures ParseGradeData(WrittenGradeButtons(wordId)[0]) == Some(GradeCallback(wordId, "0"))
    ensures ApplyGrade(ws, wordId, "0", now) == ws
    ensures wordId !in UpdateFailed(failed, wordId, "0")
  {
    GradeRoundTrip(wordId, "0");
    UpdateFailedSpec(failed, wordId, "0");
  }

  /** As written, the "Remembered" button sends grade `1`, which the
      scheduler ignores too: a remembered word is never advanced. */
  lemma WrittenRememberedIsIgnored(ws: seq<UserWord>, wordId: int, now: int)
    ensures ParseGradeData(WrittenGradeButtons(wordId)[1]) == Some(GradeCallback(wordId, "1"))
    ensures ApplyGrade(ws, wordId, "1", now) == ws
  {
    GradeRoundTrip(wordId, "1");
  }

  /** With the corrected keyboard, "Forgot" resets the record as `again`
      does and queues its id for re-learning, and "Remembered" advances it
      as `good` does and takes it off the queue. */
  lemma GradeButtonsReachScheduler(ws: seq<UserWord>, failed: seq<int>, wordId: int, now: int, i: nat)
    requires IdsIncreasing(ws) && NoDup(failed) && i < |ws| && ws[i].id == wordId
    ensures ParseGradeData(GradeButtons(wordId)[0]) == Some(GradeCallback(wordId, "again"))
    ensures ParseGradeData(GradeButtons(wordId)[1]) == Some(GradeCallback(wordId, "good"))
    ensures ApplyGrade(ws, wordId, "again", now)[i] == Transition(ws[i], Again, now)
    ensures ApplyGrade(ws, wordId, "good", now)[i] == Transition(ws[i], Good, now)
    ensures wordId in UpdateFailed(failed, wordId, "again")
    ensures wordId !in UpdateFailed(failed, wordId, "good")
  {
    GradeRoundTrip(wordId, "again");
    GradeRoundTrip(wordId, "good");
    ApplyGradeEffect(ws, wordId, "again", now);
    ApplyGradeEffect(ws, wordId, "good", now);
    UpdateFailedSpec(failed, wordId, "again");
    UpdateFailedSpec(failed, wordId, "good");
  }
}
