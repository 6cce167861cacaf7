/** The callback-data strings of the quiz keyboards (src/keyboards.py) and
    their parsing in the quiz handlers (src/routes/quiz.py). */
module Keyboards {
  import opened Wrappers
  import opened Text

  /** The "Show Definition" button's data. */
  function ShowData(wordId: int): string
  {
    "show:" + IntToString(wordId)
  }

  /** A grade button's data. */
  function GradeData(wordId: int, grade: string): string
  {
    "grade:" + IntToString(wordId) + ":" + grade
  }

  /** The grade keyboard as written: "Forgot" sends grade `0` and
      "Remembered" sends grade `1`. */
  function WrittenGradeButtons(wordId: int): seq<string>
  {
    [GradeData(wordId, "0"), GradeData(wordId, "1")]
  }

  /** The grade keyboard as the live scheduler reads it: "Forgot" sends
      `again` and "Remembered" sends `good`. */
  function GradeButtons(wordId: int): seq<string>
  {
    [GradeData(wordId, "again"), GradeData(wordId, "good")]
  }

  /** `int(data.split(":")[1])` in `show_definition`: None where Python
      raises (no second field, or not an integer). */
  function ParseShowData(data: string): (r: Option<int>)
    ensures r.Some? ==> |Split(data, ':')| >= 2 && ParseInt(Split(data, ':')[1]) == r
    ensures |Split(data, ':')| < 2 ==> r.None?
  {
    var parts := Split(data, ':');
    if |parts| < 2 then None else ParseInt(parts[1])
  }

  datatype GradeCallback = GradeCallback(wordId: int, grade: string)

  /** `_, word_id_str, grade = data.split(":")` and `int(word_id_str)` in
      `handle_quiz_grade`: None where Python raises (not exactly three
      fields, or a non-integer id). */
  function ParseGradeData(data: string): (r: Option<GradeCallback>)
    ensures r.Some? ==>
      |Split(data, ':')| == 3 && Some(r.value.wordId) == ParseInt(Split(data, ':')[1]) && r.value.grade == Split(data, ':')[2]
    ensures |Split(data, ':')| != 3 ==> r.None?
  {
    var parts := Split(data, ':');
    if |parts| != 3 then None
    else
      match ParseInt(parts[1])
      case None => None
      case Some(id) => Some(GradeCallback(id, parts[2]))
  }

  /** The id in a show button parses back to itself. */
  lemma ShowRoundTrip(wordId: int)
    ensures ParseShowData(ShowData(wordId)) == Some(wordId)
  {
    var s := IntToString(wordId);
    assert ShowData(wordId) == "show" + [':'] + s;
    SplitAt("show", ':', s);
    SplitPlain(s, ':');
    IntRoundTrip(wordId);
  }

  /** A grade button's data splits into exactly the id and the grade, for
      any grade without a colon. */
  lemma GradeRoundTrip(wordId: int, grade: string)
    requires ':' !in grade
    ensures ParseGradeData(GradeData(wordId, grade)) == Some(GradeCallback(wordId, grade))
  {
    var s := IntToString(wordId);
    assert GradeData(wordId, grade) == "grade" + [':'] + (s + [':'] + grade);
    SplitAt("grade", ':', s + [':'] + grade);
    SplitAt(s, ':', grade);
    SplitPlain(grade, ':');
    IntRoundTrip(wordId);
  }

  /** A grade containing a colon does not survive the three-way split. */
  lemma ColonGradeRejected(wordId: int, a: string, b: string)
    requires ':' !in a
    ensures ParseGradeData(GradeData(wordId, a + ":" + b)).None?
  {
    var s := IntToString(wordId);
    assert GradeData(wordId, a + ":" + b) == "grade" + [':'] + (s + [':'] + (a + [':'] + b));
    SplitAt("grade", ':', s + [':'] + (a + [':'] + b));
    SplitAt(s, ':', a + [':'] + b);
    SplitAt(a, ':', b);
  }
}
