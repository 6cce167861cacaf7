/** The records of the current database schema (`users`, `dictionary`,
    `words`) and of the definition payload the lookup service returns. */
module Models {
  import opened Wrappers

  /** `UserWord.state`: the column default is "new"; the scheduler writes
      "learning" and "review". */
  datatype Phase = New | Learning | Review

  /** One row of the `words` table: one word on one user's study list.
      `ease` is the ease factor in tenths (2.5 is 25). */
  datatype UserWord = UserWord(
    id: int,
    userId: int,
    word: string,
    phase: Phase,
    step: int,
    nextReview: int,
    interval: int,
    ease: int)

  /** One row of the shared `dictionary` cache, keyed by `word`. */
  datatype Entry = Entry(
    word: string,
    definition: string,
    example: string,
    pronunciation: string,
    level: string,
    importanceRate: string,
    synonyms: string)

  /** The `synonyms` field of a definition payload: a JSON list, a plain
      string, or absent. */
  datatype Synonyms = SynonymList(items: seq<string>) | SynonymText(text: string) | NoSynonyms

  /** A definition payload, as the lookup service returns it; the optional
      fields are the ones read with `data.get(key, default)`. */
  datatype Payload = Payload(
    word: string,
    definition: string,
    example: string,
    pronunciation: Option<string>,
    level: Option<string>,
    importanceRate: Option<string>,
    synonyms: Synonyms)

  /** A joined `(UserWord, Dictionary)` result row. */
  datatype Row = Row(uw: UserWord, entry: Entry)

  /** Ease factor bounds and start value, in tenths. */
  const MinEase := 13
  const MaxEase := 30
  const StartEase := 25

  /** Seconds in the scheduler's delays. */
  const TenMinutes := 600
  const Day := 86400
}
