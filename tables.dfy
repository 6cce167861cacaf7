/** The bot's database: the `users`, `dictionary` and `words` tables of the
    current schema, updated in place by the data-access functions. */
module Tables {
  import opened Models
  import opened Text

  /** Primary keys in insertion order: autoincrement ids only grow. */
  predicate IdsIncreasing(ws: seq<UserWord>)
  {
    forall i, j :: 0 <= i < j < |ws| ==> ws[i].id < ws[j].id
  }

  /** At most one study item per (user, word). */
  predicate UniquePairs(ws: seq<UserWord>)
  {
    forall i, j :: 0 <= i < j < |ws| ==> ws[i].userId != ws[j].userId || ws[i].word != ws[j].word
  }

  /** The user already studies `word`. */
  predicate Studies(ws: seq<UserWord>, userId: int, word: string)
  {
    exists i :: 0 <= i < |ws| && ws[i].userId == userId && ws[i].word == word
  }

  /** Every cache entry sits under its own normalised word. */
  predicate DictionaryKeyed(d: map<string, Entry>)
  {
    forall k :: k in d ==> d[k].word == k && Normalize(k) == k
  }

  predicate WellFormed(ws: seq<UserWord>, nextId: int)
  {
    && 1 <= nextId
    && IdsIncreasing(ws)
    && (forall i :: 0 <= i < |ws| ==> 1 <= ws[i].id < nextId)
    && UniquePairs(ws)
  }

  class Database {
    /** `users`: user id to its `active` flag. */
    var users: map<int, bool>
    /** `dictionary`: normalised word to its cached definition. */
    var dictionary: map<string, Entry>
    /** `words`: study items in id order. */
    var words: seq<UserWord>
    /** The id the next inserted study item receives. */
    var nextId: int

    ghost predicate Valid()
      reads this
    {
      WellFormed(words, nextId) && DictionaryKeyed(dictionary)
    }

    constructor ()
      ensures Valid()
      ensures users == map[] && dictionary == map[] && words == [] && nextId == 1
    {
      users := map[];
      dictionary := map[];
      words := [];
      nextId := 1;
    }
  }
}
