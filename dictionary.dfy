/** The shared definition cache and the per-user study list
    (src/database/dictionary.py). */
module Dictionary {
  import opened Wrappers
  import opened Text
  import opened Models
  import opened Tables

  // ---------------------------------------------------------------------
  // Definition cache
  // ---------------------------------------------------------------------

  /** The stored form of the `synonyms` field: a list is joined with ", ",
      a missing field becomes the empty string. */
  function SynonymsText(s: Synonyms): string
  {
    match s
    case SynonymList(items) => Join(items, ", ")
    case SynonymText(t) => t
    case NoSynonyms => ""
  }

  /** The cache row `save_to_global_dict` builds from a payload. */
  function MakeEntry(p: Payload): (r: Entry)
    ensures r.word == Normalize(p.word) && Normalize(r.word) == r.word
    ensures r.definition == p.definition && r.example == p.example
    ensures p.pronunciation.None? ==> r.pronunciation == ""
    ensures p.level.None? ==> r.level == "N/A"
    ensures p.importanceRate.None? ==> r.importanceRate == "5/10"
    ensures p.pronunciation.Some? ==> r.pronunciation == p.pronunciation.value
    ensures p.level.Some? ==> r.level == p.level.value
    ensures p.importanceRate.Some? ==> r.importanceRate == p.importanceRate.value
    ensures p.synonyms.SynonymList? ==> r.synonyms == Join(p.synonyms.items, ", ")
    ensures p.synonyms.SynonymText? ==> r.synonyms == p.synonyms.text
    ensures p.synonyms.NoSynonyms? ==> r.synonyms == ""
  {
    NormalizeIdempotent(p.word);
    Entry(
      Normalize(p.word),
      p.definition,
      p.example,
      p.pronunciation.GetOr(""),
      p.level.GetOr("N/A"),
      p.importanceRate.GetOr("5/10"),
      SynonymsText(p.synonyms))
  }

  /** The cache after saving `p`: insert under the normalised word unless
      that key is already present. */
  function WithEntry(d: map<string, Entry>, p: Payload): (r: map<string, Entry>)
    ensures Normalize(p.word) in r
    ensures Normalize(p.word) in d ==> r == d
    ensures Normalize(p.word) !in d ==> r[Normalize(p.word)] == MakeEntry(p)
    ensures forall k :: k != Normalize(p.word) ==> (k in r <==> k in d)
    ensures forall k :: k in d ==> k in r && r[k] == d[k]
  {
    var key := Normalize(p.word);
    if key in d then d else d[key := MakeEntry(p)]
  }

  /** `save_to_global_dict`: the first write of a word wins. */
  method SaveToGlobalDict(db: Database, data: Payload)
    requires db.Valid()
    modifies db`dictionary
    ensures db.Valid()
    ensures db.dictionary == WithEntry(old(db.dictionary), data)
  {
    var wordText := Normalize(data.word);
    if wordText in db.dictionary {
      return;
    }
    NormalizeIdempotent(data.word);
    db.dictionary := db.dictionary[wordText := MakeEntry(data)];
  }

  /** `get_cached_definition`: the entry under the normalised word. */
  function GetCachedDefinition(d: map<string, Entry>, word: string): (r: Option<Entry>)
    ensures r.None? <==> Normalize(word) !in d
    ensures r.Some? ==> r.value == d[Normalize(word)]
  {
    var key := Normalize(word);
    if key in d then Some(d[key]) else None
  }

  /** After a save, every variant of the word that normalises to the same
      key finds an entry, and that entry's `word` is the key; when the key
      was new it is the saved payload, with its defaults filled in. */
  lemma LookupAfterSave(d: map<string, Entry>, p: Payload, variant: string)
    requires DictionaryKeyed(d)
    requires Normalize(variant) == Normalize(p.word)
    ensures GetCachedDefinition(WithEntry(d, p), variant).Some?
    ensures GetCachedDefinition(WithEntry(d, p), variant).value.word == Normalize(p.word)
    ensures Normalize(p.word) in d ==> GetCachedDefinition(WithEntry(d, p), variant) == Some(d[Normalize(p.word)])
    ensures Normalize(p.word) !in d ==> GetCachedDefinition(WithEntry(d, p), variant) == Some(MakeEntry(p))
  {
  }

  /** A save never disturbs another key, and a second save of the same key
      leaves the first one in place. */
  lemma FirstWriteWins(d: map<string, Entry>, p: Payload, p': Payload)
    requires Normalize(p'.word) == Normalize(p.word)
    ensures WithEntry(WithEntry(d, p), p') == WithEntry(d, p)
  {
  }

  /** A payload without the optional fields is stored with the defaults
      '', 'N/A', '5/10' and no synonyms. */
  lemma EntryDefaults(word: string, definition: string, example: string)
    ensures MakeEntry(Payload(word, definition, example, None, None, None, NoSynonyms))
         == Entry(Normalize(word), definition, example, "", "N/A", "5/10", "")
  {
  }

  // ---------------------------------------------------------------------
  // Study list
  // ---------------------------------------------------------------------

  /** The row `add_to_study_list` inserts: learning, step 0, interval 1,
      ease 2.5, due at once. */
  function NewStudyItem(id: int, userId: int, word: string, now: int): UserWord
  {
    UserWord(id, userId, word, Learning, 0, now, 1, StartEase)
  }

  /** The `select ... where user_id = ? and word = ?` lookup. */
  function FindPair(ws: seq<UserWord>, userId: int, word: string): (r: Option<nat>)
    ensures r.Some? ==> r.value < |ws| && ws[r.value].userId == userId && ws[r.value].word == word
    ensures r.None? <==> !Studies(ws, userId, word)
  {
    if |ws| == 0 then None
    else if ws[0].userId == userId && ws[0].word == word then Some(0)
    else
      match FindPair(ws[1..], userId, word)
      case Some(i) => Some(i + 1)
      case None =>
        assert forall i :: 1 <= i < |ws| ==> ws[i] == ws[1..][i - 1];
        None
  }

  /** `add_to_study_list`: refuses a (user, normalised word) pair already
      present; otherwise appends one new item under a fresh id. */
  method AddToStudyList(db: Database, userId: int, word: string, now: int) returns (added: bool)
    requires db.Valid()
    modifies db`words, db`nextId
    ensures db.Valid()
    ensures added == !Studies(old(db.words), userId, Normalize(word))
    ensures added ==> db.words == old(db.words) + [NewStudyItem(old(db.nextId), userId, Normalize(word), now)]
    ensures added ==> db.nextId == old(db.nextId) + 1
    ensures !added ==> db.words == old(db.words) && db.nextId == old(db.nextId)
  {
    var key := Normalize(word);
    var existing := FindPair(db.words, userId, key);
    if existing.Some? {
      return false;
    }
    var item := NewStudyItem(db.nextId, userId, key, now);
    assert !Studies(db.words, userId, key);
    db.words := db.words + [item];
    db.nextId := db.nextId + 1;
    return true;
  }

  // ---------------------------------------------------------------------
  // Paginated listing
  // ---------------------------------------------------------------------

  /** The user's study items joined with their cache entries, newest (highest
      id) first. */
  function UserRowsDesc(ws: seq<UserWord>, d: map<string, Entry>, userId: int): (r: seq<Row>)
    ensures |r| <= |ws|
    ensures forall i :: 0 <= i < |r| ==>
      r[i].uw in ws && r[i].uw.userId == userId && r[i].uw.word in d && r[i].entry == d[r[i].uw.word]
    ensures forall w :: w in ws && w.userId == userId && w.word in d ==> Row(w, d[w.word]) in r
    ensures IdsIncreasing(ws) ==> forall i, j :: 0 <= i < j < |r| ==> r[i].uw.id > r[j].uw.id
  {
    if ws == [] then []
    else
      var last := ws[|ws| - 1];
      var older := UserRowsDesc(ws[..|ws| - 1], d, userId);
      assert forall i :: 0 <= i < |older| ==> older[i].uw in ws;
      assert forall w :: w in ws ==> w == last || w in ws[..|ws| - 1];
      if last.userId == userId && last.word in d then [Row(last, d[last.word])] + older else older
  }

  /** The number of the user's study rows, counted without the join. */
  function CountUserRows(ws: seq<UserWord>, userId: int): nat
  {
    if ws == [] then 0
    else (if ws[|ws| - 1].userId == userId then 1 else 0) + CountUserRows(ws[..|ws| - 1], userId)
  }

  /** `LIMIT limit OFFSET offset` over a result list. */
  function Window(all: seq<Row>, offset: nat, limit: nat): (r: seq<Row>)
    ensures |r| <= limit
    ensures |r| == if offset >= |all| then 0 else Min(limit, |all| - offset)
    ensures forall i :: 0 <= i < |r| ==> offset + i < |all| && r[i] == all[offset + i]
  {
    all[Min(offset, |all|)..Min(offset + limit, |all|)]
  }

  /** The `OFFSET` of page `page`: `page * limit`. */
  function Offset(page: nat, limit: nat): nat
  {
    page * limit
  }

  /** `get_user_dictionary`: a window of `limit` rows at offset
      `page * limit` over the joined, newest-first rows, and `has_next` from
      the unjoined count. */
  function GetUserDictionary(ws: seq<UserWord>, d: map<string, Entry>, userId: int, page: nat, limit: nat)
    : (result: (seq<Row>, bool))
    ensures |result.0| <= limit
    ensures forall i :: 0 <= i < |result.0| ==>
      Offset(page, limit) + i < |UserRowsDesc(ws, d, userId)|
      && result.0[i] == UserRowsDesc(ws, d, userId)[Offset(page, limit) + i]
    ensures Offset(page, limit) + limit <= |UserRowsDesc(ws, d, userId)| ==> |result.0| == limit
    ensures result.1 <==> CountUserRows(ws, userId) > (page + 1) * limit
  {
    NextOffset(page, limit);
    (Window(UserRowsDesc(ws, d, userId), Offset(page, limit), limit),
     CountUserRows(ws, userId) > Offset(page, limit) + limit)
  }

  lemma NextOffset(page: nat, limit: nat)
    ensures (page + 1) * limit == Offset(page, limit) + limit
  {
  }

  /** Every page lists at most `limit` of the user's items, newest first,
      each with its cache entry. */
  lemma PageNewestFirst(ws: seq<UserWord>, d: map<string, Entry>, userId: int, page: nat, limit: nat)
    requires IdsIncreasing(ws)
    ensures var rows := GetUserDictionary(ws, d, userId, page, limit).0;
      && |rows| <= limit
      && (forall i :: 0 <= i < |rows| ==>
            rows[i].uw in ws && rows[i].uw.userId == userId && rows[i].entry == d[rows[i].uw.word])
      && (forall i, j :: 0 <= i < j < |rows| ==> rows[i].uw.id > rows[j].uw.id)
  {
    var all := UserRowsDesc(ws, d, userId);
    WindowKeepsOrder(all, Offset(page, limit), limit);
  }

  lemma WindowKeepsOrder(all: seq<Row>, offset: nat, limit: nat)
    requires forall i, j :: 0 <= i < j < |all| ==> all[i].uw.id > all[j].uw.id
    ensures var rows := Window(all, offset, limit);
      forall i, j :: 0 <= i < j < |rows| ==> rows[i].uw.id > rows[j].uw.id
  {
    var rows := Window(all, offset, limit);
    forall i, j | 0 <= i < j < |rows|
      ensures rows[i].uw.id > rows[j].uw.id
    {
      assert rows[i] == all[offset + i] && rows[j] == all[offset + j];
    }
  }

  /** Offset pagination shows each of the user's items exactly where it
      belongs: item `i` of the newest-first list is entry `i % limit` of
      page `i / limit`. */
  lemma PagesTile(ws: seq<UserWord>, d: map<string, Entry>, userId: int, limit: nat, i: nat)
    requires limit > 0 && i < |UserRowsDesc(ws, d, userId)|
    ensures var rows := GetUserDictionary(ws, d, userId, i / limit, limit).0;
      i % limit < |rows| && rows[i % limit] == UserRowsDesc(ws, d, userId)[i]
  {
    WindowTiles(UserRowsDesc(ws, d, userId), limit, i);
  }

  lemma WindowTiles(all: seq<Row>, limit: nat, i: nat)
    requires limit > 0 && i < |all|
    ensures var rows := Window(all, (i / limit) * limit, limit);
      i % limit < |rows| && rows[i % limit] == all[i]
  {
    DivBounds(i, limit);
  }

  lemma DivBounds(i: nat, limit: nat)
    requires limit > 0
    ensures (i / limit) * limit + i % limit == i
    ensures 0 <= i % limit < limit
  {
  }

  lemma {:induction false} JoinedCount(ws: seq<UserWord>, d: map<string, Entry>, userId: int)
    requires forall i :: 0 <= i < |ws| ==> ws[i].word in d
    ensures |UserRowsDesc(ws, d, userId)| == CountUserRows(ws, userId)
  {
    if ws != [] {
      JoinedCount(ws[..|ws| - 1], d, userId);
    }
  }

  /** When every study item has its cache entry (the foreign key holds),
      `has_next` is true exactly when the following page is not empty. */
  lemma HasNextMeansMore(ws: seq<UserWord>, d: map<string, Entry>, userId: int, page: nat, limit: nat)
    requires forall i :: 0 <= i < |ws| ==> ws[i].word in d
    ensures GetUserDictionary(ws, d, userId, page, limit).1
        <==> CountUserRows(ws, userId) > (page + 1) * limit
    ensures limit > 0 ==>
      (GetUserDictionary(ws, d, userId, page, limit).1 <==>
        |GetUserDictionary(ws, d, userId, page + 1, limit).0| > 0)
  {
    JoinedCount(ws, d, userId);
    assert (page + 1) * limit == page * limit + limit;
  }
}
