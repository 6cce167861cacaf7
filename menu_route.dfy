/** The "Add to Dictionary" button (src/routes/menu.py): moves the last
    looked-up word onto the user's study list. */
module MenuRoute {
  import opened Wrappers
  import opened Text
  import opened Models
  import opened Tables
  import opened Dictionary
  import opened Srs
  import opened Fsm

  /** The alert shown, or `Crashed` where the handler raises (the stored
      word has no cache entry, so `None` reaches `add_to_study_list`). */
  datatype AddReply = SessionExpired | Added | AlreadyInList | Crashed

  /** `callback_add_word`. */
  method CallbackAddWord(db: Database, ctx: Context, userId: int, now: int) returns (reply: AddReply)
    requires db.Valid()
    modifies db`words, db`nextId, ctx`lastWord
    ensures db.Valid()
    ensures old(ctx.lastWord).None? || old(ctx.lastWord) == Some("") ==>
      reply == SessionExpired && unchanged(db) && ctx.lastWord == old(ctx.lastWord)
    ensures old(ctx.lastWord).Some? && old(ctx.lastWord) != Some("")
            && GetCachedDefinition(db.dictionary, old(ctx.lastWord).value).None? ==>
      reply == Crashed && unchanged(db) && ctx.lastWord == old(ctx.lastWord)
    ensures old(ctx.lastWord).Some? && old(ctx.lastWord) != Some("")
            && GetCachedDefinition(db.dictionary, old(ctx.lastWord).value).Some? ==>
      reply == Added || reply == AlreadyInList
    ensures reply == Added || reply == AlreadyInList ==>
      var e := GetCachedDefinition(db.dictionary, old(ctx.lastWord).value).value;
      && e.word in db.dictionary
      && (reply == Added <==> !Studies(old(db.words), userId, e.word))
      && (reply == Added ==>
            db.words == old(db.words) + [NewStudyItem(old(db.nextId), userId, e.word, now)]
            && ctx.lastWord == None
            && Row(db.words[|db.words| - 1], db.dictionary[e.word]) in GetDueWords(db.words, db.dictionary, userId, now))
      && (reply == AlreadyInList ==> unchanged(db) && ctx.lastWord == old(ctx.lastWord))
  {
    var word := ctx.lastWord;
    if word.None? || word.value == "" {
      return SessionExpired;
    }

    var wordToAdd := GetCachedDefinition(db.dictionary, word.value);
    if wordToAdd.None? {
      return Crashed;
    }
    var e := wordToAdd.value;
    assert Normalize(e.word) == e.word && e.word in db.dictionary;

    var success := AddToStudyList(db, userId, e.word, now);
    if success {
      NewItemIsDue(db.words, db.dictionary, db.words[|db.words| - 1], now);
      ctx.lastWord := None;
      return Added;
    }
    return AlreadyInList;
  }
}
