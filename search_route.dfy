/** The free-text search handler (src/routes/search.py): cache first, the
    definition service as fallback, and the `last_word` session entry. */
module SearchRoute {
  import opened Wrappers
  import opened Text
  import opened Models
  import opened Tables
  import opened Users
  import opened Dictionary
  import opened Fsm

  /** What the definition service returns: nothing (an error), an empty
      JSON object, or a payload. The first two are both falsy. */
  datatype LlmAnswer = NoAnswer | EmptyObject | Answer(payload: Payload)

  /** Where the definition shown came from. */
  datatype Lookup = Cached(entry: Entry) | Fetched(payload: Payload)

  function LookupWord(l: Lookup): string
  {
    match l
    case Cached(e) => e.word
    case Fetched(p) => p.word
  }

  datatype SearchReply = Command | SubscribeFirst | NotFound | Found(lookup: Lookup)

  /** `handle_search`. The channel-membership check and the definition
      service are parameters; `asked` records whether the service was
      consulted. */
  method HandleSearch(db: Database, ctx: Context, userId: int, text: string, subscribed: bool,
                      llm: string -> LlmAnswer)
    returns (reply: SearchReply, asked: bool)
    requires db.Valid()
    modifies db`users, db`dictionary, ctx`lastWord
    ensures db.Valid()
    ensures db.users == Registered(old(db.users), userId)
    ensures var word := Normalize(text);
      && (StartsWith(word, "/") ==>
            reply == Command && !asked && db.dictionary == old(db.dictionary) && ctx.lastWord == old(ctx.lastWord))
      && (!StartsWith(word, "/") && !subscribed ==>
            reply == SubscribeFirst && !asked && db.dictionary == old(db.dictionary)
            && ctx.lastWord == old(ctx.lastWord))
      && (!StartsWith(word, "/") && subscribed && word in old(db.dictionary) ==>
            reply == Found(Cached(old(db.dictionary)[word])) && !asked
            && db.dictionary == old(db.dictionary))
      && (!StartsWith(word, "/") && subscribed && word !in old(db.dictionary) ==>
            asked
            && (llm(word).Answer? ==>
                  reply == Found(Fetched(llm(word).payload))
                  && db.dictionary == WithEntry(old(db.dictionary), llm(word).payload))
            && (!llm(word).Answer? ==> reply == NotFound && db.dictionary == old(db.dictionary)))
    ensures reply.Found? ==>
      ctx.lastWord == Some(LookupWord(reply.lookup)) && GetCachedDefinition(db.dictionary, LookupWord(reply.lookup)).Some?
    ensures !reply.Found? ==> ctx.lastWord == old(ctx.lastWord)
  {
    var word := Lower(Strip(text));
    StripLowerCommute(text);
    var _ := AddUser(db, userId);
    asked := false;

    if StartsWith(word, "/") {
      return Command, asked;
    }
    if !subscribed {
      return SubscribeFirst, asked;
    }

    var data: Option<Lookup> := None;
    var cached := GetCachedDefinition(db.dictionary, word);
    if cached.Some? {
      data := Some(Cached(cached.value));
      NormalizeIdempotent(text);
    } else {
      var answer := llm(word);
      asked := true;
      if answer.Answer? {
        SaveToGlobalDict(db, answer.payload);
        data := Some(Fetched(answer.payload));
      }
    }

    if data.None? {
      return NotFound, asked;
    }

    ctx.lastWord := Some(LookupWord(data.value));
    reply := Found(data.value);
  }
}
