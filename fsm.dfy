/** One user's finite-state-machine storage: the data dictionary the
    handlers read with `state.get_data()` and write with
    `state.update_data(...)`, and the admin's broadcast state. */
module Fsm {
  import opened Wrappers

  class Context {
    /** `last_word`: the word of the last definition shown, or None. */
    var lastWord: Option<string>
    /** `failed_words`: ids graded `again` in this session. */
    var failedWords: seq<int>
    /** The state is `AdminStates.waiting_for_broadcast`. */
    var awaitingBroadcast: bool

    /** A fresh context: no data and no state. */
    constructor ()
      ensures lastWord == None && failedWords == [] && !awaitingBroadcast
    {
      lastWord := None;
      failedWords := [];
      awaitingBroadcast := false;
    }

    /** `state.clear()`: drops the data dictionary and the state. */
    method Clear()
      modifies this
      ensures lastWord == None && failedWords == [] && !awaitingBroadcast
    {
      lastWord := None;
      failedWords := [];
      awaitingBroadcast := false;
    }
  }
}
