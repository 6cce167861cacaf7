/** The user registry (src/database/users.py). */
module Users {
  import opened Tables

  /** The `users` table after registering `userId`: insert-if-absent, a new
      row being active. */
  function Registered(users: map<int, bool>, userId: int): (r: map<int, bool>)
    ensures userId in r
    ensures userId in users ==> r == users
    ensures userId !in users ==> r[userId] && |r| == |users| + 1
    ensures forall u :: u in users ==> u in r && r[u] == users[u]
    ensures forall u :: u in r && u != userId ==> u in users
  {
    if userId in users then users else users[userId := true]
  }

  /** Registering twice is registering once. */
  lemma RegisteredIdempotent(users: map<int, bool>, userId: int)
    ensures Registered(Registered(users, userId), userId) == Registered(users, userId)
  {
  }

  /** `add_user`: true exactly when the user was not yet registered. */
  method AddUser(db: Database, userId: int) returns (isNew: bool)
    requires db.Valid()
    modifies db`users
    ensures db.Valid()
    ensures isNew == (userId !in old(db.users))
    ensures db.users == Registered(old(db.users), userId)
  {
    var user := userId in db.users;
    if !user {
      db.users := db.users[userId := true];
      return true;
    }
    return false;
  }
}
