/** `/api/progress`: the signed-in player's progress, read (`GET`) or advanced by one completed level (`POST`). */
module ProgressApi {
  import opened Wrappers
  import opened Records
  import opened Session
  import opened Users
  import opened Db

  datatype ProgressResponse = NotLoggedIn | InvalidLevel | Progress(user: User)

  function Status(r: ProgressResponse): (status: nat)
    ensures status == 401 <==> r.NotLoggedIn?
    ensures status == 400 <==> r.InvalidLevel?
    ensures status == 200 <==> r.Progress?
  {
    match r
    case NotLoggedIn => 401
    case InvalidLevel => 400
    case Progress(_) => 200
  }

  /** `GET`: 401 without a session, leaving the store alone; otherwise `getProgress` of the cookie's pseudo. */
  method Get(store: Store, cookie: Option<string>, now: Timestamp) returns (r: ProgressResponse)
    modifies store
    ensures !SignedIn(cookie) ==> r == NotLoggedIn && store.users == old(store.users)
    ensures SignedIn(cookie) ==>
      && r == Progress(Current(old(store.users), cookie.value, now))
      && store.users == WithUser(old(store.users), cookie.value, r.user)
    ensures store.scores == old(store.scores)
    ensures old(store.Valid()) ==> store.Valid()
  {
    if !SignedIn(cookie) {
      return NotLoggedIn;
    }
    var u := store.GetProgress(cookie.value, now);
    r := Progress(u);
  }

  /**
   * `POST`: 401 without a session and 400 for a level outside 1 to 4, both leaving the
   * store alone; otherwise one `updateProgress` of the cookie's pseudo, whose record is returned.
   */
  method Post(store: Store, cookie: Option<string>, completeLevel: Option<int>, now: Timestamp) returns (r: ProgressResponse)
    modifies store
    ensures !SignedIn(cookie) ==> r == NotLoggedIn
    ensures SignedIn(cookie) && !(completeLevel.Some? && IsLevel(completeLevel.value)) ==> r == InvalidLevel
    ensures SignedIn(cookie) && completeLevel.Some? && IsLevel(completeLevel.value) ==> r.Progress?
    ensures !r.Progress? ==> store.users == old(store.users)
    ensures r.Progress? ==>
      && SignedIn(cookie) && completeLevel.Some? && IsLevel(completeLevel.value)
      && r.user == Complete(Current(old(store.users), cookie.value, now), completeLevel.value, now)
      && store.users == WithUser(old(store.users), cookie.value, r.user)
    ensures store.scores == old(store.scores)
    ensures old(store.Valid()) ==> store.Valid()
  {
    if !SignedIn(cookie) {
      return NotLoggedIn;
    }
    if !(completeLevel.Some? && IsLevel(completeLevel.value)) {
      return InvalidLevel;
    }
    var u := store.UpdateProgress(cookie.value, completeLevel.value, now);
    r := Progress(u);
  }
}
