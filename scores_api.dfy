/** `/api/scores`: `POST` records an attempt of the signed-in player, `GET` returns the leaderboard. */
module ScoresApi {
  import opened Wrappers
  import opened Records
  import opened Session
  import opened Scores
  import opened Standings
  import opened Db

  /** The body of `POST`: the level and the attempt's score and time, each possibly missing. */
  datatype ScoreBody = ScoreBody(level: Option<int>, score: Option<int>, timeMs: Option<int>)

  /** `Math.max(0, Math.floor(Number(x ?? 0)))` for an integer `x`: never negative, 0 when missing. */
  function ClampNonNegative(x: Option<int>): (r: int)
    ensures r >= 0
    ensures x.None? ==> r == 0
    ensures x.Some? ==> r >= x.value && (r == x.value || r == 0)
  {
    Max(0, x.GetOr(0))
  }

  datatype Decision = Unauthorized | InvalidLevel | Submit(attempt: Attempt)

  /**
   * The checks of `POST`, in the handler's order: no session gives 401; a level outside
   * 1 to 4 (or none) gives 400; otherwise the clamped attempt of the cookie's pseudo is submitted.
   */
  function Decide(cookie: Option<string>, body: ScoreBody): (d: Decision)
    ensures d.Unauthorized? <==> !SignedIn(cookie)
    ensures d.InvalidLevel? <==> SignedIn(cookie) && !(body.level.Some? && IsLevel(body.level.value))
    ensures d.Submit? ==>
      && d.attempt.pseudo == cookie.value
      && Some(d.attempt.level) == body.level && IsLevel(d.attempt.level)
      && d.attempt.score == ClampNonNegative(body.score) && d.attempt.score >= 0
      && d.attempt.timeMs == ClampNonNegative(body.timeMs) && d.attempt.timeMs >= 0
  {
    if !SignedIn(cookie) then Unauthorized
    else
      var score := ClampNonNegative(body.score);
      var timeMs := ClampNonNegative(body.timeMs);
      if !(body.level.Some? && IsLevel(body.level.value)) then InvalidLevel
      else Submit(Attempt(cookie.value, body.level.value, score, timeMs))
  }

  function Status(d: Decision): (status: nat)
    ensures status == 401 <==> d.Unauthorized?
    ensures status == 400 <==> d.InvalidLevel?
    ensures status == 200 <==> d.Submit?
  {
    match d
    case Unauthorized => 401
    case InvalidLevel => 400
    case Submit(_) => 200
  }

  /** `POST`: the store changes only when the request passes both checks, and then by one upsert. */
  method Post(store: Store, cookie: Option<string>, body: ScoreBody, now: Timestamp) returns (status: nat)
    modifies store
    ensures status == Status(Decide(cookie, body))
    ensures store.users == old(store.users)
    ensures Decide(cookie, body).Submit? ==> store.scores == Upsert(old(store.scores), Decide(cookie, body).attempt, now)
    ensures !Decide(cookie, body).Submit? ==> store.scores == old(store.scores)
    ensures old(store.Valid()) ==> store.Valid()
  {
    var d := Decide(cookie, body);
    if d.Submit? {
      store.UpsertBestScore(d.attempt, now);
    }
    status := Status(d);
  }

  /** `GET`: the leaderboard, as `getLeaderboard` returns it. */
  method Get(store: Store) returns (lb: seq<Row>)
    ensures lb == Leaderboard(store.scores)
    ensures Descending(lb) && PseudosDistinct(lb)
  {
    lb := store.GetLeaderboard();
  }
}
