/** `/api/comments`: the page-size clamp of `GET` and the checks `POST` makes before inserting. */
module Comments {
  import opened Wrappers
  import opened Text
  import opened Records
  import opened Session

  const DefaultLimit := 80
  const MaxLimit := 200
  const MinMessageLength := 2
  const MaxMessageLength := 240

  /** `Math.max(1, Math.min(200, Number(limit ?? 80)))` for an integer parameter. */
  function Limit(param: Option<int>): (n: int)
    ensures 1 <= n <= MaxLimit
    ensures param.None? ==> n == DefaultLimit
    ensures param.Some? ==> (n == param.value <==> 1 <= param.value <= MaxLimit)
    ensures param.Some? && param.value < 1 ==> n == 1
    ensures param.Some? && param.value > MaxLimit ==> n == MaxLimit
  {
    Max(1, Min(MaxLimit, param.GetOr(DefaultLimit)))
  }

  /** What `POST` does: refuse with 401 or 400, or insert a comment. */
  datatype PostOutcome =
    | NotSignedIn
    | MessageTooShort
    | MessageTooLong
    | Insert(pseudo: string, message: string)

  function PostStatus(o: PostOutcome): (status: nat)
    ensures status == 401 <==> o.NotSignedIn?
    ensures status == 400 <==> o.MessageTooShort? || o.MessageTooLong?
    ensures status == 200 <==> o.Insert?
  {
    match o
    case NotSignedIn => 401
    case MessageTooShort => 400
    case MessageTooLong => 400
    case Insert(_, _) => 200
  }

  /**
   * The handler, given the session cookie and the body's `message` field (absent reads as
   * ""): without a session it refuses whatever the body; otherwise it inserts the
   * normalised message (`messageRaw.trim().replace(/\s+/g, " ")`) under the cookie's pseudo exactly when its length is 2 to 240.
   */
  function PostComment(cookie: Option<string>, field: Option<string>): (o: PostOutcome)
    ensures !SignedIn(cookie) ==> o == NotSignedIn
    ensures var m := Normalize(field.GetOr(""));
      && (o.MessageTooShort? <==> SignedIn(cookie) && |m| < MinMessageLength)
      && (o.MessageTooLong? <==> SignedIn(cookie) && |m| > MaxMessageLength)
      && (o.Insert? <==> SignedIn(cookie) && MinMessageLength <= |m| <= MaxMessageLength)
      && (o.Insert? ==> o == Insert(cookie.value, m))
  {
    if !SignedIn(cookie) then NotSignedIn
    else
      var m := Normalize(field.GetOr(""));
      if |m| < MinMessageLength then MessageTooShort
      else if |m| > MaxMessageLength then MessageTooLong
      else Insert(cookie.value, m)
  }
}
