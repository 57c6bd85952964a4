/** The session: the player's pseudo lives in the `cc_pseudo` cookie. */
module Session {
  import opened Wrappers

  /**
   * The handlers test `!pseudo` on `cookies.get("cc_pseudo")`: a missing cookie and an
   * empty one both count as signed out.
   */
  predicate SignedIn(cookie: Option<string>) {
    cookie.Some? && cookie.value != ""
  }
}
