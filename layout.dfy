/** The root layout loader: guards the protected pages and exposes the signed-in player. */
module Layout {
  import opened Wrappers
  import opened Text
  import opened Session

  const ProtectedPrefixes: seq<string> := ["/dashboard", "/play", "/leaderboard"]

  /** `prefixes.some((p) => path.startsWith(p))`. */
  function AnyPrefix(path: string, prefixes: seq<string>): (b: bool)
    ensures b <==> exists i :: 0 <= i < |prefixes| && StartsWith(path, prefixes[i])
  {
    if prefixes == [] then false
    else StartsWith(path, prefixes[0]) || AnyPrefix(path, prefixes[1..])
  }

  predicate IsProtected(path: string) {
    AnyPrefix(path, ProtectedPrefixes)
  }

  /** A path is protected exactly when it starts with one of the three prefixes. */
  lemma IsProtectedIff(path: string)
    ensures IsProtected(path) <==>
      StartsWith(path, "/dashboard") || StartsWith(path, "/play") || StartsWith(path, "/leaderboard")
  {
    var ps := ProtectedPrefixes;
    assert |ps| == 3 && ps[0] == "/dashboard" && ps[1] == "/play" && ps[2] == "/leaderboard";
    if StartsWith(path, "/dashboard") || StartsWith(path, "/play") || StartsWith(path, "/leaderboard") {
      assert StartsWith(path, ps[0]) || StartsWith(path, ps[1]) || StartsWith(path, ps[2]);
    }
  }

  /** The test is on prefixes, not on path segments: "/playground" counts as protected, "/" does not. */
  lemma PrefixNotSegment()
    ensures IsProtected("/playground")
    ensures !IsProtected("/")
  {
    IsProtectedIff("/playground");
    assert StartsWith("/playground", "/play");
    IsProtectedIff("/");
  }

  datatype LoadResult = Redirect(status: nat, location: string) | Data(user: Option<string>)

  /**
   * `load`: a protected path without a session redirects with 303 to "/"; otherwise the
   * page gets the session's pseudo as its user, or no user.
   */
  function Load(cookie: Option<string>, path: string): (r: LoadResult)
    ensures r.Redirect? <==> IsProtected(path) && !SignedIn(cookie)
    ensures r.Redirect? ==> r == Redirect(303, "/")
    ensures r.Data? ==> (r.user.Some? <==> SignedIn(cookie))
    ensures r.Data? && r.user.Some? ==> r.user == cookie
  {
    if IsProtected(path) && !SignedIn(cookie) then Redirect(303, "/")
    else if SignedIn(cookie) then Data(Some(cookie.value))
    else Data(None)
  }
}
