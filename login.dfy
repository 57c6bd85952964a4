/** `POST /api/auth/login`: normalises the submitted pseudo and stores it in the session cookie. */
module Login {
  import opened Wrappers
  import opened Text
  import opened Session

  const MinPseudoLength := 2
  const MaxPseudoLength := 24

  /**
   * Trim, collapse every whitespace run to one space, keep the first 24 characters: the
   * first 24 characters of the words of `raw` joined with single spaces. The
   * result starts with a visible character, is single-spaced and keeps a prefix of the
   * visible characters; when nothing is cut it is also trimmed and keeps all of them.
   */
  function NormalizePseudo(raw: string): (p: string)
    ensures p == Take(JoinSpace(Words(raw)), MaxPseudoLength)
    ensures |p| <= MaxPseudoLength
    ensures p == [] || !IsSpace(p[0])
    ensures SingleSpaced(p)
    ensures Visible(p) <= Visible(raw)
    ensures |raw| <= MaxPseudoLength ==> Trimmed(p) && Visible(p) == Visible(raw)
  {
    var c := Normalize(raw);
    VisibleTake(c, MaxPseudoLength);
    TakeSingleSpaced(c, MaxPseudoLength);
    Take(c, MaxPseudoLength)
  }

  /** The reply: its HTTP status, the pseudo in its body, and the value given to the `cc_pseudo` cookie. */
  datatype LoginResponse = LoginResponse(status: nat, pseudo: Option<string>, setCookie: Option<string>)

  /**
   * The handler, given the body's `pseudo` field (absent reads as ""): a normalised
   * pseudo shorter than 2 is refused with 400 and sets no cookie; otherwise the cookie
   * is set to the normalised pseudo, which the reply also carries.
   */
  function Login(field: Option<string>): (r: LoginResponse)
    ensures var p := NormalizePseudo(field.GetOr(""));
      && (r.status == 400 <==> |p| < MinPseudoLength)
      && (r.status == 400 ==> r.setCookie.None? && r.pseudo.None?)
      && (r.status != 400 ==> r.status == 200 && r.setCookie == Some(p) && r.pseudo == Some(p))
    ensures r.setCookie.Some? ==>
      && MinPseudoLength <= |r.setCookie.value| <= MaxPseudoLength
      && SignedIn(r.setCookie)
  {
    var p := NormalizePseudo(field.GetOr(""));
    if |p| < MinPseudoLength then LoginResponse(400, None, None)
    else LoginResponse(200, Some(p), Some(p))
  }

  /** A name with no whitespace at its ends, only single spaces inside and at most 24 characters is kept as typed. */
  lemma NormalizeCleanName(name: string)
    requires Trimmed(name) && SingleSpaced(name) && |name| <= MaxPseudoLength
    ensures NormalizePseudo(name) == name
  {
    NormalizeClean(name);
  }

  /** A clean name of 2 to 24 characters signs the player in under exactly that name. */
  lemma LoginCleanName(name: string)
    requires Trimmed(name) && SingleSpaced(name) && MinPseudoLength <= |name| <= MaxPseudoLength
    ensures Login(Some(name)) == LoginResponse(200, Some(name), Some(name))
  {
    NormalizeCleanName(name);
  }

  lemma {:induction false} NoSpaceSingleSpaced(s: string)
    requires NoSpace(s)
    ensures SingleSpaced(s)
  {
    if s != [] {
      NoSpaceSingleSpaced(s[1..]);
    }
  }

  /**
   * The cut comes after the whitespace is normalised, so it can leave a trailing space:
   * 23 visible characters, a space and one more character become the 23 characters and
   * the space.
   */
  lemma CutKeepsTrailingSpace(w: string, c: char)
    requires |w| == MaxPseudoLength - 1 && NoSpace(w) && !IsSpace(c)
    ensures NormalizePseudo(w + [' ', c]) == w + [' ']
  {
    var s := w + [' ', c];
    assert s[0] == w[0] && s[|s| - 1] == c;
    TrimTrimmed(s);
    assert SingleSpaced([' ', c]) by {
      assert [' ', c][1..] == [c];
      assert [c][1..] == [];
    }
    NoSpaceSingleSpaced(w);
    SingleSpacedJoin(w, [' ', c]);
    CollapseSingleSpaced(s);
    assert Take(s, MaxPseudoLength) == s[..MaxPseudoLength];
    assert s[..MaxPseudoLength] == w + [' '];
  }

  lemma {:induction false} SingleSpacedJoin(a: string, b: string)
    requires NoSpace(a) && SingleSpaced(b)
    ensures SingleSpaced(a + b)
  {
    if a == [] {
      assert a + b == b;
    } else {
      SingleSpacedJoin(a[1..], b);
      assert (a + b)[0] == a[0];
      assert (a + b)[1..] == a[1..] + b;
    }
  }
}
