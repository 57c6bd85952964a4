/**
 * The string operations the route handlers apply to user input:
 * `trim`, `replace(/\s+/g, " ")`, `toLowerCase` and `startsWith`.
 * Characters are restricted to ASCII for whitespace and case.
 */
module Text {

  /** Whitespace as `\s` and `String.prototype.trim` see it, restricted to ASCII. */
  predicate IsSpace(c: char) {
    c == ' ' || c == '\t' || c == '\n' || c == '\r' || c == '\U{B}' || c == '\U{C}'
  }

  function LowerChar(c: char): char {
    if 'A' <= c <= 'Z' then (c as int + 32) as char else c
  }

  /**
   * `toLowerCase`, on ASCII letters: no upper-case letter is left, each one becomes the
   * same letter in lower case, and every other character is kept.
   */
  function Lower(s: string): (r: string)
    ensures |r| == |s|
    ensures forall i :: 0 <= i < |r| ==> !('A' <= r[i] <= 'Z')
    ensures forall i :: 0 <= i < |s| && 'A' <= s[i] <= 'Z' ==> r[i] as int - 'a' as int == s[i] as int - 'A' as int
    ensures forall i :: 0 <= i < |s| && !('A' <= s[i] <= 'Z') ==> r[i] == s[i]
  {
    seq(|s|, i requires 0 <= i < |s| => LowerChar(s[i]))
  }

  /** Case-insensitive equality of two pseudos, as `a.toLowerCase() === b.toLowerCase()`. */
  predicate SameName(a: string, b: string) {
    Lower(a) == Lower(b)
  }

  predicate StartsWith(s: string, prefix: string) {
    |prefix| <= |s| && s[..|prefix|] == prefix
  }

  /** Lower-casing twice is lower-casing once. */
  lemma LowerIdempotent(s: string)
    ensures Lower(Lower(s)) == Lower(s)
  {
  }

  /** Names equal up to case have the same length, and equality up to case is an equivalence. */
  lemma SameNameEquivalence(a: string, b: string, c: string)
    ensures SameName(a, a)
    ensures SameName(a, b) ==> SameName(b, a) && |a| == |b|
    ensures SameName(a, b) && SameName(b, c) ==> SameName(a, c)
  {
  }

  predicate NoSpace(s: string) {
    forall i :: 0 <= i < |s| ==> !IsSpace(s[i])
  }

  predicate AllSpace(s: string) {
    forall i :: 0 <= i < |s| ==> IsSpace(s[i])
  }

  /** No whitespace at either end. */
  predicate Trimmed(s: string) {
    s == [] || (!IsSpace(s[0]) && !IsSpace(s[|s| - 1]))
  }

  /** Every whitespace character is a plain space and no two whitespace characters are adjacent. */
  predicate SingleSpaced(s: string) {
    s == [] || (
      && (IsSpace(s[0]) ==> s[0] == ' ' && (|s| == 1 || !IsSpace(s[1])))
      && SingleSpaced(s[1..]))
  }

  /** The non-whitespace characters of `s`, in order: what whitespace normalisation must keep. */
  function Visible(s: string): string {
    if s == [] then [] else (if IsSpace(s[0]) then [] else [s[0]]) + Visible(s[1..])
  }

  /** `trimStart`: drops the whitespace-only prefix. */
  function TrimStart(s: string): (r: string)
    ensures |r| <= |s| && r == s[|s| - |r|..]
    ensures AllSpace(s[..|s| - |r|])
    ensures r == [] || !IsSpace(r[0])
  {
    if s != [] && IsSpace(s[0]) then
      var r := TrimStart(s[1..]);
      SuffixStep(s, r);
      r
    else s
  }

  /** Dropping one more leading whitespace character keeps a suffix behind a whitespace-only prefix. */
  lemma SuffixStep(s: string, r: string)
    requires s != [] && IsSpace(s[0])
    requires |r| <= |s| - 1 && r == s[1..][|s| - 1 - |r|..] && AllSpace(s[1..][..|s| - 1 - |r|])
    ensures r == s[|s| - |r|..] && AllSpace(s[..|s| - |r|])
  {
    assert s[1..][|s| - 1 - |r|..] == s[|s| - |r|..];
    forall k | 0 <= k < |s| - |r| ensures IsSpace(s[k]) {
      if k > 0 {
        assert s[k] == s[1..][..|s| - 1 - |r|][k - 1];
      }
    }
  }

  /** `trimEnd`: drops the whitespace-only suffix. */
  function TrimEnd(s: string): (r: string)
    ensures |r| <= |s| && r == s[..|r|]
    ensures AllSpace(s[|r|..])
    ensures r == [] || !IsSpace(r[|r| - 1])
  {
    if s != [] && IsSpace(s[|s| - 1]) then
      var r := TrimEnd(s[..|s| - 1]);
      PrefixStep(s, r);
      r
    else s
  }

  /** Dropping one more trailing whitespace character keeps a prefix before a whitespace-only suffix. */
  lemma PrefixStep(s: string, r: string)
    requires s != [] && IsSpace(s[|s| - 1])
    requires |r| <= |s| - 1 && r == s[..|s| - 1][..|r|] && AllSpace(s[..|s| - 1][|r|..])
    ensures r == s[..|r|] && AllSpace(s[|r|..])
  {
    assert s[..|s| - 1][..|r|] == s[..|r|];
    forall k | |r| <= k < |s| ensures IsSpace(s[k]) {
      if k < |s| - 1 {
        assert s[k] == s[..|s| - 1][|r|..][k - |r|];
      }
    }
  }

  /** `trim`: drops whitespace at both ends; the result has whitespace at neither end. */
  function Trim(s: string): (r: string)
    ensures Trimmed(r)
    ensures |r| <= |s|
  {
    TrimEnd(TrimStart(s))
  }

  /** `s.replace(/\s+/g, " ")`: each maximal run of whitespace becomes one space. */
  function Collapse(s: string): (r: string)
    ensures |r| <= |s|
    ensures r == [] <==> s == []
    decreases |s|
  {
    if s == [] then []
    else if IsSpace(s[0]) then [' '] + Collapse(TrimStart(s[1..]))
    else [s[0]] + Collapse(s[1..])
  }

  /** The collapsed string is single-spaced and starts (ends) with whitespace exactly when `s` does. */
  lemma CollapseShape(s: string)
    ensures var r := Collapse(s);
      && (r != [] ==> (IsSpace(r[0]) <==> IsSpace(s[0])))
      && (r != [] ==> (IsSpace(r[|r| - 1]) <==> IsSpace(s[|s| - 1])))
      && SingleSpaced(r)
  {
    if s != [] {
      CollapseFirst(s);
      CollapseLast(s);
    }
    CollapseSingle(s);
  }

  /** The first character of the collapse: a space for a leading whitespace run, else the first character. */
  lemma CollapseFirst(s: string)
    requires s != []
    ensures Collapse(s)[0] == (if IsSpace(s[0]) then ' ' else s[0])
  {
  }

  /** The collapse ends with whitespace exactly when `s` does. */
  lemma {:induction false} CollapseLast(s: string)
    requires s != []
    ensures var r := Collapse(s); IsSpace(r[|r| - 1]) <==> IsSpace(s[|s| - 1])
    decreases |s|
  {
    var r := Collapse(s);
    if IsSpace(s[0]) {
      var t := TrimStart(s[1..]);
      var c := Collapse(t);
      assert r == [' '] + c;
      if t == [] {
        if |s| > 1 {
          assert s[1..][|s| - 2] == s[|s| - 1];
        }
      } else {
        CollapseLast(t);
        assert t[|t| - 1] == s[|s| - 1];
        assert r[|r| - 1] == c[|c| - 1];
      }
    } else if |s| > 1 {
      var c := Collapse(s[1..]);
      assert r == [s[0]] + c;
      CollapseLast(s[1..]);
      assert s[1..][|s| - 2] == s[|s| - 1];
      assert r[|r| - 1] == c[|c| - 1];
    }
  }

  /** The collapse is single-spaced. */
  lemma {:induction false} CollapseSingle(s: string)
    ensures SingleSpaced(Collapse(s))
    decreases |s|
  {
    if s != [] {
      if IsSpace(s[0]) {
        var t := TrimStart(s[1..]);
        var c := Collapse(t);
        CollapseSingle(t);
        if t != [] {
          CollapseFirst(t);
        }
        assert ([' '] + c)[1..] == c;
      } else {
        var c := Collapse(s[1..]);
        CollapseSingle(s[1..]);
        assert ([s[0]] + c)[1..] == c;
      }
    }
  }

  lemma {:induction false} VisibleAppend(a: string, b: string)
    ensures Visible(a + b) == Visible(a) + Visible(b)
    decreases |a|
  {
    if a != [] {
      assert (a + b)[1..] == a[1..] + b;
      VisibleAppend(a[1..], b);
    } else {
      assert a + b == b;
    }
  }

  lemma {:induction false} VisibleAllSpace(s: string)
    requires AllSpace(s)
    ensures Visible(s) == []
    decreases |s|
  {
    if s != [] { VisibleAllSpace(s[1..]); }
  }

  /** Dropping a whitespace-only prefix keeps the visible characters. */
  lemma {:induction false} VisibleTrimStart(s: string)
    ensures Visible(TrimStart(s)) == Visible(s)
    decreases |s|
  {
    if s != [] && IsSpace(s[0]) {
      VisibleTrimStart(s[1..]);
    }
  }

  /** Collapsing whitespace keeps every visible character, in order. */
  lemma {:induction false} CollapseKeepsVisible(s: string)
    ensures Visible(Collapse(s)) == Visible(s)
    decreases |s|
  {
    if s == [] {
    } else if IsSpace(s[0]) {
      var t := TrimStart(s[1..]);
      CollapseKeepsVisible(t);
      VisibleTrimStart(s[1..]);
      VisibleAppend([' '], Collapse(t));
    } else {
      CollapseKeepsVisible(s[1..]);
      VisibleAppend([s[0]], Collapse(s[1..]));
    }
  }

  /** One step of `Collapse` over a lone space. */
  lemma CollapseLoneSpace(s: string)
    requires |s| > 0 && s[0] == ' ' && (|s| == 1 || !IsSpace(s[1]))
    ensures Collapse(s) == [' '] + Collapse(s[1..])
  {
    assert TrimStart(s[1..]) == s[1..];
  }

  /** A string that is already single-spaced is left unchanged by `Collapse`. */
  lemma {:induction false} CollapseSingleSpaced(s: string)
    requires SingleSpaced(s)
    ensures Collapse(s) == s
    decreases |s|
  {
    if s != [] {
      CollapseSingleSpaced(s[1..]);
      if IsSpace(s[0]) {
        CollapseLoneSpace(s);
      }
      assert s == [s[0]] + s[1..];
    }
  }

  /** Dropping a whitespace-only suffix keeps the visible characters. */
  lemma VisibleTrimEnd(s: string)
    ensures Visible(TrimEnd(s)) == Visible(s)
  {
    var t := TrimEnd(s);
    assert s == t + s[|t|..];
    VisibleAppend(t, s[|t|..]);
    VisibleAllSpace(s[|t|..]);
  }

  /** Trimming keeps the visible characters. */
  lemma VisibleTrim(s: string)
    ensures Visible(Trim(s)) == Visible(s)
  {
    VisibleTrimStart(s);
    VisibleTrimEnd(TrimStart(s));
    assert Trim(s) == TrimEnd(TrimStart(s));
  }

  /** Cutting a string keeps a prefix of its visible characters. */
  lemma VisibleTake(s: string, n: nat)
    ensures Visible(Take(s, n)) <= Visible(s)
  {
    var r := Take(s, n);
    assert s == r + s[|r|..];
    VisibleAppend(r, s[|r|..]);
  }

  /** Collapsing keeps a string free of whitespace at either end. */
  lemma CollapseTrimmed(s: string)
    requires Trimmed(s)
    ensures Trimmed(Collapse(s))
  {
    CollapseShape(s);
  }

  /** `Trim` leaves a string with whitespace at neither end unchanged. */
  lemma TrimTrimmed(s: string)
    requires Trimmed(s)
    ensures Trim(s) == s
  {
    assert TrimStart(s) == s;
  }

  /** The first `n` characters of `s` (`slice(0, n)`). */
  function Take(s: string, n: nat): (r: string)
    ensures |r| == (if |s| <= n then |s| else n) && r == s[..|r|]
  {
    if |s| <= n then s else s[..n]
  }

  /** A prefix of a single-spaced string is single-spaced. */
  lemma {:induction false} TakeSingleSpaced(s: string, n: nat)
    requires SingleSpaced(s)
    ensures SingleSpaced(Take(s, n))
    decreases n
  {
    if |s| > n && n > 0 {
      TakeSingleSpaced(s[1..], n - 1);
      assert Take(s, n)[1..] == Take(s[1..], n - 1);
    }
  }

  // An independent description of the whitespace normalisation: the words and the single spaces between them.

  /** The longest prefix of `s` without whitespace. */
  function Word(s: string): (w: string)
    ensures |w| <= |s| && w == s[..|w|] && NoSpace(w)
    ensures |w| < |s| ==> IsSpace(s[|w|])
    ensures s != [] && !IsSpace(s[0]) ==> w != []
  {
    if s == [] || IsSpace(s[0]) then [] else [s[0]] + Word(s[1..])
  }

  /** The maximal whitespace-free runs of `s`, in order. */
  function Words(s: string): seq<string>
    decreases |s|
  {
    if s == [] then []
    else if IsSpace(s[0]) then Words(s[1..])
    else var w := Word(s); [w] + Words(s[|w|..])
  }

  /** The words with one space between each two. */
  function JoinSpace(ws: seq<string>): string {
    if ws == [] then [] else if |ws| == 1 then ws[0] else ws[0] + [' '] + JoinSpace(ws[1..])
  }

  /** A whitespace-only string has no words. */
  lemma {:induction false} WordsAllSpace(s: string)
    requires AllSpace(s)
    ensures Words(s) == []
    decreases |s|
  {
    if s != [] {
      WordsAllSpace(s[1..]);
    }
  }

  /** Leading whitespace adds no word. */
  lemma {:induction false} WordsTrimStart(s: string)
    ensures Words(TrimStart(s)) == Words(s)
    decreases |s|
  {
    if s != [] && IsSpace(s[0]) {
      WordsTrimStart(s[1..]);
    }
  }

  /** Trailing whitespace does not lengthen the first word. */
  lemma {:induction false} WordAppendSpace(s: string, sp: string)
    requires AllSpace(sp)
    ensures Word(s + sp) == Word(s)
    decreases |s|
  {
    if s == [] {
      assert s + sp == sp;
    } else if !IsSpace(s[0]) {
      assert (s + sp)[1..] == s[1..] + sp;
      WordAppendSpace(s[1..], sp);
    }
  }

  /** Trailing whitespace adds no word. */
  lemma {:induction false} WordsAppendSpace(s: string, sp: string)
    requires AllSpace(sp)
    ensures Words(s + sp) == Words(s)
    decreases |s|
  {
    if s == [] {
      assert s + sp == sp;
      WordsAllSpace(sp);
    } else if IsSpace(s[0]) {
      assert (s + sp)[1..] == s[1..] + sp;
      WordsAppendSpace(s[1..], sp);
    } else {
      var w := Word(s);
      WordAppendSpace(s, sp);
      assert (s + sp)[|w|..] == s[|w|..] + sp;
      WordsAppendSpace(s[|w|..], sp);
    }
  }

  /** Trimming keeps the words. */
  lemma WordsTrim(s: string)
    ensures Words(Trim(s)) == Words(s)
  {
    var t := TrimStart(s);
    var r := TrimEnd(t);
    assert t == r + t[|r|..];
    WordsAppendSpace(r, t[|r|..]);
    WordsTrimStart(s);
  }

  /** The collapse copies a whitespace-free prefix. */
  lemma {:induction false} CollapseNoSpacePrefix(w: string, t: string)
    requires NoSpace(w)
    ensures Collapse(w + t) == w + Collapse(t)
    decreases |w|
  {
    if w == [] {
      assert w + t == t;
    } else {
      assert (w + t)[1..] == w[1..] + t;
      CollapseNoSpacePrefix(w[1..], t);
    }
  }

  /** What follows a whitespace run inside a trimmed string is non-empty and trimmed. */
  lemma InnerRun(s: string, rest: string)
    requires Trimmed(s) && rest != [] && IsSpace(rest[0])
    requires |rest| <= |s| && rest == s[|s| - |rest|..]
    ensures TrimStart(rest) != [] && Trimmed(TrimStart(rest))
  {
    var t := TrimStart(rest);
    assert rest[|rest| - 1] == s[|s| - 1];
    assert t[|t| - 1] == rest[|rest| - 1];
  }

  /** A leading whitespace run collapses to one space. */
  lemma CollapseRun(rest: string)
    requires rest != [] && IsSpace(rest[0])
    ensures Collapse(rest) == [' '] + Collapse(TrimStart(rest))
  {
    assert TrimStart(rest) == TrimStart(rest[1..]);
  }

  /** A non-empty string that starts with a visible character starts with its first word. */
  lemma WordsCons(s: string)
    requires s != [] && !IsSpace(s[0])
    ensures Words(s) == [Word(s)] + Words(s[|Word(s)|..]) && Words(s) != []
  {
  }

  /** Joining one more word in front adds it and a space. */
  lemma JoinSpaceCons(w: string, ws: seq<string>)
    requires ws != []
    ensures JoinSpace([w] + ws) == w + [' '] + JoinSpace(ws)
  {
    assert ([w] + ws)[1..] == ws;
  }

  /** Collapsing a trimmed string joins its words with single spaces. */
  lemma {:induction false} CollapseWords(s: string)
    requires Trimmed(s)
    ensures Collapse(s) == JoinSpace(Words(s))
    decreases |s|
  {
    if s != [] {
      var w := Word(s);
      var rest := s[|w|..];
      assert s == w + rest;
      CollapseNoSpacePrefix(w, rest);
      WordsCons(s);
      if rest != [] {
        InnerRun(s, rest);
        CollapseRun(rest);
        WordsTrimStart(rest);
        var t := TrimStart(rest);
        CollapseWords(t);
        WordsCons(t);
        var c, ws := Collapse(t), Words(t);
        JoinSpaceCons(w, ws);
        assert Collapse(s) == w + ([' '] + c);
        ConcatAssoc(w, [' '], c);
      }
    }
  }

  /** Concatenation is associative. */
  lemma ConcatAssoc(a: string, b: string, c: string)
    ensures a + (b + c) == a + b + c
  {
  }

  /** `s.trim().replace(/\s+/g, " ")` is the words of `s` joined with single spaces. */
  lemma TrimCollapseWords(s: string)
    ensures Collapse(Trim(s)) == JoinSpace(Words(s))
  {
    CollapseWords(Trim(s));
    WordsTrim(s);
  }

  /**
   * `raw.trim().replace(/\s+/g, " ")`, the normalisation of user text: the words of `raw`
   * joined with single spaces; so no whitespace at either end, and every visible character
   * kept in order.
   */
  function Normalize(raw: string): (m: string)
    ensures m == JoinSpace(Words(raw))
    ensures Trimmed(m) && SingleSpaced(m)
    ensures Visible(m) == Visible(raw)
    ensures |m| <= |raw|
  {
    var t := Trim(raw);
    VisibleTrim(raw);
    CollapseKeepsVisible(t);
    CollapseShape(t);
    CollapseTrimmed(t);
    TrimCollapseWords(raw);
    Collapse(t)
  }

  /** A text with no whitespace at either end and only single spaces inside is already normal. */
  lemma NormalizeClean(s: string)
    requires Trimmed(s) && SingleSpaced(s)
    ensures Normalize(s) == s
  {
    TrimTrimmed(s);
    CollapseSingleSpaced(s);
  }

  /** Normalising a normalised text changes nothing. */
  lemma NormalizeIdempotent(raw: string)
    ensures Normalize(Normalize(raw)) == Normalize(raw)
  {
    NormalizeClean(Normalize(raw));
  }
}
