/** The numeric ascending sort `a.sort((a, b) => a - b)` applied to a player's completed levels. */
module Sorting {

  predicate Ascending(s: seq<int>) {
    forall i, j :: 0 <= i < j < |s| ==> s[i] <= s[j]
  }

  predicate StrictlyAscending(s: seq<int>) {
    forall i, j :: 0 <= i < j < |s| ==> s[i] < s[j]
  }

  predicate NoDuplicates(s: seq<int>) {
    forall i, j :: 0 <= i < j < |s| ==> s[i] != s[j]
  }

  /** Inserts `x` before the first element not smaller than it. */
  function InsertAscending(x: int, s: seq<int>): (r: seq<int>)
    ensures multiset(r) == multiset(s) + multiset{x}
  {
    if s == [] || x <= s[0] then [x] + s
    else
      assert s == [s[0]] + s[1..];
      [s[0]] + InsertAscending(x, s[1..])
  }

  lemma {:induction false} InsertAscendingSorted(x: int, s: seq<int>)
    requires Ascending(s)
    ensures Ascending(InsertAscending(x, s))
  {
    if s != [] && x > s[0] {
      InsertAscendingSorted(x, s[1..]);
      var rest := InsertAscending(x, s[1..]);
      forall k | 0 <= k < |rest| ensures s[0] <= rest[k] {
        assert rest[k] in multiset(rest);
        assert rest[k] == x || rest[k] in multiset(s[1..]);
      }
    }
  }

  /** Insertion sort: an ascending permutation of `s`. */
  function SortAscending(s: seq<int>): (r: seq<int>)
    ensures multiset(r) == multiset(s)
    ensures Ascending(r)
  {
    if s == [] then []
    else
      assert s == [s[0]] + s[1..];
      InsertAscendingSorted(s[0], SortAscending(s[1..]));
      InsertAscending(s[0], SortAscending(s[1..]))
  }

  /** Sorting an already ascending sequence leaves it unchanged. */
  lemma {:induction false} SortAscendingSorted(s: seq<int>)
    requires Ascending(s)
    ensures SortAscending(s) == s
  {
    if s != [] {
      SortAscendingSorted(s[1..]);
      assert s == [s[0]] + s[1..];
    }
  }

  lemma {:induction false} InsertStrictlyAscending(x: int, s: seq<int>)
    requires StrictlyAscending(s) && x !in s
    ensures StrictlyAscending(InsertAscending(x, s))
  {
    if s != [] && x > s[0] {
      InsertStrictlyAscending(x, s[1..]);
      var rest := InsertAscending(x, s[1..]);
      forall k | 0 <= k < |rest| ensures s[0] < rest[k] {
        assert rest[k] in multiset(rest);
        assert rest[k] == x || rest[k] in multiset(s[1..]);
      }
    }
  }

  /** A duplicate-free sequence sorts into a strictly ascending one. */
  lemma {:induction false} SortStrictlyAscending(s: seq<int>)
    requires NoDuplicates(s)
    ensures StrictlyAscending(SortAscending(s))
  {
    if s != [] {
      SortStrictlyAscending(s[1..]);
      assert s[0] !in multiset(s[1..]);
      assert s[0] !in multiset(SortAscending(s[1..]));
      InsertStrictlyAscending(s[0], SortAscending(s[1..]));
    }
  }
}
