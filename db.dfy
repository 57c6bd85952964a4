/**
 * The player-progress and best-score store. The two JSON documents it reads and writes
 * back whole are the two sequence fields of `Store`; each operation loads them, changes
 * them and stores them again, which here is one update of the fields.
 */
module Db {
  import opened Wrappers
  import opened Text
  import opened Sorting
  import opened Records
  import opened Users
  import opened Scores
  import opened Standings

  class Store {
    /** The users document. */
    var users: seq<User>
    /** The scores document. */
    var scores: seq<BestScore>

    /** Pseudos unique up to case with well-formed progress; one score entry per key. */
    ghost predicate Valid()
      reads this
    {
      UsersValid(users) && KeysUnique(scores)
    }

    /** Both documents start as `[]`. */
    constructor ()
      ensures users == [] && scores == []
      ensures Valid()
    {
      users := [];
      scores := [];
    }

    /**
     * `getOrCreateUser`: the first record matching `pseudo` case-insensitively, unchanged;
     * without a match, a new record (level 1 unlocked, nothing completed) appended at the end.
     */
    method GetOrCreateUser(pseudo: string, now: Timestamp) returns (u: User)
      modifies this
      ensures scores == old(scores)
      ensures match FindUser(old(users), pseudo)
        case Some(i) => users == old(users) && u == old(users)[i]
        case None => users == old(users) + [u] && u == NewUser(pseudo, now)
      ensures FindUser(users, pseudo).Some? && users[FindUser(users, pseudo).value] == u
      ensures old(Valid()) ==> Valid() && WellFormed(u)
    {
      var found := FindUser(users, pseudo);
      if found.Some? {
        u := users[found.value];
      } else {
        u := NewUser(pseudo, now);
        users := users + [u];
      }
      assert users == WithUser(old(users), pseudo, u);
      if old(Valid()) {
        WithUserValid(old(users), pseudo, u);
      } else {
        FindUserAt(users, pseudo, if found.Some? then found.value else |old(users)|);
      }
    }

    /** `getProgress`: the same as `getOrCreateUser`. */
    method GetProgress(pseudo: string, now: Timestamp) returns (u: User)
      modifies this
      ensures scores == old(scores)
      ensures u == Current(old(users), pseudo, now)
      ensures users == WithUser(old(users), pseudo, u)
      ensures old(Valid()) ==> Valid() && WellFormed(u)
    {
      u := GetOrCreateUser(pseudo, now);
    }

    /**
     * `updateProgress`: the record of `pseudo` (created first when missing) gets `level`
     * added to its sorted completed levels and its unlocked level raised to the next
     * level, capped at the last; no other record changes.
     */
    method UpdateProgress(pseudo: string, level: int, now: Timestamp) returns (u: User)
      modifies this
      ensures scores == old(scores)
      ensures u == Complete(Current(old(users), pseudo, now), level, now)
      ensures users == WithUser(old(users), pseudo, u)
      ensures u.unlockedLevel == NextUnlock(Current(old(users), pseudo, now).unlockedLevel, level)
      ensures old(Valid()) ==> Valid() && WellFormed(u)
    {
      var found := FindUser(users, pseudo);
      var i: nat;
      if found.None? {
        users := users + [NewUser(pseudo, now)];
        i := |users| - 1;
      } else {
        i := found.value;
      }
      u := users[i];
      var completed := u.completed;
      if level !in completed {
        completed := completed + [level];
      }
      completed := SortAscending(completed);
      u := u.(completed := completed, unlockedLevel := NextUnlock(u.unlockedLevel, level), updatedAt := now);
      users := users[i := u];
      assert users == WithUser(old(users), pseudo, u);
      if old(Valid()) {
        CompleteWellFormed(Current(old(users), pseudo, now), level, now);
        WithUserValid(old(users), pseudo, u);
      }
    }

    /**
     * `upsertBestScore`: a new entry when the (case-insensitive pseudo, level) key is
     * missing, otherwise the entry's score and time replaced only by a strictly better attempt.
     */
    method UpsertBestScore(a: Attempt, now: Timestamp)
      modifies this
      ensures users == old(users)
      ensures scores == Upsert(old(scores), a, now)
      ensures old(Valid()) ==> Valid()
    {
      var idx := FindScore(scores, a.pseudo, a.level);
      if idx.None? {
        scores := scores + [BestScore(a.pseudo, a.level, a.score, a.timeMs, now)];
      } else {
        var cur := scores[idx.value];
        var better := a.score > cur.bestScore || (a.score == cur.bestScore && a.timeMs < cur.bestTimeMs);
        if better {
          scores := scores[idx.value := cur.(bestScore := a.score, bestTimeMs := a.timeMs, updatedAt := now)];
        }
      }
      if old(Valid()) {
        UpsertKeysUnique(old(scores), a, now);
      }
    }

    /**
     * `getLeaderboard`: groups the entries by lower-cased pseudo in a loop, sums the per-level
     * maxima of levels 1 to 4, and sorts the rows in place by total, descending and stably.
     */
    method GetLeaderboard() returns (lb: seq<Row>)
      ensures lb == Leaderboard(scores)
      ensures Descending(lb) && PseudosDistinct(lb)
      ensures forall i :: 0 <= i < |lb| ==> RowOf(scores, lb[i])
    {
      var groups: seq<Group> := [];
      for i := 0 to |scores|
        invariant groups == Aggregate(scores[..i])
      {
        assert scores[..i + 1][..i] == scores[..i];
        groups := AddEntry(groups, scores[i]);
      }
      assert scores[..|scores|] == scores;
      var rows := Rows(groups);
      var a := new Row[|rows|](i requires 0 <= i < |rows| => rows[i]);
      assert a[..] == rows;
      SortRows(a);
      lb := a[..];
      LeaderboardOrder(scores);
      LeaderboardDistinct(scores);
      LeaderboardRows(scores);
    }

    /** `getMyTotal`: the total of the player's leaderboard row, 0 when it has none. */
    method GetMyTotal(pseudo: string) returns (t: int)
      ensures t == TotalOf(Leaderboard(scores), pseudo)
      ensures t == PlayerTotal(scores, Lower(pseudo))
    {
      var lb := GetLeaderboard();
      t := match FindRow(lb, pseudo)
        case Some(i) => lb[i].total
        case None => 0;
      MyTotalIsPlayerTotal(scores, pseudo);
    }
  }
}
