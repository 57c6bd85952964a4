/**
 * Player progress: the lookup of a player by case-insensitive pseudo, the default
 * record of a new player, and the change `updateProgress` makes to one record.
 */
module Users {
  import opened Wrappers
  import opened Text
  import opened Sorting
  import opened Records

  /** `users.find(x => x.pseudo.toLowerCase() === pseudo.toLowerCase())`, as the index of the first match. */
  function FindUser(users: seq<User>, pseudo: string): (r: Option<nat>)
    ensures r.Some? ==> r.value < |users| && SameName(users[r.value].pseudo, pseudo)
    ensures r.Some? ==> forall j :: 0 <= j < r.value ==> !SameName(users[j].pseudo, pseudo)
    ensures r.None? <==> forall j :: 0 <= j < |users| ==> !SameName(users[j].pseudo, pseudo)
  {
    if users == [] then None
    else if SameName(users[0].pseudo, pseudo) then Some(0)
    else match FindUser(users[1..], pseudo)
      case None => None
      case Some(i) => Some(i + 1)
  }

  /**
   * The invariant of one player record: the unlocked level is a level, the completed
   * levels are ascending without duplicates, and every completed level has unlocked the
   * level after it (or the last level).
   */
  ghost predicate WellFormed(u: User) {
    && 1 <= u.unlockedLevel <= MaxLevel
    && StrictlyAscending(u.completed)
    && forall k :: 0 <= k < |u.completed| ==> u.unlockedLevel >= Min(MaxLevel, u.completed[k] + 1)
  }

  /** The invariant of the users document: well-formed records, pseudos unique up to case. */
  ghost predicate UsersValid(users: seq<User>) {
    && (forall i :: 0 <= i < |users| ==> WellFormed(users[i]))
    && (forall i, j :: 0 <= i < j < |users| ==> !SameName(users[i].pseudo, users[j].pseudo))
  }

  /** The record created for a pseudo seen for the first time: level 1 unlocked, nothing completed. */
  function NewUser(pseudo: string, now: Timestamp): (u: User)
    ensures WellFormed(u)
    ensures u.unlockedLevel == 1 && u.completed == [] && u.pseudo == pseudo
  {
    User(pseudo, 1, [], now, now)
  }

  /** The levels after `level` is added once and the list is sorted numerically. */
  function AddCompleted(completed: seq<int>, level: int): (r: seq<int>)
    ensures level in r && Ascending(r)
    ensures multiset(r) == multiset(completed) + (if level in completed then multiset{} else multiset{level})
  {
    var c := if level in completed then completed else completed + [level];
    assert level in multiset(c);
    SortAscending(c)
  }

  /** Adding a level to a duplicate-free list leaves it strictly ascending. */
  lemma AddCompletedStrictlyAscending(completed: seq<int>, level: int)
    requires NoDuplicates(completed)
    ensures StrictlyAscending(AddCompleted(completed, level))
  {
    var c := if level in completed then completed else completed + [level];
    assert NoDuplicates(c);
    SortStrictlyAscending(c);
  }

  /** The level unlocked after completing `level`: the next level, capped at the last, never going back. */
  function NextUnlock(unlocked: int, level: int): (r: int)
    ensures r <= MaxLevel && r <= Max(unlocked, level + 1)
    ensures r >= Min(MaxLevel, unlocked) && r >= Min(MaxLevel, level + 1)
    ensures r == MaxLevel || r == unlocked || r == level + 1
  {
    Min(MaxLevel, Max(unlocked, level + 1))
  }

  /**
   * The in-place change `updateProgress` makes to the matched record: record the level as
   * completed, recompute the unlocked level, stamp the update time.
   */
  function Complete(u: User, level: int, now: Timestamp): (r: User)
    ensures r.pseudo == u.pseudo && r.createdAt == u.createdAt && r.updatedAt == now
    ensures level in r.completed && Ascending(r.completed)
    ensures forall x :: x in r.completed <==> x in u.completed || x == level
    ensures r.unlockedLevel <= MaxLevel && r.unlockedLevel <= Max(u.unlockedLevel, level + 1)
    ensures r.unlockedLevel >= Min(MaxLevel, u.unlockedLevel) && r.unlockedLevel >= Min(MaxLevel, level + 1)
    ensures u.unlockedLevel <= MaxLevel ==> u.unlockedLevel <= r.unlockedLevel
    ensures IsLevel(level) ==> r.unlockedLevel >= 2
  {
    var c := AddCompleted(u.completed, level);
    assert forall x :: x in c <==> x in multiset(c);
    u.(completed := c, unlockedLevel := NextUnlock(u.unlockedLevel, level), updatedAt := now)
  }

  /** Completing a level keeps a record well-formed. */
  lemma CompleteWellFormed(u: User, level: int, now: Timestamp)
    requires WellFormed(u)
    ensures WellFormed(Complete(u, level, now))
  {
    var r := Complete(u, level, now);
    AddCompletedStrictlyAscending(u.completed, level);
    forall k | 0 <= k < |r.completed|
      ensures r.unlockedLevel >= Min(MaxLevel, r.completed[k] + 1)
    {
      var x := r.completed[k];
      assert x in u.completed || x == level;
      if x in u.completed {
        var j :| 0 <= j < |u.completed| && u.completed[j] == x;
      }
    }
  }

  /** Completing the same level twice is the same as completing it once (up to the update time). */
  lemma CompleteIdempotent(u: User, level: int, t1: Timestamp, t2: Timestamp)
    ensures Complete(Complete(u, level, t1), level, t2) == Complete(u, level, t2)
  {
    var once := Complete(u, level, t1);
    SortAscendingSorted(once.completed);
  }

  /** Replacing a record by an updated record of the same pseudo keeps the document valid. */
  lemma ReplaceUserValid(users: seq<User>, i: nat, u: User)
    requires UsersValid(users) && i < |users|
    requires WellFormed(u) && Lower(u.pseudo) == Lower(users[i].pseudo)
    ensures UsersValid(users[i := u])
  {
  }

  /** Appending a record whose pseudo has no match keeps the document valid. */
  lemma AppendUserValid(users: seq<User>, u: User)
    requires UsersValid(users) && WellFormed(u)
    requires FindUser(users, u.pseudo).None?
    ensures UsersValid(users + [u])
  {
    var r := users + [u];
    forall i, j | 0 <= i < j < |r| ensures !SameName(r[i].pseudo, r[j].pseudo) {
      if j == |users| {
        assert !SameName(users[i].pseudo, u.pseudo);
      }
    }
  }

  /** The record the store works on for `pseudo`: the first case-insensitive match, or a new record. */
  function Current(users: seq<User>, pseudo: string, now: Timestamp): (u: User)
    ensures SameName(u.pseudo, pseudo)
    ensures FindUser(users, pseudo).Some? ==> u == users[FindUser(users, pseudo).value]
    ensures FindUser(users, pseudo).None? ==> u == NewUser(pseudo, now)
    ensures UsersValid(users) ==> WellFormed(u)
  {
    match FindUser(users, pseudo)
    case Some(i) => users[i]
    case None => NewUser(pseudo, now)
  }

  /** The users document with the record for `pseudo` set to `u`: replaced in place, or appended when there is no match. */
  function WithUser(users: seq<User>, pseudo: string, u: User): (r: seq<User>)
    ensures |r| == |users| + (if FindUser(users, pseudo).None? then 1 else 0)
    ensures forall j :: 0 <= j < |users| && !SameName(users[j].pseudo, pseudo) ==> r[j] == users[j]
    ensures FindUser(users, pseudo).None? ==> r[..|users|] == users && r[|users|] == u
    ensures FindUser(users, pseudo).Some? ==>
      var i := FindUser(users, pseudo).value;
      r[i] == u && forall j :: 0 <= j < |users| && j != i ==> r[j] == users[j]
  {
    match FindUser(users, pseudo)
    case Some(i) => users[i := u]
    case None => users + [u]
  }

  /**
   * Storing a well-formed record under its own pseudo keeps the document valid, and a
   * later lookup of that pseudo finds exactly that record.
   */
  lemma WithUserValid(users: seq<User>, pseudo: string, u: User)
    requires UsersValid(users) && WellFormed(u) && SameName(u.pseudo, pseudo)
    ensures UsersValid(WithUser(users, pseudo, u))
    ensures var r := WithUser(users, pseudo, u);
      FindUser(r, pseudo).Some? && r[FindUser(r, pseudo).value] == u
  {
    var r := WithUser(users, pseudo, u);
    match FindUser(users, pseudo)
    case Some(i) =>
      ReplaceUserValid(users, i, u);
      FindUserAt(r, pseudo, i);
    case None =>
      AppendUserValid(users, u);
      FindUserAt(r, pseudo, |users|);
  }

  /** The lookup returns the first matching index. */
  lemma FindUserAt(users: seq<User>, pseudo: string, i: nat)
    requires i < |users| && SameName(users[i].pseudo, pseudo)
    requires forall j :: 0 <= j < i ==> !SameName(users[j].pseudo, pseudo)
    ensures FindUser(users, pseudo) == Some(i)
  {
  }
}
