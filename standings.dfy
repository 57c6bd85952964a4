/**
 * The leaderboard: best scores grouped by case-insensitive pseudo, the per-level maximum
 * summed over levels 1 to 4, rows ordered by total with ties in first-appearance order.
 */
module Standings {
  import opened Wrappers
  import opened Text
  import opened Records

  /** A value of the grouping map, with the lower-cased pseudo it is stored under. */
  datatype Group = Group(key: string, pseudo: string, bestByLevel: map<int, int>)

  /** One leaderboard row. */
  datatype Row = Row(pseudo: string, bestByLevel: map<int, int>, total: int)

  /** `bestByLevel[level] ?? 0`. */
  function Lookup(m: map<int, int>, level: int): int {
    if level in m then m[level] else 0
  }

  /** The sum over levels 1 to 4, a missing level counting as 0. */
  function Total(m: map<int, int>): int {
    Lookup(m, 1) + Lookup(m, 2) + Lookup(m, 3) + Lookup(m, 4)
  }

  // Reference definitions over the scores document.

  /** Some entry has this lower-cased pseudo. */
  predicate Appears(scores: seq<BestScore>, key: string) {
    exists j :: 0 <= j < |scores| && Lower(scores[j].pseudo) == key
  }

  /** Some entry has this lower-cased pseudo and this level. */
  predicate HasLevel(scores: seq<BestScore>, key: string, level: int) {
    exists j :: 0 <= j < |scores| && Lower(scores[j].pseudo) == key && scores[j].level == level
  }

  /** The index of the first entry with this lower-cased pseudo, or `|scores|` when there is none. */
  function FirstIndex(scores: seq<BestScore>, key: string): (r: nat)
    ensures r <= |scores|
    ensures r < |scores| <==> Appears(scores, key)
    ensures r < |scores| ==> Lower(scores[r].pseudo) == key
    ensures forall j :: 0 <= j < r && j < |scores| ==> Lower(scores[j].pseudo) != key
  {
    if scores == [] then 0
    else
      var n := |scores| - 1;
      var f := FirstIndex(scores[..n], key);
      assert forall j :: 0 <= j < n ==> scores[..n][j] == scores[j];
      if f < n then f
      else if Lower(scores[n].pseudo) == key then n
      else |scores|
  }

  /** The best score of the player `key` on `level`: 0, or the largest of its entries there. */
  function LevelBest(scores: seq<BestScore>, key: string, level: int): (r: int)
    ensures r >= 0
  {
    if scores == [] then 0
    else
      var n := |scores| - 1;
      var prev := LevelBest(scores[..n], key, level);
      if Lower(scores[n].pseudo) == key && scores[n].level == level then Max(prev, scores[n].bestScore)
      else prev
  }

  /** The leaderboard total of the player `key`. */
  function PlayerTotal(scores: seq<BestScore>, key: string): int {
    LevelBest(scores, key, 1) + LevelBest(scores, key, 2) + LevelBest(scores, key, 3) + LevelBest(scores, key, 4)
  }

  /** `LevelBest` is the maximum of 0 and the matching entries' best scores. */
  lemma {:induction false} LevelBestIsMaximum(scores: seq<BestScore>, key: string, level: int)
    ensures forall j :: 0 <= j < |scores| && Lower(scores[j].pseudo) == key && scores[j].level == level ==>
      scores[j].bestScore <= LevelBest(scores, key, level)
    ensures var best := LevelBest(scores, key, level);
      best == 0 || exists j :: 0 <= j < |scores| && Lower(scores[j].pseudo) == key && scores[j].level == level && scores[j].bestScore == best
    decreases |scores|
  {
    if scores != [] {
      var n := |scores| - 1;
      LevelBestIsMaximum(scores[..n], key, level);
      assert forall j :: 0 <= j < n ==> scores[..n][j] == scores[j];
    }
  }

  lemma {:induction false} LevelBestAbsent(scores: seq<BestScore>, key: string, level: int)
    requires !HasLevel(scores, key, level)
    ensures LevelBest(scores, key, level) == 0
    decreases |scores|
  {
    if scores != [] {
      var n := |scores| - 1;
      assert forall j :: 0 <= j < n ==> scores[..n][j] == scores[j];
      LevelBestAbsent(scores[..n], key, level);
    }
  }

  // The grouping loop of `getLeaderboard`.

  /** `map.has(key)` / `map.get(key)`, as the position of the group in insertion order. */
  function FindGroup(groups: seq<Group>, key: string): (r: Option<nat>)
    ensures r.Some? ==> r.value < |groups| && groups[r.value].key == key
    ensures r.None? <==> forall i :: 0 <= i < |groups| ==> groups[i].key != key
  {
    if groups == [] then None
    else if groups[0].key == key then Some(0)
    else match FindGroup(groups[1..], key)
      case None => None
      case Some(i) => Some(i + 1)
  }

  /** One iteration of the grouping loop over the entry `e`. */
  function AddEntry(groups: seq<Group>, e: BestScore): seq<Group> {
    var k := Lower(e.pseudo);
    match FindGroup(groups, k)
    case None => groups + [Group(k, e.pseudo, map[e.level := Max(0, e.bestScore)])]
    case Some(i) =>
      var g := groups[i];
      groups[i := g.(bestByLevel := g.bestByLevel[e.level := Max(Lookup(g.bestByLevel, e.level), e.bestScore)])]
  }

  /** The grouping map after the loop has visited every entry, in insertion order. */
  function Aggregate(scores: seq<BestScore>): seq<Group> {
    if scores == [] then []
    else AddEntry(Aggregate(scores[..|scores| - 1]), scores[|scores| - 1])
  }

  ghost predicate KeysDistinct(groups: seq<Group>) {
    forall i, j :: 0 <= i < j < |groups| ==> groups[i].key != groups[j].key
  }

  /** The groups are exactly the players of the scores document. */
  ghost predicate KeysCover(scores: seq<BestScore>, groups: seq<Group>) {
    && (forall i :: 0 <= i < |groups| ==> Appears(scores, groups[i].key))
    && (forall k :: Appears(scores, k) ==> FindGroup(groups, k).Some?)
  }

  /** Each group shows the casing of the first entry of its player. */
  ghost predicate FirstSeen(scores: seq<BestScore>, groups: seq<Group>) {
    forall i :: 0 <= i < |groups| ==>
      FirstIndex(scores, groups[i].key) < |scores| && groups[i].pseudo == scores[FirstIndex(scores, groups[i].key)].pseudo
  }

  /** Each group holds the per-level maximum, for exactly the levels its player has entries on. */
  ghost predicate Maxima(scores: seq<BestScore>, groups: seq<Group>) {
    forall i, level :: 0 <= i < |groups| ==>
      && Lookup(groups[i].bestByLevel, level) == LevelBest(scores, groups[i].key, level)
      && (level in groups[i].bestByLevel <==> HasLevel(scores, groups[i].key, level))
  }

  /** The groups are in the order their players first appear. */
  ghost predicate InFirstAppearanceOrder(scores: seq<BestScore>, groups: seq<Group>) {
    forall i, j :: 0 <= i < j < |groups| ==> FirstIndex(scores, groups[i].key) < FirstIndex(scores, groups[j].key)
  }

  ghost predicate GroupsMatch(scores: seq<BestScore>, groups: seq<Group>) {
    && KeysDistinct(groups)
    && KeysCover(scores, groups)
    && FirstSeen(scores, groups)
    && Maxima(scores, groups)
    && InFirstAppearanceOrder(scores, groups)
  }

  /** The grouping loop computes one group per player, with its first casing and per-level maxima, in first-appearance order. */
  lemma {:induction false} AggregateMatches(scores: seq<BestScore>)
    ensures GroupsMatch(scores, Aggregate(scores))
    decreases |scores|
  {
    if scores != [] {
      var n := |scores| - 1;
      var s, e := scores[..n], scores[n];
      AggregateMatches(s);
      assert scores == s + [e];
      AddEntryMatches(s, e, Aggregate(s));
    }
  }

  lemma AddEntryMatches(s: seq<BestScore>, e: BestScore, groups: seq<Group>)
    requires GroupsMatch(s, groups)
    ensures GroupsMatch(s + [e], AddEntry(groups, e))
  {
    AddEntryKeysDistinct(s, e, groups);
    AddEntryKeysCover(s, e, groups);
    AddEntryFirstSeen(s, e, groups);
    AddEntryMaxima(s, e, groups);
    AddEntryOrder(s, e, groups);
  }

  lemma SnocAppears(s: seq<BestScore>, e: BestScore)
    ensures forall key :: Appears(s + [e], key) <==> Appears(s, key) || key == Lower(e.pseudo)
  {
    var scores := s + [e];
    forall key ensures Appears(scores, key) <==> Appears(s, key) || key == Lower(e.pseudo) {
      if Appears(scores, key) {
        var j :| 0 <= j < |scores| && Lower(scores[j].pseudo) == key;
        if j < |s| { assert scores[j] == s[j]; }
      }
      if Appears(s, key) {
        var j :| 0 <= j < |s| && Lower(s[j].pseudo) == key;
        assert scores[j] == s[j];
      }
      if key == Lower(e.pseudo) {
        assert scores[|s|] == e;
      }
    }
  }

  lemma SnocHasLevel(s: seq<BestScore>, e: BestScore)
    ensures forall key, level :: HasLevel(s + [e], key, level) <==>
      HasLevel(s, key, level) || (key == Lower(e.pseudo) && level == e.level)
  {
    var scores := s + [e];
    forall key, level
      ensures HasLevel(scores, key, level) <==> HasLevel(s, key, level) || (key == Lower(e.pseudo) && level == e.level)
    {
      if HasLevel(scores, key, level) {
        var j :| 0 <= j < |scores| && Lower(scores[j].pseudo) == key && scores[j].level == level;
        if j < |s| { assert scores[j] == s[j]; }
      }
      if HasLevel(s, key, level) {
        var j :| 0 <= j < |s| && Lower(s[j].pseudo) == key && s[j].level == level;
        assert scores[j] == s[j];
      }
      if key == Lower(e.pseudo) && level == e.level {
        assert scores[|s|] == e;
      }
    }
  }

  lemma SnocFirstIndex(s: seq<BestScore>, e: BestScore)
    ensures forall key :: Appears(s, key) ==> FirstIndex(s + [e], key) == FirstIndex(s, key) < |s|
    ensures forall key :: FirstIndex(s, key) < |s| ==> (s + [e])[FirstIndex(s, key)] == s[FirstIndex(s, key)]
    ensures !Appears(s, Lower(e.pseudo)) ==> FirstIndex(s + [e], Lower(e.pseudo)) == |s|
  {
    assert (s + [e])[..|s|] == s;
  }

  lemma SnocLevelBest(s: seq<BestScore>, e: BestScore)
    ensures forall key, level ::
      LevelBest(s + [e], key, level) ==
        (if key == Lower(e.pseudo) && level == e.level then Max(LevelBest(s, key, level), e.bestScore)
         else LevelBest(s, key, level))
  {
    assert (s + [e])[..|s|] == s;
  }

  /** A pseudo with no group has no entry yet. */
  lemma NoGroupNotAppears(s: seq<BestScore>, groups: seq<Group>, key: string)
    requires KeysCover(s, groups) && FindGroup(groups, key).None?
    ensures !Appears(s, key)
    ensures forall level :: !HasLevel(s, key, level) && LevelBest(s, key, level) == 0
  {
    assert forall j :: 0 <= j < |s| ==> Lower(s[j].pseudo) != key;
    forall level ensures !HasLevel(s, key, level) && LevelBest(s, key, level) == 0 {
      LevelBestAbsent(s, key, level);
    }
  }

  lemma AddEntryKeysDistinct(s: seq<BestScore>, e: BestScore, groups: seq<Group>)
    requires KeysDistinct(groups)
    ensures KeysDistinct(AddEntry(groups, e))
  {
  }

  lemma AddEntryKeysCover(s: seq<BestScore>, e: BestScore, groups: seq<Group>)
    requires KeysCover(s, groups)
    ensures KeysCover(s + [e], AddEntry(groups, e))
  {
    SnocAppears(s, e);
    var r := AddEntry(groups, e);
    var k := Lower(e.pseudo);
    forall key | Appears(s + [e], key) ensures FindGroup(r, key).Some? {
      if FindGroup(groups, key).Some? {
        var i := FindGroup(groups, key).value;
        assert r[i].key == key;
      } else {
        assert key == k;
        assert r[|groups|].key == key;
      }
    }
  }

  lemma AddEntryFirstSeen(s: seq<BestScore>, e: BestScore, groups: seq<Group>)
    requires KeysCover(s, groups) && FirstSeen(s, groups)
    ensures FirstSeen(s + [e], AddEntry(groups, e))
  {
    SnocFirstIndex(s, e);
    var k := Lower(e.pseudo);
    if FindGroup(groups, k).None? {
      NoGroupNotAppears(s, groups, k);
    }
  }

  lemma AddEntryMaxima(s: seq<BestScore>, e: BestScore, groups: seq<Group>)
    requires KeysDistinct(groups) && KeysCover(s, groups) && Maxima(s, groups)
    ensures Maxima(s + [e], AddEntry(groups, e))
  {
    SnocHasLevel(s, e);
    SnocLevelBest(s, e);
    var k := Lower(e.pseudo);
    var r := AddEntry(groups, e);
    match FindGroup(groups, k)
    case None =>
      NoGroupNotAppears(s, groups, k);
      forall i, level | 0 <= i < |r|
        ensures Lookup(r[i].bestByLevel, level) == LevelBest(s + [e], r[i].key, level)
        ensures level in r[i].bestByLevel <==> HasLevel(s + [e], r[i].key, level)
      {
        if i < |groups| {
          assert r[i] == groups[i];
        }
      }
    case Some(i0) =>
      forall i, level | 0 <= i < |r|
        ensures Lookup(r[i].bestByLevel, level) == LevelBest(s + [e], r[i].key, level)
        ensures level in r[i].bestByLevel <==> HasLevel(s + [e], r[i].key, level)
      {
        var g := groups[i0];
        assert Lookup(g.bestByLevel, level) == LevelBest(s, k, level);
        assert level in g.bestByLevel <==> HasLevel(s, k, level);
        assert Lookup(g.bestByLevel, e.level) == LevelBest(s, k, e.level);
        if i != i0 {
          assert r[i] == groups[i];
        } else {
          assert r[i] == g.(bestByLevel := g.bestByLevel[e.level := Max(Lookup(g.bestByLevel, e.level), e.bestScore)]);
        }
      }
  }

  lemma AddEntryOrder(s: seq<BestScore>, e: BestScore, groups: seq<Group>)
    requires KeysCover(s, groups) && InFirstAppearanceOrder(s, groups)
    ensures InFirstAppearanceOrder(s + [e], AddEntry(groups, e))
  {
    var k := Lower(e.pseudo);
    var r := AddEntry(groups, e);
    OrderSnoc(s, e, groups);
    match FindGroup(groups, k)
    case None =>
      NoGroupNotAppears(s, groups, k);
      SnocFirstIndex(s, e);
      OrderAppend(s + [e], groups, Group(k, e.pseudo, map[e.level := Max(0, e.bestScore)]));
    case Some(_) =>
      OrderSameKeys(s + [e], groups, r);
  }

  /** One more entry does not move the first entry of any player already grouped. */
  lemma OrderSnoc(s: seq<BestScore>, e: BestScore, groups: seq<Group>)
    requires KeysCover(s, groups) && InFirstAppearanceOrder(s, groups)
    ensures InFirstAppearanceOrder(s + [e], groups)
    ensures forall i :: 0 <= i < |groups| ==> FirstIndex(s + [e], groups[i].key) < |s|
  {
    SnocFirstIndex(s, e);
    forall i | 0 <= i < |groups| ensures FirstIndex(s + [e], groups[i].key) == FirstIndex(s, groups[i].key) < |s| {
      assert Appears(s, groups[i].key);
    }
  }

  /** A group whose player appears after all the others can go last. */
  lemma OrderAppend(s: seq<BestScore>, groups: seq<Group>, g: Group)
    requires InFirstAppearanceOrder(s, groups)
    requires forall i :: 0 <= i < |groups| ==> FirstIndex(s, groups[i].key) < FirstIndex(s, g.key)
    ensures InFirstAppearanceOrder(s, groups + [g])
  {
    var r := groups + [g];
    forall i, j | 0 <= i < j < |r| ensures FirstIndex(s, r[i].key) < FirstIndex(s, r[j].key) {
      assert r[i] == groups[i];
      if j < |groups| {
        assert r[j] == groups[j];
      }
    }
  }

  /** The order depends on the keys only. */
  lemma OrderSameKeys(s: seq<BestScore>, groups: seq<Group>, r: seq<Group>)
    requires InFirstAppearanceOrder(s, groups)
    requires |r| == |groups| && forall i :: 0 <= i < |r| ==> r[i].key == groups[i].key
    ensures InFirstAppearanceOrder(s, r)
  {
    forall i, j | 0 <= i < j < |r| ensures FirstIndex(s, r[i].key) < FirstIndex(s, r[j].key) {
      assert r[i].key == groups[i].key && r[j].key == groups[j].key;
    }
  }

  // The stable sort `list.sort((a, b) => b.total - a.total)`.

  predicate Descending(rows: seq<Row>) {
    forall i, j :: 0 <= i < j < |rows| ==> rows[i].total >= rows[j].total
  }

  /** The rows with total `t`, in order. */
  function WithTotal(rows: seq<Row>, t: int): seq<Row> {
    if rows == [] then []
    else (if rows[0].total == t then [rows[0]] else []) + WithTotal(rows[1..], t)
  }

  /** Inserts `x` before the first row whose total is not larger than its own. */
  function InsertByTotal(x: Row, rows: seq<Row>): (r: seq<Row>)
    ensures |r| == |rows| + 1
  {
    if rows == [] || rows[0].total <= x.total then [x] + rows
    else [rows[0]] + InsertByTotal(x, rows[1..])
  }

  /** Insertion sort by total, descending; among equal totals the earlier row stays first. */
  function SortByTotal(rows: seq<Row>): (r: seq<Row>)
    ensures |r| == |rows|
  {
    if rows == [] then []
    else InsertByTotal(rows[0], SortByTotal(rows[1..]))
  }

  lemma {:induction false} InsertByTotalPermutes(x: Row, rows: seq<Row>)
    ensures multiset(InsertByTotal(x, rows)) == multiset(rows) + multiset{x}
  {
    if rows != [] && rows[0].total > x.total {
      InsertByTotalPermutes(x, rows[1..]);
      assert rows == [rows[0]] + rows[1..];
    }
  }

  /** The sort is a permutation. */
  lemma {:induction false} SortByTotalPermutes(rows: seq<Row>)
    ensures multiset(SortByTotal(rows)) == multiset(rows)
  {
    if rows != [] {
      SortByTotalPermutes(rows[1..]);
      InsertByTotalPermutes(rows[0], SortByTotal(rows[1..]));
      assert rows == [rows[0]] + rows[1..];
    }
  }

  lemma {:induction false} InsertByTotalDescending(x: Row, rows: seq<Row>)
    requires Descending(rows)
    ensures Descending(InsertByTotal(x, rows))
  {
    if rows != [] && rows[0].total > x.total {
      InsertByTotalDescending(x, rows[1..]);
      InsertByTotalPermutes(x, rows[1..]);
      var rest := InsertByTotal(x, rows[1..]);
      forall k | 0 <= k < |rest| ensures rows[0].total >= rest[k].total {
        assert rest[k] in multiset(rest);
        assert rest[k] == x || rest[k] in multiset(rows[1..]);
      }
    }
  }

  lemma {:induction false} InsertByTotalWithTotal(x: Row, rows: seq<Row>, t: int)
    ensures WithTotal(InsertByTotal(x, rows), t) == (if x.total == t then [x] else []) + WithTotal(rows, t)
  {
    if rows == [] || rows[0].total <= x.total {
      assert ([x] + rows)[1..] == rows;
    } else {
      var rest := InsertByTotal(x, rows[1..]);
      var l: seq<Row> := if x.total == t then [x] else [];
      var h: seq<Row> := if rows[0].total == t then [rows[0]] else [];
      var w := WithTotal(rows[1..], t);
      InsertByTotalWithTotal(x, rows[1..], t);
      assert ([rows[0]] + rest)[1..] == rest;
      assert WithTotal(InsertByTotal(x, rows), t) == h + (l + w);
      assert WithTotal(rows, t) == h + w;
      if x.total == t {
        assert h == [];
        assert h + (l + w) == l + w;
        assert h + w == w;
      } else {
        assert l == [];
        assert l + w == w;
        assert l + (h + w) == h + w;
      }
    }
  }

  /** The sort orders rows by total, descending. */
  lemma {:induction false} SortByTotalDescending(rows: seq<Row>)
    ensures Descending(SortByTotal(rows))
  {
    if rows != [] {
      SortByTotalDescending(rows[1..]);
      InsertByTotalDescending(rows[0], SortByTotal(rows[1..]));
    }
  }

  /** The sort is stable: the rows of each total keep their relative order. */
  lemma {:induction false} SortByTotalStable(rows: seq<Row>, t: int)
    ensures WithTotal(SortByTotal(rows), t) == WithTotal(rows, t)
  {
    if rows != [] {
      SortByTotalStable(rows[1..], t);
      InsertByTotalWithTotal(rows[0], SortByTotal(rows[1..]), t);
    }
  }

  /** In-place insertion sort of the leaderboard rows: the result is `SortByTotal` of the input. */
  method SortRows(a: array<Row>)
    modifies a
    ensures a[..] == SortByTotal(old(a[..]))
  {
    var i := a.Length;
    while i > 0
      invariant 0 <= i <= a.Length
      invariant a[..i] == old(a[..])[..i]
      invariant a[i..] == SortByTotal(old(a[..])[i..])
    {
      i := i - 1;
      assert old(a[..])[i..] == [old(a[..])[i]] + old(a[..])[i + 1..];
      InsertRow(a, i);
    }
    assert a[..] == a[0..];
  }

  /** Moves `a[i]` into the sorted suffix after it, shifting the larger totals one place left. */
  method InsertRow(a: array<Row>, i: nat)
    requires i < a.Length
    modifies a
    ensures a[..i] == old(a[..i])
    ensures a[i..] == InsertByTotal(old(a[i]), old(a[i + 1..]))
  {
    ghost var sorted := a[i + 1..];
    var x := a[i];
    var j := i;
    while j + 1 < a.Length && a[j + 1].total > x.total
      invariant i <= j < a.Length
      invariant a[..i] == old(a[..i])
      invariant a[i..j] == sorted[..j - i]
      invariant a[j + 1..] == sorted[j - i..]
      invariant forall k :: 0 <= k < j - i ==> sorted[k].total > x.total
    {
      a[j] := a[j + 1];
      j := j + 1;
    }
    ghost var shifted := a[..];
    a[j] := x;
    InsertByTotalSplit(x, sorted, j - i);
    PlaceRow(shifted, i, j, x, sorted);
  }

  /** Writing `x` into the gap the shift loop left completes the insertion. */
  lemma PlaceRow(shifted: seq<Row>, i: nat, j: nat, x: Row, sorted: seq<Row>)
    requires i <= j < |shifted| && |sorted| == |shifted| - i - 1
    requires shifted[i..j] == sorted[..j - i]
    requires shifted[j + 1..] == sorted[j - i..]
    ensures shifted[j := x][..i] == shifted[..i]
    ensures shifted[j := x][i..] == sorted[..j - i] + [x] + sorted[j - i..]
  {
    var r := shifted[j := x];
    assert r[i..] == r[i..j] + [r[j]] + r[j + 1..];
    assert r[i..j] == shifted[i..j];
    assert r[j + 1..] == shifted[j + 1..];
  }

  /** Where `InsertByTotal` puts `x`: after the prefix of larger totals. */
  lemma {:induction false} InsertByTotalSplit(x: Row, rows: seq<Row>, m: nat)
    requires m <= |rows|
    requires forall k :: 0 <= k < m ==> rows[k].total > x.total
    requires m == |rows| || rows[m].total <= x.total
    ensures InsertByTotal(x, rows) == rows[..m] + [x] + rows[m..]
    decreases m
  {
    if m == 0 {
      assert rows[..0] == [] && rows[0..] == rows;
    } else {
      var tail := rows[1..];
      forall k | 0 <= k < m - 1 ensures tail[k].total > x.total {
        assert tail[k] == rows[k + 1];
      }
      if m < |rows| {
        assert tail[m - 1] == rows[m];
      }
      InsertByTotalSplit(x, tail, m - 1);
      assert InsertByTotal(x, rows) == [rows[0]] + InsertByTotal(x, tail);
      assert rows[..m] == [rows[0]] + tail[..m - 1];
      assert rows[m..] == tail[m - 1..];
    }
  }

  // The leaderboard as a whole.

  function Rows(groups: seq<Group>): seq<Row> {
    seq(|groups|, i requires 0 <= i < |groups| => Row(groups[i].pseudo, groups[i].bestByLevel, Total(groups[i].bestByLevel)))
  }

  /** The value `getLeaderboard` returns for the scores document `scores`. */
  function Leaderboard(scores: seq<BestScore>): seq<Row> {
    SortByTotal(Rows(Aggregate(scores)))
  }

  /** `lb.find(r => r.pseudo.toLowerCase() === pseudo.toLowerCase())`, as the index of the first match. */
  function FindRow(lb: seq<Row>, pseudo: string): (r: Option<nat>)
    ensures r.Some? ==> r.value < |lb| && SameName(lb[r.value].pseudo, pseudo)
    ensures r.Some? ==> forall j :: 0 <= j < r.value ==> !SameName(lb[j].pseudo, pseudo)
    ensures r.None? <==> forall j :: 0 <= j < |lb| ==> !SameName(lb[j].pseudo, pseudo)
  {
    if lb == [] then None
    else if SameName(lb[0].pseudo, pseudo) then Some(0)
    else match FindRow(lb[1..], pseudo)
      case None => None
      case Some(i) => Some(i + 1)
  }

  /** `row?.total ?? 0` on the row `FindRow` picks. */
  function TotalOf(lb: seq<Row>, pseudo: string): int {
    match FindRow(lb, pseudo)
    case Some(i) => lb[i].total
    case None => 0
  }

  // Properties of the leaderboard.

  /** The row describes the player `Lower(row.pseudo)` of the scores document. */
  ghost predicate RowOf(scores: seq<BestScore>, row: Row) {
    var key := Lower(row.pseudo);
    && FirstIndex(scores, key) < |scores|
    && row.pseudo == scores[FirstIndex(scores, key)].pseudo
    && row.total == PlayerTotal(scores, key)
    && (forall level :: Lookup(row.bestByLevel, level) == LevelBest(scores, key, level))
    && (forall level :: level in row.bestByLevel <==> HasLevel(scores, key, level))
  }

  ghost predicate PseudosDistinct(rows: seq<Row>) {
    forall i, j :: 0 <= i < j < |rows| ==> Lower(rows[i].pseudo) != Lower(rows[j].pseudo)
  }

  /** Rows appear in the order their players first appear in the scores document. */
  ghost predicate ByFirstAppearance(scores: seq<BestScore>, rows: seq<Row>) {
    forall i, j :: 0 <= i < j < |rows| ==>
      FirstIndex(scores, Lower(rows[i].pseudo)) < FirstIndex(scores, Lower(rows[j].pseudo))
  }

  /** The rows before sorting: one per player, in first-appearance order, each describing its player. */
  lemma RowsOfAggregate(scores: seq<BestScore>)
    ensures var rows := Rows(Aggregate(scores));
      && (forall i :: 0 <= i < |rows| ==> RowOf(scores, rows[i]))
      && PseudosDistinct(rows)
      && ByFirstAppearance(scores, rows)
      && forall k :: Appears(scores, k) ==> exists i :: 0 <= i < |rows| && Lower(rows[i].pseudo) == k
  {
    var groups := Aggregate(scores);
    var rows := Rows(groups);
    AggregateMatches(scores);
    forall i | 0 <= i < |rows| ensures Lower(rows[i].pseudo) == groups[i].key && RowOf(scores, rows[i]) {
      var key := groups[i].key;
      assert Lower(scores[FirstIndex(scores, key)].pseudo) == key;
      assert Lookup(groups[i].bestByLevel, 1) == LevelBest(scores, key, 1);
      assert Lookup(groups[i].bestByLevel, 2) == LevelBest(scores, key, 2);
      assert Lookup(groups[i].bestByLevel, 3) == LevelBest(scores, key, 3);
      assert Lookup(groups[i].bestByLevel, 4) == LevelBest(scores, key, 4);
    }
    forall k | Appears(scores, k) ensures exists i :: 0 <= i < |rows| && Lower(rows[i].pseudo) == k {
      var i := FindGroup(groups, k).value;
      assert Lower(rows[i].pseudo) == k;
    }
  }

  lemma {:induction false} InsertByTotalDistinct(x: Row, rows: seq<Row>)
    requires PseudosDistinct(rows)
    requires forall i :: 0 <= i < |rows| ==> Lower(rows[i].pseudo) != Lower(x.pseudo)
    ensures PseudosDistinct(InsertByTotal(x, rows))
  {
    if rows != [] && rows[0].total > x.total {
      InsertByTotalDistinct(x, rows[1..]);
      InsertByTotalPermutes(x, rows[1..]);
      var rest := InsertByTotal(x, rows[1..]);
      forall k | 0 <= k < |rest| ensures Lower(rows[0].pseudo) != Lower(rest[k].pseudo) {
        assert rest[k] in multiset(rest);
        if rest[k] != x {
          assert rest[k] in multiset(rows[1..]);
          var j :| 0 <= j < |rows[1..]| && rows[1..][j] == rest[k];
          assert rows[1..][j] == rows[j + 1];
        }
      }
    }
  }

  /** Sorting keeps one row per player. */
  lemma {:induction false} SortByTotalDistinct(rows: seq<Row>)
    requires PseudosDistinct(rows)
    ensures PseudosDistinct(SortByTotal(rows))
  {
    if rows != [] {
      var tail := SortByTotal(rows[1..]);
      SortByTotalDistinct(rows[1..]);
      SortByTotalPermutes(rows[1..]);
      forall i | 0 <= i < |tail| ensures Lower(tail[i].pseudo) != Lower(rows[0].pseudo) {
        assert tail[i] in multiset(rows[1..]);
        var j :| 0 <= j < |rows[1..]| && rows[1..][j] == tail[i];
        assert rows[1..][j] == rows[j + 1];
      }
      InsertByTotalDistinct(rows[0], tail);
    }
  }

  lemma {:induction false} WithTotalSubset(rows: seq<Row>, t: int)
    ensures forall x :: x in WithTotal(rows, t) ==> x in rows && x.total == t
  {
    if rows != [] {
      WithTotalSubset(rows[1..], t);
    }
  }

  /** Keeping only the rows of one total keeps them in first-appearance order. */
  lemma {:induction false} WithTotalByFirstAppearance(scores: seq<BestScore>, rows: seq<Row>, t: int)
    requires ByFirstAppearance(scores, rows)
    ensures ByFirstAppearance(scores, WithTotal(rows, t))
  {
    if rows != [] {
      var tail := rows[1..];
      ByFirstAppearanceTail(scores, rows);
      WithTotalByFirstAppearance(scores, tail, t);
      WithTotalSubset(tail, t);
      HeadFirst(scores, rows, WithTotal(tail, t));
      if rows[0].total == t {
        ByFirstAppearanceCons(scores, rows[0], WithTotal(tail, t));
      }
    }
  }

  lemma ByFirstAppearanceTail(scores: seq<BestScore>, rows: seq<Row>)
    requires rows != [] && ByFirstAppearance(scores, rows)
    ensures ByFirstAppearance(scores, rows[1..])
  {
    var tail := rows[1..];
    forall i, j | 0 <= i < j < |tail|
      ensures FirstIndex(scores, Lower(tail[i].pseudo)) < FirstIndex(scores, Lower(tail[j].pseudo))
    {
      assert tail[i] == rows[i + 1] && tail[j] == rows[j + 1];
    }
  }

  /** The first row comes before every row taken from the rest. */
  lemma HeadFirst(scores: seq<BestScore>, rows: seq<Row>, w: seq<Row>)
    requires rows != [] && ByFirstAppearance(scores, rows)
    requires forall x :: x in w ==> x in rows[1..]
    ensures forall k :: 0 <= k < |w| ==> FirstIndex(scores, Lower(rows[0].pseudo)) < FirstIndex(scores, Lower(w[k].pseudo))
  {
    forall k | 0 <= k < |w| ensures FirstIndex(scores, Lower(rows[0].pseudo)) < FirstIndex(scores, Lower(w[k].pseudo)) {
      assert w[k] in rows[1..];
      var j :| 0 <= j < |rows[1..]| && rows[1..][j] == w[k];
      assert rows[1..][j] == rows[j + 1];
    }
  }

  lemma ByFirstAppearanceCons(scores: seq<BestScore>, x: Row, w: seq<Row>)
    requires ByFirstAppearance(scores, w)
    requires forall k :: 0 <= k < |w| ==> FirstIndex(scores, Lower(x.pseudo)) < FirstIndex(scores, Lower(w[k].pseudo))
    ensures ByFirstAppearance(scores, [x] + w)
  {
    var r := [x] + w;
    forall i, j | 0 <= i < j < |r|
      ensures FirstIndex(scores, Lower(r[i].pseudo)) < FirstIndex(scores, Lower(r[j].pseudo))
    {
      assert r[j] == w[j - 1];
      if i > 0 {
        assert r[i] == w[i - 1];
      }
    }
  }

  /** Every row of the leaderboard describes one player of the scores document, shown with the casing of its first entry. */
  lemma LeaderboardRows(scores: seq<BestScore>)
    ensures var lb := Leaderboard(scores);
      forall i :: 0 <= i < |lb| ==> RowOf(scores, lb[i])
  {
    var rows := Rows(Aggregate(scores));
    var lb := Leaderboard(scores);
    RowsOfAggregate(scores);
    SortByTotalPermutes(rows);
    forall i | 0 <= i < |lb| ensures RowOf(scores, lb[i]) {
      assert lb[i] in multiset(rows);
      var j :| 0 <= j < |rows| && rows[j] == lb[i];
    }
  }

  /** A player has a row exactly when it has an entry in the scores document. */
  lemma LeaderboardPlayers(scores: seq<BestScore>, k: string)
    ensures var lb := Leaderboard(scores);
      Appears(scores, k) <==> exists i :: 0 <= i < |lb| && Lower(lb[i].pseudo) == k
  {
    var lb := Leaderboard(scores);
    if Appears(scores, k) {
      PlayerHasRow(scores, k);
    }
    if exists i :: 0 <= i < |lb| && Lower(lb[i].pseudo) == k {
      var i :| 0 <= i < |lb| && Lower(lb[i].pseudo) == k;
      LeaderboardRows(scores);
      RowOfAppears(scores, lb[i]);
    }
  }

  /** Every player of the scores document has a leaderboard row. */
  lemma PlayerHasRow(scores: seq<BestScore>, k: string)
    requires Appears(scores, k)
    ensures var lb := Leaderboard(scores); exists i :: 0 <= i < |lb| && Lower(lb[i].pseudo) == k
  {
    var rows := Rows(Aggregate(scores));
    var lb := Leaderboard(scores);
    var j := RowsCover(scores, k);
    SortByTotalPermutes(rows);
    assert rows[j] in multiset(lb);
    var i :| 0 <= i < |lb| && lb[i] == rows[j];
  }

  /** Before sorting, every player of the scores document has a row. */
  lemma RowsCover(scores: seq<BestScore>, k: string) returns (i: nat)
    requires Appears(scores, k)
    ensures var rows := Rows(Aggregate(scores)); i < |rows| && Lower(rows[i].pseudo) == k
  {
    var groups := Aggregate(scores);
    AggregateMatches(scores);
    i := FindGroup(groups, k).value;
    assert Lower(scores[FirstIndex(scores, k)].pseudo) == k;
  }

  /** A row that describes a player names one that appears in the scores document. */
  lemma RowOfAppears(scores: seq<BestScore>, row: Row)
    requires RowOf(scores, row)
    ensures Appears(scores, Lower(row.pseudo))
  {
  }

  /** One row per player: no two rows have the same pseudo up to case. */
  lemma LeaderboardDistinct(scores: seq<BestScore>)
    ensures PseudosDistinct(Leaderboard(scores))
  {
    RowsOfAggregate(scores);
    SortByTotalDistinct(Rows(Aggregate(scores)));
  }

  /** Rows are ordered by total, descending, and rows of equal total keep the order in which their players first appear. */
  lemma LeaderboardOrder(scores: seq<BestScore>)
    ensures var lb := Leaderboard(scores);
      && Descending(lb)
      && forall t :: ByFirstAppearance(scores, WithTotal(lb, t))
  {
    var rows := Rows(Aggregate(scores));
    RowsOfAggregate(scores);
    SortByTotalDescending(rows);
    forall t ensures ByFirstAppearance(scores, WithTotal(Leaderboard(scores), t)) {
      SortByTotalStable(rows, t);
      WithTotalByFirstAppearance(scores, rows, t);
    }
  }

  /** `getMyTotal`: the leaderboard total of the player, 0 when it has no entry. */
  lemma MyTotalIsPlayerTotal(scores: seq<BestScore>, pseudo: string)
    ensures TotalOf(Leaderboard(scores), pseudo) == PlayerTotal(scores, Lower(pseudo))
  {
    var lb := Leaderboard(scores);
    var key := Lower(pseudo);
    match FindRow(lb, pseudo)
    case Some(i) =>
      LeaderboardRows(scores);
      assert RowOf(scores, lb[i]);
    case None =>
      LeaderboardPlayers(scores, key);
      assert forall j :: 0 <= j < |lb| ==> Lower(lb[j].pseudo) != key;
      assert forall j :: 0 <= j < |scores| ==> Lower(scores[j].pseudo) != key;
      LevelBestAbsent(scores, key, 1);
      LevelBestAbsent(scores, key, 2);
      LevelBestAbsent(scores, key, 3);
      LevelBestAbsent(scores, key, 4);
  }
}
