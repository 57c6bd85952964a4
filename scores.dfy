/**
 * Best scores: one entry per (case-insensitive pseudo, level), replaced only by a
 * strictly better attempt.
 */
module Scores {
  import opened Wrappers
  import opened Text
  import opened Records

  /** The entry belongs to the key (pseudo, level), the pseudo compared case-insensitively. */
  predicate HasKey(e: BestScore, pseudo: string, level: int) {
    SameName(e.pseudo, pseudo) && e.level == level
  }

  /** `scores.findIndex(...)` for the key of an attempt, or None for -1. */
  function FindScore(scores: seq<BestScore>, pseudo: string, level: int): (r: Option<nat>)
    ensures r.Some? ==> r.value < |scores| && HasKey(scores[r.value], pseudo, level)
    ensures r.Some? ==> forall j :: 0 <= j < r.value ==> !HasKey(scores[j], pseudo, level)
    ensures r.None? <==> forall j :: 0 <= j < |scores| ==> !HasKey(scores[j], pseudo, level)
  {
    if scores == [] then None
    else if HasKey(scores[0], pseudo, level) then Some(0)
    else match FindScore(scores[1..], pseudo, level)
      case None => None
      case Some(i) => Some(i + 1)
  }

  /** The invariant of the scores document: at most one entry per key. */
  ghost predicate KeysUnique(scores: seq<BestScore>) {
    forall i, j :: 0 <= i < j < |scores| ==> !HasKey(scores[j], scores[i].pseudo, scores[i].level)
  }

  /** A (score, time in ms) pair. */
  type Pair = (int, int)

  function PairOf(e: BestScore): Pair {
    (e.bestScore, e.bestTimeMs)
  }

  function AttemptPair(a: Attempt): Pair {
    (a.score, a.timeMs)
  }

  /** `p` is strictly better than `q`: a higher score, or the same score in less time. */
  predicate Beats(p: Pair, q: Pair) {
    p.0 > q.0 || (p.0 == q.0 && p.1 < q.1)
  }

  /** `Beats` is a strict total order on pairs. */
  lemma BeatsTotal(p: Pair, q: Pair)
    ensures p == q || Beats(p, q) || Beats(q, p)
    ensures !(Beats(p, q) && Beats(q, p))
  {
  }

  /** The entry stored at the key of an attempt once the attempt is compared against `cur`. */
  function Keep(cur: Pair, next: Pair): (r: Pair)
    ensures r == cur || r == next
    ensures !Beats(cur, r) && !Beats(next, r)
  {
    if Beats(next, cur) then next else cur
  }

  /** The new scores document after `upsertBestScore(a)` at time `now`. */
  function Upsert(scores: seq<BestScore>, a: Attempt, now: Timestamp): (r: seq<BestScore>)
    ensures |r| == |scores| + (if FindScore(scores, a.pseudo, a.level).None? then 1 else 0)
    ensures FindScore(scores, a.pseudo, a.level).None? ==>
      r[|scores|] == BestScore(a.pseudo, a.level, a.score, a.timeMs, now)
    ensures forall j :: 0 <= j < |scores| && !HasKey(scores[j], a.pseudo, a.level) ==> r[j] == scores[j]
    ensures forall j :: 0 <= j < |scores| && r[j] != scores[j] ==>
      Beats(AttemptPair(a), PairOf(scores[j])) && PairOf(r[j]) == AttemptPair(a)
    ensures forall j :: 0 <= j < |scores| ==>
      r[j].pseudo == scores[j].pseudo && r[j].level == scores[j].level && r[j].bestScore >= scores[j].bestScore
  {
    match FindScore(scores, a.pseudo, a.level)
    case None => scores + [BestScore(a.pseudo, a.level, a.score, a.timeMs, now)]
    case Some(i) =>
      var cur := scores[i];
      if Beats(AttemptPair(a), PairOf(cur)) then
        scores[i := cur.(bestScore := a.score, bestTimeMs := a.timeMs, updatedAt := now)]
      else scores
  }

  /** An upsert keeps at most one entry per key. */
  lemma UpsertKeysUnique(scores: seq<BestScore>, a: Attempt, now: Timestamp)
    requires KeysUnique(scores)
    ensures KeysUnique(Upsert(scores, a, now))
  {
    var r := Upsert(scores, a, now);
    forall i, j | 0 <= i < j < |r| ensures !HasKey(r[j], r[i].pseudo, r[i].level) {
      if j == |scores| {
        assert !HasKey(scores[i], a.pseudo, a.level);
      } else {
        assert !HasKey(scores[j], scores[i].pseudo, scores[i].level);
      }
    }
  }

  /** After an upsert, the entry at the attempt's key holds `Keep` of its old pair and the attempt. */
  lemma UpsertAtKey(scores: seq<BestScore>, a: Attempt, now: Timestamp)
    ensures var r := Upsert(scores, a, now);
      match FindScore(scores, a.pseudo, a.level)
      case None => FindScore(r, a.pseudo, a.level) == Some(|scores|) && PairOf(r[|scores|]) == AttemptPair(a)
      case Some(i) => FindScore(r, a.pseudo, a.level) == Some(i) && PairOf(r[i]) == Keep(PairOf(scores[i]), AttemptPair(a))
  {
    var r := Upsert(scores, a, now);
    match FindScore(scores, a.pseudo, a.level)
    case None =>
      assert HasKey(r[|scores|], a.pseudo, a.level);
      FindScoreUnique(r, a.pseudo, a.level, |scores|);
    case Some(i) =>
      assert HasKey(r[i], a.pseudo, a.level);
      FindScoreUnique(r, a.pseudo, a.level, i);
  }

  /** FindScore returns the first index holding the key. */
  lemma FindScoreUnique(scores: seq<BestScore>, pseudo: string, level: int, i: nat)
    requires i < |scores| && HasKey(scores[i], pseudo, level)
    requires forall j :: 0 <= j < i ==> !HasKey(scores[j], pseudo, level)
    ensures FindScore(scores, pseudo, level) == Some(i)
  {
  }

  /** Submissions applied in order, each with its own timestamp. */
  function UpsertAll(scores: seq<BestScore>, subs: seq<(Attempt, Timestamp)>): (r: seq<BestScore>)
    ensures |scores| <= |r| <= |scores| + |subs|
    decreases |subs|
  {
    if subs == [] then scores else UpsertAll(Upsert(scores, subs[0].0, subs[0].1), subs[1..])
  }

  function Pairs(subs: seq<(Attempt, Timestamp)>): seq<Pair> {
    seq(|subs|, k requires 0 <= k < |subs| => AttemptPair(subs[k].0))
  }

  /** The pairs of a non-empty list: the first submission's pair, then those of the rest. */
  lemma PairsCons(subs: seq<(Attempt, Timestamp)>)
    requires subs != []
    ensures Pairs(subs) == [AttemptPair(subs[0].0)] + Pairs(subs[1..])
  {
  }

  /** The pair kept after comparing `cur` with each of `ps` in turn. */
  function KeepAll(cur: Pair, ps: seq<Pair>): (r: Pair)
    decreases |ps|
  {
    if ps == [] then cur else KeepAll(Keep(cur, ps[0]), ps[1..])
  }

  /** The best pair of a non-empty list: present in it, and beaten by none of it. */
  function Best(ps: seq<Pair>): (r: Pair)
    requires ps != []
  {
    KeepAll(ps[0], ps[1..])
  }

  lemma {:induction false} KeepAllIsBest(cur: Pair, ps: seq<Pair>)
    ensures var r := KeepAll(cur, ps);
      (r == cur || r in ps) && !Beats(cur, r) && forall q :: q in ps ==> !Beats(q, r)
    decreases |ps|
  {
    if ps != [] {
      var k := Keep(cur, ps[0]);
      KeepAllIsBest(k, ps[1..]);
      var r := KeepAll(k, ps[1..]);
      forall q | q in ps ensures !Beats(q, r) {
        if q != ps[0] { assert q in ps[1..]; }
      }
    }
  }

  /** `Best` is the maximum of the list under `Beats`. */
  lemma BestIsMaximum(ps: seq<Pair>)
    requires ps != []
    ensures Best(ps) in ps
    ensures forall q :: q in ps ==> !Beats(q, Best(ps))
  {
    KeepAllIsBest(ps[0], ps[1..]);
    assert ps == [ps[0]] + ps[1..];
  }

  /** The best pair does not depend on the order of the list. */
  lemma BestOrderFree(ps: seq<Pair>, qs: seq<Pair>)
    requires ps != [] && multiset(ps) == multiset(qs)
    ensures qs != [] && Best(ps) == Best(qs)
  {
    assert ps[0] in multiset(qs);
    BestIsMaximum(ps);
    BestIsMaximum(qs);
    assert Best(ps) in multiset(qs) && Best(qs) in multiset(ps);
    BeatsTotal(Best(ps), Best(qs));
  }

  /** All submissions are for the key (pseudo, level). */
  predicate AllFor(subs: seq<(Attempt, Timestamp)>, pseudo: string, level: int) {
    forall k :: 0 <= k < |subs| ==> SameName(subs[k].0.pseudo, pseudo) && subs[k].0.level == level
  }

  /** Once the key has an entry, later submissions for it fold `Keep` over their pairs. */
  lemma {:induction false} UpsertAllAtKey(scores: seq<BestScore>, subs: seq<(Attempt, Timestamp)>, pseudo: string, level: int, i: nat)
    requires AllFor(subs, pseudo, level)
    requires FindScore(scores, pseudo, level) == Some(i)
    ensures var r := UpsertAll(scores, subs);
      FindScore(r, pseudo, level) == Some(i) && PairOf(r[i]) == KeepAll(PairOf(scores[i]), Pairs(subs))
    decreases |subs|
  {
    if subs != [] {
      var a := subs[0].0;
      assert SameName(a.pseudo, pseudo) && a.level == level;
      HasKeySameName(scores, a.pseudo, pseudo, level);
      UpsertAtKey(scores, a, subs[0].1);
      var next := Upsert(scores, a, subs[0].1);
      HasKeySameName(next, a.pseudo, pseudo, level);
      UpsertAllAtKey(next, subs[1..], pseudo, level, i);
      PairsCons(subs);
      assert ([AttemptPair(a)] + Pairs(subs[1..]))[1..] == Pairs(subs[1..]);
    }
  }

  /** Two pseudos with the same lower-case form find the same entry. */
  lemma HasKeySameName(scores: seq<BestScore>, p: string, q: string, level: int)
    requires SameName(p, q)
    ensures FindScore(scores, p, level) == FindScore(scores, q, level)
  {
    if scores != [] {
      HasKeySameName(scores[1..], p, q, level);
    }
  }

  /**
   * Whatever the order of the submissions for a key that had no entry, the stored
   * (score, time) ends up being the best submitted pair.
   */
  lemma UpsertAllConverges(scores: seq<BestScore>, subs: seq<(Attempt, Timestamp)>, pseudo: string, level: int)
    requires subs != [] && AllFor(subs, pseudo, level)
    requires FindScore(scores, pseudo, level).None?
    ensures var r := UpsertAll(scores, subs);
      FindScore(r, pseudo, level) == Some(|scores|) && PairOf(r[|scores|]) == Best(Pairs(subs))
  {
    var a := subs[0].0;
    HasKeySameName(scores, a.pseudo, pseudo, level);
    UpsertAtKey(scores, a, subs[0].1);
    var next := Upsert(scores, a, subs[0].1);
    HasKeySameName(next, a.pseudo, pseudo, level);
    assert AllFor(subs[1..], pseudo, level);
    UpsertAllAtKey(next, subs[1..], pseudo, level, |scores|);
    PairsCons(subs);
    assert ([AttemptPair(a)] + Pairs(subs[1..]))[1..] == Pairs(subs[1..]);
  }

  /** Two submission lists holding the same attempts, in any order, store the same best pair. */
  lemma SubmissionOrderIrrelevant(scores: seq<BestScore>, s1: seq<(Attempt, Timestamp)>, s2: seq<(Attempt, Timestamp)>, pseudo: string, level: int)
    requires s1 != [] && AllFor(s1, pseudo, level) && AllFor(s2, pseudo, level)
    requires multiset(Pairs(s1)) == multiset(Pairs(s2))
    requires FindScore(scores, pseudo, level).None?
    ensures var r1, r2 := UpsertAll(scores, s1), UpsertAll(scores, s2);
      |r1| == |r2| == |scores| + 1 && PairOf(r1[|scores|]) == PairOf(r2[|scores|])
  {
    BestOrderFree(Pairs(s1), Pairs(s2));
    UpsertAllConverges(scores, s1, pseudo, level);
    UpsertAllConverges(scores, s2, pseudo, level);
    UpsertAllLength(scores, s1, pseudo, level);
    UpsertAllLength(scores, s2, pseudo, level);
  }

  /** Submissions for one key that had no entry add exactly one entry. */
  lemma {:induction false} UpsertAllLength(scores: seq<BestScore>, subs: seq<(Attempt, Timestamp)>, pseudo: string, level: int)
    requires subs != [] && AllFor(subs, pseudo, level)
    requires FindScore(scores, pseudo, level).None?
    ensures |UpsertAll(scores, subs)| == |scores| + 1
  {
    var a := subs[0].0;
    HasKeySameName(scores, a.pseudo, pseudo, level);
    var next := Upsert(scores, a, subs[0].1);
    UpsertAtKey(scores, a, subs[0].1);
    HasKeySameName(next, a.pseudo, pseudo, level);
    assert AllFor(subs[1..], pseudo, level);
    UpsertAllKeepsLength(next, subs[1..], pseudo, level);
  }

  /** Submissions for a key that already has an entry add nothing. */
  lemma {:induction false} UpsertAllKeepsLength(scores: seq<BestScore>, subs: seq<(Attempt, Timestamp)>, pseudo: string, level: int)
    requires AllFor(subs, pseudo, level)
    requires FindScore(scores, pseudo, level).Some?
    ensures |UpsertAll(scores, subs)| == |scores|
    decreases |subs|
  {
    if subs != [] {
      var a := subs[0].0;
      HasKeySameName(scores, a.pseudo, pseudo, level);
      var next := Upsert(scores, a, subs[0].1);
      UpsertAtKey(scores, a, subs[0].1);
      HasKeySameName(next, a.pseudo, pseudo, level);
      assert AllFor(subs[1..], pseudo, level);
      UpsertAllKeepsLength(next, subs[1..], pseudo, level);
    }
  }
}
