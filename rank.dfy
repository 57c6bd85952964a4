/** Player ranks derived from the leaderboard total. */
module Rank {

  datatype Rank = Ghoul | Vampire | Lord

  const VampireThreshold := 2500
  const LordThreshold := 4500

  /** The rank's name, the string value of the rank. */
  function Name(r: Rank): string {
    match r
    case Ghoul => "Ghoul"
    case Vampire => "Vampire"
    case Lord => "Lord"
  }

  /** Position of a rank in the order Ghoul < Vampire < Lord. */
  function Order(r: Rank): nat {
    match r
    case Ghoul => 0
    case Vampire => 1
    case Lord => 2
  }

  /** `getRank`: the rank a total score earns. */
  function GetRank(total: int): (r: Rank)
    ensures r == Lord <==> total >= LordThreshold
    ensures r == Vampire <==> VampireThreshold <= total < LordThreshold
    ensures r == Ghoul <==> total < VampireThreshold
  {
    if total >= LordThreshold then Lord
    else if total >= VampireThreshold then Vampire
    else Ghoul
  }

  /** A larger total never earns a lower rank. */
  lemma GetRankMonotone(a: int, b: int)
    requires a <= b
    ensures Order(GetRank(a)) <= Order(GetRank(b))
  {
  }

  /** `rankBadge`: an emoji followed by a space and the rank's name. */
  function RankBadge(r: Rank): (b: string)
    ensures |b| == |Name(r)| + 2
    ensures 0x1F300 <= b[0] as int <= 0x1FAFF
    ensures b[2..] == Name(r) && b[1] == ' '
  {
    match r
    case Lord => "\U{1F451} Lord"
    case Vampire => "\U{1F9DB} Vampire"
    case Ghoul => "\U{1F9DF} Ghoul"
  }

  /** Distinct ranks get distinct badges. */
  lemma RankBadgeInjective(r1: Rank, r2: Rank)
    requires RankBadge(r1) == RankBadge(r2)
    ensures r1 == r2
  {
    assert Name(r1) == RankBadge(r1)[2..];
  }
}
