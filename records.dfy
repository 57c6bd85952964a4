/** The two persisted record shapes of the store and the score submission it receives. */
module Records {

  /** An ISO-8601 timestamp; the store only copies it, so its content is never inspected. */
  type Timestamp = string

  /** Levels are numbered 1 to 4. */
  const MaxLevel := 4

  /** One entry of the users document. */
  datatype User = User(
    pseudo: string,
    unlockedLevel: int,
    completed: seq<int>,
    createdAt: Timestamp,
    updatedAt: Timestamp)

  /** One entry of the scores document: the best attempt of a player on a level. */
  datatype BestScore = BestScore(
    pseudo: string,
    level: int,
    bestScore: int,
    bestTimeMs: int,
    updatedAt: Timestamp)

  /** The argument of `upsertBestScore`: one finished attempt. */
  datatype Attempt = Attempt(pseudo: string, level: int, score: int, timeMs: int)

  /** `[1, 2, 3, 4].includes(level)`: exactly the levels 1 to 4. */
  predicate IsLevel(level: int)
    ensures IsLevel(level) <==> 1 <= level <= MaxLevel
  {
    level in [1, 2, 3, 4]
  }

  function Min(a: int, b: int): int {
    if a <= b then a else b
  }

  function Max(a: int, b: int): int {
    if a >= b then a else b
  }
}
