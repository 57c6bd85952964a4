# Crimson-Crypt: player progress, best scores and leaderboard

A Dafny model of the server core of Crimson-Crypt, a four-level browser game:

- the file-backed store of `src/lib/server/db.ts`:
  - player progress: unlocked level and completed levels;
  - one best score per (case-insensitive pseudo, level);
  - the leaderboard and a player's total;
- the rank thresholds of `src/lib/rank.ts`;
- the input checks of the HTTP handlers for login, comments, scores and progress;
- the page guard of the root layout.

The store keeps two documents, one of users and one of best scores. Each operation loads a whole document, changes it, and writes it back. `Db.Store` holds the two documents as sequence fields. Each operation is a method that reassigns them, and its contract ties the new state to a pure function of the old one:

- `Users.Complete` and `Users.WithUser` specify progress updates;
- `Scores.Upsert` specifies best-score updates;
- `Standings.Leaderboard` specifies the leaderboard.

The properties are proved about those functions:

- progress records stay well-formed, and completing a level twice is the same as once;
- there is at most one score entry per key;
- the stored best pair is the best submitted pair, whatever the submission order;
- the leaderboard has one row per player, its totals are the sums of per-level maxima, and it is sorted by total, descending, with ties in first-appearance order;
- `getMyTotal` returns the player's total.

`getLeaderboard` is modelled the way it runs. A loop groups the entries in the insertion order of a JS `Map`. A stable in-place insertion sort on an array then orders the rows; the comparator `b.total - a.total` with a stable `Array.prototype.sort` fixes the order completely.

The route handlers are pure decision functions. `ScoresApi.Post`, `ProgressApi.Get` and `ProgressApi.Post` are methods on the store; their contracts state that a refused request leaves the store alone.

Session and input conventions:

- The session is the `cc_pseudo` cookie. A missing cookie and an empty one both count as signed out, because the handlers test `!pseudo`.
- Request-body fields are `Option` values. A missing field takes the default the handler gives it.

Two facts about the code are worth stating:

- Login normalisation cuts to 24 characters after collapsing whitespace, so an accepted pseudo can end in a space. `Login.CutKeepsTrailingSpace` exhibits this: it is not "trimmed" in that case.
- The better-attempt comparison happens inside `upsertBestScore` itself, not in its callers.

## Model

| member | source | states |
|---|---|---|
| Text.Lower | src/lib/server/db.ts:47 | `toLowerCase` keeps the length, leaves no upper-case letter, turns each upper-case letter into the same letter in lower case and keeps every other character (ASCII) |
| Text.LowerIdempotent | src/lib/server/db.ts:47 | lower-casing twice is lower-casing once |
| Text.SameNameEquivalence | src/lib/server/db.ts:47 | `a.toLowerCase() === b.toLowerCase()` is reflexive, symmetric and transitive, and relates only names of equal length |
| Text.SameName | src/lib/server/db.ts:47 | `a.toLowerCase() === b.toLowerCase()` (no contract of its own; `Text.SameNameEquivalence` states its properties) |
| Text.StartsWith | src/routes/+layout.server.ts:9 | `startsWith`: the prefix fits and the first characters equal it (no contract of its own) |
| Text.Trim | src/routes/api/auth/login/+server.ts:7 | `trim` is `TrimEnd` after `TrimStart` (whose contracts fix what each drops); its own contract: whitespace at neither end, no longer than the input |
| Text.TrimStart | src/routes/api/auth/login/+server.ts:7 | the result is a suffix whose dropped prefix is all whitespace and which does not start with whitespace |
| Text.TrimEnd | src/routes/api/auth/login/+server.ts:7 | the result is a prefix whose dropped suffix is all whitespace and which does not end with whitespace |
| Text.Collapse | src/routes/api/comments/+server.ts:26 | `replace(/\s+/g, " ")` is no longer than the input and empty iff the input is; on a trimmed string it is the words joined with single spaces (`Text.CollapseWords`) |
| Text.CollapseShape | src/routes/api/comments/+server.ts:26 | the collapse is single-spaced and starts (ends) with whitespace iff the input does |
| Text.CollapseFirst | src/routes/api/comments/+server.ts:26 | the collapse starts with a space for a leading whitespace run, else with the input's first character |
| Text.CollapseLast | src/routes/api/comments/+server.ts:26 | the collapse ends with whitespace iff the input does |
| Text.CollapseSingle | src/routes/api/comments/+server.ts:26 | the collapse never holds two whitespace characters in a row |
| Text.CollapseTrimmed | src/routes/api/comments/+server.ts:26 | collapsing a string with whitespace at neither end keeps it so |
| Text.CollapseKeepsVisible | src/routes/api/comments/+server.ts:26 | collapsing whitespace keeps every non-whitespace character, in order |
| Text.CollapseSingleSpaced | src/routes/api/auth/login/+server.ts:7 | a string that is already single-spaced is a fixed point of the collapse |
| Text.VisibleTrim | src/routes/api/comments/+server.ts:26 | trimming keeps every non-whitespace character |
| Text.VisibleAppend | src/routes/api/comments/+server.ts:26 | the non-whitespace characters of a concatenation are those of each part, in order |
| Text.VisibleAllSpace | src/routes/api/comments/+server.ts:26 | a whitespace-only string has no non-whitespace characters |
| Text.VisibleTrimStart | src/routes/api/comments/+server.ts:26 | dropping leading whitespace keeps every non-whitespace character |
| Text.VisibleTrimEnd | src/routes/api/comments/+server.ts:26 | dropping trailing whitespace keeps every non-whitespace character |
| Text.TrimTrimmed | src/routes/api/auth/login/+server.ts:7 | a string with whitespace at neither end is a fixed point of `trim` |
| Text.Take | src/routes/api/auth/login/+server.ts:7 | `slice(0, n)` is the prefix of length min(n, length) |
| Text.TakeSingleSpaced | src/routes/api/auth/login/+server.ts:7 | a prefix of a single-spaced string is single-spaced |
| Text.VisibleTake | src/routes/api/auth/login/+server.ts:7 | the non-whitespace characters of a prefix are a prefix of those of the whole string |
| Text.Word | src/routes/api/comments/+server.ts:26 | the longest whitespace-free prefix: non-empty when the string starts with a visible character, and followed by whitespace or the end |
| Text.Words | src/routes/api/comments/+server.ts:26 | the maximal whitespace-free runs, in order: the reference against which the normalisation is stated (no contract of its own) |
| Text.JoinSpace | src/routes/api/comments/+server.ts:26 | the words with one space between each two (no contract of its own) |
| Text.WordsAllSpace | src/routes/api/comments/+server.ts:26 | a whitespace-only string has no words |
| Text.WordsTrimStart | src/routes/api/comments/+server.ts:26 | leading whitespace adds no word |
| Text.WordAppendSpace | src/routes/api/comments/+server.ts:26 | trailing whitespace does not lengthen the first word |
| Text.WordsAppendSpace | src/routes/api/comments/+server.ts:26 | trailing whitespace adds no word |
| Text.WordsTrim | src/routes/api/comments/+server.ts:26 | `trim` keeps the words |
| Text.CollapseNoSpacePrefix | src/routes/api/comments/+server.ts:26 | the collapse copies a whitespace-free prefix unchanged |
| Text.InnerRun | src/routes/api/comments/+server.ts:26 | what follows an inner whitespace run of a trimmed string is non-empty and trimmed |
| Text.CollapseRun | src/routes/api/comments/+server.ts:26 | a leading whitespace run, however long, becomes exactly one space |
| Text.WordsCons | src/routes/api/comments/+server.ts:26 | a string starting with a visible character starts with its first word |
| Text.JoinSpaceCons | src/routes/api/comments/+server.ts:26 | joining one more word in front adds the word and one space |
| Text.CollapseWords | src/routes/api/comments/+server.ts:26 | collapsing a trimmed string gives its words joined with exactly one space between each two |
| Text.TrimCollapseWords | src/routes/api/comments/+server.ts:26 | `trim()` then `replace(/\s+/g, " ")` gives the words of the input joined with single spaces |
| Text.Normalize | src/routes/api/comments/+server.ts:26 | the normalised text is the words of the input joined with single spaces; it has no whitespace at either end, is single-spaced, keeps every visible character in order, and is no longer than the input |
| Text.NormalizeClean | src/routes/api/comments/+server.ts:26 | a text with no whitespace at its ends and only single spaces inside is already normal |
| Text.NormalizeIdempotent | src/routes/api/comments/+server.ts:26 | normalising a normalised text changes nothing |
| Records.IsLevel | src/routes/api/progress/+server.ts:20 | `[1, 2, 3, 4].includes(level)` holds exactly for 1 <= level <= 4 |
| Session.SignedIn | src/routes/api/progress/+server.ts:7 | `!pseudo` is false exactly when the cookie is present and not empty (no contract of its own) |
| Rank.GetRank | src/lib/rank.ts:4-8 | Lord iff total >= 4500, Vampire iff 2500 <= total < 4500, Ghoul iff total < 2500 |
| Rank.GetRankMonotone | src/lib/rank.ts:4-8 | a larger total never yields a lower rank (Ghoul < Vampire < Lord) |
| Rank.RankBadge | src/lib/rank.ts:10-14 | the badge is one pictograph character (U+1F300 to U+1FAFF), a space and the rank's name |
| Rank.RankBadgeInjective | src/lib/rank.ts:10-14 | distinct ranks get distinct badges |
| Sorting.InsertAscending | src/lib/server/db.ts:71 | inserting adds exactly the element to the multiset |
| Sorting.InsertAscendingSorted | src/lib/server/db.ts:71 | inserting into an ascending list keeps it ascending |
| Sorting.SortAscending | src/lib/server/db.ts:71 | `sort((a,b)=>a-b)` returns an ascending permutation of its input |
| Sorting.SortAscendingSorted | src/lib/server/db.ts:71 | sorting an ascending list leaves it unchanged |
| Sorting.InsertStrictlyAscending | src/lib/server/db.ts:71 | inserting a new element into a strictly ascending list keeps it strictly ascending |
| Sorting.SortStrictlyAscending | src/lib/server/db.ts:71 | a list without duplicates sorts into a strictly ascending one |
| Users.FindUser | src/lib/server/db.ts:47 | `users.find` by case-insensitive pseudo: the first matching index, or none iff no record matches |
| Users.NewUser | src/lib/server/db.ts:49 | a new record has level 1 unlocked, nothing completed, the pseudo as given, and is well-formed |
| Users.AddCompleted | src/lib/server/db.ts:70-71 | the level is in the result, which is ascending and gains the level only if it was absent |
| Users.AddCompletedStrictlyAscending | src/lib/server/db.ts:70-71 | a duplicate-free list stays strictly ascending (sorted, no duplicates) after the level is added |
| Users.NextUnlock | src/lib/server/db.ts:73 | the new unlocked level is min(4, max(old, level+1)): at most 4 and at most max(old, level+1), at least the old one and level+1 (each capped at 4) |
| Users.Complete | src/lib/server/db.ts:70-75 | the updated record keeps pseudo and creation time, holds the level, keeps its completed levels ascending and exactly the old ones plus the level, never lowers the unlocked level, raises it to at most max(old, level+1) and at most 4, and makes it >= 2 for a level 1..4 |
| Users.CompleteWellFormed | src/lib/server/db.ts:70-74 | completing a level keeps the record well-formed: unlocked level 1..4, completed strictly ascending, every completed level c with unlocked >= min(4, c+1) |
| Users.CompleteIdempotent | src/lib/server/db.ts:70-75 | completing the same level twice gives the same record as completing it once (up to the update time) |
| Users.ReplaceUserValid | src/lib/server/db.ts:70-77 | replacing a record by a well-formed one of the same pseudo keeps the document valid |
| Users.AppendUserValid | src/lib/server/db.ts:48-51 | appending a well-formed record whose pseudo has no match keeps pseudos unique up to case |
| Users.Current | src/lib/server/db.ts:47-49 | the record worked on is the first case-insensitive match when there is one, a new record otherwise, matches the pseudo, and is well-formed in a valid document |
| Users.WithUser | src/lib/server/db.ts:63-68 | with a match, the record replaces it at its index and every other record stays; without one, it is appended at the end and the rest is unchanged |
| Users.WithUserValid | src/lib/server/db.ts:43-79 | storing a well-formed record under its pseudo keeps the document valid, and a later lookup finds that record |
| Users.FindUserAt | src/lib/server/db.ts:47 | the lookup returns the first matching index |
| Scores.FindScore | src/lib/server/db.ts:85-87 | `findIndex` by case-insensitive pseudo and level: the first matching index, or none iff no entry matches |
| Scores.HasKey | src/lib/server/db.ts:86 | the `findIndex` test: same pseudo up to case and same level (no contract of its own; `Scores.FindScore` is stated with it) |
| Scores.Beats | src/lib/server/db.ts:99-101 | "better": a higher score, or the same score in less time; `Scores.BeatsTotal` proves it a strict total order |
| Scores.BeatsTotal | src/lib/server/db.ts:99-101 | "better" (higher score, or equal score and lower time) is a strict total order on (score, time) pairs |
| Scores.Keep | src/lib/server/db.ts:99-110 | the kept pair is the current or the new one, and neither beats it |
| Scores.Upsert | src/lib/server/db.ts:85-110 | appends the attempt iff its key is missing; entries of other keys are unchanged; an entry changes only when the attempt beats it, and then holds the attempt's pair; pseudo and level are kept and the best score never decreases |
| Scores.UpsertKeysUnique | src/lib/server/db.ts:85-96 | an upsert keeps at most one entry per (case-insensitive pseudo, level) |
| Scores.UpsertAtKey | src/lib/server/db.ts:89-110 | after an upsert the key's entry is at the same place (or at the end when new) and holds the better of its old pair and the attempt |
| Scores.FindScoreUnique | src/lib/server/db.ts:85-87 | the lookup returns the first index holding the key |
| Scores.UpsertAll | src/lib/server/db.ts:81-114 | a sequence of submissions grows the document by at most one entry each |
| Scores.KeepAllIsBest | src/lib/server/db.ts:99-110 | comparing a pair against a list in turn keeps a pair from them that none of them beats |
| Scores.BestIsMaximum | src/lib/server/db.ts:99-101 | the best pair of a list is in it and beaten by none of it |
| Scores.BestOrderFree | src/lib/server/db.ts:99-110 | the best pair does not depend on the order of the list |
| Scores.UpsertAllAtKey | src/lib/server/db.ts:98-110 | once a key has an entry, later submissions for it fold "keep the better" over their pairs |
| Scores.HasKeySameName | src/lib/server/db.ts:86 | pseudos equal up to case find the same entry |
| Scores.UpsertAllConverges | src/lib/server/db.ts:85-110 | submissions for a new key leave one entry at the end holding the best submitted pair |
| Scores.SubmissionOrderIrrelevant | src/lib/server/db.ts:99-110 | the same attempts submitted in any order store the same best pair at the same place |
| Scores.UpsertAllLength | src/lib/server/db.ts:89-96 | submissions for a key that had no entry add exactly one entry |
| Scores.UpsertAllKeepsLength | src/lib/server/db.ts:97-111 | submissions for a key that has an entry add nothing |
| Standings.FirstIndex | src/lib/server/db.ts:121-123 | the position of a player's first entry, or the document length iff the player has none |
| Standings.LevelBest | src/lib/server/db.ts:125 | the per-level best of a player, starting from 0, is never negative |
| Standings.LevelBestIsMaximum | src/lib/server/db.ts:125 | the per-level best is at least every entry of the player on that level, and is 0 or one of them |
| Standings.LevelBestAbsent | src/lib/server/db.ts:125 | a level the player has no entry for counts as 0 |
| Standings.FindGroup | src/lib/server/db.ts:123-124 | `map.has`/`map.get`: the group with the key, or none iff no group has it |
| Standings.Lookup | src/lib/server/db.ts:125 | `bestByLevel[level] ?? 0` (no contract of its own) |
| Standings.AddEntry | src/lib/server/db.ts:122-125 | one pass of the grouping loop; `Standings.AddEntryMatches` proves what it preserves (no contract of its own) |
| Standings.Aggregate | src/lib/server/db.ts:121-126 | the groups after the loop; `Standings.AggregateMatches` states them (no contract of its own) |
| Standings.Total | src/lib/server/db.ts:131 | the sum of levels 1..4 with `?? 0`; `Standings.LeaderboardRows` relates it to the scores (no contract of its own) |
| Standings.AggregateMatches | src/lib/server/db.ts:121-126 | after the grouping loop there is one group per lower-cased pseudo, showing the first-seen casing, holding the per-level maxima, in first-appearance order |
| Standings.AddEntryMatches | src/lib/server/db.ts:122-125 | one iteration of the grouping loop preserves that invariant |
| Standings.AddEntryKeysDistinct | src/lib/server/db.ts:123 | one iteration keeps the keys distinct |
| Standings.AddEntryKeysCover | src/lib/server/db.ts:123 | one iteration keeps a group for every player seen |
| Standings.AddEntryFirstSeen | src/lib/server/db.ts:123 | one iteration keeps each group's casing that of its first entry |
| Standings.AddEntryMaxima | src/lib/server/db.ts:125 | one iteration keeps each group's levels equal to the per-level maxima |
| Standings.AddEntryOrder | src/lib/server/db.ts:123 | one iteration keeps the groups in first-appearance order |
| Standings.OrderSnoc | src/lib/server/db.ts:121-123 | one more entry keeps the groups in first-appearance order, each first seen before it |
| Standings.OrderAppend | src/lib/server/db.ts:123-124 | a group for a player first seen after all the grouped ones goes last, keeping the order |
| Standings.OrderSameKeys | src/lib/server/db.ts:125 | updating a group's levels in place does not change the order |
| Standings.NoGroupNotAppears | src/lib/server/db.ts:123 | a key without a group has no entries, so all its per-level bests are 0 |
| Standings.SnocAppears | src/lib/server/db.ts:121 | after one more entry, a player appears iff it appeared or is the entry's player |
| Standings.SnocHasLevel | src/lib/server/db.ts:121 | after one more entry, a player has a level iff it had it or the entry adds it |
| Standings.SnocFirstIndex | src/lib/server/db.ts:121 | one more entry does not move a player's first entry |
| Standings.SnocLevelBest | src/lib/server/db.ts:125 | one more entry raises only its own player's and level's best, to the maximum with its score |
| Standings.InsertByTotal | src/lib/server/db.ts:134 | inserting a row adds one row |
| Standings.SortByTotal | src/lib/server/db.ts:134 | sorting keeps the number of rows |
| Standings.InsertByTotalPermutes | src/lib/server/db.ts:134 | inserting adds exactly that row to the multiset of rows |
| Standings.SortByTotalPermutes | src/lib/server/db.ts:134 | `list.sort` returns a permutation of its rows |
| Standings.InsertByTotalDescending | src/lib/server/db.ts:134 | inserting into rows of non-increasing total keeps them non-increasing |
| Standings.SortByTotalDescending | src/lib/server/db.ts:134 | the sorted rows have non-increasing totals |
| Standings.InsertByTotalWithTotal | src/lib/server/db.ts:134 | an inserted row goes before the rows of equal total |
| Standings.SortByTotalStable | src/lib/server/db.ts:134 | the rows of each total keep their relative order (stable sort) |
| Standings.InsertByTotalSplit | src/lib/server/db.ts:134 | an inserted row lands right after the rows of larger total |
| Standings.SortRows | src/lib/server/db.ts:134 | the in-place sort of the row array leaves exactly the stable descending order |
| Standings.InsertRow | src/lib/server/db.ts:134 | one insertion step moves a row into the sorted rest of the array and leaves the part before it alone |
| Standings.Rows | src/lib/server/db.ts:128-132 | `[...map.values()].map(...)`: one row per group with the four-level total (no contract of its own; `Standings.RowsOfAggregate` states it) |
| Standings.Leaderboard | src/lib/server/db.ts:116-136 | the value `getLeaderboard` returns: the rows sorted by total (no contract of its own; `Standings.LeaderboardRows`, `LeaderboardPlayers`, `LeaderboardDistinct` and `LeaderboardOrder` state it) |
| Standings.PlaceRow | src/lib/server/db.ts:134 | writing the row into the gap left by the shift gives the sorted rest with the row inserted, and leaves the part before it alone |
| Standings.RowsOfAggregate | src/lib/server/db.ts:121-132 | before sorting: one row per player, in first-appearance order, each describing its player |
| Standings.InsertByTotalDistinct | src/lib/server/db.ts:134 | inserting a row of a new player keeps one row per player |
| Standings.SortByTotalDistinct | src/lib/server/db.ts:134 | sorting keeps one row per player |
| Standings.WithTotalSubset | src/lib/server/db.ts:134 | the rows of one total are rows of the list with that total |
| Standings.WithTotalByFirstAppearance | src/lib/server/db.ts:134 | keeping the rows of one total keeps first-appearance order |
| Standings.ByFirstAppearanceTail | src/lib/server/db.ts:121-134 | dropping the first row keeps first-appearance order |
| Standings.HeadFirst | src/lib/server/db.ts:121-134 | the first row's player appears before the player of every row taken from the rest |
| Standings.ByFirstAppearanceCons | src/lib/server/db.ts:121-134 | a row whose player appears first can go in front, keeping the order |
| Standings.LeaderboardRows | src/lib/server/db.ts:121-132 | every leaderboard row shows its player's first-seen casing, holds exactly the levels the player has entries on, with their per-level maxima, and the total (levels 1..4 summed, missing as 0) |
| Standings.LeaderboardPlayers | src/lib/server/db.ts:121-123 | a player has a row iff it has an entry in the scores document |
| Standings.PlayerHasRow | src/lib/server/db.ts:121-134 | every player of the scores document has a leaderboard row |
| Standings.RowsCover | src/lib/server/db.ts:121-132 | before sorting, every player of the scores document has a row |
| Standings.RowOfAppears | src/lib/server/db.ts:121-123 | a row describing a player names one that has an entry |
| Standings.LeaderboardDistinct | src/lib/server/db.ts:121-134 | no two rows have the same pseudo up to case |
| Standings.LeaderboardOrder | src/lib/server/db.ts:134 | rows are ordered by total, non-increasing, and equal totals keep first-appearance order |
| Standings.FindRow | src/lib/server/db.ts:140 | `lb.find` by case-insensitive pseudo: the first matching row, or none iff no row matches |
| Standings.TotalOf | src/lib/server/db.ts:140-141 | the found row's total or 0; `Standings.MyTotalIsPlayerTotal` states its value (no contract of its own) |
| Standings.MyTotalIsPlayerTotal | src/lib/server/db.ts:138-141 | a player's total read from the leaderboard is the sum of its per-level maxima, 0 without entries |
| Db.Store.constructor | src/lib/server/db.ts:24-29 | both documents start empty, which is valid |
| Db.Store.GetOrCreateUser | src/lib/server/db.ts:43-54 | with a case-insensitive match the record is returned and nothing changes; otherwise a new record is appended and returned; a later lookup finds it; validity is kept |
| Db.Store.GetProgress | src/lib/server/db.ts:56-58 | the same as getOrCreateUser |
| Db.Store.UpdateProgress | src/lib/server/db.ts:60-79 | the matched or newly appended record becomes `Complete` of it, no other record changes, the scores are untouched, validity is kept |
| Db.Store.UpsertBestScore | src/lib/server/db.ts:81-114 | the scores become `Upsert` of the old scores, users are untouched, at most one entry per key is kept |
| Db.Store.GetLeaderboard | src/lib/server/db.ts:116-136 | the loop and the in-place sort return `Leaderboard(scores)`: non-increasing totals, one row per player, each describing its player |
| Db.Store.GetMyTotal | src/lib/server/db.ts:138-142 | returns the matching row's total, which is the player's sum of per-level maxima (0 without entries) |
| Login.NormalizePseudo | src/routes/api/auth/login/+server.ts:7 | the first 24 characters of the words of the input joined with single spaces; so no leading whitespace, single-spaced, its visible characters a prefix of the input's; trimmed with all of them when the input has at most 24 characters |
| Login.Login | src/routes/api/auth/login/+server.ts:4-24 | 400 without a cookie iff the normalised pseudo is shorter than 2; otherwise 200 with the cookie and the reply both set to it, of length 2..24 |
| Login.NormalizeCleanName | src/routes/api/auth/login/+server.ts:7 | a trimmed, single-spaced name of at most 24 characters is kept as typed |
| Login.LoginCleanName | src/routes/api/auth/login/+server.ts:7-24 | such a name of 2..24 characters signs the player in under exactly that name |
| Login.CutKeepsTrailingSpace | src/routes/api/auth/login/+server.ts:7 | the cut after collapsing can leave a trailing space (23 characters, a space, one more) |
| Login.NoSpaceSingleSpaced | src/routes/api/auth/login/+server.ts:7 | a string without whitespace is single-spaced |
| Login.SingleSpacedJoin | src/routes/api/auth/login/+server.ts:7 | a whitespace-free string followed by a single-spaced one is single-spaced |
| Comments.Limit | src/routes/api/comments/+server.ts:7 | the page size lies in 1..200, is 80 when absent, is the parameter iff it is in range, else the nearer bound |
| Comments.PostStatus | src/routes/api/comments/+server.ts:22-39 | 401 without a session, 400 for a bad length, 200 for an insertion |
| Comments.PostComment | src/routes/api/comments/+server.ts:20-33 | without a session, refused whatever the body; otherwise too short iff under 2, too long iff over 240, inserted under the cookie's pseudo iff 2..240 |
| ScoresApi.ClampNonNegative | src/routes/api/scores/+server.ts:11-12 | never negative, 0 when missing, the value itself when non-negative |
| ScoresApi.Decide | src/routes/api/scores/+server.ts:5-16 | 401 iff no session; 400 iff signed in with a level outside 1..4; otherwise the cookie's pseudo, the level and the clamped score and time are submitted |
| ScoresApi.Status | src/routes/api/scores/+server.ts:7-17 | 401, 400 and 200 for the three decisions |
| ScoresApi.Post | src/routes/api/scores/+server.ts:5-18 | upserts exactly the decided attempt, and only when both checks pass; the store is otherwise unchanged |
| ScoresApi.Get | src/routes/api/scores/+server.ts:20-23 | returns the leaderboard unchanged |
| ProgressApi.Status | src/routes/api/progress/+server.ts:7-25 | 401, 400 and 200 for the three replies |
| ProgressApi.Get | src/routes/api/progress/+server.ts:5-11 | 401 without a session, store unchanged; otherwise `getProgress` of the cookie's pseudo, creating the record if needed |
| ProgressApi.Post | src/routes/api/progress/+server.ts:13-26 | 401 without a session and 400 for a level outside 1..4, store unchanged; a signed-in request with a level 1..4 always gets its reply from exactly one `updateProgress`, whose record is returned |
| Layout.AnyPrefix | src/routes/+layout.server.ts:9 | `some(startsWith)` holds iff one of the prefixes starts the path |
| Layout.IsProtected | src/routes/+layout.server.ts:9 | the protected-prefix test; `Layout.IsProtectedIff` states it (no contract of its own) |
| Layout.IsProtectedIff | src/routes/+layout.server.ts:4-9 | a path is protected iff it starts with "/dashboard", "/play" or "/leaderboard" |
| Layout.PrefixNotSegment | src/routes/+layout.server.ts:4-9 | "/playground" is protected (prefix test), "/" is not |
| Layout.Load | src/routes/+layout.server.ts:6-13 | redirect 303 to "/" iff the path is protected and there is no session; otherwise the user is the cookie's pseudo iff there is a session |

## Left out

- File I/O (`ensure`, `readJson`, `writeJson` in src/lib/server/db.ts:24-41): the two JSON documents are the fields of `Db.Store`. A missing file reads as `[]`, which is the constructor's state.
- Concurrency: the model is sequential. The lost update between reading and writing a whole document is not modelled.
- Timestamps from `new Date().toISOString()` are an opaque `now` parameter. No property depends on their value.
- Db.Store.GetOrCreateUser: returns a copy of the record. The JS code returns the object inside the loaded array; that aliasing is not modelled.
- Db.Store.UpdateProgress: the same applies to the mutated object.
- Text.Lower: ASCII case folding only. Unicode `toLowerCase` is not modelled.
- Text.Trim: whitespace is ASCII only (space, tab, line feed, carriage return, vertical tab, form feed). Unicode whitespace, for `trim` and for the `\s` of the collapse, is not modelled.
- Lengths are counted in characters, not UTF-16 code units. This applies to the 24-character cut, the 2..240 message bounds, and the badge length.
- Rank.RankBadge: its length is counted in characters. In JS, the emoji takes two UTF-16 code units.
- Scores.Upsert, Standings.Total, ScoresApi.ClampNonNegative: exact integer arithmetic is modelled. JS numbers are doubles: above 2^53 the "better" test, the per-level `Math.max`, the four-level sum and `b.total - a.total` lose precision, and a score of `1e309` parses to `Infinity`, passes the clamp and is written to the file as `null`; none of this is modelled.
- ScoresApi.ClampNonNegative: integers only. JS `Number` conversion, `Math.floor` of fractions and NaN are not modelled; `Math.max(0, NaN)` is NaN, not 0.
- Comments.Limit: integers only. A non-numeric `limit` gives NaN in the source; that is not modelled.
- ProgressApi.Post: `completeLevel` is an optional integer. The source converts the body field with `Number(...)`, so a string such as "2", a boolean or a one-element array also passes the level check there; that coercion is not modelled.
- ScoresApi.Decide: `level` is an optional integer. `Number(body?.level)` in the source accepts "3", `true` and similar values as levels; that coercion is not modelled.
- Login.Login: the pseudo field is an optional string. `String(...)` coercion of other JSON values and an unparsable body are not modelled.
- Cookie attributes (`path`, `httpOnly`, `sameSite`, `secure`, `maxAge`) and the logout route are not modelled.
- The comment queries (Supabase select and insert, src/routes/api/comments/+server.ts:9-17, 31-39) and their 500 replies are external calls. `Comments.PostComment` ends at the decision to insert.
- src/routes/dashboard/+page.server.ts is not part of this model. Its null check is covered by the layout guard.
- The remote relational backend is not part of this model.
- Client code (src/lib/game.ts, src/lib/anim.ts, src/lib/sfx.ts) is not part of this model.
