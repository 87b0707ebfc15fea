# Rocket Pool oDAO guessing game: a Dafny model

The game asks a player to rank ten of the Rocket Pool oracle DAO (oDAO) members in
the order they will submit the next rewards merkle tree on chain. The page commits
to the guess by showing a SHA-256 hash of the comma-joined ranking followed by a
salt. It keeps the ranking and the salt in the URL query string. Later it fetches the
reward-pool contract's transactions, reconstructs the submissions, and scores the
guess against them.

This project models the core of that page, `src/App.js`, as pure Dafny functions and
proves properties about them:

- `common.dfy` (`Common`): `Option` and the consensus length `ConsensusRequired` (10).
- `seqs.dfy` (`Seqs`): the generic sequence tools the page uses. These are
  `Array.prototype.filter` as `Filter`, the running `counts[x] = (counts[x] || 0) + 1`
  object as `Tally`, and picking a most frequent key as `MostCommon`.
- `strings.dfy` (`Strings`): `join`/`split` on one separator, ASCII `toLowerCase`, and
  the decimal text of a natural number.
- `guess_editor.dfy` (`GuessEditor`): the add, remove, move and clear handlers, and
  runs of them.
- `submissions.dfy` (`Submissions`): `getRewardSubmissions` after the fetch (filter,
  decode, count roots, sort by time, annotate) and `getODAONameByAddress`.
- `scoring.dfy` (`Scoring`): `scoringArray`, the score line's sum, and its
  "final score" test.
- `persistence.dfy` (`Persistence`): several pieces of state that survive a reload.
  - `updateURLParams`, which writes the query string.
  - The load effect, which reads the query string back and picks the start page.
  - The hash effect.
  - The commitment preimage `guess.join(",") + salt`.

Scores are counted in integer quarter points: 1 point is 4, 0.25 is 1.

Where the source depends on something outside the page, the model takes it as a
parameter:

- the ABI decoder of a transaction's call data: `decode: string -> Option<string>`;
- SHA-256: `sha: string -> string`;
- the clock: `nowMs`;
- `parseInt(Math.random() * 10000)`: `random`.

Two behaviours of the code are easy to misread, and the model follows the code:

- A transaction whose call data fails to decode makes the whole refresh throw, since
  the code has no `try`. The model gives the refresh outcome `Aborted` and the page
  keeps its previous list. It does not skip only that transaction.
- The hash is recomputed only when the guess changes (`src/App.js:139-143`), not when
  the salt changes.

## Model

| member | source | states |
|---|---|---|
| Seqs.Tally | src/App.js:87-93 | the running count object has a key for exactly the roots seen, each mapped to how often it occurs |
| Seqs.MostCommon | src/App.js:449-451 | the picked root occurs in the list and no root occurs more often |
| Strings.Join | src/App.js:141 | `join` with one separator; it has no contract of its own, and SplitJoin, JoinSplit and JoinInjective state what it preserves |
| Strings.Split | src/App.js:111 | `split` yields one more piece than there are separators, none containing the separator |
| Strings.JoinSplit | src/App.js:111 | splitting a string and joining the pieces with the same separator gives the string back |
| Strings.SplitJoin | src/App.js:152 | ids without the separator, joined and then split, come back as the same list |
| Strings.JoinInjective | src/App.js:141 | two separator-free id lists with the same joined text are equal |
| Strings.Lower | src/App.js:172 | lower-casing keeps the length, leaves no upper-case letter and changes only upper-case letters |
| Strings.Decimal | src/App.js:155 | the text of a number is non-empty, all digits, and has no leading zero |
| Strings.DecimalValue | src/App.js:155 | the digits of a number's text read back as that number |
| Strings.DecimalInjective | src/App.js:141 | different numbers have different decimal texts |
| GuessEditor.Add | src/App.js:178-191 | the guess is unchanged exactly when it is full or already holds the id; otherwise the id is appended; the warning matches the case |
| GuessEditor.Remove | src/App.js:193-198 | the id is gone, every other id keeps its count and the order is kept; the warning is cleared |
| GuessEditor.MoveTarget | src/App.js:201 | the swap target is `idx + move` clamped into the list |
| GuessEditor.Move | src/App.js:200-206 | moving swaps the two positions: the same ids, the same length, the warning untouched |
| GuessEditor.SwapPermutes | src/App.js:202-204 | the two assignments permute the list |
| GuessEditor.Clear | src/App.js:208-210 | clearing empties the guess and leaves the warning as it was |
| GuessEditor.MoveAtBoundary | src/App.js:201-205 | moving the first id up or the last id down changes nothing |
| GuessEditor.MoveUndo | src/App.js:200-206 | moving back from the target restores the editor |
| GuessEditor.RemoveUndoesAdd | src/App.js:178-198 | removing an id that was just added restores the previous guess |
| GuessEditor.MoveKeepsNoDuplicates | src/App.js:200-206 | a swap keeps the ids distinct |
| GuessEditor.StepKeepsGoodGuess | src/App.js:178-210 | each handler keeps the guess duplicate-free and no longer than ten |
| GuessEditor.RunKeepsGoodGuess | src/App.js:178-210 | any sequence of handler calls keeps the guess duplicate-free and no longer than ten |
| Submissions.NameByAddress | src/App.js:170-176 | the id of the first member whose address matches ignoring case, or "Unknown ODAO" when none does |
| Submissions.NameIgnoresCase | src/App.js:172 | addresses equal up to case get the same name |
| Submissions.Window | src/App.js:79-83 | exactly the successful, recent `submitRewardSnapshot` transactions are kept, every copy of each, in listing order |
| Submissions.DecodeAll | src/App.js:88-95 | decoding fails exactly when some call data fails; otherwise one record per transaction with its sender, time, hash and decoded root |
| Submissions.Insert | src/App.js:96 | inserting into a time-sorted list keeps it sorted and adds exactly the one record |
| Submissions.SortByTime | src/App.js:96 | the sort yields a permutation with non-decreasing timestamps |
| Submissions.SortRoots | src/App.js:93-96 | sorting keeps how often each root occurs |
| Submissions.Annotate | src/App.js:97-99 | each record gets its member name and a flag that is true exactly when its root's count reaches ten |
| Submissions.SortedCounts | src/App.js:93-98 | the count looked up for each sorted record is the count of its root in the sorted list |
| Submissions.AnnotatedValidity | src/App.js:98 | flags read from such counts are true exactly when the root occurs at least ten times in the list |
| Submissions.Normalise | src/App.js:87-99 | the result is a time-sorted permutation of the decoded records, named by member, flagged valid exactly when its root has at least ten submissions |
| Submissions.WindowDecodeFails | src/App.js:79-91 | decoding the window fails exactly when some kept transaction fails to decode |
| Submissions.RewardSubmissions | src/App.js:71-103 | nothing happens without members; a decode failure aborts; otherwise a time-sorted permutation of the decoded records, named and flagged |
| Submissions.LoadedFromKept | src/App.js:79-94 | every loaded submission derives from a transaction that passed all four filters |
| Submissions.AfterRefresh | src/App.js:101 | the page's list is replaced only by a refresh that loaded; PageListConsistent shows the kept list stays consistent |
| Submissions.PageListConsistent | src/App.js:212-215 | starting from the empty list, after any run of refreshes the page's list is sorted by time and flagged valid exactly when its root has at least ten submissions |
| Scoring.WinningRoot | src/App.js:445-452 | the chosen root is "0x" without submissions and otherwise a root with the highest count |
| Scoring.Truth | src/App.js:453 | the truth holds exactly the submissions on the winning root, in listing order |
| Scoring.TruthLength | src/App.js:445-453 | the truth is as long as its root's count |
| Scoring.EntryQuarters | src/App.js:464-474 | a row scores 4 exactly when it names its own truth position; otherwise 1 exactly when it names the truth before it, or the truth after it while a guess row follows |
| Scoring.Scorecard | src/App.js:457-474 | one row per guessed id, paired with the truth at the same position (none past its end), scored by the written rule |
| Scoring.ScoringArray | src/App.js:441-477 | for any root the source may pick, one row per guessed id, paired with the submission on that root at the same position, scored by the rule |
| Scoring.Total | src/App.js:523 | the `reduce` over the rows' points; it has no contract of its own, and TotalBound, PerfectGuess and OneAheadScores state its value |
| Scoring.TotalBound | src/App.js:523 | the score never exceeds one point per guessed position |
| Scoring.PerfectGuess | src/App.js:464-466 | a guess naming the truth in order scores one point per position |
| Scoring.NoSubmissionsScoreZero | src/App.js:447-459 | with no submissions every position scores nothing |
| Scoring.PastTheTruthScoresZero | src/App.js:457-473 | a position more than one past the truth has no submission and scores nothing |
| Scoring.NothingInCommonScoresZero | src/App.js:464-474 | a guess sharing no id with the truth scores nothing |
| Scoring.OneAheadScores | src/App.js:464-474 | a guess one step ahead of the truth scores a quarter at every position but the last |
| Scoring.ExampleTruth | src/App.js:445-453 | in the worked example every submission is on the winning root |
| Scoring.ExampleScorecard | src/App.js:441-477 | guess A, B, C against submissions A, C, B on one root scores 1, 0.25, 0.25: 1.5 in total |
| Scoring.ExampleRows | src/App.js:464-474 | the same rows scored against the truth list A, C, B directly |
| Scoring.EntryQuartersIntended | src/App.js:553-554 | the legend's rule: 4 for the right position, 1 for naming either neighbouring truth position |
| Scoring.IntendedAgreesBeforeLast | src/App.js:464-474 | the written and the intended rule agree at every position but the last |
| Scoring.LastPositionMissesRightNeighbour | src/App.js:469-470 | a last guess naming the next truth scores 0 as written and 0.25 as intended |
| Scoring.ScorecardIntended | src/App.js:457-474 | the same rows scored by the legend's rule at every position |
| Scoring.OneAheadScoresIntended | src/App.js:553-554 | under the legend's rule a guess one step ahead scores a quarter at every position |
| Scoring.ScoreIsFinalAsWritten | src/App.js:523 | the banner test as written (exactly ten valid); FinalAsWrittenMissesLargeConsensus states where it fails |
| Scoring.ScoreIsFinal | src/App.js:523 | the banner test as intended (ten or more valid); FinalIffConsensus ties it to the winning root's count |
| Scoring.FinalIffConsensus | src/App.js:523 | with flags that match the counts, the intended test (ten or more valid) holds exactly when the winning root has at least ten submissions |
| Scoring.FinalAsWrittenMissesLargeConsensus | src/App.js:523 | with eleven or more valid submissions the written test reports the score as not final |
| Persistence.FirstValue | src/App.js:107-109 | a key is absent exactly when no non-empty pair has that name; otherwise the value is that of the first pair with that name |
| Persistence.QueryGet | src/App.js:107-109 | `params.get`; it has no contract of its own, and QueryOfOne, QueryOfTwo and FullStringParams state what it reads back |
| Persistence.QueryOfOne | src/App.js:107-109 | "?k=v" reads back v for k and nothing for any other key |
| Persistence.QueryOfTwo | src/App.js:107-109 | "?k1=v1&k2=v2" reads back v1 for k1, v2 for k2 and nothing for any other key |
| Persistence.FirstValueOfTwo | src/App.js:107-109 | in two pairs with distinct names each name finds its own value and any other name finds nothing |
| Persistence.FullStringParams | src/App.js:152-155 | the saved query string reads back the joined ids as `guess`, the salt text as `salt`, and no `verify` |
| Persistence.StartPage | src/App.js:110-128 | `verify` forces the verification page; otherwise the guess length picks the ranking page, the hash page or the instructions |
| Persistence.Restore | src/App.js:106-129 | a present guess is split at commas, a present salt is kept as text, a missing salt is drawn at random, and the page follows the parameters |
| Persistence.RestoreFromParams | src/App.js:106-129 | parameters naming a guess and a salt restore exactly those, on the page the guess length selects |
| Persistence.RestoreFromFullString | src/App.js:106-129 | "?guess=ids&salt=text" restores the ids and the salt text |
| Persistence.SearchString | src/App.js:149-164 | `updateURLParams` as written; it has no contract of its own, and RestoreAfterSave and ZeroSaltIsLost state what survives a reload |
| Persistence.RestoreAfterSave | src/App.js:149-164 | reloading from the saved query string restores the guess and the salt's text, so the preimage and the hash the hash effect computes are unchanged |
| Persistence.HashAfterGuessChange | src/App.js:139-143 | a guess of exactly ten ids gets the hash of its preimage; otherwise the hash stays |
| Persistence.ZeroSaltIsLost | src/App.js:154-156 | a salt of 0 is not saved: after a reload the guess comes back but the salt is a fresh draw, so the restored state's preimage differs from the committed one |
| Persistence.RestoreAfterSaveFixed | src/App.js:149-164 | with the salt always saved, every salt, 0 included, survives a reload |
| Persistence.Preimage | src/App.js:141 | the comma-joined guess followed by the salt; it has no contract of its own, and the PreimageBinds lemmas state what it determines |
| Persistence.PreimageBindsGuess | src/App.js:141 | under one salt, different guesses have different preimages |
| Persistence.PreimageBindsSaltText | src/App.js:141 | for one guess, salts with different text have different preimages |
| Persistence.PreimageBindsBoth | src/App.js:141 | when the last id ends in a non-digit, the preimage determines both the guess and the numeric salt |
| Persistence.PreimageAmbiguousAtSaltBoundary | src/App.js:141 | without that condition, last id "m1" with salt 2 and last id "m" with salt 12 give the same preimage |

## Left out

- React state, rendering, navigation and the page counter request (`src/App.js:58-60`)
  are not modelled. Each effect is one function from the state it reads to the state it
  writes.
- The transaction-list fetch (`src/App.js:75-77`) is not modelled. The model starts
  from the list it returns.
- ABI decoding is the `decode` parameter, and SHA-256 is the `sha` parameter.
- `Date` and `Math.random` are parameters. Timestamps are compared as exact reals, with
  no floating-point rounding.
- `parseInt` of the listing's timestamps is taken to give integers already.
- The roster is taken in the order given. The sort by id on load (`src/App.js:66`) is
  not modelled.
- `URLSearchParams` percent-decoding and `+`-to-space conversion are not modelled. Ids
  and salts are taken to need no escaping.
- Submissions.NameByAddress: `toLowerCase` is modelled for ASCII letters only, which
  covers hexadecimal addresses.
- Submissions.SortByTime: the comparator never answers "equal", so the JavaScript engine
  decides the order of records with equal timestamps. The contract states only a
  permutation with non-decreasing timestamps. The model's own sort keeps listing order.
- Scoring.WinningRoot: ties between equally frequent roots are engine-dependent. The
  scorer therefore takes any root satisfying `IsWinningRoot`. `WinningRoot` is one
  such choice.
- GuessEditor.Move: requires `idx` to be a position of the list. The page only passes
  indices of rendered rows, and the source's behaviour for other indices is not
  modelled.
- Persistence.Restore: `guess.split(",")` never returns an empty list, so the source's
  `length === 0` branch is dead and is kept only for fidelity.
- Persistence.RestoreAfterSave: stated for non-empty ids free of ',' and '&'. Other ids
  need not survive the query string.
- The date formatting, address shortening and clipboard helpers are display-only and
  are not modelled.

## Findings

| source | as written | input that shows it | evidently intended | confidence | as-written member | corrected member |
|---|---|---|---|---|---|---|
| src/App.js:154-156 | `if (hashSalt)` skips the salt when it is the number 0 | ten ids with salt 0 (`Math.random()` below 0.0001), then a reload that draws salt 5 | the salt is always written, so the committed hash can be recomputed after a reload | medium, not executed | Persistence.ZeroSaltIsLost | Persistence.RestoreAfterSaveFixed |
| src/App.js:469 | the right neighbour is read from `result[i + 1]`, and the result list ends with the guess | guess ["B"] against truth ["A", "B"]: position 0 scores 0 | the legend's "off by 1 position" credits naming the truth after the last guessed position too | medium, not executed | Scoring.LastPositionMissesRightNeighbour | Scoring.OneAheadScoresIntended |
| src/App.js:523 | the score is called final only when exactly ten submissions are valid | eleven submissions on one root: eleven valid, banner says "not your final score" | final once at least ten submissions are valid | high, not executed | Scoring.FinalAsWrittenMissesLargeConsensus | Scoring.FinalIffConsensus |
