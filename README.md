# Memory game: the match-game rules, in Dafny

This project models the game logic of a browser memory-matching
(concentration) game. Players take turns turning two face-down tiles over. A
pair showing the same symbol stays face up and scores a point for the player
on turn. A pair that differs is turned back and the turn passes on. A solo
game is timed. When every tile is matched, a summary names the winner or
winners and lists the players by score.

The model has four modules:

- `Board` (`board.dfy`): board construction (`generateTiles`). A symbol is an
  int. Under the numbers theme the symbols are `0 .. k-1`. Under the icons
  theme a symbol is the position of its icon in the 32-entry icon list. This
  works because the game only compares two tiles' icons for identity, and the
  two copies of an icon are the same element. The shuffle is not modelled as
  an algorithm: a board is any reordering of the symbol list placed twice
  (`IsShuffledBoard`).
- `Game` (`game.dfy`): the game screen's state machine, as the class
  `MatchGame`. Its fields are the screen's state variables: `tiles`,
  `flippedTiles`, `matchedTiles`, `justMatchedTiles`, `turn`, `scores`,
  `moves`, `startTime`, `elapsedTime` and the game-over flag. The field
  `pending` records which deferred settle step a second pick has scheduled.
  The host calls `SelectTile` for a click, `Settle` when the timeout fires,
  and `Restart` with a freshly shuffled board. It calls `CheckWin` when the
  win-check effect would re-run: after a `SelectTile` that changed
  `matchedTiles` or `startTime`, and after `Restart`. `Settle` changes
  neither, so no check follows it. Once the game is over nothing the effect
  depends on changes until a restart (`GameOverStable`).
  Each method is proved equal to a step function on a `State` value
  (`ClickStep`, `SettleStep`, `RestartStep`, `WinCheckStep`). Each method is
  also proved to keep the invariant `Consistent`:
  - at most two distinct tiles are face up;
  - the matched list consists of consecutive pairs of distinct positions
    showing one symbol;
  - twice the total score equals the number of matched tiles;
  - the game is over only when every tile is matched.

  The lemmas about the step functions state what each kind of click does.
  This module also holds the clock display, `FormatElapsedTime`.
- `Ranking` (`ranking.dfy`): the end-of-game summary. It covers the winners
  list (a reduce, modelled as the loop `CollectWinners` and the function
  `Winners`), the order of the results list, and the heading.
- `Decimal` (`decimal.dfy`): how a template literal prints a whole number,
  with its read-back `Value`. The clock display and the heading use it.

Clock readings are milliseconds passed in as integers. The model follows
the code in three places worth naming:

- A matching pick counts its move at once (src/routes/Game/index.tsx:112). A
  mismatching pick counts it in the settle step (src/routes/Game/index.tsx:121).
- Restart keeps the turn only when every tile was matched, and resets it to 0
  otherwise (src/routes/Game/index.tsx:157-162).
- `SelectTile` requires `index < |tiles|`, because its only caller is each
  tile's own click handler (src/routes/Game/index.tsx:290).

## Model

| member | source | states |
|---|---|---|
| `Board.SymbolValues` | src/routes/Game/index.tsx:132-138 | For the sides 4 and 6, there are half as many symbols as tiles. Under the icons theme the count is capped by the 32 icons, because `slice` stops at the end of the list. Symbol `i` is `i`. |
| `Board.IsShuffledBoard` | src/routes/Game/index.tsx:139-141 | The boards the random-comparator sort can produce: any reordering of the symbol list followed by its copy. Characterised by `BoardShape`. |
| `Board.BoardShape` | src/routes/Game/index.tsx:132-142 | Whatever order the shuffle picks, a board of side 4 or 6 has `gridSize*gridSize` tiles. Each of the `gridSize*gridSize/2` symbols sits on exactly two of them, and no other value appears. |
| `Game.ClickStep` | src/routes/Game/index.tsx:95-130 | `handleTileClick` as a step on the state. A click never changes the board, the turn, the elapsed time or the game-over flag. `ClickConsistent`, `ClickIgnored`, `FirstPick`, `MatchingPick` and `MismatchingPick` characterise each case. |
| `Game.SettleStep` | src/routes/Game/index.tsx:113-122 | Either timeout continuation. Afterwards nothing is face up or just matched and nothing is pending. Board, matched list, scores, clock and game-over flag are kept. `MatchingPick` and `MismatchingPick` give the turn and move effects. |
| `Game.RestartStep` | src/routes/Game/index.tsx:145-168 | `restartGame` as a step. The new board goes in, all lists are empty, and moves and both clock values are 0. The game is not over and nothing is pending. The turn is 0 unless every tile was matched. `RestartConsistent` adds the scores and the invariant. |
| `Game.WinCheckStep` | src/routes/Game/index.tsx:184-197 | The win-check effect as a step. The game is over afterwards exactly when it was already over or every tile is matched. Only the game-over flag and the elapsed time can change. `WinCheckConsistent` gives the solo time. |
| `Game.GameOverStable` | src/routes/Game/index.tsx:184-197 | Once the game is over a click changes nothing. A pending settle keeps the matched list and the start time. So the effect's dependencies do not change again before a restart. |
| `Game.FormatElapsedTime` | src/routes/Game/index.tsx:225-229 | `formatElapsedTime`. Characterised by `FormatElapsedTimeRoundTrip`. |
| `Game.ElapsedSeconds` | src/routes/Game/index.tsx:187-188 | The result is the whole seconds between two millisecond readings, rounded down: `1000*r <= end-start < 1000*(r+1)`. |
| `Game.JsRemainder60` | src/routes/Game/index.tsx:227 | JavaScript's `%`: the result differs from the input by a multiple of 60 and takes the input's sign, so it lies in `[0,60)` for a non-negative input. |
| `Game.FormatElapsedTimeRoundTrip` | src/routes/Game/index.tsx:225-229 | For `t >= 0` the display reads `m:ss`. The part before the colon has no leading zero and reads back as `t/60`. The seconds are exactly two digits (zero-padded), read back as `t%60 < 60`. Reading both back gives `60*m + ss == t`. |
| `Game.FullBoardLocks` | src/routes/Game/index.tsx:97 | Once every tile is matched, no tile can be selected: every position is in the matched list. |
| `Game.InitialConsistent` | src/routes/Game/index.tsx:44-55 | The screen as first shown is consistent: nothing face up or matched, one zero score per player, turn 0. |
| `Game.ClickConsistent` | src/routes/Game/index.tsx:95-130 | A click keeps the invariant. The flip list holds at most two distinct positions. The matched list stays made of equal-symbol pairs. Twice the total score equals the matched count. The matched list only grows, by appending. |
| `Game.MatchConsistent` | src/routes/Game/index.tsx:100-116 | A second pick showing the first pick's symbol keeps the invariant. The pair appended to the matched list is two distinct, unmatched positions with one symbol. The one point scored keeps twice the total score equal to the matched count. |
| `Game.ClickIgnored` | src/routes/Game/index.tsx:96-99 | A click on a face-up or matched tile changes nothing. So does a click while two tiles are face up, or a click once every tile is matched. |
| `Game.FirstPick` | src/routes/Game/index.tsx:95-130 | An accepted first pick turns exactly that tile face up. It records the clock reading as the start time only if none was recorded. Nothing else changes. |
| `Game.MatchingPick` | src/routes/Game/index.tsx:103-116 | A second pick with an equal symbol appends both positions to the matched list and marks them just matched. The player on turn gains one point and no other score changes. Moves go up by one and the turn stays. The settle step that follows clears the flipped and just-matched lists and keeps scores, matched list, turn and moves. |
| `Game.MismatchingPick` | src/routes/Game/index.tsx:117-123 | A second pick with a different symbol changes no score, matched list, move count or turn at once. The settle step that follows empties the flip list, sets the turn to `(turn+1) % numberOfPlayers` and adds one move. |
| `Game.SettleConsistent` | src/routes/Game/index.tsx:113-122 | Either settle step keeps the invariant. It empties the flip list and leaves the board, matched list, scores and clock alone. |
| `Game.RestartConsistent` | src/routes/Game/index.tsx:145-168 | Restart empties the flipped, matched and just-matched lists. It makes every score 0, one per player, and sets moves, start time and elapsed time to 0. The game is no longer over. The turn is kept if every tile was matched and is 0 otherwise. |
| `Game.WinCheckConsistent` | src/routes/Game/index.tsx:184-197 | The game is over exactly when the matched count equals `gridSize*gridSize`, never earlier. In a solo game the elapsed time is then frozen at the floor of `(now-start)/1000` seconds. Nothing else changes. |
| `Game.StartTimeKept` | src/routes/Game/index.tsx:126-129 | A recorded start time is not overwritten by a click, a settle step or the win check. |
| `Game.MatchGame.constructor` | src/routes/Game/index.tsx:44-57 | The new screen holds the shuffled board and the initial state, and is consistent. |
| `Game.MatchGame.SelectTile` | src/routes/Game/index.tsx:95-130 | `handleTileClick`: the new state is `ClickStep` of the old one, and the invariant is kept. |
| `Game.MatchGame.TurnUp` | src/routes/Game/index.tsx:100-129 | The accepted tile is appended to the flip list. The start time is set to the clock reading only if none was recorded. Nothing else changes. |
| `Game.MatchGame.RecordMatch` | src/routes/Game/index.tsx:103-111 | Both positions are appended to the matched list and become the just-matched pair. The player on turn gains a point, the move count goes up by one, and the match settle step is scheduled. Nothing else changes. |
| `Game.MatchGame.Settle` | src/routes/Game/index.tsx:113-122 | The scheduled continuation: the new state is `SettleStep` of the old one, and the invariant is kept. |
| `Game.MatchGame.Restart` | src/routes/Game/index.tsx:145-168 | `restartGame` with any shuffle of the symbol pairs: the new state is `RestartStep` of the old one, and the invariant is kept. |
| `Game.MatchGame.ClearBoard` | src/routes/Game/index.tsx:145-149 | The new board replaces the old one. The flipped, matched and just-matched lists become empty and no settle step is pending. Scores, moves, turn and clock are untouched. |
| `Game.MatchGame.ResetCounters` | src/routes/Game/index.tsx:150-154 | Every score becomes 0, one per player. Moves, start time and elapsed time become 0 and the game is not over. Board, lists and turn are untouched. |
| `Game.MatchGame.CheckWin` | src/routes/Game/index.tsx:184-197 | The win-check effect: the new state is `WinCheckStep` of the old one, and the invariant is kept. |
| `Ranking.WinnersAmong` | src/components/GameOverModal/index.tsx:20-25 | The reduce over the first `n` players, pushing `index + 1` for each top score. Characterised by `WinnersAmongExactly`. |
| `Ranking.Winners` | src/components/GameOverModal/index.tsx:20-25 | The winners list. Characterised by `WinnersExactly` and `WinnersNonEmpty`, and computed by the loop `CollectWinners`. |
| `Ranking.Compare` | src/components/GameOverModal/index.tsx:31-44 | The sort comparator. `CompareConsistent` proves it antisymmetric and transitive. `RowPair` proves what it ranks by: a winner before a non-winner, then the higher score. |
| `Ranking.SortPlayers` | src/components/GameOverModal/index.tsx:31-45 | A stable insertion sort with the comparator. Characterised by `SortPlayersCorrect`. |
| `Ranking.SortedPlayers` | src/components/GameOverModal/index.tsx:27-45 | `sortedPlayers`. Characterised by `SortedPlayersOrder` and `SortedPlayersUnique`. |
| `Ranking.Heading` | src/components/GameOverModal/index.tsx:54-58 | The heading text. Characterised by `HeadingChoice`. |
| `Decimal.IntToString` | src/routes/Game/index.tsx:228 | How a template literal prints an integer: the text reads back as the number: digits for a non-negative number, a minus sign then digits for a negative one, with no leading zero in either case (zero prints as `0`). The same printing gives "Player ${k} wins!" at src/components/GameOverModal/index.tsx:57. |
| `Ranking.MaxScore` | src/components/GameOverModal/index.tsx:21 | `Math.max` over a non-empty list: the result is one of the scores and no score exceeds it. |
| `Ranking.WinnersExactly` | src/components/GameOverModal/index.tsx:20-25 | `k` is in the winners list exactly when player `k`'s score equals the highest score. The list is strictly ascending. |
| `Ranking.WinnersNonEmpty` | src/components/GameOverModal/index.tsx:20-25 | For a non-empty score list there is a winner, and every winner's score is at least every player's score. |
| `Ranking.WinnersExamples` | src/components/GameOverModal/index.tsx:20-25 | Scores `[3,3,1]` give winners `[1,2]`; `[2,5,1,5]` give `[2,4]`; `[4]` gives `[1]`. |
| `Ranking.CollectWinners` | src/components/GameOverModal/index.tsx:20-25 | The reduce that pushes `index + 1` for each top score returns the winners list. |
| `Ranking.Players` | src/components/GameOverModal/index.tsx:27-30 | Row `i` is player `i+1` with `scores[i]`. |
| `Ranking.CompareConsistent` | src/components/GameOverModal/index.tsx:31-45 | The comparator is antisymmetric and transitive, so sorting with it is well defined. |
| `Ranking.SortPlayersCorrect` | src/components/GameOverModal/index.tsx:31-45 | The stable sort returns a permutation of its input. The result is ordered by the comparator, and rows the comparator ties keep their original order. |
| `Ranking.SortedPlayersOrder` | src/components/GameOverModal/index.tsx:27-45 | `sortedPlayers` is a permutation of the `(index+1, score)` rows. Every winner comes before every non-winner. Scores never increase down the list. Equal scores appear in ascending player number. |
| `Ranking.OrderedRows` | src/components/GameOverModal/index.tsx:27-45 | Take any reordering of the players' rows that the comparator sorts stably. In it, winners come first, scores never increase, and equal scores keep ascending player number. |
| `Ranking.SortedPlayersUnique` | src/components/GameOverModal/index.tsx:31-45 | Any list with the properties of `SortedPlayersOrder` equals `sortedPlayers`. So every stable sort with this comparator gives the same list. |
| `Ranking.HeadingChoice` | src/components/GameOverModal/index.tsx:54-58 | A solo game reads "You did it!". Otherwise the heading is "Player k wins!" exactly when `k` alone has the highest score. It is "It's a tie!" exactly when two players share the highest score. |

## Left out

- Rendering, styling, the window-resize listener, the menu modal, toggling
  classes on `document.body`, routing, the setup form and the settings
  context are presentation or plumbing. They are not part of this model.
- The random shuffle (`sort` with a `Math.random` comparator) is not
  modelled as an algorithm. Any reordering of the paired symbol list is
  accepted as a board.
- Real timers: each `setTimeout` continuation is an explicit `Settle` call.
  The one-second `setInterval` clock tick (with its `elapsedTime < gridSize*gridSize`
  guard) is not modelled. `Restart` drops any pending settle step. The source
  never cancels that timeout, so it could still fire after a restart; that
  race is timing and is not modelled.
- Clock readings and the game-over flag: `new Date().getTime()` becomes the
  `now` parameter. The flag models `showGameOverModal`. The win-check effect
  runs when the host calls `CheckWin`, not automatically on every change.
- React's batching of state updates is not modelled. Each handler's updates
  are applied as one step, which matches what the next render sees.
- The results list is sorted in place by the JavaScript engine's own
  algorithm. `SortedPlayers` models it as a value computed by a stable
  insertion sort. `SortedPlayersUnique` shows that any stable sort gives the
  same list.
- Configuration outside one to four players and a 4x4 or 6x6 board is not
  modelled. The setup form offers only those choices.
