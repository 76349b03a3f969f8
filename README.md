# Batalha Naval — a verified model of the battle engine

This project models the core of a browser Battleship game ("Batalha Naval") in Dafny and proves properties of the model. The model has three parts:

- **Ships and boards** (`fleet.dfy`, module `Fleet`). This is the `Ship` and `Board` classes of script-core.js:34-211; script.js:36-213 holds an identical copy. It covers:
  - ship footprints;
  - placement validation, placement and removal;
  - attack resolution into shots, hits and misses;
  - the fleet-sunk test;
  - random fleet placement with at most 100 attempts per ship.
- **The classic battle** (`classic.dfy`, module `Classic`). This is script.js. It covers:
  - placing the selected ship by hand and moving the selection on (`placeShipAtPosition`, `allShipsPlaced`);
  - the player's attack and the enemy's random attack. A hit keeps the turn and a miss passes it;
  - the battle's shot and hit counters;
  - game-over detection;
  - the lifetime statistics with their history capped at 50, newest first;
  - the remaining-health sum and the battle clock.
- **The SOS rescue minigame** (`sos.dfy`, module `Sos`). This is the `SOSMode` object of script-sos.js. It covers:
  - hiding N distinct survivors on the 10×10 sea;
  - at most one resolved attempt per cell;
  - the saved counter and the win check;
  - the countdown, which ends the game at zero;
  - the `m:ss` clock with its warning below 15 seconds.
- **Clock text** (`text.dfy`, module `Text`). It holds `String(n)`, `padStart(2, '0')` and the two clock formats. `ParseClock` reads a clock string back, and each format is proved to round-trip through it.

## How the model is built

- **Objects with state are Dafny classes.**
  - `Ship` and `Board` are classes. `Board` keeps its grid in an `array2<Cell>` and its `shots`/`hits`/`misses` sets as fields.
  - The module-level variables of script.js are the fields of `Setup` (the placement screen) and `Battle` (one battle). Examples are `shipsToPlace`, `currentShipIndex`, `isPlayerTurn`, `battleStats` and `gameStats`.
  - `SOSMode` is the class `SosMode`.
- **Shot keys are coordinates.** A shot key `` `${row},${col}` `` is the coordinate `Pos(row, col)`. The key is injective, so nothing is lost.
- **Randomness is an injected oracle.** `Math.random` is a function `draw: nat -> …` read from a cursor. A rejection loop has a precondition saying that the oracle eventually yields what the loop waits for. Without that, the source loop never ends.
- **Each timer callback is one atomic step.**
  - The classic clock's interval is `Battle.Tick`.
  - The rescue countdown is `SosMode.Tick`.
  - The enemy's `setTimeout(enemyTurn, 1000)` is the `EnemyTurn` step. It can run exactly when `!isPlayerTurn`.
  - The 350 ms rescue callback is `SosMode.ResolveRescue`. `HandleRescueAttempt` schedules it and records it in `pending`.
- **`window.GameStats` is a flag.** The rescue callback counts into `window.GameStats` only when that object exists. The class constant `statsLinked` says whether it does.
  - script-core.js:225 declares `GameStats` with a top-level `const`. In a browser such a declaration does not become a `window` property, so with the files as they stand the flag is false.
  - Both values of the flag are modelled.
- **Rescue-cell marks.** The DOM classes of a rescue cell become `CellMark`:
  - `Water` for a cell not yet searched;
  - `Missed` for `'miss'`;
  - `Rescued` for `'rescued'`.
  The guard also tests `'hit'`, but nothing on the rescue board ever sets that class.

## Model

Helper methods and predicates that carry one piece of a row's proof have no row of their own:
- Fleet.Board.AttachShip and SetCells belong to PlaceShip.
- Fleet.Board.ClearCells belongs to RemoveShip.
- Fleet.Board.RecordHit, MarkHit, CreditHit and RecordMiss belong to ReceiveAttack.
- Fleet.Board.ShotRecorded is the predicate that ReceiveAttack, ReceiveFreshAttack and the battle's shot methods use to state what a fresh shot does to a board. The struck ship gains the hit and its cell is flagged hit. On water, the cell is flagged miss and the shot joins `misses`. Every other cell and every other ship's hits stay as they were.
- Fleet.Board.ClearPlacement, PlaceNextKind, KindsPlaced, PlaceKindStep and KindSoFar belong to PlaceKind and PlaceShipsRandomly.
- Classic.Setup.PlaceSelected belongs to PlaceShipAtPosition.

| member | source | states |
|---|---|---|
| Text.NatToString | script.js:952 | `String(n)` is decimal digits with no leading zero. It has one digit exactly when n < 10 and two exactly when 10 ≤ n < 100. |
| Text.ParseNatToString | script.js:950-953 | Reading `String(n)` back as a decimal number gives n. |
| Text.PadStart2 | script.js:952 | `padStart(2, '0')`: the result is at least two characters long, ends with the input, and has only zeros in front of it. |
| Text.PadStart2Value | script.js:952 | Zero-padding keeps a digit string a digit string with the same value. |
| Text.ParseClock | script.js:950-953 | A clock string reads back only with a colon and a two-digit seconds field below 60. The minutes field is then the whole minutes, `floor(s/60)`, and the seconds field the rest, `s % 60`. |
| Text.ElapsedClock | script.js:950-953 | The classic clock `mm:ss` is five characters while under 100 minutes. |
| Text.ElapsedClockRoundTrip | script.js:950-953 | The classic clock reads back as the elapsed seconds: `floor(s/60)` minutes and `s % 60` seconds, each zero-padded to two digits. |
| Text.CountdownClock | script-sos.js:229-232 | The rescue clock `m:ss` is four characters below 10 minutes. |
| Text.CountdownClockRoundTrip | script-sos.js:229-232 | The rescue clock reads back as the seconds left: unpadded minutes and seconds with a '0' in front when below 10. |
| Fleet.Ship.constructor | script-core.js:35-42 | A new ship has no positions, no hits and is horizontal. |
| Fleet.Ship.IsSunk | script-core.js:48-50 | `isSunk` is "as many hits as cells". What that means on a board, every cell of the ship hit, is proved in Fleet.Board.SunkIffAllCellsHit. |
| Fleet.Ship.Rotate | script-core.js:44-46 | `rotate` toggles `isVertical`, so two rotations restore it. |
| Fleet.Ship.Hit | script-core.js:52-55 | `hit` adds the cell to the ship's hit set, so a repeated cell changes nothing, and returns `isSunk`, i.e. whether the ship has as many hits as cells. |
| Fleet.Ship.GetPositions | script-core.js:57-67 | `getPositions` returns exactly `size` cells. A horizontal ship takes columns `startCol…startCol+size-1` of one row; a vertical ship takes rows `startRow…` of one column. |
| Fleet.FootprintDistinct | script-core.js:57-67 | No two cells of a footprint coincide. |
| Fleet.FootprintOnBoard | script-core.js:102-115 | A footprint lies on the board exactly when its first and last cells do. |
| Fleet.Expand | script-core.js:188-189 | Each entry of the expanded fleet is a kind from the spec list. |
| Fleet.ExpandSingles | script-core.js:188-189 | With every `count` equal to 1, the expanded fleet is the spec list itself. |
| Fleet.StandardFleetExpands | script.js:9-15 | `CONFIG.SHIPS` expands to its own five kinds. |
| Fleet.StandardFleetCells | script.js:9-15 | `CONFIG.SHIPS` describes five ships of 17 cells in all. |
| Fleet.Board.constructor | script-core.js:72-79 | A new board is consistent: every cell is empty water, and there are no ships, shots, hits or misses. |
| Fleet.Board.CreateGrid | script-core.js:81-96 | `createGrid` builds a size×size grid of empty cells. |
| Fleet.Board.ValidPositionIsCell | script-core.js:98-100 | `isValidPosition` holds exactly when the coordinate is one of the board's size×size cells. |
| Fleet.Board.CanPlaceShip | script-core.js:102-115 | `canPlaceShip` is true exactly when every footprint cell is on the board and holds no ship. |
| Fleet.Board.PlaceShip | script-core.js:117-131 | `placeShip` succeeds exactly when the ship fits. If it does not fit, it returns false and changes nothing. If it fits, the ship takes its footprint, exactly those cells point at it, it joins the end of `ships`, and the board stays consistent. |
| Fleet.Without | script-core.js:139 | `ships.filter(s => s !== ship)` keeps every other ship and no copy of `ship`, and keeps the list duplicate-free. |
| Fleet.Board.RemoveShip | script-core.js:133-141 | The ship's on-board cells are emptied and the ship leaves `ships`. Its positions become empty and every other cell is unchanged. |
| Fleet.Board.ReceiveAttack | script-core.js:143-173 | A repeated coordinate returns `already-shot` and changes nothing. A fresh coordinate is added to `shots`. On a ship's cell, the cell is flagged hit, the coordinate joins `hits` and that ship's hit set, and the result is a hit with the ship's sunk status. On water, the cell is flagged miss and the coordinate joins `misses`. No other cell and no other ship's hits change, and the board stays consistent. |
| Fleet.Board.ReceiveFreshAttack | script-core.js:150-172 | `receiveAttack` at a cell not yet shot records the shot as above. It is a hit exactly when a ship was there, never `already-shot`, and it adds one to the shot count and one to the hit count exactly on a hit. |
| Fleet.Board.ShotCounted | script-core.js:150-166 | A recorded fresh shot adds exactly one to `shots`, and one to `hits` exactly when a ship was on the cell. |
| Fleet.Board.AllShipsSunk | script-core.js:175-177 | `allShipsSunk` holds vacuously for an empty fleet. |
| Fleet.Board.AllSunkIffAllShipCellsHit | script-core.js:175-177 | The fleet is sunk exactly when every cell of every ship has been hit. |
| Fleet.Board.AllSunkOccupiedCellsShot | script-core.js:175-177 | Once the fleet is sunk, every cell holding a ship is among the board's hits. |
| Fleet.Board.SunkIffAllCellsHit | script-core.js:48-50 | `isSunk` (as many hits as cells) holds exactly when every cell of the ship has been hit. |
| Fleet.Board.HitsWithinSize | script-core.js:52-55 | A ship's hits are among its own cells, so it never has more hits than cells. |
| Fleet.Board.NoOverlap | script-core.js:117-131 | No cell belongs to two ships of the board. |
| Fleet.Board.GetCell | script-core.js:179-182 | `getCell` returns the cell exactly for on-board coordinates and null otherwise. |
| Fleet.Board.ShotsAreHitsPlusMisses | script.js:145-175 | Every shot is exactly one of a hit or a miss, so the counts add up. |
| Fleet.Board.FullBoardAllShot | script.js:145-175 | A board has at most size² shots, and every cell has been shot exactly when there are size² of them. |
| Fleet.Board.UnshotCellExists | script.js:868-872 | With fewer than size² shots, some cell on the board is unshot. |
| Fleet.Board.CanPlaceFits | script-core.js:102-115 | `canPlaceShip`'s test holds exactly when every footprint cell is on the board and outside the cells that hold a ship. |
| Fleet.Board.TryAttempt | script-core.js:194-202 | One pass of the retry loop: the ship takes the drawn orientation and is placed exactly when the drawn footprint fits. Otherwise the grid and `ships` are unchanged. On success it lies on that footprint and exactly its cells become occupied. |
| Fleet.Board.PlaceWithRetries | script-core.js:191-203 | The retry loop for one ship makes at most 100 attempts and stops at the first that fits. A placed ship lies on the footprint of the draw it stopped at, that draw fits, and no earlier draw of its window fits. An unplaced ship used all 100 draws, none of which fits, and the grid and `ships` are as they were. |
| Fleet.Board.PlaceNew | script-core.js:190-207 | One new ship of the kind goes through its retries. A placed ship is appended and lies on the footprint of its last draw. A missing ship means that its 100 draws fit nowhere on the resulting board. Occupied cells only grow, and earlier ships keep their positions. |
| Fleet.Board.PlaceKind | script-core.js:189-208 | `count` new unhit ships of one kind. Each is placed or reported missing, and the ships already on the board are kept in front. Every placed ship lies on the footprint of a draw in this kind's window. A missing ship implies 100 consecutive draws that fit nowhere on the final board. |
| Fleet.Board.PlaceShipsRandomly | script-core.js:184-210 | `ships` and the grid are reset, so no cell of the new grid carries a hit or miss mark. `shots`/`hits`/`misses` are kept as they were. Every ship of the expanded list is placed or reported missing. With none missing, the placed ships follow the list in order. Draws are bounded by 100 per ship. Every placed ship lies on the footprint of one of the draws. A ship is missing only if some 100 consecutive draws fit nowhere on the final board for a kind from the list. |
| Classic.Truncate | script.js:986-989 | The history is cut to its first 50 entries. |
| Classic.RecordGame | script.js:963-990 | `endGame`'s bookkeeping: `totalGames` +1, exactly one of `wins`/`losses` +1, the battle's shots and hits added to the totals, and the record put in front of a history of at most 50. |
| Classic.RecordGameConsistent | script.js:963-990 | Wins plus losses equal games, total hits do not exceed total shots, and the history is bounded. `endGame` preserves all three. |
| Classic.RecordAllHistory | script.js:986-989 | After any series of games the history is the newest records, newest first, then the older history as far as 50 allows. |
| Classic.TruncateAppend | script.js:986-989 | Cutting the old history before prepending does not change the newest 50. |
| Classic.RecordAllConsistent | script.js:963-990 | Any series of `endGame`s whose hits do not exceed their shots keeps wins plus losses equal to games, hits within shots and the history bounded. |
| Classic.Setup.constructor | script.js:571-586 | `startSetup`: an empty board with no ships, shots, hits or misses, one fresh unplaced ship per expanded `CONFIG.SHIPS` entry, the first one selected, horizontal. |
| Classic.Setup.NewShips | script.js:578-583 | One fresh, unplaced, unhit ship per entry of the expanded spec list, in order. |
| Classic.Setup.Rotate | script.js:716-719 | The rotate button toggles the orientation of the next placement. |
| Classic.Setup.PlaceShipAtPosition | script.js:691-713 | Nothing changes unless the selected ship exists and is unplaced. That ship takes the current orientation even when it does not fit. A placement succeeds exactly when the footprint fits. No other ship's orientation or positions change in any case. On success exactly the footprint cells of the grid point at the ship, and the selection moves to the next unplaced ship after it, or to 0 past the end. On failure the board is unchanged. |
| Classic.Setup.AdvanceSelection | script.js:702-709 | The do-while loop stops at the first unplaced ship after the old index, or wraps to 0. |
| Classic.Setup.AllShipsPlaced | script.js:748-750 | `allShipsPlaced` is "every listed ship has positions". Classic.Setup.AllPlacedIffBoardFull proves it equivalent to the board holding the whole list. |
| Classic.Setup.AllPlacedIffBoardFull | script.js:748-750 | `allShipsPlaced` holds exactly when the board holds every ship of the list. |
| Classic.Setup.Clear | script.js:729-738 | The clear button: a new empty board with no ships, shots, hits or misses, every listed ship unplaced and unhit with its orientation kept, the first one selected. |
| Classic.Setup.ResetShips | script.js:731-734 | Every ship of the list loses its positions and hits. |
| Classic.Health | script.js:909-910 | The health bar's `reduce`: the sum over the fleet of size minus hits. Classic.HealthZeroIffAllSunk, Classic.BoardHealth and Classic.HealthUnhit state what it means. |
| Classic.HealthZeroIffAllSunk | script.js:909-910 | The health sum is never negative, and it is 0 exactly when every ship is sunk. |
| Classic.BoardHealth | script.js:909-910 | On a consistent board the health is 0 exactly when `allShipsSunk` holds. |
| Classic.HealthUnhit | script.js:909-910 | An unhit fleet has the total length of its kinds as health. |
| Classic.RandomPlacementShown | script-core.js:184-210 | `placeShipsRandomly`'s guarantees add up to `PlacedAtRandom`. At most 100 draws per listed ship are used. Every ship is of a listed kind and lies on the footprint of one of those draws. A full fleet follows the list with its total length as health. A short fleet had 100 of those draws in a row that fit nowhere. |
| Classic.Battle.NewEnemyBoard | script.js:769-770 | A fresh, consistent enemy board with no shots, hits or misses and no marked cell. Its fleet is `PlacedAtRandom` from the given list with the draws it used. |
| Classic.Battle.constructor | script.js:761-785 | `startBattle`: the setup board becomes the player's board. A fresh enemy board with no shots, hits or misses gets `CONFIG.SHIPS` at random, with at most 500 draws: each ship is of a listed kind and on a drawn footprint. All five are in list order with 17 health when none is missing, and a short fleet means 100 draws in a row that fit nowhere. Counters and clock are 0, the clock runs, and the player moves first. |
| Classic.Battle.PlayerAttack | script.js:840-863 | Ignored out of turn or on a repeated cell: then the counters, turn, clock and statistics, and the enemy board's shots, hits, misses, grid and ships' hits, are all unchanged. Otherwise the enemy board records the shot as `receiveAttack` does: a ship's cell is flagged hit and credited to that ship, water is flagged miss, and nothing else on the board changes. Then `shots` +1; on a hit `hits` +1 and the player keeps the turn; on a miss the turn passes; the game is won once the enemy fleet is sunk. |
| Classic.Battle.PlayerShot | script.js:843-863 | In turn, the enemy board receives the shot. `already-shot` is returned exactly for a repeated cell. Then nothing changes: not the counters, turn, clock or statistics, nor the enemy board's shots, hits, misses, grid or ships' hits. A fresh shot is recorded on the enemy board and scored as in PlayerAttack. |
| Classic.Battle.FreshShot | script.js:843-863 | A shot at a cell not yet shot: the enemy board records it as `receiveAttack` does, `shots` +1, `hits` +1 and the turn kept exactly when a ship was there, and the game is won once the enemy fleet is sunk. |
| Classic.Battle.ShootEnemy | script.js:843 | The enemy board receives the shot and records it. The result is a hit exactly when a ship was there, and the board's counts run one shot (and one hit on a hit) ahead of the battle's. |
| Classic.Battle.ScoreShot | script.js:846-863 | After a fresh shot: the counters grow, the turn passes on a miss, and the game ends as a win once the enemy fleet is sunk. |
| Classic.Battle.Tally | script.js:846-855 | `shots` +1; `hits` +1 only on a hit; the turn passes on a miss. The counters keep matching the enemy board. |
| Classic.Battle.EndIfSunk | script.js:861-863 | The game ends exactly when the given fleet is sunk, and is recorded with the given outcome. |
| Classic.Battle.EndGame | script.js:963-993 | The clock stops and the lifetime statistics record the battle. |
| Classic.Battle.EnemyTurn | script.js:866-892 | The enemy fires at the first drawn cell not already shot. The player's board records that shot as `receiveAttack` does: a ship's cell is flagged hit and credited to that ship, water is flagged miss, and nothing else on the board changes. The turn returns to the player exactly on a miss. The game is lost once the player's fleet is sunk. |
| Classic.Battle.PickTarget | script.js:868-872 | The rejection loop returns the first draw not among the shots, and every earlier draw was among them. |
| Classic.Battle.EnemyShot | script.js:874-891 | The player's board records the target as `receiveAttack` does: a ship's cell is flagged hit and credited to that ship, water is flagged miss, and nothing else on the board changes. The turn comes back exactly on a miss, and the game is lost once the player's fleet is sunk. |
| Classic.Battle.ShootPlayer | script.js:874 | The player's board receives the shot and records it. `hit` is true exactly when a ship was there. |
| Classic.Battle.AnswerShot | script.js:876-891 | The turn comes back exactly on a miss, and the game is lost once the player's fleet is sunk. |
| Classic.Battle.Tick | script.js:936-953 | While the clock runs, it advances by one second and `updateTimerDisplay` shows the `mm:ss` text, which reads back as the elapsed seconds (five characters under 100 minutes). A stopped clock shows nothing and does not advance. |
| Classic.Battle.HitsAtMostShots | script.js:846-848 | The player's hits never exceed the player's shots. |
| Classic.Battle.EnemyNeedsRoom | script.js:868-872 | The enemy's rejection loop can end only while the player's board has fewer than 100 shots. |
| Sos.DrawnCells | script-sos.js:167-171 | n draws hide at most n distinct survivors. |
| Sos.WaterBoard | script-sos.js:152-165 | The rendered rescue board has exactly the grid's cells, all water. |
| Sos.DrawnOnGrid | script-sos.js:167-171 | Draws of `Math.floor(Math.random() * 10)` name grid cells only. |
| Sos.SetupNeedsRoom | script-sos.js:167-171 | The loop of `setupBoard` can end only if `targetCount` ≤ 100. |
| Sos.SetupHasRoom | script-sos.js:167-171 | With `targetCount` ≤ 100 the loop can end: an oracle that sweeps the grid draws all 100 cells. |
| Sos.MissionsPlayable | script-sos.js:18-22 | Each of the three missions has time on the clock and room on the grid for its survivors. |
| Sos.TimerDisplay | script-sos.js:225-241 | `updateTimerDisplay` shows `m:ss`, which reads back as the seconds left. The warning class is on exactly below 15 seconds. |
| Sos.SosMode.constructor | script-sos.js:5-16 | The object as loaded: inactive, with no mission, counters at 0, no attempt in progress and no board. |
| Sos.SosMode.PrepareMission | script-sos.js:49-73 | `isActive` becomes true, `savedCount` 0, `targetCount` the mission's survivors and `timeLeft` its time limit. The local shot and hit counters are 0. The board is all water with exactly `targetCount` distinct survivors hidden on it, and `GameStats.shots`/`.hits` are zeroed when present. |
| Sos.SosMode.ResetMission | script-sos.js:49-59 | The field resets of `prepareMission`. |
| Sos.SosMode.ResetStats | script-sos.js:133-136 | `startBattle` zeroes `GameStats.shots` and `.hits` only when `window.GameStats` exists. |
| Sos.SosMode.SetupBoard | script-sos.js:152-171 | An all-water board, then exactly `targetCount` distinct in-grid survivors. These are the cells of the draws up to the first moment that many are distinct. |
| Sos.SosMode.HideSurvivors | script-sos.js:167-171 | The `while` loop stops at the first prefix of draws that names `targetCount` distinct cells, and hides exactly those cells. |
| Sos.SosMode.HandleRescueAttempt | script-sos.js:174-179 | The click is ignored when the game is over, another attempt is pending, or the cell is already searched. Otherwise clicks are blocked and the resolution is scheduled, with the survivor test taken at click time. |
| Sos.SosMode.ResolveRescue | script-sos.js:181-212 | The cell becomes rescued or missed. `savedCount` +1 only on a survivor. `GameStats.shots` +1, and `.hits` +1 only on a survivor, when present. The game ends as a win once every survivor is saved, and clicks are allowed again. The invariant, which holds hits ≤ shots, is kept. |
| Sos.SosMode.Settle | script-sos.js:181-211 | The callback's bookkeeping without the win check. |
| Sos.SosMode.Mark | script-sos.js:181-188 | The cell takes its mark and a rescue is counted. The rescued cells stay exactly the saved survivors. |
| Sos.SosMode.Tick | script-sos.js:215-223 | Does nothing while inactive. Otherwise `timeLeft` −1 and the new time is shown; the game ends as a loss at 0. |
| Sos.SosMode.CheckWinCondition | script-sos.js:253-255 | The game ends as a win exactly when `savedCount` ≥ `targetCount`; otherwise nothing changes. |
| Sos.SosMode.EndGame | script-sos.js:257-259 | `isActive` becomes false, which freezes further ticks and clicks, and the result shows win or loss. |
| Sos.SosMode.SavedAtMostTarget | script-sos.js:179-186 | `savedCount` never exceeds `targetCount`. |
| Sos.SosMode.WinRescuesAll | script-sos.js:253-255 | When `savedCount` reaches `targetCount`, every hidden survivor is shown as rescued. |

## Left out

- All rendering and event wiring is left out, because it is presentation. This covers:
  - screens, messages, sounds, themes, the splash screen and modals;
  - the HUD's `saved / target` text and progress bar;
  - the result texts and the ships' emoji;
  - `renderMissionSelection`, `start` and the dead `uupdateStatsUI`.
- `localStorage` persistence (`saveStats`, `loadStats`) is left out, because it is I/O.
- `Math.random` is an injected oracle. The model says nothing about the distribution of draws.
- `setTimeout`/`setInterval` callbacks are atomic steps. Interleavings inside a callback, and the cancellation or timing of callbacks, are not modelled.
- Floating-point values are left out: the accuracy and precision percentages, the health-bar widths, and the `Date` timestamps of `battleStats` and of a game record. A `GameRecord` therefore has no date or accuracy.
- Integers are unbounded. JavaScript numbers are doubles, but no counter here comes near 2^53.
- The first `handleRescueAttempt` (script-sos.js:98-124) is left out. The second definition, at line 174, replaces it in the object literal.
- The random-placement button of the setup screen (script.js:721-727) is left out. It places the setup board's fleet at random, then marks every listed ship as placed with a dummy position without putting it on the board, which breaks the correspondence `Setup.Valid` keeps.
- Game over is not claimed to be recorded once. A winning enemy hit schedules another `enemyTurn` before `endGame(false)` runs (script.js:879, 889-891). Each such step that finds the fleet sunk records another loss. In the rescue game, a callback that resolves after the countdown ended the game can still call `endGame(true)`.
- A callback still pending when `prepareMission` restarts the game is dropped by the model. In the source it would still run 350 ms later against the new game.
- Fleet.Board.PlaceShip requires a ship that is not on the board and has no hits. The source would push such a ship a second time. Its two callers only pass new or unplaced ships.
- Fleet.Board.RemoveShip requires a ship that is on the board or has no positions. For any other ship, the source would empty cells that another ship occupies. The source never calls `removeShip`.
- Fleet.Board.ReceiveAttack requires an on-board coordinate. The source throws a TypeError for a row or column off the grid, and its callers only pass grid cells.
- Fleet.Board.AllShipsSunk states only the empty-fleet case in its own contract. Its meaning, every cell of every ship hit, is proved in Fleet.Board.AllSunkIffAllShipCellsHit.
- Classic.Battle.EnemyTurn requires that some future draw names an unshot cell. Otherwise the source's do-while never ends. Classic.Battle.EnemyNeedsRoom shows this needs fewer than 100 shots. The source can reach that state: if the enemy's 100th shot on the player's board hits the last ship cell, `enemyTurn` schedules itself again (script.js:877-879) before `endGame(false)`. That next turn's loop (script.js:868-872) has no unshot cell to find and never ends.
- Sos.SosMode.PrepareMission requires a time limit of at least one second, which all three missions have. It also requires an oracle that eventually names `targets` distinct cells; otherwise `setupBoard` never ends (Sos.SetupNeedsRoom, Sos.SetupHasRoom).
- Sos.SosMode.HandleRescueAttempt requires the clicked cell to be on the rendered board. Only rendered cells have a click handler.
- The surrender button of the rescue game (script-sos.js:139-145) is `endGame(false)` and is covered by Sos.SosMode.EndGame. The confirm dialog is left out.
