/**
 * The classic battle of script.js: ship-by-ship placement during setup,
 * the alternation of player and enemy shots, the per-battle counters, the
 * lifetime statistics with their bounded history, the remaining-health sum
 * and the battle clock.
 *
 * The module-level variables of script.js (`shipsToPlace`, `currentShipIndex`,
 * `isPlayerTurn`, `battleStats`, `gameStats`, `elapsedSeconds`, ...) are the
 * fields of two classes: Setup for the placement screen and Battle for one
 * battle. A `setTimeout`/`setInterval` callback is one atomic step, and
 * `Math.random` is an oracle `draw` read from a cursor.
 */
module Classic {
  import opened Wrappers
  import opened Fleet
  import Text

  /** The length at which the games history is cut (script.js keeps the newest 50). */
  const HistoryLimit: nat := 50

  /** One entry of `gameStats.gamesHistory`; the date and the accuracy percentage are left out. */
  datatype GameRecord = GameRecord(mode: string, difficulty: string, won: bool, shots: nat, hits: nat, duration: nat)

  /** The persistent `gameStats` object. */
  datatype LifetimeStats = LifetimeStats(
    totalGames: nat, wins: nat, losses: nat, totalShots: nat, totalHits: nat, history: seq<GameRecord>)

  function Min(a: int, b: int): int { if a < b then a else b }

  /** The first `HistoryLimit` entries of `h` (`slice(0, 50)` applied when the list is longer). */
  function Truncate(h: seq<GameRecord>): (r: seq<GameRecord>)
    ensures |r| == Min(|h|, HistoryLimit)
    ensures r == h[..|r|]
  {
    if |h| > HistoryLimit then h[..HistoryLimit] else h
  }

  /**
   * The statistics after one game ends (the bookkeeping of endGame): one
   * more game, one more win or loss, the battle's shots and hits added to
   * the totals, and the record put at the front of the history.
   */
  function RecordGame(s: LifetimeStats, r: GameRecord): (t: LifetimeStats)
    ensures t.totalGames == s.totalGames + 1
    ensures t.totalShots == s.totalShots + r.shots && t.totalHits == s.totalHits + r.hits
    ensures r.won ==> t.wins == s.wins + 1 && t.losses == s.losses
    ensures !r.won ==> t.losses == s.losses + 1 && t.wins == s.wins
    ensures |t.history| == Min(|s.history| + 1, HistoryLimit)
    ensures t.history[0] == r
    ensures forall i :: 1 <= i < |t.history| ==> t.history[i] == s.history[i - 1]
  {
    LifetimeStats(
      s.totalGames + 1,
      if r.won then s.wins + 1 else s.wins,
      if r.won then s.losses else s.losses + 1,
      s.totalShots + r.shots,
      s.totalHits + r.hits,
      Truncate([r] + s.history))
  }

  /** Statistics that only RecordGame has built: the counts agree and the history is bounded. */
  predicate StatsConsistent(s: LifetimeStats) {
    && s.wins + s.losses == s.totalGames
    && s.totalHits <= s.totalShots
    && |s.history| <= HistoryLimit
    && |s.history| <= s.totalGames
  }

  /** A game whose hits do not exceed its shots keeps the statistics consistent. */
  lemma RecordGameConsistent(s: LifetimeStats, r: GameRecord)
    requires StatsConsistent(s) && r.hits <= r.shots
    ensures StatsConsistent(RecordGame(s, r))
  {
  }

  /** Any series of games whose hits do not exceed their shots keeps the statistics consistent. */
  lemma {:induction false} RecordAllConsistent(s: LifetimeStats, rs: seq<GameRecord>)
    requires StatsConsistent(s)
    requires forall i :: 0 <= i < |rs| ==> rs[i].hits <= rs[i].shots
    ensures StatsConsistent(RecordAll(s, rs))
    decreases |rs|
  {
    if rs != [] {
      RecordGameConsistent(s, rs[0]);
      RecordAllConsistent(RecordGame(s, rs[0]), rs[1..]);
    }
  }

  /** Recording games one after another, oldest first. */
  function RecordAll(s: LifetimeStats, rs: seq<GameRecord>): LifetimeStats
    decreases |rs|
  {
    if rs == [] then s else RecordAll(RecordGame(s, rs[0]), rs[1..])
  }

  function Reversed(rs: seq<GameRecord>): (r: seq<GameRecord>)
    ensures |r| == |rs|
    ensures forall i :: 0 <= i < |rs| ==> r[i] == rs[|rs| - 1 - i]
  {
    if rs == [] then [] else Reversed(rs[1..]) + [rs[0]]
  }

  /**
   * After any series of games the history is the newest 50 records, newest
   * first, followed by what was there before as far as room allows; the
   * counters grow by the number of games.
   */
  lemma {:induction false} RecordAllHistory(s: LifetimeStats, rs: seq<GameRecord>)
    requires |s.history| <= HistoryLimit
    ensures RecordAll(s, rs).history == Truncate(Reversed(rs) + s.history)
    ensures RecordAll(s, rs).totalGames == s.totalGames + |rs|
    decreases |rs|
  {
    if rs == [] {
      assert Reversed(rs) + s.history == s.history;
    } else {
      var s1 := RecordGame(s, rs[0]);
      RecordAllHistory(s1, rs[1..]);
      calc {
        RecordAll(s, rs).history;
        Truncate(Reversed(rs[1..]) + s1.history);
        Truncate(Reversed(rs[1..]) + Truncate([rs[0]] + s.history));
        { TruncateAppend(Reversed(rs[1..]), [rs[0]] + s.history); }
        Truncate(Reversed(rs[1..]) + ([rs[0]] + s.history));
        { assert Reversed(rs[1..]) + ([rs[0]] + s.history) == Reversed(rs) + s.history; }
        Truncate(Reversed(rs) + s.history);
      }
    }
  }

  /** Cutting the tail first does not change the newest 50 of a longer list. */
  lemma TruncateAppend(front: seq<GameRecord>, h: seq<GameRecord>)
    ensures Truncate(front + Truncate(h)) == Truncate(front + h)
  {
    var a, b := front + Truncate(h), front + h;
    assert a == b[..|a|];
  }

  /**
   * The placement screen: the ships still to be placed by hand, the one
   * selected, the orientation the next placement uses, and the setup board.
   */
  class Setup {
    var board: Board
    var shipsToPlace: seq<Ship>
    var currentShipIndex: nat
    var currentOrientation: bool

    /**
     * A ship of the list is on the board exactly when it has positions, the
     * board holds no other ships, no ship has been shot at, and the selected
     * index is in range (or 0 for an empty list).
     */
    ghost predicate Valid()
      reads this, board, board.Repr, shipsToPlace
    {
      && board.Valid() && board.size == BoardSize
      && ListValid()
      && Matches()
    }

    /** The list holds distinct, non-empty, unhit ships and the selection is in range (or 0). */
    ghost predicate ListValid()
      reads this, shipsToPlace
    {
      && Distinct(shipsToPlace)
      && (forall i :: 0 <= i < |shipsToPlace| ==> shipsToPlace[i].size > 0 && shipsToPlace[i].hits == {})
      && (currentShipIndex < |shipsToPlace| || currentShipIndex == 0)
    }

    /** The board holds exactly the ships of the list that have positions. */
    ghost predicate Matches()
      reads this, board, shipsToPlace
    {
      && (forall i :: 0 <= i < |shipsToPlace| ==> (shipsToPlace[i] in board.ships <==> shipsToPlace[i].positions != []))
      && (forall j :: 0 <= j < |board.ships| ==> board.ships[j] in shipsToPlace)
    }

    /** startSetup: an empty board and one unplaced ship per entry of the expanded spec list. */
    constructor (specs: seq<ShipSpec>)
      requires forall i :: 0 <= i < |specs| ==> specs[i].size > 0
      ensures Valid() && fresh(board) && board.ships == []
      ensures board.shots == {} && board.hits == {} && board.misses == {}
      ensures |shipsToPlace| == |Expand(specs)|
      ensures forall i :: 0 <= i < |shipsToPlace| ==>
        && fresh(shipsToPlace[i]) && shipsToPlace[i].positions == []
        && shipsToPlace[i].name == Expand(specs)[i].name && shipsToPlace[i].size == Expand(specs)[i].size
      ensures currentShipIndex == 0 && !currentOrientation
    {
      var b := new Board(BoardSize);
      var list := NewShips(specs);
      board := b;
      shipsToPlace := list;
      currentShipIndex := 0;
      currentOrientation := false;
    }

    /** The loops of startSetup that fill `shipsToPlace`, one new ship per entry of the expanded spec list. */
    static method NewShips(specs: seq<ShipSpec>) returns (ships: seq<Ship>)
      requires forall i :: 0 <= i < |specs| ==> specs[i].size > 0
      ensures Distinct(ships) && |ships| == |Expand(specs)|
      ensures forall i :: 0 <= i < |ships| ==>
        && fresh(ships[i]) && ships[i].positions == [] && ships[i].hits == {} && ships[i].size > 0
        && ships[i].name == Expand(specs)[i].name && ships[i].size == Expand(specs)[i].size
    {
      var kinds := Expand(specs);
      ships := [];
      for i := 0 to |kinds|
        invariant Distinct(ships) && |ships| == i
        invariant forall j :: 0 <= j < i ==>
          && fresh(ships[j]) && ships[j].positions == [] && ships[j].hits == {} && ships[j].size > 0
          && ships[j].name == kinds[j].name && ships[j].size == kinds[j].size
      {
        assert kinds[i] in specs;
        var ship := new Ship(kinds[i].name, kinds[i].size);
        ships := ships + [ship];
      }
    }

    /** The rotate button: the next placement uses the other orientation. */
    method Rotate()
      modifies this`currentOrientation
      ensures currentOrientation == !old(currentOrientation)
    {
      currentOrientation := !currentOrientation;
    }

    /**
     * A click on cell (row, col) of the setup board. Nothing happens unless
     * the selected ship exists and is unplaced; that ship then takes the
     * current orientation and is placed if it fits, after which the selection
     * moves to the next unplaced ship after it, or to 0 past the end of the list.
     */
    method PlaceShipAtPosition(row: int, col: int) returns (placed: bool)
      requires Valid()
      modifies this`currentShipIndex, board`ships, board`Repr, board.grid, shipsToPlace`isVertical, shipsToPlace`positions
      ensures Valid()
      ensures placed <==>
        && old(currentShipIndex) < |shipsToPlace|
        && old(shipsToPlace[currentShipIndex].positions) == []
        && old(board.CanPlace(Footprint(Pos(row, col), currentOrientation, shipsToPlace[currentShipIndex].size)))
      ensures old(currentShipIndex) < |shipsToPlace| && old(shipsToPlace[currentShipIndex].positions) == [] ==>
        shipsToPlace[old(currentShipIndex)].isVertical == currentOrientation
      ensures !placed ==>
        && board.ships == old(board.ships) && unchanged(board.grid) && currentShipIndex == old(currentShipIndex)
        && (forall i :: 0 <= i < |shipsToPlace| ==> shipsToPlace[i].positions == old(shipsToPlace[i].positions))
      ensures !(old(currentShipIndex) < |shipsToPlace| && old(shipsToPlace[currentShipIndex].positions) == []) ==>
        forall i :: 0 <= i < |shipsToPlace| ==> shipsToPlace[i].isVertical == old(shipsToPlace[i].isVertical)
      ensures forall i :: 0 <= i < |shipsToPlace| && i != old(currentShipIndex) ==>
        shipsToPlace[i].isVertical == old(shipsToPlace[i].isVertical) && shipsToPlace[i].positions == old(shipsToPlace[i].positions)
      ensures placed ==>
        var ship := shipsToPlace[old(currentShipIndex)];
        && ship.positions == Footprint(Pos(row, col), currentOrientation, ship.size)
        && board.ships == old(board.ships) + [ship]
        && forall r, c :: 0 <= r < BoardSize && 0 <= c < BoardSize ==>
          board.grid[r, c] == if Pos(r, c) in ship.positions then old(board.grid[r, c]).(ship := ship) else old(board.grid[r, c])
      ensures placed ==>
        || (&& old(currentShipIndex) < currentShipIndex < |shipsToPlace|
            && shipsToPlace[currentShipIndex].positions == []
            && forall j :: old(currentShipIndex) < j < currentShipIndex ==> shipsToPlace[j].positions != [])
        || (&& currentShipIndex == 0
            && forall j :: old(currentShipIndex) < j < |shipsToPlace| ==> shipsToPlace[j].positions != [])
    {
      if currentShipIndex >= |shipsToPlace| || shipsToPlace[currentShipIndex].positions != [] {
        return false;
      }
      placed := PlaceSelected(shipsToPlace[currentShipIndex], row, col);
      if placed {
        AdvanceSelection();
      }
    }

    /** placeShipAtPosition once its guard has passed: the selected ship is unplaced. */
    method PlaceSelected(ship: Ship, row: int, col: int) returns (placed: bool)
      requires Valid()
      requires currentShipIndex < |shipsToPlace| && ship == shipsToPlace[currentShipIndex] && ship.positions == []
      modifies board`ships, board`Repr, board.grid, ship`isVertical, ship`positions
      ensures Valid()
      ensures ship.isVertical == currentOrientation
      ensures placed <==> old(board.CanPlace(Footprint(Pos(row, col), currentOrientation, ship.size)))
      ensures !placed ==> board.ships == old(board.ships) && unchanged(board.grid) && ship.positions == []
      ensures placed ==>
        && ship.positions == Footprint(Pos(row, col), currentOrientation, ship.size)
        && board.ships == old(board.ships) + [ship]
        && forall r, c :: 0 <= r < BoardSize && 0 <= c < BoardSize ==>
          board.grid[r, c] == if Pos(r, c) in ship.positions then old(board.grid[r, c]).(ship := ship) else old(board.grid[r, c])
    {
      ship.isVertical := currentOrientation;
      placed := board.PlaceShip(ship, row, col);
      if placed {
        forall i | 0 <= i < |shipsToPlace|
          ensures shipsToPlace[i] in board.ships <==> shipsToPlace[i].positions != []
        {
          if shipsToPlace[i] != ship {
            assert shipsToPlace[i] in board.ships <==> shipsToPlace[i] in old(board.ships);
          }
        }
      }
    }

    /** The do-while loop of placeShipAtPosition that moves the selection on. */
    method AdvanceSelection()
      requires currentShipIndex < |shipsToPlace|
      modifies this`currentShipIndex
      ensures currentShipIndex < |shipsToPlace| || currentShipIndex == 0
      ensures
        || (&& old(currentShipIndex) < currentShipIndex < |shipsToPlace|
            && shipsToPlace[currentShipIndex].positions == []
            && forall j :: old(currentShipIndex) < j < currentShipIndex ==> shipsToPlace[j].positions != [])
        || (&& currentShipIndex == 0
            && forall j :: old(currentShipIndex) < j < |shipsToPlace| ==> shipsToPlace[j].positions != [])
    {
      ghost var start := currentShipIndex;
      currentShipIndex := currentShipIndex + 1;
      while currentShipIndex < |shipsToPlace| && shipsToPlace[currentShipIndex].positions != []
        invariant start < currentShipIndex <= |shipsToPlace|
        invariant forall j :: start < j < currentShipIndex ==> shipsToPlace[j].positions != []
        decreases |shipsToPlace| - currentShipIndex
      {
        currentShipIndex := currentShipIndex + 1;
      }
      if currentShipIndex >= |shipsToPlace| {
        currentShipIndex := 0;
      }
    }

    /** allShipsPlaced: every ship of the list has positions. */
    predicate AllShipsPlaced()
      reads this, shipsToPlace
    {
      forall i :: 0 <= i < |shipsToPlace| ==> shipsToPlace[i].positions != []
    }

    /** Every ship of the list is placed exactly when the board holds as many ships as the list. */
    lemma AllPlacedIffBoardFull()
      requires Valid()
      ensures AllShipsPlaced() <==> |board.ships| == |shipsToPlace|
    {
      var onBoard := set s | s in board.ships;
      var listed := set s | s in shipsToPlace;
      DistinctCard(board.ships);
      DistinctCard(shipsToPlace);
      assert onBoard <= listed;
      if AllShipsPlaced() {
        assert listed <= onBoard;
        assert onBoard == listed;
      }
      if |board.ships| == |shipsToPlace| {
        SubsetSameCard(onBoard, listed);
        forall i | 0 <= i < |shipsToPlace| ensures shipsToPlace[i].positions != [] {
          assert shipsToPlace[i] in listed;
        }
      }
    }

    /** The clear button: a new empty board, every ship of the list unplaced and unhit, the first one selected. */
    method Clear()
      requires Valid()
      modifies this`board, this`currentShipIndex, shipsToPlace`positions, shipsToPlace`hits
      ensures Valid() && fresh(board) && board.ships == []
      ensures board.shots == {} && board.hits == {} && board.misses == {}
      ensures shipsToPlace == old(shipsToPlace) && currentShipIndex == 0
      ensures forall i :: 0 <= i < |shipsToPlace| ==>
        && shipsToPlace[i].positions == [] && shipsToPlace[i].hits == {}
        && shipsToPlace[i].isVertical == old(shipsToPlace[i].isVertical)
    {
      ResetShips(shipsToPlace);
      board := new Board(BoardSize);
      currentShipIndex := 0;
    }

    /** The loop of the clear button: every ship loses its positions and its hits. */
    static method ResetShips(ships: seq<Ship>)
      modifies ships`positions, ships`hits
      ensures forall i :: 0 <= i < |ships| ==> ships[i].positions == [] && ships[i].hits == {}
    {
      for i := 0 to |ships|
        invariant forall j :: 0 <= j < i ==> ships[j].positions == [] && ships[j].hits == {}
      {
        ships[i].positions := [];
        ships[i].hits := {};
      }
    }
  }

  /** The remaining health shown in the battle screen: the unhit cells of every ship, added up. */
  function Health(ships: seq<Ship>): int
    reads ships
  {
    if ships == [] then 0 else ships[0].size - |ships[0].hits| + Health(ships[1..])
  }

  /**
   * When no ship has more hits than cells, the health is never negative and
   * reaches 0 exactly when every ship is sunk.
   */
  lemma {:induction false} HealthZeroIffAllSunk(ships: seq<Ship>)
    requires forall i :: 0 <= i < |ships| ==> |ships[i].hits| <= ships[i].size
    ensures Health(ships) >= 0
    ensures Health(ships) == 0 <==> forall i :: 0 <= i < |ships| ==> ships[i].IsSunk()
  {
    if ships != [] {
      var rest := ships[1..];
      HealthZeroIffAllSunk(rest);
      assert forall i :: 1 <= i < |ships| ==> ships[i] == rest[i - 1];
    }
  }

  /** On a consistent board the health is never negative and is 0 exactly when allShipsSunk holds. */
  lemma BoardHealth(b: Board)
    requires b.Valid()
    ensures Health(b.ships) >= 0
    ensures Health(b.ships) == 0 <==> b.AllShipsSunk()
  {
    forall i | 0 <= i < |b.ships| ensures |b.ships[i].hits| <= b.ships[i].size {
      b.HitsWithinSize(b.ships[i]);
    }
    HealthZeroIffAllSunk(b.ships);
  }

  /** A fleet nobody has shot at has the total length of its ship kinds as health. */
  lemma {:induction false} HealthUnhit(ships: seq<Ship>, kinds: seq<ShipSpec>)
    requires |ships| == |kinds|
    requires forall i :: 0 <= i < |ships| ==> ships[i].hits == {} && ships[i].size == kinds[i].size
    ensures Health(ships) == TotalSize(kinds)
  {
    if ships != [] {
      HealthUnhit(ships[1..], kinds[1..]);
    }
  }

  /**
   * Board `b` carries the fleet `specs` placed at random with the first
   * `draws` draws, at most AttemptLimit per ship of the expanded list: each
   * ship of a kind from the list and lying where one of those draws put it;
   * every ship of the expanded list, in its order and with the list's total
   * length as health, when none is missing; and when one is missing,
   * AttemptLimit of those draws in a row that fit nowhere on the final board.
   */
  ghost predicate PlacedAtRandom(b: Board, specs: seq<ShipSpec>, draw: nat -> Attempt, draws: nat)
    reads b, b.grid, b.ships
    requires b.grid.Length0 == b.size && b.grid.Length1 == b.size
  {
    && |b.ships| <= |Expand(specs)|
    && draws <= AttemptLimit * |Expand(specs)|
    && (forall i :: 0 <= i < |b.ships| ==>
          && (exists k :: 0 <= k < |specs| && b.ships[i].name == specs[k].name && b.ships[i].size == specs[k].size)
          && b.Drawn(b.ships[i], draw, 0, draws))
    && (|b.ships| == |Expand(specs)| ==>
          && Health(b.ships) == TotalSize(Expand(specs))
          && forall i :: 0 <= i < |b.ships| ==>
            b.ships[i].name == Expand(specs)[i].name && b.ships[i].size == Expand(specs)[i].size)
    && (|b.ships| < |Expand(specs)| ==>
          exists start: nat, spec :: spec in specs && start + AttemptLimit <= draws && b.NoDrawFits(draw, start, spec.size, b.Occupied()))
  }

  /** What placeShipsRandomly promises about the board it fills, gathered into PlacedAtRandom. */
  lemma RandomPlacementShown(b: Board, specs: seq<ShipSpec>, draw: nat -> Attempt, missing: seq<string>, draws: nat)
    requires b.grid.Length0 == b.size && b.grid.Length1 == b.size
    requires forall i :: 0 <= i < |b.ships| ==> b.ships[i].hits == {}
    requires forall i :: 0 <= i < |b.ships| ==> exists k :: 0 <= k < |specs| && b.ships[i].name == specs[k].name && b.ships[i].size == specs[k].size
    requires |b.ships| + |missing| == |Expand(specs)| && draws <= AttemptLimit * |Expand(specs)|
    requires missing == [] ==> forall i :: 0 <= i < |b.ships| ==>
      b.ships[i].name == Expand(specs)[i].name && b.ships[i].size == Expand(specs)[i].size
    requires forall i :: 0 <= i < |b.ships| ==> b.Drawn(b.ships[i], draw, 0, draws)
    requires missing != [] ==> exists start: nat, spec :: spec in specs && start + AttemptLimit <= draws && b.NoDrawFits(draw, start, spec.size, b.Occupied())
    ensures PlacedAtRandom(b, specs, draw, draws)
  {
    if missing == [] {
      HealthUnhit(b.ships, Expand(specs));
    }
  }

  /**
   * One classic battle: the player's board from setup, the enemy's board
   * placed at random, whose turn it is, the battle counters (`battleStats`),
   * the clock, and the lifetime statistics the end of the battle updates.
   *
   * An enemy turn is scheduled (a pending `setTimeout(enemyTurn, 1000)`)
   * exactly when it is not the player's turn, so `!isPlayerTurn` is the
   * condition under which the EnemyTurn step can run.
   */
  class Battle {
    var playerBoard: Board
    var enemyBoard: Board
    var isPlayerTurn: bool
    var shots: nat
    var hits: nat
    var elapsedSeconds: nat
    var timerRunning: bool
    var stats: LifetimeStats
    const mode: string
    const difficulty: string

    /**
     * Both boards are consistent and share no object, and the battle
     * counters count exactly the player's shots and hits on the enemy board.
     */
    ghost predicate Valid()
      reads this`playerBoard, this`enemyBoard, this`shots, this`hits
      reads playerBoard, playerBoard.Repr, enemyBoard, enemyBoard.Repr
    {
      && BoardsValid()
      && shots == |enemyBoard.shots| && hits == |enemyBoard.hits|
    }

    /** Both boards are consistent, of the standard size, and share no object with each other or the battle. */
    ghost predicate BoardsValid()
      reads this`playerBoard, this`enemyBoard, playerBoard, playerBoard.Repr, enemyBoard, enemyBoard.Repr
    {
      && playerBoard.Valid() && enemyBoard.Valid()
      && playerBoard.size == BoardSize && enemyBoard.size == BoardSize
      && playerBoard.Repr !! enemyBoard.Repr
      && this !in playerBoard.Repr && this !in enemyBoard.Repr
    }

    /**
     * startBattle: the setup board becomes the player's board, a new enemy
     * board gets the standard fleet at random, the counters and the clock
     * start from zero and the player moves first.
     */
    constructor (setupBoard: Board, mode: string, difficulty: string, stats: LifetimeStats, draw: nat -> Attempt)
      requires setupBoard.Valid() && setupBoard.size == BoardSize
      ensures Valid()
      ensures playerBoard == setupBoard && fresh(enemyBoard)
      ensures enemyBoard.shots == {} && enemyBoard.hits == {} && enemyBoard.misses == {}
      ensures exists draws: nat :: PlacedAtRandom(enemyBoard, StandardFleet, draw, draws)
      ensures |enemyBoard.ships| <= 5 && (|enemyBoard.ships| == 5 ==> Health(enemyBoard.ships) == 17)
      ensures isPlayerTurn && shots == 0 && hits == 0 && elapsedSeconds == 0 && timerRunning
      ensures this.stats == stats && this.mode == mode && this.difficulty == difficulty
    {
      var enemy, draws := NewEnemyBoard(StandardFleet, draw);
      StandardFleetCells();
      playerBoard := setupBoard;
      enemyBoard := enemy;
      isPlayerTurn := true;
      shots, hits := 0, 0;
      elapsedSeconds := 0;
      timerRunning := true;
      this.stats := stats;
      this.mode := mode;
      this.difficulty := difficulty;
      new;
      assert PlacedAtRandom(enemyBoard, StandardFleet, draw, draws);
    }

    /** The enemy board of startBattle: a new board with the fleet `specs` placed at random. */
    static method NewEnemyBoard(specs: seq<ShipSpec>, draw: nat -> Attempt) returns (enemy: Board, ghost draws: nat)
      ensures fresh(enemy) && fresh(enemy.Repr - {enemy}) && enemy.Valid() && enemy.size == BoardSize
      ensures enemy.shots == {} && enemy.hits == {} && enemy.misses == {}
      ensures forall r, c :: 0 <= r < BoardSize && 0 <= c < BoardSize ==> !enemy.grid[r, c].isHit && !enemy.grid[r, c].isMiss
      ensures PlacedAtRandom(enemy, specs, draw, draws)
    {
      enemy := new Board(BoardSize);
      var missing;
      missing, draws := enemy.PlaceShipsRandomly(specs, draw);
      RandomPlacementShown(enemy, specs, draw, missing, draws);
    }

    /** endGame: the clock stops and the lifetime statistics record this battle. */
    method EndGame(won: bool)
      modifies this`timerRunning, this`stats
      ensures !timerRunning
      ensures stats == RecordGame(old(stats), GameRecord(mode, difficulty, won, shots, hits, elapsedSeconds))
    {
      timerRunning := false;
      stats := RecordGame(stats, GameRecord(mode, difficulty, won, shots, hits, elapsedSeconds));
    }

    /** The check both turns end with: once `board`'s fleet is sunk the game ends with outcome `won`. */
    method EndIfSunk(board: Board, won: bool)
      requires Valid() && board.Valid() && this !in board.Repr
      modifies this`timerRunning, this`stats
      ensures Valid()
      ensures board.AllShipsSunk() ==>
        !timerRunning && stats == RecordGame(old(stats), GameRecord(mode, difficulty, won, shots, hits, elapsedSeconds))
      ensures !board.AllShipsSunk() ==> timerRunning == old(timerRunning) && stats == old(stats)
    {
      if board.AllShipsSunk() {
        EndGame(won);
      }
    }

    /**
     * playerAttack: ignored out of turn and on a repeated cell; otherwise one
     * more shot, one more hit on a ship cell (and the player shoots again),
     * the turn passes to the enemy on a miss, and the game is won once the
     * enemy fleet is sunk.
     */
    method PlayerAttack(row: int, col: int)
      requires Valid() && enemyBoard.IsValidPosition(row, col)
      modifies this`isPlayerTurn, this`shots, this`hits, this`timerRunning, this`stats
      modifies enemyBoard`shots, enemyBoard`hits, enemyBoard`misses, enemyBoard.grid, enemyBoard.ships`hits
      ensures Valid()
      ensures !old(isPlayerTurn) || Pos(row, col) in old(enemyBoard.shots) ==>
        && shots == old(shots) && hits == old(hits) && isPlayerTurn == old(isPlayerTurn)
        && stats == old(stats) && timerRunning == old(timerRunning)
        && enemyBoard.shots == old(enemyBoard.shots) && unchanged(enemyBoard.grid)
        && enemyBoard.hits == old(enemyBoard.hits) && enemyBoard.misses == old(enemyBoard.misses)
        && (forall s :: s in enemyBoard.ships ==> s.hits == old(s.hits))
      ensures old(isPlayerTurn) && Pos(row, col) !in old(enemyBoard.shots) ==>
        && enemyBoard.ShotRecorded(Pos(row, col))
        && shots == old(shots) + 1
        && enemyBoard.shots == old(enemyBoard.shots) + {Pos(row, col)}
        && (old(enemyBoard.grid[row, col].ship) != null ==> hits == old(hits) + 1 && isPlayerTurn)
        && (old(enemyBoard.grid[row, col].ship) == null ==> hits == old(hits) && !isPlayerTurn)
        && (enemyBoard.AllShipsSunk() ==>
              !timerRunning && stats == RecordGame(old(stats), GameRecord(mode, difficulty, true, shots, hits, elapsedSeconds)))
        && (!enemyBoard.AllShipsSunk() ==> timerRunning == old(timerRunning) && stats == old(stats))
    {
      if isPlayerTurn {
        var _ := PlayerShot(row, col);
      }
    }

    /** playerAttack in the player's turn: the enemy board receives the shot, then a fresh shot is scored. */
    method PlayerShot(row: int, col: int) returns (result: AttackResult)
      requires Valid() && isPlayerTurn && enemyBoard.IsValidPosition(row, col)
      modifies this`isPlayerTurn, this`shots, this`hits, this`timerRunning, this`stats
      modifies enemyBoard`shots, enemyBoard`hits, enemyBoard`misses, enemyBoard.grid, enemyBoard.ships`hits
      ensures Valid()
      ensures result == AlreadyShot <==> Pos(row, col) in old(enemyBoard.shots)
      ensures result == AlreadyShot ==>
        && shots == old(shots) && hits == old(hits) && isPlayerTurn
        && stats == old(stats) && timerRunning == old(timerRunning)
        && enemyBoard.shots == old(enemyBoard.shots) && unchanged(enemyBoard.grid)
        && enemyBoard.hits == old(enemyBoard.hits) && enemyBoard.misses == old(enemyBoard.misses)
        && (forall s :: s in enemyBoard.ships ==> s.hits == old(s.hits))
      ensures result != AlreadyShot ==>
        && enemyBoard.ShotRecorded(Pos(row, col))
        && shots == old(shots) + 1
        && enemyBoard.shots == old(enemyBoard.shots) + {Pos(row, col)}
        && (old(enemyBoard.grid[row, col].ship) != null ==> hits == old(hits) + 1 && isPlayerTurn)
        && (old(enemyBoard.grid[row, col].ship) == null ==> hits == old(hits) && !isPlayerTurn)
        && (enemyBoard.AllShipsSunk() ==>
              !timerRunning && stats == RecordGame(old(stats), GameRecord(mode, difficulty, true, shots, hits, elapsedSeconds)))
        && (!enemyBoard.AllShipsSunk() ==> timerRunning == old(timerRunning) && stats == old(stats))
    {
      if Pos(row, col) in enemyBoard.shots {
        result := enemyBoard.ReceiveAttack(row, col);
        playerBoard.StaysValid();
      } else {
        result := FreshShot(row, col);
      }
    }

    /** playerAttack at a cell of the enemy board not yet shot: the board records the shot, then it is scored. */
    method FreshShot(row: int, col: int) returns (result: AttackResult)
      requires Valid() && isPlayerTurn && enemyBoard.IsValidPosition(row, col) && Pos(row, col) !in enemyBoard.shots
      modifies this`isPlayerTurn, this`shots, this`hits, this`timerRunning, this`stats
      modifies enemyBoard`shots, enemyBoard`hits, enemyBoard`misses, enemyBoard.grid, enemyBoard.ships`hits
      ensures Valid()
      ensures result != AlreadyShot
      ensures enemyBoard.ShotRecorded(Pos(row, col))
      ensures shots == old(shots) + 1
      ensures old(enemyBoard.grid[row, col].ship) != null ==> hits == old(hits) + 1 && isPlayerTurn
      ensures old(enemyBoard.grid[row, col].ship) == null ==> hits == old(hits) && !isPlayerTurn
      ensures enemyBoard.AllShipsSunk() ==>
        !timerRunning && stats == RecordGame(old(stats), GameRecord(mode, difficulty, true, shots, hits, elapsedSeconds))
      ensures !enemyBoard.AllShipsSunk() ==> timerRunning == old(timerRunning) && stats == old(stats)
    {
      result := ShootEnemy(Pos(row, col));
      ScoreShot(result.Hit?);
    }

    /** The player's shot itself: the enemy board receives it, so its shot and hit counts run one ahead of the battle's. */
    method ShootEnemy(target: Pos) returns (result: AttackResult)
      requires Valid()
      requires enemyBoard.IsValidPosition(target.row, target.col) && target !in enemyBoard.shots
      modifies enemyBoard`shots, enemyBoard`hits, enemyBoard`misses, enemyBoard.grid, enemyBoard.ships`hits
      ensures BoardsValid()
      ensures enemyBoard.ShotRecorded(target)
      ensures result != AlreadyShot && (result.Hit? <==> old(enemyBoard.grid[target.row, target.col].ship) != null)
      ensures shots + 1 == |enemyBoard.shots| && hits + (if result.Hit? then 1 else 0) == |enemyBoard.hits|
    {
      result := enemyBoard.ReceiveFreshAttack(target);
      playerBoard.StaysValid();
    }

    /**
     * The rest of playerAttack after a fresh shot: one more shot, one more
     * hit (the player keeps the turn) or the turn passes, and the win once
     * the enemy fleet is sunk.
     */
    method ScoreShot(hit: bool)
      requires BoardsValid()
      requires shots + 1 == |enemyBoard.shots|
      requires hits + (if hit then 1 else 0) == |enemyBoard.hits|
      modifies this`shots, this`hits, this`isPlayerTurn, this`timerRunning, this`stats
      ensures Valid()
      ensures shots == old(shots) + 1
      ensures hits == if hit then old(hits) + 1 else old(hits)
      ensures isPlayerTurn == (old(isPlayerTurn) && hit)
      ensures enemyBoard.AllShipsSunk() ==>
        !timerRunning && stats == RecordGame(old(stats), GameRecord(mode, difficulty, true, shots, hits, elapsedSeconds))
      ensures !enemyBoard.AllShipsSunk() ==> timerRunning == old(timerRunning) && stats == old(stats)
    {
      Tally(hit);
      EndIfSunk(enemyBoard, true);
    }

    /** The counting part of a fresh shot: one more shot, and one more hit or the turn passes. */
    method Tally(hit: bool)
      requires BoardsValid()
      requires shots + 1 == |enemyBoard.shots|
      requires hits + (if hit then 1 else 0) == |enemyBoard.hits|
      modifies this`shots, this`hits, this`isPlayerTurn
      ensures Valid()
      ensures shots == old(shots) + 1
      ensures hits == if hit then old(hits) + 1 else old(hits)
      ensures isPlayerTurn == (old(isPlayerTurn) && hit)
    {
      shots := shots + 1;
      if hit {
        hits := hits + 1;
      } else {
        isPlayerTurn := false;
      }
    }

    /**
     * enemyTurn: draws cells until one the player's board has not been shot
     * at (the do-while loop), fires at it, keeps the turn on a hit (another
     * enemyTurn is scheduled) and hands it back on a miss, and records a loss
     * once the player's fleet is sunk. `from` is the next unused draw; `next`
     * is the one after the cell fired at.
     */
    method EnemyTurn(draw: nat -> Pos, from: nat) returns (next: nat)
      requires Valid() && !isPlayerTurn
      requires forall k :: 0 <= draw(k).row < BoardSize && 0 <= draw(k).col < BoardSize
      requires exists k :: from <= k && draw(k) !in playerBoard.shots
      modifies this`isPlayerTurn, this`timerRunning, this`stats
      modifies playerBoard`shots, playerBoard`hits, playerBoard`misses, playerBoard.grid, playerBoard.ships`hits
      ensures Valid()
      ensures from < next && draw(next - 1) !in old(playerBoard.shots)
      ensures forall k :: from <= k < next - 1 ==> draw(k) in old(playerBoard.shots)
      ensures playerBoard.shots == old(playerBoard.shots) + {draw(next - 1)}
      ensures playerBoard.ShotRecorded(draw(next - 1))
      ensures isPlayerTurn <==> old(playerBoard.grid[draw(next - 1).row, draw(next - 1).col].ship) == null
      ensures playerBoard.AllShipsSunk() ==>
        !timerRunning && stats == RecordGame(old(stats), GameRecord(mode, difficulty, false, shots, hits, elapsedSeconds))
      ensures !playerBoard.AllShipsSunk() ==> timerRunning == old(timerRunning) && stats == old(stats)
    {
      next := PickTarget(playerBoard.shots, draw, from);
      EnemyShot(draw(next - 1));
    }

    /** enemyTurn once the target is chosen: the shot, the turn, and the loss once the player's fleet is sunk. */
    method EnemyShot(target: Pos)
      requires Valid() && !isPlayerTurn
      requires playerBoard.IsValidPosition(target.row, target.col) && target !in playerBoard.shots
      modifies this`isPlayerTurn, this`timerRunning, this`stats
      modifies playerBoard`shots, playerBoard`hits, playerBoard`misses, playerBoard.grid, playerBoard.ships`hits
      ensures Valid()
      ensures playerBoard.ShotRecorded(target)
      ensures isPlayerTurn <==> old(playerBoard.grid[target.row, target.col].ship) == null
      ensures playerBoard.AllShipsSunk() ==>
        !timerRunning && stats == RecordGame(old(stats), GameRecord(mode, difficulty, false, shots, hits, elapsedSeconds))
      ensures !playerBoard.AllShipsSunk() ==> timerRunning == old(timerRunning) && stats == old(stats)
    {
      var hit := ShootPlayer(target);
      AnswerShot(hit);
    }

    /** The enemy's shot itself: the player's board receives it; `hit` says whether a ship was there. */
    method ShootPlayer(target: Pos) returns (hit: bool)
      requires Valid()
      requires playerBoard.IsValidPosition(target.row, target.col) && target !in playerBoard.shots
      modifies playerBoard`shots, playerBoard`hits, playerBoard`misses, playerBoard.grid, playerBoard.ships`hits
      ensures Valid()
      ensures playerBoard.ShotRecorded(target)
      ensures hit <==> old(playerBoard.grid[target.row, target.col].ship) != null
    {
      var result := playerBoard.ReceiveFreshAttack(target);
      enemyBoard.StaysValid();
      hit := result.Hit?;
    }

    /** The rest of enemyTurn after the shot: the turn comes back on a miss, and the game is lost once the player's fleet is sunk. */
    method AnswerShot(hit: bool)
      requires Valid() && !isPlayerTurn
      modifies this`isPlayerTurn, this`timerRunning, this`stats
      ensures Valid()
      ensures isPlayerTurn == !hit
      ensures playerBoard.AllShipsSunk() ==>
        !timerRunning && stats == RecordGame(old(stats), GameRecord(mode, difficulty, false, shots, hits, elapsedSeconds))
      ensures !playerBoard.AllShipsSunk() ==> timerRunning == old(timerRunning) && stats == old(stats)
    {
      if !hit {
        isPlayerTurn := true;
      }
      EndIfSunk(playerBoard, false);
    }

    /** The do-while loop of enemyTurn: the first draw from `from` on that is not among `shots`. */
    static method PickTarget(shots: set<Pos>, draw: nat -> Pos, from: nat) returns (next: nat)
      requires exists k :: from <= k && draw(k) !in shots
      ensures from < next && draw(next - 1) !in shots
      ensures forall k :: from <= k < next - 1 ==> draw(k) in shots
    {
      ghost var k :| from <= k && draw(k) !in shots;
      var cursor := from;
      var target := draw(cursor);
      while target in shots
        invariant from <= cursor <= k && target == draw(cursor)
        invariant forall j :: from <= j < cursor ==> draw(j) in shots
        decreases k - cursor
      {
        cursor := cursor + 1;
        target := draw(cursor);
      }
      next := cursor + 1;
    }

    /**
     * The one-second interval of startTimer: while the clock runs it advances
     * and updateTimerDisplay shows the new time, which reads back as the
     * elapsed seconds. A stopped clock has no interval, so nothing happens.
     */
    method Tick() returns (shown: Option<string>)
      modifies this`elapsedSeconds
      ensures elapsedSeconds == if timerRunning then old(elapsedSeconds) + 1 else old(elapsedSeconds)
      ensures shown.Some? <==> timerRunning
      ensures shown.Some? ==> Text.ParseClock(shown.value) == Some(elapsedSeconds)
      ensures shown.Some? && elapsedSeconds < 6000 ==> |shown.value| == 5
    {
      shown := None;
      if timerRunning {
        elapsedSeconds := elapsedSeconds + 1;
        shown := Some(Text.ElapsedClock(elapsedSeconds));
        Text.ElapsedClockRoundTrip(elapsedSeconds);
      }
    }

    /** The player's hits never outnumber the player's shots. */
    lemma HitsAtMostShots()
      requires Valid()
      ensures hits <= shots
    {
      enemyBoard.ShotsAreHitsPlusMisses();
    }

    /** The enemy can only find an unshot cell while the player's board has fewer than 100 shots. */
    lemma EnemyNeedsRoom(draw: nat -> Pos, from: nat)
      requires Valid()
      requires forall k :: 0 <= draw(k).row < BoardSize && 0 <= draw(k).col < BoardSize
      requires exists k :: from <= k && draw(k) !in playerBoard.shots
      ensures |playerBoard.shots| < BoardSize * BoardSize
    {
      var k :| from <= k && draw(k) !in playerBoard.shots;
      playerBoard.FullBoardAllShot();
      assert playerBoard.IsValidPosition(draw(k).row, draw(k).col);
    }
  }
}
