/**
 * The timed rescue minigame of script-sos.js ("modo SOS"): the player picks
 * a mission, survivors are hidden on a 10-by-10 sea, every click on a cell
 * is one rescue attempt, and the countdown or the last survivor ends the game.
 *
 * The `SOSMode` object literal becomes the class SosMode. The DOM classes of a
 * rescue cell ('water', 'miss', 'rescued') become a per-cell CellMark; the
 * 'hit' class the guard also tests is never set on this board. The 350 ms
 * `setTimeout` of an attempt splits it in two atomic steps: HandleRescueAttempt
 * (the click) and ResolveRescue (the callback), with the scheduled callback
 * held in `pending`. The one-second `setInterval` is one Tick per call, and the
 * interval is live exactly while `isActive` holds (endGame clears both).
 * `Math.random` is an oracle `draw` of grid cells read from a cursor.
 */
module Sos {
  import opened Wrappers
  import opened Fleet
  import Text

  /** One entry of `SOSMode.missions`. */
  datatype Mission = Mission(id: nat, title: string, targets: nat, timeLimit: int, difficulty: string)

  /** The three rescue missions: survivors to find and seconds allowed. */
  const Missions: seq<Mission> := [
    Mission(1, "Operação Águas Rasas", 3, 60, "easy"),
    Mission(2, "Tempestade no Ártico", 6, 90, "medium"),
    Mission(3, "Zona de Guerra", 10, 120, "hard")
  ]

  /** The state a rescue cell shows: untouched, searched and empty, or a survivor saved. */
  datatype CellMark = Water | Missed | Rescued

  /** The callback an attempt schedules: the cell and whether a survivor hides there, read at click time. */
  datatype PendingRescue = PendingRescue(pos: Pos, isHit: bool)

  /** What updateTimerDisplay shows: the `m:ss` text and whether the 'warning' class is on. */
  datatype TimerView = TimerView(text: string, warning: bool)

  /** Below this many seconds the countdown shows its warning. */
  const WarningSeconds: int := 15

  predicate OnGrid(p: Pos) {
    0 <= p.row < BoardSize && 0 <= p.col < BoardSize
  }

  /** The cells the first `n` draws from `from` name: the survivor set setupBoard builds after `n` iterations. */
  function DrawnCells(draw: nat -> Pos, from: nat, n: nat): (s: set<Pos>)
    ensures |s| <= n
  {
    if n == 0 then {} else DrawnCells(draw, from, n - 1) + {draw(from + n - 1)}
  }

  /** The rescue board setupBoard renders: every cell of the grid, all water. */
  function WaterBoard(): (b: map<Pos, CellMark>)
    ensures forall p :: p in b <==> OnGrid(p)
    ensures forall p :: p in b ==> b[p] == Water
  {
    map p | p in AllCells(BoardSize) :: Water
  }

  /** updateTimerDisplay: the countdown as `m:ss`, which reads back as the seconds left, and the warning below 15 s. */
  function TimerDisplay(timeLeft: nat): (v: TimerView)
    ensures Text.ParseClock(v.text) == Some(timeLeft)
    ensures v.warning <==> timeLeft < WarningSeconds
  {
    Text.CountdownClockRoundTrip(timeLeft);
    TimerView(Text.CountdownClock(timeLeft), timeLeft < WarningSeconds)
  }

  /** A draw among the first `n` is in the drawn set. */
  lemma {:induction false} DrawnContains(draw: nat -> Pos, from: nat, n: nat, k: nat)
    requires k < n
    ensures draw(from + k) in DrawnCells(draw, from, n)
  {
    if k < n - 1 {
      DrawnContains(draw, from, n - 1, k);
    }
  }

  /** Draws that stay on the grid name grid cells only. */
  lemma {:induction false} DrawnOnGrid(draw: nat -> Pos, from: nat, n: nat)
    requires forall k :: OnGrid(draw(k))
    ensures DrawnCells(draw, from, n) <= AllCells(BoardSize)
  {
    if n > 0 {
      DrawnOnGrid(draw, from, n - 1);
      var p := draw(from + n - 1);
      assert p == Pos(p.row, p.col);
    }
  }

  /**
   * setupBoard's loop stops only once `targets` distinct cells are drawn, so
   * a mission with more than 100 survivors never gets past it.
   */
  lemma SetupNeedsRoom(draw: nat -> Pos, from: nat, n: nat, targets: nat)
    requires forall k :: OnGrid(draw(k))
    requires targets <= |DrawnCells(draw, from, n)|
    ensures targets <= BoardSize * BoardSize
  {
    DrawnOnGrid(draw, from, n);
    SubsetCard(DrawnCells(draw, from, n), AllCells(BoardSize));
    AllCellsCard(BoardSize);
  }

  /** The oracle that walks the grid row by row. */
  function Sweep(k: nat): (p: Pos)
    ensures OnGrid(p)
  {
    Pos((k / BoardSize) % BoardSize, k % BoardSize)
  }

  /** With up to 100 survivors some oracle lets setupBoard finish: sweeping the grid draws all 100 cells. */
  lemma SetupHasRoom(targets: nat)
    requires targets <= BoardSize * BoardSize
    ensures targets <= |DrawnCells(Sweep, 0, BoardSize * BoardSize)|
  {
    var n := BoardSize * BoardSize;
    forall p | p in AllCells(BoardSize)
      ensures p in DrawnCells(Sweep, 0, n)
    {
      var k := p.row * BoardSize + p.col;
      assert Sweep(k) == p;
      DrawnContains(Sweep, 0, n, k);
    }
    AllCellsCard(BoardSize);
    SubsetCard(AllCells(BoardSize), DrawnCells(Sweep, 0, n));
  }

  /** Every listed mission has room for its survivors and time on the clock. */
  lemma MissionsPlayable()
    ensures forall m :: m in Missions ==>
      1 <= m.timeLimit && m.targets <= |DrawnCells(Sweep, 0, BoardSize * BoardSize)|
  {
    SetupHasRoom(10);
  }

  class SosMode {
    var isActive: bool
    var currentMission: Option<Mission>
    var savedCount: nat
    var targetCount: nat
    var timeLeft: int
    var isClicking: bool
    /** `shotsLocal` and `hitsLocal`: reset by prepareMission and never counted up. */
    var shotsLocal: nat
    var hitsLocal: nat
    /** `hiddenSurvivors`, with each `${r},${c}` key as a Pos. */
    var survivors: set<Pos>
    /** The rendered rescue board. */
    var cells: map<Pos, CellMark>
    /** The attempt whose 350 ms callback is scheduled and has not run. */
    var pending: Option<PendingRescue>
    /** The result screen: None before any game ends, else whether the last endGame was a win. */
    var outcome: Option<bool>
    /** `window.GameStats.shots` and `.hits`, written only when `statsLinked`. */
    var statsShots: nat
    var statsHits: nat
    /** Whether `window.GameStats` names an object at all. */
    const statsLinked: bool
    /** The cells shown as rescued. */
    ghost var rescued: set<Pos>

    ghost predicate Valid()
      reads this
    {
      && BoardValid()
      && statsHits <= statsShots
      && 0 <= timeLeft
      && (isActive ==> 1 <= timeLeft)
    }

    /**
     * The board invariant: `targetCount` distinct survivors on the grid, the
     * rescued marks exactly the saved survivors, no miss on a survivor, and a
     * scheduled callback exactly while clicks are blocked.
     */
    ghost predicate BoardValid()
      reads this`survivors, this`targetCount, this`cells, this`rescued, this`savedCount
      reads this`isClicking, this`pending
    {
      && (forall p :: p in survivors ==> OnGrid(p))
      && |survivors| == targetCount
      && (forall p :: p in cells && cells[p] == Rescued ==> p in rescued)
      && (forall p :: p in rescued ==> p in cells && cells[p] == Rescued && p in survivors)
      && (forall p :: p in cells && cells[p] == Missed ==> p !in survivors)
      && savedCount == |rescued|
      && (isClicking <==> pending.Some?)
      && (pending.Some? ==> Scheduled(pending.value))
    }

    /** A scheduled callback is for an untouched cell, and knows whether a survivor is there. */
    ghost predicate Scheduled(a: PendingRescue)
      reads this`cells, this`survivors
    {
      a.pos in cells && cells[a.pos] == Water && (a.isHit <==> a.pos in survivors)
    }

    /** The object literal as the page loads it. */
    constructor (statsLinked: bool)
      ensures Valid() && !isActive && currentMission == None && outcome == None
      ensures savedCount == 0 && targetCount == 0 && timeLeft == 0 && !isClicking
      ensures survivors == {} && cells == map[] && pending == None
      ensures statsShots == 0 && statsHits == 0 && this.statsLinked == statsLinked
    {
      isActive := false;
      currentMission := None;
      savedCount := 0;
      targetCount := 0;
      timeLeft := 0;
      isClicking := false;
      shotsLocal := 0;
      hitsLocal := 0;
      survivors := {};
      cells := map[];
      pending := None;
      outcome := None;
      statsShots := 0;
      statsHits := 0;
      this.statsLinked := statsLinked;
      rescued := {};
    }

    /**
     * prepareMission and the startBattle it calls: the counters reset, the
     * board laid out with `mission.targets` survivors, the countdown started
     * and `GameStats.shots`/`.hits` zeroed when linked. A callback still
     * scheduled from the previous game is dropped.
     */
    method PrepareMission(mission: Mission, draw: nat -> Pos, from: nat) returns (used: nat)
      requires Valid() && 1 <= mission.timeLimit
      requires forall k :: OnGrid(draw(k))
      requires exists n :: mission.targets <= |DrawnCells(draw, from, n)|
      modifies this`isActive, this`currentMission, this`targetCount, this`savedCount, this`timeLeft
      modifies this`isClicking, this`pending, this`outcome, this`shotsLocal, this`hitsLocal, this`rescued
      modifies this`cells, this`survivors, this`statsShots, this`statsHits
      ensures Valid() && Started(mission)
      ensures cells == WaterBoard()
      ensures survivors == DrawnCells(draw, from, used) && |survivors| == mission.targets
      ensures statsShots == (if statsLinked then 0 else old(statsShots))
      ensures statsHits == (if statsLinked then 0 else old(statsHits))
    {
      ResetMission(mission);
      used := SetupBoard(draw, from);
      ResetStats();
      FreshBoardValid(mission);
    }

    /** startBattle zeroes `GameStats.shots` and `.hits` when the object is there. */
    method ResetStats()
      requires statsHits <= statsShots
      modifies this`statsShots, this`statsHits
      ensures statsHits <= statsShots
      ensures statsShots == (if statsLinked then 0 else old(statsShots))
      ensures statsHits == (if statsLinked then 0 else old(statsHits))
    {
      if statsLinked {
        statsShots := 0;
        statsHits := 0;
      }
    }

    /**
     * What prepareMission sets before the board is laid out: the game live
     * with `mission` loaded, its counters reset, no attempt in progress and
     * no result shown.
     */
    ghost predicate Started(mission: Mission)
      reads this`isActive, this`currentMission, this`targetCount, this`savedCount, this`timeLeft
      reads this`isClicking, this`pending, this`outcome, this`shotsLocal, this`hitsLocal
    {
      && isActive && currentMission == Some(mission) && outcome == None
      && targetCount == mission.targets && savedCount == 0 && timeLeft == mission.timeLimit
      && !isClicking && pending == None && shotsLocal == 0 && hitsLocal == 0
    }

    /** The field resets of prepareMission. */
    method ResetMission(mission: Mission)
      modifies this`isActive, this`currentMission, this`targetCount, this`savedCount, this`timeLeft
      modifies this`isClicking, this`pending, this`outcome, this`shotsLocal, this`hitsLocal, this`rescued
      ensures Started(mission) && rescued == {}
    {
      isActive := true;
      currentMission := Some(mission);
      targetCount := mission.targets;
      savedCount := 0;
      timeLeft := mission.timeLimit;
      isClicking := false;
      pending := None;
      outcome := None;
      shotsLocal := 0;
      hitsLocal := 0;
      rescued := {};
    }

    /** A freshly laid-out board with nothing searched or scheduled is a valid game state. */
    lemma FreshBoardValid(mission: Mission)
      requires Started(mission) && 1 <= mission.timeLimit && cells == WaterBoard() && rescued == {}
      requires (forall p :: p in survivors ==> OnGrid(p)) && |survivors| == targetCount
      requires statsHits <= statsShots
      ensures Valid()
    {
    }

    /**
     * setupBoard: an all-water board, then survivors drawn until `targetCount`
     * distinct cells are hidden. `used` is the number of draws it took; every
     * shorter prefix of the draws names too few cells.
     */
    method SetupBoard(draw: nat -> Pos, from: nat) returns (used: nat)
      requires forall k :: OnGrid(draw(k))
      requires exists n :: targetCount <= |DrawnCells(draw, from, n)|
      modifies this`cells, this`survivors
      ensures cells == WaterBoard()
      ensures survivors == DrawnCells(draw, from, used) && |survivors| == targetCount
      ensures forall p :: p in survivors ==> OnGrid(p)
      ensures forall j: nat :: j < used ==> |DrawnCells(draw, from, j)| < targetCount
    {
      cells := WaterBoard();
      used := HideSurvivors(draw, from);
    }

    /** The `while` loop of setupBoard: draw cells until `targetCount` distinct ones are hidden. */
    method HideSurvivors(draw: nat -> Pos, from: nat) returns (used: nat)
      requires forall k :: OnGrid(draw(k))
      requires exists n :: targetCount <= |DrawnCells(draw, from, n)|
      modifies this`survivors
      ensures survivors == DrawnCells(draw, from, used) && |survivors| == targetCount
      ensures forall p :: p in survivors ==> OnGrid(p)
      ensures forall j: nat :: j < used ==> |DrawnCells(draw, from, j)| < targetCount
    {
      survivors := {};
      used := 0;
      ghost var n: nat :| targetCount <= |DrawnCells(draw, from, n)|;
      while |survivors| < targetCount
        invariant used <= n
        invariant survivors == DrawnCells(draw, from, used)
        invariant |survivors| <= targetCount
        invariant forall j: nat :: j < used ==> |DrawnCells(draw, from, j)| < targetCount
        decreases n - used
      {
        survivors := survivors + {draw(from + used)};
        used := used + 1;
      }
      DrawnOnGrid(draw, from, used);
      forall p | p in survivors
        ensures OnGrid(p)
      {
        assert p in AllCells(BoardSize);
      }
    }

    /**
     * The click on cell (r, c): ignored while the game is over, while another
     * attempt is pending, or on a cell already searched; otherwise it blocks
     * further clicks and schedules the resolution with the survivor test
     * taken now.
     */
    method HandleRescueAttempt(r: int, c: int)
      requires Valid() && Pos(r, c) in cells
      modifies this`isClicking, this`pending
      ensures Valid()
      ensures !old(isActive) || old(isClicking) || old(cells[Pos(r, c)]) != Water ==>
        isClicking == old(isClicking) && pending == old(pending)
      ensures old(isActive) && !old(isClicking) && old(cells[Pos(r, c)]) == Water ==>
        isClicking && pending == Some(PendingRescue(Pos(r, c), Pos(r, c) in survivors))
    {
      if !isActive || isClicking || cells[Pos(r, c)] != Water {
        return;
      }
      isClicking := true;
      pending := Some(PendingRescue(Pos(r, c), Pos(r, c) in survivors));
    }

    /**
     * The attempt's callback: the cell becomes rescued or missed, a rescue
     * counts as saved, GameStats counts the shot (and the hit) when linked,
     * the win is checked, and clicks are allowed again. The callback does not
     * look at `isActive`, so it also runs after the countdown ended the game.
     */
    method ResolveRescue()
      requires Valid() && pending.Some?
      modifies this`cells, this`savedCount, this`rescued, this`statsShots, this`statsHits
      modifies this`isActive, this`outcome, this`isClicking, this`pending
      ensures Valid()
      ensures !isClicking && pending == None
      ensures cells == old(cells)[old(pending.value.pos) := if old(pending.value.isHit) then Rescued else Missed]
      ensures savedCount == old(savedCount) + (if old(pending.value.isHit) then 1 else 0)
      ensures statsShots == old(statsShots) + (if statsLinked then 1 else 0)
      ensures statsHits == old(statsHits) + (if statsLinked && old(pending.value.isHit) then 1 else 0)
      ensures savedCount >= targetCount ==> !isActive && outcome == Some(true)
      ensures savedCount < targetCount ==> isActive == old(isActive) && outcome == old(outcome)
    {
      Settle(pending.value);
      CheckWinCondition();
    }

    /**
     * The bookkeeping of the callback: the mark and the saved count, the
     * GameStats counters, and clicks allowed again. The source clears
     * `isClicking` after checkWinCondition, which neither reads nor writes it.
     */
    method Settle(a: PendingRescue)
      requires Valid() && pending == Some(a)
      modifies this`cells, this`savedCount, this`rescued, this`statsShots, this`statsHits
      modifies this`isClicking, this`pending
      ensures Valid()
      ensures !isClicking && pending == None
      ensures cells == old(cells)[a.pos := if a.isHit then Rescued else Missed]
      ensures savedCount == old(savedCount) + (if a.isHit then 1 else 0)
      ensures statsShots == old(statsShots) + (if statsLinked then 1 else 0)
      ensures statsHits == old(statsHits) + (if statsLinked && a.isHit then 1 else 0)
    {
      Mark(a);
      if statsLinked {
        statsShots := statsShots + 1;
        if a.isHit {
          statsHits := statsHits + 1;
        }
      }
    }

    /** The cell takes its mark, a rescue is counted as saved, and the callback is done. */
    method Mark(a: PendingRescue)
      requires BoardValid() && pending == Some(a)
      modifies this`cells, this`savedCount, this`rescued, this`isClicking, this`pending
      ensures BoardValid()
      ensures !isClicking && pending == None
      ensures cells == old(cells)[a.pos := if a.isHit then Rescued else Missed]
      ensures savedCount == old(savedCount) + (if a.isHit then 1 else 0)
    {
      if a.isHit {
        cells := cells[a.pos := Rescued];
        savedCount := savedCount + 1;
        rescued := rescued + {a.pos};
      } else {
        cells := cells[a.pos := Missed];
      }
      isClicking := false;
      pending := None;
    }

    /** One second of the countdown; it shows the clock when the game is live and ends it as a loss at zero. */
    method Tick() returns (shown: Option<TimerView>)
      requires Valid()
      modifies this`timeLeft, this`isActive, this`outcome
      ensures Valid()
      ensures !old(isActive) ==> timeLeft == old(timeLeft) && !isActive && outcome == old(outcome) && shown == None
      ensures old(isActive) ==> timeLeft == old(timeLeft) - 1 && shown == Some(TimerDisplay(timeLeft))
      ensures old(isActive) ==> (isActive <==> 0 < timeLeft)
      ensures old(isActive) && timeLeft == 0 ==> outcome == Some(false)
      ensures old(isActive) && 0 < timeLeft ==> outcome == old(outcome)
    {
      if !isActive {
        return None;
      }
      timeLeft := timeLeft - 1;
      shown := Some(TimerDisplay(timeLeft));
      if timeLeft <= 0 {
        EndGame(false);
      }
    }

    /** checkWinCondition: the game ends as a win once every survivor is saved. */
    method CheckWinCondition()
      modifies this`isActive, this`outcome
      ensures savedCount >= targetCount ==> !isActive && outcome == Some(true)
      ensures savedCount < targetCount ==> isActive == old(isActive) && outcome == old(outcome)
    {
      if savedCount >= targetCount {
        EndGame(true);
      }
    }

    /** endGame: the game stops (and with it the countdown) and the result screen shows win or loss. */
    method EndGame(isWin: bool)
      modifies this`isActive, this`outcome
      ensures !isActive && outcome == Some(isWin)
    {
      isActive := false;
      outcome := Some(isWin);
    }

    /** The saved counter never passes the number of hidden survivors. */
    lemma SavedAtMostTarget()
      requires Valid()
      ensures savedCount <= targetCount
    {
      SubsetCard(rescued, survivors);
    }

    /** A win leaves every survivor rescued: the saved counter reaches the target only when the rescued cells are all the survivors. */
    lemma WinRescuesAll()
      requires Valid() && savedCount >= targetCount
      ensures rescued == survivors
      ensures forall p :: p in survivors ==> p in cells && cells[p] == Rescued
    {
      SubsetCard(rescued, survivors);
      SubsetSameCard(rescued, survivors);
    }
  }
}
