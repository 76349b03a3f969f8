/**
 * Ships and boards of the battle engine: footprints, placement validation,
 * placement and removal, attack resolution and random fleet placement
 * (script-core.js:34-211; script.js:36-213 holds the same two classes).
 *
 * A shot key `${row},${col}` is modelled as the coordinate `Pos(row, col)`;
 * the key is injective, so sets of keys and sets of coordinates behave alike.
 * A grid cell is a record whose `ship` field is a reference to a Ship (or null),
 * as in the source; a ship's emoji is presentation and is left out.
 */
module Fleet {
  import opened Wrappers

  /** CONFIG.BOARD_SIZE */
  const BoardSize: nat := 10
  /** The bound on placement attempts per ship in placeShipsRandomly. */
  const AttemptLimit: nat := 100

  datatype Pos = Pos(row: int, col: int)

  /** One grid cell: the ship occupying it (or null) and the two shot flags. */
  datatype Cell = Cell(ship: Ship?, isHit: bool, isMiss: bool)

  const EmptyCell: Cell := Cell(null, false, false)

  /** What receiveAttack returns: `{valid: false, result: 'already-shot'}`, a miss, or a hit on `ship`. */
  datatype AttackResult = AlreadyShot | Miss | Hit(ship: Ship, sunk: bool)

  /** An entry of CONFIG.SHIPS: `count` ships called `name` of length `size`. */
  datatype ShipSpec = ShipSpec(name: string, size: nat, count: nat)

  /** One random placement attempt: orientation, row and column as drawn from Math.random. */
  datatype Attempt = Attempt(vertical: bool, row: int, col: int)

  /** CONFIG.SHIPS */
  const StandardFleet: seq<ShipSpec> := [
    ShipSpec("Porta-Aviões", 5, 1),
    ShipSpec("Encouraçado", 4, 1),
    ShipSpec("Cruzador", 3, 1),
    ShipSpec("Submarino", 3, 1),
    ShipSpec("Destroyer", 2, 1)
  ]

  predicate Distinct<T(==)>(s: seq<T>) {
    forall i, j :: 0 <= i < j < |s| ==> s[i] != s[j]
  }

  /** The cells a ship of length `size` covers from `origin`: along the row, or down the column. */
  function Footprint(origin: Pos, vertical: bool, size: nat): seq<Pos> {
    seq(size, i => if vertical then Pos(origin.row + i, origin.col) else Pos(origin.row, origin.col + i))
  }

  /** The cells a random attempt would give a ship of length `size`. */
  function AttemptFootprint(a: Attempt, size: nat): seq<Pos> {
    Footprint(Pos(a.row, a.col), a.vertical, size)
  }

  /** The cells of an n-by-n board. */
  function AllCells(n: nat): set<Pos> {
    set r, c | 0 <= r < n && 0 <= c < n :: Pos(r, c)
  }

  /** The fleet a spec list describes, one entry per ship, in creation order. */
  function Expand(specs: seq<ShipSpec>): (e: seq<ShipSpec>)
    ensures forall i :: 0 <= i < |e| ==> e[i] in specs
  {
    if specs == [] then []
    else
      var init, last := specs[..|specs| - 1], specs[|specs| - 1];
      assert forall x :: x in init ==> x in specs;
      Expand(init) + seq(last.count, _ => last)
  }

  /** The total length of a list of ship kinds. */
  function TotalSize(specs: seq<ShipSpec>): nat {
    if specs == [] then 0 else specs[0].size + TotalSize(specs[1..])
  }

  /** No two cells of a footprint coincide. */
  lemma FootprintDistinct(origin: Pos, vertical: bool, size: nat)
    ensures Distinct(Footprint(origin, vertical, size))
  {
  }

  /** A footprint lies on an n-by-n board exactly when its first and last cells do. */
  lemma {:induction false} FootprintOnBoard(origin: Pos, vertical: bool, size: nat, n: nat)
    requires size > 0
    ensures var fp := Footprint(origin, vertical, size);
      (forall p :: p in fp ==> p in AllCells(n)) <==> (fp[0] in AllCells(n) && fp[size - 1] in AllCells(n))
  {
    var fp := Footprint(origin, vertical, size);
    if fp[0] in AllCells(n) && fp[size - 1] in AllCells(n) {
      var last := fp[size - 1];
      assert 0 <= origin.row < n && 0 <= origin.col < n;
      assert 0 <= last.row < n && 0 <= last.col < n;
      forall p | p in fp ensures p in AllCells(n) {
        var i :| 0 <= i < size && fp[i] == p;
        assert 0 <= p.row < n && 0 <= p.col < n;
      }
    }
  }

  /** A sequence without repetitions has as many distinct elements as entries. */
  lemma {:induction false} DistinctCard<T>(s: seq<T>)
    requires Distinct(s)
    ensures |set x | x in s| == |s|
  {
    if s != [] {
      var t := s[1..];
      assert Distinct(t);
      DistinctCard(t);
      assert (set x | x in s) == (set x | x in t) + {s[0]};
      assert s[0] !in (set x | x in t);
    }
  }

  /** A subset is no larger than its superset. */
  lemma {:induction false} SubsetCard<T>(a: set<T>, b: set<T>)
    requires a <= b
    ensures |a| <= |b|
  {
    if a != {} {
      var x :| x in a;
      SubsetCard(a - {x}, b - {x});
    }
  }

  /** A subset as large as its superset is the whole superset. */
  lemma SubsetSameCard<T>(a: set<T>, b: set<T>)
    requires a <= b && |a| == |b|
    ensures a == b
  {
    if a != b {
      var x :| x in b && x !in a;
      SubsetCard(a, b - {x});
    }
  }

  function RowCells(r: int, n: nat): set<Pos> {
    set c | 0 <= c < n :: Pos(r, c)
  }

  lemma {:induction false} RowCellsCard(r: int, n: nat)
    ensures |RowCells(r, n)| == n
  {
    if n > 0 {
      RowCellsCard(r, n - 1);
      assert RowCells(r, n) == RowCells(r, n - 1) + {Pos(r, n - 1)};
    }
  }

  function FirstRows(rows: nat, n: nat): set<Pos> {
    set r, c | 0 <= r < rows && 0 <= c < n :: Pos(r, c)
  }

  /** The first `rows` rows are the first `rows - 1` rows plus the last of them, which overlap nowhere. */
  lemma FirstRowsSplit(rows: nat, n: nat)
    requires rows > 0
    ensures FirstRows(rows, n) == FirstRows(rows - 1, n) + RowCells(rows - 1, n)
    ensures FirstRows(rows - 1, n) !! RowCells(rows - 1, n)
  {
    var prev, last := FirstRows(rows - 1, n), RowCells(rows - 1, n);
    forall p | p in FirstRows(rows, n) ensures p in prev + last {
      if p.row < rows - 1 { assert p in prev; } else { assert p in last; }
    }
  }

  lemma {:induction false} FirstRowsCard(rows: nat, n: nat)
    ensures |FirstRows(rows, n)| == rows * n
  {
    if rows > 0 {
      var prev, last := FirstRows(rows - 1, n), RowCells(rows - 1, n);
      FirstRowsCard(rows - 1, n);
      RowCellsCard(rows - 1, n);
      FirstRowsSplit(rows, n);
      assert |prev + last| == |prev| + |last|;
      assert rows * n == (rows - 1) * n + n;
    }
  }

  /** An n-by-n board has n*n cells. */
  lemma AllCellsCard(n: nat)
    ensures |AllCells(n)| == n * n
  {
    FirstRowsCard(n, n);
    assert AllCells(n) == FirstRows(n, n);
  }

  /** A set of coordinates smaller than the board misses some cell of it. */
  lemma SomeCellOutside(s: set<Pos>, n: nat)
    requires |s| < n * n
    ensures exists p :: p in AllCells(n) && p !in s
  {
    AllCellsCard(n);
    if AllCells(n) <= s {
      SubsetCard(AllCells(n), s);
    }
  }

  class Ship {
    const name: string
    const size: nat
    var positions: seq<Pos>
    var hits: set<Pos>
    var isVertical: bool

    constructor (name: string, size: nat)
      ensures this.name == name && this.size == size
      ensures positions == [] && hits == {} && !isVertical
    {
      this.name := name;
      this.size := size;
      positions := [];
      hits := {};
      isVertical := false;
    }

    method Rotate()
      modifies this`isVertical
      ensures isVertical == !old(isVertical)
    {
      isVertical := !isVertical;
    }

    predicate IsSunk()
      reads this
    {
      |hits| == size
    }

    /** Records a hit; hitting the same cell twice adds nothing. */
    method Hit(position: Pos) returns (sunk: bool)
      modifies this`hits
      ensures hits == old(hits) + {position}
      ensures position in old(hits) ==> hits == old(hits)
      ensures sunk == IsSunk()
    {
      hits := hits + {position};
      sunk := IsSunk();
    }

    method GetPositions(startRow: int, startCol: int) returns (positions: seq<Pos>)
      ensures |positions| == size
      ensures forall i :: 0 <= i < size ==>
        positions[i] == if isVertical then Pos(startRow + i, startCol) else Pos(startRow, startCol + i)
      ensures positions == Footprint(Pos(startRow, startCol), isVertical, size)
    {
      positions := [];
      for i := 0 to size
        invariant |positions| == i
        invariant forall j :: 0 <= j < i ==>
          positions[j] == if isVertical then Pos(startRow + j, startCol) else Pos(startRow, startCol + j)
      {
        if isVertical {
          positions := positions + [Pos(startRow + i, startCol)];
        } else {
          positions := positions + [Pos(startRow, startCol + i)];
        }
      }
    }
  }

  /** Removes every occurrence of `s`, keeping the order of the rest (`ships.filter(x => x !== s)`). */
  function Without(ships: seq<Ship>, s: Ship): (r: seq<Ship>)
    ensures forall i :: 0 <= i < |r| ==> r[i] in ships && r[i] != s
    ensures forall i :: 0 <= i < |ships| && ships[i] != s ==> ships[i] in r
    ensures s !in ships ==> r == ships
    ensures Distinct(ships) ==> Distinct(r)
  {
    if ships == [] then []
    else
      var rest := Without(ships[1..], s);
      if ships[0] == s then rest
      else
        assert Distinct(ships) ==> ships[0] !in ships[1..];
        [ships[0]] + rest
  }

  class Board {
    const size: nat
    var grid: array2<Cell>
    var ships: seq<Ship>
    var shots: set<Pos>
    var hits: set<Pos>
    var misses: set<Pos>
    /** The objects the invariant depends on: the board, its grid and its ships. */
    ghost var Repr: set<object>

    /**
     * The board invariant: every ship on the board covers its own footprint
     * cells and only those carry a reference to it; the shots are exactly
     * the hits and the misses, which are disjoint and on the board.
     */
    ghost predicate Valid()
      reads this, Repr
    {
      && this in Repr && grid in Repr && (forall s :: s in ships ==> s in Repr)
      && grid.Length0 == size && grid.Length1 == size
      && Distinct(ships)
      && (forall i :: 0 <= i < |ships| ==> Placed(ships[i]))
      && (forall r, c :: 0 <= r < size && 0 <= c < size ==> CellRecorded(grid[r, c], Pos(r, c)))
      && (forall p :: p in shots <==> p in hits || p in misses) && (forall p :: p in hits ==> p !in misses)
      && (forall p :: p in shots ==> IsValidPosition(p.row, p.col))
    }

    /** A cell's ship holds the cell among its positions, and its hit and miss flags are recorded shots. */
    ghost predicate CellRecorded(cell: Cell, p: Pos)
      reads this, ships
    {
      && (cell.ship != null ==> cell.ship in ships && p in cell.ship.positions)
      && (cell.isHit ==> p in hits)
      && (cell.isMiss ==> p in misses)
    }

    /** Ship `s` lies on this board: its cells are distinct, in bounds, point at it, and its hits are among them. */
    ghost predicate Placed(s: Ship)
      reads this, grid, s
      requires grid.Length0 == size && grid.Length1 == size
    {
      && |s.positions| == s.size && Distinct(s.positions)
      && (forall p :: p in s.positions ==> IsValidPosition(p.row, p.col) && grid[p.row, p.col].ship == s)
      && (forall p :: p in s.hits ==> p in s.positions && p in hits)
    }

    constructor (size: nat)
      ensures Valid() && fresh(Repr) && this.size == size
      ensures ships == [] && shots == {} && hits == {} && misses == {}
      ensures forall r, c :: 0 <= r < size && 0 <= c < size ==> grid[r, c] == EmptyCell
    {
      var g := CreateGrid(size);
      this.size := size;
      grid := g;
      ships := [];
      shots, hits, misses := {}, {}, {};
      new;
      Repr := {this, grid};
    }

    static method CreateGrid(size: nat) returns (grid: array2<Cell>)
      ensures fresh(grid) && grid.Length0 == size && grid.Length1 == size
      ensures forall r, c :: 0 <= r < size && 0 <= c < size ==> grid[r, c] == EmptyCell
    {
      grid := new Cell[size, size];
      for i := 0 to size
        invariant forall r, c :: 0 <= r < i && 0 <= c < size ==> grid[r, c] == EmptyCell
      {
        for j := 0 to size
          invariant forall r, c :: 0 <= r < i && 0 <= c < size ==> grid[r, c] == EmptyCell
          invariant forall c :: 0 <= c < j ==> grid[i, c] == EmptyCell
        {
          grid[i, j] := EmptyCell;
        }
      }
    }

    predicate IsValidPosition(row: int, col: int) {
      0 <= row < size && 0 <= col < size
    }

    /** The valid coordinates are exactly the board's size×size cells. */
    lemma ValidPositionIsCell(row: int, col: int)
      ensures IsValidPosition(row, col) <==> Pos(row, col) in AllCells(size)
    {
      if IsValidPosition(row, col) {
        assert Pos(row, col) in AllCells(size);
      }
    }

    /** Every cell of `fp` is on the board and free. */
    ghost predicate CanPlace(fp: seq<Pos>)
      reads this, grid
      requires grid.Length0 == size && grid.Length1 == size
    {
      forall p :: p in fp ==> IsValidPosition(p.row, p.col) && grid[p.row, p.col].ship == null
    }

    method CanPlaceShip(ship: Ship, startRow: int, startCol: int) returns (ok: bool)
      requires grid.Length0 == size && grid.Length1 == size
      ensures ok <==> CanPlace(Footprint(Pos(startRow, startCol), ship.isVertical, ship.size))
    {
      var positions := ship.GetPositions(startRow, startCol);
      for i := 0 to |positions|
        invariant forall j :: 0 <= j < i ==>
          IsValidPosition(positions[j].row, positions[j].col) && grid[positions[j].row, positions[j].col].ship == null
      {
        var pos := positions[i];
        if !IsValidPosition(pos.row, pos.col) {
          return false;
        }
        if grid[pos.row, pos.col].ship != null {
          return false;
        }
      }
      return true;
    }

    method PlaceShip(ship: Ship, startRow: int, startCol: int) returns (ok: bool)
      requires Valid()
      requires ship !in ships && ship.hits == {}
      modifies this`ships, this`Repr, grid, ship`positions
      ensures Valid()
      ensures Repr == if ok then old(Repr) + {ship} else old(Repr)
      ensures ok <==> old(CanPlace(Footprint(Pos(startRow, startCol), ship.isVertical, ship.size)))
      ensures !ok ==> ships == old(ships) && ship.positions == old(ship.positions) && unchanged(grid)
      ensures ok ==> ship.positions == Footprint(Pos(startRow, startCol), ship.isVertical, ship.size)
      ensures ok ==> ships == old(ships) + [ship]
      ensures ok ==> forall r, c :: 0 <= r < size && 0 <= c < size ==>
        grid[r, c] == if Pos(r, c) in ship.positions then old(grid[r, c]).(ship := ship) else old(grid[r, c])
      ensures ok ==> Occupied() == old(Occupied()) + set p | p in ship.positions
    {
      ok := CanPlaceShip(ship, startRow, startCol);
      if !ok {
        return;
      }
      var positions := ship.GetPositions(startRow, startCol);
      FootprintDistinct(Pos(startRow, startCol), ship.isVertical, ship.size);
      AttachShip(ship, positions);
    }

    /** The committing half of placeShip: the ship takes `positions`, their cells point at it, and it joins the fleet. */
    method AttachShip(ship: Ship, positions: seq<Pos>)
      requires Valid()
      requires ship !in ships && ship.hits == {}
      requires CanPlace(positions) && Distinct(positions) && |positions| == ship.size
      modifies this`ships, this`Repr, grid, ship`positions
      ensures Valid()
      ensures Repr == old(Repr) + {ship}
      ensures ship.positions == positions && ships == old(ships) + [ship]
      ensures forall r, c :: 0 <= r < size && 0 <= c < size ==>
        grid[r, c] == if Pos(r, c) in positions then old(grid[r, c]).(ship := ship) else old(grid[r, c])
      ensures Occupied() == old(Occupied()) + set p | p in positions
    {
      ship.positions := positions;
      SetCells(positions, ship);
      ships := ships + [ship];
      Repr := Repr + {ship};
      forall i | 0 <= i < |ships| ensures Placed(ships[i]) {
        if i < |ships| - 1 {
          var s := ships[i];
          assert s == old(ships)[i] && s != ship;
          assert old(Placed(s));
          forall p | p in s.positions ensures grid[p.row, p.col].ship == s {
            assert old(grid[p.row, p.col].ship) == s;
          }
        }
      }
    }

    /** Points every cell of `cells` at `ship`, leaving the rest of the grid alone (the loop of placeShip). */
    method SetCells(cells: seq<Pos>, ship: Ship)
      requires grid.Length0 == size && grid.Length1 == size
      requires forall p :: p in cells ==> IsValidPosition(p.row, p.col)
      modifies grid
      ensures forall r, c :: 0 <= r < size && 0 <= c < size ==>
        grid[r, c] == if Pos(r, c) in cells then old(grid[r, c]).(ship := ship) else old(grid[r, c])
      ensures Occupied() == old(Occupied()) + set p | p in cells
    {
      for i := 0 to |cells|
        invariant forall r, c :: 0 <= r < size && 0 <= c < size ==>
          grid[r, c] == if Pos(r, c) in cells[..i] then old(grid[r, c]).(ship := ship) else old(grid[r, c])
      {
        var pos := cells[i];
        assert pos in cells;
        assert cells[..i + 1] == cells[..i] + [pos];
        grid[pos.row, pos.col] := grid[pos.row, pos.col].(ship := ship);
      }
      assert cells[..|cells|] == cells;
      forall p | p in AllCells(size)
        ensures p in Occupied() <==> p in old(Occupied()) || p in cells
      {
        assert grid[p.row, p.col] == if Pos(p.row, p.col) in cells then old(grid[p.row, p.col]).(ship := ship) else old(grid[p.row, p.col]);
      }
      forall p | p in cells ensures p in AllCells(size) {
        assert IsValidPosition(p.row, p.col);
      }
    }

    /** Empties the ship slot of every on-board cell in `cells`; shot marks stay. */
    method ClearCells(cells: seq<Pos>)
      requires grid.Length0 == size && grid.Length1 == size
      modifies grid
      ensures forall r, c :: 0 <= r < size && 0 <= c < size ==>
        grid[r, c] == if Pos(r, c) in cells then old(grid[r, c]).(ship := null) else old(grid[r, c])
    {
      for i := 0 to |cells|
        invariant forall r, c :: 0 <= r < size && 0 <= c < size ==>
          grid[r, c] == if Pos(r, c) in cells[..i] then old(grid[r, c]).(ship := null) else old(grid[r, c])
      {
        var pos := cells[i];
        assert cells[..i + 1] == cells[..i] + [pos];
        if IsValidPosition(pos.row, pos.col) {
          grid[pos.row, pos.col] := grid[pos.row, pos.col].(ship := null);
        }
      }
      assert cells[..|cells|] == cells;
    }

    method RemoveShip(ship: Ship)
      requires Valid()
      requires ship in ships || ship.positions == []
      modifies this`ships, grid, ship`positions
      ensures Valid()
      ensures ship.positions == []
      ensures ships == Without(old(ships), ship)
      ensures forall r, c :: 0 <= r < size && 0 <= c < size ==>
        grid[r, c] == if Pos(r, c) in old(ship.positions) then old(grid[r, c]).(ship := null) else old(grid[r, c])
    {
      ClearCells(ship.positions);
      ships := Without(ships, ship);
      ship.positions := [];
      forall i | 0 <= i < |ships| ensures Placed(ships[i]) {
        var s := ships[i];
        assert s in old(ships) && s != ship;
        var k :| 0 <= k < |old(ships)| && old(ships)[k] == s;
        assert old(Placed(ships[k]));
        forall p | p in s.positions ensures grid[p.row, p.col].ship == s {
          assert old(grid[p.row, p.col].ship) == s;
        }
      }
    }

    /**
     * A fresh shot at `t` has been recorded as receiveAttack records it: `t`
     * joins the shots and exactly one of the hits (a ship was there: the cell
     * is flagged hit and that ship, one of the board's, gains `t`) or the
     * misses (the cell is flagged miss); every other cell and every other
     * ship's hits are as before.
     */
    twostate predicate ShotRecorded(t: Pos)
      reads this, grid, ships
      requires old(grid) == grid && old(ships) == ships && grid.Length0 == size && grid.Length1 == size
      requires IsValidPosition(t.row, t.col)
    {
      && shots == old(shots) + {t}
      && (forall r, c {:trigger grid[r, c]} :: 0 <= r < size && 0 <= c < size && (r, c) != (t.row, t.col) ==> grid[r, c] == old(grid[r, c]))
      && (forall s :: s in old(ships) ==>
            s.hits == if s == old(grid[t.row, t.col].ship) then old(s.hits) + {t} else old(s.hits))
      && (old(grid[t.row, t.col].ship) == null ==>
            && misses == old(misses) + {t} && hits == old(hits)
            && grid[t.row, t.col] == old(grid[t.row, t.col]).(isMiss := true))
      && (old(grid[t.row, t.col].ship) != null ==>
            && hits == old(hits) + {t} && misses == old(misses)
            && grid[t.row, t.col] == old(grid[t.row, t.col]).(isHit := true))
    }

    method ReceiveAttack(row: int, col: int) returns (result: AttackResult)
      requires Valid() && IsValidPosition(row, col)
      modifies this`shots, this`hits, this`misses, grid, ships`hits
      ensures Valid()
      ensures forall r, c :: 0 <= r < size && 0 <= c < size ==> grid[r, c].ship == old(grid[r, c].ship)
      ensures forall s :: s in ships ==> s.positions == old(s.positions) && s.isVertical == old(s.isVertical)
      // a coordinate already shot is rejected and nothing changes
      ensures Pos(row, col) in old(shots) ==>
        && result == AlreadyShot
        && shots == old(shots) && hits == old(hits) && misses == old(misses)
        && unchanged(grid) && (forall s :: s in ships ==> s.hits == old(s.hits))
      // a fresh coordinate is recorded as a hit on the ship there, or as a miss
      ensures Pos(row, col) !in old(shots) ==> ShotRecorded(Pos(row, col))
      ensures Pos(row, col) !in old(shots) ==>
        result == if grid[row, col].ship == null then Miss else Hit(grid[row, col].ship, grid[row, col].ship.IsSunk())
    {
      var key := Pos(row, col);
      if key in shots {
        return AlreadyShot;
      }
      var cell := grid[row, col];
      if cell.ship != null {
        var sunk := RecordHit(row, col);
        result := Hit(cell.ship, sunk);
      } else {
        RecordMiss(row, col);
        result := Miss;
      }
    }

    /** The hit branch of receiveAttack: the shot, the cell's hit flag and the ship's hit are recorded. */
    method RecordHit(row: int, col: int) returns (sunk: bool)
      requires Valid() && IsValidPosition(row, col)
      requires Pos(row, col) !in shots && grid[row, col].ship != null
      modifies this`shots, this`hits, this`misses, grid, grid[row, col].ship`hits
      ensures Valid()
      ensures shots == old(shots) + {Pos(row, col)}
      ensures hits == old(hits) + {Pos(row, col)} && misses == old(misses)
      ensures forall r, c :: 0 <= r < size && 0 <= c < size ==>
        grid[r, c] == if (r, c) == (row, col) then old(grid[r, c]).(isHit := true) else old(grid[r, c])
      ensures grid[row, col].ship.hits == old(grid[row, col].ship.hits) + {Pos(row, col)}
      ensures sunk == grid[row, col].ship.IsSunk()
    {
      var ship := grid[row, col].ship;
      MarkHit(row, col);
      sunk := CreditHit(ship, Pos(row, col));
    }

    /** Records the shot and the cell's hit flag; the ship's own hit set is left to `CreditHit`. */
    method MarkHit(row: int, col: int)
      requires Valid() && IsValidPosition(row, col)
      requires Pos(row, col) !in shots && grid[row, col].ship != null
      modifies this`shots, this`hits, grid
      ensures Valid()
      ensures shots == old(shots) + {Pos(row, col)}
      ensures hits == old(hits) + {Pos(row, col)}
      ensures forall r, c :: 0 <= r < size && 0 <= c < size ==>
        grid[r, c] == if (r, c) == (row, col) then old(grid[r, c]).(isHit := true) else old(grid[r, c])
    {
      var key := Pos(row, col);
      var cell := grid[row, col];
      shots := shots + {key};
      grid[row, col] := cell.(isHit := true);
      hits := hits + {key};
      forall i | 0 <= i < |ships| ensures Placed(ships[i]) {
        assert old(Placed(ships[i]));
      }
    }

    /** Adds an already recorded hit to the hit set of the ship that owns the cell. */
    method CreditHit(ship: Ship, key: Pos) returns (sunk: bool)
      requires Valid() && ship in ships && key in ship.positions && key in hits
      modifies ship`hits
      ensures Valid()
      ensures ship.hits == old(ship.hits) + {key}
      ensures sunk == ship.IsSunk()
    {
      sunk := ship.Hit(key);
      forall i | 0 <= i < |ships| ensures Placed(ships[i]) {
        assert old(Placed(ships[i]));
      }
    }

    /** The miss branch of receiveAttack: the shot and the cell's miss flag are recorded. */
    method RecordMiss(row: int, col: int)
      requires Valid() && IsValidPosition(row, col)
      requires Pos(row, col) !in shots && grid[row, col].ship == null
      modifies this`shots, this`misses, grid
      ensures Valid()
      ensures shots == old(shots) + {Pos(row, col)}
      ensures misses == old(misses) + {Pos(row, col)} && hits == old(hits)
      ensures forall r, c :: 0 <= r < size && 0 <= c < size ==>
        grid[r, c] == if (r, c) == (row, col) then old(grid[r, c]).(isMiss := true) else old(grid[r, c])
    {
      var key := Pos(row, col);
      var cell := grid[row, col];
      shots := shots + {key};
      grid[row, col] := cell.(isMiss := true);
      misses := misses + {key};
      forall i | 0 <= i < |ships| ensures Placed(ships[i]) {
        assert old(Placed(ships[i]));
      }
    }

    function AllShipsSunk(): (r: bool)
      requires forall s :: s in ships ==> s in Repr
      reads this, Repr
      ensures ships == [] ==> r
    {
      forall i :: 0 <= i < |ships| ==> ships[i].IsSunk()
    }

    function GetCell(row: int, col: int): (cell: Option<Cell>)
      reads this, grid
      requires grid.Length0 == size && grid.Length1 == size
      ensures cell.Some? <==> IsValidPosition(row, col)
      ensures cell.Some? ==> cell.value == grid[row, col]
    {
      if !IsValidPosition(row, col) then None else Some(grid[row, col])
    }

    /** No cell belongs to two ships. */
    lemma NoOverlap()
      requires Valid()
      ensures forall i, j, p :: 0 <= i < j < |ships| && p in ships[i].positions ==> p !in ships[j].positions
    {
      forall i, j, p | 0 <= i < j < |ships| && p in ships[i].positions
        ensures p !in ships[j].positions
      {
        assert Placed(ships[i]) && Placed(ships[j]);
      }
    }

    /** A ship on the board has never been hit more often than its length. */
    lemma HitsWithinSize(s: Ship)
      requires Valid() && s in ships
      ensures |s.hits| <= s.size
      ensures s.hits <= set p | p in s.positions
    {
      var i :| 0 <= i < |ships| && ships[i] == s;
      assert Placed(s);
      DistinctCard(s.positions);
      var cells := set p | p in s.positions;
      SubsetCard(s.hits, cells);
    }

    /** A ship is sunk exactly when every one of its cells has been hit. */
    lemma SunkIffAllCellsHit(s: Ship)
      requires Valid() && s in ships
      ensures s.IsSunk() <==> forall p :: p in s.positions ==> p in s.hits
    {
      HitsWithinSize(s);
      var cells := set p | p in s.positions;
      DistinctCard(s.positions);
      if forall p :: p in s.positions ==> p in s.hits {
        assert s.hits == cells;
      }
      if s.IsSunk() {
        SubsetSameCard(s.hits, cells);
      }
    }

    /** The fleet is sunk exactly when every cell of every ship has been hit. */
    lemma AllSunkIffAllShipCellsHit()
      requires Valid()
      ensures AllShipsSunk() <==>
        forall i, p :: 0 <= i < |ships| && p in ships[i].positions ==> p in ships[i].hits
    {
      forall i | 0 <= i < |ships| {
        SunkIffAllCellsHit(ships[i]);
      }
    }

    /** Once the fleet is sunk, every occupied cell is among the board's hits. */
    lemma AllSunkOccupiedCellsShot()
      requires Valid() && AllShipsSunk()
      ensures forall r, c :: 0 <= r < size && 0 <= c < size && grid[r, c].ship != null ==> Pos(r, c) in hits
    {
      AllSunkIffAllShipCellsHit();
      forall r, c | 0 <= r < size && 0 <= c < size && grid[r, c].ship != null
        ensures Pos(r, c) in hits
      {
        var s := grid[r, c].ship;
        var i :| 0 <= i < |ships| && ships[i] == s;
        assert Placed(s);
      }
    }

    /** receiveAttack at a cell not yet shot: a hit exactly when a ship was there, and never already-shot. */
    method ReceiveFreshAttack(t: Pos) returns (result: AttackResult)
      requires Valid() && IsValidPosition(t.row, t.col) && t !in shots
      modifies this`shots, this`hits, this`misses, grid, ships`hits
      ensures Valid()
      ensures ShotRecorded(t)
      ensures result != AlreadyShot && (result.Hit? <==> old(grid[t.row, t.col].ship) != null)
      ensures |shots| == |old(shots)| + 1 && |hits| == |old(hits)| + (if result.Hit? then 1 else 0)
    {
      result := ReceiveAttack(t.row, t.col);
      ShotCounted(t);
    }

    /** A fresh shot adds one to the shots, and one to the hits exactly when a ship was there. */
    twostate lemma ShotCounted(t: Pos)
      requires old(Valid()) && old(grid) == grid && old(ships) == ships && grid.Length0 == size && grid.Length1 == size
      requires IsValidPosition(t.row, t.col) && t !in old(shots) && ShotRecorded(t)
      ensures |shots| == |old(shots)| + 1
      ensures |hits| == |old(hits)| + (if old(grid[t.row, t.col].ship) != null then 1 else 0)
    {
      assert t !in old(hits);
    }

    /** A board none of whose objects changed is still consistent. */
    twostate lemma StaysValid()
      requires old(Valid()) && unchanged(this) && unchanged(Repr)
      ensures Valid()
    {
    }

    /** Shots are the disjoint union of hits and misses, so they add up. */
    lemma ShotsAreHitsPlusMisses()
      requires Valid()
      ensures |shots| == |hits| + |misses|
      ensures forall p :: p in shots <==> (p in hits) != (p in misses)
    {
      assert shots == hits + misses;
      assert hits * misses == {};
    }

    /** While fewer than size*size cells have been shot, some cell on the board has not. */
    lemma UnshotCellExists()
      requires Valid() && |shots| < size * size
      ensures exists r, c :: IsValidPosition(r, c) && Pos(r, c) !in shots
    {
      SomeCellOutside(shots, size);
      var p :| p in AllCells(size) && p !in shots;
      assert IsValidPosition(p.row, p.col);
    }

    /** There are at most size*size shots, and every cell has been shot exactly when there are that many. */
    lemma FullBoardAllShot()
      requires Valid()
      ensures |shots| <= size * size
      ensures (forall r, c :: IsValidPosition(r, c) ==> Pos(r, c) in shots) <==> |shots| == size * size
    {
      AllCellsCard(size);
      assert shots <= AllCells(size) by {
        forall p | p in shots ensures p in AllCells(size) {
          assert IsValidPosition(p.row, p.col);
        }
      }
      SubsetCard(shots, AllCells(size));
      if forall r, c :: IsValidPosition(r, c) ==> Pos(r, c) in shots {
        assert shots == AllCells(size);
      }
      if |shots| == size * size {
        SubsetSameCard(shots, AllCells(size));
        forall r, c | IsValidPosition(r, c) ensures Pos(r, c) in shots {
          assert Pos(r, c) in AllCells(size);
        }
      }
    }

    /** No cell of the grid carries a hit or a miss mark. */
    ghost predicate Unmarked()
      reads this`grid, grid
      requires grid.Length0 == size && grid.Length1 == size
    {
      forall r, c :: 0 <= r < size && 0 <= c < size ==> !grid[r, c].isHit && !grid[r, c].isMiss
    }

    /** The cells of the board that hold a ship. */
    ghost function Occupied(): set<Pos>
      reads this`grid, grid
      requires grid.Length0 == size && grid.Length1 == size
    {
      set p | p in AllCells(size) && grid[p.row, p.col].ship != null
    }

    /** Ship `s` lies where one of the draws from `from` up to `next` put it. */
    ghost predicate Drawn(s: Ship, draw: nat -> Attempt, from: nat, next: nat)
      reads s
    {
      exists k: nat :: from <= k < next && s.positions == AttemptFootprint(draw(k), s.size)
    }

    /** Every cell of `fp` is on the board and outside `occupied`. */
    predicate Fits(fp: seq<Pos>, occupied: set<Pos>) {
      forall p :: p in fp ==> IsValidPosition(p.row, p.col) && p !in occupied
    }

    /** None of the AttemptLimit draws from `start` on fits a ship of length `len` around `occupied`. */
    ghost predicate NoDrawFits(draw: nat -> Attempt, start: nat, len: nat, occupied: set<Pos>) {
      forall k: nat :: start <= k < start + AttemptLimit ==> !Fits(AttemptFootprint(draw(k), len), occupied)
    }

    /** A footprint can be placed exactly when it fits around the occupied cells. */
    lemma CanPlaceFits(fp: seq<Pos>)
      requires grid.Length0 == size && grid.Length1 == size
      ensures CanPlace(fp) <==> Fits(fp, Occupied())
    {
      forall p | p in fp && IsValidPosition(p.row, p.col)
        ensures p in Occupied() <==> grid[p.row, p.col].ship != null
      {
        assert p in AllCells(size);
      }
    }

    /** Draws that fit nowhere still fit nowhere once more cells are occupied. */
    lemma NoDrawFitsGrows(draw: nat -> Attempt, start: nat, len: nat, fewer: set<Pos>, more: set<Pos>)
      requires fewer <= more && NoDrawFits(draw, start, len, fewer)
      ensures NoDrawFits(draw, start, len, more)
    {
      forall k: nat | start <= k < start + AttemptLimit
        ensures !Fits(AttemptFootprint(draw(k), len), more)
      {
        assert !Fits(AttemptFootprint(draw(k), len), fewer);
      }
    }

    /**
     * The retry loop of placeShipsRandomly for one ship: up to AttemptLimit
     * attempts, each drawing an orientation and an origin, stopping at the
     * first that fits. `from` is the index of the next draw; `next` is the
     * index after the last one used.
     */
    method PlaceWithRetries(ship: Ship, draw: nat -> Attempt, from: nat) returns (placed: bool, next: nat)
      requires Valid()
      requires ship !in ships && ship.hits == {}
      modifies this`ships, this`Repr, grid, ship
      ensures Valid()
      ensures Repr == if placed then old(Repr) + {ship} else old(Repr)
      ensures ship.hits == {}
      ensures placed ==> ships == old(ships) + [ship] && from < next <= from + AttemptLimit
      ensures !placed ==> ships == old(ships) && next == from + AttemptLimit && unchanged(grid)
      ensures old(Unmarked()) ==> Unmarked()
      ensures forall k: nat :: from <= k < (if placed then next - 1 else next) ==>
        !Fits(AttemptFootprint(draw(k), ship.size), old(Occupied()))
      ensures placed ==>
        && Fits(AttemptFootprint(draw(next - 1), ship.size), old(Occupied()))
        && ship.isVertical == draw(next - 1).vertical
        && ship.positions == AttemptFootprint(draw(next - 1), ship.size)
        && Occupied() == old(Occupied()) + set p | p in ship.positions
    {
      placed, next := false, from;
      while !placed && next < from + AttemptLimit
        invariant Valid() && Repr == old(Repr) && ship.hits == {}
        invariant from <= next <= from + AttemptLimit
        invariant !placed && ships == old(ships) && unchanged(grid)
        invariant forall k: nat :: from <= k < next ==> !Fits(AttemptFootprint(draw(k), ship.size), old(Occupied()))
      {
        assert Occupied() == old(Occupied());
        placed := TryAttempt(ship, draw(next));
        next := next + 1;
        if placed {
          return;
        }
      }
    }

    /** One pass of the retry loop: the ship takes the drawn orientation and is placed at the drawn origin if it fits. */
    method TryAttempt(ship: Ship, attempt: Attempt) returns (placed: bool)
      requires Valid()
      requires ship !in ships && ship.hits == {}
      modifies this`ships, this`Repr, grid, ship`isVertical, ship`positions
      ensures Valid()
      ensures ship.isVertical == attempt.vertical
      ensures placed <==> Fits(AttemptFootprint(attempt, ship.size), old(Occupied()))
      ensures !placed ==> Repr == old(Repr) && ships == old(ships) && unchanged(grid)
      ensures old(Unmarked()) ==> Unmarked()
      ensures placed ==>
        && Repr == old(Repr) + {ship} && ships == old(ships) + [ship]
        && ship.positions == AttemptFootprint(attempt, ship.size)
        && Occupied() == old(Occupied()) + set p | p in ship.positions
    {
      ship.isVertical := attempt.vertical;
      CanPlaceFits(AttemptFootprint(attempt, ship.size));
      placed := PlaceShip(ship, attempt.row, attempt.col);
    }

    /**
     * The inner loop of placeShipsRandomly: `spec.count` new ships of one kind,
     * each with its own retries. Each placed ship lies where one of the draws
     * put it, and a ship goes missing only after AttemptLimit draws in a row
     * that fit nowhere, not even on the board as it ends up.
     */
    method PlaceKind(spec: ShipSpec, draw: nat -> Attempt, from: nat) returns (missing: seq<string>, next: nat)
      requires Valid()
      modifies this`ships, this`Repr, grid
      ensures Valid() && fresh(Repr - old(Repr))
      ensures |old(ships)| <= |ships| && ships[..|old(ships)|] == old(ships)
      ensures forall i :: |old(ships)| <= i < |ships| ==>
        fresh(ships[i]) && ships[i].hits == {} && ships[i].name == spec.name && ships[i].size == spec.size
      ensures |ships| - |old(ships)| + |missing| == spec.count
      ensures from + (|ships| - |old(ships)|) + AttemptLimit * |missing| <= next <= from + AttemptLimit * spec.count
      ensures old(Occupied()) <= Occupied()
      ensures old(Unmarked()) ==> Unmarked()
      ensures forall i :: |old(ships)| <= i < |ships| ==>
        Drawn(ships[i], draw, from, next)
      ensures missing != [] ==>
        exists start: nat :: from <= start && start + AttemptLimit <= next && NoDrawFits(draw, start, spec.size, Occupied())
    {
      missing, next := [], from;
      ghost var gap: nat := from;
      for count := 0 to spec.count
        invariant Valid() && fresh(Repr - old(Repr))
        invariant |old(ships)| <= |ships| && ships[..|old(ships)|] == old(ships)
        invariant forall i :: |old(ships)| <= i < |ships| ==> fresh(ships[i])
        invariant |ships| - |old(ships)| + |missing| == count
        invariant next <= from + AttemptLimit * count
        invariant old(Occupied()) <= Occupied()
        invariant old(Unmarked()) ==> Unmarked()
        invariant KindSoFar(spec, draw, from, |old(ships)|, missing, next, gap)
      {
        ghost var before := ships;
        missing, next, gap := PlaceKindStep(spec, draw, from, |old(ships)|, missing, next, gap);
        forall i | |old(ships)| <= i < |ships| ensures fresh(ships[i]) {
          if i < |before| {
            assert ships[i] == before[i];
          }
        }
        assert ships[..|old(ships)|] == before[..|old(ships)|];
      }
    }

    /**
     * What the inner loop of placeShipsRandomly has established for the ships
     * from index `lo` on: each is an unhit ship of kind `spec` lying where one
     * of the draws from `from` to `next` put it; at least one draw was used per
     * ship and AttemptLimit per missing one; and once a ship has gone missing,
     * a run of AttemptLimit draws from `gap` fits nowhere on the current board.
     */
    ghost predicate KindSoFar(spec: ShipSpec, draw: nat -> Attempt, from: nat, lo: nat,
                              missing: seq<string>, next: nat, gap: nat)
      reads this, this`grid, grid, ships
      requires lo <= |ships| && grid.Length0 == size && grid.Length1 == size
    {
      && (forall i :: lo <= i < |ships| ==>
            ships[i].hits == {} && ships[i].name == spec.name && ships[i].size == spec.size
            && Drawn(ships[i], draw, from, next))
      && from + (|ships| - lo) + AttemptLimit * |missing| <= next
      && (missing != [] ==> from <= gap && gap + AttemptLimit <= next && NoDrawFits(draw, gap, spec.size, Occupied()))
    }

    /** One pass of the inner loop of placeShipsRandomly: one more ship of kind `spec`, placed or missing. */
    method PlaceKindStep(spec: ShipSpec, draw: nat -> Attempt, from: nat, ghost lo: nat,
                         missing: seq<string>, next: nat, ghost gap: nat)
      returns (missing': seq<string>, next': nat, ghost gap': nat)
      requires Valid() && lo <= |ships|
      requires KindSoFar(spec, draw, from, lo, missing, next, gap)
      modifies this`ships, this`Repr, grid
      ensures Valid() && fresh(Repr - old(Repr))
      ensures old(Occupied()) <= Occupied()
      ensures old(Unmarked()) ==> Unmarked()
      ensures |old(ships)| <= |ships| <= |old(ships)| + 1 && ships[..|old(ships)|] == old(ships)
      ensures |ships| > |old(ships)| ==> fresh(ships[|old(ships)|])
      ensures |ships| - |old(ships)| + |missing'| == |missing| + 1
      ensures next' <= next + AttemptLimit
      ensures KindSoFar(spec, draw, from, lo, missing', next', gap')
    {
      ghost var before, occupied := ships, Occupied();
      label Before:
      var placed;
      placed, next' := PlaceNew(spec, draw, next);
      missing', gap' := missing, gap;
      forall i | lo <= i < |ships|
        ensures ships[i].hits == {} && ships[i].name == spec.name && ships[i].size == spec.size
        ensures Drawn(ships[i], draw, from, next')
      {
        if i < |before| {
          assert ships[i] == before[i];
          var k: nat :| from <= k < next && old@Before(ships[i].positions) == AttemptFootprint(draw(k), spec.size);
          assert ships[i].positions == AttemptFootprint(draw(k), spec.size);
        } else {
          assert ships[i].positions == AttemptFootprint(draw(next' - 1), spec.size);
        }
      }
      if !placed {
        missing', gap' := missing + [spec.name], next;
      } else if missing != [] {
        NoDrawFitsGrows(draw, gap, spec.size, occupied, Occupied());
      }
    }

    /** One pass of the inner loop of placeShipsRandomly: a new ship of kind `spec` and its retries. */
    method PlaceNew(spec: ShipSpec, draw: nat -> Attempt, from: nat) returns (placed: bool, next: nat)
      requires Valid()
      modifies this`ships, this`Repr, grid
      ensures Valid() && fresh(Repr - old(Repr))
      ensures old(Occupied()) <= Occupied()
      ensures old(Unmarked()) ==> Unmarked()
      ensures |old(ships)| <= |ships| && forall i :: 0 <= i < |old(ships)| ==> ships[i].positions == old(ships[i].positions)
      ensures !placed ==>
        && ships == old(ships) && next == from + AttemptLimit
        && NoDrawFits(draw, from, spec.size, Occupied())
      ensures placed ==>
        && from < next <= from + AttemptLimit && |ships| == |old(ships)| + 1 && ships[..|old(ships)|] == old(ships)
        && var ship := ships[|old(ships)|];
          && fresh(ship) && ship.hits == {} && ship.name == spec.name && ship.size == spec.size
          && ship.positions == AttemptFootprint(draw(next - 1), spec.size)
    {
      var ship := new Ship(spec.name, spec.size);
      placed, next := PlaceWithRetries(ship, draw, from);
      if placed {
        assert ships[..|old(ships)|] == old(ships);
      }
    }

    /** The start of placeShipsRandomly: no ships and a fresh empty grid. */
    method ClearPlacement()
      requires Valid()
      modifies this`ships, this`grid, this`Repr
      ensures Valid() && fresh(Repr - {this}) && ships == [] && Unmarked()
    {
      ships := [];
      grid := CreateGrid(size);
      Repr := {this, grid};
    }

    method PlaceShipsRandomly(specs: seq<ShipSpec>, draw: nat -> Attempt) returns (missing: seq<string>, draws: nat)
      requires Valid()
      modifies this`ships, this`grid, this`Repr
      ensures Valid() && fresh(Repr - {this})
      ensures shots == old(shots) && hits == old(hits) && misses == old(misses)
      ensures forall r, c :: 0 <= r < size && 0 <= c < size ==> !grid[r, c].isHit && !grid[r, c].isMiss
      ensures forall i :: 0 <= i < |ships| ==> fresh(ships[i]) && ships[i].hits == {}
      ensures forall i :: 0 <= i < |ships| ==> exists k :: 0 <= k < |specs| && ships[i].name == specs[k].name && ships[i].size == specs[k].size
      ensures |ships| + |missing| == |Expand(specs)|
      ensures |ships| + AttemptLimit * |missing| <= draws <= AttemptLimit * |Expand(specs)|
      ensures missing == [] ==> forall i :: 0 <= i < |ships| ==>
        ships[i].name == Expand(specs)[i].name && ships[i].size == Expand(specs)[i].size
      ensures forall i :: 0 <= i < |ships| ==> Drawn(ships[i], draw, 0, draws)
      ensures missing != [] ==> exists start: nat, spec :: spec in specs && start + AttemptLimit <= draws && NoDrawFits(draw, start, spec.size, Occupied())
    {
      ClearPlacement();
      missing, draws := [], 0;
      ghost var kinds: seq<ShipSpec> := [];
      ghost var gap: nat, gapKind: ShipSpec := 0, ShipSpec([], 0, 0);
      assert specs[..0] == [];
      for si := 0 to |specs|
        invariant Valid() && fresh(Repr - {this}) && Unmarked()
        invariant forall i :: 0 <= i < |ships| ==> fresh(ships[i]) && ships[i].hits == {}
        invariant KindsPlaced(specs, si, draw, kinds, missing, draws, gap, gapKind)
      {
        ghost var before := ships;
        missing, draws, kinds, gap, gapKind := PlaceNextKind(specs, si, draw, missing, draws, kinds, gap, gapKind);
        forall i | 0 <= i < |ships| ensures fresh(ships[i]) && ships[i].hits == {} {
          if i < |before| {
            assert ships[i] == before[i];
          }
        }
      }
      assert specs[..|specs|] == specs;
      forall i | 0 <= i < |ships|
        ensures exists k :: 0 <= k < |specs| && ships[i].name == specs[k].name && ships[i].size == specs[k].size
      {
        var k :| 0 <= k < |specs| && specs[k] == kinds[i];
      }
    }

    /**
     * What random placement of the first `n` kinds of `specs` has
     * established: each ship is of a kind from `specs` and lies where one of
     * the first `draws` draws put it; ships and missing names together are
     * the expanded fleet so far, in order when nothing is missing; and once a
     * ship has gone missing there is a run of AttemptLimit draws that fits
     * nowhere on the current board.
     */
    ghost predicate KindsPlaced(specs: seq<ShipSpec>, n: nat, draw: nat -> Attempt, kinds: seq<ShipSpec>,
                                missing: seq<string>, draws: nat, gap: nat, gapKind: ShipSpec)
      reads this, this`grid, grid, ships
      requires n <= |specs| && grid.Length0 == size && grid.Length1 == size
    {
      && |kinds| == |ships|
      && (forall i :: 0 <= i < |ships| ==>
            kinds[i] in specs && ships[i].name == kinds[i].name && ships[i].size == kinds[i].size
            && Drawn(ships[i], draw, 0, draws))
      && |ships| + |missing| == |Expand(specs[..n])|
      && |ships| + AttemptLimit * |missing| <= draws <= AttemptLimit * |Expand(specs[..n])|
      && (missing == [] ==> kinds == Expand(specs[..n]))
      && (missing != [] ==> gapKind in specs && gap + AttemptLimit <= draws && NoDrawFits(draw, gap, gapKind.size, Occupied()))
    }

    /** Places the kind specs[n] by PlaceKind, taking KindsPlaced from `n` kinds to `n + 1`. */
    method PlaceNextKind(specs: seq<ShipSpec>, n: nat, draw: nat -> Attempt, missing: seq<string>, draws: nat,
                         ghost kinds: seq<ShipSpec>, ghost gap: nat, ghost gapKind: ShipSpec)
      returns (missing': seq<string>, draws': nat, ghost kinds': seq<ShipSpec>, ghost gap': nat, ghost gapKind': ShipSpec)
      requires Valid() && n < |specs|
      requires KindsPlaced(specs, n, draw, kinds, missing, draws, gap, gapKind)
      modifies this`ships, this`Repr, grid
      ensures Valid() && fresh(Repr - old(Repr))
      ensures old(Unmarked()) ==> Unmarked()
      ensures |old(ships)| <= |ships| && ships[..|old(ships)|] == old(ships)
      ensures forall i :: |old(ships)| <= i < |ships| ==> fresh(ships[i]) && ships[i].hits == {}
      ensures KindsPlaced(specs, n + 1, draw, kinds', missing', draws', gap', gapKind')
    {
      var spec := specs[n];
      assert specs[..n + 1][..n] == specs[..n];
      assert Expand(specs[..n + 1]) == Expand(specs[..n]) + seq(spec.count, _ => spec);
      ghost var occupied := Occupied();
      ghost var before := ships;
      var lost;
      lost, draws' := PlaceKind(spec, draw, draws);
      missing' := missing + lost;
      kinds' := kinds + seq(|ships| - |before|, _ => spec);
      forall i | 0 <= i < |ships|
        ensures kinds'[i] in specs && ships[i].name == kinds'[i].name && ships[i].size == kinds'[i].size
        ensures Drawn(ships[i], draw, 0, draws')
      {
        if i < |before| {
          assert ships[i] == before[i];
          var k: nat :| k < draws && ships[i].positions == AttemptFootprint(draw(k), ships[i].size);
        } else {
          var k: nat :| draws <= k < draws' && ships[i].positions == AttemptFootprint(draw(k), ships[i].size);
        }
      }
      gap', gapKind' := gap, gapKind;
      if lost != [] {
        gap' :| draws <= gap' && gap' + AttemptLimit <= draws' && NoDrawFits(draw, gap', spec.size, Occupied());
        gapKind' := spec;
      } else if missing != [] {
        NoDrawFitsGrows(draw, gap, gapKind.size, occupied, Occupied());
      }
    }
  }

  /** A spec list in which every kind has count 1 describes one ship per entry. */
  lemma {:induction false} ExpandSingles(specs: seq<ShipSpec>)
    requires forall i :: 0 <= i < |specs| ==> specs[i].count == 1
    ensures Expand(specs) == specs
  {
    if specs != [] {
      var init, last := specs[..|specs| - 1], specs[|specs| - 1];
      ExpandSingles(init);
      assert seq(last.count, _ => last) == [last];
      assert specs == init + [last];
    }
  }

  /** CONFIG.SHIPS asks for one ship of each of its five kinds. */
  lemma StandardFleetExpands()
    ensures Expand(StandardFleet) == StandardFleet
  {
    ExpandSingles(StandardFleet);
  }

  /** CONFIG.SHIPS describes five ships of 17 cells in all. */
  lemma StandardFleetCells()
    ensures |Expand(StandardFleet)| == 5
    ensures TotalSize(Expand(StandardFleet)) == 17
  {
    StandardFleetExpands();
  }
}
