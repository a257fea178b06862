/** The maze grid seen as a value, with the scans and the carving loop that both copies
    of the Grid class (Assets/Scripts/GridGeneration.cs and Assets/GridGeneral.cs) are
    proved against. */
module MazeSpec {

  /** The two values a grid cell holds. */
  const WallValue: int := 0
  const MazeValue: int := 1

  datatype Cell = Cell(row: int, col: int)

  /** A grid as a value: its dimensions and the set of cells carved into the maze. */
  datatype Board = Board(rows: nat, cols: nat, maze: set<Cell>)

  predicate ValidCell(b: Board, c: Cell) {
    0 <= c.row < b.rows && 0 <= c.col < b.cols
  }

  /** A valid cell that is part of the maze. */
  predicate InMaze(b: Board, c: Cell) {
    ValidCell(b, c) && c in b.maze
  }

  /** Out of range or already carved: a cell the carving never grows into. */
  predicate Visited(b: Board, c: Cell) {
    !ValidCell(b, c) || c in b.maze
  }

  /** A valid cell that is still a wall. */
  predicate IsWallAt(b: Board, c: Cell) {
    ValidCell(b, c) && c !in b.maze
  }

  ghost predicate WellFormed(b: Board) {
    forall c :: c in b.maze ==> ValidCell(b, c)
  }

  ghost function AllCells(b: Board): set<Cell> {
    set r, c | 0 <= r < b.rows && 0 <= c < b.cols :: Cell(r, c)
  }

  /** The valid cells that are still walls; the first half of the carving loop's measure. */
  ghost function Unvisited(b: Board): set<Cell> {
    AllCells(b) - b.maze
  }

  /** The effect of MarkCell: a valid cell joins the maze, an invalid one changes nothing. */
  function Mark(b: Board, c: Cell): (b': Board)
    ensures b'.rows == b.rows && b'.cols == b.cols
    ensures InMaze(b', c) <==> ValidCell(b, c)
    ensures forall x :: x != c ==> (x in b'.maze <==> x in b.maze)
    ensures WellFormed(b) ==> WellFormed(b')
  {
    if ValidCell(b, c) then b.(maze := b.maze + {c}) else b
  }

  function Up(c: Cell): Cell { Cell(c.row - 1, c.col) }
  function Left(c: Cell): Cell { Cell(c.row, c.col - 1) }
  function Right(c: Cell): Cell { Cell(c.row, c.col + 1) }
  function Down(c: Cell): Cell { Cell(c.row + 1, c.col) }

  /** x is one of the four orthogonal neighbours of c. */
  predicate Adjacent(c: Cell, x: Cell) {
    x == Up(c) || x == Left(c) || x == Right(c) || x == Down(c)
  }

  predicate HasMazeNeighbour(b: Board, c: Cell) {
    InMaze(b, Up(c)) || InMaze(b, Left(c)) || InMaze(b, Right(c)) || InMaze(b, Down(c))
  }

  /** The cell on the far side of centre from x. */
  function Reflect(centre: Cell, x: Cell): Cell {
    Cell(centre.row - (x.row - centre.row), centre.col - (x.col - centre.col))
  }

  /** Position k (0 to 8) of the 3x3 window around centre, in the row-major order in which
      the nested loops of GetWalls and DividedCells visit it. */
  function WindowCell(centre: Cell, k: nat): Cell {
    var i := if k < 3 then 0 else if k < 6 then 1 else 2;
    Cell(centre.row - 1 + i, centre.col - 1 + (k - 3 * i))
  }

  lemma WindowCellAt(centre: Cell, i: int, j: int)
    requires centre.row - 1 <= i <= centre.row + 1 && centre.col - 1 <= j <= centre.col + 1
    ensures WindowCell(centre, 3 * (i - centre.row + 1) + (j - centre.col + 1)) == Cell(i, j)
  {
  }

  // ---------------------------------------------------------------------------
  // GetWalls

  /** The test of GetWalls with the comparison `wallCol == col` that its comment describes. */
  predicate KeepWall(b: Board, centre: Cell, x: Cell) {
    && ValidCell(b, x)
    && (x.row == centre.row || x.col == centre.col)
    && !(x.row == centre.row && x.col == centre.col)
    && x !in b.maze
  }

  /** The test of GetWalls as the repository writes it: `!(wallRow == row && wallRow == col)`. */
  predicate KeepWallAsWritten(b: Board, centre: Cell, x: Cell) {
    && ValidCell(b, x)
    && (x.row == centre.row || x.col == centre.col)
    && !(x.row == centre.row && x.row == centre.col)
    && x !in b.maze
  }

  /** What the loop of GetWalls has collected after the first k window positions. */
  function ScanWalls(b: Board, centre: Cell, k: nat): (walls: seq<Cell>)
    requires k <= 9
    ensures |walls| <= k
  {
    if k == 0 then []
    else
      var x := WindowCell(centre, k - 1);
      ScanWalls(b, centre, k - 1) + (if KeepWall(b, centre, x) then [x] else [])
  }

  function ScanWallsAsWritten(b: Board, centre: Cell, k: nat): (walls: seq<Cell>)
    requires k <= 9
    ensures |walls| <= k
  {
    if k == 0 then []
    else
      var x := WindowCell(centre, k - 1);
      ScanWallsAsWritten(b, centre, k - 1) + (if KeepWallAsWritten(b, centre, x) then [x] else [])
  }

  /** One step of the GetWalls loop, at window position k = (i, j). */
  lemma ScanWallsAt(b: Board, centre: Cell, i: int, j: int, k: nat)
    requires centre.row - 1 <= i <= centre.row + 1 && centre.col - 1 <= j <= centre.col + 1
    requires k == 3 * (i - centre.row + 1) + (j - centre.col + 1)
    ensures ScanWalls(b, centre, k + 1) ==
              ScanWalls(b, centre, k) + (if KeepWall(b, centre, Cell(i, j)) then [Cell(i, j)] else [])
  {
    WindowCellAt(centre, i, j);
  }

  /** One step of the GetWalls loop as written, at window position k = (i, j). */
  lemma ScanWallsAsWrittenAt(b: Board, centre: Cell, i: int, j: int, k: nat)
    requires centre.row - 1 <= i <= centre.row + 1 && centre.col - 1 <= j <= centre.col + 1
    requires k == 3 * (i - centre.row + 1) + (j - centre.col + 1)
    ensures ScanWallsAsWritten(b, centre, k + 1) ==
              ScanWallsAsWritten(b, centre, k) + (if KeepWallAsWritten(b, centre, Cell(i, j)) then [Cell(i, j)] else [])
  {
    WindowCellAt(centre, i, j);
  }

  /** GetWalls lists the valid wall neighbours in the order up, left, right, down. */
  function Walls(b: Board, centre: Cell): (w: seq<Cell>)
    ensures w == WallIfAny(b, Up(centre)) + WallIfAny(b, Left(centre)) + WallIfAny(b, Right(centre)) + WallIfAny(b, Down(centre))
  {
    assert ScanWalls(b, centre, 1) == [];
    assert ScanWalls(b, centre, 2) == WallIfAny(b, Up(centre));
    assert ScanWalls(b, centre, 3) == ScanWalls(b, centre, 2);
    assert ScanWalls(b, centre, 4) == ScanWalls(b, centre, 3) + WallIfAny(b, Left(centre));
    assert ScanWalls(b, centre, 5) == ScanWalls(b, centre, 4);
    assert ScanWalls(b, centre, 6) == ScanWalls(b, centre, 5) + WallIfAny(b, Right(centre));
    assert ScanWalls(b, centre, 7) == ScanWalls(b, centre, 6);
    assert ScanWalls(b, centre, 8) == ScanWalls(b, centre, 7) + WallIfAny(b, Down(centre));
    assert ScanWalls(b, centre, 9) == ScanWalls(b, centre, 8);
    ScanWalls(b, centre, 9)
  }

  /** The test as written: off the diagonal it also keeps the centre; on the diagonal
      (row == col) it drops the left and right neighbours. */
  function WallsAsWritten(b: Board, centre: Cell): (w: seq<Cell>)
    ensures centre.row != centre.col ==>
      w == WallIfAny(b, Up(centre)) + WallIfAny(b, Left(centre)) + WallIfAny(b, centre) + WallIfAny(b, Right(centre)) + WallIfAny(b, Down(centre))
    ensures centre.row == centre.col ==>
      w == WallIfAny(b, Up(centre)) + WallIfAny(b, Down(centre))
  {
    assert ScanWallsAsWritten(b, centre, 1) == [];
    assert ScanWallsAsWritten(b, centre, 2) == WallIfAny(b, Up(centre));
    assert ScanWallsAsWritten(b, centre, 3) == ScanWallsAsWritten(b, centre, 2);
    assert ScanWallsAsWritten(b, centre, 6) ==
             if centre.row != centre.col
             then ScanWallsAsWritten(b, centre, 3) + WallIfAny(b, Left(centre)) + WallIfAny(b, centre) + WallIfAny(b, Right(centre))
             else ScanWallsAsWritten(b, centre, 3) by {
      if centre.row != centre.col {
        assert ScanWallsAsWritten(b, centre, 4) == ScanWallsAsWritten(b, centre, 3) + WallIfAny(b, Left(centre));
        assert ScanWallsAsWritten(b, centre, 5) == ScanWallsAsWritten(b, centre, 4) + WallIfAny(b, centre);
      }
    }
    assert ScanWallsAsWritten(b, centre, 7) == ScanWallsAsWritten(b, centre, 6);
    assert ScanWallsAsWritten(b, centre, 8) == ScanWallsAsWritten(b, centre, 7) + WallIfAny(b, Down(centre));
    assert ScanWallsAsWritten(b, centre, 9) == ScanWallsAsWritten(b, centre, 8);
    ScanWallsAsWritten(b, centre, 9)
  }

  /** [x] when x is a valid wall cell, [] otherwise. */
  function WallIfAny(b: Board, x: Cell): seq<Cell> {
    if IsWallAt(b, x) then [x] else []
  }

  /** The result of GetWalls is exactly the set of valid wall cells adjacent to c. */
  lemma WallsMembers(b: Board, c: Cell, x: Cell)
    ensures x in Walls(b, c) <==> IsWallAt(b, x) && Adjacent(c, x)
  {
  }

  /** Around a carved cell the test as written returns only valid wall cells adjacent to it
      (a sub-list of what the intended test returns), so the carving loop built on it keeps
      its invariant. */
  lemma WallsAsWrittenMembers(b: Board, c: Cell, x: Cell)
    requires c in b.maze
    ensures x in WallsAsWritten(b, c) ==> IsWallAt(b, x) && Adjacent(c, x)
  {
  }

  /** From the corner (0, 0) of a grid at least 2 x 2, the start list as written is [(1,0)],
      where the intended test gives [(0,1), (1,0)]. */
  lemma WallsAsWrittenAtCorner(rows: nat, cols: nat)
    requires 2 <= rows && 2 <= cols
    ensures WallsAsWritten(Mark(Board(rows, cols, {}), Cell(0, 0)), Cell(0, 0)) == [Cell(1, 0)]
    ensures Walls(Mark(Board(rows, cols, {}), Cell(0, 0)), Cell(0, 0)) == [Cell(0, 1), Cell(1, 0)]
  {
    var b, c := Mark(Board(rows, cols, {}), Cell(0, 0)), Cell(0, 0);
    assert WallIfAny(b, Up(c)) == [] && WallIfAny(b, Left(c)) == [];
    assert WallIfAny(b, Right(c)) == [Cell(0, 1)] && WallIfAny(b, Down(c)) == [Cell(1, 0)];
  }

  /** Off the diagonal, with the centre already carved, the test as written gives the intended result. */
  lemma WallsAsWrittenAgreesOffDiagonal(b: Board, c: Cell)
    requires c.row != c.col && !IsWallAt(b, c)
    ensures WallsAsWritten(b, c) == Walls(b, c)
  {
  }

  /** On the diagonal, a left or right wall neighbour is missing from the test as written. */
  lemma WallsAsWrittenDropsSideWalls(b: Board, c: Cell)
    requires c.row == c.col
    requires IsWallAt(b, Left(c)) || IsWallAt(b, Right(c))
    ensures WallsAsWritten(b, c) != Walls(b, c)
    ensures IsWallAt(b, Right(c)) ==> Right(c) in Walls(b, c) && Right(c) !in WallsAsWritten(b, c)
  {
    if IsWallAt(b, Left(c)) {
      assert Left(c) in Walls(b, c);
    } else {
      assert Right(c) in Walls(b, c);
    }
  }

  /** A 2x2 grid carved only at (0,0): the test as written returns [(1,0)] where (0,1) is also a wall. */
  lemma WallsAsWrittenCounterexample()
    ensures WallsAsWritten(Board(2, 2, {Cell(0, 0)}), Cell(0, 0)) == [Cell(1, 0)]
    ensures Walls(Board(2, 2, {Cell(0, 0)}), Cell(0, 0)) == [Cell(0, 1), Cell(1, 0)]
  {
    var b, c := Board(2, 2, {Cell(0, 0)}), Cell(0, 0);
    assert WallIfAny(b, Up(c)) == [] && WallIfAny(b, Left(c)) == [];
    assert WallIfAny(b, Right(c)) == [Cell(0, 1)] && WallIfAny(b, Down(c)) == [Cell(1, 0)];
  }

  // ---------------------------------------------------------------------------
  // DividedCells

  /** The test of DividedCells: an orthogonal neighbour that is a valid maze cell. */
  predicate KeepMaze(b: Board, centre: Cell, x: Cell) {
    && ValidCell(b, x)
    && (x.row == centre.row || x.col == centre.col)
    && !(x.row == centre.row && x.col == centre.col)
    && x in b.maze
  }

  /** What DividedCells returns once it reaches window position k without an earlier hit. */
  function ScanDivided(b: Board, centre: Cell, k: nat): (divided: seq<Cell>)
    requires k <= 9
    decreases 9 - k
    ensures divided == [] || (|divided| == 2 && KeepMaze(b, centre, divided[0]) && divided[1] == Reflect(centre, divided[0]))
  {
    if k == 9 then []
    else
      var x := WindowCell(centre, k);
      if KeepMaze(b, centre, x) then [x, Reflect(centre, x)] else ScanDivided(b, centre, k + 1)
  }

  /** One step of the DividedCells loop, at window position k = (i, j). */
  lemma ScanDividedAt(b: Board, centre: Cell, i: int, j: int, k: nat)
    requires centre.row - 1 <= i <= centre.row + 1 && centre.col - 1 <= j <= centre.col + 1
    requires k == 3 * (i - centre.row + 1) + (j - centre.col + 1)
    ensures ScanDivided(b, centre, k) ==
              if KeepMaze(b, centre, Cell(i, j)) then [Cell(i, j), Reflect(centre, Cell(i, j))]
              else ScanDivided(b, centre, k + 1)
  {
    WindowCellAt(centre, i, j);
  }

  /** DividedCells: nothing, or a maze neighbour of the centre followed by the cell
      opposite it. */
  function Divided(b: Board, centre: Cell): (d: seq<Cell>)
    ensures d == [] || (|d| == 2 && KeepMaze(b, centre, d[0]) && d[1] == Reflect(centre, d[0]))
  {
    ScanDivided(b, centre, 0)
  }

  /** DividedCells takes the first maze neighbour in the order up, left, right, down and
      pairs it with the cell opposite, which is not bounds-checked. */
  lemma {:induction false} DividedInOrder(b: Board, c: Cell)
    ensures Divided(b, c) ==
      if InMaze(b, Up(c)) then [Up(c), Down(c)]
      else if InMaze(b, Left(c)) then [Left(c), Right(c)]
      else if InMaze(b, Right(c)) then [Right(c), Left(c)]
      else if InMaze(b, Down(c)) then [Down(c), Up(c)]
      else []
  {
    assert ScanDivided(b, c, 8) == [];
    assert ScanDivided(b, c, 7) == if InMaze(b, Down(c)) then [Down(c), Up(c)] else [];
    assert ScanDivided(b, c, 6) == ScanDivided(b, c, 7);
    assert ScanDivided(b, c, 5) == if InMaze(b, Right(c)) then [Right(c), Left(c)] else ScanDivided(b, c, 6);
    assert ScanDivided(b, c, 4) == ScanDivided(b, c, 5);
    assert ScanDivided(b, c, 3) == if InMaze(b, Left(c)) then [Left(c), Right(c)] else ScanDivided(b, c, 4);
    assert ScanDivided(b, c, 2) == ScanDivided(b, c, 3);
    assert ScanDivided(b, c, 1) == if InMaze(b, Up(c)) then [Up(c), Down(c)] else ScanDivided(b, c, 2);
    assert ScanDivided(b, c, 0) == ScanDivided(b, c, 1);
  }

  /** DividedCells returns 0 or 2 cells; 2 exactly when some orthogonal neighbour is a maze cell,
      and then the first is a maze neighbour and the second its reflection. */
  lemma DividedShape(b: Board, c: Cell)
    ensures |Divided(b, c)| == 0 || |Divided(b, c)| == 2
    ensures |Divided(b, c)| == 2 <==> HasMazeNeighbour(b, c)
    ensures |Divided(b, c)| == 2 ==>
      && InMaze(b, Divided(b, c)[0])
      && Adjacent(c, Divided(b, c)[0])
      && Divided(b, c)[1] == Reflect(c, Divided(b, c)[0])
      && Adjacent(c, Divided(b, c)[1])
  {
    DividedInOrder(b, c);
  }

  // ---------------------------------------------------------------------------
  // RandomizedPrim

  /** The state of the carving loop: the grid and the wall list. */
  datatype Carving = Carving(board: Board, frontier: seq<Cell>)

  /** Every maze cell is valid and every wall-list entry touches the maze, so that
      DividedCells never comes back empty. */
  ghost predicate CarvingInv(s: Carving) {
    && WellFormed(s.board)
    && forall w :: w in s.frontier ==> HasMazeNeighbour(s.board, w)
  }

  /** One iteration of the carving loop, with the wall at index i picked. The new cell's walls
      come from GetWalls as written, with the line-81 comparison. */
  function PrimStep(s: Carving, i: nat): (s': Carving)
    requires CarvingInv(s) && i < |s.frontier|
    ensures s'.board.rows == s.board.rows && s'.board.cols == s.board.cols
    ensures s.board.maze <= s'.board.maze
  {
    var b := s.board;
    var wall := s.frontier[i];
    DividedShape(b, wall);
    var dividedCells := Divided(b, wall);
    var d0, d1 := dividedCells[0], dividedCells[1];
    if !(Visited(b, d0) && Visited(b, d1)) then
      var b1 := Mark(b, wall);
      var target := if Visited(b1, d0) then d1 else d0;
      var b2 := Mark(b1, target);
      var grown := s.frontier + WallsAsWritten(b2, target);
      Carving(b2, grown[..i] + grown[i + 1..])
    else
      Carving(b, s.frontier[..i] + s.frontier[i + 1..])
  }

  lemma StillHasMazeNeighbour(b: Board, b': Board, w: Cell)
    requires b'.rows == b.rows && b'.cols == b.cols && b.maze <= b'.maze
    requires HasMazeNeighbour(b, w)
    ensures HasMazeNeighbour(b', w)
  {
  }

  lemma AdjacentToMaze(b: Board, t: Cell, x: Cell)
    requires InMaze(b, t) && Adjacent(t, x)
    ensures HasMazeNeighbour(b, x)
  {
    if x == Up(t) {
      assert Down(x) == t;
    } else if x == Left(t) {
      assert Right(x) == t;
    } else if x == Right(t) {
      assert Left(x) == t;
    } else {
      assert Up(x) == t;
    }
  }

  lemma InAllCells(b: Board, c: Cell)
    requires ValidCell(b, c)
    ensures c in AllCells(b)
  {
    assert c == Cell(c.row, c.col);
  }

  /** A step keeps the invariant and either carves a new cell (the grid only changes from
      wall to maze) or leaves the grid alone and removes the picked entry. */
  lemma PrimStepProgress(s: Carving, i: nat)
    requires CarvingInv(s) && i < |s.frontier|
    ensures CarvingInv(PrimStep(s, i))
    ensures || Unvisited(PrimStep(s, i).board) < Unvisited(s.board)
            || (PrimStep(s, i).board == s.board && |PrimStep(s, i).frontier| == |s.frontier| - 1)
  {
    var b := s.board;
    var wall := s.frontier[i];
    DividedShape(b, wall);
    var d := Divided(b, wall);
    var t := PrimStep(s, i);
    if !(Visited(b, d[0]) && Visited(b, d[1])) {
      var b1 := Mark(b, wall);
      assert d[1] != wall;
      assert Visited(b1, d[0]);
      var b2 := Mark(b1, d[1]);
      var added := WallsAsWritten(b2, d[1]);
      var grown := s.frontier + added;
      assert t == Carving(b2, grown[..i] + grown[i + 1..]);
      assert InMaze(b2, d[1]);
      forall x | x in grown
        ensures HasMazeNeighbour(b2, x)
      {
        if x in added {
          WallsAsWrittenMembers(b2, d[1], x);
          AdjacentToMaze(b2, d[1], x);
        } else {
          StillHasMazeNeighbour(b, b2, x);
        }
      }
      InAllCells(b, d[1]);
      assert d[1] in Unvisited(b) && d[1] !in Unvisited(b2);
    } else {
      assert t.board == b;
    }
  }

  /** The carving loop run to the end, the k-th draw of the generator being next(k, n) for a
      wall list of length n. */
  function PrimLoop(s: Carving, next: (nat, nat) -> nat, k: nat): (maze: set<Cell>)
    requires CarvingInv(s)
    ensures s.board.maze <= maze
    ensures forall c :: c in maze ==> ValidCell(s.board, c)
    decreases Unvisited(s.board), |s.frontier|
  {
    if |s.frontier| == 0 then s.board.maze
    else
      var i := next(k, |s.frontier|) % |s.frontier|;
      PrimStepProgress(s, i);
      PrimLoop(PrimStep(s, i), next, k + 1)
  }

  /** After marking a valid start cell, its walls form a wall list that satisfies the invariant. */
  lemma PrimStartInvariant(rows: nat, cols: nat, start: Cell)
    requires 0 <= start.row < rows && 0 <= start.col < cols
    ensures CarvingInv(Carving(Mark(Board(rows, cols, {}), start), WallsAsWritten(Mark(Board(rows, cols, {}), start), start)))
  {
    var b := Mark(Board(rows, cols, {}), start);
    forall x | x in WallsAsWritten(b, start)
      ensures HasMazeNeighbour(b, x)
    {
      WallsAsWrittenMembers(b, start, x);
      AdjacentToMaze(b, start, x);
    }
  }

  /** The maze RandomizedPrim carves from the given start cell. */
  function PrimResult(rows: nat, cols: nat, start: Cell, next: (nat, nat) -> nat): (maze: set<Cell>)
    ensures forall c :: c in maze ==> 0 <= c.row < rows && 0 <= c.col < cols
    ensures start in maze <==> 0 <= start.row < rows && 0 <= start.col < cols
    ensures !(0 <= start.row < rows && 0 <= start.col < cols) ==> maze == {}
  {
    var b := Mark(Board(rows, cols, {}), start);
    var wallList := WallsAsWritten(b, start);
    if ValidCell(b, start) then
      PrimStartInvariant(rows, cols, start);
      PrimLoop(Carving(b, wallList), next, 0)
    else
      b.maze
  }

  /** On a 1x1 grid the start cell is the whole maze, whatever the generator draws. */
  lemma PrimSingleCell(next: (nat, nat) -> nat)
    ensures PrimResult(1, 1, Cell(0, 0), next) == {Cell(0, 0)}
  {
    var b := Mark(Board(1, 1, {}), Cell(0, 0));
    assert WallsAsWritten(b, Cell(0, 0)) == [];
  }
}
