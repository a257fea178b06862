/** The maze grid of Assets/Scripts/GridGeneration.cs: a class over a 2-D array of wall (0)
    and maze (1) values, with the randomized Prim carving as a static factory. */
module GridGeneration {
  import opened MazeSpec

  class Grid {
    const numRows: nat
    const numCols: nat
    const cells: array2<int>
    /** The cells holding MazeValue: the abstract view of `cells`. */
    ghost var maze: set<Cell>

    ghost predicate Shaped() {
      cells.Length0 == numRows && cells.Length1 == numCols
    }

    /** Every cell is a wall or a maze cell, and `maze` lists exactly the maze cells. */
    ghost predicate Valid()
      reads this, cells
    {
      && Shaped()
      && (forall c :: c in maze ==> 0 <= c.row < numRows && 0 <= c.col < numCols)
      && (forall r, c :: 0 <= r < numRows && 0 <= c < numCols ==>
            && (cells[r, c] == WallValue || cells[r, c] == MazeValue)
            && (cells[r, c] == MazeValue <==> Cell(r, c) in maze))
    }

    ghost function Model(): Board
      reads this
    {
      Board(numRows, numCols, maze)
    }

    /** A grid of the given size, every cell a wall. */
    constructor (numRows: nat, numCols: nat)
      ensures Valid() && fresh(cells)
      ensures this.numRows == numRows && this.numCols == numCols
      ensures maze == {}
      ensures forall r, c :: 0 <= r < numRows && 0 <= c < numCols ==> cells[r, c] == WallValue
    {
      var a := new int[numRows, numCols];
      for row := 0 to numRows
        invariant forall r, c :: 0 <= r < row && 0 <= c < numCols ==> a[r, c] == WallValue
      {
        for col := 0 to numCols
          invariant forall r, c :: 0 <= r < row && 0 <= c < numCols ==> a[r, c] == WallValue
          invariant forall c :: 0 <= c < col ==> a[row, c] == WallValue
        {
          a[row, col] := WallValue;
        }
      }
      this.numRows := numRows;
      this.numCols := numCols;
      cells := a;
      maze := {};
    }

    predicate IsValidCell(row: int, col: int) {
      row >= 0 && col >= 0 && row < numRows && col < numCols
    }

    /** Out of range counts as visited. */
    function IsVisited(row: int, col: int): (visited: bool)
      requires Shaped()
      reads this, cells
      ensures !IsValidCell(row, col) ==> visited
      ensures Valid() ==> (visited <==> Visited(Model(), Cell(row, col)))
    {
      !IsValidCell(row, col) || cells[row, col] == MazeValue
    }

    function IsMaze(row: int, col: int): (isMaze: bool)
      requires Shaped()
      reads this, cells
      ensures isMaze ==> IsValidCell(row, col)
      ensures Valid() ==> (isMaze <==> InMaze(Model(), Cell(row, col)))
    {
      IsValidCell(row, col) && cells[row, col] == MazeValue
    }

    /** Out of range counts as a wall; a valid cell holding 0 or 1 is a wall or a maze cell, never both. */
    function IsWall(row: int, col: int): (isWall: bool)
      requires Shaped()
      reads this, cells
      ensures !IsValidCell(row, col) ==> isWall
      ensures IsValidCell(row, col) && (cells[row, col] == WallValue || cells[row, col] == MazeValue) ==>
                (isWall <==> !IsMaze(row, col))
      ensures Valid() ==> (isWall <==> !InMaze(Model(), Cell(row, col)))
    {
      !IsValidCell(row, col) || cells[row, col] == WallValue
    }

    /** Sets exactly the given cell to MazeValue when it is valid; reports whether it was. */
    method MarkCell(row: int, col: int) returns (marked: bool)
      requires Valid()
      modifies this, cells
      ensures Valid()
      ensures marked == IsValidCell(row, col)
      ensures Model() == Mark(old(Model()), Cell(row, col))
      ensures forall r, c :: 0 <= r < numRows && 0 <= c < numCols ==>
                cells[r, c] == if marked && r == row && c == col then MazeValue else old(cells[r, c])
    {
      if IsValidCell(row, col) {
        cells[row, col] := MazeValue;
        maze := maze + {Cell(row, col)};
        return true;
      } else {
        return false;
      }
    }

    /** The test of GetWalls on the array agrees with the one on the model. */
    lemma WallTest(centre: Cell, x: Cell)
      requires Valid()
      ensures (IsValidCell(x.row, x.col) && (x.row == centre.row || x.col == centre.col) &&
               !(x.row == centre.row && x.col == centre.col) && cells[x.row, x.col] == WallValue)
              == KeepWall(Model(), centre, x)
    {
    }

    /** The same for the test as written. */
    lemma WallTestAsWritten(centre: Cell, x: Cell)
      requires Valid()
      ensures (IsValidCell(x.row, x.col) && (x.row == centre.row || x.col == centre.col) &&
               !(x.row == centre.row && x.row == centre.col) && cells[x.row, x.col] == WallValue)
              == KeepWallAsWritten(Model(), centre, x)
    {
    }

    /** The same for the test of DividedCells. */
    lemma MazeTest(centre: Cell, x: Cell)
      requires Valid()
      ensures (IsValidCell(x.row, x.col) && (x.row == centre.row || x.col == centre.col) &&
               !(x.row == centre.row && x.col == centre.col) && cells[x.row, x.col] == MazeValue)
              == KeepMaze(Model(), centre, x)
    {
    }

    /** GetWalls as the repository writes it, with `wallRow == col` in the test that should
        exclude the centre: the list the carving really grows by. */
    method GetWallsAsWritten(row: int, col: int) returns (walls: seq<Cell>)
      requires Valid()
      ensures walls == WallsAsWritten(Model(), Cell(row, col))
    {
      walls := [];
      ghost var b, centre := Model(), Cell(row, col);
      ghost var k: nat := 0;
      for wallRow := row - 1 to row + 2
        invariant k == 3 * (wallRow - row + 1)
        invariant walls == ScanWallsAsWritten(b, centre, k)
      {
        for wallCol := col - 1 to col + 2
          invariant k == 3 * (wallRow - row + 1) + (wallCol - col + 1)
          invariant walls == ScanWallsAsWritten(b, centre, k)
        {
          ScanWallsAsWrittenAt(b, centre, wallRow, wallCol, k);
          WallTestAsWritten(centre, Cell(wallRow, wallCol));
          if IsValidCell(wallRow, wallCol) && (wallRow == row || wallCol == col) &&
             !(wallRow == row && wallRow == col) && cells[wallRow, wallCol] == WallValue
          {
            walls := walls + [Cell(wallRow, wallCol)];
          }
          k := k + 1;
        }
      }
    }

    /** GetWalls with the comparison at line 81 corrected to `wallCol == col`: the valid
        orthogonal wall neighbours in row-major order, read without changing the grid. */
    method GetWalls(row: int, col: int) returns (walls: seq<Cell>)
      requires Valid()
      ensures walls == Walls(Model(), Cell(row, col))
    {
      walls := [];
      ghost var b, centre := Model(), Cell(row, col);
      ghost var k: nat := 0;
      for wallRow := row - 1 to row + 2
        invariant k == 3 * (wallRow - row + 1)
        invariant walls == ScanWalls(b, centre, k)
      {
        for wallCol := col - 1 to col + 2
          invariant k == 3 * (wallRow - row + 1) + (wallCol - col + 1)
          invariant walls == ScanWalls(b, centre, k)
        {
          ScanWallsAt(b, centre, wallRow, wallCol, k);
          WallTest(centre, Cell(wallRow, wallCol));
          if IsValidCell(wallRow, wallCol) && (wallRow == row || wallCol == col) &&
             !(wallRow == row && wallCol == col) && cells[wallRow, wallCol] == WallValue
          {
            walls := walls + [Cell(wallRow, wallCol)];
          }
          k := k + 1;
        }
      }
    }

    /** The first maze neighbour in the order up, left, right, down and the cell opposite it,
        or nothing when no orthogonal neighbour is a maze cell. */
    method DividedCells(row: int, col: int) returns (dividedCells: seq<Cell>)
      requires Valid()
      ensures dividedCells == Divided(Model(), Cell(row, col))
    {
      dividedCells := [];
      ghost var b, centre := Model(), Cell(row, col);
      ghost var divided := ScanDivided(b, centre, 0);
      assert divided == Divided(b, centre);
      ghost var k: nat := 0;
      for cellRow := row - 1 to row + 2
        invariant k == 3 * (cellRow - row + 1)
        invariant dividedCells == []
        invariant divided == ScanDivided(b, centre, k)
      {
        for cellCol := col - 1 to col + 2
          invariant k == 3 * (cellRow - row + 1) + (cellCol - col + 1)
          invariant dividedCells == []
          invariant divided == ScanDivided(b, centre, k)
        {
          ScanDividedAt(b, centre, cellRow, cellCol, k);
          MazeTest(centre, Cell(cellRow, cellCol));
          if IsValidCell(cellRow, cellCol) && (cellRow == row || cellCol == col) &&
             !(cellRow == row && cellCol == col) && cells[cellRow, cellCol] == MazeValue
          {
            dividedCells := dividedCells + [Cell(cellRow, cellCol)];
            // the cell on the far side: (row - (cellRow - row), col - (cellCol - col))
            dividedCells := dividedCells + [Reflect(Cell(row, col), Cell(cellRow, cellCol))];
            return;
          }
          assert ScanDivided(b, centre, k) == ScanDivided(b, centre, k + 1);
          k := k + 1;
        }
      }
    }

    /** One pass of the carving loop with the wall at `randomIndex` picked: when one of the two
        cells the wall divides is unvisited, the wall and that cell join the maze and the cell's
        walls join the list; in every case the picked entry leaves the list. */
    static method CarveAt(grid: Grid, wallList: seq<Cell>, randomIndex: nat) returns (wallList': seq<Cell>)
      requires grid.Valid() && CarvingInv(Carving(grid.Model(), wallList))
      requires randomIndex < |wallList|
      modifies grid, grid.cells
      ensures grid.Valid()
      ensures Carving(grid.Model(), wallList') == PrimStep(Carving(old(grid.Model()), wallList), randomIndex)
    {
      ghost var s := Carving(grid.Model(), wallList);
      wallList' := wallList;
      var randomWall := wallList'[randomIndex];
      var dividedCells := grid.DividedCells(randomWall.row, randomWall.col);
      DividedShape(grid.Model(), randomWall);
      var first, second := dividedCells[0], dividedCells[1];

      if !(grid.IsVisited(first.row, first.col) && grid.IsVisited(second.row, second.col)) {
        var _ := grid.MarkCell(randomWall.row, randomWall.col);
        var target := if grid.IsVisited(first.row, first.col) then second else first;
        var _ := grid.MarkCell(target.row, target.col);
        var walls := grid.GetWallsAsWritten(target.row, target.col);
        wallList' := wallList' + walls;
      }

      // Cell defines no equality, so Remove takes out exactly the picked entry.
      wallList' := wallList'[..randomIndex] + wallList'[randomIndex + 1..];
    }

    /** Carves a maze from the start cell. `next(k, n)` stands for the k-th draw of the
        generator (`new System.Random()`) with bound n; an invalid start leaves all walls. */
    static method RandomizedPrim(numRows: nat, numCols: nat, startingRow: int, startingCol: int,
                                 next: (nat, nat) -> nat)
      returns (grid: Grid)
      ensures fresh(grid) && fresh(grid.cells) && grid.Valid()
      ensures grid.numRows == numRows && grid.numCols == numCols
      ensures grid.maze == PrimResult(numRows, numCols, Cell(startingRow, startingCol), next)
      ensures !grid.IsValidCell(startingRow, startingCol) ==>
                forall r, c :: 0 <= r < numRows && 0 <= c < numCols ==> grid.cells[r, c] == WallValue
    {
      grid := new Grid(numRows, numCols);
      var startingCell := Cell(startingRow, startingCol);
      var successfulMark := grid.MarkCell(startingCell.row, startingCell.col);
      var wallList := grid.GetWallsAsWritten(startingCell.row, startingCell.col);
      ghost var start := Carving(grid.Model(), wallList);

      if successfulMark {
        PrimStartInvariant(numRows, numCols, startingCell);
        var k: nat := 0;
        while |wallList| > 0
          invariant grid.Valid() && grid.numRows == numRows && grid.numCols == numCols
          invariant CarvingInv(Carving(grid.Model(), wallList))
          invariant PrimLoop(Carving(grid.Model(), wallList), next, k) == PrimLoop(start, next, 0)
          decreases Unvisited(grid.Model()), |wallList|
        {
          ghost var s := Carving(grid.Model(), wallList);
          var randomIndex := next(k, |wallList|) % |wallList|;
          wallList := CarveAt(grid, wallList, randomIndex);
          PrimStepProgress(s, randomIndex);
          k := k + 1;
        }
      }
    }
  }
}
