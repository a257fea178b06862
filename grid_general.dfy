/** The second copy of the maze grid, Assets/GridGeneral.cs. Its Cell and Grid repeat those of
    Assets/Scripts/GridGeneration.cs member for member (with `m_`-prefixed field names), so
    they are modelled once, by GridGeneration.Grid; what differs is that this copy's carving
    seeds its generator with the fixed value 1. */
module GridGeneral {
  import opened MazeSpec
  import GridGeneration

  /** The seed of `new System.Random(1)`. */
  const Seed: nat := 1

  /** The carving of this copy. `random(seed)` stands for the draws of a generator built with
      that seed, so the maze depends on the size and the start only: the same arguments give
      the same maze on every run. */
  method RandomizedPrim(numRows: nat, numCols: nat, startingRow: int, startingCol: int,
                        random: nat -> ((nat, nat) -> nat))
    returns (grid: GridGeneration.Grid)
    ensures fresh(grid) && fresh(grid.cells) && grid.Valid()
    ensures grid.numRows == numRows && grid.numCols == numCols
    ensures grid.maze == PrimResult(numRows, numCols, Cell(startingRow, startingCol), random(Seed))
  {
    grid := GridGeneration.Grid.RandomizedPrim(numRows, numCols, startingRow, startingCol, random(Seed));
  }
}
