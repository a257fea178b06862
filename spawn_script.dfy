/** The scene script of Assets/Scripts/SpawnScript.cs: an older copy of the wall manager that
    keeps only the walls' vertical positions (no qualities), and the script that builds a
    39 x 39 maze on Start and advances the manager every frame. */
module SpawnScript {
  import opened Interpolation
  import opened MazeSpec
  import GridGeneration

  /** This Update drops a move that has not started as well as one that has finished. */
  predicate Removed(now: real, d: InterpData) {
    TimePhase(now, d) == NotStarted || TimePhase(now, d) == Finished
  }

  /** The moves this Update keeps: the running ones (and the NaN case), in their order. */
  function Active(s: seq<InterpData>, now: real): (a: seq<InterpData>)
    ensures |a| <= |s|
  {
    if s == [] then []
    else
      var last := s[|s| - 1];
      Active(s[..|s| - 1], now) + (if Removed(now, last) then [] else [last])
  }

  /** The position this Update writes for d: the start height of a move not started yet, the
      end height of a finished one, the interpolated height of a running one. */
  function WrittenHeight(wallHeight: real, now: real, d: InterpData): (h: real)
    requires TimePhase(now, d) != Undefined
    ensures TimePhase(now, d) == NotStarted ==> h == YPos(wallHeight, d.startHeightQuality)
    ensures TimePhase(now, d) == Finished ==> h == YPos(wallHeight, d.endHeightQuality)
    ensures 0.0 <= wallHeight && InUnit(d.startHeightQuality) && InUnit(d.endHeightQuality) ==>
              -wallHeight / 2.0 <= h <= wallHeight / 2.0
  {
    var q := match TimePhase(now, d)
             case NotStarted => 0.0
             case Finished => 1.0
             case Running(q) => q;
    var h := YPos(wallHeight, Linterp(q, d.startHeightQuality, d.endHeightQuality));
    if 0.0 <= wallHeight && InUnit(d.startHeightQuality) && InUnit(d.endHeightQuality) then
      YPosBetween(wallHeight, q, d.startHeightQuality, d.endHeightQuality);
      h
    else h
  }

  /** The position of wall (r, c) after Update: the one written by the last entry that
      targets it, or h0. */
  function LastHeight(s: seq<InterpData>, wallHeight: real, now: real, r: int, c: int, h0: real): (h: real)
    ensures CountAt(s, r, c) == 0 ==> h == h0
  {
    if s == [] then h0
    else
      var last := s[|s| - 1];
      if last.wallRow == r && last.wallCol == c && TimePhase(now, last) != Undefined
      then WrittenHeight(wallHeight, now, last)
      else LastHeight(s[..|s| - 1], wallHeight, now, r, c, h0)
  }

  lemma ActiveSnoc(s: seq<InterpData>, d: InterpData, now: real)
    ensures Active(s + [d], now) == Active(s, now) + (if Removed(now, d) then [] else [d])
  {
    assert (s + [d])[..|s|] == s;
  }

  lemma LastHeightSnoc(s: seq<InterpData>, d: InterpData, wallHeight: real, now: real, r: int, c: int, h0: real)
    ensures LastHeight(s + [d], wallHeight, now, r, c, h0) ==
              if d.wallRow == r && d.wallCol == c && TimePhase(now, d) != Undefined
              then WrittenHeight(wallHeight, now, d)
              else LastHeight(s, wallHeight, now, r, c, h0)
  {
    assert (s + [d])[..|s|] == s;
  }

  /** An entry stays on the list exactly when it is running (or in the NaN case). */
  lemma {:induction false} ActiveMembers(s: seq<InterpData>, now: real, d: InterpData)
    ensures d in Active(s, now) <==> d in s && !Removed(now, d)
  {
    if s != [] {
      var s' := s[..|s| - 1];
      assert s == s' + [s[|s| - 1]];
      ActiveSnoc(s', s[|s| - 1], now);
      ActiveMembers(s', now, d);
    }
  }

  /** A second Update at the same time leaves the list as the first one left it. */
  lemma {:induction false} ActiveIdempotent(s: seq<InterpData>, now: real)
    ensures Active(Active(s, now), now) == Active(s, now)
    decreases |s|
  {
    if s != [] {
      var s', last := s[..|s| - 1], s[|s| - 1];
      assert s == s' + [last];
      ActiveSnoc(s', last, now);
      ActiveIdempotent(s', now);
      if !Removed(now, last) {
        assert Active(s, now) == Active(s', now) + [last];
        ActiveSnoc(Active(s', now), last, now);
      } else {
        assert Active(s, now) == Active(s', now);
      }
    }
  }

  /** A move whose interval is empty of time (startTime < endTime) leaves the list at the
      first Update outside that interval, on either side of it. */
  lemma {:induction false} ActiveOutsideInterval(s: seq<InterpData>, now: real)
    requires forall d :: d in s ==> d.startTime < d.endTime && !(d.startTime <= now <= d.endTime)
    ensures Active(s, now) == []
    decreases |s|
  {
    if s != [] {
      var s', last := s[..|s| - 1], s[|s| - 1];
      assert s == s' + [last];
      assert forall d :: d in s' ==> d in s;
      assert last in s;
      ActiveSnoc(s', last, now);
      ActiveOutsideInterval(s', now);
    }
  }

  /** The list Update's loop holds after `done` entries of s, and what one more pass makes
      of it: removing the entry at the cursor, or keeping it. */
  lemma ListStep(s: seq<InterpData>, done: nat, now: real)
    requires done < |s|
    ensures var p, p' := Active(s[..done], now), Active(s[..done + 1], now);
            var m := p + s[done..];
            && m[|p|] == s[done]
            && (Removed(now, s[done]) ==> m[..|p|] + m[|p| + 1..] == p' + s[done + 1..] && |p'| == |p|)
            && (!Removed(now, s[done]) ==> m == p' + s[done + 1..] && |p'| == |p| + 1)
  {
    var p := Active(s[..done], now);
    TakeSnoc(s, done);
    ActiveSnoc(s[..done], s[done], now);
    RemoveAt(p, s[done..]);
    assert s[done..][1..] == s[done + 1..];
    if Removed(now, s[done]) {
      assert p + [] == p;
    }
  }

  /** The move Start schedules: wall (0, 0) rises from quality 0 to 1 over ten seconds. */
  function StartMove(now: real): InterpData {
    InterpData(0.0, 1.0, now, now + 10.0, 0, 0)
  }

  /** During its ten seconds the wall at (0, 0) rises in proportion to the time elapsed, and
      from then on it stands raised and the move is gone. */
  lemma StartMoveHeights(now: real, t: real, wallHeight: real, h0: real)
    ensures now <= t <= now + 10.0 ==>
              && LastHeight([StartMove(now)], wallHeight, t, 0, 0, h0) == YPos(wallHeight, (t - now) / 10.0)
              && Active([StartMove(now)], t) == [StartMove(now)]
    ensures now + 10.0 < t ==>
              && LastHeight([StartMove(now)], wallHeight, t, 0, 0, h0) == wallHeight / 2.0
              && Active([StartMove(now)], t) == []
  {
    var d := StartMove(now);
    LastHeightSnoc([], d, wallHeight, t, 0, 0, h0);
    ActiveSnoc([], d, t);
    assert [] + [d] == [d];
    if now <= t <= now + 10.0 {
      var q := TimePhase(t, d).q;
      assert Linterp(q, now, now + 10.0) == t;
      assert q == (t - now) / 10.0;
      assert Linterp(q, 0.0, 1.0) == q;
    }
  }

  class WallManager {
    const numRows: nat
    const numCols: nat
    const wallHeight: real
    /** The vertical position of each wall's GameObject. */
    const heights: array2<real>
    /** The scheduled moves, in the order they were added. */
    var moveData: seq<InterpData>

    ghost predicate Shaped() {
      heights.Length0 == numRows && heights.Length1 == numCols
    }

    predicate InBounds(d: InterpData) {
      d.wallRow < numRows && d.wallCol < numCols
    }

    /** Every scheduled move targets a wall of the grid. */
    ghost predicate Valid()
      reads this
    {
      Shaped() && forall d :: d in moveData ==> InBounds(d)
    }

    /** The walls of the given grid, raised over wall cells and sunk over maze cells. */
    constructor (grid: GridGeneration.Grid, wallHeight: real)
      requires grid.Shaped()
      ensures Valid() && fresh(heights)
      ensures numRows == grid.numRows && numCols == grid.numCols && this.wallHeight == wallHeight
      ensures moveData == []
      ensures forall r, c :: 0 <= r < numRows && 0 <= c < numCols ==>
                heights[r, c] == YPos(wallHeight, SeedQuality(grid.cells[r, c], WallValue, MazeValue))
    {
      var h := new real[grid.numRows, grid.numCols];
      for row := 0 to grid.numRows
        invariant forall r, c :: 0 <= r < row && 0 <= c < grid.numCols ==>
                    h[r, c] == YPos(wallHeight, SeedQuality(grid.cells[r, c], WallValue, MazeValue))
      {
        for col := 0 to grid.numCols
          invariant forall r, c :: 0 <= r < row && 0 <= c < grid.numCols ==>
                      h[r, c] == YPos(wallHeight, SeedQuality(grid.cells[r, c], WallValue, MazeValue))
          invariant forall c :: 0 <= c < col ==>
                      h[row, c] == YPos(wallHeight, SeedQuality(grid.cells[row, c], WallValue, MazeValue))
        {
          var cellQuality := 0.5;
          if grid.cells[row, col] == WallValue {
            cellQuality := 1.0;
          } else if grid.cells[row, col] == MazeValue {
            cellQuality := 0.0;
          }
          h[row, col] := YPos(wallHeight, cellQuality);
        }
      }
      numRows := grid.numRows;
      numCols := grid.numCols;
      this.wallHeight := wallHeight;
      heights := h;
      moveData := [];
    }

    /** One pass of Update's loop at `index`: a move not started yet leaves the list and puts
        its wall at the start height, a finished one leaves it and puts the wall at the end
        height, a running one puts the wall at the interpolated height and stays, with the
        index moved past it. Every other wall keeps its position. */
    method Advance(now: real, index: nat) returns (next: nat)
      requires Valid() && index < |moveData|
      modifies this, heights
      ensures Valid()
      ensures var data := old(moveData[index]);
              && (Removed(now, data) ==>
                    next == index && moveData == old(moveData[..index]) + old(moveData[index + 1..]))
              && (!Removed(now, data) ==> next == index + 1 && moveData == old(moveData))
      ensures var data := old(moveData[index]);
              forall r, c :: 0 <= r < numRows && 0 <= c < numCols ==>
                heights[r, c] ==
                  if data.wallRow == r && data.wallCol == c && TimePhase(now, data) != Undefined
                  then WrittenHeight(wallHeight, now, data) else old(heights[r, c])
    {
      var data := moveData[index];
      assert InBounds(data);
      var phase := TimePhase(now, data);
      if phase == NotStarted {
        moveData := moveData[..index] + moveData[index + 1..];
        heights[data.wallRow, data.wallCol] := YPos(wallHeight, data.startHeightQuality);
        next := index;
      } else if phase == Finished {
        moveData := moveData[..index] + moveData[index + 1..];
        heights[data.wallRow, data.wallCol] := YPos(wallHeight, data.endHeightQuality);
        next := index;
      } else {
        if phase.Running? {
          heights[data.wallRow, data.wallCol] :=
            YPos(wallHeight, Linterp(phase.q, data.startHeightQuality, data.endHeightQuality));
        }
        next := index + 1;
      }
    }

    /** Advances every scheduled move to time `now`; every pass either removes the entry at
        the index or moves past it, so the loop always ends. */
    method Update(now: real)
      requires Valid()
      modifies this, heights
      ensures Valid()
      ensures moveData == Active(old(moveData), now)
      ensures forall r, c :: 0 <= r < numRows && 0 <= c < numCols ==>
                heights[r, c] == LastHeight(old(moveData), wallHeight, now, r, c, old(heights[r, c]))
    {
      ghost var s0 := moveData;
      var index := 0;
      ghost var done := 0;
      while index < |moveData|
        invariant 0 <= done <= |s0|
        invariant moveData == Active(s0[..done], now) + s0[done..]
        invariant index == |Active(s0[..done], now)|
        invariant Valid()
        invariant forall r, c :: 0 <= r < numRows && 0 <= c < numCols ==>
                    heights[r, c] == LastHeight(s0[..done], wallHeight, now, r, c, old(heights[r, c]))
        decreases |moveData| - index
      {
        ghost var prefix := s0[..done];
        ListStep(s0, done, now);
        TakeSnoc(s0, done);
        ghost var data := s0[done];
        forall r, c | 0 <= r < numRows && 0 <= c < numCols {
          LastHeightSnoc(prefix, data, wallHeight, now, r, c, old(heights[r, c]));
        }
        index := Advance(now, index);
        done := done + 1;
      }
      assert s0[..done] == s0;
    }
  }

  /** The MonoBehaviour: its inspector defaults and the manager it builds on Start. */
  class SpawnScript {
    const wallHeight: real := 1.0
    const mazeRows: nat := 39
    const mazeCols: nat := 39
    var manager: WallManager?

    constructor ()
      ensures manager == null
    {
      manager := null;
    }

    /** Carves a maze from cell (0, 0) (`next` stands for the generator's draws), builds its
        walls and schedules wall (0, 0) to rise over the next ten seconds. */
    method Start(now: real, next: (nat, nat) -> nat)
      modifies this
      ensures manager != null && fresh(manager) && manager.Valid()
      ensures manager.numRows == mazeRows && manager.numCols == mazeCols && manager.wallHeight == wallHeight
      ensures manager.moveData == [StartMove(now)]
      ensures forall r, c :: 0 <= r < mazeRows && 0 <= c < mazeCols ==>
                manager.heights[r, c] ==
                  if Cell(r, c) in PrimResult(mazeRows, mazeCols, Cell(0, 0), next)
                  then -wallHeight / 2.0 else wallHeight / 2.0
    {
      var grid := GridGeneration.Grid.RandomizedPrim(mazeRows, mazeCols, 0, 0, next);
      var m := new WallManager(grid, wallHeight);
      forall r, c | 0 <= r < mazeRows && 0 <= c < mazeCols
        ensures m.heights[r, c] ==
                  if Cell(r, c) in PrimResult(mazeRows, mazeCols, Cell(0, 0), next)
                  then -wallHeight / 2.0 else wallHeight / 2.0
      {
        assert grid.cells[r, c] == MazeValue <==> Cell(r, c) in grid.maze;
      }
      var data := InterpData(0.0, 1.0, now, now + 10.0, 0, 0);
      m.moveData := m.moveData + [data];
      manager := m;
    }

    /** Called once per frame. */
    method Update(now: real)
      requires manager != null && manager.Valid()
      modifies manager, manager.heights
      ensures manager.Valid() && manager.moveData == Active(old(manager.moveData), now)
      ensures forall r, c :: 0 <= r < manager.numRows && 0 <= c < manager.numCols ==>
                manager.heights[r, c] ==
                  LastHeight(old(manager.moveData), manager.wallHeight, now, r, c, old(manager.heights[r, c]))
    {
      manager.Update(now);
    }
  }
}
