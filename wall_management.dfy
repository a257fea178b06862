/** The wall manager of Assets/Scripts/WallManagement.cs: one height quality and one vertical
    position per grid cell, and a list of scheduled moves that Update advances every frame. */
module WallManagement {
  import opened Interpolation
  import MazeSpec
  import GridGeneration

  /** (r, c) lies in the box of rows sr..er and columns sc..ec. */
  predicate InBox(sr: int, er: int, sc: int, ec: int, r: int, c: int) {
    sr <= r <= er && sc <= c <= ec
  }

  /** (r, c) lies on the outer ring of that box. */
  predicate OnBorder(sr: int, er: int, sc: int, ec: int, r: int, c: int) {
    InBox(sr, er, sc, ec, r, c) && (r == sr || r == er || c == sc || c == ec)
  }

  /** Every entry of s moves to end value fq over the interval [ts, ts + tt]. */
  predicate Timed(s: seq<InterpData>, ts: real, tt: real, fq: real) {
    forall d :: d in s ==> d.endHeightQuality == fq && d.startTime == ts && d.endTime == ts + tt
  }

  lemma TimedAppend(s: seq<InterpData>, t: seq<InterpData>, ts: real, tt: real, fq: real)
    requires Timed(s, ts, tt, fq) && Timed(t, ts, tt, fq)
    ensures Timed(s + t, ts, tt, fq)
  {
  }

  // ---------------------------------------------------------------------------
  // Update

  /** The entries Update keeps: all but the finished ones, in their order. */
  function Pending(s: seq<InterpData>, now: real): (p: seq<InterpData>)
    ensures |p| <= |s|
  {
    if s == [] then []
    else
      var last := s[|s| - 1];
      Pending(s[..|s| - 1], now) + (if TimePhase(now, last) == Finished then [] else [last])
  }

  /** The quality of wall (r, c) after Update: the end value of the last finished entry that
      targets it, or q0 when there is none. */
  function SettledQuality(s: seq<InterpData>, now: real, r: int, c: int, q0: real): (q: real)
    ensures CountAt(s, r, c) == 0 ==> q == q0
  {
    if s == [] then q0
    else
      var last := s[|s| - 1];
      if last.wallRow == r && last.wallCol == c && TimePhase(now, last) == Finished then last.endHeightQuality
      else SettledQuality(s[..|s| - 1], now, r, c, q0)
  }

  /** The position Update writes for entry d, if any: the end height of a finished move, the
      interpolated height of a running one, nothing for a move not started yet (and nothing
      for the NaN case, see the README). */
  function WrittenHeight(wallHeight: real, now: real, d: InterpData): (h: real)
    requires TimePhase(now, d) == Finished || TimePhase(now, d).Running?
    ensures TimePhase(now, d) == Finished ==> h == YPos(wallHeight, d.endHeightQuality)
    ensures 0.0 <= wallHeight && InUnit(d.startHeightQuality) && InUnit(d.endHeightQuality) ==>
              -wallHeight / 2.0 <= h <= wallHeight / 2.0
  {
    var q := if TimePhase(now, d) == Finished then 1.0 else TimePhase(now, d).q;
    var h := YPos(wallHeight, Linterp(q, d.startHeightQuality, d.endHeightQuality));
    if 0.0 <= wallHeight && InUnit(d.startHeightQuality) && InUnit(d.endHeightQuality) then
      YPosBetween(wallHeight, q, d.startHeightQuality, d.endHeightQuality);
      h
    else h
  }

  /** At its start time a move shows its start height, and at its end time its end height. */
  lemma WrittenHeightAtEnds(wallHeight: real, d: InterpData)
    requires d.startTime < d.endTime
    ensures WrittenHeight(wallHeight, d.startTime, d) == YPos(wallHeight, d.startHeightQuality)
    ensures WrittenHeight(wallHeight, d.endTime, d) == YPos(wallHeight, d.endHeightQuality)
  {
    assert TimePhase(d.startTime, d).q == 0.0;
    assert TimePhase(d.endTime, d).q == 1.0;
  }

  /** The position of wall (r, c) after Update: the one written by the last entry that
      targets it and writes one, or h0. */
  function ShownHeight(s: seq<InterpData>, wallHeight: real, now: real, r: int, c: int, h0: real): (h: real)
    ensures CountAt(s, r, c) == 0 ==> h == h0
  {
    if s == [] then h0
    else
      var last := s[|s| - 1];
      var p := TimePhase(now, last);
      if last.wallRow == r && last.wallCol == c && (p == Finished || p.Running?) then WrittenHeight(wallHeight, now, last)
      else ShownHeight(s[..|s| - 1], wallHeight, now, r, c, h0)
  }

  lemma PendingSnoc(s: seq<InterpData>, d: InterpData, now: real)
    ensures Pending(s + [d], now) == Pending(s, now) + (if TimePhase(now, d) == Finished then [] else [d])
  {
    assert (s + [d])[..|s|] == s;
  }

  lemma SettledSnoc(s: seq<InterpData>, d: InterpData, now: real, r: int, c: int, q0: real)
    ensures SettledQuality(s + [d], now, r, c, q0) ==
              if d.wallRow == r && d.wallCol == c && TimePhase(now, d) == Finished then d.endHeightQuality
              else SettledQuality(s, now, r, c, q0)
  {
    assert (s + [d])[..|s|] == s;
  }

  lemma ShownSnoc(s: seq<InterpData>, d: InterpData, wallHeight: real, now: real, r: int, c: int, h0: real)
    ensures ShownHeight(s + [d], wallHeight, now, r, c, h0) ==
              if d.wallRow == r && d.wallCol == c && (TimePhase(now, d) == Finished || TimePhase(now, d).Running?)
              then WrittenHeight(wallHeight, now, d)
              else ShownHeight(s, wallHeight, now, r, c, h0)
  {
    assert (s + [d])[..|s|] == s;
  }

  /** One more entry of s handled: the kept prefix grows by that entry unless it finished. */
  lemma PendingPrefixStep(s: seq<InterpData>, done: nat, now: real)
    requires done < |s|
    ensures Pending(s[..done + 1], now) ==
              Pending(s[..done], now) + (if TimePhase(now, s[done]) == Finished then [] else [s[done]])
  {
    assert s[..done + 1] == s[..done] + [s[done]];
    PendingSnoc(s[..done], s[done], now);
  }

  /** What one more entry d does to the quality and the height of wall (r, c). */
  lemma CellSnoc(s: seq<InterpData>, d: InterpData, wallHeight: real, now: real, r: int, c: int, q0: real, h0: real)
    ensures SettledQuality(s + [d], now, r, c, q0) ==
              if d.wallRow == r && d.wallCol == c && TimePhase(now, d) == Finished then d.endHeightQuality
              else SettledQuality(s, now, r, c, q0)
    ensures ShownHeight(s + [d], wallHeight, now, r, c, h0) ==
              if d.wallRow == r && d.wallCol == c && (TimePhase(now, d) == Finished || TimePhase(now, d).Running?)
              then WrittenHeight(wallHeight, now, d)
              else ShownHeight(s, wallHeight, now, r, c, h0)
  {
    SettledSnoc(s, d, now, r, c, q0);
    ShownSnoc(s, d, wallHeight, now, r, c, h0);
  }

  /** A border ring of an (a + 1) x (b + 1) box and the (a - 1) x (b - 1) box inside it
      cover the box. */
  lemma RingArea(a: int, b: int)
    ensures 2 * a + 2 * b + (a - 1) * (b - 1) == (a + 1) * (b + 1)
  {
  }

  /** The list Update's loop holds after `done` entries of s, and what one more pass makes
      of it: removing the entry at the cursor when it finished, keeping it otherwise. */
  lemma ListStep(s: seq<InterpData>, done: nat, now: real)
    requires done < |s|
    ensures var p, p' := Pending(s[..done], now), Pending(s[..done + 1], now);
            var m := p + s[done..];
            && m[|p|] == s[done]
            && (TimePhase(now, s[done]) == Finished ==>
                  m[..|p|] + m[|p| + 1..] == p' + s[done + 1..] && |p'| == |p|)
            && (TimePhase(now, s[done]) != Finished ==> m == p' + s[done + 1..] && |p'| == |p| + 1)
  {
    var p := Pending(s[..done], now);
    PendingPrefixStep(s, done, now);
    RemoveAt(p, s[done..]);
    assert s[done..][1..] == s[done + 1..];
    if TimePhase(now, s[done]) == Finished {
      assert p + [] == p;
    }
  }

  /** An entry stays on the list exactly when it has not finished. */
  lemma {:induction false} PendingMembers(s: seq<InterpData>, now: real, d: InterpData)
    ensures d in Pending(s, now) <==> d in s && TimePhase(now, d) != Finished
  {
    if s != [] {
      var s' := s[..|s| - 1];
      assert s == s' + [s[|s| - 1]];
      PendingMembers(s', now, d);
    }
  }

  /** Update works entry by entry: the entries scheduled later are handled after, and
      independently of, the ones scheduled earlier. */
  lemma {:induction false} PendingAppend(s: seq<InterpData>, t: seq<InterpData>, now: real)
    ensures Pending(s + t, now) == Pending(s, now) + Pending(t, now)
    decreases |t|
  {
    if t == [] {
      assert s + t == s;
    } else {
      var t', last := t[..|t| - 1], t[|t| - 1];
      assert t == t' + [last];
      assert s + t == (s + t') + [last];
      PendingSnoc(s + t', last, now);
      PendingSnoc(t', last, now);
      PendingAppend(s, t', now);
    }
  }

  /** A second Update at the same time leaves the list as the first one left it. */
  lemma {:induction false} PendingIdempotent(s: seq<InterpData>, now: real)
    ensures Pending(Pending(s, now), now) == Pending(s, now)
    decreases |s|
  {
    if s != [] {
      var s', last := s[..|s| - 1], s[|s| - 1];
      var x := if TimePhase(now, last) == Finished then [] else [last];
      assert s == s' + [last];
      PendingSnoc(s', last, now);
      PendingIdempotent(s', now);
      PendingAppend(Pending(s', now), x, now);
      PendingSnoc([], last, now);
    }
  }

  /** ... and changes no quality: nothing left on the list has finished. */
  lemma {:induction false} PendingSettlesNothing(s: seq<InterpData>, now: real, r: int, c: int, q0: real)
    ensures SettledQuality(Pending(s, now), now, r, c, q0) == q0
    decreases |s|
  {
    if s != [] {
      var s', last := s[..|s| - 1], s[|s| - 1];
      assert s == s' + [last];
      PendingSnoc(s', last, now);
      PendingSettlesNothing(s', now, r, c, q0);
      if TimePhase(now, last) != Finished {
        assert Pending(s, now) == Pending(s', now) + [last];
        SettledSnoc(Pending(s', now), last, now, r, c, q0);
      } else {
        assert Pending(s, now) == Pending(s', now);
      }
    }
  }

  /** The test for a finished move is strict: at its end time a move is still on the list. */
  lemma PendingKeepsAtEndTime(s: seq<InterpData>, d: InterpData)
    requires d in s && d.startTime < d.endTime
    ensures d in Pending(s, d.endTime)
  {
    PendingMembers(s, d.endTime, d);
  }

  /** Handling s and then t settles each wall as handling t from where s left it. */
  lemma {:induction false} SettledAppend(s: seq<InterpData>, t: seq<InterpData>, now: real, r: int, c: int, q0: real)
    ensures SettledQuality(s + t, now, r, c, q0) == SettledQuality(t, now, r, c, SettledQuality(s, now, r, c, q0))
    decreases |t|
  {
    if t == [] {
      assert s + t == s;
    } else {
      var t', last := t[..|t| - 1], t[|t| - 1];
      assert t == t' + [last];
      assert s + t == (s + t') + [last];
      SettledSnoc(s + t', last, now, r, c, q0);
      SettledSnoc(t', last, now, r, c, SettledQuality(s, now, r, c, q0));
      SettledAppend(s, t', now, r, c, q0);
    }
  }

  /** Every entry of t that targets (r, c) has finished at `now` and ends at quality v. */
  predicate FinishedAt(t: seq<InterpData>, now: real, r: int, c: int, v: real) {
    forall d :: d in t && d.wallRow == r && d.wallCol == c ==> TimePhase(now, d) == Finished && d.endHeightQuality == v
  }

  /** When all of t's moves of wall (r, c) have finished at the same end value v, the wall
      settles at v if t moves it at all, and keeps its quality otherwise. */
  lemma {:induction false} SettledUniform(t: seq<InterpData>, now: real, r: int, c: int, v: real, q0: real)
    requires FinishedAt(t, now, r, c, v)
    ensures SettledQuality(t, now, r, c, q0) == if CountAt(t, r, c) > 0 then v else q0
    decreases |t|
  {
    if t != [] {
      var t', last := t[..|t| - 1], t[|t| - 1];
      assert t == t' + [last];
      assert forall d :: d in t' ==> d in t;
      SettledSnoc(t', last, now, r, c, q0);
      CountAtSnoc(t', last, r, c);
      SettledUniform(t', now, r, c, v, q0);
    }
  }

  /** The moves of a schedule that has run its course: every one has finished. */
  lemma TimedFinished(t: seq<InterpData>, ts: real, tt: real, fq: real, now: real, r: int, c: int)
    requires Timed(t, ts, tt, fq) && 0.0 <= tt && ts + tt < now
    ensures FinishedAt(t, now, r, c, fq)
    ensures forall d :: d in t ==> TimePhase(now, d) == Finished
  {
  }

  /** Update drops every move that has finished: appending finished moves changes nothing
      about what stays on the list. */
  lemma PendingDropsFinished(s: seq<InterpData>, t: seq<InterpData>, now: real)
    requires forall d :: d in t ==> TimePhase(now, d) == Finished
    ensures Pending(s + t, now) == Pending(s, now)
  {
    PendingAppend(s, t, now);
    PendingNoneLeft(t, now);
  }

  lemma {:induction false} PendingNoneLeft(t: seq<InterpData>, now: real)
    requires forall d :: d in t ==> TimePhase(now, d) == Finished
    ensures Pending(t, now) == []
    decreases |t|
  {
    if t != [] {
      var t', last := t[..|t| - 1], t[|t| - 1];
      assert t == t' + [last];
      assert forall d :: d in t' ==> d in t;
      assert last in t;
      PendingSnoc(t', last, now);
      PendingNoneLeft(t', now);
    }
  }

  /** The loop of Update as written: `index` and the list after one pass of its body. A move
      not started yet (quality below 0) takes the empty branch at lines 121-126, which
      neither removes it nor advances `index`. */
  datatype Cursor = Cursor(index: nat, moveData: seq<InterpData>)

  function StepAsWritten(now: real, c: Cursor): (c': Cursor)
    requires c.index < |c.moveData|
    ensures TimePhase(now, c.moveData[c.index]) == Finished ==> |c'.moveData| == |c.moveData| - 1
    ensures |c'.moveData| <= |c.moveData|
  {
    var data := c.moveData[c.index];
    match TimePhase(now, data)
    case NotStarted => c
    case Finished => Cursor(c.index, c.moveData[..c.index] + c.moveData[c.index + 1..])
    case _ => Cursor(c.index + 1, c.moveData)
  }

  /** The as-written loop after n passes, or where it stops. */
  function RunAsWritten(now: real, c: Cursor, n: nat): (c': Cursor)
    ensures |c'.moveData| <= |c.moveData|
    decreases n
  {
    if n == 0 || c.index >= |c.moveData| then c
    else RunAsWritten(now, StepAsWritten(now, c), n - 1)
  }

  /** Where no move is still to start, the loop as written ends after at most one pass per
      entry, with the index at the end of the list and the list what the corrected Update
      leaves: starting from `done` entries already handled, |s| - done passes suffice. */
  lemma {:induction false} RunAsWrittenFinishes(now: real, s: seq<InterpData>, done: nat, n: nat)
    requires done <= |s| && |s| - done <= n
    requires forall d :: d in s ==> TimePhase(now, d) != NotStarted
    ensures RunAsWritten(now, Cursor(|Pending(s[..done], now)|, Pending(s[..done], now) + s[done..]), n) ==
              Cursor(|Pending(s, now)|, Pending(s, now))
    decreases |s| - done
  {
    var p := Pending(s[..done], now);
    if done == |s| {
      assert s[..done] == s && s[done..] == [];
      assert p + s[done..] == p;
    } else {
      assert s[done] in s;
      StepAsWrittenAt(now, s, done);
      RunAsWrittenFinishes(now, s, done + 1, n - 1);
    }
  }

  /** One pass of the loop as written, at an entry that has started, moves the cursor from
      `done` handled entries to done + 1. */
  lemma StepAsWrittenAt(now: real, s: seq<InterpData>, done: nat)
    requires done < |s| && TimePhase(now, s[done]) != NotStarted
    ensures var p, p' := Pending(s[..done], now), Pending(s[..done + 1], now);
            StepAsWritten(now, Cursor(|p|, p + s[done..])) == Cursor(|p'|, p' + s[done + 1..])
  {
    ListStep(s, done, now);
  }

  /** So wherever the source's Update does end, it leaves the list that the corrected Update
      leaves. */
  lemma UpdateAsWrittenAgrees(now: real, s: seq<InterpData>)
    requires forall d :: d in s ==> TimePhase(now, d) != NotStarted
    ensures RunAsWritten(now, Cursor(0, s), |s|) == Cursor(|Pending(s, now)|, Pending(s, now))
  {
    assert s[..0] == [] && s[0..] == s;
    assert Pending([], now) + s == s;
    RunAsWrittenFinishes(now, s, 0, |s|);
  }

  /** As written, Update never returns once its index reaches a move that has not started:
      after any number of passes the loop is still at that entry with the test
      `index < moveData.Count` true. */
  lemma {:induction false} UpdateAsWrittenStalls(now: real, c: Cursor, n: nat)
    requires c.index < |c.moveData| && TimePhase(now, c.moveData[c.index]) == NotStarted
    ensures RunAsWritten(now, c, n) == c
    ensures RunAsWritten(now, c, n).index < |RunAsWritten(now, c, n).moveData|
    decreases n
  {
    if n > 0 {
      assert StepAsWritten(now, c) == c;
      UpdateAsWrittenStalls(now, c, n - 1);
    }
  }

  /** A concrete frame that freezes: one move of wall (0, 0) scheduled to start one second
      after now. */
  lemma UpdateAsWrittenStallsOnFutureMove(now: real, n: nat)
    ensures var c := Cursor(0, [InterpData(1.0, 0.0, now + 1.0, now + 2.0, 0, 0)]);
            RunAsWritten(now, c, n) == c
  {
    var c := Cursor(0, [InterpData(1.0, 0.0, now + 1.0, now + 2.0, 0, 0)]);
    assert TimePhase(now, c.moveData[0]) == NotStarted;
    UpdateAsWrittenStalls(now, c, n);
  }

  class WallManager {
    const numRows: nat
    const numCols: nat
    const wallHeight: real
    /** The height quality of each wall: 1 raised, 0 sunk. */
    const qualities: array2<real>
    /** The vertical position of each wall's GameObject. */
    const heights: array2<real>
    /** The scheduled moves, in the order they were added. */
    var moveData: seq<InterpData>

    ghost predicate Shaped() {
      && qualities.Length0 == numRows && qualities.Length1 == numCols
      && heights.Length0 == numRows && heights.Length1 == numCols
      && numRows <= UintMax && numCols <= UintMax
      && qualities != heights
    }

    predicate InBounds(d: InterpData) {
      d.wallRow < numRows && d.wallCol < numCols
    }

    /** Every scheduled move targets a wall of the grid. */
    ghost predicate Valid()
      reads this
    {
      Shaped() && forall d :: d in moveData ==> InBounds(d)
    }

    /** The walls of the given grid, raised over wall cells and sunk over maze cells. */
    constructor (grid: GridGeneration.Grid, wallHeight: real)
      requires grid.Shaped() && grid.numRows <= UintMax && grid.numCols <= UintMax
      ensures Valid() && fresh(qualities) && fresh(heights)
      ensures numRows == grid.numRows && numCols == grid.numCols && this.wallHeight == wallHeight
      ensures moveData == []
      ensures forall r, c :: 0 <= r < numRows && 0 <= c < numCols ==>
                && qualities[r, c] == SeedQuality(grid.cells[r, c], MazeSpec.WallValue, MazeSpec.MazeValue)
                && heights[r, c] == YPos(wallHeight, qualities[r, c])
    {
      var q := new real[grid.numRows, grid.numCols];
      var h := new real[grid.numRows, grid.numCols];
      for row := 0 to grid.numRows
        invariant forall r, c :: 0 <= r < row && 0 <= c < grid.numCols ==>
                    && q[r, c] == SeedQuality(grid.cells[r, c], MazeSpec.WallValue, MazeSpec.MazeValue)
                    && h[r, c] == YPos(wallHeight, q[r, c])
      {
        for col := 0 to grid.numCols
          invariant forall r, c :: 0 <= r < row && 0 <= c < grid.numCols ==>
                      && q[r, c] == SeedQuality(grid.cells[r, c], MazeSpec.WallValue, MazeSpec.MazeValue)
                      && h[r, c] == YPos(wallHeight, q[r, c])
          invariant forall c :: 0 <= c < col ==>
                      && q[row, c] == SeedQuality(grid.cells[row, c], MazeSpec.WallValue, MazeSpec.MazeValue)
                      && h[row, c] == YPos(wallHeight, q[row, c])
        {
          var cellQuality := 0.5;
          if grid.cells[row, col] == MazeSpec.WallValue {
            cellQuality := 1.0;
          } else if grid.cells[row, col] == MazeSpec.MazeValue {
            cellQuality := 0.0;
          }
          h[row, col] := YPos(wallHeight, cellQuality);
          q[row, col] := cellQuality;
        }
      }
      numRows := grid.numRows;
      numCols := grid.numCols;
      this.wallHeight := wallHeight;
      qualities := q;
      heights := h;
      moveData := [];
    }

    /** The move BlockInterpolate schedules for wall (i, j). */
    function Entry(i: int, j: int, ts: real, tt: real, fq: real): (d: InterpData)
      requires Shaped() && 0 <= i < numRows && 0 <= j < numCols
      reads qualities
      ensures InBounds(d) && d.wallRow == i && d.wallCol == j
    {
      InterpData(qualities[i, j], fq, ts, ts + tt, i, j)
    }

    /** Every entry starts from the current quality of its wall. */
    ghost predicate FromCurrent(s: seq<InterpData>)
      reads qualities
      requires Shaped()
    {
      forall d :: d in s ==> InBounds(d) && d.startHeightQuality == qualities[d.wallRow, d.wallCol]
    }

    /** The moves for columns sc..j-1 of row i, left to right. */
    function Row(i: int, sc: int, j: int, ts: real, tt: real, fq: real): (s: seq<InterpData>)
      requires Shaped() && (j <= sc || (0 <= i < numRows && 0 <= sc && j <= numCols))
      reads qualities
      ensures |s| == if j <= sc then 0 else j - sc
      decreases j - sc
    {
      if j <= sc then []
      else Row(i, sc, j - 1, ts, tt, fq) + [Entry(i, j - 1, ts, tt, fq)]
    }

    /** The moves for rows sr..i-1 of columns sc..ec, row by row. */
    function Rows(sr: int, i: int, sc: int, ec: int, ts: real, tt: real, fq: real): (s: seq<InterpData>)
      requires Shaped() && (i <= sr || ec < sc || (0 <= sr && i <= numRows && 0 <= sc && ec < numCols))
      reads qualities
      decreases i - sr
    {
      if i <= sr then []
      else Rows(sr, i - 1, sc, ec, ts, tt, fq) + Row(i - 1, sc, ec + 1, ts, tt, fq)
    }

    /** A block of rows sr..i-1 and columns sc..ec holds one move per wall. */
    lemma {:induction false} RowsLength(sr: int, i: int, sc: int, ec: int, ts: real, tt: real, fq: real)
      requires Shaped() && (i <= sr || ec < sc || (0 <= sr && i <= numRows && 0 <= sc && ec < numCols))
      ensures |Rows(sr, i, sc, ec, ts, tt, fq)| == if i <= sr || ec < sc then 0 else (i - sr) * (ec - sc + 1)
      decreases i - sr
    {
      if i > sr {
        RowsLength(sr, i - 1, sc, ec, ts, tt, fq);
      }
    }

    lemma FromCurrentAppend(s: seq<InterpData>, t: seq<InterpData>)
      requires Shaped() && FromCurrent(s) && FromCurrent(t)
      ensures FromCurrent(s + t)
    {
    }

    /** Every move of row i of a block starts from its wall's current quality and moves it
        to fq over [ts, ts + tt]. */
    lemma {:induction false} RowScheduled(i: int, sc: int, j: int, ts: real, tt: real, fq: real)
      requires Shaped() && (j <= sc || (0 <= i < numRows && 0 <= sc && j <= numCols))
      ensures Timed(Row(i, sc, j, ts, tt, fq), ts, tt, fq) && FromCurrent(Row(i, sc, j, ts, tt, fq))
      decreases j - sc
    {
      if j > sc {
        RowScheduled(i, sc, j - 1, ts, tt, fq);
        TimedAppend(Row(i, sc, j - 1, ts, tt, fq), [Entry(i, j - 1, ts, tt, fq)], ts, tt, fq);
        FromCurrentAppend(Row(i, sc, j - 1, ts, tt, fq), [Entry(i, j - 1, ts, tt, fq)]);
      }
    }

    /** Row i of a block targets the walls of columns sc..j-1 of that row, once each. */
    lemma {:induction false} RowCount(i: int, sc: int, j: int, ts: real, tt: real, fq: real, r: int, c: int)
      requires Shaped() && (j <= sc || (0 <= i < numRows && 0 <= sc && j <= numCols))
      ensures CountAt(Row(i, sc, j, ts, tt, fq), r, c) == if r == i && sc <= c < j then 1 else 0
      decreases j - sc
    {
      if j > sc {
        var s, e := Row(i, sc, j - 1, ts, tt, fq), Entry(i, j - 1, ts, tt, fq);
        assert Row(i, sc, j, ts, tt, fq) == s + [e];
        RowCount(i, sc, j - 1, ts, tt, fq, r, c);
        CountAtSnoc(s, e, r, c);
      }
    }

    lemma {:induction false} RowsScheduled(sr: int, i: int, sc: int, ec: int, ts: real, tt: real, fq: real)
      requires Shaped() && (i <= sr || ec < sc || (0 <= sr && i <= numRows && 0 <= sc && ec < numCols))
      ensures Timed(Rows(sr, i, sc, ec, ts, tt, fq), ts, tt, fq) && FromCurrent(Rows(sr, i, sc, ec, ts, tt, fq))
      decreases i - sr
    {
      if i > sr {
        RowsScheduled(sr, i - 1, sc, ec, ts, tt, fq);
        RowScheduled(i - 1, sc, ec + 1, ts, tt, fq);
        TimedAppend(Rows(sr, i - 1, sc, ec, ts, tt, fq), Row(i - 1, sc, ec + 1, ts, tt, fq), ts, tt, fq);
        FromCurrentAppend(Rows(sr, i - 1, sc, ec, ts, tt, fq), Row(i - 1, sc, ec + 1, ts, tt, fq));
      }
    }

    /** Rows sr..i-1 of a block target the walls of that part of the box, once each. */
    lemma {:induction false} RowsCount(sr: int, i: int, sc: int, ec: int, ts: real, tt: real, fq: real, r: int, c: int)
      requires Shaped() && (i <= sr || ec < sc || (0 <= sr && i <= numRows && 0 <= sc && ec < numCols))
      ensures CountAt(Rows(sr, i, sc, ec, ts, tt, fq), r, c) == if InBox(sr, i - 1, sc, ec, r, c) then 1 else 0
      decreases i - sr
    {
      if i > sr {
        RowsCount(sr, i - 1, sc, ec, ts, tt, fq, r, c);
        RowCount(i - 1, sc, ec + 1, ts, tt, fq, r, c);
        CountAtAppend(Rows(sr, i - 1, sc, ec, ts, tt, fq), Row(i - 1, sc, ec + 1, ts, tt, fq), r, c);
      }
    }

    /** BlockInterpolate only reads walls of the grid, and its uint row counter cannot wrap
        round: a block past the grid throws, and a row range ending at UintMax with no
        columns never ends. */
    predicate BlockFits(sr: uint, er: uint, sc: uint, ec: uint) {
      sr > er || (sc > ec && er < UintMax) || (er < numRows && ec < numCols)
    }

    /** The moves BlockInterpolate schedules, in row-major order: one per wall of the box. */
    function Block(sr: uint, er: uint, sc: uint, ec: uint, ts: real, tt: real, fq: real): (s: seq<InterpData>)
      requires Shaped() && BlockFits(sr, er, sc, ec)
      reads qualities
      ensures |s| == if er < sr || ec < sc then 0 else (er - sr + 1) * (ec - sc + 1)
    {
      RowsLength(sr, er + 1, sc, ec, ts, tt, fq);
      Rows(sr, er + 1, sc, ec, ts, tt, fq)
    }

    /** The inner loop of BlockInterpolate: schedules the walls of columns sc..ec of row i,
        left to right. */
    method InterpolateRow(i: uint, sc: uint, ec: uint, timeStart: real, timeTaken: real, finalQuality: real)
      requires Valid() && (ec < sc || (i < numRows && ec < numCols))
      modifies this
      ensures Valid()
      ensures moveData == old(moveData) + Row(i, sc, ec + 1, timeStart, timeTaken, finalQuality)
    {
      var j: int := sc;
      while j <= ec
        invariant sc <= j && (j == sc || j <= ec + 1)
        invariant Valid()
        invariant moveData == old(moveData) + Row(i, sc, j, timeStart, timeTaken, finalQuality)
        decreases ec - j
      {
        var data := InterpData(qualities[i, j], finalQuality, timeStart, timeStart + timeTaken, i, j);
        assert Row(i, sc, j + 1, timeStart, timeTaken, finalQuality) ==
               Row(i, sc, j, timeStart, timeTaken, finalQuality) + [data];
        moveData := moveData + [data];
        j := j + 1;
      }
    }

    /** Schedules, for every wall of the block in row-major order, a move from its current
        quality to finalQuality over [timeStart, timeStart + timeTaken]. */
    method BlockInterpolate(startingRow: uint, endingRow: uint, startingColumn: uint, endingColumn: uint,
                            timeStart: real, timeTaken: real, finalQuality: real)
      requires Valid() && BlockFits(startingRow, endingRow, startingColumn, endingColumn)
      modifies this
      ensures Valid()
      ensures moveData == old(moveData) +
                Block(startingRow, endingRow, startingColumn, endingColumn, timeStart, timeTaken, finalQuality)
    {
      var i: int := startingRow;
      while i <= endingRow
        invariant startingRow <= i && (i == startingRow || i <= endingRow + 1)
        invariant Valid()
        invariant moveData == old(moveData) + Rows(startingRow, i, startingColumn, endingColumn, timeStart, timeTaken, finalQuality)
        decreases endingRow - i
      {
        InterpolateRow(i, startingColumn, endingColumn, timeStart, timeTaken, finalQuality);
        assert Rows(startingRow, i + 1, startingColumn, endingColumn, timeStart, timeTaken, finalQuality) ==
               Rows(startingRow, i, startingColumn, endingColumn, timeStart, timeTaken, finalQuality) +
               Row(i, startingColumn, endingColumn + 1, timeStart, timeTaken, finalQuality);
        i := i + 1;
      }
    }

    /** Lowers every wall of the block to quality 0. */
    method CreateClearing(startingRow: uint, endingRow: uint, startingColumn: uint, endingColumn: uint,
                          startTime: real, timeTaken: real)
      requires Valid() && BlockFits(startingRow, endingRow, startingColumn, endingColumn)
      modifies this
      ensures Valid()
      ensures moveData == old(moveData) +
                Block(startingRow, endingRow, startingColumn, endingColumn, startTime, timeTaken, 0.0)
    {
      BlockInterpolate(startingRow, endingRow, startingColumn, endingColumn, startTime, timeTaken, 0.0);
    }

    /** The four blocks of OutlineInterpolate: left column, bottom row, right column, top row,
        with the source's uint arithmetic on the bounds. */
    predicate OutlineFits(sr: uint, er: uint, sc: uint, ec: uint) {
      && BlockFits(sr, Dec(er), sc, sc)
      && BlockFits(er, er, sc, Dec(ec))
      && BlockFits(Inc(sr), er, ec, ec)
      && BlockFits(sr, sr, Inc(sc), ec)
    }

    /** The moves OutlineInterpolate schedules: for a box at least two rows high and two
        columns wide, 2 * (er - sr) + 2 * (ec - sc) of them, 12 for a 4 x 4 box. */
    function Outline(sr: uint, er: uint, sc: uint, ec: uint, ts: real, tt: real, fq: real): (s: seq<InterpData>)
      requires Shaped() && OutlineFits(sr, er, sc, ec)
      reads qualities
      ensures sr < er && sc < ec ==> |s| == 2 * (er - sr) + 2 * (ec - sc)
    {
      Block(sr, Dec(er), sc, sc, ts, tt, fq) +
      Block(er, er, sc, Dec(ec), ts, tt, fq) +
      Block(Inc(sr), er, ec, ec, ts, tt, fq) +
      Block(sr, sr, Inc(sc), ec, ts, tt, fq)
    }

    /** Moves the border walls of the box to finalQuality. */
    method OutlineInterpolate(startingRow: uint, endingRow: uint, startingColumn: uint, endingColumn: uint,
                              timeStart: real, timeTaken: real, finalQuality: real)
      requires Valid() && OutlineFits(startingRow, endingRow, startingColumn, endingColumn)
      modifies this
      ensures Valid()
      ensures moveData == old(moveData) +
                Outline(startingRow, endingRow, startingColumn, endingColumn, timeStart, timeTaken, finalQuality)
    {
      BlockInterpolate(startingRow, Dec(endingRow), startingColumn, startingColumn, timeStart, timeTaken, finalQuality);
      BlockInterpolate(endingRow, endingRow, startingColumn, Dec(endingColumn), timeStart, timeTaken, finalQuality);
      BlockInterpolate(Inc(startingRow), endingRow, endingColumn, endingColumn, timeStart, timeTaken, finalQuality);
      BlockInterpolate(startingRow, startingRow, Inc(startingColumn), endingColumn, timeStart, timeTaken, finalQuality);
    }

    predicate WalledFits(sr: uint, er: uint, sc: uint, ec: uint) {
      OutlineFits(sr, er, sc, ec) && BlockFits(Inc(sr), Dec(er), Inc(sc), Dec(ec))
    }

    /** The moves CreateWalledClearing schedules: for a box at least two rows high and two
        columns wide, one per wall of the box. */
    function Walled(sr: uint, er: uint, sc: uint, ec: uint, ts: real, tt: real): (s: seq<InterpData>)
      requires Shaped() && WalledFits(sr, er, sc, ec)
      reads qualities
      ensures sr < er && sc < ec ==> |s| == (er - sr + 1) * (ec - sc + 1)
    {
      Outline(sr, er, sc, ec, ts, tt, 1.0) + Block(Inc(sr), Dec(er), Inc(sc), Dec(ec), ts, tt, 0.0)
    }

    /** Raises the border of the box and lowers everything inside it. */
    method CreateWalledClearing(startingRow: uint, endingRow: uint, startingColumn: uint, endingColumn: uint,
                                timeStart: real, timeTaken: real)
      requires Valid() && WalledFits(startingRow, endingRow, startingColumn, endingColumn)
      modifies this
      ensures Valid()
      ensures moveData == old(moveData) + Walled(startingRow, endingRow, startingColumn, endingColumn, timeStart, timeTaken)
    {
      OutlineInterpolate(startingRow, endingRow, startingColumn, endingColumn, timeStart, timeTaken, 1.0);
      CreateClearing(Inc(startingRow), Dec(endingRow), Inc(startingColumn), Dec(endingColumn), timeStart, timeTaken);
    }

    predicate ClearedWalledFits(sr: uint, er: uint, sc: uint, ec: uint) {
      OutlineFits(sr, er, sc, ec) && WalledFits(Inc(sr), Dec(er), Inc(sc), Dec(ec))
    }

    /** The moves CreateClearedWalledClearing schedules: for a box at least four rows high
        and four columns wide, one per wall of the box. */
    function ClearedWalled(sr: uint, er: uint, sc: uint, ec: uint, ts: real, tt: real): (s: seq<InterpData>)
      requires Shaped() && ClearedWalledFits(sr, er, sc, ec)
      reads qualities
      ensures sr + 2 < er && sc + 2 < ec ==> |s| == (er - sr + 1) * (ec - sc + 1)
    {
      RingArea(er - sr, ec - sc);
      Outline(sr, er, sc, ec, ts, tt, 0.0) + Walled(Inc(sr), Dec(er), Inc(sc), Dec(ec), ts, tt)
    }

    /** Lowers the border of the box, raises the ring inside it and lowers the rest. */
    method CreateClearedWalledClearing(startingRow: uint, endingRow: uint, startingColumn: uint, endingColumn: uint,
                                       timeStart: real, timeTaken: real)
      requires Valid() && ClearedWalledFits(startingRow, endingRow, startingColumn, endingColumn)
      modifies this
      ensures Valid()
      ensures moveData == old(moveData) +
                ClearedWalled(startingRow, endingRow, startingColumn, endingColumn, timeStart, timeTaken)
    {
      OutlineInterpolate(startingRow, endingRow, startingColumn, endingColumn, timeStart, timeTaken, 0.0);
      CreateWalledClearing(Inc(startingRow), Dec(endingRow), Inc(startingColumn), Dec(endingColumn), timeStart, timeTaken);
    }

    /** BlockInterpolate schedules each wall of the box exactly once, and nothing else, each
        move from the wall's current quality to fq over [ts, ts + tt]. */
    lemma BlockCount(sr: uint, er: uint, sc: uint, ec: uint, ts: real, tt: real, fq: real, r: int, c: int)
      requires Shaped() && BlockFits(sr, er, sc, ec)
      ensures CountAt(Block(sr, er, sc, ec, ts, tt, fq), r, c) == if InBox(sr, er, sc, ec, r, c) then 1 else 0
    {
      RowsCount(sr, er + 1, sc, ec, ts, tt, fq, r, c);
    }

    lemma BlockScheduled(sr: uint, er: uint, sc: uint, ec: uint, ts: real, tt: real, fq: real)
      requires Shaped() && BlockFits(sr, er, sc, ec)
      ensures Timed(Block(sr, er, sc, ec, ts, tt, fq), ts, tt, fq)
      ensures FromCurrent(Block(sr, er, sc, ec, ts, tt, fq))
      ensures forall r, c :: InBox(sr, er, sc, ec, r, c) <==> CountAt(Block(sr, er, sc, ec, ts, tt, fq), r, c) == 1
    {
      RowsScheduled(sr, er + 1, sc, ec, ts, tt, fq);
      forall r, c {
        BlockCount(sr, er, sc, ec, ts, tt, fq, r, c);
      }
    }

    /** For a box at least two rows high and two columns wide, OutlineInterpolate schedules
        each border wall exactly once and no other wall. */
    lemma OutlineCount(sr: uint, er: uint, sc: uint, ec: uint, ts: real, tt: real, fq: real, r: int, c: int)
      requires Shaped() && OutlineFits(sr, er, sc, ec) && sr < er && sc < ec
      ensures CountAt(Outline(sr, er, sc, ec, ts, tt, fq), r, c) == if OnBorder(sr, er, sc, ec, r, c) then 1 else 0
    {
      var left, bottom := Block(sr, Dec(er), sc, sc, ts, tt, fq), Block(er, er, sc, Dec(ec), ts, tt, fq);
      var right, top := Block(Inc(sr), er, ec, ec, ts, tt, fq), Block(sr, sr, Inc(sc), ec, ts, tt, fq);
      BlockCount(sr, Dec(er), sc, sc, ts, tt, fq, r, c);
      BlockCount(er, er, sc, Dec(ec), ts, tt, fq, r, c);
      BlockCount(Inc(sr), er, ec, ec, ts, tt, fq, r, c);
      BlockCount(sr, sr, Inc(sc), ec, ts, tt, fq, r, c);
      CountAtAppend(left, bottom, r, c);
      CountAtAppend(left + bottom, right, r, c);
      CountAtAppend(left + bottom + right, top, r, c);
    }

    lemma OutlineScheduled(sr: uint, er: uint, sc: uint, ec: uint, ts: real, tt: real, fq: real)
      requires Shaped() && OutlineFits(sr, er, sc, ec)
      ensures Timed(Outline(sr, er, sc, ec, ts, tt, fq), ts, tt, fq)
      ensures FromCurrent(Outline(sr, er, sc, ec, ts, tt, fq))
    {
      var left, bottom := Block(sr, Dec(er), sc, sc, ts, tt, fq), Block(er, er, sc, Dec(ec), ts, tt, fq);
      var right, top := Block(Inc(sr), er, ec, ec, ts, tt, fq), Block(sr, sr, Inc(sc), ec, ts, tt, fq);
      BlockScheduled(sr, Dec(er), sc, sc, ts, tt, fq);
      BlockScheduled(er, er, sc, Dec(ec), ts, tt, fq);
      BlockScheduled(Inc(sr), er, ec, ec, ts, tt, fq);
      BlockScheduled(sr, sr, Inc(sc), ec, ts, tt, fq);
      TimedAppend(left, bottom, ts, tt, fq);
      TimedAppend(left + bottom, right, ts, tt, fq);
      TimedAppend(left + bottom + right, top, ts, tt, fq);
      FromCurrentAppend(left, bottom);
      FromCurrentAppend(left + bottom, right);
      FromCurrentAppend(left + bottom + right, top);
    }

    /** Scheduling never writes a quality, so every move of a walled clearing starts from the
        quality its wall had before the call. */
    lemma WalledFromCurrent(sr: uint, er: uint, sc: uint, ec: uint, ts: real, tt: real)
      requires Shaped() && WalledFits(sr, er, sc, ec)
      ensures FromCurrent(Walled(sr, er, sc, ec, ts, tt))
    {
      OutlineScheduled(sr, er, sc, ec, ts, tt, 1.0);
      BlockScheduled(Inc(sr), Dec(er), Inc(sc), Dec(ec), ts, tt, 0.0);
      FromCurrentAppend(Outline(sr, er, sc, ec, ts, tt, 1.0), Block(Inc(sr), Dec(er), Inc(sc), Dec(ec), ts, tt, 0.0));
    }

    /** The same for a cleared walled clearing. */
    lemma ClearedWalledFromCurrent(sr: uint, er: uint, sc: uint, ec: uint, ts: real, tt: real)
      requires Shaped() && ClearedWalledFits(sr, er, sc, ec)
      ensures FromCurrent(ClearedWalled(sr, er, sc, ec, ts, tt))
    {
      OutlineScheduled(sr, er, sc, ec, ts, tt, 0.0);
      WalledFromCurrent(Inc(sr), Dec(er), Inc(sc), Dec(ec), ts, tt);
      FromCurrentAppend(Outline(sr, er, sc, ec, ts, tt, 0.0), Walled(Inc(sr), Dec(er), Inc(sc), Dec(ec), ts, tt));
    }

    /** On a single row the four blocks overlap: the walls strictly between the two end
        columns are scheduled twice, once by the bottom block and once by the top one. */
    lemma OutlineSingleRow(sr: uint, sc: uint, ec: uint, ts: real, tt: real, fq: real, c: int)
      requires Shaped() && OutlineFits(sr, sr, sc, ec) && sc < ec
      ensures CountAt(Outline(sr, sr, sc, ec, ts, tt, fq), sr, c) ==
                if sc < c < ec then 2 else if c == sc || c == ec then 1 else 0
    {
      var left, bottom := Block(sr, Dec(sr), sc, sc, ts, tt, fq), Block(sr, sr, sc, Dec(ec), ts, tt, fq);
      var right, top := Block(Inc(sr), sr, ec, ec, ts, tt, fq), Block(sr, sr, Inc(sc), ec, ts, tt, fq);
      BlockCount(sr, Dec(sr), sc, sc, ts, tt, fq, sr, c);
      BlockCount(sr, sr, sc, Dec(ec), ts, tt, fq, sr, c);
      BlockCount(Inc(sr), sr, ec, ec, ts, tt, fq, sr, c);
      BlockCount(sr, sr, Inc(sc), ec, ts, tt, fq, sr, c);
      CountAtAppend(left, bottom, sr, c);
      CountAtAppend(left + bottom, right, sr, c);
      CountAtAppend(left + bottom + right, top, sr, c);
    }

    /** Once the moves of a box have run their course (a non-negative duration, now past
        their end), an Update leaves each wall of the box at fq and every other wall as the
        earlier moves s leave it. */
    lemma BlockSettles(sr: uint, er: uint, sc: uint, ec: uint, ts: real, tt: real, fq: real,
                       s: seq<InterpData>, now: real, r: int, c: int, q0: real)
      requires Shaped() && BlockFits(sr, er, sc, ec)
      requires 0.0 <= tt && ts + tt < now
      ensures SettledQuality(s + Block(sr, er, sc, ec, ts, tt, fq), now, r, c, q0) ==
                if InBox(sr, er, sc, ec, r, c) then fq else SettledQuality(s, now, r, c, q0)
    {
      var block := Block(sr, er, sc, ec, ts, tt, fq);
      SettledAppend(s, block, now, r, c, q0);
      BlockScheduled(sr, er, sc, ec, ts, tt, fq);
      TimedFinished(block, ts, tt, fq, now, r, c);
      BlockCount(sr, er, sc, ec, ts, tt, fq, r, c);
      SettledUniform(block, now, r, c, fq, SettledQuality(s, now, r, c, q0));
    }

    /** The same for the outline of a box at least two rows high and two columns wide: its
        border walls end at fq. */
    lemma OutlineSettles(sr: uint, er: uint, sc: uint, ec: uint, ts: real, tt: real, fq: real,
                         s: seq<InterpData>, now: real, r: int, c: int, q0: real)
      requires Shaped() && OutlineFits(sr, er, sc, ec) && sr < er && sc < ec
      requires 0.0 <= tt && ts + tt < now
      ensures SettledQuality(s + Outline(sr, er, sc, ec, ts, tt, fq), now, r, c, q0) ==
                if OnBorder(sr, er, sc, ec, r, c) then fq else SettledQuality(s, now, r, c, q0)
    {
      var outline := Outline(sr, er, sc, ec, ts, tt, fq);
      SettledAppend(s, outline, now, r, c, q0);
      OutlineScheduled(sr, er, sc, ec, ts, tt, fq);
      TimedFinished(outline, ts, tt, fq, now, r, c);
      OutlineCount(sr, er, sc, ec, ts, tt, fq, r, c);
      SettledUniform(outline, now, r, c, fq, SettledQuality(s, now, r, c, q0));
    }

    /** Once a walled clearing has run its course, an Update leaves its border at quality 1,
        everything inside at 0, and every other wall as the earlier moves s leave it. */
    lemma WalledSettles(sr: uint, er: uint, sc: uint, ec: uint, ts: real, tt: real,
                        s: seq<InterpData>, now: real, r: int, c: int, q0: real)
      requires Shaped() && WalledFits(sr, er, sc, ec) && sr < er && sc < ec
      requires 0.0 <= tt && ts + tt < now
      ensures SettledQuality(s + Walled(sr, er, sc, ec, ts, tt), now, r, c, q0) ==
                if OnBorder(sr, er, sc, ec, r, c) then 1.0
                else if InBox(sr, er, sc, ec, r, c) then 0.0
                else SettledQuality(s, now, r, c, q0)
    {
      var outline := Outline(sr, er, sc, ec, ts, tt, 1.0);
      var inner := Block(Inc(sr), Dec(er), Inc(sc), Dec(ec), ts, tt, 0.0);
      assert Walled(sr, er, sc, ec, ts, tt) == outline + inner;
      assert s + (outline + inner) == (s + outline) + inner;
      OutlineSettles(sr, er, sc, ec, ts, tt, 1.0, s, now, r, c, q0);
      BlockSettles(Inc(sr), Dec(er), Inc(sc), Dec(ec), ts, tt, 0.0, s + outline, now, r, c, q0);
    }

    /** Once a cleared walled clearing has run its course, an Update leaves its border at 0,
        the ring just inside it at 1 and everything further in at 0. */
    lemma ClearedWalledSettles(sr: uint, er: uint, sc: uint, ec: uint, ts: real, tt: real,
                               s: seq<InterpData>, now: real, r: int, c: int, q0: real)
      requires Shaped() && ClearedWalledFits(sr, er, sc, ec) && sr + 2 < er && sc + 2 < ec
      requires 0.0 <= tt && ts + tt < now
      ensures SettledQuality(s + ClearedWalled(sr, er, sc, ec, ts, tt), now, r, c, q0) ==
                if OnBorder(sr, er, sc, ec, r, c) then 0.0
                else if OnBorder(sr + 1, er - 1, sc + 1, ec - 1, r, c) then 1.0
                else if InBox(sr, er, sc, ec, r, c) then 0.0
                else SettledQuality(s, now, r, c, q0)
    {
      var outline, inner := Outline(sr, er, sc, ec, ts, tt, 0.0), Walled(Inc(sr), Dec(er), Inc(sc), Dec(ec), ts, tt);
      assert ClearedWalled(sr, er, sc, ec, ts, tt) == outline + inner;
      assert s + (outline + inner) == (s + outline) + inner;
      OutlineSettles(sr, er, sc, ec, ts, tt, 0.0, s, now, r, c, q0);
      WalledSettles(Inc(sr), Dec(er), Inc(sc), Dec(ec), ts, tt, s + outline, now, r, c, q0);
    }

    /** One pass of Update's loop at `index`: a finished move leaves the list and sets its
        wall's quality to the end value and its height to the end height; a running one sets
        the height to the interpolated height and, like one not started yet, stays on the list
        with the index moved past it. Every other wall keeps its quality and height. */
    method Advance(now: real, index: nat) returns (next: nat)
      requires Valid() && index < |moveData|
      modifies this, qualities, heights
      ensures Valid()
      ensures var data := old(moveData[index]);
              && (TimePhase(now, data) == Finished ==>
                    next == index && moveData == old(moveData[..index]) + old(moveData[index + 1..]))
              && (TimePhase(now, data) != Finished ==> next == index + 1 && moveData == old(moveData))
      ensures var data := old(moveData[index]);
              forall r, c :: 0 <= r < numRows && 0 <= c < numCols ==>
                qualities[r, c] ==
                  if data.wallRow == r && data.wallCol == c && TimePhase(now, data) == Finished
                  then data.endHeightQuality else old(qualities[r, c])
      ensures var data := old(moveData[index]);
              forall r, c :: 0 <= r < numRows && 0 <= c < numCols ==>
                heights[r, c] ==
                  if data.wallRow == r && data.wallCol == c && (TimePhase(now, data) == Finished || TimePhase(now, data).Running?)
                  then WrittenHeight(wallHeight, now, data) else old(heights[r, c])
    {
      var data := moveData[index];
      assert InBounds(data);
      var phase := TimePhase(now, data);
      if phase == Finished {
        moveData := moveData[..index] + moveData[index + 1..];
        heights[data.wallRow, data.wallCol] := YPos(wallHeight, data.endHeightQuality);
        qualities[data.wallRow, data.wallCol] := data.endHeightQuality;
        next := index;
      } else {
        if phase.Running? {
          heights[data.wallRow, data.wallCol] := WrittenHeight(wallHeight, now, data);
        }
        next := index + 1;
      }
    }

    /** Advances every scheduled move to time `now`: a finished move is removed and leaves its
        wall at the end height and quality, a running one shows its interpolated height and
        stays, and one not started yet is passed over (see the README on this branch). */
    method Update(now: real)
      requires Valid()
      modifies this, qualities, heights
      ensures Valid()
      ensures moveData == Pending(old(moveData), now)
      ensures forall r, c :: 0 <= r < numRows && 0 <= c < numCols ==>
                && qualities[r, c] == SettledQuality(old(moveData), now, r, c, old(qualities[r, c]))
                && heights[r, c] == ShownHeight(old(moveData), wallHeight, now, r, c, old(heights[r, c]))
    {
      ghost var s0 := moveData;
      var index := 0;
      ghost var done := 0;
      while index < |moveData|
        invariant 0 <= done <= |s0|
        invariant moveData == Pending(s0[..done], now) + s0[done..]
        invariant index == |Pending(s0[..done], now)|
        invariant Valid()
        invariant forall r, c :: 0 <= r < numRows && 0 <= c < numCols ==>
                    qualities[r, c] == SettledQuality(s0[..done], now, r, c, old(qualities[r, c]))
        invariant forall r, c :: 0 <= r < numRows && 0 <= c < numCols ==>
                    heights[r, c] == ShownHeight(s0[..done], wallHeight, now, r, c, old(heights[r, c]))
        decreases |moveData| - index
      {
        ghost var prefix := s0[..done];
        ListStep(s0, done, now);
        TakeSnoc(s0, done);
        ghost var data := s0[done];
        forall r, c | 0 <= r < numRows && 0 <= c < numCols {
          CellSnoc(prefix, data, wallHeight, now, r, c, old(qualities[r, c]), old(heights[r, c]));
        }
        index := Advance(now, index);
        done := done + 1;
      }
      assert s0[..done] == s0;
    }
  }
}
