/** Applying an update list to the image: `getModifiedImageState` (App.js) and the
    no-op short-circuit `maybeUpdateImageState` (toolbarListeners.jsx, copied in PixelCanvas.jsx). */
module Patches {
  import opened Wrappers
  import opened Colors
  import opened Tiles

  /** `update.row === row && update.col === col`. */
  predicate Names(p: Pixel, row: int, col: int) {
    p.row == row && p.col == col
  }

  /** Some entry of `patch` names cell `(row, col)`. */
  predicate Mentions(patch: Patch, row: int, col: int) {
    exists i :: 0 <= i < |patch| && Names(patch[i], row, col)
  }

  /** No entry before index `i` names cell `(row, col)`. */
  predicate NoneBefore(patch: Patch, i: int, row: int, col: int)
    requires 0 <= i <= |patch|
  {
    forall j :: 0 <= j < i ==> !Names(patch[j], row, col)
  }

  /** `updateList.find(update => update.row === row && update.col === col)`, kept as the
      colour of the match: the first matching entry decides. */
  function Find(patch: Patch, row: int, col: int): (r: Option<Color>)
    ensures r.None? <==> !Mentions(patch, row, col)
    ensures forall i :: 0 <= i < |patch| && Names(patch[i], row, col) && NoneBefore(patch, i, row, col) ==>
              r == Some(patch[i].color)
  {
    if patch == [] then None
    else if Names(patch[0], row, col) then Some(patch[0].color)
    else
      var r := Find(patch[1..], row, col);
      assert forall i :: 1 <= i < |patch| ==> patch[i] == patch[1..][i - 1];
      assert Mentions(patch[1..], row, col) ==> Mentions(patch, row, col);
      r
  }

  /** The index of the first entry naming a mentioned cell. */
  lemma FirstMention(patch: Patch, row: int, col: int) returns (i: int)
    requires Mentions(patch, row, col)
    ensures 0 <= i < |patch| && Names(patch[i], row, col) && NoneBefore(patch, i, row, col)
  {
    i := 0;
    while !Names(patch[i], row, col)
      invariant 0 <= i < |patch| && NoneBefore(patch, i, row, col)
      invariant exists k :: i <= k < |patch| && Names(patch[k], row, col)
      decreases |patch| - i
    {
      i := i + 1;
    }
  }

  /** `updateList.some(update => update.row === row)`. */
  predicate TouchesRow(patch: Patch, row: int) {
    exists i :: 0 <= i < |patch| && patch[i].row == row
  }

  /** `getModifiedImageState(updateList, currImageState)` (App.js), which is also the second half
      of `maybeUpdateImageState`: rows no entry touches are kept as they are, and in the other
      rows each cell takes the colour of the first entry naming it. Entries naming a cell the
      grid does not have change nothing. */
  function GetModifiedImageState(patch: Patch, grid: Grid): (r: Grid)
    ensures |r| == |grid|
    ensures forall row :: 0 <= row < |grid| ==> |r[row]| == |grid[row]|
    ensures forall row :: 0 <= row < |grid| && !TouchesRow(patch, row) ==> r[row] == grid[row]
    ensures forall row, col :: 0 <= row < |grid| && 0 <= col < |grid[row]| && !Mentions(patch, row, col) ==>
              r[row][col] == grid[row][col]
    ensures forall i ::
              (0 <= i < |patch| && RowExists(grid, patch[i].row) && 0 <= patch[i].col < |grid[patch[i].row]| &&
               NoneBefore(patch, i, patch[i].row, patch[i].col)) ==>
              r[patch[i].row][patch[i].col] == patch[i].color
  {
    seq(|grid|, row requires 0 <= row < |grid| =>
      if !TouchesRow(patch, row) then
        grid[row]
      else
        seq(|grid[row]|, col requires 0 <= col < |grid[row]| =>
          match Find(patch, row, col)
          case Some(c) => c
          case None => grid[row][col]))
  }

  /** A cell after the update: the colour of the first entry naming it, or its old colour. */
  lemma CellAfterUpdate(patch: Patch, grid: Grid, row: int, col: int)
    requires RowExists(grid, row) && 0 <= col < |grid[row]|
    ensures Mentions(patch, row, col) ==>
              exists i :: 0 <= i < |patch| && Names(patch[i], row, col) && NoneBefore(patch, i, row, col) &&
                GetModifiedImageState(patch, grid)[row][col] == patch[i].color
    ensures !Mentions(patch, row, col) ==> GetModifiedImageState(patch, grid)[row][col] == grid[row][col]
  {
    if Mentions(patch, row, col) {
      var i := FirstMention(patch, row, col);
      assert GetModifiedImageState(patch, grid)[row][col] == patch[i].color;
    }
  }

  /** Applying the same update list twice is the same as applying it once. */
  lemma GetModifiedIdempotent(patch: Patch, grid: Grid)
    ensures GetModifiedImageState(patch, GetModifiedImageState(patch, grid)) == GetModifiedImageState(patch, grid)
  {
    var once := GetModifiedImageState(patch, grid);
    var twice := GetModifiedImageState(patch, once);
    forall row | 0 <= row < |grid|
      ensures twice[row] == once[row]
    {
      forall col | 0 <= col < |grid[row]|
        ensures twice[row][col] == once[row][col]
      {
        CellAfterUpdate(patch, grid, row, col);
        CellAfterUpdate(patch, once, row, col);
      }
    }
  }

  /** When every entry's cell already holds the entry's colour, the full update would rebuild
      exactly the grid it started from: returning the old grid loses nothing. */
  lemma GetModifiedOfSatisfied(patch: Patch, grid: Grid)
    requires forall i :: 0 <= i < |patch| ==> Holds(grid, patch[i])
    ensures GetModifiedImageState(patch, grid) == grid
  {
    var r := GetModifiedImageState(patch, grid);
    forall row | 0 <= row < |grid|
      ensures r[row] == grid[row]
    {
      forall col | 0 <= col < |grid[row]|
        ensures r[row][col] == grid[row][col]
      {
        CellAfterUpdate(patch, grid, row, col);
      }
    }
  }

  /** A single entry naming an existing cell writes exactly that cell. */
  lemma GetModifiedSingle(grid: Grid, p: Pixel)
    requires RowExists(grid, p.row) && 0 <= p.col < |grid[p.row]|
    ensures GetModifiedImageState([p], grid) == Paint(grid, p.row, p.col, p.color)
  {
    var r := GetModifiedImageState([p], grid);
    var s := Paint(grid, p.row, p.col, p.color);
    forall row | 0 <= row < |grid|
      ensures r[row] == s[row]
    {
      forall col | 0 <= col < |grid[row]|
        ensures r[row][col] == s[row][col]
      {
        CellAfterUpdate([p], grid, row, col);
        if row == p.row && col == p.col {
          assert Names([p][0], row, col);
        }
      }
    }
  }

  /** Two entries naming different cells write both cells when both exist, and only the
      first when the second names a cell the grid does not have. */
  lemma GetModifiedPair(grid: Grid, p: Pixel, q: Pixel)
    requires RowExists(grid, p.row) && 0 <= p.col < |grid[p.row]|
    requires !Names(q, p.row, p.col)
    ensures var once := Paint(grid, p.row, p.col, p.color);
            GetModifiedImageState([p, q], grid) ==
              if RowExists(grid, q.row) && 0 <= q.col < |grid[q.row]| then Paint(once, q.row, q.col, q.color)
              else once
  {
    var once := Paint(grid, p.row, p.col, p.color);
    var qIn := RowExists(grid, q.row) && 0 <= q.col < |grid[q.row]|;
    var r := GetModifiedImageState([p, q], grid);
    var s := if qIn then Paint(once, q.row, q.col, q.color) else once;
    forall row | 0 <= row < |grid|
      ensures r[row] == s[row]
    {
      forall col | 0 <= col < |grid[row]|
        ensures r[row][col] == s[row][col]
      {
        CellAfterUpdate([p, q], grid, row, col);
        if Names(p, row, col) {
          assert Names([p, q][0], row, col);
        } else if Names(q, row, col) {
          assert Names([p, q][1], row, col) && NoneBefore([p, q], 1, row, col);
        }
      }
    }
  }

  // ---------------------------------------------------------------------------------------
  // maybeUpdateImageState

  /** The check loop of `maybeUpdateImageState` reads `currImageState[row][col]` entry by entry
      and breaks at the first entry that differs, so only the entries up to that one are read;
      reading one whose row is missing throws. This is exactly the condition under which the
      loop runs to its end or to its break without throwing. */
  predicate ReadsSucceed(grid: Grid, patch: Patch) {
    |patch| == 0 ||
    (RowExists(grid, patch[0].row) && (Differs(grid, patch[0]) || ReadsSucceed(grid, patch[1..])))
  }

  /** When every entry names an existing row, the check loop never throws. */
  lemma {:induction false} ReadsSucceedWhenRowsExist(grid: Grid, patch: Patch)
    requires forall i :: 0 <= i < |patch| ==> RowExists(grid, patch[i].row)
    ensures ReadsSucceed(grid, patch)
  {
    if |patch| > 0 {
      assert forall i :: 0 <= i < |patch| - 1 ==> patch[1..][i] == patch[i + 1];
      ReadsSucceedWhenRowsExist(grid, patch[1..]);
    }
  }

  /** The check loop throws at entry `i`: the loop gets there, every earlier entry already
      holding, and the entry's row is missing. */
  predicate ThrowsAt(grid: Grid, patch: Patch, i: int) {
    0 <= i < |patch| && !RowExists(grid, patch[i].row) &&
    forall j :: 0 <= j < i ==> Holds(grid, patch[j])
  }

  /** The check loop runs without throwing exactly when it reaches no entry with a missing row. */
  lemma {:induction false} ReadsSucceedIff(grid: Grid, patch: Patch)
    ensures ReadsSucceed(grid, patch) <==> !exists i :: ThrowsAt(grid, patch, i)
  {
    if |patch| > 0 {
      var tail := patch[1..];
      assert forall j :: 0 <= j < |tail| ==> tail[j] == patch[j + 1];
      ReadsSucceedIff(grid, tail);
      if !RowExists(grid, patch[0].row) {
        assert ThrowsAt(grid, patch, 0);
      } else if Differs(grid, patch[0]) {
        assert !Holds(grid, patch[0]);
        assert forall i :: ThrowsAt(grid, patch, i) ==> i > 0 && Holds(grid, patch[0]);
      } else {
        assert Holds(grid, patch[0]);
        forall i | ThrowsAt(grid, patch, i)
          ensures ThrowsAt(grid, tail, i - 1)
        {
          forall j | 0 <= j < i - 1
            ensures Holds(grid, tail[j])
          {
            assert Holds(grid, patch[j + 1]);
          }
        }
        forall i | ThrowsAt(grid, tail, i)
          ensures ThrowsAt(grid, patch, i + 1)
        {
          assert forall j :: 0 <= j < i + 1 ==> Holds(grid, patch[j]) by {
            forall j | 0 <= j < i + 1
              ensures Holds(grid, patch[j])
            {
              if j > 0 { assert patch[j] == tail[j - 1]; }
            }
          }
        }
      }
    }
  }

  /** The `somethingChanged` flag the check loop computes. */
  function SomethingChanged(grid: Grid, patch: Patch): (changed: bool)
    requires ReadsSucceed(grid, patch)
    ensures !changed <==> forall i :: 0 <= i < |patch| ==> Holds(grid, patch[i])
  {
    if |patch| == 0 then false
    else if Differs(grid, patch[0]) then true
    else
      assert forall i :: 1 <= i < |patch| ==> patch[i] == patch[1..][i - 1];
      SomethingChanged(grid, patch[1..])
  }

  /** The check loop itself: entries are read in order and the loop breaks at the first one
      whose cell does not hold its colour. */
  method ScanForChange(patch: Patch, grid: Grid) returns (somethingChanged: bool)
    requires ReadsSucceed(grid, patch)
    ensures !somethingChanged <==> forall i :: 0 <= i < |patch| ==> Holds(grid, patch[i])
    ensures somethingChanged == SomethingChanged(grid, patch)
  {
    somethingChanged := false;
    var i := 0;
    while i < |patch|
      invariant 0 <= i <= |patch|
      invariant !somethingChanged
      invariant ReadsSucceed(grid, patch[i..])
      invariant forall j :: 0 <= j < i ==> Holds(grid, patch[j])
      invariant SomethingChanged(grid, patch) == SomethingChanged(grid, patch[i..])
    {
      var p := patch[i];
      assert patch[i..][0] == p && patch[i..][1..] == patch[i + 1..];
      if Read(grid, p.row, p.col) != Some(p.color) {
        somethingChanged := true;
        break;
      }
      i := i + 1;
    }
    if !somethingChanged {
      assert patch[i..] == [];
    }
  }

  /** `maybeUpdateImageState(updateList)(currImageState)`: the very same grid when every entry
      is already satisfied, otherwise the rebuilt grid. */
  function MaybeUpdateImageState(patch: Patch, grid: Grid): (r: Update<Grid>)
    requires ReadsSucceed(grid, patch)
    ensures r.Kept? <==> forall i :: 0 <= i < |patch| ==> Holds(grid, patch[i])
    ensures r.Replaced? ==> r.value == GetModifiedImageState(patch, grid)
  {
    if !SomethingChanged(grid, patch) then Kept
    else Replaced(GetModifiedImageState(patch, grid))
  }

  /** Whatever the short-circuit decides, the grid in effect afterwards is the one the full
      update computes. */
  lemma MaybeUpdateIsUpdate(patch: Patch, grid: Grid)
    requires ReadsSucceed(grid, patch)
    ensures MaybeUpdateImageState(patch, grid).Apply(grid) == GetModifiedImageState(patch, grid)
  {
    if MaybeUpdateImageState(patch, grid).Kept? {
      GetModifiedOfSatisfied(patch, grid);
    }
  }
}
