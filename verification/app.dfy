/** The editor's top level (App.js): the initial image and undo list, `updatePixels`, which
    commits an update list and builds the undo/redo patch pair, and the keyboard shortcuts. */
module App {
  import opened Wrappers
  import opened Colors
  import opened Tiles
  import opened Patches

  const ImageWidth: int := 16
  const ImageHeight: int := 16

  /** The colour every cell starts with. */
  const InitialColor: Color := 0x00ff_0000

  /** The initial image state: `IMAGE_HEIGHT` rows of `IMAGE_WIDTH` cells of `0x00ff0000`. */
  function InitialImageState(): (grid: Grid)
    ensures IsRectangular(grid, ImageWidth, ImageHeight)
    ensures forall r, c :: 0 <= r < ImageHeight && 0 <= c < ImageWidth ==> grid[r][c] == InitialColor
  {
    seq(ImageHeight, _ => seq(ImageWidth, _ => InitialColor))
  }

  /** What `addUndoAction` receives for one commit: the update list its undo action applies
      (the pre-image) and the one its redo action applies (the edit itself). */
  datatype UndoEntry = UndoEntry(undo: Patch, redo: Patch)

  /** `undoListRef.current`: `index` is one past the last undoable action. */
  datatype UndoList = UndoList(index: nat, functorStack: seq<UndoEntry>)

  function InitialUndoList(): (u: UndoList)
    ensures u.index == 0 && |u.functorStack| == 0
  {
    UndoList(0, [])
  }

  /** Some entry of `patch` names `(row, col)` and asks for a colour the cell does not hold. */
  predicate Overwrites(grid: Grid, patch: Patch, row: int, col: int) {
    exists i :: 0 <= i < |patch| && Names(patch[i], row, col) && !Holds(grid, patch[i])
  }

  /** `prevPixels`: for each entry, in order, whose colour differs from the current cell, the
      entry's cell with the colour it holds now. Every `currImageState[row][col]` is read, so
      every entry must name an existing row (and, in this model, an existing column). */
  function PrevPixels(grid: Grid, patch: Patch): (prev: Patch)
    requires InGrid(grid, patch)
    ensures |prev| <= |patch|
    ensures forall j :: 0 <= j < |prev| ==> Holds(grid, prev[j])
    ensures forall row, col :: Mentions(prev, row, col) <==> Overwrites(grid, patch, row, col)
    ensures |prev| == 0 <==> forall i :: 0 <= i < |patch| ==> Holds(grid, patch[i])
  {
    if |patch| == 0 then []
    else
      var p := patch[0];
      assert forall i :: 1 <= i < |patch| ==> patch[i] == patch[1..][i - 1];
      var rest := PrevPixels(grid, patch[1..]);
      OverwritesCons(grid, patch);
      if grid[p.row][p.col] != p.color then
        var prev := [Pixel(p.row, p.col, grid[p.row][p.col])] + rest;
        assert forall j :: 1 <= j < |prev| ==> prev[j] == rest[j - 1];
        MentionsCons(prev);
        prev
      else
        rest
  }

  lemma MentionsCons(patch: Patch)
    requires |patch| > 0
    ensures forall row, col :: Mentions(patch, row, col) <==> Names(patch[0], row, col) || Mentions(patch[1..], row, col)
  {
    assert forall i :: 1 <= i < |patch| ==> patch[i] == patch[1..][i - 1];
    forall row, col | Mentions(patch, row, col)
      ensures Names(patch[0], row, col) || Mentions(patch[1..], row, col)
    {
      var i :| 0 <= i < |patch| && Names(patch[i], row, col);
      if i > 0 { assert Names(patch[1..][i - 1], row, col); }
    }
  }

  lemma OverwritesCons(grid: Grid, patch: Patch)
    requires |patch| > 0
    ensures forall row, col :: Overwrites(grid, patch, row, col) <==>
              (Names(patch[0], row, col) && !Holds(grid, patch[0])) || Overwrites(grid, patch[1..], row, col)
  {
    assert forall i :: 1 <= i < |patch| ==> patch[i] == patch[1..][i - 1];
    forall row, col | Overwrites(grid, patch, row, col)
      ensures (Names(patch[0], row, col) && !Holds(grid, patch[0])) || Overwrites(grid, patch[1..], row, col)
    {
      var i :| 0 <= i < |patch| && Names(patch[i], row, col) && !Holds(grid, patch[i]);
      if i > 0 { assert Names(patch[1..][i - 1], row, col); }
    }
  }

  /** `prevPixels` is built entry by entry: the pre-image of a concatenation is the
      concatenation of the pre-images, which fixes its order to the order of the entries. */
  lemma {:induction false} PrevPixelsConcat(grid: Grid, a: Patch, b: Patch)
    requires InGrid(grid, a) && InGrid(grid, b)
    ensures InGrid(grid, a + b)
    ensures PrevPixels(grid, a + b) == PrevPixels(grid, a) + PrevPixels(grid, b)
  {
    assert InGrid(grid, a + b) by {
      forall i | 0 <= i < |a + b|
        ensures RowExists(grid, (a + b)[i].row) && 0 <= (a + b)[i].col < |grid[(a + b)[i].row]|
      {
        if i >= |a| { assert (a + b)[i] == b[i - |a|]; }
      }
    }
    if |a| > 0 {
      assert (a + b)[1..] == a[1..] + b;
      assert InGrid(grid, a[1..]) by {
        assert forall i :: 0 <= i < |a| - 1 ==> a[1..][i] == a[i + 1];
      }
      PrevPixelsConcat(grid, a[1..], b);
    } else {
      assert a + b == b;
    }
  }

  /** The pre-image of one entry. */
  lemma PrevPixelsSingle(grid: Grid, p: Pixel)
    requires RowExists(grid, p.row) && 0 <= p.col < |grid[p.row]|
    ensures PrevPixels(grid, [p]) ==
              if grid[p.row][p.col] != p.color then [Pixel(p.row, p.col, grid[p.row][p.col])] else []
  {
    assert [p][1..] == [];
  }

  /** Undo round trip: applying `prevPixels` to the edited grid gives back the grid before
      the edit, cell for cell. */
  lemma UndoRestores(grid: Grid, patch: Patch)
    requires InGrid(grid, patch)
    ensures GetModifiedImageState(PrevPixels(grid, patch), GetModifiedImageState(patch, grid)) == grid
  {
    var prev := PrevPixels(grid, patch);
    var edited := GetModifiedImageState(patch, grid);
    var restored := GetModifiedImageState(prev, edited);
    forall row | 0 <= row < |grid|
      ensures restored[row] == grid[row]
    {
      forall col | 0 <= col < |grid[row]|
        ensures restored[row][col] == grid[row][col]
      {
        CellAfterUpdate(prev, edited, row, col);
        CellAfterUpdate(patch, grid, row, col);
        if !Mentions(prev, row, col) && Mentions(patch, row, col) {
          var i := FirstMention(patch, row, col);
          assert Holds(grid, patch[i]);
        }
      }
    }
  }

  /** Redo round trip: applying the update list again to the restored grid reproduces the
      edited grid. */
  lemma RedoReplays(grid: Grid, patch: Patch)
    requires InGrid(grid, patch)
    ensures var edited := GetModifiedImageState(patch, grid);
            GetModifiedImageState(patch, GetModifiedImageState(PrevPixels(grid, patch), edited)) == edited
  {
    UndoRestores(grid, patch);
  }

  /** The outcome of one `updatePixels` call: the image state the updater returns and the
      undo/redo pair handed to `addUndoAction`, if any. */
  datatype Commit = Commit(image: Update<Grid>, recorded: Option<UndoEntry>)

  /** `updatePixels(updateList)` applied to the current image. */
  function UpdatePixels(updateList: Patch, grid: Grid): (r: Commit)
    requires InGrid(grid, updateList)
    ensures r.image.Kept? <==> r.recorded.None?
    ensures r.image.Kept? <==> forall i :: 0 <= i < |updateList| ==> Holds(grid, updateList[i])
    ensures r.image.Replaced? ==> r.image.value == GetModifiedImageState(updateList, grid)
    ensures r.recorded.Some? ==>
              r.recorded.value.redo == updateList && r.recorded.value.undo == PrevPixels(grid, updateList)
    ensures r.recorded.Some? ==>
              GetModifiedImageState(r.recorded.value.undo, r.image.value) == grid &&
              GetModifiedImageState(r.recorded.value.redo, grid) == r.image.value
  {
    var prevPixels := PrevPixels(grid, updateList);
    if |prevPixels| == 0 then
      Commit(Kept, None)
    else
      UndoRestores(grid, updateList);
      Commit(Replaced(GetModifiedImageState(updateList, grid)), Some(UndoEntry(prevPixels, updateList)))
  }

  /** `updatePixels` and `maybeUpdateImageState` short-circuit on exactly the same update lists
      and then produce the same image. */
  lemma UpdatePixelsAgreesWithMaybeUpdate(updateList: Patch, grid: Grid)
    requires InGrid(grid, updateList)
    ensures ReadsSucceed(grid, updateList)
    ensures UpdatePixels(updateList, grid).image == MaybeUpdateImageState(updateList, grid)
  {
    ReadsSucceedWhenRowsExist(grid, updateList);
  }

  // ---------------------------------------------------------------------------------------
  // keyDownHandler

  datatype KeyAction = UndoKey | RedoKey | Ignored

  /** `keyDownHandler`: meta+z undoes, meta+shift+z redoes, every other key does nothing. */
  function KeyDownHandler(key: string, metaKey: bool, shiftKey: bool): (a: KeyAction)
    ensures a == UndoKey <==> key == "z" && metaKey && !shiftKey
    ensures a == RedoKey <==> key == "z" && metaKey && shiftKey
    ensures a == Ignored <==> !(key == "z" && metaKey)
  {
    if key == "z" && metaKey then
      if !shiftKey then UndoKey else RedoKey
    else
      Ignored
  }
}
