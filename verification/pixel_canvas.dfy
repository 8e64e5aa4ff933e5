/** The canvas component's own copy of the brush (PixelCanvas.jsx). It differs from the
    toolbar listeners in two ways: the preview updater computes the cursor with the axes
    exchanged, and `placeColor` writes the cell under the mouse and the cell below it. It
    also chooses the colour of the cursor outline. Its `maybeUpdateImageState` is the same
    function as the toolbar's and is modelled once, in `Patches`. */
module PixelCanvas {
  import opened Wrappers
  import opened Colors
  import opened Tiles
  import opened Patches
  import opened ToolbarListeners

  /** The component's assumption about its image: a rectangle of at least one cell, whose
      width and height are the ones the listeners captured. */
  predicate Fits(env: Env, image: Grid) {
    env.Valid() && env.imageWidth >= 1 && env.imageHeight >= 1 &&
    IsRectangular(image, env.imageWidth, env.imageHeight)
  }

  // ---------------------------------------------------------------------------------------
  // The preview cursor

  /** The updater this component's `baseMouseMove` passes to `setPreviewState`: `cursorRow`
      is taken from `mouse.x` and `cursorCol` from `mouse.y`. */
  function SwappedUpdatePreview(curr: Preview, mouse: Mouse, stride: real): (r: Update<Preview>)
    requires stride > 0.0
    ensures var (row, col) := CursorCell(mouse, stride);
            (r.Kept? <==> curr.cursorRow == col && curr.cursorCol == row) &&
            (r.Replaced? ==> r.value == Preview(col, row))
  {
    var cursorRow := (mouse.x / stride).Floor;
    var cursorCol := (mouse.y / stride).Floor;
    if cursorRow == curr.cursorRow && cursorCol == curr.cursorCol then Kept
    else Replaced(Preview(cursorRow, cursorCol))
  }

  function Transpose(p: Preview): Preview {
    Preview(p.cursorCol, p.cursorRow)
  }

  /** Exchanging the axes is harmless as long as the stored cursor is the transpose of the
      one the toolbar listeners would store: the two updaters then keep or replace the state
      on the same events, and keep the stored cursors transposed. */
  lemma SwappedPreviewMirrors(curr: Preview, mouse: Mouse, stride: real)
    requires stride > 0.0
    ensures SwappedUpdatePreview(Transpose(curr), mouse, stride).Kept? <==> UpdatePreview(curr, mouse, stride).Kept?
    ensures SwappedUpdatePreview(Transpose(curr), mouse, stride).Apply(Transpose(curr)) ==
              Transpose(UpdatePreview(curr, mouse, stride).Apply(curr))
  {
  }

  /** The stored cursor after a sequence of mouse positions, under either updater. */
  function PreviewAfter(curr: Preview, moves: seq<Mouse>, stride: real, swapped: bool): Preview
    requires stride > 0.0
    decreases |moves|
  {
    if |moves| == 0 then curr
    else
      var next := if swapped then SwappedUpdatePreview(curr, moves[0], stride).Apply(curr)
                  else UpdatePreview(curr, moves[0], stride).Apply(curr);
      PreviewAfter(next, moves[1..], stride, swapped)
  }

  /** The initial preview state has cursor (0, 0), its own transpose, so along any sequence of
      moves the two components re-render the preview on exactly the same moves. */
  lemma {:induction false} SwappedRunMirrors(curr: Preview, moves: seq<Mouse>, stride: real)
    requires stride > 0.0
    ensures PreviewAfter(Transpose(curr), moves, stride, true) == Transpose(PreviewAfter(curr, moves, stride, false))
    decreases |moves|
  {
    if |moves| > 0 {
      SwappedPreviewMirrors(curr, moves[0], stride);
      SwappedRunMirrors(UpdatePreview(curr, moves[0], stride).Apply(curr), moves[1..], stride);
    }
  }

  // ---------------------------------------------------------------------------------------
  // The two-cell brush

  /** The update list this component's `placeColor` builds: nothing when the cursor cell is
      off the image, otherwise that cell and the one below it, in that order. The second
      entry is not checked against the image. */
  function TwoCellUpdateList(mouse: Mouse, env: Env): (r: Option<Patch>)
    requires env.Valid()
    ensures var (row, col) := CursorCell(mouse, env.stride);
            (r.None? <==> !CheckTileBounds(row, col, env.imageWidth, env.imageHeight)) &&
            (r.Some? ==> r.value == [Pixel(row, col, env.selectedColor), Pixel(row + 1, col, env.selectedColor)])
  {
    var (cursorRow, cursorCol) := CursorCell(mouse, env.stride);
    if !CheckTileBounds(cursorRow, cursorCol, env.imageWidth, env.imageHeight) then None
    else Some([Pixel(cursorRow, cursorCol, env.selectedColor), Pixel(cursorRow + 1, cursorCol, env.selectedColor)])
  }

  /** The updater threw a TypeError: it read `currImageState[row][col]` for a row the image
      does not have. */
  datatype UpdaterError = TypeError

  /** Running the updater `maybeUpdateImageState(updateList)` on the current image: it throws
      exactly when its check loop reaches an entry whose row is missing. */
  function RunUpdater(updateList: Patch, image: Grid): (r: Result<Update<Grid>, UpdaterError>)
    ensures r.Failure? <==> exists i :: ThrowsAt(image, updateList, i)
    ensures r.Success? ==> ReadsSucceed(image, updateList) && r.value == MaybeUpdateImageState(updateList, image)
  {
    ReadsSucceedIff(image, updateList);
    if ReadsSucceed(image, updateList) then Success(MaybeUpdateImageState(updateList, image))
    else Failure(TypeError)
  }

  /** The updater on the two-cell list for an on-image cell: it throws only on the last row and
      only when the cell already has the colour, and otherwise writes both cells, or just the
      first one on the last row. */
  lemma TwoCellOutcome(image: Grid, width: int, height: int, row: int, col: int, color: Color)
    requires IsRectangular(image, width, height) && 0 <= row < height && 0 <= col < width
    ensures var r := RunUpdater([Pixel(row, col, color), Pixel(row + 1, col, color)], image);
            (r.Failure? <==> row == height - 1 && image[row][col] == color) &&
            (r == Success(Kept) <==>
               row + 1 < height && image[row][col] == color && image[row + 1][col] == color) &&
            (r.Success? && r.value.Replaced? ==>
               r.value.value ==
                 if row + 1 < height then Paint(Paint(image, row, col, color), row + 1, col, color)
                 else Paint(image, row, col, color))
  {
    var p, q := Pixel(row, col, color), Pixel(row + 1, col, color);
    var updateList := [p, q];
    GetModifiedPair(image, p, q);
    assert updateList[1..] == [q] && [q][1..] == [];
    assert |updateList| == 2 && updateList[0] == p && updateList[1] == q;
    assert (forall i :: 0 <= i < |updateList| ==> Holds(image, updateList[i])) <==>
           Holds(image, p) && Holds(image, q);
    assert ReadsSucceed(image, [q]) <==> RowExists(image, q.row);
    assert ReadsSucceed(image, updateList) <==> Differs(image, p) || ReadsSucceed(image, [q]);
  }

  /** `placeColor()` applied to the image state: off the image nothing happens; on it the
      updater for the two-cell list runs. */
  function PlaceTwoCells(mouse: Mouse, env: Env, image: Grid): (r: Result<Update<Grid>, UpdaterError>)
    requires Fits(env, image)
    ensures var (row, col) := CursorCell(mouse, env.stride);
            !CheckTileBounds(row, col, env.imageWidth, env.imageHeight) ==> r == Success(Kept)
    ensures var (row, col) := CursorCell(mouse, env.stride);
            var c := env.selectedColor;
            CheckTileBounds(row, col, env.imageWidth, env.imageHeight) ==>
              (r.Failure? <==> row == env.imageHeight - 1 && image[row][col] == c) &&
              (r == Success(Kept) <==>
                 row + 1 < env.imageHeight && image[row][col] == c && image[row + 1][col] == c) &&
              (r.Success? && r.value.Replaced? ==>
                 r.value.value ==
                   if row + 1 < env.imageHeight then Paint(Paint(image, row, col, c), row + 1, col, c)
                   else Paint(image, row, col, c))
  {
    var (row, col) := CursorCell(mouse, env.stride);
    match TwoCellUpdateList(mouse, env)
    case None => Success(Kept)
    case Some(updateList) =>
      TwoCellOutcome(image, env.imageWidth, env.imageHeight, row, col, env.selectedColor);
      RunUpdater(updateList, image)
  }

  /** Away from the last row the two-cell brush paints the cell under the mouse and the one
      below it. */
  lemma TwoCellsAwayFromLastRow(mouse: Mouse, env: Env, image: Grid)
    requires Fits(env, image)
    requires var (row, col) := CursorCell(mouse, env.stride);
             CheckTileBounds(row, col, env.imageWidth, env.imageHeight) && row + 1 < env.imageHeight
    ensures var (row, col) := CursorCell(mouse, env.stride);
            var r := PlaceTwoCells(mouse, env, image);
            r.Success? &&
            r.value.Apply(image) == Paint(Paint(image, row, col, env.selectedColor), row + 1, col, env.selectedColor)
  {
    var (row, col) := CursorCell(mouse, env.stride);
    var c := env.selectedColor;
    var r := PlaceTwoCells(mouse, env, image);
    if r.value.Kept? {
      PaintHeld(image, row, col, c);
      PaintHeld(image, row + 1, col, c);
    }
  }

  /** The crash in numbers: on a 16 x 16 image whose bottom-left cell already has the
      selected colour, pressing over that cell makes the updater throw. */
  lemma LastRowCrash(image: Grid, color: Color)
    requires IsRectangular(image, 16, 16) && image[15][0] == color
    ensures PlaceTwoCells(Mouse(1.0, 605.0, true), Env(40.0, color, Brush, 16, 16), image) == Failure(TypeError)
  {
    assert (605.0 / 40.0).Floor == 15;
    assert (1.0 / 40.0).Floor == 0;
  }

  /** The component's listeners after one event; `Failure` when the image updater throws. */
  function CanvasStep(env: Env, st: State, e: Event): (r: Result<State, UpdaterError>)
    requires Fits(env, st.image)
    ensures r.Success? ==> IsRectangular(r.value.image, env.imageWidth, env.imageHeight)
    ensures env.tool == Line ==> r == Success(st)
    // only painting can fail, so releases and hovering always succeed and keep the image
    ensures (e.MouseUp? || (e.MouseMove? && !st.mouse.down)) ==> r.Success? && r.value.image == st.image
    ensures env.tool == Brush && r.Success? ==> r.value.mouse.down == (e.MouseDown? || (st.mouse.down && !e.MouseUp?))
    // a press, and a move with the button held, run the two-cell `placeColor` and fail
    // exactly when its updater throws
    ensures env.tool == Brush && e.MouseDown? ==>
              var m := st.mouse.(down := true);
              (r.Failure? <==> PlaceTwoCells(m, env, st.image).Failure?) &&
              (r.Success? ==>
                 r.value.mouse == m && r.value.image == PlaceTwoCells(m, env, st.image).value.Apply(st.image))
    ensures env.tool == Brush && e.MouseMove? && st.mouse.down ==>
              var m := st.mouse.(x := e.x, y := e.y);
              (r.Failure? <==> PlaceTwoCells(m, env, st.image).Failure?) &&
              (r.Success? ==>
                 r.value.mouse == m && r.value.image == PlaceTwoCells(m, env, st.image).value.Apply(st.image))
    // a move records the position; a press or a release keeps the position and the preview
    ensures env.tool == Brush && e.MouseMove? && r.Success? ==> r.value.mouse.x == e.x && r.value.mouse.y == e.y
    ensures !e.MouseMove? && r.Success? ==>
              r.value.preview == st.preview && r.value.mouse.x == st.mouse.x && r.value.mouse.y == st.mouse.y
    // the preview is updated as the toolbar listeners would, in transposed form
    ensures env.tool == Brush && e.MouseMove? && r.Success? ==>
              r.value.preview == SwappedUpdatePreview(st.preview, r.value.mouse, env.stride).Apply(st.preview)
  {
    match env.tool
    case Line => Success(st)
    case Brush =>
      match e
      case MouseDown =>
        var mouse := st.mouse.(down := true);
        var placed := PlaceTwoCells(mouse, env, st.image);
        if placed.Failure? then Failure(TypeError)
        else Success(st.(mouse := mouse, image := placed.value.Apply(st.image)))
      case MouseMove(x, y) =>
        var mouse := st.mouse.(x := x, y := y);
        var preview := SwappedUpdatePreview(st.preview, mouse, env.stride).Apply(st.preview);
        if !mouse.down then Success(State(mouse, preview, st.image))
        else
          var placed := PlaceTwoCells(mouse, env, st.image);
          if placed.Failure? then Failure(TypeError)
          else Success(State(mouse, preview, placed.value.Apply(st.image)))
      case MouseUp =>
        Success(st.(mouse := st.mouse.(down := false)))
  }

  // ---------------------------------------------------------------------------------------
  // The cursor outline

  /** The `strokeStyle` of the cursor square in `paintPreviewCanvas`: over the image, the
      serialised inverse of the colour under the cursor; elsewhere "black". */
  function OutlineStyle(mouse: Mouse, env: Env, image: Grid): (style: string)
    requires Fits(env, image)
    ensures var (row, col) := CursorCell(mouse, env.stride);
            CheckTileBounds(row, col, env.imageWidth, env.imageHeight) ==>
              |style| == 9 && style[0] == '#' && IsHexString(style[1..]) &&
              HexValue(style[1..]) == InvertHexColor(image[row][col]) &&
              style[7..] == "ff"
    ensures var (row, col) := CursorCell(mouse, env.stride);
            !CheckTileBounds(row, col, env.imageWidth, env.imageHeight) ==> style == "black"
  {
    var (cursorRow, cursorCol) := CursorCell(mouse, env.stride);
    if CheckTileBounds(cursorRow, cursorCol, env.imageWidth, env.imageHeight) then
      OpaqueColorEndsInFF(InvertHexColor(image[cursorRow][cursorCol]));
      HexToColor(InvertHexColor(image[cursorRow][cursorCol]))
    else
      "black"
  }
}
