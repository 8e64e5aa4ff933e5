/** The mouse listeners of the brush tool (`runListeners`, toolbarListeners.jsx): the shared
    `mouse` record, the cursor cell shown by the preview, and `placeColor`, which writes the
    selected colour into the cell under the mouse while a button is held. */
module ToolbarListeners {
  import opened Wrappers
  import opened Colors
  import opened Tiles
  import opened Patches

  /** The shared `mouse` record: the mouse position relative to the canvas, in canvas pixels,
      and whether a button is held. */
  datatype Mouse = Mouse(x: real, y: real, down: bool)

  /** The cursor part of the preview state. */
  datatype Preview = Preview(cursorRow: int, cursorCol: int)

  /** The `selectedTool.name` values `runListeners` distinguishes. */
  datatype Tool = Brush | Line

  /** What the listeners receive: a move carries the mouse position already made relative to
      the canvas (`clientX - bounding.left`, `clientY - bounding.top`); a press and a release
      carry nothing the handlers read. */
  datatype Event = MouseDown | MouseMove(x: real, y: real) | MouseUp

  /** The arguments of one `runListeners` call: `stride` is `previewCanvas.width / imageWidth`. */
  datatype Env = Env(stride: real, selectedColor: Color, tool: Tool, imageWidth: int, imageHeight: int)
  {
    predicate Valid() { stride > 0.0 }
  }

  /** Everything the listeners read or write: the mouse record, the preview state and the image
      state. */
  datatype State = State(mouse: Mouse, preview: Preview, image: Grid)

  /** `Math.floor(mouse.y / stride)` and `Math.floor(mouse.x / stride)`: the cell under the
      mouse, as (row, column). */
  function CursorCell(mouse: Mouse, stride: real): (cell: (int, int))
    requires stride > 0.0
    ensures cell.0 as real * stride <= mouse.y < (cell.0 + 1) as real * stride
    ensures cell.1 as real * stride <= mouse.x < (cell.1 + 1) as real * stride
  {
    FloorScaled(mouse.y, stride);
    FloorScaled(mouse.x, stride);
    ((mouse.y / stride).Floor, (mouse.x / stride).Floor)
  }

  /** The floor of `v / stride` is the index of the `stride`-wide band containing `v`. */
  lemma FloorScaled(v: real, stride: real)
    requires stride > 0.0
    ensures (v / stride).Floor as real * stride <= v < ((v / stride).Floor + 1) as real * stride
  {
    var q := v / stride;
    var f := q.Floor;
    assert f as real <= q < f as real + 1.0;
    assert q * stride == v;
    MulRight(f as real, q, stride);
    MulRight(q, f as real + 1.0, stride);
    assert v < (f as real + 1.0) * stride;
    assert (f + 1) as real == f as real + 1.0;
  }

  lemma MulRight(a: real, b: real, c: real)
    requires a <= b && c > 0.0
    ensures a * c <= b * c
    ensures a < b ==> a * c < b * c
  {
  }

  /** The updater `baseMouseMove` passes to `setPreviewState`: the same state object when the
      cursor cell has not changed, otherwise a copy with the new cell. */
  function UpdatePreview(curr: Preview, mouse: Mouse, stride: real): (r: Update<Preview>)
    requires stride > 0.0
    ensures r.Kept? <==> (curr.cursorRow, curr.cursorCol) == CursorCell(mouse, stride)
    ensures r.Replaced? ==> (r.value.cursorRow, r.value.cursorCol) == CursorCell(mouse, stride)
  {
    var (cursorRow, cursorCol) := CursorCell(mouse, stride);
    if cursorRow == curr.cursorRow && cursorCol == curr.cursorCol then Kept
    else Replaced(Preview(cursorRow, cursorCol))
  }

  /** Whichever way the updater goes, the preview afterwards shows the cell under the mouse. */
  lemma PreviewTracksCursor(curr: Preview, mouse: Mouse, stride: real)
    requires stride > 0.0
    ensures var p := UpdatePreview(curr, mouse, stride).Apply(curr);
            (p.cursorRow, p.cursorCol) == CursorCell(mouse, stride)
  {
  }

  /** The update list `placeColor` hands to `maybeUpdateImageState`: nothing when the cursor
      cell is off the image, otherwise that one cell with the selected colour. */
  function BrushUpdateList(mouse: Mouse, env: Env): (r: Option<Patch>)
    requires env.Valid()
    ensures var (row, col) := CursorCell(mouse, env.stride);
            (r.None? <==> !CheckTileBounds(row, col, env.imageWidth, env.imageHeight)) &&
            (r.Some? ==> r.value == [Pixel(row, col, env.selectedColor)])
  {
    var (cursorRow, cursorCol) := CursorCell(mouse, env.stride);
    if !CheckTileBounds(cursorRow, cursorCol, env.imageWidth, env.imageHeight) then None
    else Some([Pixel(cursorRow, cursorCol, env.selectedColor)])
  }

  /** `placeColor()` applied to the image state: nothing happens off the image; on it the
      updater keeps the same image when the cell already has the colour and otherwise paints
      exactly that cell. */
  function PlaceColor(mouse: Mouse, env: Env, image: Grid): (r: Update<Grid>)
    requires env.Valid() && IsRectangular(image, env.imageWidth, env.imageHeight)
    ensures var (row, col) := CursorCell(mouse, env.stride);
            r.Kept? <==>
              (!CheckTileBounds(row, col, env.imageWidth, env.imageHeight) || image[row][col] == env.selectedColor)
    ensures var (row, col) := CursorCell(mouse, env.stride);
            r.Replaced? ==>
              CheckTileBounds(row, col, env.imageWidth, env.imageHeight) &&
              r.value == Paint(image, row, col, env.selectedColor)
  {
    match BrushUpdateList(mouse, env)
    case None => Kept
    case Some(updateList) =>
      var p := updateList[0];
      ReadsSucceedWhenRowsExist(image, updateList);
      GetModifiedSingle(image, p);
      MaybeUpdateImageState(updateList, image)
  }

  /** One event through the listeners `runListeners` installs. The line tool installs none, so
      its events change nothing; the brush's press sets `down` and places colour, a move
      records the position, refreshes the preview and places colour while the button is held,
      and a release only clears `down`. */
  function Step(env: Env, st: State, e: Event): (r: State)
    requires env.Valid() && IsRectangular(st.image, env.imageWidth, env.imageHeight)
    ensures IsRectangular(r.image, env.imageWidth, env.imageHeight)
    ensures env.tool == Line ==> r == st
    // the button state follows presses and releases
    ensures env.tool == Brush ==> r.mouse.down == (e.MouseDown? || (st.mouse.down && !e.MouseUp?))
    // a move records the position and the preview shows the cell under it
    ensures env.tool == Brush && e.MouseMove? ==>
              r.mouse.x == e.x && r.mouse.y == e.y &&
              (r.preview.cursorRow, r.preview.cursorCol) == CursorCell(r.mouse, env.stride)
    ensures !e.MouseMove? ==> r.preview == st.preview
    // a press or a release leaves the recorded position alone
    ensures !e.MouseMove? ==> r.mouse.x == st.mouse.x && r.mouse.y == st.mouse.y
    // a press, and a move with the button held, place colour at the cell under the mouse
    ensures env.tool == Brush && (e.MouseDown? || (e.MouseMove? && st.mouse.down)) ==>
              r.image == PlaceColor(r.mouse, env, st.image).Apply(st.image)
    ensures env.tool == Brush && e.MouseMove? && !st.mouse.down ==> r.image == st.image
    // the image changes only on a press or a drag, and then only in the cell under the mouse
    ensures r.image != st.image ==> env.tool == Brush && r.mouse.down && !e.MouseUp?
    ensures var (row, col) := CursorCell(r.mouse, env.stride);
            r.image == st.image ||
            (CheckTileBounds(row, col, env.imageWidth, env.imageHeight) &&
             r.image == Paint(st.image, row, col, env.selectedColor))
  {
    match env.tool
    case Line => st
    case Brush =>
      match e
      case MouseDown =>
        var mouse := st.mouse.(down := true);
        st.(mouse := mouse, image := PlaceColor(mouse, env, st.image).Apply(st.image))
      case MouseMove(x, y) =>
        var mouse := st.mouse.(x := x, y := y);
        var preview := UpdatePreview(st.preview, mouse, env.stride).Apply(st.preview);
        var image := if mouse.down then PlaceColor(mouse, env, st.image).Apply(st.image) else st.image;
        State(mouse, preview, image)
      case MouseUp =>
        st.(mouse := st.mouse.(down := false))
  }

  /** A press paints the cell under the mouse with the selected colour when it is on the
      image and leaves every other cell as it was. */
  lemma PressPaintsCursorCell(env: Env, st: State, row: int, col: int)
    requires env.Valid() && env.tool == Brush && IsRectangular(st.image, env.imageWidth, env.imageHeight)
    requires 0 <= row < env.imageHeight && 0 <= col < env.imageWidth
    ensures var after := Step(env, st, MouseDown).image;
            after[row][col] ==
              if (row, col) == CursorCell(st.mouse, env.stride) then env.selectedColor else st.image[row][col]
  {
    var cell := CursorCell(st.mouse, env.stride);
    assert CursorCell(st.mouse.(down := true), env.stride) == cell;
  }

  /** Pressing again without moving changes nothing more: the second `placeColor` finds the
      cell already painted and its updater returns the same image. */
  lemma PressTwiceIsPressOnce(env: Env, st: State)
    requires env.Valid() && IsRectangular(st.image, env.imageWidth, env.imageHeight)
    ensures var once := Step(env, st, MouseDown);
            Step(env, once, MouseDown) == once
  {
    var once := Step(env, st, MouseDown);
    if env.tool == Brush {
      var (row, col) := CursorCell(once.mouse, env.stride);
      assert CursorCell(st.mouse.(down := true), env.stride) == (row, col);
      if CheckTileBounds(row, col, env.imageWidth, env.imageHeight) {
        assert once.image[row][col] == env.selectedColor;
      }
      assert once.mouse.(down := true) == once.mouse;
    }
  }

  /** The events one after another, each handler seeing the state the previous one left. */
  function Run(env: Env, st: State, events: seq<Event>): (r: State)
    requires env.Valid() && IsRectangular(st.image, env.imageWidth, env.imageHeight)
    ensures IsRectangular(r.image, env.imageWidth, env.imageHeight)
    decreases |events|
  {
    if |events| == 0 then st
    else Run(env, Step(env, st, events[0]), events[1..])
  }

  /** Under the line tool no listener is installed, so no sequence of events changes anything. */
  lemma {:induction false} LineToolIsInert(env: Env, st: State, events: seq<Event>)
    requires env.Valid() && env.tool == Line && IsRectangular(st.image, env.imageWidth, env.imageHeight)
    ensures Run(env, st, events) == st
    decreases |events|
  {
    if |events| > 0 {
      LineToolIsInert(env, Step(env, st, events[0]), events[1..]);
    }
  }

  /** Hovering never paints: with the button up and no press among the events, the image stays
      exactly as it was, and the button stays up. */
  lemma {:induction false} HoverKeepsImage(env: Env, st: State, events: seq<Event>)
    requires env.Valid() && IsRectangular(st.image, env.imageWidth, env.imageHeight)
    requires !st.mouse.down
    requires forall i :: 0 <= i < |events| ==> !events[i].MouseDown?
    ensures Run(env, st, events).image == st.image
    ensures !Run(env, st, events).mouse.down
    decreases |events|
  {
    if |events| > 0 {
      var next := Step(env, st, events[0]);
      assert forall i :: 0 <= i < |events| - 1 ==> events[1..][i] == events[i + 1];
      HoverKeepsImage(env, next, events[1..]);
    }
  }

  /** Every cell the brush ever changes ends up with the selected colour: a cell whose final
      colour differs from its first one holds the selected colour. */
  lemma {:induction false} RunPaintsOnlySelectedColor(env: Env, st: State, events: seq<Event>, row: int, col: int)
    requires env.Valid() && IsRectangular(st.image, env.imageWidth, env.imageHeight)
    requires 0 <= row < env.imageHeight && 0 <= col < env.imageWidth
    ensures var after := Run(env, st, events).image;
            after[row][col] == st.image[row][col] || after[row][col] == env.selectedColor
    decreases |events|
  {
    if |events| > 0 {
      var next := Step(env, st, events[0]);
      RunPaintsOnlySelectedColor(env, next, events[1..], row, col);
    }
  }
}
