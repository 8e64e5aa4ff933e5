# pixel-art-studio core in Dafny

A model of the editing core of pixel-art-studio, a small React pixel editor. The image is a
grid of 32-bit `0xRRGGBBAA` colours. An edit is an *update list* of `(row, col, color)` writes.
The model covers:

- the colour helpers of `util.js`: `invertHexColor` for the cursor outline, `hexToColor` for
  CSS strings, and `checkTileBounds`;
- the line rasteriser `drawLine`;
- `maybeUpdateImageState` and `getModifiedImageState`. These apply an update list. They
  return the very same grid when nothing would change, and otherwise a new grid where the
  first write naming a cell wins;
- `updatePixels`. It computes the pre-image `prevPixels` of an edit, skips the commit when
  that is empty, and builds the undo/redo pair of update lists;
- the keyboard shortcuts;
- the brush's mouse listeners, in both variants:
  - the one in `toolbarListeners.jsx`;
  - the one in `PixelCanvas.jsx`, whose cursor update exchanges the axes and whose brush
    writes two cells.

Modules, one per concern:

- `Wrappers`: `Option`, `Result`, and `Update`. `Update` is either `Kept` ("the updater
  returned its argument") or `Replaced(value)` ("it returned a new object").
- `Colors`: byte access, `invertHexColor`, `hexToColor`.
- `Tiles`: the grid, the write entries, `checkTileBounds`, and cell reads. Reading a missing
  row throws; reading a missing column gives `undefined`, modelled as `None`.
- `Patches`: `getModifiedImageState`, and the `maybeUpdateImageState` check loop and
  short-circuit. `PixelCanvas.jsx` holds a verbatim copy of this function, so it is modelled
  once, here.
- `App`: the initial state, `prevPixels`, `updatePixels` with its undo and redo round trips,
  and `keyDownHandler`.
- `Lines`: `drawLine`.
- `ToolbarListeners`: the brush listeners of `runListeners` as a step function over events.
- `PixelCanvas`: the component's own listeners, the two-cell brush and the outline colour.

`drawLine` is read in exact arithmetic:

- `atan2` picks the horizontal branch exactly when `|dr| <= |dc|`.
- `tan(theta)` is `dr/dc`, and `tan(theta + 90deg)` is `-dc/dr`.
- The cell formula `floor(prevRow + 0.5 + i * slope)` is kept over `real`, as written.
- `Lines.StepCellClosedForm` proves that formula equal to the integer closed form
  `start + (n + 2*k*d) div (2*n)`.

Behaviour of the code worth noting:

- `invertHexColor` truncates each scaled channel; the shift does this. For `0xfefefec8` each
  scaled channel is about 0.78, so a rounding version would give 1 where the code gives 0;
  `Colors.InvertTruncates` exhibits this colour.
- `drawLine` pushes the start cell twice. The first pass of the loop uses `i = 0`.
- The minor coordinate is `floor(start + 0.5 + i * slope)`: the added 0.5 makes it round half up.
- The two-cell brush of `PixelCanvas.jsx` bounds-checks only its first cell. Its updater
  throws on the last row when that cell already has the colour. The model returns `Failure`
  in exactly that case.

## Model

| member | source | states |
|---|---|---|
| Colors.UnpackPack | src/util.js:6-19 | the byte extraction `(hex >> s) & 0xff` gives back each of four packed bytes, and the packed value `(r<<24 \| g<<16 \| b<<8 \| a) >>> 0` is below 2^32 |
| Colors.PackUnpack | src/util.js:6-19 | every 32-bit value is the packing of the four bytes extracted from it |
| Colors.WeightedInverse | src/util.js:11-17 | a scaled complement `((255-c)*alpha + 0*(255-alpha)) / 255`, truncated, is a byte `r` with `255r <= (255-c)*alpha < 255(r+1)` |
| Colors.InvertHexColor | src/util.js:5-21 | the inverted colour is below 2^32, its alpha byte is `0xff`, and each colour byte is `floor((255 - c) * alpha / 255)` of the input's byte `c` and alpha |
| Colors.InvertOpaque | src/util.js:9-16 | with alpha `0xff` the result is the exact per-channel complement with alpha `0xff` |
| Colors.InvertTransparent | src/util.js:9-16 | with alpha `0` the result is opaque black `0x000000ff` |
| Colors.InvertTruncates | src/util.js:15-19 | `0xfefefec8` inverts to `0x000000ff`: each channel 0.78 truncates to 0 instead of rounding to 1 |
| Colors.ToHex | src/util.js:1 | `n.toString(16)` for `n >= 0`: at least one lower-case hex digit, no leading zero unless `n == 0`, and the digits denote `n` |
| Colors.ToHexLength | src/util.js:1 | a number below 16^k has at most k hex digits |
| Colors.PadStart | src/util.js:1 | `padStart(len, fill)` has length `max(len, length of s)`, ends with `s`, and is `fill` before it |
| Colors.LeadingZeros | src/util.js:1 | zeros put before a hex string do not change the number it denotes |
| Colors.PaddedDigits | src/util.js:1 | for a 32-bit colour the padded digits are exactly 8 hex digits denoting the colour |
| Colors.HexToColor | src/util.js:1 | the CSS string starts with `#`; for `0 <= hex < 2^32` it is `#` and exactly 8 lower-case hex digits whose value is `hex` |
| Colors.OpaqueColorEndsInFF | src/util.js:1 | a 32-bit colour with alpha `0xff` serialises to a string ending in `ff` |
| Tiles.CheckTileBounds | src/util.js:23-25 | true exactly when `0 <= row < height` and `0 <= col < width` |
| Tiles.Read | src/toolbarListeners.jsx:9 | reading an existing row yields the cell's colour for an existing column and `undefined` (None) otherwise |
| Patches.Find | src/toolbarListeners.jsx:22-25 | `find` fails exactly when no entry names the cell, and otherwise yields the colour of the first entry naming it |
| Patches.GetModifiedImageState | src/App.js:72-84 | the new grid has the same dimensions, untouched rows equal the old rows, unnamed cells keep their colour, and a named cell takes the colour of the first entry naming it |
| Patches.CellAfterUpdate | src/App.js:73-83 | each cell afterwards holds the colour of the first entry naming it, or its old colour when none does |
| Patches.GetModifiedIdempotent | src/App.js:72-84 | applying the same update list twice gives the same grid as applying it once |
| Patches.GetModifiedOfSatisfied | src/toolbarListeners.jsx:14-27 | when every entry already holds, the rebuilt grid equals the old grid, so returning the old one loses nothing |
| Patches.GetModifiedSingle | src/toolbarListeners.jsx:18-27 | a one-entry list naming an existing cell writes exactly that cell |
| Patches.GetModifiedPair | src/PixelCanvas.jsx:35-45 | two entries naming different cells write both cells when both exist, and only the first when the second is off the grid |
| Patches.ReadsSucceedWhenRowsExist | src/toolbarListeners.jsx:8-13 | when every entry names an existing row the check loop cannot throw |
| Patches.ReadsSucceedIff | src/toolbarListeners.jsx:8-13 | the check loop runs without throwing exactly when it reaches no entry whose row is missing, an entry being reached when every earlier one already holds |
| Patches.SomethingChanged | src/toolbarListeners.jsx:7-13 | the flag is false exactly when every entry's cell exists and already holds the entry's colour |
| Patches.ScanForChange | src/toolbarListeners.jsx:7-13 | the `for ... break` loop over the entries computes that same flag |
| Patches.MaybeUpdateImageState | src/toolbarListeners.jsx:4-29 | the updater keeps the very same grid exactly when every entry already holds, and otherwise returns the rebuilt grid |
| Patches.MaybeUpdateIsUpdate | src/toolbarListeners.jsx:14-27 | whichever branch is taken, the grid in effect afterwards is the rebuilt one |
| App.InitialImageState | src/App.js:33-37 | the initial image is 16 rows of 16 cells, every cell `0x00ff0000` |
| App.InitialUndoList | src/App.js:48-51 | the undo list starts at index 0 with an empty stack |
| App.PrevPixels | src/App.js:56-65 | the pre-image is no longer than the list, every entry holds in the current grid, it names exactly the cells some entry overwrites, and it is empty exactly when every entry already holds |
| App.PrevPixelsConcat | src/App.js:57-64 | the pre-image of a concatenation is the concatenation of the pre-images, so entries come in update-list order |
| App.PrevPixelsSingle | src/App.js:57-64 | one entry contributes `(row, col, old colour)` exactly when its colour differs from the cell's |
| App.UndoRestores | src/App.js:87-92 | applying `prevPixels` to the edited grid gives back the grid before the edit |
| App.RedoReplays | src/App.js:93-98 | applying the update list again to the restored grid reproduces the edited grid |
| App.UpdatePixels | src/App.js:53-107 | the same image is kept exactly when no undo pair is recorded, exactly when every entry holds; otherwise the new image is the rebuilt grid, and the recorded pair is (`prevPixels`, the update list), with both round trips holding |
| App.UpdatePixelsAgreesWithMaybeUpdate | src/App.js:56-69 | `updatePixels` cannot throw where it is defined, and it keeps or rebuilds the image exactly as `maybeUpdateImageState` does |
| App.KeyDownHandler | src/App.js:110-120 | meta+z without shift is undo, meta+shift+z is redo, and nothing else is either |
| Lines.Increment | src/util.js:46-58 | the counter step is 1 or -1 and moves toward the end along the dominant axis |
| Lines.Slope | src/util.js:46-57 | `tan(theta)` is read as `dr/dc` horizontally (0 when both cells coincide) and `tan(theta + 90deg)` as `-dc/dr` vertically; either way the slope lies in [-1, 1] |
| Lines.CellAt | src/util.js:69-76 | for counter `i` the dominant coordinate is the start's plus `i`, and the other is the cell nearest the exact line through both ends at that point, halves going up |
| Lines.MinorFormula | src/util.js:70-75 | `floor(start + 0.5 + i * d/den)` at counter `i = k * sign(den)` equals `start + (abs(den) + 2kd) div (2 abs(den))` |
| Lines.HorizontalClosedForm | src/util.js:46-71 | in the horizontal octants the cell of the k-th pass equals the integer closed form |
| Lines.VerticalClosedForm | src/util.js:54-76 | in the vertical octants the cell of the k-th pass equals the integer closed form |
| Lines.StepCellClosedForm | src/util.js:69-76 | the source's real-valued cell formula equals the integer closed form for every pass |
| Lines.ClosedFormStart | src/util.js:60-76 | the first pass (`i = 0`) computes the start cell again |
| Lines.ClosedFormEnd | src/util.js:65-76 | after `max(abs(dr), abs(dc))` passes the cell is the end cell |
| Lines.ClosedFormNotEndEarly | src/util.js:65-67 | no earlier pass reaches the end cell |
| Lines.ClosedFormStep | src/util.js:69-82 | consecutive passes move the dominant coordinate one cell toward the end and the other by at most one |
| Lines.ClosedFormInBounds | src/util.js:69-80 | when both ends are on the grid, every pass up to the end is on the grid |
| Lines.Steps | src/util.js:62-83 | the loop terminates, pushes only on-grid closed-form cells in unit steps, and stops after the end cell or before the first off-grid cell; with both ends on the grid it reaches the end |
| Lines.DrawLine | src/util.js:27-86 | the first entry is the start, even off the grid; every entry has the colour; equal ends give one entry; later entries are on the grid and follow the closed form in unit steps; the start is repeated; the line ends at the end cell or just before the first off-grid cell, and at the end cell when both ends are on the grid |
| Lines.HorizontalLine | src/util.js:60-83 | a rightward line on one row of the grid is the start twice and then every cell of the row up to the end, in order |
| Lines.DiagonalIsClipped | src/util.js:78-80 | a diagonal from the corner toward any end beyond a 16 x 16 grid is the start and then the 16 diagonal cells, and nothing after them |
| ToolbarListeners.CursorCell | src/toolbarListeners.jsx:48-49 | the cursor cell `(floor(y/stride), floor(x/stride))` is the cell whose `stride`-wide band contains the mouse position on each axis |
| ToolbarListeners.UpdatePreview | src/toolbarListeners.jsx:47-56 | the preview state is kept as the same object exactly when it already shows the cursor cell, and is otherwise replaced by one showing it |
| ToolbarListeners.PreviewTracksCursor | src/toolbarListeners.jsx:47-56 | whichever way it goes, the preview afterwards shows the cell under the mouse |
| ToolbarListeners.BrushUpdateList | src/toolbarListeners.jsx:94-109 | nothing is written off the image; on it the list is the one cursor cell with the selected colour |
| ToolbarListeners.PlaceColor | src/toolbarListeners.jsx:93-111 | the image is kept exactly when the cursor is off the image or its cell already has the colour, and is otherwise that cell painted |
| ToolbarListeners.Step | src/toolbarListeners.jsx:43-125 | the image stays rectangular; the line tool changes nothing; `down` follows presses and releases; a move records the position and the preview shows its cell; a press or a release keeps the recorded position; a press, and a move with the button held, apply `placeColor` at the cell under the mouse, while a move with the button up keeps the image; the image changes only on a press or a drag, and only in the cursor cell |
| ToolbarListeners.PressPaintsCursorCell | src/toolbarListeners.jsx:119-122 | after a press the cursor cell has the selected colour when it is on the image, and every other cell is unchanged |
| ToolbarListeners.PressTwiceIsPressOnce | src/toolbarListeners.jsx:93-122 | a second press without a move changes nothing more |
| ToolbarListeners.Run | src/toolbarListeners.jsx:113-125 | any sequence of events keeps the image rectangular with its dimensions |
| ToolbarListeners.LineToolIsInert | src/toolbarListeners.jsx:78-91 | under the line tool no sequence of events changes anything |
| ToolbarListeners.HoverKeepsImage | src/toolbarListeners.jsx:113-125 | with the button up and no press among the events, the image is unchanged and the button stays up |
| ToolbarListeners.RunPaintsOnlySelectedColor | src/toolbarListeners.jsx:93-125 | after any events every cell holds its first colour or the selected colour |
| PixelCanvas.SwappedUpdatePreview | src/PixelCanvas.jsx:62-74 | the stored cursor is kept exactly when it equals the transposed cursor cell `(floor(x/stride), floor(y/stride))`, and is otherwise replaced by it |
| PixelCanvas.SwappedPreviewMirrors | src/PixelCanvas.jsx:62-74 | starting from the transpose of the toolbar's state, the swapped updater keeps or replaces on the same moves and keeps the stored cursors transposed |
| PixelCanvas.SwappedRunMirrors | src/PixelCanvas.jsx:13-74 | along any sequence of moves the swapped stored cursor stays the transpose of the toolbar one, so from the initial `(0, 0)` both re-render the preview on the same moves |
| PixelCanvas.TwoCellUpdateList | src/PixelCanvas.jsx:98-126 | nothing is written off the image; on it the list is the cursor cell and the cell below it, both with the selected colour, and only the first is bounds-checked |
| PixelCanvas.RunUpdater | src/PixelCanvas.jsx:21-47 | the copied updater throws exactly when its check loop reaches an entry whose row is missing (every earlier entry holding), and otherwise returns what `maybeUpdateImageState` returns |
| PixelCanvas.TwoCellOutcome | src/PixelCanvas.jsx:24-45 | on the two-cell list the updater throws exactly on the last row when the cell already has the colour; it keeps the image exactly when both cells exist and already have it; otherwise it writes both cells, or only the first on the last row |
| PixelCanvas.PlaceTwoCells | src/PixelCanvas.jsx:98-127 | `placeColor` off the image changes nothing; on it the outcome is the one just stated for the cursor cell |
| PixelCanvas.TwoCellsAwayFromLastRow | src/PixelCanvas.jsx:113-126 | away from the last row the brush succeeds and paints the cursor cell and the one below it |
| PixelCanvas.LastRowCrash | src/PixelCanvas.jsx:24-30 | on a 16 x 16 image whose bottom-left cell has the colour, a press over that cell makes the updater throw |
| PixelCanvas.CanvasStep | src/PixelCanvas.jsx:58-141 | the image stays rectangular; the line tool changes nothing; releases and hovering never fail or change the image; `down` follows presses and releases; a press, and a move with the button held, fail exactly when the two-cell `placeColor` throws and otherwise record the mouse and apply its update to the image; every move records its position; presses and releases keep the position and the preview; moves update the preview with the swapped updater |
| PixelCanvas.OutlineStyle | src/PixelCanvas.jsx:215-225 | over the image the outline is `#` and 8 hex digits denoting the inverse of the cell's colour and ending in `ff`; elsewhere it is `black` |

## Left out

- The undo stack itself is not part of this model: `addUndoAction`, `undo`, `redo`, `canUndo`
  and `canRedo`. They are imported from `util.js`, which does not define them. Only the
  undo/redo pair handed to `addUndoAction` is modelled, as `App.UndoEntry`. `App.UndoList`
  models only the initial value. `downloadPNG` is missing for the same reason.
- The line tool's own state machine is not modelled. Both line branches are empty, and
  `drawLine` is never called from the code shown. Under the line tool the listeners
  therefore do nothing, and `ToolbarListeners.LineToolIsInert` states exactly that.
- Lines.DrawLine: the model uses exact arithmetic, not IEEE doubles. The floating-point
  results of `atan2`, `tan` and the products can differ at exact `.5` ties and at the octant
  boundaries. They can also make the end cell be missed, after which the loop runs on to the
  grid's edge. That behaviour is not modelled.
- Mouse coordinates and `stride` are reals. NaN, infinities and a zero-width canvas are
  excluded by `Env.Valid` (`stride > 0`).
- Rendering is not modelled: the canvas contexts, the checkerboard and cell fills of
  `paintCanvas`, `strokeRect`, and the PNG export. Only the outline colour choice is modelled.
- React and DOM wiring are not modelled: `useState`, `useEffect`, `React.memo`, the listener
  registration and removal, and `getBoundingClientRect`. Events carry the position already
  made relative to the canvas. App passes `updatePixels` to `PixelCanvas`, and `PixelCanvas`
  calls a `setImageState` prop it is never given. The model assumes the updater reaches the
  image state.
- The preview state of `PixelCanvas.jsx` also holds `color` and `coordPairs`. The brush never
  touches them, so `Preview` holds only the cursor.
- Side effects inside the `updatePixels` updater are not modelled. The updater calls
  `addUndoAction`, which React strict mode may run twice. `App.UpdatePixels` returns the
  pair instead.
- App.UpdatePixels: requires every entry's column to exist as well as its row. The source
  reads `currImageState[row][col]` for each entry. For a missing column it would record
  `undefined` as a pre-image colour, which has no counterpart in `Color`.
- App.PrevPixels: requires every column to exist, for the same reason.
- Colors.HexToColor: only the leading `#` is stated for values outside `[0, 2^32)`. The
  non-integer numbers JavaScript would also accept are not modelled.
- `joinClasses`, the palette and tool JSX, and `console.log` are not modelled, because they
  do not affect the image state.
