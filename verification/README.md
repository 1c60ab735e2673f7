# Pixel editor grid model

A Dafny model of the editing core of a small browser pixel-art editor
(`pixel.js`). The editor lays an N×N grid of square cells over a square
drawing surface. The pencil tool recolours one cell and the bucket tool
flood-fills a 4-connected region of same-coloured cells. The grid's
resolution can be changed after a yes/no confirmation. A window resize moves
and resizes the cells but keeps their colours.

The model has five modules:

- `Cells` (`cells.dfy`): the `Cell` record, the row-major grid
  (`seq<seq<Cell>>`), and the geometry. It builds the grid (`createGrid`) and
  repositions it (`updateGrid(false)`). JavaScript's `%` on numbers is
  modelled exactly as a truncated remainder (`JsRem`). A lemma proves that the
  `% width` drift guard is the identity for every in-grid offset.
- `HitTest` (`hittest.dfy`): `isInBoundaries` and `findCellCoordinatesInGrid`,
  including `Array.prototype.findIndex`.
- `Flood` (`flood.dfy`): `floodFillArea`, an imperative method with an
  explicit stack. It is proved equal to `FloodFilled`, an independent
  reference definition of the fill region built from paths of adjacent
  same-coloured cells. The loop terminates under the lexicographic measure
  (set of `oldColor` cells, stack length).
- `Editor` (`editor.dfy`): the `MainCanvas` state and its handlers. These are
  construction, `clearGrid`, `updateGrid`, `handleGridSize`,
  `handleWindowResize`, `handleToolSelection`, `handlePaletteColorChange` and
  `handleCanvasClick`.
- `Scenarios` (`scenarios.dfy`): a worked 3×3 session. The pencil blackens
  the centre, then the bucket turns the white ring red.

Modelling choices:

- Colours are strings, compared by string equality, as the source does.
- Coordinates and sizes are exact `real`s, and the resolution is a positive
  `nat`.
- The browser's `confirm` dialog becomes the boolean parameter `userAccepts`.
- The surface width and the click point are parameters, where the source
  reads them from the DOM.
- Each handler's trailing `drawGrid()` only repaints, so it is not modelled.

Two details of the code shape the model:

- `isInBoundaries` (pixel.js:324) is strict on all four sides. A cell's box is
  the open `(posX - 1, posX + width) × (posY - 1, posY + width)`, so the point
  `(posX - 1, posY - 1)` is outside its cell.
- A declined `updateGrid(true)` returns `undefined`. The model returns
  `false`, which `handleGridSize` (pixel.js:61) treats the same way.

## Model

| member | source | states |
|---|---|---|
| `Cells.NewCell` | pixel.js:225-230 | A new cell keeps the given size and position. A non-empty colour passed in is stored as given. A missing or empty colour falls back to `"#FFF"`, so the stored colour is never empty. |
| `Cells.RemIsIdentityOnGrid` | pixel.js:162-163 | For `0 <= k < n`, the offset `w / n * k` lies in `[0, w)`, so taking it `% w` leaves it unchanged. |
| `Cells.CreateGrid` | pixel.js:155-168 | Building gives exactly `n` rows of `n` cells, all `"#FFF"`. Cell (i, j) has width `w / n` and sits at (`w / n * j`, `w / n * i`). |
| `Cells.Relocated` | pixel.js:190-195 | After a resize, a cell keeps its colour. For in-grid indices it gets width `w / n` and position (`w / n * j`, `w / n * i`). |
| `Cells.Reposition` | pixel.js:189-196 | A pure resize keeps the grid's shape and every cell's colour. An `n`×`n` grid comes out well formed for the new width. |
| `Cells.Paint` | pixel.js:20-21 | Recolouring one cell keeps every cell's geometry. The target cell takes the colour, and every other cell is unchanged. |
| `Cells.ColorsAgree` | pixel.js:189-196 | Proof helper for `Reposition`'s colour clause: two grids of the same shape whose cells agree on colour have the same colour matrix. |
| `Cells.LayoutDetermines` | pixel.js:155-166 | Two well-formed grids of the same size and width with equal colours are equal, so geometry and colours determine a grid. |
| `Cells.WellFormedRecolored` | pixel.js:20-21 | Changing only colours keeps a grid well formed. |
| `Cells.ResizeFreshGrid` | pixel.js:189-196 | Resizing a freshly built grid gives the grid built directly at the new width. |
| `Cells.RepositionFixesWellFormed` | pixel.js:189-196 | Repositioning a well-formed grid for the width it already has changes nothing. |
| `Cells.RepositionIdempotent` | pixel.js:189-196 | Repositioning twice for the same width equals repositioning once. |
| `HitTest.IsInBoundaries` | pixel.js:322-325 | The test is strict on all four sides, and the left and top edges are moved out by one unit. Every point of the cell's own square `[posX, posX + width) × [posY, posY + width)` is inside. A point at or beyond `posX - 1` on the left, `posY - 1` above, or the far edges is outside. |
| `HitTest.FindIndex` | pixel.js:310 | `findIndex` returns the first index from `from` on whose cell contains the point. It returns -1 exactly when no such cell exists. |
| `HitTest.FindFrom` | pixel.js:309-318 | Scanning from row `i` returns the first hit in row-major order among rows `i` and later. It returns `(-1, -1)` exactly when those rows hold no hit. |
| `HitTest.FindCellCoordinatesInGrid` | pixel.js:305-325 | The result is either the sentinel `(-1, -1)` or in-range indices whose cell contains the point. No earlier cell in row-major order contains the point. The sentinel comes back exactly when no cell contains it. |
| `HitTest.FirstHitIsAnswer` | pixel.js:305-319 | A cell that contains the point, with no earlier cell containing it, is the hit-tester's answer. |
| `HitTest.CornerSelectsCell` | pixel.js:322-325 | On a well-formed grid, a click on a cell's top-left corner selects that cell. The one-unit border bias never lets an earlier cell win. |
| `HitTest.EdgeBeforeNext` | pixel.js:324 | Proof helper for `CornerSelectsCell`: on the grid's layout, a row's or column's far edge never passes the start of any later one, so an earlier cell's box ends before a later cell's corner. |
| `HitTest.CellIndexOf` | pixel.js:324 | Proof helper for `SurfacePointSelectsCell`: it gives the row or column `k < n` whose band `[k * w / n, (k + 1) * w / n)` holds a surface coordinate in `[0, w)`. |
| `HitTest.SurfacePointSelectsCell` | pixel.js:305-325 | On a well-formed grid, every point of the surface `[0, w)²` selects some cell. |
| `HitTest.FindIgnoresColors` | pixel.js:305-325 | Hit-testing reads only geometry: two grids with the same layout give the same answer for every point. |
| `Flood.FloodFilled` | pixel.js:332-358 | The reference fill keeps the layout and changes only `oldColor` cells, to `newColor`. It is the identity when the two colours are equal. It recolours the start cell when that cell holds `oldColor`. |
| `Flood.ReachableWithin` | pixel.js:352-356 | The region reachable from `s` lies inside every set that holds `s` and is closed under `oldColor` neighbours. |
| `Flood.Neighbours` | pixel.js:352-356 | The four pushed coordinates are exactly the up/down/left/right neighbours. |
| `Flood.FloodFillArea` | pixel.js:332-358 | The fill never indexes out of bounds and keeps the layout. It rewrites only `oldColor` cells, always to `newColor`. It is a no-op when `newColor == oldColor`. It terminates, and its result is exactly `FloodFilled`: the 4-connected `oldColor` region of the start cell, recoloured. |
| `Flood.PaintShrinks` | pixel.js:350 | Each recolouring strictly shrinks the set of `oldColor` cells. This is the first component of the termination measure. |
| `Flood.DiscardStep` | pixel.js:338-347 | Popping an off-grid coordinate, or a cell that does not qualify, keeps the loop invariant. |
| `Flood.FillStep` | pixel.js:338-356 | Recolouring a qualifying popped cell and pushing its four neighbours keeps the loop invariant. |
| `Flood.PoppedUnchanged` | pixel.js:345-350 | A popped cell that still holds `oldColor`, distinct from `newColor`, has not been recoloured yet. |
| `Flood.FillStepStart` | pixel.js:350-356 | After a fill step, the start cell, if it still holds `oldColor`, is still on the stack. |
| `Flood.PoppedCellInRegion` | pixel.js:345-350 | A popped cell that still holds `oldColor` belongs to the start's region. |
| `Flood.FillStepProgress` | pixel.js:350 | After a fill step, every changed cell is a region cell now holding `newColor`. |
| `Flood.FillStepParented` | pixel.js:353-356 | After a fill step, every stack entry is the start or a neighbour of a recoloured cell. |
| `Flood.FillStepPending` | pixel.js:353-356 | After a fill step, every `oldColor` neighbour of a recoloured cell is on the stack. |
| `Flood.FinishFill` | pixel.js:336 | Once the stack is empty, the recoloured cells are exactly the start's `oldColor` region. |
| `Flood.FillFromOtherColor` | pixel.js:341-347 | A fill that starts off the grid, or on a cell not holding `oldColor`, changes nothing. |
| `Flood.FillIdempotent` | pixel.js:332-358 | Filling twice from the same cell with the same colours equals filling once. |
| `Flood.SecondBucketFillIsNoOp` | pixel.js:24-31 | A second bucket fill on the same cell takes that cell's current colour as `oldColor`, and leaves the grid unchanged. |
| `Flood.FillStaysInside` | pixel.js:352-356 | A fill never recolours a cell outside a closed set that holds the start, such as a region fenced in by other colours. |
| `Flood.IsolatedCellFillsAlone` | pixel.js:352-356 | If none of the start's four neighbours holds `oldColor`, only the start changes. This holds even when diagonal neighbours hold `oldColor`. |
| `Editor.NewMainCanvas` | pixel.js:139-149 | A new canvas is valid. A zero (missing) resolution becomes 8. All cells are white, and the pencil is selected with `"#000000"`. |
| `Editor.ClearGrid` | pixel.js:213-216 | Clearing rebuilds a valid all-white grid at the current resolution and width. Nothing else changes. |
| `Editor.UpdateGrid` | pixel.js:171-198 | With a resolution change: declined leaves everything unchanged and answers false, accepted gives a valid all-white grid and answers true. Without one, the cells are repositioned, colours are kept, and the answer is false. |
| `Editor.HandleGridSize` | pixel.js:55-68 | The change is applied exactly when the size differs and the user accepts. Declining, or choosing the current size, leaves the canvas exactly as it was. Accepting gives a valid all-white grid at the new size. Tool, colour and width never change. |
| `Editor.HandleWindowResize` | pixel.js:44-52 | A resize adopts the new width and keeps the grid's shape and every colour. A square grid comes out valid. |
| `Editor.HandleToolSelection` | pixel.js:71-79 | "clear" gives a valid all-white grid and keeps the tool. Any other button selects its tool and leaves the grid alone. |
| `Editor.ClickResult` | pixel.js:9-36 | A click's effect: a miss leaves the canvas alone; the pencil paints the hit cell; the bucket applies `FloodFilled` from the hit cell with its current colour; any other tool leaves the canvas alone. The contract states that the layout, tool, colour, resolution and width are kept, validity is preserved, and every changed cell only took the selected colour. |
| `Editor.HandleCanvasClick` | pixel.js:9-36 | A miss changes nothing. The pencil recolours exactly the hit cell to the selected colour. The bucket recolours the hit cell's 4-connected region of its current colour. Other tools do nothing. Layout, tool, colour and validity are kept. |
| `Editor.ClickTwiceIsClickOnce` | pixel.js:9-36 | Repeating a click at the same point changes nothing more, whatever the tool. |
| `Editor.ResizeForgetsIntermediateWidth` | pixel.js:44-52 | Resizing to `w1` and then to `w2` equals resizing to `w2` directly. |
| `Editor.ResizeToSameWidthIsNoOp` | pixel.js:44-52 | Resizing to the current width changes nothing. |
| `Scenarios.RingIsConnected` | pixel.js:352-356 | In a 3×3 grid with a black centre and a white ring, every ring cell is 4-connected to the top-left corner. |
| `Scenarios.PencilOnCentre` | pixel.js:15-22 | On a fresh 3×3 canvas, a pencil click on the centre's corner blackens exactly the centre and keeps the layout. |
| `Scenarios.BucketOnCorner` | pixel.js:24-31 | On a valid 3×3 canvas with a black centre and a white ring, a red bucket click on the top-left cell turns the whole ring red and leaves the centre black. |
| `Scenarios.PencilThenBucket` | pixel.js:9-36 | On a fresh 3×3 canvas, a pencil click on the centre blackens only the centre. A red bucket click on the top-left cell then turns the eight white cells red and leaves the centre black. |

## Left out

- DOM and event wiring is not modelled. This covers the `window.onload` listener registration, `switchActiveElement` and `createPalette`. It is browser UI with no logic to state.
- Rendering (`drawGrid`) and image export (`createCanvasExportBuffer`, `handleExportImageSelection`) are not modelled. They only call canvas primitives (`fillRect`, `strokeRect`, `getImageData`, `toDataURL`).
- Reading `offsetWidth`, `clientX` and `offsetLeft`/`offsetTop` is platform input. The model takes the surface width and the click point as parameters.
- The `confirm` dialog is replaced by the boolean `userAccepts`.
- IEEE-754 floating point is not modelled: rounding drift, `NaN`, and the string-to-number coercion of `dataset.gridSize`. Sizes and positions are exact `real`s, and the resolution is a `nat`.
- `updateGrid(false)` also writes a `height` property on each cell, which nothing reads. The model's `Cell` has no height.
- `createGrid` appends rows to the existing `grid`. Every caller empties it first (the constructor, `clearGrid`), so the model builds a fresh grid.
- `Cells.NewCell`: does not model the `width || 0` and `posX || 0` fallbacks. They only matter for `NaN` or `undefined` arguments, which no caller passes.
- `Editor.HandlePaletteColorChange` is a single field assignment and carries no contract.
