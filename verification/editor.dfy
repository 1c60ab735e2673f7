/** The main canvas and the handlers that drive it: construction, clearing,
    the grid-resolution change gated by a confirmation, the window resize,
    tool and colour selection, and the click on the canvas that dispatches to
    the pencil or the bucket. Rendering is not modelled: every handler's
    redraw only repaints the state computed here. */
module Editor {
  import opened Cells
  import opened HitTest
  import opened Flood

  /** The session state of `MainCanvas`: cells per side, width of the square
      drawing surface (its height always equals its width), the grid, and
      the current colour and tool. Tools are the strings the tool buttons
      carry ("pencil", "bucket"); any other string selects a tool that does
      nothing on a click. */
  datatype MainCanvas = MainCanvas(gridSize: nat, width: real, grid: Grid,
                                   selectedColor: Color, selectedTool: string)

  /** A positive resolution and width, and the grid laid out for both. */
  predicate Valid(c: MainCanvas) {
    c.gridSize > 0 && c.width > 0.0 && WellFormed(c.grid, c.gridSize, c.width)
  }

  const DefaultResolution: nat := 8
  const InitialColor: Color := "#000000"
  const InitialTool: string := "pencil"

  /** `new MainCanvas(domElementId, gridSize)`, including `init`: a missing
      (here: zero) resolution falls back to 8, the grid is built white, the
      pencil is selected with black. */
  function NewMainCanvas(gridSize: nat, width: real): (c: MainCanvas)
    requires width > 0.0
    ensures Valid(c)
    ensures gridSize > 0 ==> c.gridSize == gridSize
    ensures gridSize == 0 ==> c.gridSize == DefaultResolution
    ensures c.width == width
    ensures AllColor(c.grid, DefaultColor)
    ensures c.selectedColor == InitialColor && c.selectedTool == InitialTool
  {
    var n := if gridSize == 0 then DefaultResolution else gridSize;
    MainCanvas(n, width, CreateGrid(n, width), InitialColor, InitialTool)
  }

  /** `clearGrid`: throw the cells away and build a white grid at the
      current resolution and width. Nothing else changes. */
  function ClearGrid(c: MainCanvas): (r: MainCanvas)
    requires c.gridSize > 0 && c.width > 0.0
    ensures Valid(r)
    ensures AllColor(r.grid, DefaultColor)
    ensures r.(grid := c.grid) == c
  {
    c.(grid := CreateGrid(c.gridSize, c.width))
  }

  /** `updateGrid(resizeDensity)`. With `resizeDensity` it asks for
      confirmation (`userAccepts`) and, if given, clears the grid at the
      current resolution and answers true; if refused it changes nothing and
      answers false (the source returns `undefined`). Without it, it
      repositions the cells for the current width and answers false. */
  function UpdateGrid(c: MainCanvas, resizeDensity: bool, userAccepts: bool): (r: (MainCanvas, bool))
    requires c.gridSize > 0 && c.width > 0.0
    ensures r.1 <==> resizeDensity && userAccepts
    ensures resizeDensity && !userAccepts ==> r.0 == c
    ensures resizeDensity && userAccepts ==> Valid(r.0) && AllColor(r.0.grid, DefaultColor)
    ensures !resizeDensity ==> SameShape(c.grid, r.0.grid) && Colors(r.0.grid) == Colors(c.grid)
    ensures !resizeDensity && Square(c.grid, c.gridSize) ==> Valid(r.0)
    ensures r.0.(grid := c.grid) == c
  {
    if resizeDensity then
      if userAccepts then (ClearGrid(c), true) else (c, false)
    else
      (c.(grid := Reposition(c.grid, c.gridSize, c.width)), false)
  }

  /** `handleGridSize`: choosing a different resolution sets it, asks for
      confirmation through `updateGrid(true)`, and restores the old
      resolution when refused. The answer says whether the change was applied
      (the caller highlights the chosen button only then). */
  function HandleGridSize(c: MainCanvas, newSize: nat, userAccepts: bool): (r: (MainCanvas, bool))
    requires c.gridSize > 0 && c.width > 0.0 && newSize > 0
    ensures r.1 <==> newSize != c.gridSize && userAccepts
    ensures !r.1 ==> r.0 == c
    ensures r.1 ==> r.0.gridSize == newSize && Valid(r.0) && AllColor(r.0.grid, DefaultColor)
    ensures r.0.(gridSize := c.gridSize, grid := c.grid) == c
    ensures Valid(c) ==> Valid(r.0)
  {
    if c.gridSize != newSize then
      var oldGridSize := c.gridSize;
      var (c', resizeGrid) := UpdateGrid(c.(gridSize := newSize), true, userAccepts);
      if resizeGrid then (c', true) else (c'.(gridSize := oldGridSize), false)
    else
      (c, false)
  }

  /** `handleWindowResize`: adopt the new surface width and reposition the
      cells in place; colours survive. */
  function HandleWindowResize(c: MainCanvas, newWidth: real): (r: MainCanvas)
    requires c.gridSize > 0 && newWidth > 0.0
    ensures r.width == newWidth
    ensures SameShape(c.grid, r.grid) && Colors(r.grid) == Colors(c.grid)
    ensures r.(width := c.width, grid := c.grid) == c
    ensures Square(c.grid, c.gridSize) ==> Valid(r)
  {
    UpdateGrid(c.(width := newWidth), false, false).0
  }

  /** `handleToolSelection`: the "clear" button clears the grid and keeps the
      current tool; any other button selects its tool. */
  function HandleToolSelection(c: MainCanvas, tool: string): (r: MainCanvas)
    requires c.gridSize > 0 && c.width > 0.0
    ensures tool == "clear" ==> r.selectedTool == c.selectedTool && Valid(r) && AllColor(r.grid, DefaultColor)
    ensures tool != "clear" ==> r.selectedTool == tool && r.grid == c.grid
    ensures r.(grid := c.grid, selectedTool := c.selectedTool) == c
  {
    if tool == "clear" then ClearGrid(c) else c.(selectedTool := tool)
  }

  /** `handlePaletteColorChange`. */
  function HandlePaletteColorChange(c: MainCanvas, color: Color): MainCanvas {
    c.(selectedColor := color)
  }

  // ---------------------------------------------------------------------------
  // Clicks

  /** What a click at (x, y) does to the canvas, with the bucket's effect
      given by the reference region `FloodFilled`. */
  ghost function ClickResult(c: MainCanvas, x: real, y: real): (r: MainCanvas)
    ensures SameLayout(c.grid, r.grid) && r.(grid := c.grid) == c
    ensures Valid(c) ==> Valid(r)
    ensures forall i, j :: 0 <= i < |c.grid| && 0 <= j < |c.grid[i]| && r.grid[i][j] != c.grid[i][j] ==>
      r.grid[i][j] == c.grid[i][j].(fillColor := c.selectedColor)
  {
    var hit := FindCellCoordinatesInGrid(c.grid, x, y);
    var r :=
      if hit.row < 0 then c
      else if c.selectedTool == "pencil" then c.(grid := Paint(c.grid, hit, c.selectedColor))
      else if c.selectedTool == "bucket" then
        c.(grid := FloodFilled(c.grid, hit, ColorAt(c.grid, hit), c.selectedColor))
      else c;
    if Valid(c) then WellFormedRecolored(c.grid, r.grid, c.gridSize, c.width); r else r
  }

  /** `handleCanvasClick` at surface point (x, y). A click that hits no cell
      does nothing; the pencil recolours exactly the hit cell; the bucket
      recolours the 4-connected region of the hit cell's current colour. */
  method HandleCanvasClick(c: MainCanvas, x: real, y: real) returns (c': MainCanvas)
    ensures SameLayout(c.grid, c'.grid) && c'.(grid := c.grid) == c
    ensures FindCellCoordinatesInGrid(c.grid, x, y) == NotFound ==> c' == c
    ensures var hit := FindCellCoordinatesInGrid(c.grid, x, y);
      hit != NotFound && c.selectedTool == "pencil" ==>
        InRange(c'.grid, hit) && ColorAt(c'.grid, hit) == c.selectedColor &&
        forall i, j :: 0 <= i < |c.grid| && 0 <= j < |c.grid[i]| && Coord(i, j) != hit ==>
          c'.grid[i][j] == c.grid[i][j]
    ensures var hit := FindCellCoordinatesInGrid(c.grid, x, y);
      hit != NotFound && c.selectedTool == "bucket" ==>
        c'.grid == FloodFilled(c.grid, hit, ColorAt(c.grid, hit), c.selectedColor)
    ensures c.selectedTool != "pencil" && c.selectedTool != "bucket" ==> c' == c
    ensures Valid(c) ==> Valid(c')
    ensures c' == ClickResult(c, x, y)
  {
    var found := FindCellCoordinatesInGrid(c.grid, x, y);
    c' := c;
    if found.row >= 0 {
      if c.selectedTool == "pencil" {
        c' := c.(grid := Paint(c.grid, found, c.selectedColor));
      } else if c.selectedTool == "bucket" {
        var filled := FloodFillArea(found.row, found.col, c.grid[found.row][found.col].fillColor,
                                    c.selectedColor, c.grid);
        c' := c.(grid := filled);
      }
    }
    if Valid(c) {
      WellFormedRecolored(c.grid, c'.grid, c.gridSize, c.width);
    }
  }

  /** Repeating a click at the same point changes nothing more, for every
      tool: the hit cell is the same (recolouring keeps the geometry), the
      pencil rewrites the colour it already wrote, and the bucket's second
      fill starts from a cell that already holds the new colour. */
  lemma ClickTwiceIsClickOnce(c: MainCanvas, x: real, y: real)
    ensures ClickResult(ClickResult(c, x, y), x, y) == ClickResult(c, x, y)
  {
    var c1 := ClickResult(c, x, y);
    var hit := FindCellCoordinatesInGrid(c.grid, x, y);
    assert SameLayout(c.grid, c1.grid);
    FindIgnoresColors(c.grid, c1.grid, x, y);
    if hit.row >= 0 && c.selectedTool == "pencil" {
      GridsAgree(Paint(c1.grid, hit, c.selectedColor), c1.grid);
    } else if hit.row >= 0 && c.selectedTool == "bucket" {
      SecondBucketFillIsNoOp(c.grid, hit, c.selectedColor);
    }
  }

  /** Resizing the window twice lands where a single resize to the final
      width lands: the intermediate width leaves no trace. */
  lemma ResizeForgetsIntermediateWidth(c: MainCanvas, w1: real, w2: real)
    requires Valid(c) && w1 > 0.0 && w2 > 0.0
    ensures HandleWindowResize(HandleWindowResize(c, w1), w2) == HandleWindowResize(c, w2)
  {
    var a := HandleWindowResize(HandleWindowResize(c, w1), w2);
    var b := HandleWindowResize(c, w2);
    LayoutDetermines(a.grid, b.grid, c.gridSize, w2);
  }

  /** A resize to the width the surface already has changes nothing. */
  lemma ResizeToSameWidthIsNoOp(c: MainCanvas)
    requires Valid(c)
    ensures HandleWindowResize(c, c.width) == c
  {
    RepositionFixesWellFormed(c.grid, c.gridSize, c.width);
  }
}
