/** A worked session on a fresh 3x3 canvas, driven through the handlers. */
module Scenarios {
  import opened Cells
  import opened HitTest
  import opened Flood
  import opened Editor

  const Black: Color := "#000000"
  const Red: Color := "#F00"

  /** The colours of a 3x3 grid whose centre is black and whose other cells
      all hold `ring`. */
  predicate RingAround(g: Grid, ring: Color) {
    |g| == 3 && (forall i :: 0 <= i < 3 ==> |g[i]| == 3) &&
    forall i, j :: 0 <= i < 3 && 0 <= j < 3 ==>
      g[i][j].fillColor == (if i == 1 && j == 1 then Black else ring)
  }

  /** Clicking the centre of a fresh 3x3 canvas with the pencil blackens only
      the centre; then choosing the bucket and red and clicking the top-left
      cell turns the eight white cells red around the black centre, which the
      fill cannot enter. */
  lemma PencilThenBucket(w: real)
    requires w > 0.0
    ensures
      var c0 := NewMainCanvas(3, w);
      var c1 := ClickResult(c0, c0.grid[1][1].posX, c0.grid[1][1].posY);
      var c2 := HandlePaletteColorChange(HandleToolSelection(c1, "bucket"), Red);
      var c3 := ClickResult(c2, c0.grid[0][0].posX, c0.grid[0][0].posY);
      RingAround(c1.grid, DefaultColor) && RingAround(c3.grid, Red)
  {
    var c0 := NewMainCanvas(3, w);
    var c1 := ClickResult(c0, c0.grid[1][1].posX, c0.grid[1][1].posY);
    PencilOnCentre(w);
    var c2 := HandlePaletteColorChange(HandleToolSelection(c1, "bucket"), Red);
    assert c2.grid == c1.grid && c2.selectedTool == "bucket" && c2.selectedColor == Red;
    assert SameLayout(c0.grid, c1.grid);
    WellFormedRecolored(c0.grid, c2.grid, 3, w);
    BucketOnCorner(c2, w);
  }

  /** The pencil click on the centre of a fresh canvas. */
  lemma PencilOnCentre(w: real)
    requires w > 0.0
    ensures
      var c0 := NewMainCanvas(3, w);
      var c1 := ClickResult(c0, c0.grid[1][1].posX, c0.grid[1][1].posY);
      RingAround(c1.grid, DefaultColor) && SameLayout(c0.grid, c1.grid)
  {
    var c0 := NewMainCanvas(3, w);
    CornerSelectsCell(c0.grid, 3, w, 1, 1);
    var c1 := ClickResult(c0, c0.grid[1][1].posX, c0.grid[1][1].posY);
    assert c1.grid == Paint(c0.grid, Coord(1, 1), Black);
    forall i, j | 0 <= i < 3 && 0 <= j < 3
      ensures c1.grid[i][j].fillColor == (if i == 1 && j == 1 then Black else DefaultColor)
    {
      if Coord(i, j) != Coord(1, 1) {
        assert c1.grid[i][j] == c0.grid[i][j];
      }
    }
  }

  /** The red bucket click on the top-left cell of a ring-coloured canvas. */
  lemma BucketOnCorner(c: MainCanvas, w: real)
    requires w > 0.0 && c.gridSize == 3 && c.width == w && Valid(c)
    requires c.selectedTool == "bucket" && c.selectedColor == Red
    requires RingAround(c.grid, DefaultColor)
    ensures RingAround(ClickResult(c, c.grid[0][0].posX, c.grid[0][0].posY).grid, Red)
  {
    var g := c.grid;
    CornerSelectsCell(g, 3, w, 0, 0);
    var c3 := ClickResult(c, g[0][0].posX, g[0][0].posY);
    assert c3.grid == FloodFilled(g, Coord(0, 0), DefaultColor, Red);
    RingIsConnected(g);
    ReachableHasColor(g, DefaultColor, Coord(0, 0));
    forall i, j | 0 <= i < 3 && 0 <= j < 3
      ensures c3.grid[i][j].fillColor == (if i == 1 && j == 1 then Black else Red)
    {
      if i == 1 && j == 1 {
        assert !Reachable(g, DefaultColor, Coord(0, 0), Coord(1, 1));
      } else {
        assert Reachable(g, DefaultColor, Coord(0, 0), Coord(i, j));
      }
    }
  }

  /** In a 3x3 grid with a black centre and a white ring, every ring cell is
      reachable from the top-left corner by walking around the ring. */
  lemma RingIsConnected(g: Grid)
    requires RingAround(g, DefaultColor)
    ensures forall i, j :: 0 <= i < 3 && 0 <= j < 3 && !(i == 1 && j == 1) ==>
      Reachable(g, DefaultColor, Coord(0, 0), Coord(i, j))
  {
    var white := DefaultColor;
    var s := Coord(0, 0);
    assert forall i, j :: 0 <= i < 3 && 0 <= j < 3 && !(i == 1 && j == 1) ==>
      ColorAt(g, Coord(i, j)) == white;
    ReachableFromItself(g, white, s);
    ReachableStep(g, white, s, Coord(0, 0), Coord(0, 1));
    ReachableStep(g, white, s, Coord(0, 1), Coord(0, 2));
    ReachableStep(g, white, s, Coord(0, 2), Coord(1, 2));
    ReachableStep(g, white, s, Coord(1, 2), Coord(2, 2));
    ReachableStep(g, white, s, Coord(2, 2), Coord(2, 1));
    ReachableStep(g, white, s, Coord(2, 1), Coord(2, 0));
    ReachableStep(g, white, s, Coord(2, 0), Coord(1, 0));
  }
}
