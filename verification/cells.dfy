/** Cells and the grid of the pixel editor's main canvas: the cell record, the
    row-major grid, its geometry, and the two ways the grid is (re)laid out —
    building it from scratch and repositioning it after the surface is resized. */
module Cells {

  /** Colours are CSS colour strings, compared by plain string equality. */
  type Color = string

  /** The colour a cell gets when it is created without one. */
  const DefaultColor: Color := "#FFF"

  datatype Option<T> = None | Some(value: T)

  /** A square cell: side length, top-left corner on the drawing surface, colour. */
  datatype Cell = Cell(width: real, posX: real, posY: real, fillColor: Color)

  /** A (row, column) address into a grid. */
  datatype Coord = Coord(row: int, col: int)

  /** The hit-tester's answer when no cell contains the point. */
  const NotFound: Coord := Coord(-1, -1)

  /** Rows of cells, row-major: `g[row][col]`. */
  type Grid = seq<seq<Cell>>

  /** The `Cell` constructor. `height` is accepted and ignored (cells are
      square); a missing or empty colour is falsy and falls back to white. */
  function NewCell(width: real, height: real, posX: real, posY: real, fillColor: Option<Color>): (c: Cell)
    ensures c.width == width && c.posX == posX && c.posY == posY
    ensures c.fillColor != ""
    ensures c.fillColor == DefaultColor || fillColor == Some(c.fillColor)
    ensures fillColor == None ==> c.fillColor == DefaultColor
    ensures fillColor.Some? && fillColor.value != "" ==> c.fillColor == fillColor.value
  {
    var color := if fillColor.Some? && fillColor.value != "" then fillColor.value else DefaultColor;
    Cell(width, posX, posY, color)
  }

  predicate InRange(g: Grid, p: Coord) {
    0 <= p.row < |g| && 0 <= p.col < |g[p.row]|
  }

  function ColorAt(g: Grid, p: Coord): Color
    requires InRange(g, p)
  {
    g[p.row][p.col].fillColor
  }

  /** Same number of rows, and row by row the same number of cells. */
  predicate SameShape(g: Grid, h: Grid) {
    |g| == |h| && forall i :: 0 <= i < |g| ==> |g[i]| == |h[i]|
  }

  predicate SameGeometry(a: Cell, b: Cell) {
    a.width == b.width && a.posX == b.posX && a.posY == b.posY
  }

  /** Same shape and every cell in the same place with the same size: only
      colours may differ. */
  predicate SameLayout(g: Grid, h: Grid) {
    SameShape(g, h) &&
    forall i, j :: 0 <= i < |g| && 0 <= j < |g[i]| ==> SameGeometry(g[i][j], h[i][j])
  }

  /** The colours of a grid, with the geometry forgotten. */
  function Colors(g: Grid): (cs: seq<seq<Color>>)
    ensures |cs| == |g|
    ensures forall i :: 0 <= i < |g| ==> |cs[i]| == |g[i]|
    ensures forall i, j :: 0 <= i < |g| && 0 <= j < |g[i]| ==> cs[i][j] == g[i][j].fillColor
  {
    seq(|g|, i requires 0 <= i < |g| => seq(|g[i]|, j requires 0 <= j < |g[i]| => g[i][j].fillColor))
  }

  /** Grids of the same shape whose cells agree on colour have equal colours. */
  lemma ColorsAgree(g: Grid, h: Grid)
    requires SameShape(g, h)
    requires forall i, j :: 0 <= i < |g| && 0 <= j < |g[i]| ==> g[i][j].fillColor == h[i][j].fillColor
    ensures Colors(g) == Colors(h)
  {
    var cg := Colors(g);
    var ch := Colors(h);
    forall i | 0 <= i < |g|
      ensures cg[i] == ch[i]
    {
      assert |cg[i]| == |ch[i]|;
    }
  }

  /** Grids of the same shape that agree cell by cell are equal. */
  lemma GridsAgree(g: Grid, h: Grid)
    requires SameShape(g, h)
    requires forall i, j :: 0 <= i < |g| && 0 <= j < |g[i]| ==> g[i][j] == h[i][j]
    ensures g == h
  {
    forall i | 0 <= i < |g|
      ensures g[i] == h[i]
    {
      assert |g[i]| == |h[i]|;
    }
  }

  predicate AllColor(g: Grid, color: Color) {
    forall i, j :: 0 <= i < |g| && 0 <= j < |g[i]| ==> g[i][j].fillColor == color
  }

  /** Recolours one cell, as the pencil and each flood-fill step do. */
  function Paint(g: Grid, p: Coord, color: Color): (r: Grid)
    requires InRange(g, p)
    ensures SameLayout(g, r)
    ensures InRange(r, p) && ColorAt(r, p) == color
    ensures forall i, j :: 0 <= i < |g| && 0 <= j < |g[i]| && Coord(i, j) != p ==> r[i][j] == g[i][j]
  {
    g[p.row := g[p.row][p.col := g[p.row][p.col].(fillColor := color)]]
  }

  // ---------------------------------------------------------------------------
  // Geometry

  /** Side length of a cell when `n` cells span a surface `w` wide. */
  function CellWidth(n: nat, w: real): real
    requires n > 0
  {
    w / n as real
  }

  /** Distance of the `k`-th row or column from the surface's origin. */
  function Offset(n: nat, w: real, k: int): real
    requires n > 0
  {
    CellWidth(n, w) * k as real
  }

  /** Truncation toward zero, as JavaScript's `%` uses it. */
  function Trunc(r: real): int {
    if r >= 0.0 then r.Floor else -((-r).Floor)
  }

  /** JavaScript's `%` on numbers: the remainder takes the dividend's sign. */
  function JsRem(a: real, m: real): real
    requires m > 0.0
  {
    a - m * Trunc(a / m) as real
  }

  /** Where cell (i, j) of an `n`-by-`n` grid on a `w`-wide surface sits. */
  predicate Placed(c: Cell, n: nat, w: real, i: int, j: int)
    requires n > 0
  {
    c.width == CellWidth(n, w) && c.posX == Offset(n, w, j) && c.posY == Offset(n, w, i)
  }

  /** Exactly `n` rows of `n` cells. */
  predicate Square(g: Grid, n: nat) {
    |g| == n && forall i :: 0 <= i < n ==> |g[i]| == n
  }

  /** Exactly `n` rows of `n` cells, each square of side `w / n` and placed at
      (`j * w / n`, `i * w / n`). */
  predicate WellFormed(g: Grid, n: nat, w: real)
    requires n > 0
  {
    Square(g, n) &&
    forall i, j :: 0 <= i < n && 0 <= j < n ==> Placed(g[i][j], n, w, i, j)
  }

  /** Recolouring cells keeps a grid well formed. */
  lemma WellFormedRecolored(g: Grid, h: Grid, n: nat, w: real)
    requires n > 0 && WellFormed(g, n, w) && SameLayout(g, h)
    ensures WellFormed(h, n, w)
  {
    forall i, j | 0 <= i < n && 0 <= j < n
      ensures Placed(h[i][j], n, w, i, j)
    {
      assert Placed(g[i][j], n, w, i, j) && SameGeometry(g[i][j], h[i][j]);
    }
  }

  /** The `% width` guard on the positions never changes an in-grid offset:
      they all lie in `[0, w)`. */
  lemma RemIsIdentityOnGrid(n: nat, w: real, k: int)
    requires n > 0 && w > 0.0 && 0 <= k < n
    ensures JsRem(Offset(n, w, k), w) == Offset(n, w, k)
  {
    var cw := CellWidth(n, w);
    var a := Offset(n, w, k);
    assert cw * n as real == w;
    assert cw > 0.0;
    assert a <= cw * (n - 1) as real by {
      assert cw * (n - 1) as real - a == cw * ((n - 1 - k) as real);
    }
    assert 0.0 <= a < w;
    QuotientBelow(a, w, 1.0);
    assert 0.0 <= a / w < 1.0;
  }

  lemma RemIsIdentityOnGridAll(n: nat, w: real)
    requires n > 0 && w > 0.0
    ensures forall k :: 0 <= k < n ==> JsRem(Offset(n, w, k), w) == Offset(n, w, k)
  {
    forall k | 0 <= k < n
      ensures JsRem(Offset(n, w, k), w) == Offset(n, w, k)
    {
      RemIsIdentityOnGrid(n, w, k);
    }
  }

  /** `v / c < m` whenever `v < c * m`, for positive `c`. */
  lemma QuotientBelow(v: real, c: real, m: real)
    requires c > 0.0 && v < c * m
    ensures v / c < m
  {
    if v / c >= m {
      ScaleLe(m, v / c, c);
    }
  }

  lemma ScaleLe(a: real, b: real, c: real)
    requires a <= b && c > 0.0
    ensures a * c <= b * c
  {
    assert b * c - a * c == (b - a) * c;
  }

  lemma ScaleLt(a: real, b: real, c: real)
    requires a < b && c > 0.0
    ensures a * c < b * c
  {
    assert b * c - a * c == (b - a) * c;
  }

  // ---------------------------------------------------------------------------
  // Grid lifecycle

  /** `createGrid`: `n` rows of `n` fresh white cells, laid out over a surface
      `w` wide. */
  function CreateGrid(n: nat, w: real): (g: Grid)
    requires n > 0 && w > 0.0
    ensures WellFormed(g, n, w)
    ensures AllColor(g, DefaultColor)
  {
    RemIsIdentityOnGridAll(n, w);
    var cw := CellWidth(n, w);
    seq(n, i requires 0 <= i < n =>
      seq(n, j requires 0 <= j < n =>
        NewCell(cw, cw, JsRem(Offset(n, w, j), w), JsRem(Offset(n, w, i), w), None)))
  }

  /** The new size and position of cell (i, j) after a resize. The column is
      taken modulo `n` and the position modulo `w`, as the source does. */
  function Relocated(c: Cell, n: nat, w: real, i: int, j: int): (r: Cell)
    requires n > 0 && w > 0.0
    ensures r.fillColor == c.fillColor
    ensures 0 <= i < n && 0 <= j < n ==> Placed(r, n, w, i, j)
  {
    var r := c.(width := CellWidth(n, w), posX := JsRem(Offset(n, w, j % n), w), posY := JsRem(Offset(n, w, i), w));
    if 0 <= i < n && 0 <= j < n then
      RemIsIdentityOnGrid(n, w, i);
      RemIsIdentityOnGrid(n, w, j);
      assert j % n == j;
      r
    else r
  }

  /** `updateGrid(false)`: recompute every cell's size and position for a
      surface `w` wide, in place; colours and (row, column) identities stay. */
  function Reposition(g: Grid, n: nat, w: real): (r: Grid)
    requires n > 0 && w > 0.0
    ensures SameShape(g, r)
    ensures Colors(r) == Colors(g)
    ensures Square(g, n) ==> WellFormed(r, n, w)
  {
    var r := seq(|g|, i requires 0 <= i < |g| =>
      seq(|g[i]|, j requires 0 <= j < |g[i]| => Relocated(g[i][j], n, w, i, j)));
    ColorsAgree(r, g);
    r
  }

  /** Two well-formed grids of the same size and width that hold the same
      colours are the same grid: layout plus colours determine it. */
  lemma {:induction false} LayoutDetermines(a: Grid, b: Grid, n: nat, w: real)
    requires n > 0
    requires WellFormed(a, n, w) && WellFormed(b, n, w)
    requires Colors(a) == Colors(b)
    ensures a == b
  {
    forall i | 0 <= i < n
      ensures a[i] == b[i]
    {
      forall j | 0 <= j < n
        ensures a[i][j] == b[i][j]
      {
        assert Placed(a[i][j], n, w, i, j) && Placed(b[i][j], n, w, i, j);
        assert Colors(a)[i][j] == Colors(b)[i][j];
      }
    }
  }

  /** Resizing a freshly built grid gives the grid built at the new width. */
  lemma ResizeFreshGrid(n: nat, w0: real, w: real)
    requires n > 0 && w0 > 0.0 && w > 0.0
    ensures Reposition(CreateGrid(n, w0), n, w) == CreateGrid(n, w)
  {
    var a := Reposition(CreateGrid(n, w0), n, w);
    var b := CreateGrid(n, w);
    ColorsAgree(a, b);
    LayoutDetermines(a, b, n, w);
  }

  /** Repositioning a well-formed grid for the width it already has changes
      nothing. */
  lemma RepositionFixesWellFormed(g: Grid, n: nat, w: real)
    requires n > 0 && w > 0.0
    requires WellFormed(g, n, w)
    ensures Reposition(g, n, w) == g
  {
    LayoutDetermines(Reposition(g, n, w), g, n, w);
  }

  /** Repositioning twice for the same width is repositioning once. */
  lemma RepositionIdempotent(g: Grid, n: nat, w: real)
    requires n > 0 && w > 0.0
    requires Square(g, n)
    ensures Reposition(Reposition(g, n, w), n, w) == Reposition(g, n, w)
  {
    RepositionFixesWellFormed(Reposition(g, n, w), n, w);
  }
}
