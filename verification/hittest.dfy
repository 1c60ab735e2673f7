/** Hit-testing: which cell of the grid a point on the drawing surface falls in. */
module HitTest {
  import opened Cells

  /** `isInBoundaries`: the point lies strictly inside the cell's box, whose
      line still lands. Both lower bounds are strict. */
  predicate IsInBoundaries(c: Cell, x: real, y: real)
    ensures c.posX <= x < c.posX + c.width && c.posY <= y < c.posY + c.width ==> IsInBoundaries(c, x, y)
    ensures x <= c.posX - 1.0 || y <= c.posY - 1.0 ==> !IsInBoundaries(c, x, y)
    ensures x >= c.posX + c.width || y >= c.posY + c.width ==> !IsInBoundaries(c, x, y)
  {
    x < c.posX + c.width && y < c.posY + c.width && x > c.posX - 1.0 && y > c.posY - 1.0
  }

  /** Row-major order on grid addresses. */
  predicate Before(p: Coord, q: Coord) {
    p.row < q.row || (p.row == q.row && p.col < q.col)
  }

  /** `Array.prototype.findIndex` with `isInBoundaries`, from position `from`:
      the first cell of the row containing the point, or -1. */
  function FindIndex(row: seq<Cell>, x: real, y: real, from: nat): (k: int)
    requires from <= |row|
    ensures k == -1 || (from <= k < |row| && IsInBoundaries(row[k], x, y))
    ensures k == -1 <==> forall j :: from <= j < |row| ==> !IsInBoundaries(row[j], x, y)
    ensures forall j :: from <= j < k ==> !IsInBoundaries(row[j], x, y)
    decreases |row| - from
  {
    if from == |row| then -1
    else if IsInBoundaries(row[from], x, y) then from
    else FindIndex(row, x, y, from + 1)
  }

  /** The row loop of `findCellCoordinatesInGrid`, from row `i` on. */
  function FindFrom(g: Grid, x: real, y: real, i: nat): (r: Coord)
    requires i <= |g|
    ensures r == NotFound || (i <= r.row && InRange(g, r) && IsInBoundaries(g[r.row][r.col], x, y))
    ensures r == NotFound <==>
      forall a, b :: i <= a < |g| && 0 <= b < |g[a]| ==> !IsInBoundaries(g[a][b], x, y)
    ensures forall a, b :: i <= a < |g| && 0 <= b < |g[a]| && Before(Coord(a, b), r) ==>
      !IsInBoundaries(g[a][b], x, y)
    decreases |g| - i
  {
    if i == |g| then NotFound
    else
      var k := FindIndex(g[i], x, y, 0);
      if k != -1 then Coord(i, k) else FindFrom(g, x, y, i + 1)
  }

  /** `findCellCoordinatesInGrid`: the first cell in row-major order whose
      box contains the point, or `NotFound` when there is none. */
  function FindCellCoordinatesInGrid(g: Grid, x: real, y: real): (r: Coord)
    ensures r == NotFound || (InRange(g, r) && IsInBoundaries(g[r.row][r.col], x, y))
    ensures r == NotFound <==>
      forall a, b :: 0 <= a < |g| && 0 <= b < |g[a]| ==> !IsInBoundaries(g[a][b], x, y)
    ensures forall a, b :: 0 <= a < |g| && 0 <= b < |g[a]| && Before(Coord(a, b), r) ==>
      !IsInBoundaries(g[a][b], x, y)
  {
    FindFrom(g, x, y, 0)
  }

  /** The hit-tester's answer is determined by its contract: if `p` contains
      the point and no earlier cell does, `p` is the answer. */
  lemma FirstHitIsAnswer(g: Grid, x: real, y: real, p: Coord)
    requires InRange(g, p) && IsInBoundaries(g[p.row][p.col], x, y)
    requires forall a, b :: 0 <= a < |g| && 0 <= b < |g[a]| && Before(Coord(a, b), p) ==>
      !IsInBoundaries(g[a][b], x, y)
    ensures FindCellCoordinatesInGrid(g, x, y) == p
  {
    var r := FindCellCoordinatesInGrid(g, x, y);
    assert r != NotFound;
    assert !Before(r, p);
    assert Coord(p.row, p.col) == p;
    assert !Before(p, r);
  }

  /** Clicking exactly on the top-left corner of a cell of a well-formed grid
      selects that cell: the one-unit bias never makes an earlier cell win,
      because the earlier cells' boxes end strictly before the corner. */
  lemma CornerSelectsCell(g: Grid, n: nat, w: real, i: int, j: int)
    requires n > 0 && w > 0.0
    requires WellFormed(g, n, w)
    requires 0 <= i < n && 0 <= j < n
    ensures FindCellCoordinatesInGrid(g, g[i][j].posX, g[i][j].posY) == Coord(i, j)
  {
    var cw := CellWidth(n, w);
    var x := g[i][j].posX;
    var y := g[i][j].posY;
    assert cw > 0.0;
    assert Placed(g[i][j], n, w, i, j);
    forall a, b | 0 <= a < |g| && 0 <= b < |g[a]| && Before(Coord(a, b), Coord(i, j))
      ensures !IsInBoundaries(g[a][b], x, y)
    {
      assert Placed(g[a][b], n, w, a, b);
      if a < i {
        EdgeBeforeNext(n, w, a, i);
      } else {
        EdgeBeforeNext(n, w, b, j);
      }
    }
    FirstHitIsAnswer(g, x, y, Coord(i, j));
  }

  /** The far edge of row or column `a` is no further out than the start of
      any later row or column `b`. */
  lemma EdgeBeforeNext(n: nat, w: real, a: int, b: int)
    requires n > 0 && w > 0.0 && a < b
    ensures Offset(n, w, a) + CellWidth(n, w) <= Offset(n, w, b)
  {
    var cw := CellWidth(n, w);
    assert Offset(n, w, b) - (Offset(n, w, a) + cw) == cw * (b - a - 1) as real;
  }

  /** Every point of the drawing surface `[0, w) x [0, w)` of a well-formed
      grid selects some cell. */
  lemma SurfacePointSelectsCell(g: Grid, n: nat, w: real, x: real, y: real)
    requires n > 0 && w > 0.0
    requires WellFormed(g, n, w)
    requires 0.0 <= x < w && 0.0 <= y < w
    ensures FindCellCoordinatesInGrid(g, x, y) != NotFound
  {
    var i := CellIndexOf(n, w, y);
    var j := CellIndexOf(n, w, x);
    assert Placed(g[i][j], n, w, i, j);
    assert IsInBoundaries(g[i][j], x, y);
  }

  /** The row or column a surface coordinate `v` falls in. */
  function CellIndexOf(n: nat, w: real, v: real): (k: int)
    requires n > 0 && w > 0.0
    requires 0.0 <= v < w
    ensures 0 <= k < n
    ensures Offset(n, w, k) <= v < Offset(n, w, k) + CellWidth(n, w)
  {
    var cw := CellWidth(n, w);
    assert cw > 0.0;
    assert v < cw * n as real by {
      assert cw * n as real == w;
    }
    QuotientBelow(v, cw, n as real);
    var k := (v / cw).Floor;
    FloorBracket(v, cw);
    assert Offset(n, w, k) == k as real * cw;
    assert Offset(n, w, k) + cw == (k as real + 1.0) * cw;
    k
  }

  /** `v` lies between the multiples of `c` around it. */
  lemma FloorBracket(v: real, c: real)
    requires c > 0.0
    ensures var k := (v / c).Floor as real; k * c <= v && v < (k + 1.0) * c
  {
    var q := v / c;
    var k := q.Floor as real;
    assert k <= q < k + 1.0;
    ScaleLe(k, q, c);
    ScaleLt(q, k + 1.0, c);
    assert q * c == v;
    assert q * c < (k + 1.0) * c;
    assert v < (k + 1.0) * c;
  }

  /** Hit-testing reads only the geometry: two grids of the same layout give
      the same answer for every point, whatever their colours. */
  lemma FindIgnoresColors(g: Grid, h: Grid, x: real, y: real)
    requires SameLayout(g, h)
    ensures FindCellCoordinatesInGrid(g, x, y) == FindCellCoordinatesInGrid(h, x, y)
  {
  }
}
