/** The bucket tool: a four-way flood fill driven by an explicit stack, and the
    region it recolours, defined independently through paths of same-coloured
    neighbouring cells. */
module Flood {
  import opened Cells

  /** Up, down, left or right of each other; never diagonal. */
  predicate Adjacent(p: Coord, q: Coord) {
    (p.row == q.row && (q.col == p.col + 1 || q.col == p.col - 1)) ||
    (p.col == q.col && (q.row == p.row + 1 || q.row == p.row - 1))
  }

  /** A walk over in-range cells that all hold `color`, each step to an
      adjacent cell. */
  ghost predicate IsPath(g: Grid, color: Color, path: seq<Coord>) {
    |path| > 0 &&
    (forall k :: 0 <= k < |path| ==> InRange(g, path[k]) && ColorAt(g, path[k]) == color) &&
    (forall k :: 0 <= k < |path| - 1 ==> Adjacent(path[k], path[k + 1]))
  }

  /** `t` belongs to the 4-connected `color` region that contains `s`. */
  ghost predicate Reachable(g: Grid, color: Color, s: Coord, t: Coord) {
    exists path :: IsPath(g, color, path) && path[0] == s && path[|path| - 1] == t
  }

  /** A set of cells that every `color` neighbour of its members belongs to. */
  ghost predicate Closed(g: Grid, color: Color, S: set<Coord>) {
    forall p, q :: p in S && Adjacent(p, q) && InRange(g, q) && ColorAt(g, q) == color ==> q in S
  }

  /** The reference meaning of a fill from `s`: every cell of the
      `oldColor` region containing `s` is recoloured to `newColor`, and
      nothing else changes. */
  ghost function FloodFilled(g: Grid, s: Coord, oldColor: Color, newColor: Color): (r: Grid)
    ensures SameLayout(g, r)
    ensures forall i, j :: 0 <= i < |g| && 0 <= j < |g[i]| ==>
      r[i][j] == g[i][j] || (g[i][j].fillColor == oldColor && r[i][j].fillColor == newColor)
    ensures oldColor == newColor ==> r == g
    ensures InRange(g, s) && ColorAt(g, s) == oldColor ==> ColorAt(r, s) == newColor
  {
    ReachableHasColor(g, oldColor, s);
    ReachableFromItself(g, oldColor, s);
    var r := seq(|g|, i requires 0 <= i < |g| =>
      seq(|g[i]|, j requires 0 <= j < |g[i]| =>
        if Reachable(g, oldColor, s, Coord(i, j)) then g[i][j].(fillColor := newColor) else g[i][j]));
    assert oldColor == newColor ==> r == g by {
      if oldColor == newColor {
        GridsAgree(r, g);
      }
    }
    r
  }

  // ---------------------------------------------------------------------------
  // Paths

  lemma ReachableHasColor(g: Grid, color: Color, s: Coord)
    ensures forall t :: Reachable(g, color, s, t) ==> InRange(g, t) && ColorAt(g, t) == color
  {
    forall t | Reachable(g, color, s, t)
      ensures InRange(g, t) && ColorAt(g, t) == color
    {
      var path :| IsPath(g, color, path) && path[0] == s && path[|path| - 1] == t;
      assert path[|path| - 1] == t;
    }
  }

  lemma ReachableFromRegion(g: Grid, color: Color, s: Coord, t: Coord)
    requires Reachable(g, color, s, t)
    ensures InRange(g, s) && ColorAt(g, s) == color
  {
    var path :| IsPath(g, color, path) && path[0] == s && path[|path| - 1] == t;
    assert path[0] == s;
  }

  lemma ReachableFromItself(g: Grid, color: Color, s: Coord)
    ensures InRange(g, s) && ColorAt(g, s) == color ==> Reachable(g, color, s, s)
  {
    if InRange(g, s) && ColorAt(g, s) == color {
      assert IsPath(g, color, [s]);
    }
  }

  /** A region grows by one step into a `color` neighbour. */
  lemma ReachableStep(g: Grid, color: Color, s: Coord, p: Coord, q: Coord)
    requires Reachable(g, color, s, p)
    requires Adjacent(p, q) && InRange(g, q) && ColorAt(g, q) == color
    ensures Reachable(g, color, s, q)
  {
    var path :| IsPath(g, color, path) && path[0] == s && path[|path| - 1] == p;
    var path' := path + [q];
    assert path'[|path'| - 1] == q;
    assert IsPath(g, color, path');
  }

  /** Every cell of a path that starts in a closed set stays in it. */
  lemma {:induction false} PathStaysIn(g: Grid, color: Color, path: seq<Coord>, S: set<Coord>, k: nat)
    requires IsPath(g, color, path) && path[0] in S && Closed(g, color, S)
    requires k < |path|
    ensures path[k] in S
  {
    if k > 0 {
      PathStaysIn(g, color, path, S, k - 1);
      assert Adjacent(path[k - 1], path[k]);
    }
  }

  /** The region reachable from `s` lies inside every closed set holding `s`. */
  lemma ReachableWithin(g: Grid, color: Color, s: Coord, S: set<Coord>)
    requires s in S && Closed(g, color, S)
    ensures forall t :: Reachable(g, color, s, t) ==> t in S
  {
    forall t | Reachable(g, color, s, t)
      ensures t in S
    {
      var path :| IsPath(g, color, path) && path[0] == s && path[|path| - 1] == t;
      PathStaysIn(g, color, path, S, |path| - 1);
    }
  }

  // ---------------------------------------------------------------------------
  // The stack-driven fill

  /** The cells currently holding `color`; each fill step removes one. */
  ghost function CellsOf(g: Grid, color: Color): set<Coord> {
    set i, j | 0 <= i < |g| && 0 <= j < |g[i]| && g[i][j].fillColor == color :: Coord(i, j)
  }

  lemma PaintShrinks(g: Grid, p: Coord, color: Color, newColor: Color)
    requires InRange(g, p) && ColorAt(g, p) == color && newColor != color
    ensures CellsOf(Paint(g, p, newColor), color) < CellsOf(g, color)
  {
    var h := Paint(g, p, newColor);
    assert p in CellsOf(g, color);
    assert p !in CellsOf(h, color);
    forall q | q in CellsOf(h, color)
      ensures q in CellsOf(g, color)
    {
      assert h[q.row][q.col] == g[q.row][q.col];
    }
  }

  /** Cell `p` differs between the grid before the fill and now. */
  predicate Changed(g: Grid, r: Grid, p: Coord) {
    InRange(g, p) && InRange(r, p) && r[p.row][p.col] != g[p.row][p.col]
  }

  /** Every changed cell was an `oldColor` cell of the start's region and now
      holds `newColor`; every other cell is as it was. */
  ghost predicate Progress(g: Grid, r: Grid, s: Coord, oldColor: Color, newColor: Color) {
    SameShape(g, r) &&
    forall i, j :: 0 <= i < |g| && 0 <= j < |g[i]| ==>
      r[i][j] == g[i][j] ||
      (oldColor != newColor && g[i][j].fillColor == oldColor &&
       r[i][j] == g[i][j].(fillColor := newColor) && Reachable(g, oldColor, s, Coord(i, j)))
  }

  /** Every neighbour of a changed cell that still holds `oldColor` is
      waiting on the stack. */
  ghost predicate Pending(g: Grid, r: Grid, oldColor: Color, stack: seq<Coord>) {
    forall p, q :: Changed(g, r, p) && Adjacent(p, q) && InRange(r, q) && ColorAt(r, q) == oldColor ==>
      q in stack
  }

  /** The four coordinates pushed after recolouring `p`, in the order they
      are pushed: below, above, right, left. */
  function Neighbours(p: Coord): (ns: seq<Coord>)
    ensures forall q :: Adjacent(p, q) <==> q in ns
  {
    [Coord(p.row + 1, p.col), Coord(p.row - 1, p.col), Coord(p.row, p.col + 1), Coord(p.row, p.col - 1)]
  }

  /** Every stack entry is the start or a neighbour of a changed cell (its
      ghost parent). */
  ghost predicate Parented(g: Grid, r: Grid, s: Coord, stack: seq<Coord>, parents: seq<Coord>) {
    |parents| == |stack| &&
    forall k :: 0 <= k < |stack| ==>
      stack[k] == s || (Changed(g, r, parents[k]) && Adjacent(parents[k], stack[k]))
  }

  /** The loop invariant of the fill. */
  ghost predicate FillInv(g: Grid, r: Grid, s: Coord, oldColor: Color, newColor: Color,
                          stack: seq<Coord>, parents: seq<Coord>) {
    SameLayout(g, r) &&
    Progress(g, r, s, oldColor, newColor) &&
    Parented(g, r, s, stack, parents) &&
    (oldColor != newColor ==> Pending(g, r, oldColor, stack)) &&
    (oldColor != newColor && InRange(r, s) && ColorAt(r, s) == oldColor ==> s in stack)
  }

  /** `floodFillArea(x, y, oldColor, newColor, canvasGrid)`. Its `x` and `y`
      are the row and column of the start cell (the grid is indexed
      `canvasGrid[x][y]`). Coordinates off the grid are discarded when popped;
      a cell is recoloured only while it still holds `oldColor` and differs
      from `newColor`, and then its four neighbours are pushed. */
  method FloodFillArea(x: int, y: int, oldColor: Color, newColor: Color, g: Grid) returns (r: Grid)
    ensures SameLayout(g, r)
    ensures forall i, j :: 0 <= i < |g| && 0 <= j < |g[i]| ==>
      r[i][j] == g[i][j] || (g[i][j].fillColor == oldColor && r[i][j] == g[i][j].(fillColor := newColor))
    ensures oldColor == newColor ==> r == g
    ensures r == FloodFilled(g, Coord(x, y), oldColor, newColor)
  {
    var start := Coord(x, y);
    var stack := [start];
    ghost var parents := [start];
    r := g;
    while |stack| > 0
      invariant FillInv(g, r, start, oldColor, newColor, stack, parents)
      decreases CellsOf(r, oldColor), |stack|
    {
      var p := stack[|stack| - 1];
      ghost var before, parentsBefore := stack, parents;
      stack := stack[..|stack| - 1];
      parents := parents[..|parents| - 1];

      if p.row < 0 || p.row > |r| - 1 || p.col < 0 || p.col > |r[p.row]| - 1 {
        DiscardStep(g, r, start, oldColor, newColor, before, parentsBefore);
        continue;
      }
      if r[p.row][p.col].fillColor != oldColor || r[p.row][p.col].fillColor == newColor {
        DiscardStep(g, r, start, oldColor, newColor, before, parentsBefore);
        continue;
      }

      FillStep(g, r, start, oldColor, newColor, before, parentsBefore);
      PaintShrinks(r, p, oldColor, newColor);
      r := Paint(r, p, newColor);
      stack := stack + Neighbours(p);
      parents := parents + [p, p, p, p];
    }
    FinishFill(g, r, start, oldColor, newColor);
  }

  /** Popping a coordinate that is off the grid or not an `oldColor` cell
      still distinct from `newColor` keeps the invariant. */
  lemma DiscardStep(g: Grid, r: Grid, s: Coord, oldColor: Color, newColor: Color,
                    before: seq<Coord>, parentsBefore: seq<Coord>)
    requires |before| > 0
    requires FillInv(g, r, s, oldColor, newColor, before, parentsBefore)
    requires var p := before[|before| - 1];
      !(InRange(r, p) && ColorAt(r, p) == oldColor && ColorAt(r, p) != newColor)
    ensures FillInv(g, r, s, oldColor, newColor, before[..|before| - 1], parentsBefore[..|before| - 1])
  {
    var p := before[|before| - 1];
    var stack := before[..|before| - 1];
    assert before == stack + [p];
    if oldColor != newColor {
      forall a, q | Changed(g, r, a) && Adjacent(a, q) && InRange(r, q) && ColorAt(r, q) == oldColor
        ensures q in stack
      {
        assert q in before;
      }
    }
  }

  /** Recolouring the popped `oldColor` cell `p` and pushing its four
      neighbours keeps the invariant. */
  lemma FillStep(g: Grid, r: Grid, s: Coord, oldColor: Color, newColor: Color,
                 before: seq<Coord>, parentsBefore: seq<Coord>)
    requires |before| > 0
    requires FillInv(g, r, s, oldColor, newColor, before, parentsBefore)
    requires var p := before[|before| - 1];
      InRange(r, p) && ColorAt(r, p) == oldColor && ColorAt(r, p) != newColor
    ensures var p := before[|before| - 1];
      FillInv(g, Paint(r, p, newColor), s, oldColor, newColor,
              before[..|before| - 1] + Neighbours(p), parentsBefore[..|before| - 1] + [p, p, p, p])
  {
    var p := before[|before| - 1];
    PoppedUnchanged(g, r, s, oldColor, newColor, p);
    PoppedCellInRegion(g, r, s, oldColor, newColor, before, parentsBefore);
    FillStepProgress(g, r, s, oldColor, newColor, p);
    FillStepParented(g, r, s, newColor, before, parentsBefore);
    FillStepPending(g, r, oldColor, newColor, before);
    FillStepStart(r, s, oldColor, newColor, before);
  }

  /** A cell that still holds `oldColor`, distinct from `newColor`, has not
      been touched yet. */
  lemma PoppedUnchanged(g: Grid, r: Grid, s: Coord, oldColor: Color, newColor: Color, p: Coord)
    requires Progress(g, r, s, oldColor, newColor)
    requires InRange(r, p) && ColorAt(r, p) == oldColor && oldColor != newColor
    ensures InRange(g, p) && g[p.row][p.col] == r[p.row][p.col]
  {
  }

  /** After a fill step the start, if it still holds `oldColor`, is still on
      the stack: it is not the cell just recoloured. */
  lemma FillStepStart(r: Grid, s: Coord, oldColor: Color, newColor: Color, before: seq<Coord>)
    requires |before| > 0
    requires var p := before[|before| - 1];
      InRange(r, p) && ColorAt(r, p) == oldColor && oldColor != newColor
    requires InRange(r, s) && ColorAt(r, s) == oldColor ==> s in before
    ensures var p := before[|before| - 1]; var r' := Paint(r, p, newColor);
      InRange(r', s) && ColorAt(r', s) == oldColor ==> s in before[..|before| - 1] + Neighbours(p)
  {
    var p := before[|before| - 1];
    var r' := Paint(r, p, newColor);
    assert before == before[..|before| - 1] + [p];
    if InRange(r', s) && ColorAt(r', s) == oldColor {
      assert s != p;
      assert r'[s.row][s.col] == r[s.row][s.col];
    }
  }

  /** The popped cell, still holding `oldColor`, belongs to the start's region:
      it is the start or a neighbour of an already recoloured cell. */
  lemma PoppedCellInRegion(g: Grid, r: Grid, s: Coord, oldColor: Color, newColor: Color,
                           before: seq<Coord>, parentsBefore: seq<Coord>)
    requires |before| > 0
    requires SameShape(g, r)
    requires Progress(g, r, s, oldColor, newColor)
    requires Parented(g, r, s, before, parentsBefore)
    requires var p := before[|before| - 1];
      InRange(g, p) && g[p.row][p.col] == r[p.row][p.col] && ColorAt(r, p) == oldColor
    ensures Reachable(g, oldColor, s, before[|before| - 1])
  {
    var p := before[|before| - 1];
    var parent := parentsBefore[|before| - 1];
    if p == s {
      ReachableFromItself(g, oldColor, s);
    } else {
      assert Changed(g, r, parent) && Adjacent(parent, p);
      ReachableStep(g, oldColor, s, parent, p);
    }
  }

  lemma FillStepProgress(g: Grid, r: Grid, s: Coord, oldColor: Color, newColor: Color, p: Coord)
    requires Progress(g, r, s, oldColor, newColor)
    requires InRange(r, p) && g[p.row][p.col] == r[p.row][p.col] && ColorAt(r, p) == oldColor
    requires oldColor != newColor && Reachable(g, oldColor, s, p)
    ensures Progress(g, Paint(r, p, newColor), s, oldColor, newColor)
  {
    var r' := Paint(r, p, newColor);
    forall i, j | 0 <= i < |g| && 0 <= j < |g[i]|
      ensures r'[i][j] == g[i][j] ||
        (oldColor != newColor && g[i][j].fillColor == oldColor &&
         r'[i][j] == g[i][j].(fillColor := newColor) && Reachable(g, oldColor, s, Coord(i, j)))
    {
      if Coord(i, j) != p {
        assert r'[i][j] == r[i][j];
      }
    }
  }

  lemma FillStepParented(g: Grid, r: Grid, s: Coord, newColor: Color,
                         before: seq<Coord>, parentsBefore: seq<Coord>)
    requires |before| > 0 && SameShape(g, r)
    requires Parented(g, r, s, before, parentsBefore)
    requires var p := before[|before| - 1];
      InRange(g, p) && g[p.row][p.col] == r[p.row][p.col] && ColorAt(r, p) != newColor
    ensures var p := before[|before| - 1];
      Parented(g, Paint(r, p, newColor), s, before[..|before| - 1] + Neighbours(p),
               parentsBefore[..|before| - 1] + [p, p, p, p])
  {
    var p := before[|before| - 1];
    var r' := Paint(r, p, newColor);
    var stack := before[..|before| - 1];
    var after := stack + Neighbours(p);
    var parents := parentsBefore[..|before| - 1] + [p, p, p, p];
    forall k | 0 <= k < |after|
      ensures after[k] == s || (Changed(g, r', parents[k]) && Adjacent(parents[k], after[k]))
    {
      if k < |stack| {
        assert after[k] == before[k] && parents[k] == parentsBefore[k];
        if after[k] != s {
          var a := parents[k];
          assert Changed(g, r, a);
          if a != p {
            assert r'[a.row][a.col] == r[a.row][a.col];
          }
        }
      } else {
        assert parents[k] == p;
        assert after[k] in Neighbours(p);
      }
    }
  }

  lemma FillStepPending(g: Grid, r: Grid, oldColor: Color, newColor: Color, before: seq<Coord>)
    requires |before| > 0 && SameShape(g, r)
    requires Pending(g, r, oldColor, before)
    requires var p := before[|before| - 1];
      InRange(r, p) && ColorAt(r, p) == oldColor && oldColor != newColor
    ensures var p := before[|before| - 1];
      Pending(g, Paint(r, p, newColor), oldColor, before[..|before| - 1] + Neighbours(p))
  {
    var p := before[|before| - 1];
    var r' := Paint(r, p, newColor);
    var stack := before[..|before| - 1];
    var after := stack + Neighbours(p);
    assert before == stack + [p];
    forall a, q | Changed(g, r', a) && Adjacent(a, q) && InRange(r', q) && ColorAt(r', q) == oldColor
      ensures q in after
    {
      if a == p {
        assert q in Neighbours(p);
      } else {
        assert q != p;
        assert r'[a.row][a.col] == r[a.row][a.col];
        assert r'[q.row][q.col] == r[q.row][q.col];
        assert q in before;
      }
    }
  }

  /** Once the stack is empty the changed cells are exactly the region. */
  lemma FinishFill(g: Grid, r: Grid, s: Coord, oldColor: Color, newColor: Color)
    requires SameLayout(g, r)
    requires Progress(g, r, s, oldColor, newColor)
    requires oldColor != newColor ==> Pending(g, r, oldColor, [])
    requires oldColor != newColor && InRange(r, s) ==> ColorAt(r, s) != oldColor
    ensures r == FloodFilled(g, s, oldColor, newColor)
  {
    var f := FloodFilled(g, s, oldColor, newColor);
    if oldColor == newColor {
      GridsAgree(r, g);
    } else {
      var S := set i, j | 0 <= i < |g| && 0 <= j < |g[i]| && r[i][j] != g[i][j] :: Coord(i, j);
      forall p, q | p in S && Adjacent(p, q) && InRange(g, q) && ColorAt(g, q) == oldColor
        ensures q in S
      {
        assert Changed(g, r, p);
        assert ColorAt(r, q) != oldColor;
      }
      assert Closed(g, oldColor, S);
      forall i, j | 0 <= i < |g| && 0 <= j < |g[i]|
        ensures r[i][j] == f[i][j]
      {
        if Reachable(g, oldColor, s, Coord(i, j)) {
          ReachableFromRegion(g, oldColor, s, Coord(i, j));
          assert s in S;
          ReachableWithin(g, oldColor, s, S);
          assert Coord(i, j) in S;
        }
      }
      GridsAgree(r, f);
    }
  }

  // ---------------------------------------------------------------------------
  // Properties of a fill

  /** A fill from a cell that does not hold `oldColor` (or lies off the grid)
      changes nothing. */
  lemma FillFromOtherColor(g: Grid, s: Coord, oldColor: Color, newColor: Color)
    requires !(InRange(g, s) && ColorAt(g, s) == oldColor)
    ensures FloodFilled(g, s, oldColor, newColor) == g
  {
    var f := FloodFilled(g, s, oldColor, newColor);
    forall i, j | 0 <= i < |g| && 0 <= j < |g[i]|
      ensures f[i][j] == g[i][j]
    {
      if Reachable(g, oldColor, s, Coord(i, j)) {
        ReachableFromRegion(g, oldColor, s, Coord(i, j));
      }
    }
    GridsAgree(f, g);
  }

  /** Filling twice from the same cell with the same colours is filling once:
      after the first fill the start no longer holds `oldColor`. */
  lemma FillIdempotent(g: Grid, s: Coord, oldColor: Color, newColor: Color)
    ensures var g1 := FloodFilled(g, s, oldColor, newColor);
      FloodFilled(g1, s, oldColor, newColor) == g1
  {
    var g1 := FloodFilled(g, s, oldColor, newColor);
    if oldColor != newColor {
      if InRange(g, s) && ColorAt(g, s) == oldColor {
        FillFromOtherColor(g1, s, oldColor, newColor);
      } else {
        FillFromOtherColor(g, s, oldColor, newColor);
        FillFromOtherColor(g1, s, oldColor, newColor);
      }
    }
  }

  /** A second bucket click on the same cell, which takes that cell's current
      colour as `oldColor`, leaves the grid as the first click left it. */
  lemma SecondBucketFillIsNoOp(g: Grid, s: Coord, newColor: Color)
    requires InRange(g, s)
    ensures var g1 := FloodFilled(g, s, ColorAt(g, s), newColor);
      InRange(g1, s) && FloodFilled(g1, s, ColorAt(g1, s), newColor) == g1
  {
  }

  /** Containment: a fill never crosses the border of a closed set that holds
      the start, such as a region fenced in by cells of other colours. */
  lemma FillStaysInside(g: Grid, s: Coord, oldColor: Color, newColor: Color, S: set<Coord>)
    requires s in S && Closed(g, oldColor, S)
    ensures var f := FloodFilled(g, s, oldColor, newColor);
      forall i, j :: 0 <= i < |g| && 0 <= j < |g[i]| && Coord(i, j) !in S ==> f[i][j] == g[i][j]
  {
    ReachableWithin(g, oldColor, s, S);
  }

  /** Four-way only: a start cell none of whose up/down/left/right neighbours
      holds `oldColor` is recoloured alone, even when diagonal neighbours hold
      `oldColor`. */
  lemma IsolatedCellFillsAlone(g: Grid, s: Coord, oldColor: Color, newColor: Color)
    requires forall q :: Adjacent(s, q) && InRange(g, q) ==> ColorAt(g, q) != oldColor
    ensures var f := FloodFilled(g, s, oldColor, newColor);
      forall i, j :: 0 <= i < |g| && 0 <= j < |g[i]| && Coord(i, j) != s ==> f[i][j] == g[i][j]
  {
    FillStaysInside(g, s, oldColor, newColor, {s});
  }
}
