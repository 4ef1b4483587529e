// The grid of a space map: opencog/spatial/LocalSpaceMap2D.cc:314-345, 383-464, 627-652, 962-965, 1025-1039.
module GridMaps {
  import opened Basics

  /** unsigned int. */
  type unsigned = x: int | 0 <= x < 0x1_0000_0000

  type Point = (real, real)

  type GridPoint = (unsigned, unsigned)

  function Abs(x: int): nat {
    if x < 0 then -x else x
  }

  /** How many rings a cell is away from another. */
  function RingsBetween(g: GridPoint, h: GridPoint): nat {
    var (dx, dy) := (Abs(g.0 - h.0), Abs(g.1 - h.1));
    if dx < dy then dy else dx
  }

  /** The square of the distance; it compares as the distance itself does. */
  function SquaredDistance(p: Point, q: Point): real {
    (p.0 - q.0) * (p.0 - q.0) + (p.1 - q.1) * (p.1 - q.1)
  }

  datatype LocalSpaceMap2D = LocalSpaceMap2D(xMin: real, xMax: real, xDim: unsigned, yMin: real, yMax: real,
                                             yDim: unsigned,
                                             grid: map<GridPoint, set<string>>)
  {
    /** A map has cells, and they have an extent. */
    predicate Valid() {
      xDim > 0 && yDim > 0 && xMin < xMax && yMin < yMax
    }

    function XGridWidth(): (w: real)
      requires Valid()
    {
      Width(xMin, xMax, xDim)
    }

    function YGridWidth(): (w: real)
      requires Valid()
    {
      Width(yMin, yMax, yDim)
    }

    predicate CoordinatesAreOnGrid(g: GridPoint) {
      g.0 < xDim && g.1 < yDim
    }

    predicate GridOccupied(g: GridPoint) {
      g in grid && grid[g] != {}
    }

    predicate GridIllegal(g: GridPoint) {
      GridOccupied(g) || !CoordinatesAreOnGrid(g)
    }

    function Snap(p: Point): (g: GridPoint)
      requires Valid()
      ensures CoordinatesAreOnGrid(g)
    {
      (SnapAxis(p.0, xMin, xMax, xDim), SnapAxis(p.1, yMin, yMax, yDim))
    }

    function Unsnap(g: GridPoint): Point
      requires Valid()
    {
      (Offset(g.0 as real + 0.5, XGridWidth()) + xMin, Offset(g.1 as real + 0.5, YGridWidth()) + yMin)
    }
  }

  /** The width of a cell along one axis. */
  function Width(min: real, max: real, dim: unsigned): (w: real)
    requires dim > 0 && min < max
    ensures w > 0.0
  {
    (max - min) / dim as real
  }

  /** How far c cells reach. */
  function Offset(c: real, w: real): real {
    c * w
  }

  /** How many cells reach that far. */
  function Cells(d: real, w: real): real
    requires w > 0.0
  {
    d / w
  }

  /** Snapping along one axis; a point outside goes to the cell at the border. */
  function SnapAxis(p: real, min: real, max: real, dim: unsigned): (g: unsigned)
    requires dim > 0 && min < max
    ensures g < dim
  {
    if p <= min then 0
    else if p >= max then dim - 1
    else
      var w := Width(min, max, dim);
      CellsInRange(p - min, min, max, dim);
      Cells(p - min, w).Floor
  }

  lemma ProductGrows(q: real, n: real, w: real)
    requires q >= n && w > 0.0
    ensures q * w >= n * w
  {
  }

  lemma WidthsFill(min: real, max: real, dim: unsigned)
    requires dim > 0 && min < max
    ensures Offset(dim as real, Width(min, max, dim)) == max - min
  {
  }

  lemma CellsOfOffset(c: real, w: real)
    requires w > 0.0
    ensures Cells(Offset(c, w), w) == c && Offset(Cells(c, w), w) == c
  {
  }

  lemma OffsetGrows(c: real, n: real, w: real)
    requires w > 0.0 && 0.0 <= c < n
    ensures 0.0 <= Offset(c, w) < Offset(n, w)
    ensures c > 0.0 ==> Offset(c, w) > 0.0
  {
  }

  lemma CellsInRange(d: real, min: real, max: real, dim: unsigned)
    requires dim > 0 && min < max && 0.0 < d < max - min
    ensures 0.0 <= Cells(d, Width(min, max, dim)) < dim as real
  {
    hide Width;
    var w := Width(min, max, dim);
    WidthsFill(min, max, dim);
    ProductGrows(if Cells(d, w) >= dim as real then Cells(d, w) else dim as real, dim as real, w);
  }

  lemma SnapOfCenter(g: unsigned, min: real, max: real, dim: unsigned)
    requires g < dim && min < max
    ensures SnapAxis(Offset(g as real + 0.5, Width(min, max, dim)) + min, min, max, dim) == g
  {
    hide Width;
    hide Offset;
    hide Cells;
    var (c, w) := (g as real + 0.5, Width(min, max, dim));
    WidthsFill(min, max, dim);
    OffsetGrows(c, dim as real, w);
    CellsOfOffset(c, w);
    assert Offset(c, w) + min - min == Offset(c, w) && c.Floor == g;
  }

  /** The center of a cell snaps back to that cell. */
  lemma SnapOfUnsnap(m: LocalSpaceMap2D, g: GridPoint)
    requires m.Valid() && m.CoordinatesAreOnGrid(g)
    ensures m.Snap(m.Unsnap(g)) == g
  {
    hide SnapAxis;
    hide Width;
    hide Offset;
    SnapOfCenter(g.0, m.xMin, m.xMax, m.xDim);
    SnapOfCenter(g.1, m.yMin, m.yMax, m.yDim);
  }

  /**
   * Where a point is along one axis: strictly inside a cell covers it, at or beyond a border the cell there is taken.
   */
  predicate Covers(g: unsigned, p: real, min: real, max: real, dim: unsigned)
    requires dim > 0 && min < max
  {
    if p <= min then g == 0
    else if p >= max then g == dim - 1
    else g as real * ((max - min) / dim as real) <= p - min < (g as real + 1.0) * ((max - min) / dim as real)
  }

  lemma SnapCovers(p: real, min: real, max: real, dim: unsigned)
    requires dim > 0 && min < max
    ensures Covers(SnapAxis(p, min, max, dim), p, min, max, dim)
  {
    hide Cells;
    hide Offset;
    hide Width;
    if min < p < max {
      var (w, d) := (Width(min, max, dim), p - min);
      var g := SnapAxis(p, min, max, dim);
      CellsInRange(d, min, max, dim);
      CellsReach(d, w);
      CellOrder(g as real, Cells(d, w), w);
      CellOrder(Cells(d, w), g as real + 1.0, w);
      CoversInside(g, p, min, max, dim);
    }
  }

  lemma CellsReach(d: real, w: real)
    requires w > 0.0
    ensures Offset(Cells(d, w), w) == d
  {
  }

  lemma CoversInside(g: unsigned, p: real, min: real, max: real, dim: unsigned)
    requires dim > 0 && min < p < max
    ensures Covers(g, p, min, max, dim)
       <==> Offset(g as real, Width(min, max, dim)) <= p - min < Offset(g as real + 1.0, Width(min, max, dim))
  {
  }

  lemma CellOrder(c: real, n: real, w: real)
    requires c <= n && w > 0.0
    ensures Offset(c, w) <= Offset(n, w) && (c < n ==> Offset(c, w) < Offset(n, w))
  {
  }

  predicate InCell(m: LocalSpaceMap2D, p: Point, g: GridPoint)
    requires m.Valid()
  {
    Covers(g.0, p.0, m.xMin, m.xMax, m.xDim) && Covers(g.1, p.1, m.yMin, m.yMax, m.yDim)
  }

  /** Snapping gives the cell a point is in, and no other one. */
  lemma SnapIsCell(m: LocalSpaceMap2D, p: Point, g: GridPoint)
    requires m.Valid()
    ensures m.Snap(p) == g <==> InCell(m, p, g)
  {
    hide SnapAxis;
    hide Covers;
    SnapCovers(p.0, m.xMin, m.xMax, m.xDim);
    SnapCovers(p.1, m.yMin, m.yMax, m.yDim);
    if InCell(m, p, g) {
      OneCell(g.0, m.Snap(p).0, p.0, m.xMin, m.xMax, m.xDim);
      OneCell(g.1, m.Snap(p).1, p.1, m.yMin, m.yMax, m.yDim);
    }
  }

  lemma OneCell(g: unsigned, h: unsigned, p: real, min: real, max: real, dim: unsigned)
    requires dim > 0 && min < max && Covers(g, p, min, max, dim) && Covers(h, p, min, max, dim)
    ensures g == h
  {
    if min < p < max {
      OneCellInside(g, h, p, min, max, dim);
    }
  }

  lemma OneCellInside(g: unsigned, h: unsigned, p: real, min: real, max: real, dim: unsigned)
    requires dim > 0 && min < p < max && Covers(g, p, min, max, dim) && Covers(h, p, min, max, dim)
    ensures g == h
  {
    hide Covers;
    hide Width;
    hide Offset;
    var w := Width(min, max, dim);
    CoversInside(g, p, min, max, dim);
    CoversInside(h, p, min, max, dim);
    if g < h {
      CellOrder(g as real + 1.0, h as real, w);
    } else if h < g {
      CellOrder(h as real + 1.0, g as real, w);
    }
  }

  /** The center of a cell is half way between its borders. */
  lemma UnsnapIsCenter(m: LocalSpaceMap2D, g: GridPoint)
    requires m.Valid()
    ensures var (w, h) := ((m.xMax - m.xMin) / m.xDim as real, (m.yMax - m.yMin) / m.yDim as real);
      && 2.0 * (m.Unsnap(g).0 - m.xMin) == g.0 as real * w + (g.0 as real + 1.0) * w
      && 2.0 * (m.Unsnap(g).1 - m.yMin) == g.1 as real * h + (g.1 as real + 1.0) * h
  {
    Center(g.0 as real, m.XGridWidth());
    Center(g.1 as real, m.YGridWidth());
  }

  lemma Center(c: real, w: real)
    ensures 2.0 * Offset(c + 0.5, w) == c * w + (c + 1.0) * w
  {
  }

  /** A cell is free when it is on the grid and no object is registered in it. */
  lemma FreeCells(m: LocalSpaceMap2D, g: GridPoint)
    ensures !m.GridIllegal(g) <==> g.0 < m.xDim && g.1 < m.yDim && forall id: string :: g in m.grid ==> id !in m.grid[g]
  {
    if g in m.grid && m.grid[g] != {} {
      var id :| id in m.grid[g];
    }
  }

  /** Rings are squares around a cell, and distances are straight lines. */
  lemma RingsAreSquares(g: GridPoint, h: GridPoint, r: nat)
    ensures RingsBetween(g, h) <= r <==> g.0 - r <= h.0 <= g.0 + r && g.1 - r <= h.1 <= g.1 + r
  {
  }

  lemma DistancesAreStraight(p: Point, dx: real, dy: real)
    ensures SquaredDistance(p, (p.0 + dx, p.1 + dy)) == dx * dx + dy * dy
  {
    assert p.0 - (p.0 + dx) == -dx && p.1 - (p.1 + dy) == -dy;
    assert (-dx) * (-dx) == dx * dx && (-dy) * (-dy) == dy * dy;
  }

  // ---------------------------------------------------------------- the search for a free cell

  /** A free cell, on the nearest ring that has one, and there closest to the point. */
  ghost predicate NearestFree(m: LocalSpaceMap2D, pt: Point, g: GridPoint)
    requires m.Valid()
  {
    && !m.GridIllegal(g)
    && (forall h: GridPoint :: !m.GridIllegal(h) ==> RingsBetween(m.Snap(pt), g) <= RingsBetween(m.Snap(pt), h))
    && (forall h: GridPoint :: !m.GridIllegal(h) && RingsBetween(m.Snap(pt), h) == RingsBetween(m.Snap(pt), g) ==>
          SquaredDistance(m.Unsnap(g), pt) <= SquaredDistance(m.Unsnap(h), pt))
  }

  /** The closest of the free cells among those visited. */
  ghost predicate Best(m: LocalSpaceMap2D, pt: Point, visited: set<GridPoint>, found: bool, nearest: Point,
                       distance: real)
    requires m.Valid()
  {
    && (!found ==> forall g <- visited :: m.GridIllegal(g))
    && (found ==> exists g <- visited ::
        !m.GridIllegal(g) && nearest == m.Unsnap(g) && distance == SquaredDistance(nearest, pt))
    && (found ==> forall g <- visited :: !m.GridIllegal(g) ==> distance <= SquaredDistance(m.Unsnap(g), pt))
  }

  method Visit(m: LocalSpaceMap2D, pt: Point, g: GridPoint, f: bool, n: Point, d: real, ghost visited: set<GridPoint>)
    returns (foundFreePoint: bool, nearestFreePoint: Point, nearestDistance: real)
    requires m.Valid() && Best(m, pt, visited, f, n, d)
    ensures Best(m, pt, visited + {g}, foundFreePoint, nearestFreePoint, nearestDistance)
  {
    foundFreePoint, nearestFreePoint, nearestDistance := f, n, d;
    if !m.GridIllegal(g) {
      var freePoint := m.Unsnap(g);
      var distance := SquaredDistance(freePoint, pt);
      if !foundFreePoint || distance < nearestDistance {
        nearestFreePoint := freePoint;
        nearestDistance := distance;
        foundFreePoint := true;
      }
    }
  }

  /** The cells of a column from one row to another. */
  ghost function Column(x: unsigned, lower: unsigned, upper: unsigned): set<GridPoint> {
    set y: unsigned | lower <= y <= upper :: (x, y)
  }

  ghost function Row(y: unsigned, lower: unsigned, upper: unsigned): set<GridPoint> {
    set x: unsigned | lower <= x <= upper :: (x, y)
  }

  method VisitColumn(m: LocalSpaceMap2D, pt: Point, x: unsigned, lower_y: unsigned, upper_y: unsigned,
                     f: bool, n: Point, d: real, ghost visited: set<GridPoint>)
    returns (foundFreePoint: bool, nearestFreePoint: Point, nearestDistance: real)
    requires m.Valid() && lower_y <= upper_y < m.yDim && Best(m, pt, visited, f, n, d)
    ensures Best(m, pt, visited + Column(x, lower_y, upper_y), foundFreePoint, nearestFreePoint, nearestDistance)
  {
    hide Best;
    foundFreePoint, nearestFreePoint, nearestDistance := f, n, d;
    var y: unsigned := lower_y;
    ghost var seen: set<GridPoint> := {};
    assert visited + seen == visited;
    while y <= upper_y
      invariant lower_y <= y <= upper_y + 1
      invariant forall g: GridPoint :: g in seen <==> g.0 == x && lower_y <= g.1 < y
      invariant Best(m, pt, visited + seen, foundFreePoint, nearestFreePoint, nearestDistance)
    {
      foundFreePoint, nearestFreePoint, nearestDistance :=
        Visit(m, pt, (x, y), foundFreePoint, nearestFreePoint, nearestDistance, visited + seen);
      assert visited + seen + {(x, y)} == visited + (seen + {(x, y)});
      seen := seen + {(x, y)};
      y := y + 1;
    }
    assert seen == Column(x, lower_y, upper_y);
  }

  method VisitRow(m: LocalSpaceMap2D, pt: Point, y: unsigned, lower_x: unsigned, upper_x: unsigned,
                  f: bool, n: Point, d: real, ghost visited: set<GridPoint>)
    returns (foundFreePoint: bool, nearestFreePoint: Point, nearestDistance: real)
    requires m.Valid() && lower_x <= upper_x < m.xDim && Best(m, pt, visited, f, n, d)
    ensures Best(m, pt, visited + Row(y, lower_x, upper_x), foundFreePoint, nearestFreePoint, nearestDistance)
  {
    hide Best;
    foundFreePoint, nearestFreePoint, nearestDistance := f, n, d;
    var x: unsigned := lower_x;
    ghost var seen: set<GridPoint> := {};
    assert visited + seen == visited;
    while x <= upper_x
      invariant lower_x <= x <= upper_x + 1
      invariant forall g: GridPoint :: g in seen <==> g.1 == y && lower_x <= g.0 < x
      invariant Best(m, pt, visited + seen, foundFreePoint, nearestFreePoint, nearestDistance)
    {
      foundFreePoint, nearestFreePoint, nearestDistance :=
        Visit(m, pt, (x, y), foundFreePoint, nearestFreePoint, nearestDistance, visited + seen);
      assert visited + seen + {(x, y)} == visited + (seen + {(x, y)});
      seen := seen + {(x, y)};
      x := x + 1;
    }
    assert seen == Row(y, lower_x, upper_x);
  }

  /** One ring around the start cell; stop when no part of it is on the grid. */
  method SearchRing(m: LocalSpaceMap2D, pt: Point, step: unsigned)
    returns (stop: bool, foundFreePoint: bool, nearestFreePoint: Point, nearestDistance: real,
             ghost ring: set<GridPoint>)
    requires m.Valid() && step > 0
    ensures Best(m, pt, ring, foundFreePoint, nearestFreePoint, nearestDistance)
    ensures forall g: GridPoint :: g in ring <==> m.CoordinatesAreOnGrid(g) && RingsBetween(m.Snap(pt), g) == step
    ensures stop ==> !foundFreePoint && forall g: GridPoint :: m.CoordinatesAreOnGrid(g) ==>
      RingsBetween(m.Snap(pt), g) < step
  {
    hide Best;
    hide SnapAxis;
    stop, foundFreePoint, nearestFreePoint, nearestDistance, ring := false, false, (0.0, 0.0), 0.0, {};
    NoneIsBest(m, pt, nearestFreePoint, nearestDistance);
    var gp := m.Snap(pt);
    var valid_lower_x := step <= gp.0;
    var valid_lower_y := step <= gp.1;
    var valid_upper_x := step < m.xDim - gp.0;
    var valid_upper_y := step < m.yDim - gp.1;
    if !valid_lower_x && !valid_lower_y && !valid_upper_x && !valid_upper_y {
      return true, foundFreePoint, nearestFreePoint, nearestDistance, ring;
    }
    var lower_x: unsigned := if valid_lower_x then gp.0 - step else 0;
    var lower_y: unsigned := if valid_lower_y then gp.1 - step else 0;
    var upper_x: unsigned := if valid_upper_x then gp.0 + step else m.xDim - 1;
    var upper_y: unsigned := if valid_upper_y then gp.1 + step else m.yDim - 1;
    if valid_lower_x {
      foundFreePoint, nearestFreePoint, nearestDistance :=
        VisitColumn(m, pt, lower_x, lower_y, upper_y, foundFreePoint, nearestFreePoint, nearestDistance, ring);
      ring := ring + Column(lower_x, lower_y, upper_y);
    }
    if valid_lower_y {
      foundFreePoint, nearestFreePoint, nearestDistance :=
        VisitRow(m, pt, lower_y, lower_x, upper_x, foundFreePoint, nearestFreePoint, nearestDistance, ring);
      ring := ring + Row(lower_y, lower_x, upper_x);
    }
    if valid_upper_x {
      foundFreePoint, nearestFreePoint, nearestDistance :=
        VisitColumn(m, pt, upper_x, lower_y, upper_y, foundFreePoint, nearestFreePoint, nearestDistance, ring);
      ring := ring + Column(upper_x, lower_y, upper_y);
    }
    if valid_upper_y {
      foundFreePoint, nearestFreePoint, nearestDistance :=
        VisitRow(m, pt, upper_y, lower_x, upper_x, foundFreePoint, nearestFreePoint, nearestDistance, ring);
      ring := ring + Row(upper_y, lower_x, upper_x);
    }
  }

  lemma NoneIsBest(m: LocalSpaceMap2D, pt: Point, n: Point, d: real)
    requires m.Valid()
    ensures Best(m, pt, {}, false, n, d)
  {
  }

  /** The best of the first ring with a free cell is what was looked for. */
  lemma RingIsNearest(m: LocalSpaceMap2D, pt: Point, ring: set<GridPoint>, step: nat, nearest: Point, distance: real)
    requires m.Valid() && Best(m, pt, ring, true, nearest, distance)
    requires forall g: GridPoint :: g in ring <==> m.CoordinatesAreOnGrid(g) && RingsBetween(m.Snap(pt), g) == step
    requires forall g: GridPoint :: RingsBetween(m.Snap(pt), g) < step ==> m.GridIllegal(g)
    ensures exists g: GridPoint :: NearestFree(m, pt, g) && nearest == m.Unsnap(g)
  {
    hide SnapAxis;
    hide SquaredDistance;
    var g :| g in ring && !m.GridIllegal(g) && nearest == m.Unsnap(g) && distance == SquaredDistance(nearest, pt);
    assert NearestFree(m, pt, g);
  }

  lemma NoneFree(m: LocalSpaceMap2D, pt: Point, ring: set<GridPoint>, nearest: Point, distance: real)
    requires m.Valid() && Best(m, pt, ring, false, nearest, distance)
    ensures forall g <- ring :: m.GridIllegal(g)
  {
  }

  lemma ThatIsFree(m: LocalSpaceMap2D, pt: Point)
    requires m.Valid()
    ensures forall g: GridPoint :: NearestFree(m, pt, g) ==> !m.GridIllegal(g)
  {
  }

  /** None when there is no free cell, where the original throws. */
  method GetNearestFreePoint(m: LocalSpaceMap2D, pt: Point) returns (r: Option<Point>)
    requires m.Valid()
    ensures InCell(m, pt, m.Snap(pt))
    ensures !m.GridIllegal(m.Snap(pt)) ==> r == Some(pt)
    ensures m.GridIllegal(m.Snap(pt)) && r.Some? ==>
      exists g: GridPoint :: NearestFree(m, pt, g) && r.value == m.Unsnap(g)
    ensures r.None? <==> forall g: GridPoint :: m.GridIllegal(g)
  {
    hide SnapAxis;
    hide Best;
    hide NearestFree;
    hide InCell;
    SnapIsCell(m, pt, m.Snap(pt));
    var gp := m.Snap(pt);
    if !m.GridIllegal(gp) {
      return Some(pt);
    }
    var foundFreePoint := false;
    var nearestFreePoint := (0.0, 0.0);
    var limit := if m.xDim < m.yDim then m.yDim else m.xDim;
    var step: unsigned := 1;
    while !foundFreePoint && step < limit
      invariant step >= 1
      invariant !foundFreePoint ==> forall g: GridPoint :: RingsBetween(gp, g) < step ==> m.GridIllegal(g)
      invariant foundFreePoint ==> exists g: GridPoint :: NearestFree(m, pt, g) && nearestFreePoint == m.Unsnap(g)
      decreases limit - step
    {
      var stop, nearestDistance;
      ghost var ring;
      stop, foundFreePoint, nearestFreePoint, nearestDistance, ring := SearchRing(m, pt, step);
      if stop {
        break;
      }
      if foundFreePoint {
        RingIsNearest(m, pt, ring, step, nearestFreePoint, nearestDistance);
      } else {
        NoneFree(m, pt, ring, nearestFreePoint, nearestDistance);
      }
      step := step + 1;
    }
    ThatIsFree(m, pt);
    r := if foundFreePoint then Some(nearestFreePoint) else None;
  }
}
