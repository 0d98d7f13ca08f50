/** The outline of a tray's base (buildPerimeter and the choice of footprint
    in buildBase of src/BaseBuilder.js): a walk around the grid's edge cells,
    or the slot centres in support mode, and an extruded polygon through that
    walk or a bounding box when the walk has too few points. The solid
    geometry (extrusion, hole cutting) is not part of this model. */
module BaseBuilder {
  import opened Tray

  // ---------------------------------------------------------------------------
  // Cell lookup
  // ---------------------------------------------------------------------------

  /** A (row, column) grid cell. */
  datatype Cell = Cell(row: int, col: int)

  predicate AtCell(s: Slot, cell: Cell) {
    s.row == cell.row && s.col == cell.col
  }

  /** `getIndex(r, c)`: the first slot at the cell, as `Array.prototype.find`
      returns it. */
  function FindCell(circles: seq<Slot>, cell: Cell): (found: Option<Slot>)
    ensures found.None? <==> forall i | 0 <= i < |circles| :: !AtCell(circles[i], cell)
    ensures found.Some? ==> exists i | 0 <= i < |circles| :: circles[i] == found.value && AtCell(circles[i], cell) &&
                                                              forall j | 0 <= j < i :: !AtCell(circles[j], cell)
  {
    if circles == [] then None
    else if AtCell(circles[0], cell) then Some(circles[0])
    else
      var rest := FindCell(circles[1..], cell);
      assert forall j | 1 <= j < |circles| :: circles[j] == circles[1..][j - 1];
      rest
  }

  /** The positions of the slots found at the cells, in cell order; a cell
      with no slot contributes nothing. */
  function Lookups(circles: seq<Slot>, cells: seq<Cell>): (path: seq<Point>)
    ensures |path| <= |cells|
  {
    if cells == [] then []
    else
      var init := Lookups(circles, cells[..|cells| - 1]);
      match FindCell(circles, cells[|cells| - 1])
      case Some(s) => init + [s.position]
      case None => init
  }

  /** Every point of a walk is the position of a slot at one of its cells;
      when every cell has a slot, the walk has one point per cell, the
      position of the first slot at that cell. */
  lemma {:induction false} LookupsProperties(circles: seq<Slot>, cells: seq<Cell>)
    ensures forall p | p in Lookups(circles, cells) ::
              exists i, k | 0 <= i < |circles| && 0 <= k < |cells| :: circles[i].position == p && AtCell(circles[i], cells[k])
    ensures (forall k | 0 <= k < |cells| :: FindCell(circles, cells[k]).Some?) ==>
              && |Lookups(circles, cells)| == |cells|
              && forall k | 0 <= k < |cells| :: Lookups(circles, cells)[k] == FindCell(circles, cells[k]).value.position
  {
    if cells != [] {
      var init := cells[..|cells| - 1];
      var last := cells[|cells| - 1];
      LookupsProperties(circles, init);
      var path := Lookups(circles, cells);
      var prev := Lookups(circles, init);
      forall p | p in path
        ensures exists i, k | 0 <= i < |circles| && 0 <= k < |cells| :: circles[i].position == p && AtCell(circles[i], cells[k])
      {
        if p in prev {
          var i, k :| 0 <= i < |circles| && 0 <= k < |init| && circles[i].position == p && AtCell(circles[i], init[k]);
          assert cells[k] == init[k];
        } else {
          var i :| 0 <= i < |circles| && circles[i] == FindCell(circles, last).value && AtCell(circles[i], last);
          assert AtCell(circles[i], cells[|cells| - 1]);
        }
      }
      if forall k | 0 <= k < |cells| :: FindCell(circles, cells[k]).Some? {
        assert forall k | 0 <= k < |init| :: init[k] == cells[k];
        assert FindCell(circles, last).Some?;
      }
    }
  }

  // ---------------------------------------------------------------------------
  // The four legs of the grid walk
  // ---------------------------------------------------------------------------

  /** The number of iterations of a loop that counts up to `n` from 0. */
  function Count(n: int): nat {
    if n < 0 then 0 else n
  }

  /** Top leg: row 0, columns 0 to cols - 1. */
  function TopLeg(cols: int): seq<Cell> {
    seq(Count(cols), c => Cell(0, c))
  }

  /** The right leg's column in row `r`: the last column, or the one before
      it on odd rows whenever the stray slot is set. */
  function RightColumn(cols: int, straySlot: bool, r: int): int {
    cols - (if straySlot && r % 2 == 1 then 2 else 1)
  }

  /** Right leg: rows 1 to rows - 1 at the right column. */
  function RightLeg(rows: int, cols: int, straySlot: bool): seq<Cell> {
    seq(Count(rows - 1), i => Cell(i + 1, RightColumn(cols, straySlot, i + 1)))
  }

  /** Bottom leg: row rows - 1, columns cols - 2 down to 0. */
  function BottomLeg(rows: int, cols: int): seq<Cell> {
    seq(Count(cols - 1), i => Cell(rows - 1, cols - 2 - i))
  }

  /** Left leg: column 0, rows rows - 2 down to 1. */
  function LeftLeg(rows: int): seq<Cell> {
    seq(Count(rows - 2), i => Cell(rows - 2 - i, 0))
  }

  /** The cells the grid walk visits, leg by leg. */
  function WalkCells(rows: int, cols: int, straySlot: bool): seq<Cell> {
    TopLeg(cols) + RightLeg(rows, cols, straySlot) + BottomLeg(rows, cols) + LeftLeg(rows)
  }

  /** The perimeter buildPerimeter returns: in support mode the origin (circle
      mode only) and every slot centre in order; otherwise the walk. */
  function Perimeter(circles: seq<Slot>, rows: int, cols: int, straySlot: bool, supportEnabled: bool, mode: SupportMode): seq<Point> {
    if supportEnabled then
      (if mode == CircleMode then [Origin] else []) + Positions(circles)
    else
      Lookups(circles, TopLeg(cols)) + Lookups(circles, RightLeg(rows, cols, straySlot)) +
      Lookups(circles, BottomLeg(rows, cols)) + Lookups(circles, LeftLeg(rows))
  }

  /** Walking cells one after another is walking their concatenation. */
  lemma {:induction false} LookupsConcat(circles: seq<Slot>, a: seq<Cell>, b: seq<Cell>)
    ensures Lookups(circles, a + b) == Lookups(circles, a) + Lookups(circles, b)
  {
    if b != [] {
      var init := b[..|b| - 1];
      assert (a + b)[..|a + b| - 1] == a + init;
      assert (a + b)[|a + b| - 1] == b[|b| - 1];
      LookupsConcat(circles, a, init);
    } else {
      assert a + b == a;
    }
  }

  /** The grid walk is the walk over its cells: at most one point per cell,
      each the position of a slot at one of them, and one point per cell
      (the first slot's position) when every cell has a slot. */
  lemma PerimeterWalk(circles: seq<Slot>, rows: int, cols: int, straySlot: bool, mode: SupportMode)
    ensures var path := Perimeter(circles, rows, cols, straySlot, false, mode);
            var cells := WalkCells(rows, cols, straySlot);
            && path == Lookups(circles, cells)
            && |path| <= Count(cols) + Count(rows - 1) + Count(cols - 1) + Count(rows - 2)
            && (forall p | p in path ::
                  exists i, k | 0 <= i < |circles| && 0 <= k < |cells| :: circles[i].position == p && AtCell(circles[i], cells[k]))
            && ((forall k | 0 <= k < |cells| :: FindCell(circles, cells[k]).Some?) ==>
                  forall k | 0 <= k < |cells| :: k < |path| && path[k] == FindCell(circles, cells[k]).value.position)
  {
    var top := TopLeg(cols);
    var right := RightLeg(rows, cols, straySlot);
    var bottom := BottomLeg(rows, cols);
    var left := LeftLeg(rows);
    LookupsConcat(circles, top, right);
    LookupsConcat(circles, top + right, bottom);
    LookupsConcat(circles, top + right + bottom, left);
    LookupsProperties(circles, WalkCells(rows, cols, straySlot));
  }

  /** In support mode every perimeter point is a slot centre, except the
      origin that leads the walk in circle mode. */
  lemma PerimeterSupport(circles: seq<Slot>, rows: int, cols: int, straySlot: bool, mode: SupportMode)
    ensures var path := Perimeter(circles, rows, cols, straySlot, true, mode);
            && |path| == |circles| + (if mode == CircleMode then 1 else 0)
            && (mode == CircleMode ==> path[0] == Origin)
            && forall i | 0 <= i < |circles| :: path[i + |path| - |circles|] == circles[i].position
  {
  }

  // ---------------------------------------------------------------------------
  // buildPerimeter
  // ---------------------------------------------------------------------------

  /** Pushes the position of the first slot at the cell, if there is one: one
      iteration of a leg's loop. */
  method Visit(circles: seq<Slot>, perimeter: seq<Point>, ghost done: seq<Point>, ghost cells: seq<Cell>, k: nat, cell: Cell)
    returns (perimeter': seq<Point>)
    requires k < |cells| && cells[k] == cell
    requires perimeter == done + Lookups(circles, cells[..k])
    ensures perimeter' == done + Lookups(circles, cells[..k + 1])
  {
    assert cells[..k + 1][..k] == cells[..k];
    var circ := FindCell(circles, cell);
    perimeter' := perimeter;
    if circ.Some? {
      perimeter' := perimeter' + [circ.value.position];
    }
  }

  /** The top leg's loop: row 0, columns 0 to cols - 1. */
  method WalkTop(circles: seq<Slot>, cols: int, perimeter: seq<Point>) returns (perimeter': seq<Point>)
    ensures perimeter' == perimeter + Lookups(circles, TopLeg(cols))
  {
    ghost var top := TopLeg(cols);
    perimeter' := perimeter;
    var c := 0;
    while c < cols
      invariant 0 <= c <= Count(cols)
      invariant perimeter' == perimeter + Lookups(circles, top[..c])
    {
      perimeter' := Visit(circles, perimeter', perimeter, top, c, Cell(0, c));
      c := c + 1;
    }
    assert top[..c] == top;
  }

  /** The right leg's loop: rows 1 to rows - 1, at the last column or, on odd
      rows whenever the stray slot is set, the one before it. */
  method WalkRight(circles: seq<Slot>, rows: int, cols: int, straySlot: bool, perimeter: seq<Point>) returns (perimeter': seq<Point>)
    ensures perimeter' == perimeter + Lookups(circles, RightLeg(rows, cols, straySlot))
  {
    ghost var right := RightLeg(rows, cols, straySlot);
    perimeter' := perimeter;
    var r := 1;
    while r < rows
      invariant 1 <= r && r - 1 <= Count(rows - 1)
      invariant perimeter' == perimeter + Lookups(circles, right[..r - 1])
    {
      var isStagger := straySlot && r % 2 == 1;
      var cell := Cell(r, cols - (if isStagger then 2 else 1));
      assert cell == right[r - 1];
      perimeter' := Visit(circles, perimeter', perimeter, right, r - 1, cell);
      r := r + 1;
    }
    assert right[..r - 1] == right;
  }

  /** The bottom leg's loop: row rows - 1, columns cols - 2 down to 0. */
  method WalkBottom(circles: seq<Slot>, rows: int, cols: int, perimeter: seq<Point>) returns (perimeter': seq<Point>)
    ensures perimeter' == perimeter + Lookups(circles, BottomLeg(rows, cols))
  {
    ghost var bottom := BottomLeg(rows, cols);
    perimeter' := perimeter;
    var c := cols - 2;
    while c >= 0
      invariant 0 <= cols - 2 - c <= Count(cols - 1)
      invariant perimeter' == perimeter + Lookups(circles, bottom[..cols - 2 - c])
    {
      perimeter' := Visit(circles, perimeter', perimeter, bottom, cols - 2 - c, Cell(rows - 1, c));
      c := c - 1;
    }
    assert bottom[..cols - 2 - c] == bottom;
  }

  /** The left leg's loop: column 0, rows rows - 2 down to 1. */
  method WalkLeft(circles: seq<Slot>, rows: int, perimeter: seq<Point>) returns (perimeter': seq<Point>)
    ensures perimeter' == perimeter + Lookups(circles, LeftLeg(rows))
  {
    ghost var left := LeftLeg(rows);
    perimeter' := perimeter;
    var r := rows - 2;
    while r > 0
      invariant 0 <= rows - 2 - r <= Count(rows - 2)
      invariant perimeter' == perimeter + Lookups(circles, left[..rows - 2 - r])
    {
      perimeter' := Visit(circles, perimeter', perimeter, left, rows - 2 - r, Cell(r, 0));
      r := r - 1;
    }
    assert left[..rows - 2 - r] == left;
  }

  /** The support-mode loop: every slot centre, in order. */
  method PushCentres(circles: seq<Slot>, perimeter: seq<Point>) returns (perimeter': seq<Point>)
    ensures perimeter' == perimeter + Positions(circles)
  {
    perimeter' := perimeter;
    var i := 0;
    while i < |circles|
      invariant 0 <= i <= |circles|
      invariant perimeter' == perimeter + Positions(circles[..i])
    {
      PositionsSnoc(circles[..i], circles[i]);
      assert circles[..i + 1] == circles[..i] + [circles[i]];
      perimeter' := perimeter' + [circles[i].position];
      i := i + 1;
    }
    assert circles[..i] == circles;
  }

  /** buildPerimeter: the origin (circle support mode) and the slot centres in
      support mode; otherwise the four legs of the grid walk in turn. */
  method BuildPerimeter(circles: seq<Slot>, rows: int, cols: int, straySlot: bool, supportEnabled: bool, mode: SupportMode)
    returns (perimeter: seq<Point>)
    ensures perimeter == Perimeter(circles, rows, cols, straySlot, supportEnabled, mode)
  {
    perimeter := [];
    if supportEnabled {
      if mode == CircleMode {
        perimeter := perimeter + [Origin];
      }
      ghost var head := perimeter;
      assert head == if mode == CircleMode then [Origin] else [];
      perimeter := PushCentres(circles, perimeter);
    } else {
      perimeter := WalkTop(circles, cols, perimeter);
      assert perimeter == Lookups(circles, TopLeg(cols));
      perimeter := WalkRight(circles, rows, cols, straySlot, perimeter);
      perimeter := WalkBottom(circles, rows, cols, perimeter);
      perimeter := WalkLeft(circles, rows, perimeter);
    }
  }

  // ---------------------------------------------------------------------------
  // The footprint of the base
  // ---------------------------------------------------------------------------

  /** The axis-aligned bounds `Box3.setFromPoints` computes. */
  datatype Bounds = Bounds(min: Point, max: Point)

  function Min(a: real, b: real): real { if a < b then a else b }
  function Greater(a: real, b: real): real { if a < b then b else a }

  /** The bounds of a non-empty list of points, widened point by point. */
  function BoundsOf(points: seq<Point>): (b: Bounds)
    requires points != []
    ensures forall i | 0 <= i < |points| :: b.min.x <= points[i].x <= b.max.x && b.min.y <= points[i].y <= b.max.y
    ensures exists i | 0 <= i < |points| :: b.min.x == points[i].x
    ensures exists i | 0 <= i < |points| :: b.max.x == points[i].x
    ensures exists i | 0 <= i < |points| :: b.min.y == points[i].y
    ensures exists i | 0 <= i < |points| :: b.max.y == points[i].y
  {
    if |points| == 1 then Bounds(points[0], points[0])
    else
      var b := BoundsOf(points[..|points| - 1]);
      var p := points[|points| - 1];
      assert forall i | 0 <= i < |points| - 1 :: points[..|points| - 1][i] == points[i];
      Bounds(Point(Min(b.min.x, p.x), Min(b.min.y, p.y)), Point(Greater(b.max.x, p.x), Greater(b.max.y, p.y)))
  }

  /** What buildBase extrudes: the polygon through the perimeter, a box around
      the slot centres, or, with no slot at all, the zero-size box that an
      empty `Box3` yields. */
  datatype Footprint =
    | Polygon(outline: seq<Point>, depth: real)
    | Box(center: Point, sizeX: real, sizeY: real, depth: real)
    | EmptyBox(depth: real)

  /** The polygon when the perimeter has more than two points; otherwise the
      bounding box of the slot centres, centred at `min + size / 2`. */
  function ChooseFootprint(circles: seq<Slot>, outerPath: seq<Point>, depth: real): Footprint {
    if |outerPath| > 2 then Polygon(outerPath, depth)
    else if circles == [] then EmptyBox(depth)
    else
      var b := BoundsOf(Positions(circles));
      var sizeX := b.max.x - b.min.x;
      var sizeY := b.max.y - b.min.y;
      Box(Point(b.min.x + sizeX / 2.0, b.min.y + sizeY / 2.0), sizeX, sizeY, depth)
  }

  /** A polygon exactly when the perimeter has more than two points, through
      those points; otherwise a box of non-negative size holding every slot
      centre and touching the extreme one on each side. */
  lemma FootprintProperties(circles: seq<Slot>, outerPath: seq<Point>, depth: real)
    ensures var f := ChooseFootprint(circles, outerPath, depth);
            && (f.Polygon? <==> |outerPath| > 2)
            && (f.Polygon? ==> f.outline == outerPath)
            && (f.EmptyBox? <==> |outerPath| <= 2 && circles == [])
            && f.depth == depth
            && (f.Box? ==>
                  && 0.0 <= f.sizeX && 0.0 <= f.sizeY
                  && (forall i | 0 <= i < |circles| ::
                        && f.center.x - f.sizeX / 2.0 <= circles[i].position.x <= f.center.x + f.sizeX / 2.0
                        && f.center.y - f.sizeY / 2.0 <= circles[i].position.y <= f.center.y + f.sizeY / 2.0)
                  && (exists i | 0 <= i < |circles| :: circles[i].position.x == f.center.x - f.sizeX / 2.0)
                  && (exists i | 0 <= i < |circles| :: circles[i].position.x == f.center.x + f.sizeX / 2.0)
                  && (exists i | 0 <= i < |circles| :: circles[i].position.y == f.center.y - f.sizeY / 2.0)
                  && (exists i | 0 <= i < |circles| :: circles[i].position.y == f.center.y + f.sizeY / 2.0))
  {
    if |outerPath| <= 2 && circles != [] {
      var ps := Positions(circles);
      var b := BoundsOf(ps);
      assert forall i | 0 <= i < |circles| :: ps[i] == circles[i].position;
    }
  }
}
