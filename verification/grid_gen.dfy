/** The placement half of the GridGen component (src/GridGen.js): its own
    copies of the overlap and acceptance tests, the `addCircle` closure over
    the effect's `circles` and `points` arrays, the radial support-slot loop
    with its `onMaxReached` notice, the grid loops, and the selection of the
    edge circles from the row and column groups. */
module GridGen {
  import opened Tray
  import opened Squares
  import opened CirclePlacementUtils
  import opened PlacementSpec
  import CirclePlacement

  /** The component's props that the layout reads. */
  datatype Props = Props(
    baseWidth: real,
    edgeThickness: real,
    stagger: bool,
    rows: int,
    cols: int,
    gap: real,
    supportSlot: SupportSlot,
    straySlot: bool)

  function InsetRadius(p: Props): real {
    p.baseWidth / 2.0
  }

  function BorderWidth(p: Props): real {
    p.edgeThickness
  }

  /** The pitch of the grid, the same along both axes: GridGen has no
      stagger-dependent row pitch. */
  function Pitch(p: Props): real {
    InsetRadius(p) + BorderWidth(p) + InsetRadius(p) + p.gap
  }

  /** The record GridGen pushes: unlike the placement modules it carries no
      borderHeight. */
  datatype GridCircle = GridCircle(position: Point, insetRadius: real, borderWidth: real, row: int, col: int)

  function CirclePositions(cs: seq<GridCircle>): (ps: seq<Point>)
    ensures |ps| == |cs|
    ensures forall k | 0 <= k < |cs| :: ps[k] == cs[k].position
  {
    seq(|cs|, k requires 0 <= k < |cs| => cs[k].position)
  }

  lemma CirclePositionsSnoc(cs: seq<GridCircle>, c: GridCircle)
    ensures CirclePositions(cs + [c]) == CirclePositions(cs) + [c.position]
  {
    assert forall k | 0 <= k < |cs| + 1 :: CirclePositions(cs + [c])[k] == (CirclePositions(cs) + [c.position])[k];
  }

  function CircleOf(p: Props, c: Candidate): GridCircle {
    GridCircle(c.position, InsetRadius(p), BorderWidth(p), c.row, c.col)
  }

  function CirclesOf(p: Props, cs: seq<Candidate>): (circles: seq<GridCircle>)
    ensures |circles| == |cs|
    ensures forall k | 0 <= k < |cs| :: circles[k] == CircleOf(p, cs[k])
  {
    seq(|cs|, k requires 0 <= k < |cs| => CircleOf(p, cs[k]))
  }

  lemma CirclesOfPositions(p: Props, cs: seq<Candidate>)
    ensures CirclePositions(CirclesOf(p, cs)) == CandidatePositions(cs)
  {
    assert forall k | 0 <= k < |cs| :: CirclePositions(CirclesOf(p, cs))[k] == CandidatePositions(cs)[k];
  }

  lemma CirclesOfSnoc(p: Props, cs: seq<Candidate>, c: Candidate)
    ensures CirclesOf(p, cs + [c]) == CirclesOf(p, cs) + [CircleOf(p, c)]
  {
    assert forall k | 0 <= k < |cs| + 1 :: CirclesOf(p, cs + [c])[k] == (CirclesOf(p, cs) + [CircleOf(p, c)])[k];
  }

  /** Every record carries the component's inset radius and border width. */
  ghost predicate CarriesRadii(p: Props, circles: seq<GridCircle>) {
    forall k | 0 <= k < |circles| ::
      circles[k].insetRadius == InsetRadius(p) && circles[k].borderWidth == BorderWidth(p)
  }

  // ---------------------------------------------------------------------------
  // The local canAddCircle and addCircle
  // ---------------------------------------------------------------------------

  /** GridGen's own canAddCircle, reading the props from the closure: it
      accepts exactly what the shared acceptance test accepts, against the
      positions of the records placed so far. */
  method CanAddCircle(p: Props, x: real, y: real, row: int, col: int, circles: seq<GridCircle>) returns (ok: bool)
    ensures ok <==> Admissible(Point(x, y), CirclePositions(circles), InsetRadius(p), BorderWidth(p), p.supportSlot)
  {
    var r, bw, s := InsetRadius(p), BorderWidth(p), p.supportSlot;
    var position := Point(x, y);
    var i := 0;
    while i < |circles|
      invariant 0 <= i <= |circles|
      invariant forall j | 0 <= j < i :: !AreInsetAreasOverlapping(position, CirclePositions(circles)[j], r, r)
    {
      if AreInsetAreasOverlapping(position, circles[i].position, r, r) {
        return false;
      }
      i := i + 1;
    }
    if s.enabled {
      var insetIntersectsOval := DoesInsetAreaIntersectOval(position, Origin, r + bw, s.length, s.width);
      if insetIntersectsOval {
        return false;
      }
      var outerIntersectsOval := DoesInsetAreaIntersectOval(position, Origin, r + bw, s.length, s.width);
      if outerIntersectsOval {
        return false;
      }
    }
    return true;
  }

  /** The `addCircle` closure: it pushes the record and the point when the
      candidate passes, and otherwise changes nothing; it returns nothing. */
  method AddCircle(p: Props, circles: seq<GridCircle>, points: seq<Point>, x: real, y: real, row: int, col: int)
    returns (circles': seq<GridCircle>, points': seq<Point>)
    ensures var ok := Admissible(Point(x, y), CirclePositions(circles), InsetRadius(p), BorderWidth(p), p.supportSlot);
            && circles' == (if ok then circles + [GridCircle(Point(x, y), InsetRadius(p), BorderWidth(p), row, col)] else circles)
            && points' == (if ok then points + [Point(x, y)] else points)
  {
    var ok := CanAddCircle(p, x, y, row, col, circles);
    if !ok {
      return circles, points;
    }
    circles' := circles + [GridCircle(Point(x, y), InsetRadius(p), BorderWidth(p), row, col)];
    points' := points + [Point(x, y)];
  }

  /** One addCircle call, seen from the fold of the acceptance test: the
      records after the call are those of the fold of `cands[..k + 1]`. */
  method PlaceCandidate(p: Props, circles: seq<GridCircle>, points: seq<Point>, ghost cands: seq<Candidate>,
                        ghost k: int, ghost acc: seq<Candidate>, x: real, y: real, row: int, col: int)
    returns (circles': seq<GridCircle>, points': seq<Point>, ghost acc': seq<Candidate>)
    requires 0 <= k < |cands|
    requires cands[k] == Candidate(Point(x, y), row, col)
    requires acc == Accepted(cands[..k], InsetRadius(p), BorderWidth(p), p.supportSlot)
    requires circles == CirclesOf(p, acc)
    requires points == CirclePositions(circles)
    ensures acc' == Accepted(cands[..k + 1], InsetRadius(p), BorderWidth(p), p.supportSlot)
    ensures circles' == CirclesOf(p, acc')
    ensures points' == CirclePositions(circles')
  {
    ghost var c := cands[k];
    assert cands[..k + 1] == cands[..k] + [c];
    circles', points' := AddCircle(p, circles, points, x, y, row, col);
    AcceptedSnoc(cands[..k], c, InsetRadius(p), BorderWidth(p), p.supportSlot);
    CirclesOfPositions(p, acc);
    CirclesOfSnoc(p, acc, c);
    CirclePositionsSnoc(circles, CircleOf(p, c));
    acc' := if Admissible(c.position, CandidatePositions(acc), InsetRadius(p), BorderWidth(p), p.supportSlot) then acc + [c] else acc;
  }

  // ---------------------------------------------------------------------------
  // Grid mode
  // ---------------------------------------------------------------------------

  /** GridGen's column count: with straySlot, staggered rows drop a column and
      the others keep `cols`; without it every row keeps `cols`. This is the
      same count the placement modules use. */
  lemma RowColumnsAgree(cols: int, stagger: bool, straySlot: bool, row: int)
    ensures (if straySlot then (if stagger && row % 2 == 1 then cols - 1 else cols) else cols)
            == EffectiveCols(cols, stagger, straySlot, row)
    ensures !straySlot ==> EffectiveCols(cols, stagger, straySlot, row) == cols
  {
  }

  /** The body of the column loop: addCircle at cell `col` of a row whose
      cells follow the candidates `done` of the rows before it. */
  method PlaceCell(p: Props, circles: seq<GridCircle>, points: seq<Point>, ghost done: seq<Candidate>,
                   ghost cells: seq<Candidate>, col: int, ghost acc: seq<Candidate>, x: real, y: real, row: int)
    returns (circles': seq<GridCircle>, points': seq<Point>, ghost acc': seq<Candidate>)
    requires 0 <= col < |cells|
    requires cells[col] == Candidate(Point(x, y), row, col)
    requires acc == Accepted(done + cells[..col], InsetRadius(p), BorderWidth(p), p.supportSlot)
    requires circles == CirclesOf(p, acc)
    requires points == CirclePositions(circles)
    ensures acc' == Accepted(done + cells[..col + 1], InsetRadius(p), BorderWidth(p), p.supportSlot)
    ensures circles' == CirclesOf(p, acc')
    ensures points' == CirclePositions(circles')
  {
    ghost var cands := done + cells;
    assert cands[..|done| + col] == done + cells[..col];
    assert cands[..|done| + col + 1] == done + cells[..col + 1];
    circles', points', acc' := PlaceCandidate(p, circles, points, cands, |done| + col, acc, x, y, row, col);
  }

  /** The column loop of one row. */
  method PlaceRow(p: Props, row: int, effectiveCols: int, xOffset: real, yOffset: real,
                  circles: seq<GridCircle>, points: seq<Point>, ghost done: seq<Candidate>)
    returns (circles': seq<GridCircle>, points': seq<Point>)
    requires circles == CirclesOf(p, Accepted(done, InsetRadius(p), BorderWidth(p), p.supportSlot))
    requires points == CirclePositions(circles)
    ensures circles' == CirclesOf(p, Accepted(done + RowCandidates(row, effectiveCols, xOffset, yOffset, p.stagger),
                                              InsetRadius(p), BorderWidth(p), p.supportSlot))
    ensures points' == CirclePositions(circles')
  {
    ghost var cells := RowCandidates(row, effectiveCols, xOffset, yOffset, p.stagger);
    ghost var acc := Accepted(done, InsetRadius(p), BorderWidth(p), p.supportSlot);
    assert done + cells[..0] == done;
    circles', points' := circles, points;
    var col := 0;
    while col < effectiveCols
      invariant 0 <= col <= |cells|
      invariant acc == Accepted(done + cells[..col], InsetRadius(p), BorderWidth(p), p.supportSlot)
      invariant circles' == CirclesOf(p, acc)
      invariant points' == CirclePositions(circles')
    {
      var x := GridX(col, row, xOffset, p.stagger);
      var y := row as real * yOffset;
      circles', points', acc := PlaceCell(p, circles', points', done, cells, col, acc, x, y, row);
      col := col + 1;
    }
    assert cells[..col] == cells;
  }

  /** The body of the row loop: one more row of addCircle calls. */
  method PlaceGridRow(p: Props, xOffset: real, yOffset: real, row: int, circles: seq<GridCircle>, points: seq<Point>)
    returns (circles': seq<GridCircle>, points': seq<Point>)
    requires 0 <= row
    requires circles == CirclesOf(p, Accepted(GridCandidates(row, p.cols, xOffset, yOffset, p.stagger, p.straySlot),
                                              InsetRadius(p), BorderWidth(p), p.supportSlot))
    requires points == CirclePositions(circles)
    ensures circles' == CirclesOf(p, Accepted(GridCandidates(row + 1, p.cols, xOffset, yOffset, p.stagger, p.straySlot),
                                              InsetRadius(p), BorderWidth(p), p.supportSlot))
    ensures points' == CirclePositions(circles')
  {
    var isStaggeredRow := p.stagger && row % 2 == 1;
    var effectiveCols := if p.straySlot then (if isStaggeredRow then p.cols - 1 else p.cols) else p.cols;
    RowColumnsAgree(p.cols, p.stagger, p.straySlot, row);
    GridCandidatesNextRow(row, p.cols, xOffset, yOffset, p.stagger, p.straySlot);
    circles', points' := PlaceRow(p, row, effectiveCols, xOffset, yOffset, circles, points,
                                  GridCandidates(row, p.cols, xOffset, yOffset, p.stagger, p.straySlot));
  }

  /** The grid loops: the records are the fold of addCircle over the grid
      candidates, laid out with the same pitch along both axes. */
  method GridPass(p: Props) returns (circles: seq<GridCircle>, points: seq<Point>)
    ensures circles == CirclesOf(p, Accepted(GridCandidates(p.rows, p.cols, Pitch(p), Pitch(p), p.stagger, p.straySlot),
                                             InsetRadius(p), BorderWidth(p), p.supportSlot))
    ensures points == CirclePositions(circles)
  {
    var xOffset := Pitch(p);
    var yOffset := xOffset;
    circles, points := [], [];
    var row := 0;
    while row < p.rows
      invariant 0 <= row && (row <= p.rows || row == 0)
      invariant circles == CirclesOf(p, Accepted(GridCandidates(row, p.cols, xOffset, yOffset, p.stagger, p.straySlot),
                                                 InsetRadius(p), BorderWidth(p), p.supportSlot))
      invariant points == CirclePositions(circles)
    {
      circles, points := PlaceGridRow(p, xOffset, yOffset, row, circles, points);
      row := row + 1;
    }
    if row != p.rows {
      // no rows at all: both candidate lists are empty
      assert GridCandidates(p.rows, p.cols, xOffset, yOffset, p.stagger, p.straySlot) == [];
    }
  }

  /** Any fold of addCircle is well placed and carries the radii. */
  lemma FoldWellPlaced(p: Props, cands: seq<Candidate>)
    ensures WellPlaced(CirclePositions(CirclesOf(p, Accepted(cands, InsetRadius(p), BorderWidth(p), p.supportSlot))),
                       InsetRadius(p), BorderWidth(p), p.supportSlot)
    ensures CarriesRadii(p, CirclesOf(p, Accepted(cands, InsetRadius(p), BorderWidth(p), p.supportSlot)))
  {
    AcceptedWellPlaced(cands, InsetRadius(p), BorderWidth(p), p.supportSlot);
    CirclesOfPositions(p, Accepted(cands, InsetRadius(p), BorderWidth(p), p.supportSlot));
  }

  // ---------------------------------------------------------------------------
  // Radial support-slot mode
  // ---------------------------------------------------------------------------

  /** The inner `for ... of circles` loop of the radial mode, which stops at
      the first earlier record whose disc at radius r + bw overlaps the
      candidate's disc at radius r. */
  method OverlapScan(position: Point, circles: seq<GridCircle>, r: real, bw: real) returns (overlaps: bool)
    ensures overlaps <==> CirclePlacement.AnyOverlap(position, CirclePositions(circles), r, bw)
  {
    overlaps := false;
    var i := 0;
    while i < |circles|
      invariant 0 <= i <= |circles|
      invariant forall j | 0 <= j < i :: !AreInsetAreasOverlapping(position, CirclePositions(circles)[j], r, r + bw)
    {
      if AreInsetAreasOverlapping(position, circles[i].position, r, r + bw) {
        overlaps := true;
        assert AreInsetAreasOverlapping(position, CirclePositions(circles)[i], r, r + bw);
        break;
      }
      i := i + 1;
    }
  }

  /** What the radial loop keeps, as in the placement modules: the records so
      far are well placed and radially clear, carry the radii, sit in row 0
      with strictly increasing columns below `added`, and with non-negative
      radii every accepted candidate was pushed, record k in column k. */
  ghost predicate RadialInvariant(p: Props, circles: seq<GridCircle>, added: int) {
    var r, bw, s := InsetRadius(p), BorderWidth(p), p.supportSlot;
    && 0 <= added
    && |circles| <= added
    && WellPlaced(CirclePositions(circles), r, bw, s)
    && CirclePlacement.RadiallyClear(CirclePositions(circles), r, bw, s)
    && CarriesRadii(p, circles)
    && (forall k | 0 <= k < |circles| :: circles[k].row == 0 && 0 <= circles[k].col < added)
    && (forall j, k | 0 <= j < k < |circles| :: circles[j].col < circles[k].col)
    && (0.0 <= r && 0.0 <= bw ==> |circles| == added && forall k | 0 <= k < |circles| :: circles[k].col == k)
  }

  /** One accepted candidate, handed to addCircle with column `added`, keeps
      the invariant with `added` one larger. */
  lemma RadialStep(p: Props, circles: seq<GridCircle>, added: int, q: Point)
    requires RadialInvariant(p, circles, added)
    requires !CirclePlacement.AnyOverlap(q, CirclePositions(circles), InsetRadius(p), BorderWidth(p))
    requires !DoesInsetAreaIntersectOval(q, Origin, InsetRadius(p), p.supportSlot.length, p.supportSlot.width)
    requires !DoesInsetAreaIntersectOval(q, Origin, InsetRadius(p) + BorderWidth(p), p.supportSlot.length, p.supportSlot.width)
    ensures var ok := Admissible(q, CirclePositions(circles), InsetRadius(p), BorderWidth(p), p.supportSlot);
            RadialInvariant(p, if ok then circles + [GridCircle(q, InsetRadius(p), BorderWidth(p), 0, added)] else circles, added + 1)
  {
    var r, bw, s := InsetRadius(p), BorderWidth(p), p.supportSlot;
    if Admissible(q, CirclePositions(circles), r, bw, s) {
      var c := GridCircle(q, r, bw, 0, added);
      var circles' := circles + [c];
      CirclePositionsSnoc(circles, c);
      WellPlacedAppend(CirclePositions(circles), q, r, bw, s);
      CirclePlacement.RadiallyClearAppend(CirclePositions(circles), q, r, bw, s);
      assert forall k | 0 <= k < |circles'| :: circles'[k] == if k < |circles| then circles[k] else c;
      assert CarriesRadii(p, circles');
      assert forall k | 0 <= k < |circles'| :: circles'[k].row == 0 && 0 <= circles'[k].col < added + 1;
      assert forall j, k | 0 <= j < k < |circles'| :: circles'[j].col < circles'[k].col;
      assert RadialInvariant(p, circles', added + 1);
    } else {
      if 0.0 <= r && 0.0 <= bw {
        CirclePlacement.RadialTestImpliesAdmissible(q, CirclePositions(circles), r, bw, s);
      }
      assert RadialInvariant(p, circles, added + 1);
    }
  }

  /** The ellipse of the effect: semi-axes length/2 + r + 2 and
      width/2 + r + 2, walked with GridGen's own radii. */
  function GridWalker(p: Props): CirclePlacement.Walker {
    var s := p.supportSlot;
    CirclePlacement.Walker((s.length / 2.0) + InsetRadius(p) + 2.0, (s.width / 2.0) + InsetRadius(p) + 2.0,
                           InsetRadius(p), BorderWidth(p), s)
  }

  /** The records addCircle pushes for the turns: the point on the ellipse,
      the radii, row 0 and the turn's column. */
  function RadialCircles(m: Math, p: Props, pushed: seq<CirclePlacement.Turn>): (circles: seq<GridCircle>)
    ensures |circles| == |pushed|
    ensures forall k | 0 <= k < |pushed| ::
              circles[k] == GridCircle(CirclePlacement.EllipseAt(m, GridWalker(p), pushed[k].angle),
                                       InsetRadius(p), BorderWidth(p), 0, pushed[k].col)
  {
    seq(|pushed|, k requires 0 <= k < |pushed| =>
      GridCircle(CirclePlacement.EllipseAt(m, GridWalker(p), pushed[k].angle), InsetRadius(p), BorderWidth(p), 0, pushed[k].col))
  }

  lemma RadialCirclesPositions(m: Math, p: Props, pushed: seq<CirclePlacement.Turn>)
    ensures CirclePositions(RadialCircles(m, p, pushed)) == CirclePlacement.TurnPoints(m, GridWalker(p), pushed)
  {
    assert forall k | 0 <= k < |pushed| ::
      CirclePositions(RadialCircles(m, p, pushed))[k] == CirclePlacement.TurnPoints(m, GridWalker(p), pushed)[k];
  }

  lemma RadialCirclesSnoc(m: Math, p: Props, pushed: seq<CirclePlacement.Turn>, t: CirclePlacement.Turn)
    ensures RadialCircles(m, p, pushed + [t])
            == RadialCircles(m, p, pushed)
               + [GridCircle(CirclePlacement.EllipseAt(m, GridWalker(p), t.angle), InsetRadius(p), BorderWidth(p), 0, t.col)]
  {
    var tail := GridCircle(CirclePlacement.EllipseAt(m, GridWalker(p), t.angle), InsetRadius(p), BorderWidth(p), 0, t.col);
    assert forall k | 0 <= k < |pushed| + 1 ::
      RadialCircles(m, p, pushed + [t])[k] == (RadialCircles(m, p, pushed) + [tail])[k];
  }

  /** One iteration keeps the loop invariant on the records it yields. */
  lemma AdvanceKeepsInvariant(m: Math, p: Props, st: CirclePlacement.Radial)
    requires RadialInvariant(p, RadialCircles(m, p, st.pushed), st.added)
    ensures RadialInvariant(p, RadialCircles(m, p, CirclePlacement.Advance(m, GridWalker(p), st).pushed),
                            CirclePlacement.Advance(m, GridWalker(p), st).added)
  {
    var w := GridWalker(p);
    var circles := RadialCircles(m, p, st.pushed);
    RadialCirclesPositions(m, p, st.pushed);
    if CirclePlacement.Passes(m, w, st) {
      var q := CirclePlacement.EllipseAt(m, w, st.angle);
      RadialStep(p, circles, st.added, q);
      if Admissible(q, CirclePositions(circles), InsetRadius(p), BorderWidth(p), p.supportSlot) {
        RadialCirclesSnoc(m, p, st.pushed, CirclePlacement.Turn(st.angle, st.added));
      }
    }
  }

  /** One iteration of the effect's radial loop on the concrete arrays: it
      moves the loop's state exactly as the walk's Advance does and reports
      the break. */
  method RadialTurn(m: Math, p: Props, circles: seq<GridCircle>, points: seq<Point>, added: int, angle: real,
                    ghost pushed: seq<CirclePlacement.Turn>)
    returns (circles': seq<GridCircle>, points': seq<Point>, added': int, angle': real,
             ghost pushed': seq<CirclePlacement.Turn>, stalled: bool)
    requires circles == RadialCircles(m, p, pushed) && points == CirclePositions(circles)
    ensures CirclePlacement.Radial(pushed', added', angle') == CirclePlacement.Advance(m, GridWalker(p), CirclePlacement.Radial(pushed, added, angle))
    ensures stalled == CirclePlacement.Stalls(m, GridWalker(p), CirclePlacement.Radial(pushed, added, angle))
    ensures circles' == RadialCircles(m, p, pushed') && points' == CirclePositions(circles')
  {
    var r, bw, s := InsetRadius(p), BorderWidth(p), p.supportSlot;
    var w := GridWalker(p);
    var minSpacing := (2.0 * r) * 0.99;
    var position := CirclePlacement.EllipseAt(m, w, angle);
    var x, y := position.x, position.y;
    ghost var st := CirclePlacement.Radial(pushed, added, angle);
    RadialCirclesPositions(m, p, pushed);
    var overlaps := OverlapScan(position, circles, r, bw);
    var insetIntersects := DoesInsetAreaIntersectOval(position, Origin, r, s.length, s.width);
    var outerIntersects := DoesInsetAreaIntersectOval(position, Origin, r + bw, s.length, s.width);
    if !overlaps && !insetIntersects && !outerIntersects {
      assert CirclePlacement.Passes(m, w, st);
      circles', points' := AddCircle(p, circles, points, x, y, 0, added);
      if Admissible(position, CirclePositions(circles), r, bw, s) {
        CirclePositionsSnoc(circles, GridCircle(position, r, bw, 0, added));
        RadialCirclesSnoc(m, p, pushed, CirclePlacement.Turn(angle, added));
        pushed' := pushed + [CirclePlacement.Turn(angle, added)];
      } else {
        pushed' := pushed;
      }
      added' := added + 1;
      var speed := CirclePlacement.Speed(m, w, angle);
      stalled := speed == 0.0;
      angle' := if stalled then angle else angle + minSpacing / speed;
    } else {
      assert !CirclePlacement.Passes(m, w, st);
      circles', points', added', pushed', stalled := circles, points, added, pushed, false;
      angle' := angle + CirclePlacement.AngleNudge;
    }
  }

  /** The radial loop of the effect. Its records and its count are those of
      the walk from angle 0 with nothing placed, on the ellipse of semi-axes
      length/2 + r + 2 and width/2 + r + 2. */
  method RadialPass(m: Math, p: Props) returns (circles: seq<GridCircle>, points: seq<Point>, added: int)
    ensures circles == RadialCircles(m, p, CirclePlacement.Walk(m, GridWalker(p), CirclePlacement.RadialStart).pushed)
    ensures added == CirclePlacement.Walk(m, GridWalker(p), CirclePlacement.RadialStart).added
    ensures RadialInvariant(p, circles, added)
    ensures added <= p.supportSlot.count || added == 0
    ensures points == CirclePositions(circles)
  {
    var numCircles := p.supportSlot.count;
    ghost var w := GridWalker(p);
    circles, points := [], [];
    added := 0;
    var angle := 0.0;
    ghost var pushed: seq<CirclePlacement.Turn> := [];
    var stalled := false;
    while added < numCircles && angle < CirclePlacement.AngleLimit
      invariant circles == RadialCircles(m, p, pushed) && points == CirclePositions(circles)
      invariant RadialInvariant(p, circles, added)
      invariant added <= numCircles || added == 0
      invariant CirclePlacement.Walk(m, w, CirclePlacement.Radial(pushed, added, angle)) == CirclePlacement.Walk(m, w, CirclePlacement.RadialStart)
      decreases numCircles - added, ((CirclePlacement.AngleLimit - angle) / CirclePlacement.AngleNudge).Floor
    {
      ghost var before := CirclePlacement.Radial(pushed, added, angle);
      AdvanceKeepsInvariant(m, p, before);
      circles, points, added, angle, pushed, stalled := RadialTurn(m, p, circles, points, added, angle, pushed);
      if stalled {
        assert CirclePlacement.Walk(m, w, before) == CirclePlacement.Radial(pushed, added, angle);
        break;
      }
    }
  }

  /** What `onMaxReached` receives: nothing, or the number of slots added when
      that is below the requested count. */
  datatype Notice = NoNotice | MaxReached(added: int)

  /** The placement body of the effect: the radial walk whenever the support
      slot is enabled (GridGen has no oval mode), the grid loops otherwise.
      In the radial mode the origin is appended to the points and
      `onMaxReached(added)` is called exactly when the walk's count of
      accepted candidates is below `count`. */
  method Layout(m: Math, p: Props) returns (circles: seq<GridCircle>, points: seq<Point>, notice: Notice)
    ensures WellPlaced(CirclePositions(circles), InsetRadius(p), BorderWidth(p), p.supportSlot)
    ensures CarriesRadii(p, circles)
    ensures !p.supportSlot.enabled ==>
              && circles == CirclesOf(p, Accepted(GridCandidates(p.rows, p.cols, Pitch(p), Pitch(p), p.stagger, p.straySlot),
                                                  InsetRadius(p), BorderWidth(p), p.supportSlot))
              && points == CirclePositions(circles)
              && notice == NoNotice
    ensures p.supportSlot.enabled ==>
              var end := CirclePlacement.Walk(m, GridWalker(p), CirclePlacement.RadialStart);
              && circles == RadialCircles(m, p, end.pushed)
              && notice == (if end.added < p.supportSlot.count then MaxReached(end.added) else NoNotice)
              && points == CirclePositions(circles) + [Origin]
              && (|circles| <= p.supportSlot.count || circles == [])
              && CirclePlacement.RadiallyClear(CirclePositions(circles), InsetRadius(p), BorderWidth(p), p.supportSlot)
              && (forall k | 0 <= k < |circles| :: circles[k].row == 0)
              && (0.0 <= InsetRadius(p) && 0.0 <= BorderWidth(p) ==> forall k | 0 <= k < |circles| :: circles[k].col == k)
              && (notice.MaxReached? ==> |circles| <= notice.added < p.supportSlot.count)
              && (0.0 <= InsetRadius(p) && 0.0 <= BorderWidth(p) ==>
                    notice == if |circles| < p.supportSlot.count then MaxReached(|circles|) else NoNotice)
  {
    notice := NoNotice;
    if p.supportSlot.enabled {
      var added;
      circles, points, added := RadialPass(m, p);
      if added < p.supportSlot.count {
        notice := MaxReached(added);
      }
      points := points + [Point(0.0, 0.0)];
    } else {
      circles, points := GridPass(p);
      FoldWellPlaced(p, GridCandidates(p.rows, p.cols, Pitch(p), Pitch(p), p.stagger, p.straySlot));
    }
  }

  // ---------------------------------------------------------------------------
  // Edge circles
  // ---------------------------------------------------------------------------

  /** The two groupings of the placed circles: by row, compared along x, and
      by column, compared along y. */
  datatype Axis = ByRow | ByCol

  function Key(c: GridCircle, axis: Axis): int {
    match axis
    case ByRow => c.row
    case ByCol => c.col
  }

  function Coord(c: GridCircle, axis: Axis): real {
    match axis
    case ByRow => c.position.x
    case ByCol => c.position.y
  }

  /** The indices among the first `n` circles whose key is `key`, in push
      order: the group the grouping loop builds for that key. */
  function Members(circles: seq<GridCircle>, n: int, axis: Axis, key: int): (group: seq<nat>)
    requires 0 <= n <= |circles|
    ensures forall b | 0 <= b < |group| :: group[b] < n && Key(circles[group[b]], axis) == key
    ensures forall b, c | 0 <= b < c < |group| :: group[b] < group[c]
    ensures forall j {:trigger j in group} | 0 <= j < n && Key(circles[j], axis) == key :: j in group
  {
    if n == 0 then []
    else Members(circles, n - 1, axis, key) + (if Key(circles[n - 1], axis) == key then [n - 1] else [])
  }

  /** The groups built from the first `n` circles along one axis: a key is
      present exactly when some of those circles has it, and its group lists
      them in push order. */
  ghost predicate GroupsOf(circles: seq<GridCircle>, n: int, axis: Axis, groups: map<int, seq<nat>>)
    requires 0 <= n <= |circles|
  {
    && (forall key :: key in groups <==> Members(circles, n, axis, key) != [])
    && (forall key | key in groups :: groups[key] == Members(circles, n, axis, key))
  }

  /** After pushing circle `k`, the group of any key is its group among the
      first `k + 1` circles. */
  lemma PushOther(circles: seq<GridCircle>, k: int, axis: Axis, groups: map<int, seq<nat>>,
                  groups': map<int, seq<nat>>, other: int)
    requires 0 <= k < |circles|
    requires other in groups <==> Members(circles, k, axis, other) != []
    requires other in groups ==> groups[other] == Members(circles, k, axis, other)
    requires var key := Key(circles[k], axis);
             groups' == groups[key := (if key in groups then groups[key] else []) + [k]]
    ensures other in groups' <==> Members(circles, k + 1, axis, other) != []
    ensures other in groups' ==> groups'[other] == Members(circles, k + 1, axis, other)
  {
    assert Members(circles, k + 1, axis, other)
           == Members(circles, k, axis, other) + (if Key(circles[k], axis) == other then [k] else []);
  }

  /** Pushing circle `k` onto the group of its key turns the groups of the
      first `k` circles into those of the first `k + 1`. */
  lemma PushKeeps(circles: seq<GridCircle>, k: int, axis: Axis, groups: map<int, seq<nat>>, groups': map<int, seq<nat>>)
    requires 0 <= k < |circles|
    requires GroupsOf(circles, k, axis, groups)
    requires var key := Key(circles[k], axis);
             groups' == groups[key := (if key in groups then groups[key] else []) + [k]]
    ensures GroupsOf(circles, k + 1, axis, groups')
  {
    forall other
      ensures other in groups' <==> Members(circles, k + 1, axis, other) != []
      ensures other in groups' ==> groups'[other] == Members(circles, k + 1, axis, other)
    {
      PushOther(circles, k, axis, groups, groups', other);
    }
  }

  /** One `if (!grouped[key]) grouped[key] = []; grouped[key].push(c)` step. */
  method Push(circles: seq<GridCircle>, k: int, axis: Axis, groups: map<int, seq<nat>>) returns (groups': map<int, seq<nat>>)
    requires 0 <= k < |circles|
    requires GroupsOf(circles, k, axis, groups)
    ensures GroupsOf(circles, k + 1, axis, groups')
  {
    var key := Key(circles[k], axis);
    var group := if key in groups then groups[key] else [];
    groups' := groups[key := group + [k]];
    PushKeeps(circles, k, axis, groups, groups');
  }

  /** The loop that fills groupedByRow and groupedByCol. */
  method Group(circles: seq<GridCircle>) returns (byRow: map<int, seq<nat>>, byCol: map<int, seq<nat>>)
    ensures GroupsOf(circles, |circles|, ByRow, byRow)
    ensures GroupsOf(circles, |circles|, ByCol, byCol)
  {
    byRow, byCol := map[], map[];
    var k := 0;
    while k < |circles|
      invariant 0 <= k <= |circles|
      invariant GroupsOf(circles, k, ByRow, byRow)
      invariant GroupsOf(circles, k, ByCol, byCol)
    {
      byRow := Push(circles, k, ByRow, byRow);
      byCol := Push(circles, k, ByCol, byCol);
      k := k + 1;
    }
  }

  /** Position `a` of a group is where a stable ascending sort puts its first
      element: no member has a smaller coordinate, and members with the same
      coordinate come no earlier. */
  ghost predicate SortsFirst(circles: seq<GridCircle>, group: seq<nat>, axis: Axis, a: int)
    requires forall b | 0 <= b < |group| :: group[b] < |circles|
  {
    && 0 <= a < |group|
    && forall b | 0 <= b < |group| ::
         || Coord(circles[group[a]], axis) < Coord(circles[group[b]], axis)
         || (Coord(circles[group[a]], axis) == Coord(circles[group[b]], axis) && a <= b)
  }

  /** Position `z` of a group is where a stable ascending sort puts its last
      element. */
  ghost predicate SortsLast(circles: seq<GridCircle>, group: seq<nat>, axis: Axis, z: int)
    requires forall b | 0 <= b < |group| :: group[b] < |circles|
  {
    && 0 <= z < |group|
    && forall b | 0 <= b < |group| ::
         || Coord(circles[group[b]], axis) < Coord(circles[group[z]], axis)
         || (Coord(circles[group[b]], axis) == Coord(circles[group[z]], axis) && b <= z)
  }

  /** The position of `sorted[0]` among the first `n` members of a group. */
  function SortedFirst(circles: seq<GridCircle>, group: seq<nat>, axis: Axis, n: int): (a: nat)
    requires 0 < n <= |group|
    requires forall b | 0 <= b < |group| :: group[b] < |circles|
    ensures SortsFirst(circles, group[..n], axis, a)
  {
    if n == 1 then 0
    else
      var a := SortedFirst(circles, group, axis, n - 1);
      if Coord(circles[group[n - 1]], axis) < Coord(circles[group[a]], axis) then n - 1 else a
  }

  /** The position of `sorted[sorted.length - 1]` among the first `n`
      members of a group. */
  function SortedLast(circles: seq<GridCircle>, group: seq<nat>, axis: Axis, n: int): (z: nat)
    requires 0 < n <= |group|
    requires forall b | 0 <= b < |group| :: group[b] < |circles|
    ensures SortsLast(circles, group[..n], axis, z)
  {
    if n == 1 then 0
    else
      var z := SortedLast(circles, group, axis, n - 1);
      if Coord(circles[group[z]], axis) <= Coord(circles[group[n - 1]], axis) then n - 1 else z
  }

  /** Circle `i` is the first of its group after the sort: no circle with
      its key has a smaller coordinate, and those with the same coordinate
      were pushed after it. */
  ghost predicate IsFirstOf(circles: seq<GridCircle>, axis: Axis, i: int) {
    && 0 <= i < |circles|
    && forall j | 0 <= j < |circles| && Key(circles[j], axis) == Key(circles[i], axis) ::
         || Coord(circles[i], axis) < Coord(circles[j], axis)
         || (Coord(circles[i], axis) == Coord(circles[j], axis) && i <= j)
  }

  /** Circle `i` is the last of its group after the sort. */
  ghost predicate IsLastOf(circles: seq<GridCircle>, axis: Axis, i: int) {
    && 0 <= i < |circles|
    && forall j | 0 <= j < |circles| && Key(circles[j], axis) == Key(circles[i], axis) ::
         || Coord(circles[j], axis) < Coord(circles[i], axis)
         || (Coord(circles[j], axis) == Coord(circles[i], axis) && j <= i)
  }

  /** A group lists its members in increasing index order, so positions and
      indices compare alike. */
  lemma MembersOrdered(circles: seq<GridCircle>, n: int, axis: Axis, key: int)
    requires 0 <= n <= |circles|
    ensures var group := Members(circles, n, axis, key);
            forall b, c | 0 <= b < |group| && 0 <= c < |group| :: b <= c <==> group[b] <= group[c]
  {
    var group := Members(circles, n, axis, key);
    forall b, c | 0 <= b < |group| && 0 <= c < |group|
      ensures b <= c <==> group[b] <= group[c]
    {
      if b < c { assert group[b] < group[c]; }
      if c < b { assert group[c] < group[b]; }
    }
  }

  /** In a group built by the grouping loop, the sort's first element is
      exactly the circle of that key that is first of its group. */
  lemma SortedFirstIsFirst(circles: seq<GridCircle>, axis: Axis, key: int, i: int)
    requires Members(circles, |circles|, axis, key) != []
    requires 0 <= i < |circles| && Key(circles[i], axis) == key
    ensures var group := Members(circles, |circles|, axis, key);
            IsFirstOf(circles, axis, i) <==> i == group[SortedFirst(circles, group, axis, |group|)]
  {
    var group := Members(circles, |circles|, axis, key);
    assert group[..|group|] == group;
    MembersOrdered(circles, |circles|, axis, key);
    var a := SortedFirst(circles, group, axis, |group|);
    var first := group[a];
    assert IsFirstOf(circles, axis, first) by {
      forall j | 0 <= j < |circles| && Key(circles[j], axis) == Key(circles[first], axis)
        ensures || Coord(circles[first], axis) < Coord(circles[j], axis)
                || (Coord(circles[first], axis) == Coord(circles[j], axis) && first <= j)
      {
        assert j in group;
      }
    }
    if IsFirstOf(circles, axis, i) {
      assert i in group;
      assert Key(circles[first], axis) == key;
    }
  }

  /** In a group built by the grouping loop, the sort's last element is
      exactly the circle of that key that is last of its group. */
  lemma SortedLastIsLast(circles: seq<GridCircle>, axis: Axis, key: int, i: int)
    requires Members(circles, |circles|, axis, key) != []
    requires 0 <= i < |circles| && Key(circles[i], axis) == key
    ensures var group := Members(circles, |circles|, axis, key);
            IsLastOf(circles, axis, i) <==> i == group[SortedLast(circles, group, axis, |group|)]
  {
    var group := Members(circles, |circles|, axis, key);
    assert group[..|group|] == group;
    MembersOrdered(circles, |circles|, axis, key);
    var z := SortedLast(circles, group, axis, |group|);
    var last := group[z];
    assert IsLastOf(circles, axis, last) by {
      forall j | 0 <= j < |circles| && Key(circles[j], axis) == Key(circles[last], axis)
        ensures || Coord(circles[j], axis) < Coord(circles[last], axis)
                || (Coord(circles[j], axis) == Coord(circles[last], axis) && j <= last)
      {
        assert j in group;
      }
    }
    if IsLastOf(circles, axis, i) {
      assert i in group;
      assert Key(circles[last], axis) == key;
    }
  }

  /** Every circle's group has a first and a last circle, so each row and
      each column of the layout contributes to the edge set. */
  lemma EveryGroupHasEnds(circles: seq<GridCircle>, axis: Axis, i: int)
    requires 0 <= i < |circles|
    ensures exists j :: 0 <= j < |circles| && Key(circles[j], axis) == Key(circles[i], axis) && IsFirstOf(circles, axis, j)
    ensures exists j :: 0 <= j < |circles| && Key(circles[j], axis) == Key(circles[i], axis) && IsLastOf(circles, axis, j)
  {
    GroupHasFirst(circles, axis, i);
    GroupHasLast(circles, axis, i);
  }

  /** The group of circle `i` has a first circle: the sort's first element. */
  lemma GroupHasFirst(circles: seq<GridCircle>, axis: Axis, i: int)
    requires 0 <= i < |circles|
    ensures exists j :: 0 <= j < |circles| && Key(circles[j], axis) == Key(circles[i], axis) && IsFirstOf(circles, axis, j)
  {
    var key := Key(circles[i], axis);
    var group := Members(circles, |circles|, axis, key);
    assert i in group;
    var first := group[SortedFirst(circles, group, axis, |group|)];
    SortedFirstIsFirst(circles, axis, key, first);
  }

  /** The group of circle `i` has a last circle: the sort's last element. */
  lemma GroupHasLast(circles: seq<GridCircle>, axis: Axis, i: int)
    requires 0 <= i < |circles|
    ensures exists j :: 0 <= j < |circles| && Key(circles[j], axis) == Key(circles[i], axis) && IsLastOf(circles, axis, j)
  {
    var key := Key(circles[i], axis);
    var group := Members(circles, |circles|, axis, key);
    assert i in group;
    var last := group[SortedLast(circles, group, axis, |group|)];
    SortedLastIsLast(circles, axis, key, last);
  }

  /** Circle `i` is added to the edge set by its group along `axis`. */
  ghost predicate IsEnd(circles: seq<GridCircle>, axis: Axis, i: int) {
    IsFirstOf(circles, axis, i) || IsLastOf(circles, axis, i)
  }

  /** The circles whose group along `axis` has one of the keys and that are
      first or last of it. */
  ghost function EndsAt(circles: seq<GridCircle>, axis: Axis, keys: set<int>): set<nat> {
    set i: nat | i < |circles| && Key(circles[i], axis) in keys && IsEnd(circles, axis, i)
  }

  /** The first and last of a sorted group are members of it, and they are
      exactly the members that are first or last of the group. */
  lemma GroupEnds(circles: seq<GridCircle>, axis: Axis, key: int, first: nat, last: nat)
    requires Members(circles, |circles|, axis, key) != []
    requires var group := Members(circles, |circles|, axis, key);
             && first == group[SortedFirst(circles, group, axis, |group|)]
             && last == group[SortedLast(circles, group, axis, |group|)]
    ensures first < |circles| && Key(circles[first], axis) == key
    ensures last < |circles| && Key(circles[last], axis) == key
    ensures forall i | 0 <= i < |circles| && Key(circles[i], axis) == key :: IsEnd(circles, axis, i) <==> i == first || i == last
  {
    forall i | 0 <= i < |circles| && Key(circles[i], axis) == key
      ensures IsEnd(circles, axis, i) <==> i == first || i == last
    {
      SortedFirstIsFirst(circles, axis, key, i);
      SortedLastIsLast(circles, axis, key, i);
    }
  }

  /** Two members that are exactly the ends of their group make up its ends. */
  lemma EndsOfGroup(circles: seq<GridCircle>, axis: Axis, key: int, first: nat, last: nat)
    requires first < |circles| && Key(circles[first], axis) == key
    requires last < |circles| && Key(circles[last], axis) == key
    requires forall i | 0 <= i < |circles| && Key(circles[i], axis) == key :: IsEnd(circles, axis, i) <==> i == first || i == last
    ensures EndsAt(circles, axis, {key}) == {first, last}
  {
  }

  /** One `forEach` callback: sort the group and add its first and last
      circles to the set. */
  method AddGroupEnds(circles: seq<GridCircle>, axis: Axis, group: seq<nat>, ghost key: int, edges: set<nat>)
    returns (edges': set<nat>)
    requires group == Members(circles, |circles|, axis, key) && group != []
    ensures edges' == edges + EndsAt(circles, axis, {key})
  {
    var first := group[SortedFirst(circles, group, axis, |group|)];
    var last := group[SortedLast(circles, group, axis, |group|)];
    GroupEnds(circles, axis, key, first, last);
    EndsOfGroup(circles, axis, key, first, last);
    edges' := edges + {first, last};
  }

  /** The ends for a union of keys are the ends for each. */
  lemma EndsAtUnion(circles: seq<GridCircle>, axis: Axis, a: set<int>, b: set<int>)
    ensures EndsAt(circles, axis, a + b) == EndsAt(circles, axis, a) + EndsAt(circles, axis, b)
  {
  }

  /** Every circle's key along `axis` is a key of the groups. */
  lemma KeysCoverCircles(circles: seq<GridCircle>, axis: Axis, groups: map<int, seq<nat>>)
    requires GroupsOf(circles, |circles|, axis, groups)
    ensures forall i | 0 <= i < |circles| :: Key(circles[i], axis) in groups
  {
    forall i | 0 <= i < |circles|
      ensures Key(circles[i], axis) in groups
    {
      assert i in Members(circles, |circles|, axis, Key(circles[i], axis));
    }
  }

  /** When every circle's key is among `keys`, the ends at `keys` are all the
      circles that are first or last of their group. */
  lemma AllEnds(circles: seq<GridCircle>, axis: Axis, keys: set<int>)
    requires forall i | 0 <= i < |circles| :: Key(circles[i], axis) in keys
    ensures forall i :: i in EndsAt(circles, axis, keys) <==> 0 <= i < |circles| && IsEnd(circles, axis, i)
  {
  }

  /** One pass of the `forEach` over the groups: the group of `key` is
      handled and `key` leaves the keys still to do. */
  method AxisStep(circles: seq<GridCircle>, axis: Axis, keys: set<int>, group: seq<nat>, key: int,
                  todo: set<int>, edges: set<nat>, acc: set<nat>)
    returns (todo': set<int>, acc': set<nat>)
    requires key in todo && todo <= keys
    requires group == Members(circles, |circles|, axis, key) && group != []
    requires acc == edges + EndsAt(circles, axis, keys - todo)
    ensures todo' == todo - {key} && todo' <= keys
    ensures acc' == edges + EndsAt(circles, axis, keys - todo')
  {
    ghost var done := keys - todo;
    acc' := AddGroupEnds(circles, axis, group, key, acc);
    EndsAtUnion(circles, axis, done, {key});
    todo' := todo - {key};
    assert keys - todo' == done + {key};
  }

  /** A non-empty set of keys has an element. */
  lemma NonEmptyHasKey(todo: set<int>)
    requires todo != {}
    ensures exists key :: key in todo
  {
    if forall key :: key !in todo {
      assert false;
    }
  }

  /** The `forEach` over the groups of one axis adds exactly the circles
      that are first or last of their group. */
  method AxisEnds(circles: seq<GridCircle>, axis: Axis, groups: map<int, seq<nat>>, edges: set<nat>)
    returns (edges': set<nat>)
    requires GroupsOf(circles, |circles|, axis, groups)
    ensures forall i :: i in edges' <==> i in edges || (0 <= i < |circles| && IsEnd(circles, axis, i))
  {
    var todo := groups.Keys;
    edges' := edges;
    while todo != {}
      invariant todo <= groups.Keys
      invariant edges' == edges + EndsAt(circles, axis, groups.Keys - todo)
      decreases |todo|
    {
      NonEmptyHasKey(todo);
      var key :| key in todo;
      todo, edges' := AxisStep(circles, axis, groups.Keys, groups[key], key, todo, edges, edges');
    }
    KeysCoverCircles(circles, axis, groups);
    AllEnds(circles, axis, groups.Keys);
  }

  /** The edge circles: exactly the circles that are first or last of their
      row along x, or first or last of their column along y. */
  method EdgeCircles(circles: seq<GridCircle>) returns (edges: set<nat>)
    ensures forall i :: i in edges <==> 0 <= i < |circles| && (IsEnd(circles, ByRow, i) || IsEnd(circles, ByCol, i))
  {
    var byRow, byCol := Group(circles);
    edges := AxisEnds(circles, ByRow, byRow, {});
    edges := AxisEnds(circles, ByCol, byCol, edges);
  }
}
