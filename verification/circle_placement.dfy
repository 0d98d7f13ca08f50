/** generateCirclePlacements of src/CirclePlacement.js: the `addCircle`
    closure and its three callers (the grid loops, the radial "circle" support
    mode and the "oval" support mode). The closure's captured arrays
    `circles` and `points` are threaded through the methods as values. */
module CirclePlacement {
  import opened Tray
  import opened Squares
  import opened CirclePlacementUtils
  import opened PlacementSpec

  /** The named parameters of generateCirclePlacements. */
  datatype Config = Config(
    insetRadius: real,
    borderWidth: real,
    rows: int,
    cols: int,
    gap: real,
    stagger: bool,
    straySlot: bool,
    supportSlot: SupportSlot)

  function OuterRadius(cfg: Config): real {
    cfg.insetRadius + cfg.borderWidth
  }

  /** Column pitch: outer radius + inset radius + gap. */
  function XOffset(cfg: Config): real {
    OuterRadius(cfg) + cfg.insetRadius + cfg.gap
  }

  /** Row pitch: the column pitch without stagger; with stagger the height of
      the triangle of side 2*outer over half a pitch, shrunk by 2%. */
  function YOffset(m: Math, cfg: Config): (y: real)
    ensures !cfg.stagger ==> y == XOffset(cfg)
  {
    if cfg.stagger then m.sqrt(Sq(2.0 * OuterRadius(cfg)) - Sq(XOffset(cfg) / 2.0)) * 0.98
    else OuterRadius(cfg) + cfg.insetRadius + cfg.gap
  }

  /** The record `addCircle` pushes for an accepted candidate. */
  function SlotOf(cfg: Config, c: Candidate): Slot {
    Slot(c.position, cfg.insetRadius, cfg.borderWidth, cfg.borderWidth, c.row, c.col)
  }

  function SlotsOf(cfg: Config, cs: seq<Candidate>): (slots: seq<Slot>)
    ensures |slots| == |cs|
    ensures forall k | 0 <= k < |cs| :: slots[k] == SlotOf(cfg, cs[k])
  {
    seq(|cs|, k requires 0 <= k < |cs| => SlotOf(cfg, cs[k]))
  }

  lemma SlotsOfPositions(cfg: Config, cs: seq<Candidate>)
    ensures Positions(SlotsOf(cfg, cs)) == CandidatePositions(cs)
  {
    assert forall k | 0 <= k < |cs| :: Positions(SlotsOf(cfg, cs))[k] == CandidatePositions(cs)[k];
  }

  lemma SlotsOfSnoc(cfg: Config, cs: seq<Candidate>, c: Candidate)
    ensures SlotsOf(cfg, cs + [c]) == SlotsOf(cfg, cs) + [SlotOf(cfg, c)]
  {
    assert forall k | 0 <= k < |cs| + 1 :: SlotsOf(cfg, cs + [c])[k] == (SlotsOf(cfg, cs) + [SlotOf(cfg, c)])[k];
  }

  /** One addCircle call extends the fold by one candidate: when the
      candidate passes against the slots kept so far, it is kept. */
  lemma FoldSnoc(cfg: Config, seen: seq<Candidate>, acc: seq<Candidate>, c: Candidate, ok: bool)
    requires acc == Accepted(seen, cfg.insetRadius, cfg.borderWidth, cfg.supportSlot)
    requires ok <==> Admissible(c.position, Positions(SlotsOf(cfg, acc)), cfg.insetRadius, cfg.borderWidth, cfg.supportSlot)
    ensures Accepted(seen + [c], cfg.insetRadius, cfg.borderWidth, cfg.supportSlot) == if ok then acc + [c] else acc
    ensures SlotsOf(cfg, if ok then acc + [c] else acc) == if ok then SlotsOf(cfg, acc) + [SlotOf(cfg, c)] else SlotsOf(cfg, acc)
  {
    AcceptedSnoc(seen, c, cfg.insetRadius, cfg.borderWidth, cfg.supportSlot);
    SlotsOfPositions(cfg, acc);
    SlotsOfSnoc(cfg, acc, c);
  }

  /** Every slot record carries the configured radii, with borderHeight equal
      to borderWidth. */
  ghost predicate CarriesConfig(cfg: Config, slots: seq<Slot>) {
    forall k | 0 <= k < |slots| ::
      && slots[k].insetRadius == cfg.insetRadius
      && slots[k].borderWidth == cfg.borderWidth
      && slots[k].borderHeight == cfg.borderWidth
  }

  // ---------------------------------------------------------------------------
  // addCircle
  // ---------------------------------------------------------------------------

  /** The `addCircle` closure: when canAddCircle accepts (x, y) against the
      slots placed so far, push the slot and its point; report whether it did. */
  method AddCircle(cfg: Config, circles: seq<Slot>, points: seq<Point>, x: real, y: real, row: int, col: int)
    returns (added: bool, circles': seq<Slot>, points': seq<Point>)
    ensures added <==> Admissible(Point(x, y), Positions(circles), cfg.insetRadius, cfg.borderWidth, cfg.supportSlot)
    ensures circles' == if added then circles + [Slot(Point(x, y), cfg.insetRadius, cfg.borderWidth, cfg.borderWidth, row, col)] else circles
    ensures points' == if added then points + [Point(x, y)] else points
  {
    var ok := CanAddCircle(x, y, row, col, Positions(circles), cfg.insetRadius, cfg.borderWidth, cfg.supportSlot);
    if !ok {
      return false, circles, points;
    }
    circles' := circles + [Slot(Point(x, y), cfg.insetRadius, cfg.borderWidth, cfg.borderWidth, row, col)];
    points' := points + [Point(x, y)];
    added := true;
  }

  /** addCircle keeps the placed slots well placed and in lockstep with the points. */
  lemma AddCircleKeepsInvariant(cfg: Config, circles: seq<Slot>, x: real, y: real, row: int, col: int)
    requires WellPlaced(Positions(circles), cfg.insetRadius, cfg.borderWidth, cfg.supportSlot)
    requires Admissible(Point(x, y), Positions(circles), cfg.insetRadius, cfg.borderWidth, cfg.supportSlot)
    ensures Positions(circles + [Slot(Point(x, y), cfg.insetRadius, cfg.borderWidth, cfg.borderWidth, row, col)])
            == Positions(circles) + [Point(x, y)]
    ensures WellPlaced(Positions(circles + [Slot(Point(x, y), cfg.insetRadius, cfg.borderWidth, cfg.borderWidth, row, col)]),
                       cfg.insetRadius, cfg.borderWidth, cfg.supportSlot)
  {
    var s := Slot(Point(x, y), cfg.insetRadius, cfg.borderWidth, cfg.borderWidth, row, col);
    assert Positions(circles + [s]) == Positions(circles) + [Point(x, y)];
    WellPlacedAppend(Positions(circles), Point(x, y), cfg.insetRadius, cfg.borderWidth, cfg.supportSlot);
  }

  // ---------------------------------------------------------------------------
  // Grid mode
  // ---------------------------------------------------------------------------

  /** One addCircle call, seen from the fold: when the slots so far are the
      fold of `cands[..k]` and (x, y, row, col) is candidate `k`, the slots
      after the call are the fold of `cands[..k + 1]`. */
  method PlaceCandidate(cfg: Config, circles: seq<Slot>, points: seq<Point>, ghost cands: seq<Candidate>,
                        ghost k: int, ghost acc: seq<Candidate>, x: real, y: real, row: int, col: int)
    returns (circles': seq<Slot>, points': seq<Point>, ghost acc': seq<Candidate>)
    requires 0 <= k < |cands|
    requires cands[k] == Candidate(Point(x, y), row, col)
    requires acc == Accepted(cands[..k], cfg.insetRadius, cfg.borderWidth, cfg.supportSlot)
    requires circles == SlotsOf(cfg, acc)
    requires points == Positions(circles)
    ensures acc' == Accepted(cands[..k + 1], cfg.insetRadius, cfg.borderWidth, cfg.supportSlot)
    ensures circles' == SlotsOf(cfg, acc')
    ensures points' == Positions(circles')
  {
    ghost var c := cands[k];
    assert cands[..k + 1] == cands[..k] + [c];
    var ok;
    ok, circles', points' := AddCircle(cfg, circles, points, x, y, row, col);
    FoldSnoc(cfg, cands[..k], acc, c, ok);
    PositionsSnoc(circles, SlotOf(cfg, c));
    acc' := if ok then acc + [c] else acc;
  }

  /** The body of the column loop: addCircle at cell `col` of a row whose
      cells follow the candidates `done` of the rows before it. */
  method PlaceCell(cfg: Config, circles: seq<Slot>, points: seq<Point>, ghost done: seq<Candidate>,
                   ghost cells: seq<Candidate>, col: int, ghost acc: seq<Candidate>, x: real, y: real, row: int)
    returns (circles': seq<Slot>, points': seq<Point>, ghost acc': seq<Candidate>)
    requires 0 <= col < |cells|
    requires cells[col] == Candidate(Point(x, y), row, col)
    requires acc == Accepted(done + cells[..col], cfg.insetRadius, cfg.borderWidth, cfg.supportSlot)
    requires circles == SlotsOf(cfg, acc)
    requires points == Positions(circles)
    ensures acc' == Accepted(done + cells[..col + 1], cfg.insetRadius, cfg.borderWidth, cfg.supportSlot)
    ensures circles' == SlotsOf(cfg, acc')
    ensures points' == Positions(circles')
  {
    ghost var cands := done + cells;
    assert cands[..|done| + col] == done + cells[..col];
    assert cands[..|done| + col + 1] == done + cells[..col + 1];
    circles', points', acc' := PlaceCandidate(cfg, circles, points, cands, |done| + col, acc, x, y, row, col);
  }

  /** The column loop of one row: addCircle at each of the row's first
      `effectiveCols` cells, extending the fold by those candidates. */
  method PlaceRow(cfg: Config, row: int, effectiveCols: int, xOffset: real, yOffset: real,
                  circles: seq<Slot>, points: seq<Point>, ghost done: seq<Candidate>)
    returns (circles': seq<Slot>, points': seq<Point>)
    requires circles == SlotsOf(cfg, Accepted(done, cfg.insetRadius, cfg.borderWidth, cfg.supportSlot))
    requires points == Positions(circles)
    ensures circles' == SlotsOf(cfg, Accepted(done + RowCandidates(row, effectiveCols, xOffset, yOffset, cfg.stagger),
                                              cfg.insetRadius, cfg.borderWidth, cfg.supportSlot))
    ensures points' == Positions(circles')
  {
    ghost var cells := RowCandidates(row, effectiveCols, xOffset, yOffset, cfg.stagger);
    ghost var acc := Accepted(done, cfg.insetRadius, cfg.borderWidth, cfg.supportSlot);
    assert done + cells[..0] == done;
    circles', points' := circles, points;
    var col := 0;
    while col < effectiveCols
      invariant 0 <= col <= |cells|
      invariant acc == Accepted(done + cells[..col], cfg.insetRadius, cfg.borderWidth, cfg.supportSlot)
      invariant circles' == SlotsOf(cfg, acc)
      invariant points' == Positions(circles')
    {
      var x := GridX(col, row, xOffset, cfg.stagger);
      var y := row as real * yOffset;
      circles', points', acc := PlaceCell(cfg, circles', points', done, cells, col, acc, x, y, row);
      col := col + 1;
    }
    assert cells[..col] == cells;
  }

  /** The body of the row loop: with the slots so far the fold over the
      candidates of the first `row` rows, one more row of addCircle calls
      makes them the fold over the first `row + 1` rows. */
  method PlaceGridRow(cfg: Config, xOffset: real, yOffset: real, row: int, circles: seq<Slot>, points: seq<Point>)
    returns (circles': seq<Slot>, points': seq<Point>)
    requires 0 <= row
    requires circles == SlotsOf(cfg, Accepted(GridCandidates(row, cfg.cols, xOffset, yOffset, cfg.stagger, cfg.straySlot),
                                              cfg.insetRadius, cfg.borderWidth, cfg.supportSlot))
    requires points == Positions(circles)
    ensures circles' == SlotsOf(cfg, Accepted(GridCandidates(row + 1, cfg.cols, xOffset, yOffset, cfg.stagger, cfg.straySlot),
                                              cfg.insetRadius, cfg.borderWidth, cfg.supportSlot))
    ensures points' == Positions(circles')
  {
    var isStaggeredRow := cfg.stagger && row % 2 == 1;
    var effectiveCols := cfg.cols;
    if cfg.straySlot && isStaggeredRow {
      effectiveCols := effectiveCols - 1;
    }
    assert effectiveCols == EffectiveCols(cfg.cols, cfg.stagger, cfg.straySlot, row);
    GridCandidatesNextRow(row, cfg.cols, xOffset, yOffset, cfg.stagger, cfg.straySlot);
    circles', points' := PlaceRow(cfg, row, effectiveCols, xOffset, yOffset, circles, points,
                                  GridCandidates(row, cfg.cols, xOffset, yOffset, cfg.stagger, cfg.straySlot));
  }

  /** The nested row/column loops: the slots placed are exactly the fold of
      addCircle over the grid candidates. */
  method GridPass(cfg: Config, xOffset: real, yOffset: real) returns (circles: seq<Slot>, points: seq<Point>)
    ensures circles == SlotsOf(cfg, Accepted(GridCandidates(cfg.rows, cfg.cols, xOffset, yOffset, cfg.stagger, cfg.straySlot),
                                             cfg.insetRadius, cfg.borderWidth, cfg.supportSlot))
    ensures points == Positions(circles)
  {
    circles, points := [], [];
    var row := 0;
    while row < cfg.rows
      invariant 0 <= row && (row <= cfg.rows || row == 0)
      invariant circles == SlotsOf(cfg, Accepted(GridCandidates(row, cfg.cols, xOffset, yOffset, cfg.stagger, cfg.straySlot),
                                                 cfg.insetRadius, cfg.borderWidth, cfg.supportSlot))
      invariant points == Positions(circles)
    {
      circles, points := PlaceGridRow(cfg, xOffset, yOffset, row, circles, points);
      row := row + 1;
    }
  }

  // ---------------------------------------------------------------------------
  // Radial ("circle") support mode
  // ---------------------------------------------------------------------------

  /** The loop's own test against one earlier slot, at radii r and r + bw. */
  predicate AnyOverlap(p: Point, existing: seq<Point>, r: real, bw: real) {
    exists j | 0 <= j < |existing| :: AreInsetAreasOverlapping(p, existing[j], r, r + bw)
  }

  /** With non-negative radii the loop's test is at least as strict as
      canAddCircle, so every candidate the loop accepts is pushed. */
  lemma RadialTestImpliesAdmissible(p: Point, existing: seq<Point>, r: real, bw: real, s: SupportSlot)
    requires 0.0 <= r && 0.0 <= bw
    requires !AnyOverlap(p, existing, r, bw)
    requires !DoesInsetAreaIntersectOval(p, Origin, r + bw, s.length, s.width)
    ensures Admissible(p, existing, r, bw, s)
  {
    SquareMonotone(r + r, r + (r + bw));
  }

  /** Every pushed slot was, when it was pushed, clear at radii (r, r + bw) of
      every earlier one and outside both expanded support ellipses. */
  ghost predicate RadiallyClear(ps: seq<Point>, r: real, bw: real, s: SupportSlot) {
    forall k | 0 <= k < |ps| ::
      && !AnyOverlap(ps[k], ps[..k], r, bw)
      && !DoesInsetAreaIntersectOval(ps[k], Origin, r, s.length, s.width)
      && !DoesInsetAreaIntersectOval(ps[k], Origin, r + bw, s.length, s.width)
  }

  lemma RadiallyClearAppend(ps: seq<Point>, p: Point, r: real, bw: real, s: SupportSlot)
    requires RadiallyClear(ps, r, bw, s)
    requires !AnyOverlap(p, ps, r, bw)
    requires !DoesInsetAreaIntersectOval(p, Origin, r, s.length, s.width)
    requires !DoesInsetAreaIntersectOval(p, Origin, r + bw, s.length, s.width)
    ensures RadiallyClear(ps + [p], r, bw, s)
  {
    var ps' := ps + [p];
    forall k | 0 <= k < |ps'|
      ensures && !AnyOverlap(ps'[k], ps'[..k], r, bw)
              && !DoesInsetAreaIntersectOval(ps'[k], Origin, r, s.length, s.width)
              && !DoesInsetAreaIntersectOval(ps'[k], Origin, r + bw, s.length, s.width)
    {
      if k < |ps| {
        assert ps'[..k] == ps[..k];
      } else {
        assert ps'[..k] == ps;
      }
    }
  }

  /** What the radial loop keeps: the slots so far are well placed and
      radially clear, carry the configured radii, sit in row 0 with strictly
      increasing columns below `added`, and, with non-negative radii, every
      accepted candidate was pushed, slot k in column k. */
  ghost predicate RadialInvariant(cfg: Config, circles: seq<Slot>, added: int) {
    var r, bw, s := cfg.insetRadius, cfg.borderWidth, cfg.supportSlot;
    && 0 <= added
    && |circles| <= added
    && WellPlaced(Positions(circles), r, bw, s)
    && RadiallyClear(Positions(circles), r, bw, s)
    && CarriesConfig(cfg, circles)
    && (forall k | 0 <= k < |circles| :: circles[k].row == 0 && 0 <= circles[k].col < added)
    && (forall j, k | 0 <= j < k < |circles| :: circles[j].col < circles[k].col)
    && (0.0 <= r && 0.0 <= bw ==> |circles| == added && forall k | 0 <= k < |circles| :: circles[k].col == k)
  }

  /** One accepted candidate of the radial loop, handed to addCircle with
      column `added`, keeps the invariant with `added` one larger. */
  lemma RadialStep(cfg: Config, circles: seq<Slot>, added: int, p: Point, ok: bool)
    requires RadialInvariant(cfg, circles, added)
    requires !AnyOverlap(p, Positions(circles), cfg.insetRadius, cfg.borderWidth)
    requires !DoesInsetAreaIntersectOval(p, Origin, cfg.insetRadius, cfg.supportSlot.length, cfg.supportSlot.width)
    requires !DoesInsetAreaIntersectOval(p, Origin, cfg.insetRadius + cfg.borderWidth, cfg.supportSlot.length, cfg.supportSlot.width)
    requires ok <==> Admissible(p, Positions(circles), cfg.insetRadius, cfg.borderWidth, cfg.supportSlot)
    ensures RadialInvariant(cfg, if ok then circles + [Slot(p, cfg.insetRadius, cfg.borderWidth, cfg.borderWidth, 0, added)] else circles, added + 1)
  {
    var r, bw, s := cfg.insetRadius, cfg.borderWidth, cfg.supportSlot;
    if ok {
      var slot := Slot(p, r, bw, bw, 0, added);
      var circles' := circles + [slot];
      AddCircleKeepsInvariant(cfg, circles, p.x, p.y, 0, added);
      RadiallyClearAppend(Positions(circles), p, r, bw, s);
      assert forall k | 0 <= k < |circles'| :: circles'[k] == if k < |circles| then circles[k] else slot;
      assert CarriesConfig(cfg, circles');
      assert forall k | 0 <= k < |circles'| :: circles'[k].row == 0 && 0 <= circles'[k].col < added + 1;
      assert forall j, k | 0 <= j < k < |circles'| :: circles'[j].col < circles'[k].col;
      assert RadialInvariant(cfg, circles', added + 1);
    } else {
      if 0.0 <= r && 0.0 <= bw {
        RadialTestImpliesAdmissible(p, Positions(circles), r, bw, s);
      }
      assert RadialInvariant(cfg, circles, added + 1);
    }
  }

  const AngleLimit: real := Pi * 2.0 + 0.2
  const AngleNudge: real := 0.01

  // ---------------------------------------------------------------------------
  // The radial loop as a recursive walk
  // ---------------------------------------------------------------------------

  /** What the radial loop walks and tests with: the semi-axes a and b of the
      ellipse around the origin, the inset radius r, the border width bw and
      the support slot. */
  datatype Walker = Walker(a: real, b: real, r: real, bw: real, slot: SupportSlot)

  /** A candidate the loop handed to addCircle and addCircle pushed: the angle
      it was found at and the column it was given. */
  datatype Turn = Turn(angle: real, col: int)

  /** The loop's state: the pushed turns, the count `added` of accepted
      candidates and the current angle. */
  datatype Radial = Radial(pushed: seq<Turn>, added: int, angle: real)

  const RadialStart: Radial := Radial([], 0, 0.0)

  /** The candidate at angle t: (0 + a cos t, 0 + b sin t). */
  function EllipseAt(m: Math, w: Walker, t: real): Point {
    Point(0.0 + w.a * m.cos(t), 0.0 + w.b * m.sin(t))
  }

  /** Math.sqrt(dx * dx + dy * dy). */
  function Norm(m: Math, dx: real, dy: real): real {
    m.sqrt(dx * dx + dy * dy)
  }

  /** The ellipse's tangent at angle t is (-a sin t, b cos t). */
  function TangentX(m: Math, w: Walker, t: real): real {
    -w.a * m.sin(t)
  }

  function TangentY(m: Math, w: Walker, t: real): real {
    w.b * m.cos(t)
  }

  /** The length of the tangent at angle t. */
  function Speed(m: Math, w: Walker, t: real): real {
    Norm(m, TangentX(m, w, t), TangentY(m, w, t))
  }

  function TurnPoints(m: Math, w: Walker, pushed: seq<Turn>): (ps: seq<Point>)
    ensures |ps| == |pushed|
    ensures forall k | 0 <= k < |pushed| :: ps[k] == EllipseAt(m, w, pushed[k].angle)
  {
    seq(|pushed|, k requires 0 <= k < |pushed| => EllipseAt(m, w, pushed[k].angle))
  }

  lemma TurnPointsSnoc(m: Math, w: Walker, pushed: seq<Turn>, t: Turn)
    ensures TurnPoints(m, w, pushed + [t]) == TurnPoints(m, w, pushed) + [EllipseAt(m, w, t.angle)]
  {
    assert forall k | 0 <= k < |pushed| + 1 ::
      TurnPoints(m, w, pushed + [t])[k] == (TurnPoints(m, w, pushed) + [EllipseAt(m, w, t.angle)])[k];
  }

  /** The loop's three tests on the candidate at the current angle. */
  predicate Passes(m: Math, w: Walker, st: Radial) {
    var p := EllipseAt(m, w, st.angle);
    && !AnyOverlap(p, TurnPoints(m, w, st.pushed), w.r, w.bw)
    && !DoesInsetAreaIntersectOval(p, Origin, w.r, w.slot.length, w.slot.width)
    && !DoesInsetAreaIntersectOval(p, Origin, w.r + w.bw, w.slot.length, w.slot.width)
  }

  /** The loop guard. */
  predicate Running(w: Walker, st: Radial) {
    st.added < w.slot.count && st.angle < AngleLimit
  }

  /** The candidate passes where the tangent has length 0: the loop breaks. */
  predicate Stalls(m: Math, w: Walker, st: Radial) {
    Passes(m, w, st) && Speed(m, w, st.angle) == 0.0
  }

  /** One iteration. A passing candidate goes to addCircle with column `added`
      (pushed when canAddCircle accepts it), `added` grows by one and the
      angle advances by (2r * 0.99) / speed; a failing one nudges the angle
      by 0.01. */
  function Advance(m: Math, w: Walker, st: Radial): Radial {
    if Passes(m, w, st) then
      var p := EllipseAt(m, w, st.angle);
      var pushed := if Admissible(p, TurnPoints(m, w, st.pushed), w.r, w.bw, w.slot)
                    then st.pushed + [Turn(st.angle, st.added)] else st.pushed;
      var speed := Speed(m, w, st.angle);
      Radial(pushed, st.added + 1, if speed == 0.0 then st.angle else st.angle + (2.0 * w.r) * 0.99 / speed)
    else
      Radial(st.pushed, st.added, st.angle + AngleNudge)
  }

  /** The whole loop from state st. It stops when the guard fails or right
      after a candidate passes where the tangent has length 0, so a walk that
      ends with the guard still true ended on such a break. */
  function Walk(m: Math, w: Walker, st: Radial): (end: Radial)
    ensures Running(w, end) ==> Speed(m, w, end.angle) == 0.0
    ensures st.added <= end.added
    decreases w.slot.count - st.added, ((AngleLimit - st.angle) / AngleNudge).Floor
  {
    if !Running(w, st) then st
    else if Stalls(m, w, st) then Advance(m, w, st)
    else Walk(m, w, Advance(m, w, st))
  }

  /** An iteration never moves the angle back when r >= 0 and square roots
      are non-negative. */
  lemma AdvanceMonotone(m: Math, w: Walker, st: Radial)
    requires 0.0 <= w.r && SqrtNonNegative(m)
    ensures st.angle <= Advance(m, w, st).angle
  {
    if Passes(m, w, st) {
      SquareNonNegative(TangentX(m, w, st.angle));
      SquareNonNegative(TangentY(m, w, st.angle));
      assert 0.0 <= Speed(m, w, st.angle);
    }
  }

  /** The count `added` is non-negative, and the pushed turns were found
      below the angle limit and carry strictly increasing columns below it. */
  ghost predicate TurnsBelow(pushed: seq<Turn>, added: int) {
    && 0 <= added
    && (forall k | 0 <= k < |pushed| :: pushed[k].angle < AngleLimit && 0 <= pushed[k].col < added)
    && (forall j, k | 0 <= j < k < |pushed| :: pushed[j].col < pushed[k].col)
  }

  lemma AdvanceBelow(m: Math, w: Walker, st: Radial)
    requires Running(w, st) && TurnsBelow(st.pushed, st.added)
    ensures TurnsBelow(Advance(m, w, st).pushed, Advance(m, w, st).added)
  {
    var next := Advance(m, w, st);
    if next.pushed != st.pushed {
      var t := Turn(st.angle, st.added);
      assert next.pushed == st.pushed + [t] && next.added == st.added + 1;
      assert forall k | 0 <= k < |next.pushed| :: next.pushed[k] == if k < |st.pushed| then st.pushed[k] else t;
    }
  }

  /** Every turn the walk pushes was found below the angle limit and got a
      column below the final count, in increasing order. */
  lemma {:induction false} WalkBelow(m: Math, w: Walker, st: Radial)
    requires TurnsBelow(st.pushed, st.added)
    ensures TurnsBelow(Walk(m, w, st).pushed, Walk(m, w, st).added)
    decreases w.slot.count - st.added, ((AngleLimit - st.angle) / AngleNudge).Floor
  {
    if Running(w, st) {
      AdvanceBelow(m, w, st);
      if !Stalls(m, w, st) {
        WalkBelow(m, w, Advance(m, w, st));
      }
    }
  }

  /** The current angle `upto` is non-negative and the pushed turns lie at
      angles in [0, upto], in order of angle. */
  ghost predicate TurnsInOrder(pushed: seq<Turn>, upto: real) {
    && 0.0 <= upto
    && (forall k | 0 <= k < |pushed| :: 0.0 <= pushed[k].angle <= upto)
    && (forall j, k | 0 <= j < k < |pushed| :: pushed[j].angle <= pushed[k].angle)
  }

  lemma AdvanceInOrder(m: Math, w: Walker, st: Radial)
    requires 0.0 <= w.r && SqrtNonNegative(m)
    requires TurnsInOrder(st.pushed, st.angle)
    ensures st.angle <= Advance(m, w, st).angle
    ensures TurnsInOrder(Advance(m, w, st).pushed, Advance(m, w, st).angle)
  {
    AdvanceMonotone(m, w, st);
    var next := Advance(m, w, st);
    if next.pushed != st.pushed {
      assert next.pushed == st.pushed + [Turn(st.angle, st.added)];
    }
  }

  /** With r >= 0 and non-negative square roots the walk never moves the
      angle back and keeps the turns in order: started at angle 0, every slot
      lies at an angle in [0, final angle], in placement order. */
  lemma {:induction false} WalkInOrder(m: Math, w: Walker, st: Radial)
    requires 0.0 <= w.r && SqrtNonNegative(m)
    requires TurnsInOrder(st.pushed, st.angle)
    ensures st.angle <= Walk(m, w, st).angle
    ensures TurnsInOrder(Walk(m, w, st).pushed, Walk(m, w, st).angle)
    decreases w.slot.count - st.added, ((AngleLimit - st.angle) / AngleNudge).Floor
  {
    if Running(w, st) {
      AdvanceInOrder(m, w, st);
      if !Stalls(m, w, st) {
        WalkInOrder(m, w, Advance(m, w, st));
      }
    }
  }

  /** The ellipse of the placement modules: semi-axes length/2 + r + bw + 1
      and width/2 + r + bw + 1. */
  function RadialWalker(cfg: Config): Walker {
    var s := cfg.supportSlot;
    Walker(((s.length / 2.0) + cfg.insetRadius) + cfg.borderWidth + 1.0,
           ((s.width / 2.0) + cfg.insetRadius) + cfg.borderWidth + 1.0,
           cfg.insetRadius, cfg.borderWidth, s)
  }

  /** The records addCircle pushes for the turns: the point on the ellipse,
      the configured radii, row 0 and the turn's column. */
  function RadialSlots(m: Math, cfg: Config, pushed: seq<Turn>): (slots: seq<Slot>)
    ensures |slots| == |pushed|
    ensures forall k | 0 <= k < |pushed| ::
              slots[k] == Slot(EllipseAt(m, RadialWalker(cfg), pushed[k].angle),
                               cfg.insetRadius, cfg.borderWidth, cfg.borderWidth, 0, pushed[k].col)
  {
    seq(|pushed|, k requires 0 <= k < |pushed| =>
      Slot(EllipseAt(m, RadialWalker(cfg), pushed[k].angle), cfg.insetRadius, cfg.borderWidth, cfg.borderWidth, 0, pushed[k].col))
  }

  lemma RadialSlotsPositions(m: Math, cfg: Config, pushed: seq<Turn>)
    ensures Positions(RadialSlots(m, cfg, pushed)) == TurnPoints(m, RadialWalker(cfg), pushed)
  {
    assert forall k | 0 <= k < |pushed| ::
      Positions(RadialSlots(m, cfg, pushed))[k] == TurnPoints(m, RadialWalker(cfg), pushed)[k];
  }

  lemma RadialSlotsSnoc(m: Math, cfg: Config, pushed: seq<Turn>, t: Turn)
    ensures RadialSlots(m, cfg, pushed + [t])
            == RadialSlots(m, cfg, pushed)
               + [Slot(EllipseAt(m, RadialWalker(cfg), t.angle), cfg.insetRadius, cfg.borderWidth, cfg.borderWidth, 0, t.col)]
  {
    var tail := Slot(EllipseAt(m, RadialWalker(cfg), t.angle), cfg.insetRadius, cfg.borderWidth, cfg.borderWidth, 0, t.col);
    assert forall k | 0 <= k < |pushed| + 1 ::
      RadialSlots(m, cfg, pushed + [t])[k] == (RadialSlots(m, cfg, pushed) + [tail])[k];
  }

  /** One iteration keeps the loop invariant on the records it yields. */
  lemma AdvanceKeepsInvariant(m: Math, cfg: Config, st: Radial)
    requires RadialInvariant(cfg, RadialSlots(m, cfg, st.pushed), st.added)
    ensures RadialInvariant(cfg, RadialSlots(m, cfg, Advance(m, RadialWalker(cfg), st).pushed),
                            Advance(m, RadialWalker(cfg), st).added)
  {
    var w := RadialWalker(cfg);
    var circles := RadialSlots(m, cfg, st.pushed);
    RadialSlotsPositions(m, cfg, st.pushed);
    if Passes(m, w, st) {
      var p := EllipseAt(m, w, st.angle);
      var ok := Admissible(p, Positions(circles), cfg.insetRadius, cfg.borderWidth, cfg.supportSlot);
      RadialStep(cfg, circles, st.added, p, ok);
      if ok {
        RadialSlotsSnoc(m, cfg, st.pushed, Turn(st.angle, st.added));
      }
    }
  }

  /** One iteration of the radial loop on the concrete arrays: it moves the
      loop's state exactly as Advance does and reports the break. */
  method RadialTurn(m: Math, cfg: Config, circles: seq<Slot>, points: seq<Point>, added: int, angle: real,
                    ghost pushed: seq<Turn>)
    returns (circles': seq<Slot>, points': seq<Point>, added': int, angle': real, ghost pushed': seq<Turn>, stalled: bool)
    requires circles == RadialSlots(m, cfg, pushed) && points == Positions(circles)
    ensures Radial(pushed', added', angle') == Advance(m, RadialWalker(cfg), Radial(pushed, added, angle))
    ensures stalled == Stalls(m, RadialWalker(cfg), Radial(pushed, added, angle))
    ensures circles' == RadialSlots(m, cfg, pushed') && points' == Positions(circles')
  {
    var r, bw, s := cfg.insetRadius, cfg.borderWidth, cfg.supportSlot;
    var w := RadialWalker(cfg);
    var minSpacing := (2.0 * r) * 0.99;
    var position := EllipseAt(m, w, angle);
    var x, y := position.x, position.y;
    ghost var st := Radial(pushed, added, angle);
    RadialSlotsPositions(m, cfg, pushed);
    var overlaps := AnyOverlap(position, Positions(circles), r, bw);
    var insetIntersects := DoesInsetAreaIntersectOval(position, Origin, r, s.length, s.width);
    var outerIntersects := DoesInsetAreaIntersectOval(position, Origin, r + bw, s.length, s.width);
    if !overlaps && !insetIntersects && !outerIntersects {
      assert Passes(m, w, st);
      var ok;
      ok, circles', points' := AddCircle(cfg, circles, points, x, y, 0, added);
      if ok {
        Tray.PositionsSnoc(circles, Slot(position, r, bw, bw, 0, added));
        RadialSlotsSnoc(m, cfg, pushed, Turn(angle, added));
        pushed' := pushed + [Turn(angle, added)];
      } else {
        pushed' := pushed;
      }
      added' := added + 1;
      var speed := Speed(m, w, angle);
      stalled := speed == 0.0;
      angle' := if stalled then angle else angle + minSpacing / speed;
    } else {
      assert !Passes(m, w, st);
      circles', points', added', pushed', stalled := circles, points, added, pushed, false;
      angle' := angle + AngleNudge;
    }
  }

  /** The radial loop. Its slots and its count are those of the walk from
      angle 0 with nothing placed: slot k lies on the ellipse of semi-axes
      length/2 + r + bw + 1 and width/2 + r + bw + 1 at the angle the walk
      pushed it, in row 0 with the column the walk gave it. The points end
      with the origin. */
  method RadialPass(m: Math, cfg: Config) returns (circles: seq<Slot>, points: seq<Point>, added: int)
    ensures circles == RadialSlots(m, cfg, Walk(m, RadialWalker(cfg), RadialStart).pushed)
    ensures added == Walk(m, RadialWalker(cfg), RadialStart).added
    ensures RadialInvariant(cfg, circles, added)
    ensures added <= cfg.supportSlot.count || added == 0
    ensures points == Positions(circles) + [Origin]
  {
    var s := cfg.supportSlot;
    var centerX, centerY := 0.0, 0.0;
    ghost var w := RadialWalker(cfg);
    circles, points := [], [];
    added := 0;
    var angle := 0.0;
    ghost var pushed: seq<Turn> := [];
    var stalled := false;
    while added < s.count && angle < AngleLimit
      invariant circles == RadialSlots(m, cfg, pushed) && points == Positions(circles)
      invariant RadialInvariant(cfg, circles, added)
      invariant added <= s.count || added == 0
      invariant Walk(m, w, Radial(pushed, added, angle)) == Walk(m, w, RadialStart)
      decreases s.count - added, ((AngleLimit - angle) / AngleNudge).Floor
    {
      ghost var before := Radial(pushed, added, angle);
      AdvanceKeepsInvariant(m, cfg, before);
      circles, points, added, angle, pushed, stalled := RadialTurn(m, cfg, circles, points, added, angle, pushed);
      if stalled {
        assert Walk(m, w, before) == Radial(pushed, added, angle);
        break;
      }
    }
    points := points + [Point(centerX, centerY)];
  }

  // ---------------------------------------------------------------------------
  // Oval support mode
  // ---------------------------------------------------------------------------

  /** The callback of placeEvenCirclesAlongOval passes index i as `row` and
      leaves `col` at its default 0. */
  function OvalCandidates(calls: seq<OvalCall>): (cs: seq<Candidate>)
    ensures |cs| == |calls|
    ensures forall k | 0 <= k < |calls| :: cs[k] == Candidate(Point(calls[k].x, calls[k].y), calls[k].i, 0)
  {
    seq(|calls|, k requires 0 <= k < |calls| => Candidate(Point(calls[k].x, calls[k].y), calls[k].i, 0))
  }

  /** addCircle applied to the callback arguments, in order. */
  method OvalPass(cfg: Config, calls: seq<OvalCall>) returns (circles: seq<Slot>, points: seq<Point>)
    ensures circles == SlotsOf(cfg, Accepted(OvalCandidates(calls), cfg.insetRadius, cfg.borderWidth, cfg.supportSlot))
    ensures points == Positions(circles)
  {
    circles, points := [], [];
    ghost var cands := OvalCandidates(calls);
    ghost var acc: seq<Candidate> := [];
    var i := 0;
    while i < |calls|
      invariant 0 <= i <= |calls|
      invariant acc == Accepted(cands[..i], cfg.insetRadius, cfg.borderWidth, cfg.supportSlot)
      invariant circles == SlotsOf(cfg, acc)
      invariant points == Positions(circles)
    {
      var call := calls[i];
      circles, points, acc := PlaceCandidate(cfg, circles, points, cands, i, acc, call.x, call.y, call.i, 0);
      i := i + 1;
    }
    assert cands[..|calls|] == cands;
  }

  // ---------------------------------------------------------------------------
  // generateCirclePlacements
  // ---------------------------------------------------------------------------

  /** The three modes: with the support slot disabled, the fold of addCircle
      over the grid; in circle mode, the radial walk; in any other mode, the
      fold of addCircle over the callback calls of the oval sampler (`calls`,
      which only oval mode fills). Every slot passed canAddCircle against the
      slots before it and carries the configured radii. */
  method GenerateCirclePlacements(m: Math, cfg: Config) returns (circles: seq<Slot>, points: seq<Point>, ghost calls: seq<OvalCall>)
    ensures WellPlaced(Positions(circles), cfg.insetRadius, cfg.borderWidth, cfg.supportSlot)
    ensures CarriesConfig(cfg, circles)
    ensures !cfg.supportSlot.enabled ==>
              && circles == SlotsOf(cfg, Accepted(GridCandidates(cfg.rows, cfg.cols, XOffset(cfg), YOffset(m, cfg), cfg.stagger, cfg.straySlot),
                                                  cfg.insetRadius, cfg.borderWidth, cfg.supportSlot))
              && points == Positions(circles)
    ensures cfg.supportSlot.enabled && cfg.supportSlot.mode == CircleMode ==>
              && circles == RadialSlots(m, cfg, Walk(m, RadialWalker(cfg), RadialStart).pushed)
              && (|circles| <= cfg.supportSlot.count || circles == [])
              && points == Positions(circles) + [Origin]
              && RadiallyClear(Positions(circles), cfg.insetRadius, cfg.borderWidth, cfg.supportSlot)
              && forall k | 0 <= k < |circles| :: circles[k].row == 0
    ensures cfg.supportSlot.enabled && cfg.supportSlot.mode == OvalMode ==>
              && EvenlySampled(m, Origin, cfg.supportSlot.length, cfg.supportSlot.width, cfg.supportSlot.count, 2.0, calls)
              && circles == SlotsOf(cfg, Accepted(OvalCandidates(calls), cfg.insetRadius, cfg.borderWidth, cfg.supportSlot))
              && points == Positions(circles)
              && (forall k | 0 <= k < |circles| :: circles[k].col == 0 && 0 <= circles[k].row < cfg.supportSlot.count)
              && (forall j, k | 0 <= j < k < |circles| :: circles[j].row < circles[k].row)
  {
    var xOffset := XOffset(cfg);
    var yOffset := YOffset(m, cfg);
    var r, bw, s := cfg.insetRadius, cfg.borderWidth, cfg.supportSlot;
    calls := [];
    if s.enabled {
      if s.mode == CircleMode {
        var added;
        circles, points, added := RadialPass(m, cfg);
      } else {
        var sampled := PlaceEvenCirclesAlongOval(m, Origin, s.length, s.width, s.count, 2.0);
        calls := sampled;
        circles, points := OvalPass(cfg, sampled);
        OvalPassShape(cfg, sampled);
      }
    } else {
      circles, points := GridPass(cfg, xOffset, yOffset);
      GridPassWellPlaced(cfg, GridCandidates(cfg.rows, cfg.cols, xOffset, yOffset, cfg.stagger, cfg.straySlot));
    }
  }

  /** What any fold of addCircle yields: well placed, with the configured radii. */
  lemma GridPassWellPlaced(cfg: Config, cands: seq<Candidate>)
    ensures WellPlaced(Positions(SlotsOf(cfg, Accepted(cands, cfg.insetRadius, cfg.borderWidth, cfg.supportSlot))),
                       cfg.insetRadius, cfg.borderWidth, cfg.supportSlot)
    ensures CarriesConfig(cfg, SlotsOf(cfg, Accepted(cands, cfg.insetRadius, cfg.borderWidth, cfg.supportSlot)))
  {
    AcceptedWellPlaced(cands, cfg.insetRadius, cfg.borderWidth, cfg.supportSlot);
    SlotsOfPositions(cfg, Accepted(cands, cfg.insetRadius, cfg.borderWidth, cfg.supportSlot));
  }

  /** In oval mode slot k came from callback call i with row = i and col = 0;
      the rows are increasing and below the requested count. */
  lemma OvalPassShape(cfg: Config, calls: seq<OvalCall>)
    requires forall k | 0 <= k < |calls| :: calls[k].i == k
    requires |calls| <= cfg.supportSlot.count || calls == []
    ensures var circles := SlotsOf(cfg, Accepted(OvalCandidates(calls), cfg.insetRadius, cfg.borderWidth, cfg.supportSlot));
            && WellPlaced(Positions(circles), cfg.insetRadius, cfg.borderWidth, cfg.supportSlot)
            && CarriesConfig(cfg, circles)
            && (forall k | 0 <= k < |circles| :: circles[k].col == 0 && 0 <= circles[k].row < cfg.supportSlot.count)
            && (forall j, k | 0 <= j < k < |circles| :: circles[j].row < circles[k].row)
  {
    var cands := OvalCandidates(calls);
    var acc := Accepted(cands, cfg.insetRadius, cfg.borderWidth, cfg.supportSlot);
    GridPassWellPlaced(cfg, cands);
    assert StrictlyOrdered(cands) by {
      forall i, j | 0 <= i < j < |cands|
        ensures Before(cands[i], cands[j])
      {
      }
    }
    AcceptedOrdered(cands, cfg.insetRadius, cfg.borderWidth, cfg.supportSlot);
    forall k | 0 <= k < |acc|
      ensures acc[k].col == 0 && 0 <= acc[k].row < cfg.supportSlot.count
    {
      var i :| 0 <= i < |cands| && cands[i] == acc[k];
    }
    forall j, k | 0 <= j < k < |acc|
      ensures acc[j].row < acc[k].row
    {
      assert Before(acc[j], acc[k]);
      var i1 :| 0 <= i1 < |cands| && cands[i1] == acc[j];
      var i2 :| 0 <= i2 < |cands| && cands[i2] == acc[k];
    }
  }
}
