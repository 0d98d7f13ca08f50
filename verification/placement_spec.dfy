/** What the placement passes compute, stated on values: the `addCircle`
    closure applied to a list of candidates keeps exactly the candidates that
    `canAddCircle` accepts against the slots kept before them, and the grid
    pass offers its candidates row by row, column by column. */
module PlacementSpec {
  import opened Tray
  import opened CirclePlacementUtils
  import opened Squares

  /** A position offered to `addCircle`, with the row and column it is given. */
  datatype Candidate = Candidate(position: Point, row: int, col: int)

  function CandidatePositions(cs: seq<Candidate>): (ps: seq<Point>)
    ensures |ps| == |cs|
    ensures forall k | 0 <= k < |cs| :: ps[k] == cs[k].position
  {
    seq(|cs|, k requires 0 <= k < |cs| => cs[k].position)
  }

  // ---------------------------------------------------------------------------
  // The addCircle fold
  // ---------------------------------------------------------------------------

  /** The candidates `addCircle` keeps when it is called on `cands` in order,
      starting from no slots. */
  function Accepted(cands: seq<Candidate>, insetRadius: real, borderWidth: real, supportSlot: SupportSlot): (acc: seq<Candidate>)
    ensures |acc| <= |cands|
  {
    if cands == [] then []
    else
      var prev := Accepted(cands[..|cands| - 1], insetRadius, borderWidth, supportSlot);
      var c := cands[|cands| - 1];
      if Admissible(c.position, CandidatePositions(prev), insetRadius, borderWidth, supportSlot) then prev + [c] else prev
  }

  /** One more call of `addCircle`: the fold on `cands + [c]` extends the fold
      on `cands` by `c` exactly when `c` passes against what was kept. */
  lemma AcceptedSnoc(cands: seq<Candidate>, c: Candidate, insetRadius: real, borderWidth: real, supportSlot: SupportSlot)
    ensures Accepted(cands + [c], insetRadius, borderWidth, supportSlot)
            == var prev := Accepted(cands, insetRadius, borderWidth, supportSlot);
               if Admissible(c.position, CandidatePositions(prev), insetRadius, borderWidth, supportSlot) then prev + [c] else prev
  {
    assert (cands + [c])[..|cands|] == cands;
  }

  /** Every slot passed canAddCircle against all the slots before it. */
  ghost predicate WellPlaced(ps: seq<Point>, insetRadius: real, borderWidth: real, supportSlot: SupportSlot) {
    forall k | 0 <= k < |ps| :: Admissible(ps[k], ps[..k], insetRadius, borderWidth, supportSlot)
  }

  /** Appending a point admissible against a well-placed sequence keeps it well placed. */
  lemma WellPlacedAppend(ps: seq<Point>, p: Point, insetRadius: real, borderWidth: real, supportSlot: SupportSlot)
    requires WellPlaced(ps, insetRadius, borderWidth, supportSlot)
    requires Admissible(p, ps, insetRadius, borderWidth, supportSlot)
    ensures WellPlaced(ps + [p], insetRadius, borderWidth, supportSlot)
  {
    var qs := ps + [p];
    forall k | 0 <= k < |qs|
      ensures Admissible(qs[k], qs[..k], insetRadius, borderWidth, supportSlot)
    {
      if k < |ps| {
        assert qs[..k] == ps[..k];
      } else {
        assert qs[..k] == ps;
      }
    }
  }

  /** The slots a well-placed sequence holds are pairwise at least two inset
      radii apart (compared squared), and none lies in the support ellipse. */
  lemma WellPlacedSeparated(ps: seq<Point>, insetRadius: real, borderWidth: real, supportSlot: SupportSlot)
    requires WellPlaced(ps, insetRadius, borderWidth, supportSlot)
    ensures forall i, j | 0 <= i < j < |ps| ::
              DistSq(ps[j], ps[i]) >= Sq(insetRadius + insetRadius)
    ensures supportSlot.enabled ==> forall k | 0 <= k < |ps| ::
              !DoesInsetAreaIntersectOval(ps[k], Origin, insetRadius + borderWidth, supportSlot.length, supportSlot.width)
  {
    forall i, j | 0 <= i < j < |ps|
      ensures DistSq(ps[j], ps[i]) >= Sq(insetRadius + insetRadius)
    {
      assert Admissible(ps[j], ps[..j], insetRadius, borderWidth, supportSlot);
      assert ps[..j][i] == ps[i];
    }
  }

  /** The fold keeps only well-placed slots. */
  lemma {:induction false} AcceptedWellPlaced(cands: seq<Candidate>, insetRadius: real, borderWidth: real, supportSlot: SupportSlot)
    ensures WellPlaced(CandidatePositions(Accepted(cands, insetRadius, borderWidth, supportSlot)), insetRadius, borderWidth, supportSlot)
  {
    if cands != [] {
      var prev := Accepted(cands[..|cands| - 1], insetRadius, borderWidth, supportSlot);
      var c := cands[|cands| - 1];
      AcceptedWellPlaced(cands[..|cands| - 1], insetRadius, borderWidth, supportSlot);
      if Admissible(c.position, CandidatePositions(prev), insetRadius, borderWidth, supportSlot) {
        WellPlacedAppend(CandidatePositions(prev), c.position, insetRadius, borderWidth, supportSlot);
        assert CandidatePositions(prev + [c]) == CandidatePositions(prev) + [c.position];
      }
    }
  }

  /** When every candidate is admissible against all earlier candidates the
      fold keeps them all. */
  lemma {:induction false} AcceptedKeepsAll(cands: seq<Candidate>, insetRadius: real, borderWidth: real, supportSlot: SupportSlot)
    requires WellPlaced(CandidatePositions(cands), insetRadius, borderWidth, supportSlot)
    ensures Accepted(cands, insetRadius, borderWidth, supportSlot) == cands
  {
    if cands != [] {
      var n := |cands| - 1;
      var ps := CandidatePositions(cands);
      assert CandidatePositions(cands[..n]) == ps[..n];
      forall k | 0 <= k < n
        ensures Admissible(ps[..n][k], ps[..n][..k], insetRadius, borderWidth, supportSlot)
      {
        assert ps[..n][..k] == ps[..k];
      }
      AcceptedKeepsAll(cands[..n], insetRadius, borderWidth, supportSlot);
      assert Admissible(ps[n], ps[..n], insetRadius, borderWidth, supportSlot);
      assert cands[..n] + [cands[n]] == cands;
    }
  }

  /** Every kept candidate is one of the candidates, and the fold keeps their
      order: a candidate list strictly ordered by (row, col) gives a strictly
      ordered result, so no two slots share a (row, col) pair. */
  lemma {:induction false} AcceptedOrdered(cands: seq<Candidate>, insetRadius: real, borderWidth: real, supportSlot: SupportSlot)
    ensures forall k | 0 <= k < |Accepted(cands, insetRadius, borderWidth, supportSlot)| ::
              Accepted(cands, insetRadius, borderWidth, supportSlot)[k] in cands
    ensures StrictlyOrdered(cands) ==> StrictlyOrdered(Accepted(cands, insetRadius, borderWidth, supportSlot))
  {
    if cands != [] {
      var n := |cands| - 1;
      var prev := Accepted(cands[..n], insetRadius, borderWidth, supportSlot);
      var c := cands[n];
      AcceptedOrdered(cands[..n], insetRadius, borderWidth, supportSlot);
      assert forall d | d in cands[..n] :: d in cands;
      if StrictlyOrdered(cands) {
        assert StrictlyOrdered(cands[..n]);
        forall d | d in cands[..n]
          ensures Before(d, c)
        {
          var i :| 0 <= i < n && cands[..n][i] == d;
        }
      }
    }
  }

  /** Lexicographic (row, col) order. */
  predicate Before(c: Candidate, d: Candidate) {
    c.row < d.row || (c.row == d.row && c.col < d.col)
  }

  ghost predicate StrictlyOrdered(cs: seq<Candidate>) {
    forall i, j | 0 <= i < j < |cs| :: Before(cs[i], cs[j])
  }

  // ---------------------------------------------------------------------------
  // The grid candidates
  // ---------------------------------------------------------------------------

  /** Odd rows are staggered when stagger is on. */
  predicate IsStaggeredRow(stagger: bool, row: int) {
    stagger && row % 2 == 1
  }

  /** Columns offered in `row`: one fewer on staggered rows with stray-slot removal. */
  function EffectiveCols(cols: int, stagger: bool, straySlot: bool, row: int): (n: int)
    ensures n == cols || (n == cols - 1 && straySlot && IsStaggeredRow(stagger, row))
    ensures straySlot && IsStaggeredRow(stagger, row) ==> n == cols - 1
  {
    if straySlot && IsStaggeredRow(stagger, row) then cols - 1 else cols
  }

  /** The x coordinate of column `col` in `row`; staggered rows shift by half a pitch. */
  function GridX(col: int, row: int, xOffset: real, stagger: bool): real {
    var x := col as real * xOffset;
    if IsStaggeredRow(stagger, row) then x + xOffset / 2.0 else x
  }

  function GridCell(row: int, col: int, xOffset: real, yOffset: real, stagger: bool): Candidate {
    Candidate(Point(GridX(col, row, xOffset, stagger), row as real * yOffset), row, col)
  }

  /** The first `n` candidates of `row`. */
  function RowCandidates(row: int, n: int, xOffset: real, yOffset: real, stagger: bool): (cs: seq<Candidate>)
    ensures |cs| == if n > 0 then n else 0
    ensures forall k | 0 <= k < |cs| :: cs[k] == GridCell(row, k, xOffset, yOffset, stagger)
  {
    if n <= 0 then [] else RowCandidates(row, n - 1, xOffset, yOffset, stagger) + [GridCell(row, n - 1, xOffset, yOffset, stagger)]
  }

  /** The candidates of the first `rows` rows, in loop order. */
  function GridCandidates(rows: int, cols: int, xOffset: real, yOffset: real, stagger: bool, straySlot: bool): seq<Candidate>
  {
    if rows <= 0 then []
    else
      GridCandidates(rows - 1, cols, xOffset, yOffset, stagger, straySlot)
      + RowCandidates(rows - 1, EffectiveCols(cols, stagger, straySlot, rows - 1), xOffset, yOffset, stagger)
  }

  /** One more row extends the grid candidates by that row's cells. */
  lemma GridCandidatesNextRow(rows: int, cols: int, xOffset: real, yOffset: real, stagger: bool, straySlot: bool)
    requires 0 <= rows
    ensures GridCandidates(rows + 1, cols, xOffset, yOffset, stagger, straySlot)
            == GridCandidates(rows, cols, xOffset, yOffset, stagger, straySlot)
               + RowCandidates(rows, EffectiveCols(cols, stagger, straySlot, rows), xOffset, yOffset, stagger)
  {
  }

  /** Each grid candidate sits at its own (row, col) cell of the lattice, with
      row and col inside the loop bounds, and the candidates come in strict
      (row, col) order. */
  lemma {:induction false} GridCandidatesShape(rows: int, cols: int, xOffset: real, yOffset: real, stagger: bool, straySlot: bool)
    ensures forall k | 0 <= k < |GridCandidates(rows, cols, xOffset, yOffset, stagger, straySlot)| ::
              var c := GridCandidates(rows, cols, xOffset, yOffset, stagger, straySlot)[k];
              && 0 <= c.row < rows
              && 0 <= c.col < EffectiveCols(cols, stagger, straySlot, c.row)
              && c == GridCell(c.row, c.col, xOffset, yOffset, stagger)
    ensures StrictlyOrdered(GridCandidates(rows, cols, xOffset, yOffset, stagger, straySlot))
  {
    if rows > 0 {
      GridCandidatesShape(rows - 1, cols, xOffset, yOffset, stagger, straySlot);
      var prev := GridCandidates(rows - 1, cols, xOffset, yOffset, stagger, straySlot);
      var row := RowCandidates(rows - 1, EffectiveCols(cols, stagger, straySlot, rows - 1), xOffset, yOffset, stagger);
      var all := prev + row;
      forall i, j | 0 <= i < j < |all|
        ensures Before(all[i], all[j])
      {
        if j < |prev| {
          assert all[i] == prev[i] && all[j] == prev[j];
        } else if i < |prev| {
          assert all[i] == prev[i] && all[j] == row[j - |prev|];
        } else {
          assert all[i] == row[i - |prev|] && all[j] == row[j - |prev|];
        }
      }
    }
  }

  /** `rows` full rows of `cols` slots, less one slot on each of the rows/2
      odd rows when stagger and stray-slot removal are both on. */
  lemma {:induction false} GridCandidatesCount(rows: int, cols: int, xOffset: real, yOffset: real, stagger: bool, straySlot: bool)
    requires 0 <= rows && 1 <= cols
    ensures |GridCandidates(rows, cols, xOffset, yOffset, stagger, straySlot)|
            == rows * cols - (if stagger && straySlot then rows / 2 else 0)
  {
    if rows > 0 {
      GridCandidatesCount(rows - 1, cols, xOffset, yOffset, stagger, straySlot);
      assert rows * cols == (rows - 1) * cols + cols;
      assert rows / 2 == (rows - 1) / 2 + (if (rows - 1) % 2 == 1 then 1 else 0);
    }
  }

  // ---------------------------------------------------------------------------
  // The unstaggered lattice keeps every candidate
  // ---------------------------------------------------------------------------

  /** Two distinct cells of a square lattice of pitch x are at least |x| apart. */
  lemma LatticeSeparation(r1: int, c1: int, r2: int, c2: int, x: real)
    requires (r1, c1) != (r2, c2)
    ensures Sq(x) <= DistSq(Point(c1 as real * x, r1 as real * x), Point(c2 as real * x, r2 as real * x))
  {
    SquareNonNegative(c1 as real * x - c2 as real * x);
    SquareNonNegative(r1 as real * x - r2 as real * x);
    if c1 != c2 {
      GapSquare(c1 as real, c2 as real, x);
    } else {
      GapSquare(r1 as real, r2 as real, x);
    }
  }

  /** Two distinct cells of the unstaggered lattice whose pitch is at least
      two inset radii never overlap. */
  lemma CellsApart(c: Candidate, d: Candidate, xOffset: real, insetRadius: real)
    requires c == GridCell(c.row, c.col, xOffset, xOffset, false)
    requires d == GridCell(d.row, d.col, xOffset, xOffset, false)
    requires (c.row, c.col) != (d.row, d.col)
    requires 0.0 <= insetRadius + insetRadius <= xOffset
    ensures !AreInsetAreasOverlapping(c.position, d.position, insetRadius, insetRadius)
  {
    LatticeSeparation(c.row, c.col, d.row, d.col, xOffset);
    SquareMonotone(insetRadius + insetRadius, xOffset);
  }

  /** The unstaggered grid is well placed when no support slot is enabled. */
  lemma UnstaggeredGridWellPlaced(rows: int, cols: int, xOffset: real, straySlot: bool,
                                  insetRadius: real, borderWidth: real, supportSlot: SupportSlot)
    requires !supportSlot.enabled
    requires 0.0 <= insetRadius + insetRadius <= xOffset
    ensures WellPlaced(CandidatePositions(GridCandidates(rows, cols, xOffset, xOffset, false, straySlot)), insetRadius, borderWidth, supportSlot)
  {
    var cands := GridCandidates(rows, cols, xOffset, xOffset, false, straySlot);
    var ps := CandidatePositions(cands);
    GridCandidatesShape(rows, cols, xOffset, xOffset, false, straySlot);
    forall k, j | 0 <= j < k < |ps|
      ensures !AreInsetAreasOverlapping(ps[k], ps[j], insetRadius, insetRadius)
    {
      assert Before(cands[j], cands[k]);
      CellsApart(cands[k], cands[j], xOffset, insetRadius);
    }
    forall k | 0 <= k < |ps|
      ensures Admissible(ps[k], ps[..k], insetRadius, borderWidth, supportSlot)
    {
      assert forall j | 0 <= j < k :: ps[..k][j] == ps[j];
    }
  }

  /** Without stagger and without a support slot, with yOffset equal to
      xOffset and xOffset at least two inset radii, no grid candidate is
      rejected: the pass keeps all rows * cols of them. */
  lemma UnstaggeredGridKeepsAll(rows: int, cols: int, xOffset: real, straySlot: bool,
                                insetRadius: real, borderWidth: real, supportSlot: SupportSlot)
    requires !supportSlot.enabled
    requires 0.0 <= insetRadius + insetRadius <= xOffset
    ensures Accepted(GridCandidates(rows, cols, xOffset, xOffset, false, straySlot), insetRadius, borderWidth, supportSlot)
            == GridCandidates(rows, cols, xOffset, xOffset, false, straySlot)
    ensures 0 <= rows && 1 <= cols ==>
              |Accepted(GridCandidates(rows, cols, xOffset, xOffset, false, straySlot), insetRadius, borderWidth, supportSlot)| == rows * cols
  {
    UnstaggeredGridWellPlaced(rows, cols, xOffset, straySlot, insetRadius, borderWidth, supportSlot);
    AcceptedKeepsAll(GridCandidates(rows, cols, xOffset, xOffset, false, straySlot), insetRadius, borderWidth, supportSlot);
    if 0 <= rows && 1 <= cols {
      GridCandidatesCount(rows, cols, xOffset, xOffset, false, straySlot);
    }
  }
}
