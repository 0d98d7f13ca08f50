/** The placement predicates and the perimeter-even sampler of
    src/utils/CirclePlacementUtils.js. */
module CirclePlacementUtils {
  import opened Tray
  import opened Squares

  // ---------------------------------------------------------------------------
  // Overlap and exclusion predicates
  // ---------------------------------------------------------------------------

  /** Two discs of radii `purpleRadius1` and `purpleRadius2` overlap when their
      centres are strictly closer than the sum of the radii (compared squared). */
  predicate AreInsetAreasOverlapping(pos1: Point, pos2: Point, purpleRadius1: real, purpleRadius2: real) {
    var minAllowed := purpleRadius1 + purpleRadius2;
    DistSq(pos1, pos2) < Sq(minAllowed)
  }

  lemma OverlapSymmetricAndStrict(p: Point, q: Point, r1: real, r2: real)
    ensures AreInsetAreasOverlapping(p, q, r1, r2) == AreInsetAreasOverlapping(q, p, r2, r1)
    ensures AreInsetAreasOverlapping(p, q, r1, r2) <==> DistSq(p, q) < Sq(r1 + r2)
    ensures DistSq(p, q) == Sq(r1 + r2) ==> !AreInsetAreasOverlapping(p, q, r1, r2)
  {
    DistSqSymmetric(p, q);
  }

  /** The left-hand side of the expanded-ellipse test for semi-axes rx, ry,
      written as the sum of the squared normalised offsets; over the reals this
      is the source's dx*dx/(rx*rx) + dy*dy/(ry*ry). */
  function EllipseMeasure(p: Point, centre: Point, rx: real, ry: real): (e: real)
    requires rx != 0.0 && ry != 0.0
    ensures 0.0 <= e
    ensures p == centre ==> e == 0.0
  {
    var u := (p.x - centre.x) / rx;
    var v := (p.y - centre.y) / ry;
    u * u + v * v
  }

  /** A point lies strictly inside the ellipse of semi-axes length/2 + r and
      width/2 + r around `ovalPos`. When a semi-axis is 0 the source divides by
      zero; the quotient is then Infinity or NaN and the comparison with 1 is
      false, which is what the first two conjuncts say. */
  predicate DoesInsetAreaIntersectOval(circlePos: Point, ovalPos: Point, purpleRadius: real, ovalLength: real, ovalWidth: real) {
    var rx := ovalLength / 2.0 + purpleRadius;
    var ry := ovalWidth / 2.0 + purpleRadius;
    rx != 0.0 && ry != 0.0 && EllipseMeasure(circlePos, ovalPos, rx, ry) < 1.0
  }

  /** The test is strict: a point exactly on the expanded ellipse does not
      intersect, and the centre always does when both semi-axes are nonzero. */
  lemma OvalTestStrict(p: Point, centre: Point, r: real, length: real, width: real)
    requires length / 2.0 + r != 0.0 && width / 2.0 + r != 0.0
    ensures EllipseMeasure(p, centre, length / 2.0 + r, width / 2.0 + r) == 1.0
            ==> !DoesInsetAreaIntersectOval(p, centre, r, length, width)
    ensures DoesInsetAreaIntersectOval(centre, centre, r, length, width)
  {
  }

  /** Dividing by a larger positive semi-axis gives a smaller square. */
  lemma NormalisedSquareShrinks(d: real, a: real, b: real)
    requires 0.0 < a <= b
    ensures (d / b) * (d / b) <= (d / a) * (d / a)
  {
    var u, v := d / a, d / b;
    assert u * a == d && v * b == d;
    if d >= 0.0 {
      assert 0.0 <= v <= u;
    } else {
      assert u <= v <= 0.0;
    }
  }

  /** With positive semi-axes the expanded ellipse only grows with the radius,
      so a point that intersects at radius r also intersects at any r' >= r. */
  lemma IntersectionMonotoneInRadius(p: Point, centre: Point, r: real, r': real, length: real, width: real)
    requires 0.0 < length / 2.0 + r && 0.0 < width / 2.0 + r && r <= r'
    ensures DoesInsetAreaIntersectOval(p, centre, r, length, width)
            ==> DoesInsetAreaIntersectOval(p, centre, r', length, width)
  {
    var dx, dy := p.x - centre.x, p.y - centre.y;
    var rx, ry, rx', ry' := length / 2.0 + r, width / 2.0 + r, length / 2.0 + r', width / 2.0 + r';
    NormalisedSquareShrinks(dx, rx, rx');
    NormalisedSquareShrinks(dy, ry, ry');
    assert EllipseMeasure(p, centre, rx, ry) == (dx / rx) * (dx / rx) + (dy / ry) * (dy / ry);
    assert EllipseMeasure(p, centre, rx', ry') == (dx / rx') * (dx / rx') + (dy / ry') * (dy / ry');
  }

  // ---------------------------------------------------------------------------
  // canAddCircle
  // ---------------------------------------------------------------------------

  /** What canAddCircle accepts: no earlier slot's inset disc overlaps the
      candidate's, and, with a support slot, the candidate lies outside the
      support ellipse grown by the slot's outer radius. */
  predicate Admissible(p: Point, existing: seq<Point>, insetRadius: real, borderWidth: real, supportSlot: SupportSlot) {
    && (forall j | 0 <= j < |existing| :: !AreInsetAreasOverlapping(p, existing[j], insetRadius, insetRadius))
    && (supportSlot.enabled ==>
          !DoesInsetAreaIntersectOval(p, Origin, insetRadius + borderWidth, supportSlot.length, supportSlot.width))
  }

  /** `existing` holds the positions of the slots already placed, in order. The
      result does not depend on `row` or `col`, and the second oval test, a
      repeat of the first, never changes it. */
  method CanAddCircle(x: real, y: real, row: int, col: int, existing: seq<Point>,
                      insetRadius: real, borderWidth: real, supportSlot: SupportSlot)
    returns (ok: bool)
    ensures ok <==> Admissible(Point(x, y), existing, insetRadius, borderWidth, supportSlot)
    ensures ok ==> forall j | 0 <= j < |existing| :: DistSq(Point(x, y), existing[j]) >= Sq(2.0 * insetRadius)
  {
    var position := Point(x, y);
    var i := 0;
    while i < |existing|
      invariant 0 <= i <= |existing|
      invariant forall j | 0 <= j < i :: !AreInsetAreasOverlapping(position, existing[j], insetRadius, insetRadius)
    {
      if AreInsetAreasOverlapping(position, existing[i], insetRadius, insetRadius) {
        return false;
      }
      i := i + 1;
    }
    if supportSlot.enabled {
      var insetIntersectsOval := DoesInsetAreaIntersectOval(position, Origin, insetRadius + borderWidth, supportSlot.length, supportSlot.width);
      if insetIntersectsOval {
        return false;
      }
      var outerIntersectsOval := DoesInsetAreaIntersectOval(position, Origin, insetRadius + borderWidth, supportSlot.length, supportSlot.width);
      if outerIntersectsOval {
        return false;
      }
    }
    assert (2.0 * insetRadius) == insetRadius + insetRadius;
    return true;
  }

  // ---------------------------------------------------------------------------
  // placeEvenCirclesAlongOval: the cumulative arc-length table
  // ---------------------------------------------------------------------------

  /** The number of equal-angle samples of the ellipse. */
  const Steps: nat := 1000
  const AngleStep: real := TwoPi / 1000.0

  /** The angle of sample i. */
  function SampleAngle(i: int): real {
    i as real * AngleStep
  }

  /** The point (a cos t, b sin t) of the ellipse with semi-axes a and b. */
  function EllipsePoint(m: Math, a: real, b: real, t: real): Point {
    Point(a * m.cos(t), b * m.sin(t))
  }

  /** Length of the chord between samples i-1 and i of the ellipse. */
  function ChordLength(m: Math, a: real, b: real, i: int): real {
    m.sqrt(DistSq(EllipsePoint(m, a, b, SampleAngle(i)), EllipsePoint(m, a, b, SampleAngle(i - 1))))
  }

  /** The first k+1 entries of the cumulative arc-length table. */
  function ArcTable(m: Math, a: real, b: real, k: nat): (t: seq<real>)
    ensures |t| == k + 1
    ensures t[0] == 0.0
  {
    if k == 0 then [0.0]
    else
      var prev := ArcTable(m, a, b, k - 1);
      prev + [prev[k - 1] + ChordLength(m, a, b, k)]
  }

  ghost predicate Sorted(s: seq<real>) {
    forall i, j | 0 <= i <= j < |s| :: s[i] <= s[j]
  }

  /** Each entry adds one chord to the previous one. */
  lemma {:induction false} ArcTableRecurrence(m: Math, a: real, b: real, k: nat)
    ensures forall i | 1 <= i <= k :: ArcTable(m, a, b, k)[i] == ArcTable(m, a, b, k)[i - 1] + ChordLength(m, a, b, i)
  {
    if k > 0 {
      ArcTableRecurrence(m, a, b, k - 1);
      var prev := ArcTable(m, a, b, k - 1);
      assert ArcTable(m, a, b, k) == prev + [prev[k - 1] + ChordLength(m, a, b, k)];
    }
  }

  /** The table is non-decreasing, and its entries non-negative, whenever
      chords are non-negative. */
  lemma {:induction false} ArcTableSorted(m: Math, a: real, b: real, k: nat)
    requires SqrtNonNegative(m)
    ensures Sorted(ArcTable(m, a, b, k))
    ensures forall i | 0 <= i <= k :: 0.0 <= ArcTable(m, a, b, k)[i]
  {
    if k > 0 {
      ArcTableSorted(m, a, b, k - 1);
      var prev := ArcTable(m, a, b, k - 1);
      var t := ArcTable(m, a, b, k);
      assert t == prev + [prev[k - 1] + ChordLength(m, a, b, k)];
      forall i, j | 0 <= i <= j <= k
        ensures t[i] <= t[j]
      {
        if j < k {
          assert t[i] == prev[i] && t[j] == prev[j];
        } else {
          assert t[i] <= t[k - 1] + ChordLength(m, a, b, k);
        }
      }
    }
  }

  /** Step 1 of placeEvenCirclesAlongOval: the table has Steps+1 entries,
      starts at 0, and its last entry is the total length. */
  method BuildArcLengths(m: Math, a: real, b: real) returns (arcLengths: seq<real>, totalLength: real)
    ensures arcLengths == ArcTable(m, a, b, Steps)
    ensures |arcLengths| == Steps + 1 && arcLengths[0] == 0.0
    ensures totalLength == arcLengths[Steps]
  {
    arcLengths := [0.0];
    totalLength := 0.0;
    var i := 1;
    while i <= Steps
      invariant 1 <= i <= Steps + 1
      invariant arcLengths == ArcTable(m, a, b, i - 1)
      invariant totalLength == arcLengths[i - 1]
    {
      var t1 := SampleAngle(i - 1);
      var t2 := SampleAngle(i);
      var p1 := EllipsePoint(m, a, b, t1);
      var p2 := EllipsePoint(m, a, b, t2);
      var segmentLength := m.sqrt(DistSq(p2, p1));
      totalLength := totalLength + segmentLength;
      arcLengths := arcLengths + [totalLength];
      assert arcLengths == ArcTable(m, a, b, i);
      i := i + 1;
    }
  }

  // ---------------------------------------------------------------------------
  // placeEvenCirclesAlongOval: the binary search
  // ---------------------------------------------------------------------------

  /** Reference definition: the first index from `from` on whose entry reaches
      `target`, or the last index when none does. */
  function FirstAtLeast(t: seq<real>, target: real, from: nat): (k: nat)
    requires from < |t|
    ensures from <= k < |t|
    ensures k == |t| - 1 || target <= t[k]
    decreases |t| - from
  {
    if from == |t| - 1 || target <= t[from] then from else FirstAtLeast(t, target, from + 1)
  }

  /** Any index below which every entry misses the target, and which reaches it
      or is last, is the one FirstAtLeast finds. */
  lemma {:induction false} FirstAtLeastUnique(t: seq<real>, target: real, from: nat, low: nat)
    requires from <= low < |t|
    requires forall j | from <= j < low :: t[j] < target
    requires low == |t| - 1 || target <= t[low]
    ensures FirstAtLeast(t, target, from) == low
    decreases low - from
  {
    if from < low {
      FirstAtLeastUnique(t, target, from + 1, low);
    }
  }

  /** The search result characterised: entries before it miss the target,
      and its own entry reaches it when the last entry does. */
  lemma {:induction false} FirstAtLeastIsLeast(t: seq<real>, target: real, from: nat)
    requires from < |t|
    ensures forall j | from <= j < FirstAtLeast(t, target, from) :: t[j] < target
    ensures target <= t[|t| - 1] ==> target <= t[FirstAtLeast(t, target, from)]
    decreases |t| - from
  {
    if !(from == |t| - 1 || target <= t[from]) {
      FirstAtLeastIsLeast(t, target, from + 1);
    }
  }

  /** A larger target is reached no earlier in a sorted table. */
  lemma FirstAtLeastMonotone(t: seq<real>, target1: real, target2: real)
    requires |t| > 0 && Sorted(t) && target1 <= target2
    ensures FirstAtLeast(t, target1, 0) <= FirstAtLeast(t, target2, 0)
  {
    var k1, k2 := FirstAtLeast(t, target1, 0), FirstAtLeast(t, target2, 0);
    FirstAtLeastIsLeast(t, target1, 0);
    FirstAtLeastIsLeast(t, target2, 0);
  }

  /** The lower-bound binary search over the table. */
  method LowerBound(arcLengths: seq<real>, targetLength: real) returns (low: nat)
    requires |arcLengths| > 0
    ensures low < |arcLengths|
    ensures low == |arcLengths| - 1 || targetLength <= arcLengths[low]
    ensures Sorted(arcLengths) ==> forall j | 0 <= j < low :: arcLengths[j] < targetLength
    ensures Sorted(arcLengths) ==> low == FirstAtLeast(arcLengths, targetLength, 0)
  {
    low := 0;
    var high := |arcLengths| - 1;
    while low < high
      invariant 0 <= low <= high < |arcLengths|
      invariant high == |arcLengths| - 1 || targetLength <= arcLengths[high]
      invariant Sorted(arcLengths) ==> forall j | 0 <= j < low :: arcLengths[j] < targetLength
    {
      var mid := (low + high) / 2;
      if arcLengths[mid] < targetLength {
        low := mid + 1;
      } else {
        high := mid;
      }
    }
    if Sorted(arcLengths) {
      FirstAtLeastUnique(arcLengths, targetLength, 0, low);
    }
  }

  // ---------------------------------------------------------------------------
  // placeEvenCirclesAlongOval: one callback per slot
  // ---------------------------------------------------------------------------

  /** The arguments of one call of the `addCircle` callback, with the table
      index the search chose. */
  datatype OvalCall = OvalCall(x: real, y: real, i: int, sample: nat)

  /** The padded ellipse point at sample index k. */
  function OvalPoint(m: Math, centre: Point, a: real, b: real, padding: real, k: int): Point {
    var t := SampleAngle(k);
    Point(centre.x + (a + padding) * m.cos(t), centre.y + (b + padding) * m.sin(t))
  }

  /** The arc length slot i of n aims for. */
  function TargetLength(i: int, n: int, totalLength: real): real
    requires n != 0
  {
    (i as real / n as real) * totalLength
  }

  /** Targets of slots 0..n-1 lie in [0, totalLength] and grow with i. */
  lemma TargetLengthBounds(i: int, j: int, n: int, totalLength: real)
    requires 0 <= i <= j < n && 0.0 <= totalLength
    ensures 0.0 <= TargetLength(i, n, totalLength) <= TargetLength(j, n, totalLength) <= totalLength
  {
    var fi, fj := i as real / n as real, j as real / n as real;
    assert 0.0 <= fi <= fj <= 1.0;
    assert fi * totalLength <= fj * totalLength;
    assert fj * totalLength <= 1.0 * totalLength;
  }

  /** The callback is invoked once per slot, i = 0..numCircles-1 in order; slot
      i sits at the padded ellipse point of the least table index whose arc
      length reaches i/numCircles of the total, and these indices never
      decrease. */
  ghost predicate EvenlySampled(m: Math, ovalCenter: Point, a: real, b: real, numCircles: int, padding: real,
                                calls: seq<OvalCall>)
  {
    && |calls| == (if numCircles > 0 then numCircles else 0)
    && (forall i | 0 <= i < |calls| ::
          && calls[i].i == i
          && calls[i].sample <= Steps
          && Point(calls[i].x, calls[i].y) == OvalPoint(m, ovalCenter, a, b, padding, calls[i].sample))
    && (SqrtNonNegative(m) ==> forall i | 0 <= i < |calls| ::
          var table := ArcTable(m, a, b, Steps);
          var target := TargetLength(i, numCircles, table[Steps]);
          && calls[i].sample == FirstAtLeast(table, target, 0)
          && target <= table[calls[i].sample]
          && (forall j | 0 <= j < calls[i].sample :: table[j] < target))
    && (SqrtNonNegative(m) ==> forall i, j | 0 <= i <= j < |calls| :: calls[i].sample <= calls[j].sample)
  }

  method PlaceEvenCirclesAlongOval(m: Math, ovalCenter: Point, a: real, b: real, numCircles: int, padding: real)
    returns (calls: seq<OvalCall>)
    ensures EvenlySampled(m, ovalCenter, a, b, numCircles, padding, calls)
  {
    var arcLengths, totalLength := BuildArcLengths(m, a, b);
    if SqrtNonNegative(m) {
      ArcTableSorted(m, a, b, Steps);
    }
    calls := [];
    var i := 0;
    while i < numCircles
      invariant 0 <= i <= if numCircles > 0 then numCircles else 0
      invariant |calls| == i
      invariant forall k | 0 <= k < i ::
                  && calls[k].i == k
                  && calls[k].sample <= Steps
                  && Point(calls[k].x, calls[k].y) == OvalPoint(m, ovalCenter, a, b, padding, calls[k].sample)
      invariant SqrtNonNegative(m) ==> forall k | 0 <= k < i ::
                  calls[k].sample == FirstAtLeast(arcLengths, TargetLength(k, numCircles, totalLength), 0)
    {
      var targetLength := TargetLength(i, numCircles, totalLength);
      var low := LowerBound(arcLengths, targetLength);
      var position := OvalPoint(m, ovalCenter, a, b, padding, low);
      calls := calls + [OvalCall(position.x, position.y, i, low)];
      i := i + 1;
    }
    if SqrtNonNegative(m) {
      forall k | 0 <= k < |calls|
        ensures TargetLength(k, numCircles, totalLength) <= arcLengths[calls[k].sample]
        ensures forall j | 0 <= j < calls[k].sample :: arcLengths[j] < TargetLength(k, numCircles, totalLength)
      {
        TargetLengthBounds(k, k, numCircles, totalLength);
        FirstAtLeastIsLeast(arcLengths, TargetLength(k, numCircles, totalLength), 0);
      }
      forall k, j | 0 <= k <= j < |calls|
        ensures calls[k].sample <= calls[j].sample
      {
        TargetLengthBounds(k, j, numCircles, totalLength);
        FirstAtLeastMonotone(arcLengths, TargetLength(k, numCircles, totalLength), TargetLength(j, numCircles, totalLength));
      }
    }
  }
}
