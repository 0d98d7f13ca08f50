/** createNonIntersectingBorderSegments of src/utils/circleUtils.js: the
    angular intervals of a slot's border ring that neighbouring slots
    shadow are collected, sorted by start, merged, and complemented against
    [0, 2 PI]; one ring segment is built per visible arc. */
module CircleUtils {
  import opened Tray
  import opened Squares

  /** An angular interval [start, end], in radians. */
  datatype Range = Range(start: real, end: real)

  /** `Math.max`. */
  function Max(a: real, b: real): (c: real)
    ensures a <= c && b <= c
    ensures c == a || c == b
  {
    if a < b then b else a
  }

  predicate In(x: Range, t: real) {
    x.start <= t <= x.end
  }

  /** Angle `t` lies in one of the intervals. */
  ghost predicate Covered(s: seq<Range>, t: real) {
    exists k | 0 <= k < |s| :: In(s[k], t)
  }

  /** A non-empty sequence is its prefix followed by its last element. */
  lemma SnocOf(s: seq<Range>)
    requires s != []
    ensures s == s[..|s| - 1] + [s[|s| - 1]]
  {
  }

  lemma CoveredSnoc(s: seq<Range>, x: Range, t: real)
    ensures Covered(s + [x], t) <==> Covered(s, t) || In(x, t)
  {
    if Covered(s + [x], t) {
      var k :| 0 <= k < |s| + 1 && In((s + [x])[k], t);
      if k < |s| {
        assert In(s[k], t);
      }
    }
    if Covered(s, t) {
      var k :| 0 <= k < |s| && In(s[k], t);
      assert In((s + [x])[k], t);
    }
    if In(x, t) {
      assert In((s + [x])[|s|], t);
    }
  }

  ghost predicate WellFormed(s: seq<Range>) {
    forall k | 0 <= k < |s| :: s[k].start <= s[k].end
  }

  ghost predicate StartsSorted(s: seq<Range>) {
    forall j, k | 0 <= j < k < |s| :: s[j].start <= s[k].start
  }

  /** Each interval ends strictly before the next one starts. */
  ghost predicate Separated(s: seq<Range>) {
    forall j, k | 0 <= j < k < |s| :: s[j].end < s[k].start
  }

  // ---------------------------------------------------------------------------
  // Shadows
  // ---------------------------------------------------------------------------

  /** `Math.sqrt(dx * dx + dy * dy)` from the centre to a neighbour. */
  function Dist(m: Math, center: Point, other: Point): real {
    m.sqrt(DistSq(other, center))
  }

  /** The bearing `Math.atan2(dy, dx)` of a neighbour. */
  function Bearing(m: Math, center: Point, other: Point): real {
    m.atan2(other.y - center.y, other.x - center.x)
  }

  /** The argument of `Math.acos` for the half-width of a shadow. */
  function CosArg(dist: real, insetRadius: real, outerRadius: real): real
    requires dist != 0.0 && insetRadius != 0.0
  {
    (Sq(dist) + 2.0 * Sq(insetRadius) - 4.0 * Sq(outerRadius)) / (2.0 * dist * insetRadius)
  }

  /** The half-width is a number: a zero inset radius divides by zero and an
      argument outside [-1, 1] makes `Math.acos` return NaN. */
  predicate HalfWidthDefined(dist: real, insetRadius: real, outerRadius: real) {
    dist != 0.0 && insetRadius != 0.0 && -1.0 <= CosArg(dist, insetRadius, outerRadius) <= 1.0
  }

  /** The shadow one neighbour casts on the ring: only a neighbour closer
      than two outer radii, and not at the centre itself, casts one. */
  function Shadow(m: Math, center: Point, insetRadius: real, outerRadius: real, other: Point): (shadow: Option<Range>)
    ensures shadow.Some? ==> 0.0 < Dist(m, center, other) < outerRadius * 2.0
    ensures shadow.Some? ==> HalfWidthDefined(Dist(m, center, other), insetRadius, outerRadius)
  {
    var dist := Dist(m, center, other);
    if dist < outerRadius * 2.0 && dist > 0.0 then
      var angle := Bearing(m, center, other);
      if HalfWidthDefined(dist, insetRadius, outerRadius) then
        var overlapArc := m.acos(CosArg(dist, insetRadius, outerRadius));
        Some(Range(angle - overlapArc, angle + overlapArc))
      else
        None
    else
      None
  }

  /** A shadow is symmetric about the neighbour's bearing, at most 2 PI wide,
      and lies within [-2 PI, 2 PI], starting no later than PI. */
  lemma ShadowShape(m: Math, center: Point, insetRadius: real, outerRadius: real, other: Point)
    requires AngleRanges(m)
    requires Shadow(m, center, insetRadius, outerRadius, other).Some?
    ensures var s := Shadow(m, center, insetRadius, outerRadius, other).value;
            && s.start + s.end == 2.0 * Bearing(m, center, other)
            && 0.0 <= s.end - s.start <= TwoPi
            && -TwoPi <= s.start <= Pi
            && -Pi <= s.end <= TwoPi
  {
    var dist := Dist(m, center, other);
    var arg := CosArg(dist, insetRadius, outerRadius);
    assert 0.0 <= m.acos(arg) <= Pi;
    assert -Pi <= m.atan2(other.y - center.y, other.x - center.x) <= Pi;
  }

  /** The shadows of the neighbours, in neighbour order. */
  function Shadows(m: Math, center: Point, insetRadius: real, outerRadius: real, nearby: seq<Point>): (shadows: seq<Range>)
    ensures |shadows| <= |nearby|
  {
    if nearby == [] then []
    else
      var init := Shadows(m, center, insetRadius, outerRadius, nearby[..|nearby| - 1]);
      match Shadow(m, center, insetRadius, outerRadius, nearby[|nearby| - 1])
      case Some(s) => init + [s]
      case None => init
  }

  /** Every shadow comes from a neighbour, and every neighbour that casts a
      shadow contributes it. */
  lemma {:induction false} ShadowsFromNeighbours(m: Math, center: Point, insetRadius: real, outerRadius: real, nearby: seq<Point>)
    ensures forall s :: s in Shadows(m, center, insetRadius, outerRadius, nearby) <==>
              exists j | 0 <= j < |nearby| :: Shadow(m, center, insetRadius, outerRadius, nearby[j]) == Some(s)
  {
    if nearby != [] {
      var init := nearby[..|nearby| - 1];
      var other := nearby[|nearby| - 1];
      ShadowsFromNeighbours(m, center, insetRadius, outerRadius, init);
      forall s
        ensures s in Shadows(m, center, insetRadius, outerRadius, nearby) <==>
                exists j | 0 <= j < |nearby| :: Shadow(m, center, insetRadius, outerRadius, nearby[j]) == Some(s)
      {
        if exists j | 0 <= j < |nearby| :: Shadow(m, center, insetRadius, outerRadius, nearby[j]) == Some(s) {
          var j :| 0 <= j < |nearby| && Shadow(m, center, insetRadius, outerRadius, nearby[j]) == Some(s);
          if j < |init| {
            assert init[j] == nearby[j];
          }
        }
        if s in Shadows(m, center, insetRadius, outerRadius, init) {
          var j :| 0 <= j < |init| && Shadow(m, center, insetRadius, outerRadius, init[j]) == Some(s);
          assert nearby[j] == init[j];
        }
      }
    }
  }

  /** With the ranges of `Math.acos` and `Math.atan2`, the shadows are well
      formed and lie within [-2 PI, 2 PI], each starting no later than PI. */
  lemma ShadowsWellFormed(m: Math, center: Point, insetRadius: real, outerRadius: real, nearby: seq<Point>)
    requires AngleRanges(m)
    ensures var shadows := Shadows(m, center, insetRadius, outerRadius, nearby);
            && WellFormed(shadows)
            && forall k | 0 <= k < |shadows| :: -TwoPi <= shadows[k].start <= Pi && shadows[k].end <= TwoPi
  {
    var shadows := Shadows(m, center, insetRadius, outerRadius, nearby);
    ShadowsFromNeighbours(m, center, insetRadius, outerRadius, nearby);
    forall k | 0 <= k < |shadows|
      ensures shadows[k].start <= shadows[k].end
      ensures -TwoPi <= shadows[k].start <= Pi && shadows[k].end <= TwoPi
    {
      assert shadows[k] in shadows;
      var j :| 0 <= j < |nearby| && Shadow(m, center, insetRadius, outerRadius, nearby[j]) == Some(shadows[k]);
      ShadowShape(m, center, insetRadius, outerRadius, nearby[j]);
    }
  }

  /** The loop that pushes each neighbour's shadow into `overlapAngles`. */
  method CollectShadows(m: Math, center: Point, insetRadius: real, outerRadius: real, nearby: seq<Point>)
    returns (overlapAngles: seq<Range>)
    ensures overlapAngles == Shadows(m, center, insetRadius, outerRadius, nearby)
  {
    overlapAngles := [];
    var i := 0;
    while i < |nearby|
      invariant 0 <= i <= |nearby|
      invariant overlapAngles == Shadows(m, center, insetRadius, outerRadius, nearby[..i])
    {
      var other := nearby[i];
      var dx := other.x - center.x;
      var dy := other.y - center.y;
      var dSq := Sq(dx) + Sq(dy);
      var dist := m.sqrt(dSq);
      assert dist == Dist(m, center, other);
      if dist < outerRadius * 2.0 && dist > 0.0 {
        var angle := m.atan2(dy, dx);
        if HalfWidthDefined(dist, insetRadius, outerRadius) {
          var overlapArc := m.acos(CosArg(dist, insetRadius, outerRadius));
          overlapAngles := overlapAngles + [Range(angle - overlapArc, angle + overlapArc)];
        }
      }
      assert nearby[..i + 1][..i] == nearby[..i];
      i := i + 1;
    }
    assert nearby[..|nearby|] == nearby;
  }

  // ---------------------------------------------------------------------------
  // Sorting by start
  // ---------------------------------------------------------------------------

  /** In ranges sorted by start, every range before the last starts no later
      than it. */
  lemma InitStartsBelowLast(s: seq<Range>)
    requires s != [] && StartsSorted(s)
    ensures forall y | y in s[..|s| - 1] :: y.start <= s[|s| - 1].start
  {
    forall y | y in s[..|s| - 1]
      ensures y.start <= s[|s| - 1].start
    {
      var i :| 0 <= i < |s| - 1 && s[..|s| - 1][i] == y;
      assert s[i] == y;
    }
  }

  /** Appending a range that starts no earlier than every range keeps ranges
      sorted by start. */
  lemma SortedSnoc(r: seq<Range>, last: Range)
    requires StartsSorted(r)
    requires forall y | y in r :: y.start <= last.start
    ensures StartsSorted(r + [last])
  {
    forall j, k | 0 <= j < k < |r| + 1
      ensures (r + [last])[j].start <= (r + [last])[k].start
    {
      assert r[j] in r;
    }
  }

  /** Inserts `x` after every interval that starts no later than it. */
  function InsertByStart(x: Range, s: seq<Range>): (r: seq<Range>)
    requires StartsSorted(s)
    ensures StartsSorted(r)
    ensures multiset(r) == multiset(s) + multiset{x}
    ensures forall y | y in r :: y == x || y in s
  {
    if s == [] then [x]
    else if s[|s| - 1].start <= x.start then s + [x]
    else
      var init := s[..|s| - 1];
      var last := s[|s| - 1];
      SnocOf(s);
      InitStartsBelowLast(s);
      var r := InsertByStart(x, init);
      SortedSnoc(r, last);
      r + [last]
  }

  /** `overlapAngles.sort((a, b) => a.start - b.start)`: a stable sort by start. */
  function SortByStart(s: seq<Range>): (sorted: seq<Range>)
    ensures StartsSorted(sorted)
    ensures multiset(sorted) == multiset(s)
  {
    if s == [] then []
    else
      var init := s[..|s| - 1];
      SnocOf(s);
      InsertByStart(s[|s| - 1], SortByStart(init))
  }

  /** Reordering the intervals changes neither which angles they cover nor
      whether they are well formed. */
  lemma PermutationCovers(a: seq<Range>, b: seq<Range>)
    requires multiset(a) == multiset(b)
    ensures forall t :: Covered(a, t) <==> Covered(b, t)
    ensures WellFormed(a) ==> WellFormed(b)
  {
    forall t | Covered(a, t)
      ensures Covered(b, t)
    {
      var k :| 0 <= k < |a| && In(a[k], t);
      assert a[k] in multiset(b);
      var j :| 0 <= j < |b| && b[j] == a[k];
    }
    forall t | Covered(b, t)
      ensures Covered(a, t)
    {
      var k :| 0 <= k < |b| && In(b[k], t);
      assert b[k] in multiset(a);
      var j :| 0 <= j < |a| && a[j] == b[k];
    }
    if WellFormed(a) {
      forall k | 0 <= k < |b|
        ensures b[k].start <= b[k].end
      {
        assert b[k] in multiset(a);
        var j :| 0 <= j < |a| && a[j] == b[k];
      }
    }
  }

  // ---------------------------------------------------------------------------
  // Merging
  // ---------------------------------------------------------------------------

  /** One step of the merge loop: a range that starts no later than the last
      merged range ends extends that range; any other range is appended. */
  function MergeInto(merged: seq<Range>, range: Range): (r: seq<Range>)
    ensures |merged| <= |r| <= |merged| + 1 && r != []
  {
    if merged == [] then [range]
    else
      var last := merged[|merged| - 1];
      if range.start <= last.end then merged[..|merged| - 1] + [Range(last.start, Max(last.end, range.end))]
      else merged + [range]
  }

  /** The merged list the loop builds from the sorted shadows. */
  function Merged(ranges: seq<Range>): (merged: seq<Range>)
    ensures |merged| <= |ranges|
    ensures merged == [] <==> ranges == []
  {
    if ranges == [] then [] else MergeInto(Merged(ranges[..|ranges| - 1]), ranges[|ranges| - 1])
  }

  /** The shape the merged list keeps between steps: well-formed ranges, each
      ending strictly before the next starts, present exactly when some
      input is, the last one starting no later than the last input. */
  ghost predicate MergeShape(merged: seq<Range>, ranges: seq<Range>) {
    && WellFormed(merged)
    && Separated(merged)
    && (merged == [] <==> ranges == [])
    && (ranges != [] ==> merged[|merged| - 1].start <= ranges[|ranges| - 1].start)
  }

  /** What the merged list keeps between steps: its shape, and it covers
      exactly the angles the input covers. */
  ghost predicate MergeInvariant(merged: seq<Range>, ranges: seq<Range>) {
    && MergeShape(merged, ranges)
    && forall t :: Covered(merged, t) <==> Covered(ranges, t)
  }

  /** One merge step keeps the shape for a well-formed range that starts no
      earlier than the ranges before it. */
  lemma MergeIntoShape(merged: seq<Range>, ranges: seq<Range>, range: Range)
    requires MergeShape(merged, ranges)
    requires range.start <= range.end
    requires ranges != [] ==> ranges[|ranges| - 1].start <= range.start
    ensures MergeShape(MergeInto(merged, range), ranges + [range])
  {
    var r := MergeInto(merged, range);
    if merged != [] {
      var last := merged[|merged| - 1];
      if range.start <= last.end {
        assert forall k | 0 <= k < |merged| - 1 :: r[k] == merged[k];
        assert Separated(r) by {
          forall j, k | 0 <= j < k < |r|
            ensures r[j].end < r[k].start
          {
            assert merged[j].end < merged[k].start;
          }
        }
      } else {
        assert Separated(r) by {
          forall j, k | 0 <= j < k < |r|
            ensures r[j].end < r[k].start
          {
            if k < |merged| {
              assert merged[j].end < merged[k].start;
            } else if j < |merged| - 1 {
              assert merged[j].end < merged[|merged| - 1].start;
            }
          }
        }
      }
    }
  }

  /** One merge step keeps the coverage for a range that starts no earlier
      than the last merged range. */
  lemma MergeIntoCovers(merged: seq<Range>, ranges: seq<Range>, range: Range)
    requires forall t :: Covered(merged, t) <==> Covered(ranges, t)
    requires merged != [] ==> merged[|merged| - 1].start <= range.start
    ensures forall t :: Covered(MergeInto(merged, range), t) <==> Covered(ranges + [range], t)
  {
    var r := MergeInto(merged, range);
    forall t
      ensures Covered(r, t) <==> Covered(ranges + [range], t)
    {
      CoveredSnoc(ranges, range, t);
      if merged == [] {
        CoveredSnoc([], range, t);
      } else {
        var init := merged[..|merged| - 1];
        var last := merged[|merged| - 1];
        SnocOf(merged);
        CoveredSnoc(init, last, t);
        if range.start <= last.end {
          CoveredSnoc(init, Range(last.start, Max(last.end, range.end)), t);
        } else {
          CoveredSnoc(merged, range, t);
        }
      }
    }
  }

  /** One merge step keeps the invariant for a well-formed range that starts
      no earlier than the ranges before it. */
  lemma MergeIntoKeeps(merged: seq<Range>, ranges: seq<Range>, range: Range)
    requires MergeInvariant(merged, ranges)
    requires range.start <= range.end
    requires ranges != [] ==> ranges[|ranges| - 1].start <= range.start
    ensures MergeInvariant(MergeInto(merged, range), ranges + [range])
  {
    MergeIntoShape(merged, ranges, range);
    MergeIntoCovers(merged, ranges, range);
  }

  /** Merging well-formed ranges sorted by start yields well-formed ranges,
      each ending strictly before the next starts, that cover exactly the
      angles the input covers. */
  lemma {:induction false} MergedProperties(ranges: seq<Range>)
    requires StartsSorted(ranges) && WellFormed(ranges)
    ensures MergeInvariant(Merged(ranges), ranges)
    ensures StartsSorted(Merged(ranges))
  {
    if ranges != [] {
      var init := ranges[..|ranges| - 1];
      var range := ranges[|ranges| - 1];
      SnocOf(ranges);
      MergedProperties(init);
      MergeIntoKeeps(Merged(init), init, range);
    }
    var merged := Merged(ranges);
    forall j, k | 0 <= j < k < |merged|
      ensures merged[j].start <= merged[k].start
    {
      assert merged[j].end < merged[k].start;
    }
  }

  /** The merge loop; extending `last.end` in place is modelled by replacing
      the last merged range. */
  method MergeRanges(sorted: seq<Range>) returns (merged: seq<Range>)
    ensures merged == Merged(sorted)
  {
    merged := [];
    var i := 0;
    while i < |sorted|
      invariant 0 <= i <= |sorted|
      invariant merged == Merged(sorted[..i])
    {
      var range := sorted[i];
      if |merged| == 0 {
        merged := merged + [range];
      } else {
        var last := merged[|merged| - 1];
        if range.start <= last.end {
          merged := merged[..|merged| - 1] + [Range(last.start, Max(last.end, range.end))];
        } else {
          merged := merged + [range];
        }
      }
      assert sorted[..i + 1][..i] == sorted[..i];
      i := i + 1;
    }
    assert sorted[..|sorted|] == sorted;
  }

  // ---------------------------------------------------------------------------
  // Complement
  // ---------------------------------------------------------------------------

  /** The sweep's state: the visible arcs found so far and `lastEnd`. */
  datatype Sweep = Sweep(arcs: seq<Range>, lastEnd: real)

  /** One sweep step: an arc from `lastEnd` to the range's start when there
      is a gap, then `lastEnd` pushed to the range's end. */
  function Step(sw: Sweep, range: Range): Sweep {
    Sweep(if range.start > sw.lastEnd then sw.arcs + [Range(sw.lastEnd, range.start)] else sw.arcs,
          Max(sw.lastEnd, range.end))
  }

  /** The sweep over the merged ranges, starting from `lastEnd = 0`. */
  function SweepOver(merged: seq<Range>): (sw: Sweep)
    ensures 0.0 <= sw.lastEnd
    ensures |sw.arcs| <= |merged|
  {
    if merged == [] then Sweep([], 0.0) else Step(SweepOver(merged[..|merged| - 1]), merged[|merged| - 1])
  }

  /** The visible arcs: the sweep's arcs and, when `lastEnd` falls short of
      2 PI, the final arc up to 2 PI. */
  function VisibleArcs(merged: seq<Range>): (arcs: seq<Range>)
    ensures |arcs| <= |merged| + 1
  {
    var sw := SweepOver(merged);
    if sw.lastEnd < TwoPi then sw.arcs + [Range(sw.lastEnd, TwoPi)] else sw.arcs
  }

  /** The arc lies between the ranges: each range ends by the arc's start or
      starts at or after the arc's end. */
  ghost predicate Between(ranges: seq<Range>, arc: Range) {
    forall j | 0 <= j < |ranges| :: ranges[j].end <= arc.start || arc.end <= ranges[j].start
  }

  /** An arc between the ranges has no angle of its interior in any range. */
  lemma BetweenIsClear(ranges: seq<Range>, arc: Range, t: real)
    requires Between(ranges, arc)
    requires arc.start < t < arc.end
    ensures !Covered(ranges, t)
  {
  }

  /** `lastEnd` is at or past every range seen; the arcs are non-empty,
      ordered, start at or after 0 and end by `lastEnd` and by the last
      range's start. */
  ghost predicate SweepBounds(merged: seq<Range>, sw: Sweep) {
    && 0.0 <= sw.lastEnd
    && (forall j | 0 <= j < |merged| :: merged[j].end <= sw.lastEnd)
    && (forall k | 0 <= k < |sw.arcs| :: 0.0 <= sw.arcs[k].start < sw.arcs[k].end <= sw.lastEnd)
    && (forall j, k | 0 <= j < k < |sw.arcs| :: sw.arcs[j].end <= sw.arcs[k].start)
    && (forall k | 0 <= k < |sw.arcs| :: merged != [] && sw.arcs[k].end <= merged[|merged| - 1].start)
  }

  /** Every arc lies between the ranges. */
  ghost predicate SweepBetween(merged: seq<Range>, sw: Sweep) {
    forall k | 0 <= k < |sw.arcs| :: Between(merged, sw.arcs[k])
  }

  /** Once `lastEnd` is positive, every angle from 0 to `lastEnd` is on an arc
      or in a range. */
  ghost predicate SweepCovers(merged: seq<Range>, sw: Sweep) {
    0.0 < sw.lastEnd ==> forall t | 0.0 <= t <= sw.lastEnd :: Covered(sw.arcs, t) || Covered(merged, t)
  }

  /** What the sweep keeps. */
  ghost predicate SweepInvariant(merged: seq<Range>, sw: Sweep) {
    SweepBounds(merged, sw) && SweepBetween(merged, sw) && SweepCovers(merged, sw)
  }

  /** After one sweep step over the last range, `lastEnd` is at or past every
      range and the arcs keep their bounds and their order. */
  lemma SweepStepBounds(merged: seq<Range>, sw: Sweep)
    requires merged != []
    requires SweepBounds(merged[..|merged| - 1], sw)
    requires merged[|merged| - 1].start <= merged[|merged| - 1].end
    requires |merged| > 1 ==> merged[|merged| - 2].start <= merged[|merged| - 1].start
    ensures SweepBounds(merged, Step(sw, merged[|merged| - 1]))
  {
  }

  /** After one sweep step over the last range every arc lies between the
      ranges. */
  lemma SweepStepBetween(merged: seq<Range>, sw: Sweep)
    requires merged != []
    requires SweepBounds(merged[..|merged| - 1], sw) && SweepBetween(merged[..|merged| - 1], sw)
    requires merged[|merged| - 1].start <= merged[|merged| - 1].end
    requires |merged| > 1 ==> merged[|merged| - 2].start <= merged[|merged| - 1].start
    ensures SweepBetween(merged, Step(sw, merged[|merged| - 1]))
  {
    var init := merged[..|merged| - 1];
    var range := merged[|merged| - 1];
    var arcs := Step(sw, range).arcs;
    forall k | 0 <= k < |arcs|
      ensures Between(merged, arcs[k])
    {
      forall j | 0 <= j < |merged|
        ensures merged[j].end <= arcs[k].start || arcs[k].end <= merged[j].start
      {
        if j < |init| {
          assert merged[j] == init[j];
          if k < |sw.arcs| {
            assert arcs[k] == sw.arcs[k];
            assert Between(init, sw.arcs[k]);
          }
        }
      }
    }
  }

  /** A non-empty sequence covers what its prefix or its last element does. */
  lemma CoveredInit(s: seq<Range>, t: real)
    requires s != []
    ensures Covered(s, t) <==> Covered(s[..|s| - 1], t) || In(s[|s| - 1], t)
  {
    SnocOf(s);
    CoveredSnoc(s[..|s| - 1], s[|s| - 1], t);
  }

  /** Once the new `lastEnd` is positive, every angle from 0 to it is on an
      arc or in a range after one sweep step over the last range. */
  lemma SweepStepCovers(merged: seq<Range>, sw: Sweep)
    requires merged != []
    requires SweepBounds(merged[..|merged| - 1], sw) && SweepCovers(merged[..|merged| - 1], sw)
    requires merged[|merged| - 1].start <= merged[|merged| - 1].end
    ensures SweepCovers(merged, Step(sw, merged[|merged| - 1]))
  {
    var range := merged[|merged| - 1];
    var arc := Range(sw.lastEnd, range.start);
    var next := Step(sw, range);
    forall t | 0.0 <= t <= next.lastEnd && 0.0 < next.lastEnd
      ensures Covered(next.arcs, t) || Covered(merged, t)
    {
      CoveredInit(merged, t);
      if range.start > sw.lastEnd {
        CoveredSnoc(sw.arcs, arc, t);
      }
    }
  }

  /** One sweep step keeps the invariant: the sweep over sorted ranges keeps
      it when the sweep over all but the last range does. */
  lemma SweepStepKeeps(merged: seq<Range>)
    requires merged != []
    requires SweepInvariant(merged[..|merged| - 1], SweepOver(merged[..|merged| - 1]))
    requires merged[|merged| - 1].start <= merged[|merged| - 1].end
    requires |merged| > 1 ==> merged[|merged| - 2].start <= merged[|merged| - 1].start
    ensures SweepInvariant(merged, SweepOver(merged))
  {
    var prev := SweepOver(merged[..|merged| - 1]);
    SweepStepBounds(merged, prev);
    SweepStepBetween(merged, prev);
    SweepStepCovers(merged, prev);
  }

  /** Dropping the last range keeps ranges well-formed and sorted by start. */
  lemma SortedInit(merged: seq<Range>)
    requires merged != []
    requires StartsSorted(merged) && WellFormed(merged)
    ensures StartsSorted(merged[..|merged| - 1]) && WellFormed(merged[..|merged| - 1])
  {
  }

  /** The sweep over ranges sorted by start keeps its invariant. */
  lemma {:induction false} SweepProperties(merged: seq<Range>)
    requires StartsSorted(merged) && WellFormed(merged)
    ensures SweepInvariant(merged, SweepOver(merged))
  {
    if merged != [] {
      SortedInit(merged);
      SweepProperties(merged[..|merged| - 1]);
      SweepStepKeeps(merged);
    }
  }

  /** The visible arcs of ranges sorted by start: each is a non-empty arc
      starting at or after 0, they are ordered and do not overlap, together
      with the ranges they cover [0, 2 PI], no arc's interior meets a range,
      and they end by 2 PI when every range starts by 2 PI. With no ranges
      the single arc is [0, 2 PI]. */
  lemma VisibleArcsProperties(merged: seq<Range>)
    requires StartsSorted(merged) && WellFormed(merged)
    ensures var arcs := VisibleArcs(merged);
            && (forall k | 0 <= k < |arcs| :: 0.0 <= arcs[k].start < arcs[k].end)
            && (forall j, k | 0 <= j < k < |arcs| :: arcs[j].end <= arcs[k].start)
            && (forall t | 0.0 <= t <= TwoPi :: Covered(arcs, t) || Covered(merged, t))
            && (forall k, t | 0 <= k < |arcs| && arcs[k].start < t < arcs[k].end :: !Covered(merged, t))
            && ((forall j | 0 <= j < |merged| :: merged[j].start <= TwoPi) ==> forall k | 0 <= k < |arcs| :: arcs[k].end <= TwoPi)
            && (merged == [] ==> arcs == [Range(0.0, TwoPi)])
  {
    SweepProperties(merged);
    var sw := SweepOver(merged);
    var arcs := VisibleArcs(merged);
    if sw.lastEnd < TwoPi {
      var arc := Range(sw.lastEnd, TwoPi);
      assert arcs == sw.arcs + [arc];
      forall t
        ensures Covered(arcs, t) <==> Covered(sw.arcs, t) || In(arc, t)
      {
        CoveredSnoc(sw.arcs, arc, t);
      }
    }
    forall k | 0 <= k < |arcs|
      ensures Between(merged, arcs[k])
    {
      if k < |sw.arcs| {
        assert arcs[k] == sw.arcs[k];
      }
    }
    forall k, t | 0 <= k < |arcs| && arcs[k].start < t < arcs[k].end
      ensures !Covered(merged, t)
    {
      BetweenIsClear(merged, arcs[k], t);
    }
    if forall j | 0 <= j < |merged| :: merged[j].start <= TwoPi {
      forall k | 0 <= k < |arcs|
        ensures arcs[k].end <= TwoPi
      {
        if k < |sw.arcs| {
          assert arcs[k] == sw.arcs[k];
          assert merged != [];
          assert sw.arcs[k].end <= merged[|merged| - 1].start;
        }
      }
    }
  }

  /** The sweep loop and the final arc. */
  method Complement(merged: seq<Range>) returns (visibleArcs: seq<Range>)
    ensures visibleArcs == VisibleArcs(merged)
  {
    visibleArcs := [];
    var lastEnd := 0.0;
    var i := 0;
    while i < |merged|
      invariant 0 <= i <= |merged|
      invariant Sweep(visibleArcs, lastEnd) == SweepOver(merged[..i])
    {
      var range := merged[i];
      if range.start > lastEnd {
        visibleArcs := visibleArcs + [Range(lastEnd, range.start)];
      }
      lastEnd := Max(lastEnd, range.end);
      assert merged[..i + 1][..i] == merged[..i];
      i := i + 1;
    }
    assert merged[..|merged|] == merged;
    if lastEnd < TwoPi {
      visibleArcs := visibleArcs + [Range(lastEnd, TwoPi)];
    }
  }

  // ---------------------------------------------------------------------------
  // The whole computation
  // ---------------------------------------------------------------------------

  /** The visible arcs around ranges: sorted by start, merged, swept. */
  function ArcsOutside(ranges: seq<Range>): seq<Range> {
    VisibleArcs(Merged(SortByStart(ranges)))
  }

  /** The visible arcs of the ring around `center`. */
  function BorderArcs(m: Math, center: Point, insetRadius: real, outerRadius: real, nearby: seq<Point>): seq<Range> {
    ArcsOutside(Shadows(m, center, insetRadius, outerRadius, nearby))
  }

  /** The sort, the merge and the sweep over well-formed ranges that start
      by 2 PI: every visible arc is a non-empty arc within [0, 2 PI]; the arcs
      are ordered and do not overlap; arcs and ranges together cover
      [0, 2 PI]; no arc's interior meets a range; and with no range the ring
      is one arc [0, 2 PI]. */
  lemma ArcsAroundRanges(ranges: seq<Range>)
    requires WellFormed(ranges)
    requires forall k | 0 <= k < |ranges| :: ranges[k].start <= TwoPi
    ensures forall k | 0 <= k < |ArcsOutside(ranges)| :: 0.0 <= ArcsOutside(ranges)[k].start < ArcsOutside(ranges)[k].end <= TwoPi
    ensures forall j, k | 0 <= j < k < |ArcsOutside(ranges)| :: ArcsOutside(ranges)[j].end <= ArcsOutside(ranges)[k].start
    ensures forall t | 0.0 <= t <= TwoPi :: Covered(ArcsOutside(ranges), t) || Covered(ranges, t)
    ensures forall k, t | 0 <= k < |ArcsOutside(ranges)| && ArcsOutside(ranges)[k].start < t < ArcsOutside(ranges)[k].end :: !Covered(ranges, t)
    ensures ranges == [] ==> ArcsOutside(ranges) == [Range(0.0, TwoPi)]
  {
    var sorted := SortByStart(ranges);
    PermutationCovers(ranges, sorted);
    MergedProperties(sorted);
    var merged := Merged(sorted);
    SortedMergedStartsBounded(ranges, sorted, merged);
    VisibleArcsProperties(merged);
  }

  /** With the ranges of `Math.acos` and `Math.atan2`: every visible arc is a
      non-empty arc within [0, 2 PI]; the arcs are ordered and do not overlap;
      arcs and shadows together cover [0, 2 PI]; no arc's interior meets a
      shadow as it stands; and with no shadow the ring is one arc [0, 2 PI]. */
  lemma BorderArcsProperties(m: Math, center: Point, insetRadius: real, outerRadius: real, nearby: seq<Point>)
    requires AngleRanges(m)
    ensures var shadows := Shadows(m, center, insetRadius, outerRadius, nearby);
            var arcs := BorderArcs(m, center, insetRadius, outerRadius, nearby);
            && (forall k | 0 <= k < |arcs| :: 0.0 <= arcs[k].start < arcs[k].end <= TwoPi)
            && (forall j, k | 0 <= j < k < |arcs| :: arcs[j].end <= arcs[k].start)
            && (forall t | 0.0 <= t <= TwoPi :: Covered(arcs, t) || Covered(shadows, t))
            && (forall k, t | 0 <= k < |arcs| && arcs[k].start < t < arcs[k].end :: !Covered(shadows, t))
            && (shadows == [] ==> arcs == [Range(0.0, TwoPi)])
  {
    ShadowsWellFormed(m, center, insetRadius, outerRadius, nearby);
    ArcsAroundRanges(Shadows(m, center, insetRadius, outerRadius, nearby));
  }

  /** Every merged range starts at the start of some shadow, so by 2 PI when
      the shadows all do. */
  lemma SortedMergedStartsBounded(shadows: seq<Range>, sorted: seq<Range>, merged: seq<Range>)
    requires forall k | 0 <= k < |shadows| :: shadows[k].start <= TwoPi
    requires multiset(sorted) == multiset(shadows)
    requires StartsSorted(sorted) && WellFormed(sorted)
    requires merged == Merged(sorted)
    ensures forall j | 0 <= j < |merged| :: merged[j].start <= TwoPi
  {
    forall k | 0 <= k < |sorted|
      ensures sorted[k].start <= TwoPi
    {
      assert sorted[k] in multiset(shadows);
    }
    MergedStartsFromInput(sorted);
  }

  /** Each merged range starts where some input range starts. */
  lemma {:induction false} MergedStartsFromInput(ranges: seq<Range>)
    ensures forall j | 0 <= j < |Merged(ranges)| :: exists k | 0 <= k < |ranges| :: Merged(ranges)[j].start == ranges[k].start
  {
    if ranges != [] {
      var init := ranges[..|ranges| - 1];
      var range := ranges[|ranges| - 1];
      MergedStartsFromInput(init);
      var prev := Merged(init);
      var merged := Merged(ranges);
      forall j | 0 <= j < |merged|
        ensures exists k | 0 <= k < |ranges| :: merged[j].start == ranges[k].start
      {
        if j < |prev| {
          assert merged[j].start == prev[j].start;
          var k :| 0 <= k < |init| && prev[j].start == init[k].start;
          assert ranges[k] == init[k];
        } else {
          assert merged[j] == range;
          assert ranges[|ranges| - 1] == range;
        }
      }
      assert forall j | 0 <= j < |Merged(ranges)| :: exists k | 0 <= k < |ranges| :: Merged(ranges)[j].start == ranges[k].start;
    } else {
      assert |Merged(ranges)| == 0;
    }
  }

  // ---------------------------------------------------------------------------
  // Shadows at negative bearings
  // ---------------------------------------------------------------------------

  /** Angle `t` lies in the range taken modulo 2 PI. */
  predicate InTurn(x: Range, t: real) {
    In(x, t) || In(x, t - TwoPi) || In(x, t + TwoPi)
  }

  /** Angle `t` lies in one of the shadows, taken modulo 2 PI: the ring at
      bearing `t` meets a neighbour. */
  ghost predicate Shadowed(shadows: seq<Range>, t: real) {
    exists k | 0 <= k < |shadows| :: InTurn(shadows[k], t)
  }

  /** The neighbour straight below a ring of inset radius 10 and outer radius
      12, at distance 20, casts the shadow [-PI/2 - a, -PI/2 + a] with
      a = acos(0.06), which lies wholly below 0. The sweep starts at 0, so it
      never sees that shadow and the whole ring [0, 2 PI] is drawn, although
      the ring at bearing 3 PI / 2 meets the neighbour. */
  lemma NegativeBearingShadowIgnored(m: Math)
    requires m.sqrt(400.0) == 20.0
    requires m.atan2(-20.0, 0.0) == -Pi / 2.0
    requires 1.5 <= m.acos(0.06) <= 1.52
    ensures var nearby := [Point(0.0, -20.0)];
            && BorderArcs(m, Origin, 10.0, 12.0, nearby) == [Range(0.0, TwoPi)]
            && 0.0 < 3.0 * Pi / 2.0 < TwoPi
            && Shadowed(Shadows(m, Origin, 10.0, 12.0, nearby), 3.0 * Pi / 2.0)
  {
    var nearby := [Point(0.0, -20.0)];
    var other := nearby[0];
    assert DistSq(other, Origin) == 400.0;
    assert Dist(m, Origin, other) == 20.0;
    assert CosArg(20.0, 10.0, 12.0) == 0.06;
    var a := m.acos(0.06);
    var shadow := Range(-Pi / 2.0 - a, -Pi / 2.0 + a);
    assert Shadow(m, Origin, 10.0, 12.0, other) == Some(shadow);
    assert nearby[..0] == [];
    var shadows := Shadows(m, Origin, 10.0, 12.0, nearby);
    assert shadows == [shadow];
    assert SortByStart(shadows) == [shadow];
    assert Merged([shadow]) == [shadow];
    assert SweepOver([shadow]) == Sweep([], 0.0);
    assert InTurn(shadow, 3.0 * Pi / 2.0);
  }

  /** A shadow moved into [0, 2 PI]: a shadow below 0 is shifted up by 2 PI,
      one straddling 0 is split at 0. */
  function Wrap(x: Range): (pieces: seq<Range>)
    ensures 1 <= |pieces| <= 2
  {
    if x.start < 0.0 then
      if x.end < 0.0 then [Range(x.start + TwoPi, x.end + TwoPi)]
      else [Range(x.start + TwoPi, TwoPi), Range(0.0, x.end)]
    else [x]
  }

  /** Within [-2 PI, 2 PI], the pieces of a shadow are well formed, lie in
      [0, 2 PI], cover only angles the shadow covers modulo 2 PI, and cover
      every such angle strictly between 0 and 2 PI. */
  lemma WrapCovers(x: Range, t: real)
    requires -TwoPi <= x.start <= x.end <= TwoPi
    ensures forall k | 0 <= k < |Wrap(x)| :: 0.0 <= Wrap(x)[k].start <= Wrap(x)[k].end <= TwoPi
    ensures 0.0 <= t <= TwoPi && Covered(Wrap(x), t) ==> InTurn(x, t)
    ensures 0.0 < t < TwoPi && InTurn(x, t) ==> Covered(Wrap(x), t)
  {
    var pieces := Wrap(x);
    if 0.0 < t < TwoPi && InTurn(x, t) {
      if x.start < 0.0 && x.end >= 0.0 && t <= x.end {
        assert In(pieces[1], t);
      } else {
        assert In(pieces[0], t);
      }
    }
  }

  /** Every shadow moved into [0, 2 PI], in turn. */
  function WrapAll(shadows: seq<Range>): (wrapped: seq<Range>)
    ensures |shadows| <= |wrapped| <= 2 * |shadows|
  {
    if shadows == [] then [] else WrapAll(shadows[..|shadows| - 1]) + Wrap(shadows[|shadows| - 1])
  }

  /** Angle `t` is in a concatenation of ranges when it is in either part. */
  lemma CoveredConcat(a: seq<Range>, b: seq<Range>, t: real)
    ensures Covered(a + b, t) <==> Covered(a, t) || Covered(b, t)
  {
    if Covered(a + b, t) {
      var k :| 0 <= k < |a + b| && In((a + b)[k], t);
      if k < |a| {
        assert In(a[k], t);
      } else {
        assert In(b[k - |a|], t);
      }
    }
    if Covered(a, t) {
      var k :| 0 <= k < |a| && In(a[k], t);
      assert In((a + b)[k], t);
    }
    if Covered(b, t) {
      var k :| 0 <= k < |b| && In(b[k], t);
      assert In((a + b)[|a| + k], t);
    }
  }

  /** A non-empty sequence of shadows shadows what its prefix or its last
      shadow does. */
  lemma ShadowedInit(shadows: seq<Range>, t: real)
    requires shadows != []
    ensures Shadowed(shadows, t) <==> Shadowed(shadows[..|shadows| - 1], t) || InTurn(shadows[|shadows| - 1], t)
  {
    var init := shadows[..|shadows| - 1];
    if Shadowed(shadows, t) {
      var k :| 0 <= k < |shadows| && InTurn(shadows[k], t);
      if k < |init| {
        assert InTurn(init[k], t);
      }
    }
    if Shadowed(init, t) {
      var k :| 0 <= k < |init| && InTurn(init[k], t);
      assert InTurn(shadows[k], t);
    }
  }

  /** Within [-2 PI, 2 PI], the wrapped shadows lie in [0, 2 PI]. */
  lemma {:induction false} WrapAllBounds(shadows: seq<Range>)
    requires forall k | 0 <= k < |shadows| :: -TwoPi <= shadows[k].start <= shadows[k].end <= TwoPi
    ensures forall k | 0 <= k < |WrapAll(shadows)| :: 0.0 <= WrapAll(shadows)[k].start <= WrapAll(shadows)[k].end <= TwoPi
  {
    if shadows != [] {
      var init := shadows[..|shadows| - 1];
      var last := shadows[|shadows| - 1];
      WrapAllBounds(init);
      WrapCovers(last, 0.0);
      var wrapped := WrapAll(shadows);
      var before := WrapAll(init);
      assert wrapped == before + Wrap(last);
      forall k | 0 <= k < |wrapped|
        ensures 0.0 <= wrapped[k].start <= wrapped[k].end <= TwoPi
      {
        if k < |before| {
          assert wrapped[k] == before[k];
        } else {
          assert wrapped[k] == Wrap(last)[k - |before|];
        }
      }
    }
  }

  /** Within [-2 PI, 2 PI], the wrapped shadows cover only angles of
      [0, 2 PI] the shadows cover modulo 2 PI, and every such angle strictly
      between 0 and 2 PI. */
  lemma {:induction false} WrapAllCoversAt(shadows: seq<Range>, t: real)
    requires forall k | 0 <= k < |shadows| :: -TwoPi <= shadows[k].start <= shadows[k].end <= TwoPi
    ensures 0.0 <= t <= TwoPi && Covered(WrapAll(shadows), t) ==> Shadowed(shadows, t)
    ensures 0.0 < t < TwoPi && Shadowed(shadows, t) ==> Covered(WrapAll(shadows), t)
  {
    if shadows != [] {
      var init := shadows[..|shadows| - 1];
      WrapAllCoversAt(init, t);
      CoveredConcat(WrapAll(init), Wrap(shadows[|shadows| - 1]), t);
      ShadowedInit(shadows, t);
      WrapCovers(shadows[|shadows| - 1], t);
    }
  }

  /** Shadows at negative bearings: the sort, the merge and the sweep over
      the wrapped shadows give ordered non-empty arcs within [0, 2 PI] that
      with the shadows cover [0, 2 PI] and whose interiors meet no shadow,
      taken modulo 2 PI. */
  lemma WrappedArcs(shadows: seq<Range>)
    requires forall k | 0 <= k < |shadows| :: -TwoPi <= shadows[k].start <= shadows[k].end <= TwoPi
    ensures forall k | 0 <= k < |ArcsOutside(WrapAll(shadows))| :: 0.0 <= ArcsOutside(WrapAll(shadows))[k].start < ArcsOutside(WrapAll(shadows))[k].end <= TwoPi
    ensures forall j, k | 0 <= j < k < |ArcsOutside(WrapAll(shadows))| :: ArcsOutside(WrapAll(shadows))[j].end <= ArcsOutside(WrapAll(shadows))[k].start
    ensures forall t | 0.0 <= t <= TwoPi :: Covered(ArcsOutside(WrapAll(shadows)), t) || Shadowed(shadows, t)
    ensures forall k, t | 0 <= k < |ArcsOutside(WrapAll(shadows))| && ArcsOutside(WrapAll(shadows))[k].start < t < ArcsOutside(WrapAll(shadows))[k].end :: !Shadowed(shadows, t)
    ensures shadows == [] ==> ArcsOutside(WrapAll(shadows)) == [Range(0.0, TwoPi)]
  {
    var wrapped := WrapAll(shadows);
    WrapAllBounds(shadows);
    assert WellFormed(wrapped);
    assert forall k | 0 <= k < |wrapped| :: wrapped[k].start <= TwoPi;
    ArcsAroundRanges(wrapped);
    var arcs := ArcsOutside(wrapped);
    forall t | 0.0 <= t <= TwoPi
      ensures Covered(arcs, t) || Shadowed(shadows, t)
    {
      WrapAllCoversAt(shadows, t);
    }
    forall k, t | 0 <= k < |arcs| && arcs[k].start < t < arcs[k].end
      ensures !Shadowed(shadows, t)
    {
      WrapAllCoversAt(shadows, t);
    }
  }

  /** The visible arcs once the shadows are moved into [0, 2 PI]. */
  function WrappedBorderArcs(m: Math, center: Point, insetRadius: real, outerRadius: real, nearby: seq<Point>): seq<Range> {
    ArcsOutside(WrapAll(Shadows(m, center, insetRadius, outerRadius, nearby)))
  }

  /** With the ranges of `Math.acos` and `Math.atan2`: every visible arc is a
      non-empty arc within [0, 2 PI]; the arcs are ordered and do not
      overlap; every bearing in [0, 2 PI] is on an arc or meets a neighbour;
      no bearing inside an arc meets a neighbour, whatever the sign of its
      bearing; and with no shadow the ring is one arc [0, 2 PI]. */
  lemma WrappedBorderArcsProperties(m: Math, center: Point, insetRadius: real, outerRadius: real, nearby: seq<Point>)
    requires AngleRanges(m)
    ensures var shadows := Shadows(m, center, insetRadius, outerRadius, nearby);
            var arcs := WrappedBorderArcs(m, center, insetRadius, outerRadius, nearby);
            && (forall k | 0 <= k < |arcs| :: 0.0 <= arcs[k].start < arcs[k].end <= TwoPi)
            && (forall j, k | 0 <= j < k < |arcs| :: arcs[j].end <= arcs[k].start)
            && (forall t | 0.0 <= t <= TwoPi :: Covered(arcs, t) || Shadowed(shadows, t))
            && (forall k, t | 0 <= k < |arcs| && arcs[k].start < t < arcs[k].end :: !Shadowed(shadows, t))
            && (shadows == [] ==> arcs == [Range(0.0, TwoPi)])
  {
    ShadowsWellFormed(m, center, insetRadius, outerRadius, nearby);
    WrappedArcs(Shadows(m, center, insetRadius, outerRadius, nearby));
  }

  /** The shadow collection, the sort, the merge and the sweep, in turn. */
  method VisibleArcsOf(m: Math, center: Point, insetRadius: real, outerRadius: real, nearbyCircles: seq<Point>)
    returns (visibleArcs: seq<Range>)
    ensures visibleArcs == WrappedBorderArcs(m, center, insetRadius, outerRadius, nearbyCircles)
  {
    var overlapAngles := CollectShadows(m, center, insetRadius, outerRadius, nearbyCircles);
    var sorted := SortByStart(WrapAll(overlapAngles));
    var merged := MergeRanges(sorted);
    visibleArcs := Complement(merged);
  }

  /** A ring segment between two radii over one arc, extruded to the border
      height. */
  datatype RingSegment = RingSegment(outerRadius: real, insetRadius: real, start: real, end: real, depth: real)

  /** The loop that extrudes one ring segment per visible arc, in arc order. */
  method ExtrudeArcs(insetRadius: real, outerRadius: real, borderHeight: real, visibleArcs: seq<Range>)
    returns (segments: seq<RingSegment>)
    ensures |segments| == |visibleArcs|
    ensures forall k | 0 <= k < |visibleArcs| ::
              segments[k] == RingSegment(outerRadius, insetRadius, visibleArcs[k].start, visibleArcs[k].end, borderHeight)
  {
    segments := [];
    var i := 0;
    while i < |visibleArcs|
      invariant 0 <= i <= |visibleArcs|
      invariant |segments| == i
      invariant forall k | 0 <= k < i ::
                  segments[k] == RingSegment(outerRadius, insetRadius, visibleArcs[k].start, visibleArcs[k].end, borderHeight)
    {
      var arc := visibleArcs[i];
      segments := segments + [RingSegment(outerRadius, insetRadius, arc.start, arc.end, borderHeight)];
      i := i + 1;
    }
  }

  /** createNonIntersectingBorderSegments: one ring segment per visible arc,
      in arc order. */
  method CreateNonIntersectingBorderSegments(m: Math, center: Point, insetRadius: real, outerRadius: real,
                                             borderHeight: real, nearbyCircles: seq<Point>)
    returns (segments: seq<RingSegment>)
    ensures var arcs := WrappedBorderArcs(m, center, insetRadius, outerRadius, nearbyCircles);
            && |segments| == |arcs|
            && forall k | 0 <= k < |arcs| ::
                 segments[k] == RingSegment(outerRadius, insetRadius, arcs[k].start, arcs[k].end, borderHeight)
  {
    var visibleArcs := VisibleArcsOf(m, center, insetRadius, outerRadius, nearbyCircles);
    segments := ExtrudeArcs(insetRadius, outerRadius, borderHeight, visibleArcs);
  }
}
