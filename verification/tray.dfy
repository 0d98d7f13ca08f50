/** Shared vocabulary of the movement-tray layout engine: points in the tray
    plane, the transcendental functions the source calls through `Math`, the
    support-slot parameters and the slot record that the placement passes emit. */
module Tray {
  import opened Squares

  /** A value that may be absent: a lookup that finds nothing, a shadow that
      is not cast. */
  datatype Option<T> = None | Some(value: T)

  /** A position in the tray's XY plane. */
  datatype Point = Point(x: real, y: real)

  /** The support slot (and every radial layout) is centred on the origin. */
  const Origin: Point := Point(0.0, 0.0)

  /** The exact value of the IEEE double `Math.PI`; `2 * Math.PI` is exact in
      binary floating point, so `TwoPi` is what the source computes. */
  const Pi: real := 3.141592653589793115997963468544185161590576171875
  const TwoPi: real := 2.0 * Pi

  /** The functions the source takes from JavaScript's `Math`. They are not
      modelled; every computation around them is. */
  datatype Math = Math(
    cos: real -> real,
    sin: real -> real,
    sqrt: real -> real,
    acos: real -> real,
    atan2: (real, real) -> real)

  /** `Math.sqrt` of a non-negative number is non-negative. */
  ghost predicate SqrtNonNegative(m: Math) {
    forall v :: 0.0 <= v ==> 0.0 <= m.sqrt(v)
  }

  /** `Math.acos` maps [-1, 1] into [0, PI] and `Math.atan2` lands in [-PI, PI]. */
  ghost predicate AngleRanges(m: Math) {
    && (forall v :: -1.0 <= v <= 1.0 ==> 0.0 <= m.acos(v) <= Pi)
    && (forall dy, dx :: -Pi <= m.atan2(dy, dx) <= Pi)
  }

  /** Squared Euclidean distance, the quantity every overlap test compares. */
  function DistSq(p: Point, q: Point): (d: real)
    ensures 0.0 <= d
    ensures p == q ==> d == 0.0
  {
    SquareNonNegative(p.x - q.x);
    SquareNonNegative(p.y - q.y);
    Sq(p.x - q.x) + Sq(p.y - q.y)
  }

  lemma DistSqSymmetric(p: Point, q: Point)
    ensures DistSq(p, q) == DistSq(q, p)
  {
    DifferenceSquareSymmetric(p.x, q.x);
    DifferenceSquareSymmetric(p.y, q.y);
  }

  /** The support slot's `mode`: any mode other than 'circle' behaves as 'oval'. */
  datatype SupportMode = CircleMode | OvalMode

  datatype SupportSlot = SupportSlot(
    enabled: bool,
    mode: SupportMode,
    length: real,
    width: real,
    count: int)

  /** A placed slot as `generateCirclePlacements` pushes it. */
  datatype Slot = Slot(
    position: Point,
    insetRadius: real,
    borderWidth: real,
    borderHeight: real,
    row: int,
    col: int)

  function Positions(slots: seq<Slot>): (ps: seq<Point>)
    ensures |ps| == |slots|
    ensures forall i | 0 <= i < |slots| :: ps[i] == slots[i].position
  {
    seq(|slots|, i requires 0 <= i < |slots| => slots[i].position)
  }

  lemma PositionsSnoc(slots: seq<Slot>, s: Slot)
    ensures Positions(slots + [s]) == Positions(slots) + [s.position]
  {
    assert forall i | 0 <= i < |slots| + 1 :: Positions(slots + [s])[i] == (Positions(slots) + [s.position])[i];
  }
}
