# Movement-tray layout model

This project is a Dafny model of the layout core of a movement-tray generator. A tray is a flat base with round slots for miniature bases. Each slot has:

- an inset (the hole a base sits in, radius `insetRadius`);
- a border ring around the inset (width `borderWidth`).

A tray may also have a central oval "support slot". The model covers the layout core.

- **Slot placement.** The slots can be placed in three ways:
  - a row-and-column grid, optionally staggered, with an optional stray slot that drops the last slot of staggered rows;
  - a circle of slots walked around the support slot;
  - slots spaced evenly by arc length along the support oval.

  Every candidate position passes an admission test before it is placed. The test rejects an inset that overlaps an inset already placed. It also rejects an inset, widened by its border, that intersects the support oval. This logic lives in `src/utils/CirclePlacementUtils.js`, `src/CirclePlacement.js`, `src/SlotPlacement.js` and the placement body of `src/GridGen.js`.
- **Edge selection.** `src/GridGen.js` groups the placed circles by row and by column. The first and last circle of each group, by x for rows and by y for columns, are the edge circles.
- **Border arcs.** `createNonIntersectingBorderSegments` in `src/utils/circleUtils.js` draws the parts of one slot's border ring that no neighbour's border covers. It takes each neighbour's angular shadow, sorts and merges the shadows, and draws the complement on [0, 2π] as ring segments.
- **Base outline.** `buildPerimeter` in `src/BaseBuilder.js` walks around the grid's edge cells. In support mode it walks the slot centres instead. The base is then an extruded polygon through that walk, or a bounding box when the walk has two points or fewer.

The model is organised as follows:

- **Shared modules.** The `Tray` module holds the shared values: points, slots, the support-slot settings and the constant π. The `Squares` module holds arithmetic facts about squares that the geometric proofs share.
- **The fold.** Adding a candidate to a growing list, only if it is admissible, is specified once, as the fold `PlacementSpec.Accepted` over the list of candidates. Every placement loop is proved to compute that fold. The fold is proved to produce well-placed layouts:
  - every pair of slot centres is at least two inset radii apart;
  - no slot meets the support oval.
- **The walk.** The circle-mode loop, in both the placement modules and GridGen, is specified as the recursive function `CirclePlacement.Walk`. Its state is the placed turns (angle and column), the count `added` and the current angle. Each loop is proved to end in the walk's final state from angle 0, through a step method whose contract is one step of the walk.
- **Where the code stores state.** It stores it in arrays local to one call: the `circles` and `points` lists, the `overlapAngles`, `merged` and `visibleArcs` lists, and the perimeter. The model threads these lists through methods as sequences. Each loop carries invariants that tie the list so far to a specification function.
- **Math functions.** `Math.sqrt`, `cos`, `sin`, `acos` and `atan2` are the fields of a `Math` value passed in. Where a proof needs their ranges, it requires them through `AngleRanges` or `SqrtNonNegative`.

Some behaviours of the code are modelled as written:

- `buildPerimeter` picks the right-hand leg's column with `straySlot && r % 2 === 1`, even when the grid is not staggered.
- With one row, the bottom leg walks row 0 again.
- Oval-mode slots carry the index `i` as their row and column 0.
- `src/GridGen.js` computes a row's column count as `straySlot ? (isStaggeredRow ? cols - 1 : cols) : cols`. Lemma `GridGen.RowColumnsAgree` shows this is the same as `src/CirclePlacement.js`'s rule.

## Model

| member | source | states |
|---|---|---|
| CirclePlacementUtils.OverlapSymmetricAndStrict | src/utils/CirclePlacementUtils.js:53-59 | The overlap test is symmetric: swapping the two circles, together with their radii, gives the same answer. Two circles overlap exactly when the squared distance between them is below the square of the sum of their radii. Circles that only touch do not overlap. |
| CirclePlacementUtils.EllipseMeasure | src/utils/CirclePlacementUtils.js:62-66 | The normalised ellipse measure of a point is never negative. It is zero at the oval's centre. |
| CirclePlacementUtils.OvalTestStrict | src/utils/CirclePlacementUtils.js:61-67 | A point exactly on the widened ellipse, with measure 1, does not intersect it. The oval's own centre always does. |
| CirclePlacementUtils.IntersectionMonotoneInRadius | src/utils/CirclePlacementUtils.js:61-67 | Once both semi-axes are positive, a point that intersects the oval at one padding radius also intersects it at every larger radius. |
| CirclePlacementUtils.CanAddCircle | src/utils/CirclePlacementUtils.js:69-88 | Accepts the position exactly when its inset overlaps no existing slot and, with the support slot enabled, the position stays outside the oval widened by inset plus border. An accepted position is at least 2·insetRadius from every existing centre. The row and column do not affect the answer. |
| CirclePlacementUtils.ArcTableRecurrence | src/utils/CirclePlacementUtils.js:10-24 | Each entry of the cumulative arc-length table is the previous entry plus the chord between ellipse samples i−1 and i. |
| CirclePlacementUtils.ArcTableSorted | src/utils/CirclePlacementUtils.js:4-25 | With a square root that is never negative, the arc-length table is non-decreasing and has no negative entry. |
| CirclePlacementUtils.BuildArcLengths | src/utils/CirclePlacementUtils.js:4-25 | The loop builds the 1001-entry cumulative table over 1000 steps. The table starts at 0. totalLength is its last entry. |
| CirclePlacementUtils.FirstAtLeastUnique | src/utils/CirclePlacementUtils.js:31-41 | The index whose earlier entries are all below the target, and which is the last index or meets the target, is unique. |
| CirclePlacementUtils.FirstAtLeastIsLeast | src/utils/CirclePlacementUtils.js:31-41 | Every entry before the found index is below the target. If the target is reachable at all, the found entry meets it. |
| CirclePlacementUtils.FirstAtLeastMonotone | src/utils/CirclePlacementUtils.js:31-41 | On a sorted table, a larger target never gives a smaller index. |
| CirclePlacementUtils.LowerBound | src/utils/CirclePlacementUtils.js:31-41 | The binary search ends at an index in range that is the last index or whose entry meets the target. On a sorted table, all earlier entries are below the target, so it returns the least such index. |
| CirclePlacementUtils.TargetLengthBounds | src/utils/CirclePlacementUtils.js:29 | The targets (i/n)·totalLength lie in [0, totalLength] and do not decrease with i. |
| CirclePlacementUtils.PlaceEvenCirclesAlongOval | src/utils/CirclePlacementUtils.js:3-51 | Calls the callback once per circle (none if numCircles ≤ 0), with i = 0, 1, …. The i-th call receives the padded ellipse point at the least sample whose arc length reaches i/n of the perimeter. The chosen samples do not decrease. |
| PlacementSpec.WellPlacedAppend | src/CirclePlacement.js:29-33 | Appending an admissible position to a well-placed layout keeps it well placed. |
| PlacementSpec.WellPlacedSeparated | src/CirclePlacement.js:26-33 | In a well-placed layout, every pair of centres is at least two inset radii apart. With the support slot enabled, no slot meets the widened oval. |
| PlacementSpec.AcceptedWellPlaced | src/CirclePlacement.js:26-41 | Whatever the candidates, the accepted slots form a well-placed layout. |
| PlacementSpec.AcceptedKeepsAll | src/CirclePlacement.js:26-41 | When the candidates are already well placed, every one is accepted. |
| PlacementSpec.AcceptedOrdered | src/CirclePlacement.js:26-41 | Every accepted slot is a candidate. Accepting keeps the row-major order of the candidates. |
| PlacementSpec.RowCandidates | src/CirclePlacement.js:102-106 | Row r offers one candidate per column 0 ≤ c < n, at x = c·xOffset (shifted by xOffset/2 on staggered rows) and y = r·yOffset. |
| PlacementSpec.GridCandidatesShape | src/CirclePlacement.js:95-107 | Every grid candidate has a row in [0, rows) and a column below its row's effective count, and sits at its grid cell. The candidates come in strict row-major order. |
| PlacementSpec.GridCandidatesCount | src/CirclePlacement.js:95-101 | The grid offers rows·cols candidates, less one per staggered row when the stray slot is set with stagger. |
| PlacementSpec.LatticeSeparation | src/CirclePlacement.js:102-106 | Two distinct cells of a square lattice with pitch x are at least x apart. |
| PlacementSpec.CellsApart | src/CirclePlacement.js:19 | On the unstaggered grid, distinct cells do not overlap when 2·insetRadius ≤ xOffset, that is when border plus gap ≥ 0. |
| PlacementSpec.UnstaggeredGridWellPlaced | src/CirclePlacement.js:95-107 | Without a support slot, the unstaggered grid of candidates is already well placed. |
| PlacementSpec.UnstaggeredGridKeepsAll | src/CirclePlacement.js:95-107 | Without a support slot and with border plus gap ≥ 0, the unstaggered grid rejects no candidate and places rows·cols slots. |
| CirclePlacement.YOffset | src/CirclePlacement.js:20-22 | Without stagger, the row pitch equals the column pitch. |
| CirclePlacement.FoldSnoc | src/CirclePlacement.js:26-41 | One step of addCircle, accepting or rejecting, is one step of the accepted-candidates fold, on candidates and on slot records alike. |
| CirclePlacement.AddCircle | src/CirclePlacement.js:26-41 | Returns true exactly when the position is admissible. It then appends a slot record with the given radius, border, borderHeight = borderWidth, row and column, and appends the point. Otherwise it changes nothing. |
| CirclePlacement.AddCircleKeepsInvariant | src/CirclePlacement.js:29-34 | An accepted addCircle keeps the slot list well placed and appends exactly the new position. |
| CirclePlacement.PlaceCandidate | src/CirclePlacement.js:26-41 | After candidate k, the slots are the fold over candidates 0..k and the points are their positions. |
| CirclePlacement.PlaceCell | src/CirclePlacement.js:102-107 | After column c of a row, the slots are the fold over the earlier rows and this row's columns 0..c. |
| CirclePlacement.PlaceRow | src/CirclePlacement.js:102-107 | The column loop extends the fold by the row's candidates. |
| CirclePlacement.PlaceGridRow | src/CirclePlacement.js:95-108 | One pass of the row loop extends the fold from rows 0..r−1 to rows 0..r. |
| CirclePlacement.GridPass | src/CirclePlacement.js:95-108 | The grid loops produce exactly the slots accepted from the grid candidates, in order, and the points are their positions. |
| CirclePlacement.RadialTestImpliesAdmissible | src/CirclePlacement.js:59-68 | With non-negative radii, a position that passes the circle-mode test is admissible. That test checks inset against inset plus border, and both oval tests. |
| CirclePlacement.RadiallyClearAppend | src/CirclePlacement.js:59-68 | Appending a position that passed the circle-mode tests keeps the whole list clear of the circle-mode tests. |
| CirclePlacement.RadialStep | src/CirclePlacement.js:59-68 | An accepted step of the circle-mode loop keeps the invariant. The layout stays well placed and radially clear. Every slot is in row 0. Columns strictly increase and lie below `added`. With non-negative radii, the slot count equals `added` and column k holds slot k. |
| CirclePlacement.Walk | src/CirclePlacement.js:54-77 | The circle-mode loop as a recursive walk from a given state. If the walk ends while the guard (added < count and angle < 2π + 0.2) still holds, it ended on the break for a zero tangent length at the final angle. `added` never decreases. |
| CirclePlacement.AdvanceMonotone | src/CirclePlacement.js:66-77 | With r ≥ 0 and a non-negative square root, one iteration never moves the angle back. It adds 0.01, or (2r · 0.99)/speed with a positive speed. |
| CirclePlacement.AdvanceBelow | src/CirclePlacement.js:54-77 | An iteration under the guard keeps every placed slot below the angle limit, with strictly increasing columns below `added`. |
| CirclePlacement.WalkBelow | src/CirclePlacement.js:54-78 | Every slot the loop places was found at an angle below 2π + 0.2. The columns it was given strictly increase and stay below the final `added`. |
| CirclePlacement.AdvanceInOrder | src/CirclePlacement.js:66-77 | With r ≥ 0 and a non-negative square root, an iteration keeps the angle non-negative and the placed slots ordered by angle, none past the current angle. |
| CirclePlacement.WalkInOrder | src/CirclePlacement.js:50-78 | With r ≥ 0 and a non-negative square root, the loop never moves the angle back. Started at angle 0, its slots lie at angles in [0, final angle], in placement order. |
| CirclePlacement.AdvanceKeepsInvariant | src/CirclePlacement.js:66-69 | One iteration keeps the radial invariant on the slot records of the placed turns. |
| CirclePlacement.RadialTurn | src/CirclePlacement.js:55-77 | One iteration on the concrete lists moves the placed slots, `added` and the angle exactly as the walk's step does. It reports the zero-speed break. |
| CirclePlacement.RadialPass | src/CirclePlacement.js:46-80 | The circle-mode loop places exactly the slots of the walk from angle 0. Slot k sits at (a cos θ, b sin θ) for the angle θ the walk placed it at, with a = length/2 + r + bw + 1 and b = width/2 + r + bw + 1. It is in row 0 with the column the walk gave it, and `added` is the walk's count. The radial invariant holds, at most count candidates are added, and the origin ends the points. |
| CirclePlacement.OvalPass | src/CirclePlacement.js:83-92 | Oval mode places exactly the slots accepted from the callbacks' candidates, in callback order. |
| CirclePlacement.GenerateCirclePlacements | src/CirclePlacement.js:5-112 | The result is always well placed and every slot carries the configured radius and border. Without a support slot, it is the accepted grid. In circle mode, it is the slots of the radial walk from angle 0: at most count of them, all in row 0 and radially clear, with the origin ending the points. In oval mode, the sampler's calls are evenly spaced by arc length, and the slots are exactly those accepted from the calls' candidates. They are in column 0, with rows in [0, count), strictly increasing. |
| CirclePlacement.GridPassWellPlaced | src/CirclePlacement.js:26-41 | The slots the fold accepts are well placed and carry the configuration's radius and border. |
| CirclePlacement.OvalPassShape | src/CirclePlacement.js:83-92 | For callbacks numbered 0, 1, …, the accepted oval slots are well placed and lie in column 0 with rows in [0, count), strictly increasing. |
| SlotPlacement.GenerateSlotPlacements | src/SlotPlacement.js:5-112 | Slot placement computes the same layouts as circle placement for the same configuration: the accepted grid, the radial walk, or the fold over the evenly spaced oval calls. It has the same guarantees. |
| GridGen.CanAddCircle | src/GridGen.js:35-54 | Accepts exactly the admissible positions, using GridGen's insetRadius = baseWidth/2 and borderWidth = edgeThickness. |
| GridGen.AddCircle | src/GridGen.js:68-86 | Appends the circle record and the point exactly when the position is admissible, and otherwise leaves both lists unchanged. |
| GridGen.PlaceCandidate | src/GridGen.js:68-86 | After candidate k, the circles are the fold over candidates 0..k. |
| GridGen.RowColumnsAgree | src/GridGen.js:149-154 | GridGen's effective-column rule equals circle placement's. Without a stray slot, every row has cols slots. |
| GridGen.PlaceCell | src/GridGen.js:156-163 | After column c, the circles are the fold over the earlier rows and this row's columns 0..c. |
| GridGen.PlaceRow | src/GridGen.js:156-163 | The column loop extends the fold by the row's candidates. |
| GridGen.PlaceGridRow | src/GridGen.js:148-164 | One row pass extends the fold by one row. |
| GridGen.GridPass | src/GridGen.js:147-165 | The grid loops produce exactly the circles accepted from the grid candidates. Both pitches are insetRadius + borderWidth + insetRadius + gap. |
| GridGen.FoldWellPlaced | src/GridGen.js:68-86 | The circles the fold accepts are well placed and carry GridGen's radius and border. |
| GridGen.OverlapScan | src/GridGen.js:108-115 | The scan reports an overlap exactly when some existing inset overlaps the position's inset widened by the border. |
| GridGen.RadialStep | src/GridGen.js:117-122 | A step of GridGen's circle loop that passes all three tests keeps its invariant. |
| GridGen.AdvanceKeepsInvariant | src/GridGen.js:120-124 | One iteration of GridGen's loop keeps its invariant on the records of the placed turns. |
| GridGen.RadialTurn | src/GridGen.js:104-132 | One iteration on the concrete lists, with the early-exit overlap scan, moves the state exactly as the walk's step does on GridGen's ellipse. It reports the zero-speed break. |
| GridGen.RadialPass | src/GridGen.js:88-132 | GridGen's circle loop places exactly the records of the walk from angle 0, on the ellipse with a = length/2 + r + 2 and b = width/2 + r + 2. `added` is the walk's count. Its invariant holds: well placed, radially clear, row 0, increasing columns below `added`, and at most count candidates added. |
| GridGen.Layout | src/GridGen.js:88-165 | The placement is always well placed. Without a support slot, it is the accepted grid and no notice is raised. With one, the circles are those of the radial walk, and onMaxReached(added) is reported exactly when the walk's count is below count. The origin ends the points, and there are at most count circles, all in row 0 and radially clear. With non-negative radii, circle k is in column k and the notice carries the circle count. |
| GridGen.Members | src/GridGen.js:178-183 | A group lists, in placement order, exactly the circles among the first n whose key (row or column) is the given key. |
| GridGen.PushOther | src/GridGen.js:178-182 | Adding circle k to its own group leaves every other key's group as it was. |
| GridGen.PushKeeps | src/GridGen.js:178-182 | Pushing circle k into its group turns the grouping of circles 0..k−1 into the grouping of circles 0..k. |
| GridGen.Push | src/GridGen.js:178-182 | Pushing circle k into its group turns the grouping of circles 0..k−1 into the grouping of circles 0..k. |
| GridGen.Group | src/GridGen.js:175-183 | The grouping loop groups every circle by row and by column. A key is present exactly when some circle has it. |
| GridGen.SortedFirst | src/GridGen.js:186-187 | Finds the group member that a stable ascending sort by coordinate puts first: the smallest coordinate, earliest on ties. |
| GridGen.SortedLast | src/GridGen.js:186-188 | Finds the group member that a stable ascending sort by coordinate puts last: the largest coordinate, latest on ties. |
| GridGen.SortedFirstIsFirst | src/GridGen.js:185-189 | A circle of a group is the sorted group's first element exactly when it is first in its row or column by coordinate. |
| GridGen.SortedLastIsLast | src/GridGen.js:185-189 | A circle of a group is the sorted group's last element exactly when it is last in its row or column by coordinate. |
| GridGen.GroupHasFirst | src/GridGen.js:185-189 | Every row or column that holds a circle has a first circle. |
| GridGen.GroupHasLast | src/GridGen.js:185-189 | Every row or column that holds a circle has a last circle. |
| GridGen.EveryGroupHasEnds | src/GridGen.js:185-195 | Every row or column that holds a circle has both a first and a last circle. |
| GridGen.GroupEnds | src/GridGen.js:186-188 | The two elements added for a group belong to it. The group's first or last circle is exactly one of those two. |
| GridGen.AddGroupEnds | src/GridGen.js:186-188 | Adding sorted[0] and sorted[length−1] adds exactly the group's first and last circles to the edge set. |
| GridGen.KeysCoverCircles | src/GridGen.js:175-183 | Every circle's row and column key is among the grouped keys. |
| GridGen.AxisStep | src/GridGen.js:185-189 | Visiting one more group adds that group's ends to the edge set. |
| GridGen.AxisEnds | src/GridGen.js:185-195 | After all groups of an axis are visited, the edge set is the earlier set plus every circle that is first or last in its row, or in its column. |
| GridGen.EdgeCircles | src/GridGen.js:173-195 | A circle is an edge circle exactly when it is first or last in its row by x, or in its column by y. |
| CircleUtils.Max | src/utils/circleUtils.js:90 | The maximum is at least each argument and is one of them. |
| CircleUtils.Shadow | src/utils/circleUtils.js:66-78 | A neighbour casts a shadow only when 0 < dist < 2·outerRadius and the acos argument lies in [−1, 1], which is the source's NaN test. |
| CircleUtils.ShadowShape | src/utils/circleUtils.js:73-76 | A shadow is centred on the neighbour's bearing and is at most 2π wide. It starts in [−2π, π] and ends in [−π, 2π]. |
| CircleUtils.ShadowsFromNeighbours | src/utils/circleUtils.js:66-79 | The collected shadows are exactly the shadows that some neighbour casts. |
| CircleUtils.ShadowsWellFormed | src/utils/circleUtils.js:66-79 | Every collected shadow has start ≤ end and lies within [−2π, 2π]. Every start is at most π. |
| CircleUtils.CollectShadows | src/utils/circleUtils.js:66-79 | The neighbour loop collects the shadow list in neighbour order. |
| CircleUtils.InsertByStart | src/utils/circleUtils.js:82 | Inserting into a start-sorted list keeps it sorted. The result holds the list plus the new range, as a multiset. |
| CircleUtils.SortByStart | src/utils/circleUtils.js:82 | The sort yields a permutation of the shadows sorted by start. |
| CircleUtils.PermutationCovers | src/utils/circleUtils.js:82 | A permutation covers the same angles and keeps well-formedness. |
| CircleUtils.MergeInto | src/utils/circleUtils.js:85-94 | A merge step grows the merged list by at most one range and leaves it non-empty. |
| CircleUtils.Merged | src/utils/circleUtils.js:83-95 | Merging never lengthens the list and yields an empty list only from an empty input. |
| CircleUtils.MergeIntoShape | src/utils/circleUtils.js:85-94 | A merge step keeps the merged ranges well formed and pairwise separated (each ends before the next starts). |
| CircleUtils.MergeIntoCovers | src/utils/circleUtils.js:85-94 | A merge step keeps the merged ranges covering exactly the angles the input covers. |
| CircleUtils.MergeIntoKeeps | src/utils/circleUtils.js:84-95 | A merge step keeps both parts of the merge invariant. |
| CircleUtils.MergedProperties | src/utils/circleUtils.js:83-95 | For sorted, well-formed input, the merged ranges are separated, sorted and well formed, and cover exactly the input's angles. |
| CircleUtils.MergeRanges | src/utils/circleUtils.js:83-95 | The merge loop computes the merged list. |
| CircleUtils.SweepOver | src/utils/circleUtils.js:99-105 | The sweep's lastEnd is never negative. It emits at most one gap per merged range. |
| CircleUtils.VisibleArcs | src/utils/circleUtils.js:98-108 | At most one arc more than there are merged ranges. |
| CircleUtils.SweepStepBounds | src/utils/circleUtils.js:100-105 | A sweep step keeps the gaps ordered, non-empty and within [0, lastEnd]. lastEnd stays at or above every range end seen. |
| CircleUtils.SweepStepBetween | src/utils/circleUtils.js:100-105 | A sweep step keeps every emitted gap outside every range seen. |
| CircleUtils.SweepStepCovers | src/utils/circleUtils.js:100-105 | A sweep step keeps [0, lastEnd] covered by the gaps and the ranges seen. |
| CircleUtils.SweepStepKeeps | src/utils/circleUtils.js:100-105 | A sweep step keeps the whole sweep invariant. |
| CircleUtils.SweepProperties | src/utils/circleUtils.js:99-105 | The sweep over sorted, well-formed ranges satisfies the sweep invariant. |
| CircleUtils.VisibleArcsProperties | src/utils/circleUtils.js:98-108 | The visible arcs are non-empty, ordered and disjoint, and start at or after 0. Together with the ranges they cover [0, 2π]. No interior angle of an arc is covered. They end by 2π when no range starts past 2π. With no ranges, the single arc is [0, 2π]. |
| CircleUtils.Complement | src/utils/circleUtils.js:98-108 | The complement loop computes the visible arcs. |
| CircleUtils.ArcsAroundRanges | src/utils/circleUtils.js:82-108 | Sorting, merging and complementing any well-formed ranges that start by 2π gives ordered, disjoint arcs in [0, 2π] that cover exactly what the ranges leave open. |
| CircleUtils.BorderArcsProperties | src/utils/circleUtils.js:66-108 | As written, the drawn arcs lie in [0, 2π] and are disjoint. Together with the raw shadows they cover [0, 2π]. No drawn interior angle lies in a raw shadow interval. |
| CircleUtils.SortedMergedStartsBounded | src/utils/circleUtils.js:82-95 | Sorting and merging keep every start at most 2π. |
| CircleUtils.MergedStartsFromInput | src/utils/circleUtils.js:83-95 | Every merged range starts at the start of some input range. |
| CircleUtils.NegativeBearingShadowIgnored | src/utils/circleUtils.js:99-107 | A concrete input where the code as written draws the whole ring [0, 2π] although bearing 3π/2 is shadowed by the neighbour (see Findings). |
| CircleUtils.WrapCovers | src/utils/circleUtils.js:76 | A shadow moved onto [0, 2π], split in two if it straddles 0, covers exactly the angles in (0, 2π) that the shadow covers modulo a full turn. |
| CircleUtils.WrapAllBounds | src/utils/circleUtils.js:66-79 | All wrapped shadows lie within [0, 2π]. |
| CircleUtils.WrapAllCoversAt | src/utils/circleUtils.js:66-79 | The wrapped shadows cover an angle in (0, 2π) exactly when some shadow covers it modulo a full turn. |
| CircleUtils.WrappedArcs | src/utils/circleUtils.js:82-108 | Complementing the wrapped shadows yields disjoint arcs in [0, 2π]. The arcs and the shadows (modulo 2π) together cover the ring. No arc interior is shadowed. |
| CircleUtils.WrappedBorderArcsProperties | src/utils/circleUtils.js:60-108 | With shadows taken modulo 2π, the drawn arcs are exactly the open parts of the border ring, whatever the neighbours' bearings. |
| CircleUtils.VisibleArcsOf | src/utils/circleUtils.js:66-108 | The shadow, sort, merge and complement steps compute the corrected border arcs. |
| CircleUtils.ExtrudeArcs | src/utils/circleUtils.js:110-124 | One ring segment per visible arc, in order, between the inset and outer radii, with the border height. |
| CircleUtils.CreateNonIntersectingBorderSegments | src/utils/circleUtils.js:60-127 | One ring segment for each corrected border arc, in arc order. |
| BaseBuilder.FindCell | src/BaseBuilder.js:66 | Returns nothing exactly when no slot sits at the cell. Otherwise it returns the first slot at the cell. |
| BaseBuilder.LookupsProperties | src/BaseBuilder.js:78-96 | Every walk point is the centre of a slot at one of the walked cells. When every cell has a slot, the walk has one point per cell, the first slot's centre, in cell order. |
| BaseBuilder.PerimeterWalk | src/BaseBuilder.js:78-96 | Without a support slot, the perimeter is the lookup walk along the top, right, bottom and left legs. It has at most cols + (rows−1) + (cols−1) + (rows−2) points. |
| BaseBuilder.PerimeterSupport | src/BaseBuilder.js:69-77 | In support mode, the perimeter is the origin (in circle mode only) followed by every slot centre in order. |
| BaseBuilder.Visit | src/BaseBuilder.js:80-81 | Looking up one more cell extends the walk by that cell's slot centre, if it has one. |
| BaseBuilder.WalkTop | src/BaseBuilder.js:79-82 | The top-row loop appends the lookups of cells (0, 0..cols−1). |
| BaseBuilder.WalkRight | src/BaseBuilder.js:83-87 | The right-leg loop appends the lookups of cells (r, cols−1), or (r, cols−2) on odd rows when the stray slot is set, for r in 1..rows−1. |
| BaseBuilder.WalkBottom | src/BaseBuilder.js:88-91 | The bottom-row loop appends the lookups of cells (rows−1, cols−2 down to 0). |
| BaseBuilder.WalkLeft | src/BaseBuilder.js:92-95 | The left-leg loop appends the lookups of cells (rows−2 down to 1, 0). |
| BaseBuilder.PushCentres | src/BaseBuilder.js:74-76 | The support-mode loop appends every slot centre in order. |
| BaseBuilder.BuildPerimeter | src/BaseBuilder.js:65-99 | buildPerimeter returns the perimeter walk: the support-mode centres or the four legs. Its properties are those of PerimeterWalk and PerimeterSupport. |
| BaseBuilder.BoundsOf | src/BaseBuilder.js:35-37 | The bounds contain every point, and each of the four sides touches some point. |
| BaseBuilder.FootprintProperties | src/BaseBuilder.js:20-40 | The base is the polygon through the perimeter exactly when the perimeter has more than two points. Otherwise it is the centred bounding box of the slot centres, of non-negative size, touching a centre on every side. With no slots, the box is empty. |

## Left out

- **Geometry and rendering.** Mesh construction, CSG hole cutting and React state are not modelled:
  - the extrusion and the subtraction of holes and the support slot (`src/BaseBuilder.js:43-62`);
  - `createCircleGroup` and the three.js `Shape`/`ExtrudeGeometry` calls in `src/utils/circleUtils.js` (lines 4-57 and 111-123);
  - GridGen's concave-hull base fill (`src/GridGen.js:197-263`);
  - GridGen's `setCirclesData` and `setBounds` (`src/GridGen.js:167-170`).

  `CircleUtils.ExtrudeArcs` records each ring segment as its radii, angles and height rather than as a mesh. `BaseBuilder.ChooseFootprint` returns a description of the polygon or box.
- **Bounds accumulators and logging.** The `minx`/`miny`/`maxx`/`maxy` accumulators in addCircle are written but never read in the core, and are not modelled. Console logging is not modelled either.
- **Numbers.** Arithmetic is on mathematical reals, not IEEE doubles. The model does not capture rounding, the `0.98` fudge factor's effect on exact contact, or NaN except where the code tests for it. `Math.sqrt`, `cos`, `sin`, `acos` and `atan2` are uninterpreted parameters; only their ranges are assumed where a proof needs them.
- **Ellipse test.** The test is written (dx/rx)² + (dy/ry)², which equals the source's dx²/(rx²) + dy²/(ry²) over the reals. When rx or ry is 0, the source divides by zero and compares Infinity or NaN with 1, which is false. The model answers "no intersection" in that case explicitly.
- **Circle-mode step.** When `speed` is 0, `minSpacing / speed` is ±Infinity or NaN in JavaScript. The model ends the loop there. For a +Infinity or NaN step this is also what the source does, since the comparison with `maxAngle + 0.2` then fails. With a negative inset radius the step is −Infinity, and the source goes on testing NaN positions; the model does not follow that.
- **canAddSlot.** `canAddSlot` in `SlotPlacementUtils` is not part of this model. `SlotPlacement.GenerateSlotPlacements` assumes it behaves like `canAddCircle`.
- **GridGen's local tests.** GridGen declares private copies of `areInsetAreasOverlapping` and `doesInsetAreaIntersectOval` (`src/GridGen.js:19-33`). They are textually the same as the shared ones, so the model uses the shared definitions.
- **GridGen's onMaxReached.** The callback is returned as a `Notice` value.
- **Edge circles.** GridGen's `edgeCircles` set holds object references; the model holds circle indices.
- **GridGen's group sorts.** `Object.values` visits the groups in an order the model leaves open, because the result set does not depend on it. The model does not sort a copy of each group. It computes the two positions the sort would put first and last (`SortedFirst`, `SortedLast`), assuming a stable sort, as ES2019 requires.
- **circleUtils sort.** The in-place sort of `overlapAngles` is modelled by an insertion sort on values. Every property proved about the merge holds for any order sorted by start, so the engine's tie order does not matter.
- **Merge aliasing.** The merge updates `last.end` on an object that `overlapAngles` also holds. The model replaces the last merged range instead; `overlapAngles` is not read again, so the aliasing is not observable.
- CirclePlacementUtils.PlaceEvenCirclesAlongOval: the least-index and monotone-sample properties are stated only for a square root that is never negative. Without that, the arc table need not be sorted, and only the binary search's own guarantee holds.
- CircleUtils.CreateNonIntersectingBorderSegments: draws the corrected arcs, with shadows taken modulo 2π, not the arcs as written. The code as written is `CircleUtils.BorderArcs` (see Findings).
- CircleUtils.VisibleArcsOf: its shadow, sort, merge and complement steps compute the corrected arcs `WrappedBorderArcs`, not the as-written complement of the unwrapped shadows. The as-written result is `CircleUtils.BorderArcs` (see Findings).

## Findings

| source | as written | input that shows it | evidently intended | confidence | as-written member | corrected member |
|---|---|---|---|---|---|---|
| src/utils/circleUtils.js:99-107 | Shadows are [bearing − halfWidth, bearing + halfWidth], with `atan2` bearings in [−π, π]. The complement sweep starts at `lastEnd = 0` and never wraps, so any part of a shadow below 0 is dropped. The border is then drawn over that neighbour. | A ring at the origin with inset radius 10 and outer radius 12, and one neighbour at (0, −20). The bearing is −π/2 and the half-width is acos(0.06) ≈ 1.51, so the shadow is about [−3.08, −0.06]. The code draws the full ring [0, 2π], although angle 3π/2 is inside the shadow modulo 2π. | Shadows taken modulo 2π: a shadow below 0 is moved up by 2π, and one straddling 0 is split at 0 and 2π. No border is drawn inside any neighbour's shadow. | high; not executed | CircleUtils.NegativeBearingShadowIgnored | CircleUtils.WrappedBorderArcsProperties |
