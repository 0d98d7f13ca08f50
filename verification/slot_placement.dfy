/** generateSlotPlacements of src/SlotPlacement.js: the same algorithm as
    generateCirclePlacements with `addSlot` in place of `addCircle`. Its
    acceptance test `canAddSlot` lives in SlotPlacementUtils, which is not
    part of this model; it is taken to be canAddCircle, so the slots are the
    circles generateCirclePlacements computes. */
module SlotPlacement {
  import opened Tray
  import opened CirclePlacementUtils
  import opened PlacementSpec
  import opened CirclePlacement

  /** The three modes of the slot placer, with the same guarantees as the
      circle placer: the fold over the grid, the radial walk, or the fold over
      the oval sampler's calls; every slot passed the acceptance test against
      the slots before it, carries the configured radii, and the points follow
      the slots (with the origin last in circle mode). */
  method GenerateSlotPlacements(m: Math, cfg: Config) returns (slots: seq<Slot>, points: seq<Point>, ghost calls: seq<OvalCall>)
    ensures WellPlaced(Positions(slots), cfg.insetRadius, cfg.borderWidth, cfg.supportSlot)
    ensures CarriesConfig(cfg, slots)
    ensures !cfg.supportSlot.enabled ==>
              && slots == SlotsOf(cfg, Accepted(GridCandidates(cfg.rows, cfg.cols, XOffset(cfg), YOffset(m, cfg), cfg.stagger, cfg.straySlot),
                                                cfg.insetRadius, cfg.borderWidth, cfg.supportSlot))
              && points == Positions(slots)
    ensures cfg.supportSlot.enabled && cfg.supportSlot.mode == CircleMode ==>
              && slots == RadialSlots(m, cfg, Walk(m, RadialWalker(cfg), RadialStart).pushed)
              && (|slots| <= cfg.supportSlot.count || slots == [])
              && points == Positions(slots) + [Origin]
              && RadiallyClear(Positions(slots), cfg.insetRadius, cfg.borderWidth, cfg.supportSlot)
              && forall k | 0 <= k < |slots| :: slots[k].row == 0
    ensures cfg.supportSlot.enabled && cfg.supportSlot.mode == OvalMode ==>
              && EvenlySampled(m, Origin, cfg.supportSlot.length, cfg.supportSlot.width, cfg.supportSlot.count, 2.0, calls)
              && slots == SlotsOf(cfg, Accepted(OvalCandidates(calls), cfg.insetRadius, cfg.borderWidth, cfg.supportSlot))
              && points == Positions(slots)
              && (forall k | 0 <= k < |slots| :: slots[k].col == 0 && 0 <= slots[k].row < cfg.supportSlot.count)
              && (forall j, k | 0 <= j < k < |slots| :: slots[j].row < slots[k].row)
  {
    slots, points, calls := GenerateCirclePlacements(m, cfg);
  }
}
