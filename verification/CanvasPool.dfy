/** A fixed set of canvases shared by a changing number of tiles, and the frame that keeps the screen in step with it. */
module CanvasPool {
  import opened Collections

  /** Position and size of a canvas. */
  datatype Placement = Placement(x: real, y: real, width: real, height: real)

  datatype SlotState = SlotState(visible: bool, placement: Option<Placement>)

  datatype SlotUpdate = SlotUpdate(show: bool, hide: bool, moveOrResize: bool)

  const UNUSED := SlotState(false, None)

  /** The numbers from `high - 1` down to `low`. */
  function Descending(high: nat, low: nat): (r: seq<nat>)
    requires low <= high
    ensures |r| == high - low && forall k :: 0 <= k < |r| ==> r[k] == high - 1 - k
  {
    seq(high - low, k requires 0 <= k < high - low => high - 1 - k)
  }

  lemma InDescending(high: nat, low: nat, s: nat)
    requires low <= high
    ensures s in Descending(high, low) <==> low <= s < high
  {
    if low <= s < high {
      assert Descending(high, low)[high - 1 - s] == s;
    }
  }

  class Pool {
    var tileToSlot: seq<nat>
    const slotToTile: array<Option<nat>>
    const slotStates: array<SlotState>
    var freeSlots: seq<nat>
    var releasedSlots: seq<nat>

    /** Tile `i` always uses slot `i`, the maps invert each other, and the free slots are exactly the others. */
    ghost predicate Valid()
      reads this, slotToTile
    {
      && slotToTile.Length == slotStates.Length && (slotToTile as object) != (slotStates as object)
      && |tileToSlot| <= slotToTile.Length
      && (forall i :: 0 <= i < |tileToSlot| ==> tileToSlot[i] == i)
      && (forall s :: 0 <= s < slotToTile.Length ==> slotToTile[s] == if s < |tileToSlot| then Some(s) else None)
      && freeSlots == Descending(slotToTile.Length, |tileToSlot|)
    }

    constructor (capacity: nat)
      ensures Valid() && fresh(slotToTile) && fresh(slotStates)
      ensures slotToTile.Length == capacity && tileToSlot == [] && releasedSlots == []
      ensures forall s :: 0 <= s < capacity ==> slotStates[s] == UNUSED
    {
      tileToSlot := [];
      slotToTile := new Option<nat>[capacity](_ => None);
      slotStates := new SlotState[capacity](_ => UNUSED);
      freeSlots := Descending(capacity, 0);
      releasedSlots := [];
    }

    method ReleaseLast() returns (slot: nat)
      requires Valid() && tileToSlot != []
      modifies this`tileToSlot, this`freeSlots, slotToTile
      ensures Valid() && |tileToSlot| == old(|tileToSlot|) - 1 && slot == |tileToSlot|
    {
      var last := |tileToSlot| - 1;
      slot := tileToSlot[last];
      tileToSlot := tileToSlot[..last];
      slotToTile[slot] := None;
      freeSlots := freeSlots + [slot];
    }

    method TakeFree()
      requires Valid() && |tileToSlot| < slotToTile.Length
      modifies this`tileToSlot, this`freeSlots, slotToTile
      ensures Valid() && |tileToSlot| == old(|tileToSlot|) + 1
    {
      var last := |freeSlots| - 1;
      var slot := freeSlots[last];
      freeSlots := freeSlots[..last];
      var tile := |tileToSlot|;
      tileToSlot := tileToSlot + [slot];
      slotToTile[slot] := Some(tile);
    }

    /** Neither popping an active slot nor popping a free one can find the list empty. */
    method PrepareFrame(tileCount: nat)
      requires Valid() && tileCount <= slotToTile.Length
      modifies this, slotToTile
      ensures Valid() && |tileToSlot| == tileCount
      ensures releasedSlots == if tileCount < old(|tileToSlot|) then Descending(old(|tileToSlot|), tileCount) else []
    {
      releasedSlots := [];
      ghost var active := |tileToSlot|;
      while |tileToSlot| > tileCount
        invariant Valid() && |tileToSlot| <= active
        invariant |tileToSlot| < active ==> tileCount <= |tileToSlot|
        invariant releasedSlots == Descending(active, |tileToSlot|)
      {
        var slot := ReleaseLast();
        releasedSlots := releasedSlots + [slot];
      }
      ghost var released := releasedSlots;
      while |tileToSlot| < tileCount
        invariant Valid() && |tileToSlot| <= tileCount && releasedSlots == released
      {
        TakeFree();
      }
    }

    method DrainReleasedSlots() returns (released: seq<nat>)
      requires Valid()
      modifies this`releasedSlots
      ensures Valid() && released == old(releasedSlots) && releasedSlots == []
    {
      released := releasedSlots;
      releasedSlots := [];
    }

    /** Reports whether the canvas has to be shown and whether it has to move, compared with what it was given last. */
    method ApplyPlacement(slot: nat, placement: Placement) returns (update: SlotUpdate)
      requires Valid() && slot < slotStates.Length
      modifies slotStates
      ensures Valid() && slotStates[..] == old(slotStates[..])[slot := SlotState(true, Some(placement))]
      ensures update.show == !old(slotStates[slot].visible) && !update.hide
      ensures update.moveOrResize == (old(slotStates[slot].placement) != Some(placement))
    {
      var state := slotStates[slot];
      update := SlotUpdate(!state.visible, false, state.placement != Some(placement));
      slotStates[slot] := SlotState(true, Some(placement));
    }

    method ReleaseSlot(slot: nat) returns (update: SlotUpdate)
      requires Valid() && slot < slotStates.Length
      modifies slotStates
      ensures Valid() && slotStates[..] == old(slotStates[..])[slot := UNUSED]
      ensures update == SlotUpdate(false, old(slotStates[slot].visible), false)
    {
      var wasVisible := slotStates[slot].visible;
      slotStates[slot] := UNUSED;
      update := SlotUpdate(false, wasVisible, false);
    }
  }

  // ----- frames

  /** A canvas on the screen; one that has never been placed stands wherever it was created. */
  datatype Canvas = Canvas(visible: bool, placement: Placement)

  /** The pool knows which canvases are visible, and where those are that it has placed. */
  predicate Mirrors(state: SlotState, canvas: Canvas) {
    state.visible == canvas.visible && (state.placement.Some? ==> state.placement.value == canvas.placement)
  }

  class Screen {
    const pool: Pool
    const canvases: array<Canvas>

    /** Slots beyond the active ones are not in use, unless they are about to be released. */
    ghost predicate Valid()
      reads this, pool, pool.slotToTile, pool.slotStates, canvases
    {
      && pool.Valid() && canvases.Length == pool.slotStates.Length
      && (canvases as object) != (pool.slotStates as object) && (canvases as object) != (pool.slotToTile as object)
      && (forall s :: 0 <= s < canvases.Length ==> Mirrors(pool.slotStates[s], canvases[s]))
      && (forall s :: |pool.tileToSlot| <= s < canvases.Length ==> pool.slotStates[s] == UNUSED)
    }

    /** All canvases start hidden. */
    constructor (capacity: nat, created: seq<Placement>)
      requires |created| == capacity
      ensures Valid() && fresh(pool) && fresh(pool.slotToTile) && fresh(pool.slotStates) && fresh(canvases)
      ensures canvases.Length == capacity
    {
      pool := new Pool(capacity);
      canvases := new Canvas[capacity](k requires 0 <= k < capacity => Canvas(false, created[k]));
    }

    method HideReleased(released: seq<nat>, active: nat)
      requires pool.Valid() && canvases.Length == pool.slotStates.Length
      requires (canvases as object) != (pool.slotStates as object) && (canvases as object) != (pool.slotToTile as object)
      requires forall s :: 0 <= s < canvases.Length ==> Mirrors(pool.slotStates[s], canvases[s])
      requires active == |pool.tileToSlot| && forall s :: s in released ==> active <= s < canvases.Length
      requires forall s :: active <= s < canvases.Length && s !in released ==> pool.slotStates[s] == UNUSED
      modifies pool.slotStates, canvases
      ensures Valid()
    {
      for k := 0 to |released|
        invariant pool.Valid()
        invariant forall s :: 0 <= s < canvases.Length ==> Mirrors(pool.slotStates[s], canvases[s])
        invariant forall s :: active <= s < canvases.Length && s !in released[k..] ==> pool.slotStates[s] == UNUSED
      {
        var slot := released[k];
        assert slot in released;
        ghost var before := pool.slotStates[..];
        var update := pool.ReleaseSlot(slot);
        assert pool.slotStates[..] == before[slot := UNUSED];
        if update.hide {
          canvases[slot] := canvases[slot].(visible := false);
        }
      }
    }

    method PlaceTile(tile: nat, placement: Placement)
      requires Valid() && tile < |pool.tileToSlot|
      modifies pool.slotStates, canvases
      ensures Valid()
      ensures pool.slotStates[..] == old(pool.slotStates[..])[tile := SlotState(true, Some(placement))]
    {
      var slot := pool.tileToSlot[tile];
      ghost var before := pool.slotStates[..];
      var update := pool.ApplyPlacement(slot, placement);
      assert pool.slotStates[..] == before[slot := SlotState(true, Some(placement))];
      if update.show {
        canvases[slot] := canvases[slot].(visible := true);
      }
      if update.moveOrResize {
        canvases[slot] := canvases[slot].(placement := placement);
      }
    }

    /**
     * Applying only the differences leaves every canvas as if all had been set up anew: the first ones are visible
     * and stand where their tiles are, the others are hidden.
     */
    method Frame(tiles: seq<Placement>)
      requires Valid() && |tiles| <= canvases.Length
      modifies pool, pool.slotToTile, pool.slotStates, canvases
      ensures Valid() && |pool.tileToSlot| == |tiles|
      ensures forall s :: 0 <= s < canvases.Length ==> canvases[s].visible == (s < |tiles|)
      ensures forall s :: 0 <= s < |tiles| ==> canvases[s].placement == tiles[s]
    {
      ghost var active := |pool.tileToSlot|;
      pool.PrepareFrame(|tiles|);
      var released := pool.DrainReleasedSlots();
      if |tiles| < active {
        forall s | 0 <= s < canvases.Length ensures s in released <==> |tiles| <= s < active {
          InDescending(active, |tiles|, s);
        }
      }
      HideReleased(released, |tiles|);
      for tile := 0 to |tiles|
        invariant Valid() && |pool.tileToSlot| == |tiles|
        invariant forall s :: 0 <= s < tile ==> pool.slotStates[s] == SlotState(true, Some(tiles[s]))
      {
        ghost var before := pool.slotStates[..];
        PlaceTile(tile, tiles[tile]);
        assert pool.slotStates[..] == before[tile := SlotState(true, Some(tiles[tile]))];
      }
    }
  }
}
