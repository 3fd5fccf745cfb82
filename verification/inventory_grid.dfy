/**
 * The client-side view of an inventory (UInventoryGridViewModel): the
 * container grid plus a visual copy of the tagged slots. Modelled here are the
 * checks that guard a move, whether a tagged slot can take an item, and the
 * choice of a tagged slot for an item.
 *
 * The component's own answers to IsTaggedSlotCompatible,
 * CanItemBeEquippedInUniversalSlot, IsTaggedSlotBlocked and
 * CanContainerReceiveItems are parameters.
 */
module InventoryGrid {
  import opened Tags
  import opened Wrappers
  import opened ItemData
  import opened Bundle

  /** One entry of ViewableTaggedSlots, in the map's iteration order. */
  datatype SlotView = SlotView(slot: Tag, item: ItemBundle)

  /** The entry for a tagged slot, if the view has one. */
  function FindView(tagged: seq<SlotView>, slot: Tag): (r: Option<nat>)
    ensures r.Some? ==> r.value < |tagged| && tagged[r.value].slot == slot
    ensures r.None? ==> forall j :: 0 <= j < |tagged| ==> tagged[j].slot != slot
  {
    if |tagged| == 0 then None
    else if tagged[0].slot == slot then Some(0)
    else
      match FindView(tagged[1..], slot)
      case None => None
      case Some(i) => Some(i + 1)
  }

  /** IsTaggedSlotEmpty: the view has no entry for the slot, or an invalid one. */
  predicate IsTaggedSlotEmpty(tagged: seq<SlotView>, slot: Tag)
  {
    match FindView(tagged, slot)
    case None => true
    case Some(k) => !Valid(tagged[k].item)
  }

  /**
   * The bundle a (tag, index) pair names: a valid tag names a tagged slot of
   * the view, an invalid tag names the grid slot at the index.
   */
  function At(grid: seq<ItemBundle>, tagged: seq<SlotView>, tag: Tag, index: int): (r: Option<ItemBundle>)
    ensures r.Some? && IsValid(tag) ==> FindView(tagged, tag).Some?
    ensures r.Some? && !IsValid(tag) ==> 0 <= index < |grid| && r.value == grid[index]
  {
    if IsValid(tag) then
      match FindView(tagged, tag)
      case None => None
      case Some(k) => Some(tagged[k].item)
    else if 0 <= index < |grid| then Some(grid[index])
    else None
  }

  // ------------------------------------------------------------ move validation

  /**
   * What an accepted move asks for: the item, how many, the bundle expected
   * back when the target's different item is swapped (an invalid id and
   * quantity -1 when no swap is prepared), and whether the inventory
   * component must validate it.
   */
  datatype MovePlan = Refused | Planned(id: Tag, requested: int, swapId: Tag, swapQuantity: int, asksServer: bool)

  /**
   * The validation half of MoveItem_Internal: source and target must name
   * existing slots and differ, the source must hold something, the quantity
   * must be positive and (for a split) no more than the source holds, and a
   * tagged target must be compatible with the item.
   */
  function ValidateMove(linked: bool, grid: seq<ItemBundle>, tagged: seq<SlotView>,
                        sourceTag: Tag, sourceIndex: int, targetTag: Tag, targetIndex: int,
                        quantity: int, isSplit: bool, compatible: (Tag, Tag) -> bool): (r: MovePlan)
    ensures r.Planned? ==> linked
    // both ends exist, and they are not the same slot
    ensures r.Planned? ==> At(grid, tagged, sourceTag, sourceIndex).Some? && At(grid, tagged, targetTag, targetIndex).Some?
    ensures !IsValid(sourceTag) && !IsValid(targetTag) && sourceIndex == targetIndex ==> r == Refused
    ensures IsValid(sourceTag) && sourceTag == targetTag ==> r == Refused
    // the item and quantity come from a non-empty source
    ensures r.Planned? ==>
              var source := At(grid, tagged, sourceTag, sourceIndex).value;
              && Valid(source) && r.id == source.id
              && 0 < r.requested <= source.quantity
              && r.requested == (if isSplit then quantity else source.quantity)
    ensures r.Planned? && IsValid(targetTag) ==> compatible(r.id, targetTag)
    // a swap is prepared only for a whole-stack move onto a different item
    ensures r.Planned? ==>
              var target := At(grid, tagged, targetTag, targetIndex).value;
              && (IsValid(r.swapId) <==> !isSplit && Valid(target) && target.id != r.id)
              && (IsValid(r.swapId) ==> r.swapId == target.id && r.swapQuantity == target.quantity)
              && (!IsValid(r.swapId) ==> r.swapQuantity == -1)
    ensures r.Planned? ==> (r.asksServer <==> IsValid(sourceTag) || IsValid(targetTag))
    // and a move meeting every rule is accepted
    ensures (linked && At(grid, tagged, sourceTag, sourceIndex).Some? && At(grid, tagged, targetTag, targetIndex).Some?
             && !(!IsValid(sourceTag) && !IsValid(targetTag) && sourceIndex == targetIndex)
             && !(IsValid(sourceTag) && sourceTag == targetTag)
             && Valid(At(grid, tagged, sourceTag, sourceIndex).value)
             && (if isSplit then 0 < quantity <= At(grid, tagged, sourceTag, sourceIndex).value.quantity
                 else At(grid, tagged, sourceTag, sourceIndex).value.quantity > 0)
             && (IsValid(targetTag) ==> compatible(At(grid, tagged, sourceTag, sourceIndex).value.id, targetTag)))
            ==> r.Planned?
  {
    var sourceSlot := At(grid, tagged, sourceTag, sourceIndex);
    var targetSlot := At(grid, tagged, targetTag, targetIndex);
    var sourceIsGrid := sourceSlot.Some? && !IsValid(sourceTag);
    var targetIsGrid := targetSlot.Some? && !IsValid(targetTag);
    var sourceIsTag := sourceSlot.Some? && IsValid(sourceTag);
    var targetIsTag := targetSlot.Some? && IsValid(targetTag);
    if !linked then Refused
    else if (!sourceIsGrid && !sourceIsTag) || (!targetIsGrid && !targetIsTag) then Refused
    else if sourceIsGrid && targetIsGrid && sourceIndex == targetIndex then Refused
    else if sourceIsTag && targetIsTag && sourceTag == targetTag then Refused
    else
      var source := sourceSlot.value;
      if !Valid(source) then Refused
      else
        var requested := if isSplit then quantity else source.quantity;
        if requested <= 0 then Refused
        else if isSplit && requested > source.quantity then Refused
        else
          var target := targetSlot.value;
          if targetIsTag && !compatible(source.id, targetTag) then Refused
          else
            var swap := !isSplit && Valid(target) && target.id != source.id;
            Planned(source.id, requested, if swap then target.id else EmptyTag, if swap then target.quantity else -1,
                    sourceIsTag || targetIsTag)
  }

  // ------------------------------------------------------------ receiving in a tagged slot

  /**
   * CanTaggedSlotReceiveItem: a compatible, unblocked slot the view knows
   * receives when it is empty, or when it holds the same item stacking beyond
   * one and the sum stays within the stack size. Container limits are
   * consulted only when asked.
   */
  function CanTaggedSlotReceiveItem(linked: bool, reg: Registry, tagged: seq<SlotView>, id: Tag, quantity: int,
                                    slot: Tag, checkContainerLimits: bool, compatible: bool, slotBlocked: bool,
                                    containerCanReceive: bool): (r: bool)
    ensures r ==> linked && IsValid(id) && IsValid(slot) && quantity > 0 && compatible && !slotBlocked
    ensures r && checkContainerLimits ==> containerCanReceive
    ensures r ==> FindView(tagged, slot).Some?
    // an occupied slot receives only more of its own item, within the stack size
    ensures r && !IsTaggedSlotEmpty(tagged, slot) ==>
              var held := tagged[FindView(tagged, slot).value].item;
              held.id == id && id in reg && reg[id].maxStack > 1 && held.quantity + quantity <= reg[id].maxStack
    ensures (linked && IsValid(id) && IsValid(slot) && quantity > 0 && compatible && !slotBlocked
             && (checkContainerLimits ==> containerCanReceive) && FindView(tagged, slot).Some?) ==>
              (r <==> IsTaggedSlotEmpty(tagged, slot)
                      || (var held := tagged[FindView(tagged, slot).value].item;
                          held.id == id && id in reg && reg[id].maxStack > 1 && held.quantity + quantity <= reg[id].maxStack))
  {
    if !linked || !IsValid(id) || !IsValid(slot) || quantity <= 0 then false
    else if !compatible then false
    else if slotBlocked then false
    else if checkContainerLimits && !containerCanReceive then false
    else
      match FindView(tagged, slot)
      case None => false
      case Some(k) =>
        var held := tagged[k].item;
        if !Valid(held) then true
        else if held.id == id then
          if id !in reg then false
          else if reg[id].maxStack <= 1 then false
          else held.quantity + quantity <= reg[id].maxStack
        else false
  }

  /**
   * An empty tagged slot takes any positive quantity, while an empty grid
   * slot takes at most one stack: the tagged check leaves the stack size to
   * the add that follows.
   */
  lemma EmptyTaggedSlotIgnoresStackSize(reg: Registry, slot: Tag, id: Tag, quantity: int)
    requires IsValid(slot) && IsValid(id) && id in reg && quantity > reg[id].maxStack && quantity > 0
    ensures CanTaggedSlotReceiveItem(true, reg, [SlotView(slot, Empty)], id, quantity, slot, false, true, false, true)
  {
    assert FindView([SlotView(slot, Empty)], slot) == Some(0);
  }

  // ------------------------------------------------------------ choosing a tagged slot

  /** A visible stack of the item with room left. */
  predicate PartialEntry(e: SlotView, d: ItemDef, id: Tag)
  {
    Valid(e.item) && e.item.id == id && d.maxStack > 1 && e.item.quantity < d.maxStack
  }

  /** The first pass: the first partial stack in the view's order. */
  function FirstPartial(tagged: seq<SlotView>, d: ItemDef, id: Tag): (r: Option<nat>)
    ensures r.Some? ==> r.value < |tagged| && PartialEntry(tagged[r.value], d, id)
    ensures r.Some? ==> forall j :: 0 <= j < r.value ==> !PartialEntry(tagged[j], d, id)
    ensures r.None? ==> forall j :: 0 <= j < |tagged| ==> !PartialEntry(tagged[j], d, id)
  {
    if |tagged| == 0 then None
    else if PartialEntry(tagged[0], d, id) then Some(0)
    else
      match FirstPartial(tagged[1..], d, id)
      case None => None
      case Some(i) => Some(i + 1)
  }

  /** A pass over slot tags either picks a slot outright or leaves its fallbacks. */
  datatype Scan = Chosen(slot: Tag) | Pending(fallback: Tag, lastResort: Tag)

  /**
   * The specialized pass: the first compatible empty slot wins; the first
   * compatible occupied one becomes the fallback unless one is already set.
   */
  function ScanSpecialized(tagged: seq<SlotView>, id: Tag, specialized: seq<Tag>,
                           compatible: (Tag, Tag) -> bool, fallback: Tag): (r: Scan)
    ensures r.Chosen? ==> r.slot in specialized && compatible(id, r.slot) && IsTaggedSlotEmpty(tagged, r.slot)
    ensures r.Pending? ==> forall j :: 0 <= j < |specialized| && compatible(id, specialized[j])
                                       ==> !IsTaggedSlotEmpty(tagged, specialized[j])
    ensures r.Pending? ==> r.lastResort == EmptyTag
    ensures r.Pending? ==> r.fallback == fallback || (r.fallback in specialized && compatible(id, r.fallback))
    ensures r.Pending? && IsValid(fallback) ==> r.fallback == fallback
  {
    if |specialized| == 0 then Pending(fallback, EmptyTag)
    else
      var s := specialized[0];
      var rest := specialized[1..];
      assert forall j :: 1 <= j < |specialized| ==> specialized[j] == rest[j - 1];
      if compatible(id, s) then
        if IsTaggedSlotEmpty(tagged, s) then Chosen(s)
        else ScanSpecialized(tagged, id, rest, compatible, if IsValid(fallback) then fallback else s)
      else ScanSpecialized(tagged, id, rest, compatible, fallback)
  }

  /**
   * The universal pass over slots the item can be equipped in. An empty one
   * matching one of the item's categories wins and the first empty one is
   * kept as fallback; an occupied one is kept as the last resort. As written
   * (`asWritten`), empty slots are only considered while the fallback is not
   * a specialized slot, so an occupied specialized fallback shuts them all
   * out. The corrected pass treats an occupied specialized fallback as no
   * fallback at all.
   */
  function ScanUniversal(tagged: seq<SlotView>, d: ItemDef, id: Tag, universal: seq<Tag>, specialized: seq<Tag>,
                         canEquip: (Tag, Tag) -> bool, fallback: Tag, lastResort: Tag, asWritten: bool): (r: Scan)
    ensures r.Chosen? ==> r.slot in universal && canEquip(id, r.slot) && IsTaggedSlotEmpty(tagged, r.slot)
                          && HasTag(d.categories, r.slot)
    ensures r.Pending? ==> r.fallback == fallback
                           || (r.fallback in universal && canEquip(id, r.fallback) && IsTaggedSlotEmpty(tagged, r.fallback))
    ensures r.Pending? ==> r.lastResort == lastResort || (r.lastResort in universal && canEquip(id, r.lastResort))
    // the corrected pass: once an empty slot could be taken, the result is an empty slot
    ensures !asWritten && (!IsValid(fallback) || (fallback in specialized && !IsTaggedSlotEmpty(tagged, fallback)))
            && (exists j :: 0 <= j < |universal| && IsValid(universal[j]) && canEquip(id, universal[j])
                            && IsTaggedSlotEmpty(tagged, universal[j])) ==>
              (r.Chosen? || (IsValid(r.fallback) && canEquip(id, r.fallback) && IsTaggedSlotEmpty(tagged, r.fallback)))
    ensures !asWritten && IsValid(fallback) && canEquip(id, fallback) && IsTaggedSlotEmpty(tagged, fallback) ==>
              (r.Chosen? || (IsValid(r.fallback) && canEquip(id, r.fallback) && IsTaggedSlotEmpty(tagged, r.fallback)))
  {
    if |universal| == 0 then Pending(fallback, lastResort)
    else
      var u := universal[0];
      var rest := universal[1..];
      assert forall j :: 1 <= j < |universal| ==> universal[j] == rest[j - 1];
      if canEquip(id, u) then
        if IsTaggedSlotEmpty(tagged, u) then
          var occupiedSpecialized := fallback in specialized && !IsTaggedSlotEmpty(tagged, fallback);
          var open := !IsValid(fallback) || fallback !in specialized || (!asWritten && occupiedSpecialized);
          if open then
            if HasTag(d.categories, u) then Chosen(u)
            else
              var replace := !IsValid(fallback) || (!asWritten && occupiedSpecialized);
              ScanUniversal(tagged, d, id, rest, specialized, canEquip, if replace then u else fallback, lastResort, asWritten)
          else ScanUniversal(tagged, d, id, rest, specialized, canEquip, fallback, lastResort, asWritten)
        else
          ScanUniversal(tagged, d, id, rest, specialized, canEquip, fallback,
                        if IsValid(lastResort) then lastResort else u, asWritten)
      else ScanUniversal(tagged, d, id, rest, specialized, canEquip, fallback, lastResort, asWritten)
  }

  /**
   * The passes of FindTaggedSlotForItem once the item is known: a partial
   * stack, then an empty compatible specialized slot, then (unless empty
   * universal slots are preferred) an occupied compatible specialized slot,
   * then the universal slots, then the fallbacks. EmptyTag means none.
   */
  function ChooseTaggedSlot(tagged: seq<SlotView>, d: ItemDef, id: Tag, specialized: seq<Tag>, universal: seq<Tag>,
                            preferEmptyUniversal: bool, compatible: (Tag, Tag) -> bool,
                            canEquip: (Tag, Tag) -> bool, asWritten: bool): (r: Tag)
    // a candidate of one of the three kinds, or nothing
    ensures IsValid(r) ==>
              (exists k :: 0 <= k < |tagged| && tagged[k].slot == r && PartialEntry(tagged[k], d, id))
              || (r in specialized && compatible(id, r))
              || (r in universal && canEquip(id, r))
    // the first partial stack wins
    ensures var p := FirstPartial(tagged, d, id);
            p.Some? && IsValid(tagged[p.value].slot) ==> r == tagged[p.value].slot
    // failing that, an empty compatible specialized slot
    ensures var p := FirstPartial(tagged, d, id);
            (p.None? || !IsValid(tagged[p.value].slot))
            && (exists j :: 0 <= j < |specialized| && compatible(id, specialized[j]) && IsTaggedSlotEmpty(tagged, specialized[j]))
            ==> r in specialized && compatible(id, r) && IsTaggedSlotEmpty(tagged, r)
  {
    var p := FirstPartial(tagged, d, id);
    if p.Some? && IsValid(tagged[p.value].slot) then tagged[p.value].slot
    else
      match ScanSpecialized(tagged, id, specialized, compatible, EmptyTag)
      case Chosen(s) => s
      case Pending(fallback, _) =>
        if !preferEmptyUniversal && IsValid(fallback) then fallback
        else
          match ScanUniversal(tagged, d, id, universal, specialized, canEquip, fallback, EmptyTag, asWritten)
          case Chosen(u) => u
          case Pending(f, lastResort) => if IsValid(f) then f else lastResort
  }

  /** FindTaggedSlotForItem as the source has it. The quantity argument is never read. */
  function FindTaggedSlotForItemAsWritten(linked: bool, reg: Registry, tagged: seq<SlotView>, id: Tag,
                                          specialized: seq<Tag>, universal: seq<Tag>, preferEmptyUniversal: bool,
                                          compatible: (Tag, Tag) -> bool, canEquip: (Tag, Tag) -> bool): (r: Tag)
    ensures !linked || !IsValid(id) || id !in reg ==> r == EmptyTag
  {
    if !IsValid(id) || !linked || id !in reg then EmptyTag
    else ChooseTaggedSlot(tagged, reg[id], id, specialized, universal, preferEmptyUniversal, compatible, canEquip, true)
  }

  /**
   * FindTaggedSlotForItem with the universal pass corrected: when empty
   * universal slots are preferred, one beats an occupied specialized slot.
   */
  function FindTaggedSlotForItem(linked: bool, reg: Registry, tagged: seq<SlotView>, id: Tag,
                                 specialized: seq<Tag>, universal: seq<Tag>, preferEmptyUniversal: bool,
                                 compatible: (Tag, Tag) -> bool, canEquip: (Tag, Tag) -> bool): (r: Tag)
    ensures !linked || !IsValid(id) || id !in reg ==> r == EmptyTag
    ensures IsValid(r) ==>
              (exists k :: 0 <= k < |tagged| && tagged[k].slot == r && PartialEntry(tagged[k], reg[id], id))
              || (r in specialized && compatible(id, r))
              || (r in universal && canEquip(id, r))
    ensures linked && IsValid(id) && id in reg ==>
              var p := FirstPartial(tagged, reg[id], id);
              && (p.Some? && IsValid(tagged[p.value].slot) ==> r == tagged[p.value].slot)
              && ((p.None? || !IsValid(tagged[p.value].slot))
                  && (exists j :: 0 <= j < |specialized| && compatible(id, specialized[j])
                                  && IsTaggedSlotEmpty(tagged, specialized[j]))
                  ==> r in specialized && compatible(id, r) && IsTaggedSlotEmpty(tagged, r))
    // preferring empty universal slots: one the item can be equipped in beats every occupied slot
    ensures linked && IsValid(id) && id in reg && preferEmptyUniversal
            && (var p := FirstPartial(tagged, reg[id], id); p.None? || !IsValid(tagged[p.value].slot))
            && (forall j :: 0 <= j < |specialized| && compatible(id, specialized[j]) ==> !IsTaggedSlotEmpty(tagged, specialized[j]))
            && (exists j :: 0 <= j < |universal| && IsValid(universal[j]) && canEquip(id, universal[j])
                            && IsTaggedSlotEmpty(tagged, universal[j]))
            ==> IsValid(r) && canEquip(id, r) && IsTaggedSlotEmpty(tagged, r)
  {
    if !IsValid(id) || !linked || id !in reg then EmptyTag
    else ChooseTaggedSlot(tagged, reg[id], id, specialized, universal, preferEmptyUniversal, compatible, canEquip, false)
  }

  /** The correction changes nothing unless empty universal slots are preferred. */
  lemma CorrectionNeedsPreference(linked: bool, reg: Registry, tagged: seq<SlotView>, id: Tag,
                                  specialized: seq<Tag>, universal: seq<Tag>,
                                  compatible: (Tag, Tag) -> bool, canEquip: (Tag, Tag) -> bool)
    ensures FindTaggedSlotForItem(linked, reg, tagged, id, specialized, universal, false, compatible, canEquip)
            == FindTaggedSlotForItemAsWritten(linked, reg, tagged, id, specialized, universal, false, compatible, canEquip)
  {
    if linked && IsValid(id) && id in reg {
      var d := reg[id];
      var p := FirstPartial(tagged, d, id);
      if !(p.Some? && IsValid(tagged[p.value].slot)) {
        var sp := ScanSpecialized(tagged, id, specialized, compatible, EmptyTag);
        if sp.Pending? && !IsValid(sp.fallback) {
          UniversalPassesAgree(tagged, d, id, universal, specialized, canEquip, sp.fallback, EmptyTag);
        }
      }
    }
  }

  /** While the fallback is empty or unset, both universal passes visit the slots alike. */
  lemma {:induction false} UniversalPassesAgree(tagged: seq<SlotView>, d: ItemDef, id: Tag, universal: seq<Tag>,
                                                specialized: seq<Tag>, canEquip: (Tag, Tag) -> bool,
                                                fallback: Tag, lastResort: Tag)
    requires !IsValid(fallback) || IsTaggedSlotEmpty(tagged, fallback)
    ensures ScanUniversal(tagged, d, id, universal, specialized, canEquip, fallback, lastResort, false)
            == ScanUniversal(tagged, d, id, universal, specialized, canEquip, fallback, lastResort, true)
    decreases |universal|
  {
    if |universal| > 0 {
      var u := universal[0];
      var rest := universal[1..];
      if canEquip(id, u) && IsTaggedSlotEmpty(tagged, u) {
        UniversalPassesAgree(tagged, d, id, rest, specialized, canEquip, if !IsValid(fallback) then u else fallback, lastResort);
      } else if canEquip(id, u) {
        UniversalPassesAgree(tagged, d, id, rest, specialized, canEquip, fallback, if IsValid(lastResort) then lastResort else u);
      } else {
        UniversalPassesAgree(tagged, d, id, rest, specialized, canEquip, fallback, lastResort);
      }
    }
  }

  // ------------------------------------------------------------ example

  const CapId: Tag := "Items.IDs.Cap"
  const HelmetSlot: Tag := "Slots.Helmet"
  const RightHand: Tag := "Hands.RightHand"
  const CapRegistry: Registry := map[CapId := ItemDef(CapId, false, 1, 1, [], 1, 1, false)]
  /** The helmet slot already holds a helmet; the right hand is empty. */
  const HelmetWorn: seq<SlotView> := [SlotView(HelmetSlot, ItemBundle("Items.IDs.Helmet", 1))]

  /**
   * A cap fits the occupied helmet slot and the empty right hand. Preferring
   * empty universal slots, the source still picks the occupied helmet slot;
   * the corrected search picks the right hand.
   */
  lemma AsWrittenIgnoresPreference()
    ensures !IsTaggedSlotEmpty(HelmetWorn, HelmetSlot) && IsTaggedSlotEmpty(HelmetWorn, RightHand)
    ensures FindTaggedSlotForItemAsWritten(true, CapRegistry, HelmetWorn, CapId, [HelmetSlot], [RightHand], true,
                                           (i, s) => true, (i, s) => true) == HelmetSlot
    ensures FindTaggedSlotForItem(true, CapRegistry, HelmetWorn, CapId, [HelmetSlot], [RightHand], true,
                                  (i, s) => true, (i, s) => true) == RightHand
  {
    assert HelmetSlot[0] != RightHand[0];
    assert FindView(HelmetWorn, RightHand) == None;
    assert CapId[10] != "Items.IDs.Helmet"[10];
    assert FirstPartial(HelmetWorn, CapRegistry[CapId], CapId) == None;
    assert !HasTag([], RightHand);
  }
}
