/**
 * The inventory (UInventoryComponent): an item container with tagged
 * equipment slots on top. Items in tagged slots are mirrored in the
 * container, so the container's total for an id counts them as well.
 *
 * Universal slots take any item that is not exclusive to another universal
 * slot, and an item in one universal slot can block another (a two-handed
 * weapon in the right hand blocks the left). Specialized slots take only
 * items carrying the slot's own tag.
 */
module Inventory {
  import opened Tags
  import opened Wrappers
  import opened ItemData
  import opened Bundle
  import C = Container

  /** FTaggedItemBundle as the component uses it: slot, item, quantity, blocked flag. */
  datatype TaggedItem = TaggedItem(slot: Tag, id: Tag, quantity: int, blocked: bool)

  /** What the lookups hand back for a slot that has no entry. */
  const NoTaggedItem: TaggedItem := TaggedItem(EmptyTag, EmptyTag, 0, false)

  /** FTaggedItemBundle::IsValid: both the slot and the item id are valid tags. */
  predicate Holds(t: TaggedItem)
  {
    IsValid(t.slot) && IsValid(t.id)
  }

  /** FUniversalTaggedSlot. */
  datatype UniversalSlot = UniversalSlot(slot: Tag, slotToBlock: Tag, blockingCategory: Tag, exclusiveCategory: Tag)

  datatype Inventory = Inventory(
    container: C.Container,
    tagged: seq<TaggedItem>,
    universal: seq<UniversalSlot>,
    specialized: seq<Tag>)

  /** The result of a removal: the new inventory and the quantity removed (0 means refused). */
  datatype Removal = Removal(inventory: Inventory, removed: int)

  // ---------------------------------------------------------------- lookup

  /** GetIndexForTaggedSlot: the first entry for the slot. */
  function IndexForTaggedSlot(tagged: seq<TaggedItem>, slot: Tag): (r: Option<nat>)
    ensures r.Some? ==> r.value < |tagged| && tagged[r.value].slot == slot
    ensures r.Some? ==> forall j :: 0 <= j < r.value ==> tagged[j].slot != slot
    ensures r.None? ==> forall j :: 0 <= j < |tagged| ==> tagged[j].slot != slot
  {
    if |tagged| == 0 then None
    else if tagged[0].slot == slot then Some(0)
    else
      match IndexForTaggedSlot(tagged[1..], slot)
      case None => None
      case Some(i) => Some(i + 1)
  }

  /** GetItemForTaggedSlot: the slot's entry, or the empty entry when it has none. */
  function ItemForTaggedSlot(tagged: seq<TaggedItem>, slot: Tag): (r: TaggedItem)
    ensures (forall j :: 0 <= j < |tagged| ==> tagged[j].slot != slot) ==> r == NoTaggedItem
    ensures (exists j :: 0 <= j < |tagged| && tagged[j].slot == slot) ==> r in tagged && r.slot == slot
  {
    match IndexForTaggedSlot(tagged, slot)
    case None => NoTaggedItem
    case Some(k) => tagged[k]
  }

  /** Each slot has at most one entry. */
  predicate UniqueSlots(tagged: seq<TaggedItem>)
  {
    forall i, j :: 0 <= i < j < |tagged| ==> tagged[i].slot != tagged[j].slot
  }

  /** ContainedInUniversalSlot. */
  predicate ContainedInUniversalSlot(universal: seq<UniversalSlot>, slot: Tag)
  {
    exists i :: 0 <= i < |universal| && universal[i].slot == slot
  }

  /** The first universal slot definition for the slot (FindByPredicate). */
  function FindUniversal(universal: seq<UniversalSlot>, slot: Tag): (r: Option<nat>)
    ensures r.Some? ==> r.value < |universal| && universal[r.value].slot == slot
    ensures r.None? <==> !ContainedInUniversalSlot(universal, slot)
  {
    if |universal| == 0 then None
    else if universal[0].slot == slot then Some(0)
    else
      match FindUniversal(universal[1..], slot)
      case None => (assert forall i :: 1 <= i < |universal| ==> universal[i] == universal[1..][i - 1]; None)
      case Some(i) => Some(i + 1)
  }

  // ------------------------------------------------- tagged slot capacity

  /** Some other universal slot claims the item through its exclusive category. */
  predicate ExclusiveToOtherSlot(universal: seq<UniversalSlot>, slot: Tag, d: ItemDef)
  {
    exists i :: 0 <= i < |universal| && universal[i].slot != slot
      && IsValid(universal[i].exclusiveCategory) && HasTag(d.categories, universal[i].exclusiveCategory)
  }

  /**
   * WouldItemMoveIndirectlyViolateBlocking: putting the item into the slot
   * would block another slot that already holds something.
   */
  function WouldItemMoveIndirectlyViolateBlocking(inv: Inventory, slot: Tag, d: ItemDef): (r: bool)
    ensures r ==> IsValid(slot) && ContainedInUniversalSlot(inv.universal, slot)
    // exactly when equipping the item here would flag a slot that holds an item as blocked
    ensures r <==> IsValid(slot) && BlockingRule(inv.universal, slot).Some?
                   && var partner := BlockingRule(inv.universal, slot).value.slotToBlock;
                      Holds(ItemForTaggedSlot(inv.tagged, partner))
                      && IsTaggedSlotBlocked(UpdateBlockingState(inv, slot, Some(d), true).tagged, partner)
  {
    match FindUniversal(inv.universal, slot)
    case None => false
    case Some(k) =>
      var u := inv.universal[k];
      IsValid(u.slot) && IsValid(u.slotToBlock)
      && Holds(ItemForTaggedSlot(inv.tagged, u.slotToBlock)) && HasTag(d.categories, u.blockingCategory)
  }

  /** A universal slot whose filling would block an occupied slot takes nothing without swap-back. */
  lemma ViolationRefusesSlot(inv: Inventory, d: ItemDef, slot: Tag, requested: int, allowPartial: bool)
    requires WouldItemMoveIndirectlyViolateBlocking(inv, slot, d)
    ensures GetReceivableQuantityForTaggedSlot(inv, d, slot, requested, allowPartial, false) == 0
  {
  }

  /**
   * The slot's own rules admit the item: a universal slot unless another
   * universal slot claims it exclusively or (without swap-back) it would
   * block an occupied slot; a specialized slot only for items carrying its tag.
   */
  predicate SlotAccepts(inv: Inventory, d: ItemDef, slot: Tag, allowSwapback: bool)
  {
    if ContainedInUniversalSlot(inv.universal, slot) then
      !ExclusiveToOtherSlot(inv.universal, slot, d)
      && (allowSwapback || !WouldItemMoveIndirectlyViolateBlocking(inv, slot, d))
    else HasTag(d.categories, slot)
  }

  /** GetReceivableQuantityForTaggedSlot. */
  function GetReceivableQuantityForTaggedSlot(inv: Inventory, d: ItemDef, slot: Tag, requested: int,
                                              allowPartial: bool, allowSwapback: bool): (r: int)
    ensures r == 0 || r <= Min(d.maxStack, requested)
    // the slot's own rules come first
    ensures !SlotAccepts(inv, d, slot, allowSwapback) ==> r == 0
    // what is already in the slot
    ensures var inSlot := ItemForTaggedSlot(inv.tagged, slot);
            && (!allowSwapback && Holds(inSlot) && inSlot.id != d.id ==> r == 0)
            && (!allowSwapback && inSlot.blocked ==> r == 0)
            && (inSlot.id == d.id && (!allowSwapback || d.maxStack > 1) ==> r == 0 || r <= d.maxStack - inSlot.quantity)
            && (!allowPartial && Holds(inSlot) ==> r == 0 || r == requested)
    // an empty, unblocked, accepting slot takes a full stack, partial or not
    ensures var inSlot := ItemForTaggedSlot(inv.tagged, slot);
            SlotAccepts(inv, d, slot, allowSwapback) && !Holds(inSlot) && inSlot.id != d.id && !inSlot.blocked
            ==> r == Min(d.maxStack, requested)
  {
    if ContainedInUniversalSlot(inv.universal, slot) && ExclusiveToOtherSlot(inv.universal, slot, d) then 0
    else if ContainedInUniversalSlot(inv.universal, slot) && !allowSwapback
            && WouldItemMoveIndirectlyViolateBlocking(inv, slot, d) then 0
    else if !ContainedInUniversalSlot(inv.universal, slot) && !HasTag(d.categories, slot) then 0
    else
      var inSlot := ItemForTaggedSlot(inv.tagged, slot);
      var stack := Min(d.maxStack, requested);
      if inSlot.id != d.id && Holds(inSlot) && !allowSwapback then 0
      else
        var viable := if inSlot.id == d.id && (!allowSwapback || d.maxStack > 1)
                      then Min(stack, d.maxStack - inSlot.quantity) else stack;
        if inSlot.blocked && !allowSwapback then 0
        else if !Holds(inSlot) then viable
        else if !allowPartial && viable < requested then 0
        else viable
  }

  /** CanReceiveItemInTaggedSlot: the whole quantity fits, asked for without partial. */
  function CanReceiveItemInTaggedSlot(reg: Registry, inv: Inventory, id: Tag, quantity: int, slot: Tag,
                                      swapBackAllowed: bool): (r: bool)
    ensures r ==> id in reg
    ensures r && quantity > 0 ==> quantity <= reg[id].maxStack && SlotAccepts(inv, reg[id], slot, swapBackAllowed)
    ensures r && quantity > 0 && !swapBackAllowed ==> !ItemForTaggedSlot(inv.tagged, slot).blocked
    ensures var inSlot := ItemForTaggedSlot(inv.tagged, slot);
            (id in reg && 0 < quantity <= reg[id].maxStack && SlotAccepts(inv, reg[id], slot, swapBackAllowed)
             && !Holds(inSlot) && inSlot.id != reg[id].id && !inSlot.blocked) ==> r
  {
    id in reg && GetReceivableQuantityForTaggedSlot(inv, reg[id], slot, quantity, false, swapBackAllowed) >= quantity
  }

  // ------------------------------------------------ quantities in tagged slots

  /** What one entry holds of the id. */
  function Share(t: TaggedItem, id: Tag): int
  {
    if t.id == id then t.quantity else 0
  }

  /** The quantity of the id held across all tagged slots. */
  function TaggedQuantity(tagged: seq<TaggedItem>, id: Tag): int
  {
    if |tagged| == 0 then 0 else Share(tagged[0], id) + TaggedQuantity(tagged[1..], id)
  }

  lemma {:induction false} TaggedQuantityAppend(tagged: seq<TaggedItem>, t: TaggedItem, id: Tag)
    ensures TaggedQuantity(tagged + [t], id) == TaggedQuantity(tagged, id) + Share(t, id)
  {
    if |tagged| > 0 {
      assert (tagged + [t])[1..] == tagged[1..] + [t];
      TaggedQuantityAppend(tagged[1..], t, id);
    }
  }

  lemma {:induction false} TaggedQuantityUpdate(tagged: seq<TaggedItem>, k: nat, t: TaggedItem, id: Tag)
    requires k < |tagged|
    ensures TaggedQuantity(tagged[k := t], id) == TaggedQuantity(tagged, id) - Share(tagged[k], id) + Share(t, id)
  {
    if k > 0 {
      assert tagged[k := t][1..] == tagged[1..][k - 1 := t];
      TaggedQuantityUpdate(tagged[1..], k - 1, t, id);
    }
  }

  /** TArray::RemoveAt on the tagged entries. */
  function RemoveTaggedAt(tagged: seq<TaggedItem>, k: nat): (r: seq<TaggedItem>)
    requires k < |tagged|
    ensures |r| == |tagged| - 1
    ensures forall j :: 0 <= j < |r| ==> r[j] == (if j < k then tagged[j] else tagged[j + 1])
  {
    tagged[..k] + tagged[k + 1..]
  }

  lemma {:induction false} TaggedQuantityRemove(tagged: seq<TaggedItem>, k: nat, id: Tag)
    requires k < |tagged|
    ensures TaggedQuantity(RemoveTaggedAt(tagged, k), id) == TaggedQuantity(tagged, id) - Share(tagged[k], id)
  {
    if k > 0 {
      assert RemoveTaggedAt(tagged, k)[1..] == RemoveTaggedAt(tagged[1..], k - 1);
      TaggedQuantityRemove(tagged[1..], k - 1, id);
    } else {
      assert RemoveTaggedAt(tagged, 0) == tagged[1..];
    }
  }

  /**
   * GetContainerOnlyItemQuantity: the container's total for the id less
   * what the tagged slots hold of it.
   */
  method GetContainerOnlyItemQuantity(inv: Inventory, id: Tag) returns (r: int)
    ensures r == C.QuantityTotal(inv.container.items, id) - TaggedQuantity(inv.tagged, id)
  {
    r := C.QuantityTotal(inv.container.items, id);
    var i := 0;
    while i < |inv.tagged|
      invariant 0 <= i <= |inv.tagged|
      invariant r == C.QuantityTotal(inv.container.items, id) - TaggedQuantity(inv.tagged, id)
                     + TaggedQuantity(inv.tagged[i..], id)
    {
      assert inv.tagged[i..][1..] == inv.tagged[i + 1..];
      if inv.tagged[i].id == id {
        r := r - inv.tagged[i].quantity;
      }
      i := i + 1;
    }
  }

  // -------------------------------------------------------------- blocking

  /** IsTaggedSlotBlocked. */
  predicate IsTaggedSlotBlocked(tagged: seq<TaggedItem>, slot: Tag)
  {
    ItemForTaggedSlot(tagged, slot).blocked
  }

  /** Entries with the same slots in the same order (plus possibly one appended) are searched alike. */
  lemma {:induction false} IndexSameSlots(tagged: seq<TaggedItem>, after: seq<TaggedItem>, s: Tag)
    requires |after| == |tagged| || |after| == |tagged| + 1
    requires forall k :: 0 <= k < |tagged| ==> after[k].slot == tagged[k].slot
    ensures IndexForTaggedSlot(tagged, s).Some? ==> IndexForTaggedSlot(after, s) == IndexForTaggedSlot(tagged, s)
    ensures IndexForTaggedSlot(tagged, s).None? && |after| == |tagged| ==> IndexForTaggedSlot(after, s).None?
    ensures IndexForTaggedSlot(tagged, s).None? && |after| == |tagged| + 1 ==>
              IndexForTaggedSlot(after, s) == (if after[|tagged|].slot == s then Some(|tagged|) else None)
  {
    var t := IndexForTaggedSlot(tagged, s);
    var n := if t.Some? then t.value else |tagged|;
    forall j | 0 <= j < n
      ensures after[j].slot != s
    {
      assert after[j].slot == tagged[j].slot;
    }
    if t.Some? {
      assert after[n].slot == s;
    }
  }

  /**
   * SetTaggedSlotBlocked: flag the slot's entry, or add an empty entry
   * carrying the flag when the slot has none. Every other slot reads as before.
   */
  function SetTaggedSlotBlocked(tagged: seq<TaggedItem>, slot: Tag, blocked: bool): (r: seq<TaggedItem>)
    ensures IsTaggedSlotBlocked(r, slot) == blocked
    ensures ItemForTaggedSlot(r, slot).id == ItemForTaggedSlot(tagged, slot).id
    ensures ItemForTaggedSlot(r, slot).quantity == ItemForTaggedSlot(tagged, slot).quantity
    ensures forall s :: s != slot ==> ItemForTaggedSlot(r, s) == ItemForTaggedSlot(tagged, s)
    ensures forall id :: IsValid(id) ==> TaggedQuantity(r, id) == TaggedQuantity(tagged, id)
    ensures UniqueSlots(tagged) ==> UniqueSlots(r)
    ensures |r| >= |tagged|
  {
    match IndexForTaggedSlot(tagged, slot)
    case Some(k) =>
      var r := tagged[k := tagged[k].(blocked := blocked)];
      forall s { IndexSameSlots(tagged, r, s); }
      forall id { TaggedQuantityUpdate(tagged, k, r[k], id); }
      r
    case None =>
      var r := tagged + [TaggedItem(slot, EmptyTag, 0, blocked)];
      forall s { IndexSameSlots(tagged, r, s); }
      forall id { TaggedQuantityAppend(tagged, r[|tagged|], id); }
      r
  }

  /** The first universal definition for the slot, when it names a slot to block. */
  function BlockingRule(universal: seq<UniversalSlot>, slot: Tag): (r: Option<UniversalSlot>)
    ensures r.Some? ==> r.value in universal && r.value.slot == slot && IsValid(r.value.slotToBlock)
    ensures r.None? <==> FindUniversal(universal, slot).None? || !IsValid(universal[FindUniversal(universal, slot).value].slotToBlock)
  {
    match FindUniversal(universal, slot)
    case None => None
    case Some(k) => if IsValid(universal[k].slotToBlock) then Some(universal[k]) else None
  }

  /**
   * UpdateBlockingState: once the slot's item changes, the slot it can block
   * is blocked exactly when an item carrying the blocking category is being
   * equipped; nothing else changes.
   */
  function UpdateBlockingState(inv: Inventory, slot: Tag, d: Option<ItemDef>, isEquip: bool): (r: Inventory)
    ensures r.container == inv.container && r.universal == inv.universal && r.specialized == inv.specialized
    ensures BlockingRule(inv.universal, slot).None? ==> r == inv
    ensures BlockingRule(inv.universal, slot).Some? ==>
              var u := BlockingRule(inv.universal, slot).value;
              && (IsTaggedSlotBlocked(r.tagged, u.slotToBlock) <==> isEquip && d.Some? && HasTag(d.value.categories, u.blockingCategory))
              && ItemForTaggedSlot(r.tagged, u.slotToBlock).id == ItemForTaggedSlot(inv.tagged, u.slotToBlock).id
              && ItemForTaggedSlot(r.tagged, u.slotToBlock).quantity == ItemForTaggedSlot(inv.tagged, u.slotToBlock).quantity
              && forall s :: s != u.slotToBlock ==> ItemForTaggedSlot(r.tagged, s) == ItemForTaggedSlot(inv.tagged, s)
    ensures forall id :: IsValid(id) ==> TaggedQuantity(r.tagged, id) == TaggedQuantity(inv.tagged, id)
    ensures UniqueSlots(inv.tagged) ==> UniqueSlots(r.tagged)
    ensures |r.tagged| >= |inv.tagged|
  {
    match BlockingRule(inv.universal, slot)
    case None => inv
    case Some(u) =>
      var block := isEquip && d.Some? && HasTag(d.value.categories, u.blockingCategory);
      inv.(tagged := SetTaggedSlotBlocked(inv.tagged, u.slotToBlock, block))
  }

  /**
   * Equipping an item that carries the blocking category blocks the partner
   * slot, which then refuses every item unless swap-back is allowed; taking
   * it out again unblocks the partner.
   */
  lemma EquipBlocksPartner(inv: Inventory, slot: Tag, d: ItemDef, other: ItemDef, requested: int, allowPartial: bool)
    requires BlockingRule(inv.universal, slot).Some?
    requires HasTag(d.categories, BlockingRule(inv.universal, slot).value.blockingCategory)
    ensures var partner := BlockingRule(inv.universal, slot).value.slotToBlock;
            && GetReceivableQuantityForTaggedSlot(UpdateBlockingState(inv, slot, Some(d), true), other, partner,
                                                  requested, allowPartial, false) == 0
            && !IsTaggedSlotBlocked(UpdateBlockingState(inv, slot, Some(d), false).tagged, partner)
  {
  }

  // -------------------------------------------------- total receivable

  /** The question GetReceivableQuantity puts to each tagged slot: as many as it takes, partial, no swap-back. */
  function SlotTake(inv: Inventory, d: ItemDef, slot: Tag): int
  {
    GetReceivableQuantityForTaggedSlot(inv, d, slot, INT32_MAX, true, false)
  }

  function SpecializedTotal(inv: Inventory, d: ItemDef, slots: seq<Tag>): int
  {
    if |slots| == 0 then 0 else SlotTake(inv, d, slots[0]) + SpecializedTotal(inv, d, slots[1..])
  }

  /** Filling this universal slot with the item would block the slot it names. */
  predicate ActivatesBlocking(u: UniversalSlot, d: ItemDef)
  {
    IsValid(u.slotToBlock) && HasTag(d.categories, u.blockingCategory)
  }

  /**
   * The universal-slot loop of GetReceivableQuantity: a slot that an earlier
   * fill would block is skipped, and a slot that takes something and
   * activates blocking adds its partner to the would-be-blocked list.
   */
  function UniversalTotal(inv: Inventory, d: ItemDef, slots: seq<UniversalSlot>, wouldBeBlocked: seq<Tag>): int
  {
    if |slots| == 0 then 0
    else if slots[0].slot in wouldBeBlocked then UniversalTotal(inv, d, slots[1..], wouldBeBlocked)
    else
      var take := SlotTake(inv, d, slots[0].slot);
      var blocked := if take > 0 && ActivatesBlocking(slots[0], d) then wouldBeBlocked + [slots[0].slotToBlock]
                     else wouldBeBlocked;
      take + UniversalTotal(inv, d, slots[1..], blocked)
  }

  /** Every universal slot's take, ignoring blocking: the reference the loop is measured against. */
  function UniversalSum(inv: Inventory, d: ItemDef, slots: seq<UniversalSlot>): int
  {
    if |slots| == 0 then 0 else SlotTake(inv, d, slots[0].slot) + UniversalSum(inv, d, slots[1..])
  }

  /** What the universal slots could take with every slot counted and nothing negative. */
  function UniversalCapacity(inv: Inventory, d: ItemDef, slots: seq<UniversalSlot>): int
  {
    if |slots| == 0 then 0 else Max(0, SlotTake(inv, d, slots[0].slot)) + UniversalCapacity(inv, d, slots[1..])
  }

  /** Skipping would-be-blocked slots only ever lowers the count. */
  lemma {:induction false} UniversalTotalAtMost(inv: Inventory, d: ItemDef, slots: seq<UniversalSlot>, wouldBeBlocked: seq<Tag>)
    ensures UniversalTotal(inv, d, slots, wouldBeBlocked) <= UniversalCapacity(inv, d, slots)
    ensures UniversalCapacity(inv, d, slots) >= 0
  {
    if |slots| > 0 {
      var take := SlotTake(inv, d, slots[0].slot);
      UniversalTotalAtMost(inv, d, slots[1..], wouldBeBlocked);
      UniversalTotalAtMost(inv, d, slots[1..], wouldBeBlocked + [slots[0].slotToBlock]);
    }
  }

  /** Without any item-activated blocking the loop counts every universal slot. */
  lemma {:induction false} UniversalTotalWithoutBlocking(inv: Inventory, d: ItemDef, slots: seq<UniversalSlot>)
    requires forall i :: 0 <= i < |slots| ==> !ActivatesBlocking(slots[i], d)
    ensures UniversalTotal(inv, d, slots, []) == UniversalSum(inv, d, slots)
  {
    if |slots| > 0 {
      assert forall i :: 0 <= i < |slots[1..]| ==> slots[1..][i] == slots[i + 1];
      UniversalTotalWithoutBlocking(inv, d, slots[1..]);
    }
  }

  /**
   * GetReceivableQuantity of the inventory: the container's generic slot
   * headroom plus what every tagged slot can take, capped by weight and by
   * the request. This override does not apply AllowPartial.
   */
  function GetReceivableQuantity(inv: Inventory, d: ItemDef, requested: int, allowPartial: bool,
                                 swapBackAllowed: bool): (r: int)
    requires WellFormed(d)
    ensures r <= requested && r <= C.ReceivableByWeight(inv.container, d)
    ensures !swapBackAllowed ==> r <= SlotCapacity(inv, d)
    ensures swapBackAllowed ==> r <= Max(d.maxStack, SlotCapacity(inv, d))
  {
    UniversalTotalAtMost(inv, d, inv.universal, []);
    var byWeight := C.ReceivableByWeight(inv.container, d);
    var bySlots := C.ReceivableBySlots(inv.container, d) + SpecializedTotal(inv, d, inv.specialized)
                   + UniversalTotal(inv, d, inv.universal, []);
    assert bySlots <= SlotCapacity(inv, d);
    var slots := if swapBackAllowed && bySlots == 0 then d.maxStack else bySlots;
    Min(requested, Min(byWeight, slots))
  }

  /**
   * When no universal slot can block another with this item, the answer is
   * exactly the request capped by weight and by the generic headroom plus
   * what every tagged slot takes; with swap-back a zero slot count becomes
   * one stack.
   */
  lemma ReceivableWithoutBlocking(inv: Inventory, d: ItemDef, requested: int, allowPartial: bool, swapBackAllowed: bool)
    requires WellFormed(d)
    requires forall i :: 0 <= i < |inv.universal| ==> !ActivatesBlocking(inv.universal[i], d)
    ensures var slots := C.ReceivableBySlots(inv.container, d) + SpecializedTotal(inv, d, inv.specialized)
                         + UniversalSum(inv, d, inv.universal);
            var byWeight := C.ReceivableByWeight(inv.container, d);
            && (!swapBackAllowed || slots != 0 ==>
                  GetReceivableQuantity(inv, d, requested, allowPartial, swapBackAllowed) == Min(requested, Min(byWeight, slots)))
            && (swapBackAllowed && slots == 0 ==>
                  GetReceivableQuantity(inv, d, requested, allowPartial, swapBackAllowed) == Min(requested, Min(byWeight, d.maxStack)))
  {
    UniversalTotalWithoutBlocking(inv, d, inv.universal);
  }

  /** Generic slot headroom plus every tagged slot's room, ignoring blocking between universal slots. */
  function SlotCapacity(inv: Inventory, d: ItemDef): int
    requires WellFormed(d)
  {
    C.ReceivableBySlots(inv.container, d) + SpecializedTotal(inv, d, inv.specialized) + UniversalCapacity(inv, d, inv.universal)
  }

  // -------------------------------------------------- weight and slots

  /** Generic slots the tagged entries would be charged for: whole stacks times the stack footprint. */
  function TaggedSlotsTaken(reg: Registry, jigsawMode: bool, tagged: seq<TaggedItem>): int
  {
    if |tagged| == 0 then 0
    else
      var t := tagged[0];
      (if Holds(t) && t.id in reg && WellFormed(reg[t.id]) then C.StackSlots(t.quantity, reg[t.id], jigsawMode) else 0)
      + TaggedSlotsTaken(reg, jigsawMode, tagged[1..])
  }

  lemma {:induction false} TaggedSlotsTakenNonNegative(reg: Registry, jigsawMode: bool, tagged: seq<TaggedItem>)
    ensures (forall i :: 0 <= i < |tagged| ==> tagged[i].quantity >= 0) ==> TaggedSlotsTaken(reg, jigsawMode, tagged) >= 0
  {
    if |tagged| > 0 && forall i :: 0 <= i < |tagged| ==> tagged[i].quantity >= 0 {
      var t := tagged[0];
      if Holds(t) && t.id in reg && WellFormed(reg[t.id]) {
        assert CeilDiv(t.quantity, reg[t.id].maxStack) >= 0;
      }
      TaggedSlotsTakenNonNegative(reg, jigsawMode, tagged[1..]);
    }
  }

  /**
   * UpdateWeightAndSlots of the inventory: tagged items weigh like any
   * other, but only items outside the tagged slots use generic slots.
   */
  function UpdateWeightAndSlots(reg: Registry, inv: Inventory): (r: Inventory)
    ensures r.tagged == inv.tagged && r.universal == inv.universal && r.specialized == inv.specialized
    ensures r.container.items == inv.container.items && r.container.jigsawMode == inv.container.jigsawMode
    ensures r.container.maxWeight == inv.container.maxWeight && r.container.maxSlotCount == inv.container.maxSlotCount
    ensures r.container.currentWeight == C.UpdateWeightAndSlots(reg, inv.container).currentWeight
    ensures r.container.usedSlots + TaggedSlotsTaken(reg, inv.container.jigsawMode, inv.tagged)
            == C.UpdateWeightAndSlots(reg, inv.container).usedSlots
    // tagged stacks never add to the generic slot count
    ensures (forall i :: 0 <= i < |inv.tagged| ==> inv.tagged[i].quantity >= 0) ==>
              r.container.usedSlots <= C.UpdateWeightAndSlots(reg, inv.container).usedSlots
  {
    TaggedSlotsTakenNonNegative(reg, inv.container.jigsawMode, inv.tagged);
    var c := C.UpdateWeightAndSlots(reg, inv.container);
    inv.(container := c.(usedSlots := c.usedSlots - TaggedSlotsTaken(reg, inv.container.jigsawMode, inv.tagged)))
  }

  // ------------------------------------------------------------- removal

  /** The slot's entry after `removed` left it: dropped once empty unless blocked. */
  function AfterRemoving(tagged: seq<TaggedItem>, k: nat, removed: int): (r: seq<TaggedItem>)
    requires k < |tagged| && removed <= tagged[k].quantity
    ensures forall id :: TaggedQuantity(r, id) == TaggedQuantity(tagged, id) - (if tagged[k].id == id then removed else 0)
    ensures UniqueSlots(tagged) ==> UniqueSlots(r)
    ensures UniqueSlots(tagged) ==>
              if tagged[k].quantity - removed <= 0 && !tagged[k].blocked
              then IndexForTaggedSlot(r, tagged[k].slot).None?
              else ItemForTaggedSlot(r, tagged[k].slot) == tagged[k].(quantity := tagged[k].quantity - removed)
    // every other slot reads as before
    ensures forall s :: s != tagged[k].slot ==> ItemForTaggedSlot(r, s) == ItemForTaggedSlot(tagged, s)
  {
    var e := tagged[k];
    if e.quantity - removed <= 0 && !e.blocked then
      forall id { TaggedQuantityRemove(tagged, k, id); }
      forall s | s != e.slot { RemoveTaggedAtOther(tagged, k, s); }
      RemoveTaggedAt(tagged, k)
    else
      var r := tagged[k := e.(quantity := e.quantity - removed)];
      forall id { TaggedQuantityUpdate(tagged, k, r[k], id); }
      IndexSameSlots(tagged, r, e.slot);
      forall s | s != e.slot { UpdateTaggedOther(tagged, k, r[k], s); }
      r
  }

  /** Rewriting one slot's entry in place leaves every other slot's entry as it was. */
  lemma UpdateTaggedOther(tagged: seq<TaggedItem>, k: nat, t: TaggedItem, s: Tag)
    requires k < |tagged| && t.slot == tagged[k].slot && s != t.slot
    ensures ItemForTaggedSlot(tagged[k := t], s) == ItemForTaggedSlot(tagged, s)
  {
    IndexSameSlots(tagged, tagged[k := t], s);
  }

  /** Removing one slot's entry leaves every other slot's entry where the lookup finds it. */
  lemma RemoveTaggedAtOther(tagged: seq<TaggedItem>, k: nat, s: Tag)
    requires k < |tagged| && tagged[k].slot != s
    ensures ItemForTaggedSlot(RemoveTaggedAt(tagged, k), s) == ItemForTaggedSlot(tagged, s)
  {
    var r := RemoveTaggedAt(tagged, k);
    match IndexForTaggedSlot(tagged, s)
    case None =>
      forall j | 0 <= j < |r|
        ensures r[j].slot != s
      {
        assert r[j] == tagged[if j < k then j else j + 1];
      }
    case Some(i) =>
      var i' := if i < k then i else i - 1;
      assert r[i'] == tagged[i];
      forall j | 0 <= j < i'
        ensures r[j].slot != s
      {
        assert r[j] == tagged[if j < k then j else j + 1];
      }
      assert IndexForTaggedSlot(r, s) == Some(i');
  }

  /**
   * RemoveQuantityFromTaggedSlot_IfServer for a quantity. `instanceCount` is
   * the number of specific instances named (their identity is not modelled);
   * `destroyFromContainer` also takes the items out of the container.
   */
  function RemoveQuantityFromTaggedSlot(reg: Registry, inv: Inventory, slot: Tag, quantity: int, instanceCount: nat,
                                        allowPartial: bool, destroyFromContainer: bool): (r: Removal)
    ensures r.removed <= 0 ==> r == Removal(inv, 0)
    ensures allowPartial && instanceCount > 0 ==> r.removed == 0
    ensures var e := ItemForTaggedSlot(inv.tagged, slot);
            && (!Holds(e) ==> r.removed == 0)
            && ((!allowPartial || instanceCount > 0) && e.quantity < quantity ==> r.removed == 0)
            && (r.removed > 0 ==> r.removed <= Min(quantity, e.quantity))
            && (r.removed > 0 && !destroyFromContainer ==>
                  r.removed == Min(quantity, e.quantity) && r.inventory.container.items == inv.container.items)
    ensures r.inventory.universal == inv.universal && r.inventory.specialized == inv.specialized
    ensures |r.inventory.tagged| >= |inv.tagged| - 1
    ensures UniqueSlots(inv.tagged) ==> UniqueSlots(r.inventory.tagged)
    // exactly what is reported leaves the slot's entry, and no other item's tagged quantity moves
    ensures var e := ItemForTaggedSlot(inv.tagged, slot);
            && (r.removed > 0 ==> TaggedQuantity(r.inventory.tagged, e.id) == TaggedQuantity(inv.tagged, e.id) - r.removed)
            && (forall other :: IsValid(other) && other != e.id ==>
                  TaggedQuantity(r.inventory.tagged, other) == TaggedQuantity(inv.tagged, other))
    // the slot it blocked is released only when the item has data; otherwise no other slot changes
    ensures var e := ItemForTaggedSlot(inv.tagged, slot);
            && (r.removed > 0 && e.id in reg && BlockingRule(inv.universal, slot).Some? ==>
                  !IsTaggedSlotBlocked(r.inventory.tagged, BlockingRule(inv.universal, slot).value.slotToBlock))
            && (r.removed > 0 && e.id !in reg ==>
                  forall s :: s != slot ==> ItemForTaggedSlot(r.inventory.tagged, s) == ItemForTaggedSlot(inv.tagged, s))
  {
    if allowPartial && instanceCount > 0 then Removal(inv, 0)
    else
      match IndexForTaggedSlot(inv.tagged, slot)
      case None => Removal(inv, 0)
      case Some(k) =>
        var e := inv.tagged[k];
        if !Holds(e) then Removal(inv, 0)
        else if (!allowPartial || instanceCount > 0) && e.quantity < quantity then Removal(inv, 0)
        else
          var viable := Min(quantity, e.quantity);
          if viable <= 0 then Removal(inv, 0)
          else TakeFromTaggedSlot(reg, inv, k, viable, destroyFromContainer)
  }

  /**
   * The second half of RemoveQuantityFromTaggedSlot_IfServer: `viable` items
   * of entry `k` are destroyed (from the container too, if asked), the entry
   * shrinks or goes, the slot it blocked is released, and the caches are
   * recomputed.
   */
  function TakeFromTaggedSlot(reg: Registry, inv: Inventory, k: nat, viable: int, destroyFromContainer: bool): (r: Removal)
    requires k < |inv.tagged| && IsValid(inv.tagged[k].id) && 0 < viable <= inv.tagged[k].quantity
    ensures r.removed <= 0 ==> r == Removal(inv, 0)
    ensures r.removed > 0 ==> r.removed <= viable
    ensures !destroyFromContainer ==> r.removed == viable && r.inventory.container.items == inv.container.items
    ensures r.inventory.universal == inv.universal && r.inventory.specialized == inv.specialized
    ensures |r.inventory.tagged| >= |inv.tagged| - 1
    ensures UniqueSlots(inv.tagged) ==> UniqueSlots(r.inventory.tagged)
    ensures var e := inv.tagged[k];
            && (r.removed > 0 ==> TaggedQuantity(r.inventory.tagged, e.id) == TaggedQuantity(inv.tagged, e.id) - r.removed)
            && (forall other :: IsValid(other) && other != e.id ==>
                  TaggedQuantity(r.inventory.tagged, other) == TaggedQuantity(inv.tagged, other))
    // a registered item releases the slot it blocks; an unregistered one leaves every other slot alone
    ensures var e := inv.tagged[k];
            && (r.removed > 0 && e.id in reg && BlockingRule(inv.universal, e.slot).Some? ==>
                  !IsTaggedSlotBlocked(r.inventory.tagged, BlockingRule(inv.universal, e.slot).value.slotToBlock))
            && (r.removed > 0 && e.id !in reg ==>
                  forall s :: s != e.slot ==> ItemForTaggedSlot(r.inventory.tagged, s) == ItemForTaggedSlot(inv.tagged, s))
    // the slot's own entry is the shrunk entry, unless the slot blocks itself
    ensures var e := inv.tagged[k];
            r.removed > 0 && (BlockingRule(inv.universal, e.slot).Some? ==> BlockingRule(inv.universal, e.slot).value.slotToBlock != e.slot) ==>
              ItemForTaggedSlot(r.inventory.tagged, e.slot) == ItemForTaggedSlot(AfterRemoving(inv.tagged, k, r.removed), e.slot)
  {
    var e := inv.tagged[k];
    var destroyed := if destroyFromContainer then C.DestroyItem(reg, inv.container, e.id, viable, true)
                     else C.Outcome(inv.container, viable);
    if destroyed.quantity <= 0 then Removal(inv, 0)
    else
      var after := inv.(container := destroyed.container,
                        tagged := AfterRemoving(inv.tagged, k, destroyed.quantity));
      var unblocked := if e.id in reg then UpdateBlockingState(after, e.slot, DataFor(reg, e.id), false) else after;
      UnblockKeepsOwnSlot(after, e.slot, DataFor(reg, e.id));
      Removal(UpdateWeightAndSlots(reg, unblocked), destroyed.quantity)
  }

  /**
   * A removal takes exactly what it reports out of the slot's entry. With
   * destroyFromContainer the container loses the same amount, so what lies
   * outside the tagged slots is unchanged; without it the items fall back
   * to the generic part of the container. Needs the container to hold at
   * least what the slot mirrors.
   */
  lemma TaggedRemovalConserves(reg: Registry, inv: Inventory, slot: Tag, quantity: int, instanceCount: nat,
                               allowPartial: bool, destroyFromContainer: bool)
    requires C.UniqueIds(inv.container.items)
    requires var e := ItemForTaggedSlot(inv.tagged, slot);
             Holds(e) ==> C.QuantityTotal(inv.container.items, e.id) >= e.quantity
    ensures var e := ItemForTaggedSlot(inv.tagged, slot);
            var r := RemoveQuantityFromTaggedSlot(reg, inv, slot, quantity, instanceCount, allowPartial, destroyFromContainer);
            && (r.removed > 0 ==> r.removed == Min(quantity, e.quantity))
            && (forall other :: other != e.id ==>
                  C.QuantityTotal(r.inventory.container.items, other) == C.QuantityTotal(inv.container.items, other))
            && C.QuantityTotal(r.inventory.container.items, e.id) - TaggedQuantity(r.inventory.tagged, e.id)
               == C.QuantityTotal(inv.container.items, e.id) - TaggedQuantity(inv.tagged, e.id)
                  + (if destroyFromContainer then 0 else r.removed)
  {
    var r := RemoveQuantityFromTaggedSlot(reg, inv, slot, quantity, instanceCount, allowPartial, destroyFromContainer);
    if r.removed > 0 {
      var k := IndexForTaggedSlot(inv.tagged, slot).value;
      var e := inv.tagged[k];
      assert e == ItemForTaggedSlot(inv.tagged, slot);
      var viable := Min(quantity, e.quantity);
      if destroyFromContainer {
        var held := C.QuantityTotal(inv.container.items, e.id);
        assert C.FindIndex(inv.container.items, e.id).Some?;
        var out := C.DestroyItem(reg, inv.container, e.id, viable, true);
        assert out.quantity == viable;
        assert held - viable <= 0 ==> C.QuantityTotal(out.container.items, e.id) == 0;
      }
    }
  }

  /**
   * The slot's entry once something left it: gone when it reached zero and
   * was not blocked, else holding the rest (a blocked entry stays, even empty).
   */
  lemma TaggedRemovalEmptiesSlot(reg: Registry, inv: Inventory, slot: Tag, quantity: int, instanceCount: nat,
                                 allowPartial: bool, destroyFromContainer: bool)
    requires UniqueSlots(inv.tagged)
    requires BlockingRule(inv.universal, slot).Some? ==> BlockingRule(inv.universal, slot).value.slotToBlock != slot
    ensures var e := ItemForTaggedSlot(inv.tagged, slot);
            var r := RemoveQuantityFromTaggedSlot(reg, inv, slot, quantity, instanceCount, allowPartial, destroyFromContainer);
            r.removed > 0 ==>
              if e.quantity - r.removed <= 0 && !e.blocked then ItemForTaggedSlot(r.inventory.tagged, slot) == NoTaggedItem
              else ItemForTaggedSlot(r.inventory.tagged, slot) == e.(quantity := e.quantity - r.removed)
  {
    var r := RemoveQuantityFromTaggedSlot(reg, inv, slot, quantity, instanceCount, allowPartial, destroyFromContainer);
    if r.removed > 0 {
      var k := IndexForTaggedSlot(inv.tagged, slot).value;
      var e := inv.tagged[k];
      assert e == ItemForTaggedSlot(inv.tagged, slot);
      var viable := Min(quantity, e.quantity);
      assert r == TakeFromTaggedSlot(reg, inv, k, viable, destroyFromContainer);
    }
  }

  /** Releasing the slot a slot blocks leaves the slot's own entry alone, unless it blocks itself. */
  lemma UnblockKeepsOwnSlot(inv: Inventory, slot: Tag, d: Option<ItemDef>)
    ensures (BlockingRule(inv.universal, slot).Some? ==> BlockingRule(inv.universal, slot).value.slotToBlock != slot) ==>
              ItemForTaggedSlot(UpdateBlockingState(inv, slot, d, false).tagged, slot) == ItemForTaggedSlot(inv.tagged, slot)
  {
  }

  /**
   * RemoveItemFromAnyTaggedSlots_IfServer: walk the entries from the last to
   * the first and take from each one holding the id until the request is
   * met. Each slot is asked with AllowPartial set, so naming specific
   * instances makes every slot refuse.
   */
  method RemoveItemFromAnyTaggedSlots(reg: Registry, inv: Inventory, id: Tag, quantity: int, instanceCount: nat,
                                      destroyFromContainer: bool) returns (r: Removal)
    ensures 0 <= r.removed <= Max(0, quantity)
    ensures instanceCount > 0 ==> r.removed == 0
    ensures !destroyFromContainer ==> r.inventory.container.items == inv.container.items
    ensures UniqueSlots(inv.tagged) ==>
              TaggedQuantity(r.inventory.tagged, id) == TaggedQuantity(inv.tagged, id) - r.removed
    ensures UniqueSlots(inv.tagged) ==>
              forall other :: IsValid(other) && other != id ==>
                TaggedQuantity(r.inventory.tagged, other) == TaggedQuantity(inv.tagged, other)
  {
    var cur := inv;
    var removed := 0;
    var i := |inv.tagged| - 1;
    while i >= 0
      invariant i < |cur.tagged|
      invariant 0 <= removed <= Max(0, quantity)
      invariant instanceCount > 0 ==> removed == 0
      invariant !destroyFromContainer ==> cur.container.items == inv.container.items
      invariant UniqueSlots(inv.tagged) ==> UniqueSlots(cur.tagged)
      invariant UniqueSlots(inv.tagged) ==>
                  TaggedQuantity(cur.tagged, id) == TaggedQuantity(inv.tagged, id) - removed
      invariant UniqueSlots(inv.tagged) ==>
                  forall other :: IsValid(other) && other != id ==>
                    TaggedQuantity(cur.tagged, other) == TaggedQuantity(inv.tagged, other)
      decreases i + 1
    {
      if cur.tagged[i].id == id {
        var slot := cur.tagged[i].slot;
        if UniqueSlots(cur.tagged) {
          assert IndexForTaggedSlot(cur.tagged, slot) == Some(i);
        }
        var step := RemoveQuantityFromTaggedSlot(reg, cur, slot, quantity - removed, instanceCount, true,
                                                 destroyFromContainer);
        cur := step.inventory;
        removed := removed + step.removed;
        if removed >= quantity || (instanceCount > 0 && removed == instanceCount) {
          break;
        }
      }
      i := i - 1;
    }
    r := Removal(cur, removed);
  }

  // ------------------------------------------------------------ crafting

  /** CanCraftRecipe: a recipe (null when absent) is craftable when every component is held in full. */
  method CanCraftRecipe(inv: Inventory, recipe: Option<seq<ItemBundle>>) returns (r: bool)
    ensures r <==> recipe.Some? && forall i :: 0 <= i < |recipe.value| ==>
                     C.Contains(inv.container.items, recipe.value[i].id, recipe.value[i].quantity)
  {
    if recipe.None? {
      return false;
    }
    var components := recipe.value;
    var i := 0;
    while i < |components|
      invariant 0 <= i <= |components|
      invariant forall j :: 0 <= j < i ==> C.Contains(inv.container.items, components[j].id, components[j].quantity)
    {
      if !C.Contains(inv.container.items, components[i].id, components[i].quantity) {
        return false;
      }
      i := i + 1;
    }
    return true;
  }

  // ------------------------------------------------------------ an example

  /** The rock of the inventory tests: stacks of five, weight one, a plain resource. */
  const TestRock: ItemDef := ItemDef("Items.IDs.Rock", true, 5, 1, ["Items.Types.Resource"], 1, 1, false)

  /**
   * The inventory of the tests: nine generic slots, carry capacity 100, two
   * hands that block each other for two-handed items, helmet and chest slots.
   */
  const TestInventory: Inventory := Inventory(
    C.Container([], 100, 9, false, 0, 0),
    [],
    [UniversalSlot("Hands.RightHand", "Hands.LeftHand", "Items.Types.TwoHanded", "Items.Types.TwoHanded"),
     UniversalSlot("Hands.LeftHand", "Hands.RightHand", "Items.Types.TwoHandedOffhand", "Items.Types.OffHandOnly")],
    ["Slots.Helmet", "Slots.Chest"])

  /** A rock carries none of the slot or blocking tags of the test inventory. */
  lemma RockTags()
    ensures !HasTag(TestRock.categories, "Slots.Helmet") && !HasTag(TestRock.categories, "Slots.Chest")
    ensures !HasTag(TestRock.categories, "Hands.RightHand") && !HasTag(TestRock.categories, "Hands.LeftHand")
    ensures !HasTag(TestRock.categories, "Items.Types.TwoHanded")
    ensures !HasTag(TestRock.categories, "Items.Types.TwoHandedOffhand")
    ensures !HasTag(TestRock.categories, "Items.Types.OffHandOnly")
  {
    var c := TestRock.categories[0];
    assert TestRock.categories == [c];
    assert !MatchesTag(c, "Slots.Helmet") by { assert c[0] != ("Slots.Helmet" + ".")[0]; }
    assert !MatchesTag(c, "Slots.Chest") by { assert c[0] != ("Slots.Chest" + ".")[0]; }
    assert !MatchesTag(c, "Hands.RightHand") by { assert c[0] != ("Hands.RightHand" + ".")[0]; }
    assert !MatchesTag(c, "Hands.LeftHand") by { assert c[0] != ("Hands.LeftHand" + ".")[0]; }
    assert !MatchesTag(c, "Items.Types.TwoHanded") by { assert c[12] != ("Items.Types.TwoHanded" + ".")[12]; }
    assert !MatchesTag(c, "Items.Types.TwoHandedOffhand") by { assert c[12] != ("Items.Types.TwoHandedOffhand" + ".")[12]; }
    assert !MatchesTag(c, "Items.Types.OffHandOnly") by { assert c[12] != ("Items.Types.OffHandOnly" + ".")[12]; }
  }

  /**
   * Whatever its generic container holds, the test inventory's helmet and
   * chest take no rocks and each empty hand takes a full stack.
   */
  lemma RockSlotTakes(c: C.Container)
    ensures SlotTake(TestInventory.(container := c), TestRock, "Slots.Helmet") == 0
    ensures SlotTake(TestInventory.(container := c), TestRock, "Slots.Chest") == 0
    ensures SlotTake(TestInventory.(container := c), TestRock, "Hands.RightHand") == 5
    ensures SlotTake(TestInventory.(container := c), TestRock, "Hands.LeftHand") == 5
  {
    var inv := TestInventory.(container := c);
    RockTags();
    assert !ContainedInUniversalSlot(inv.universal, "Slots.Helmet");
    assert !ContainedInUniversalSlot(inv.universal, "Slots.Chest");
    assert !ExclusiveToOtherSlot(inv.universal, "Hands.RightHand", TestRock);
    assert !ExclusiveToOtherSlot(inv.universal, "Hands.LeftHand", TestRock);
    assert inv.universal[0].slot == "Hands.RightHand" && inv.universal[1].slot == "Hands.LeftHand";
    assert ContainedInUniversalSlot(inv.universal, "Hands.RightHand");
    assert ContainedInUniversalSlot(inv.universal, "Hands.LeftHand");
    assert !WouldItemMoveIndirectlyViolateBlocking(inv, "Hands.RightHand", TestRock);
    assert !WouldItemMoveIndirectlyViolateBlocking(inv, "Hands.LeftHand", TestRock);
  }

  /** Either hand of the test inventory accepts a rock, whatever the tagged slots hold. */
  lemma HandsAcceptRocks(inv: Inventory)
    requires inv.universal == TestInventory.universal
    ensures SlotAccepts(inv, TestRock, "Hands.RightHand", false)
    ensures SlotAccepts(inv, TestRock, "Hands.LeftHand", false)
  {
    RockTags();
    assert inv.universal[0].slot == "Hands.RightHand" && inv.universal[1].slot == "Hands.LeftHand";
    assert !ExclusiveToOtherSlot(inv.universal, "Hands.RightHand", TestRock);
    assert !ExclusiveToOtherSlot(inv.universal, "Hands.LeftHand", TestRock);
    assert ContainedInUniversalSlot(inv.universal, "Hands.RightHand");
    assert ContainedInUniversalSlot(inv.universal, "Hands.LeftHand");
  }

  /** Rocks fit nine generic stacks plus one stack in each hand: 55 of 60. */
  lemma RockReceivableInTestInventory()
    ensures GetReceivableQuantity(TestInventory, TestRock, 60, true, false) == 55
  {
    RockTags();
    RockSlotTakes(TestInventory.container);
    assert TestInventory.(container := TestInventory.container) == TestInventory;
    assert C.ReceivableBySlots(TestInventory.container, TestRock) == 45;
  }
}
