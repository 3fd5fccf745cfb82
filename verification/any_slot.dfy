/**
 * AddItemToAnySlot of the inventory: the whole quantity is first added to
 * the container (tagged items are mirrored there), then the distribution
 * plan moves each tagged share from the container into its slot. A move
 * that falls short leaves the rest in the generic slots.
 *
 * Events are not modelled; the instance data of the moved items is not
 * tracked.
 */
module AnySlot {
  import opened Tags
  import opened Wrappers
  import opened ItemData
  import opened Bundle
  import C = Container
  import I = Inventory
  import opened Distribution

  /** The inventory after a move from the container into a tagged slot, and the quantity moved. */
  datatype Move = Move(inventory: I.Inventory, moved: int)

  /** The inventory after an add, and the quantity the call reports as added. */
  datatype Addition = Addition(inventory: I.Inventory, added: int)

  /** The empty entry MoveItem_ServerImpl creates for a configured slot that has none yet. */
  function EnsureSlotEntry(inv: I.Inventory, slot: Tag): (r: Option<seq<I.TaggedItem>>)
    ensures r.Some? ==> |r.value| >= |inv.tagged| && I.IndexForTaggedSlot(r.value, slot).Some?
    ensures r.Some? ==> forall k :: 0 <= k < |inv.tagged| ==> r.value[k] == inv.tagged[k]
    ensures r.Some? && |r.value| > |inv.tagged| ==>
              |r.value| == |inv.tagged| + 1 && r.value[|inv.tagged|] == I.TaggedItem(slot, EmptyTag, 0, false)
              && I.IndexForTaggedSlot(inv.tagged, slot).None?
    ensures r.None? <==> I.IndexForTaggedSlot(inv.tagged, slot).None? && slot !in inv.specialized
                         && !I.ContainedInUniversalSlot(inv.universal, slot)
    ensures r.Some? && I.UniqueSlots(inv.tagged) ==> I.UniqueSlots(r.value)
    ensures r.Some? ==> forall x :: IsValid(x) ==> I.TaggedQuantity(r.value, x) == I.TaggedQuantity(inv.tagged, x)
  {
    match I.IndexForTaggedSlot(inv.tagged, slot)
    case Some(_) => Some(inv.tagged)
    case None =>
      if slot in inv.specialized || I.ContainedInUniversalSlot(inv.universal, slot) then
        var r := inv.tagged + [I.TaggedItem(slot, EmptyTag, 0, false)];
        I.IndexSameSlots(inv.tagged, r, slot);
        forall x | IsValid(x) ensures I.TaggedQuantity(r, x) == I.TaggedQuantity(inv.tagged, x) {
          I.TaggedQuantityAppend(inv.tagged, I.TaggedItem(slot, EmptyTag, 0, false), x);
        }
        Some(r)
      else None
  }

  /** The target entry once `n` of the item are moved onto it: a different or no item is replaced. */
  function Filled(target: I.TaggedItem, id: Tag, n: int): (r: I.TaggedItem)
    ensures r.slot == target.slot && r.blocked == target.blocked && r.id == id
    ensures r.quantity == (if target.id == id then target.quantity else 0) + n
  {
    if target.id != id then I.TaggedItem(target.slot, id, n, target.blocked)
    else target.(quantity := target.quantity + n)
  }

  /**
   * MoveItem_ServerImpl from the generic container into a tagged slot,
   * without swapping. The move is capped by the container's bundle, the
   * request, and what the slot takes with partial moves allowed; then the
   * slot holds the item and the slot it blocks is updated. The container
   * keeps its bundles, since tagged items are mirrored there.
   */
  function MoveFromContainer(inv: I.Inventory, d: ItemDef, id: Tag, slot: Tag, requested: int): (r: Move)
    requires WellFormed(d) && IsValid(slot)
    ensures r.inventory.container == inv.container
    ensures r.inventory.universal == inv.universal && r.inventory.specialized == inv.specialized
    ensures 0 <= r.moved && r.moved <= Max(0, requested)
    ensures r.moved > 0 ==> r.moved <= C.QuantityTotal(inv.container.items, id) && r.moved <= d.maxStack
    // the slot's entry grows by what was moved; nothing else of the item moves
    ensures IsValid(id) ==> I.TaggedQuantity(r.inventory.tagged, id) == I.TaggedQuantity(inv.tagged, id) + r.moved
    ensures d.id == id ==> forall x :: IsValid(x) && x != id ==>
              I.TaggedQuantity(r.inventory.tagged, x) == I.TaggedQuantity(inv.tagged, x)
    ensures r.moved > 0 ==> I.ItemForTaggedSlot(r.inventory.tagged, slot).id == id
    ensures I.UniqueSlots(inv.tagged) ==> I.UniqueSlots(r.inventory.tagged)
  {
    match C.FindIndex(inv.container.items, id)
    case None => Move(inv, 0)
    case Some(b) =>
      match EnsureSlotEntry(inv, slot)
      case None => Move(inv, 0)
      case Some(tagged) =>
        var inv1 := inv.(tagged := tagged);
        var source := inv.container.items[b];
        var validated := Min(Min(source.quantity, requested),
                             I.GetReceivableQuantityForTaggedSlot(inv1, d, slot, requested, true, false));
        if !IsValid(source.id) || validated <= 0 then Move(inv1, 0)
        else
          assert C.QuantityTotal(inv.container.items, id) == source.quantity;
          Move(MoveOnto(inv1, d, id, slot, validated), validated)
  }

  /** The move proper: the slot's entry takes `n` of the item, then the slot it blocks is updated. */
  function MoveOnto(inv: I.Inventory, d: ItemDef, id: Tag, slot: Tag, n: int): (r: I.Inventory)
    requires I.IndexForTaggedSlot(inv.tagged, slot).Some?
    ensures r.container == inv.container && r.universal == inv.universal && r.specialized == inv.specialized
    ensures IsValid(id) ==> I.TaggedQuantity(r.tagged, id) == I.TaggedQuantity(inv.tagged, id) + n
    ensures forall x :: IsValid(x) && x != id ==>
              I.TaggedQuantity(r.tagged, x) == I.TaggedQuantity(inv.tagged, x) - I.Share(I.ItemForTaggedSlot(inv.tagged, slot), x)
    ensures I.ItemForTaggedSlot(r.tagged, slot).id == id
    ensures I.UniqueSlots(inv.tagged) ==> I.UniqueSlots(r.tagged)
  {
    var k := I.IndexForTaggedSlot(inv.tagged, slot).value;
    var filled := Filled(inv.tagged[k], id, n);
    FillSlotFacts(inv.tagged, k, filled, slot);
    I.UpdateBlockingState(inv.(tagged := inv.tagged[k := filled]), slot, Some(d), true)
  }

  /** Replacing the entry a slot lookup found keeps the lookup, the slots' uniqueness and the other quantities. */
  lemma FillSlotFacts(tagged: seq<I.TaggedItem>, k: nat, filled: I.TaggedItem, slot: Tag)
    requires k < |tagged| && I.IndexForTaggedSlot(tagged, slot) == Some(k) && filled.slot == slot
    ensures I.IndexForTaggedSlot(tagged[k := filled], slot) == Some(k)
    ensures forall x :: I.TaggedQuantity(tagged[k := filled], x)
                        == I.TaggedQuantity(tagged, x) - I.Share(tagged[k], x) + I.Share(filled, x)
    ensures I.UniqueSlots(tagged) ==> I.UniqueSlots(tagged[k := filled])
  {
    var after := tagged[k := filled];
    I.IndexSameSlots(tagged, after, slot);
    forall x
      ensures I.TaggedQuantity(after, x) == I.TaggedQuantity(tagged, x) - I.Share(tagged[k], x) + I.Share(filled, x)
    {
      I.TaggedQuantityUpdate(tagged, k, filled, x);
    }
    if I.UniqueSlots(tagged) {
      forall i, j | 0 <= i < j < |after| ensures after[i].slot != after[j].slot {
        assert after[i].slot == tagged[i].slot && after[j].slot == tagged[j].slot;
      }
    }
  }

  // ------------------------------------------------------------ the add

  /** The loop's running state: the inventory, what has been distributed, and what stayed generic. */
  datatype Spread = Spread(inventory: I.Inventory, distributed: int, generic: int)

  /**
   * The distribution loop of AddItemToAnySlot. A share larger than what is
   * left of the added quantity is cut down to it, and skipped once nothing
   * is left. A tagged share is moved from the container into its slot; what
   * the move falls short by stays generic. Only what was moved, or planned
   * as generic, counts as distributed.
   */
  function Distribute(inv: I.Inventory, d: ItemDef, id: Tag, plan: seq<Entry>, actual: int,
                      distributed: int, generic: int): (r: Spread)
    requires WellFormed(d)
    ensures r.inventory.container == inv.container
    ensures r.inventory.universal == inv.universal && r.inventory.specialized == inv.specialized
    ensures distributed <= actual ==> r.distributed <= actual
    ensures I.UniqueSlots(inv.tagged) ==> I.UniqueSlots(r.inventory.tagged)
    ensures d.id == id ==> forall x :: IsValid(x) && x != id ==>
              I.TaggedQuantity(r.inventory.tagged, x) == I.TaggedQuantity(inv.tagged, x)
    // the tagged slots gain at most what is distributed, never lose any
    ensures Positive(plan) && IsValid(id) ==>
              && I.TaggedQuantity(inv.tagged, id) <= I.TaggedQuantity(r.inventory.tagged, id)
              && I.TaggedQuantity(r.inventory.tagged, id) - I.TaggedQuantity(inv.tagged, id) <= r.distributed - distributed
    // without cutting, every planned unit ends up in a tagged slot or generic
    ensures Positive(plan) && IsValid(id) && Sum(plan) <= actual - distributed ==>
              (I.TaggedQuantity(r.inventory.tagged, id) - I.TaggedQuantity(inv.tagged, id)) + (r.generic - generic) == Sum(plan)
    decreases |plan|
  {
    if |plan| == 0 then Spread(inv, distributed, generic)
    else
      var e := plan[0];
      var remaining := actual - distributed;
      var v := if e.quantity > remaining then remaining else e.quantity;
      PositiveTail(plan);
      if e.quantity > remaining && v <= 0 then
        Distribute(inv, d, id, plan[1..], actual, distributed, generic)
      else if IsValid(e.slot) then
        var m := MoveFromContainer(inv, d, id, e.slot, v);
        Distribute(m.inventory, d, id, plan[1..], actual, distributed + m.moved, generic + v - m.moved)
      else
        Distribute(inv, d, id, plan[1..], actual, distributed + v, generic + v)
  }

  /**
   * The container half of the add (AddItemWithInstances_IfServer of the
   * container, reached with no instances, without partial adds, and with
   * the caches left stale). Its capacity check is the inventory's own
   * GetReceivableQuantity, since the call is virtual.
   */
  function ContainerAdd(reg: Registry, inv: I.Inventory, id: Tag, requested: int, extract: int -> int): (r: Addition)
    requires RegistryWellFormed(reg)
    ensures r.inventory.tagged == inv.tagged && r.inventory.universal == inv.universal
    ensures r.inventory.specialized == inv.specialized
    ensures r.added >= 0
    ensures r.added == 0 ==> r.inventory == inv
    ensures r.added > 0 ==>
              && IsValid(id) && id in reg && requested > 0 && r.added == extract(requested)
              && requested <= I.GetReceivableQuantity(inv, reg[id], requested, false, false)
    ensures C.QuantityTotal(r.inventory.container.items, id) == C.QuantityTotal(inv.container.items, id) + r.added
    ensures forall x :: x != id ==> C.QuantityTotal(r.inventory.container.items, x) == C.QuantityTotal(inv.container.items, x)
  {
    if !IsValid(id) || id !in reg || requested <= 0 then Addition(inv, 0)
    else
      var d := reg[id];
      var viable := Min(requested, I.GetReceivableQuantity(inv, d, requested, false, false));
      if viable <= 0 || viable < requested then Addition(inv, 0)
      else
        var got := extract(viable);
        if got <= 0 then Addition(inv, 0)
        else
          C.AddToBundleTotals(inv.container.items, id, got);
          Addition(inv.(container := inv.container.(items := C.AddToBundle(inv.container.items, id, got))), got)
  }

  /** The quantity to add, given what the inventory can take: all or nothing unless partial adds are allowed. */
  function Viable(can: int, requested: int, allowPartial: bool): (r: int)
    ensures r > 0 ==> r <= requested && r <= can
    ensures !allowPartial ==> r == requested || r == 0
    ensures !allowPartial && requested <= can ==> r == requested
    ensures allowPartial && 0 < requested && 0 < can ==> r > 0
  {
    if allowPartial then Min(can, requested)
    else if can >= requested then requested else 0
  }

  /**
   * AddItemToAnySlot. The quantity the inventory can take is planned, added
   * to the container in full, then distributed over the tagged slots. When
   * the source hands over less than planned the call reports nothing added,
   * while the container keeps what it received.
   */
  function AddItemToAnySlot(reg: Registry, inv: I.Inventory, id: Tag, requested: int, policy: SlotPolicy,
                            allowPartial: bool, suppressUpdate: bool, extract: int -> int): (r: Addition)
    requires RegistryWellFormed(reg)
    ensures r.added >= 0
    ensures r.added > 0 ==>
              && id in reg && requested > 0
              && var v := Viable(I.GetReceivableQuantity(inv, reg[id], INT32_MAX, true, false), requested, allowPartial);
                 v > 0 && r.added == extract(v) && r.added >= v
    ensures r.inventory.universal == inv.universal && r.inventory.specialized == inv.specialized
    ensures r.added > 0 ==> C.QuantityTotal(r.inventory.container.items, id) == C.QuantityTotal(inv.container.items, id) + r.added
    ensures C.QuantityTotal(r.inventory.container.items, id) >= C.QuantityTotal(inv.container.items, id)
    ensures forall x :: x != id ==> C.QuantityTotal(r.inventory.container.items, x) == C.QuantityTotal(inv.container.items, x)
    // the tagged slots receive part of what was added, and the generic part never shrinks
    ensures IsValid(id) ==>
              && I.TaggedQuantity(inv.tagged, id) <= I.TaggedQuantity(r.inventory.tagged, id)
              && I.TaggedQuantity(r.inventory.tagged, id) - I.TaggedQuantity(inv.tagged, id) <= r.added
    ensures id in reg && reg[id].id == id ==> forall x :: IsValid(x) && x != id ==>
              I.TaggedQuantity(r.inventory.tagged, x) == I.TaggedQuantity(inv.tagged, x)
    ensures I.UniqueSlots(inv.tagged) ==> I.UniqueSlots(r.inventory.tagged)
  {
    if id !in reg || requested <= 0 then Addition(inv, 0)
    else
      var d := reg[id];
      var viable := Viable(I.GetReceivableQuantity(inv, d, INT32_MAX, true, false), requested, allowPartial);
      if viable <= 0 then Addition(inv, 0)
      else
        var plan := GetItemDistributionPlan(inv, d, viable, policy);
        var add := ContainerAdd(reg, inv, id, viable, extract);
        if add.added < viable then Addition(add.inventory, 0)
        else
          var spread := Distribute(add.inventory, d, id, plan, add.added, 0, 0);
          Addition(if suppressUpdate then spread.inventory else I.UpdateWeightAndSlots(reg, spread.inventory), add.added)
  }

  // ------------------------------------------------------------ properties

  /**
   * The container half never refuses what the inventory said it can take:
   * asking again for any part of it, all or nothing, grants that part.
   */
  lemma ContainerHalfAccepts(inv: I.Inventory, d: ItemDef, n: int)
    requires WellFormed(d) && 0 < n <= I.GetReceivableQuantity(inv, d, INT32_MAX, true, false)
    ensures I.GetReceivableQuantity(inv, d, n, false, false) == n
  {
  }

  /**
   * With a source that hands over what it is asked for, the add reports the
   * quantity the inventory can take, bounded by the request: all of it or
   * nothing when partial adds are not allowed.
   */
  lemma AddReportsViable(reg: Registry, inv: I.Inventory, id: Tag, requested: int, policy: SlotPolicy,
                         allowPartial: bool, suppressUpdate: bool, extract: int -> int)
    requires RegistryWellFormed(reg) && IsValid(id) && id in reg && requested > 0
    requires forall k :: extract(k) == k
    ensures var can := I.GetReceivableQuantity(inv, reg[id], INT32_MAX, true, false);
            var r := AddItemToAnySlot(reg, inv, id, requested, policy, allowPartial, suppressUpdate, extract);
            && r.added == Max(0, Viable(can, requested, allowPartial))
            && (!allowPartial ==> (r.added == requested <==> requested <= can))
            && (allowPartial ==> r.added == Max(0, Min(requested, can)))
  {
    var d := reg[id];
    var can := I.GetReceivableQuantity(inv, d, INT32_MAX, true, false);
    var viable := Viable(can, requested, allowPartial);
    if viable > 0 {
      ContainerHalfAccepts(inv, d, viable);
      assert extract(viable) == viable;
    }
  }

  /** A source that never hands over more than asked keeps the reported quantity within the request. */
  lemma AddWithinRequest(reg: Registry, inv: I.Inventory, id: Tag, requested: int, policy: SlotPolicy,
                         allowPartial: bool, suppressUpdate: bool, extract: int -> int)
    requires RegistryWellFormed(reg)
    requires forall k :: extract(k) <= k
    ensures var r := AddItemToAnySlot(reg, inv, id, requested, policy, allowPartial, suppressUpdate, extract);
            && r.added <= Max(0, requested)
            && (!allowPartial ==> r.added == 0 || r.added == requested)
  {
    var r := AddItemToAnySlot(reg, inv, id, requested, policy, allowPartial, suppressUpdate, extract);
    if r.added > 0 {
      var v := Viable(I.GetReceivableQuantity(inv, reg[id], INT32_MAX, true, false), requested, allowPartial);
      assert extract(v) <= v;
    }
  }

  // ------------------------------------------------------------ an example

  /** The registry of the example: rocks only. */
  const RockRegistry: Registry := map["Items.IDs.Rock" := I.TestRock]

  /** The test inventory with a weight limit of 20 and two generic slots. */
  const TwoSlotInventory: I.Inventory := I.TestInventory.(container := C.Container([], 20, 2, false, 0, 0))

  /** The universal rounds for five rocks: no hand is preferred, then the right hand takes all five. */
  lemma RockUniversalFills()
    ensures var take := SlotQuery(TwoSlotInventory, I.TestRock);
            && FillUniversal(take, I.TestRock, TwoSlotInventory.universal, [], 5, 0, true) == UniversalFill([], 0, [])
            && FillUniversal(take, I.TestRock, TwoSlotInventory.universal, [], 5, 0, false)
               == UniversalFill([Entry("Hands.RightHand", 5)], 5, [])
  {
    var u := TwoSlotInventory.universal;
    var d := I.TestRock;
    I.RockTags();
    I.RockSlotTakes(TwoSlotInventory.container);
    assert !I.ActivatesBlocking(u[0], d);
    var take := SlotQuery(TwoSlotInventory, d);
    assert take("Hands.RightHand") == 5;
    assert FillUniversal(take, d, u[2..], [], 5, 0, true) == UniversalFill([], 0, []);
    assert FillUniversal(take, d, u[1..], [], 5, 0, true) == UniversalFill([], 0, []);
    assert FillUniversal(take, d, u[1..], [], 5, 5, false) == UniversalFill([], 5, []);
  }

  /** The tagged rounds for five rocks, whatever the generic container could take. */
  lemma RockRounds(can: int)
    ensures TaggedRounds(TwoSlotInventory, I.TestRock, 5, PreferAnyTaggedSlot, [], 0, can)
            == Rounds([Entry("Hands.RightHand", 5)], 0, 5)
  {
    var inv := TwoSlotInventory;
    var take := SlotQuery(inv, I.TestRock);
    I.RockSlotTakes(TwoSlotInventory.container);
    assert take("Slots.Helmet") == 0 && take("Slots.Chest") == 0;
    assert FillSpecialized(take, inv.specialized[1..], [], 5, 0) == Fill([], 0);
    assert FillSpecialized(take, inv.specialized, [], 5, 0) == Fill([], 0);
    RockUniversalFills();
  }

  /** Nothing is held yet, so no stack is topped off. */
  lemma RockTopOffs()
    ensures TopOffs(TwoSlotInventory, I.TestRock, 5, false) == Fill([], 0)
    ensures Excluded(TwoSlotInventory, I.TestRock, 5, false) == []
  {
  }

  /** Preferring any tagged slot, the plan for five rocks is the right hand's full stack. */
  lemma RocksPlannedForRightHand()
    ensures GetItemDistributionPlan(TwoSlotInventory, I.TestRock, 5, PreferAnyTaggedSlot) == [Entry("Hands.RightHand", 5)]
  {
    RockTopOffs();
    RockRounds(ContainerCan(TwoSlotInventory, I.TestRock));
  }

  /** The rest of a positive plan is positive and adds up to something non-negative. */
  lemma {:induction false} PositiveTail(plan: seq<Entry>)
    requires |plan| > 0
    ensures Positive(plan) ==> Positive(plan[1..]) && Sum(plan[1..]) >= 0 && plan[0].quantity > 0
  {
    if Positive(plan) {
      assert forall i :: 0 <= i < |plan[1..]| ==> plan[1..][i] == plan[i + 1];
      PositiveSum(plan[1..]);
    }
  }

  lemma {:induction false} PositiveSum(plan: seq<Entry>)
    requires Positive(plan)
    ensures Sum(plan) >= 0
    decreases |plan|
  {
    if |plan| > 0 {
      assert forall i :: 0 <= i < |plan[1..]| ==> plan[1..][i] == plan[i + 1];
      PositiveSum(plan[1..]);
    }
  }

  /** The two-slot inventory takes 20 rocks: its weight limit, and also two generic stacks plus one stack in each hand. */
  lemma RockCapacityOfTwoSlots()
    ensures I.GetReceivableQuantity(TwoSlotInventory, I.TestRock, INT32_MAX, true, false) == 20
  {
    I.RockTags();
    I.RockSlotTakes(TwoSlotInventory.container);
    assert C.ReceivableBySlots(TwoSlotInventory.container, I.TestRock) == 10;
  }

  /** The two-slot inventory once the container half has added five rocks. */
  const FiveRocksAdded: I.Inventory := TwoSlotInventory.(container := TwoSlotInventory.container.(items := [ItemBundle("Items.IDs.Rock", 5)]))

  /** All five rocks move from the container onto the empty right hand. */
  lemma FiveRocksMoveToRightHand()
    ensures MoveFromContainer(FiveRocksAdded, I.TestRock, "Items.IDs.Rock", "Hands.RightHand", 5).moved == 5
  {
    var inv := FiveRocksAdded;
    var empty := I.TaggedItem("Hands.RightHand", EmptyTag, 0, false);
    assert inv.tagged == [];
    assert I.IndexForTaggedSlot(inv.tagged, "Hands.RightHand").None?;
    assert I.ContainedInUniversalSlot(inv.universal, "Hands.RightHand") by {
      assert inv.universal[0].slot == "Hands.RightHand";
    }
    assert inv.tagged + [empty] == [empty];
    assert EnsureSlotEntry(inv, "Hands.RightHand") == Some([empty]);
    var inv1 := inv.(tagged := [empty]);
    I.HandsAcceptRocks(inv1);
    assert I.ItemForTaggedSlot([empty], "Hands.RightHand") == empty;
    assert I.GetReceivableQuantityForTaggedSlot(inv1, I.TestRock, "Hands.RightHand", 5, true, false) == 5;
    assert C.FindIndex(inv.container.items, "Items.IDs.Rock") == Some(0);
  }

  /** The container half takes all five rocks into an empty generic slot. */
  lemma FiveRocksIntoContainer()
    ensures ContainerAdd(RockRegistry, TwoSlotInventory, "Items.IDs.Rock", 5, k => k) == Addition(FiveRocksAdded, 5)
  {
    assert RockRegistry["Items.IDs.Rock"] == I.TestRock;
    RockCapacityOfTwoSlots();
    ContainerHalfAccepts(TwoSlotInventory, I.TestRock, 5);
    assert C.AddToBundle([], "Items.IDs.Rock", 5) == [ItemBundle("Items.IDs.Rock", 5)];
  }

  /** Distributing the plan moves all five rocks onto the right hand. */
  lemma FiveRocksDistributed()
    ensures var s := Distribute(FiveRocksAdded, I.TestRock, "Items.IDs.Rock", [Entry("Hands.RightHand", 5)], 5, 0, 0);
            && s.inventory.container == FiveRocksAdded.container
            && I.ItemForTaggedSlot(s.inventory.tagged, "Hands.RightHand").id == "Items.IDs.Rock"
            && I.TaggedQuantity(s.inventory.tagged, "Items.IDs.Rock") == 5
  {
    var id := "Items.IDs.Rock";
    FiveRocksMoveToRightHand();
    var m := MoveFromContainer(FiveRocksAdded, I.TestRock, id, "Hands.RightHand", 5);
    assert I.TaggedQuantity(FiveRocksAdded.tagged, id) == 0;
    var plan := [Entry("Hands.RightHand", 5)];
    assert Distribute(FiveRocksAdded, I.TestRock, id, plan, 5, 0, 0)
           == Distribute(m.inventory, I.TestRock, id, plan[1..], 5, 5, 0);
  }

  /**
   * The add of the inventory tests: five rocks, preferring any tagged slot,
   * into the test inventory with two generic slots. All five are added, the
   * right hand holds them, and the container mirrors them.
   */
  lemma FiveRocksGoToRightHand()
    ensures var r := AddItemToAnySlot(RockRegistry, TwoSlotInventory, "Items.IDs.Rock", 5, PreferAnyTaggedSlot,
                                      false, false, k => k);
            && r.added == 5
            && I.ItemForTaggedSlot(r.inventory.tagged, "Hands.RightHand").id == "Items.IDs.Rock"
            && I.TaggedQuantity(r.inventory.tagged, "Items.IDs.Rock") == 5
            && C.QuantityTotal(r.inventory.container.items, "Items.IDs.Rock") == 5
  {
    assert RockRegistry["Items.IDs.Rock"] == I.TestRock;
    RockCapacityOfTwoSlots();
    assert Viable(20, 5, false) == 5;
    RocksPlannedForRightHand();
    FiveRocksIntoContainer();
    FiveRocksDistributed();
  }
}
