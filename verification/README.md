# RancInventory core, modelled in Dafny

This project models the item-handling core of the RancInventory Unreal plugin as pure Dafny functions, and proves properties of that model:

- **Containers and their capacity.** An item container (`UItemContainerComponent`) holds bundles of stackable items. The model covers its capacity arithmetic by weight and by slots (including jigsaw footprints), adding, destroying and receiving extracted items, and change detection against a cached copy.
- **The inventory.** The inventory (`UInventoryComponent`) adds tagged slots on top of the container: specialized and universal slots, blocking rules between slots, and receivable quantities per slot. It also covers removal from slots, the distribution plan that splits an add across slots and the generic container, `AddItemToAnySlot`, the topological sort of universal slots by their blocking rules, and recipe checks.
- **Shared helpers.** `URISFunctions::MoveBetweenSlots` (stack, split or swap between two slots), `FItemBundle`'s destroy and extract of instance data, and the item registry of `URISSubsystem`.
- **The view models.** The grid view models (`UContainerGridViewModel`, `UInventoryGridViewModel`) cover move validation, slot receivability, the slot finder, the removal handler and the "settled" check.
- **The weapons layer.** From `UGearManagerComponent`: the hand choice, the selectable-weapon list, cycling to the next weapon and the gear-change queue. From `URangedWeaponFiringComponent`: the ammunition check, the shot spread, the shot cost, reload and restore.

**How the model is built:**

- Gameplay tags are strings, and the empty string is the invalid tag. A tag matches its own name and every dotted parent (`Tags.HasTag`).
- The item registry is an injected `map<Tag, ItemDef>`.
- Every 32-bit quantity is an unbounded integer. Where the width matters, the model writes it out: `Tags.Wrap32`, and `INT32_MAX` for "unlimited".
- C++ integer division and remainder truncate toward zero. The model keeps this as `Tags.CDiv` and `Tags.CRem`.
- Item sources, validation delegates and extraction callbacks become function parameters.
- Weights are whole numbers (see Left out).

The modules follow the source's structure:

| Module | Covers |
|---|---|
| `Tags`, `Wrappers`, `ItemData` | shared helpers and the data model |
| `Bundle` | `ItemBundle.cpp` |
| `SlotMove` | `RISFunctions.cpp` |
| `Container`, `ChangeDetection` | `ItemContainerComponent.cpp` |
| `Inventory`, `Distribution`, `AnySlot`, `SlotSort` | `InventoryComponent.cpp` |
| `Registry` | `RISSubsystem.cpp` |
| `ContainerGrid`, `InventoryGrid` | the view models |
| `Gear`, `RangedFiring` | the weapons module |

Where the code and its documentation disagree, the model follows the code. Five places where the code as written does not do what it evidently intends are listed under Findings. Each is modelled twice: once as written, and once corrected. The rest of the model uses the corrected version.

## Model

| member | source | states |
|---|---|---|
| Tags.CDiv | Source/RancInventoryWeapons/Private/RangedWeaponFiringComponent.cpp:322-327 | C++ integer division: the quotient truncates toward zero, bracketing the dividend from below for non-negative and from above for negative dividends |
| Tags.CRem | Source/RancInventoryWeapons/Private/RangedWeaponFiringComponent.cpp:314 | C++ `%`: dividend = quotient·divisor + remainder, with the remainder taking the dividend's sign and smaller than the divisor in size |
| Tags.Wrap32 | Source/RancInventory/Private/Components/ItemContainerComponent.cpp:215 | int32 wrap-around: the result is in int32 range, congruent to the input modulo 2^32, and equal to it when it already fits |
| Bundle.DestroyQuantity | Source/RancInventory/Private/Data/ItemBundle.cpp:14-25 | destroying from an instanced bundle drops exactly the affected count of instances from the back, keeps the id and the remaining prefix, and resets the quantity to the instance count; nothing changes when no instance is affected |
| Bundle.ExtractQuantity | Source/RancInventory/Private/Data/ItemBundle.cpp:27-46 | as written (array taken by value): the bundle ends as after DestroyQuantity and the caller's array is returned unchanged |
| Bundle.ExtractLosesInstances | Source/RancInventory/Private/Data/ItemBundle.cpp:27-46 | counterexample: extracting one of two instances leaves the extracted instance neither in the bundle nor in the caller's array |
| Bundle.ExtractQuantityByRef | Source/RancInventory/Private/Data/ItemBundle.cpp:27-46 | corrected extract: the caller's array keeps its prefix and gains exactly the removed instances, so bundle + appended == original instances |
| Bundle.ExtractByRefConserves | Source/RancInventory/Private/Data/ItemBundle.cpp:27-46 | the corrected extract conserves the multiset of instances across bundle and caller, and appends exactly the extracted count |
| Bundle.DestroyIsDiscardedExtract | Source/RancInventory/Private/Data/ItemBundle.cpp:14-46 | destroying is extracting into a discarded array: same bundle afterwards, and the destroyed instances are the extracted ones |
| SlotMove.MoveBetweenSlots | Source/RancInventory/Private/Core/RISFunctions.cpp:223-291 | a refused move changes neither slot; unless refused for missing data, an over-large non-partial request or a split onto a different item, the amount moved is min(request, held), capped by the room left in a stack it joins, and is 0 only when that is not positive or (without partial moves) short of the request; an empty target takes min(request, held); a swap exchanges the slots; a stack move conserves the pair's total, respects the max stack and empties the source to Empty |
| SlotMove.StackMoveFillsOrEmpties | Source/RancInventory/Private/Core/RISFunctions.cpp:238-288 | a partial move of a whole stack onto a same-item stack with room either fills the target to the max stack or empties the source |
| SlotMove.SwapDecisionAgrees | Source/RancInventory/Private/Core/RISFunctions.cpp:183-199 | whenever a move onto an occupied slot happens, it is a swap exactly when ShouldItemsBeSwapped says so |
| SlotMove.SwapTwiceIsIdentity | Source/RancInventory/Private/Core/RISFunctions.cpp:274-280 | swapping back after a swap restores both slots |
| Container.FindIndex | Source/RancInventory/Private/Components/ItemContainerComponent.cpp:838-849 | the first bundle with the id, or none when no bundle has it |
| Container.QuantityTotal | Source/RancInventory/Private/Components/ItemContainerComponent.cpp:77-86 | the quantity of the first bundle with the id, zero when absent |
| Container.Contains | Source/RancInventory/Private/Components/ItemContainerComponent.cpp:65-68 | true exactly when the first bundle with the id holds at least the quantity |
| Container.UpdateWeightAndSlots | Source/RancInventory/Private/Components/ItemContainerComponent.cpp:876-903 | only the cached weight and slot totals change; items, limits and the jigsaw flag stay |
| Container.ReceivableByWeight | Source/RancInventory/Private/Components/ItemContainerComponent.cpp:186-196 | weightless items are unlimited (INT32_MAX); otherwise the largest count whose weight still fits under the maximum |
| Container.WeightArithmetic | Source/RancInventory/Private/Components/ItemContainerComponent.cpp:186-196 | n ≤ receivable-by-weight exactly when adding n items keeps the weight within the maximum |
| Container.TillNextFullStack | Source/RancInventory/Private/Components/ItemContainerComponent.cpp:201-206 | headroom in the last partial stack: below the stack size, zero for unstackable items or an empty container, and non-zero only off a stack boundary |
| Container.TillCompletesStack | Source/RancInventory/Private/Components/ItemContainerComponent.cpp:201-206 | contained + headroom is the contained amount rounded up to a whole number of stacks |
| Container.ReceivableBySlots | Source/RancInventory/Private/Components/ItemContainerComponent.cpp:198-219 | corrected slot capacity (no overflow): with the slots not over-full, never below the partial-stack headroom |
| Container.SlotsAfterAdding | Source/RancInventory/Private/Components/ItemContainerComponent.cpp:198-219 | n ≤ receivable-by-slots exactly when adding n items keeps the slots the bundles take within the maximum |
| Container.ReceivableBySlotsAsWritten | Source/RancInventory/Private/Components/ItemContainerComponent.cpp:215 | as written: the int32 result agrees with the exact one whenever that fits in int32 |
| Container.SlotHeadroomOverflows | Source/RancInventory/Private/Components/ItemContainerComponent.cpp:215 | counterexample: default MaxSlotCount with a 2-stack item gives -2 instead of 4294967294 |
| Container.GetReceivableQuantity | Source/RancInventory/Private/Components/ItemContainerComponent.cpp:165-184 | never more than requested, the weight limit or (without swap-back) the slot limit; without partial adds it is all or nothing, and nothing when the request exceeds either limit |
| Container.ReceivableFits | Source/RancInventory/Private/Components/ItemContainerComponent.cpp:165-219 | any amount up to the receivable quantity fits both the weight and slot limits after adding |
| Container.FitsIsReceivable | Source/RancInventory/Private/Components/ItemContainerComponent.cpp:165-219 | conversely, any amount that fits after adding is receivable with partial adds |
| Container.AddToBundleTotals | Source/RancInventory/Private/Components/ItemContainerComponent.cpp:342-351 | adding to a bundle raises that item's total by n and leaves every other item's total alone |
| Container.AddItem | Source/RancInventory/Private/Components/ItemContainerComponent.cpp:260-416 | invalid or unknown items and empty requests add nothing; the amount added is what the source yields of the capped request (exactly the instance count for instanced adds); the container then holds that many more |
| Container.AddItemKeepsLimits | Source/RancInventory/Private/Components/ItemContainerComponent.cpp:260-416 | adding keeps the container consistent: caches match the items and the weight and slot limits hold |
| Container.DestroyItem | Source/RancInventory/Private/Components/ItemContainerComponent.cpp:726-782 | absent items and over-large requests without partial destroys remove nothing; otherwise min(quantity, held) is removed, the bundle disappears when emptied, and other items are untouched |
| Container.DestroyKeepsLimits | Source/RancInventory/Private/Components/ItemContainerComponent.cpp:726-782 | destroying keeps the container consistent |
| Container.ReceiveExtractedItems | Source/RancInventory/Private/Components/ItemContainerComponent.cpp:1020-1123 | nothing is received for invalid ids or instanced items without instances (and, in the model, for unregistered ids; see Left out); what is received is capped by the receivable quantity and by the offer, and is added to the container |
| Container.ReceiveKeepsLimits | Source/RancInventory/Private/Components/ItemContainerComponent.cpp:1044-1097 | receiving keeps the container consistent: caches match the items and the weight and slot limits hold |
| ChangeDetection.DetectAndPublishChangesCorrect | Source/RancInventory/Private/Components/ItemContainerComponent.cpp:915-1009 | after detection the cache equals the current items per id, the net of the published changes per id is current minus old, every published change carries a positive quantity, and exactly one change is published for each id whose quantity changed and none for an unchanged id |
| ChangeDetection.ComparePassFacts | Source/RancInventory/Private/Components/ItemContainerComponent.cpp:921-990 | the comparison pass marks every current item in the cache and publishes its difference, leaving items not current untouched |
| ChangeDetection.SweepFacts | Source/RancInventory/Private/Components/ItemContainerComponent.cpp:992-1008 | the sweep publishes removal of every unmarked cached item and unmarks the rest |
| Inventory.IndexForTaggedSlot | Source/RancInventory/Private/Components/InventoryComponent.cpp:1557-1567 | the first entry for the slot, or none when no entry has it |
| Inventory.ItemForTaggedSlot | Source/RancInventory/Private/Components/InventoryComponent.cpp:1525-1535 | an entry of the slot when one exists, the empty tagged bundle otherwise |
| Inventory.FindUniversal | Source/RancInventory/Private/Components/InventoryComponent.cpp:2235-2241 | finds a universal slot definition exactly when the slot is universal |
| Inventory.WouldItemMoveIndirectlyViolateBlocking | Source/RancInventory/Private/Components/InventoryComponent.cpp:277-297 | true exactly when the slot is valid, has a blocking rule whose partner slot holds an item, and equipping the item in the slot would flag that partner as blocked |
| Inventory.ViolationRefusesSlot | Source/RancInventory/Private/Components/InventoryComponent.cpp:84-87 | a slot whose filling would block an occupied slot takes nothing without swap-back, whatever the request |
| Inventory.GetReceivableQuantityForTaggedSlot | Source/RancInventory/Private/Components/InventoryComponent.cpp:67-119 | zero for slots that do not accept the item, for blocked or foreign-held slots without swap-back; never above the max stack, nor above the stack's headroom; all or nothing without partial; the full min(max stack, request) for a free accepting slot |
| Inventory.CanReceiveItemInTaggedSlot | Source/RancInventory/Private/Components/InventoryComponent.cpp:57-65 | a yes needs a known item, a quantity within its stack size, an accepting slot and (without swap-back) an unblocked slot; a free accepting slot says yes |
| Inventory.GetContainerOnlyItemQuantity | Source/RancInventory/Private/Components/InventoryComponent.cpp:121-134 | the container's total minus what the tagged slots hold of the item |
| Inventory.SetTaggedSlotBlocked | Source/RancInventory/Private/Components/InventoryComponent.cpp:1537-1550 | the slot's blocked flag becomes the value asked, its item and every other slot are unchanged, tagged totals and slot uniqueness are kept |
| Inventory.UpdateBlockingState | Source/RancInventory/Private/Components/InventoryComponent.cpp:299-314 | without a blocking rule nothing changes; with one, the partner is blocked exactly when an item of the blocking category is equipped, and nothing else changes |
| Inventory.EquipBlocksPartner | Source/RancInventory/Private/Components/InventoryComponent.cpp:299-314 | after equipping a blocking item the partner slot receives nothing; unequipping unblocks it |
| Inventory.GetReceivableQuantity | Source/RancInventory/Private/Components/InventoryComponent.cpp:137-171 | bounded by the request, the weight limit and the slot capacity (generic slots plus specialized and universal slot room), with swap-back allowing one stack more |
| Inventory.ReceivableWithoutBlocking | Source/RancInventory/Private/Components/InventoryComponent.cpp:137-171 | when no universal slot can block another with the item, the answer is exactly the request capped by weight and by generic headroom plus every tagged slot's take (one stack with swap-back when that is zero) |
| Inventory.RockReceivableInTestInventory | Source/RancInventoryTest/Private/RISInventoryComponentTest.cpp:1224-1229 | the test inventory receives 55 of 60 rocks |
| Inventory.UpdateWeightAndSlots | Source/RancInventory/Private/Components/InventoryComponent.cpp:2189-2216 | weight is the container's; used slots are the container's less those the tagged items take, so never more |
| Inventory.RemoveQuantityFromTaggedSlot | Source/RancInventory/Private/Components/InventoryComponent.cpp:663-781 | empty slots, partial removals with instances and over-large requests without partial remove nothing; at most min(request, held) is removed and exactly that when the container is kept; the slot's item total drops by the amount removed, other items unchanged; for a registered item the slot it blocked is released, and for an unregistered item no other slot changes |
| Inventory.TaggedRemovalConserves | Source/RancInventory/Private/Components/InventoryComponent.cpp:663-781 | the container keeps other items, and the generic (container minus tagged) quantity grows by the removal exactly when the container copy is kept |
| Inventory.TaggedRemovalEmptiesSlot | Source/RancInventory/Private/Components/InventoryComponent.cpp:761-767 | an emptied unblocked slot loses its entry; otherwise the slot holds the reduced quantity |
| Inventory.RemoveItemFromAnyTaggedSlots | Source/RancInventory/Private/Components/InventoryComponent.cpp:783-803 | removes at most the request (nothing for instance requests), only from that item's slots, and the item's tagged total drops by exactly what is reported |
| Inventory.CanCraftRecipe | Source/RancInventory/Private/Components/InventoryComponent.cpp:1936-1948 | true exactly when there is a recipe and the container holds every component in its quantity |
| Distribution.TopOffTagged | Source/RancInventory/Private/Components/InventoryComponent.cpp:1673-1690 | top-offs only go to unblocked tagged stacks of the same item with headroom, and (corrected) never exceed what is viable |
| Distribution.ContainerCan | Source/RancInventory/Private/Components/InventoryComponent.cpp:1708 | what the container alone takes is within its weight and slot limits, and non-negative for a container not over-full |
| Distribution.FillSpecializedFits | Source/RancInventory/Private/Components/InventoryComponent.cpp:1719-1736 | each specialized share fits its slot and goes to a slot not excluded |
| Distribution.FillUniversalFits | Source/RancInventory/Private/Components/InventoryComponent.cpp:1737-1792 | each universal share fits its slot and avoids blocked slots |
| Distribution.GetItemDistributionPlan | Source/RancInventory/Private/Components/InventoryComponent.cpp:1656-1805 | corrected plan: all shares positive, empty for nothing viable, and the shares add up to exactly the viable quantity |
| Distribution.PreferGenericStaysGeneric | Source/RancInventory/Private/Components/InventoryComponent.cpp:1710-1802 | preferring the generic inventory puts everything beyond the top-offs into one generic entry |
| Distribution.GetItemDistributionPlanAsWritten | Source/RancInventory/Private/Components/InventoryComponent.cpp:1656-1805 | as written: shares are positive and the plan is empty for nothing viable |
| Distribution.TopOffOvershoots | Source/RancInventory/Private/Components/InventoryComponent.cpp:1681 | counterexample: hands holding 4 and 1 rocks with 3 viable plan 1 + 3 = 4 as written, 1 + 2 corrected |
| AnySlot.EnsureSlotEntry | Source/RancInventory/Private/Components/InventoryComponent.cpp:855-872 | a configured slot without an entry gains one empty entry at the end; others keep theirs; unconfigured slots fail; tagged totals and uniqueness are kept |
| AnySlot.MoveFromContainer | Source/RancInventory/Private/Components/InventoryComponent.cpp:916-1130 | a move from the container into a slot moves at most the request, the container's bundle and one stack; the item's tagged total grows by exactly that, other items are untouched, and the slot then holds the item |
| AnySlot.Distribute | Source/RancInventory/Private/Components/InventoryComponent.cpp:539-611 | the distribution loop never distributes more than was added; the tagged total grows by at most what was distributed, and tagged plus generic gains equal the plan when it fits |
| AnySlot.Viable | Source/RancInventory/Private/Components/InventoryComponent.cpp:501-506 | all or nothing without partial adds, otherwise the smaller of request and capacity, and something whenever both are positive |
| AnySlot.AddItemToAnySlot | Source/RancInventory/Private/Components/InventoryComponent.cpp:490-636 | adds only known items for positive requests; reports what the source yields of the viable quantity; the container grows by that and other items stay; tagged slots gain at most that much of the item and nothing else |
| AnySlot.AddReportsViable | Source/RancInventory/Private/Components/InventoryComponent.cpp:501-521 | with a full-yield source the add reports exactly the viable quantity: the request when it fits (without partial), min(request, capacity) with partial |
| AnySlot.AddWithinRequest | Source/RancInventory/Private/Components/InventoryComponent.cpp:490-521 | never more than requested, and all or nothing without partial adds |
| AnySlot.FiveRocksGoToRightHand | Source/RancInventoryTest/Private/RISInventoryComponentTest.cpp:1115-1127 | five rocks into an inventory with two hand slots all go to the right hand and are mirrored in the container |
| SlotSort.Kahn | Source/RancInventory/Private/Components/InventoryComponent.cpp:1820-1906 | Kahn's sort: the order is distinct, every slot comes after its blockers, order plus cyclic leftovers is a permutation, and only slots on cycles are left over |
| SlotSort.SortUniversalTaggedSlots | Source/RancInventory/Private/Components/InventoryComponent.cpp:1807-1918 | corrected: the result rearranges the slots, with blockers first whenever the blocking rules are acyclic |
| SlotSort.AcyclicSortsAll | Source/RancInventory/Private/Components/InventoryComponent.cpp:1820-1906 | with a ranking of the rules no slot is left over and the order is a permutation |
| SlotSort.PlacementWithoutCycles | Source/RancInventory/Private/Components/InventoryComponent.cpp:1903-1914 | without cycles, the as-written placement is the sorted arrangement |
| SlotSort.SortUniversalTaggedSlotsAsWritten | Source/RancInventory/Private/Components/InventoryComponent.cpp:1807-1918 | as written: same length, the placement of Kahn's outcome, and a correct rearrangement when the rules are acyclic |
| SlotSort.AsWrittenDropsBackSlot | Source/RancInventory/Private/Components/InventoryComponent.cpp:1903-1914 | counterexample: two hands blocking each other plus a back slot lose the back slot as written |
| SlotSort.IntendedKeepsBackSlot | Source/RancInventory/Private/Components/InventoryComponent.cpp:1807-1918 | any rearrangement of the same slots keeps the back slot |
| Registry.HardcodeItem | Source/RancInventory/Private/Core/RISSubsystem.cpp:262-272 | registering keeps every existing entry and adds the id when new; an existing id leaves the registry as it was |
| Registry.HardcodeMakesLoaded | Source/RancInventory/Private/Core/RISSubsystem.cpp:114-117 | items count as loaded exactly when the registry is non-empty, so a hardcoded item makes them loaded |
| Registry.GetItemDataById | Source/RancInventory/Private/Core/RISSubsystem.cpp:304-324 | found exactly when registered, and then the registered data |
| Registry.AddAll | Source/RancInventory/Private/Core/RISSubsystem.cpp:72-95 | loading adds every loaded asset under its id and keeps the rest; only loaded ids change |
| Registry.AllItemsLoadedCallback | Source/RancInventory/Private/Core/RISSubsystem.cpp:72-95 | a second broadcast never happens; with the asset manager ready the registry is indexed and broadcast once; without it nothing changes |
| Registry.CallbackRunsOnce | Source/RancInventory/Private/Core/RISSubsystem.cpp:74-75 | after a successful callback any further callback changes nothing |
| ContainerGrid.FindGridSlotIndexForItem | Source/RancInventory/Private/ViewModels/ContainerGridViewModel.cpp:505-556 | the first partial stack of the item, else the first empty cell, else -1; unknown items get -1 |
| ContainerGrid.CanGridSlotReceiveItem | Source/RancInventory/Private/ViewModels/ContainerGridViewModel.cpp:210-235 | a yes needs a valid index, a positive quantity, a known item the container accepts, and an empty or same-item cell; then exactly when the stack stays within its size (one item into an empty cell for unstackable items) |
| ContainerGrid.FoundSlotReceivesOne | Source/RancInventory/Private/ViewModels/ContainerGridViewModel.cpp:505-556 | the slot the finder returns takes one more item, and -1 means no cell does |
| ContainerGrid.MoveItemInGrid | Source/RancInventory/Private/ViewModels/ContainerGridViewModel.cpp:167-208 | refused moves change nothing; a move needs a linked view, distinct in-range cells and a known source item; other cells stay; a partial split moves the quantity onto the target |
| ContainerGrid.MoveConservesTotals | Source/RancInventory/Private/ViewModels/ContainerGridViewModel.cpp:167-208 | moves keep the grid tidy and every item's grid total |
| ContainerGrid.ReceivableStackMoves | Source/RancInventory/Private/ViewModels/ContainerGridViewModel.cpp:167-208 | a whole stack moves onto a cell that can receive it |
| ContainerGrid.HandleItemRemoved | Source/RancInventory/Private/ViewModels/ContainerGridViewModel.cpp:456-503 | a removal the view predicted only clears the latest matching prediction; otherwise it drains the item from the grid by exactly min(quantity, shown), front cells first, and asks for a resync when the grid showed too little |
| ContainerGrid.SettledMeansSameTotals | Source/RancInventory/Private/ViewModels/ContainerGridViewModel.cpp:337-392 | the view is settled exactly when nothing is pending and the grid shows every item's container total |
| InventoryGrid.ValidateMove | Source/RancInventory/Private/ViewModels/InventoryGridViewModel.cpp:240-297 | moves onto the same cell or slot are refused; a planned move has a valid source and a positive quantity within it, a compatible target, and a swap exactly when a whole stack meets a different item; the server is asked exactly when a tagged slot is involved; every such move is planned |
| InventoryGrid.CanTaggedSlotReceiveItem | Source/RancInventory/Private/ViewModels/InventoryGridViewModel.cpp:457-492 | a yes needs a linked view, valid item and slot, a positive quantity, compatibility, an unblocked slot and (when checked) container room; then exactly when the slot is empty or stacks the same item within its size |
| InventoryGrid.EmptyTaggedSlotIgnoresStackSize | Source/RancInventory/Private/ViewModels/InventoryGridViewModel.cpp:476-479 | an empty slot accepts more than one stack |
| InventoryGrid.FindTaggedSlotForItem | Source/RancInventory/Private/ViewModels/InventoryGridViewModel.cpp:788-877 | corrected: prefers a partial stack, then an empty compatible specialized slot, and honours the empty-universal preference when no specialized slot is free |
| InventoryGrid.FindTaggedSlotForItemAsWritten | Source/RancInventory/Private/ViewModels/InventoryGridViewModel.cpp:788-877 | as written: an unlinked view or unknown item gets no slot |
| InventoryGrid.CorrectionNeedsPreference | Source/RancInventory/Private/ViewModels/InventoryGridViewModel.cpp:839-866 | without the preference flag the corrected and as-written finders agree |
| InventoryGrid.AsWrittenIgnoresPreference | Source/RancInventory/Private/ViewModels/InventoryGridViewModel.cpp:839-866 | counterexample: with a worn helmet and a free hand, the as-written finder returns the helmet slot despite the preference |
| Gear.GetHandSlotToUse | Source/RancInventoryWeapons/Private/GearManagerComponent.cpp:226-247 | main-hand-only and two-handed go to the main hand; offhand-only to the offhand unless a two-hander is held; both-hands to the offhand only beside a normal-priority one-handed weapon with a free offhand; nothing goes to the offhand beside a two-hander |
| Gear.AddSelectableWeapon | Source/RancInventoryWeapons/Private/GearManagerComponent.cpp:157-176 | a listed weapon keeps its place; a new one goes last after evicting the first from a full list; the list stays within capacity and duplicate-free |
| Gear.NextWeaponIndex | Source/RancInventoryWeapons/Private/GearManagerComponent.cpp:572-583 | no selection for an empty list; otherwise the next entry, wrapping from the last to the first |
| Gear.CycleReturns | Source/RancInventoryWeapons/Private/GearManagerComponent.cpp:572-583 | k selections walk k entries forward with one wrap, and as many selections as weapons return to the start |
| Gear.QueueGearChange | Source/RancInventoryWeapons/Private/GearManagerComponent.cpp:725-740 | the new change goes last and replaces every pending change of the same slot and type, so at most one per slot and type stays pending |
| Gear.ProcessStep | Source/RancInventoryWeapons/Private/GearManagerComponent.cpp:742-794 | an empty queue goes idle; the front change advances one step and is popped after Apply; every turn does one unit of work |
| Gear.QueueDrains | Source/RancInventoryWeapons/Private/GearManagerComponent.cpp:742-794 | the queue empties after exactly as many turns as steps remain, and not before |
| RangedFiring.PassesAmmoCheck | Source/RancInventoryWeapons/Private/RangedWeaponFiringComponent.cpp:113-127 | unlimited clips pass; a limited clip passes exactly when it is non-empty and holds the shot's cost |
| RangedFiring.ShotSpread | Source/RancInventoryWeapons/Private/RangedWeaponFiringComponent.cpp:311-328 | two equal sides plus an optional middle shot make up all projectiles, with a middle shot exactly for odd counts |
| RangedFiring.Reload | Source/RancInventoryWeapons/Private/RangedWeaponFiringComponent.cpp:556-586 | a limited reload moves one full clip out of a reserve that holds one (dropping the rounds left); a short reserve changes nothing; an unlimited clip refills for free; the reserve stays non-negative |
| RangedFiring.Restore | Source/RancInventoryWeapons/Private/RangedWeaponFiringComponent.cpp:608-624 | each requested counter is reset to its size, the other kept |
| RangedFiring.FullClipFires | Source/RancInventoryWeapons/Private/RangedWeaponFiringComponent.cpp:113-127 | after restoring or reloading, a shot that fits in a clip passes the ammunition check |
| RangedFiring.FirePattern | Source/RancInventoryWeapons/Private/RangedWeaponFiringComponent.cpp:271-350 | a shot leaves exactly when not reloading, the checks pass and the burst is not complete; it costs its ammunition from a limited clip unless an automatic reload follows; a refused shot without automatic reload changes nothing |
| RangedFiring.CountersStayNonNegative | Source/RancInventoryWeapons/Private/RangedWeaponFiringComponent.cpp:271-350 | counters that start non-negative stay so through firing, reloading and restoring |
| RangedFiring.ShotSpendsItsCost | Source/RancInventoryWeapons/Private/RangedWeaponFiringComponent.cpp:333-343 | a limited shot without reload lowers clip plus reserve by exactly its cost |

## Left out

- Replication, RPCs, multicast events and delegates, timers, montages, traces, projectile spawning, world items and actors, the editor module, and the legacy `Ranc*` components: these are engine I/O, not item logic.
- Float weights and the `MaxWeight` float are modelled as whole numbers.
- `MoveItem_ServerImpl`: only its container-to-tagged-slot path without a swap is modelled (`AnySlot.MoveFromContainer`). Tagged-to-container moves, tagged-to-tagged moves and swap-back validation are not modelled, because their orchestration is event bookkeeping around `MoveBetweenSlots`, which is modelled.
- `MoveBetweenContainers_ServerImpl`, `AddItemToTaggedSlot_IfServer`, `ExtractItemImpl_IfServer`, crafting (`CraftRecipe_IfServer`) and the drop, use and clear operations are outside this model.
- The `OnValidateAddItem` delegate and instance-data comparison in change detection are not modelled. Change detection compares quantities only.
- Grid view models: `HandleItemAdded`, `UseItem`, the drop functions, `TryUnblockingMove`, `MoveItemToAnyTaggedSlot` and the forced full update are not modelled.
- The asset-manager fallback paths of the subsystem, recipes, and world-item spawning are not modelled.
- Weapons: the cooldown timing check, the burst counter and the reload timer are not modelled. They enter `RangedFiring.FirePattern` as the booleans `passTiming` and `burstComplete`.
- The declaration of `EGearChangeStep` is not part of this model. Its order (Request, PlayAnim, Apply) is taken from the switch in `ProcessNextGearChange`.
- Container.AddItem: when the item source yields fewer instances than planned, the call returns 0 and the extracted items are lost: they leave the source and never reach the container. This follows the source's code path, which marks the case as unfinished.
- Container.DestroyItem: the bundle's three-argument `DestroyQuantity`, which the container calls, is not part of this model. The model assumes it removes min(quantity, held) and ignores which instances were named, and that the bundle leaves the list once it reaches zero.
- Container.ReceiveExtractedItems: for a valid id without item data the source dereferences a null pointer. The model does not represent that crash and returns 0 instead.
- Instance identity: container and tagged bundles carry counts only. Which instances are named or handed over is not modelled: `InstancesToExtract` in `AddItem`, the `RemoveSingleSwap` of named instances in `RemoveQuantityFromTaggedSlot`, and the hand-out of instances in `AddItemToAnySlot` all act on counts.
- The subsystem used as an item source hands over whatever is asked for. It enters the model as the extraction parameter `k => k`.
- Container.UpdateWeightAndSlots: the contract states only what stays unchanged. What the recomputed caches mean (they equal the sums over the items) is stated by `Consistent`, which `Container.AddItemKeepsLimits` and `Container.DestroyKeepsLimits` prove is kept.
- Inventory.GetReceivableQuantity: the contract gives upper bounds only. The exact value is stated by `Inventory.ReceivableWithoutBlocking` when no universal slot can block another, and by `Inventory.RockReceivableInTestInventory` for the documented example with blocking.
- Gear.AddSelectableWeapon: requires that a list at capacity is non-empty. With a capacity of 0 the source's `RemoveAt(0)` on an empty array is a fatal range error, and the model does not represent that crash. The shipped capacity is 9.
- Gear.GetHandSlotToUse: `AnyHand` and `None` have no case in the source's switch and get no slot (a null pointer). This is modelled as `NoSlot`, not treated as a bug.
- RangedFiring.Reload: a reload drops the rounds still in the clip. This is what the source does, and it is stated rather than corrected.
- Distribution.GetItemDistributionPlanAsWritten: the contract states only positivity, because its sum can exceed the viable quantity (see Findings).
- InventoryGrid.FindTaggedSlotForItemAsWritten: the contract states only the invalid-input case. Its other behaviour is related to the corrected finder by `InventoryGrid.CorrectionNeedsPreference` and `InventoryGrid.AsWrittenIgnoresPreference`.
- SlotSort.SortUniversalTaggedSlotsAsWritten: the contract states a correct rearrangement only for acyclic blocking rules, because with cycles it loses slots (see Findings).
- AnySlot.AddItemToAnySlot: the clamp of a plan share through `const_cast` on a const local is modelled as the intended clamp, since writing through it is undefined behaviour in C++. The function uses the corrected planner. Because the clamp limits each share to what remains, the top-off overshoot of the planner as written does not reach the moves, but that equivalence is not proved.

## Findings

| source | as written | input that shows it | evidently intended | confidence | as-written member | corrected member |
|---|---|---|---|---|---|---|
| Source/RancInventory/Private/Components/InventoryComponent.cpp:1903-1914 | after Kahn's sort, cyclic slots are written from index `SortedIndices.Num()` onward, over the cells where the sorted slots were just placed, and unused cells become empty slots | Right and left hand blocking each other plus an unrelated back slot: the result is [empty, right hand, left hand], and the back slot is lost | the sorted slots followed by the cyclic ones, a rearrangement of the input | not executed | SlotSort.SortUniversalTaggedSlotsAsWritten, SlotSort.AsWrittenDropsBackSlot | SlotSort.SortUniversalTaggedSlots, SlotSort.IntendedKeepsBackSlot |
| Source/RancInventory/Private/Data/ItemBundle.cpp:27-46 | `ExtractQuantity` takes the caller's instance array by value, so the extracted instances are appended to a copy | a bundle with instances [7, 8]; extract 1: instance 8 leaves the bundle and never reaches the caller | the array passed by reference, so extracted instances reach the caller | not executed | Bundle.ExtractQuantity, Bundle.ExtractLosesInstances | Bundle.ExtractQuantityByRef, Bundle.ExtractByRefConserves |
| Source/RancInventory/Private/Components/InventoryComponent.cpp:1681 | each top-off of an existing stack is capped by the whole viable quantity, not by what is still left to plan | hands holding 4 and 1 rocks (stack 5) with 3 viable: plan 1 + 3 = 4 | each top-off capped by the viable quantity not yet planned, so the plan adds up to the viable quantity | not executed | Distribution.GetItemDistributionPlanAsWritten, Distribution.TopOffOvershoots | Distribution.GetItemDistributionPlan |
| Source/RancInventory/Private/Components/ItemContainerComponent.cpp:215 | free slots over slots per stack, times the stack size, is computed in int32 and wraps | default MaxSlotCount (INT32_MAX), an empty container, an item with stack size 2: the result is -2 and nothing can be added | the exact slot headroom, or one clamped to INT32_MAX | not executed | Container.ReceivableBySlotsAsWritten, Container.SlotHeadroomOverflows | Container.ReceivableBySlots, Container.SlotsAfterAdding |
| Source/RancInventory/Private/ViewModels/InventoryGridViewModel.cpp:839-866 | an occupied compatible specialized slot becomes the fallback before the universal pass, and the universal pass then keeps it instead of taking an empty universal slot, whatever bPreferEmptyUniversalSlots says | a worn helmet in the helmet slot, a free right hand, a cap that fits both, with the preference on: the helmet slot is chosen | with the preference on, an empty universal slot wins over an occupied specialized one | not executed | InventoryGrid.FindTaggedSlotForItemAsWritten, InventoryGrid.AsWrittenIgnoresPreference | InventoryGrid.FindTaggedSlotForItem, InventoryGrid.CorrectionNeedsPreference |
