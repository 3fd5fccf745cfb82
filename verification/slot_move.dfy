/**
 * The slot-to-slot kernel (URISFunctions::MoveBetweenSlots): move, stack or
 * swap the contents of two bundles. A quantity of 0 in the result means the
 * move was refused and both bundles are returned untouched.
 */
module SlotMove {
  import opened Tags
  import opened ItemData
  import opened Bundle

  datatype MoveResult = MoveResult(source: ItemBundle, target: ItemBundle, moved: int, swapped: bool)

  function Refused(source: ItemBundle, target: ItemBundle): MoveResult
  {
    MoveResult(source, target, 0, false)
  }

  /** Whether the source's items would merge into the target's stack. */
  predicate WouldStack(d: ItemDef, source: ItemBundle, target: ItemBundle)
  {
    d.stackable && source.id == target.id
  }

  /** The swap decision alone: only an occupied target that cannot take the source's stack is swapped. */
  function ShouldItemsBeSwapped(reg: Registry, source: ItemBundle, target: ItemBundle): bool
  {
    if Valid(target) then
      if source.id !in reg then false
      else !WouldStack(reg[source.id], source, target)
    else false
  }

  function MoveBetweenSlots(reg: Registry, source: ItemBundle, target: ItemBundle,
                            ignoreMaxStacks: bool, requested: int, allowPartial: bool): (r: MoveResult)
    // a refused move changes nothing
    ensures r.moved <= 0 ==> r == Refused(source, target)
    // what moves: the requested part of the source, capped by the room left in a stack it joins
    ensures source.id in reg && (allowPartial || requested <= source.quantity)
            && !(Valid(target) && !WouldStack(reg[source.id], source, target) && source.quantity > requested) ==>
              var wanted := Min(requested, source.quantity);
              var amount := if Valid(target) && WouldStack(reg[source.id], source, target) && !ignoreMaxStacks
                            then Min(wanted, reg[source.id].maxStack - target.quantity) else wanted;
              r.moved == (if amount > 0 && (allowPartial || amount >= requested) then amount else 0)
    // an empty target takes everything asked for that the source holds
    ensures source.id in reg && !Valid(target) && requested > 0 && source.quantity > 0
              && (allowPartial || requested <= source.quantity) ==>
              r.moved == Min(requested, source.quantity)
    ensures r.moved > 0 ==> source.id in reg
    ensures r.moved > 0 ==> r.moved <= Min(requested, source.quantity)
    ensures !allowPartial && requested > source.quantity ==> r.moved == 0
    ensures !allowPartial && r.moved > 0 ==> r.moved == requested
    // splitting onto a slot holding something that does not stack is refused
    ensures (source.id in reg && Valid(target) && !WouldStack(reg[source.id], source, target)
              && source.quantity > requested) ==> r.moved == 0
    // a swap exchanges the bundles exactly, and always carries the whole source stack
    ensures r.swapped ==> r.moved == source.quantity && r.source == target && r.target == source
    // a stack move conserves the total and resets an emptied source
    ensures r.moved > 0 && !r.swapped ==>
              && r.target == ItemBundle(source.id, target.quantity + r.moved)
              && r.source.quantity + r.target.quantity == source.quantity + target.quantity
              && r.source.quantity >= 0
              && (r.source.quantity == 0 ==> r.source == Empty)
              && (r.source.quantity > 0 ==> r.source.id == source.id)
    // stacking onto an occupied slot respects the stack limit unless told to ignore it
    ensures r.moved > 0 && !r.swapped && Valid(target) && !ignoreMaxStacks ==>
              r.target.quantity <= reg[source.id].maxStack
  {
    if source.id !in reg then Refused(source, target)
    else if !allowPartial && requested > source.quantity then Refused(source, target)
    else
      var d := reg[source.id];
      var wanted := Min(requested, source.quantity);
      if Valid(target) && !WouldStack(d, source, target) && source.quantity > requested then
        Refused(source, target)
      else
        var transfer :=
          if Valid(target) then
            var remainingSpace := if ignoreMaxStacks || !WouldStack(d, source, target) then wanted
                                  else d.maxStack - target.quantity;
            Min(wanted, remainingSpace)
          else wanted;
        var doSwap := if Valid(target) then !WouldStack(d, source, target) else wanted >= source.quantity;
        if transfer <= 0 then Refused(source, target)
        else if !allowPartial && transfer < requested then Refused(source, target)
        else if doSwap then MoveResult(target, source, transfer, true)
        else
          var left := source.quantity - transfer;
          MoveResult(if left <= 0 then Empty else source.(quantity := left),
                     ItemBundle(source.id, target.quantity + transfer), transfer, false)
  }

  /** The stand-alone swap decision agrees with what a successful move onto an occupied slot does. */
  lemma SwapDecisionAgrees(reg: Registry, source: ItemBundle, target: ItemBundle,
                           ignoreMaxStacks: bool, requested: int, allowPartial: bool)
    requires Valid(target)
    ensures var r := MoveBetweenSlots(reg, source, target, ignoreMaxStacks, requested, allowPartial);
            r.moved > 0 ==> r.swapped == ShouldItemsBeSwapped(reg, source, target)
  {
  }

  /**
   * A partial move onto a stack of the same item with room either fills the
   * target stack or empties the source: nothing that fits is left behind.
   */
  lemma StackMoveFillsOrEmpties(reg: Registry, source: ItemBundle, target: ItemBundle, requested: int)
    requires source.id in reg && Valid(target) && WouldStack(reg[source.id], source, target)
    requires 0 < source.quantity <= requested && target.quantity < reg[source.id].maxStack
    ensures var r := MoveBetweenSlots(reg, source, target, false, requested, true);
            && r.moved > 0 && !r.swapped
            && (r.target.quantity == reg[source.id].maxStack || r.source == Empty)
  {
  }

  /** Moving a swapped stack back swaps again and restores both slots. */
  lemma SwapTwiceIsIdentity(reg: Registry, source: ItemBundle, target: ItemBundle,
                            ignoreMaxStacks: bool, requested: int, allowPartial: bool)
    requires MoveBetweenSlots(reg, source, target, ignoreMaxStacks, requested, allowPartial).swapped
    ensures var first := MoveBetweenSlots(reg, source, target, ignoreMaxStacks, requested, allowPartial);
            var back := MoveBetweenSlots(reg, first.target, first.source, ignoreMaxStacks, source.quantity, allowPartial);
            back.swapped && back.target == source && back.source == target
  {
  }
}
