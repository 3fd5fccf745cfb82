/**
 * GetItemDistributionPlan: a quantity the inventory can take is split
 * between the generic container and the tagged slots. Stacks already held
 * are topped off first, then specialized slots, preferred universal slots
 * and the remaining universal slots are filled, as the slot policy orders.
 *
 * A plan entry with the unset tag stands for the generic container.
 */
module Distribution {
  import opened Tags
  import opened Wrappers
  import opened ItemData
  import opened Bundle
  import C = Container
  import I = Inventory

  /** EPreferredSlotPolicy. */
  datatype SlotPolicy = PreferGenericInventory | PreferSpecializedTaggedSlot | PreferAnyTaggedSlot

  /** One step of a plan: a tagged slot (or the generic container) and a quantity. */
  datatype Entry = Entry(slot: Tag, quantity: int)

  function Sum(plan: seq<Entry>): int
  {
    if |plan| == 0 then 0 else plan[0].quantity + Sum(plan[1..])
  }

  lemma {:induction false} SumAppend(a: seq<Entry>, b: seq<Entry>)
    ensures Sum(a + b) == Sum(a) + Sum(b)
  {
    if |a| == 0 {
      assert a + b == b;
    } else {
      assert (a + b)[1..] == a[1..] + b;
      SumAppend(a[1..], b);
    }
  }

  predicate Positive(plan: seq<Entry>)
  {
    forall i :: 0 <= i < |plan| ==> plan[i].quantity > 0
  }

  lemma PositiveAppend(a: seq<Entry>, b: seq<Entry>)
    ensures Positive(a) && Positive(b) ==> Positive(a + b)
  {
    assert forall i :: |a| <= i < |a + b| ==> (a + b)[i] == b[i - |a|];
  }

  /** The entries one phase of the planner adds, and the running total after it. */
  datatype Fill = Fill(entries: seq<Entry>, total: int)

  /** The universal-slot phases also carry the slots an earlier fill would block. */
  datatype UniversalFill = UniversalFill(entries: seq<Entry>, total: int, blocked: seq<Tag>)

  function SlotsOf(entries: seq<Entry>): (r: seq<Tag>)
    ensures |r| == |entries| && forall i :: 0 <= i < |r| ==> r[i] == entries[i].slot
  {
    if |entries| == 0 then [] else [entries[0].slot] + SlotsOf(entries[1..])
  }

  // ---------------------------------------------------------------- phases

  /** The share one tagged entry is offered by the first top-off loop, if any. */
  function TopOffShare(t: I.TaggedItem, d: ItemDef, viable: int, total: int, asWritten: bool): (here: seq<Entry>)
    ensures |here| <= 1 && Positive(here)
    ensures !asWritten && total < viable ==> Sum(here) <= viable - total
    ensures here != [] ==>
              here[0].slot == t.slot && t.id == d.id && !t.blocked && here[0].quantity < d.maxStack
              && here[0].quantity <= d.maxStack - t.quantity
  {
    var v := Min(if asWritten then viable else viable - total, d.maxStack - t.quantity);
    if t.id == d.id && !t.blocked && 0 < v < d.maxStack then [Entry(t.slot, v)] else []
  }

  /**
   * The first top-off loop: each unblocked tagged entry already holding the
   * item is offered what completes its stack, when that is a proper part of
   * a stack. `asWritten` caps each share by the whole viable quantity, as
   * the source does; otherwise by what is still left to distribute.
   */
  function TopOffTagged(tagged: seq<I.TaggedItem>, d: ItemDef, viable: int, total: int, asWritten: bool): (r: Fill)
    ensures r.total == total + Sum(r.entries) && Positive(r.entries)
    ensures AllTopUp(tagged, d, r.entries)
    ensures !asWritten && total <= viable ==> r.total <= viable
    decreases |tagged|
  {
    if |tagged| == 0 || total >= viable then Fill([], total)
    else
      var here := TopOffShare(tagged[0], d, viable, total, asWritten);
      var rest := TopOffTagged(tagged[1..], d, viable, total + Sum(here), asWritten);
      SumAppend(here, rest.entries);
      PositiveAppend(here, rest.entries);
      AllTopUpCons(tagged, d, here, rest.entries, here + rest.entries);
      Fill(here + rest.entries, rest.total)
  }

  /**
   * The second top-off loop: each container bundle of the item is offered
   * what completes its last partial stack. The container's bundle includes
   * what the tagged slots hold.
   */
  function TopOffGeneric(items: seq<ItemBundle>, d: ItemDef, viable: int, total: int): (r: Fill)
    requires d.maxStack >= 1
    ensures r.total == total + Sum(r.entries) && Positive(r.entries)
    ensures total <= viable ==> r.total <= viable
    ensures forall i :: 0 <= i < |r.entries| ==> r.entries[i].slot == EmptyTag
    decreases |items|
  {
    if |items| == 0 || total >= viable then Fill([], total)
    else
      var b := items[0];
      var remainder := CRem(b.quantity, d.maxStack);
      var needed := if remainder == 0 then 0 else d.maxStack - remainder;
      var v := Min(needed, viable - total);
      var here := if b.id == d.id && v > 0 then [Entry(EmptyTag, v)] else [];
      var rest := TopOffGeneric(items[1..], d, viable, total + Sum(here));
      SumAppend(here, rest.entries);
      PositiveAppend(here, rest.entries);
      Fill(here + rest.entries, rest.total)
  }

  /** The specialized-slot loop: slots already topped off are skipped. */
  function FillSpecialized(take: Tag -> int, slots: seq<Tag>, exclude: seq<Tag>, viable: int, total: int): (r: Fill)
    ensures r.total == total + Sum(r.entries) && Positive(r.entries)
    ensures total <= viable ==> r.total <= viable
    decreases |slots|
  {
    if |slots| == 0 || total >= viable then Fill([], total)
    else if slots[0] in exclude then
      var rest := FillSpecialized(take, slots[1..], exclude, viable, total);
      Fill(rest.entries, rest.total)
    else
      var v := Min(viable - total, take(slots[0]));
      var here := if v > 0 then [Entry(slots[0], v)] else [];
      var rest := FillSpecialized(take, slots[1..], exclude, viable, total + Sum(here));
      SumAppend(here, rest.entries);
      PositiveAppend(here, rest.entries);
      Fill(here + rest.entries, rest.total)
  }

  /**
   * One universal-slot loop. With `preferredOnly` only slots whose tag the
   * item itself carries are considered. A slot an earlier fill would block
   * is skipped; a fill that activates blocking adds the partner slot.
   */
  function FillUniversal(take: Tag -> int, d: ItemDef, slots: seq<I.UniversalSlot>, blocked: seq<Tag>,
                         viable: int, total: int, preferredOnly: bool): (r: UniversalFill)
    ensures r.total == total + Sum(r.entries) && Positive(r.entries)
    ensures total <= viable ==> r.total <= viable
    decreases |slots|
  {
    if |slots| == 0 || total >= viable then UniversalFill([], total, blocked)
    else
      var u := slots[0];
      if (preferredOnly && !HasTag(d.categories, u.slot)) || u.slot in blocked then
        FillUniversal(take, d, slots[1..], blocked, viable, total, preferredOnly)
      else
        var v := Min(viable - total, take(u.slot));
        var here := if v > 0 then [Entry(u.slot, v)] else [];
        var blocked' := if v > 0 && I.ActivatesBlocking(u, d) then blocked + [u.slotToBlock] else blocked;
        var rest := FillUniversal(take, d, slots[1..], blocked', viable, total + Sum(here), preferredOnly);
        SumAppend(here, rest.entries);
        PositiveAppend(here, rest.entries);
        UniversalFill(here + rest.entries, rest.total, rest.blocked)
  }

  /**
   * What Super::GetReceivableQuantity(ItemData) answers: the container's
   * generic slots alone, with the default arguments.
   */
  function ContainerCan(inv: I.Inventory, d: ItemDef): (r: int)
    requires WellFormed(d)
    ensures inv.container.usedSlots <= inv.container.maxSlotCount ==> r >= 0
    ensures r <= C.ReceivableByWeight(inv.container, d) && r <= C.ReceivableBySlots(inv.container, d)
  {
    C.GetReceivableQuantity(inv.container, d, INT32_MAX, true, false)
  }

  /**
   * GetReceivableQuantityForTaggedSlot(ItemData, Slot) with the default
   * arguments, as the planner asks it of each slot.
   */
  function SlotQuery(inv: I.Inventory, d: ItemDef): Tag -> int
  {
    (slot: Tag) => I.SlotTake(inv, d, slot)
  }

  /** Both top-off loops, run only for stackable items (stack size above one). */
  function TopOffs(inv: I.Inventory, d: ItemDef, viable: int, asWritten: bool): (r: Fill)
    requires WellFormed(d)
    ensures r.total == Sum(r.entries) && Positive(r.entries)
    ensures !asWritten && viable >= 0 ==> r.total <= viable
    ensures d.maxStack == 1 ==> r == Fill([], 0)
  {
    if d.maxStack > 1 then
      var tagged := TopOffTagged(inv.tagged, d, viable, 0, asWritten);
      var generic := TopOffGeneric(inv.container.items, d, viable, tagged.total);
      SumAppend(tagged.entries, generic.entries);
      Fill(tagged.entries + generic.entries, generic.total)
    else Fill([], 0)
  }

  /** The slots the first top-off loop used, which the specialized loop leaves alone. */
  function Excluded(inv: I.Inventory, d: ItemDef, viable: int, asWritten: bool): seq<Tag>
  {
    if d.maxStack > 1 then SlotsOf(TopOffTagged(inv.tagged, d, viable, 0, asWritten).entries) else []
  }

  /** Whatever is left at the end goes to the generic container, in one entry when positive. */
  function Finish(entries: seq<Entry>, generic: int, total: int, viable: int): (r: seq<Entry>)
    ensures Positive(entries) ==> Positive(r)
    ensures generic + (viable - total) >= 0 ==> Sum(r) == Sum(entries) + generic + (viable - total)
    ensures generic + (viable - total) <= 0 ==> r == entries
  {
    var g := generic + (viable - total);
    if g > 0 then
      SumAppend(entries, [Entry(EmptyTag, g)]);
      PositiveAppend(entries, [Entry(EmptyTag, g)]);
      entries + [Entry(EmptyTag, g)]
    else entries
  }

  /** The tagged rounds' entries, what they sent to the generic container, and the running total. */
  datatype Rounds = Rounds(entries: seq<Entry>, generic: int, total: int)

  /**
   * The tagged rounds: specialized slots, universal slots the item prefers,
   * the generic container's second turn (PreferSpecializedTaggedSlot only),
   * then every universal slot not blocked by an earlier fill.
   */
  function TaggedRounds(inv: I.Inventory, d: ItemDef, viable: int, policy: SlotPolicy, exclude: seq<Tag>,
                        total: int, can: int): (r: Rounds)
    ensures r.total == total + Sum(r.entries) + r.generic && Positive(r.entries)
    ensures total <= viable && can >= 0 ==> r.total <= viable && r.generic >= 0
  {
    var take := SlotQuery(inv, d);
    var s := FillSpecialized(take, inv.specialized, exclude, viable, total);
    var u1 := FillUniversal(take, d, inv.universal, [], viable, s.total, true);
    var g2 := if policy == PreferSpecializedTaggedSlot && u1.total < viable then Min(viable - u1.total, can) else 0;
    var u2 := FillUniversal(take, d, inv.universal, u1.blocked, viable, u1.total + g2, false);
    SumAppend(s.entries, u1.entries);
    SumAppend(s.entries + u1.entries, u2.entries);
    PositiveAppend(s.entries, u1.entries);
    PositiveAppend(s.entries + u1.entries, u2.entries);
    Rounds(s.entries + u1.entries + u2.entries, g2, u2.total)
  }

  /**
   * GetItemDistributionPlan, shared by the as-written and the corrected
   * planner: they differ only in how the first top-off loop caps a share.
   */
  function PlanWith(inv: I.Inventory, d: ItemDef, viable: int, policy: SlotPolicy, asWritten: bool): (r: seq<Entry>)
    requires WellFormed(d)
    ensures viable <= 0 ==> r == []
    ensures Positive(r)
    // the corrected planner hands out exactly the viable quantity
    ensures !asWritten && viable > 0 && inv.container.usedSlots <= inv.container.maxSlotCount ==> Sum(r) == viable
  {
    if viable <= 0 then []
    else PlanFrom(inv, d, viable, policy, asWritten, TopOffs(inv, d, viable, asWritten), ContainerCan(inv, d))
  }

  /** The plan after the top-offs: the generic container's first turn, then the tagged rounds if anything is left. */
  function PlanFrom(inv: I.Inventory, d: ItemDef, viable: int, policy: SlotPolicy, asWritten: bool,
                    tops: Fill, can: int): (r: seq<Entry>)
    requires tops.total == Sum(tops.entries) && Positive(tops.entries)
    ensures Positive(r)
    ensures tops.total <= viable && can >= 0 ==> Sum(r) == viable
  {
    var g1 := if policy == PreferGenericInventory then Min(viable - tops.total, can) else 0;
    if policy != PreferGenericInventory || tops.total + g1 < viable then
      PlanRounds(inv, d, viable, policy, asWritten, tops, g1, can)
    else
      Finish(tops.entries, g1, tops.total + g1, viable)
  }

  /** The rest of the plan once the tagged rounds run after the top-offs and the generic container's first turn. */
  function PlanRounds(inv: I.Inventory, d: ItemDef, viable: int, policy: SlotPolicy, asWritten: bool,
                      tops: Fill, g1: int, can: int): (r: seq<Entry>)
    requires tops.total == Sum(tops.entries) && Positive(tops.entries)
    ensures Positive(r)
    ensures tops.total + g1 <= viable && can >= 0 && g1 >= 0 ==> Sum(r) == viable
  {
    var rounds := TaggedRounds(inv, d, viable, policy, Excluded(inv, d, viable, asWritten), tops.total + g1, can);
    PositiveAppend(tops.entries, rounds.entries);
    SumAppend(tops.entries, rounds.entries);
    Finish(tops.entries + rounds.entries, g1 + rounds.generic, rounds.total, viable)
  }

  /** GetItemDistributionPlan as the source has it. */
  function GetItemDistributionPlanAsWritten(inv: I.Inventory, d: ItemDef, viable: int, policy: SlotPolicy): (r: seq<Entry>)
    requires WellFormed(d)
    ensures viable <= 0 ==> r == []
    ensures Positive(r)
  {
    PlanWith(inv, d, viable, policy, true)
  }

  /**
   * GetItemDistributionPlan with each top-off share capped by what is still
   * to be distributed. The plan hands out exactly the viable quantity, in
   * positive shares, whenever the container's generic slots are within
   * their limit.
   */
  function GetItemDistributionPlan(inv: I.Inventory, d: ItemDef, viable: int, policy: SlotPolicy): (r: seq<Entry>)
    requires WellFormed(d)
    ensures viable <= 0 ==> r == []
    ensures Positive(r)
    ensures viable > 0 && inv.container.usedSlots <= inv.container.maxSlotCount ==> Sum(r) == viable
  {
    PlanWith(inv, d, viable, policy, false)
  }

  // ------------------------------------------------------------ properties

  /**
   * Preferring the generic inventory keeps the item out of the tagged
   * slots (beyond topping off stacks) whenever the container's generic
   * slots can take the rest.
   */
  lemma PreferGenericStaysGeneric(inv: I.Inventory, d: ItemDef, viable: int)
    requires WellFormed(d) && viable > 0
    requires viable - TopOffs(inv, d, viable, false).total <= ContainerCan(inv, d)
    ensures var tops := TopOffs(inv, d, viable, false);
            GetItemDistributionPlan(inv, d, viable, PreferGenericInventory)
            == if viable - tops.total > 0 then tops.entries + [Entry(EmptyTag, viable - tops.total)] else tops.entries
  {
    var tops := TopOffs(inv, d, viable, false);
    var can := ContainerCan(inv, d);
    assert GetItemDistributionPlan(inv, d, viable, PreferGenericInventory)
        == PlanFrom(inv, d, viable, PreferGenericInventory, false, tops, can);
    PlanGenericBranch(inv, d, viable, tops, can);
  }

  /** With the generic container able to take what the top-offs left, no tagged round runs. */
  lemma PlanGenericBranch(inv: I.Inventory, d: ItemDef, viable: int, tops: Fill, can: int)
    requires tops.total == Sum(tops.entries) && Positive(tops.entries)
    requires viable - tops.total <= can
    ensures PlanFrom(inv, d, viable, PreferGenericInventory, false, tops, can)
            == if viable - tops.total > 0 then tops.entries + [Entry(EmptyTag, viable - tops.total)] else tops.entries
  {
  }

  /** Some unblocked entry holding the item sits in the share's slot and has room for the share on top. */
  predicate TopsUp(tagged: seq<I.TaggedItem>, d: ItemDef, e: Entry)
    decreases |tagged|
  {
    && |tagged| > 0
    && ((tagged[0].slot == e.slot && tagged[0].id == d.id && !tagged[0].blocked
         && e.quantity <= d.maxStack - tagged[0].quantity)
        || TopsUp(tagged[1..], d, e))
  }

  /** Every share is a proper part of a stack that tops off an entry holding the item. */
  predicate AllTopUp(tagged: seq<I.TaggedItem>, d: ItemDef, entries: seq<Entry>)
    decreases |entries|
  {
    |entries| == 0
    || (entries[0].quantity < d.maxStack && TopsUp(tagged, d, entries[0]) && AllTopUp(tagged, d, entries[1..]))
  }

  lemma {:induction false} AllTopUpTail(tagged: seq<I.TaggedItem>, d: ItemDef, entries: seq<Entry>)
    requires |tagged| > 0 && AllTopUp(tagged[1..], d, entries)
    ensures AllTopUp(tagged, d, entries)
    decreases |entries|
  {
    if |entries| > 0 {
      AllTopUpTail(tagged, d, entries[1..]);
    }
  }

  lemma AllTopUpCons(tagged: seq<I.TaggedItem>, d: ItemDef, here: seq<Entry>, rest: seq<Entry>, all: seq<Entry>)
    requires |tagged| > 0 && |here| <= 1 && all == here + rest && AllTopUp(tagged[1..], d, rest)
    requires here != [] ==>
               && |tagged| > 0 && here[0].slot == tagged[0].slot && tagged[0].id == d.id && !tagged[0].blocked
               && here[0].quantity < d.maxStack && here[0].quantity <= d.maxStack - tagged[0].quantity
    ensures AllTopUp(tagged, d, all)
  {
    AllTopUpTail(tagged, d, rest);
    if here != [] {
      assert all[1..] == rest;
    } else {
      assert all == rest;
    }
  }

  /** Every share goes to one of the slots, not an excluded one, and is one the slot would take. */
  predicate SpecializedShares(take: Tag -> int, slots: seq<Tag>, exclude: seq<Tag>, entries: seq<Entry>)
  {
    forall i :: 0 <= i < |entries| ==>
      entries[i].slot in slots && entries[i].slot !in exclude && entries[i].quantity <= take(entries[i].slot)
  }

  /** Every share of the specialized loop is one its slot would take, in a slot not topped off before. */
  lemma {:induction false} FillSpecializedFits(take: Tag -> int, slots: seq<Tag>, exclude: seq<Tag>, viable: int, total: int)
    ensures SpecializedShares(take, slots, exclude, FillSpecialized(take, slots, exclude, viable, total).entries)
    decreases |slots|
  {
    if |slots| > 0 && total < viable {
      if slots[0] in exclude {
        FillSpecializedFits(take, slots[1..], exclude, viable, total);
      } else {
        var v := Min(viable - total, take(slots[0]));
        var here := if v > 0 then [Entry(slots[0], v)] else [];
        FillSpecializedFits(take, slots[1..], exclude, viable, total + Sum(here));
        var rest := FillSpecialized(take, slots[1..], exclude, viable, total + Sum(here));
        var r := here + rest.entries;
        assert FillSpecialized(take, slots, exclude, viable, total).entries == r;
        forall i | |here| <= i < |r|
          ensures r[i].slot in slots && r[i].slot !in exclude && r[i].quantity <= take(r[i].slot)
        {
          assert r[i] == rest.entries[i - |here|];
        }
      }
    }
  }

  /** Every share goes to a slot not blocked before it, and is one the slot would take. */
  predicate UniversalShares(take: Tag -> int, blocked: seq<Tag>, entries: seq<Entry>)
  {
    forall i :: 0 <= i < |entries| ==>
      entries[i].slot !in blocked && entries[i].quantity <= take(entries[i].slot)
  }

  /** Every share of a universal loop is one its slot would take, never in a slot already blocked. */
  lemma {:induction false} FillUniversalFits(take: Tag -> int, d: ItemDef, slots: seq<I.UniversalSlot>, blocked: seq<Tag>,
                                             viable: int, total: int, preferredOnly: bool)
    ensures UniversalShares(take, blocked, FillUniversal(take, d, slots, blocked, viable, total, preferredOnly).entries)
    decreases |slots|
  {
    if |slots| > 0 && total < viable {
      var u := slots[0];
      if (preferredOnly && !HasTag(d.categories, u.slot)) || u.slot in blocked {
        FillUniversalFits(take, d, slots[1..], blocked, viable, total, preferredOnly);
      } else {
        var v := Min(viable - total, take(u.slot));
        var here := if v > 0 then [Entry(u.slot, v)] else [];
        var blocked' := if v > 0 && I.ActivatesBlocking(u, d) then blocked + [u.slotToBlock] else blocked;
        FillUniversalFits(take, d, slots[1..], blocked', viable, total + Sum(here), preferredOnly);
        var rest := FillUniversal(take, d, slots[1..], blocked', viable, total + Sum(here), preferredOnly);
        assert FillUniversal(take, d, slots, blocked, viable, total, preferredOnly).entries == here + rest.entries;
        SharesCons(take, blocked, blocked', here, rest.entries);
      }
    }
  }

  /** A share a slot takes, put in front of shares that avoid a longer blocked list, keeps the shares valid. */
  lemma SharesCons(take: Tag -> int, blocked: seq<Tag>, blocked': seq<Tag>, here: seq<Entry>, rest: seq<Entry>)
    requires |here| <= 1
    requires here != [] ==> here[0].slot !in blocked && here[0].quantity <= take(here[0].slot)
    requires forall s :: s in blocked ==> s in blocked'
    requires UniversalShares(take, blocked', rest)
    ensures UniversalShares(take, blocked, here + rest)
  {
    var r := here + rest;
    forall i | |here| <= i < |r|
      ensures r[i].slot !in blocked && r[i].quantity <= take(r[i].slot)
    {
      assert r[i] == rest[i - |here|];
    }
  }

  /** A universal loop only adds to the list of slots it will skip. */
  lemma {:induction false} FillUniversalKeepsBlocked(take: Tag -> int, d: ItemDef, slots: seq<I.UniversalSlot>,
                                                     blocked: seq<Tag>, viable: int, total: int, preferredOnly: bool,
                                                     s: Tag)
    requires s in blocked
    ensures s in FillUniversal(take, d, slots, blocked, viable, total, preferredOnly).blocked
    decreases |slots|
  {
    if |slots| > 0 && total < viable {
      var u := slots[0];
      if (preferredOnly && !HasTag(d.categories, u.slot)) || u.slot in blocked {
        FillUniversalKeepsBlocked(take, d, slots[1..], blocked, viable, total, preferredOnly, s);
      } else {
        var v := Min(viable - total, take(u.slot));
        var here := if v > 0 then [Entry(u.slot, v)] else [];
        var blocked' := if v > 0 && I.ActivatesBlocking(u, d) then blocked + [u.slotToBlock] else blocked;
        assert s in blocked';
        FillUniversalKeepsBlocked(take, d, slots[1..], blocked', viable, total + Sum(here), preferredOnly, s);
      }
    }
  }

  /** The hands of the test inventory holding four and one rocks. */
  const HandsWithRocks: I.Inventory := I.TestInventory.(
    container := C.Container([ItemBundle("Items.IDs.Rock", 5)], 100, 9, false, 5, 0),
    tagged := [I.TaggedItem("Hands.RightHand", "Items.IDs.Rock", 4, false),
               I.TaggedItem("Hands.LeftHand", "Items.IDs.Rock", 1, false)])

  /**
   * Three more rocks: the right hand is offered one, then the left hand is
   * offered min(3, 4) = 3 although only two are left, so the plan hands
   * out four. The corrected planner offers one and two.
   */
  lemma TopOffOvershoots()
    ensures GetItemDistributionPlanAsWritten(HandsWithRocks, I.TestRock, 3, PreferSpecializedTaggedSlot)
            == [Entry("Hands.RightHand", 1), Entry("Hands.LeftHand", 3)]
    ensures Sum(GetItemDistributionPlanAsWritten(HandsWithRocks, I.TestRock, 3, PreferSpecializedTaggedSlot)) == 4
    ensures GetItemDistributionPlan(HandsWithRocks, I.TestRock, 3, PreferSpecializedTaggedSlot)
            == [Entry("Hands.RightHand", 1), Entry("Hands.LeftHand", 2)]
  {
    var inv := HandsWithRocks;
    var d := I.TestRock;
    var written := [Entry("Hands.RightHand", 1), Entry("Hands.LeftHand", 3)];
    var corrected := [Entry("Hands.RightHand", 1), Entry("Hands.LeftHand", 2)];
    HandsTopOffs();
    HandsRounds();
    HandsPlans();
  }

  /** The plans the two top-offs lead to once the rounds have been run. */
  lemma HandsPlans()
    ensures var can := ContainerCan(HandsWithRocks, I.TestRock);
            var written := [Entry("Hands.RightHand", 1), Entry("Hands.LeftHand", 3)];
            var corrected := [Entry("Hands.RightHand", 1), Entry("Hands.LeftHand", 2)];
            && PlanFrom(HandsWithRocks, I.TestRock, 3, PreferSpecializedTaggedSlot, true, Fill(written, 4), can) == written
            && PlanFrom(HandsWithRocks, I.TestRock, 3, PreferSpecializedTaggedSlot, false, Fill(corrected, 3), can) == corrected
  {
    HandsRounds();
  }

  /** The top-offs of the two hands: one and three as written, one and two corrected. */
  lemma HandsTopOffs()
    ensures TopOffs(HandsWithRocks, I.TestRock, 3, true)
            == Fill([Entry("Hands.RightHand", 1), Entry("Hands.LeftHand", 3)], 4)
    ensures TopOffs(HandsWithRocks, I.TestRock, 3, false)
            == Fill([Entry("Hands.RightHand", 1), Entry("Hands.LeftHand", 2)], 3)
  {
    var inv := HandsWithRocks;
    var d := I.TestRock;
    assert TopOffTagged(inv.tagged[2..], d, 3, 4, true) == Fill([], 4);
    assert TopOffTagged(inv.tagged[1..], d, 3, 1, true) == Fill([Entry("Hands.LeftHand", 3)], 4);
    assert TopOffTagged(inv.tagged, d, 3, 0, true) == Fill([Entry("Hands.RightHand", 1), Entry("Hands.LeftHand", 3)], 4);
    assert TopOffTagged(inv.tagged[2..], d, 3, 3, false) == Fill([], 3);
    assert TopOffTagged(inv.tagged[1..], d, 3, 1, false) == Fill([Entry("Hands.LeftHand", 2)], 3);
    assert TopOffTagged(inv.tagged, d, 3, 0, false) == Fill([Entry("Hands.RightHand", 1), Entry("Hands.LeftHand", 2)], 3);
    assert [Entry("Hands.RightHand", 1), Entry("Hands.LeftHand", 3)] + [] == [Entry("Hands.RightHand", 1), Entry("Hands.LeftHand", 3)];
    assert [Entry("Hands.RightHand", 1), Entry("Hands.LeftHand", 2)] + [] == [Entry("Hands.RightHand", 1), Entry("Hands.LeftHand", 2)];
  }

  /** Once the top-offs have handed out the three rocks, the tagged rounds add nothing. */
  lemma HandsRounds()
    ensures TaggedRounds(HandsWithRocks, I.TestRock, 3, PreferSpecializedTaggedSlot,
                         Excluded(HandsWithRocks, I.TestRock, 3, true), 4, ContainerCan(HandsWithRocks, I.TestRock))
            == Rounds([], 0, 4)
    ensures TaggedRounds(HandsWithRocks, I.TestRock, 3, PreferSpecializedTaggedSlot,
                         Excluded(HandsWithRocks, I.TestRock, 3, false), 3, ContainerCan(HandsWithRocks, I.TestRock))
            == Rounds([], 0, 3)
  {
  }
}
