/**
 * The item container (UItemContainerComponent): one bundle per item id,
 * capacity limited by weight and by a slot count derived from stack sizes,
 * and the add / destroy / receive operations that keep both limits.
 *
 * `currentWeight` and `usedSlots` are caches the source recomputes in
 * UpdateWeightAndSlots; the capacity functions read the caches.
 */
module Container {
  import opened Tags
  import opened Wrappers
  import opened ItemData
  import opened Bundle

  datatype Container = Container(
    items: seq<ItemBundle>,
    maxWeight: int,
    maxSlotCount: int,
    jigsawMode: bool,
    currentWeight: int,
    usedSlots: int)

  /** The result of an operation: the new container and the quantity it moved (0 means refused). */
  datatype Outcome = Outcome(container: Container, quantity: int)

  // ---------------------------------------------------------------- lookup

  /** FindItemInstance: the index of the first bundle holding the id. */
  function FindIndex(items: seq<ItemBundle>, id: Tag): (r: Option<nat>)
    ensures r.Some? ==> r.value < |items| && items[r.value].id == id
    ensures r.Some? ==> forall j :: 0 <= j < r.value ==> items[j].id != id
    ensures r.None? ==> forall j :: 0 <= j < |items| ==> items[j].id != id
  {
    if |items| == 0 then None
    else if items[0].id == id then Some(0)
    else
      match FindIndex(items[1..], id)
      case None => None
      case Some(i) => Some(i + 1)
  }

  /** GetQuantityTotal: the quantity of the id's bundle, or 0 when it has none. */
  function QuantityTotal(items: seq<ItemBundle>, id: Tag): (r: int)
    ensures (forall j :: 0 <= j < |items| ==> items[j].id != id) ==> r == 0
    ensures forall j :: 0 <= j < |items| && items[j].id == id && FirstWithId(items, j) ==> r == items[j].quantity
  {
    match FindIndex(items, id)
    case None => 0
    case Some(i) => items[i].quantity
  }

  predicate FirstWithId(items: seq<ItemBundle>, j: int)
    requires 0 <= j < |items|
  {
    forall k :: 0 <= k < j ==> items[k].id != items[j].id
  }

  /** Contains: the id has a bundle holding at least `quantity`. */
  function Contains(items: seq<ItemBundle>, id: Tag, quantity: int): (r: bool)
    ensures r <==> exists j :: 0 <= j < |items| && items[j].id == id && FirstWithId(items, j) && items[j].quantity >= quantity
  {
    match FindIndex(items, id)
    case None => false
    case Some(i) => items[i].quantity >= quantity
  }

  /** The container keeps at most one bundle per id. */
  predicate UniqueIds(items: seq<ItemBundle>)
  {
    forall i, j :: 0 <= i < j < |items| ==> items[i].id != items[j].id
  }

  // ------------------------------------------------------- weight and slots

  /** What a bundle contributes to a cached total. */
  datatype Measure = Slots(jigsawMode: bool) | Weight

  /** Grid cells taken by `q` items: whole stacks times the footprint of one stack. */
  function StackSlots(q: int, d: ItemDef, jigsawMode: bool): int
    requires WellFormed(d)
  {
    CeilDiv(q, d.maxStack) * SlotsPerStack(d, jigsawMode)
  }

  /** A bundle whose item has no data contributes nothing, as in UpdateWeightAndSlots. */
  function Contribution(reg: Registry, m: Measure, b: ItemBundle): int
  {
    if b.id in reg && WellFormed(reg[b.id]) then
      match m
      case Slots(jigsaw) => StackSlots(b.quantity, reg[b.id], jigsaw)
      case Weight => reg[b.id].weight * b.quantity
    else 0
  }

  function SumOf(reg: Registry, m: Measure, items: seq<ItemBundle>): int
  {
    if |items| == 0 then 0 else Contribution(reg, m, items[0]) + SumOf(reg, m, items[1..])
  }

  lemma {:induction false} SumOfAppend(reg: Registry, m: Measure, items: seq<ItemBundle>, b: ItemBundle)
    ensures SumOf(reg, m, items + [b]) == SumOf(reg, m, items) + Contribution(reg, m, b)
  {
    if |items| > 0 {
      assert (items + [b])[1..] == items[1..] + [b];
      SumOfAppend(reg, m, items[1..], b);
    }
  }

  lemma {:induction false} SumOfUpdate(reg: Registry, m: Measure, items: seq<ItemBundle>, i: nat, b: ItemBundle)
    requires i < |items|
    ensures SumOf(reg, m, items[i := b]) == SumOf(reg, m, items) - Contribution(reg, m, items[i]) + Contribution(reg, m, b)
  {
    if i > 0 {
      assert items[i := b][1..] == items[1..][i - 1 := b];
      SumOfUpdate(reg, m, items[1..], i - 1, b);
    }
  }

  lemma {:induction false} SumOfRemove(reg: Registry, m: Measure, items: seq<ItemBundle>, i: nat)
    requires i < |items|
    ensures SumOf(reg, m, items[..i] + items[i + 1..]) == SumOf(reg, m, items) - Contribution(reg, m, items[i])
  {
    if i > 0 {
      assert (items[..i] + items[i + 1..])[1..] == items[1..][..i - 1] + items[1..][i..];
      SumOfRemove(reg, m, items[1..], i - 1);
    } else {
      assert items[..i] + items[i + 1..] == items[1..];
    }
  }

  /** UpdateWeightAndSlots: recompute both caches from the bundles. */
  function UpdateWeightAndSlots(reg: Registry, c: Container): (r: Container)
    ensures r.items == c.items && r.maxWeight == c.maxWeight && r.maxSlotCount == c.maxSlotCount
    ensures r.jigsawMode == c.jigsawMode
  {
    c.(usedSlots := SumOf(reg, Slots(c.jigsawMode), c.items), currentWeight := SumOf(reg, Weight, c.items))
  }

  /**
   * The state the container keeps between operations: caches that agree with
   * the bundles, both limits respected, one bundle per id, no negative stack.
   */
  predicate Consistent(reg: Registry, c: Container)
  {
    && RegistryWellFormed(reg)
    && UniqueIds(c.items)
    && (forall i :: 0 <= i < |c.items| ==> c.items[i].quantity >= 0)
    && c.usedSlots == SumOf(reg, Slots(c.jigsawMode), c.items)
    && c.currentWeight == SumOf(reg, Weight, c.items)
    && c.usedSlots <= c.maxSlotCount
    && c.currentWeight <= c.maxWeight
  }

  // -------------------------------------------------------------- capacity

  /** GetQuantityContainerCanReceiveByWeight. */
  function ReceivableByWeight(c: Container, d: ItemDef): (r: int)
    ensures d.weight <= 0 ==> r == INT32_MAX
    ensures d.weight > 0 ==> r >= 0
    // the largest count whose weight still fits
    ensures d.weight > 0 && r > 0 ==> c.currentWeight + r * d.weight <= c.maxWeight
    ensures d.weight > 0 ==> c.currentWeight + (r + 1) * d.weight > c.maxWeight
  {
    if d.weight <= 0 then INT32_MAX
    else
      var v := (c.maxWeight - c.currentWeight) / d.weight;
      if v > 0 then v else 0
  }

  /**
   * Items still needed to complete the last partial stack, for a stack size
   * above one (3/5 needs 2, 5/5 and 0/5 need none, 14/5 needs 1).
   */
  function TillNextFullStack(contained: int, maxStack: int): (r: int)
    requires maxStack >= 1
    ensures 0 <= r < maxStack
    ensures maxStack == 1 || contained <= 0 ==> r == 0
    ensures r > 0 ==> contained % maxStack != 0
  {
    if maxStack > 1 then
      if contained > 0 && contained % maxStack != 0 then maxStack - contained % maxStack else 0
    else 0
  }

  lemma TillNextFullStackExamples()
    ensures TillNextFullStack(3, 5) == 2 && TillNextFullStack(5, 5) == 0
    ensures TillNextFullStack(0, 5) == 0 && TillNextFullStack(14, 5) == 1
    ensures TillNextFullStack(7, 1) == 0
  {
  }

  /** Topping off the last partial stack lands exactly on a whole number of stacks. */
  lemma TillCompletesStack(q: int, m: int)
    requires q >= 0 && m >= 1
    ensures q + TillNextFullStack(q, m) == CeilDiv(q, m) * m
  {
    if q == 0 {
      CeilDivUnique(0, m, 0);
    } else if m == 1 {
      CeilDivUnique(q, 1, q);
    } else {
      var k := q / m;
      DivBounds(q, m);
      assert m * (k + 1) == m * k + m;
      if q % m == 0 {
        assert m * (k - 1) == m * k - m;
        CeilDivUnique(q, m, k);
      } else {
        assert q + TillNextFullStack(q, m) == m * (k + 1);
        CeilDivUnique(q, m, k + 1);
      }
    }
  }

  /** Euclidean division by a positive divisor, spelled out for the solver. */
  lemma DivBounds(a: int, b: int)
    requires b > 0
    ensures a == b * (a / b) + a % b && 0 <= a % b < b
    ensures b * (a / b) <= a < b * (a / b) + b
  {
  }

  /**
   * GetQuantityContainerCanReceiveBySlots as written: the product and sum
   * are int32 and wrap around.
   */
  function ReceivableBySlotsAsWritten(c: Container, d: ItemDef): (r: int)
    requires WellFormed(d)
    ensures INT32_MIN <= r <= INT32_MAX
    ensures INT32_MIN <= ReceivableBySlots(c, d) <= INT32_MAX ==> r == ReceivableBySlots(c, d)
  {
    Wrap32(CDiv(c.maxSlotCount - c.usedSlots, SlotsPerStack(d, c.jigsawMode)) * d.maxStack
           + TillNextFullStack(QuantityTotal(c.items, d.id), d.maxStack))
  }

  /**
   * With the default slot limit (MAX_int32) and a stack size of 2 the
   * headroom wraps to -2, so an empty container refuses the item.
   */
  lemma SlotHeadroomOverflows()
    ensures var c := Container([], 999999, INT32_MAX, false, 0, 0);
            var d := ItemDef("Items.IDs.Arrow", true, 2, 1, [], 1, 1, false);
            ReceivableBySlotsAsWritten(c, d) == -2 && ReceivableBySlots(c, d) == 0xffff_fffe
  {
  }

  /**
   * GetQuantityContainerCanReceiveBySlots computed without wrap-around: whole
   * free stacks plus the top-off of the item's partial stack.
   */
  function ReceivableBySlots(c: Container, d: ItemDef): (r: int)
    requires WellFormed(d)
    ensures c.usedSlots <= c.maxSlotCount ==> r >= TillNextFullStack(QuantityTotal(c.items, d.id), d.maxStack) >= 0
  {
    var stacks := CDiv(c.maxSlotCount - c.usedSlots, SlotsPerStack(d, c.jigsawMode));
    ProductNonNegative(stacks, d.maxStack);
    stacks * d.maxStack + TillNextFullStack(QuantityTotal(c.items, d.id), d.maxStack)
  }

  /** GetReceivableQuantity of the plain container (no validation delegate bound). */
  function GetReceivableQuantity(c: Container, d: ItemDef, requested: int, allowPartial: bool, swapBackAllowed: bool): (r: int)
    requires WellFormed(d)
    ensures r == 0 || r <= requested
    ensures r == 0 || r <= ReceivableByWeight(c, d)
    ensures !swapBackAllowed ==> r == 0 || r <= ReceivableBySlots(c, d)
    // an all-or-nothing request gets all or nothing
    ensures !allowPartial ==> r == 0 || r == requested
    ensures !allowPartial && requested > Min(ReceivableByWeight(c, d), ReceivableBySlots(c, d)) && !swapBackAllowed ==> r == 0
  {
    var byWeight := ReceivableByWeight(c, d);
    var bySlots0 := ReceivableBySlots(c, d);
    var bySlots := if swapBackAllowed && bySlots0 == 0 then d.maxStack else bySlots0;
    var viable := Min(bySlots, byWeight);
    if !allowPartial && viable < requested then 0 else Min(viable, requested)
  }

  // ------------------------------------------------ capacity is exact

  /** Adding `n` of an item: its bundle grows, or a new one is appended. */
  function AddToBundle(items: seq<ItemBundle>, id: Tag, n: int): (r: seq<ItemBundle>)
    ensures FindIndex(items, id).None? ==> r == items + [ItemBundle(id, n)]
    ensures FindIndex(items, id).Some? ==>
              var i := FindIndex(items, id).value; r == items[i := ItemBundle(id, items[i].quantity + n)]
  {
    match FindIndex(items, id)
    case None => items + [ItemBundle(id, n)]
    case Some(i) => items[i := ItemBundle(id, items[i].quantity + n)]
  }

  /** The limits hold once `n` more of the item are in. */
  predicate FitsAfterAdding(reg: Registry, c: Container, id: Tag, n: int)
  {
    var after := AddToBundle(c.items, id, n);
    SumOf(reg, Slots(c.jigsawMode), after) <= c.maxSlotCount && SumOf(reg, Weight, after) <= c.maxWeight
  }

  lemma AddToBundleSums(reg: Registry, m: Measure, items: seq<ItemBundle>, id: Tag, n: int)
    ensures SumOf(reg, m, AddToBundle(items, id, n))
            == SumOf(reg, m, items) - Contribution(reg, m, ItemBundle(id, QuantityTotal(items, id)))
               + Contribution(reg, m, ItemBundle(id, QuantityTotal(items, id) + n))
  {
    match FindIndex(items, id)
    case None =>
      SumOfAppend(reg, m, items, ItemBundle(id, n));
      assert Contribution(reg, m, ItemBundle(id, 0)) == 0 by {
        if id in reg && WellFormed(reg[id]) {
          assert CeilDiv(0, reg[id].maxStack) == 0;
        }
      }
    case Some(i) =>
      SumOfUpdate(reg, m, items, i, ItemBundle(id, items[i].quantity + n));
  }

  /** The headroom arithmetic: `n` more items fit in the free slots exactly when `n` is at most the headroom. */
  lemma SlotArithmetic(q: int, n: int, m: int, s: int, free: int)
    requires q >= 0 && n >= 0 && m >= 1 && s >= 1 && free >= 0
    ensures n <= (free / s) * m + TillNextFullStack(q, m) <==> (CeilDiv(q + n, m) - CeilDiv(q, m)) * s <= free
  {
    var k := CeilDiv(q, m);
    var a := free / s;
    var t := TillNextFullStack(q, m);
    TillCompletesStack(q, m);
    var c := CeilDiv(q + n, m);
    DivBounds(free, s);
    assert s * a <= free < s * a + s;
    assert (k + a) * m == k * m + a * m;
    assert s * (c - k) == (c - k) * s;
    if n <= a * m + t {
      CeilAtMost(q + n, m, k + a);
      MulMono(s, c - k, a);
    } else {
      CeilAtLeast(q + n, m, k + a);
      MulMono(s, a + 1, c - k);
      assert s * (a + 1) == s * a + s;
    }
  }

  lemma CeilAtMost(x: int, m: int, j: int)
    requires m >= 1 && x <= j * m
    ensures CeilDiv(x, m) <= j
  {
    var c := CeilDiv(x, m);
    if c > j {
      MulMono(m, j, c - 1);
    }
  }

  lemma CeilAtLeast(x: int, m: int, j: int)
    requires m >= 1 && x > j * m
    ensures CeilDiv(x, m) >= j + 1
  {
    var c := CeilDiv(x, m);
    if c < j + 1 {
      MulMono(m, c, j);
    }
  }

  lemma WeightArithmetic(c: Container, d: ItemDef, n: int)
    requires d.weight > 0 && n >= 1
    ensures n <= ReceivableByWeight(c, d) <==> c.currentWeight + n * d.weight <= c.maxWeight
  {
    var r := ReceivableByWeight(c, d);
    if n <= r {
      MulMono(d.weight, n, r);
    } else {
      MulMono(d.weight, r + 1, n);
    }
  }

  lemma SlotsAfterAdding(reg: Registry, c: Container, d: ItemDef, n: int)
    requires Consistent(reg, c) && d.id in reg && reg[d.id] == d && n >= 0
    ensures n <= ReceivableBySlots(c, d) <==> SumOf(reg, Slots(c.jigsawMode), AddToBundle(c.items, d.id, n)) <= c.maxSlotCount
  {
    var q := QuantityTotal(c.items, d.id);
    QuantityTotalNonNegative(c.items, d.id);
    AddToBundleSums(reg, Slots(c.jigsawMode), c.items, d.id, n);
    var s := SlotsPerStack(d, c.jigsawMode);
    var free := c.maxSlotCount - c.usedSlots;
    SlotArithmetic(q, n, d.maxStack, s, free);
    StackSlotsDifference(q, n, d, c.jigsawMode);
  }

  lemma StackSlotsDifference(q: int, n: int, d: ItemDef, jigsaw: bool)
    requires WellFormed(d)
    ensures StackSlots(q + n, d, jigsaw) - StackSlots(q, d, jigsaw)
            == (CeilDiv(q + n, d.maxStack) - CeilDiv(q, d.maxStack)) * SlotsPerStack(d, jigsaw)
  {
    var s := SlotsPerStack(d, jigsaw);
    assert (CeilDiv(q + n, d.maxStack) - CeilDiv(q, d.maxStack)) * s
           == CeilDiv(q + n, d.maxStack) * s - CeilDiv(q, d.maxStack) * s;
  }

  lemma QuantityTotalNonNegative(items: seq<ItemBundle>, id: Tag)
    requires forall i :: 0 <= i < |items| ==> items[i].quantity >= 0
    ensures QuantityTotal(items, id) >= 0
  {
    match FindIndex(items, id)
    case None =>
    case Some(i) =>
  }

  lemma WeightAfterAdding(reg: Registry, c: Container, d: ItemDef, n: int)
    requires Consistent(reg, c) && d.id in reg && reg[d.id] == d
    ensures SumOf(reg, Weight, AddToBundle(c.items, d.id, n)) == c.currentWeight + n * d.weight
  {
    AddToBundleSums(reg, Weight, c.items, d.id, n);
    var q := QuantityTotal(c.items, d.id);
    assert d.weight * (q + n) == d.weight * q + n * d.weight;
  }

  /**
   * Every quantity the container reports as receivable fits: after adding it
   * neither the slot limit nor the weight limit is exceeded.
   */
  lemma ReceivableFits(reg: Registry, c: Container, d: ItemDef, requested: int, allowPartial: bool, n: int)
    requires Consistent(reg, c) && d.id in reg && reg[d.id] == d
    requires 1 <= n <= GetReceivableQuantity(c, d, requested, allowPartial, false)
    ensures FitsAfterAdding(reg, c, d.id, n)
  {
    SlotsAfterAdding(reg, c, d, n);
    WeightAfterAdding(reg, c, d, n);
    if d.weight > 0 {
      WeightArithmetic(c, d, n);
    } else {
      assert n * d.weight == 0;
    }
  }

  /** Conversely, any requested quantity that fits is receivable: the capacity answer is exact. */
  lemma FitsIsReceivable(reg: Registry, c: Container, d: ItemDef, requested: int, n: int)
    requires Consistent(reg, c) && d.id in reg && reg[d.id] == d
    requires 1 <= n <= requested <= INT32_MAX
    requires FitsAfterAdding(reg, c, d.id, n)
    ensures n <= GetReceivableQuantity(c, d, requested, true, false)
  {
    SlotsAfterAdding(reg, c, d, n);
    WeightAfterAdding(reg, c, d, n);
    if d.weight > 0 {
      WeightArithmetic(c, d, n);
    }
  }

  // ------------------------------------------------------------ operations

  /**
   * The bookkeeping half of AddItemWithInstances_IfServer once the source
   * has handed over `got` items: grow or create the bundle, refresh caches.
   */
  function AddExtracted(reg: Registry, c: Container, id: Tag, got: int): (r: Container)
    ensures QuantityTotal(r.items, id) == QuantityTotal(c.items, id) + got
    ensures forall other :: other != id ==> QuantityTotal(r.items, other) == QuantityTotal(c.items, other)
    ensures |r.items| == |c.items| + (if FindIndex(c.items, id).Some? then 0 else 1)
    ensures r.maxWeight == c.maxWeight && r.maxSlotCount == c.maxSlotCount && r.jigsawMode == c.jigsawMode
  {
    var items := AddToBundle(c.items, id, got);
    AddToBundleTotals(c.items, id, got);
    UpdateWeightAndSlots(reg, c.(items := items))
  }

  lemma AddToBundleTotals(items: seq<ItemBundle>, id: Tag, n: int)
    ensures QuantityTotal(AddToBundle(items, id, n), id) == QuantityTotal(items, id) + n
    ensures forall other :: other != id ==> QuantityTotal(AddToBundle(items, id, n), other) == QuantityTotal(items, other)
  {
    var after := AddToBundle(items, id, n);
    forall other
      ensures FindIndex(after, other) == (if other == id && FindIndex(items, id).None? then Some(|items|) else FindIndex(items, other))
    {
      FindIndexSameIds(items, after, other);
    }
  }

  /** Bundles with the same ids in the same order (plus possibly one appended) are searched alike. */
  lemma {:induction false} FindIndexSameIds(items: seq<ItemBundle>, after: seq<ItemBundle>, x: Tag)
    requires |after| == |items| || |after| == |items| + 1
    requires forall k :: 0 <= k < |items| ==> after[k].id == items[k].id
    ensures FindIndex(items, x).Some? ==> FindIndex(after, x) == FindIndex(items, x)
    ensures FindIndex(items, x).None? && |after| == |items| ==> FindIndex(after, x).None?
    ensures FindIndex(items, x).None? && |after| == |items| + 1 ==>
              FindIndex(after, x) == (if after[|items|].id == x then Some(|items|) else None)
  {
    var t := FindIndex(items, x);
    var n := if t.Some? then t.value else |items|;
    forall j | 0 <= j < n
      ensures after[j].id != x
    {
      assert after[j].id == items[j].id;
    }
    if t.Some? {
      assert after[n].id == x;
    }
  }

  /**
   * AddItemWithInstances_IfServer. `instanceCount` is the number of specific
   * instances asked for (0 for a plain quantity), and `extract` is the item
   * source's ExtractItem, given the quantity it is asked for.
   */
  function AddItem(reg: Registry, c: Container, id: Tag, requested: int, instanceCount: nat,
                   allowPartial: bool, extract: int -> int): (r: Outcome)
    requires RegistryWellFormed(reg)
    ensures r.quantity <= 0 ==> r == Outcome(c, 0)
    ensures !IsValid(id) || id !in reg ==> r.quantity == 0
    ensures instanceCount == 0 && requested <= 0 ==> r.quantity == 0
    ensures r.quantity > 0 ==> r.quantity == extract(Min(requested, GetReceivableQuantity(c, reg[id],
              if instanceCount > 0 then instanceCount else requested, allowPartial, false)))
    // only what the source actually hands over is added, to the id's bundle alone
    ensures r.quantity > 0 ==> r.container == AddExtracted(reg, c, id, r.quantity)
    ensures r.quantity > 0 ==> QuantityTotal(r.container.items, id) == QuantityTotal(c.items, id) + r.quantity
    ensures r.quantity > 0 && instanceCount > 0 ==> r.quantity == instanceCount
  {
    if !IsValid(id) || id !in reg then Outcome(c, 0)
    else
      var d := reg[id];
      var toValidate := if instanceCount > 0 then instanceCount else requested;
      if toValidate <= 0 then Outcome(c, 0)
      else
        var viable := Min(requested, GetReceivableQuantity(c, d, toValidate, allowPartial, false));
        if viable <= 0 || (viable < toValidate && !allowPartial) then Outcome(c, 0)
        else
          var got := extract(viable);
          if got <= 0 then Outcome(c, 0)
          else if instanceCount > 0 && got != instanceCount then Outcome(c, 0)
          else Outcome(AddExtracted(reg, c, id, got), got)
  }

  /**
   * An add leaves a consistent container consistent when the source never
   * hands over more than it is asked for.
   */
  lemma AddItemKeepsLimits(reg: Registry, c: Container, id: Tag, requested: int, instanceCount: nat,
                           allowPartial: bool, extract: int -> int)
    requires Consistent(reg, c) && (id in reg ==> reg[id].id == id)
    requires forall k :: extract(k) <= k
    ensures Consistent(reg, AddItem(reg, c, id, requested, instanceCount, allowPartial, extract).container)
  {
    var r := AddItem(reg, c, id, requested, instanceCount, allowPartial, extract);
    if r.quantity > 0 {
      var d := reg[id];
      var toValidate := if instanceCount > 0 then instanceCount else requested;
      var viable := Min(requested, GetReceivableQuantity(c, d, toValidate, allowPartial, false));
      assert r.quantity == extract(viable) <= viable;
      ReceivableFits(reg, c, d, toValidate, allowPartial, r.quantity);
      AddedKeepsShape(reg, c, id, r.quantity);
    }
  }

  lemma AddedKeepsShape(reg: Registry, c: Container, id: Tag, n: int)
    requires Consistent(reg, c) && n >= 1 && FitsAfterAdding(reg, c, id, n)
    ensures Consistent(reg, AddExtracted(reg, c, id, n))
  {
    var after := AddToBundle(c.items, id, n);
    match FindIndex(c.items, id)
    case None =>
      assert forall i :: 0 <= i < |c.items| ==> after[i] == c.items[i];
    case Some(i) =>
  }

  /** The bundle list with one bundle taken out, as TArray::RemoveSingle leaves it. */
  function RemoveAt(items: seq<ItemBundle>, i: nat): (r: seq<ItemBundle>)
    requires i < |items|
    ensures |r| == |items| - 1
    ensures forall j :: 0 <= j < |r| ==> r[j] == (if j < i then items[j] else items[j + 1])
  {
    items[..i] + items[i + 1..]
  }

  /**
   * DestroyItemImpl for a plain quantity: refuse an unknown id or a
   * non-partial request for more than is held, else remove up to the
   * requested amount and drop the bundle once it is empty.
   */
  function DestroyItem(reg: Registry, c: Container, id: Tag, quantity: int, allowPartial: bool): (r: Outcome)
    ensures FindIndex(c.items, id).None? ==> r == Outcome(c, 0)
    ensures !allowPartial && QuantityTotal(c.items, id) < quantity ==> r == Outcome(c, 0)
    ensures FindIndex(c.items, id).Some? && (allowPartial || quantity <= QuantityTotal(c.items, id)) ==>
              && r.quantity == Max(0, Min(quantity, QuantityTotal(c.items, id)))
              && (QuantityTotal(c.items, id) - r.quantity > 0 ==>
                    QuantityTotal(r.container.items, id) == QuantityTotal(c.items, id) - r.quantity)
              // an emptied bundle leaves the list
              && (UniqueIds(c.items) && QuantityTotal(c.items, id) - r.quantity <= 0 ==>
                    FindIndex(r.container.items, id).None?)
    ensures forall other :: other != id ==> QuantityTotal(r.container.items, other) == QuantityTotal(c.items, other)
  {
    match FindIndex(c.items, id)
    case None => Outcome(c, 0)
    case Some(i) =>
      var held := c.items[i].quantity;
      if !allowPartial && held < quantity then Outcome(c, 0)
      else
        var removed := Max(0, Min(quantity, held));
        var left := held - removed;
        if left <= 0 then
          RemoveTotals(c.items, i);
          Outcome(UpdateWeightAndSlots(reg, c.(items := RemoveAt(c.items, i))), removed)
        else
          var items := c.items[i := ItemBundle(id, left)];
          forall other { FindIndexSameIds(c.items, items, other); }
          Outcome(UpdateWeightAndSlots(reg, c.(items := items)), removed)
  }

  lemma RemoveTotals(items: seq<ItemBundle>, i: nat)
    requires i < |items| && FindIndex(items, items[i].id) == Some(i)
    ensures forall other :: other != items[i].id ==> QuantityTotal(RemoveAt(items, i), other) == QuantityTotal(items, other)
    ensures UniqueIds(items) ==> FindIndex(RemoveAt(items, i), items[i].id).None?
  {
    forall other | other != items[i].id
      ensures QuantityTotal(RemoveAt(items, i), other) == QuantityTotal(items, other)
    {
      RemoveKeepsOther(items, i, other);
    }
  }

  lemma RemoveKeepsOther(items: seq<ItemBundle>, i: nat, other: Tag)
    requires i < |items| && other != items[i].id
    ensures QuantityTotal(RemoveAt(items, i), other) == QuantityTotal(items, other)
  {
    var after := RemoveAt(items, i);
    match FindIndex(items, other)
    case None =>
      assert FindIndex(after, other).None?;
    case Some(k) =>
      var k' := if k < i then k else k - 1;
      assert after[k'] == items[k];
      assert FindIndex(after, other) == Some(k');
  }

  /** A destroy leaves a consistent container consistent. */
  lemma DestroyKeepsLimits(reg: Registry, c: Container, id: Tag, quantity: int, allowPartial: bool)
    requires Consistent(reg, c)
    ensures Consistent(reg, DestroyItem(reg, c, id, quantity, allowPartial).container)
  {
    match FindIndex(c.items, id)
    case None =>
    case Some(i) =>
      var held := c.items[i].quantity;
      if allowPartial || held >= quantity {
        var removed := Max(0, Min(quantity, held));
        var left := held - removed;
        var b := c.items[i];
        if left <= 0 {
          DestroyRemoveKeepsLimits(reg, c, i);
        } else {
          DestroyShrinkKeepsLimits(reg, c, i, left);
        }
      }
  }

  lemma DestroyShrinkKeepsLimits(reg: Registry, c: Container, i: nat, left: int)
    requires Consistent(reg, c) && i < |c.items| && 0 < left <= c.items[i].quantity
    ensures Consistent(reg, UpdateWeightAndSlots(reg, c.(items := c.items[i := ItemBundle(c.items[i].id, left)])))
  {
    var nb := ItemBundle(c.items[i].id, left);
    SumOfUpdate(reg, Slots(c.jigsawMode), c.items, i, nb);
    SumOfUpdate(reg, Weight, c.items, i, nb);
    ContributionMonotone(reg, c.jigsawMode, nb, c.items[i]);
    assert forall j :: 0 <= j < |c.items| && j != i ==> c.items[i := nb][j] == c.items[j];
  }

  lemma DestroyRemoveKeepsLimits(reg: Registry, c: Container, i: nat)
    requires Consistent(reg, c) && i < |c.items|
    ensures Consistent(reg, UpdateWeightAndSlots(reg, c.(items := RemoveAt(c.items, i))))
  {
    SumOfRemove(reg, Slots(c.jigsawMode), c.items, i);
    SumOfRemove(reg, Weight, c.items, i);
    ContributionNonNegative(reg, c.jigsawMode, c.items[i]);
  }

  lemma ContributionNonNegative(reg: Registry, jigsaw: bool, b: ItemBundle)
    requires b.quantity >= 0
    ensures Contribution(reg, Slots(jigsaw), b) >= 0 && Contribution(reg, Weight, b) >= 0
  {
    if b.id in reg && WellFormed(reg[b.id]) {
      var d := reg[b.id];
      assert CeilDiv(b.quantity, d.maxStack) >= 0;
    }
  }

  lemma ContributionMonotone(reg: Registry, jigsaw: bool, small: ItemBundle, large: ItemBundle)
    requires small.id == large.id && 0 <= small.quantity <= large.quantity
    ensures Contribution(reg, Slots(jigsaw), small) <= Contribution(reg, Slots(jigsaw), large)
    ensures Contribution(reg, Weight, small) <= Contribution(reg, Weight, large)
  {
    if small.id in reg && WellFormed(reg[small.id]) {
      var d := reg[small.id];
      var a := CeilDiv(small.quantity, d.maxStack);
      var b := CeilDiv(large.quantity, d.maxStack);
      if a > b {
        MulMono(d.maxStack, b, a - 1);
      }
      MulMono(SlotsPerStack(d, jigsaw), a, b);
      MulMono(d.weight, small.quantity, large.quantity);
    }
  }

  /** Instances handed over, counted as those that are not null. */
  function CountPresent(instances: seq<bool>): (r: nat)
    ensures r <= |instances|
  {
    if |instances| == 0 then 0 else (if instances[0] then 1 else 0) + CountPresent(instances[1..])
  }

  /**
   * ReceiveExtractedItems_IfServer: `instances` flags which handed-over
   * instance pointers are set. Missing item data is refused with 0.
   */
  function ReceiveExtractedItems(reg: Registry, c: Container, id: Tag, quantity: int, instances: seq<bool>): (r: Outcome)
    requires RegistryWellFormed(reg)
    ensures r.quantity <= 0 ==> r == Outcome(c, 0)
    ensures r.quantity > 0 ==> IsValid(id) && id in reg
    ensures r.quantity > 0 ==> r.quantity <= GetReceivableQuantity(c, reg[id], INT32_MAX, true, false)
    ensures r.quantity > 0 ==> r.quantity <= (if |instances| > 0 then |instances| else quantity)
    ensures r.quantity > 0 ==> r.container == AddExtracted(reg, c, id, r.quantity)
    ensures id in reg && reg[id].usesInstances && |instances| == 0 ==> r.quantity == 0
  {
    if !IsValid(id) || id !in reg then Outcome(c, 0)
    else
      var d := reg[id];
      if d.usesInstances && |instances| == 0 then Outcome(c, 0)
      else
        var receivable := GetReceivableQuantity(c, d, INT32_MAX, true, false);
        var toReceive := if |instances| > 0 then Min(|instances|, receivable) else Min(receivable, quantity);
        if toReceive <= 0 then Outcome(c, 0)
        else
          var received := if d.usesInstances then CountPresent(instances[..toReceive]) else toReceive;
          if received <= 0 then Outcome(c, 0)
          else Outcome(AddExtracted(reg, c, id, received), received)
  }

  /** Receiving handed-over items leaves a consistent container consistent. */
  lemma ReceiveKeepsLimits(reg: Registry, c: Container, id: Tag, quantity: int, instances: seq<bool>)
    requires Consistent(reg, c) && (id in reg ==> reg[id].id == id)
    ensures Consistent(reg, ReceiveExtractedItems(reg, c, id, quantity, instances).container)
  {
    var r := ReceiveExtractedItems(reg, c, id, quantity, instances);
    if r.quantity > 0 {
      ReceivableFits(reg, c, reg[id], INT32_MAX, true, r.quantity);
      AddedKeepsShape(reg, c, id, r.quantity);
    }
  }
}
