/**
 * The client-side grid over a container (UContainerGridViewModel): a fixed
 * number of visual slots that lay the container's per-item totals out as
 * stacks. The view model predicts moves locally, confirms or repairs them when
 * the container's add/remove events arrive, and can check that the grid still
 * agrees with the container.
 *
 * Slot-updated broadcasts are not modelled; ForceFullGridUpdate is reported as
 * a `resync` flag rather than performed.
 */
module ContainerGrid {
  import opened Tags
  import opened Wrappers
  import opened ItemData
  import opened Bundle
  import opened SlotMove
  import opened Container
  import opened ChangeDetection

  // ------------------------------------------------------------ grid shape

  /** Every visual slot is either the empty bundle or a stack of at least one item. */
  predicate Tidy(grid: seq<ItemBundle>)
  {
    forall i :: 0 <= i < |grid| ==> if Valid(grid[i]) then grid[i].quantity > 0 else grid[i] == Empty
  }

  /** The slot shows item `x`. */
  predicate Holds(b: ItemBundle, x: Tag)
  {
    Valid(b) && b.id == x
  }

  /** What one slot contributes to the grid's total of `x`. */
  function Count(b: ItemBundle, x: Tag): int
  {
    if Holds(b, x) then b.quantity else 0
  }

  /** The total of `x` the grid shows, summed over the slots holding it. */
  function GridSum(grid: seq<ItemBundle>, x: Tag): int
  {
    if |grid| == 0 then 0 else GridSum(grid[..|grid| - 1], x) + Count(grid[|grid| - 1], x)
  }

  /** Some slot shows `x`. */
  ghost predicate Shows(grid: seq<ItemBundle>, x: Tag)
  {
    exists i :: 0 <= i < |grid| && Holds(grid[i], x)
  }

  lemma {:induction false} GridSumUpdate(grid: seq<ItemBundle>, i: nat, b: ItemBundle, x: Tag)
    requires i < |grid|
    ensures GridSum(grid[i := b], x) == GridSum(grid, x) - Count(grid[i], x) + Count(b, x)
  {
    var n := |grid|;
    if i < n - 1 {
      assert grid[i := b][..n - 1] == grid[..n - 1][i := b];
      GridSumUpdate(grid[..n - 1], i, b, x);
    } else {
      assert grid[i := b][..n - 1] == grid[..n - 1];
    }
  }

  /** On a tidy grid the total of `x` is positive exactly when some slot shows it, and never negative. */
  lemma {:induction false} GridSumSign(grid: seq<ItemBundle>, x: Tag)
    requires Tidy(grid)
    ensures GridSum(grid, x) >= 0
    ensures Shows(grid, x) <==> GridSum(grid, x) > 0
  {
    if |grid| > 0 {
      var n := |grid|;
      var pre := grid[..n - 1];
      GridSumSign(pre, x);
      if Shows(pre, x) {
        var i :| 0 <= i < |pre| && Holds(pre[i], x);
        assert Holds(grid[i], x);
      }
      if Holds(grid[n - 1], x) {
        assert Shows(grid, x);
      }
      if Shows(grid, x) {
        var i :| 0 <= i < n && Holds(grid[i], x);
        if i < n - 1 {
          assert Holds(pre[i], x);
        }
      }
    }
  }

  // ------------------------------------------------------------ finding a slot

  /** A stack of `id` that still has room, for an item that stacks beyond one. */
  predicate PartialStack(d: ItemDef, b: ItemBundle, id: Tag)
  {
    Holds(b, id) && d.maxStack > 1 && b.quantity < d.maxStack
  }

  /**
   * The scan from `index` on, with the first empty slot seen so far: the
   * first partial stack ends the scan, otherwise the first empty slot wins.
   */
  function ScanFrom(grid: seq<ItemBundle>, d: ItemDef, id: Tag, index: nat, firstEmpty: int): (r: int)
    requires index <= |grid|
    requires -1 <= firstEmpty < index
    requires forall j :: 0 <= j < index ==> !PartialStack(d, grid[j], id)
    requires firstEmpty == -1 ==> forall j :: 0 <= j < index ==> Valid(grid[j])
    requires firstEmpty >= 0 ==> !Valid(grid[firstEmpty]) && forall j :: 0 <= j < firstEmpty ==> Valid(grid[j])
    ensures -1 <= r < |grid|
    ensures (exists i :: 0 <= i < |grid| && PartialStack(d, grid[i], id)) ==>
              r >= 0 && PartialStack(d, grid[r], id) && forall j :: 0 <= j < r ==> !PartialStack(d, grid[j], id)
    ensures (forall i :: 0 <= i < |grid| ==> !PartialStack(d, grid[i], id)) ==>
              && (r == -1 ==> forall j :: 0 <= j < |grid| ==> Valid(grid[j]))
              && (r >= 0 ==> !Valid(grid[r]) && forall j :: 0 <= j < r ==> Valid(grid[j]))
    decreases |grid| - index
  {
    if index == |grid| then firstEmpty
    else if !Valid(grid[index]) then
      ScanFrom(grid, d, id, index + 1, if firstEmpty == -1 then index else firstEmpty)
    else if PartialStack(d, grid[index], id) then index
    else ScanFrom(grid, d, id, index + 1, firstEmpty)
  }

  /**
   * FindGridSlotIndexForItem: the first stack of the item that is not full,
   * else the first empty slot, else -1; -1 also for an invalid id or an
   * unknown item. The quantity argument of the source is never read.
   */
  function FindGridSlotIndexForItem(reg: Registry, grid: seq<ItemBundle>, id: Tag): (r: int)
    ensures -1 <= r < |grid|
    ensures r >= 0 ==> IsValid(id) && id in reg
    ensures IsValid(id) && id in reg ==>
              && ((exists i :: 0 <= i < |grid| && PartialStack(reg[id], grid[i], id)) ==>
                    r >= 0 && PartialStack(reg[id], grid[r], id)
                    && forall j :: 0 <= j < r ==> !PartialStack(reg[id], grid[j], id))
              && ((forall i :: 0 <= i < |grid| ==> !PartialStack(reg[id], grid[i], id)) ==>
                    && (r == -1 ==> forall j :: 0 <= j < |grid| ==> Valid(grid[j]))
                    && (r >= 0 ==> !Valid(grid[r]) && forall j :: 0 <= j < r ==> Valid(grid[j])))
  {
    if !IsValid(id) || id !in reg then -1
    else ScanFrom(grid, reg[id], id, 0, -1)
  }

  // ------------------------------------------------------------ receiving

  /**
   * CanGridSlotReceiveItem. The container's own CanContainerReceiveItems
   * answer is a parameter.
   */
  function CanGridSlotReceiveItem(reg: Registry, grid: seq<ItemBundle>, id: Tag, quantity: int, index: int,
                                  containerCanReceive: bool): (r: bool)
    // refusals: out of range, nothing to receive, invalid or unknown item, container full, different item
    ensures r ==> 0 <= index < |grid| && quantity > 0 && IsValid(id) && id in reg && containerCanReceive
    ensures r ==> !Valid(grid[index]) || grid[index].id == id
    // acceptance is exactly "the stack after receiving stays within the stack size"
    ensures (0 <= index < |grid| && quantity > 0 && IsValid(id) && id in reg && containerCanReceive
             && (!Valid(grid[index]) || grid[index].id == id)) ==>
              (r <==> if reg[id].maxStack > 1 then grid[index].quantity + quantity <= reg[id].maxStack
                      else !Valid(grid[index]) && quantity <= 1)
  {
    if !(0 <= index < |grid|) || quantity <= 0 || !IsValid(id) then false
    else if !containerCanReceive then false
    else
      var target := grid[index];
      var targetEmpty := !Valid(target);
      if targetEmpty || target.id == id then
        if id !in reg then false
        else
          var d := reg[id];
          var availableSpace := if d.maxStack > 1 then d.maxStack - target.quantity
                                else if targetEmpty then 1 else 0;
          availableSpace >= quantity
      else false
  }

  /**
   * The slot the finder picks can take one more of the item, and when the
   * finder gives up no slot can take even one.
   */
  lemma FoundSlotReceivesOne(reg: Registry, grid: seq<ItemBundle>, id: Tag)
    requires Tidy(grid)
    ensures var r := FindGridSlotIndexForItem(reg, grid, id);
            && (r >= 0 ==> CanGridSlotReceiveItem(reg, grid, id, 1, r, true))
            && (r == -1 ==> forall i :: !CanGridSlotReceiveItem(reg, grid, id, 1, i, true))
  {
    var r := FindGridSlotIndexForItem(reg, grid, id);
    if IsValid(id) && id in reg && r == -1 {
      forall i | 0 <= i < |grid|
        ensures !CanGridSlotReceiveItem(reg, grid, id, 1, i, true)
      {
        assert !PartialStack(reg[id], grid[i], id);
      }
    }
  }

  // ------------------------------------------------------------ moving in the grid

  datatype GridMove = GridMove(grid: seq<ItemBundle>, ok: bool)

  /**
   * MoveItemInGrid_Internal: a move (the whole source stack) or a split (an
   * exact quantity) between two grid slots, predicted locally through the
   * slot-to-slot kernel. Only a full move may be partial; a split is all or
   * nothing. `linked` says whether a container is attached.
   */
  function MoveItemInGrid(reg: Registry, linked: bool, grid: seq<ItemBundle>, source: int, target: int,
                          quantity: int, isSplit: bool): (r: GridMove)
    ensures |r.grid| == |grid|
    ensures !r.ok ==> r.grid == grid
    ensures r.ok ==> linked && 0 <= source < |grid| && 0 <= target < |grid| && source != target
    ensures r.ok ==> Valid(grid[source]) && grid[source].id in reg
    ensures r.ok ==> forall i :: 0 <= i < |grid| && i != source && i != target ==> r.grid[i] == grid[i]
    // a split never takes more than the source holds
    ensures r.ok && isSplit ==> 0 < quantity <= grid[source].quantity
    // a partial split lands exactly `quantity` on the target's stack of the same item
    ensures r.ok && isSplit && quantity < grid[source].quantity ==>
              r.grid[target] == ItemBundle(grid[source].id, grid[target].quantity + quantity)
              && r.grid[source] == grid[source].(quantity := grid[source].quantity - quantity)
  {
    if !linked || !(0 <= source < |grid|) || !(0 <= target < |grid|) || source == target then GridMove(grid, false)
    else
      var s := grid[source];
      var t := grid[target];
      if !Valid(s) then GridMove(grid, false)
      else
        var toMove := if isSplit then quantity else s.quantity;
        if toMove <= 0 then GridMove(grid, false)
        else if isSplit && toMove > s.quantity then GridMove(grid, false)
        else
          var m := MoveBetweenSlots(reg, s, t, false, toMove, !isSplit);
          if m.moved > 0 || m.swapped then GridMove(grid[source := m.source][target := m.target], true)
          else GridMove(grid, false)
  }

  /** A grid move keeps the grid tidy and every item's total unchanged. */
  lemma MoveConservesTotals(reg: Registry, linked: bool, grid: seq<ItemBundle>, source: int, target: int,
                            quantity: int, isSplit: bool)
    requires Tidy(grid)
    ensures var r := MoveItemInGrid(reg, linked, grid, source, target, quantity, isSplit);
            Tidy(r.grid) && forall x :: GridSum(r.grid, x) == GridSum(grid, x)
  {
    var r := MoveItemInGrid(reg, linked, grid, source, target, quantity, isSplit);
    if r.ok {
      var s := grid[source];
      var t := grid[target];
      var toMove := if isSplit then quantity else s.quantity;
      var m := MoveBetweenSlots(reg, s, t, false, toMove, !isSplit);
      if Valid(t) {
        SwapDecisionAgrees(reg, s, t, false, toMove, !isSplit);
      }
      forall x
        ensures GridSum(r.grid, x) == GridSum(grid, x)
      {
        GridSumUpdate(grid, source, m.source, x);
        GridSumUpdate(grid[source := m.source], target, m.target, x);
      }
    }
  }

  /**
   * When a slot can receive a source slot's whole stack, moving that stack
   * there succeeds and the target ends up holding the item.
   */
  lemma ReceivableStackMoves(reg: Registry, grid: seq<ItemBundle>, source: int, target: int)
    requires Tidy(grid)
    requires 0 <= source < |grid| && source != target && Valid(grid[source])
    requires CanGridSlotReceiveItem(reg, grid, grid[source].id, grid[source].quantity, target, true)
    ensures var r := MoveItemInGrid(reg, true, grid, source, target, 0, false);
            r.ok && Holds(r.grid[target], grid[source].id)
  {
  }

  // ------------------------------------------------------------ confirming events

  datatype SlotOperation = AddOp | RemoveOp

  /** FRISExpectedOperation: a locally predicted change waiting for the container's event. */
  datatype ExpectedOperation = ExpectedOperation(operation: SlotOperation, taggedSlot: Tag, id: Tag, quantity: int)

  datatype ViewState = ViewState(grid: seq<ItemBundle>, pending: seq<ExpectedOperation>)

  datatype RemovalOutcome = RemovalOutcome(view: ViewState, resync: bool)

  /** A grid (not tagged-slot) prediction of this kind, item and quantity. */
  predicate Confirms(o: ExpectedOperation, kind: SlotOperation, id: Tag, quantity: int)
  {
    o.operation == kind && !IsValid(o.taggedSlot) && o.id == id && o.quantity == quantity
  }

  /** The search from the newest prediction down to the oldest. */
  function LastConfirmed(pending: seq<ExpectedOperation>, kind: SlotOperation, id: Tag, quantity: int): (r: Option<nat>)
    ensures r.Some? ==> r.value < |pending| && Confirms(pending[r.value], kind, id, quantity)
    ensures r.Some? ==> forall j :: r.value < j < |pending| ==> !Confirms(pending[j], kind, id, quantity)
    ensures r.None? ==> forall j :: 0 <= j < |pending| ==> !Confirms(pending[j], kind, id, quantity)
  {
    if |pending| == 0 then None
    else if Confirms(pending[|pending| - 1], kind, id, quantity) then Some(|pending| - 1)
    else LastConfirmed(pending[..|pending| - 1], kind, id, quantity)
  }

  /**
   * The unpredicted-removal loop: slots holding the item are drained in
   * ascending index until the quantity is used up; a slot that reaches 0
   * becomes empty. `remaining` is what could not be removed.
   */
  method DrainAscending(grid: seq<ItemBundle>, id: Tag, quantity: int) returns (r: seq<ItemBundle>, remaining: int)
    requires Tidy(grid) && quantity > 0
    ensures |r| == |grid| && Tidy(r)
    ensures remaining == Max(0, quantity - GridSum(grid, id))
    ensures GridSum(r, id) == GridSum(grid, id) - (quantity - remaining)
    ensures forall x :: x != id ==> GridSum(r, x) == GridSum(grid, x)
    ensures forall i :: 0 <= i < |grid| && !Holds(grid[i], id) ==> r[i] == grid[i]
    // a later slot is touched only after every earlier slot holding the item was emptied
    ensures forall i, j :: 0 <= i < j < |grid| && r[j] != grid[j] && Holds(grid[i], id) ==> r[i] == Empty
  {
    r := grid;
    remaining := quantity;
    var i := 0;
    while i < |grid| && remaining > 0
      invariant Draining(grid, id, quantity, r, remaining, i)
      decreases |grid| - i
    {
      r, remaining := DrainSlot(grid, id, quantity, r, remaining, i);
      i := i + 1;
    }
    GridSumSign(r, id);
    if remaining > 0 {
      assert !Shows(r, id);
    }
  }

  /** The drain loop's invariant after the slots before `i` were visited. */
  ghost predicate Draining(grid: seq<ItemBundle>, id: Tag, quantity: int, r: seq<ItemBundle>, remaining: int, i: int)
  {
    && 0 <= i <= |grid| && |r| == |grid| && Tidy(r)
    && 0 <= remaining <= quantity
    && GridSum(r, id) == GridSum(grid, id) - (quantity - remaining)
    && (forall x :: x != id ==> GridSum(r, x) == GridSum(grid, x))
    && (forall k :: i <= k < |grid| ==> r[k] == grid[k])
    && (forall k :: 0 <= k < i && !Holds(grid[k], id) ==> r[k] == grid[k])
    && (forall k :: 0 <= k < i && Holds(grid[k], id) && !Holds(r[k], id) ==> r[k] == Empty)
    && (remaining > 0 ==> forall k :: 0 <= k < i ==> !Holds(r[k], id))
    && (forall k, j :: 0 <= k < j < |grid| && r[j] != grid[j] && Holds(grid[k], id) ==> r[k] == Empty)
  }

  /** One turn of the drain loop: take what the slot at `i` can give when it holds the item. */
  method DrainSlot(grid: seq<ItemBundle>, id: Tag, quantity: int, r: seq<ItemBundle>, remaining: int, i: nat)
    returns (r': seq<ItemBundle>, remaining': int)
    requires Draining(grid, id, quantity, r, remaining, i) && i < |grid| && remaining > 0
    ensures Draining(grid, id, quantity, r', remaining', i + 1)
  {
    r', remaining' := r, remaining;
    if Holds(r[i], id) {
      var take := Min(remaining, r[i].quantity);
      var left := r[i].quantity - take;
      var drained := if left <= 0 then Empty else r[i].(quantity := left);
      forall x
        ensures GridSum(r[i := drained], x) == GridSum(r, x) - Count(r[i], x) + Count(drained, x)
      {
        GridSumUpdate(r, i, drained, x);
      }
      r' := r[i := drained];
      remaining' := remaining - take;
    }
  }

  /**
   * HandleItemRemoved: a removal event first confirms the newest matching grid
   * prediction, which leaves the grid as predicted. Otherwise the grid is
   * drained to match, and a shortfall asks for a full resynchronisation.
   * `item` is the event's item id, None when its item data is missing.
   */
  method HandleItemRemoved(view: ViewState, item: Option<Tag>, quantity: int) returns (r: RemovalOutcome)
    requires Tidy(view.grid)
    ensures Tidy(r.view.grid)
    ensures item.None? || quantity <= 0 ==> r == RemovalOutcome(view, false)
    ensures item.Some? && quantity > 0 && LastConfirmed(view.pending, RemoveOp, item.value, quantity).Some? ==>
              var k := LastConfirmed(view.pending, RemoveOp, item.value, quantity).value;
              r == RemovalOutcome(ViewState(view.grid, view.pending[..k] + view.pending[k + 1..]), false)
    ensures item.Some? && quantity > 0 && LastConfirmed(view.pending, RemoveOp, item.value, quantity).None? ==>
              && r.view.pending == view.pending
              && |r.view.grid| == |view.grid|
              && (r.resync <==> quantity > GridSum(view.grid, item.value))
              && (forall x :: GridSum(r.view.grid, x)
                               == GridSum(view.grid, x) - (if x == item.value then Min(quantity, GridSum(view.grid, x)) else 0))
              && (forall i, j :: 0 <= i < j < |view.grid| && r.view.grid[j] != view.grid[j] && Holds(view.grid[i], item.value)
                    ==> r.view.grid[i] == Empty)
  {
    if item.None? || quantity <= 0 {
      return RemovalOutcome(view, false);
    }
    var id := item.value;
    match LastConfirmed(view.pending, RemoveOp, id, quantity)
    case Some(k) =>
      r := RemovalOutcome(ViewState(view.grid, view.pending[..k] + view.pending[k + 1..]), false);
    case None =>
      var grid, remaining := DrainAscending(view.grid, id, quantity);
      GridSumSign(view.grid, id);
      r := RemovalOutcome(ViewState(grid, view.pending), remaining > 0);
  }

  // ------------------------------------------------------------ settled check

  /** The container's quantities keyed by item, as TMap::Add builds them: a later bundle overwrites. */
  function ContainerMap(items: seq<ItemBundle>): map<Tag, int>
  {
    if |items| == 0 then map[]
    else ContainerMap(items[..|items| - 1])[items[|items| - 1].id := items[|items| - 1].quantity]
  }

  /** The grid's quantities keyed by item, summed over valid slots as FindOrAdd(..) += does. */
  function GridMap(grid: seq<ItemBundle>): map<Tag, int>
  {
    if |grid| == 0 then map[]
    else
      var m := GridMap(grid[..|grid| - 1]);
      var b := grid[|grid| - 1];
      if Valid(b) then m[b.id := (if b.id in m then m[b.id] else 0) + b.quantity] else m
  }

  /**
   * AssertViewModelSettled: no prediction is pending, a container is
   * attached, and both maps have the same size with every container entry
   * matched by the grid.
   */
  function AssertViewModelSettled(pending: seq<ExpectedOperation>, container: Option<seq<ItemBundle>>,
                                  grid: seq<ItemBundle>): (r: bool)
    ensures r ==> |pending| == 0 && container.Some?
  {
    match container
    case None => false
    case Some(items) =>
      var containerQuantities := ContainerMap(items);
      var viewQuantities := GridMap(grid);
      var quantitiesMatch := |containerQuantities| == |viewQuantities|
        && forall k | k in containerQuantities :: k in viewQuantities && viewQuantities[k] == containerQuantities[k];
      |pending| == 0 && quantitiesMatch
  }

  lemma {:induction false} ContainerMapFacts(items: seq<ItemBundle>)
    requires UniqueIds(items)
    ensures forall x :: (x in ContainerMap(items) <==> Present(items, x))
    ensures forall x :: x in ContainerMap(items) ==> ContainerMap(items)[x] == QuantityTotal(items, x)
  {
    if |items| > 0 {
      var n := |items|;
      var pre := items[..n - 1];
      var last := items[n - 1];
      assert items == pre + [last];
      assert UniqueIds(pre);
      ContainerMapFacts(pre);
      assert !Present(pre, last.id);
      forall x
        ensures Present(items, x) <==> Present(pre, x) || last.id == x
        ensures QuantityTotal(items, x) == if Present(pre, x) then QuantityTotal(pre, x) else if last.id == x then last.quantity else 0
      {
        AppendTotals(pre, last, x);
      }
    }
  }

  lemma {:induction false} GridMapFacts(grid: seq<ItemBundle>)
    ensures forall x :: (x in GridMap(grid) <==> Shows(grid, x))
    ensures forall x :: x in GridMap(grid) ==> GridMap(grid)[x] == GridSum(grid, x)
  {
    if |grid| > 0 {
      var n := |grid|;
      var pre := grid[..n - 1];
      GridMapFacts(pre);
      forall x
        ensures Shows(grid, x) <==> Shows(pre, x) || Holds(grid[n - 1], x)
        ensures !Shows(pre, x) ==> GridSum(pre, x) == 0
      {
        if Shows(pre, x) {
          var i :| 0 <= i < |pre| && Holds(pre[i], x);
          assert Holds(grid[i], x);
        }
        if Shows(grid, x) && !Holds(grid[n - 1], x) {
          var i :| 0 <= i < n && Holds(grid[i], x);
          assert Holds(pre[i], x);
        }
        if !Shows(pre, x) {
          NoneShownSumsToZero(pre, x);
        }
      }
    }
  }

  lemma {:induction false} NoneShownSumsToZero(grid: seq<ItemBundle>, x: Tag)
    requires !Shows(grid, x)
    ensures GridSum(grid, x) == 0
  {
    if |grid| > 0 {
      var pre := grid[..|grid| - 1];
      NoneShownSumsToZero(pre, x);
    }
  }

  /** A subset as large as its superset is the whole superset. */
  lemma SubsetOfSameSize(a: set<Tag>, b: set<Tag>)
    requires a <= b && |a| == |b|
    ensures a == b
  {
    if x :| x in b && x !in a {
      assert a <= b - {x};
      SubsetSize(a, b - {x});
    }
  }

  lemma {:induction false} SubsetSize(a: set<Tag>, b: set<Tag>)
    requires a <= b
    ensures |a| <= |b|
    decreases |a|
  {
    if x :| x in a {
      SubsetSize(a - {x}, b - {x});
    }
  }

  /**
   * On a container with one positive bundle per item and a tidy grid, the
   * settled check holds exactly when nothing is pending and the grid shows
   * every item's container total.
   */
  lemma SettledMeansSameTotals(pending: seq<ExpectedOperation>, items: seq<ItemBundle>, grid: seq<ItemBundle>)
    requires UniqueIds(items) && Positive(items) && Tidy(grid)
    ensures AssertViewModelSettled(pending, Some(items), grid)
            <==> |pending| == 0 && forall x :: QuantityTotal(items, x) == GridSum(grid, x)
  {
    var cm := ContainerMap(items);
    var gm := GridMap(grid);
    ContainerMapFacts(items);
    GridMapFacts(grid);
    forall x
      ensures (x in cm <==> QuantityTotal(items, x) > 0)
      ensures (x in gm <==> GridSum(grid, x) > 0)
      ensures x !in cm ==> QuantityTotal(items, x) == 0
      ensures x !in gm ==> GridSum(grid, x) == 0
    {
      GridSumSign(grid, x);
      if Present(items, x) {
        var i := FindIndex(items, x).value;
        assert QuantityTotal(items, x) == items[i].quantity > 0;
      }
    }
    if AssertViewModelSettled(pending, Some(items), grid) {
      assert cm.Keys <= gm.Keys;
      SubsetOfSameSize(cm.Keys, gm.Keys);
    }
    if |pending| == 0 && forall x :: QuantityTotal(items, x) == GridSum(grid, x) {
      assert cm.Keys == gm.Keys;
    }
  }
}
