/**
 * SortUniversalTaggedSlots: the universal slots are reordered so that a
 * slot able to block another comes before it. The order is Kahn's
 * topological sort of the "can block" graph, with an edge from slot i to
 * slot j whenever i names j's tag as the slot it blocks. Slots on a
 * blocking cycle, or behind one, never reach in-degree zero; they are the
 * "cyclic" slots and go after the sorted ones.
 *
 * Slots are referred to by their index in the original array, as in the
 * source.
 */
module SlotSort {
  import opened Tags
  import I = Inventory

  /** Slot `i` can block slot `j`: it names `j`'s tag as the slot to block. */
  predicate Blocks(slots: seq<I.UniversalSlot>, i: int, j: int)
    requires 0 <= i < |slots| && 0 <= j < |slots|
  {
    i != j && IsValid(slots[i].slotToBlock) && slots[i].slotToBlock == slots[j].slot
  }

  predicate Distinct(s: seq<nat>)
  {
    forall a, b :: 0 <= a < b < |s| ==> s[a] != s[b]
  }

  predicate Below(s: seq<nat>, n: nat)
  {
    forall p :: 0 <= p < |s| ==> s[p] < n
  }

  /** `perm` lists every index below `n` exactly once. */
  predicate IsPermutation(perm: seq<nat>, n: nat)
  {
    |perm| == n && Distinct(perm) && Below(perm, n) && forall k :: 0 <= k < n ==> k in perm
  }

  /**
   * The in-degree of slot `j` counting only the first `n` slots and only
   * those not yet in `done`: how many of its blockers are still unsorted.
   */
  function Pending(slots: seq<I.UniversalSlot>, j: nat, done: seq<nat>, n: nat): nat
    requires j < |slots| && n <= |slots|
  {
    if n == 0 then 0
    else Pending(slots, j, done, n - 1) + (if Blocks(slots, n - 1, j) && n - 1 !in done then 1 else 0)
  }

  lemma {:induction false} PendingZero(slots: seq<I.UniversalSlot>, j: nat, done: seq<nat>, n: nat)
    requires j < |slots| && n <= |slots|
    ensures Pending(slots, j, done, n) == 0 <==> forall i :: 0 <= i < n && Blocks(slots, i, j) ==> i in done
  {
    if n > 0 {
      PendingZero(slots, j, done, n - 1);
    }
  }

  /** Sorting `x` takes one off the in-degree of each slot it blocks. */
  lemma {:induction false} PendingStep(slots: seq<I.UniversalSlot>, j: nat, done: seq<nat>, x: nat, n: nat)
    requires j < |slots| && n <= |slots| && x !in done
    ensures Pending(slots, j, done + [x], n) == Pending(slots, j, done, n) - (if x < n && Blocks(slots, x, j) then 1 else 0)
  {
    if n > 0 {
      PendingStep(slots, j, done, x, n - 1);
      assert (n - 1 in done + [x]) <==> (n - 1 in done || n - 1 == x);
    }
  }

  /** How many of the first `n` indices are not in `done`. */
  function Unsorted(done: seq<nat>, n: nat): nat
  {
    if n == 0 then 0 else Unsorted(done, n - 1) + (if n - 1 in done then 0 else 1)
  }

  lemma {:induction false} UnsortedStep(done: seq<nat>, x: nat, n: nat)
    requires x !in done
    ensures Unsorted(done + [x], n) == Unsorted(done, n) - (if x < n then 1 else 0)
  {
    if n > 0 {
      UnsortedStep(done, x, n - 1);
      assert (n - 1 in done + [x]) <==> (n - 1 in done || n - 1 == x);
    }
  }

  /** The indices below `n` missing from `done`, in ascending order: the source's CyclicIndices. */
  function Remaining(done: seq<nat>, n: nat): (r: seq<nat>)
    ensures forall k :: k in r <==> 0 <= k < n && k !in done
    ensures Distinct(r) && Below(r, n)
  {
    if n == 0 then []
    else
      var rest := Remaining(done, n - 1);
      rest + (if n - 1 in done then [] else [n - 1])
  }

  function Elements(s: seq<nat>): set<nat>
  {
    set k | k in s
  }

  lemma {:induction false} RemainingEmpty(done: seq<nat>, n: nat)
    requires forall k :: 0 <= k < n ==> k in done
    ensures Remaining(done, n) == []
  {
    if n > 0 {
      RemainingEmpty(done, n - 1);
    }
  }

  lemma {:induction false} DistinctCard(s: seq<nat>)
    requires Distinct(s)
    ensures |Elements(s)| == |s|
  {
    if |s| > 0 {
      var t := s[..|s| - 1];
      var last := s[|s| - 1];
      assert Distinct(t);
      DistinctCard(t);
      assert s == t + [last];
      assert forall a :: 0 <= a < |t| ==> t[a] == s[a] && s[a] != last;
      assert last !in Elements(t);
      assert Elements(s) == Elements(t) + {last};
    }
  }

  /** The indices 0, 1, ..., n - 1. */
  function Indices(n: nat): (r: seq<nat>)
    ensures |r| == n && Distinct(r)
    ensures forall k :: k in r <==> 0 <= k < n
  {
    var r := seq(n, i requires 0 <= i < n => i as nat);
    forall k: int ensures k in r <==> 0 <= k < n {
      if 0 <= k < n {
        assert r[k] == k;
      }
    }
    r
  }

  /** The sorted indices followed by the unsorted ones list every slot once. */
  lemma SortedThenRemaining(order: seq<nat>, n: nat)
    requires Distinct(order) && Below(order, n)
    ensures IsPermutation(order + Remaining(order, n), n)
  {
    var rest := Remaining(order, n);
    var p := order + rest;
    forall a, b | 0 <= a < b < |p| ensures p[a] != p[b] {
      if b >= |order| && a < |order| {
        assert p[b] in rest && p[a] in order;
      }
    }
    assert Below(p, n);
    assert Elements(p) == Elements(Indices(n));
    DistinctCard(p);
    DistinctCard(Indices(n));
  }

  /**
   * What the Kahn phase establishes: the sorted indices are distinct, each
   * comes after every slot that blocks it, each unsorted slot has an
   * unsorted blocker, and the cyclic indices are the rest in ascending
   * order.
   */
  predicate KahnOutcome(slots: seq<I.UniversalSlot>, order: seq<nat>, cyclic: seq<nat>)
  {
    && Distinct(order) && Below(order, |slots|)
    && cyclic == Remaining(order, |slots|)
    && IsPermutation(order + cyclic, |slots|)
    && AfterBlockers(slots, order)
    && Stuck(slots, order)
  }

  /** Each sorted slot comes after every slot that can block it. */
  predicate AfterBlockers(slots: seq<I.UniversalSlot>, order: seq<nat>)
  {
    forall p, i :: 0 <= p < |order| && order[p] < |slots| && 0 <= i < |slots| && Blocks(slots, i, order[p])
      ==> i in order[..p]
  }

  /** Slot `k` has not been sorted. */
  predicate Unplaced(order: seq<nat>, k: int)
  {
    k !in order
  }

  /** Each unsorted slot has an unsorted blocker. */
  predicate Stuck(slots: seq<I.UniversalSlot>, order: seq<nat>)
  {
    forall k :: 0 <= k < |slots| && Unplaced(order, k) ==> exists i :: 0 <= i < |slots| && i !in order && Blocks(slots, i, k)
  }

  /** The in-degrees, counted as the graph is built: one per blocker. */
  method InDegrees(slots: seq<I.UniversalSlot>) returns (inDeg: seq<int>)
    ensures |inDeg| == |slots|
    ensures forall k :: 0 <= k < |slots| ==> inDeg[k] == Pending(slots, k, [], |slots|)
  {
    var n := |slots|;
    inDeg := seq(n, _ => 0);
    var i := 0;
    while i < n
      invariant 0 <= i <= n && |inDeg| == n
      invariant forall k :: 0 <= k < n ==> inDeg[k] == Pending(slots, k, [], i)
    {
      var j := 0;
      while j < n
        invariant 0 <= j <= n && |inDeg| == n
        invariant forall k :: 0 <= k < j ==> inDeg[k] == Pending(slots, k, [], i + 1)
        invariant forall k :: j <= k < n ==> inDeg[k] == Pending(slots, k, [], i)
      {
        if IsValid(slots[i].slotToBlock) && i != j && slots[i].slotToBlock == slots[j].slot {
          inDeg := inDeg[j := inDeg[j] + 1];
        }
        j := j + 1;
      }
      i := i + 1;
    }
  }

  /**
   * One step of the queue loop: `x` has just been sorted, and every slot it
   * blocks loses one from its in-degree; those reaching zero join the queue.
   * (The source walks x's adjacency list, which holds exactly these slots in
   * ascending order.)
   */
  method Release(slots: seq<I.UniversalSlot>, x: nat, order: seq<nat>, inDeg0: seq<int>, queue0: seq<nat>)
    returns (inDeg: seq<int>, queue: seq<nat>)
    requires x < |slots| && x in order && Distinct(order) && Below(order, |slots|)
    requires |inDeg0| == |slots|
    requires forall k :: 0 <= k < |slots| ==> inDeg0[k] == Pending(slots, k, order[..|order| - 1], |slots|)
    requires order[|order| - 1] == x
    requires Distinct(queue0) && forall k :: k in queue0 ==> k < |slots| && k !in order && inDeg0[k] == 0
    requires forall k :: 0 <= k < |slots| && k in order ==> inDeg0[k] == 0
    requires forall k :: 0 <= k < |slots| && inDeg0[k] == 0 && k !in order ==> k in queue0
    ensures |inDeg| == |slots|
    ensures forall k :: 0 <= k < |slots| ==> inDeg[k] == Pending(slots, k, order, |slots|)
    ensures Distinct(queue) && forall k :: k in queue ==> k < |slots| && k !in order && inDeg[k] == 0
    ensures forall k :: 0 <= k < |slots| && k in order ==> inDeg[k] == 0
    ensures forall k :: 0 <= k < |slots| && inDeg[k] == 0 && k !in order ==> k in queue
  {
    var n := |slots|;
    var before := order[..|order| - 1];
    assert order == before + [x];
    assert x !in before by {
      assert forall a :: 0 <= a < |before| ==> before[a] == order[a] && order[a] != order[|order| - 1];
    }
    forall k | 0 <= k < n
      ensures Pending(slots, k, order, n) == Pending(slots, k, before, n) - (if Blocks(slots, x, k) then 1 else 0)
    {
      PendingStep(slots, k, before, x, n);
    }
    inDeg, queue := inDeg0, queue0;
    var j := 0;
    while j < n
      invariant 0 <= j <= n && |inDeg| == n
      invariant forall k :: 0 <= k < j ==> inDeg[k] == Pending(slots, k, order, n)
      invariant forall k :: j <= k < n ==> inDeg[k] == inDeg0[k]
      invariant Distinct(queue) && forall k :: k in queue ==> k < n && k !in order && inDeg[k] == 0
      invariant forall k :: 0 <= k < j && inDeg[k] == 0 && k !in order ==> k in queue
      invariant forall k :: j <= k < n && inDeg0[k] == 0 && k !in order ==> k in queue
    {
      if Blocks(slots, x, j) {
        assert j !in order by {
          PendingZero(slots, j, before, n);
          assert j !in before ==> true;
        }
        assert j !in queue;
        inDeg := inDeg[j := inDeg[j] - 1];
        if inDeg[j] == 0 {
          queue := queue + [j];
        }
      }
      j := j + 1;
    }
  }

  /** Sorting a slot none of whose blockers is pending keeps every sorted slot after its blockers. */
  lemma AfterBlockersGrow(slots: seq<I.UniversalSlot>, order: seq<nat>, x: nat)
    requires AfterBlockers(slots, order) && x < |slots| && Pending(slots, x, order, |slots|) == 0
    ensures AfterBlockers(slots, order + [x])
  {
    var grown := order + [x];
    PendingZero(slots, x, order, |slots|);
    assert grown[..|order|] == order;
    forall p, i | 0 <= p < |grown| && grown[p] < |slots| && 0 <= i < |slots| && Blocks(slots, i, grown[p])
      ensures i in grown[..p]
    {
      if p < |order| {
        assert grown[..p] == order[..p];
      }
    }
  }

  /** The starting queue: every slot nothing blocks, in index order. */
  method InitialQueue(inDeg: seq<int>) returns (queue: seq<nat>)
    ensures Distinct(queue) && forall k :: k in queue ==> k < |inDeg| && inDeg[k] == 0
    ensures forall k :: 0 <= k < |inDeg| && inDeg[k] == 0 ==> k in queue
  {
    queue := [];
    var i := 0;
    while i < |inDeg|
      invariant 0 <= i <= |inDeg|
      invariant Distinct(queue) && forall k :: k in queue ==> k < i && inDeg[k] == 0
      invariant forall k :: 0 <= k < i && inDeg[k] == 0 ==> k in queue
    {
      if inDeg[i] == 0 {
        queue := queue + [i];
      }
      i := i + 1;
    }
  }

  /** The indices below `n` whose in-degree is still positive, in ascending order. */
  function StillBlocked(inDeg: seq<int>, n: nat): seq<nat>
    requires n <= |inDeg|
  {
    if n == 0 then [] else StillBlocked(inDeg, n - 1) + (if inDeg[n - 1] > 0 then [n - 1] else [])
  }

  /** When exactly the unsorted slots keep a positive in-degree, those are the slots left over. */
  lemma {:induction false} StillBlockedRemain(inDeg: seq<int>, order: seq<nat>, n: nat)
    requires n <= |inDeg|
    requires forall k :: 0 <= k < |inDeg| ==> (inDeg[k] > 0 <==> k !in order)
    ensures StillBlocked(inDeg, n) == Remaining(order, n)
  {
    if n > 0 {
      StillBlockedRemain(inDeg, order, n - 1);
      assert inDeg[n - 1] > 0 <==> n - 1 !in order;
    }
  }

  /** CyclicIndices: the slots whose in-degree never reached zero, in index order. */
  method CyclicIndices(inDeg: seq<int>) returns (cyclic: seq<nat>)
    ensures cyclic == StillBlocked(inDeg, |inDeg|)
  {
    cyclic := [];
    var i := 0;
    while i < |inDeg|
      invariant 0 <= i <= |inDeg|
      invariant cyclic == StillBlocked(inDeg, i)
    {
      if inDeg[i] > 0 {
        cyclic := cyclic + [i];
      }
      i := i + 1;
    }
  }

  /**
   * The state of the queue loop: the in-degrees count unsorted blockers,
   * the queue holds exactly the unsorted slots with none, and each sorted
   * slot comes after its blockers.
   */
  predicate QueueLoop(slots: seq<I.UniversalSlot>, order: seq<nat>, inDeg: seq<int>, queue: seq<nat>)
  {
    && |inDeg| == |slots|
    && (forall k :: 0 <= k < |slots| ==> inDeg[k] == Pending(slots, k, order, |slots|))
    && Distinct(order) && Below(order, |slots|)
    && Distinct(queue) && (forall k :: k in queue ==> k < |slots| && k !in order && inDeg[k] == 0)
    && (forall k :: 0 <= k < |slots| && k in order ==> inDeg[k] == 0)
    && (forall k :: 0 <= k < |slots| && inDeg[k] == 0 && k !in order ==> k in queue)
    && AfterBlockers(slots, order)
  }

  /** One turn of the queue loop: dequeue the front slot, sort it, release what it blocks. */
  method SortFront(slots: seq<I.UniversalSlot>, order: seq<nat>, inDeg: seq<int>, queue: seq<nat>)
    returns (order': seq<nat>, inDeg': seq<int>, queue': seq<nat>)
    requires QueueLoop(slots, order, inDeg, queue) && |queue| > 0
    ensures QueueLoop(slots, order', inDeg', queue')
    ensures Unsorted(order', |slots|) < Unsorted(order, |slots|)
  {
    var n := |slots|;
    var x := queue[0];
    assert x in queue;
    var waiting := queue[1..];
    assert forall b :: 0 <= b < |waiting| ==> waiting[b] == queue[b + 1] && queue[b + 1] != queue[0];
    assert Distinct(waiting);
    assert forall k :: k in waiting ==> k in queue && k != x;
    UnsortedStep(order, x, n);
    order' := order + [x];
    AfterBlockersGrow(slots, order, x);
    inDeg', queue' := Release(slots, x, order', inDeg, waiting);
  }

  /**
   * Kahn's algorithm as the source runs it: queue the slots nothing blocks,
   * then repeatedly sort the front of the queue and release what it
   * blocks. What never reaches in-degree zero is cyclic.
   */
  method Kahn(slots: seq<I.UniversalSlot>) returns (order: seq<nat>, cyclic: seq<nat>)
    ensures KahnOutcome(slots, order, cyclic)
  {
    var n := |slots|;
    var inDeg := InDegrees(slots);
    var queue: seq<nat> := InitialQueue(inDeg);
    order := [];
    while |queue| > 0
      invariant QueueLoop(slots, order, inDeg, queue)
      decreases Unsorted(order, n)
    {
      order, inDeg, queue := SortFront(slots, order, inDeg, queue);
    }
    cyclic := CyclicIndices(inDeg);
    StillBlockedRemain(inDeg, order, |inDeg|);
    forall k | 0 <= k < n && Unplaced(order, k)
      ensures exists i :: 0 <= i < n && i !in order && Blocks(slots, i, k)
    {
      PendingZero(slots, k, order, n);
    }
    SortedThenRemaining(order, n);
  }

  // ------------------------------------------------------------ placement

  /** The slot FUniversalTaggedSlot() constructs: every tag unset. */
  const EmptySlot: I.UniversalSlot := I.UniversalSlot(EmptyTag, EmptyTag, EmptyTag, EmptyTag)

  /** The slots in the order `perm` lists their indices. */
  function Arrange(slots: seq<I.UniversalSlot>, perm: seq<nat>): (r: seq<I.UniversalSlot>)
    requires Below(perm, |slots|)
    ensures |r| == |perm| && forall p :: 0 <= p < |perm| ==> r[p] == slots[perm[p]]
  {
    seq(|perm|, p requires 0 <= p < |perm| => slots[perm[p]])
  }

  /** The slots rearranged: some permutation of their indices lists them. */
  ghost predicate Rearranges(slots: seq<I.UniversalSlot>, r: seq<I.UniversalSlot>)
  {
    exists perm :: IsPermutation(perm, |slots|) && r == Arrange(slots, perm)
  }

  /** Every slot that can block another comes before it. */
  predicate BlockersFirst(r: seq<I.UniversalSlot>)
  {
    forall a, b :: 0 <= a < |r| && 0 <= b < |r| && Blocks(r, a, b) ==> a < b
  }

  /** A ranking of the slots that every "can block" edge climbs: the graph has no cycle. */
  predicate Ranks(slots: seq<I.UniversalSlot>, rank: seq<nat>)
  {
    |rank| == |slots| && forall i, j :: 0 <= i < |slots| && 0 <= j < |slots| && Blocks(slots, i, j) ==> rank[i] < rank[j]
  }

  /** IndexOfByKey: the first position holding `x`. */
  function FirstIndex(s: seq<nat>, x: nat): (r: nat)
    requires x in s
    ensures r < |s| && s[r] == x && forall k :: 0 <= k < r ==> s[k] != x
  {
    if s[0] == x then 0 else 1 + FirstIndex(s[1..], x)
  }

  /** The first placement loop as written: sorted index number p goes to position N - |order| + p. */
  function WriteSorted(res: seq<I.UniversalSlot>, slots: seq<I.UniversalSlot>, order: seq<nat>, p: nat)
    : (r: seq<I.UniversalSlot>)
    requires |res| == |slots| && |order| <= |slots| && Below(order, |slots|) && p <= |order|
    ensures |r| == |res|
    decreases |order| - p
  {
    if p == |order| then res
    else
      var at := |res| - |order| + FirstIndex(order, order[p]);
      WriteSorted(res[at := slots[order[p]]], slots, order, p + 1)
  }

  /** The second placement loop: cyclic index number c goes to position |order| + c. */
  function WriteCyclic(res: seq<I.UniversalSlot>, slots: seq<I.UniversalSlot>, cyclic: seq<nat>, next: nat, c: nat)
    : (r: seq<I.UniversalSlot>)
    requires |res| == |slots| && Below(cyclic, |slots|) && next + |cyclic| <= |slots| && c <= |cyclic|
    ensures |r| == |res|
    decreases |cyclic| - c
  {
    if c == |cyclic| then res
    else WriteCyclic(res[next + c := slots[cyclic[c]]], slots, cyclic, next, c + 1)
  }

  /**
   * The placement as the source writes it: a fresh array of empty slots,
   * the sorted slots written from position N - |order| on, then the cyclic
   * slots written from position |order| on.
   */
  function PlaceAsWritten(slots: seq<I.UniversalSlot>, order: seq<nat>, cyclic: seq<nat>): (r: seq<I.UniversalSlot>)
    requires IsPermutation(order + cyclic, |slots|)
    ensures |r| == |slots|
  {
    assert forall p :: 0 <= p < |order| ==> order[p] == (order + cyclic)[p];
    assert forall c :: 0 <= c < |cyclic| ==> cyclic[c] == (order + cyclic)[|order| + c];
    WriteCyclic(WriteSorted(seq(|slots|, _ => EmptySlot), slots, order, 0), slots, cyclic, |order|, 0)
  }

  /** With every slot sorted, the sorted slots land at their own positions. */
  lemma {:induction false} WriteSortedInPlace(res: seq<I.UniversalSlot>, slots: seq<I.UniversalSlot>, order: seq<nat>, p: nat)
    requires |res| == |slots| && IsPermutation(order, |slots|) && p <= |order|
    requires forall q :: 0 <= q < p ==> res[q] == slots[order[q]]
    ensures WriteSorted(res, slots, order, p) == Arrange(slots, order)
    decreases |order| - p
  {
    if p == |order| {
    } else {
      assert FirstIndex(order, order[p]) == p;
      WriteSortedInPlace(res[p := slots[order[p]]], slots, order, p + 1);
    }
  }

  /** Without cycles the placement as written puts each slot where the sorted order says. */
  lemma PlacementWithoutCycles(slots: seq<I.UniversalSlot>, order: seq<nat>)
    requires IsPermutation(order, |slots|)
    ensures PlaceAsWritten(slots, order, []) == Arrange(slots, order)
  {
    assert order + [] == order;
    WriteSortedInPlace(seq(|slots|, _ => EmptySlot), slots, order, 0);
  }

  // ------------------------------------------------------------ properties

  /** Following blockers from an unsorted slot never ends, so a ranking leaves no slot unsorted. */
  lemma {:induction false} RankedIsSorted(slots: seq<I.UniversalSlot>, order: seq<nat>, rank: seq<nat>, k: nat)
    requires Stuck(slots, order) && Ranks(slots, rank) && k < |slots|
    ensures k in order
    decreases rank[k]
  {
    if Unplaced(order, k) {
      var i :| 0 <= i < |slots| && i !in order && Blocks(slots, i, k);
      RankedIsSorted(slots, order, rank, i);
    }
  }

  /** Without a cycle nothing is cyclic and the sorted indices list every slot. */
  lemma AcyclicSortsAll(slots: seq<I.UniversalSlot>, order: seq<nat>, cyclic: seq<nat>, rank: seq<nat>)
    requires KahnOutcome(slots, order, cyclic) && Ranks(slots, rank)
    ensures cyclic == [] && IsPermutation(order, |slots|)
  {
    forall k | 0 <= k < |slots| ensures k in order {
      RankedIsSorted(slots, order, rank, k);
    }
    RemainingEmpty(order, |slots|);
    assert order + cyclic == order;
  }

  /** In the order Kahn's phase produced, a slot's blockers come before it. */
  lemma SortedOrderBlockersFirst(slots: seq<I.UniversalSlot>, order: seq<nat>)
    requires AfterBlockers(slots, order) && IsPermutation(order, |slots|)
    ensures BlockersFirst(Arrange(slots, order))
  {
    var r := Arrange(slots, order);
    forall a, b | 0 <= a < |r| && 0 <= b < |r| && Blocks(r, a, b) ensures a < b {
      assert Blocks(slots, order[a], order[b]);
      assert order[a] in order[..b];
      var c :| 0 <= c < b && order[..b][c] == order[a];
      assert order[c] == order[a];
    }
  }

  /**
   * SortUniversalTaggedSlots with the placement the source evidently
   * intends: the sorted slots, then the cyclic ones. The result always
   * rearranges the slots, and with no blocking cycle every slot that can
   * block another comes first.
   */
  method SortUniversalTaggedSlots(slots: seq<I.UniversalSlot>) returns (r: seq<I.UniversalSlot>)
    ensures Rearranges(slots, r)
    ensures (exists rank :: Ranks(slots, rank)) ==> BlockersFirst(r)
  {
    var order, cyclic := Kahn(slots);
    r := Arrange(slots, order + cyclic);
    assert IsPermutation(order + cyclic, |slots|) && r == Arrange(slots, order + cyclic);
    if exists rank :: Ranks(slots, rank) {
      var rank :| Ranks(slots, rank);
      AcyclicSortsAll(slots, order, cyclic, rank);
      assert order + cyclic == order;
      SortedOrderBlockersFirst(slots, order);
    }
  }

  /**
   * SortUniversalTaggedSlots as the source writes it. Without a blocking
   * cycle it agrees with the intended sort; with one, it is the placement
   * as written applied to what Kahn's phase produced.
   */
  method SortUniversalTaggedSlotsAsWritten(slots: seq<I.UniversalSlot>) returns (r: seq<I.UniversalSlot>)
    ensures |r| == |slots|
    ensures exists order, cyclic :: KahnOutcome(slots, order, cyclic) && r == PlaceAsWritten(slots, order, cyclic)
    ensures (exists rank :: Ranks(slots, rank)) ==> Rearranges(slots, r) && BlockersFirst(r)
  {
    var order, cyclic := Kahn(slots);
    r := PlaceAsWritten(slots, order, cyclic);
    if exists rank :: Ranks(slots, rank) {
      var rank :| Ranks(slots, rank);
      AcyclicSortsAll(slots, order, cyclic, rank);
      PlacementWithoutCycles(slots, order);
      SortedOrderBlockersFirst(slots, order);
    }
  }

  // ------------------------------------------------------------ an example

  /** The test inventory's two hands, which block each other, and a back slot that blocks nothing. */
  const HandsAndBack: seq<I.UniversalSlot> :=
    I.TestInventory.universal + [I.UniversalSlot("Slots.Back", EmptyTag, EmptyTag, EmptyTag)]

  /** Neither hand can be sorted: each would have to come after the other. */
  lemma HandUnsorted(order: seq<nat>, h: nat)
    requires Distinct(order) && AfterBlockers(HandsAndBack, order) && h < 2
    ensures h !in order
  {
    var s := HandsAndBack;
    var other := 1 - h;
    assert Blocks(s, other, h) && Blocks(s, h, other);
  }

  /** Kahn's phase sorts only the back slot; the two hands are cyclic. */
  lemma HandsAndBackOutcome(order: seq<nat>, cyclic: seq<nat>)
    requires KahnOutcome(HandsAndBack, order, cyclic)
    ensures order == [2] && cyclic == [0, 1]
  {
    BackSorted(order);
    HandUnsorted(order, 0);
    HandUnsorted(order, 1);
    OnlyBack(order);
    BackLeavesHands();
  }

  lemma BackLeavesHands()
    ensures Remaining([2], 3) == [0, 1]
  {
    assert Remaining([2], 1) == [0];
    assert Remaining([2], 2) == [0, 1];
  }

  /** Nothing blocks the back slot, so it is sorted. */
  lemma BackSorted(order: seq<nat>)
    requires Stuck(HandsAndBack, order)
    ensures 2 in order
  {
    var s := HandsAndBack;
    assert !Blocks(s, 0, 2) && !Blocks(s, 1, 2) && !Blocks(s, 2, 2);
    assert !Unplaced(order, 2);
  }

  lemma FirstTwoDiffer(order: seq<nat>)
    requires Distinct(order) && |order| >= 2
    ensures order[0] != order[1]
  {
  }

  lemma OnlyBack(order: seq<nat>)
    requires Distinct(order) && Below(order, 3) && 2 in order && 0 !in order && 1 !in order
    ensures order == [2]
  {
    assert forall p :: 0 <= p < |order| ==> order[p] == 2;
    assert |order| < 2 by {
      if |order| >= 2 {
        FirstTwoDiffer(order);
        assert false;
      }
    }
    assert order == [order[0]];
  }

  /**
   * The placement as written on these slots: the back slot, written to the
   * last position, is overwritten by the left hand, and the first position
   * keeps an empty slot. The back slot is lost.
   */
  lemma AsWrittenDropsBackSlot(r: seq<I.UniversalSlot>)
    requires exists order, cyclic :: KahnOutcome(HandsAndBack, order, cyclic) && r == PlaceAsWritten(HandsAndBack, order, cyclic)
    ensures r == [EmptySlot, HandsAndBack[0], HandsAndBack[1]]
    ensures HandsAndBack[2] !in r
  {
    var order, cyclic :| KahnOutcome(HandsAndBack, order, cyclic) && r == PlaceAsWritten(HandsAndBack, order, cyclic);
    HandsAndBackOutcome(order, cyclic);
    PlaceHandsAndBack();
  }

  lemma PlaceHandsAndBack()
    ensures PlaceAsWritten(HandsAndBack, [2], [0, 1]) == [EmptySlot, HandsAndBack[0], HandsAndBack[1]]
  {
    var s := HandsAndBack;
    var empty := seq(3, _ => EmptySlot);
    assert [2] + [0, 1] == [2, 0, 1];
    assert WriteSorted(empty, s, [2], 0) == [EmptySlot, EmptySlot, s[2]];
    assert WriteCyclic([EmptySlot, EmptySlot, s[2]], s, [0, 1], 1, 0) == [EmptySlot, s[0], s[1]];
  }

  /** The intended sort keeps every slot, the back slot included. */
  lemma IntendedKeepsBackSlot(r: seq<I.UniversalSlot>)
    requires Rearranges(HandsAndBack, r)
    ensures HandsAndBack[2] in r
  {
    var perm :| IsPermutation(perm, |HandsAndBack|) && r == Arrange(HandsAndBack, perm);
    assert 2 in perm;
    var p :| 0 <= p < |perm| && perm[p] == 2;
    assert r[p] == HandsAndBack[2];
  }
}
