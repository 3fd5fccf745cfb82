/**
 * DetectAndPublishChanges: the replicated item list is compared with a cached
 * snapshot, added and removed quantities are reported per item, and the
 * cache is brought up to date. Cache entries already matched are marked by
 * storing their quantity negated; a final sweep from the end reports every
 * unmarked entry as removed and un-negates the marked ones.
 *
 * Instance-data diffs are not modelled: every bundle is compared by quantity.
 */
module ChangeDetection {
  import opened Tags
  import opened Wrappers
  import opened Bundle
  import opened Container

  /** One broadcast: OnItemAddedToContainer or OnItemRemovedFromContainer with its quantity. */
  datatype Change = Added(id: Tag, quantity: int) | Removed(id: Tag, quantity: int)

  /** The net quantity of `x` the changes report: added counts up, removed counts down. */
  function Net(changes: seq<Change>, x: Tag): int
  {
    if |changes| == 0 then 0
    else
      (if changes[0].id != x then 0 else if changes[0].Added? then changes[0].quantity else -changes[0].quantity)
      + Net(changes[1..], x)
  }

  /** How many of the changes are about `x`. */
  function Count(changes: seq<Change>, x: Tag): nat
  {
    if |changes| == 0 then 0 else (if changes[0].id == x then 1 else 0) + Count(changes[1..], x)
  }

  lemma {:induction false} NetAppend(a: seq<Change>, b: seq<Change>, x: Tag)
    ensures Net(a + b, x) == Net(a, x) + Net(b, x)
    ensures Count(a + b, x) == Count(a, x) + Count(b, x)
  {
    if |a| == 0 {
      assert a + b == b;
    } else {
      assert (a + b)[0] == a[0];
      assert (a + b)[1..] == a[1..] + b;
      NetAppend(a[1..], b, x);
    }
  }

  datatype Pass = Pass(cache: seq<ItemBundle>, changes: seq<Change>)

  predicate Present(items: seq<ItemBundle>, x: Tag)
  {
    FindIndex(items, x).Some?
  }

  /** One bundle of the current list against the cache: report the difference, then mark. */
  function CompareOne(cache: seq<ItemBundle>, b: ItemBundle): Pass
  {
    match FindIndex(cache, b.id)
    case Some(k) =>
      var prev := cache[k];
      var changes := if prev.quantity == b.quantity then []
                     else if prev.quantity < b.quantity then [Added(b.id, b.quantity - prev.quantity)]
                     else [Removed(b.id, prev.quantity - b.quantity)];
      Pass(cache[k := prev.(quantity := -(Abs(b.quantity) as int))], changes)
    case None =>
      Pass(cache + [ItemBundle(b.id, -b.quantity)], [Added(b.id, b.quantity)])
  }

  /** The first loop: every current bundle in order. */
  function ComparePass(cache: seq<ItemBundle>, current: seq<ItemBundle>): Pass
    decreases |current|
  {
    if |current| == 0 then Pass(cache, [])
    else
      var p := CompareOne(cache, current[0]);
      var rest := ComparePass(p.cache, current[1..]);
      Pass(rest.cache, p.changes + rest.changes)
  }

  /** The second loop, from the last cache entry down: drop and report unmarked entries, restore marked ones. */
  function Sweep(cache: seq<ItemBundle>): Pass
  {
    if |cache| == 0 then Pass([], [])
    else
      var last := cache[|cache| - 1];
      var rest := Sweep(cache[..|cache| - 1]);
      if last.quantity >= 0 then Pass(rest.cache, [Removed(last.id, last.quantity)] + rest.changes)
      else Pass(rest.cache + [last.(quantity := -last.quantity)], rest.changes)
  }

  function DetectAndPublishChanges(cache: seq<ItemBundle>, current: seq<ItemBundle>): Pass
  {
    var p := ComparePass(cache, current);
    var s := Sweep(p.cache);
    Pass(s.cache, p.changes + s.changes)
  }

  predicate Positive(items: seq<ItemBundle>)
  {
    forall i :: 0 <= i < |items| ==> items[i].quantity > 0
  }

  predicate NonZero(items: seq<ItemBundle>)
  {
    forall i :: 0 <= i < |items| ==> items[i].quantity != 0
  }

  predicate ReportsPositive(changes: seq<Change>)
  {
    forall i :: 0 <= i < |changes| ==> changes[i].quantity > 0
  }

  lemma AppendTotals(items: seq<ItemBundle>, b: ItemBundle, x: Tag)
    ensures Present(items + [b], x) <==> Present(items, x) || b.id == x
    ensures QuantityTotal(items + [b], x) == if Present(items, x) then QuantityTotal(items, x) else if b.id == x then b.quantity else 0
  {
    FindIndexSameIds(items, items + [b], x);
  }

  lemma CompareOneFacts(cache: seq<ItemBundle>, b: ItemBundle)
    requires UniqueIds(cache) && NonZero(cache) && b.quantity > 0
    ensures var p := CompareOne(cache, b);
            && UniqueIds(p.cache) && NonZero(p.cache) && ReportsPositive(p.changes)
            && Present(p.cache, b.id) && QuantityTotal(p.cache, b.id) == -b.quantity
            && Net(p.changes, b.id) == b.quantity - QuantityTotal(cache, b.id)
            && (forall y :: y != b.id ==> Net(p.changes, y) == 0)
            && (forall y :: y != b.id ==> QuantityTotal(p.cache, y) == QuantityTotal(cache, y))
            && (forall y :: y != b.id ==> (Present(p.cache, y) <==> Present(cache, y)))
  {
    var p := CompareOne(cache, b);
    match FindIndex(cache, b.id)
    case Some(k) =>
      forall y { FindIndexSameIds(cache, p.cache, y); }
    case None =>
      forall y { AppendTotals(cache, ItemBundle(b.id, -b.quantity), y); }
  }

  /** One comparison reports one change for the bundle's id when its quantity moved, and none otherwise. */
  lemma CompareOneCounts(cache: seq<ItemBundle>, b: ItemBundle)
    requires b.quantity > 0
    ensures var p := CompareOne(cache, b);
            && Count(p.changes, b.id) == (if QuantityTotal(cache, b.id) == b.quantity then 0 else 1)
            && (forall y :: y != b.id ==> Count(p.changes, y) == 0)
  {
  }

  lemma TailTotals(items: seq<ItemBundle>, x: Tag)
    requires |items| > 0 && items[0].id != x
    ensures QuantityTotal(items, x) == QuantityTotal(items[1..], x)
    ensures Present(items, x) <==> Present(items[1..], x)
  {
  }

  /**
   * After the first loop every current id has exactly one marked cache
   * entry, ids no longer current keep their entry untouched, and the
   * reported changes account for each current id's difference.
   */
  lemma {:induction false} ComparePassFacts(cache: seq<ItemBundle>, current: seq<ItemBundle>)
    requires UniqueIds(cache) && NonZero(cache) && UniqueIds(current) && Positive(current)
    ensures var p := ComparePass(cache, current);
            && UniqueIds(p.cache) && NonZero(p.cache) && ReportsPositive(p.changes)
            && (forall x :: Present(current, x) ==>
                  Present(p.cache, x) && QuantityTotal(p.cache, x) == -QuantityTotal(current, x)
                  && Net(p.changes, x) == QuantityTotal(current, x) - QuantityTotal(cache, x))
            && (forall x :: !Present(current, x) ==>
                  (Present(p.cache, x) <==> Present(cache, x)) && QuantityTotal(p.cache, x) == QuantityTotal(cache, x)
                  && Net(p.changes, x) == 0)
    decreases |current|
  {
    if |current| > 0 {
      var h := current[0];
      var step := CompareOne(cache, h);
      CompareOneFacts(cache, h);
      var tail := current[1..];
      assert UniqueIds(tail);
      ComparePassFacts(step.cache, tail);
      var rest := ComparePass(step.cache, tail);
      assert !Present(tail, h.id);
      forall x
        ensures Net(step.changes + rest.changes, x) == Net(step.changes, x) + Net(rest.changes, x)
      {
        NetAppend(step.changes, rest.changes, x);
      }
      forall x | x != h.id
        ensures QuantityTotal(current, x) == QuantityTotal(tail, x) && (Present(current, x) <==> Present(tail, x))
      {
        TailTotals(current, x);
      }
    }
  }

  /**
   * The first loop reports at most one change per id: one for a current id
   * whose quantity moved, none for any other id.
   */
  lemma {:induction false} ComparePassCounts(cache: seq<ItemBundle>, current: seq<ItemBundle>)
    requires UniqueIds(cache) && NonZero(cache) && UniqueIds(current) && Positive(current)
    ensures var p := ComparePass(cache, current);
            forall x :: Count(p.changes, x)
                        == (if Present(current, x) && QuantityTotal(current, x) != QuantityTotal(cache, x) then 1 else 0)
    decreases |current|
  {
    if |current| > 0 {
      var h := current[0];
      var step := CompareOne(cache, h);
      CompareOneFacts(cache, h);
      CompareOneCounts(cache, h);
      var tail := current[1..];
      assert UniqueIds(tail);
      ComparePassCounts(step.cache, tail);
      var rest := ComparePass(step.cache, tail);
      assert !Present(tail, h.id);
      forall x
        ensures Count(step.changes + rest.changes, x) == Count(step.changes, x) + Count(rest.changes, x)
      {
        NetAppend(step.changes, rest.changes, x);
      }
      forall x | x != h.id
        ensures QuantityTotal(current, x) == QuantityTotal(tail, x) && (Present(current, x) <==> Present(tail, x))
      {
        TailTotals(current, x);
      }
    }
  }

  /**
   * What the sweep promises of a cache: marked entries are kept, restored to
   * their real quantity; unmarked ones are dropped and reported as removed.
   */
  ghost predicate SweepSpec(cache: seq<ItemBundle>, s: Pass)
  {
    && UniqueIds(s.cache) && ReportsPositive(s.changes)
    && (forall x :: Present(cache, x) && QuantityTotal(cache, x) < 0 ==>
          Present(s.cache, x) && QuantityTotal(s.cache, x) == -QuantityTotal(cache, x) && Net(s.changes, x) == 0)
    && (forall x :: Present(cache, x) && QuantityTotal(cache, x) >= 0 ==>
          !Present(s.cache, x) && Net(s.changes, x) == -QuantityTotal(cache, x))
    && (forall x :: !Present(cache, x) ==> !Present(s.cache, x) && Net(s.changes, x) == 0)
  }

  /** The sweep keeps exactly the marked entries, restored to their real quantity, and reports each unmarked entry as removed. */
  lemma {:induction false} SweepFacts(cache: seq<ItemBundle>)
    requires UniqueIds(cache) && NonZero(cache)
    ensures SweepSpec(cache, Sweep(cache))
  {
    if |cache| > 0 {
      var pre := cache[..|cache| - 1];
      var last := cache[|cache| - 1];
      assert cache == pre + [last];
      assert UniqueIds(pre);
      SweepFacts(pre);
      if last.quantity >= 0 {
        SweepDropStep(pre, last);
      } else {
        SweepKeepStep(pre, last);
      }
    }
  }

  /** The sweep reports one change for each unmarked entry and none for anything else. */
  lemma {:induction false} SweepCounts(cache: seq<ItemBundle>)
    requires UniqueIds(cache)
    ensures forall x :: Count(Sweep(cache).changes, x)
                        == (if Present(cache, x) && QuantityTotal(cache, x) >= 0 then 1 else 0)
  {
    if |cache| > 0 {
      var pre := cache[..|cache| - 1];
      var last := cache[|cache| - 1];
      assert cache == pre + [last];
      SnocNew(pre, last);
      SweepCounts(pre);
      SnocTotals(pre, last);
      var rest := Sweep(pre);
      if last.quantity >= 0 {
        forall x
          ensures Count([Removed(last.id, last.quantity)] + rest.changes, x)
                  == (if x == last.id then 1 else 0) + Count(rest.changes, x)
        {
          NetAppend([Removed(last.id, last.quantity)], rest.changes, x);
        }
      }
    }
  }

  lemma SnocNew(pre: seq<ItemBundle>, last: ItemBundle)
    requires UniqueIds(pre + [last])
    ensures !Present(pre, last.id) && UniqueIds(pre)
  {
    var cache := pre + [last];
    assert forall i :: 0 <= i < |pre| ==> cache[i] == pre[i];
    assert cache[|pre|] == last;
  }

  /** The cache grown by one entry of a new id. */
  lemma SnocTotals(pre: seq<ItemBundle>, last: ItemBundle)
    requires !Present(pre, last.id)
    ensures forall x :: QuantityTotal(pre + [last], x)
                        == (if Present(pre, x) then QuantityTotal(pre, x) else if last.id == x then last.quantity else 0)
    ensures forall x :: Present(pre + [last], x) <==> Present(pre, x) || last.id == x
  {
    forall x
      ensures QuantityTotal(pre + [last], x) == (if Present(pre, x) then QuantityTotal(pre, x) else if last.id == x then last.quantity else 0)
      ensures Present(pre + [last], x) <==> Present(pre, x) || last.id == x
    {
      AppendTotals(pre, last, x);
    }
  }

  /** An unmarked last entry is dropped and reported. */
  lemma SweepDropStep(pre: seq<ItemBundle>, last: ItemBundle)
    requires UniqueIds(pre + [last]) && last.quantity > 0
    requires SweepSpec(pre, Sweep(pre))
    ensures SweepSpec(pre + [last], Sweep(pre + [last]))
  {
    var cache := pre + [last];
    assert cache[..|cache| - 1] == pre;
    var rest := Sweep(pre);
    SnocNew(pre, last);
    SnocTotals(pre, last);
    forall x
      ensures Net([Removed(last.id, last.quantity)] + rest.changes, x)
              == (if x == last.id then -last.quantity else 0) + Net(rest.changes, x)
    {
      NetAppend([Removed(last.id, last.quantity)], rest.changes, x);
    }
  }

  /** A marked last entry is kept with its quantity restored. */
  lemma SweepKeepStep(pre: seq<ItemBundle>, last: ItemBundle)
    requires UniqueIds(pre + [last]) && last.quantity < 0
    requires SweepSpec(pre, Sweep(pre))
    ensures SweepSpec(pre + [last], Sweep(pre + [last]))
  {
    var cache := pre + [last];
    assert cache[..|cache| - 1] == pre;
    var rest := Sweep(pre);
    var restored := last.(quantity := -last.quantity);
    var kept := rest.cache + [restored];
    assert Sweep(cache) == Pass(kept, rest.changes);
    SnocNew(pre, last);
    SnocTotals(pre, last);
    assert !Present(rest.cache, last.id);
    SnocTotals(rest.cache, restored);
    KeptUnique(rest.cache, restored);
  }

  lemma KeptUnique(items: seq<ItemBundle>, b: ItemBundle)
    requires UniqueIds(items) && !Present(items, b.id)
    ensures UniqueIds(items + [b])
  {
    var all := items + [b];
    assert forall j :: 0 <= j < |items| ==> all[j] == items[j] && items[j].id != b.id;
    assert all[|items|] == b;
  }

  /**
   * DetectAndPublishChanges leaves the cache equal to the current list, id
   * by id, and the changes it reports replay the difference: for every item
   * the added minus the removed quantities equal new total minus old total.
   * Only positive quantities are ever reported.
   */
  lemma DetectAndPublishChangesCorrect(cache: seq<ItemBundle>, current: seq<ItemBundle>)
    requires UniqueIds(cache) && Positive(cache) && UniqueIds(current) && Positive(current)
    ensures var r := DetectAndPublishChanges(cache, current);
            && UniqueIds(r.cache)
            && (forall x :: QuantityTotal(r.cache, x) == QuantityTotal(current, x))
            && (forall x :: Present(r.cache, x) <==> Present(current, x))
            && (forall x :: Net(r.changes, x) == QuantityTotal(current, x) - QuantityTotal(cache, x))
            && ReportsPositive(r.changes)
            // one event for each item whose quantity changed, and none for an unchanged one
            && (forall x :: Count(r.changes, x) == (if QuantityTotal(current, x) == QuantityTotal(cache, x) then 0 else 1))
  {
    var p := ComparePass(cache, current);
    ComparePassFacts(cache, current);
    ComparePassCounts(cache, current);
    SweepFacts(p.cache);
    SweepCounts(p.cache);
    var s := Sweep(p.cache);
    forall x
      ensures QuantityTotal(s.cache, x) == QuantityTotal(current, x)
      ensures Present(s.cache, x) <==> Present(current, x)
      ensures Net(p.changes + s.changes, x) == QuantityTotal(current, x) - QuantityTotal(cache, x)
      ensures Count(p.changes + s.changes, x) == (if QuantityTotal(current, x) == QuantityTotal(cache, x) then 0 else 1)
    {
      NetAppend(p.changes, s.changes, x);
      if Present(current, x) {
        var i := FindIndex(current, x).value;
        assert QuantityTotal(current, x) == current[i].quantity > 0;
      } else if Present(cache, x) {
        var i := FindIndex(cache, x).value;
        assert QuantityTotal(cache, x) == cache[i].quantity > 0;
      }
    }
  }
}
