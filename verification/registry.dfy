/**
 * URISSubsystem: the process-wide table of loaded item data, and the
 * subsystem's role as an infinite item source.
 */
module Registry {
  import opened Tags
  import opened Wrappers
  import opened ItemData

  datatype Subsystem = Subsystem(
    items: map<Tag, ItemDef>,
    ids: seq<Tag>,
    itemsLoadedBroadcast: bool)

  /** The id list names every registered id exactly once. */
  ghost predicate Indexed(s: Subsystem)
  {
    && (forall id :: id in s.ids <==> id in s.items)
    && (forall i, j :: 0 <= i < j < |s.ids| ==> s.ids[i] != s.ids[j])
  }

  /** Registering an item by hand; an id that is already present is left alone. */
  function HardcodeItem(s: Subsystem, id: Tag, d: ItemDef): (r: Subsystem)
    ensures forall k :: k in s.items ==> k in r.items && r.items[k] == s.items[k]
    ensures id in r.items && (id !in s.items ==> r.items[id] == d)
    ensures r.items.Keys == s.items.Keys + {id}
    ensures Indexed(s) ==> Indexed(r)
    ensures id in s.items ==> r == s
  {
    if id in s.items then s
    else s.(items := s.items[id := d], ids := s.ids + [id])
  }

  function AreAllItemsLoaded(s: Subsystem): bool
  {
    |s.items| > 0
  }

  lemma HardcodeMakesLoaded(s: Subsystem, id: Tag, d: ItemDef)
    ensures AreAllItemsLoaded(HardcodeItem(s, id, d))
    ensures AreAllItemsLoaded(s) <==> s.items != map[]
  {
    assert id in HardcodeItem(s, id, d).items;
  }

  /** Lookup in the loaded table; the asset-manager fallback is not modelled. */
  function GetItemDataById(s: Subsystem, id: Tag): (r: Option<ItemDef>)
    ensures r.Some? <==> id in s.items
    ensures r.Some? ==> r.value == s.items[id]
  {
    DataFor(s.items, id)
  }

  /** The keys of a map in some order (TMap::GenerateKeyArray order is unspecified). */
  ghost function KeyList(m: map<Tag, ItemDef>): (r: seq<Tag>)
    ensures forall k :: k in r <==> k in m
    ensures forall i, j :: 0 <= i < j < |r| ==> r[i] != r[j]
    decreases |m|
  {
    if m == map[] then []
    else
      var k :| k in m;
      var rest := m - {k};
      assert |rest| < |m| by {
        assert rest.Keys == m.Keys - {k};
        assert |rest.Keys| == |m.Keys| - 1;
      }
      var tail := KeyList(rest);
      ConsDistinct(k, tail);
      [k] + tail
  }

  lemma ConsDistinct(k: Tag, tail: seq<Tag>)
    requires k !in tail
    requires forall i, j :: 0 <= i < j < |tail| ==> tail[i] != tail[j]
    ensures forall i, j :: 0 <= i < j < |[k] + tail| ==> ([k] + tail)[i] != ([k] + tail)[j]
  {
  }

  /** Some asset of the batch carries the id. */
  predicate Names(assets: seq<ItemDef>, k: Tag)
  {
    exists i :: 0 <= i < |assets| && assets[i].id == k
  }

  lemma NamesSnoc(assets: seq<ItemDef>)
    requires |assets| > 0
    ensures forall k :: Names(assets, k) <==> Names(assets[..|assets| - 1], k) || assets[|assets| - 1].id == k
  {
    var init := assets[..|assets| - 1];
    forall k | Names(assets, k)
      ensures Names(init, k) || assets[|assets| - 1].id == k
    {
      var i :| 0 <= i < |assets| && assets[i].id == k;
      if i < |assets| - 1 {
        assert init[i].id == k;
      }
    }
    forall k | Names(init, k)
      ensures Names(assets, k)
    {
      var i :| 0 <= i < |init| && init[i].id == k;
      assert assets[i].id == k;
    }
  }

  /** Registering a batch of loaded assets in order; a later asset with the same id replaces an earlier one. */
  function AddAll(items: map<Tag, ItemDef>, assets: seq<ItemDef>): (r: map<Tag, ItemDef>)
    ensures forall k :: k in r <==> k in items || Names(assets, k)
    ensures forall i :: 0 <= i < |assets| ==> assets[i].id in r && r[assets[i].id].id == assets[i].id
    ensures forall k :: k in items && r[k] != items[k] ==> Names(assets, k)
    decreases |assets|
  {
    if |assets| == 0 then items
    else
      var init := assets[..|assets| - 1];
      var last := assets[|assets| - 1];
      var prev := AddAll(items, init);
      NamesSnoc(assets);
      assert forall i :: 0 <= i < |init| ==> init[i] == assets[i];
      prev[last.id := last]
  }

  datatype CallbackResult = CallbackResult(state: Subsystem, broadcast: bool)

  /**
   * AllItemsLoadedCallback: registers the loaded assets, rebuilds the id list and
   * broadcasts once; the flag makes every later call a no-op.
   */
  ghost function AllItemsLoadedCallback(s: Subsystem, assetManagerReady: bool, assets: seq<ItemDef>): (r: CallbackResult)
    ensures s.itemsLoadedBroadcast ==> r == CallbackResult(s, false)
    ensures !s.itemsLoadedBroadcast && assetManagerReady ==> r.broadcast && r.state.itemsLoadedBroadcast && Indexed(r.state)
    ensures !assetManagerReady ==> r.state == s && !r.broadcast
  {
    if s.itemsLoadedBroadcast || !assetManagerReady then CallbackResult(s, false)
    else
      var items := AddAll(s.items, assets);
      CallbackResult(Subsystem(items, KeyList(items), true), true)
  }

  lemma CallbackRunsOnce(s: Subsystem, ready1: bool, assets1: seq<ItemDef>, ready2: bool, assets2: seq<ItemDef>)
    requires ready1
    ensures var once := AllItemsLoadedCallback(s, ready1, assets1);
            AllItemsLoadedCallback(once.state, ready2, assets2) == CallbackResult(once.state, false)
  {
  }
}
