/**
 * Item bundles (Data/ItemBundle): an item id with a quantity, and the variant
 * that also carries per-instance data objects.
 */
module Bundle {
  import opened Tags

  /** An (id, quantity) pair; a bundle is valid exactly when its id is. */
  datatype ItemBundle = ItemBundle(id: Tag, quantity: int)

  const Empty: ItemBundle := ItemBundle(EmptyTag, 0)

  predicate Valid(b: ItemBundle)
  {
    IsValid(b.id)
  }

  /** A per-instance data object, known only by its identity. */
  type Instance = nat

  datatype InstanceBundle = InstanceBundle(id: Tag, quantity: int, instances: seq<Instance>)

  /** Number of instances an extract or destroy of `q` acts on: never more than are held. */
  function AffectedCount(b: InstanceBundle, q: int): int
  {
    Min(q, |b.instances|)
  }

  /**
   * DestroyQuantity: drops up to `q` instances from the end; when any were
   * dropped the quantity is re-synchronised with the instance count.
   */
  function DestroyQuantity(b: InstanceBundle, q: int): (r: InstanceBundle)
    ensures r.id == b.id
    ensures AffectedCount(b, q) <= 0 ==> r == b
    ensures AffectedCount(b, q) > 0 ==>
              && |r.instances| == |b.instances| - AffectedCount(b, q)
              && r.quantity == |r.instances|
              && r.instances == b.instances[..|r.instances|]
  {
    var n := AffectedCount(b, q);
    if n > 0 then
      var keep := b.instances[..|b.instances| - n];
      b.(instances := keep, quantity := |keep|)
    else b
  }

  /**
   * What ExtractQuantity leaves behind: the caller sees the updated bundle, the
   * count, and its own array. The array parameter is taken BY VALUE, so the
   * instances appended to the local copy never reach the caller.
   */
  datatype ExtractOutcome = ExtractOutcome(bundle: InstanceBundle, extracted: int, callerArray: seq<Instance>)

  function ExtractQuantity(b: InstanceBundle, q: int, appendTo: seq<Instance>): (r: ExtractOutcome)
    ensures r.extracted == AffectedCount(b, q) && r.extracted <= |b.instances|
    ensures r.bundle == DestroyQuantity(b, q)
    ensures r.callerArray == appendTo
  {
    var n := AffectedCount(b, q);
    if n > 0 then
      var start := |b.instances| - n;
      var localCopy := appendTo + b.instances[start..];
      ExtractOutcome(b.(instances := b.instances[..start], quantity := start), n, appendTo)
    else ExtractOutcome(b, n, appendTo)
  }

  /** As written, an extract can make instances disappear: they end up in neither array. */
  lemma ExtractLosesInstances()
    ensures var b := InstanceBundle("Items.IDs.Knife", 2, [7, 8]);
            var r := ExtractQuantity(b, 1, []);
            && r.extracted == 1
            && 8 !in r.bundle.instances && 8 !in r.callerArray
            && multiset(r.bundle.instances) + multiset(r.callerArray) != multiset(b.instances)
  {
    var b := InstanceBundle("Items.IDs.Knife", 2, [7, 8]);
    var r := ExtractQuantity(b, 1, []);
    assert r.bundle.instances == [7];
    assert multiset(r.bundle.instances) + multiset(r.callerArray) == multiset{7};
    assert 8 in multiset(b.instances);
  }

  /** The evidently intended extract: the caller's array receives the moved instances. */
  function ExtractQuantityByRef(b: InstanceBundle, q: int, appendTo: seq<Instance>): (r: ExtractOutcome)
    ensures r.bundle == DestroyQuantity(b, q)
    ensures r.extracted == AffectedCount(b, q)
    ensures |r.callerArray| >= |appendTo| && r.callerArray[..|appendTo|] == appendTo
    ensures r.bundle.instances + r.callerArray[|appendTo|..] == b.instances
  {
    var n := AffectedCount(b, q);
    if n > 0 then
      var start := |b.instances| - n;
      var moved := b.instances[start..];
      assert b.instances[..start] + moved == b.instances;
      ExtractOutcome(b.(instances := b.instances[..start], quantity := start), n, appendTo + moved)
    else
      assert b.instances + [] == b.instances;
      ExtractOutcome(b, n, appendTo)
  }

  /** Corrected extract conserves instances: every instance is either kept or handed over, exactly once. */
  lemma ExtractByRefConserves(b: InstanceBundle, q: int, appendTo: seq<Instance>)
    ensures var r := ExtractQuantityByRef(b, q, appendTo);
            && multiset(r.bundle.instances) + multiset(r.callerArray) == multiset(b.instances) + multiset(appendTo)
            && |r.callerArray| - |appendTo| == (if r.extracted > 0 then r.extracted else 0)
  {
    var r := ExtractQuantityByRef(b, q, appendTo);
    var moved := r.callerArray[|appendTo|..];
    assert r.callerArray == appendTo + moved;
    assert multiset(r.bundle.instances + moved) == multiset(b.instances);
  }

  /** A destroy is an extract whose output is thrown away. */
  lemma DestroyIsDiscardedExtract(b: InstanceBundle, q: int)
    ensures DestroyQuantity(b, q) == ExtractQuantityByRef(b, q, []).bundle
    ensures AffectedCount(b, q) > 0 ==>
              DestroyQuantity(b, q).instances + ExtractQuantityByRef(b, q, []).callerArray == b.instances
  {
  }
}
