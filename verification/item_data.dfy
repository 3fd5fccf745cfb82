/**
 * Static item data (UItemStaticData) and the lookup from item id to data.
 * Only the fields the inventory core reads are kept.
 */
module ItemData {
  import opened Tags
  import opened Wrappers

  datatype ItemDef = ItemDef(
    id: Tag,
    stackable: bool,
    maxStack: int,
    weight: int,
    categories: seq<Tag>,
    jigsawX: int,
    jigsawY: int,
    usesInstances: bool)

  /**
   * The item data the source divides by: stack size and jigsaw extents are
   * positive. Weights are whole and non-negative.
   */
  predicate WellFormed(d: ItemDef)
  {
    d.maxStack >= 1 && d.jigsawX >= 1 && d.jigsawY >= 1 && d.weight >= 0
  }

  /** Item id to item data, standing in for URISSubsystem::GetItemDataById. */
  type Registry = map<Tag, ItemDef>

  predicate RegistryWellFormed(reg: Registry)
  {
    forall id :: id in reg ==> WellFormed(reg[id])
  }

  function DataFor(reg: Registry, id: Tag): Option<ItemDef>
  {
    if id in reg then Some(reg[id]) else None
  }

  /** Grid cells one stack occupies: the jigsaw footprint in jigsaw mode, else one. */
  function SlotsPerStack(d: ItemDef, jigsawMode: bool): (n: int)
    requires WellFormed(d)
    ensures n >= 1
  {
    if jigsawMode then d.jigsawX * d.jigsawY else 1
  }
}
