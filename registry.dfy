/**
 * The global data registry of entity/Data.java: every `new Data(size)` takes the
 * next id from a counter and registers itself under that id in a map that
 * `getFromId` consults. The static state becomes an explicit registry object.
 */
module Registry {
  import opened Wrappers

  /** A data item: immutable id and size. */
  datatype Item = Item(id: int, size: int)

  /** The registered items of `reg`, as `getFromId` sees them. */
  function GetFromId(reg: map<int, Item>, id: int): (r: Option<Item>)
    ensures r.Some? <==> id in reg
    ensures r.Some? ==> r.value == reg[id]
  {
    if id in reg then Some(reg[id]) else None
  }

  /** The size an id contributes to a node's used space: unregistered ids are filtered out, so count 0. */
  function SizeOf(reg: map<int, Item>, id: int): (r: int)
    ensures id !in reg ==> r == 0
    ensures id in reg ==> r == reg[id].size
  {
    if id in reg then reg[id].size else 0
  }

  /** Every registered item is stored under its own id (what `new Data` guarantees). */
  predicate Consistent(reg: map<int, Item>)
  {
    forall k | k in reg :: reg[k].id == k
  }

  /** No registered item has a negative size. */
  predicate NonNegativeSizes(reg: map<int, Item>)
  {
    forall k | k in reg :: reg[k].size >= 0
  }

  class DataRegistry {
    /** The static `current_id` counter. */
    var nextId: int
    /** The static `dataList` map from id to item. */
    var items: map<int, Item>

    /** Every registered item is stored under its own id, and every id is below the counter. */
    ghost predicate Valid()
      reads this
    {
      Consistent(items) && forall k | k in items :: k < nextId
    }

    /** The state before any `Data` is created. */
    constructor ()
      ensures Valid() && nextId == 0 && items == map[]
    {
      nextId := 0;
      items := map[];
    }

    /** `new Data(size)`: allocate the next id and register the item under it. */
    method NewData(size: int) returns (d: Item)
      requires Valid()
      modifies this
      ensures Valid()
      ensures d == Item(old(nextId), size)
      ensures nextId == old(nextId) + 1
      ensures old(nextId) !in old(items)
      ensures items == old(items)[d.id := d]
    {
      d := Item(nextId, size);
      items := items[nextId := d];
      nextId := nextId + 1;
    }

    /** `Data.getFromId(id)`. */
    function Lookup(id: int): (r: Option<Item>)
      reads this
      ensures r == GetFromId(items, id)
      ensures Valid() && id >= nextId ==> r == None
    {
      if id in items then Some(items[id]) else None
    }
  }

  /** Two items created one after the other get consecutive, hence distinct, ids, and both stay registered. */
  method CreateTwo(reg: DataRegistry, s1: int, s2: int) returns (d1: Item, d2: Item)
    requires reg.Valid()
    modifies reg
    ensures reg.Valid()
    ensures d2.id == d1.id + 1 && d1.id == old(reg.nextId)
    ensures d1.size == s1 && d2.size == s2
    ensures reg.Lookup(d1.id) == Some(d1) && reg.Lookup(d2.id) == Some(d2)
  {
    d1 := reg.NewData(s1);
    d2 := reg.NewData(s2);
  }
}
