/**
 * vertices/SystemNode.java, the earlier storage node: its stored ids are an
 * `int[]` that `addToStorage` replaces by a rebuilt array one element longer.
 * Its `Data` registry (net/nowtryz/datastorage/Data.java) is not part of this
 * model; the same id-to-item map as entity/Data stands in for it.
 */
module VerticesNode {
  import opened Registry
  import opened Ledger
  import EntityNode

  class SystemNode {
    const id: int
    const capacity: int
    var storage: array<int>

    /** `SystemNode(capacity)`: an empty array and the counter's next id. */
    constructor (counter: EntityNode.IdCounter, capacity: int)
      modifies counter
      ensures id == old(counter.next) && counter.next == old(counter.next) + 1
      ensures this.capacity == capacity && fresh(storage) && storage[..] == []
    {
      id := counter.next;
      this.capacity := capacity;
      storage := new int[0];
      counter.next := counter.next + 1;
    }

    /** `SystemNode(capacity, dataIds)`: the caller's array itself becomes the storage, uncopied. */
    constructor WithData(counter: EntityNode.IdCounter, capacity: int, dataIds: array<int>)
      modifies counter
      ensures id == old(counter.next) && counter.next == old(counter.next) + 1
      ensures this.capacity == capacity && storage == dataIds
    {
      id := counter.next;
      this.capacity := capacity;
      storage := dataIds;
      counter.next := counter.next + 1;
    }

    /** `addToStorage(id)`: copy the old array into a new one and put `x` last; the old array is untouched. */
    method AddToStorage(x: int)
      modifies this`storage
      ensures fresh(storage)
      ensures storage[..] == old(storage[..]) + [x]
    {
      var old_ := storage;
      var rebuilt := new int[old_.Length + 1];
      var i := 0;
      while i < old_.Length
        invariant 0 <= i <= old_.Length
        invariant rebuilt[..i] == old_[..i]
        modifies rebuilt
      {
        rebuilt[i] := old_[i];
        i := i + 1;
      }
      rebuilt[old_.Length] := x;
      assert rebuilt[..old_.Length] == old_[..];
      assert rebuilt[..] == rebuilt[..old_.Length] + [x];
      storage := rebuilt;
    }

    /** `getUsedSpace()`: the registered sizes of the stored ids; unregistered ids add nothing. */
    function GetUsedSpace(reg: map<int, Item>): (r: int)
      reads this, storage
      ensures NonNegativeSizes(reg) ==> r >= 0
    {
      UsedSpace(storage[..], reg)
    }

    /** `getFreeSpace()`. */
    function GetFreeSpace(reg: map<int, Item>): (r: int)
      reads this, storage
      ensures r + GetUsedSpace(reg) == capacity
    {
      capacity - GetUsedSpace(reg)
    }

    /** `hasEnoughSpace(need)`: the need fits beside what is used. */
    predicate HasEnoughSpace(reg: map<int, Item>, need: int): (b: bool)
      reads this, storage
      ensures b <==> GetUsedSpace(reg) + need <= capacity
    {
      need <= GetFreeSpace(reg)
    }

    /** `getNeighbours()`: always a new empty array. */
    method GetNeighbours() returns (r: array<object>)
      ensures fresh(r) && r.Length == 0
    {
      r := new object[0];
    }
  }

  /** Since the constructor does not copy, two nodes built on one array share their storage until one of them adds. */
  method SharedArray(counter: EntityNode.IdCounter, ids: array<int>, reg: map<int, Item>)
    returns (a: SystemNode, b: SystemNode)
    modifies counter
    ensures a.storage == b.storage == ids
    ensures a.GetUsedSpace(reg) == b.GetUsedSpace(reg)
    ensures a.id + 1 == b.id
  {
    a := new SystemNode.WithData(counter, 10, ids);
    b := new SystemNode.WithData(counter, 20, ids);
  }
}
