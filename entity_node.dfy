/**
 * entity/SystemNode.java: a storage node with a fixed capacity and a linked
 * list of stored data ids, plus the id counter its constructors draw from.
 */
module EntityNode {
  import opened Registry
  import opened Ledger

  /** A static `current_id` counter, made an explicit object. */
  class IdCounter {
    var next: int

    constructor (start: int)
      ensures next == start
    {
      next := start;
    }
  }

  class SystemNode {
    /** The node id, taken from the counter at construction. */
    const id: int
    /** Fixed at construction; no method changes it. */
    const capacity: int
    /** The `storage` LinkedList of data ids. */
    var storage: seq<int>

    /** `SystemNode(capacity)`: an empty node with the counter's next id. */
    constructor (counter: IdCounter, capacity: int)
      modifies counter
      ensures id == old(counter.next) && counter.next == old(counter.next) + 1
      ensures this.capacity == capacity && storage == []
    {
      id := counter.next;
      this.capacity := capacity;
      storage := [];
      counter.next := counter.next + 1;
    }

    /** `SystemNode(capacity, dataIds)`: the ids are added one by one, in array order. */
    constructor WithData(counter: IdCounter, capacity: int, dataIds: seq<int>)
      modifies counter
      ensures id == old(counter.next) && counter.next == old(counter.next) + 1
      ensures this.capacity == capacity && storage == dataIds
    {
      id := counter.next;
      this.capacity := capacity;
      storage := [];
      counter.next := counter.next + 1;
      new;
      var i := 0;
      while i < |dataIds|
        invariant 0 <= i <= |dataIds|
        invariant storage == dataIds[..i]
        invariant counter.next == old(counter.next) + 1
      {
        AddToStorage(dataIds[i]);
        assert dataIds[..i + 1] == dataIds[..i] + [dataIds[i]];
        i := i + 1;
      }
      assert dataIds[..|dataIds|] == dataIds;
    }

    /** `addToStorage(id)`: append at the end. */
    method AddToStorage(x: int)
      modifies this`storage
      ensures storage == old(storage) + [x]
    {
      storage := storage + [x];
    }

    /** `removeFromStorage(Integer id)`: `List.remove(Object)` drops only the first occurrence. */
    method RemoveFromStorage(x: int)
      modifies this`storage
      ensures storage == RemoveFirst(old(storage), x)
      ensures x !in old(storage) ==> storage == old(storage)
      ensures x in old(storage) ==> |storage| == |old(storage)| - 1
    {
      RemoveFirstSpec(storage, x);
      storage := RemoveFirst(storage, x);
    }

    /** `getUsedSpace()` against the registry `reg`. */
    function GetUsedSpace(reg: map<int, Item>): (r: int)
      reads this
      ensures NonNegativeSizes(reg) ==> r >= 0
    {
      UsedSpace(storage, reg)
    }

    /** `getFreeSpace()`: may be negative once the node is overweight. */
    function GetFreeSpace(reg: map<int, Item>): (r: int)
      reads this
      ensures r + GetUsedSpace(reg) == capacity
    {
      capacity - GetUsedSpace(reg)
    }

    /** `hasEnoughSpace(need)`: the need fits beside what is used. */
    predicate HasEnoughSpace(reg: map<int, Item>, need: int): (b: bool)
      reads this
      ensures b <==> GetUsedSpace(reg) + need <= capacity
    {
      need <= GetFreeSpace(reg)
    }

    /** `isOverweight()`: the negation of `hasEnoughSpace(0)`, i.e. a negative free space. */
    predicate IsOverweight(reg: map<int, Item>): (b: bool)
      reads this
      ensures b <==> !HasEnoughSpace(reg, 0)
      ensures b <==> GetFreeSpace(reg) < 0
    {
      GetUsedSpace(reg) > capacity
    }

    /** `getData()`: a fresh copy of the stored ids, which the caller may change freely. */
    method GetData() returns (copy: array<int>)
      ensures fresh(copy) && copy[..] == storage
    {
      copy := new int[|storage|](i requires 0 <= i < |storage| reads this => storage[i]);
    }

    /** `getCapacity()`. */
    function GetCapacity(): (r: int)
      ensures r == capacity
    {
      capacity
    }
  }

  /** The stored lists of a list of nodes, node by node. */
  function Storages(ns: seq<SystemNode>): (r: seq<seq<int>>)
    reads set n | n in ns
    ensures |r| == |ns| && forall j | 0 <= j < |ns| :: r[j] == ns[j].storage
  {
    if ns == [] then [] else [ns[0].storage] + Storages(ns[1..])
  }

  /**
   * When only the entry `k` of a list of stored lists changed, the union of
   * all stored ids swapped that entry's old ids for its new ones.
   */
  lemma StoragesAfterOne(before: seq<seq<int>>, after: seq<seq<int>>, k: nat)
    requires |before| == |after| && k < |before|
    requires forall j | 0 <= j < |before| && j != k :: after[j] == before[j]
    ensures AllStored(after) + multiset(before[k]) == AllStored(before) + multiset(after[k])
  {
    assert after == before[k := after[k]];
    AllStoredUpdate(before, k, after[k]);
  }

  /** A ghost copy of the stored lists that agrees with every node is the list `Storages` computes. */
  lemma StoragesAre(ns: seq<SystemNode>, stored: seq<seq<int>>)
    requires |stored| == |ns| && forall j | 0 <= j < |ns| :: ns[j].storage == stored[j]
    ensures Storages(ns) == stored
  {
  }

  /** Adding an item to a node that had room for it keeps the node within capacity. */
  lemma AddWithinCapacity(storage: seq<int>, capacity: int, d: Item, reg: map<int, Item>)
    requires d.id in reg && reg[d.id] == d
    requires d.size <= capacity - UsedSpace(storage, reg)
    ensures UsedSpace(storage + [d.id], reg) <= capacity
    ensures UsedSpace(storage + [d.id], reg) == UsedSpace(storage, reg) + d.size
  {
    UsedSpaceAppend(storage, d.id, reg);
  }

  /** A client: after a successful check, adding keeps used space within capacity, and a copy is independent. */
  method AddIfRoom(n: SystemNode, reg: map<int, Item>, d: Item) returns (added: bool)
    requires d.id in reg && reg[d.id] == d
    modifies n`storage
    ensures added == old(n.HasEnoughSpace(reg, d.size))
    ensures added ==> n.storage == old(n.storage) + [d.id] && n.GetUsedSpace(reg) <= n.capacity
    ensures !added ==> n.storage == old(n.storage)
  {
    added := n.HasEnoughSpace(reg, d.size);
    if added {
      AddWithinCapacity(n.storage, n.capacity, d, reg);
      n.AddToStorage(d.id);
      var copy := n.GetData();
      if copy.Length > 0 {
        copy[0] := copy[0] + 1;
      }
    }
  }
}
