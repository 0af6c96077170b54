/**
 * graph/MakeshiftDataGraph.java, whose three placement methods graph/DataGraph.java
 * repeats word for word: each distinct interest goes to a cheapest node that
 * still has room for it, or a user's interests are poured along a
 * closest-first walk that never turns back.
 */
module Makeshift {
  import opened Wrappers
  import opened Registry
  import opened Ledger
  import opened Topology
  import opened Traversal
  import opened EntityNode

  /** The per-user cost term: `d * d` of the shortest-path weight `d` from the user to the node. */
  type Cost = (User, SystemNode) -> real

  /** Whether a node has room for a data entry; a null entry has no size to compare. */
  predicate Fits(n: SystemNode, reg: map<int, Item>, data: Option<Item>): (b: bool)
    reads n
    ensures b ==> data.Some?
    ensures data.Some? ==> (b <==> UsedSpace(n.storage, reg) + data.value.size <= n.capacity)
  {
    data.Some? && n.HasEnoughSpace(reg, data.value.size)
  }

  /** For the entry `getFromId` gives for `x`, fitting is having room for `x`. */
  lemma FitsIsRoom(n: SystemNode, reg: map<int, Item>, x: int)
    ensures Fits(n, reg, GetFromId(reg, x)) == Room(n.storage, n.capacity, reg, x)
  {
  }

  /**
   * `placeSpecificData(data, users)`: among the nodes with enough space for the
   * item, one of least summed cost gets its id; none at all is "not enough
   * space". The nodes come from the vertex set, so each is listed once.
   */
  method PlaceSpecificData(d: Item, nodes: seq<SystemNode>, users: seq<User>, reg: map<int, Item>, cost: Cost)
    returns (res: Outcome, ghost best: nat)
    requires NoDuplicates(nodes)
    modifies set n | n in nodes
    ensures res.Err? <==> forall n | n in nodes :: !old(n.HasEnoughSpace(reg, d.size))
    ensures res.Err? ==> res.error == NotEnoughSpace && forall n | n in nodes :: n.storage == old(n.storage)
    ensures res.Ok? ==>
      && best < |nodes|
      && old(nodes[best].HasEnoughSpace(reg, d.size))
      && nodes[best].storage == old(nodes[best].storage) + [d.id]
      && (forall n | n in nodes && n != nodes[best] :: n.storage == old(n.storage))
      && forall j | 0 <= j < |nodes| && old(nodes[j].HasEnoughSpace(reg, d.size)) ::
           ComputeScores(nodes[best], users, cost) <= ComputeScores(nodes[j], users, cost)
    ensures res.Ok? && d.id in reg && reg[d.id] == d ==> UsedSpace(nodes[best].storage, reg) <= nodes[best].capacity
  {
    best := 0;
    var found := false;
    var top := 0;
    var topCost := 0.0;
    var j := 0;
    while j < |nodes|
      invariant 0 <= j <= |nodes|
      invariant !found ==> forall i | 0 <= i < j :: !nodes[i].HasEnoughSpace(reg, d.size)
      invariant found ==> top < j && nodes[top].HasEnoughSpace(reg, d.size)
      invariant found ==> topCost == ComputeScores(nodes[top], users, cost)
      invariant found ==> forall i | 0 <= i < j && nodes[i].HasEnoughSpace(reg, d.size) :: topCost <= ComputeScores(nodes[i], users, cost)
    {
      if nodes[j].HasEnoughSpace(reg, d.size) {
        var c := ComputeScores(nodes[j], users, cost);
        if !found || c < topCost {
          found, top, topCost := true, j, c;
        }
      }
      j := j + 1;
    }
    if !found {
      return Err(NotEnoughSpace), 0;
    }
    if d.id in reg && reg[d.id] == d {
      AddWithinCapacity(nodes[top].storage, nodes[top].capacity, d, reg);
    }
    nodes[top].AddToStorage(d.id);
    return Ok, top;
  }

  /**
   * One call of `placeSpecificData` as a change of the stored lists, from
   * `before` to `after`: `nodes[c]` had room for `d`, is of least cost for
   * `interested` among the nodes that had room, and gained the id of `d`.
   */
  ghost predicate CheapestStep(nodes: seq<SystemNode>, reg: map<int, Item>, interested: seq<User>, cost: Cost,
                               before: seq<seq<int>>, after: seq<seq<int>>, d: Item, c: nat)
  {
    && |before| == |nodes| && c < |nodes|
    && UsedSpace(before[c], reg) + d.size <= nodes[c].capacity
    && after == before[c := before[c] + [d.id]]
    && forall j | 0 <= j < |nodes| && UsedSpace(before[j], reg) + d.size <= nodes[j].capacity ::
         ComputeScores(nodes[c], interested, cost) <= ComputeScores(nodes[j], interested, cost)
  }

  /**
   * The first `placed` entries of `pending` went, in order, each to a node
   * `nodes[where[k]]` of least cost among those with room for it at its turn;
   * `hist[k]` holds the stored lists just before entry k.
   */
  ghost predicate CheapestRun(nodes: seq<SystemNode>, reg: map<int, Item>, users: seq<User>, cost: Cost,
                              pending: seq<Option<Item>>, hist: seq<seq<seq<int>>>, where: seq<nat>, placed: nat)
  {
    && placed <= |pending| && |where| == placed && |hist| == placed + 1
    && forall k | 0 <= k < placed ::
         pending[k].Some? &&
         CheapestStep(nodes, reg, Interested(users, pending[k].value.id), cost, hist[k], hist[k + 1], pending[k].value, where[k])
  }

  /** A run extends by one more cheapest step. */
  lemma CheapestRunSnoc(nodes: seq<SystemNode>, reg: map<int, Item>, users: seq<User>, cost: Cost,
                        pending: seq<Option<Item>>, hist: seq<seq<seq<int>>>, where: seq<nat>, i: nat,
                        after: seq<seq<int>>, c: nat)
    requires CheapestRun(nodes, reg, users, cost, pending, hist, where, i)
    requires i < |pending| && pending[i].Some?
    requires CheapestStep(nodes, reg, Interested(users, pending[i].value.id), cost, hist[i], after, pending[i].value, c)
    ensures CheapestRun(nodes, reg, users, cost, pending, hist + [after], where + [c], i + 1)
  {
    var hist', where' := hist + [after], where + [c];
    forall k | 0 <= k < i + 1
      ensures pending[k].Some? &&
        CheapestStep(nodes, reg, Interested(users, pending[k].value.id), cost, hist'[k], hist'[k + 1], pending[k].value, where'[k])
    {
      assert hist'[k] == hist[k] && where'[k] == (if k < i then where[k] else c);
      assert hist'[k + 1] == if k < i then hist[k + 1] else after;
    }
  }

  /**
   * `placeSpecificData` seen from the whole node list: the ghost copy `stored`
   * of every node's storage follows the node that grew, and a node that was
   * within its capacity in `start` still is.
   */
  method PlaceTracked(d: Item, nodes: seq<SystemNode>, users: seq<User>, reg: map<int, Item>, cost: Cost,
                      ghost start: seq<seq<int>>, ghost stored: seq<seq<int>>)
    returns (res: Outcome, ghost best: nat, ghost after: seq<seq<int>>)
    requires NoDuplicates(nodes) && d.id in reg && reg[d.id] == d
    requires |start| == |stored| == |nodes| && forall j | 0 <= j < |nodes| :: nodes[j].storage == stored[j]
    requires forall j | 0 <= j < |nodes| && UsedSpace(start[j], reg) <= nodes[j].capacity ::
               UsedSpace(stored[j], reg) <= nodes[j].capacity
    modifies set n | n in nodes
    ensures |after| == |nodes| && forall j | 0 <= j < |nodes| :: nodes[j].storage == after[j]
    ensures forall j | 0 <= j < |nodes| && UsedSpace(start[j], reg) <= nodes[j].capacity ::
              UsedSpace(after[j], reg) <= nodes[j].capacity
    ensures res.Ok? ==> AllStored(after) == AllStored(stored) + multiset{d.id}
    ensures res.Ok? ==> CheapestStep(nodes, reg, users, cost, stored, after, d, best)
    ensures res.Err? ==> after == stored && res == Err(NotEnoughSpace)
    ensures res.Err? ==> forall n | n in nodes :: !n.HasEnoughSpace(reg, d.size)
  {
    res, best := PlaceSpecificData(d, nodes, users, reg, cost);
    after := stored;
    if res.Ok? {
      after := stored[best := stored[best] + [d.id]];
      forall j | 0 <= j < |nodes| ensures nodes[j].storage == after[j] {
        if j != best {
          assert nodes[j] != nodes[best];
        }
      }
      AllStoredAppend(stored, best, d.id);
    }
  }

  /**
   * The state of the `forEach` of `placeData()` after `i` entries, over the
   * ghost copy `stored` of the nodes' lists: those entries were all present
   * and went where `CheapestRun` records, no id was lost on the way, and a
   * node within its capacity at the start still is.
   */
  ghost predicate EachInv(nodes: seq<SystemNode>, reg: map<int, Item>, users: seq<User>, cost: Cost,
                          pending: seq<Option<Item>>, start: seq<seq<int>>, stored: seq<seq<int>>,
                          hist: seq<seq<seq<int>>>, where: seq<nat>, i: nat)
  {
    && CheapestRun(nodes, reg, users, cost, pending, hist, where, i)
    && hist[0] == start && hist[i] == stored
    && |start| == |stored| == |nodes|
    && (forall k | 0 <= k < i :: pending[k].Some?)
    && AllStored(stored) + PendingIds(pending[i..]) == AllStored(start) + PendingIds(pending)
    && (forall j | 0 <= j < |nodes| && UsedSpace(start[j], reg) <= nodes[j].capacity ::
          UsedSpace(stored[j], reg) <= nodes[j].capacity)
  }

  /**
   * One turn of the `forEach` of `placeData()`: the `i`-th entry throws when
   * null, and otherwise goes through `placeSpecificData`. On success the
   * state moves on by one entry; on a failure nothing changes.
   */
  method PlaceNext(pending: seq<Option<Item>>, users: seq<User>, nodes: seq<SystemNode>, reg: map<int, Item>,
                   cost: Cost, i: nat, ghost start: seq<seq<int>>, ghost stored: seq<seq<int>>,
                   ghost hist: seq<seq<seq<int>>>, ghost where: seq<nat>)
    returns (res: Outcome, ghost stored': seq<seq<int>>, ghost hist': seq<seq<seq<int>>>, ghost where': seq<nat>)
    requires NoDuplicates(nodes) && i < |pending|
    requires forall k | 0 <= k < |pending| && pending[k].Some? :: pending[k].value.id in reg && reg[pending[k].value.id] == pending[k].value
    requires EachInv(nodes, reg, users, cost, pending, start, stored, hist, where, i)
    requires forall j | 0 <= j < |nodes| :: nodes[j].storage == stored[j]
    modifies set n | n in nodes
    ensures |stored'| == |nodes| && forall j | 0 <= j < |nodes| :: nodes[j].storage == stored'[j]
    ensures res.Ok? ==> EachInv(nodes, reg, users, cost, pending, start, stored', hist', where', i + 1)
    ensures res.Err? ==> stored' == stored && hist' == hist && where' == where
    ensures res.Err? ==> res == Err(NullPointer) || res == Err(NotEnoughSpace)
    ensures res == Err(NullPointer) ==> pending[i].None?
    ensures res == Err(NotEnoughSpace) ==>
      pending[i].Some? && forall n | n in nodes :: !n.HasEnoughSpace(reg, pending[i].value.size)
  {
    stored', hist', where' := stored, hist, where;
    if pending[i].None? {
      return Err(NullPointer), stored', hist', where';
    }
    var d := pending[i].value;
    ghost var best;
    res, best, stored' := PlaceTracked(d, nodes, Interested(users, d.id), reg, cost, start, stored);
    if res.Ok? {
      CheapestRunSnoc(nodes, reg, users, cost, pending, hist, where, i, stored', best);
      where', hist' := where + [best], hist + [stored'];
      assert PendingIds(pending[i..]) == multiset{d.id} + PendingIds(pending[i + 1..]) by {
        assert pending[i..][0] == pending[i] && pending[i..][1..] == pending[i + 1..];
      }
    }
  }

  /**
   * The `forEach` of `placeData()` over a list of data entries: each entry in
   * order, with the users interested in it, goes through `placeSpecificData`.
   * A null entry throws when the interest filter asks it for its id; the first
   * failure stops the loop with the earlier placements kept. `placed` counts
   * the entries placed.
   */
  method PlaceEach(pending: seq<Option<Item>>, users: seq<User>, nodes: seq<SystemNode>, reg: map<int, Item>, cost: Cost)
    returns (res: Outcome, ghost placed: nat, ghost where: seq<nat>, ghost hist: seq<seq<seq<int>>>)
    requires NoDuplicates(nodes)
    requires forall k | 0 <= k < |pending| && pending[k].Some? :: pending[k].value.id in reg && reg[pending[k].value.id] == pending[k].value
    modifies set n | n in nodes
    ensures placed <= |pending| && (res.Ok? <==> placed == |pending|)
    ensures forall k | 0 <= k < placed :: pending[k].Some?
    ensures res.Err? ==> res == Err(NullPointer) || res == Err(NotEnoughSpace)
    ensures res == Err(NullPointer) ==> pending[placed].None?
    ensures res == Err(NotEnoughSpace) ==>
      pending[placed].Some? && forall n | n in nodes :: !n.HasEnoughSpace(reg, pending[placed].value.size)
    ensures CheapestRun(nodes, reg, users, cost, pending, hist, where, placed)
    ensures hist[0] == old(Storages(nodes)) && hist[placed] == Storages(nodes)
    ensures AllStored(Storages(nodes)) + PendingIds(pending[placed..]) == old(AllStored(Storages(nodes))) + PendingIds(pending)
    ensures forall j | 0 <= j < |nodes| && old(UsedSpace(nodes[j].storage, reg)) <= nodes[j].capacity ::
              UsedSpace(nodes[j].storage, reg) <= nodes[j].capacity
  {
    ghost var start := Storages(nodes);
    ghost var stored := start;
    where, hist := [], [start];
    res := Ok;
    var i := 0;
    while i < |pending|
      invariant res.Ok? && EachInv(nodes, reg, users, cost, pending, start, stored, hist, where, i)
      invariant forall j | 0 <= j < |nodes| :: nodes[j].storage == stored[j]
    {
      res, stored, hist, where := PlaceNext(pending, users, nodes, reg, cost, i, start, stored, hist, where);
      if res.Err? {
        break;
      }
      i := i + 1;
    }
    StoragesAre(nodes, stored);
    placed := i;
  }

  /** The ids of a list split into those of the entries placed, given as `ids`, and those of the rest. */
  lemma PendingIdsSplit(pending: seq<Option<Item>>, ids: seq<int>, placed: nat)
    requires placed <= |pending| == |ids|
    requires forall k | 0 <= k < placed :: pending[k].Some? && pending[k].value.id == ids[k]
    ensures PendingIds(pending) == multiset(ids[..placed]) + PendingIds(pending[placed..])
  {
    PendingIdsOfPrefix(pending, ids, placed);
    PendingIdsSplitAt(pending, placed);
  }

  /** The entries placed carry the ids given for them. */
  lemma PendingIdsOfPrefix(pending: seq<Option<Item>>, ids: seq<int>, placed: nat)
    requires placed <= |pending| == |ids|
    requires forall k | 0 <= k < placed :: pending[k].Some? && pending[k].value.id == ids[k]
    ensures PendingIds(pending[..placed]) == multiset(ids[..placed])
  {
    PendingIdsOfLookups(pending[..placed], ids[..placed]);
  }

  /** What was stored grew by the ids of the entries placed, once the rest is discounted. */
  lemma PlacedPrefix(pending: seq<Option<Item>>, ids: seq<int>, placed: nat, before: multiset<int>, after: multiset<int>)
    requires placed <= |pending| == |ids|
    requires forall k | 0 <= k < placed :: pending[k].Some? && pending[k].value.id == ids[k]
    requires after + PendingIds(pending[placed..]) == before + PendingIds(pending)
    ensures after == before + multiset(ids[..placed])
  {
    PendingIdsSplit(pending, ids, placed);
    var m, rest := multiset(ids[..placed]), PendingIds(pending[placed..]);
    assert after + rest == (before + m) + rest;
    MultisetCancel(after, before + m, rest);
  }

  /** Looked up in a consistent registry, each entry found carries its own id. */
  lemma LookupsMatch(pending: seq<Option<Item>>, ids: seq<int>, reg: map<int, Item>)
    requires Consistent(reg) && |pending| == |ids|
    requires forall i | 0 <= i < |pending| :: pending[i].None? <==> ids[i] !in reg
    requires forall i | 0 <= i < |pending| :: pending[i].Some? ==> pending[i].value == reg[ids[i]]
    ensures forall k | 0 <= k < |pending| && pending[k].Some? ::
      pending[k].value.id == ids[k] && pending[k].value.id in reg && reg[pending[k].value.id] == pending[k].value
  {
  }

  /**
   * `placeData()`: every distinct interest of the users, looked up in the
   * registry, placed one after the other in first-occurrence order.
   */
  method PlaceData(users: seq<User>, nodes: seq<SystemNode>, reg: map<int, Item>, cost: Cost)
    returns (res: Outcome, ghost placed: nat, ghost where: seq<nat>, ghost hist: seq<seq<seq<int>>>)
    requires Consistent(reg) && NoDuplicates(nodes)
    modifies set n | n in nodes
    ensures placed <= |DataIds(users)| && (res.Ok? <==> placed == |DataIds(users)|)
    ensures forall k | 0 <= k < placed :: DataIds(users)[k] in reg
    ensures res.Err? ==> res == Err(NullPointer) || res == Err(NotEnoughSpace)
    ensures res == Err(NullPointer) ==> DataIds(users)[placed] !in reg
    ensures res == Err(NotEnoughSpace) ==>
      var x := DataIds(users)[placed];
      x in reg && forall n | n in nodes :: !n.HasEnoughSpace(reg, reg[x].size)
    ensures AllStored(Storages(nodes)) == old(AllStored(Storages(nodes))) + multiset(DataIds(users)[..placed])
    ensures forall j | 0 <= j < |nodes| && old(UsedSpace(nodes[j].storage, reg)) <= nodes[j].capacity ::
              UsedSpace(nodes[j].storage, reg) <= nodes[j].capacity
    ensures CheapestRun(nodes, reg, users, cost, GetData(users, reg), hist, where, placed)
    ensures hist[0] == old(Storages(nodes)) && hist[placed] == Storages(nodes)
  {
    var pending := GetData(users, reg);
    ghost var ids := DataIds(users);
    ghost var before := AllStored(Storages(nodes));
    LookupsMatch(pending, ids, reg);
    res, placed, where, hist := PlaceEach(pending, users, nodes, reg, cost);
    PlacedPrefix(pending, ids, placed, before, AllStored(Storages(nodes)));
  }

  /**
   * The no-argument `optimizedPlacement()` of graph/DataGraph.java: the per-item
   * `optimizedPlacement(data, users)` it calls does nothing, so the only effect
   * is the null entry whose id the interest filter asks for.
   */
  method OptimizedPlacement(users: seq<User>, reg: map<int, Item>) returns (res: Outcome)
    ensures res.Ok? <==> AllSome(GetData(users, reg))
    ensures res.Err? ==> res.error == NullPointer
  {
    var pending := GetData(users, reg);
    var i := 0;
    while i < |pending|
      invariant 0 <= i <= |pending|
      invariant forall k | 0 <= k < i :: pending[k].Some?
    {
      if pending[i].None? {
        return Err(NullPointer);
      }
      i := i + 1;
    }
    return Ok;
  }

  /**
   * The inner `while` of `placeUserData`: starting from the current node (or
   * from nothing, before the first interest), advance the walk while it can go
   * on and the current node has no room. `nullSize` reports the null entry
   * whose size the loop condition asks for.
   */
  method Seek(order: seq<Vertex<SystemNode>>, cursor: nat, node: Option<SystemNode>, data: Option<Item>,
              reg: map<int, Item>) returns (nullSize: bool, found: Option<SystemNode>, next: nat)
    requires cursor <= |order|
    requires node.Some? ==> 0 < cursor && order[cursor - 1] == Storage(node.value)
    requires node.None? ==> cursor == 0
    ensures nullSize <==> data.None? && exists j | (if node.Some? then cursor - 1 else 0) <= j < |order| - 1 :: order[j].Storage?
    ensures cursor <= next <= |order|
    ensures !nullSize && found.Some? ==> 0 < next && order[next - 1] == Storage(found.value)
    ensures !nullSize && found.Some? ==> next == |order| || Fits(found.value, reg, data)
    ensures !nullSize && found.None? ==> next == |order| && (|order| == 0 || order[|order| - 1].Client?)
    ensures !nullSize && found.None? && data.None? ==> node.None? && NoStorage(order)
    ensures !nullSize ==>
      var start := if node.Some? then cursor - 1 else 0;
      var stop := if found.Some? then next - 1 else next;
      forall j | start <= j < stop && order[j].Storage? :: !Fits(order[j].node, reg, data)
  {
    found, next := node, cursor;
    nullSize := false;
    while next < |order| && (found.None? || !Fits(found.value, reg, data))
      invariant cursor <= next <= |order|
      invariant found.Some? ==> 0 < next && order[next - 1] == Storage(found.value)
      invariant found.None? ==> next == 0 || (next == |order| && order[|order| - 1].Client?)
      invariant found.Some? && node.Some? ==> cursor - 1 <= next - 1
      invariant data.None? ==>
        || (found.Some? && node.Some? && next == cursor)
        || (node.None? && forall j | 0 <= j < (if found.Some? then next - 1 else next) :: order[j].Client?)
      invariant
        var start := if node.Some? then cursor - 1 else 0;
        var stop := if found.Some? then next - 1 else next;
        forall j | start <= j < stop && order[j].Storage? :: !Fits(order[j].node, reg, data)
    {
      if found.Some? && data.None? {
        assert (if node.Some? then cursor - 1 else 0) <= next - 1 < |order| - 1 && order[next - 1].Storage?;
        return true, found, next;
      }
      ghost var was := next;
      found, next := NextSystemNode(order, next);
      assert found.None? ==> order[|order| - 1].Client? by {
        if found.None? {
          assert was <= |order| - 1;
        }
      }
    }
  }

  /** The stored lists of the storage vertices of `order`, position by position (empty at a user). */
  function StoredAlong(order: seq<Vertex<SystemNode>>): (r: seq<seq<int>>)
    reads set v | v in order && v.Storage? :: v.node
    ensures |r| == |order| && forall j | 0 <= j < |order| && order[j].Storage? :: r[j] == order[j].node.storage
  {
    seq(|order|, j reads set v | v in order && v.Storage? :: v.node requires 0 <= j < |order| =>
      if order[j].Storage? then order[j].node.storage else [])
  }

  /** A ghost copy that agrees with every storage vertex and is empty at every user is `StoredAlong`. */
  lemma MirrorIsStoredAlong(order: seq<Vertex<SystemNode>>, stored: seq<seq<int>>)
    requires |stored| == |order| && forall j | 0 <= j < |order| && order[j].Storage? :: order[j].node.storage == stored[j]
    requires forall j | 0 <= j < |order| && order[j].Client? :: stored[j] == []
    ensures StoredAlong(order) == stored
  {
  }

  /** The ghost copy `stored` agrees with the list of every storage vertex of `order`. */
  ghost predicate Mirror(order: seq<Vertex<SystemNode>>, stored: seq<seq<int>>)
    reads set v | v in order && v.Storage? :: v.node
  {
    |stored| == |order| && forall j | 0 <= j < |order| && order[j].Storage? :: order[j].node.storage == stored[j]
  }

  /** The capacity of each vertex of `order`; 0 at a user. */
  function Capacities(order: seq<Vertex<SystemNode>>): (r: seq<int>)
    ensures |r| == |order| && forall j | 0 <= j < |order| && order[j].Storage? :: r[j] == order[j].node.capacity
    decreases |order|
  {
    if order == [] then []
    else
      var n := |order| - 1;
      Capacities(order[..n]) + [if order[n].Storage? then order[n].node.capacity else 0]
  }

  /**
   * `addToStorage` on the node at position `c` seen through the ghost copy
   * `stored` of the storage vertices' lists, with the record of the walk
   * extended by the `|at|`-th id going to `c`.
   */
  method DepositTracked(order: seq<Vertex<SystemNode>>, c: nat, x: int, reg: map<int, Item>, ids: seq<int>,
                        ghost at: seq<nat>, ghost base: seq<seq<int>>, ghost stored: seq<seq<int>>)
    returns (ghost after: seq<seq<int>>)
    requires Once(order) && c < |order| && order[c].Storage? && |at| < |ids| && x == ids[|at|]
    requires |stored| == |base| == |order| && forall j | 0 <= j < |order| && order[j].Storage? :: order[j].node.storage == stored[j]
    requires forall j | 0 <= j < |order| && order[j].Client? :: stored[j] == []
    requires forall k | 0 <= k < |at| :: at[k] <= c && order[at[k]].Storage?
    requires RoutedFrom(order, stored, base, ids[..|at|], at)
    requires Skipped(order, stored, Capacities(order), reg, ids, at)
    requires RoomOrLast(order, base, Capacities(order), reg, ids, at)
    requires forall j | Prev(at, |at|) <= j < c && order[j].Storage? :: !Room(stored[j], order[j].node.capacity, reg, x)
    requires c == |order| - 1 || Room(stored[c], order[c].node.capacity, reg, x)
    modifies order[c].node`storage
    ensures |after| == |order| && forall j | 0 <= j < |order| && order[j].Storage? :: order[j].node.storage == after[j]
    ensures forall j | 0 <= j < |order| && order[j].Client? :: after[j] == []
    ensures RoutedFrom(order, after, base, ids[..|at| + 1], at + [c])
    ensures Skipped(order, after, Capacities(order), reg, ids, at + [c])
    ensures RoomOrLast(order, base, Capacities(order), reg, ids, at + [c])
  {
    RoutedStep(order, stored, base, ids, at, c);
    SkippedStep(order, stored, Capacities(order), reg, ids, at, c, x);
    assert RoutedAt(order, stored, base, ids[..|at|], at, c);
    RoomOrLastStep(order, base, Capacities(order), reg, ids, at, c);
    order[c].node.AddToStorage(x);
    after := stored[c := stored[c] + [x]];
    forall j | 0 <= j < |order| && order[j].Storage? ensures order[j].node.storage == after[j] {
      if j < c {
        OnceDistinct(order, j, c);
      } else if c < j {
        OnceDistinct(order, c, j);
      }
    }
  }

  /**
   * The end of a round of `placeUserData`: the walk for the `|at|`-th id
   * stopped at `found`, just before `next`, after passing over nodes without
   * room; `addToStorage` puts the id there.
   */
  method Settle(order: seq<Vertex<SystemNode>>, reg: map<int, Item>, ids: seq<int>, cursor: nat,
                found: SystemNode, next: nat, d: Item, ghost at: seq<nat>, ghost base: seq<seq<int>>, ghost stored: seq<seq<int>>)
    returns (ghost stored': seq<seq<int>>)
    requires Consistent(reg) && Once(order) && |at| < |ids| && GetFromId(reg, ids[|at|]) == Some(d)
    requires cursor <= next <= |order| && 0 < next && order[next - 1] == Storage(found)
    requires Positions(order, at, cursor)
    requires |base| == |order| && Mirror(order, stored)
    requires forall j | 0 <= j < |order| && order[j].Client? :: stored[j] == []
    requires RoutedFrom(order, stored, base, ids[..|at|], at)
    requires Skipped(order, stored, Capacities(order), reg, ids, at)
    requires RoomOrLast(order, base, Capacities(order), reg, ids, at)
    requires forall j | Prev(at, |at|) <= j < next - 1 && order[j].Storage? :: !Fits(order[j].node, reg, GetFromId(reg, ids[|at|]))
    requires next == |order| || Fits(found, reg, GetFromId(reg, ids[|at|]))
    modifies found`storage
    ensures Mirror(order, stored')
    ensures forall j | 0 <= j < |order| && order[j].Client? :: stored'[j] == []
    ensures Advanced(order, Capacities(order), reg, ids, cursor, next, Some(found), at, base, stored')
  {
    var c: nat := next - 1;
    assert order[c].node == found;
    ghost var x := ids[|at|];
    forall j | Prev(at, |at|) <= j < c && order[j].Storage?
      ensures !Room(stored[j], order[j].node.capacity, reg, x)
    {
      FitsIsRoom(order[j].node, reg, x);
    }
    FitsIsRoom(found, reg, x);
    PositionsStep(order, at, cursor, next);
    stored' := DepositTracked(order, c, d.id, reg, ids, at, base, stored);
  }

  /**
   * The state of the outer loop after `i` interests: the walk as Traversal
   * records it, never turning back, with the ghost copy `stored` in step
   * with the nodes.
   */
  ghost predicate Progress(order: seq<Vertex<SystemNode>>, reg: map<int, Item>, ids: seq<int>, i: nat, cursor: nat,
                           node: Option<SystemNode>, at: seq<nat>, base: seq<seq<int>>, stored: seq<seq<int>>)
    reads set v | v in order && v.Storage? :: v.node
  {
    Walk(order, Capacities(order), reg, ids, i, cursor, node, at, base, stored) && Forward(at) && Mirror(order, stored)
  }

  /** A round that advanced the walk, with the nodes in step with `stored'`, moves the loop on by one interest. */
  lemma ProgressStep(order: seq<Vertex<SystemNode>>, reg: map<int, Item>, ids: seq<int>, i: nat, cursor: nat, cursor': nat,
                     node: Option<SystemNode>, node': Option<SystemNode>, at: seq<nat>, base: seq<seq<int>>,
                     stored: seq<seq<int>>, stored': seq<seq<int>>)
    requires |at| == i < |ids| && ids[i] in reg && |base| == |order| && Mirror(order, stored')
    requires Walk(order, Capacities(order), reg, ids, i, cursor, node, at, base, stored) && Forward(at)
    requires Advanced(order, Capacities(order), reg, ids, cursor, cursor', node', at, base, stored')
    requires forall j | 0 <= j < |order| && order[j].Client? :: stored'[j] == []
    ensures 0 < cursor' && Progress(order, reg, ids, i + 1, cursor', node', at + [cursor' - 1], base, stored')
  {
    AdvancedWalk(order, Capacities(order), reg, ids, i, cursor, cursor', node, node', at, base, stored, stored');
  }

  /**
   * The end of a round that found a node: the interest is added to it and
   * the walk moves on to it.
   */
  method Advance(order: seq<Vertex<SystemNode>>, reg: map<int, Item>, ids: seq<int>, i: nat,
                 cursor: nat, node: Option<SystemNode>, found: SystemNode, next: nat, d: Item,
                 ghost at: seq<nat>, ghost base: seq<seq<int>>, ghost stored: seq<seq<int>>)
    returns (node': Option<SystemNode>, cursor': nat, ghost stored': seq<seq<int>>)
    requires Consistent(reg) && Once(order) && i < |ids| && GetFromId(reg, ids[i]) == Some(d)
    requires Progress(order, reg, ids, i, cursor, node, at, base, stored)
    requires cursor <= next <= |order| && 0 < next && order[next - 1] == Storage(found)
    requires forall j | (if node.Some? then cursor - 1 else 0) <= j < next - 1 && order[j].Storage? ::
      !Fits(order[j].node, reg, GetFromId(reg, ids[i]))
    requires next == |order| || Fits(found, reg, GetFromId(reg, ids[i]))
    modifies found`storage
    ensures node' == Some(found) && cursor' == next
    ensures 0 < cursor' && Progress(order, reg, ids, i + 1, cursor', node', at + [cursor' - 1], base, stored')
  {
    node', cursor' := Some(found), next;
    assert (if node.Some? then cursor - 1 else 0) == Prev(at, i);
    stored' := Settle(order, reg, ids, cursor, found, next, d, at, base, stored);
    ProgressStep(order, reg, ids, i, cursor, cursor', node, node', at, base, stored, stored');
  }

  /**
   * The lookup and the inner `while` of one round of `placeUserData`: the
   * `i`-th interest and the storage vertex the walk stops at for it, or the
   * error the round throws there. Nothing is changed.
   */
  method Locate(order: seq<Vertex<SystemNode>>, reg: map<int, Item>, ids: seq<int>, i: nat,
                cursor: nat, node: Option<SystemNode>,
                ghost at: seq<nat>, ghost base: seq<seq<int>>, ghost stored: seq<seq<int>>)
    returns (res: Outcome, data: Option<Item>, found: Option<SystemNode>, next: nat)
    requires Consistent(reg) && Once(order) && i < |ids|
    requires Progress(order, reg, ids, i, cursor, node, at, base, stored)
    ensures Mirror(order, stored)
    ensures data == GetFromId(reg, ids[i])
    ensures res.Err? ==> Halted(order, Capacities(order), reg, ids, i, at, stored, res)
    ensures res.Ok? ==> data.Some? && found.Some?
    ensures res.Ok? ==> cursor <= next <= |order| && 0 < next && order[next - 1] == Storage(found.value)
    ensures res.Ok? ==> forall j | (if node.Some? then cursor - 1 else 0) <= j < next - 1 && order[j].Storage? ::
      !Fits(order[j].node, reg, data)
    ensures res.Ok? ==> next == |order| || Fits(found.value, reg, data)
  {
    data := GetFromId(reg, ids[i]);
    var nullSize;
    nullSize, found, next := Seek(order, cursor, node, data, reg);
    if nullSize {
      HaltNull(order, Capacities(order), reg, ids, i, at, stored);
      res := Err(NullPointer);
    } else if found.None? {
      forall j | Prev(at, i) <= j < |order| && order[j].Storage?
        ensures !Room(stored[j], Capacities(order)[j], reg, ids[i])
      {
        FitsIsRoom(order[j].node, reg, ids[i]);
      }
      HaltNoRoom(order, Capacities(order), reg, ids, i, at, stored);
      res := Err(NotEnoughSpace);
    } else if data.None? {
      HaltNull(order, Capacities(order), reg, ids, i, at, stored);
      res := Err(NullPointer);
    } else {
      res := Ok;
    }
  }

  /**
   * One round of the outer loop of `placeUserData`: `Locate` the `i`-th
   * interest and add it where the walk stopped. On an error nothing is
   * changed.
   */
  method PlaceInterest(order: seq<Vertex<SystemNode>>, reg: map<int, Item>, ids: seq<int>, i: nat,
                       cursor: nat, node: Option<SystemNode>,
                       ghost at: seq<nat>, ghost base: seq<seq<int>>, ghost stored: seq<seq<int>>)
    returns (res: Outcome, node': Option<SystemNode>, cursor': nat, ghost stored': seq<seq<int>>)
    requires Consistent(reg) && Once(order) && i < |ids|
    requires Progress(order, reg, ids, i, cursor, node, at, base, stored)
    modifies set v | v in order && v.Storage? :: v.node
    ensures res.Err? ==> node' == node && cursor' == cursor && stored' == stored
    ensures res.Err? ==> Progress(order, reg, ids, i, cursor, node, at, base, stored)
    ensures res.Err? ==> Halted(order, Capacities(order), reg, ids, i, at, stored, res)
    ensures res.Ok? ==> 0 < cursor' && Progress(order, reg, ids, i + 1, cursor', node', at + [cursor' - 1], base, stored')
  {
    var data, found, next;
    res, data, found, next := Locate(order, reg, ids, i, cursor, node, at, base, stored);
    node', cursor', stored' := node, cursor, stored;
    if res.Ok? {
      node', cursor', stored' := Advance(order, reg, ids, i, cursor, node, found.value, next, data.value, at, base, stored);
    }
  }

  /**
   * The outer loop of `placeUserData` over the interests `ids`: it stops at
   * the first error, with `placed` interests placed and `cursor`, `node` the
   * walk's position at that point.
   */
  method WalkInterests(order: seq<Vertex<SystemNode>>, reg: map<int, Item>, ids: seq<int>, ghost base: seq<seq<int>>)
    returns (res: Outcome, placed: nat, cursor: nat, node: Option<SystemNode>,
             ghost at: seq<nat>, ghost stored: seq<seq<int>>)
    requires Consistent(reg) && Once(order) && Mirror(order, base)
    requires forall j | 0 <= j < |order| && order[j].Client? :: base[j] == []
    modifies set v | v in order && v.Storage? :: v.node
    ensures Progress(order, reg, ids, placed, cursor, node, at, base, stored)
    ensures res.Ok? <==> placed == |ids|
    ensures res.Err? ==> Halted(order, Capacities(order), reg, ids, placed, at, stored, res)
  {
    stored := base;
    cursor, node := 0, None;
    res := Ok;
    at := [];
    placed := 0;
    WalkStart(order, Capacities(order), reg, ids, base);
    while placed < |ids|
      invariant placed <= |ids| && res.Ok?
      invariant Progress(order, reg, ids, placed, cursor, node, at, base, stored)
    {
      res, node, cursor, stored := PlaceInterest(order, reg, ids, placed, cursor, node, at, base, stored);
      if res.Err? {
        break;
      }
      at := at + [cursor - 1];
      placed := placed + 1;
    }
  }

  /**
   * `placeUserData(user)`: the interests, looked up in the registry, go in
   * array order along the closest-first `order` of the vertices from the
   * user. The current node is kept while it has room; otherwise the walk
   * advances, never turning back, to the next storage vertex with room, and
   * it stops at the last vertex whatever the room there. `at[k]` is the
   * position of the node that took the `k`-th interest and `placed` counts
   * the interests placed.
   */
  method PlaceUserData(user: User, order: seq<Vertex<SystemNode>>, reg: map<int, Item>)
    returns (res: Outcome, ghost placed: nat, ghost at: seq<nat>)
    requires Consistent(reg) && NoDuplicates(order)
    modifies set v | v in order && v.Storage? :: v.node
    ensures placed <= |user.interests| && |at| == placed
    ensures res.Ok? <==> placed == |user.interests|
    ensures res.Err? ==> res == Err(NullPointer) || res == Err(NotEnoughSpace)
    ensures forall k | 0 <= k < placed :: user.interests[k] in reg
    ensures forall k | 0 <= k < placed :: at[k] < |order| && order[at[k]].Storage?
    ensures forall k, l | 0 <= k < l < placed :: at[k] <= at[l]
    ensures RoutedFrom(order, StoredAlong(order), old(StoredAlong(order)), user.interests[..placed], at)
    ensures Skipped(order, StoredAlong(order), Capacities(order), reg, user.interests, at)
    ensures RoomOrLast(order, old(StoredAlong(order)), Capacities(order), reg, user.interests, at)
    ensures res == Err(NullPointer) ==> user.interests[placed] !in reg
    ensures res == Err(NotEnoughSpace) ==>
      && (|order| == 0 || order[|order| - 1].Client?)
      && (user.interests[placed] in reg || (placed == 0 && NoStorage(order)))
      && forall j | Prev(at, placed) <= j < |order| && order[j].Storage? ::
           !Room(order[j].node.storage, order[j].node.capacity, reg, user.interests[placed])
  {
    var n: nat, cursor, node;
    ghost var stored;
    NoDuplicatesOnce(order);
    res, n, cursor, node, at, stored := WalkInterests(order, reg, user.interests, StoredAlong(order));
    placed := n;
    MirrorIsStoredAlong(order, stored);
    ForwardOrdered(at);
  }
}
