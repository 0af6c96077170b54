/**
 * graphs/DataGraph.java, the earlier graph over the vertices/ classes: its
 * `placeData(User)` pours a user's interests along a closest-first walk that
 * never turns back, with the array-backed vertices/SystemNode as the storage
 * node. `addEdge` and `nextSystemNode` there are the ones of Topology.
 */
module LegacyGraph {
  import opened Wrappers
  import opened Registry
  import opened Ledger
  import opened Topology
  import opened Traversal
  import opened VerticesNode

  /** The storage nodes along `order`. */
  function Nodes(order: seq<Vertex<SystemNode>>): (r: set<SystemNode>)
    ensures forall j | 0 <= j < |order| && order[j].Storage? :: order[j].node in r
  {
    set v | v in order && v.Storage? :: v.node
  }

  /** The arrays the storage nodes along `order` currently hold. */
  function Arrays(order: seq<Vertex<SystemNode>>): (r: set<array<int>>)
    reads Nodes(order)
    ensures forall j | 0 <= j < |order| && order[j].Storage? :: order[j].node.storage in r
  {
    set v | v in order && v.Storage? :: v.node.storage
  }

  /** Whether a node has room for a data entry; a null entry has no size to compare. */
  predicate Fits(n: SystemNode, reg: map<int, Item>, data: Option<Item>): (b: bool)
    reads n, n.storage
    ensures b ==> data.Some?
    ensures data.Some? ==> (b <==> UsedSpace(n.storage[..], reg) + data.value.size <= n.capacity)
  {
    data.Some? && n.HasEnoughSpace(reg, data.value.size)
  }

  /** For the entry `getFromId` gives for `x`, fitting is having room for `x`. */
  lemma FitsIsRoom(n: SystemNode, reg: map<int, Item>, x: int)
    ensures Fits(n, reg, GetFromId(reg, x)) == Room(n.storage[..], n.capacity, reg, x)
  {
  }

  /** The ghost copy `stored` agrees with the array of every storage vertex of `order`. */
  ghost predicate Mirror(order: seq<Vertex<SystemNode>>, stored: seq<seq<int>>)
    reads Nodes(order), Arrays(order)
  {
    |stored| == |order| && forall j | 0 <= j < |order| && order[j].Storage? :: order[j].node.storage[..] == stored[j]
  }

  /**
   * The inner `while` of `placeData(User)`: starting from the current node (or
   * from nothing, before the first interest), advance the walk while it can go
   * on and the current node has no room. `nullSize` reports the null entry
   * whose size the loop condition asks for.
   */
  method Seek(order: seq<Vertex<SystemNode>>, cursor: nat, node: Option<SystemNode>, data: Option<Item>,
              reg: map<int, Item>) returns (nullSize: bool, found: Option<SystemNode>, next: nat)
    requires cursor <= |order|
    requires node.Some? ==> 0 < cursor && order[cursor - 1] == Storage(node.value)
    requires node.None? ==> cursor == 0
    ensures nullSize <==> data.None? && exists j | (if node.Some? then cursor - 1 else 0) <= j < |order| - 1 :: order[j].Storage?
    ensures cursor <= next <= |order|
    ensures !nullSize && found.Some? ==> 0 < next && order[next - 1] == Storage(found.value)
    ensures !nullSize && found.Some? ==> next == |order| || Fits(found.value, reg, data)
    ensures !nullSize && found.None? ==> next == |order| && (|order| == 0 || order[|order| - 1].Client?)
    ensures !nullSize && found.None? && data.None? ==> node.None? && NoStorage(order)
    ensures !nullSize ==>
      var start := if node.Some? then cursor - 1 else 0;
      var stop := if found.Some? then next - 1 else next;
      forall j | start <= j < stop && order[j].Storage? :: !Fits(order[j].node, reg, data)
  {
    found, next := node, cursor;
    nullSize := false;
    while next < |order| && (found.None? || !Fits(found.value, reg, data))
      invariant cursor <= next <= |order|
      invariant found.Some? ==> 0 < next && order[next - 1] == Storage(found.value)
      invariant found.None? ==> next == 0 || (next == |order| && order[|order| - 1].Client?)
      invariant found.Some? && node.Some? ==> cursor - 1 <= next - 1
      invariant data.None? ==>
        || (found.Some? && node.Some? && next == cursor)
        || (node.None? && forall j | 0 <= j < (if found.Some? then next - 1 else next) :: order[j].Client?)
      invariant
        var start := if node.Some? then cursor - 1 else 0;
        var stop := if found.Some? then next - 1 else next;
        forall j | start <= j < stop && order[j].Storage? :: !Fits(order[j].node, reg, data)
    {
      if found.Some? && data.None? {
        assert (if node.Some? then cursor - 1 else 0) <= next - 1 < |order| - 1 && order[next - 1].Storage?;
        return true, found, next;
      }
      ghost var was := next;
      found, next := NextSystemNode(order, next);
      assert found.None? ==> order[|order| - 1].Client? by {
        if found.None? {
          assert was <= |order| - 1;
        }
      }
    }
  }

  /** The stored lists of the storage vertices of `order`, position by position (empty at a user). */
  function StoredAlong(order: seq<Vertex<SystemNode>>): (r: seq<seq<int>>)
    reads Nodes(order), Arrays(order)
    ensures |r| == |order| && forall j | 0 <= j < |order| && order[j].Storage? :: r[j] == order[j].node.storage[..]
  {
    seq(|order|, j reads Nodes(order), Arrays(order) requires 0 <= j < |order| =>
      if order[j].Storage? then order[j].node.storage[..] else [])
  }

  /** A ghost copy that agrees with every storage vertex and is empty at every user is `StoredAlong`. */
  lemma MirrorIsStoredAlong(order: seq<Vertex<SystemNode>>, stored: seq<seq<int>>)
    requires |stored| == |order| && forall j | 0 <= j < |order| && order[j].Storage? :: order[j].node.storage[..] == stored[j]
    requires forall j | 0 <= j < |order| && order[j].Client? :: stored[j] == []
    ensures StoredAlong(order) == stored
  {
  }

  /** The capacity of each vertex of `order`; 0 at a user. */
  function Capacities(order: seq<Vertex<SystemNode>>): (r: seq<int>)
    ensures |r| == |order| && forall j | 0 <= j < |order| && order[j].Storage? :: r[j] == order[j].node.capacity
    decreases |order|
  {
    if order == [] then []
    else
      var n := |order| - 1;
      Capacities(order[..n]) + [if order[n].Storage? then order[n].node.capacity else 0]
  }

  /**
   * `addToStorage` on the node at position `c` seen through the ghost copy
   * `stored` of the storage vertices' lists, with the record of the walk
   * extended by the `|at|`-th id going to `c`.
   */
  method DepositTracked(order: seq<Vertex<SystemNode>>, c: nat, x: int, reg: map<int, Item>, ids: seq<int>,
                        ghost at: seq<nat>, ghost base: seq<seq<int>>, ghost stored: seq<seq<int>>)
    returns (ghost after: seq<seq<int>>)
    requires Once(order) && c < |order| && order[c].Storage? && |at| < |ids| && x == ids[|at|]
    requires |stored| == |base| == |order| && forall j | 0 <= j < |order| && order[j].Storage? :: order[j].node.storage[..] == stored[j]
    requires forall j | 0 <= j < |order| && order[j].Client? :: stored[j] == []
    requires forall k | 0 <= k < |at| :: at[k] <= c && order[at[k]].Storage?
    requires RoutedFrom(order, stored, base, ids[..|at|], at)
    requires Skipped(order, stored, Capacities(order), reg, ids, at)
    requires RoomOrLast(order, base, Capacities(order), reg, ids, at)
    requires forall j | Prev(at, |at|) <= j < c && order[j].Storage? :: !Room(stored[j], order[j].node.capacity, reg, x)
    requires c == |order| - 1 || Room(stored[c], order[c].node.capacity, reg, x)
    modifies order[c].node`storage
    ensures |after| == |order| && forall j | 0 <= j < |order| && order[j].Storage? :: order[j].node.storage[..] == after[j]
    ensures forall j | 0 <= j < |order| && order[j].Client? :: after[j] == []
    ensures RoutedFrom(order, after, base, ids[..|at| + 1], at + [c])
    ensures Skipped(order, after, Capacities(order), reg, ids, at + [c])
    ensures RoomOrLast(order, base, Capacities(order), reg, ids, at + [c])
  {
    RoutedStep(order, stored, base, ids, at, c);
    SkippedStep(order, stored, Capacities(order), reg, ids, at, c, x);
    assert RoutedAt(order, stored, base, ids[..|at|], at, c);
    RoomOrLastStep(order, base, Capacities(order), reg, ids, at, c);
    order[c].node.AddToStorage(x);
    after := stored[c := stored[c] + [x]];
    forall j | 0 <= j < |order| && order[j].Storage? ensures order[j].node.storage[..] == after[j] {
      if j < c {
        OnceDistinct(order, j, c);
      } else if c < j {
        OnceDistinct(order, c, j);
      }
    }
  }

  /**
   * The end of a round of `placeData(User)`: the walk for the `|at|`-th id
   * stopped at `found`, just before `next`, after passing over nodes without
   * room; `addToStorage` puts the id there.
   */
  method Settle(order: seq<Vertex<SystemNode>>, reg: map<int, Item>, ids: seq<int>, cursor: nat,
                found: SystemNode, next: nat, d: Item, ghost at: seq<nat>, ghost base: seq<seq<int>>, ghost stored: seq<seq<int>>)
    returns (ghost stored': seq<seq<int>>)
    requires Consistent(reg) && Once(order) && |at| < |ids| && GetFromId(reg, ids[|at|]) == Some(d)
    requires cursor <= next <= |order| && 0 < next && order[next - 1] == Storage(found)
    requires Positions(order, at, cursor)
    requires |base| == |order| && Mirror(order, stored)
    requires forall j | 0 <= j < |order| && order[j].Client? :: stored[j] == []
    requires RoutedFrom(order, stored, base, ids[..|at|], at)
    requires Skipped(order, stored, Capacities(order), reg, ids, at)
    requires RoomOrLast(order, base, Capacities(order), reg, ids, at)
    requires forall j | Prev(at, |at|) <= j < next - 1 && order[j].Storage? :: !Fits(order[j].node, reg, GetFromId(reg, ids[|at|]))
    requires next == |order| || Fits(found, reg, GetFromId(reg, ids[|at|]))
    modifies found`storage
    ensures Mirror(order, stored')
    ensures forall j | 0 <= j < |order| && order[j].Client? :: stored'[j] == []
    ensures Advanced(order, Capacities(order), reg, ids, cursor, next, Some(found), at, base, stored')
  {
    var c: nat := next - 1;
    assert order[c].node == found;
    ghost var x := ids[|at|];
    forall j | Prev(at, |at|) <= j < c && order[j].Storage?
      ensures !Room(stored[j], order[j].node.capacity, reg, x)
    {
      FitsIsRoom(order[j].node, reg, x);
    }
    FitsIsRoom(found, reg, x);
    PositionsStep(order, at, cursor, next);
    stored' := DepositTracked(order, c, d.id, reg, ids, at, base, stored);
  }

  /**
   * The state of the outer loop after `i` interests: the walk as Traversal
   * records it, never turning back, with the ghost copy `stored` in step
   * with the nodes.
   */
  ghost predicate Progress(order: seq<Vertex<SystemNode>>, reg: map<int, Item>, ids: seq<int>, i: nat, cursor: nat,
                           node: Option<SystemNode>, at: seq<nat>, base: seq<seq<int>>, stored: seq<seq<int>>)
    reads Nodes(order), Arrays(order)
  {
    Walk(order, Capacities(order), reg, ids, i, cursor, node, at, base, stored) && Forward(at) && Mirror(order, stored)
  }

  /** A round that advanced the walk, with the nodes in step with `stored'`, moves the loop on by one interest. */
  lemma ProgressStep(order: seq<Vertex<SystemNode>>, reg: map<int, Item>, ids: seq<int>, i: nat, cursor: nat, cursor': nat,
                     node: Option<SystemNode>, node': Option<SystemNode>, at: seq<nat>, base: seq<seq<int>>,
                     stored: seq<seq<int>>, stored': seq<seq<int>>)
    requires |at| == i < |ids| && ids[i] in reg && |base| == |order| && Mirror(order, stored')
    requires Walk(order, Capacities(order), reg, ids, i, cursor, node, at, base, stored) && Forward(at)
    requires Advanced(order, Capacities(order), reg, ids, cursor, cursor', node', at, base, stored')
    requires forall j | 0 <= j < |order| && order[j].Client? :: stored'[j] == []
    ensures 0 < cursor' && Progress(order, reg, ids, i + 1, cursor', node', at + [cursor' - 1], base, stored')
  {
    AdvancedWalk(order, Capacities(order), reg, ids, i, cursor, cursor', node, node', at, base, stored, stored');
  }

  /**
   * The end of a round that found a node: the interest is added to it and
   * the walk moves on to it.
   */
  method Advance(order: seq<Vertex<SystemNode>>, reg: map<int, Item>, ids: seq<int>, i: nat,
                 cursor: nat, node: Option<SystemNode>, found: SystemNode, next: nat, d: Item,
                 ghost at: seq<nat>, ghost base: seq<seq<int>>, ghost stored: seq<seq<int>>)
    returns (node': Option<SystemNode>, cursor': nat, ghost stored': seq<seq<int>>)
    requires Consistent(reg) && Once(order) && i < |ids| && GetFromId(reg, ids[i]) == Some(d)
    requires Progress(order, reg, ids, i, cursor, node, at, base, stored)
    requires cursor <= next <= |order| && 0 < next && order[next - 1] == Storage(found)
    requires forall j | (if node.Some? then cursor - 1 else 0) <= j < next - 1 && order[j].Storage? ::
      !Fits(order[j].node, reg, GetFromId(reg, ids[i]))
    requires next == |order| || Fits(found, reg, GetFromId(reg, ids[i]))
    modifies found`storage
    ensures node' == Some(found) && cursor' == next
    ensures 0 < cursor' && Progress(order, reg, ids, i + 1, cursor', node', at + [cursor' - 1], base, stored')
  {
    node', cursor' := Some(found), next;
    assert (if node.Some? then cursor - 1 else 0) == Prev(at, i);
    stored' := Settle(order, reg, ids, cursor, found, next, d, at, base, stored);
    ProgressStep(order, reg, ids, i, cursor, cursor', node, node', at, base, stored, stored');
  }

  /**
   * The lookup and the inner `while` of one round of `placeData(User)`: the
   * `i`-th interest and the storage vertex the walk stops at for it, or the
   * error the round throws there. Nothing is changed.
   */
  method Locate(order: seq<Vertex<SystemNode>>, reg: map<int, Item>, ids: seq<int>, i: nat,
                cursor: nat, node: Option<SystemNode>,
                ghost at: seq<nat>, ghost base: seq<seq<int>>, ghost stored: seq<seq<int>>)
    returns (res: Outcome, data: Option<Item>, found: Option<SystemNode>, next: nat)
    requires Consistent(reg) && Once(order) && i < |ids|
    requires Progress(order, reg, ids, i, cursor, node, at, base, stored)
    ensures Mirror(order, stored)
    ensures data == GetFromId(reg, ids[i])
    ensures res.Err? ==> Halted(order, Capacities(order), reg, ids, i, at, stored, res)
    ensures res.Ok? ==> data.Some? && found.Some?
    ensures res.Ok? ==> cursor <= next <= |order| && 0 < next && order[next - 1] == Storage(found.value)
    ensures res.Ok? ==> forall j | (if node.Some? then cursor - 1 else 0) <= j < next - 1 && order[j].Storage? ::
      !Fits(order[j].node, reg, data)
    ensures res.Ok? ==> next == |order| || Fits(found.value, reg, data)
  {
    data := GetFromId(reg, ids[i]);
    var nullSize;
    nullSize, found, next := Seek(order, cursor, node, data, reg);
    if nullSize {
      HaltNull(order, Capacities(order), reg, ids, i, at, stored);
      res := Err(NullPointer);
    } else if found.None? {
      forall j | Prev(at, i) <= j < |order| && order[j].Storage?
        ensures !Room(stored[j], Capacities(order)[j], reg, ids[i])
      {
        FitsIsRoom(order[j].node, reg, ids[i]);
      }
      HaltNoRoom(order, Capacities(order), reg, ids, i, at, stored);
      res := Err(NotEnoughSpace);
    } else if data.None? {
      HaltNull(order, Capacities(order), reg, ids, i, at, stored);
      res := Err(NullPointer);
    } else {
      res := Ok;
    }
  }

  /**
   * One round of the outer loop of `placeData(User)`: `Locate` the `i`-th
   * interest and add it where the walk stopped. On an error nothing is
   * changed.
   */
  method PlaceInterest(order: seq<Vertex<SystemNode>>, reg: map<int, Item>, ids: seq<int>, i: nat,
                       cursor: nat, node: Option<SystemNode>,
                       ghost at: seq<nat>, ghost base: seq<seq<int>>, ghost stored: seq<seq<int>>)
    returns (res: Outcome, node': Option<SystemNode>, cursor': nat, ghost stored': seq<seq<int>>)
    requires Consistent(reg) && Once(order) && i < |ids|
    requires Progress(order, reg, ids, i, cursor, node, at, base, stored)
    modifies Nodes(order)
    ensures res.Err? ==> node' == node && cursor' == cursor && stored' == stored
    ensures res.Err? ==> Progress(order, reg, ids, i, cursor, node, at, base, stored)
    ensures res.Err? ==> Halted(order, Capacities(order), reg, ids, i, at, stored, res)
    ensures res.Ok? ==> 0 < cursor' && Progress(order, reg, ids, i + 1, cursor', node', at + [cursor' - 1], base, stored')
  {
    var data, found, next;
    res, data, found, next := Locate(order, reg, ids, i, cursor, node, at, base, stored);
    node', cursor', stored' := node, cursor, stored;
    if res.Ok? {
      node', cursor', stored' := Advance(order, reg, ids, i, cursor, node, found.value, next, data.value, at, base, stored);
    }
  }

  /**
   * The outer loop of `placeData(User)` over the interests `ids`: it stops at
   * the first error, with `placed` interests placed and `cursor`, `node` the
   * walk's position at that point.
   */
  method WalkInterests(order: seq<Vertex<SystemNode>>, reg: map<int, Item>, ids: seq<int>, ghost base: seq<seq<int>>)
    returns (res: Outcome, placed: nat, cursor: nat, node: Option<SystemNode>,
             ghost at: seq<nat>, ghost stored: seq<seq<int>>)
    requires Consistent(reg) && Once(order) && Mirror(order, base)
    requires forall j | 0 <= j < |order| && order[j].Client? :: base[j] == []
    modifies Nodes(order)
    ensures Progress(order, reg, ids, placed, cursor, node, at, base, stored)
    ensures res.Ok? <==> placed == |ids|
    ensures res.Err? ==> Halted(order, Capacities(order), reg, ids, placed, at, stored, res)
  {
    stored := base;
    cursor, node := 0, None;
    res := Ok;
    at := [];
    placed := 0;
    WalkStart(order, Capacities(order), reg, ids, base);
    while placed < |ids|
      invariant placed <= |ids| && res.Ok?
      invariant Progress(order, reg, ids, placed, cursor, node, at, base, stored)
    {
      res, node, cursor, stored := PlaceInterest(order, reg, ids, placed, cursor, node, at, base, stored);
      if res.Err? {
        break;
      }
      at := at + [cursor - 1];
      placed := placed + 1;
    }
  }

  /**
   * `placeData(User)(user)`: the interests, looked up in the registry, go in
   * array order along the closest-first `order` of the vertices from the
   * user. The current node is kept while it has room; otherwise the walk
   * advances, never turning back, to the next storage vertex with room, and
   * it stops at the last vertex whatever the room there. `at[k]` is the
   * position of the node that took the `k`-th interest and `placed` counts
   * the interests placed.
   */
  method PlaceData(user: User, order: seq<Vertex<SystemNode>>, reg: map<int, Item>)
    returns (res: Outcome, ghost placed: nat, ghost at: seq<nat>)
    requires Consistent(reg) && NoDuplicates(order)
    modifies Nodes(order)
    ensures placed <= |user.interests| && |at| == placed
    ensures res.Ok? <==> placed == |user.interests|
    ensures res.Err? ==> res == Err(NullPointer) || res == Err(NotEnoughSpace)
    ensures forall k | 0 <= k < placed :: user.interests[k] in reg
    ensures forall k | 0 <= k < placed :: at[k] < |order| && order[at[k]].Storage?
    ensures forall k, l | 0 <= k < l < placed :: at[k] <= at[l]
    ensures RoutedFrom(order, StoredAlong(order), old(StoredAlong(order)), user.interests[..placed], at)
    ensures Skipped(order, StoredAlong(order), Capacities(order), reg, user.interests, at)
    ensures RoomOrLast(order, old(StoredAlong(order)), Capacities(order), reg, user.interests, at)
    ensures res == Err(NullPointer) ==> user.interests[placed] !in reg
    ensures res == Err(NotEnoughSpace) ==>
      && (|order| == 0 || order[|order| - 1].Client?)
      && (user.interests[placed] in reg || (placed == 0 && NoStorage(order)))
      && forall j | Prev(at, placed) <= j < |order| && order[j].Storage? ::
           !Room(order[j].node.storage[..], order[j].node.capacity, reg, user.interests[placed])
  {
    var n: nat, cursor, node;
    ghost var stored;
    NoDuplicatesOnce(order);
    res, n, cursor, node, at, stored := WalkInterests(order, reg, user.interests, StoredAlong(order));
    placed := n;
    MirrorIsStoredAlong(order, stored);
    ForwardOrdered(at);
  }
}
