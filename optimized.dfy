/**
 * graph/OptimizedDataGraph.java: optimistic placement of every pending item on
 * its best-scoring node regardless of capacity, then a knapsack per
 * overweight node that evicts what it does not select and retires the node,
 * round after round until nothing is pending or no node is left.
 */
module Optimized {
  import opened Wrappers
  import opened Registry
  import opened Ledger
  import opened ArraysUtils
  import opened Topology
  import opened Knapsack
  import opened EntityNode

  /** The per-user score term: `1 / (d * d)` of the shortest-path weight `d` from the user to the node. */
  type Term = (User, SystemNode) -> real

  /**
   * The score map of `removeInvalidData`: `Collectors.toMap` over the stored
   * ids in order, keyed by data id. An unregistered id is a null `Data` whose
   * `getId` throws; a repeated id is a duplicate key.
   */
  function ScoreMap(ids: seq<int>, acc: map<int, real>, node: SystemNode, reg: map<int, Item>,
                    users: seq<User>, term: Term): (r: Result<map<int, real>>)
    ensures r.Success? <==>
      (forall x | x in ids :: x in reg) && NoDuplicates(ids) && (forall x | x in ids :: x !in acc)
    ensures r.Failure? ==> r.error in {NullPointer, DuplicateKey}
    ensures r.Success? ==>
      && r.value.Keys == acc.Keys + (set x | x in ids)
      && (forall k | k in acc :: r.value[k] == acc[k])
      && (forall x | x in ids :: r.value[x] == ComputeScores(node, Interested(users, x), term))
  {
    if ids == [] then Success(acc)
    else if ids[0] !in reg then var y := ids[0]; assert y in ids && y !in reg; Failure(NullPointer)
    else if ids[0] in acc then var y := ids[0]; assert y in ids && y in acc; Failure(DuplicateKey)
    else
      var x := ids[0];
      var r := ScoreMap(ids[1..], acc[x := ComputeScores(node, Interested(users, x), term)], node, reg, users, term);
      assert forall y | y in ids :: y == x || y in ids[1..];
      assert (set y | y in ids) == {x} + (set y | y in ids[1..]);
      NoDuplicatesCons(ids);
      r
  }

  /** The `weights` map of the `KnapSack` constructor: the size of each distinct stored id. */
  function WeightMap(ids: seq<int>, reg: map<int, Item>): (w: map<int, int>)
    ensures w.Keys == set x | x in ids && x in reg
    ensures forall x | x in w :: w[x] == reg[x].size
  {
    map x | x in ids && x in reg :: reg[x].size
  }

  /**
   * What `removeInvalidData` asks the knapsack for on a node storing `s`:
   * the score map first, then `startCompute` over the distinct stored ids
   * (a `LinkedHashSet`, so first-occurrence order) with the node's capacity.
   */
  function KnapsackFor(node: SystemNode, s: seq<int>, reg: map<int, Item>, users: seq<User>, term: Term): (r: Result<Selection>)
    ensures !((forall x | x in s :: x in reg) && NoDuplicates(s)) ==> r.Failure? && r.error in {NullPointer, DuplicateKey}
    ensures r.Failure? ==> r.error in {NullPointer, DuplicateKey}
    ensures r.Success? && r.value.selected.Some? ==>
      IncreasingIn(r.value.selected.value, 0, |s|) && r.value.totalWeight <= node.capacity
  {
    match ScoreMap(s, map[], node, reg, users, term)
    case Failure(e) => Failure(e)
    case Success(scores) =>
      var ids := Distinct(s);
      StartCompute(|ids|, node.capacity, scores, WeightMap(ids, reg))
  }

  /** A node the placement leaves alone: within its capacity, or storing nothing. */
  predicate Settled(storage: seq<int>, capacity: int, reg: map<int, Item>)
  {
    UsedSpace(storage, reg) <= capacity || storage == []
  }

  /** The ids of a list of items. */
  function Ids(items: seq<Item>): (r: seq<int>)
    ensures |r| == |items| && forall i | 0 <= i < |items| :: r[i] == items[i].id
  {
    if items == [] then [] else [items[0].id] + Ids(items[1..])
  }

  /** Ids distribute over appending one item. */
  lemma {:induction false} IdsSnoc(items: seq<Item>, d: Item)
    ensures Ids(items + [d]) == Ids(items) + [d.id]
  {
    var l, r := Ids(items + [d]), Ids(items) + [d.id];
    assert |l| == |r|;
    forall i | 0 <= i < |l| ensures l[i] == r[i] {
      assert (items + [d])[i] == if i < |items| then items[i] else d;
    }
  }

  /**
   * `removeInvalidData(node)`: run the knapsack on the node and remove, one
   * `removeFromStorage` call each and in storage order, every stored entry
   * whose value is not in the selected set; return the removed entries as
   * items. Every exception is raised before the first removal.
   */
  method RemoveInvalidData(node: SystemNode, reg: map<int, Item>, users: seq<User>, term: Term)
    returns (res: Result<seq<Item>>)
    requires Consistent(reg)
    modifies node`storage
    ensures var k := KnapsackFor(node, old(node.storage), reg, users, term);
      && (res.Failure? <==> k.Failure? || (k.value.selected.None? && old(node.storage) != []))
      && (res.Failure? ==> res.error == if k.Failure? then k.error else NullPointer)
      && (res.Failure? ==> node.storage == old(node.storage))
      && (res.Success? && k.value.selected.None? ==> node.storage == old(node.storage) == [] && res.value == [])
      && (res.Success? && k.value.selected.Some? ==>
            && node.storage == Kept(old(node.storage), k.value.selected.value)
            && Ids(res.value) == Evicted(old(node.storage), k.value.selected.value)
            && forall d | d in res.value :: d.id in reg && reg[d.id] == d)
    ensures res.Success? ==> Settled(node.storage, node.capacity, reg)
    ensures res.Success? ==> multiset(old(node.storage)) == multiset(node.storage) + multiset(Ids(res.value))
  {
    // the stream runs over the copy returned by getData()
    var snapshot := node.storage;
    var result := KnapsackFor(node, snapshot, reg, users, term);
    if result.Failure? {
      return Failure(result.error);
    }
    var selection := result.value.selected;
    if selection.None? {
      // `result.selected.contains(x)` dereferences the null set at the first stored entry
      if snapshot != [] {
        return Failure(NullPointer);
      }
      return Success([]);
    }
    var sel := selection.value;
    assert forall x | x in snapshot :: x in reg by {
      assert ScoreMap(snapshot, map[], node, reg, users, term).Success?;
    }
    var evicted := EvictUnselected(node, snapshot, sel, reg);
    EvictionWithinCapacity(node, snapshot, reg, users, term);
    KeptEvictedPartition(snapshot, sel);
    return Success(evicted);
  }

  /**
   * The stream of `removeInvalidData` once the selection is known: every
   * stored entry outside `sel`, in storage order, is removed from the node
   * and collected as its registered item.
   */
  method EvictUnselected(node: SystemNode, snapshot: seq<int>, sel: seq<int>, reg: map<int, Item>)
    returns (evicted: seq<Item>)
    requires node.storage == snapshot
    requires Consistent(reg) && forall x | x in snapshot :: x in reg
    modifies node`storage
    ensures node.storage == Kept(snapshot, sel)
    ensures Ids(evicted) == Evicted(snapshot, sel)
    ensures forall d | d in evicted :: d.id in reg && reg[d.id] == d
  {
    evicted := [];
    var i := 0;
    while i < |snapshot|
      invariant 0 <= i <= |snapshot|
      invariant node.storage == Kept(snapshot[..i], sel) + snapshot[i..]
      invariant Ids(evicted) == Evicted(snapshot[..i], sel)
      invariant forall d | d in evicted :: d.id in reg && reg[d.id] == d
    {
      var x := snapshot[i];
      ScanStep(snapshot, i, sel);
      if x !in sel {
        node.RemoveFromStorage(x);
        var d := reg[x];
        assert x in snapshot && d.id == x && reg[d.id] == d;
        assert Ids(evicted + [d]) == Ids(evicted) + [x] by {
          IdsSnoc(evicted, d);
        }
        assert forall e | e in evicted + [d] :: e in evicted || e == d;
        evicted := evicted + [d];
      }
      i := i + 1;
    }
    assert snapshot[..i] == snapshot;
  }

  /** One step of the scan over `snapshot`: entry i is kept in place or removed and evicted. */
  lemma ScanStep(snapshot: seq<int>, i: nat, sel: seq<int>)
    requires i < |snapshot|
    ensures var x, now := snapshot[i], Kept(snapshot[..i], sel) + snapshot[i..];
      && (x in sel ==> now == Kept(snapshot[..i + 1], sel) + snapshot[i + 1..])
      && (x !in sel ==> RemoveFirst(now, x) == Kept(snapshot[..i + 1], sel) + snapshot[i + 1..])
      && Evicted(snapshot[..i + 1], sel) == Evicted(snapshot[..i], sel) + (if x in sel then [] else [x])
  {
    var x, pre, rest := snapshot[i], snapshot[..i], snapshot[i + 1..];
    assert snapshot[..i + 1] == pre + [x] && snapshot[i..] == [x] + rest;
    KeptStep(pre, x, rest, sel);
  }

  /** Each selected position is a stored id with its registered size as weight, so the kept entries weigh what the selection weighs. */
  lemma {:induction false} WeightIsUsedSpace(sel: seq<int>, weights: map<int, int>, reg: map<int, Item>)
    requires forall x | x in sel :: x in weights && x in reg && weights[x] == reg[x].size
    ensures Weight(sel, weights) == UsedSpace(sel, reg)
  {
    if sel != [] {
      WeightIsUsedSpace(sel[1..], weights, reg);
    }
  }

  /** An increasing sequence has no duplicates. */
  lemma IncreasingNoDuplicates(t: seq<int>, lo: int, hi: int)
    requires IncreasingIn(t, lo, hi)
    ensures NoDuplicates(t)
  {
  }

  /**
   * When the knapsack returns a non-null selection, the entries the eviction
   * keeps use no more space than the node's capacity.
   */
  lemma EvictionWithinCapacity(node: SystemNode, s: seq<int>, reg: map<int, Item>, users: seq<User>, term: Term)
    requires Consistent(reg)
    requires KnapsackFor(node, s, reg, users, term).Success?
    requires KnapsackFor(node, s, reg, users, term).value.selected.Some?
    ensures UsedSpace(Kept(s, KnapsackFor(node, s, reg, users, term).value.selected.value), reg) <= node.capacity
  {
    var scores := ScoreMap(s, map[], node, reg, users, term).value;
    var ids := Distinct(s);
    var weights := WeightMap(ids, reg);
    var r := StartCompute(|ids|, node.capacity, scores, weights).value;
    var sel := r.selected.value;
    assert Keyed(sel, scores, weights);
    assert forall x | x in sel :: x in s;
    IncreasingNoDuplicates(sel, 0, |ids|);
    KeptNoDuplicates(s, sel);
    var kept := Kept(s, sel);
    KeptEvictedPartition(s, sel);
    SameElementsPermutation(kept, sel);
    UsedSpacePermutation(kept, sel, reg);
    WeightIsUsedSpace(sel, weights, reg);
  }

  /**
   * As written, a node whose distinct stored ids are not exactly 0 .. n-1
   * makes the knapsack throw once its capacity is non-negative: position p is
   * looked up as a data id that the node does not store.
   */
  lemma KnapsackNeedsIdsAsPositions(node: SystemNode, s: seq<int>, reg: map<int, Item>, users: seq<User>, term: Term)
    requires Consistent(reg) && node.capacity >= 0
    requires KnapsackFor(node, s, reg, users, term).Success?
    ensures NoDuplicates(s) && Distinct(s) == s
    ensures forall x :: x in s <==> 0 <= x < |s|
  {
    var scores := ScoreMap(s, map[], node, reg, users, term).value;
    var ids := Distinct(s);
    DistinctOfDistinct(s);
    StartComputeNeedsPositionKeys(|s|, node.capacity, scores, WeightMap(s, reg));
    forall p | 0 <= p < |s| ensures p in s {
      assert p in scores;
    }
    IndicesFill(s);
  }

  /** A node storing ids 1 and 2 (sizes registered) is rejected with a NullPointerException: position 0 is no stored id. */
  lemma IdsOneTwoThrow(node: SystemNode, users: seq<User>, term: Term)
    requires node.capacity >= 0
    ensures KnapsackFor(node, [1, 2], map[1 := Item(1, 25), 2 := Item(2, 25)], users, term).Failure?
  {
    var reg := map[1 := Item(1, 25), 2 := Item(2, 25)];
    if KnapsackFor(node, [1, 2], reg, users, term).Success? {
      KnapsackNeedsIdsAsPositions(node, [1, 2], reg, users, term);
      assert false;
    }
  }

  /**
   * `putOnBestSpot(data, nodes, users)`: append the id to a node of highest
   * score, whatever its free space; no node at all is "not enough space".
   * The score map is keyed by node, so a repeated node is a duplicate key.
   */
  method PutOnBestSpot(d: Item, nodes: seq<SystemNode>, users: seq<User>, term: Term)
    returns (res: Outcome, ghost best: nat)
    modifies set n | n in nodes
    ensures res == (if !NoDuplicates(nodes) then Err(DuplicateKey) else if nodes == [] then Err(NotEnoughSpace) else Ok)
    ensures res.Err? ==> forall n | n in nodes :: n.storage == old(n.storage)
    ensures res.Ok? ==>
      && best < |nodes|
      && nodes[best].storage == old(nodes[best].storage) + [d.id]
      && (forall n | n in nodes && n != nodes[best] :: n.storage == old(n.storage))
      && forall j | 0 <= j < |nodes| :: ComputeScores(nodes[j], users, term) <= ComputeScores(nodes[best], users, term)
  {
    best := 0;
    if !NoDuplicates(nodes) {
      return Err(DuplicateKey), 0;
    }
    if nodes == [] {
      return Err(NotEnoughSpace), 0;
    }
    var top := 0;
    var topScore := ComputeScores(nodes[0], users, term);
    var j := 1;
    while j < |nodes|
      invariant 1 <= j <= |nodes| && top < j
      invariant topScore == ComputeScores(nodes[top], users, term)
      invariant forall i | 0 <= i < j :: ComputeScores(nodes[i], users, term) <= topScore
    {
      var score := ComputeScores(nodes[j], users, term);
      if score > topScore {
        top, topScore := j, score;
      }
      j := j + 1;
    }
    nodes[top].AddToStorage(d.id);
    return Ok, top;
  }

  /**
   * The bookkeeping of one eviction: the ids the node lost move from the
   * stored lists to the pending list, so their union is unchanged.
   */
  lemma EvictionAccounting(before: seq<seq<int>>, after: seq<seq<int>>, evicted: seq<Item>,
                           next: seq<Option<Item>>, start: multiset<int>)
    requires AllStored(after) + multiset(Ids(evicted)) == AllStored(before)
    requires AllSome(next) && AllStored(before) + PendingIds(next) == start
    ensures AllSome(next + Somes(evicted))
    ensures AllStored(after) + PendingIds(next + Somes(evicted)) == start
  {
    var more := Somes(evicted);
    PendingIdsConcat(next, more);
    assert forall i | 0 <= i < |next + more| :: (next + more)[i] == if i < |next| then next[i] else more[i - |next|];
  }

  /** Every item of a list as a non-null data entry. */
  function Somes(items: seq<Item>): (r: seq<Option<Item>>)
    ensures AllSome(r) && PendingIds(r) == multiset(Ids(items))
  {
    var r := seq(|items|, i requires 0 <= i < |items| => Some(items[i]));
    PendingIdsOfLookups(r, Ids(items));
    r
  }

  /**
   * One call of `putOnBestSpot` as a change of the stored lists of `all`, from
   * `before` to `after`: `open[c]`, a node of highest score for `interested`
   * among the open nodes, gained the id of `d` and no other list changed.
   */
  ghost predicate BestStep(open: seq<SystemNode>, all: seq<SystemNode>, interested: seq<User>, term: Term,
                           before: seq<seq<int>>, after: seq<seq<int>>, d: Item, c: nat)
  {
    && c < |open| && |before| == |all| && |after| == |all|
    && (forall j | 0 <= j < |all| :: after[j] == if all[j] == open[c] then before[j] + [d.id] else before[j])
    && forall j | 0 <= j < |open| :: ComputeScores(open[j], interested, term) <= ComputeScores(open[c], interested, term)
  }

  /**
   * The first `placed` entries of `pending` went, in order, each to a node
   * `open[where[k]]` of highest score for the users interested in it;
   * `hist[k]` holds the stored lists of `all` just before entry k.
   */
  ghost predicate BestRun(open: seq<SystemNode>, all: seq<SystemNode>, users: seq<User>, term: Term,
                          pending: seq<Option<Item>>, hist: seq<seq<seq<int>>>, where: seq<nat>, placed: nat)
  {
    && placed <= |pending| && |where| == placed && |hist| == placed + 1
    && forall k | 0 <= k < placed ::
         pending[k].Some? &&
         BestStep(open, all, Interested(users, pending[k].value.id), term, hist[k], hist[k + 1], pending[k].value, where[k])
  }

  /** A run extends by one more best-scoring step. */
  lemma BestRunSnoc(open: seq<SystemNode>, all: seq<SystemNode>, users: seq<User>, term: Term,
                    pending: seq<Option<Item>>, hist: seq<seq<seq<int>>>, where: seq<nat>, i: nat,
                    after: seq<seq<int>>, c: nat)
    requires BestRun(open, all, users, term, pending, hist, where, i)
    requires i < |pending| && pending[i].Some?
    requires BestStep(open, all, Interested(users, pending[i].value.id), term, hist[i], after, pending[i].value, c)
    ensures BestRun(open, all, users, term, pending, hist + [after], where + [c], i + 1)
  {
    var hist', where' := hist + [after], where + [c];
    forall k | 0 <= k < i + 1
      ensures pending[k].Some? &&
        BestStep(open, all, Interested(users, pending[k].value.id), term, hist'[k], hist'[k + 1], pending[k].value, where'[k])
    {
      assert hist'[k] == hist[k] && where'[k] == (if k < i then where[k] else c);
      assert hist'[k + 1] == if k < i then hist[k + 1] else after;
    }
  }

  /**
   * One round of `dataList.forEach(putOnBestSpot ...)`: each pending entry in
   * order goes to a best-scoring open node for the users interested in it; a
   * null entry throws when the interest filter asks it for its id. `placed`
   * counts the entries placed, `where` and `hist` record where each went.
   */
  method PlaceRound(pending: seq<Option<Item>>, open: seq<SystemNode>, all: seq<SystemNode>,
                    users: seq<User>, reg: map<int, Item>, term: Term)
    returns (res: Outcome, ghost placed: nat, ghost where: seq<nat>, ghost hist: seq<seq<seq<int>>>)
    requires NoDuplicates(all) && forall n | n in open :: n in all
    modifies set n | n in open
    ensures forall n | n in all && n !in open :: n.storage == old(n.storage)
    ensures placed <= |pending| && (res.Ok? <==> placed == |pending|)
    ensures BestRun(open, all, users, term, pending, hist, where, placed)
    ensures hist[0] == old(Storages(all)) && hist[placed] == Storages(all)
    ensures res.Err? ==>
      res == if pending[placed].None? then Err(NullPointer) else if !NoDuplicates(open) then Err(DuplicateKey) else Err(NotEnoughSpace)
    ensures res.Ok? ==> AllSome(pending)
    ensures res.Ok? ==> AllStored(Storages(all)) == old(AllStored(Storages(all))) + PendingIds(pending)
  {
    ghost var stored := Storages(all);
    ghost var start := AllStored(stored);
    where, hist := [], [stored];
    res := Ok;
    var i := 0;
    while i < |pending|
      invariant 0 <= i <= |pending| && res.Ok?
      invariant forall k | 0 <= k < i :: pending[k].Some?
      invariant |stored| == |all| && forall j | 0 <= j < |all| :: all[j].storage == stored[j]
      invariant AllStored(stored) + PendingIds(pending[i..]) == start + PendingIds(pending)
      invariant BestRun(open, all, users, term, pending, hist, where, i)
      invariant hist[0] == old(Storages(all)) && hist[i] == stored
    {
      if pending[i].None? {
        res := Err(NullPointer);
        break;
      }
      var d := pending[i].value;
      ghost var before := stored;
      ghost var best;
      res, best, stored := PlaceTracked(d, open, all, stored, Interested(users, d.id), term);
      if res.Err? {
        break;
      }
      BestRunSnoc(open, all, users, term, pending, hist, where, i, stored, best);
      where, hist := where + [best], hist + [stored];
      assert PendingIds(pending[i..]) == multiset{d.id} + PendingIds(pending[i + 1..]) by {
        assert pending[i..][0] == pending[i] && pending[i..][1..] == pending[i + 1..];
      }
      i := i + 1;
    }
    StoragesAre(all, stored);
    placed := i;
  }

  /**
   * `putOnBestSpot` seen from the whole node list: the ghost copy `stored`
   * of every node's storage follows the one node that grew.
   */
  method PlaceTracked(d: Item, open: seq<SystemNode>, all: seq<SystemNode>, ghost stored: seq<seq<int>>,
                      users: seq<User>, term: Term) returns (res: Outcome, ghost best: nat, ghost after: seq<seq<int>>)
    requires NoDuplicates(all) && forall n | n in open :: n in all
    requires |stored| == |all| && forall j | 0 <= j < |all| :: all[j].storage == stored[j]
    modifies set n | n in open
    ensures res == (if !NoDuplicates(open) then Err(DuplicateKey) else if open == [] then Err(NotEnoughSpace) else Ok)
    ensures |after| == |all| && forall j | 0 <= j < |all| :: all[j].storage == after[j]
    ensures res.Err? ==> after == stored
    ensures res.Ok? ==> BestStep(open, all, users, term, stored, after, d, best)
    ensures res.Ok? ==> AllStored(after) == AllStored(stored) + multiset{d.id}
  {
    res, best := PutOnBestSpot(d, open, users, term);
    after := stored;
    if res.Ok? {
      var at := FirstIndex(all, open[best]);
      after := stored[at := stored[at] + [d.id]];
      forall j | 0 <= j < |all| ensures all[j].storage == after[j]
        && after[j] == if all[j] == open[best] then stored[j] + [d.id] else stored[j]
      {
        if j != at {
          assert all[j] != all[at];
          if all[j] in open {
          }
        }
      }
      AllStoredAppend(stored, at, d.id);
    }
  }

  /**
   * `removeInvalidData` seen from the whole node list: the ghost copy
   * `stored` of every node's storage follows the one node that shrank.
   */
  method EvictTracked(node: SystemNode, all: seq<SystemNode>, ghost stored: seq<seq<int>>,
                      reg: map<int, Item>, users: seq<User>, term: Term)
    returns (res: Result<seq<Item>>, ghost after: seq<seq<int>>)
    requires Consistent(reg) && NoDuplicates(all) && node in all
    requires |stored| == |all| && forall j | 0 <= j < |all| :: all[j].storage == stored[j]
    modifies node`storage
    ensures res.Success? ==> Settled(node.storage, node.capacity, reg)
    ensures res.Success? ==> |after| == |all| && forall j | 0 <= j < |all| :: all[j].storage == after[j]
    ensures res.Success? ==> AllStored(after) + multiset(Ids(res.value)) == AllStored(stored)
  {
    res := RemoveInvalidData(node, reg, users, term);
    after := stored;
    if res.Success? {
      var at := FirstIndex(all, node);
      after := stored[at := node.storage];
      forall j | 0 <= j < |all| ensures all[j].storage == after[j] {
        if j != at {
          assert all[j] != all[at];
        }
      }
      AllStoredShrink(stored, at, node.storage, multiset(Ids(res.value)));
    }
  }

  /**
   * Dropping the `j`-th open node from the nodes still open, when every open
   * node from `j` on is still among them.
   */
  lemma DropOpen(open: seq<SystemNode>, nodes: seq<SystemNode>, j: nat)
    requires NoDuplicates(open) && NoDuplicates(nodes) && j < |open| && |nodes| <= |open|
    requires forall n | n in nodes :: n in open
    requires forall k | j <= k < |open| :: open[k] in nodes
    ensures var r := RemoveFirst(nodes, open[j]);
      && NoDuplicates(r) && |r| < |open|
      && (forall n | n in r :: n in open)
      && (forall k | 0 <= k < |open| && k != j :: open[k] in r <==> open[k] in nodes)
      && open[j] !in r
  {
    RemoveFirstNoDuplicates(nodes, open[j]);
    var r := RemoveFirst(nodes, open[j]);
    forall k | 0 <= k < |open| && k != j ensures open[k] in r <==> open[k] in nodes {
      assert open[k] != open[j];
    }
  }

  /**
   * What holds after the first `j` open nodes of a round were examined, with
   * `cur` what the open nodes store now: `nodes` are the open nodes not
   * retired, with every node from j on among them; a node still open stores
   * what it stored at the start (`orig`), and among the first j it is not
   * overweight, while a retired one was overweight at the start and is now
   * settled; what is stored (`stored`) and pending together is what was stored
   * at the start (`start`).
   */
  ghost predicate RoundInv(open: seq<SystemNode>, reg: map<int, Item>, orig: seq<seq<int>>, cur: seq<seq<int>>,
                           start: multiset<int>, j: nat, nodes: seq<SystemNode>, next: seq<Option<Item>>,
                           stored: seq<seq<int>>)
  {
    && j <= |open| && |orig| == |open| && |cur| == |open|
    && (forall n | n in nodes :: n in open)
    && (forall k | j <= k < |open| :: open[k] in nodes)
    && NoDuplicates(nodes)
    && (forall k | 0 <= k < |open| && open[k] in nodes :: cur[k] == orig[k])
    && (forall k | 0 <= k < j ::
          if open[k] in nodes then UsedSpace(orig[k], reg) <= open[k].capacity
          else Settled(cur[k], open[k].capacity, reg) && UsedSpace(orig[k], reg) > open[k].capacity)
    && AllSome(next) && AllStored(stored) + PendingIds(next) == start
    && |nodes| <= |open| && (next != [] ==> |nodes| < |open|)
  }

  /** A node that is not overweight stays open, and the examination moves on. */
  lemma KeepOpen(open: seq<SystemNode>, reg: map<int, Item>, orig: seq<seq<int>>, cur: seq<seq<int>>,
                 start: multiset<int>, j: nat, nodes: seq<SystemNode>, next: seq<Option<Item>>,
                 stored: seq<seq<int>>)
    requires RoundInv(open, reg, orig, cur, start, j, nodes, next, stored)
    requires j < |open| && UsedSpace(cur[j], reg) <= open[j].capacity
    ensures RoundInv(open, reg, orig, cur, start, j + 1, nodes, next, stored)
  {
  }

  /**
   * The bookkeeping of a retirement: once the overweight `open[j]` is settled
   * (`cur'`) and dropped from the open nodes, and no other node changed, the
   * round's invariant holds one node further on.
   */
  lemma RetireStep(open: seq<SystemNode>, reg: map<int, Item>, orig: seq<seq<int>>, cur: seq<seq<int>>,
                   start: multiset<int>, j: nat, nodes: seq<SystemNode>, next: seq<Option<Item>>,
                   stored: seq<seq<int>>, cur': seq<seq<int>>, next': seq<Option<Item>>, stored': seq<seq<int>>)
    requires NoDuplicates(open)
    requires RoundInv(open, reg, orig, cur, start, j, nodes, next, stored)
    requires j < |open| && UsedSpace(cur[j], reg) > open[j].capacity
    requires |cur'| == |open| && forall k | 0 <= k < |open| && k != j :: cur'[k] == cur[k]
    requires Settled(cur'[j], open[j].capacity, reg)
    requires AllSome(next') && AllStored(stored') + PendingIds(next') == start
    ensures RoundInv(open, reg, orig, cur', start, j + 1, RemoveFirst(nodes, open[j]), next', stored')
  {
    DropOpen(open, nodes, j);
  }

  /**
   * The retirement of the overweight `open[j]` within a round: it leaves the
   * open nodes, its knapsack evicts what it does not select, and the evicted
   * items join the pending list `next`.
   */
  method Retire(open: seq<SystemNode>, all: seq<SystemNode>, reg: map<int, Item>,
                ghost orig: seq<seq<int>>, ghost start: multiset<int>, j: nat,
                nodes: seq<SystemNode>, next: seq<Option<Item>>, ghost stored: seq<seq<int>>,
                users: seq<User>, term: Term)
    returns (res: Outcome, nodes': seq<SystemNode>, next': seq<Option<Item>>, ghost stored': seq<seq<int>>)
    requires Consistent(reg) && NoDuplicates(all) && NoDuplicates(open) && forall n | n in open :: n in all
    requires RoundInv(open, reg, orig, Storages(open), start, j, nodes, next, stored)
    requires |stored| == |all| && forall i | 0 <= i < |all| :: all[i].storage == stored[i]
    requires j < |open| && open[j].IsOverweight(reg)
    modifies open[j]
    ensures res.Ok? ==> RoundInv(open, reg, orig, Storages(open), start, j + 1, nodes', next', stored')
    ensures res.Ok? ==> |stored'| == |all| && forall i | 0 <= i < |all| :: all[i].storage == stored'[i]
    ensures res.Err? ==> forall k | 0 <= k < |open| && k != j :: open[k].storage == old(open[k].storage)
  {
    ghost var cur := Storages(open);
    var node := open[j];
    nodes' := RemoveFirst(nodes, node);
    next' := next;
    var evicted;
    evicted, stored' := EvictTracked(node, all, stored, reg, users, term);
    forall k | 0 <= k < |open| && k != j ensures open[k].storage == old(open[k].storage) {
      assert open[k] != open[j];
    }
    if evicted.Failure? {
      res := Err(evicted.error);
      return;
    }
    var more := Somes(evicted.value);
    EvictionAccounting(stored, stored', evicted.value, next, start);
    next' := next + more;
    res := Ok;
    RetireStep(open, reg, orig, cur, start, j, nodes, next, stored, Storages(open), next', stored');
  }

  /** One step of a round: `open[j]` is retired when it is overweight and stays open otherwise. */
  method Examine(open: seq<SystemNode>, all: seq<SystemNode>, reg: map<int, Item>,
                 ghost orig: seq<seq<int>>, ghost start: multiset<int>, j: nat,
                 nodes: seq<SystemNode>, next: seq<Option<Item>>, ghost stored: seq<seq<int>>,
                 users: seq<User>, term: Term)
    returns (res: Outcome, nodes': seq<SystemNode>, next': seq<Option<Item>>, ghost stored': seq<seq<int>>)
    requires Consistent(reg) && NoDuplicates(all) && NoDuplicates(open) && forall n | n in open :: n in all
    requires RoundInv(open, reg, orig, Storages(open), start, j, nodes, next, stored)
    requires |stored| == |all| && forall i | 0 <= i < |all| :: all[i].storage == stored[i]
    requires j < |open|
    modifies open[j]
    ensures res.Ok? ==> RoundInv(open, reg, orig, Storages(open), start, j + 1, nodes', next', stored')
    ensures res.Ok? ==> |stored'| == |all| && forall i | 0 <= i < |all| :: all[i].storage == stored'[i]
    ensures res.Err? ==> forall k | 0 <= k < |open| && UsedSpace(orig[k], reg) <= open[k].capacity :: open[k].storage == orig[k]
  {
    if open[j].IsOverweight(reg) {
      res, nodes', next', stored' := Retire(open, all, reg, orig, start, j, nodes, next, stored, users, term);
    } else {
      KeepOpen(open, reg, orig, Storages(open), start, j, nodes, next, stored);
      res, nodes', next', stored' := Ok, nodes, next, stored;
    }
  }

  /** A round starts with every node open and nothing pending. */
  lemma OpenRound(open: seq<SystemNode>, reg: map<int, Item>, orig: seq<seq<int>>, stored: seq<seq<int>>)
    requires NoDuplicates(open) && |orig| == |open|
    ensures RoundInv(open, reg, orig, orig, AllStored(stored), 0, open, [], stored)
  {
    assert PendingIds([]) == multiset{};
  }

  /** At the end of a round, the invariant says what the round promises about the nodes. */
  lemma CloseRound(open: seq<SystemNode>, all: seq<SystemNode>, reg: map<int, Item>, orig: seq<seq<int>>,
                   start: multiset<int>, nodes: seq<SystemNode>, next: seq<Option<Item>>, stored: seq<seq<int>>)
    requires RoundInv(open, reg, orig, Storages(open), start, |open|, nodes, next, stored)
    requires |stored| == |all| && forall i | 0 <= i < |all| :: all[i].storage == stored[i]
    requires forall n | n in all && n !in open :: Settled(n.storage, n.capacity, reg)
    ensures NoDuplicates(nodes)
    ensures forall n | n in nodes :: n in open && !n.IsOverweight(reg)
    ensures forall n | n in all && n !in nodes :: Settled(n.storage, n.capacity, reg)
    ensures AllSome(next) && AllStored(Storages(all)) + PendingIds(next) == start
    ensures next != [] ==> |nodes| < |open|
    ensures forall k | 0 <= k < |open| :: (open[k] in nodes <==> UsedSpace(orig[k], reg) <= open[k].capacity)
    ensures forall k | 0 <= k < |open| && UsedSpace(orig[k], reg) <= open[k].capacity :: open[k].storage == orig[k]
  {
    StoragesAre(all, stored);
    forall n | n in nodes ensures !n.IsOverweight(reg) {
      var k :| 0 <= k < |open| && open[k] == n;
    }
    forall n | n in all && n !in nodes ensures Settled(n.storage, n.capacity, reg) {
      if n in open {
        var k :| 0 <= k < |open| && open[k] == n;
      }
    }
  }

  /**
   * The eviction stream of one round: each open node that is overweight, in
   * order, is dropped from the open nodes and handed to `removeInvalidData`;
   * the evicted items, in order, are the next pending list. `orig` holds what
   * the open nodes stored at the start.
   */
  method EvictRound(open: seq<SystemNode>, all: seq<SystemNode>, users: seq<User>, reg: map<int, Item>, term: Term)
    returns (res: Outcome, nodes: seq<SystemNode>, next: seq<Option<Item>>, ghost orig: seq<seq<int>>)
    requires Consistent(reg) && NoDuplicates(all) && NoDuplicates(open) && forall n | n in open :: n in all
    requires forall n | n in all && n !in open :: Settled(n.storage, n.capacity, reg)
    modifies set n | n in open
    ensures orig == old(Storages(open))
    ensures res.Ok? ==>
      && NoDuplicates(nodes)
      && (forall n | n in nodes :: n in open && !n.IsOverweight(reg))
      && (forall n | n in all && n !in nodes :: Settled(n.storage, n.capacity, reg))
      && AllSome(next)
      && AllStored(Storages(all)) + PendingIds(next) == old(AllStored(Storages(all)))
      && (next != [] ==> |nodes| < |open|)
    ensures res.Ok? ==> forall k | 0 <= k < |open| :: (open[k] in nodes <==> UsedSpace(orig[k], reg) <= open[k].capacity)
    ensures forall k | 0 <= k < |open| && UsedSpace(orig[k], reg) <= open[k].capacity :: open[k].storage == orig[k]
  {
    ghost var stored := Storages(all);
    ghost var start := AllStored(stored);
    orig := Storages(open);
    nodes := open;
    next := [];
    OpenRound(open, reg, orig, stored);
    var j := 0;
    while j < |open|
      invariant RoundInv(open, reg, orig, Storages(open), start, j, nodes, next, stored)
      invariant |stored| == |all| && forall i | 0 <= i < |all| :: all[i].storage == stored[i]
    {
      res, nodes, next, stored := Examine(open, all, reg, orig, start, j, nodes, next, stored, users, term);
      if res.Err? {
        return;
      }
      j := j + 1;
    }
    CloseRound(open, all, reg, orig, start, nodes, next, stored);
    res := Ok;
  }

  /**
   * `placeData()`: rounds of optimistic placement of every pending item on
   * the nodes still open, then, for each open node that is overweight, its
   * retirement and the knapsack eviction whose leftovers are the next round's
   * pending items; the rounds go on while items are pending and nodes open.
   * On success every node is within its capacity or empty, and the nodes
   * hold, on top of what they held, every distinct interest id once.
   */
  method PlaceData(users: seq<User>, all: seq<SystemNode>, reg: map<int, Item>, term: Term) returns (res: Outcome)
    requires Consistent(reg) && NoDuplicates(all)
    modifies set n | n in all
    ensures res.Ok? ==> forall n | n in all :: Settled(n.storage, n.capacity, reg)
    ensures res.Ok? ==> AllStored(Storages(all)) == old(AllStored(Storages(all))) + multiset(DataIds(users))
  {
    var pending := GetData(users, reg);
    var nodes := all;
    ghost var target := AllStored(Storages(all)) + multiset(DataIds(users));
    PendingIdsOfData(users, reg);
    while true
      invariant forall n | n in nodes :: n in all
      invariant NoDuplicates(nodes)
      invariant forall n | n in all && n !in nodes :: Settled(n.storage, n.capacity, reg)
      invariant AllSome(pending) ==> AllStored(Storages(all)) + PendingIds(pending) == target
      decreases |nodes|
    {
      ghost var count, where, hist;
      var placed;
      placed, count, where, hist := PlaceRound(pending, nodes, all, users, reg, term);
      if placed.Err? {
        return placed;
      }
      ghost var orig;
      var evicted, open, next;
      evicted, open, next, orig := EvictRound(nodes, all, users, reg, term);
      if evicted.Err? {
        return evicted;
      }
      nodes, pending := open, next;
      if pending == [] || nodes == [] {
        break;
      }
    }
    if pending != [] {
      return Err(NotEnoughSpace);
    }
    return Ok;
  }
}
