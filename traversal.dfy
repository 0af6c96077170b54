/**
 * The vocabulary of the closest-first walk that `placeUserData` (graph/) and
 * `placeData(User)` (graphs/) perform over a traversal `order` of the
 * vertices: positions in the order, the position `at[k]` the `k`-th interest
 * was sent to, the ids each storage vertex received, and whether a stored list
 * leaves room. Both SystemNode classes fit: the vertex type is a parameter and
 * `caps[j]` is the capacity of the vertex at position `j`.
 */
module Traversal {
  import opened Wrappers
  import opened Registry
  import opened Ledger
  import opened Topology

  /** Whether a node holding `storage` within `capacity` has room for the registered item `id`. */
  predicate Room(storage: seq<int>, capacity: int, reg: map<int, Item>, id: int)
  {
    id in reg && reg[id].size <= capacity - UsedSpace(storage, reg)
  }

  /** The ids of `ids`, in order, whose entry in `at` is the position `j`. */
  function Routed(ids: seq<int>, at: seq<nat>, j: nat): (r: seq<int>)
    requires |ids| == |at|
    ensures |r| <= |ids|
  {
    if ids == [] then []
    else
      var n := |ids| - 1;
      var front := Routed(ids[..n], at[..n], j);
      front + (if at[n] == j then [ids[n]] else [])
  }

  /** Sending one more id to `c` extends the list of `c` and no other. */
  lemma RoutedSnoc(ids: seq<int>, at: seq<nat>, x: int, c: nat, j: nat)
    requires |ids| == |at|
    ensures Routed(ids + [x], at + [c], j) == Routed(ids, at, j) + (if c == j then [x] else [])
  {
    assert (ids + [x])[..|ids|] == ids && (at + [c])[..|at|] == at;
  }

  /** An id appears in the list of the position it was sent to, and in no other. */
  lemma {:induction false} RoutedMembers(ids: seq<int>, at: seq<nat>, k: nat, j: nat)
    requires |ids| == |at| && k < |ids| && NoDuplicates(ids)
    ensures ids[k] in Routed(ids, at, j) <==> at[k] == j
    decreases |ids|
  {
    var n := |ids| - 1;
    var front := Routed(ids[..n], at[..n], j);
    assert NoDuplicates(ids[..n]) by {
      forall a, b | 0 <= a < b < n ensures ids[..n][a] != ids[..n][b] {
        assert ids[a] != ids[b];
      }
    }
    if k < n {
      RoutedMembers(ids[..n], at[..n], k, j);
      assert ids[..n][k] == ids[k] && at[..n][k] == at[k];
      assert ids[n] != ids[k];
    } else {
      assert ids[k] !in ids[..n] by {
        forall a | 0 <= a < n ensures ids[..n][a] != ids[k] {
          assert ids[a] != ids[n];
        }
      }
      RoutedNotIn(ids[..n], at[..n], j, ids[k]);
    }
    assert Routed(ids, at, j) == front + (if at[n] == j then [ids[n]] else []);
  }

  /** An id that is not among the ids is routed nowhere. */
  lemma {:induction false} RoutedNotIn(ids: seq<int>, at: seq<nat>, j: nat, x: int)
    requires |ids| == |at| && x !in ids
    ensures x !in Routed(ids, at, j)
    decreases |ids|
  {
    if ids != [] {
      var n := |ids| - 1;
      assert x !in ids[..n] by {
        forall a | 0 <= a < n ensures ids[..n][a] != x {
          assert ids[..n][a] == ids[a];
        }
      }
      RoutedNotIn(ids[..n], at[..n], j, x);
    }
  }

  /** The walk for the `k`-th id starts at the node that took the previous one, or at the first vertex. */
  function Prev(at: seq<nat>, k: nat): (r: nat)
    requires k <= |at|
    ensures k > 0 ==> r == at[k - 1]
    ensures k == 0 ==> r == 0
  {
    if k == 0 then 0 else at[k - 1]
  }

  /** Every storage vertex holds its `base` list followed by the ids routed to it. */
  ghost predicate RoutedFrom<N>(order: seq<Vertex<N>>, stored: seq<seq<int>>, base: seq<seq<int>>,
                                ids: seq<int>, at: seq<nat>)
    requires |stored| == |base| == |order| && |ids| == |at|
  {
    forall j | 0 <= j < |order| :: RoutedAt(order, stored, base, ids, at, j)
  }

  /** The storage vertex at position `j`, if it is one, holds its `base` list followed by the ids routed to it. */
  ghost predicate RoutedAt<N>(order: seq<Vertex<N>>, stored: seq<seq<int>>, base: seq<seq<int>>,
                              ids: seq<int>, at: seq<nat>, j: nat)
    requires |stored| == |base| == |order| && |ids| == |at| && j < |order|
  {
    order[j].Storage? ==> stored[j] == base[j] + Routed(ids, at, j)
  }

  /** Every storage vertex the walk passed over for the `k`-th id, `k < |at|`, has no room for it. */
  ghost predicate Skipped<N>(order: seq<Vertex<N>>, stored: seq<seq<int>>, caps: seq<int>, reg: map<int, Item>,
                             ids: seq<int>, at: seq<nat>)
    requires |stored| == |caps| == |order| && |at| <= |ids|
  {
    forall k, j {:trigger Room(stored[j], caps[j], reg, ids[k])} | 0 <= k < |at| && Prev(at, k) <= j < at[k] && j < |order| && order[j].Storage? ::
      !Room(stored[j], caps[j], reg, ids[k])
  }

  /** Every id, `k < |at|`, found room where it went, unless it went to the last vertex. */
  ghost predicate RoomOrLast<N>(order: seq<Vertex<N>>, base: seq<seq<int>>, caps: seq<int>, reg: map<int, Item>,
                                ids: seq<int>, at: seq<nat>)
    requires |base| == |caps| == |order| && |at| <= |ids|
    requires forall k | 0 <= k < |at| :: at[k] < |order|
  {
    forall k | 0 <= k < |at| :: RoomAt(order, base, caps, reg, ids, at, k)
  }

  /** The `k`-th id found room where it went, unless it went to the last vertex. */
  ghost predicate RoomAt<N>(order: seq<Vertex<N>>, base: seq<seq<int>>, caps: seq<int>, reg: map<int, Item>,
                            ids: seq<int>, at: seq<nat>, k: nat)
    requires |base| == |caps| == |order| && k < |at| <= |ids| && at[k] < |order|
  {
    at[k] == |order| - 1 || Room(base[at[k]] + Routed(ids[..k], at[..k], at[k]), caps[at[k]], reg, ids[k])
  }

  /** One more id for position `c` keeps every position's list its base plus what was routed there. */
  lemma RoutedStep<N>(order: seq<Vertex<N>>, stored: seq<seq<int>>, base: seq<seq<int>>,
                      ids: seq<int>, at: seq<nat>, c: nat)
    requires |stored| == |base| == |order| && |at| < |ids| && c < |order|
    requires RoutedFrom(order, stored, base, ids[..|at|], at)
    ensures RoutedFrom(order, stored[c := stored[c] + [ids[|at|]]], base, ids[..|at| + 1], at + [c])
  {
    var i := |at|;
    var stored', ids', at' := stored[c := stored[c] + [ids[i]]], ids[..i + 1], at + [c];
    assert ids' == ids[..i] + [ids[i]];
    forall j | 0 <= j < |order|
      ensures RoutedAt(order, stored', base, ids', at', j)
    {
      assert RoutedAt(order, stored, base, ids[..i], at, j);
      RoutedSnoc(ids[..i], at, ids[i], c, j);
    }
  }

  /** Passing over `Prev .. c` without room and adding at `c` keeps the walk's record of skipped nodes. */
  lemma SkippedStep<N>(order: seq<Vertex<N>>, stored: seq<seq<int>>, caps: seq<int>, reg: map<int, Item>,
                       ids: seq<int>, at: seq<nat>, c: nat, x: int)
    requires |stored| == |caps| == |order| && |at| < |ids| && c < |order|
    requires forall k | 0 <= k < |at| :: at[k] <= c
    requires Skipped(order, stored, caps, reg, ids, at)
    requires forall j | Prev(at, |at|) <= j < c && order[j].Storage? :: !Room(stored[j], caps[j], reg, ids[|at|])
    ensures Skipped(order, stored[c := stored[c] + [x]], caps, reg, ids, at + [c])
  {
    var at', stored' := at + [c], stored[c := stored[c] + [x]];
    forall k, j | 0 <= k < |at'| && Prev(at', k) <= j < at'[k] && j < |order| && order[j].Storage?
      ensures !Room(stored'[j], caps[j], reg, ids[k])
    {
      assert Prev(at', k) == Prev(at, k);
      assert stored'[j] == stored[j];
    }
  }

  /** An id placed with room (or at the last vertex) joins the record of where room was found. */
  lemma RoomOrLastStep<N>(order: seq<Vertex<N>>, base: seq<seq<int>>, caps: seq<int>, reg: map<int, Item>,
                          ids: seq<int>, at: seq<nat>, c: nat)
    requires |base| == |caps| == |order| && |at| < |ids| && c < |order|
    requires forall k | 0 <= k < |at| :: at[k] < |order|
    requires RoomOrLast(order, base, caps, reg, ids, at)
    requires c == |order| - 1 || Room(base[c] + Routed(ids[..|at|], at, c), caps[c], reg, ids[|at|])
    ensures RoomOrLast(order, base, caps, reg, ids, at + [c])
  {
    var at' := at + [c];
    forall k | 0 <= k < |at'|
      ensures RoomAt(order, base, caps, reg, ids, at', k)
    {
      if k < |at| {
        assert RoomAt(order, base, caps, reg, ids, at, k);
        assert at'[k] == at[k] && at'[..k] == at[..k];
      } else {
        assert at'[k] == c && at'[..k] == at;
      }
    }
  }

  /** The positions taken so far lie before `cursor`, at storage vertices. */
  ghost predicate Positions<N>(order: seq<Vertex<N>>, at: seq<nat>, cursor: nat)
  {
    forall k | 0 <= k < |at| :: at[k] < cursor && at[k] < |order| && order[at[k]].Storage?
  }

  /** Taking the storage vertex just before a cursor that only moved forward extends the positions. */
  lemma PositionsStep<N>(order: seq<Vertex<N>>, at: seq<nat>, cursor: nat, next: nat)
    requires Positions(order, at, cursor) && cursor <= next <= |order| && 0 < next && order[next - 1].Storage?
    ensures Positions(order, at + [next - 1], next)
  {
  }

  /** The walk never turns back: each position is no earlier than the one before. */
  ghost predicate Forward(at: seq<nat>)
    decreases |at|
  {
    |at| <= 1 || (at[|at| - 2] <= at[|at| - 1] && Forward(at[..|at| - 1]))
  }

  /** A position no earlier than the last one extends a forward walk. */
  lemma ForwardSnoc(at: seq<nat>, c: nat)
    requires Forward(at) && (|at| > 0 ==> at[|at| - 1] <= c)
    ensures Forward(at + [c])
  {
    assert (at + [c])[..|at|] == at;
  }

  /** In a forward walk every position is no earlier than all the positions before it. */
  lemma {:induction false} ForwardOrdered(at: seq<nat>)
    requires Forward(at)
    ensures forall k, l | 0 <= k < l < |at| :: at[k] <= at[l]
    decreases |at|
  {
    if |at| > 1 {
      var n := |at| - 1;
      ForwardOrdered(at[..n]);
      forall k, l | 0 <= k < l < |at| ensures at[k] <= at[l] {
        if l < n {
          assert at[..n][k] == at[k] && at[..n][l] == at[l];
        } else if k < n - 1 {
          assert at[..n][k] == at[k] && at[..n][n - 1] == at[n - 1];
        }
      }
    }
  }

  /**
   * Each vertex occurs once in `order`, stated vertex by vertex from the end
   * so that the solver unfolds it only where the proof asks.
   */
  ghost predicate Once<N>(order: seq<Vertex<N>>)
    decreases |order|
  {
    |order| == 0 || (order[|order| - 1] !in order[..|order| - 1] && Once(order[..|order| - 1]))
  }

  lemma {:induction false} OnceDistinct<N>(order: seq<Vertex<N>>, i: nat, j: nat)
    requires Once(order) && i < j < |order|
    ensures order[i] != order[j]
    decreases |order|
  {
    var n := |order| - 1;
    if j == n {
      assert order[..n][i] == order[i];
    } else {
      OnceDistinct(order[..n], i, j);
    }
  }

  lemma {:induction false} NoDuplicatesOnce<N>(order: seq<Vertex<N>>)
    requires NoDuplicates(order)
    ensures Once(order)
    decreases |order|
  {
    if |order| > 0 {
      var n := |order| - 1;
      NoDuplicatesOnce(order[..n]);
      assert forall i | 0 <= i < n :: order[..n][i] == order[i] != order[n];
    }
  }

  /**
   * The `|at|`-th id went to the storage vertex `node'` just before `cursor'`,
   * no earlier than `cursor`, and the record of the walk was extended with it.
   */
  ghost predicate Advanced<N>(order: seq<Vertex<N>>, caps: seq<int>, reg: map<int, Item>, ids: seq<int>, cursor: nat, cursor': nat,
                              node': Option<N>, at: seq<nat>, base: seq<seq<int>>, stored': seq<seq<int>>)
    requires |at| < |ids| && |stored'| == |base| == |caps| == |order|
  {
    && 0 < cursor' && cursor <= cursor' <= |order| && node'.Some? && order[cursor' - 1] == Storage(node'.value)
    && Positions(order, at + [cursor' - 1], cursor')
    && RoutedFrom(order, stored', base, ids[..|at| + 1], at + [cursor' - 1])
    && Skipped(order, stored', caps, reg, ids, at + [cursor' - 1])
    && RoomOrLast(order, base, caps, reg, ids, at + [cursor' - 1])
  }

  /**
   * The state of the walk after `i` interests: the current node is the
   * storage vertex just before `cursor` (none before the first interest), the
   * interests so far are registered, and the record `at` of the walk agrees
   * with the ghost copy `stored` of the lists.
   */
  ghost predicate Walk<N>(order: seq<Vertex<N>>, caps: seq<int>, reg: map<int, Item>, ids: seq<int>, i: nat, cursor: nat,
                          node: Option<N>, at: seq<nat>, base: seq<seq<int>>, stored: seq<seq<int>>)
  {
    WalkPosition(order, reg, ids, i, cursor, node, at) && WalkRecord(order, caps, reg, ids, i, cursor, at, base, stored)
  }

  /** Where the walk stands after `i` interests, all of them registered. */
  ghost predicate WalkPosition<N>(order: seq<Vertex<N>>, reg: map<int, Item>, ids: seq<int>, i: nat, cursor: nat,
                                  node: Option<N>, at: seq<nat>)
  {
    && i <= |ids| && |at| == i && cursor <= |order|
    && (node.None? <==> i == 0) && (node.None? ==> cursor == 0)
    && (node.Some? ==> 0 < cursor && order[cursor - 1] == Storage(node.value))
    && (i > 0 ==> at[i - 1] == cursor - 1)
    && (forall k | 0 <= k < i :: ids[k] in reg)
  }

  /** What the walk's record `at` says about the ghost copy `stored` of the lists. */
  ghost predicate WalkRecord<N>(order: seq<Vertex<N>>, caps: seq<int>, reg: map<int, Item>, ids: seq<int>, i: nat, cursor: nat,
                                at: seq<nat>, base: seq<seq<int>>, stored: seq<seq<int>>)
  {
    && i <= |ids| && |at| == i && |stored| == |base| == |caps| == |order|
    && Positions(order, at, cursor)
    && (forall j | 0 <= j < |order| && order[j].Client? :: stored[j] == [])
    && RoutedFrom(order, stored, base, ids[..i], at)
    && Skipped(order, stored, caps, reg, ids, at)
    && RoomOrLast(order, base, caps, reg, ids, at)
  }

  /** Before the first interest the walk stands before the first vertex and has recorded nothing. */
  lemma WalkStart<N>(order: seq<Vertex<N>>, caps: seq<int>, reg: map<int, Item>, ids: seq<int>, base: seq<seq<int>>)
    requires |base| == |caps| == |order| && forall j | 0 <= j < |order| && order[j].Client? :: base[j] == []
    ensures Walk(order, caps, reg, ids, 0, 0, None, [], base, base)
  {
    assert ids[..0] == [];
    assert forall j | 0 <= j < |order| :: RoutedAt(order, base, base, [], [], j);
  }

  /** A round that advanced the walk moves its state on by one interest. */
  lemma AdvancedWalk<N>(order: seq<Vertex<N>>, caps: seq<int>, reg: map<int, Item>, ids: seq<int>, i: nat, cursor: nat, cursor': nat,
                        node: Option<N>, node': Option<N>, at: seq<nat>, base: seq<seq<int>>,
                        stored: seq<seq<int>>, stored': seq<seq<int>>)
    requires |at| == i < |ids| && ids[i] in reg && |stored'| == |order|
    requires Walk(order, caps, reg, ids, i, cursor, node, at, base, stored)
    requires Advanced(order, caps, reg, ids, cursor, cursor', node', at, base, stored')
    requires forall j | 0 <= j < |order| && order[j].Client? :: stored'[j] == []
    requires Forward(at)
    ensures 0 < cursor' && Walk(order, caps, reg, ids, i + 1, cursor', node', at + [cursor' - 1], base, stored')
    ensures Forward(at + [cursor' - 1])
  {
    assert (at + [cursor' - 1])[i] == cursor' - 1;
    assert forall k | 0 <= k < i + 1 :: ids[k] in reg;
    ForwardSnoc(at, cursor' - 1);
  }

  /** The traversal has no storage vertex at all: users alone. */
  ghost predicate NoStorage<N>(order: seq<Vertex<N>>) {
    forall j | 0 <= j < |order| :: order[j].Client?
  }

  /**
   * How the walk can stop at the `i`-th interest: a null entry (the id is not
   * registered), or no storage vertex left with room for it from the current
   * node on, the traversal having run out past the last storage vertex. An
   * unregistered id runs out of space only at the first interest of a
   * traversal without any storage vertex: anywhere else its size is asked for.
   */
  ghost predicate Halted<N>(order: seq<Vertex<N>>, caps: seq<int>, reg: map<int, Item>, ids: seq<int>, i: nat,
                            at: seq<nat>, stored: seq<seq<int>>, res: Outcome)
    requires i < |ids| && i <= |at| && |stored| == |caps| == |order|
  {
    && (res == Err(NullPointer) || res == Err(NotEnoughSpace))
    && (res == Err(NullPointer) ==> ids[i] !in reg)
    && (res == Err(NotEnoughSpace) ==>
          && (|order| == 0 || order[|order| - 1].Client?)
          && (ids[i] in reg || (i == 0 && NoStorage(order)))
          && forall j | Prev(at, i) <= j < |order| && order[j].Storage? :: !Room(stored[j], caps[j], reg, ids[i]))
  }

  /** A walk halts at a null entry when the interest is not registered. */
  lemma HaltNull<N>(order: seq<Vertex<N>>, caps: seq<int>, reg: map<int, Item>, ids: seq<int>, i: nat,
                    at: seq<nat>, stored: seq<seq<int>>)
    requires i < |ids| && i <= |at| && |stored| == |caps| == |order| && ids[i] !in reg
    ensures Halted(order, caps, reg, ids, i, at, stored, Err(NullPointer))
  {
  }

  /** A walk halts for want of space when no storage node from its position on has room. */
  lemma HaltNoRoom<N>(order: seq<Vertex<N>>, caps: seq<int>, reg: map<int, Item>, ids: seq<int>, i: nat,
                      at: seq<nat>, stored: seq<seq<int>>)
    requires i < |ids| && i <= |at| && |stored| == |caps| == |order|
    requires |order| == 0 || order[|order| - 1].Client?
    requires ids[i] in reg || (i == 0 && NoStorage(order))
    requires forall j | Prev(at, i) <= j < |order| && order[j].Storage? :: !Room(stored[j], caps[j], reg, ids[i])
    ensures Halted(order, caps, reg, ids, i, at, stored, Err(NotEnoughSpace))
  {
  }
}
