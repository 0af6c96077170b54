/**
 * The graph-level helpers shared by every placement strategy
 * (graph/AbstractDataGraph.java, repeated verbatim in graph/DataGraph.java and,
 * for the earlier vertex classes, in graphs/DataGraph.java): the two vertex
 * kinds, the closest-first cursor step, the User-User edge guard, the vertex
 * filters, the distinct interests of the users and the per-node score.
 * Node identity is a type parameter so that both SystemNode classes fit.
 */
module Topology {
  import opened Wrappers
  import opened Registry
  import opened Ledger
  import opened ArraysUtils

  /** A user: its id and the ids of the data it is interested in (entity/User.java). */
  datatype User = User(id: int, interests: seq<int>)

  /** A vertex of the graph: a storage node or a user. */
  datatype Vertex<N> = Storage(node: N) | Client(user: User)

  /** An edge handed to the underlying weighted graph. */
  datatype Edge<N> = Edge(source: Vertex<N>, target: Vertex<N>, weight: real)

  /**
   * `nextSystemNode(iterator)`: advance the closest-first traversal `order` from
   * `cursor` to the first storage vertex and stop just past it; `None` when the
   * traversal runs out first.
   */
  method NextSystemNode<N(==)>(order: seq<Vertex<N>>, cursor: nat) returns (node: Option<N>, next: nat)
    requires cursor <= |order|
    ensures cursor <= next <= |order|
    ensures node.Some? ==> cursor < next && order[next - 1] == Storage(node.value)
    ensures node.Some? ==> forall k | cursor <= k < next - 1 :: order[k].Client?
    ensures node.None? ==> next == |order| && forall k | cursor <= k < |order| :: order[k].Client?
  {
    next := cursor;
    while next < |order|
      invariant cursor <= next <= |order|
      invariant forall k | cursor <= k < next :: order[k].Client?
    {
      var v := order[next];
      next := next + 1;
      if v.Storage? {
        return Some(v.node), next;
      }
    }
    return None, next;
  }

  /**
   * `addEdge(User user, Node systemNode, double weight)`: refuse a second endpoint
   * that is a user, otherwise hand the edge to the weighted graph.
   */
  function AddEdge<N>(edges: seq<Edge<N>>, user: User, other: Vertex<N>, weight: real): (r: Result<seq<Edge<N>>>)
    ensures r.Failure? <==> other.Client?
    ensures r.Failure? ==> r.error == IllegalArgument
    ensures r.Success? ==> r.value == edges + [Edge(Client(user), other, weight)]
  {
    if other.Client? then Failure(IllegalArgument)
    else Success(edges + [Edge(Client(user), other, weight)])
  }

  /** `addEdge(Node systemNode, User user, double weight)`: the same call with the endpoints swapped. */
  function AddEdgeNodeFirst<N>(edges: seq<Edge<N>>, other: Vertex<N>, user: User, weight: real): (r: Result<seq<Edge<N>>>)
    ensures r == AddEdge(edges, user, other, weight)
  {
    AddEdge(edges, user, other, weight)
  }

  /** No overload ever connects two users, whatever the order of the arguments. */
  lemma UserUserEdgeRejected<N>(edges: seq<Edge<N>>, u1: User, u2: User, weight: real)
    ensures AddEdge(edges, u1, Client(u2), weight) == Failure(IllegalArgument)
    ensures AddEdgeNodeFirst(edges, Client(u1), u2, weight) == Failure(IllegalArgument)
  {
  }

  /** `getUsers()`: the user vertices, in iteration order. */
  function GetUsers<N>(vs: seq<Vertex<N>>): (r: seq<User>)
    ensures forall u :: u in r <==> Client(u) in vs
    ensures |r| <= |vs|
  {
    if vs == [] then []
    else if vs[0].Client? then [vs[0].user] + GetUsers(vs[1..])
    else GetUsers(vs[1..])
  }

  /** `getSystemNodes()`: the storage vertices, in iteration order. */
  function GetSystemNodes<N(==)>(vs: seq<Vertex<N>>): (r: seq<N>)
    ensures forall n | n in r :: Storage(n) in vs
    ensures forall k | 0 <= k < |vs| && vs[k].Storage? :: vs[k].node in r
    ensures |r| <= |vs|
  {
    if vs == [] then []
    else if vs[0].Storage? then [vs[0].node] + GetSystemNodes(vs[1..])
    else GetSystemNodes(vs[1..])
  }

  /** A vertex set lists each vertex once, so both filters list each vertex of their kind once. */
  lemma {:induction false} FiltersListEachOnce<N>(vs: seq<Vertex<N>>)
    requires NoDuplicates(vs)
    ensures NoDuplicates(GetUsers(vs))
    ensures NoDuplicates(GetSystemNodes(vs))
  {
    if vs != [] {
      assert NoDuplicates(vs[1..]) by {
        forall i, j | 0 <= i < j < |vs[1..]| ensures vs[1..][i] != vs[1..][j] {
          assert vs[1..][i] == vs[i + 1] && vs[1..][j] == vs[j + 1];
        }
      }
      FiltersListEachOnce(vs[1..]);
      assert vs[0] !in vs[1..] by {
        forall k | 0 <= k < |vs[1..]| ensures vs[1..][k] != vs[0] {
          assert vs[1..][k] == vs[k + 1];
        }
      }
      var us, ns := GetUsers(vs[1..]), GetSystemNodes(vs[1..]);
      if vs[0].Client? {
        var r := [vs[0].user] + us;
        assert vs[0].user !in us;
        assert forall j | 1 <= j < |r| :: r[j] == us[j - 1] && r[j] in us;
      } else {
        var r := [vs[0].node] + ns;
        assert vs[0].node !in ns;
        assert forall j | 1 <= j < |r| :: r[j] == ns[j - 1] && r[j] in ns;
      }
    }
  }

  /** Every interest id of every user, user by user, in array order. */
  function AllInterests(users: seq<User>): (r: seq<int>)
    ensures forall x :: x in r <==> exists u | u in users :: x in u.interests
  {
    if users == [] then []
    else
      var rest := AllInterests(users[1..]);
      assert forall u | u in users[1..] :: u in users;
      assert forall u | u in users :: u == users[0] || u in users[1..];
      users[0].interests + rest
  }

  /** The distinct interest ids, at their first occurrence, that `getData` looks up. */
  function DataIds(users: seq<User>): (r: seq<int>)
    ensures NoDuplicates(r)
    ensures forall x :: x in r <==> exists u | u in users :: x in u.interests
    ensures InFirstOccurrenceOrder(r, AllInterests(users))
  {
    Distinct(AllInterests(users))
  }

  /**
   * `getData(users)`: look up each distinct interest id. The null filter runs
   * on the ids, before the lookup, so an unregistered id still gives `None`.
   */
  function GetData(users: seq<User>, reg: map<int, Item>): (r: seq<Option<Item>>)
    ensures |r| == |DataIds(users)|
    ensures forall i | 0 <= i < |r| :: r[i].None? <==> DataIds(users)[i] !in reg
    ensures forall i | 0 <= i < |r| :: r[i].Some? ==> r[i].value == reg[DataIds(users)[i]]
  {
    var ids := DataIds(users);
    seq(|ids|, i requires 0 <= i < |ids| => GetFromId(reg, ids[i]))
  }

  /** Whether no entry of a data list is null. */
  predicate AllSome(p: seq<Option<Item>>)
  {
    forall i | 0 <= i < |p| :: p[i].Some?
  }

  /** The ids of the non-null entries of a data list, with multiplicity. */
  function PendingIds(p: seq<Option<Item>>): multiset<int>
  {
    if p == [] then multiset{}
    else (if p[0].Some? then multiset{p[0].value.id} else multiset{}) + PendingIds(p[1..])
  }

  /** The ids of a data list distribute over concatenation. */
  lemma {:induction false} PendingIdsConcat(p: seq<Option<Item>>, q: seq<Option<Item>>)
    ensures PendingIds(p + q) == PendingIds(p) + PendingIds(q)
  {
    if p == [] {
      assert p + q == q;
    } else {
      assert (p + q)[0] == p[0] && (p + q)[1..] == p[1..] + q;
      PendingIdsConcat(p[1..], q);
    }
  }

  /** The ids of a data list split at any point. */
  lemma {:induction false} PendingIdsSplitAt(p: seq<Option<Item>>, k: nat)
    requires k <= |p|
    ensures PendingIds(p) == PendingIds(p[..k]) + PendingIds(p[k..])
  {
    PendingIdsConcat(p[..k], p[k..]);
    assert p[..k] + p[k..] == p;
  }

  /** Entries that are the registered items of `ids`, one for one, carry exactly the ids of `ids`. */
  lemma {:induction false} PendingIdsOfLookups(p: seq<Option<Item>>, ids: seq<int>)
    requires |p| == |ids|
    requires forall i | 0 <= i < |p| :: p[i].Some? && p[i].value.id == ids[i]
    ensures PendingIds(p) == multiset(ids)
  {
    if p != [] {
      PendingIdsOfLookups(p[1..], ids[1..]);
      assert ids == [ids[0]] + ids[1..];
    }
  }

  /** With a consistent registry, a `getData` list without nulls carries the distinct interest ids. */
  lemma PendingIdsOfData(users: seq<User>, reg: map<int, Item>)
    requires Consistent(reg)
    ensures AllSome(GetData(users, reg)) ==> PendingIds(GetData(users, reg)) == multiset(DataIds(users))
  {
    if AllSome(GetData(users, reg)) {
      PendingIdsOfLookups(GetData(users, reg), DataIds(users));
    }
  }

  /** The users whose interests contain `id` (the `arrayContains` filter before each placement). */
  function Interested(users: seq<User>, id: int): (r: seq<User>)
    ensures forall u :: u in r <==> u in users && Contains(u.interests, id)
    ensures |r| <= |users|
  {
    if users == [] then []
    else
      var rest := Interested(users[1..], id);
      assert forall u | u in users[1..] :: u in users;
      assert forall u | u in users :: u == users[0] || u in users[1..];
      if Contains(users[0].interests, id) then [users[0]] + rest else rest
  }

  /**
   * `computeScores(node, users)`: the sum over the users of a per-user term of
   * the user-to-node distance. `term` stands for `1 / (d * d)` with `d` the
   * shortest-path weight; `placeSpecificData` uses the same sum with `d * d`.
   */
  function ComputeScores<N>(node: N, users: seq<User>, term: (User, N) -> real): (r: real)
    ensures (forall u | u in users :: term(u, node) >= 0.0) ==> r >= 0.0
  {
    if users == [] then 0.0
    else
      assert forall u | u in users[1..] :: u in users;
      term(users[0], node) + ComputeScores(node, users[1..], term)
  }

  /** The score of no users is 0, and the score splits over a concatenation of user lists. */
  lemma {:induction false} ComputeScoresConcat<N>(node: N, us: seq<User>, vs: seq<User>, term: (User, N) -> real)
    ensures ComputeScores(node, [], term) == 0.0
    ensures ComputeScores(node, us + vs, term) == ComputeScores(node, us, term) + ComputeScores(node, vs, term)
  {
    if us == [] {
      assert us + vs == vs;
    } else {
      assert (us + vs)[1..] == us[1..] + vs;
      ComputeScoresConcat(node, us[1..], vs, term);
    }
  }
}
