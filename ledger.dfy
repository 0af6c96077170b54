/**
 * Pure list operations behind a storage node's ledger: the used-space sum over
 * stored ids, `List.remove(Object)` (first occurrence only), and the split of a
 * stored list into the entries a selection keeps and the ones it evicts.
 */
module Ledger {
  import opened Registry

  /** Sum of the registered sizes of the ids in `s`; unregistered ids add 0. */
  function UsedSpace(s: seq<int>, reg: map<int, Item>): (r: int)
    ensures NonNegativeSizes(reg) ==> r >= 0
  {
    if s == [] then 0 else SizeOf(reg, s[0]) + UsedSpace(s[1..], reg)
  }

  /** Appending one id adds exactly its registered size. */
  lemma {:induction false} UsedSpaceAppend(s: seq<int>, x: int, reg: map<int, Item>)
    ensures UsedSpace(s + [x], reg) == UsedSpace(s, reg) + SizeOf(reg, x)
  {
    if s != [] {
      assert (s + [x])[1..] == s[1..] + [x];
      UsedSpaceAppend(s[1..], x, reg);
    }
  }

  /** Used space is additive over concatenation. */
  lemma {:induction false} UsedSpaceConcat(s: seq<int>, t: seq<int>, reg: map<int, Item>)
    ensures UsedSpace(s + t, reg) == UsedSpace(s, reg) + UsedSpace(t, reg)
  {
    if s == [] {
      assert s + t == t;
    } else {
      assert (s + t)[1..] == s[1..] + t;
      UsedSpaceConcat(s[1..], t, reg);
    }
  }

  /** The index of the first occurrence of `x` in `s`. */
  function FirstIndex<T(==)>(s: seq<T>, x: T): (i: nat)
    requires x in s
    ensures i < |s| && s[i] == x && x !in s[..i]
  {
    if s[0] == x then 0
    else
      var j := FirstIndex(s[1..], x);
      assert s[..j + 1] == [s[0]] + s[1..][..j];
      j + 1
  }

  /** `List.remove(Object)`: drop the first occurrence of `x`, if any. */
  function RemoveFirst<T(==)>(s: seq<T>, x: T): (r: seq<T>)
    ensures x !in s ==> r == s
    ensures x in s ==> |r| == |s| - 1
  {
    if s == [] then []
    else if s[0] == x then s[1..]
    else [s[0]] + RemoveFirst(s[1..], x)
  }

  /** RemoveFirst cuts out exactly the first occurrence of an element the list holds. */
  lemma {:induction false} RemoveFirstSpec<T>(s: seq<T>, x: T)
    ensures x in s ==> RemoveFirst(s, x) == s[..FirstIndex(s, x)] + s[FirstIndex(s, x) + 1..]
  {
    if x in s && s[0] != x {
      assert x in s[1..];
      RemoveFirstSpec(s[1..], x);
      var j := FirstIndex(s[1..], x);
      assert FirstIndex(s, x) == j + 1;
      assert s[..j + 1] == [s[0]] + s[1..][..j];
      assert s[j + 2..] == s[1..][j + 1..];
    }
  }

  /** Removing an id takes its registered size off the used space, and its one occurrence off the multiset. */
  lemma {:induction false} RemoveFirstAccounting(s: seq<int>, x: int, reg: map<int, Item>)
    requires x in s
    ensures UsedSpace(RemoveFirst(s, x), reg) == UsedSpace(s, reg) - SizeOf(reg, x)
    ensures multiset(RemoveFirst(s, x)) == multiset(s) - multiset{x}
  {
    RemoveFirstSpec(s, x);
    var i := FirstIndex(s, x);
    assert s == s[..i] + [x] + s[i + 1..];
    UsedSpaceConcat(s[..i] + [x], s[i + 1..], reg);
    UsedSpaceAppend(s[..i], x, reg);
    UsedSpaceConcat(s[..i], s[i + 1..], reg);
  }

  /** If `x` does not occur in the prefix `p`, removing it skips over `p`. */
  lemma {:induction false} RemoveFirstPastPrefix<T>(p: seq<T>, q: seq<T>, x: T)
    requires x !in p
    ensures RemoveFirst(p + q, x) == p + RemoveFirst(q, x)
  {
    if p == [] {
      assert p + q == q;
    } else {
      assert (p + q)[0] == p[0];
      assert (p + q)[1..] == p[1..] + q;
      RemoveFirstPastPrefix(p[1..], q, x);
      assert [p[0]] + (p[1..] + RemoveFirst(q, x)) == p + RemoveFirst(q, x);
    }
  }

  /** The entries of `s` that belong to `sel`, in order. */
  function Kept(s: seq<int>, sel: seq<int>): (r: seq<int>)
    ensures forall e | e in r :: e in s && e in sel
    ensures |r| <= |s|
  {
    if s == [] then []
    else if s[0] in sel then [s[0]] + Kept(s[1..], sel)
    else Kept(s[1..], sel)
  }

  /** The entries of `s` that do not belong to `sel`, in order. */
  function Evicted(s: seq<int>, sel: seq<int>): (r: seq<int>)
    ensures forall e | e in r :: e in s && e !in sel
    ensures |r| <= |s|
  {
    if s == [] then []
    else if s[0] !in sel then [s[0]] + Evicted(s[1..], sel)
    else Evicted(s[1..], sel)
  }

  /** An id of `s` is either kept or evicted, never both, with every occurrence accounted for. */
  lemma KeptEvictedPartition(s: seq<int>, sel: seq<int>)
    ensures multiset(s) == multiset(Kept(s, sel)) + multiset(Evicted(s, sel))
    ensures forall e | e in s :: (e in Kept(s, sel) <==> e in sel) && (e in Evicted(s, sel) <==> e !in sel)
  {
    KeptEvictedCount(s, sel);
    forall e | e in s ensures (e in Kept(s, sel) <==> e in sel) && (e in Evicted(s, sel) <==> e !in sel) {
      assert e in multiset(s);
    }
  }

  /** Every occurrence of an id goes to exactly one of the two lists. */
  lemma {:induction false} KeptEvictedCount(s: seq<int>, sel: seq<int>)
    ensures multiset(s) == multiset(Kept(s, sel)) + multiset(Evicted(s, sel))
  {
    if s != [] {
      KeptEvictedCount(s[1..], sel);
      assert s == [s[0]] + s[1..];
      assert multiset(s) == multiset{s[0]} + multiset(s[1..]);
      if s[0] in sel {
        assert Kept(s, sel) == [s[0]] + Kept(s[1..], sel) && Evicted(s, sel) == Evicted(s[1..], sel);
        assert multiset(Kept(s, sel)) == multiset{s[0]} + multiset(Kept(s[1..], sel));
      } else {
        assert Kept(s, sel) == Kept(s[1..], sel) && Evicted(s, sel) == [s[0]] + Evicted(s[1..], sel);
        assert multiset(Evicted(s, sel)) == multiset{s[0]} + multiset(Evicted(s[1..], sel));
      }
    }
  }

  /** Kept distributes over appending one id. */
  lemma {:induction false} KeptSnoc(s: seq<int>, x: int, sel: seq<int>)
    ensures Kept(s + [x], sel) == Kept(s, sel) + (if x in sel then [x] else [])
  {
    var t := s + [x];
    if s == [] {
      assert t == [x] && t[1..] == [];
    } else {
      assert t[0] == s[0] && t[1..] == s[1..] + [x];
      KeptSnoc(s[1..], x, sel);
      var tail := if x in sel then [x] else [];
      if s[0] in sel {
        assert Kept(t, sel) == [s[0]] + (Kept(s[1..], sel) + tail);
        assert [s[0]] + (Kept(s[1..], sel) + tail) == ([s[0]] + Kept(s[1..], sel)) + tail;
      } else {
        assert Kept(t, sel) == Kept(s[1..], sel) + tail;
      }
    }
  }

  /** Evicted distributes over appending one id. */
  lemma {:induction false} EvictedSnoc(s: seq<int>, x: int, sel: seq<int>)
    ensures Evicted(s + [x], sel) == Evicted(s, sel) + (if x in sel then [] else [x])
  {
    var t := s + [x];
    if s == [] {
      assert t == [x] && t[1..] == [];
    } else {
      assert t[0] == s[0] && t[1..] == s[1..] + [x];
      EvictedSnoc(s[1..], x, sel);
      var tail := if x in sel then [] else [x];
      if s[0] !in sel {
        assert Evicted(t, sel) == [s[0]] + (Evicted(s[1..], sel) + tail);
        assert [s[0]] + (Evicted(s[1..], sel) + tail) == ([s[0]] + Evicted(s[1..], sel)) + tail;
      } else {
        assert Evicted(t, sel) == Evicted(s[1..], sel) + tail;
      }
    }
  }


  /**
   * One step of walking a list and removing the entries outside `sel`: with
   * `pre` walked and `x` next, the list changes from `Kept(pre) + [x] + rest`
   * to `Kept(pre + [x]) + rest`, by removing the first `x` exactly when `x`
   * is outside `sel`.
   */
  lemma {:induction false} KeptStep(pre: seq<int>, x: int, rest: seq<int>, sel: seq<int>)
    ensures x in sel ==> Kept(pre, sel) + ([x] + rest) == Kept(pre + [x], sel) + rest
    ensures x !in sel ==> RemoveFirst(Kept(pre, sel) + ([x] + rest), x) == Kept(pre + [x], sel) + rest
    ensures Evicted(pre + [x], sel) == Evicted(pre, sel) + (if x in sel then [] else [x])
  {
    KeptSnoc(pre, x, sel);
    EvictedSnoc(pre, x, sel);
    var kept := Kept(pre, sel);
    if x in sel {
      assert kept + ([x] + rest) == (kept + [x]) + rest;
    } else {
      assert ([x] + rest)[0] == x && ([x] + rest)[1..] == rest;
      RemoveFirstPastPrefix(kept, [x] + rest, x);
      assert Kept(pre + [x], sel) == kept + [];
    }
  }

  /** Whether a list has no repeated element. */
  predicate NoDuplicates<T(==)>(s: seq<T>)
  {
    forall i, j | 0 <= i < j < |s| :: s[i] != s[j]
  }

  /** Every entry of `r` occurs in `s`, and `r` lists them in the order of their first occurrences in `s`. */
  predicate InFirstOccurrenceOrder(r: seq<int>, s: seq<int>)
  {
    && (forall i | 0 <= i < |r| :: r[i] in s)
    && forall i, j | 0 <= i < j < |r| :: FirstIndex(s, r[i]) < FirstIndex(s, r[j])
  }

  /** Past a head it differs from, an element's first occurrence is one further along than in the tail. */
  lemma FirstIndexTail(s: seq<int>, y: int)
    requires y in s && y != s[0]
    ensures y in s[1..] && FirstIndex(s, y) == FirstIndex(s[1..], y) + 1
  {
  }

  /** An order by first occurrence in the tail is one in the whole list when the head is not listed. */
  lemma ShiftOrder(r: seq<int>, s: seq<int>)
    requires s != [] && InFirstOccurrenceOrder(r, s[1..]) && s[0] !in r
    ensures InFirstOccurrenceOrder(r, s)
    ensures forall i | 0 <= i < |r| :: FirstIndex(s, r[i]) > 0
  {
    forall i | 0 <= i < |r|
      ensures r[i] in s && FirstIndex(s, r[i]) == FirstIndex(s[1..], r[i]) + 1
    {
      assert r[i] in s[1..] && r[i] != s[0];
      FirstIndexTail(s, r[i]);
    }
  }

  /** A new element before a duplicate-free list leaves it duplicate-free. */
  lemma ConsNoDuplicates(x: int, rest: seq<int>)
    requires NoDuplicates(rest) && x !in rest
    ensures NoDuplicates([x] + rest)
  {
    var r := [x] + rest;
    assert forall j | 1 <= j < |r| :: r[j] == rest[j - 1] && r[j] in rest;
  }

  /** Putting the head of `s` before a tail-ordered list that does not hold it keeps the order. */
  lemma ConsOrder(rest: seq<int>, s: seq<int>)
    requires s != [] && InFirstOccurrenceOrder(rest, s[1..]) && s[0] !in rest
    ensures InFirstOccurrenceOrder([s[0]] + rest, s)
  {
    ShiftOrder(rest, s);
    var r := [s[0]] + rest;
    forall i, j | 0 <= i < j < |r| ensures r[i] in s && r[j] in s && FirstIndex(s, r[i]) < FirstIndex(s, r[j]) {
      assert r[j] == rest[j - 1];
      if i > 0 {
        assert r[i] == rest[i - 1];
      }
    }
  }

  /** `Stream.distinct()`: each element once, at its first occurrence. */
  function Distinct(s: seq<int>): (r: seq<int>)
    ensures NoDuplicates(r)
    ensures forall x :: x in r <==> x in s
    ensures InFirstOccurrenceOrder(r, s)
    ensures |r| <= |s|
  {
    DistinctFrom(s, [])
  }

  /** The elements of `s` not yet in `seen`, each at its first occurrence. */
  function DistinctFrom(s: seq<int>, seen: seq<int>): (r: seq<int>)
    ensures NoDuplicates(r)
    ensures forall x :: x in r <==> x in s && x !in seen
    ensures InFirstOccurrenceOrder(r, s)
    ensures |r| <= |s|
  {
    if s == [] then []
    else if s[0] in seen then
      var r := DistinctFrom(s[1..], seen);
      ShiftOrder(r, s);
      r
    else
      var rest := DistinctFrom(s[1..], seen + [s[0]]);
      var r := [s[0]] + rest;
      ConsNoDuplicates(s[0], rest);
      ConsOrder(rest, s);
      r
  }

  /** A duplicate-free list none of whose entries was seen passes through unchanged. */
  lemma {:induction false} DistinctFromNoDuplicates(s: seq<int>, seen: seq<int>)
    requires NoDuplicates(s) && forall x | x in s :: x !in seen
    ensures DistinctFrom(s, seen) == s
  {
    if s != [] {
      assert s[0] in s;
      NoDuplicatesTail(s);
      DistinctFromNoDuplicates(s[1..], seen + [s[0]]);
      assert s == [s[0]] + s[1..];
    }
  }

  /** The tail of a list without duplicates has none either, and does not hold the head. */
  lemma {:induction false} NoDuplicatesTail<T>(s: seq<T>)
    requires NoDuplicates(s) && s != []
    ensures NoDuplicates(s[1..]) && s[0] !in s[1..]
  {
    forall i, j | 0 <= i < j < |s[1..]| ensures s[1..][i] != s[1..][j] {
      assert s[1..][i] == s[i + 1] && s[1..][j] == s[j + 1];
    }
    forall k | 0 <= k < |s[1..]| ensures s[1..][k] != s[0] {
      assert s[1..][k] == s[k + 1];
    }
  }

  /** A non-empty list is duplicate-free exactly when its tail is and does not hold its head. */
  lemma NoDuplicatesCons<T>(s: seq<T>)
    requires s != []
    ensures NoDuplicates(s) <==> NoDuplicates(s[1..]) && s[0] !in s[1..]
  {
    if NoDuplicates(s) {
      NoDuplicatesTail(s);
    }
    if NoDuplicates(s[1..]) && s[0] !in s[1..] {
      forall i, j | 0 <= i < j < |s| ensures s[i] != s[j] {
        assert s[j] == s[1..][j - 1];
        if i > 0 {
          assert s[i] == s[1..][i - 1];
        }
      }
    }
  }

  /** Distinct leaves a duplicate-free list unchanged. */
  lemma DistinctOfDistinct(s: seq<int>)
    requires NoDuplicates(s)
    ensures Distinct(s) == s
  {
    DistinctFromNoDuplicates(s, []);
  }

  /** Used space depends only on the multiset of stored ids, not on their order. */
  lemma {:induction false} UsedSpacePermutation(a: seq<int>, b: seq<int>, reg: map<int, Item>)
    requires multiset(a) == multiset(b)
    ensures UsedSpace(a, reg) == UsedSpace(b, reg)
    decreases |a|
  {
    if a != [] {
      assert a[0] in multiset(b);
      assert a[0] in b;
      RemoveFirstAccounting(b, a[0], reg);
      assert a == [a[0]] + a[1..];
      assert multiset(a[1..]) == multiset(a) - multiset{a[0]};
      UsedSpacePermutation(a[1..], RemoveFirst(b, a[0]), reg);
    } else {
      assert |b| == |multiset(b)| == 0;
    }
  }

  /** In a duplicate-free list, removing `x` leaves exactly the other elements, still without duplicates. */
  lemma {:induction false} RemoveFirstNoDuplicates<T>(s: seq<T>, x: T)
    requires NoDuplicates(s)
    ensures NoDuplicates(RemoveFirst(s, x))
    ensures forall y :: y in RemoveFirst(s, x) <==> y in s && y != x
    ensures forall i | 0 <= i < |RemoveFirst(s, x)| :: RemoveFirst(s, x)[i] in s && RemoveFirst(s, x)[i] != x
    ensures forall i | 0 <= i < |s| && s[i] != x :: s[i] in RemoveFirst(s, x)
    ensures x in s ==> |RemoveFirst(s, x)| == |s| - 1
    ensures x !in s ==> RemoveFirst(s, x) == s
  {
    RemoveFirstSpec(s, x);
    if x in s {
      var i := FirstIndex(s, x);
      DropAtNoDuplicates(s, i);
    }
  }

  /** Cutting out position `i` of a list without duplicates keeps it without duplicates and loses exactly `s[i]`. */
  lemma {:induction false} DropAtNoDuplicates<T>(s: seq<T>, i: nat)
    requires NoDuplicates(s) && i < |s|
    ensures NoDuplicates(s[..i] + s[i + 1..])
    ensures forall y :: y in s[..i] + s[i + 1..] <==> y in s && y != s[i]
  {
    var r := s[..i] + s[i + 1..];
    assert |r| == |s| - 1;
    assert forall k | 0 <= k < |r| :: r[k] == s[if k < i then k else k + 1];
    forall a, b | 0 <= a < b < |r| ensures r[a] != r[b] {
      assert r[a] == s[if a < i then a else a + 1];
      assert r[b] == s[if b < i then b else b + 1];
    }
    forall y ensures y in r <==> y in s && y != s[i] {
      if y in r {
        var k :| 0 <= k < |r| && r[k] == y;
        assert s[if k < i then k else k + 1] == y;
      }
      if y in s && y != s[i] {
        var k :| 0 <= k < |s| && s[k] == y;
        assert r[if k < i then k else k - 1] == y;
      }
    }
  }


  /** The kept entries of a duplicate-free list hold each selected id of the list exactly once. */
  lemma {:induction false} KeptNoDuplicates(s: seq<int>, sel: seq<int>)
    requires NoDuplicates(s)
    ensures NoDuplicates(Kept(s, sel))
  {
    if s != [] {
      assert NoDuplicates(s[1..]) by {
        forall i, j | 0 <= i < j < |s[1..]| ensures s[1..][i] != s[1..][j] {
          assert s[1..][i] == s[i + 1] && s[1..][j] == s[j + 1];
        }
      }
      KeptNoDuplicates(s[1..], sel);
      var rest := Kept(s[1..], sel);
      if s[0] in sel {
        assert s[0] !in s[1..] by {
          forall k | 0 <= k < |s[1..]| ensures s[1..][k] != s[0] {
            assert s[1..][k] == s[k + 1];
          }
        }
        var r := [s[0]] + rest;
        assert forall j | 1 <= j < |r| :: r[j] == rest[j - 1] && r[j] in rest;
      }
    }
  }

  /** A non-empty list contains its head. */
  lemma HeadIsMember(s: seq<int>)
    ensures s != [] ==> s[0] in s
  {
  }

  /** Two duplicate-free lists with the same elements are permutations of each other. */
  lemma {:induction false} SameElementsPermutation(a: seq<int>, b: seq<int>)
    requires NoDuplicates(a) && NoDuplicates(b)
    requires forall x :: x in a <==> x in b
    ensures multiset(a) == multiset(b)
    decreases |a|
  {
    if a != [] {
      var x := a[0];
      assert x in b;
      RemoveFirstNoDuplicates(b, x);
      var b' := RemoveFirst(b, x);
      assert NoDuplicates(a[1..]) by {
        forall i, j | 0 <= i < j < |a[1..]| ensures a[1..][i] != a[1..][j] {
          assert a[1..][i] == a[i + 1] && a[1..][j] == a[j + 1];
        }
      }
      assert x !in a[1..] by {
        forall k | 0 <= k < |a[1..]| ensures a[1..][k] != x {
          assert a[1..][k] == a[k + 1];
        }
      }
      forall y ensures y in a[1..] <==> y in b' {
        assert y in a <==> y == x || y in a[1..] by { assert a == [x] + a[1..]; }
      }
      SameElementsPermutation(a[1..], b');
      RemoveFirstAccounting(b, x, map[]);
      assert a == [x] + a[1..];
    } else {
      if b != [] {
        HeadIsMember(b);
        assert false;
      }
    }
  }

  /** The multiset union of all the stored lists. */
  function AllStored(c: seq<seq<int>>): multiset<int>
  {
    if c == [] then multiset{} else multiset(c[0]) + AllStored(c[1..])
  }

  /** Replacing one stored list swaps its ids for the new list's ids in the union. */
  lemma {:induction false} AllStoredUpdate(c: seq<seq<int>>, k: nat, v: seq<int>)
    requires k < |c|
    ensures AllStored(c[k := v]) + multiset(c[k]) == AllStored(c) + multiset(v)
  {
    if k == 0 {
      assert c[k := v][1..] == c[1..];
    } else {
      assert c[k := v][1..] == c[1..][k - 1 := v];
      assert c[k := v][0] == c[0] && c[1..][k - 1] == c[k];
      AllStoredUpdate(c[1..], k - 1, v);
      var m0, rest := multiset(c[0]), AllStored(c[1..][k - 1 := v]);
      calc {
        AllStored(c[k := v]) + multiset(c[k]);
        (m0 + rest) + multiset(c[k]);
        m0 + (rest + multiset(c[k]));
        m0 + (AllStored(c[1..]) + multiset(v));
        AllStored(c) + multiset(v);
      }
    }
  }

  /** Appending `x` to one stored list adds `x` once to the union. */
  lemma AllStoredAppend(c: seq<seq<int>>, k: nat, x: int)
    requires k < |c|
    ensures AllStored(c[k := c[k] + [x]]) == AllStored(c) + multiset{x}
  {
    var grown := c[k := c[k] + [x]];
    assert multiset(grown[k]) == multiset(c[k]) + multiset{x};
    AllStoredShrink(grown, k, c[k], multiset{x});
    assert grown[k := c[k]] == c;
  }

  /** Shrinking one stored list by the ids `m` removes `m` from the union. */
  lemma AllStoredShrink(c: seq<seq<int>>, k: nat, v: seq<int>, m: multiset<int>)
    requires k < |c| && multiset(c[k]) == multiset(v) + m
    ensures AllStored(c[k := v]) + m == AllStored(c)
  {
    var rest := AllStored(c[k := v]);
    AllStoredUpdate(c, k, v);
    assert (rest + m) + multiset(v) == rest + multiset(c[k]);
    MultisetCancel(rest + m, AllStored(c), multiset(v));
  }

  /** A multiset added to both sides cancels. */
  lemma MultisetCancel(a: multiset<int>, b: multiset<int>, c: multiset<int>)
    requires a + c == b + c
    ensures a == b
  {
    forall y ensures a[y] == b[y] {
      assert (a + c)[y] == a[y] + c[y] && (b + c)[y] == b[y] + c[y];
    }
  }

  /** A duplicate-free list inside another duplicate-free list of the same length has the same elements. */
  lemma {:induction false} SubsetSameLength(a: seq<int>, b: seq<int>)
    requires NoDuplicates(a) && NoDuplicates(b) && |a| == |b|
    requires forall x | x in a :: x in b
    ensures forall x | x in b :: x in a
  {
    if a != [] {
      var x := a[0];
      assert x in a;
      RemoveFirstNoDuplicates(b, x);
      var b' := RemoveFirst(b, x);
      assert forall i, j | 0 <= i < j < |a[1..]| :: a[1..][i] == a[i + 1] && a[1..][j] == a[j + 1];
      forall y | y in a[1..] ensures y in b' {
        var k :| 0 <= k < |a[1..]| && a[1..][k] == y;
        assert y == a[k + 1] && a[k + 1] != a[0];
      }
      SubsetSameLength(a[1..], b');
      forall y | y in b ensures y in a {
        if y != x {
          assert y in b';
        }
      }
    }
  }

  /** A duplicate-free list holding every index 0 .. |s|-1 holds nothing else. */
  lemma IndicesFill(s: seq<int>)
    requires NoDuplicates(s) && forall p | 0 <= p < |s| :: p in s
    ensures forall x :: x in s <==> 0 <= x < |s|
  {
    var positions := seq(|s|, p => p);
    assert forall i, j | 0 <= i < j < |positions| :: positions[i] != positions[j];
    SubsetSameLength(positions, s);
  }

  /** The multiset of a prefix grows by the next element. */
  lemma PrefixSnoc(s: seq<int>, i: nat)
    requires i < |s|
    ensures multiset(s[..i + 1]) == multiset(s[..i]) + multiset{s[i]}
  {
    assert s[..i + 1] == s[..i] + [s[i]];
  }
}
