/** util/ArraysUtils.java: linear membership tests over arrays. */
module ArraysUtils {

  /** Generic `arrayContains(T[] array, T value)`: scans left to right, stopping at the first equal element. */
  method ArrayContains<T(==)>(a: array<T>, value: T) returns (found: bool, ghost at: nat)
    ensures found <==> value in a[..]
    ensures found ==> at < a.Length && a[at] == value && value !in a[..at]
    ensures !found ==> at == a.Length
  {
    var i := 0;
    while i < a.Length
      invariant 0 <= i <= a.Length
      invariant value !in a[..i]
    {
      if a[i] == value {
        return true, i;
      }
      assert a[..i + 1] == a[..i] + [a[i]];
      i := i + 1;
    }
    assert a[..] == a[..i];
    return false, i;
  }

  /** The `int[]` overload. */
  method ArrayContainsInt(a: array<int>, value: int) returns (found: bool)
    ensures found <==> exists i :: 0 <= i < a.Length && a[i] == value
  {
    found := false;
    for i := 0 to a.Length
      invariant !found <==> forall j :: 0 <= j < i ==> a[j] != value
    {
      if a[i] == value {
        return true;
      }
    }
  }

  /** The membership test the placement code applies to a user's interests. */
  predicate Contains(s: seq<int>, value: int)
  {
    exists i :: 0 <= i < |s| && s[i] == value
  }

  /** Membership depends only on the set of elements: order and repetitions do not matter. */
  lemma ContainsIsSetMembership(s: seq<int>, t: seq<int>, value: int)
    requires forall x :: x in s <==> x in t
    ensures Contains(s, value) <==> Contains(t, value)
    ensures !Contains([], value)
  {
    if Contains(s, value) {
      var i :| 0 <= i < |s| && s[i] == value;
      assert value in t;
    }
    if Contains(t, value) {
      var i :| 0 <= i < |t| && t[i] == value;
      assert value in s;
    }
  }
}
