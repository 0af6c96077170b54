/**
 * The exhaustive 0/1 knapsack of OptimizedDataGraph.KnapSack. The recursion
 * walks the positions 0 .. n-1 of the node's distinct stored ids and, in the
 * include branch, adds the POSITION itself to the selection; values and
 * weights are then looked up under that position in maps keyed by data id.
 * The model keeps this as written. A `LinkedHashSet` keeps insertion order, and
 * positions are added in increasing order, so a selection is a strictly
 * increasing sequence.
 */
module Knapsack {
  import opened Wrappers

  /** `Selection`: `None` stands for the `null` set of an overweight branch. */
  datatype Selection = Selection(selected: Option<seq<int>>, totalValue: real, totalWeight: int)

  /** Every entry of `sel` has a score and a weight, so the summing loop does not unbox a null. */
  predicate Keyed(sel: seq<int>, scores: map<int, real>, weights: map<int, int>)
  {
    forall x | x in sel :: x in scores && x in weights
  }

  /** Summed score of the entries of `sel` (missing entries add 0; Compute never sums those). */
  function Value(sel: seq<int>, scores: map<int, real>): real
  {
    if sel == [] then 0.0 else (if sel[0] in scores then scores[sel[0]] else 0.0) + Value(sel[1..], scores)
  }

  /** Summed weight of the entries of `sel` (missing entries add 0; Compute never sums those). */
  function Weight(sel: seq<int>, weights: map<int, int>): int
  {
    if sel == [] then 0 else (if sel[0] in weights then weights[sel[0]] else 0) + Weight(sel[1..], weights)
  }

  /** `t` is strictly increasing with every entry in [lo, hi). */
  predicate IncreasingIn(t: seq<int>, lo: int, hi: int)
  {
    (forall i | 0 <= i < |t| :: lo <= t[i] < hi) &&
    (forall i, j | 0 <= i < j < |t| :: t[i] < t[j])
  }

  /** Weight and value are additive over concatenation. */
  lemma {:induction false} SumsConcat(a: seq<int>, b: seq<int>, scores: map<int, real>, weights: map<int, int>)
    ensures Weight(a + b, weights) == Weight(a, weights) + Weight(b, weights)
    ensures Value(a + b, scores) == Value(a, scores) + Value(b, scores)
  {
    if a == [] {
      assert a + b == b;
    } else {
      assert (a + b)[0] == a[0];
      assert (a + b)[1..] == a[1..] + b;
      SumsConcat(a[1..], b, scores, weights);
    }
  }

  /** With non-negative scores and weights on [0, n), the sums of a selection inside [0, n) are non-negative. */
  lemma {:induction false} SumsNonNegative(t: seq<int>, n: int, scores: map<int, real>, weights: map<int, int>)
    requires forall p | 0 <= p < n && p in scores :: scores[p] >= 0.0
    requires forall p | 0 <= p < n && p in weights :: weights[p] >= 0
    requires forall i | 0 <= i < |t| :: 0 <= t[i] < n
    ensures Value(t, scores) >= 0.0 && Weight(t, weights) >= 0
  {
    if t != [] {
      SumsNonNegative(t[1..], n, scores, weights);
    }
  }

  /**
   * `compute(pos, selected)`: sum the selection (a missing key is a null
   * unboxed: NullPointerException), prune an overweight selection to
   * `Selection(null, 0, 0)`, stop past the last position, and otherwise try
   * including and then excluding position `pos`; the exclude branch wins ties.
   */
  function Compute(n: nat, maxWeight: int, scores: map<int, real>, weights: map<int, int>,
                   pos: nat, sel: seq<int>): (r: Result<Selection>)
    requires pos <= n
    requires IncreasingIn(sel, 0, pos)
    decreases n - pos
    ensures r.Failure? ==> r.error == NullPointer
    ensures !Keyed(sel, scores, weights) ==> r.Failure?
    ensures Keyed(sel, scores, weights) && Weight(sel, weights) > maxWeight ==> r == Success(Selection(None, 0.0, 0))
    ensures r.Success? && r.value.selected.None? ==> r.value.totalValue == 0.0 && r.value.totalWeight == 0
    ensures r.Success? && r.value.selected.Some? ==>
      var t := r.value.selected.value;
      && IncreasingIn(t, 0, n)
      && |sel| <= |t| && t[..|sel|] == sel
      && Keyed(t, scores, weights)
      && r.value.totalWeight == Weight(t, weights) <= maxWeight
      && r.value.totalValue == Value(t, scores)
  {
    if !Keyed(sel, scores, weights) then Failure(NullPointer)
    else if Weight(sel, weights) > maxWeight then Success(Selection(None, 0.0, 0))
    else if pos >= n then Success(Selection(Some(sel), Value(sel, scores), Weight(sel, weights)))
    else
      match Compute(n, maxWeight, scores, weights, pos + 1, sel + [pos])
      case Failure(e) => Failure(e)
      case Success(on) =>
        match Compute(n, maxWeight, scores, weights, pos + 1, sel)
        case Failure(e) => Failure(e)
        case Success(off) =>
          if on.totalValue > off.totalValue then
            assert on.selected.Some? ==> on.selected.value[..|sel|] == (sel + [pos])[..|sel|] == sel;
            Success(on)
          else Success(off)
  }

  /** `startCompute()`: the recursion from position 0 with the empty selection. */
  function StartCompute(n: nat, maxWeight: int, scores: map<int, real>, weights: map<int, int>): (r: Result<Selection>)
    ensures r.Success? && r.value.selected.Some? ==>
      IncreasingIn(r.value.selected.value, 0, n) && r.value.totalWeight <= maxWeight
  {
    Compute(n, maxWeight, scores, weights, 0, [])
  }

  /** Every position 0 .. n-1 is a key of both maps, so no lookup of the recursion yields null. */
  predicate PositionsKeyed(n: nat, scores: map<int, real>, weights: map<int, int>)
  {
    forall p | 0 <= p < n :: p in scores && p in weights
  }

  /** Scores and weights of the positions are non-negative (scores are inverse squares, weights sizes). */
  predicate NonNegative(n: nat, scores: map<int, real>, weights: map<int, int>)
  {
    (forall p | 0 <= p < n && p in scores :: scores[p] >= 0.0) &&
    (forall p | 0 <= p < n && p in weights :: weights[p] >= 0)
  }

  /** Appending the current position keeps a selection increasing, one position further on. */
  lemma ExtendIncreasing(sel: seq<int>, pos: nat)
    requires IncreasingIn(sel, 0, pos)
    ensures IncreasingIn(sel, 0, pos + 1) && IncreasingIn(sel + [pos], 0, pos + 1)
  {
  }

  /** One recursive step of Compute, when both branches return normally. */
  lemma {:induction false} ComputeStep(n: nat, maxWeight: int, scores: map<int, real>, weights: map<int, int>, pos: nat, sel: seq<int>)
    requires pos < n && IncreasingIn(sel, 0, pos)
    requires Keyed(sel, scores, weights) && Weight(sel, weights) <= maxWeight
    requires Compute(n, maxWeight, scores, weights, pos + 1, sel + [pos]).Success?
    requires Compute(n, maxWeight, scores, weights, pos + 1, sel).Success?
    ensures var on := Compute(n, maxWeight, scores, weights, pos + 1, sel + [pos]).value;
      var off := Compute(n, maxWeight, scores, weights, pos + 1, sel).value;
      Compute(n, maxWeight, scores, weights, pos, sel) == Success(if on.totalValue > off.totalValue then on else off)
  {
  }

  /** A completion of `sel` that starts with `pos` is a completion of `sel + [pos]`; any other skips `pos`. */
  lemma {:induction false} SplitCompletion(n: nat, maxWeight: int, scores: map<int, real>, weights: map<int, int>,
                        pos: nat, sel: seq<int>, t: seq<int>)
    requires pos < n && IncreasingIn(t, pos, n) && NonNegative(n, scores, weights)
    requires Weight(sel + t, weights) <= maxWeight
    ensures t != [] && t[0] == pos ==>
      && IncreasingIn(t[1..], pos + 1, n)
      && sel + t == (sel + [pos]) + t[1..]
      && Weight(sel + [pos], weights) <= maxWeight
    ensures !(t != [] && t[0] == pos) ==> IncreasingIn(t, pos + 1, n)
  {
    if t != [] && t[0] == pos {
      var rest := t[1..];
      assert sel + t == (sel + [pos]) + rest;
      SumsConcat(sel + [pos], rest, scores, weights);
      SumsNonNegative(rest, n, scores, weights);
    } else if t != [] {
      forall i | 0 <= i < |t| ensures pos + 1 <= t[i] {
        assert t[0] <= t[i];
      }
    }
  }

  /** Every feasible completion of `sel` by positions in [lo, n) is worth at most `bound`. */
  ghost predicate Dominates(n: nat, maxWeight: int, scores: map<int, real>, weights: map<int, int>,
                            lo: nat, sel: seq<int>, bound: real)
  {
    forall t | IncreasingIn(t, lo, n) && Weight(sel + t, weights) <= maxWeight :: Value(sel + t, scores) <= bound
  }

  /** Compute's answer at `pos` dominates once both branch answers dominate their own completions. */
  lemma {:induction false} CombineBranches(n: nat, maxWeight: int, scores: map<int, real>, weights: map<int, int>,
                                           pos: nat, sel: seq<int>)
    requires pos < n && IncreasingIn(sel, 0, pos)
    requires PositionsKeyed(n, scores, weights) && NonNegative(n, scores, weights)
    requires Weight(sel, weights) <= maxWeight
    requires var off := Compute(n, maxWeight, scores, weights, pos + 1, sel);
      off.Success? && off.value.selected.Some? &&
      Dominates(n, maxWeight, scores, weights, pos + 1, sel, off.value.totalValue)
    requires Weight(sel + [pos], weights) <= maxWeight ==>
      var on := Compute(n, maxWeight, scores, weights, pos + 1, sel + [pos]);
      on.Success? && on.value.selected.Some? &&
      Dominates(n, maxWeight, scores, weights, pos + 1, sel + [pos], on.value.totalValue)
    ensures var r := Compute(n, maxWeight, scores, weights, pos, sel);
      r.Success? && r.value.selected.Some? &&
      Dominates(n, maxWeight, scores, weights, pos, sel, r.value.totalValue)
  {
    ExtendIncreasing(sel, pos);
    var taken := sel + [pos];
    assert Keyed(sel, scores, weights) && Keyed(taken, scores, weights);
    var off := Compute(n, maxWeight, scores, weights, pos + 1, sel).value;
    var on := Compute(n, maxWeight, scores, weights, pos + 1, taken).value;
    ComputeStep(n, maxWeight, scores, weights, pos, sel);
    var best := if on.totalValue > off.totalValue then on else off;
    assert on.selected.None? ==> on.totalValue == 0.0;
    assert off.totalValue >= 0.0 by {
      assert sel + [] == sel;
      assert IncreasingIn([], pos + 1, n);
      SumsNonNegative(sel, n, scores, weights);
    }
    assert best.selected.Some?;
    DominatesFromBranches(n, maxWeight, scores, weights, pos, sel, off.totalValue, on.totalValue, best.totalValue);
  }

  /** The better of the two branch values bounds every completion of `sel` from `pos`. */
  lemma {:induction false} DominatesFromBranches(n: nat, maxWeight: int, scores: map<int, real>, weights: map<int, int>,
                                                 pos: nat, sel: seq<int>, offValue: real, onValue: real, best: real)
    requires pos < n && NonNegative(n, scores, weights)
    requires Dominates(n, maxWeight, scores, weights, pos + 1, sel, offValue)
    requires Weight(sel + [pos], weights) <= maxWeight ==>
      Dominates(n, maxWeight, scores, weights, pos + 1, sel + [pos], onValue)
    requires best >= offValue && best >= onValue
    ensures Dominates(n, maxWeight, scores, weights, pos, sel, best)
  {
    forall t | IncreasingIn(t, pos, n) && Weight(sel + t, weights) <= maxWeight
      ensures Value(sel + t, scores) <= best
    {
      SplitCompletion(n, maxWeight, scores, weights, pos, sel, t);
      if t != [] && t[0] == pos {
        assert Value((sel + [pos]) + t[1..], scores) <= onValue;
      } else {
        assert Value(sel + t, scores) <= offValue;
      }
    }
  }

  /** The first position of a sequence within [lo, hi) lies in [lo, hi). */
  lemma FirstInRange(t: seq<int>, lo: int, hi: int)
    ensures t != [] && IncreasingIn(t, lo, hi) ==> lo <= t[0] < hi
  {
  }

  /** Past the last position the only completion is the empty one, which Compute returns. */
  lemma {:induction false} LastPosition(n: nat, maxWeight: int, scores: map<int, real>, weights: map<int, int>,
                                        sel: seq<int>)
    requires IncreasingIn(sel, 0, n)
    requires PositionsKeyed(n, scores, weights)
    requires Weight(sel, weights) <= maxWeight
    ensures var r := Compute(n, maxWeight, scores, weights, n, sel);
      && r == Success(Selection(Some(sel), Value(sel, scores), Weight(sel, weights)))
      && Dominates(n, maxWeight, scores, weights, n, sel, r.value.totalValue)
  {
    assert Keyed(sel, scores, weights);
    forall t | IncreasingIn(t, n, n) && Weight(sel + t, weights) <= maxWeight
      ensures Value(sel + t, scores) <= Value(sel, scores)
    {
      FirstInRange(t, n, n);
      assert t == [];
      assert sel + t == sel;
    }
  }

  /**
   * From any feasible partial selection, Compute completes it to a feasible
   * selection at least as valuable as every feasible completion by positions
   * in [pos, n).
   */
  lemma {:induction false} ComputeOptimal(n: nat, maxWeight: int, scores: map<int, real>, weights: map<int, int>,
                                          pos: nat, sel: seq<int>)
    requires pos <= n && IncreasingIn(sel, 0, pos)
    requires PositionsKeyed(n, scores, weights) && NonNegative(n, scores, weights)
    requires Weight(sel, weights) <= maxWeight
    ensures var r := Compute(n, maxWeight, scores, weights, pos, sel);
      && r.Success? && r.value.selected.Some?
      && Dominates(n, maxWeight, scores, weights, pos, sel, r.value.totalValue)
    decreases n - pos, 1
  {
    if pos == n {
      LastPosition(n, maxWeight, scores, weights, sel);
    } else {
      BranchOptimal(n, maxWeight, scores, weights, pos, sel);
    }
  }

  /** The recursive case of ComputeOptimal: both branches are optimal, hence so is their better one. */
  lemma {:induction false} BranchOptimal(n: nat, maxWeight: int, scores: map<int, real>, weights: map<int, int>,
                                         pos: nat, sel: seq<int>)
    requires pos < n && IncreasingIn(sel, 0, pos)
    requires PositionsKeyed(n, scores, weights) && NonNegative(n, scores, weights)
    requires Weight(sel, weights) <= maxWeight
    ensures var r := Compute(n, maxWeight, scores, weights, pos, sel);
      && r.Success? && r.value.selected.Some?
      && Dominates(n, maxWeight, scores, weights, pos, sel, r.value.totalValue)
    decreases n - pos, 0
  {
    ExtendIncreasing(sel, pos);
    ComputeOptimal(n, maxWeight, scores, weights, pos + 1, sel);
    if Weight(sel + [pos], weights) <= maxWeight {
      ComputeOptimal(n, maxWeight, scores, weights, pos + 1, sel + [pos]);
    }
    CombineBranches(n, maxWeight, scores, weights, pos, sel);
  }


  /**
   * startCompute on non-negative scores and weights with every position keyed
   * and a non-negative capacity: it returns a non-null feasible selection of
   * positions whose value is at least that of every feasible subset of [0, n).
   */
  lemma StartComputeOptimal(n: nat, maxWeight: int, scores: map<int, real>, weights: map<int, int>)
    requires PositionsKeyed(n, scores, weights) && NonNegative(n, scores, weights)
    requires maxWeight >= 0
    ensures var r := StartCompute(n, maxWeight, scores, weights);
      && r.Success? && r.value.selected.Some?
      && r.value.totalWeight <= maxWeight
      && forall t | IncreasingIn(t, 0, n) && Weight(t, weights) <= maxWeight :: Value(t, scores) <= r.value.totalValue
  {
    ComputeOptimal(n, maxWeight, scores, weights, 0, []);
    forall t | IncreasingIn(t, 0, n) && Weight(t, weights) <= maxWeight
      ensures Value(t, scores) <= StartCompute(n, maxWeight, scores, weights).value.totalValue
    {
      assert [] + t == t;
    }
  }

  /**
   * A position below n that is missing from either map is always reached with
   * a feasible selection, so the recursion throws a NullPointerException.
   */
  lemma {:induction false} ComputeReachesMissing(n: nat, maxWeight: int, scores: map<int, real>, weights: map<int, int>,
                                                 pos: nat, sel: seq<int>, p: nat)
    requires pos <= p < n && IncreasingIn(sel, 0, pos)
    requires p !in scores || p !in weights
    requires Keyed(sel, scores, weights) && Weight(sel, weights) <= maxWeight
    ensures Compute(n, maxWeight, scores, weights, pos, sel) == Failure(NullPointer)
    decreases n - pos
  {
    if pos < p {
      ComputeReachesMissing(n, maxWeight, scores, weights, pos + 1, sel, p);
    } else {
      assert p in sel + [pos];
    }
  }

  /** With a non-negative capacity, startCompute throws unless every position is a key of both maps. */
  lemma StartComputeNeedsPositionKeys(n: nat, maxWeight: int, scores: map<int, real>, weights: map<int, int>)
    requires maxWeight >= 0
    requires StartCompute(n, maxWeight, scores, weights).Success?
    ensures PositionsKeyed(n, scores, weights)
  {
    if p :| 0 <= p < n && (p !in scores || p !in weights) {
      ComputeReachesMissing(n, maxWeight, scores, weights, 0, [], p);
    }
  }

  /** A negative capacity prunes the empty selection at once: the result holds the null set. */
  lemma NegativeCapacityGivesNull(n: nat, maxWeight: int, scores: map<int, real>, weights: map<int, int>)
    requires maxWeight < 0
    ensures StartCompute(n, maxWeight, scores, weights) == Success(Selection(None, 0.0, 0))
  {
  }
}
