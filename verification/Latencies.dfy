/**
 * A list's median and 90th percentile, and what pooling several lists does to them (convex/companyFigures.ts). Numbers
 * are exact: floating point is idealised.
 */
module Latencies {
  import opened Prelude
  import opened OrderStatistics

  // ---------------------------------------------------------------- a latency's median and percentile

  datatype Latency = Latency(median: Option<real>, p90: Option<real>)

  /** The place of the 90th percentile: nine tenths of the list, rounded up, counted from 0. */
  function P90Place(n: nat): (r: nat)
    requires n > 0
    ensures r < n && 10 * r < 9 * n <= 10 * (r + 1)
  {
    (9 * n + 9) / 10 - 1
  }

  function Median(values: seq<real>): real
    requires values != []
  {
    var middle := |values| / 2;
    if |values| % 2 == 0 then (Nth(values, middle - 1) + Nth(values, middle)) / 2.0 else Nth(values, middle)
  }

  function P90(values: seq<real>): real
    requires values != []
  {
    Nth(values, P90Place(|values|))
  }

  function LatencySummary(values: seq<real>): Latency {
    if values == [] then Latency(None, None) else Latency(Some(Median(values)), Some(P90(values)))
  }

  /**
   * Odd and even counts together: the median is halfway between the two middle places, which are one place for an odd
   * count.
   */
  lemma MedianBetween(values: seq<real>) returns (lower: nat, upper: nat)
    requires values != []
    ensures lower + upper == |values| - 1 && lower <= upper <= lower + 1
    ensures Nth(values, lower) + Nth(values, upper) == 2.0 * Median(values)
    ensures Nth(values, lower) <= Median(values) <= Nth(values, upper)
  {
    var middle := |values| / 2;
    if |values| % 2 == 0 {
      lower, upper := middle - 1, middle;
    } else {
      lower, upper := middle, middle;
    }
    NthMonotone(values, lower, upper);
  }

  lemma MedianPermutes(a: seq<real>, b: seq<real>)
    requires multiset(a) == multiset(b) && a != []
    ensures b != [] && Median(a) == Median(b)
  {
    assert |multiset(a)| == |a| && |multiset(b)| == |b|;
    assert |a| == |b| && |a| / 2 == |b| / 2;
    var middle := |a| / 2;
    NthPermutes(a, b, middle);
    if |a| % 2 == 0 {
      NthPermutes(a, b, middle - 1);
    }
  }

  /** The summary does not see the order its values came in. */
  lemma SummaryPermutes(a: seq<real>, b: seq<real>)
    requires multiset(a) == multiset(b)
    ensures LatencySummary(a) == LatencySummary(b)
  {
    assert |multiset(a)| == |a| && |multiset(b)| == |b|;
    if a != [] {
      MedianPermutes(a, b);
      var place := P90Place(|a|);
      NthPermutes(a, b, place);
    }
  }

  /** At least half of the values lie on each side of the median, its equals counted on both. */
  lemma MedianHalves(values: seq<real>)
    requires values != []
    ensures 2 * CountAtMost(values, Median(values)) >= |values|
    ensures 2 * (|values| - CountBelow(values, Median(values))) >= |values|
    ensures LatencySummary(values).median == Some(Median(values))
  {
    var lower, upper := MedianBetween(values);
    NthByCounting(values, lower, Median(values));
    NthByCounting(values, upper, Median(values));
  }

  /** The 90th percentile is the least of the values with at least nine tenths of the list at or below it. */
  lemma P90IsLeast(values: seq<real>)
    requires values != []
    ensures P90(values) in values && LatencySummary(values).p90 == Some(P90(values))
    ensures 10 * CountAtMost(values, P90(values)) >= 9 * |values|
    ensures forall x <- values | 10 * CountAtMost(values, x) >= 9 * |values| :: P90(values) <= x
  {
    var place := P90Place(|values|);
    NthIsOneOf(values, place);
    NthByCounting(values, place, P90(values));
    forall x | x in values && 10 * CountAtMost(values, x) >= 9 * |values|
      ensures P90(values) <= x
    {
      NthByCounting(values, place, x);
    }
  }

  // ---------------------------------------------------------------- pooled medians and percentiles

  function Pool(lists: seq<seq<real>>): seq<real> {
    if lists == [] then [] else Pool(lists[..|lists| - 1]) + lists[|lists| - 1]
  }

  /** Counting over a pool is counting over its lists. */
  lemma {:induction false} PoolCounts(lists: seq<seq<real>>, x: real)
    requires lists != []
    ensures CountBelow(Pool(lists), x) == CountBelow(Pool(lists[..|lists| - 1]), x) + CountBelow(lists[|lists| - 1], x)
    ensures
      CountAtMost(Pool(lists), x) == CountAtMost(Pool(lists[..|lists| - 1]), x) + CountAtMost(lists[|lists| - 1], x)
  {
    CountAppend(Pool(lists[..|lists| - 1]), lists[|lists| - 1], x);
  }

  /**
   * In one list whose median is `low` or more: at most half its values lie at or under `y`, and when exactly half do,
   * at most half lie under the mirror of `y` in `low`.
   */
  lemma HalfBelow(values: seq<real>, low: real, y: real)
    requires values != [] ==> low <= Median(values)
    requires y < low
    ensures 2 * CountAtMost(values, y) <= |values|
    ensures 2 * CountAtMost(values, y) == |values| ==> 2 * CountBelow(values, 2.0 * low - y) <= |values|
  {
    if values != [] {
      var lower, upper := MedianBetween(values);
      NthByCounting(values, lower, y);
      NthByCounting(values, upper, y);
      NthByCounting(values, upper, 2.0 * low - y);
    }
  }

  /** And conversely: those counts put the median at `low` or more. */
  lemma MedianFromHalves(values: seq<real>, low: real)
    requires values != []
    requires forall y | y < low :: 2 * CountAtMost(values, y) <= |values|
    requires
      forall y | y < low :: 2 * CountAtMost(values, y) == |values| ==> 2 * CountBelow(values, 2.0 * low - y) <= |values|
    ensures low <= Median(values)
  {
    var lower, upper := MedianBetween(values);
    var y := Nth(values, lower);
    if y < low {
      NthByCounting(values, lower, y);
      assert 2 * CountAtMost(values, y) == |values|;
      NthByCounting(values, upper, 2.0 * low - y);
    }
  }

  lemma {:induction false} PooledHalfBelow(lists: seq<seq<real>>, low: real, y: real)
    requires forall l <- lists | l != [] :: low <= Median(l)
    requires y < low
    ensures 2 * CountAtMost(Pool(lists), y) <= |Pool(lists)|
    ensures
      2 * CountAtMost(Pool(lists), y) == |Pool(lists)| ==> 2 * CountBelow(Pool(lists), 2.0 * low - y) <= |Pool(lists)|
  {
    if lists != [] {
      var last := lists[|lists| - 1];
      assert last in lists;
      PooledHalfBelow(lists[..|lists| - 1], low, y);
      HalfBelow(last, low, y);
      PoolCounts(lists, y);
      PoolCounts(lists, 2.0 * low - y);
    }
  }

  /**
   * The pooled median is no less than the smallest of the lists' medians, the midpoint rule of even counts included.
   */
  lemma PooledMedianAtLeast(lists: seq<seq<real>>, low: real)
    requires Pool(lists) != []
    requires forall l <- lists | l != [] :: low <= Median(l)
    ensures low <= Median(Pool(lists))
  {
    forall y | y < low
      ensures 2 * CountAtMost(Pool(lists), y) <= |Pool(lists)|
      ensures
        2 * CountAtMost(Pool(lists), y) == |Pool(lists)| ==> 2 * CountBelow(Pool(lists), 2.0 * low - y) <= |Pool(lists)|
    {
      PooledHalfBelow(lists, low, y);
    }
    MedianFromHalves(Pool(lists), low);
  }

  function NegatedAll(lists: seq<seq<real>>): (r: seq<seq<real>>)
    ensures |r| == |lists| && forall i :: 0 <= i < |lists| ==> r[i] == Negated(lists[i])
  {
    Map(lists, l => Negated(l))
  }

  lemma MedianNegated(values: seq<real>)
    requires values != []
    ensures Negated(values) != [] && Median(Negated(values)) == -Median(values)
  {
    var lower, upper := MedianBetween(values);
    var lower', upper' := MedianBetween(Negated(values));
    assert lower' == lower && upper' == upper;
    NthNegated(values, lower);
    NthNegated(values, upper);
    assert |values| - 1 - lower == upper && |values| - 1 - upper == lower;
    HalvesNegated(
      Nth(values, lower), Nth(values, upper), Nth(Negated(values), lower), Nth(Negated(values), upper), Median(values),
      Median(Negated(values)));
  }

  lemma HalvesNegated(low: real, high: real, negatedLow: real, negatedHigh: real, median: real, negated: real)
    requires low + high == 2.0 * median && negatedLow + negatedHigh == 2.0 * negated
    requires negatedLow == -high && negatedHigh == -low
    ensures negated == -median
  {
  }

  lemma {:induction false} PoolNegated(lists: seq<seq<real>>)
    ensures Pool(NegatedAll(lists)) == Negated(Pool(lists))
  {
    if lists != [] {
      PoolNegated(lists[..|lists| - 1]);
      assert NegatedAll(lists)[..|lists| - 1] == NegatedAll(lists[..|lists| - 1]);
    }
  }

  /** And no more than the largest. */
  lemma PooledMedianAtMost(lists: seq<seq<real>>, high: real)
    requires Pool(lists) != []
    requires forall l <- lists | l != [] :: Median(l) <= high
    ensures Median(Pool(lists)) <= high
  {
    var mirrored := NegatedAll(lists);
    PoolNegated(lists);
    forall l | l in mirrored && l != []
      ensures -high <= Median(l)
    {
      var i :| 0 <= i < |mirrored| && mirrored[i] == l;
      assert lists[i] in lists;
      MedianNegated(lists[i]);
    }
    PooledMedianAtLeast(mirrored, -high);
    MedianNegated(Pool(lists));
  }

  lemma {:induction false} PooledNineTenths(lists: seq<seq<real>>, low: real, high: real)
    requires forall l <- lists | l != [] :: low <= P90(l) <= high
    ensures 10 * CountBelow(Pool(lists), low) <= 9 * |Pool(lists)|
    ensures Pool(lists) != [] ==> 10 * CountBelow(Pool(lists), low) < 9 * |Pool(lists)|
    ensures 9 * |Pool(lists)| <= 10 * CountAtMost(Pool(lists), high)
  {
    if lists != [] {
      var last := lists[|lists| - 1];
      assert last in lists;
      PooledNineTenths(lists[..|lists| - 1], low, high);
      PoolCounts(lists, low);
      PoolCounts(lists, high);
      if last != [] {
        NthByCounting(last, P90Place(|last|), low);
        NthByCounting(last, P90Place(|last|), high);
      }
    }
  }

  /** The pooled 90th percentile lies between the smallest and the largest of the lists' own. */
  lemma PooledP90Between(lists: seq<seq<real>>, low: real, high: real)
    requires Pool(lists) != []
    requires forall l <- lists | l != [] :: low <= P90(l) <= high
    ensures low <= P90(Pool(lists)) <= high
  {
    PooledNineTenths(lists, low, high);
    NthByCounting(Pool(lists), P90Place(|Pool(lists)|), low);
    NthByCounting(Pool(lists), P90Place(|Pool(lists)|), high);
  }
}
