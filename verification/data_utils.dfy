/**
 * getAvailableMeasurements (utils/avatar/dataUtils.ts): the distinct
 * heights and weights of the catalog in increasing order, or fixed ranges
 * when the catalog cannot be loaded.
 */
module DataUtils {
  import opened AvatarTypes

  /** The answer: the height and weight values the sliders may offer. */
  datatype AvailableMeasurements = AvailableMeasurements(heights: seq<real>, weights: seq<real>)

  /** Strictly increasing, hence also free of duplicates. */
  predicate Increasing(s: seq<real>) {
    forall i, j :: 0 <= i < j < |s| ==> s[i] < s[j]
  }

  /** Adds x to an increasing sequence, keeping it increasing and without duplicates. */
  function InsertUnique(x: real, s: seq<real>): (r: seq<real>)
    requires Increasing(s)
    ensures Increasing(r)
    ensures forall y :: y in r <==> y == x || y in s
  {
    if |s| == 0 then [x]
    else if x < s[0] then [x] + s
    else if x == s[0] then s
    else
      var rest := InsertUnique(x, s[1..]);
      var r := [s[0]] + rest;
      forall i, j | 0 <= i < j < |r|
        ensures r[i] < r[j]
      {
        assert r[j] == rest[j - 1] && r[j] in rest;
        if r[j] != x {
          var k :| 0 <= k < |s[1..]| && s[1..][k] == r[j];
          assert s[k + 1] == r[j];
        }
        if i > 0 {
          assert r[i] == rest[i - 1];
        }
      }
      r
  }

  /**
   * [...new Set(values)].sort((a, b) => a - b): the distinct values in
   * increasing order.
   */
  function SortedDistinct(values: seq<real>): (r: seq<real>)
    ensures Increasing(r)
    ensures forall y :: y in r <==> y in values
  {
    if |values| == 0 then []
    else
      assert values == [values[0]] + values[1..];
      InsertUnique(values[0], SortedDistinct(values[1..]))
  }

  /** With equal heads, a later value of one increasing sequence is a later value of the other. */
  lemma TailValueInOtherTail(a: seq<real>, b: seq<real>, y: real)
    requires Increasing(a) && Increasing(b)
    requires forall v :: v in a <==> v in b
    requires |a| > 0 && |b| > 0 && a[0] == b[0]
    requires y in a[1..]
    ensures y in b[1..]
  {
    var k :| 0 <= k < |a[1..]| && a[1..][k] == y;
    assert a[k + 1] == y && a[0] < y;
    assert y in b;
    var m :| 0 <= m < |b| && b[m] == y;
    assert m != 0;
    assert b[1..][m - 1] == y;
  }

  /**
   * An increasing sequence is determined by its elements: two increasing
   * sequences holding the same values are equal. So the sorted distinct
   * values do not depend on the order or multiplicity of the input.
   */
  lemma {:induction false} IncreasingUnique(a: seq<real>, b: seq<real>)
    requires Increasing(a) && Increasing(b)
    requires forall y :: y in a <==> y in b
    ensures a == b
    decreases |a|
  {
    if |a| == 0 || |b| == 0 {
      var x := if |a| == 0 then 0.0 else a[0];
      var y := if |b| == 0 then 0.0 else b[0];
      assert |a| == 0 || x in a;
      assert |b| == 0 || y in b;
    } else {
      assert a[0] in b && b[0] in a;
      assert a[0] == b[0] by {
        var i :| 0 <= i < |b| && b[i] == a[0];
        var j :| 0 <= j < |a| && a[j] == b[0];
        assert b[0] <= b[i] && a[0] <= a[j];
      }
      forall y
        ensures y in a[1..] <==> y in b[1..]
      {
        if y in a[1..] {
          TailValueInOtherTail(a, b, y);
        }
        if y in b[1..] {
          TailValueInOtherTail(b, a, y);
        }
      }
      IncreasingUnique(a[1..], b[1..]);
      assert a == [a[0]] + a[1..] && b == [b[0]] + b[1..];
    }
  }

  /** Sorting the distinct values is insensitive to the input's order and repetitions. */
  lemma SortedDistinctSameValues(xs: seq<real>, ys: seq<real>)
    requires forall y :: y in xs <==> y in ys
    ensures SortedDistinct(xs) == SortedDistinct(ys)
  {
    IncreasingUnique(SortedDistinct(xs), SortedDistinct(ys));
  }

  /** An increasing input passes through unchanged. */
  lemma SortedDistinctOfIncreasing(xs: seq<real>)
    requires Increasing(xs)
    ensures SortedDistinct(xs) == xs
  {
    IncreasingUnique(SortedDistinct(xs), xs);
  }

  /**
   * The `for (let i = first; i <= last; i += step)` loop collecting i: the
   * values first, first + step, ... up to the greatest one not above last.
   */
  method StepRange(first: int, last: int, step: int) returns (r: seq<real>)
    requires step > 0
    ensures forall k :: 0 <= k < |r| ==> r[k] == (first + step * k) as real
    ensures first > last ==> r == []
    ensures first <= last ==> |r| > 0 && r[|r| - 1] <= last as real < r[|r| - 1] + step as real
  {
    r := [];
    var i := first;
    while i <= last
      invariant i == first + step * |r|
      invariant first <= last ==> i <= last + step
      invariant first > last ==> r == []
      invariant forall k :: 0 <= k < |r| ==> r[k] == ((first + step * k) as real)
      decreases last - i
    {
      r := r + [i as real];
      i := i + step;
    }
  }

  /** The stepped values are increasing. */
  lemma StepRangeIncreasing(r: seq<real>, first: int, step: int)
    requires step > 0
    requires forall k :: 0 <= k < |r| ==> r[k] == (first + step * k) as real
    ensures Increasing(r)
  {
    forall i, j | 0 <= i < j < |r|
      ensures r[i] < r[j]
    {
      assert step * i < step * j;
    }
  }

  /**
   * getAvailableMeasurements, with the loader's outcome as a parameter:
   * the catalog's distinct statures and weights in increasing order, or
   * heights 150 to 190 and weights 50 to 100 in steps of 5 when loading
   * fails.
   */
  method GetAvailableMeasurements(load: Load) returns (m: AvailableMeasurements)
    ensures Increasing(m.heights) && Increasing(m.weights)
    ensures load.Loaded? ==> forall h :: h in m.heights <==> exists k :: 0 <= k < |load.records| && load.records[k].stature == h
    ensures load.Loaded? ==> forall w :: w in m.weights <==> exists k :: 0 <= k < |load.records| && load.records[k].weight == w
    ensures load.LoadFailed? ==> |m.heights| == 9 && forall k :: 0 <= k < 9 ==> m.heights[k] == (150 + 5 * k) as real
    ensures load.LoadFailed? ==> |m.weights| == 11 && forall k :: 0 <= k < 11 ==> m.weights[k] == (50 + 5 * k) as real
  {
    match load
    case Loaded(records) =>
      m := AvailableMeasurements(SortedDistinct(Statures(records)), SortedDistinct(Weights(records)));
    case LoadFailed =>
      var heights := StepRange(150, 190, 5);
      var weights := StepRange(50, 100, 5);
      StepRangeIncreasing(heights, 150, 5);
      StepRangeIncreasing(weights, 50, 5);
      m := AvailableMeasurements(heights, weights);
  }
}
