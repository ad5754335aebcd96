/**
 * The selection idioms the matchers are built from: Array.prototype.filter,
 * a left-to-right scan that replaces its candidate only on strict
 * improvement (the `for` loops and the `reduce` calls), and a stable sort on
 * a two-valued key.
 */
module Selection {

  /** Array.prototype.filter: the elements satisfying p, in their order. */
  function Filter<T(!new)>(s: seq<T>, p: T -> bool): (r: seq<T>)
    ensures |r| <= |s|
    ensures forall x :: x in r <==> x in s && p(x)
  {
    if |s| == 0 then []
    else
      assert s == [s[0]] + s[1..];
      if p(s[0]) then [s[0]] + Filter(s[1..], p)
      else Filter(s[1..], p)
  }

  /** The positions in s of the elements satisfying p, in increasing order. */
  function FilterIndices<T>(s: seq<T>, p: T -> bool): seq<nat> {
    if |s| == 0 then []
    else
      var shifted := Shift(FilterIndices(s[1..], p));
      if p(s[0]) then [0] + shifted else shifted
  }

  /** Every position moved one place on, as positions in s[1..] become positions in s. */
  function Shift(idx: seq<nat>): (r: seq<nat>)
    ensures |r| == |idx|
    ensures forall k :: 0 <= k < |r| ==> r[k] == idx[k] + 1
  {
    seq(|idx|, k requires 0 <= k < |idx| => idx[k] + 1)
  }

  /**
   * The order half of Filter's contract: the k-th kept element is the
   * element at the k-th satisfying position of s, and those positions
   * increase and are exactly the positions whose element satisfies p.
   */
  lemma FilterKeepsOrder<T(!new)>(s: seq<T>, p: T -> bool)
    ensures var idx := FilterIndices(s, p);
      && |idx| == |Filter(s, p)|
      && (forall k :: 0 <= k < |idx| ==> idx[k] < |s| && s[idx[k]] == Filter(s, p)[k])
      && (forall i, j :: 0 <= i < j < |idx| ==> idx[i] < idx[j])
      && (forall m :: 0 <= m < |s| ==> (m in idx <==> p(s[m])))
  {
    FilterIndicesPick(s, p);
    FilterIndicesIncrease(s, p);
    FilterIndicesExact(s, p);
  }

  /** The k-th satisfying position holds the k-th kept element. */
  lemma {:induction false} FilterIndicesPick<T(!new)>(s: seq<T>, p: T -> bool)
    ensures |FilterIndices(s, p)| == |Filter(s, p)|
    ensures forall k :: 0 <= k < |FilterIndices(s, p)| ==>
      FilterIndices(s, p)[k] < |s| && s[FilterIndices(s, p)[k]] == Filter(s, p)[k]
  {
    if |s| > 0 {
      var rest, ft := FilterIndices(s[1..], p), Filter(s[1..], p);
      var shifted := Shift(rest);
      FilterIndicesPick(s[1..], p);
      forall k | 0 <= k < |shifted|
        ensures shifted[k] < |s| && s[shifted[k]] == ft[k]
      {
        assert s[1..][rest[k]] == s[rest[k] + 1];
      }
      if p(s[0]) {
        assert Filter(s, p) == [s[0]] + ft;
      } else {
        assert Filter(s, p) == ft;
      }
    }
  }

  /** The satisfying positions strictly increase. */
  lemma {:induction false} FilterIndicesIncrease<T>(s: seq<T>, p: T -> bool)
    ensures forall i, j :: 0 <= i < j < |FilterIndices(s, p)| ==> FilterIndices(s, p)[i] < FilterIndices(s, p)[j]
  {
    if |s| > 0 {
      FilterIndicesIncrease(s[1..], p);
    }
  }

  /** A position is listed exactly when its element satisfies p. */
  lemma {:induction false} FilterIndicesExact<T>(s: seq<T>, p: T -> bool)
    ensures forall m :: 0 <= m < |s| ==> (m in FilterIndices(s, p) <==> p(s[m]))
  {
    if |s| > 0 {
      var rest := FilterIndices(s[1..], p);
      var shifted := Shift(rest);
      var idx := FilterIndices(s, p);
      FilterIndicesExact(s[1..], p);
      assert 0 !in shifted;
      forall m | 1 <= m < |s|
        ensures m in idx <==> p(s[m])
      {
        assert s[1..][m - 1] == s[m];
        if m - 1 in rest {
          var k :| 0 <= k < |rest| && rest[k] == m - 1;
          assert shifted[k] == m;
        }
        if m in shifted {
          var k :| 0 <= k < |shifted| && shifted[k] == m;
          assert rest[k] == m - 1;
        }
        assert m in idx <==> m in shifted;
      }
    }
  }

  /** Nothing passes the filter when no element satisfies p. */
  lemma {:induction false} FilterNone<T(!new)>(s: seq<T>, p: T -> bool)
    requires forall k :: 0 <= k < |s| ==> !p(s[k])
    ensures Filter(s, p) == []
  {
    if |s| > 0 {
      FilterNone(s[1..], p);
    }
  }

  /** The first element satisfying p heads the filtered list. */
  lemma {:induction false} FilterHead<T(!new)>(s: seq<T>, p: T -> bool, i: nat)
    requires i < |s| && p(s[i])
    requires forall k :: 0 <= k < i ==> !p(s[k])
    ensures |Filter(s, p)| > 0 && Filter(s, p)[0] == s[i]
  {
    if i > 0 {
      FilterHead(s[1..], p, i - 1);
    }
  }

  /** Two filters in a row are one filter on both conditions. */
  lemma {:induction false} FilterFilter<T(!new)>(s: seq<T>, p: T -> bool, q: T -> bool, pq: T -> bool)
    requires forall x :: pq(x) == (p(x) && q(x))
    ensures Filter(Filter(s, p), q) == Filter(s, pq)
  {
    if |s| > 0 {
      FilterFilter(s[1..], p, q, pq);
      if p(s[0]) {
        var f := Filter(s, p);
        assert f == [s[0]] + Filter(s[1..], p);
        assert f[0] == s[0] && f[1..] == Filter(s[1..], p);
      }
    }
  }

  /** When some element satisfies p, the filter's head is the first such element. */
  lemma FilterFirst<T(!new)>(s: seq<T>, p: T -> bool)
    requires exists k :: 0 <= k < |s| && p(s[k])
    ensures |Filter(s, p)| > 0 && Filter(s, p)[0] == s[FirstSatisfying(s, p)]
  {
    FilterHead(s, p, FirstSatisfying(s, p));
  }

  /** Filtering keeps every element of each kind, so its two halves together are a permutation. */
  lemma {:induction false} FilterSplit<T(!new)>(s: seq<T>, p: T -> bool)
    ensures multiset(Filter(s, p)) + multiset(Filter(s, x => !p(x))) == multiset(s)
  {
    if |s| > 0 {
      var q := x => !p(x);
      var a, b := Filter(s[1..], p), Filter(s[1..], q);
      FilterSplit(s[1..], p);
      assert s == [s[0]] + s[1..];
      if p(s[0]) {
        assert Filter(s, p) == [s[0]] + a;
        assert Filter(s, q) == b;
      } else {
        assert Filter(s, p) == a;
        assert Filter(s, q) == [s[0]] + b;
      }
    }
  }

  /**
   * The scan `best := s[0]; for each later x: if key(x) < key(best) then best := x`:
   * the index it ends on.
   */
  function FirstMinIndex<T>(s: seq<T>, key: T -> real): (i: nat)
    requires |s| > 0
    ensures i < |s|
    ensures forall j :: 0 <= j < |s| ==> key(s[i]) <= key(s[j])
    ensures forall j :: 0 <= j < i ==> key(s[i]) < key(s[j])
  {
    if |s| == 1 then 0
    else
      var k := FirstMinIndex(s[..|s| - 1], key);
      if key(s[|s| - 1]) < key(s[k]) then |s| - 1 else k
  }

  /** The same scan replacing its candidate only on a strictly greater key. */
  function FirstMaxIndex<T>(s: seq<T>, key: T -> real): (i: nat)
    requires |s| > 0
    ensures i < |s|
    ensures forall j :: 0 <= j < |s| ==> key(s[j]) <= key(s[i])
    ensures forall j :: 0 <= j < i ==> key(s[j]) < key(s[i])
  {
    if |s| == 1 then 0
    else
      var k := FirstMaxIndex(s[..|s| - 1], key);
      if key(s[k]) < key(s[|s| - 1]) then |s| - 1 else k
  }

  /** Lexicographic order on pairs of reals. */
  predicate LexLess(a: (real, real), b: (real, real)) {
    a.0 < b.0 || (a.0 == b.0 && a.1 < b.1)
  }

  /** The scan with the lexicographic comparison on a pair of keys. */
  function FirstLexMinIndex<T>(s: seq<T>, key: T -> (real, real)): (i: nat)
    requires |s| > 0
    ensures i < |s|
    ensures forall j :: 0 <= j < |s| ==> !LexLess(key(s[j]), key(s[i]))
    ensures forall j :: 0 <= j < i ==> LexLess(key(s[i]), key(s[j]))
  {
    if |s| == 1 then 0
    else
      var k := FirstLexMinIndex(s[..|s| - 1], key);
      if LexLess(key(s[|s| - 1]), key(s[k])) then |s| - 1 else k
  }

  /**
   * A stable sort by a key that is 0 where p holds and 1 elsewhere: the
   * elements satisfying p, then the others, each group in its original order.
   */
  function StablePartition<T(!new)>(s: seq<T>, p: T -> bool): (r: seq<T>)
    ensures |r| == |s|
    ensures forall x :: x in r <==> x in s
  {
    FilterSplit(s, p);
    assert |multiset(Filter(s, p)) + multiset(Filter(s, x => !p(x)))| == |s|;
    Filter(s, p) + Filter(s, x => !p(x))
  }

  /** The partition is a permutation sorted by the key: no element satisfying p follows one that does not. */
  lemma StablePartitionSorted<T(!new)>(s: seq<T>, p: T -> bool)
    ensures multiset(StablePartition(s, p)) == multiset(s)
    ensures forall i, j :: 0 <= i < j < |s| && p(StablePartition(s, p)[j]) ==> p(StablePartition(s, p)[i])
  {
    FilterSplit(s, p);
    var a := Filter(s, p);
    var b := Filter(s, x => !p(x));
    var r := StablePartition(s, p);
    assert r == a + b;
    forall k | |a| <= k < |r|
      ensures !p(r[k])
    {
      assert r[k] == b[k - |a|];
      assert b[k - |a|] in b;
    }
    forall k | 0 <= k < |a|
      ensures p(r[k])
    {
      assert r[k] == a[k];
      assert a[k] in a;
    }
  }

  /**
   * The head of the partition is the first element satisfying p when there
   * is one, otherwise the first element.
   */
  lemma StablePartitionHead<T(!new)>(s: seq<T>, p: T -> bool)
    requires |s| > 0
    ensures (exists k :: 0 <= k < |s| && p(s[k])) ==>
      exists i :: 0 <= i < |s| && p(s[i]) && (forall k :: 0 <= k < i ==> !p(s[k])) && StablePartition(s, p)[0] == s[i]
    ensures (forall k :: 0 <= k < |s| ==> !p(s[k])) ==> StablePartition(s, p)[0] == s[0]
  {
    if exists k :: 0 <= k < |s| && p(s[k]) {
      var i := FirstSatisfying(s, p);
      FilterHead(s, p, i);
    } else {
      FilterNone(s, p);
      FilterHead(s, x => !p(x), 0);
    }
  }

  /** When some element satisfies p, the partition starts with the filter's head. */
  lemma StablePartitionFront<T(!new)>(s: seq<T>, p: T -> bool)
    requires |Filter(s, p)| > 0
    ensures StablePartition(s, p)[0] == Filter(s, p)[0]
  {
    assert StablePartition(s, p) == Filter(s, p) + Filter(s, x => !p(x));
  }

  /** Index of the first element satisfying p, when some element does. */
  function FirstSatisfying<T>(s: seq<T>, p: T -> bool): (i: nat)
    requires exists k :: 0 <= k < |s| && p(s[k])
    ensures i < |s| && p(s[i])
    ensures forall k :: 0 <= k < i ==> !p(s[k])
  {
    if p(s[0]) then 0
    else
      assert exists k :: 0 <= k < |s[1..]| && p(s[1..][k]) by {
        var k :| 0 <= k < |s| && p(s[k]);
        assert s[1..][k - 1] == s[k];
      }
      1 + FirstSatisfying(s[1..], p)
  }
}
