/** The two rank transforms of `Data` (main.py:57-79, repeated verbatim in
    reader.py:57-79): dense ("compact") ranks and tie-averaged ranks. Values
    are the scores being ranked; only their order and equality matter. */
module Ranking {

  // ---------------------------------------------------------------------
  // Counting elements relative to a value
  // ---------------------------------------------------------------------

  /** Number of elements of `s` strictly below `v`. */
  function Less(s: seq<real>, v: real): nat {
    if |s| == 0 then 0 else (if s[0] < v then 1 else 0) + Less(s[1..], v)
  }

  /** Number of occurrences of `v` in `s`. */
  function Count(s: seq<real>, v: real): nat {
    if |s| == 0 then 0 else (if s[0] == v then 1 else 0) + Count(s[1..], v)
  }

  /** Number of elements of `s` strictly above `v`. */
  function Greater(s: seq<real>, v: real): nat {
    if |s| == 0 then 0 else (if s[0] > v then 1 else 0) + Greater(s[1..], v)
  }

  /** Every element is below, equal to or above `v`. */
  lemma {:induction false} Trichotomy(s: seq<real>, v: real)
    ensures Less(s, v) + Count(s, v) + Greater(s, v) == |s|
  {
    if |s| > 0 {
      Trichotomy(s[1..], v);
    }
  }

  lemma {:induction false} CountsAppend(a: seq<real>, b: seq<real>, v: real)
    ensures Less(a + b, v) == Less(a, v) + Less(b, v)
    ensures Count(a + b, v) == Count(a, v) + Count(b, v)
    ensures Greater(a + b, v) == Greater(a, v) + Greater(b, v)
  {
    if |a| == 0 {
      assert a + b == b;
    } else {
      assert (a + b)[0] == a[0];
      assert (a + b)[1..] == a[1..] + b;
      CountsAppend(a[1..], b, v);
    }
  }

  lemma {:induction false} CountPositive(s: seq<real>, v: real)
    requires v in s
    ensures Count(s, v) >= 1
  {
    if s[0] != v {
      CountPositive(s[1..], v);
    }
  }

  /** Nothing lies below a lower bound of `s`. */
  lemma {:induction false} LessBelowMinimum(s: seq<real>, v: real)
    requires forall x :: x in s ==> v <= x
    ensures Less(s, v) == 0
  {
    if |s| > 0 {
      assert s[0] in s;
      assert forall x :: x in s[1..] ==> x in s;
      LessBelowMinimum(s[1..], v);
    }
  }

  /** Everything lies at or below an upper bound of `s`. */
  lemma {:induction false} NothingAbove(s: seq<real>, v: real)
    requires forall x :: x in s ==> x <= v
    ensures Less(s, v) + Count(s, v) == |s|
  {
    if |s| > 0 {
      assert s[0] in s;
      assert forall x :: x in s[1..] ==> x in s;
      NothingAbove(s[1..], v);
    }
  }

  /** When no element of `s` lies strictly between `a` and `b`, the elements
      below `b` are those below or equal to `a`. */
  lemma {:induction false} LessAcrossGap(s: seq<real>, a: real, b: real)
    requires a < b
    requires forall x :: x in s ==> x <= a || b <= x
    ensures Less(s, b) == Less(s, a) + Count(s, a)
  {
    if |s| > 0 {
      assert s[0] in s;
      assert forall x :: x in s[1..] ==> x in s;
      LessAcrossGap(s[1..], a, b);
    }
  }

  /** Whatever is at or below `a` is strictly below any `b > a`. */
  lemma {:induction false} LessMonotone(s: seq<real>, a: real, b: real)
    requires a < b
    ensures Less(s, a) + Count(s, a) <= Less(s, b)
  {
    if |s| > 0 {
      LessMonotone(s[1..], a, b);
    }
  }

  // ---------------------------------------------------------------------
  // sorted(set(data))
  // ---------------------------------------------------------------------

  predicate Increasing(u: seq<real>) {
    forall i, j :: 0 <= i < j < |u| ==> u[i] < u[j]
  }

  /** The distinct values of `d`, as a set. */
  function Distinct(d: seq<real>): set<real> {
    set v | v in d
  }

  /** Adds `x` to a strictly increasing sequence unless it is already there. */
  function Insert(u: seq<real>, x: real): seq<real> {
    if |u| == 0 then [x]
    else if x < u[0] then [x] + u
    else if x == u[0] then u
    else [u[0]] + Insert(u[1..], x)
  }

  lemma {:induction false} InsertSpec(u: seq<real>, x: real)
    requires Increasing(u)
    ensures Increasing(Insert(u, x))
    ensures forall y :: y in Insert(u, x) <==> y in u || y == x
  {
    if |u| > 0 && u[0] < x {
      var tail := Insert(u[1..], x);
      InsertSpec(u[1..], x);
      assert forall j :: 0 <= j < |tail| ==> tail[j] in tail;
      assert Insert(u, x) == [u[0]] + tail;
    }
  }

  /** `sorted(set(d))`: the distinct values of `d` in ascending order. */
  function SortedDistinct(d: seq<real>): seq<real> {
    if |d| == 0 then [] else Insert(SortedDistinct(d[..|d| - 1]), d[|d| - 1])
  }

  /** `sorted(set(d))` is strictly increasing and holds exactly the values of `d`. */
  lemma {:induction false} SortedDistinctSpec(d: seq<real>)
    ensures Increasing(SortedDistinct(d))
    ensures forall y :: y in SortedDistinct(d) <==> y in d
    ensures forall i :: 0 <= i < |d| ==> d[i] in SortedDistinct(d)
  {
    if |d| > 0 {
      var init, last := d[..|d| - 1], d[|d| - 1];
      SortedDistinctSpec(init);
      InsertSpec(SortedDistinct(init), last);
      assert d == init + [last];
    }
  }

  /** A strictly increasing sequence has as many distinct values as elements. */
  lemma {:induction false} IncreasingCard(u: seq<real>)
    requires Increasing(u)
    ensures |Distinct(u)| == |u|
  {
    if |u| > 0 {
      var init := u[..|u| - 1];
      IncreasingCard(init);
      assert Distinct(u) == Distinct(init) + {u[|u| - 1]} by {
        assert u == init + [u[|u| - 1]];
      }
      assert u[|u| - 1] !in Distinct(init);
    }
  }

  /** `sorted(set(d))` has one entry per distinct value of `d`. */
  lemma SortedDistinctLength(d: seq<real>)
    ensures |SortedDistinct(d)| == |Distinct(d)|
  {
    var u := SortedDistinct(d);
    SortedDistinctSpec(d);
    IncreasingCard(u);
    assert forall y :: y in Distinct(u) <==> y in Distinct(d);
    assert Distinct(u) == Distinct(d);
  }

  // ---------------------------------------------------------------------
  // discrete_compact_rank
  // ---------------------------------------------------------------------

  /** `{value: index for index, value in enumerate(u, 1)}`: the 1-based
      position of each value of a strictly increasing sequence. */
  function PositionMap(u: seq<real>): (m: map<real, nat>)
    requires Increasing(u)
    ensures forall k :: 0 <= k < |u| ==> u[k] in m && m[u[k]] == k + 1
  {
    if |u| == 0 then map[]
    else
      var init, last := u[..|u| - 1], u[|u| - 1];
      assert Increasing(init) by {
        assert forall i :: 0 <= i < |init| ==> init[i] == u[i];
      }
      var m0 := PositionMap(init);
      var m := m0[last := |u|];
      assert forall k :: 0 <= k < |init| ==> u[k] == init[k] && u[k] != last && m[u[k]] == k + 1;
      m
  }

  /** The position map has no keys besides the sorted values. */
  lemma {:induction false} PositionMapKeys(u: seq<real>)
    requires Increasing(u)
    ensures forall x :: x in PositionMap(u) <==> x in u
  {
    if |u| > 0 {
      var init := u[..|u| - 1];
      assert Increasing(init) by {
        assert forall i :: 0 <= i < |init| ==> init[i] == u[i];
      }
      PositionMapKeys(init);
      assert u == init + [u[|u| - 1]];
    }
  }

  /** `discrete_compact_rank`: each value is replaced by its 1-based position
      among the sorted distinct values, looked up in the position map. */
  function DiscreteCompactRank(data: seq<real>): (ranks: seq<nat>)
    ensures |ranks| == |data|
    ensures forall i :: 0 <= i < |data| ==>
              1 <= ranks[i] <= |SortedDistinct(data)| && SortedDistinct(data)[ranks[i] - 1] == data[i]
  {
    var uniqueData := SortedDistinct(data);
    SortedDistinctSpec(data);
    var dataMap := PositionMap(uniqueData);
    assert forall i :: 0 <= i < |data| ==> data[i] in uniqueData;
    seq(|data|, i requires 0 <= i < |data| => dataMap[data[i]])
  }

  /** Every compact rank lies in 1..k, where k is the number of distinct
      values, and each of 1..k is the rank of some element. */
  lemma CompactRankDense(data: seq<real>)
    ensures forall i :: 0 <= i < |data| ==> 1 <= DiscreteCompactRank(data)[i] <= |Distinct(data)|
    ensures forall r :: 1 <= r <= |Distinct(data)| ==> r in DiscreteCompactRank(data)
  {
    var u := SortedDistinct(data);
    SortedDistinctSpec(data);
    var ranks := DiscreteCompactRank(data);
    SortedDistinctLength(data);
    forall r | 1 <= r <= |Distinct(data)|
      ensures r in ranks
    {
      assert u[r - 1] in u;
      var i :| 0 <= i < |data| && data[i] == u[r - 1];
      assert ranks[i] == r;
    }
  }

  /** Compact ranks preserve the order of the values in both directions. */
  lemma CompactRankOrder(data: seq<real>, i: nat, j: nat)
    requires i < |data| && j < |data|
    ensures data[i] < data[j] <==> DiscreteCompactRank(data)[i] < DiscreteCompactRank(data)[j]
    ensures data[i] == data[j] <==> DiscreteCompactRank(data)[i] == DiscreteCompactRank(data)[j]
  {
    var u := SortedDistinct(data);
    SortedDistinctSpec(data);
    var ranks := DiscreteCompactRank(data);
    var a, b := ranks[i] - 1, ranks[j] - 1;
    assert u[a] == data[i] && u[b] == data[j];
    if a < b {
      assert u[a] < u[b];
    } else if b < a {
      assert u[b] < u[a];
    }
  }

  /** The compact rank of a value is one more than the number of distinct
      values below it. */
  lemma CompactRankCountsSmaller(data: seq<real>, i: nat)
    requires i < |data|
    ensures DiscreteCompactRank(data)[i] == 1 + |set v | v in data && v < data[i]|
  {
    var u := SortedDistinct(data);
    SortedDistinctSpec(data);
    var k := DiscreteCompactRank(data)[i] - 1;
    assert u[k] == data[i];
    var below := set v | v in data && v < data[i];
    forall v | v in below
      ensures v in Distinct(u[..k])
    {
      var m :| 0 <= m < |u| && u[m] == v;
      assert m < k;
      assert v == u[..k][m];
    }
    forall v | v in Distinct(u[..k])
      ensures v in below
    {
      var m :| 0 <= m < k && u[..k][m] == v;
      assert u[m] in u;
    }
    assert below == Distinct(u[..k]);
    IncreasingCard(u[..k]);
  }

  // ---------------------------------------------------------------------
  // discrete_average_rank
  // ---------------------------------------------------------------------

  /** The tie-averaged rank of `v` in `d`: the values of `d` below `v` fill
      positions 1..Less, the copies of `v` fill Less+1..Less+Count, and every
      copy gets the midpoint of its block. */
  function AverageRankOf(d: seq<real>, v: real): real {
    var first := Less(d, v) + 1;
    var last := Less(d, v) + Count(d, v);
    (first as real + last as real) / 2.0
  }

  /** The tie-averaged rank of each element of `xs` within `d`. */
  function RanksWithin(d: seq<real>, xs: seq<real>): (r: seq<real>)
    ensures |r| == |xs|
  {
    seq(|xs|, i requires 0 <= i < |xs| => AverageRankOf(d, xs[i]))
  }

  /** The tie-averaged ranks of `d`, parallel to `d`. */
  function AverageRanks(d: seq<real>): (r: seq<real>)
    ensures |r| == |d|
  {
    RanksWithin(d, d)
  }

  /** The first distinct value has nothing below it. */
  lemma LessFirstDistinct(data: seq<real>)
    requires |SortedDistinct(data)| > 0
    ensures Less(data, SortedDistinct(data)[0]) == 0
  {
    var u := SortedDistinct(data);
    SortedDistinctSpec(data);
    forall x | x in data ensures u[0] <= x {
      assert x in u;
    }
    LessBelowMinimum(data, u[0]);
  }

  /** Consecutive distinct values have nothing between them, so the values
      below the next one are those up to and including the current one. */
  lemma LessNextDistinct(data: seq<real>, k: nat)
    requires k + 1 < |SortedDistinct(data)|
    ensures Less(data, SortedDistinct(data)[k + 1])
         == Less(data, SortedDistinct(data)[k]) + Count(data, SortedDistinct(data)[k])
  {
    var u := SortedDistinct(data);
    SortedDistinctSpec(data);
    forall x | x in data ensures x <= u[k] || u[k + 1] <= x {
      assert x in u;
      var m :| 0 <= m < |u| && u[m] == x;
      assert m <= k || k + 1 <= m;
    }
    LessAcrossGap(data, u[k], u[k + 1]);
  }

  /** Everything lies at or below the last distinct value; with no distinct
      values there is no data. */
  lemma LessLastDistinct(data: seq<real>)
    ensures |SortedDistinct(data)| == 0 ==> |data| == 0
    ensures |SortedDistinct(data)| > 0 ==>
      Less(data, SortedDistinct(data)[|SortedDistinct(data)| - 1])
        + Count(data, SortedDistinct(data)[|SortedDistinct(data)| - 1]) == |data|
  {
    var u := SortedDistinct(data);
    SortedDistinctSpec(data);
    if |u| > 0 {
      forall x | x in data ensures x <= u[|u| - 1] {
        assert x in u;
        var m :| 0 <= m < |u| && u[m] == x;
        assert m == |u| - 1 || u[m] < u[|u| - 1];
      }
      NothingAbove(data, u[|u| - 1]);
    }
  }

  /** The first loop of `discrete_average_rank`: `occurrence_count` starts
      at 0 for every distinct value and is bumped once per element. */
  method CountOccurrences(data: seq<real>, uniqueData: seq<real>) returns (occurrenceCount: map<real, nat>)
    requires forall v :: v in data ==> v in uniqueData
    ensures forall v :: v in uniqueData ==> v in occurrenceCount && occurrenceCount[v] == Count(data, v)
  {
    occurrenceCount := map v | v in uniqueData :: 0;
    var i := 0;
    while i < |data|
      invariant 0 <= i <= |data|
      invariant forall v :: v in uniqueData ==> v in occurrenceCount
      invariant forall v :: v in occurrenceCount ==> occurrenceCount[v] == Count(data[..i], v)
    {
      var value := data[i];
      occurrenceCount := occurrenceCount[value := occurrenceCount[value] + 1];
      assert data[..i + 1] == data[..i] + [value];
      assert [value][1..] == [];
      forall v ensures Count(data[..i + 1], v) == Count(data[..i], v) + (if value == v then 1 else 0) {
        CountsAppend(data[..i], [value], v);
      }
      i := i + 1;
    }
    assert data[..i] == data;
  }

  /** The second loop of `discrete_average_rank`: walks the distinct values
      in ascending order with a running `cumulativeRank` (the number of values
      already passed) and gives each its tie-averaged rank. */
  method AssignAverageRanks(data: seq<real>, uniqueData: seq<real>, occurrenceCount: map<real, nat>)
    returns (dataMap: map<real, real>)
    requires uniqueData == SortedDistinct(data)
    requires forall v :: v in uniqueData ==> v in occurrenceCount && occurrenceCount[v] == Count(data, v)
    ensures forall v :: v in uniqueData ==> v in dataMap && dataMap[v] == AverageRankOf(data, v)
  {
    dataMap := map[];
    var cumulativeRank: nat := 0;
    LessLastDistinct(data);
    if |uniqueData| > 0 {
      LessFirstDistinct(data);
    }
    var k := 0;
    while k < |uniqueData|
      invariant 0 <= k <= |uniqueData|
      invariant k < |uniqueData| ==> cumulativeRank == Less(data, uniqueData[k])
      invariant k == |uniqueData| ==> cumulativeRank == |data|
      invariant forall j :: 0 <= j < k ==> uniqueData[j] in dataMap
      invariant forall v :: v in dataMap ==> dataMap[v] == AverageRankOf(data, v)
    {
      var value := uniqueData[k];
      assert value in uniqueData;
      var count := occurrenceCount[value];
      var averageRank := (cumulativeRank + 1 + cumulativeRank + count) as real / 2.0;
      dataMap := dataMap[value := averageRank];
      cumulativeRank := cumulativeRank + count;
      if k + 1 < |uniqueData| {
        LessNextDistinct(data, k);
      }
      k := k + 1;
    }
    forall v | v in uniqueData ensures v in dataMap {
      var j :| 0 <= j < |uniqueData| && uniqueData[j] == v;
    }
  }

  /** `discrete_average_rank`: counts the occurrences of each distinct value,
      assigns each distinct value the midpoint of the positions its copies
      occupy, and looks every element up. */
  method DiscreteAverageRank(data: seq<real>) returns (ranks: seq<real>)
    ensures ranks == AverageRanks(data)
  {
    var uniqueData := SortedDistinct(data);
    SortedDistinctSpec(data);
    var occurrenceCount := CountOccurrences(data, uniqueData);
    var dataMap := AssignAverageRanks(data, uniqueData, occurrenceCount);
    ranks := seq(|data|, i requires 0 <= i < |data| => dataMap[data[i]]);
  }

  /** Each average rank lies in [1, n]. */
  lemma AverageRankBounds(d: seq<real>, i: nat)
    requires i < |d|
    ensures 1.0 <= AverageRanks(d)[i] <= |d| as real
  {
    CountPositive(d, d[i]);
    Trichotomy(d, d[i]);
  }

  /** A single value gets rank 1. */
  lemma AverageRankSingleton(x: real)
    ensures AverageRanks([x]) == [1.0]
  {
    assert Less([x], x) == 0 && Count([x], x) == 1;
  }

  /** Average ranks preserve the order of the values in both directions, and
      tied values share a rank. */
  lemma AverageRankOrder(d: seq<real>, i: nat, j: nat)
    requires i < |d| && j < |d|
    ensures d[i] < d[j] <==> AverageRanks(d)[i] < AverageRanks(d)[j]
    ensures d[i] == d[j] <==> AverageRanks(d)[i] == AverageRanks(d)[j]
  {
    CountPositive(d, d[i]);
    CountPositive(d, d[j]);
    if d[i] < d[j] {
      LessMonotone(d, d[i], d[j]);
    } else if d[j] < d[i] {
      LessMonotone(d, d[j], d[i]);
    }
  }

  // ---------------------------------------------------------------------
  // Rank sum: the average ranks of n values add up to n(n+1)/2
  // ---------------------------------------------------------------------

  /** Sum of a sequence of ranks. */
  function Sum(r: seq<real>): real {
    if |r| == 0 then 0.0 else r[0] + Sum(r[1..])
  }

  function SumLess(xs: seq<real>, d: seq<real>): nat {
    if |xs| == 0 then 0 else Less(d, xs[0]) + SumLess(xs[1..], d)
  }

  function SumCount(xs: seq<real>, d: seq<real>): nat {
    if |xs| == 0 then 0 else Count(d, xs[0]) + SumCount(xs[1..], d)
  }

  function SumGreater(xs: seq<real>, d: seq<real>): nat {
    if |xs| == 0 then 0 else Greater(d, xs[0]) + SumGreater(xs[1..], d)
  }

  lemma {:induction false} RanksWithinSum(d: seq<real>, xs: seq<real>)
    ensures Sum(RanksWithin(d, xs)) == SumLess(xs, d) as real + (SumCount(xs, d) + |xs|) as real / 2.0
  {
    if |xs| > 0 {
      assert RanksWithin(d, xs)[1..] == RanksWithin(d, xs[1..]);
      RanksWithinSum(d, xs[1..]);
    }
  }

  lemma {:induction false} SumTotal(xs: seq<real>, d: seq<real>)
    ensures SumLess(xs, d) + SumCount(xs, d) + SumGreater(xs, d) == |xs| * |d|
  {
    if |xs| > 0 {
      Trichotomy(d, xs[0]);
      SumTotal(xs[1..], d);
      assert |xs| * |d| == |d| + (|xs| - 1) * |d|;
    }
  }

  lemma {:induction false} SumLessEmpty(xs: seq<real>)
    ensures SumLess(xs, []) == 0
  {
    if |xs| > 0 {
      SumLessEmpty(xs[1..]);
    }
  }

  lemma {:induction false} SumLessCons(a: seq<real>, y: real, b: seq<real>)
    ensures SumLess(a, [y] + b) == Greater(a, y) + SumLess(a, b)
  {
    if |a| > 0 {
      assert ([y] + b)[1..] == b;
      SumLessCons(a[1..], y, b);
    }
  }

  /** Counting the pairs (x, y) with y < x from either side. */
  lemma {:induction false} SumSwap(a: seq<real>, b: seq<real>)
    ensures SumLess(a, b) == SumGreater(b, a)
  {
    if |b| == 0 {
      SumLessEmpty(a);
    } else {
      assert b == [b[0]] + b[1..];
      SumLessCons(a, b[0], b[1..]);
      SumSwap(a, b[1..]);
    }
  }

  /** The average ranks of n values sum to n(n+1)/2, with or without ties. */
  lemma AverageRankSum(d: seq<real>)
    ensures Sum(AverageRanks(d)) == (|d| * (|d| + 1)) as real / 2.0
  {
    var n := |d|;
    RanksWithinSum(d, d);
    SumTotal(d, d);
    SumSwap(d, d);
    var sl, sc := SumLess(d, d), SumCount(d, d);
    assert sc == n * n - 2 * sl;
    assert n * (n + 1) == n * n + n;
  }

  // ---------------------------------------------------------------------
  // Invariance under strictly increasing transformations
  // ---------------------------------------------------------------------

  ghost predicate StrictlyIncreasing(f: real -> real) {
    forall a, b :: a < b ==> f(a) < f(b)
  }

  function Apply(f: real -> real, s: seq<real>): (r: seq<real>)
    ensures |r| == |s|
  {
    seq(|s|, i requires 0 <= i < |s| => f(s[i]))
  }

  lemma {:induction false} CountsUnderIncreasing(f: real -> real, s: seq<real>, v: real)
    requires StrictlyIncreasing(f)
    ensures Less(Apply(f, s), f(v)) == Less(s, v)
    ensures Count(Apply(f, s), f(v)) == Count(s, v)
  {
    if |s| > 0 {
      assert Apply(f, s)[1..] == Apply(f, s[1..]);
      CountsUnderIncreasing(f, s[1..], v);
      if s[0] < v {
        assert f(s[0]) < f(v);
      } else if v < s[0] {
        assert f(v) < f(s[0]);
      }
    }
  }

  /** Relabelling the values by a strictly increasing map leaves the average
      ranks unchanged. */
  lemma AverageRanksInvariant(f: real -> real, d: seq<real>)
    requires StrictlyIncreasing(f)
    ensures AverageRanks(Apply(f, d)) == AverageRanks(d)
  {
    forall i | 0 <= i < |d|
      ensures AverageRanks(Apply(f, d))[i] == AverageRanks(d)[i]
    {
      CountsUnderIncreasing(f, d, d[i]);
    }
  }
}
