/** Trimming the range of a chart: values far outside of the middle two thirds do not widen it. */
module PerfChartTrim {

  ghost predicate Sorted(values: seq<real>) {
    forall i, j :: 0 <= i <= j < |values| ==> values[i] <= values[j]
  }

  /** `v` at its place among sorted values. */
  function Placed(sorted: seq<real>, v: real): (r: seq<real>)
    requires Sorted(sorted)
    ensures Sorted(r) && multiset(r) == multiset(sorted) + multiset{v}
  {
    if sorted == [] || v <= sorted[0] then
      assert forall i :: 0 <= i < |sorted| && v <= sorted[0] ==> v <= sorted[i];
      [v] + sorted
    else
      var rest := Placed(sorted[1..], v);
      FirstStays(sorted, v, rest);
      [sorted[0]] + rest
  }

  lemma FirstStays(sorted: seq<real>, v: real, rest: seq<real>)
    requires Sorted(sorted) && sorted != [] && sorted[0] < v
    requires Sorted(rest) && multiset(rest) == multiset(sorted[1..]) + multiset{v}
    ensures Sorted([sorted[0]] + rest) && multiset([sorted[0]] + rest) == multiset(sorted) + multiset{v}
  {
    assert sorted == [sorted[0]] + sorted[1..];
    forall i | 0 <= i < |rest| ensures sorted[0] <= rest[i] {
      assert rest[i] in multiset(rest);
      assert rest[i] == v || rest[i] in sorted[1..];
    }
  }

  /** The values in order, as the library sorts them. */
  function InOrder(values: seq<real>): (r: seq<real>)
    ensures Sorted(r) && multiset(r) == multiset(values)
  {
    if values == [] then []
    else
      assert values == values[..|values| - 1] + [values[|values| - 1]];
      Placed(InOrder(values[..|values| - 1]), values[|values| - 1])
  }

  lemma FirstAndRest(s: seq<real>)
    requires s != []
    ensures multiset(s[1..]) == multiset(s) - multiset{s[0]}
  {
    assert s == [s[0]] + s[1..];
  }

  lemma SameFirst(s: seq<real>, t: seq<real>)
    requires Sorted(s) && Sorted(t) && multiset(s) == multiset(t) && s != []
    ensures t != [] && s[0] == t[0]
  {
    assert s[0] in multiset(t);
    assert t[0] in multiset(s);
    assert s[0] in t && t[0] in s;
  }

  /** There is only one order. */
  lemma {:induction false} OrderIsUnique(s: seq<real>, t: seq<real>)
    requires Sorted(s) && Sorted(t) && multiset(s) == multiset(t)
    ensures s == t
    decreases |s|
  {
    assert |multiset(s)| == |s| && |multiset(t)| == |t|;
    if s != [] {
      SameFirst(s, t);
      FirstAndRest(s);
      FirstAndRest(t);
      OrderIsUnique(s[1..], t[1..]);
      assert s == [s[0]] + s[1..] && t == [t[0]] + t[1..];
    }
  }

  /** The sorted values at one and at five sixths, which the source calls quartiles. */
  function First(values: seq<real>): real
    requires values != []
  {
    values[|values| / 6]
  }

  function Third(values: seq<real>): real
    requires values != []
  {
    values[5 * |values| / 6]
  }

  /** Within three times the distance between the two of either. */
  predicate Inside(values: seq<real>, v: real)
    requires values != []
  {
    var range := 3.0 * (Third(values) - First(values));
    First(values) - range <= v <= Third(values) + range
  }

  /**
   Of `n` sorted values, n / 6 (rounded down) come before the first fence's value, and 5 n / 6 before the
   other's; a value is inside if it is no further than three times their distance from them.
   */
  lemma InsideIff(values: seq<real>, i: nat, j: nat, v: real)
    requires values != [] && 6 * i <= |values| < 6 * i + 6 && 6 * j <= 5 * |values| < 6 * j + 6
    ensures i <= j < |values|
    ensures Inside(values, v) <==> 4.0 * values[i] - 3.0 * values[j] <= v <= 4.0 * values[j] - 3.0 * values[i]
  {
    assert |values| / 6 == i && 5 * |values| / 6 == j;
  }

  /** The middle values are inside, so there is something to show. */
  lemma MiddleIsInside(values: seq<real>, k: nat)
    requires values != [] && Sorted(values) && |values| / 6 <= k <= 5 * |values| / 6
    ensures k < |values| && Inside(values, values[k])
  {
    assert First(values) <= values[k] <= Third(values);
  }

  /** The least and the greatest value inside. */
  ghost predicate IsRange(values: seq<real>, min: real, max: real)
    requires values != []
  {
    var sorted := InOrder(values);
    && sorted != [] && min in values && Inside(sorted, min) && max in values && Inside(sorted, max)
    && forall v :: v in values && Inside(sorted, v) ==> min <= v <= max
  }

  lemma OrderKeepsValues(values: seq<real>)
    ensures |InOrder(values)| == |values| && forall v :: v in values <==> v in InOrder(values)
  {
    assert |multiset(values)| == |values| && |multiset(InOrder(values))| == |InOrder(values)|;
    assert forall v :: v in values <==> v in multiset(values);
    assert forall v :: v in InOrder(values) <==> v in multiset(InOrder(values));
  }

  /** The first and the last value inside, from sorted values. */
  method TrimSorted(values: seq<real>) returns (min: real, max: real)
    requires Sorted(values) && values != []
    ensures min in values && Inside(values, min) && max in values && Inside(values, max)
    ensures forall v :: v in values && Inside(values, v) ==> min <= v <= max
  {
    var q1, q3 := First(values), Third(values);
    MiddleIsInside(values, |values| / 6);
    var iqr := q3 - q1;
    var outlierMin, outlierMax := q1 - 3.0 * iqr, q3 + 3.0 * iqr;
    var i := 0;
    while i < |values| && values[i] < outlierMin
      invariant i <= |values| / 6 && forall j :: 0 <= j < i ==> values[j] < outlierMin
    {
      i := i + 1;
    }
    min := values[i];
    ghost var from := i;
    assert min <= q1;
    while i < |values| && values[i] <= outlierMax
      invariant from <= i <= |values| && (i == from ==> i < |values| && values[i] <= outlierMax)
      invariant forall j :: from <= j < i ==> outlierMin <= values[j] <= outlierMax
    {
      i := i + 1;
    }
    max := values[i - 1];
    forall v | v in values && Inside(values, v) ensures min <= v <= max {
      var j :| 0 <= j < |values| && values[j] == v;
      assert from <= j < i;
    }
  }

  /** The range of the values that are not outliers; without any values, the range given is kept. */
  method TrimOutliers(values: seq<real>, min0: real, max0: real) returns (min: real, max: real)
    ensures values == [] ==> min == min0 && max == max0
    ensures values != [] ==> IsRange(values, min, max)
  {
    min, max := min0, max0;
    OrderKeepsValues(values);
    if values != [] {
      min, max := TrimSorted(InOrder(values));
    }
  }
}
