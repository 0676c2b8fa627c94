/** Bars that show a change, in cells of eight eighths, and the bars of whole comparisons. */
module PerfChangeBar {
  import opened PerfReports

  const CHANGE_BAR_WIDTH := 70

  /** The stars in each ASCII box; the UTF boxes 0 to 7 fill 8 to 1 eighths of their cell. */
  const ASCII_BOXES := [4, 3, 3, 2, 2, 1, 1, 0]

  type Box = n: nat | n < 8

  function Ceil(x: real): int {
    -(-x).Floor
  }

  function UnitsPerCell(maxChange: real): int {
    Ceil(maxChange / CHANGE_BAR_WIDTH as real)
  }

  /** A cell stands for the least whole number of units with which 70 cells are enough. */
  lemma UnitsAreLeast(maxChange: real, units: int)
    requires maxChange > 0.0
    ensures units >= UnitsPerCell(maxChange) <==> maxChange <= 70.0 * units as real
    ensures UnitsPerCell(maxChange) >= 1
  {
    var q := maxChange / CHANGE_BAR_WIDTH as real;
    assert q * 70.0 == maxChange && q > 0.0;
    assert q <= Ceil(q) as real < q + 1.0;
  }

  function Eighths(boxes: seq<Box>): nat {
    if boxes == [] then 0 else Eighths(boxes[..|boxes| - 1]) + 8 - boxes[|boxes| - 1]
  }

  function Stars(boxes: seq<Box>): nat {
    if boxes == [] then 0 else Stars(boxes[..|boxes| - 1]) + ASCII_BOXES[boxes[|boxes| - 1]]
  }

  ghost predicate Full(boxes: seq<Box>) {
    forall k :: 0 <= k < |boxes| ==> boxes[k] == 0
  }

  lemma {:induction false} FullCells(boxes: seq<Box>)
    requires Full(boxes)
    ensures Eighths(boxes) == 8 * |boxes| && Stars(boxes) == 4 * |boxes|
  {
    if boxes != [] {
      FullCells(boxes[..|boxes| - 1]);
    }
  }

  lemma Appended(boxes: seq<Box>, box: Box)
    ensures Eighths(boxes + [box]) == Eighths(boxes) + 8 - box
    ensures Stars(boxes + [box]) == Stars(boxes) + ASCII_BOXES[box]
  {
    assert (boxes + [box])[..|boxes|] == boxes;
  }

  /** The box for a fraction of a cell; there is none for 8. */
  method LastBox(change: real) returns (box: nat)
    requires change <= 1.0
    ensures box <= 8 && (change <= 0.0 ==> box == 8)
    ensures change >= 0.0 ==> -0.5 <= (8 - box) as real - 8.0 * change < 0.5
  {
    if change > 7.5 / 8.0 {
      box := 0;
    } else if change > 6.5 / 8.0 {
      box := 1;
    } else if change > 5.5 / 8.0 {
      box := 2;
    } else if change > 4.5 / 8.0 {
      box := 3;
    } else if change > 3.5 / 8.0 {
      box := 4;
    } else if change > 2.5 / 8.0 {
      box := 5;
    } else if change > 1.5 / 8.0 {
      box := 6;
    } else if change > 0.5 / 8.0 {
      box := 7;
    } else {
      box := 8;
    }
  }

  lemma OneMoreCell(n: int, units: int)
    ensures (n + 1) as real * units as real == n as real * units as real + units as real
  {
  }

  /** `n` cells before the last one, each of `units`, leave room for it. */
  lemma CellsFit(n: nat, units: int, change: real, maxChange: real)
    requires units >= 1 && n as real * units as real < change - 1.0 && change <= maxChange
    requires maxChange <= CHANGE_BAR_WIDTH as real * units as real
    ensures n < CHANGE_BAR_WIDTH
  {
    assert (CHANGE_BAR_WIDTH - n) as real * units as real > 0.0;
  }

  lemma Sign(x: real, units: int)
    requires units >= 1
    ensures x <= units as real ==> x / units as real <= 1.0
    ensures x >= 0.0 <==> x / units as real >= 0.0
    ensures x > 0.0 <==> x / units as real > 0.0
  {
    var u := units as real;
    var q := x / u;
    assert q * u == x;
    assert (1.0 - q) * u == u - x;
  }

  /** A bar of full cells and, unless it is 8, a last box. */
  function Bar(full: seq<Box>, last: nat): seq<Box> {
    if last < 8 then full + [last] else full
  }

  lemma EighthsOfBar(full: seq<Box>, last: nat)
    requires Full(full) && last <= 8
    ensures Eighths(Bar(full, last)) == 8 * |full| + (8 - last)
    ensures 2 * Stars(Bar(full, last)) <= Eighths(Bar(full, last)) <= 2 * Stars(Bar(full, last)) + 1
    ensures Bar(full, last) != [] ==> Full(Bar(full, last)[..|Bar(full, last)| - 1])
  {
    FullCells(full);
    if last < 8 {
      Appended(full, last);
      assert (full + [last])[..|full|] == full;
    }
  }

  /** The full cells, and what is left of the change. */
  method FullBoxes(change: real, unitsPerCell: int) returns (boxes: seq<Box>, rest: real)
    requires unitsPerCell >= 1
    ensures Full(boxes) && change == |boxes| as real * unitsPerCell as real + rest
    ensures rest <= unitsPerCell as real && (boxes != [] ==> rest > 0.0)
  {
    boxes := [];
    rest := change;
    while rest > unitsPerCell as real
      invariant Full(boxes) && change == |boxes| as real * unitsPerCell as real + rest
      invariant boxes != [] ==> rest > 0.0
      decreases rest.Floor
    {
      OneMoreCell(|boxes|, unitsPerCell);
      boxes := boxes + [0];
      rest := rest - unitsPerCell as real;
    }
  }

  /** Full cells and the last box are right if the last box is right for the rest. */
  lemma BarIsRight(n: nat, last: nat, units: int, rest: real, change: real)
    requires units >= 1 && last <= 8 && change == n as real * units as real + rest
    requires rest >= 0.0 && -0.5 <= (8 - last) as real - 8.0 * (rest / units as real) < 0.5
    ensures -0.5 <= (8 * n + (8 - last)) as real - 8.0 * change / units as real < 0.5
  {
    var u := units as real;
    var q := rest / u;
    assert q * u == rest;
    assert 8.0 * change == (8.0 * n as real + 8.0 * q) * u;
    assert 8.0 * change / u == 8.0 * n as real + 8.0 * q;
  }

  /** All cells before the last one are needed. */
  lemma CellsAreNeeded(n: nat, last: nat, units: int, rest: real, change: real)
    requires units >= 1 && change == n as real * units as real + rest
    requires n > 0 ==> rest > 0.0
    requires last < 8 ==> rest > 0.0
    ensures n > 0 || last < 8 ==> change > 0.0
    ensures last < 8 ==> n as real * units as real < change
    ensures n > 0 ==> (n - 1) as real * units as real < change
    ensures change >= 0.0 ==> rest >= 0.0
  {
    assert n as real * units as real >= 0.0;
    OneMoreCell(n - 1, units);
  }

  /** The last box for what is left behind `n` full cells. */
  method FinishBar(n: nat, units: int, rest: real, change: real) returns (last: nat)
    requires units >= 1 && change == n as real * units as real + rest
    requires rest <= units as real && (n > 0 ==> rest > 0.0)
    ensures last <= 8
    ensures n > 0 || last < 8 ==> change > 0.0
    ensures last < 8 ==> n as real * units as real < change
    ensures n > 0 ==> (n - 1) as real * units as real < change
    ensures change >= 0.0 ==> -0.5 <= (8 * n + (8 - last)) as real - 8.0 * change / units as real < 0.5
  {
    Sign(rest, units);
    last := LastBox(rest / units as real);
    CellsAreNeeded(n, last, units, rest, change);
    if change >= 0.0 {
      BarIsRight(n, last, units, rest, change);
    }
  }

  /** The bar for a change of 0 or more, in cells of `unitsPerCell`. */
  method DrawBar(change: real, unitsPerCell: int) returns (boxes: seq<Box>)
    requires unitsPerCell >= 1
    ensures boxes != [] ==> change > 0.0 && (|boxes| - 1) as real * unitsPerCell as real < change
    ensures change >= 0.0 ==> -0.5 <= Eighths(boxes) as real - 8.0 * change / unitsPerCell as real < 0.5
    ensures 2 * Stars(boxes) <= Eighths(boxes) <= 2 * Stars(boxes) + 1
    ensures boxes != [] ==> Full(boxes[..|boxes| - 1])
  {
    var full, rest := FullBoxes(change, unitsPerCell);
    var last := FinishBar(|full|, unitsPerCell, rest, change);
    boxes := Bar(full, last);
    EighthsOfBar(full, last);
  }

  /**
   The bar for a change in cells of `units`: as many eighths as the change above 1 has, rounded, a half down;
   only the last cell is not full; a star stands for two eighths.
   */
  ghost predicate ShowsChange(boxes: seq<Box>, change: real, units: int)
    requires units >= 1
  {
    && (change <= 1.0 ==> boxes == [])
    && (change >= 1.0 ==> -0.5 <= Eighths(boxes) as real - 8.0 * (change - 1.0) / units as real < 0.5)
    && (boxes != [] ==> Full(boxes[..|boxes| - 1]))
    && 2 * Stars(boxes) <= Eighths(boxes) <= 2 * Stars(boxes) + 1
  }

  /** Such a bar is unique. */
  lemma BarIsUnique(boxes: seq<Box>, boxes': seq<Box>, change: real, units: int)
    requires units >= 1 && ShowsChange(boxes, change, units) && ShowsChange(boxes', change, units)
    ensures boxes == boxes'
  {
    if change > 1.0 {
      assert Eighths(boxes) == Eighths(boxes');
      if boxes != [] {
        FullCells(boxes[..|boxes| - 1]);
      }
      if boxes' != [] {
        FullCells(boxes'[..|boxes'| - 1]);
      }
    }
  }

  /** The bar for a change: never wider than allowed for the largest change. */
  method PrintChangeBar(change: real, maxChange: real) returns (boxes: seq<Box>)
    requires maxChange > 0.0
    ensures UnitsPerCell(maxChange) >= 1 && ShowsChange(boxes, change, UnitsPerCell(maxChange))
    ensures change <= maxChange ==> |boxes| <= CHANGE_BAR_WIDTH
  {
    var unitsPerCell := UnitsPerCell(maxChange);
    UnitsAreLeast(maxChange, unitsPerCell);
    boxes := DrawBar(change - 1.0, unitsPerCell);
    if boxes != [] && change <= maxChange {
      CellsFit(|boxes| - 1, unitsPerCell, change, maxChange);
    }
  }

  // ----- The bars of a comparison -----

  function Abs(x: real): real {
    if x < 0.0 then -x else x
  }

  /** The largest size of a recorded change, but at least 1. */
  ghost predicate IsMaxChange(diffs: seq<Diff>, maxChange: real) {
    && maxChange >= 1.0 && (forall k :: 0 <= k < |diffs| ==> -maxChange <= diffs[k].change <= maxChange)
    && (maxChange == 1.0 || exists k :: 0 <= k < |diffs| && (diffs[k].change == maxChange || diffs[k].change == -maxChange))
  }

  /** The largest change, which all bars are scaled to. */
  method FindMaxChange(diffs: seq<Diff>) returns (maxChange: real)
    ensures IsMaxChange(diffs, maxChange)
  {
    maxChange := 1.0;
    for i := 0 to |diffs|
      invariant IsMaxChange(diffs[..i], maxChange)
    {
      ghost var before := maxChange;
      if Abs(diffs[i].change) > maxChange {
        maxChange := Abs(diffs[i].change);
      }
      MaxChangeGrows(diffs[..i], before, diffs[i]);
      assert diffs[..i + 1] == diffs[..i] + [diffs[i]];
    }
    assert diffs[..|diffs|] == diffs;
  }

  lemma MaxChangeGrows(diffs: seq<Diff>, maxChange: real, diff: Diff)
    requires IsMaxChange(diffs, maxChange)
    ensures IsMaxChange(diffs + [diff], if Abs(diff.change) > maxChange then Abs(diff.change) else maxChange)
  {
    var all := diffs + [diff];
    assert all[|diffs|] == diff;
    if Abs(diff.change) <= maxChange && maxChange != 1.0 {
      var k :| 0 <= k < |diffs| && (diffs[k].change == maxChange || diffs[k].change == -maxChange);
      assert all[k] == diffs[k];
    }
  }

  /** The bar of a change that is scaled to the largest one, within the width. */
  ghost predicate IsScaledBar(bar: seq<Box>, change: real, maxChange: real) {
    UnitsPerCell(maxChange) >= 1 && ShowsChange(bar, change, UnitsPerCell(maxChange)) && |bar| <= CHANGE_BAR_WIDTH
  }

  /** The bars of an old report against a new one: the sizes of the changes. */
  method PrintBinary(diffs: seq<Diff>) returns (bars: seq<seq<Box>>, maxChange: real)
    ensures IsMaxChange(diffs, maxChange) && |bars| == |diffs|
    ensures forall k :: 0 <= k < |bars| ==>
              IsScaledBar(bars[k], if diffs[k].change >= 0.0 then diffs[k].change else -diffs[k].change, maxChange)
  {
    maxChange := FindMaxChange(diffs);
    bars := [];
    for i := 0 to |diffs|
      invariant |bars| == i
      invariant forall k :: 0 <= k < |bars| ==> IsScaledBar(bars[k], Abs(diffs[k].change), maxChange)
    {
      var bar := PrintChangeBar(Abs(diffs[i].change), maxChange);
      bars := bars + [bar];
    }
  }

  lemma NotNegative(x: real, y: real)
    requires y > 0.0 && x * y >= 0.0
    ensures x >= 0.0
  {
  }

  lemma SmallerDivisor(max: real, min: real, time: real)
    requires 0.0 < min <= time <= max
    ensures 1.0 <= max / time <= max / min
  {
    var p, q := max / time, max / min;
    assert p * time == max && q * min == max;
    NotNegative(p - 1.0, time);
    assert p * (time - min) >= 0.0;
    NotNegative(q - p, min);
  }

  /** How much slower the slowest test of the record is than this one: never more than the recorded change. */
  lemma ChangeOfTest(diff: Diff, useTicks: bool, k: nat)
    requires IsRecord(diff, useTicks) && k < |diff.tests|
    ensures diff.tests[k].ticksPerMs > 0.0 && Time(diff.tests[k], useTicks) > 0.0
    ensures 1.0 <= diff.max / Time(diff.tests[k], useTicks) <= diff.change
  {
    TimesAt(diff.tests, useTicks, k);
    assert diff.min <= Time(diff.tests[k], useTicks) <= diff.max;
    SmallerDivisor(diff.max, diff.min, Time(diff.tests[k], useTicks));
  }

  /** The bar of a test shows how much slower the slowest test of the record is. */
  ghost predicate IsTestBar(bar: seq<Box>, test: Entry, max: real, maxChange: real, useTicks: bool) {
    test.ticksPerMs > 0.0 && exists factor :: factor * Time(test, useTicks) == max && IsScaledBar(bar, factor, maxChange)
  }

  ghost predicate AreBarsOf(bars: seq<seq<Box>>, diff: Diff, maxChange: real, useTicks: bool) {
    && |bars| == |diff.tests|
    && forall i :: 0 <= i < |bars| ==> IsTestBar(bars[i], diff.tests[i], diff.max, maxChange, useTicks)
  }

  method PrintTest(diff: Diff, maxChange: real, useTicks: bool, i: nat) returns (bar: seq<Box>)
    requires IsRecord(diff, useTicks) && i < |diff.tests| && diff.change <= maxChange && maxChange >= 1.0
    ensures IsTestBar(bar, diff.tests[i], diff.max, maxChange, useTicks)
  {
    ChangeOfTest(diff, useTicks, i);
    var testTime := diff.tests[i].ticks;
    if !useTicks {
      testTime := testTime / diff.tests[i].ticksPerMs;
    }
    var change := diff.max / testTime;
    assert testTime == Time(diff.tests[i], useTicks);
    assert change * testTime == diff.max;
    bar := PrintChangeBar(change, maxChange);
    assert IsScaledBar(bar, change, maxChange);
  }

  /** The bars of one record. */
  method PrintMulti(diff: Diff, maxChange: real, useTicks: bool) returns (bars: seq<seq<Box>>)
    requires IsRecord(diff, useTicks) && diff.change <= maxChange && maxChange >= 1.0
    ensures AreBarsOf(bars, diff, maxChange, useTicks)
  {
    bars := [];
    for i := 0 to |diff.tests|
      invariant |bars| == i
      invariant forall k :: 0 <= k < i ==> IsTestBar(bars[k], diff.tests[k], diff.max, maxChange, useTicks)
    {
      var bar := PrintTest(diff, maxChange, useTicks, i);
      bars := bars + [bar];
    }
  }

  /** The bars of all records, which all fit the width. */
  method PrintGroups(diffs: seq<Diff>, useTicks: bool) returns (bars: seq<seq<seq<Box>>>, maxChange: real)
    requires forall k :: 0 <= k < |diffs| ==> IsRecord(diffs[k], useTicks)
    ensures IsMaxChange(diffs, maxChange) && |bars| == |diffs|
    ensures forall k :: 0 <= k < |bars| ==> AreBarsOf(bars[k], diffs[k], maxChange, useTicks)
  {
    maxChange := FindMaxChange(diffs);
    bars := [];
    for i := 0 to |diffs|
      invariant |bars| == i
      invariant forall k :: 0 <= k < |bars| ==> AreBarsOf(bars[k], diffs[k], maxChange, useTicks)
    {
      assert IsRecord(diffs[i], useTicks);
      var group := PrintMulti(diffs[i], maxChange, useTicks);
      bars := bars + [group];
    }
  }
}
