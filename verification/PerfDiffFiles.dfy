/**
 Comparing an old report with a new one: a merge join of the entries that have stats.  Entries are
 in the order of backend and name, which is what the rank in `Entry.name` stands for here.
 */
module PerfDiffFiles {
  import opened PerfReports
  import opened PerfGroups

  /** Entries with stats have times, and are strictly increasing. */
  ghost predicate Increasing(r: Report) {
    && (forall i :: 0 <= i < |r| && Live(r[i]) ==> r[i].ticks > 0.0 && r[i].ticksPerMs > 0.0)
    && (forall i, j :: 0 <= i < j < |r| && Live(r[i]) && Live(r[j]) ==> r[i].name < r[j].name)
  }

  ghost predicate Comparable(reports: seq<Report>) {
    |reports| == 2 && Increasing(reports[0]) && Increasing(reports[1])
  }

  ghost predicate HasLive(r: Report, e: Entry) {
    e in r && Live(e)
  }

  ghost predicate HasName(r: Report, name: int) {
    exists e :: HasLive(r, e) && e.name == name
  }

  ghost predicate HasLater(r: Report, name: int) {
    exists e :: HasLive(r, e) && e.name > name
  }

  // ----- The change between two times -----

  /** How often the new time goes into the old one, or the other way round and negated. */
  function Change(oldTime: real, newTime: real): real
    requires oldTime > 0.0 && newTime > 0.0
  {
    if newTime <= oldTime then oldTime / newTime else -(newTime / oldTime)
  }

  lemma QuotientAtLeastOne(x: real, y: real)
    requires 0.0 < y
    ensures x / y >= 1.0 <==> x >= y
    ensures x / y > 1.0 <==> x > y
    ensures x / y == 1.0 <==> x == y
  {
    var q := x / y;
    assert q * y == x;
    assert (q - 1.0) * y == x - y;
  }

  lemma NegatedReciprocal(x: real, y: real)
    requires x > 0.0 && y > 0.0
    ensures x / y > 0.0 && -1.0 / (x / y) == -(y / x)
  {
    var q := x / y;
    assert q * y == x;
    assert (y / x) * q == (y / x * x) / y == 1.0;
    assert -1.0 / q == -(1.0 / q);
  }

  /** Swapping the reports turns speedups into slowdowns by the same factor, which is never below 1. */
  lemma ChangeIsAntisymmetric(oldTime: real, newTime: real)
    requires oldTime > 0.0 && newTime > 0.0
    ensures oldTime != newTime ==> Change(newTime, oldTime) == -Change(oldTime, newTime)
    ensures oldTime == newTime <==> Change(oldTime, newTime) == 1.0
    ensures Change(oldTime, newTime) >= 1.0 <==> newTime <= oldTime
    ensures Change(oldTime, newTime) <= -1.0 <==> newTime > oldTime
  {
    QuotientAtLeastOne(oldTime, newTime);
    QuotientAtLeastOne(newTime, oldTime);
  }

  /** The smaller of two numbers, multiplied by the change, is the larger one, negated if that is the second. */
  ghost predicate IsFactor(x: real, y: real, change: real) {
    if y <= x then change * y == x else change * x == -y
  }

  /** The change between two tests: between their ticks, or their ticks at the product of both paces. */
  ghost predicate IsChange(oldTest: Entry, newTest: Entry, useTicks: bool, change: real) {
    if useTicks then IsFactor(oldTest.ticks, newTest.ticks, change)
    else IsFactor(oldTest.ticks * newTest.ticksPerMs, newTest.ticks * oldTest.ticksPerMs, change)
  }

  lemma Regrouped(x: real, y: real, z: real)
    ensures x * (y * z) == (x * y) * z && x * (y * z) == (x * z) * y
  {
  }

  /** Both times at the product of both paces. */
  lemma CommonPace(oldTest: Entry, newTest: Entry)
    requires oldTest.ticksPerMs > 0.0 && newTest.ticksPerMs > 0.0
    ensures var c := oldTest.ticksPerMs * newTest.ticksPerMs;
            && c > 0.0 && Time(oldTest, false) * c == oldTest.ticks * newTest.ticksPerMs
            && Time(newTest, false) * c == newTest.ticks * oldTest.ticksPerMs
  {
    TimeTimesPace(oldTest);
    TimeTimesPace(newTest);
    Regrouped(Time(oldTest, false), oldTest.ticksPerMs, newTest.ticksPerMs);
    Regrouped(Time(newTest, false), oldTest.ticksPerMs, newTest.ticksPerMs);
  }

  lemma ScaledFactor(x: real, y: real, change: real, c: real)
    requires c > 0.0 && IsFactor(x, y, change)
    ensures IsFactor(x * c, y * c, change)
  {
    assert (x - y) * c == x * c - y * c;
    Regrouped(change, y, c);
    Regrouped(change, x, c);
  }

  lemma ChangeIsFactor(oldTime: real, newTime: real)
    requires oldTime > 0.0 && newTime > 0.0
    ensures IsFactor(oldTime, newTime, Change(oldTime, newTime))
  {
    var p, q := oldTime / newTime, newTime / oldTime;
    assert p * newTime == oldTime && q * oldTime == newTime;
    assert -q * oldTime == -(q * oldTime);
  }

  /** The recorded change is right in what the reports hold, whichever way times are measured. */
  lemma ChangeOfTests(oldTest: Entry, newTest: Entry, useTicks: bool)
    requires oldTest.ticks > 0.0 && oldTest.ticksPerMs > 0.0 && newTest.ticks > 0.0 && newTest.ticksPerMs > 0.0
    ensures Time(oldTest, useTicks) > 0.0 && Time(newTest, useTicks) > 0.0
    ensures IsChange(oldTest, newTest, useTicks, Change(Time(oldTest, useTicks), Time(newTest, useTicks)))
  {
    TimeTimesPace(oldTest);
    TimeTimesPace(newTest);
    var x, y := Time(oldTest, useTicks), Time(newTest, useTicks);
    ChangeIsFactor(x, y);
    if !useTicks {
      CommonPace(oldTest, newTest);
      ScaledFactor(x, y, Change(x, y), oldTest.ticksPerMs * newTest.ticksPerMs);
    }
  }

  /** Speedups before slowdowns, large speedups first, large slowdowns last. */
  function SpeedupBeforeSlowdown(a: real, b: real): int {
    if a > 0.0 && b < 0.0 then -1
    else if a < 0.0 && b > 0.0 then 1
    else if a == b then 0
    else if a > 0.0 then if a > b then -1 else 1
    else if a < 0.0 then if a < b then 1 else -1
    else 0
  }

  /** On the changes of two comparisons, that is the descending order. */
  lemma SpeedupsDescend(oldTime: real, newTime: real, oldTime': real, newTime': real)
    requires oldTime > 0.0 && newTime > 0.0 && oldTime' > 0.0 && newTime' > 0.0
    ensures var a, b := Change(oldTime, newTime), Change(oldTime', newTime');
            && (SpeedupBeforeSlowdown(a, b) < 0 <==> a > b)
            && (SpeedupBeforeSlowdown(a, b) > 0 <==> a < b)
  {
    ChangeIsAntisymmetric(oldTime, newTime);
    ChangeIsAntisymmetric(oldTime', newTime');
  }

  // ----- One round -----

  /** The current entry, if any, has times. */
  predicate Timely(r: Report, c: nat) {
    c < |r| ==> r[c].ticks > 0.0 && r[c].ticksPerMs > 0.0
  }

  function AtCursor(r: Report, c: nat, name: int): seq<Entry>
    requires c <= |r|
  {
    if c < |r| && r[c].name == name then [r[c]] else []
  }

  function Current(reports: seq<Report>, cursors: seq<nat>, name: int, n: nat): (s: seq<Entry>)
    requires InReports(reports, cursors) && n <= |reports|
    ensures |s| <= n
  {
    if n == 0 then []
    else Current(reports, cursors, name, n - 1) + AtCursor(reports[n - 1], cursors[n - 1], name)
  }

  /** The first `n` cursors have moved behind the entries called `name`, the others have not. */
  ghost predicate Advanced(reports: seq<Report>, cursors: seq<nat>, cursors': seq<nat>, name: int, n: nat)
    requires InReports(reports, cursors)
  {
    && InReports(reports, cursors')
    && (forall i :: 0 <= i < n && i < |reports| ==>
          cursors'[i] == cursors[i] + |AtCursor(reports[i], cursors[i], name)|)
    && (forall i :: n <= i < |reports| ==> cursors'[i] == cursors[i])
  }

  method MoveOn(reports: seq<Report>, tests: array<nat>, i: nat, c: nat, ghost cursors: seq<nat>, ghost name: int)
    requires InReports(reports, cursors) && i < |reports| && Advanced(reports, cursors, tests[..], name, i)
    requires c == cursors[i] + |AtCursor(reports[i], cursors[i], name)|
    modifies tests
    ensures Advanced(reports, cursors, tests[..], name, i + 1)
  {
    tests[i] := c;
  }

  /** Records the entry under the cursor, if it is called `name`. */
  method RecordOne(r: Report, c: nat, name: int, useTicks: bool, buffer: array<Entry>,
                   num0: nat, min0: real, max0: real, ghost group: seq<Entry>)
    returns (c': nat, num: nat, min: real, max: real)
    requires c <= |r| && Timely(r, c)
    requires Filled(buffer, useTicks, num0, min0, max0, group) && num0 < buffer.Length
    modifies buffer
    ensures c' == c + |AtCursor(r, c, name)| && Filled(buffer, useTicks, num, min, max, group + AtCursor(r, c, name))
  {
    c', num, min, max := c, num0, min0, max0;
    if c < |r| && r[c].name == name {
      num, min, max := Record(r[c], useTicks, buffer, num, min, max, group);
      c' := c + 1;
    } else {
      assert group + [] == group;
    }
  }

  lemma {:induction false} CurrentHas(reports: seq<Report>, cursors: seq<nat>, name: int, n: nat, i: nat)
    requires InReports(reports, cursors) && i < n <= |reports| && AtCursor(reports[i], cursors[i], name) != []
    ensures Current(reports, cursors, name, n) != []
  {
    var front, last := Current(reports, cursors, name, n - 1), AtCursor(reports[n - 1], cursors[n - 1], name);
    assert |front + last| == |front| + |last|;
    if i < n - 1 {
      CurrentHas(reports, cursors, name, n - 1, i);
    }
  }

  /** Records the current entry of report `i`, if it is called `name`, and moves on behind it. */
  method FillOne(reports: seq<Report>, tests: array<nat>, i: nat, name: int, useTicks: bool, buffer: array<Entry>,
                 num0: nat, min0: real, max0: real, ghost cursors: seq<nat>)
    returns (num: nat, min: real, max: real)
    requires InReports(reports, cursors) && i < |reports| && Advanced(reports, cursors, tests[..], name, i)
    requires Timely(reports[i], cursors[i]) && i < buffer.Length
    requires Filled(buffer, useTicks, num0, min0, max0, Current(reports, cursors, name, i))
    modifies tests, buffer
    ensures Advanced(reports, cursors, tests[..], name, i + 1)
    ensures Filled(buffer, useTicks, num, min, max, Current(reports, cursors, name, i + 1))
  {
    var c;
    c, num, min, max := RecordOne(reports[i], tests[i], name, useTicks, buffer, num0, min0, max0,
                                  Current(reports, cursors, name, i));
    MoveOn(reports, tests, i, c, cursors, name);
  }

  /** Fills the record with the current entries called `name`, and moves on behind them. */
  method FillCurrent(reports: seq<Report>, tests: array<nat>, name: int, useTicks: bool, buffer: array<Entry>)
    returns (num: nat, min: real, max: real)
    requires InReports(reports, tests[..]) && buffer.Length == |reports|
    requires forall i :: 0 <= i < |reports| ==> Timely(reports[i], tests[i])
    modifies tests, buffer
    ensures Advanced(reports, old(tests[..]), tests[..], name, |reports|)
    ensures Filled(buffer, useTicks, num, min, max, Current(reports, old(tests[..]), name, |reports|))
  {
    num, min, max := 0, 0.0, 0.0;
    ghost var cursors := tests[..];
    var i := 0;
    while i < |reports|
      invariant i <= |reports| && Advanced(reports, cursors, tests[..], name, i)
      invariant Filled(buffer, useTicks, num, min, max, Current(reports, cursors, name, i))
    {
      num, min, max := FillOne(reports, tests, i, name, useTicks, buffer, num, min, max, cursors);
      i := i + 1;
    }
  }

  /** Records the current entries called `name`, those of `m` among them. */
  method RecordCurrent(reports: seq<Report>, tests: array<nat>, name: int, useTicks: bool, ghost m: nat)
    returns (diff: Diff)
    requires InReports(reports, tests[..])
    requires forall i :: 0 <= i < |reports| ==> Timely(reports[i], tests[i])
    requires m < |reports| && tests[m] < |reports[m]| && reports[m][tests[m]].name == name
    modifies tests
    ensures Advanced(reports, old(tests[..]), tests[..], name, |reports|)
    ensures diff.tests == Current(reports, old(tests[..]), name, |reports|) != []
    ensures IsRecord(diff, useTicks)
  {
    CurrentHas(reports, tests[..], name, |reports|, m);
    ghost var current := Current(reports, tests[..], name, |reports|);
    var buffer := new Entry[|reports|];
    var num, min, max := FillCurrent(reports, tests, name, useTicks, buffer);
    diff := FinishRecord(buffer, useTicks, num, min, max, current);
  }

  // ----- What the join yields -----

  /** The record of a test that both reports have: old entry first. */
  ghost predicate IsPair(reports: seq<Report>, diff: Diff, useTicks: bool)
    requires |reports| == 2
  {
    && |diff.tests| == 2 && HasLive(reports[0], diff.tests[0]) && HasLive(reports[1], diff.tests[1])
    && diff.tests[0].name == diff.tests[1].name
    && Extremes(diff.tests, useTicks, diff.min, diff.max) && diff.min > 0.0
    && diff.change == Change(Time(diff.tests[0], useTicks), Time(diff.tests[1], useTicks))
    && IsChange(diff.tests[0], diff.tests[1], useTicks, diff.change)
  }

  /** The names up to `low` that both reports have, once each and in order. */
  ghost predicate Joined(reports: seq<Report>, diffs: seq<Diff>, useTicks: bool, low: int)
    requires |reports| == 2
  {
    && (forall k :: 0 <= k < |diffs| ==> IsPair(reports, diffs[k], useTicks) && diffs[k].tests[0].name <= low)
    && (forall k, l :: 0 <= k < l < |diffs| ==> diffs[k].tests[0].name < diffs[l].tests[0].name)
    && (forall name :: name <= low && HasName(reports[0], name) && HasName(reports[1], name) ==>
          exists k :: 0 <= k < |diffs| && diffs[k].tests[0].name == name)
  }

  /** One record per test that both reports have, in order. */
  ghost predicate IsJoin(reports: seq<Report>, diffs: seq<Diff>, useTicks: bool)
    requires |reports| == 2
  {
    && (forall k :: 0 <= k < |diffs| ==> IsPair(reports, diffs[k], useTicks))
    && (forall k, l :: 0 <= k < l < |diffs| ==> diffs[k].tests[0].name < diffs[l].tests[0].name)
    && (forall name :: HasName(reports[0], name) && HasName(reports[1], name) ==>
          exists k :: 0 <= k < |diffs| && diffs[k].tests[0].name == name)
  }

  /** An entry the other report does not have. */
  ghost predicate Lone(reports: seq<Report>, i: nat, e: Entry)
    requires |reports| == 2 && i < 2
  {
    HasLive(reports[i], e) && !HasName(reports[1 - i], e.name)
  }

  /** The messages about entries up to `low` that only one report has. */
  ghost predicate Reported(reports: seq<Report>, only: seq<(nat, Entry)>, low: int)
    requires |reports| == 2
  {
    && (forall i: nat, e ::
          (i, e) in only <==> i < 2 && Lone(reports, i, e) && e.name <= low && HasLater(reports[1 - i], e.name))
    && (forall k, l :: 0 <= k < l < |only| ==> only[k].1.name < only[l].1.name)
  }

  /** The cursor splits the entries with stats at `low`. */
  ghost predicate Split(r: Report, c: nat, low: int) {
    && c <= |r|
    && (forall j :: 0 <= j < c && Live(r[j]) ==> r[j].name <= low)
    && (forall j :: c <= j < |r| && Live(r[j]) ==> r[j].name > low)
  }

  /** Both cursors split their reports at `low`. */
  ghost predicate BothSplit(reports: seq<Report>, cursors: seq<nat>, low: int) {
    |reports| == 2 && |cursors| == 2 && Split(reports[0], cursors[0], low) && Split(reports[1], cursors[1], low)
  }

  /** Of the entries with stats after `low` and up to `name`, there can only be the current one. */
  ghost predicate OnlyCurrent(r: Report, c: nat, low: int, name: int) {
    forall e :: HasLive(r, e) && low < e.name <= name ==> e.name == name && c < |r| && e == r[c]
  }

  lemma NextIsCurrent(r: Report, c: nat, low: int, name: int)
    requires Increasing(r) && Split(r, c, low) && OnLive(r, c)
    requires c < |r| ==> r[c].name >= name
    ensures OnlyCurrent(r, c, low, name)
  {
    forall e | HasLive(r, e) && low < e.name <= name ensures e.name == name && c < |r| && e == r[c] {
      var j :| 0 <= j < |r| && r[j] == e;
      assert c <= j;
    }
  }

  lemma SplitAtNext(r: Report, c: nat, low: int, name: int)
    requires Increasing(r) && Split(r, c, low) && OnLive(r, c) && low < name
    requires c < |r| ==> r[c].name >= name
    ensures Split(r, c + |AtCursor(r, c, name)|, name)
  {
    if c < |r| {
      assert forall j :: c < j < |r| && Live(r[j]) ==> r[j].name > r[c].name;
    }
  }

  lemma CountOpenOfTwo(reports: seq<Report>, cursors: seq<nat>)
    requires |reports| == 2 && InReports(reports, cursors)
    ensures CountOpen(reports, cursors)
         == (if cursors[0] < |reports[0]| then 1 else 0) + (if cursors[1] < |reports[1]| then 1 else 0)
  {
    var one, c := reports[..1], cursors[..1];
    assert one[0] == reports[0] && c[0] == cursors[0];
    assert one[..0] == [] && c[..0] == [];
    assert CountOpen([], []) == 0;
    assert CountOpen(one, c) == if c[0] < |one[0]| then 1 else 0;
  }

  lemma CurrentOfTwo(reports: seq<Report>, cursors: seq<nat>, name: int)
    requires |reports| == 2 && InReports(reports, cursors)
    ensures Current(reports, cursors, name, |reports|)
         == AtCursor(reports[0], cursors[0], name) + AtCursor(reports[1], cursors[1], name)
  {
    var none: seq<Entry> := Current(reports, cursors, name, 0);
    assert none + AtCursor(reports[0], cursors[0], name) == AtCursor(reports[0], cursors[0], name);
    assert Current(reports, cursors, name, 1) == AtCursor(reports[0], cursors[0], name);
  }

  lemma JoinPair(reports: seq<Report>, cursors: seq<nat>, diffs: seq<Diff>, useTicks: bool, low: int, name: int, diff: Diff)
    requires |reports| == 2 && |cursors| == 2 && Joined(reports, diffs, useTicks, low)
    requires low < name && IsPair(reports, diff, useTicks) && diff.tests[0].name == name
    requires OnlyCurrent(reports[0], cursors[0], low, name)
    ensures Joined(reports, diffs + [diff], useTicks, name)
  {
    var all := diffs + [diff];
    forall n | n <= name && HasName(reports[0], n) && HasName(reports[1], n)
      ensures exists k :: 0 <= k < |all| && all[k].tests[0].name == n
    {
      if n <= low {
        var k :| 0 <= k < |diffs| && diffs[k].tests[0].name == n;
        assert all[k].tests[0].name == n;
      } else {
        assert n == name;
        assert all[|diffs|].tests[0].name == n;
      }
    }
  }

  lemma JoinNone(reports: seq<Report>, cursors: seq<nat>, diffs: seq<Diff>, useTicks: bool, low: int, name: int, i: nat)
    requires |reports| == 2 && |cursors| == 2 && i < 2 && Joined(reports, diffs, useTicks, low) && low < name
    requires OnlyCurrent(reports[0], cursors[0], low, name) && OnlyCurrent(reports[1], cursors[1], low, name)
    requires !HasName(reports[i], name)
    ensures Joined(reports, diffs, useTicks, name)
  {
    assert forall n :: low < n <= name ==> !HasName(reports[i], n);
  }

  lemma ReportNone(reports: seq<Report>, cursors: seq<nat>, only: seq<(nat, Entry)>, low: int, name: int)
    requires |reports| == 2 && |cursors| == 2 && Reported(reports, only, low) && low < name
    requires OnlyCurrent(reports[0], cursors[0], low, name) && OnlyCurrent(reports[1], cursors[1], low, name)
    requires HasName(reports[0], name) && HasName(reports[1], name)
    ensures Reported(reports, only, name)
  {
    assert forall i: nat, e :: i < 2 && Lone(reports, i, e) ==> HasLive(reports[i], e) && e.name != name;
  }

  lemma ReportLone(reports: seq<Report>, cursors: seq<nat>, only: seq<(nat, Entry)>, low: int, name: int, i: nat)
    requires |reports| == 2 && InReports(reports, cursors) && i < 2 && Reported(reports, only, low) && low < name
    requires OnlyCurrent(reports[0], cursors[0], low, name) && OnlyCurrent(reports[1], cursors[1], low, name)
    requires cursors[i] < |reports[i]| && Live(reports[i][cursors[i]]) && reports[i][cursors[i]].name == name
    requires !HasName(reports[1 - i], name) && HasLater(reports[1 - i], name)
    ensures Reported(reports, only + [(i, reports[i][cursors[i]])], name)
  {
    var e0 := reports[i][cursors[i]];
    assert HasLive(reports[i], e0);
    forall j: nat, e
      ensures (j, e) in only + [(i, e0)]
        <==> j < 2 && Lone(reports, j, e) && e.name <= name && HasLater(reports[1 - j], e.name)
    {
      if j < 2 && Lone(reports, j, e) && low < e.name <= name {
        assert HasLive(reports[j], e);
        assert e == reports[j][cursors[j]] && e.name == name;
        assert HasName(reports[j], name);
        assert j == i;
      }
    }
    forall k | 0 <= k < |only| ensures only[k].1.name < name {
      assert (only[k].0, only[k].1) in only;
    }
  }

  /** Both cursors are on entries with stats. */
  ghost predicate BothOpen(reports: seq<Report>, cursors: seq<nat>) {
    && |reports| == 2 && InReports(reports, cursors)
    && cursors[0] < |reports[0]| && cursors[1] < |reports[1]|
    && Live(reports[0][cursors[0]]) && Live(reports[1][cursors[1]])
  }

  /** What the least current name is good for. */
  lemma LeastIsNext(reports: seq<Report>, cursors: seq<nat>, cursors': seq<nat>, low: int, m: nat, name: int)
    requires Comparable(reports) && BothOpen(reports, cursors) && BothSplit(reports, cursors, low)
    requires IsLeast(reports, cursors, m) && name == reports[m][cursors[m]].name
    requires Advanced(reports, cursors, cursors', name, 2)
    ensures low < name && BothSplit(reports, cursors', name)
    ensures OnlyCurrent(reports[0], cursors[0], low, name) && OnlyCurrent(reports[1], cursors[1], low, name)
  {
    NextIsCurrent(reports[0], cursors[0], low, name);
    NextIsCurrent(reports[1], cursors[1], low, name);
    SplitAtNext(reports[0], cursors[0], low, name);
    SplitAtNext(reports[1], cursors[1], low, name);
  }

  /** One current entry has a partner or the other report is already behind it. */
  lemma AloneOrPaired(reports: seq<Report>, cursors: seq<nat>, low: int, m: nat, name: int)
    requires Comparable(reports) && BothOpen(reports, cursors) && m < 2 && low < name
    requires reports[m][cursors[m]].name == name && reports[1 - m][cursors[1 - m]].name >= name
    requires OnlyCurrent(reports[1 - m], cursors[1 - m], low, name)
    ensures HasLive(reports[m], reports[m][cursors[m]]) && HasName(reports[m], name)
    ensures HasName(reports[1 - m], name) <==> reports[1 - m][cursors[1 - m]].name == name
    ensures !HasName(reports[1 - m], name) ==> HasLater(reports[1 - m], name)
  {
    assert HasLive(reports[m], reports[m][cursors[m]]);
    assert HasLive(reports[1 - m], reports[1 - m][cursors[1 - m]]);
  }

  /** The change recorded for a pair. */
  method PairChange(diff: Diff, useTicks: bool) returns (change: real)
    requires |diff.tests| == 2 && HaveTimes(diff.tests)
    ensures change == Change(Time(diff.tests[0], useTicks), Time(diff.tests[1], useTicks))
    ensures IsChange(diff.tests[0], diff.tests[1], useTicks, change)
  {
    ChangeOfTests(diff.tests[0], diff.tests[1], useTicks);
    var oldTime, newTime := diff.tests[0].ticks, diff.tests[1].ticks;
    if !useTicks {
      oldTime := oldTime / diff.tests[0].ticksPerMs;
      newTime := newTime / diff.tests[1].ticksPerMs;
    }
    QuotientAtLeastOne(oldTime, newTime);
    NegatedReciprocal(oldTime, newTime);
    change := oldTime / newTime;
    if change < 1.0 {
      change := -1.0 / change;
    }
  }

  /** The least current name and its tests: one if only report `m` has the name. */
  ghost predicate IsNextName(reports: seq<Report>, cursors: seq<nat>, low: int, m: nat, tests: seq<Entry>)
    requires BothOpen(reports, cursors)
  {
    && m < 2
    && var name := reports[m][cursors[m]].name;
    && low < name
    && OnlyCurrent(reports[0], cursors[0], low, name) && OnlyCurrent(reports[1], cursors[1], low, name)
    && (HasName(reports[1 - m], name) || HasLater(reports[1 - m], name))
    && tests == (if HasName(reports[1 - m], name) then [reports[0][cursors[0]], reports[1][cursors[1]]]
                 else [reports[m][cursors[m]]])
    && (HasName(reports[1 - m], name) ==> reports[1 - m][cursors[1 - m]].name == name)
  }

  /** The record of the least current name. */
  ghost predicate IsNext(reports: seq<Report>, cursors: seq<nat>, low: int, m: nat, diff: Diff, useTicks: bool)
    requires BothOpen(reports, cursors)
  {
    IsNextName(reports, cursors, low, m, diff.tests) && Extremes(diff.tests, useTicks, diff.min, diff.max) && diff.min > 0.0
  }

  /** The tests of the least current name, behind which all cursors have moved. */
  lemma LeastIsNextName(reports: seq<Report>, cursors: seq<nat>, cursors': seq<nat>, low: int, m: nat, tests: seq<Entry>)
    requires Comparable(reports) && BothOpen(reports, cursors) && BothSplit(reports, cursors, low)
    requires IsLeast(reports, cursors, m)
    requires tests == Current(reports, cursors, reports[m][cursors[m]].name, 2)
    requires Advanced(reports, cursors, cursors', reports[m][cursors[m]].name, 2)
    ensures IsNextName(reports, cursors, low, m, tests) && BothSplit(reports, cursors', reports[m][cursors[m]].name)
  {
    var name := reports[m][cursors[m]].name;
    LeastIsNext(reports, cursors, cursors', low, m, name);
    AloneOrPaired(reports, cursors, low, m, name);
    CurrentOfTwo(reports, cursors, name);
  }

  method NextRecord(reports: seq<Report>, tests: array<nat>, useTicks: bool, ghost low: int)
    returns (diff: Diff, m: nat, ghost name: int)
    requires Comparable(reports) && BothOpen(reports, tests[..]) && BothSplit(reports, tests[..], low)
    modifies tests
    ensures IsNext(reports, old(tests[..]), low, m, diff, useTicks) && name == reports[m][old(tests[m])].name
    ensures Advanced(reports, old(tests[..]), tests[..], name, 2) && BothSplit(reports, tests[..], name)
  {
    m := FindMin(reports, tests);
    ghost var cursors := tests[..];
    name := reports[m][tests[m]].name;
    diff := RecordCurrent(reports, tests, reports[m][tests[m]].name, useTicks, m);
    LeastIsNextName(reports, cursors, tests[..], low, m, diff.tests);
  }

  lemma AloneStep(reports: seq<Report>, cursors: seq<nat>, diffs: seq<Diff>, only: seq<(nat, Entry)>, useTicks: bool,
                  low: int, m: nat, diff: Diff)
    requires BothOpen(reports, cursors) && IsNext(reports, cursors, low, m, diff, useTicks)
    requires Joined(reports, diffs, useTicks, low) && Reported(reports, only, low) && |diff.tests| == 1
    ensures Joined(reports, diffs, useTicks, reports[m][cursors[m]].name)
    ensures Reported(reports, only + [(m, diff.tests[0])], reports[m][cursors[m]].name)
  {
    var name := reports[m][cursors[m]].name;
    JoinNone(reports, cursors, diffs, useTicks, low, name, 1 - m);
    ReportLone(reports, cursors, only, low, name, m);
  }

  lemma PairStep(reports: seq<Report>, cursors: seq<nat>, diffs: seq<Diff>, only: seq<(nat, Entry)>, useTicks: bool,
                 low: int, m: nat, diff: Diff, change: real)
    requires BothOpen(reports, cursors) && IsNext(reports, cursors, low, m, diff, useTicks)
    requires Joined(reports, diffs, useTicks, low) && Reported(reports, only, low) && |diff.tests| != 1
    requires |diff.tests| == 2 ==> change == Change(Time(diff.tests[0], useTicks), Time(diff.tests[1], useTicks))
    ensures Joined(reports, diffs + [diff.(change := change)], useTicks, reports[m][cursors[m]].name)
    ensures Reported(reports, only, reports[m][cursors[m]].name)
    ensures diff.tests == [reports[0][cursors[0]], reports[1][cursors[1]]]
    ensures reports[0][cursors[0]].name == reports[1][cursors[1]].name
  {
    var name, e0, e1 := reports[m][cursors[m]].name, reports[0][cursors[0]], reports[1][cursors[1]];
    assert HasLive(reports[0], e0) && HasLive(reports[1], e1);
    ChangeOfTests(e0, e1, useTicks);
    JoinPair(reports, cursors, diffs, useTicks, low, name, diff.(change := change));
    ReportNone(reports, cursors, only, low, name);
  }

  /** Records the least current test if both reports have it, and reports it otherwise. */
  method TakeNext(reports: seq<Report>, tests: array<nat>, useTicks: bool, diffs: array<Diff>, num0: nat,
                  only0: seq<(nat, Entry)>, ghost low: int)
    returns (num: nat, only: seq<(nat, Entry)>, ghost name: int)
    requires Comparable(reports) && BothOpen(reports, tests[..]) && BothSplit(reports, tests[..], low)
    requires num0 < diffs.Length && Joined(reports, diffs[..num0], useTicks, low) && Reported(reports, only0, low)
    modifies tests, diffs
    ensures Advanced(reports, old(tests[..]), tests[..], name, 2) && BothSplit(reports, tests[..], name)
    ensures old(tests[0]) + old(tests[1]) < tests[0] + tests[1]
    ensures num == num0 || (num == num0 + 1 && old(tests[0]) < tests[0] && old(tests[1]) < tests[1])
    ensures num <= diffs.Length && Joined(reports, diffs[..num], useTicks, name) && Reported(reports, only, name)
  {
    ghost var cursors, before := tests[..], diffs[..num0];
    var diff, m;
    diff, m, name := NextRecord(reports, tests, useTicks, low);
    num, only := num0, only0;
    diffs[num0] := diff;
    assert diffs[..num0] == before;
    if |diff.tests| == 1 {
      AloneStep(reports, cursors, before, only0, useTicks, low, m, diff);
      only := only + [(m, diff.tests[0])];
    } else {
      var change := PairChange(diff, useTicks);
      PairStep(reports, cursors, before, only0, useTicks, low, m, diff, change);
      diffs[num0] := diff.(change := change);
      num := num + 1;
      assert diffs[..num] == before + [diff.(change := change)];
    }
  }

  /** The messages: one per entry without partner that is before some entry of the other report, in order. */
  ghost predicate AllReported(reports: seq<Report>, only: seq<(nat, Entry)>)
    requires |reports| == 2
  {
    && (forall i: nat, e :: (i, e) in only <==> i < 2 && Lone(reports, i, e) && HasLater(reports[1 - i], e.name))
    && (forall k, l :: 0 <= k < l < |only| ==> only[k].1.name < only[l].1.name)
  }

  lemma SkippedSplit(r: Report, c: nat, c': nat, low: int)
    requires Split(r, c, low) && SkippedTo(r, c, c')
    ensures Split(r, c', low)
  {
    assert forall j :: 0 <= j < c' && Live(r[j]) ==> j < c;
  }

  /** When one report is at its end, all common names are recorded. */
  lemma JoinDone(reports: seq<Report>, diffs: seq<Diff>, only: seq<(nat, Entry)>, useTicks: bool, low: int, i: nat)
    requires |reports| == 2 && i < 2 && Split(reports[i], |reports[i]|, low)
    requires Joined(reports, diffs, useTicks, low) && Reported(reports, only, low)
    ensures IsJoin(reports, diffs, useTicks) && AllReported(reports, only)
  {
    assert forall e :: HasLive(reports[i], e) ==> e.name <= low;
    assert forall n :: HasName(reports[i], n) || HasLater(reports[i], n) ==> n <= low;
  }

  lemma NothingBelow(reports: seq<Report>, low: int, high: int)
    requires |reports| == 2 && Between(reports[0], low, high) && Between(reports[1], low, high)
    ensures BothSplit(reports, [0, 0], low)
    ensures forall useTicks :: Joined(reports, [], useTicks, low)
    ensures Reported(reports, [], low)
  {
    assert forall i: nat, e :: i < 2 && HasLive(reports[i], e) ==> e.name > low;
  }

  /** Moves on to the next entries with stats: whether both reports still have one. */
  method SkipBoth(reports: seq<Report>, tests: array<nat>, ghost low: int) returns (both: bool, ghost ended: nat)
    requires |reports| == 2 && InReports(reports, tests[..]) && BothSplit(reports, tests[..], low)
    modifies tests
    ensures InReports(reports, tests[..]) && BothSplit(reports, tests[..], low)
    ensures old(tests[0]) <= tests[0] && old(tests[1]) <= tests[1]
    ensures both ==> BothOpen(reports, tests[..])
    ensures !both ==> ended < 2 && tests[ended] == |reports[ended]|
  {
    ghost var cursors := tests[..];
    var seen := SkipDead(reports, tests);
    CountOpenOfTwo(reports, tests[..]);
    SkippedSplit(reports[0], cursors[0], tests[0], low);
    SkippedSplit(reports[1], cursors[1], tests[1], low);
    both := seen >= 2;
    ended := if tests[0] == |reports[0]| then 0 else 1;
  }

  /**
   Joins two reports: the records are exactly the tests that both have, old entry first, in order; the
   record array is as long as the longer report, and that is enough.
   */
  method CompareReports(reports: seq<Report>, useTicks: bool)
    returns (diffs: array<Diff>, numDiffs: nat, only: seq<(nat, Entry)>)
    requires Comparable(reports)
    ensures numDiffs <= diffs.Length && IsJoin(reports, diffs[..numDiffs], useTicks)
    ensures AllReported(reports, only)
  {
    var tests := new nat[2](_ => 0);
    var maxDiffs := |reports[0]|;
    for i := 0 to 2
      invariant maxDiffs >= |reports[0]| && (i > 1 ==> maxDiffs >= |reports[1]|)
    {
      if |reports[i]| > maxDiffs {
        maxDiffs := |reports[i]|;
      }
    }
    diffs, numDiffs, only := new Diff[maxDiffs], 0, [];
    ghost var low, high := NameBounds(reports);
    NothingBelow(reports, low, high);
    assert tests[..] == [0, 0] && diffs[..0] == [];
    while true
      invariant InReports(reports, tests[..]) && BothSplit(reports, tests[..], low)
      invariant numDiffs <= tests[0] && numDiffs <= tests[1]
      invariant Joined(reports, diffs[..numDiffs], useTicks, low) && Reported(reports, only, low)
      decreases |reports[0]| + |reports[1]| - tests[0] - tests[1]
    {
      var both;
      ghost var ended;
      both, ended := SkipBoth(reports, tests, low);
      if !both {
        JoinDone(reports, diffs[..numDiffs], only, useTicks, low, ended);
        return;
      }
      numDiffs, only, low := TakeNext(reports, tests, useTicks, diffs, numDiffs, only, low);
    }
  }
}
