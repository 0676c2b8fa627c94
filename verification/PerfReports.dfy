/**
 Performance reports, and the steps that the three comparison tools share: skipping entries without
 stats and finding the least current entry.
 */
module PerfReports {

  /**
   A test result.  Names (with their sizes) matter only through their order, so a name is its rank.
   Times are exact.
   */
  datatype Entry = Entry(name: int, iterations: nat, ticks: real, ticksPerMs: real)

  type Report = seq<Entry>

  /** Entries condensed into an earlier one have no iterations. */
  predicate Live(e: Entry) {
    e.iterations > 0
  }

  ghost predicate SortedByName(r: Report) {
    forall i, j {:trigger r[i].name, r[j].name} :: 0 <= i < j < |r| ==> r[i].name <= r[j].name
  }

  /** As loaded: sorted by name, with positive times where there are stats. */
  ghost predicate Loaded(r: Report) {
    && SortedByName(r)
    && forall i {:trigger Live(r[i])} {:trigger r[i].ticks} ::
         0 <= i < |r| ==> (Live(r[i]) ==> r[i].ticks > 0.0) && (r[i].ticks > 0.0 ==> r[i].ticksPerMs > 0.0)
  }

  ghost predicate LiveName(reports: seq<Report>, name: int) {
    exists i, j :: 0 <= i < |reports| && 0 <= j < |reports[i]| && Live(reports[i][j]) && reports[i][j].name == name
  }

  ghost predicate StrictlyIncreasing(s: seq<int>) {
    forall i, j :: 0 <= i < j < |s| ==> s[i] < s[j]
  }

  /** The names with live entries, each once, in order. */
  ghost predicate IsLiveNames(reports: seq<Report>, names: seq<int>) {
    StrictlyIncreasing(names) && forall n :: n in names <==> LiveName(reports, n)
  }

  lemma {:induction false} LiveNamesAreUnique(reports: seq<Report>, names: seq<int>, names': seq<int>)
    requires IsLiveNames(reports, names) && IsLiveNames(reports, names')
    ensures names == names'
  {
    SortedSequencesAreEqual(names, names');
  }

  lemma FirstIsIn(s: seq<int>)
    ensures s != [] ==> s[0] in s
  {
  }

  lemma {:induction false} SortedSequencesAreEqual(s: seq<int>, t: seq<int>)
    requires StrictlyIncreasing(s) && StrictlyIncreasing(t)
    requires forall n :: n in s <==> n in t
    ensures s == t
    decreases |s|
  {
    FirstIsIn(s);
    FirstIsIn(t);
    if s != [] && t != [] {
      var last := s[|s| - 1];
      assert last in t && t[|t| - 1] in s;
      assert last == t[|t| - 1];
      var s', t' := s[..|s| - 1], t[..|t| - 1];
      forall n ensures n in s' <==> n in t' {
        assert n in s' <==> n in s && n != last;
        assert n in t' <==> n in t && n != last;
      }
      SortedSequencesAreEqual(s', t');
      assert s == s' + [last] && t == t' + [last];
    }
  }

  // ----- Cursors -----

  /** The cursors are inside their reports or on the terminator. */
  predicate InReports(reports: seq<Report>, cursors: seq<nat>) {
    |cursors| == |reports| && forall i :: 0 <= i < |reports| ==> cursors[i] <= |reports[i]|
  }

  /** The current entry, if any, is live. */
  predicate OnLive(r: Report, c: nat) {
    c < |r| ==> Live(r[c])
  }

  function CountOpen(reports: seq<Report>, cursors: seq<nat>): nat
    requires |cursors| == |reports|
  {
    if reports == [] then 0
    else
      CountOpen(reports[..|reports| - 1], cursors[..|reports| - 1])
      + if cursors[|reports| - 1] < |reports[|reports| - 1]| then 1 else 0
  }

  ghost predicate SkippedTo(r: Report, from: nat, c: nat) {
    from <= c <= |r| && OnLive(r, c) && forall j :: from <= j < c ==> !Live(r[j])
  }

  /** Moves every cursor to its next live entry, and counts the reports that have one. */
  method SkipDead(reports: seq<Report>, tests: array<nat>) returns (seen: nat)
    requires InReports(reports, tests[..])
    modifies tests
    ensures InReports(reports, tests[..])
    ensures forall i :: 0 <= i < |reports| ==> SkippedTo(reports[i], old(tests[i]), tests[i])
    ensures seen == CountOpen(reports, tests[..])
  {
    seen := 0;
    var i := 0;
    while i < |reports|
      invariant i <= |reports|
      invariant InReports(reports, tests[..])
      invariant forall k :: 0 <= k < i ==> SkippedTo(reports[k], old(tests[k]), tests[k])
      invariant forall k :: i <= k < |reports| ==> tests[k] == old(tests[k])
      invariant seen == CountOpen(reports[..i], tests[..i])
    {
      ghost var before := tests[..i];
      while tests[i] < |reports[i]| && reports[i][tests[i]].iterations == 0
        invariant InReports(reports, tests[..]) && tests[..i] == before
        invariant old(tests[i]) <= tests[i]
        invariant forall j :: old(tests[i]) <= j < tests[i] ==> !Live(reports[i][j])
        invariant forall k :: i < k < |reports| ==> tests[k] == old(tests[k])
        decreases |reports[i]| - tests[i]
      {
        tests[i] := tests[i] + 1;
      }
      if tests[i] < |reports[i]| {
        seen := seen + 1;
      }
      assert reports[..i + 1][..i] == reports[..i] && tests[..i + 1][..i] == before;
      assert forall k :: 0 <= k < i ==> tests[k] == before[k];
      i := i + 1;
    }
    assert reports[..i] == reports && tests[..i] == tests[..];
  }

  lemma {:induction false} NoneOpen(reports: seq<Report>, cursors: seq<nat>)
    requires InReports(reports, cursors)
    ensures CountOpen(reports, cursors) == 0 <==> forall i :: 0 <= i < |reports| ==> cursors[i] == |reports[i]|
    decreases |reports|
  {
    if reports != [] {
      var n := |reports| - 1;
      NoneOpen(reports[..n], cursors[..n]);
      if forall i :: 0 <= i < n ==> cursors[..n][i] == |reports[..n][i]| {
        assert forall i :: 0 <= i < n ==> cursors[i] == |reports[i]|;
      } else {
        var i :| 0 <= i < n && cursors[..n][i] != |reports[..n][i]|;
        assert cursors[i] != |reports[i]|;
      }
    }
  }

  /** `m` has an entry under its cursor, and no other current entry comes before it. */
  ghost predicate IsLeast(reports: seq<Report>, cursors: seq<nat>, m: nat)
    requires InReports(reports, cursors)
  {
    && m < |reports| && cursors[m] < |reports[m]|
    && forall i :: 0 <= i < |reports| && cursors[i] < |reports[i]| ==>
         reports[m][cursors[m]].name <= reports[i][cursors[i]].name
  }

  /** The least of all current entries, as the report it is in. */
  method FindMin(reports: seq<Report>, tests: array<nat>) returns (m: nat)
    requires InReports(reports, tests[..])
    requires exists i :: 0 <= i < |reports| && tests[i] < |reports[i]|
    ensures IsLeast(reports, tests[..], m)
  {
    var i := 0;
    while tests[i] == |reports[i]|
      invariant 0 <= i < |reports| && exists k :: i <= k < |reports| && tests[k] < |reports[k]|
      invariant forall k :: 0 <= k < i ==> tests[k] == |reports[k]|
      decreases |reports| - i
    {
      i := i + 1;
    }
    m := i;
    i := i + 1;
    while i < |reports|
      invariant m < i <= |reports| && tests[m] < |reports[m]|
      invariant forall k :: 0 <= k < i && tests[k] < |reports[k]| ==>
        reports[m][tests[m]].name <= reports[k][tests[k]].name
    {
      if tests[i] < |reports[i]| && reports[i][tests[i]].name < reports[m][tests[m]].name {
        m := i;
      }
      i := i + 1;
    }
  }

  // ----- Records of a comparison -----

  datatype Diff = Diff(tests: seq<Entry>, min: real, max: real, change: real)

  function Time(e: Entry, useTicks: bool): real
    requires e.ticksPerMs > 0.0
  {
    if useTicks then e.ticks else e.ticks / e.ticksPerMs
  }

  /** The ticks are either the time itself or the time at the test's pace. */
  lemma TimeTimesPace(e: Entry)
    requires e.ticksPerMs > 0.0
    ensures Time(e, true) == e.ticks && Time(e, false) * e.ticksPerMs == e.ticks
    ensures forall useTicks :: (e.ticks > 0.0 <==> Time(e, useTicks) > 0.0)
  {
    var t := Time(e, false);
    assert t * e.ticksPerMs == e.ticks;
  }

  ghost predicate HavePace(s: seq<Entry>) {
    forall j {:trigger s[j].ticksPerMs} :: 0 <= j < |s| ==> s[j].ticksPerMs > 0.0
  }

  ghost predicate HaveTimes(s: seq<Entry>) {
    HavePace(s) && forall j {:trigger s[j].ticks} :: 0 <= j < |s| ==> s[j].ticks > 0.0
  }

  function Times(s: seq<Entry>, useTicks: bool): seq<real>
    requires HavePace(s)
  {
    if s == [] then [] else Times(s[..|s| - 1], useTicks) + [Time(s[|s| - 1], useTicks)]
  }

  lemma {:induction false} TimesAt(s: seq<Entry>, useTicks: bool, k: nat)
    requires HavePace(s)
    ensures |Times(s, useTicks)| == |s|
    ensures k < |s| ==> Times(s, useTicks)[k] == Time(s[k], useTicks) && Time(s[k], useTicks) in Times(s, useTicks)
  {
    if s != [] {
      TimesAt(s[..|s| - 1], useTicks, k);
    }
  }

  lemma EntryOfTime(s: seq<Entry>, useTicks: bool, time: real) returns (k: nat)
    requires HavePace(s) && time in Times(s, useTicks)
    ensures k < |s| && Time(s[k], useTicks) == time
  {
    TimesAt(s, useTicks, 0);
    k :| 0 <= k < |Times(s, useTicks)| && Times(s, useTicks)[k] == time;
    TimesAt(s, useTicks, k);
  }

  lemma TimesGrow(s: seq<Entry>, useTicks: bool, e: Entry)
    requires HavePace(s) && e.ticksPerMs > 0.0
    ensures HavePace(s + [e]) && Times(s + [e], useTicks) == Times(s, useTicks) + [Time(e, useTicks)]
  {
    assert (s + [e])[..|s|] == s;
  }

  /** `min` and `max` are the extreme times of `s`. */
  ghost predicate Extremes(s: seq<Entry>, useTicks: bool, min: real, max: real) {
    && HaveTimes(s)
    && (forall time :: time in Times(s, useTicks) ==> min <= time <= max)
    && (s != [] ==> min in Times(s, useTicks) && max in Times(s, useTicks))
  }

  /** A record of tests with their extreme times. */
  ghost predicate IsRecord(diff: Diff, useTicks: bool) {
    Extremes(diff.tests, useTicks, diff.min, diff.max) && diff.min > 0.0 && diff.change == diff.max / diff.min
  }

  function LeastTime(s: seq<Entry>, useTicks: bool): real
    requires HavePace(s) && s != []
  {
    var t := Time(s[|s| - 1], useTicks);
    if |s| == 1 then t else
      var least := LeastTime(s[..|s| - 1], useTicks);
      if t < least then t else least
  }

  function GreatestTime(s: seq<Entry>, useTicks: bool): real
    requires HavePace(s) && s != []
  {
    var t := Time(s[|s| - 1], useTicks);
    if |s| == 1 then t else
      var greatest := GreatestTime(s[..|s| - 1], useTicks);
      if t > greatest then t else greatest
  }

  lemma {:induction false} LeastAndGreatestAreExtremes(s: seq<Entry>, useTicks: bool)
    requires HaveTimes(s) && s != []
    ensures Extremes(s, useTicks, LeastTime(s, useTicks), GreatestTime(s, useTicks))
  {
    if |s| == 1 {
      assert s[..0] == [] && Times(s[..0], useTicks) == [];
    } else {
      LeastAndGreatestAreExtremes(s[..|s| - 1], useTicks);
    }
  }

  lemma LeastAndGreatestGrow(s: seq<Entry>, useTicks: bool, e: Entry)
    requires HaveTimes(s) && e.ticks > 0.0 && e.ticksPerMs > 0.0
    ensures HaveTimes(s + [e])
    ensures var t := Time(e, useTicks);
            && LeastTime(s + [e], useTicks) == (if s == [] || t < LeastTime(s, useTicks) then t else LeastTime(s, useTicks))
            && GreatestTime(s + [e], useTicks)
                 == if s == [] || t > GreatestTime(s, useTicks) then t else GreatestTime(s, useTicks)
  {
    assert (s + [e])[..|s|] == s;
  }

  lemma ExtremesArePositive(s: seq<Entry>, useTicks: bool, min: real, max: real)
    requires Extremes(s, useTicks, min, max) && s != []
    ensures 0.0 < min <= max
  {
    var k := EntryOfTime(s, useTicks, min);
    assert s[k].ticks > 0.0 && s[k].ticksPerMs > 0.0;
  }

  /** The part of a record filled so far. */
  ghost predicate Filled(buffer: array<Entry>, useTicks: bool, num: nat, min: real, max: real, group: seq<Entry>)
    reads buffer
  {
    && num <= buffer.Length && buffer[..num] == group && HaveTimes(group)
    && (group != [] ==> min == LeastTime(group, useTicks) && max == GreatestTime(group, useTicks))
  }

  /** Adds a test to a record. */
  method Record(test: Entry, useTicks: bool, buffer: array<Entry>, num0: nat, min0: real, max0: real,
                ghost group: seq<Entry>)
    returns (num: nat, min: real, max: real)
    requires Filled(buffer, useTicks, num0, min0, max0, group) && num0 < buffer.Length
    requires test.ticks > 0.0 && test.ticksPerMs > 0.0
    modifies buffer
    ensures num == num0 + 1 && Filled(buffer, useTicks, num, min, max, group + [test])
  {
    LeastAndGreatestGrow(group, useTicks, test);
    min, max := min0, max0;
    var testTime := Time(test, useTicks);
    if num0 == 0 {
      min, max := testTime, testTime;
    } else {
      if testTime < min { min := testTime; }
      if testTime > max { max := testTime; }
    }
    buffer[num0] := test;
    num := num0 + 1;
    assert buffer[..num] == buffer[..num0] + [test];
  }

  /** The record of a group that is filled. */
  method FinishRecord(buffer: array<Entry>, useTicks: bool, num: nat, min: real, max: real, ghost group: seq<Entry>)
    returns (diff: Diff)
    requires Filled(buffer, useTicks, num, min, max, group) && group != []
    ensures diff.tests == group && IsRecord(diff, useTicks)
  {
    LeastAndGreatestAreExtremes(group, useTicks);
    ExtremesArePositive(group, useTicks, min, max);
    diff := Diff(buffer[..num], min, max, max / min);
  }
}
