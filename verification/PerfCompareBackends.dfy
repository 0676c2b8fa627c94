/** Grouping any number of reports by name, in two passes over each group. */
module PerfCompareBackends {
  import opened PerfReports
  import opened PerfGroups

  function RunTotal(reports: seq<Report>, cursors: seq<nat>, name: int, n: nat): nat
    requires InReports(reports, cursors) && n <= |reports|
  {
    if n == 0 then 0
    else RunTotal(reports, cursors, name, n - 1) + RunLength(reports[n - 1], cursors[n - 1], name)
  }

  lemma {:induction false} RunTotalGrows(reports: seq<Report>, cursors: seq<nat>, name: int, n: nat, n': nat)
    requires InReports(reports, cursors) && n <= n' <= |reports|
    ensures RunTotal(reports, cursors, name, n) <= RunTotal(reports, cursors, name, n')
  {
    if n < n' {
      RunTotalGrows(reports, cursors, name, n, n' - 1);
    }
  }

  /** The first pass: how many entries the group can have at most. */
  method CountTests(reports: seq<Report>, tests: array<nat>, name: int) returns (numTests: nat)
    requires InReports(reports, tests[..])
    ensures numTests == RunTotal(reports, tests[..], name, |reports|)
  {
    numTests := 0;
    var i := 0;
    while i < |reports|
      invariant i <= |reports| && numTests == RunTotal(reports, tests[..], name, i)
    {
      var test, n := tests[i], 0;
      while test + n < |reports[i]| && reports[i][test + n].name == name
        invariant test + n <= |reports[i]| && RunLength(reports[i], test, name) == n + RunLength(reports[i], test + n, name)
        decreases |reports[i]| - n
      {
        n := n + 1;
      }
      numTests := numTests + n;
      i := i + 1;
    }
  }

  /** The group behind one more test, which is added if it has a time. */
  ghost predicate IsStep(group: seq<Entry>, group': seq<Entry>, test: Entry) {
    group' == if test.ticks > 0.0 then group + [test] else group
  }

  /** Adds a test to the group if it has a time. */
  method RecordTimed(test: Entry, buffer: array<Entry>, num0: nat, min0: real, max0: real,
                     ghost group: seq<Entry>, ghost group': seq<Entry>)
    returns (num: nat, min: real, max: real)
    requires Filled(buffer, false, num0, min0, max0, group) && num0 < buffer.Length && IsStep(group, group', test)
    requires test.ticks > 0.0 ==> test.ticksPerMs > 0.0
    modifies buffer
    ensures num <= num0 + 1 && Filled(buffer, false, num, min, max, group')
  {
    num, min, max := num0, min0, max0;
    if test.ticks > 0.0 {
      num, min, max := Record(test, false, buffer, num, min, max, group);
    }
  }

  ghost predicate StepAt(run: seq<Entry>, groups: seq<seq<Entry>>, k: nat)
    requires |groups| == |run| + 1 && k < |run|
  {
    IsStep(groups[k], groups[k + 1], run[k])
  }

  /** The group after each test of a run. */
  ghost predicate AreSteps(run: seq<Entry>, groups: seq<seq<Entry>>) {
    |groups| == |run| + 1 && forall k: nat {:trigger StepAt(run, groups, k)} :: k < |run| ==> StepAt(run, groups, k)
  }

  lemma {:induction false} StepsOf(run: seq<Entry>, group: seq<Entry>) returns (groups: seq<seq<Entry>>)
    ensures AreSteps(run, groups) && groups[0] == group && groups[|run|] == group + Timed(run)
  {
    if run == [] {
      groups := [group];
    } else {
      var n := |run| - 1;
      var front := StepsOf(run[..n], group);
      var last := if run[n].ticks > 0.0 then front[n] + [run[n]] else front[n];
      groups := front + [last];
      forall k: nat | k < |run| ensures StepAt(run, groups, k) {
        if k < n {
          assert StepAt(run[..n], front, k);
        }
      }
    }
  }

  ghost predicate Measured(s: seq<Entry>) {
    forall j {:trigger s[j].ticks} :: 0 <= j < |s| ==> s[j].ticks > 0.0 ==> s[j].ticksPerMs > 0.0
  }

  /** The second pass over one report, from its cursor `c`, which it moves to `c'`. */
  method FillFrom(r: Report, c: nat, name: int, buffer: array<Entry>,
                  num0: nat, min0: real, max0: real, ghost groups: seq<seq<Entry>>)
    returns (c': nat, num: nat, min: real, max: real)
    requires c <= |r| && Measured(r[c..c + RunLength(r, c, name)]) && AreSteps(r[c..c + RunLength(r, c, name)], groups)
    requires Filled(buffer, false, num0, min0, max0, groups[0]) && num0 + RunLength(r, c, name) <= buffer.Length
    modifies buffer
    ensures c' == c + RunLength(r, c, name) && num <= num0 + RunLength(r, c, name)
    ensures Filled(buffer, false, num, min, max, groups[RunLength(r, c, name)])
  {
    c', num, min, max := c, num0, min0, max0;
    ghost var run := r[c..c + RunLength(r, c, name)];
    while c' < |r| && r[c'].name == name
      invariant c <= c' <= |r| && |run| == c' - c + RunLength(r, c', name)
      invariant num <= num0 + (c' - c)
      invariant Filled(buffer, false, num, min, max, groups[c' - c])
    {
      assert StepAt(run, groups, c' - c) && run[c' - c] == r[c'];
      num, min, max := RecordTimed(r[c'], buffer, num, min, max, groups[c' - c], groups[c' - c + 1]);
      c' := c' + 1;
    }
  }

  /** The record of the group of a name. */
  ghost predicate IsGroup(reports: seq<Report>, diff: Diff, name: int) {
    && diff.tests != [] && diff.tests == Collect(reports, name, |reports|)
    && IsRecord(diff, false)
  }

  /** What is collected of a name after each report. */
  ghost predicate AreStages(reports: seq<Report>, name: int, stages: seq<seq<Entry>>) {
    && |stages| == |reports| + 1
    && forall i {:trigger Collect(reports, name, i)} :: 0 <= i <= |reports| ==> stages[i] == Collect(reports, name, i)
  }

  lemma StagesOf(reports: seq<Report>, name: int) returns (stages: seq<seq<Entry>>)
    ensures AreStages(reports, name, stages) && stages[0] == []
  {
    stages := seq(|reports| + 1, i requires 0 <= i <= |reports| => Collect(reports, name, i));
    assert Collect(reports, name, 0) == [];
  }

  /** The second pass, with the first `i` reports done. */
  ghost predicate Filling(reports: seq<Report>, cursors: seq<nat>, name: int, i: nat, stages: seq<seq<Entry>>,
                          buffer: array<Entry>, num: nat, min: real, max: real)
    requires InReports(reports, cursors) && i <= |reports| && |stages| == |reports| + 1
    reads buffer
  {
    && buffer.Length == RunTotal(reports, cursors, name, |reports|)
    && num <= RunTotal(reports, cursors, name, i)
    && Filled(buffer, false, num, min, max, stages[i])
  }

  /** The run at the cursor is the report's part of the group, and what is behind it is for later names. */
  ghost predicate HoldsPart(r: Report, c: nat, name: int) {
    && c <= |r| && Measured(r[c..c + RunLength(r, c, name)])
    && r[c..c + RunLength(r, c, name)] == Part(r, name) && Past(r, c + RunLength(r, c, name), name)
  }

  lemma RunHoldsPart(reports: seq<Report>, cursors: seq<nat>, i: nat, name: int, low: int)
    requires InReports(reports, cursors) && AllCurrent(reports, cursors, name, low) && i < |reports|
    ensures HoldsPart(reports[i], cursors[i], name)
  {
    assert AtName(reports[i], cursors[i], low, name);
    GroupRun(reports[i], cursors[i], low, name);
  }

  /** The run at the cursor leads from one stage to the next. */
  lemma GroupsOfRun(reports: seq<Report>, i: nat, name: int, run: seq<Entry>, stages: seq<seq<Entry>>)
    returns (groups: seq<seq<Entry>>)
    requires i < |reports| && AreStages(reports, name, stages) && run == Part(reports[i], name)
    ensures AreSteps(run, groups) && groups[0] == stages[i] && groups[|run|] == stages[i + 1]
  {
    groups := StepsOf(run, stages[i]);
    assert stages[i] == Collect(reports, name, i) && stages[i + 1] == Collect(reports, name, i + 1);
  }

  /** The second pass over report `i`. */
  method FillOneMore(reports: seq<Report>, i: nat, name: int, buffer: array<Entry>, num0: nat, min0: real, max0: real,
                     c: nat, ghost cursors: seq<nat>, ghost stages: seq<seq<Entry>>)
    returns (c': nat, num: nat, min: real, max: real)
    requires i < |reports| && InReports(reports, cursors) && c == cursors[i]
    requires HoldsPart(reports[i], c, name) && AreStages(reports, name, stages)
    requires Filling(reports, cursors, name, i, stages, buffer, num0, min0, max0)
    modifies buffer
    ensures c' <= |reports[i]| && Past(reports[i], c', name)
    ensures Filling(reports, cursors, name, i + 1, stages, buffer, num, min, max)
  {
    RunTotalGrows(reports, cursors, name, i + 1, |reports|);
    ghost var groups := GroupsOfRun(reports, i, name, reports[i][c..c + RunLength(reports[i], c, name)], stages);
    c', num, min, max := FillFrom(reports[i], c, name, buffer, num0, min0, max0, groups);
  }

  /** The second pass over report `i`, which moves its cursor behind the group. */
  method FillReport(reports: seq<Report>, tests: array<nat>, i: nat, name: int, buffer: array<Entry>,
                    num0: nat, min0: real, max0: real, ghost low: int, ghost cursors: seq<nat>, ghost stages: seq<seq<Entry>>)
    returns (num: nat, min: real, max: real)
    requires i < |reports| && InReports(reports, cursors) && MovedPast(reports, cursors, tests[..], name, i)
    requires AllCurrent(reports, cursors, name, low) && AreStages(reports, name, stages)
    requires Filling(reports, cursors, name, i, stages, buffer, num0, min0, max0)
    modifies tests, buffer
    ensures MovedPast(reports, cursors, tests[..], name, i + 1)
    ensures Filling(reports, cursors, name, i + 1, stages, buffer, num, min, max)
  {
    RunHoldsPart(reports, cursors, i, name, low);
    var c;
    c, num, min, max := FillOneMore(reports, i, name, buffer, num0, min0, max0, tests[i], cursors, stages);
    MoveCursor(reports, tests, i, c, cursors, name);
  }

  /** The second pass: all that the runs at the cursors add to the group. */
  method FillBuffer(reports: seq<Report>, tests: array<nat>, name: int, buffer: array<Entry>,
                    ghost low: int, ghost stages: seq<seq<Entry>>)
    returns (num: nat, min: real, max: real)
    requires InReports(reports, tests[..]) && buffer.Length == RunTotal(reports, tests[..], name, |reports|)
    requires AllCurrent(reports, tests[..], name, low) && AreStages(reports, name, stages) && stages[0] == []
    modifies tests, buffer
    ensures MovedPast(reports, old(tests[..]), tests[..], name, |reports|)
    ensures Filled(buffer, false, num, min, max, stages[|reports|])
  {
    num, min, max := 0, 0.0, 0.0;
    ghost var cursors := tests[..];
    var i := 0;
    while i < |reports|
      invariant i <= |reports| && MovedPast(reports, cursors, tests[..], name, i)
      invariant Filling(reports, cursors, name, i, stages, buffer, num, min, max)
    {
      num, min, max := FillReport(reports, tests, i, name, buffer, num, min, max, low, cursors, stages);
      i := i + 1;
    }
  }

  /** The record of the group of `name`. */
  method FillGroup(reports: seq<Report>, tests: array<nat>, name: int, numTests: nat, ghost low: int)
    returns (diff: Diff)
    requires InReports(reports, tests[..]) && numTests == RunTotal(reports, tests[..], name, |reports|)
    requires AllCurrent(reports, tests[..], name, low)
    requires LiveName(reports, name)
    modifies tests
    ensures MovedPast(reports, old(tests[..]), tests[..], name, |reports|)
    ensures IsGroup(reports, diff, name)
  {
    ghost var cursors := tests[..];
    var buffer := new Entry[numTests];
    ghost var stages := StagesOf(reports, name);
    var num, min, max := FillBuffer(reports, tests, name, buffer, low, stages);
    assert stages[|reports|] == Collect(reports, name, |reports|);
    assert forall i :: 0 <= i < |reports| ==> AtName(reports[i], cursors[i], low, name);
    CollectIsNotEmpty(reports, name);
    diff := FinishRecord(buffer, false, num, min, max, stages[|reports|]);
  }

  /** The group of the least current name, if any report still has an entry. */
  method NextGroup(reports: seq<Report>, tests: array<nat>, ghost names: seq<int>, ghost low: int)
    returns (found: bool, diff: Diff, ghost name: int)
    requires forall i :: 0 <= i < |reports| ==> Loaded(reports[i])
    requires AllPast(reports, tests[..], low) && NamesUpTo(reports, names, low)
    modifies tests
    ensures !found ==> IsLiveNames(reports, names)
    ensures found ==>
              && low < name && LiveName(reports, name) && NamesUpTo(reports, names + [name], name)
              && IsGroup(reports, diff, name) && AllPast(reports, tests[..], name)
  {
    var min;
    found, min := NextLeast(reports, tests, names, low);
    if !found {
      return false, Diff([], 0.0, 0.0, 0.0), low;
    }
    var numTests := CountTests(reports, tests, min);
    diff := FillGroup(reports, tests, min, numTests, low);
    return true, diff, min;
  }

  ghost predicate AreGroups(reports: seq<Report>, diffs: seq<Diff>, names: seq<int>) {
    |diffs| == |names| && forall k :: 0 <= k < |diffs| ==> IsGroup(reports, diffs[k], names[k])
  }

  // ----- Every entry with stats is recorded exactly once -----

  /** All that the records hold. */
  function Recorded(diffs: seq<Diff>): multiset<Entry> {
    if diffs == [] then multiset{} else Recorded(diffs[..|diffs| - 1]) + multiset(diffs[|diffs| - 1].tests)
  }

  /** The entries with stats that the records hold. */
  function RecordedLive(diffs: seq<Diff>): multiset<Entry> {
    if diffs == [] then multiset{} else RecordedLive(diffs[..|diffs| - 1]) + multiset(LiveOf(diffs[|diffs| - 1].tests))
  }

  lemma {:induction false} RecordedIsCollected(reports: seq<Report>, diffs: seq<Diff>, names: seq<int>)
    requires AreGroups(reports, diffs, names)
    ensures RecordedLive(diffs) == CollectedLive(reports, names, |reports|)
    decreases |diffs|
  {
    if diffs != [] {
      RecordedIsCollected(reports, diffs[..|diffs| - 1], names[..|names| - 1]);
    }
  }

  /** The records of all live names hold each entry with stats of each report exactly once. */
  lemma EveryLiveEntryIsRecordedOnce(reports: seq<Report>, diffs: seq<Diff>, names: seq<int>)
    requires forall i :: 0 <= i < |reports| ==> Loaded(reports[i])
    requires IsLiveNames(reports, names) && AreGroups(reports, diffs, names)
    ensures RecordedLive(diffs) == AllLive(reports, |reports|)
  {
    RecordedIsCollected(reports, diffs, names);
    CollectedIsAllLive(reports, names);
  }

  lemma SizesGrow(diffs: seq<Diff>)
    requires diffs != []
    ensures var front, last := diffs[..|diffs| - 1], diffs[|diffs| - 1].tests;
            && |Recorded(diffs)| == |Recorded(front)| + |last|
            && |RecordedLive(diffs)| == |RecordedLive(front)| + |LiveOf(last)|
  {
  }

  ghost predicate OnlyLive(diffs: seq<Diff>) {
    forall k :: 0 <= k < |diffs| ==> LiveOf(diffs[k].tests) == diffs[k].tests
  }

  lemma OnlyLiveStep(diffs: seq<Diff>)
    requires diffs != []
    ensures var last := diffs[|diffs| - 1].tests;
            && (OnlyLive(diffs) <==> OnlyLive(diffs[..|diffs| - 1]) && LiveOf(last) == last)
            && |LiveOf(last)| <= |last| && (|LiveOf(last)| == |last| <==> LiveOf(last) == last)
  {
    var front := diffs[..|diffs| - 1];
    LiveOfIsPart(diffs[|diffs| - 1].tests);
    assert forall k :: 0 <= k < |front| ==> front[k] == diffs[k];
  }

  /** All records hold only entries with stats just if they hold as many of these as entries. */
  lemma {:induction false} SameSizeIff(diffs: seq<Diff>)
    ensures |RecordedLive(diffs)| <= |Recorded(diffs)|
    ensures |RecordedLive(diffs)| == |Recorded(diffs)| <==> OnlyLive(diffs)
  {
    if diffs != [] {
      SameSizeIff(diffs[..|diffs| - 1]);
      SizesGrow(diffs);
      OnlyLiveStep(diffs);
    }
  }

  lemma {:induction false} SameIfLive(diffs: seq<Diff>)
    requires OnlyLive(diffs)
    ensures RecordedLive(diffs) == Recorded(diffs)
  {
    if diffs != [] {
      SameIfLive(diffs[..|diffs| - 1]);
    }
  }

  lemma RecordedIsLiveIff(diffs: seq<Diff>)
    ensures RecordedLive(diffs) == Recorded(diffs) <==> OnlyLive(diffs)
  {
    SameSizeIff(diffs);
    if OnlyLive(diffs) {
      SameIfLive(diffs);
    }
  }

  /**
   The records hold nothing else just if, in no report and under no name, a timed entry without stats
   comes behind one with stats.
   */
  lemma OnlyLiveIsRecordedIff(reports: seq<Report>, diffs: seq<Diff>, names: seq<int>)
    requires forall i :: 0 <= i < |reports| ==> Loaded(reports[i])
    requires IsLiveNames(reports, names) && AreGroups(reports, diffs, names)
    ensures Recorded(diffs) == AllLive(reports, |reports|)
       <==> forall i, k :: 0 <= i < |reports| && 0 <= k < |names| ==> OnlyLiveTimed(reports[i], names[k])
  {
    EveryLiveEntryIsRecordedOnce(reports, diffs, names);
    RecordedIsLiveIff(diffs);
    forall k | 0 <= k < |names|
      ensures LiveOf(diffs[k].tests) == diffs[k].tests
         <==> forall i :: 0 <= i < |reports| ==> OnlyLiveTimed(reports[i], names[k])
    {
      assert IsGroup(reports, diffs[k], names[k]);
      CollectIsLiveIff(reports, names[k], |reports|);
    }
  }

  // ----- The array of records -----

  function LongestReport(reports: seq<Report>): nat {
    if reports == [] then 0
    else
      var longest, last := LongestReport(reports[..|reports| - 1]), |reports[|reports| - 1]|;
      if last > longest then last else longest
  }

  /** The length of the array: that of the longest report. */
  method MaxDiffs(reports: seq<Report>) returns (maxDiffs: nat)
    ensures maxDiffs == LongestReport(reports)
  {
    maxDiffs := 0;
    for i := 0 to |reports|
      invariant maxDiffs == LongestReport(reports[..i])
    {
      assert reports[..i + 1][..i] == reports[..i];
      if |reports[i]| > maxDiffs {
        maxDiffs := |reports[i]|;
      }
    }
    assert reports[..|reports|] == reports;
  }

  lemma {:induction false} LongestIsLongest(reports: seq<Report>, i: nat)
    requires i < |reports|
    ensures |reports[i]| <= LongestReport(reports)
  {
    if i < |reports| - 1 {
      LongestIsLongest(reports[..|reports| - 1], i);
    }
  }

  ghost predicate HasAll(r: Report, names: seq<int>) {
    forall k :: 0 <= k < |names| ==> exists j :: 0 <= j < |r| && r[j].name == names[k]
  }

  lemma LaterName(r: Report, i: nat, j: nat)
    requires SortedByName(r) && i < |r| && j < |r|
    ensures r[i].name < r[j].name ==> i < j
  {
  }

  /** The place of a name in a report that has all names is not before the name's own place among them. */
  lemma {:induction false} PlaceOfName(r: Report, names: seq<int>, k: nat) returns (j: nat)
    requires SortedByName(r) && StrictlyIncreasing(names) && HasAll(r, names) && k < |names|
    ensures k <= j < |r| && r[j].name == names[k]
  {
    if k == 0 {
      j :| 0 <= j < |r| && r[j].name == names[k];
    } else {
      var before := PlaceOfName(r, names, k - 1);
      j :| 0 <= j < |r| && r[j].name == names[k];
      LaterName(r, before, j);
    }
  }

  /** The array is long enough if one of the reports has all the names. */
  lemma OneReportSuffices(reports: seq<Report>, names: seq<int>, i: nat)
    requires IsLiveNames(reports, names) && i < |reports| && SortedByName(reports[i]) && HasAll(reports[i], names)
    ensures |names| <= LongestReport(reports)
  {
    LongestIsLongest(reports, i);
    if names != [] {
      var j := PlaceOfName(reports[i], names, |names| - 1);
    }
  }

  /** Two reports of one test each, with different names, are two records for an array of one. */
  lemma TwoNamesDoNotFit(a: Entry, b: Entry)
    requires Live(a) && Live(b) && a.name < b.name
    ensures IsLiveNames([[a], [b]], [a.name, b.name]) && LongestReport([[a], [b]]) == 1
  {
    var reports := [[a], [b]];
    assert reports[..1] == [[a]] && [[a]][..0] == [];
    assert LongestReport([[a]]) == 1;
    assert Live(reports[0][0]) && Live(reports[1][0]);
    assert reports[0][0].name == a.name && reports[1][0].name == b.name;
    assert LiveName(reports, a.name) && LiveName(reports, b.name);
  }

  function Stored(numDiffs: nat, length: nat): nat {
    if numDiffs <= length then numDiffs else length
  }

  ghost predicate AreStored(reports: seq<Report>, diffs: array<Diff>, numDiffs: nat, names: seq<int>)
    reads diffs
  {
    numDiffs == |names| && AreGroups(reports, diffs[..Stored(numDiffs, diffs.Length)], names[..Stored(numDiffs, diffs.Length)])
  }

  /** Stores a record, if there is a place for it. */
  method StoreDiff(reports: seq<Report>, diffs: array<Diff>, numDiffs: nat, diff: Diff, ghost names: seq<int>, ghost name: int)
    returns (inside: bool)
    requires AreStored(reports, diffs, numDiffs, names) && IsGroup(reports, diff, name)
    modifies diffs
    ensures inside <==> numDiffs < diffs.Length
    ensures AreStored(reports, diffs, numDiffs + 1, names + [name])
  {
    inside := numDiffs < diffs.Length;
    ghost var before := diffs[..Stored(numDiffs, diffs.Length)];
    if inside {
      diffs[numDiffs] := diff;
      assert diffs[..numDiffs + 1] == before + [diff];
      assert (names + [name])[..numDiffs + 1] == names[..numDiffs] + [name];
    } else {
      assert (names + [name])[..diffs.Length] == names[..diffs.Length];
    }
  }

  /**
   Groups the entries of all reports by name: one record for each live name, in order, with all that
   the reports contribute to it and the true extremes of their times.  The records stay inside the array
   just if there are no more live names than the longest report has entries; then no entry with stats is
   lost or recorded twice.  (A record that is not inside is not stored here.)
   */
  method CompareReports(reports: seq<Report>) returns (diffs: array<Diff>, numDiffs: nat, inside: bool)
    requires forall i :: 0 <= i < |reports| ==> Loaded(reports[i])
    ensures diffs.Length == LongestReport(reports)
    ensures exists names :: IsLiveNames(reports, names) && AreStored(reports, diffs, numDiffs, names)
                         && (inside <==> |names| <= LongestReport(reports))
    ensures inside ==> numDiffs <= diffs.Length && RecordedLive(diffs[..numDiffs]) == AllLive(reports, |reports|)
  {
    var maxDiffs := MaxDiffs(reports);
    diffs, numDiffs, inside := new Diff[maxDiffs], 0, true;
    var tests := new nat[|reports|](_ => 0);
    ghost var low, high := StartWalk(reports);
    ghost var names := [];
    var found := true;
    while found
      invariant fresh(diffs) && fresh(tests) && NamesUpTo(reports, names, low)
      invariant found ==> AllPast(reports, tests[..], low)
      invariant AreStored(reports, diffs, numDiffs, names) && (inside <==> numDiffs <= diffs.Length)
      invariant !found ==> IsLiveNames(reports, names)
      decreases found, high - low
    {
      var diff;
      ghost var name;
      found, diff, name := NextGroup(reports, tests, names, low);
      if found {
        inside := StoreDiff(reports, diffs, numDiffs, diff, names, name);
        numDiffs, names, low := numDiffs + 1, names + [name], name;
      }
    }
    if inside {
      assert names[..numDiffs] == names;
      EveryLiveEntryIsRecordedOnce(reports, diffs[..numDiffs], names);
    }
  }
}
