/**
 The chart's two walks over the reports: one counts the columns and looks for the range of times, the
 other draws the columns.  Both have to see the same groups.
 */
module PerfChart {
  import opened PerfReports
  import opened PerfGroups
  import opened Wrappers

  // ----- The time of a run, in either walk -----

  /** The first walk's step: it compares ticks with milliseconds before it converts them. */
  function Ranged(time: Option<real>, e: Entry): Option<real>
    requires e.ticksPerMs > 0.0
  {
    if time == None || (e.ticks < time.value && Time(e, false) < time.value) then Some(Time(e, false)) else time
  }

  function RangeTime(s: seq<Entry>): Option<real>
    requires HavePace(s)
  {
    if s == [] then None else Ranged(RangeTime(s[..|s| - 1]), s[|s| - 1])
  }

  /** The second walk's step. */
  function Drawn(time: Option<real>, e: Entry): Option<real>
    requires e.ticksPerMs > 0.0
  {
    if e.ticks > 0.0 && (time == None || Time(e, false) < time.value) then Some(Time(e, false)) else time
  }

  function BarTime(s: seq<Entry>): Option<real>
    requires HavePace(s)
  {
    if s == [] then None else Drawn(BarTime(s[..|s| - 1]), s[|s| - 1])
  }

  /** The entries that the first walk converts: the first, and those with fewer ticks than the time so far. */
  function Converted(s: seq<Entry>): seq<Entry>
    requires HavePace(s)
  {
    if s == [] then []
    else
      var time := RangeTime(s[..|s| - 1]);
      Converted(s[..|s| - 1]) + if time == None || s[|s| - 1].ticks < time.value then [s[|s| - 1]] else []
  }

  ghost predicate IsLeastTime(s: seq<Entry>, time: real) {
    HavePace(s) && time in Times(s, false) && forall t :: t in Times(s, false) ==> time <= t
  }

  /** `time` is the least time of `s`, if it has any. */
  ghost predicate HasLeastTime(s: seq<Entry>, time: Option<real>) {
    if s == [] then time == None else time != None && IsLeastTime(s, time.value)
  }

  lemma OneMore(s: seq<Entry>, time: Option<real>, e: Entry)
    requires e.ticksPerMs > 0.0 && HasLeastTime(s, time)
    ensures HasLeastTime(s + [e], if time == None || Time(e, false) < time.value then Some(Time(e, false)) else time)
  {
    TimesGrow(if s == [] then [] else s, false, e);
  }

  lemma {:induction false} RangeTimeIsLeast(s: seq<Entry>)
    requires HavePace(s)
    ensures HasLeastTime(Converted(s), RangeTime(s)) && (s != [] ==> RangeTime(s) != None)
  {
    if s != [] {
      var front, e := s[..|s| - 1], s[|s| - 1];
      RangeTimeIsLeast(front);
      OneMore(Converted(front), RangeTime(front), e);
      assert Converted(front) + [] == Converted(front);
    }
  }

  lemma {:induction false} BarTimeIsLeast(s: seq<Entry>)
    requires HavePace(s)
    ensures HasLeastTime(Timed(s), BarTime(s))
  {
    if s != [] {
      var front, e := s[..|s| - 1], s[|s| - 1];
      BarTimeIsLeast(front);
      OneMore(Timed(front), BarTime(front), e);
      assert Timed(front) + [] == Timed(front);
    }
  }

  lemma {:induction false} TimedOfPositive(s: seq<Entry>)
    requires forall k :: 0 <= k < |s| ==> s[k].ticks > 0.0
    ensures Timed(s) == s
  {
    if s != [] {
      TimedOfPositive(s[..|s| - 1]);
    }
  }

  lemma {:induction false} ConvertedAreEntries(s: seq<Entry>, e: Entry)
    requires HavePace(s) && e in Converted(s)
    ensures e in s
  {
    if e != s[|s| - 1] {
      ConvertedAreEntries(s[..|s| - 1], e);
    }
  }

  /** The first walk's time is never below the one drawn. */
  lemma RangeTimeNotBelow(s: seq<Entry>, partTime: real, time: real)
    requires HavePace(s) && IsLeastTime(Converted(s), partTime) && IsLeastTime(s, time)
    ensures time <= partTime
  {
    var k := EntryOfTime(Converted(s), false, partTime);
    ConvertedAreEntries(s, Converted(s)[k]);
    var j :| 0 <= j < |s| && s[j] == Converted(s)[k];
    TimesAt(s, false, j);
  }

  /** The first walk converts the time of entry `k`: it is the first, or has fewer ticks than the time so far. */
  ghost predicate Picked(s: seq<Entry>, k: nat)
    requires HavePace(s) && k < |s|
  {
    RangeTime(s[..k]) == None || s[k].ticks < RangeTime(s[..k]).value
  }

  lemma PickedInFront(s: seq<Entry>, k: nat)
    requires HavePace(s) && k < |s| - 1
    ensures s[..|s| - 1][k] == s[k] && (Picked(s[..|s| - 1], k) <==> Picked(s, k))
  {
    assert s[..|s| - 1][..k] == s[..k];
  }

  lemma {:induction false} PickedIsConverted(s: seq<Entry>, k: nat)
    requires HavePace(s) && k < |s| && Picked(s, k)
    ensures s[k] in Converted(s)
  {
    if k < |s| - 1 {
      PickedInFront(s, k);
      PickedIsConverted(s[..|s| - 1], k);
    }
  }

  lemma {:induction false} ConvertedIsPicked(s: seq<Entry>, e: Entry) returns (k: nat)
    requires HavePace(s) && e in Converted(s)
    ensures k < |s| && s[k] == e && Picked(s, k)
  {
    var front := s[..|s| - 1];
    if e in Converted(front) {
      k := ConvertedIsPicked(front, e);
      PickedInFront(s, k);
    } else {
      k := |s| - 1;
    }
  }

  /** No entry of the run is faster than entry `k`. */
  ghost predicate Fastest(s: seq<Entry>, k: nat)
    requires HavePace(s) && k < |s|
  {
    forall j :: 0 <= j < |s| ==> Time(s[k], false) <= Time(s[j], false)
  }

  lemma FastestTime(s: seq<Entry>, k: nat, time: real)
    requires HavePace(s) && k < |s| && IsLeastTime(s, time)
    ensures Fastest(s, k) <==> Time(s[k], false) == time
  {
    var j := EntryOfTime(s, false, time);
    assert Fastest(s, k) ==> Time(s[k], false) <= Time(s[j], false);
    forall i: nat | i < |s| ensures time <= Time(s[i], false) {
      TimesAt(s, false, i);
    }
  }

  /** If the first walk finds the least time, then at an entry that it picks. */
  lemma LeastTimeIsPicked(s: seq<Entry>, time: real) returns (k: nat)
    requires HavePace(s) && IsLeastTime(Converted(s), time) && IsLeastTime(s, time)
    ensures k < |s| && Fastest(s, k) && Picked(s, k)
  {
    var c := Converted(s);
    var i := EntryOfTime(c, false, time);
    k := ConvertedIsPicked(s, c[i]);
    FastestTime(s, k, time);
  }

  lemma PickedFastestIsFound(s: seq<Entry>, partTime: real, time: real, k: nat)
    requires HavePace(s) && IsLeastTime(Converted(s), partTime) && IsLeastTime(s, time) && time <= partTime
    requires k < |s| && Fastest(s, k) && Picked(s, k)
    ensures partTime == time
  {
    PickedIsConverted(s, k);
    FastestTime(s, k, time);
    var i :| 0 <= i < |Converted(s)| && Converted(s)[i] == s[k];
    TimesAt(Converted(s), false, i);
  }

  ghost predicate TimedRun(s: seq<Entry>) {
    HavePace(s) && s != [] && forall k :: 0 <= k < |s| ==> s[k].ticks > 0.0
  }

  lemma WalkTimes(s: seq<Entry>)
    requires TimedRun(s)
    ensures RangeTime(s) != None && IsLeastTime(Converted(s), RangeTime(s).value)
    ensures BarTime(s) != None && IsLeastTime(s, BarTime(s).value) && BarTime(s).value <= RangeTime(s).value
  {
    RangeTimeIsLeast(s);
    BarTimeIsLeast(s);
    TimedOfPositive(s);
    RangeTimeNotBelow(s, RangeTime(s).value, BarTime(s).value);
  }

  /** Some fastest entry is the first one or has fewer ticks than the milliseconds found before it. */
  ghost predicate FastestIsPicked(s: seq<Entry>)
    requires HavePace(s)
  {
    exists k: nat :: k < |s| && Fastest(s, k)
                  && (k == 0 || (RangeTime(s[..k]) != None && s[k].ticks < RangeTime(s[..k]).value))
  }

  lemma TimedWalksAgreeIff(s: seq<Entry>)
    requires TimedRun(s)
    ensures RangeTime(s) == BarTime(s) <==> FastestIsPicked(s)
  {
    WalkTimes(s);
    forall k: nat | k < |s| ensures RangeTime(s[..k]) == None <==> k == 0 {
      RangeTimeIsLeast(s[..k]);
    }
    if RangeTime(s) == BarTime(s) {
      var k := LeastTimeIsPicked(s, RangeTime(s).value);
      assert Fastest(s, k) && Picked(s, k);
    }
    forall k: nat | k < |s| && Fastest(s, k) && Picked(s, k) ensures RangeTime(s) == BarTime(s) {
      PickedFastestIsFound(s, RangeTime(s).value, BarTime(s).value, k);
    }
  }

  lemma NoTicksNoTime(e: Entry)
    requires e.ticksPerMs > 0.0
    ensures e.ticks == 0.0 ==> Time(e, false) == 0.0
    ensures e.ticks >= 0.0 ==> Time(e, false) >= 0.0
    ensures e.ticks > 0.0 ==> Time(e, false) > 0.0
  {
    var t := Time(e, false);
    assert t * e.ticksPerMs == e.ticks;
  }

  /** The first walk takes a time of zero as soon as an entry has one. */
  lemma {:induction false} ZeroIsTaken(s: seq<Entry>)
    requires HavePace(s) && s != [] && forall j :: 0 <= j < |s| ==> s[j].ticks >= 0.0
    ensures RangeTime(s) != None && RangeTime(s).value >= 0.0
    ensures (exists j :: 0 <= j < |s| && s[j].ticks == 0.0) ==> RangeTime(s).value == 0.0
  {
    var front, e := s[..|s| - 1], s[|s| - 1];
    NoTicksNoTime(e);
    if front == [] {
      assert RangeTime(front) == None;
    } else {
      ZeroIsTaken(front);
      assert forall j :: 0 <= j < |front| ==> front[j] == s[j];
    }
  }

  lemma {:induction false} BarTimeIsPositive(s: seq<Entry>)
    requires HavePace(s)
    ensures BarTime(s) != None ==> BarTime(s).value > 0.0
  {
    if s != [] {
      BarTimeIsPositive(s[..|s| - 1]);
      NoTicksNoTime(s[|s| - 1]);
    }
  }

  /**
   The range is taken from the times that are drawn just when every entry of the run has a time, and some
   fastest one is the first or passes the first walk's test: fewer ticks than the milliseconds found
   before it.
   */
  lemma WalksAgreeOnTimeIff(s: seq<Entry>)
    requires HavePace(s) && s != [] && forall j :: 0 <= j < |s| ==> s[j].ticks >= 0.0
    ensures RangeTime(s) == BarTime(s) <==> (forall j :: 0 <= j < |s| ==> s[j].ticks > 0.0) && FastestIsPicked(s)
  {
    ZeroIsTaken(s);
    BarTimeIsPositive(s);
    if forall j :: 0 <= j < |s| ==> s[j].ticks > 0.0 {
      TimedWalksAgreeIff(s);
    } else {
      var j :| 0 <= j < |s| && s[j].ticks <= 0.0;
      assert s[j].ticks == 0.0;
    }
  }

  /** If every entry has a time, the first walk never takes less than is drawn. */
  lemma RangeCoversBar(s: seq<Entry>)
    requires TimedRun(s)
    ensures RangeTime(s) != None && BarTime(s) != None && 0.0 < BarTime(s).value <= RangeTime(s).value
  {
    WalkTimes(s);
    BarTimeIsPositive(s);
  }

  lemma RangeTimeOfFront(s: seq<Entry>, k: nat) returns (j: nat)
    requires HavePace(s) && 0 < k < |s|
    ensures j < k && RangeTime(s[..k]) == Some(Time(s[j], false)) && Time(s[j], false) <= Time(s[0], false)
  {
    var front := s[..k];
    RangeTimeIsLeast(front);
    var c := Converted(front);
    var i := EntryOfTime(c, false, RangeTime(front).value);
    ConvertedAreEntries(front, c[i]);
    j :| 0 <= j < |front| && front[j] == c[i];
    PickedIsConverted(front, 0);
    assert front[0] == s[0];
    var first :| 0 <= first < |c| && c[first] == front[0];
    TimesAt(c, false, first);
  }

  /** In terms of the run alone: enough is a fastest entry with fewer ticks than all milliseconds before it. */
  lemma WalksAgreeIfClearlyFastest(s: seq<Entry>, k: nat)
    requires TimedRun(s) && k < |s| && Fastest(s, k)
    requires forall j :: 0 <= j < k ==> s[k].ticks < Time(s[j], false)
    ensures RangeTime(s) == BarTime(s)
  {
    WalkTimes(s);
    if k > 0 {
      var j := RangeTimeOfFront(s, k);
    }
    PickedFastestIsFound(s, RangeTime(s).value, BarTime(s).value, k);
  }

  /** Needed is that all have a time, and a fastest one that is the first or has fewer ticks than that has milliseconds. */
  lemma WalksAgreeOnlyIfBelowFirst(s: seq<Entry>) returns (k: nat)
    requires HavePace(s) && s != [] && forall j :: 0 <= j < |s| ==> s[j].ticks >= 0.0
    requires RangeTime(s) == BarTime(s)
    ensures TimedRun(s) && k < |s| && Fastest(s, k) && (k == 0 || s[k].ticks < Time(s[0], false))
  {
    WalksAgreeOnTimeIff(s);
    WalkTimes(s);
    k := LeastTimeIsPicked(s, RangeTime(s).value);
    if k > 0 {
      var j := RangeTimeOfFront(s, k);
    }
  }

  lemma PaceOfPair(a: Entry, b: Entry)
    requires a.ticksPerMs > 0.0 && b.ticksPerMs > 0.0
    ensures HavePace([a, b]) && HavePace([a])
  {
  }

  lemma TimesOfPair(a: Entry, b: Entry)
    requires a.ticksPerMs > 0.0 && b.ticksPerMs > 0.0
    ensures HavePace([a, b]) && RangeTime([a, b]) == Ranged(Ranged(None, a), b)
    ensures BarTime([a, b]) == Drawn(Drawn(None, a), b)
  {
    PaceOfPair(a, b);
    assert [a, b][..1] == [a] && [a][..0] == [];
    assert RangeTime([a][..0]) == None && BarTime([a][..0]) == None;
    assert RangeTime([a]) == Ranged(None, a);
    assert BarTime([a]) == Drawn(None, a);
  }

  /** Two runs of 10 and 6 ticks at 2 ticks a millisecond: 5 is taken for the range, 3 is drawn. */
  lemma WalksDisagree()
    ensures var s := [Entry(0, 1, 10.0, 2.0), Entry(0, 1, 6.0, 2.0)];
            HavePace(s) && RangeTime(s) == Some(5.0) && BarTime(s) == Some(3.0)
  {
    TimesOfPair(Entry(0, 1, 10.0, 2.0), Entry(0, 1, 6.0, 2.0));
  }

  /** A condensed entry of no ticks behind a timed one: 0 is taken for the range, the time of the first is drawn. */
  lemma WalksDisagreeOnZero(a: Entry, b: Entry)
    requires Live(a) && !Live(b) && a.name == b.name && a.ticksPerMs > 0.0 && b.ticksPerMs > 0.0
    requires a.ticks > 0.0 && b.ticks == 0.0
    ensures Part([a, b], a.name) == [a, b] && HavePace([a, b]) && RangeTime([a, b]) == Some(0.0)
    ensures BarTime([a, b]) == Some(Time(a, false)) && Time(a, false) > 0.0
  {
    NamedPair(a, b);
    TimesOfPair(a, b);
    NoTicksNoTime(a);
    NoTicksNoTime(b);
  }

  // ----- The two walks -----

  ghost predicate Ready(reports: seq<Report>) {
    forall i :: 0 <= i < |reports| ==> Loaded(reports[i]) && HavePace(reports[i])
  }

  lemma PaceOfRun(r: Report, c: nat, e: nat)
    requires HavePace(r) && c < e <= |r|
    ensures HavePace(r[c..e]) && r[c..e][..e - 1 - c] == r[c..e - 1] && r[c..e][e - 1 - c] == r[e - 1]
  {
  }

  /** The first walk over the run at the cursor. */
  method MeasureRun(r: Report, c: nat, name: int) returns (c': nat, time: Option<real>)
    requires c <= |r| && HavePace(r)
    ensures c' == c + RunLength(r, c, name) && HavePace(r[c..c']) && time == RangeTime(r[c..c'])
  {
    c', time := c, None;
    while c' < |r| && r[c'].name == name
      invariant c <= c' <= |r| && RunLength(r, c, name) == c' - c + RunLength(r, c', name)
      invariant HavePace(r[c..c']) && time == RangeTime(r[c..c'])
    {
      PaceOfRun(r, c, c' + 1);
      var t := r[c'].ticks;
      if time == None || t < time.value {
        t := t / r[c'].ticksPerMs;
        if time == None || t < time.value {
          time := Some(t);
        }
      }
      c' := c' + 1;
    }
  }

  /** The second walk over the run at the cursor. */
  method DrawRun(r: Report, c: nat, name: int) returns (c': nat, time: Option<real>)
    requires c <= |r| && HavePace(r)
    ensures c' == c + RunLength(r, c, name) && HavePace(r[c..c']) && time == BarTime(r[c..c'])
  {
    c', time := c, None;
    while c' < |r| && r[c'].name == name
      invariant c <= c' <= |r| && RunLength(r, c, name) == c' - c + RunLength(r, c', name)
      invariant HavePace(r[c..c']) && time == BarTime(r[c..c'])
    {
      PaceOfRun(r, c, c' + 1);
      var t := r[c'].ticks;
      if t > 0.0 {
        t := t / r[c'].ticksPerMs;
        if time == None || t < time.value {
          time := Some(t);
        }
      }
      c' := c' + 1;
    }
  }

  lemma {:induction false} TimedHas(s: seq<Entry>, k: nat)
    requires k < |s| && s[k].ticks > 0.0
    ensures Timed(s) != []
  {
    if k < |s| - 1 {
      TimedHas(s[..|s| - 1], k);
    }
  }

  /** Each walk finds a time for a run just if the run has one. */
  lemma RunTimes(run: seq<Entry>)
    requires HavePace(run) && (run != [] ==> run[0].ticks > 0.0)
    ensures RangeTime(run) != None <==> Timed(run) != []
    ensures HasLeastTime(Timed(run), BarTime(run))
  {
    RangeTimeIsLeast(run);
    BarTimeIsLeast(run);
    if run != [] {
      TimedHas(run, 0);
    }
  }

  /** The run at the cursor is the report's part of the group, from a timed entry on. */
  ghost predicate HoldsPart(r: Report, c: nat, name: int) {
    && c <= |r| && HavePace(r)
    && r[c..c + RunLength(r, c, name)] == Part(r, name)
    && (RunLength(r, c, name) > 0 ==> r[c].ticks > 0.0)
  }

  lemma RunHoldsPart(reports: seq<Report>, cursors: seq<nat>, i: nat, name: int, low: int)
    requires Ready(reports) && InReports(reports, cursors) && AllCurrent(reports, cursors, name, low) && i < |reports|
    ensures HoldsPart(reports[i], cursors[i], name)
    ensures Past(reports[i], cursors[i] + RunLength(reports[i], cursors[i], name), name)
  {
    assert AtName(reports[i], cursors[i], low, name);
    GroupRun(reports[i], cursors[i], low, name);
  }

  ghost predicate IsRangeTime(r: Report, name: int, time: Option<real>) {
    HavePace(Part(r, name)) && time == RangeTime(Part(r, name))
  }

  /** The first walk through one report's part of a group. */
  method MeasureOne(r: Report, c: nat, name: int) returns (c': nat, time: Option<real>)
    requires HoldsPart(r, c, name)
    ensures c' == c + RunLength(r, c, name) && (time != None <==> Contribution(r, name) != [])
    ensures IsRangeTime(r, name, time)
  {
    c', time := MeasureRun(r, c, name);
    RunTimes(r[c..c']);
  }

  /** The second walk through one report's part of a group. */
  method DrawOne(r: Report, c: nat, name: int) returns (c': nat, time: Option<real>)
    requires HoldsPart(r, c, name)
    ensures c' == c + RunLength(r, c, name) && HasLeastTime(Contribution(r, name), time)
  {
    c', time := DrawRun(r, c, name);
    RunTimes(r[c..c']);
  }

  /** How many of the groups a report has a time for. */
  function CountBars(r: Report, names: seq<int>): nat {
    if names == [] then 0
    else CountBars(r, names[..|names| - 1]) + if Contribution(r, names[|names| - 1]) != [] then 1 else 0
  }

  ghost predicate Counted(reports: seq<Report>, names: seq<int>, count: seq<nat>, n: nat, name: int) {
    && |count| == |reports|
    && (forall i :: 0 <= i < n && i < |reports| ==> count[i] == CountBars(reports[i], names + [name]))
    && (forall i :: n <= i < |reports| ==> count[i] == CountBars(reports[i], names))
  }

  lemma CountedNext(reports: seq<Report>, names: seq<int>, count: seq<nat>, n: nat, name: int)
    requires n < |reports| && Counted(reports, names, count, n, name)
    ensures var one := if Contribution(reports[n], name) != [] then 1 else 0;
            Counted(reports, names, count[n := count[n] + one], n + 1, name)
  {
    assert (names + [name])[..|names|] == names;
  }

  // ----- The range of an absolute chart -----

  /** The range covers the time that the first walk takes for a report's part of a group. */
  ghost predicate InRange(r: Report, name: int, min: real, max: real) {
    forall time :: IsRangeTime(r, name, time) && time != None ==> min <= time.value <= max
  }

  ghost predicate Taken(reports: seq<Report>, time: real) {
    exists i, name :: 0 <= i < |reports| && IsRangeTime(reports[i], name, Some(time))
  }

  /** The range from 0 to all times of `names`, and to those of `name` in the first `n` reports. */
  ghost predicate Covers(reports: seq<Report>, names: seq<int>, n: nat, name: int, min: real, max: real) {
    && min <= 0.0 <= max && (min == 0.0 || Taken(reports, min)) && (max == 0.0 || Taken(reports, max))
    && (forall i, k {:trigger InRange(reports[i], names[k], min, max)} :: 0 <= i < |reports| && 0 <= k < |names| ==>
          InRange(reports[i], names[k], min, max))
    && (forall i {:trigger InRange(reports[i], name, min, max)} :: 0 <= i < n && i < |reports| ==>
          InRange(reports[i], name, min, max))
  }

  function WidenDown(min: real, time: Option<real>): real {
    if time != None && time.value < min then time.value else min
  }

  function WidenUp(max: real, time: Option<real>): real {
    if time != None && time.value > max then time.value else max
  }

  lemma Wider(r: Report, name: int, min: real, max: real, time: Option<real>)
    requires InRange(r, name, min, max)
    ensures InRange(r, name, WidenDown(min, time), WidenUp(max, time))
  {
  }

  lemma CoversNext(reports: seq<Report>, names: seq<int>, n: nat, name: int, min: real, max: real, time: Option<real>)
    requires n < |reports| && Covers(reports, names, n, name, min, max) && IsRangeTime(reports[n], name, time)
    ensures Covers(reports, names, n + 1, name, WidenDown(min, time), WidenUp(max, time))
  {
    var min', max' := WidenDown(min, time), WidenUp(max, time);
    forall i, k | 0 <= i < |reports| && 0 <= k < |names| ensures InRange(reports[i], names[k], min', max') {
      Wider(reports[i], names[k], min, max, time);
    }
    forall i | 0 <= i < n + 1 && i < |reports| ensures InRange(reports[i], name, min', max') {
      if i < n {
        Wider(reports[i], name, min, max, time);
      }
    }
  }

  lemma CoversGroup(reports: seq<Report>, names: seq<int>, name: int, min: real, max: real, name': int)
    requires Covers(reports, names, |reports|, name, min, max)
    ensures Covers(reports, names + [name], 0, name', min, max)
  {
    forall i, k | 0 <= i < |reports| && 0 <= k < |names + [name]| ensures InRange(reports[i], (names + [name])[k], min, max) {
      if k < |names| {
        assert InRange(reports[i], names[k], min, max);
      } else {
        assert InRange(reports[i], name, min, max);
      }
    }
  }

  // ----- The first walk -----

  method CountTime(reports: seq<Report>, count: array<nat>, i: nat, time: Option<real>, ghost names: seq<int>, ghost name: int)
    requires i < |reports| && Counted(reports, names, count[..], i, name)
    requires time != None <==> Contribution(reports[i], name) != []
    modifies count
    ensures Counted(reports, names, count[..], i + 1, name)
  {
    CountedNext(reports, names, count[..], i, name);
    ghost var counted := count[..];
    if time != None {
      count[i] := count[i] + 1;
    }
    assert count[..] == counted[i := count[i]];
  }

  /** Counts one report's time, if it has one, and widens the range of an absolute chart to it. */
  method MeasureReport(reports: seq<Report>, tests: array<nat>, count: array<nat>, i: nat, name: int, relative: bool,
                       min0: real, max0: real, ghost names: seq<int>, ghost low: int, ghost cursors: seq<nat>)
    returns (min: real, max: real)
    requires Ready(reports) && InReports(reports, cursors) && AllCurrent(reports, cursors, name, low)
    requires i < |reports| && MovedPast(reports, cursors, tests[..], name, i)
    requires tests != count && Counted(reports, names, count[..], i, name)
    requires !relative ==> Covers(reports, names, i, name, min0, max0)
    modifies tests, count
    ensures MovedPast(reports, cursors, tests[..], name, i + 1) && Counted(reports, names, count[..], i + 1, name)
    ensures !relative ==> Covers(reports, names, i + 1, name, min, max)
  {
    RunHoldsPart(reports, cursors, i, name, low);
    var c, time := MeasureOne(reports[i], tests[i], name);
    MoveCursor(reports, tests, i, c, cursors, name);
    CountTime(reports, count, i, time, names, name);
    min, max := min0, max0;
    if !relative {
      CoversNext(reports, names, i, name, min, max, time);
      min, max := WidenDown(min, time), WidenUp(max, time);
    }
  }

  /** Measures one group, and moves behind it. */
  method MeasureGroup(reports: seq<Report>, tests: array<nat>, count: array<nat>, name: int, relative: bool,
                      min0: real, max0: real, ghost names: seq<int>, ghost low: int)
    returns (min: real, max: real)
    requires Ready(reports) && InReports(reports, tests[..]) && AllCurrent(reports, tests[..], name, low)
    requires tests != count && Counted(reports, names, count[..], 0, name)
    requires !relative ==> Covers(reports, names, 0, name, min0, max0)
    modifies tests, count
    ensures MovedPast(reports, old(tests[..]), tests[..], name, |reports|)
    ensures Counted(reports, names, count[..], |reports|, name)
    ensures !relative ==> Covers(reports, names, |reports|, name, min, max)
  {
    min, max := min0, max0;
    ghost var cursors := tests[..];
    var i := 0;
    while i < |reports|
      invariant i <= |reports| && MovedPast(reports, cursors, tests[..], name, i)
      invariant Counted(reports, names, count[..], i, name)
      invariant !relative ==> Covers(reports, names, i, name, min, max)
    {
      min, max := MeasureReport(reports, tests, count, i, name, relative, min, max, names, low, cursors);
      i := i + 1;
    }
  }

  ghost predicate AllCounted(reports: seq<Report>, names: seq<int>, count: seq<nat>) {
    |count| == |reports| && forall i :: 0 <= i < |reports| ==> count[i] == CountBars(reports[i], names)
  }

  /** One round of the first walk. */
  method MeasureNext(reports: seq<Report>, tests: array<nat>, count: array<nat>, relative: bool,
                     min0: real, max0: real, ghost names: seq<int>, ghost low: int)
    returns (found: bool, min: real, max: real, ghost name: int)
    requires Ready(reports) && AllPast(reports, tests[..], low) && NamesUpTo(reports, names, low)
    requires tests != count && AllCounted(reports, names, count[..])
    requires !relative ==> Covers(reports, names, 0, 0, min0, max0)
    modifies tests, count
    ensures !found ==> IsLiveNames(reports, names) && AllCounted(reports, names, count[..]) && min == min0 && max == max0
    ensures found ==>
              && low < name && LiveName(reports, name) && NamesUpTo(reports, names + [name], name)
              && AllPast(reports, tests[..], name) && AllCounted(reports, names + [name], count[..])
              && (!relative ==> Covers(reports, names + [name], 0, 0, min, max))
  {
    var next;
    found, next := NextLeast(reports, tests, names, low);
    name := next;
    min, max := min0, max0;
    if found {
      min, max := MeasureGroup(reports, tests, count, next, relative, min, max, names, low);
      if !relative {
        CoversGroup(reports, names, name, min, max, 0);
      }
    }
  }

  /**
   The first walk: the number of columns, for each report the number of groups it has a time for, and the
   range of an absolute chart.
   */
  method FindRanges(reports: seq<Report>, relative: bool)
    returns (numTests: nat, count: array<nat>, min: real, max: real, ghost names: seq<int>)
    requires Ready(reports)
    ensures fresh(count) && count.Length == |reports|
    ensures IsLiveNames(reports, names) && numTests == |names| + if relative then 1 else 0
    ensures AllCounted(reports, names, count[..])
    ensures !relative ==> Covers(reports, names, 0, 0, min, max)
  {
    var tests := new nat[|reports|](_ => 0);
    count := new nat[|reports|](_ => 0);
    ghost var low, high := StartWalk(reports);
    names, numTests, min, max := [], 0, 0.0, 0.0;
    var found := true;
    while found
      invariant fresh(tests) && fresh(count) && tests != count && NamesUpTo(reports, names, low) && numTests == |names|
      invariant found ==> AllPast(reports, tests[..], low)
      invariant !found ==> IsLiveNames(reports, names)
      invariant AllCounted(reports, names, count[..])
      invariant !relative ==> Covers(reports, names, 0, 0, min, max)
      decreases found, high - low
    {
      ghost var name;
      found, min, max, name := MeasureNext(reports, tests, count, relative, min, max, names, low);
      if found {
        numTests, names, low := numTests + 1, names + [name], name;
      }
    }
    if relative {
      numTests := numTests + 1;
    }
  }

  /** A column: its label, and the time drawn for each report that has one. */
  datatype Column = Column(name: int, bars: seq<Option<real>>)

  /** The bar for a report's part of a group: its least time. */
  ghost predicate IsBar(r: Report, name: int, bar: Option<real>) {
    HasLeastTime(Contribution(r, name), bar)
  }

  ghost predicate IsColumn(reports: seq<Report>, column: Column, name: int, n: nat) {
    && column.name == name && |column.bars| == n <= |reports|
    && forall i {:trigger IsBar(reports[i], name, column.bars[i])} :: 0 <= i < n ==>
         IsBar(reports[i], name, column.bars[i])
  }

  lemma OneMoreBar(reports: seq<Report>, column: Column, name: int, n: nat, bar: Option<real>)
    requires n < |reports| && IsColumn(reports, column, name, n) && IsBar(reports[n], name, bar)
    ensures IsColumn(reports, column.(bars := column.bars + [bar]), name, n + 1)
  {
    var bars := column.bars + [bar];
    forall i | 0 <= i < n + 1 ensures IsBar(reports[i], name, bars[i]) {
      if i < n {
        assert IsBar(reports[i], name, column.bars[i]);
      }
    }
  }

  /** Draws one report's bar, if it has one, and moves its cursor behind the group. */
  method DrawReport(reports: seq<Report>, tests: array<nat>, i: nat, name: int, ghost low: int, ghost cursors: seq<nat>)
    returns (bar: Option<real>)
    requires Ready(reports) && InReports(reports, cursors) && AllCurrent(reports, cursors, name, low)
    requires i < |reports| && MovedPast(reports, cursors, tests[..], name, i)
    modifies tests
    ensures MovedPast(reports, cursors, tests[..], name, i + 1) && IsBar(reports[i], name, bar)
  {
    RunHoldsPart(reports, cursors, i, name, low);
    var c;
    c, bar := DrawOne(reports[i], tests[i], name);
    MoveCursor(reports, tests, i, c, cursors, name);
  }

  /** Draws one group, and moves behind it. */
  method DrawGroup(reports: seq<Report>, tests: array<nat>, name: int, ghost low: int) returns (column: Column)
    requires Ready(reports) && InReports(reports, tests[..]) && AllCurrent(reports, tests[..], name, low)
    modifies tests
    ensures MovedPast(reports, old(tests[..]), tests[..], name, |reports|)
    ensures IsColumn(reports, column, name, |reports|)
  {
    column := Column(name, []);
    ghost var cursors := tests[..];
    var i := 0;
    while i < |reports|
      invariant i <= |reports| && MovedPast(reports, cursors, tests[..], name, i)
      invariant IsColumn(reports, column, name, i)
    {
      var bar := DrawReport(reports, tests, i, name, low, cursors);
      OneMoreBar(reports, column, name, i, bar);
      column := column.(bars := column.bars + [bar]);
      i := i + 1;
    }
  }

  ghost predicate AreColumns(reports: seq<Report>, columns: seq<Column>, names: seq<int>) {
    |columns| == |names| && forall k :: 0 <= k < |columns| ==> IsColumn(reports, columns[k], names[k], |reports|)
  }

  lemma OneMoreColumn(reports: seq<Report>, columns: seq<Column>, names: seq<int>, column: Column, name: int)
    requires AreColumns(reports, columns, names) && IsColumn(reports, column, name, |reports|)
    ensures AreColumns(reports, columns + [column], names + [name])
  {
  }

  /** One round of the second walk. */
  method DrawNext(reports: seq<Report>, tests: array<nat>, ghost names: seq<int>, ghost low: int)
    returns (found: bool, column: Column)
    requires Ready(reports) && AllPast(reports, tests[..], low) && NamesUpTo(reports, names, low)
    modifies tests
    ensures !found ==> IsLiveNames(reports, names)
    ensures found ==>
              && low < column.name && LiveName(reports, column.name)
              && NamesUpTo(reports, names + [column.name], column.name)
              && AllPast(reports, tests[..], column.name) && IsColumn(reports, column, column.name, |reports|)
  {
    var name;
    found, name := NextLeast(reports, tests, names, low);
    column := Column(0, []);
    if found {
      column := DrawGroup(reports, tests, name, low);
    }
  }

  /** The second walk: the columns of all groups. */
  method DrawColumns(reports: seq<Report>) returns (columns: seq<Column>)
    requires Ready(reports)
    ensures exists names :: IsLiveNames(reports, names) && AreColumns(reports, columns, names)
  {
    var tests := new nat[|reports|](_ => 0);
    ghost var low, high := StartWalk(reports);
    ghost var names := [];
    columns := [];
    var found := true;
    while found
      invariant NamesUpTo(reports, names, low)
      invariant found ==> AllPast(reports, tests[..], low)
      invariant !found ==> IsLiveNames(reports, names)
      invariant AreColumns(reports, columns, names)
      decreases found, high - low
    {
      var column;
      found, column := DrawNext(reports, tests, names, low);
      if found {
        OneMoreColumn(reports, columns, names, column, column.name);
        columns, names, low := columns + [column], names + [column.name], column.name;
      }
    }
  }

  function BarsOf(columns: seq<Column>, i: nat): nat {
    if columns == [] then 0
    else
      var bars := columns[|columns| - 1].bars;
      BarsOf(columns[..|columns| - 1], i) + if i < |bars| && bars[i] != None then 1 else 0
  }

  lemma {:induction false} BarsAreCounted(reports: seq<Report>, columns: seq<Column>, names: seq<int>, i: nat)
    requires AreColumns(reports, columns, names) && i < |reports|
    ensures BarsOf(columns, i) == CountBars(reports[i], names)
  {
    if columns != [] {
      var last := |columns| - 1;
      assert IsColumn(reports, columns[last], names[last], |reports|);
      assert IsBar(reports[i], names[last], columns[last].bars[i]);
      BarsAreCounted(reports, columns[..|columns| - 1], names[..|names| - 1], i);
    }
  }

  lemma LeastTimeIsUnique(s: seq<Entry>, a: real, b: real)
    requires IsLeastTime(s, a) && IsLeastTime(s, b)
    ensures a == b
  {
  }

  /** A bar out of timed entries is in the range. */
  lemma BarIsInRange(r: Report, name: int, bar: Option<real>, min: real, max: real)
    requires HasLeastTime(Contribution(r, name), bar) && bar != None
    requires HavePace(Part(r, name)) && forall j :: 0 <= j < |Part(r, name)| ==> Part(r, name)[j].ticks > 0.0
    requires InRange(r, name, min, max) && min <= 0.0
    ensures min <= bar.value <= max
  {
    var part := Part(r, name);
    TimedOfPositive(part);
    RangeCoversBar(part);
    WalkTimes(part);
    LeastTimeIsUnique(part, bar.value, BarTime(part).value);
    assert IsRangeTime(r, name, RangeTime(part));
  }

  ghost predicate AllTimed(reports: seq<Report>) {
    forall i, j :: 0 <= i < |reports| && 0 <= j < |reports[i]| ==> reports[i][j].ticks > 0.0
  }

  lemma PartIsTimed(reports: seq<Report>, i: nat, name: int)
    requires Ready(reports) && AllTimed(reports) && i < |reports|
    ensures HavePace(Part(reports[i], name))
    ensures forall j :: 0 <= j < |Part(reports[i], name)| ==> Part(reports[i], name)[j].ticks > 0.0
  {
    var part := Part(reports[i], name);
    forall j | 0 <= j < |part| ensures part[j].ticksPerMs > 0.0 && part[j].ticks > 0.0 {
      DropDeadElements(Named(reports[i], name), part[j]);
      NamedElements(reports[i], name, part[j]);
    }
  }

  ghost predicate BarsInRange(columns: seq<Column>, min: real, max: real) {
    forall k, i :: 0 <= k < |columns| && 0 <= i < |columns[k].bars| && columns[k].bars[i] != None ==>
      min <= columns[k].bars[i].value <= max
  }

  /** If all entries have times, no bar of an absolute chart is outside of the range. */
  lemma ChartIsInRange(reports: seq<Report>, columns: seq<Column>, names: seq<int>, min: real, max: real)
    requires Ready(reports) && AllTimed(reports)
    requires AreColumns(reports, columns, names) && Covers(reports, names, 0, 0, min, max)
    ensures BarsInRange(columns, min, max)
  {
    forall k, i | 0 <= k < |columns| && 0 <= i < |columns[k].bars| && columns[k].bars[i] != None
      ensures min <= columns[k].bars[i].value <= max
    {
      assert IsColumn(reports, columns[k], names[k], |reports|);
      assert IsBar(reports[i], names[k], columns[k].bars[i]);
      PartIsTimed(reports, i, names[k]);
      assert InRange(reports[i], names[k], min, max);
      BarIsInRange(reports[i], names[k], columns[k].bars[i], min, max);
    }
  }

  /**
   The whole chart: room was made for exactly the columns that are drawn, plus one for the mean in a
   relative chart, and each report's average is over exactly the bars drawn for it.  In an absolute chart
   whose entries all have times, the bars are within the range.
   */
  method DrawChart(reports: seq<Report>, relative: bool)
    returns (numTests: nat, count: array<nat>, min: real, max: real, columns: seq<Column>)
    requires Ready(reports)
    ensures numTests == |columns| + if relative then 1 else 0
    ensures count.Length == |reports| && forall i :: 0 <= i < |reports| ==> count[i] == BarsOf(columns, i)
    ensures exists names :: IsLiveNames(reports, names) && AreColumns(reports, columns, names)
    ensures !relative && AllTimed(reports) ==> BarsInRange(columns, min, max)
  {
    ghost var names;
    numTests, count, min, max, names := FindRanges(reports, relative);
    columns := DrawColumns(reports);
    ghost var names' :| IsLiveNames(reports, names') && AreColumns(reports, columns, names');
    LiveNamesAreUnique(reports, names, names');
    forall i | 0 <= i < |reports| ensures count[i] == BarsOf(columns, i) {
      BarsAreCounted(reports, columns, names, i);
    }
    if !relative && AllTimed(reports) {
      ChartIsInRange(reports, columns, names, min, max);
    }
  }
}
