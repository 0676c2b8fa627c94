/** Grouping name-sorted reports: which entries make up the group of a name, seen from the cursors. */
module PerfGroups {
  import opened PerfReports

  function Named(r: Report, name: int): seq<Entry> {
    if r == [] then []
    else Named(r[..|r| - 1], name) + if r[|r| - 1].name == name then [r[|r| - 1]] else []
  }

  function LiveNamed(r: Report, name: int): seq<Entry> {
    if r == [] then []
    else LiveNamed(r[..|r| - 1], name) + if r[|r| - 1].name == name && Live(r[|r| - 1]) then [r[|r| - 1]] else []
  }

  function DropDead(s: seq<Entry>): seq<Entry> {
    if s == [] || Live(s[0]) then s else DropDead(s[1..])
  }

  /** The entries with a positive time. */
  function Timed(s: seq<Entry>): seq<Entry> {
    if s == [] then []
    else Timed(s[..|s| - 1]) + if s[|s| - 1].ticks > 0.0 then [s[|s| - 1]] else []
  }

  /** A report's entries of a name from the first live one onwards. */
  function Part(r: Report, name: int): seq<Entry> {
    DropDead(Named(r, name))
  }

  /** What a report adds to the group of a name: the timed ones of these. */
  function Contribution(r: Report, name: int): seq<Entry> {
    Timed(Part(r, name))
  }

  /** The group of a name over the first `n` reports. */
  function Collect(reports: seq<Report>, name: int, n: nat): seq<Entry>
    requires n <= |reports|
  {
    if n == 0 then [] else Collect(reports, name, n - 1) + Contribution(reports[n - 1], name)
  }

  // ----- Cursors -----

  /** The part of a report from `c` onwards. */
  function Rest(r: Report, c: nat, name: int): seq<Entry>
    requires c <= |r|
  {
    Part(r[c..], name)
  }

  /** Entries with names up to `low` are dealt with; `c` is the cursor into the rest. */
  ghost predicate Past(r: Report, c: nat, low: int) {
    && c <= |r|
    && (forall j {:trigger Live(r[j])} :: 0 <= j < c && Live(r[j]) ==> r[j].name <= low)
    && (forall j {:trigger r[j].name} :: c <= j < |r| ==> r[j].name > low)
    && (forall n {:trigger Rest(r, c, n)} :: n > low ==> Rest(r, c, n) == Part(r, n))
  }

  lemma PastNothing(r: Report, low: int)
    requires forall j :: 0 <= j < |r| ==> r[j].name > low
    ensures Past(r, 0, low)
  {
    assert r[0..] == r;
  }

  lemma {:induction false} NamedAppend(a: Report, b: Report, name: int)
    ensures Named(a + b, name) == Named(a, name) + Named(b, name)
    decreases |b|
  {
    if b == [] {
      assert a + b == a;
    } else {
      NamedAppend(a, b[..|b| - 1], name);
      assert (a + b)[..|a + b| - 1] == a + b[..|b| - 1];
    }
  }

  lemma {:induction false} NamedNone(r: Report, name: int)
    requires forall j :: 0 <= j < |r| ==> r[j].name != name
    ensures Named(r, name) == []
  {
    if r != [] {
      NamedNone(r[..|r| - 1], name);
    }
  }

  lemma {:induction false} NamedAll(r: Report, name: int)
    requires forall j :: 0 <= j < |r| ==> r[j].name == name
    ensures Named(r, name) == r
  {
    if r != [] {
      NamedAll(r[..|r| - 1], name);
    }
  }

  lemma PastDead(r: Report, c: nat, low: int)
    requires Past(r, c, low) && c < |r| && !Live(r[c])
    ensures Past(r, c + 1, low)
  {
    forall n | n > low ensures Rest(r, c + 1, n) == Part(r, n) {
      assert Rest(r, c, n) == Part(r, n);
      assert r[c..] == [r[c]] + r[c + 1..];
      NamedAppend([r[c]], r[c + 1..], n);
      var one := [r[c]];
      assert one[..0] == [];
      assert Named(one, n) == if r[c].name == n then one else [];
      if r[c].name == n {
        assert (one + Named(r[c + 1..], n))[1..] == Named(r[c + 1..], n);
      } else {
        assert [] + Named(r[c + 1..], n) == Named(r[c + 1..], n);
      }
    }
  }

  lemma {:induction false} PastAllDead(r: Report, c: nat, c': nat, low: int)
    requires Past(r, c, low) && c <= c' <= |r| && forall j :: c <= j < c' ==> !Live(r[j])
    ensures Past(r, c', low)
    decreases c' - c
  {
    if c < c' {
      PastDead(r, c, low);
      PastAllDead(r, c + 1, c', low);
    }
  }

  /** `e` is the end of the run of entries called `name` at `c`. */
  ghost predicate RunEnd(r: Report, c: nat, name: int, e: nat) {
    && c <= e <= |r|
    && (forall j :: c <= j < e ==> r[j].name == name)
    && (e < |r| ==> r[e].name != name)
  }

  lemma NamesBehindRun(r: Report, c: nat, name: int, e: nat)
    requires SortedByName(r) && RunEnd(r, c, name, e) && (c < |r| ==> r[c].name >= name)
    ensures forall j :: e <= j < |r| ==> r[j].name > name
  {
    if e < |r| {
      assert r[c].name <= r[e].name;
      forall j | e <= j < |r| ensures r[j].name > name {
        assert r[e].name <= r[j].name;
      }
    }
  }

  lemma NamedSplit(r: Report, c: nat, e: nat, n: int)
    requires c <= e <= |r|
    ensures Named(r[c..], n) == Named(r[c..e], n) + Named(r[e..], n)
  {
    assert r[c..] == r[c..e] + r[e..];
    NamedAppend(r[c..e], r[e..], n);
  }

  /** A run that starts live is all that a report adds to the group of its name. */
  lemma RunAlone(run: Report, more: Report, name: int)
    requires (forall j :: 0 <= j < |run| ==> run[j].name == name) && (forall j :: 0 <= j < |more| ==> more[j].name != name)
    requires run == [] || Live(run[0])
    ensures DropDead(Named(run + more, name)) == run
  {
    NamedAppend(run, more, name);
    NamedAll(run, name);
    NamedNone(more, name);
    assert run + [] == run;
  }

  lemma RunIsRest(r: Report, c: nat, name: int, e: nat)
    requires OnLive(r, c) && RunEnd(r, c, name, e) && forall j :: e <= j < |r| ==> r[j].name > name
    ensures Rest(r, c, name) == r[c..e]
  {
    assert r[c..] == r[c..e] + r[e..];
    RunAlone(r[c..e], r[e..], name);
  }

  /** Taking the run of the least name yields the report's part of the group. */
  lemma RunIsPart(r: Report, c: nat, low: int, name: int, e: nat)
    requires SortedByName(r) && Past(r, c, low) && OnLive(r, c) && name > low
    requires c < |r| ==> r[c].name >= name
    requires RunEnd(r, c, name, e)
    ensures r[c..e] == Part(r, name)
  {
    NamesBehindRun(r, c, name, e);
    RunIsRest(r, c, name, e);
  }

  lemma PastRun(r: Report, c: nat, low: int, name: int, e: nat)
    requires SortedByName(r) && Past(r, c, low) && name > low
    requires c < |r| ==> r[c].name >= name
    requires RunEnd(r, c, name, e)
    ensures Past(r, e, name)
  {
    NamesBehindRun(r, c, name, e);
    forall n | n > name ensures Rest(r, e, n) == Part(r, n) {
      assert Rest(r, c, n) == Part(r, n);
      NamedSplit(r, c, e, n);
      NamedNone(r[c..e], n);
      assert [] + Named(r[e..], n) == Named(r[e..], n);
    }
  }

  ghost predicate Between(r: Report, low: int, high: int) {
    forall j :: 0 <= j < |r| ==> low < r[j].name <= high
  }

  /** Bounds below and above all names. */
  lemma {:induction false} NameBounds(reports: seq<Report>) returns (low: int, high: int)
    ensures low <= high && forall i :: 0 <= i < |reports| ==> Between(reports[i], low, high)
    decreases |reports|
  {
    low, high := 0, 0;
    if reports != [] {
      var n := |reports| - 1;
      var l, h := NameBounds(reports[..n]);
      low, high := ReportBounds(reports[n], l, h);
      forall i | 0 <= i < |reports| ensures Between(reports[i], low, high) {
        if i < n {
          assert Between(reports[..n][i], l, h);
        }
      }
    }
  }

  lemma {:induction false} ReportBounds(r: Report, l: int, h: int) returns (low: int, high: int)
    requires l <= h
    ensures low <= l <= h <= high && Between(r, low, high)
    decreases |r|
  {
    low, high := l, h;
    if r != [] {
      var e := r[|r| - 1].name;
      low, high := ReportBounds(r[..|r| - 1], if e <= l then e - 1 else l, if e > h then e else h);
      assert forall j :: 0 <= j < |r| - 1 ==> r[j] == r[..|r| - 1][j];
    }
  }

  // ----- Every live entry is in exactly one group -----

  /** Nothing but live entries is timed from the first live entry of a name onwards. */
  ghost predicate OnlyLiveTimed(r: Report, name: int) {
    var s := Part(r, name);
    forall j :: 0 <= j < |s| && s[j].ticks > 0.0 ==> Live(s[j])
  }

  function LiveOf(s: seq<Entry>): seq<Entry> {
    if s == [] then []
    else LiveOf(s[..|s| - 1]) + if Live(s[|s| - 1]) then [s[|s| - 1]] else []
  }

  lemma {:induction false} LiveNamedIsLiveOfNamed(r: Report, name: int)
    ensures LiveNamed(r, name) == LiveOf(Named(r, name))
  {
    if r != [] {
      LiveNamedIsLiveOfNamed(r[..|r| - 1], name);
      var front, e := Named(r[..|r| - 1], name), r[|r| - 1];
      if e.name == name {
        assert (front + [e])[..|front|] == front;
      } else {
        assert front + [] == front;
      }
    }
  }

  lemma {:induction false} LiveOfDropDead(s: seq<Entry>)
    ensures LiveOf(DropDead(s)) == LiveOf(s)
  {
    if s != [] && !Live(s[0]) {
      LiveOfDropDead(s[1..]);
      LiveOfBehindDead(s);
    }
  }

  lemma {:induction false} LiveOfBehindDead(s: seq<Entry>)
    requires s != [] && !Live(s[0])
    ensures LiveOf(s) == LiveOf(s[1..])
  {
    if |s| > 1 {
      LiveOfBehindDead(s[..|s| - 1]);
      assert s[1..][..|s| - 2] == s[..|s| - 1][1..];
    }
  }

  lemma {:induction false} TimedIsLiveOf(s: seq<Entry>)
    requires forall j :: 0 <= j < |s| && Live(s[j]) ==> s[j].ticks > 0.0
    ensures |Timed(s)| >= |LiveOf(s)|
    ensures Timed(s) == LiveOf(s) <==> forall j :: 0 <= j < |s| && s[j].ticks > 0.0 ==> Live(s[j])
    ensures Timed(s) != LiveOf(s) ==> |Timed(s)| > |LiveOf(s)|
  {
    if s != [] {
      var front := s[..|s| - 1];
      TimedIsLiveOf(front);
      assert forall j :: 0 <= j < |front| ==> s[j] == front[j];
    }
  }

  lemma {:induction false} NamedElements(r: Report, name: int, e: Entry)
    requires e in Named(r, name)
    ensures e in r && e.name == name
  {
    if e !in Named(r[..|r| - 1], name) {
      assert e == r[|r| - 1];
    } else {
      NamedElements(r[..|r| - 1], name, e);
    }
  }

  lemma {:induction false} DropDeadElements(s: seq<Entry>, e: Entry)
    requires e in DropDead(s)
    ensures e in s
  {
    if s != [] && !Live(s[0]) {
      DropDeadElements(s[1..], e);
    }
  }

  /**
   A report adds exactly its live entries of a name to the group, unless an entry without stats that
   has a time of its own follows a live one.
   */
  lemma ContributionIsLiveIff(r: Report, name: int)
    requires Loaded(r)
    ensures Contribution(r, name) == LiveNamed(r, name) <==> OnlyLiveTimed(r, name)
  {
    var s := Part(r, name);
    LiveNamedIsLiveOfNamed(r, name);
    LiveOfDropDead(Named(r, name));
    forall j | 0 <= j < |s| && Live(s[j]) ensures s[j].ticks > 0.0 {
      assert s[j] in s;
      DropDeadElements(Named(r, name), s[j]);
      NamedElements(r, name, s[j]);
    }
    TimedIsLiveOf(s);
  }

  lemma TimedPair(a: Entry, b: Entry)
    requires a.ticks > 0.0 && b.ticks > 0.0
    ensures Timed([a, b]) == [a, b]
  {
    assert [a, b][..1] == [a] && [a][..0] == [];
    assert Timed([a]) == [a];
  }

  lemma NamedPair(a: Entry, b: Entry)
    requires Live(a) && !Live(b) && a.name == b.name
    ensures LiveNamed([a, b], a.name) == [a] && Named([a, b], a.name) == [a, b]
  {
    assert [a, b][..1] == [a] && [a][..0] == [];
    assert LiveNamed([a], a.name) == [a] && Named([a], a.name) == [a];
  }

  /** Two raw entries, the second condensed into the first: if both have a time, both are added. */
  lemma CondensedEntryIsAdded(a: Entry, b: Entry)
    requires Live(a) && !Live(b) && a.name == b.name && a.ticks > 0.0 && b.ticks > 0.0
    ensures LiveNamed([a, b], a.name) == [a] && Contribution([a, b], a.name) == [a, b]
  {
    NamedPair(a, b);
    TimedPair(a, b);
  }

  /** The entries with stats of a report, name by name. */
  function LiveByName(r: Report, names: seq<int>): multiset<Entry> {
    if names == [] then multiset{}
    else LiveByName(r, names[..|names| - 1]) + multiset(LiveNamed(r, names[|names| - 1]))
  }

  lemma LiveNamedStep(r: Report, name: int)
    requires r != []
    ensures var e := r[|r| - 1];
            multiset(LiveNamed(r, name))
              == multiset(LiveNamed(r[..|r| - 1], name)) + if e.name == name && Live(e) then multiset{e} else multiset{}
  {
  }

  lemma LastIsNew(names: seq<int>)
    requires names != [] && StrictlyIncreasing(names)
    ensures var front, last := names[..|names| - 1], names[|names| - 1];
            last !in front && forall n :: n in names <==> n in front || n == last
  {
    assert names == names[..|names| - 1] + [names[|names| - 1]];
  }

  lemma {:induction false} TotalStep(r: Report, names: seq<int>)
    requires r != [] && StrictlyIncreasing(names)
    ensures var e := r[|r| - 1];
            LiveByName(r, names)
              == LiveByName(r[..|r| - 1], names) + if Live(e) && e.name in names then multiset{e} else multiset{}
  {
    var e := r[|r| - 1];
    if names != [] {
      var front, last := names[..|names| - 1], names[|names| - 1];
      TotalStep(r, front);
      LastIsNew(names);
      LiveNamedStep(r, last);
    }
  }

  lemma {:induction false} TotalOfNothing(names: seq<int>)
    ensures LiveByName([], names) == multiset{}
  {
    if names != [] {
      TotalOfNothing(names[..|names| - 1]);
    }
  }

  /** Under distinct names that include all of its own, a report's entries with stats come up once each. */
  lemma {:induction false} LiveByNameIsAll(r: Report, names: seq<int>)
    requires StrictlyIncreasing(names)
    requires forall j :: 0 <= j < |r| && Live(r[j]) ==> r[j].name in names
    ensures LiveByName(r, names) == multiset(LiveOf(r))
  {
    if r == [] {
      TotalOfNothing(names);
    } else {
      var front := r[..|r| - 1];
      assert forall j :: 0 <= j < |front| ==> front[j] == r[j];
      LiveByNameIsAll(front, names);
      TotalStep(r, names);
    }
  }

  lemma {:induction false} LiveOfAppend(a: seq<Entry>, b: seq<Entry>)
    ensures LiveOf(a + b) == LiveOf(a) + LiveOf(b)
    decreases |b|
  {
    if b == [] {
      assert a + b == a;
    } else {
      LiveOfAppend(a, b[..|b| - 1]);
      assert (a + b)[..|a + b| - 1] == a + b[..|b| - 1];
    }
  }

  lemma {:induction false} LiveOfTimed(s: seq<Entry>)
    requires forall j :: 0 <= j < |s| && Live(s[j]) ==> s[j].ticks > 0.0
    ensures LiveOf(Timed(s)) == LiveOf(s)
  {
    if s != [] {
      var front, e := s[..|s| - 1], s[|s| - 1];
      LiveOfTimed(front);
      var last := if e.ticks > 0.0 then [e] else [];
      assert [e][..0] == [] && LiveOf([e]) == if Live(e) then [e] else [];
      LiveOfAppend(Timed(front), last);
    }
  }

  /** Whatever else a report adds to a group, its entries with stats of that name are added, each once, in order. */
  lemma ContributionKeepsLive(r: Report, name: int)
    requires Loaded(r)
    ensures LiveOf(Contribution(r, name)) == LiveNamed(r, name)
  {
    var s := Part(r, name);
    LiveNamedIsLiveOfNamed(r, name);
    LiveOfDropDead(Named(r, name));
    forall j | 0 <= j < |s| && Live(s[j]) ensures s[j].ticks > 0.0 {
      DropDeadElements(Named(r, name), s[j]);
      NamedElements(r, name, s[j]);
    }
    LiveOfTimed(s);
  }

  /** The entries with stats in the groups of all names, over the first `n` reports. */
  function CollectedLive(reports: seq<Report>, names: seq<int>, n: nat): multiset<Entry>
    requires n <= |reports|
  {
    if names == [] then multiset{}
    else
      CollectedLive(reports, names[..|names| - 1], n) + multiset(LiveOf(Collect(reports, names[|names| - 1], n)))
  }

  /** The entries with stats of the first `n` reports. */
  function AllLive(reports: seq<Report>, n: nat): multiset<Entry>
    requires n <= |reports|
  {
    if n == 0 then multiset{} else AllLive(reports, n - 1) + multiset(LiveOf(reports[n - 1]))
  }

  lemma CollectOneMore(reports: seq<Report>, name: int, n: nat)
    requires n < |reports| && Loaded(reports[n])
    ensures multiset(LiveOf(Collect(reports, name, n + 1)))
         == multiset(LiveOf(Collect(reports, name, n))) + multiset(LiveNamed(reports[n], name))
  {
    ContributionKeepsLive(reports[n], name);
    LiveOfAppend(Collect(reports, name, n), Contribution(reports[n], name));
  }

  lemma {:induction false} CollectedOneMore(reports: seq<Report>, names: seq<int>, n: nat)
    requires n < |reports| && Loaded(reports[n])
    ensures CollectedLive(reports, names, n + 1) == CollectedLive(reports, names, n) + LiveByName(reports[n], names)
    decreases |names|
  {
    if names != [] {
      CollectedOneMore(reports, names[..|names| - 1], n);
      CollectOneMore(reports, names[|names| - 1], n);
    }
  }

  lemma {:induction false} NothingCollected(reports: seq<Report>, names: seq<int>)
    ensures CollectedLive(reports, names, 0) == multiset{}
  {
    if names != [] {
      NothingCollected(reports, names[..|names| - 1]);
    }
  }

  lemma LiveByLiveNames(reports: seq<Report>, names: seq<int>, i: nat)
    requires IsLiveNames(reports, names) && i < |reports|
    ensures LiveByName(reports[i], names) == multiset(LiveOf(reports[i]))
  {
    assert forall j :: 0 <= j < |reports[i]| && Live(reports[i][j]) ==> LiveName(reports, reports[i][j].name);
    LiveByNameIsAll(reports[i], names);
  }

  lemma {:induction false} CollectedAddsUp(reports: seq<Report>, names: seq<int>, n: nat)
    requires n <= |reports| && CollectedLive(reports, names, 0) == multiset{}
    requires forall k {:trigger CollectedLive(reports, names, k)} :: 0 <= k < n ==>
               CollectedLive(reports, names, k + 1) == CollectedLive(reports, names, k) + multiset(LiveOf(reports[k]))
    ensures CollectedLive(reports, names, n) == AllLive(reports, n)
  {
    if n > 0 {
      CollectedAddsUp(reports, names, n - 1);
      assert CollectedLive(reports, names, n)
        == CollectedLive(reports, names, n - 1) + multiset(LiveOf(reports[n - 1]));
    }
  }

  /** The groups of all live names hold every entry with stats of every report, each exactly once. */
  lemma CollectedIsAllLive(reports: seq<Report>, names: seq<int>)
    requires IsLiveNames(reports, names) && forall i :: 0 <= i < |reports| ==> Loaded(reports[i])
    ensures CollectedLive(reports, names, |reports|) == AllLive(reports, |reports|)
  {
    NothingCollected(reports, names);
    forall k {:trigger CollectedLive(reports, names, k)} | 0 <= k < |reports|
      ensures CollectedLive(reports, names, k + 1) == CollectedLive(reports, names, k) + multiset(LiveOf(reports[k]))
    {
      CollectedOneMore(reports, names, k);
      LiveByLiveNames(reports, names, k);
    }
    CollectedAddsUp(reports, names, |reports|);
  }

  /** A group holds nothing but entries with stats just if every report's part of it does. */
  lemma {:induction false} CollectIsLiveIff(reports: seq<Report>, name: int, n: nat)
    requires n <= |reports| && forall i :: 0 <= i < |reports| ==> Loaded(reports[i])
    ensures LiveOf(Collect(reports, name, n)) == Collect(reports, name, n)
       <==> forall i :: 0 <= i < n ==> OnlyLiveTimed(reports[i], name)
  {
    if n > 0 {
      CollectIsLiveIff(reports, name, n - 1);
      ContributionKeepsLive(reports[n - 1], name);
      ContributionIsLiveIff(reports[n - 1], name);
      AppendIsLiveIff(Collect(reports, name, n - 1), Contribution(reports[n - 1], name));
    }
  }

  lemma AppendIsLiveIff(a: seq<Entry>, b: seq<Entry>)
    ensures LiveOf(a + b) == a + b <==> LiveOf(a) == a && LiveOf(b) == b
  {
    LiveOfAppend(a, b);
    LiveOfIsPart(a);
    LiveOfIsPart(b);
  }

  lemma {:induction false} LiveOfLength(s: seq<Entry>)
    ensures |LiveOf(s)| <= |s|
  {
    if s != [] {
      LiveOfLength(s[..|s| - 1]);
    }
  }

  lemma FrontAndLast(s: seq<Entry>)
    requires s != []
    ensures s == s[..|s| - 1] + [s[|s| - 1]]
    ensures forall e :: e in s[..|s| - 1] ==> e in s
  {
  }

  lemma {:induction false} LiveOfAllLive(s: seq<Entry>)
    requires forall e :: e in s ==> Live(e)
    ensures LiveOf(s) == s
  {
    if s != [] {
      FrontAndLast(s);
      LiveOfAllLive(s[..|s| - 1]);
      assert Live(s[|s| - 1]);
    }
  }

  lemma {:induction false} AllLiveIfFull(s: seq<Entry>, e: Entry)
    requires |LiveOf(s)| == |s| && e in s
    ensures Live(e)
  {
    var front := s[..|s| - 1];
    LiveOfLength(front);
    if e != s[|s| - 1] {
      AllLiveIfFull(front, e);
    }
  }

  lemma LiveOfIsPart(s: seq<Entry>)
    ensures |LiveOf(s)| <= |s|
    ensures |LiveOf(s)| == |s| <==> LiveOf(s) == s
    ensures LiveOf(s) == s <==> forall e :: e in s ==> Live(e)
  {
    LiveOfLength(s);
    if |LiveOf(s)| == |s| {
      forall e | e in s ensures Live(e) {
        AllLiveIfFull(s, e);
      }
    }
    if forall e :: e in s ==> Live(e) {
      LiveOfAllLive(s);
    }
  }

  // ----- Groups are not empty and not mixed -----

  lemma {:induction false} LiveNamedHas(r: Report, name: int, j: nat)
    requires j < |r| && Live(r[j]) && r[j].name == name
    ensures LiveNamed(r, name) != []
  {
    if j < |r| - 1 {
      LiveNamedHas(r[..|r| - 1], name, j);
    }
  }

  lemma ContributionHas(r: Report, name: int, j: nat)
    requires Loaded(r) && j < |r| && Live(r[j]) && r[j].name == name
    ensures Contribution(r, name) != []
  {
    var s := Part(r, name);
    LiveNamedHas(r, name, j);
    LiveNamedIsLiveOfNamed(r, name);
    LiveOfDropDead(Named(r, name));
    forall k | 0 <= k < |s| && Live(s[k]) ensures s[k].ticks > 0.0 {
      DropDeadElements(Named(r, name), s[k]);
      NamedElements(r, name, s[k]);
    }
    TimedIsLiveOf(s);
  }

  lemma {:induction false} CollectHas(reports: seq<Report>, name: int, n: nat, i: nat)
    requires i < n <= |reports| && Contribution(reports[i], name) != []
    ensures Collect(reports, name, n) != []
  {
    if i < n - 1 {
      CollectHas(reports, name, n - 1, i);
    }
  }

  lemma CollectIsNotEmpty(reports: seq<Report>, name: int)
    requires LiveName(reports, name) && forall i :: 0 <= i < |reports| ==> Loaded(reports[i])
    ensures Collect(reports, name, |reports|) != []
  {
    var i, j :| 0 <= i < |reports| && 0 <= j < |reports[i]| && Live(reports[i][j]) && reports[i][j].name == name;
    ContributionHas(reports[i], name, j);
    CollectHas(reports, name, |reports|, i);
  }

  lemma {:induction false} TimedElements(s: seq<Entry>, e: Entry)
    requires e in Timed(s)
    ensures e in s
  {
    var front := s[..|s| - 1];
    if e in Timed(front) {
      TimedElements(front, e);
    }
  }

  /** A group holds entries of its name only. */
  lemma {:induction false} CollectElements(reports: seq<Report>, name: int, n: nat, e: Entry)
    requires n <= |reports| && e in Collect(reports, name, n)
    ensures e.name == name && exists i :: 0 <= i < n && e in reports[i]
  {
    if e in Collect(reports, name, n - 1) {
      CollectElements(reports, name, n - 1, e);
    } else {
      TimedElements(Part(reports[n - 1], name), e);
      DropDeadElements(Named(reports[n - 1], name), e);
      NamedElements(reports[n - 1], name, e);
    }
  }

  // ----- Walking through all groups -----

  /** The length of the run of `name` at `c`. */
  function RunLength(r: Report, c: nat, name: int): (n: nat)
    requires c <= |r|
    ensures c + n <= |r|
    decreases |r| - c
  {
    if c < |r| && r[c].name == name then 1 + RunLength(r, c + 1, name) else 0
  }

  lemma {:induction false} RunLengthEndsRun(r: Report, c: nat, name: int)
    requires c <= |r|
    ensures RunEnd(r, c, name, c + RunLength(r, c, name))
    decreases |r| - c
  {
    if c < |r| && r[c].name == name {
      RunLengthEndsRun(r, c + 1, name);
    }
  }

  /** Names up to `low` are done, and the cursor is on a live entry called `name` or later, or at the end. */
  ghost predicate AtName(r: Report, c: nat, low: int, name: int) {
    && Loaded(r) && Past(r, c, low) && OnLive(r, c) && low < name
    && (c < |r| ==> r[c].name >= name)
  }

  ghost predicate AllCurrent(reports: seq<Report>, cursors: seq<nat>, name: int, low: int)
    requires InReports(reports, cursors)
  {
    forall i {:trigger AtName(reports[i], cursors[i], low, name)} :: 0 <= i < |reports| ==>
      AtName(reports[i], cursors[i], low, name)
  }

  lemma RunTaken(r: Report, c: nat, low: int, name: int, e: nat)
    requires AtName(r, c, low, name)
    requires RunEnd(r, c, name, e)
    ensures r[c..e] == Part(r, name) && Past(r, e, name)
  {
    RunIsPart(r, c, low, name, e);
    PastRun(r, c, low, name, e);
  }

  /** The run at the cursor is the report's part of the group. */
  lemma GroupRun(r: Report, c: nat, low: int, name: int)
    requires AtName(r, c, low, name)
    ensures c + RunLength(r, c, name) <= |r|
    ensures r[c..c + RunLength(r, c, name)] == Part(r, name)
    ensures Past(r, c + RunLength(r, c, name), name)
  {
    RunLengthEndsRun(r, c, name);
    RunTaken(r, c, low, name, c + RunLength(r, c, name));
  }

  /** The first `n` cursors are past `name`, the others have not moved. */
  ghost predicate MovedPast(reports: seq<Report>, cursors: seq<nat>, cursors': seq<nat>, name: int, n: nat) {
    && InReports(reports, cursors')
    && |cursors| == |reports|
    && (forall k {:trigger Past(reports[k], cursors'[k], name)} :: 0 <= k < n && k < |reports| ==>
          Past(reports[k], cursors'[k], name))
    && (forall k :: n <= k < |reports| ==> cursors'[k] == cursors[k])
  }

  method MoveCursor(reports: seq<Report>, tests: array<nat>, i: nat, c: nat, ghost cursors: seq<nat>, ghost name: int)
    requires i < |reports| && MovedPast(reports, cursors, tests[..], name, i)
    requires c <= |reports[i]| && Past(reports[i], c, name)
    modifies tests
    ensures MovedPast(reports, cursors, tests[..], name, i + 1)
  {
    tests[i] := c;
  }

  ghost predicate NamesUpTo(reports: seq<Report>, names: seq<int>, low: int) {
    && StrictlyIncreasing(names)
    && forall n :: n in names <==> n <= low && LiveName(reports, n)
  }

  /** The least current name is the next live one. */
  lemma NextName(reports: seq<Report>, cursors: seq<nat>, names: seq<int>, low: int, m: nat)
    requires forall i :: 0 <= i < |reports| ==> SortedByName(reports[i])
    requires InReports(reports, cursors) && IsLeast(reports, cursors, m)
    requires forall i :: 0 <= i < |reports| ==> Past(reports[i], cursors[i], low) && OnLive(reports[i], cursors[i])
    requires NamesUpTo(reports, names, low)
    ensures var name := reports[m][cursors[m]].name;
            name > low && LiveName(reports, name) && NamesUpTo(reports, names + [name], name)
  {
    var name := reports[m][cursors[m]].name;
    assert Live(reports[m][cursors[m]]);
    assert name > low;
    forall n | low < n <= name && LiveName(reports, n) ensures n == name {
      var i, j :| 0 <= i < |reports| && 0 <= j < |reports[i]| && Live(reports[i][j]) && reports[i][j].name == n;
      assert cursors[i] <= j;
      assert reports[i][cursors[i]].name <= n;
    }
    assert forall k :: 0 <= k < |names| ==> names[k] in names;
  }

  lemma SkippedIsPast(reports: seq<Report>, cursors: seq<nat>, cursors': seq<nat>, low: int)
    requires InReports(reports, cursors) && InReports(reports, cursors')
    requires forall i :: 0 <= i < |reports| ==> Past(reports[i], cursors[i], low)
    requires forall i :: 0 <= i < |reports| ==> SkippedTo(reports[i], cursors[i], cursors'[i])
    ensures forall i :: 0 <= i < |reports| ==> Past(reports[i], cursors'[i], low) && OnLive(reports[i], cursors'[i])
  {
    forall i | 0 <= i < |reports| ensures Past(reports[i], cursors'[i], low) {
      PastAllDead(reports[i], cursors[i], cursors'[i], low);
    }
  }

  lemma StartBelow(reports: seq<Report>, low: int, high: int)
    requires forall i :: 0 <= i < |reports| ==> Between(reports[i], low, high)
    ensures NamesUpTo(reports, [], low)
    ensures forall i :: 0 <= i < |reports| ==> Past(reports[i], 0, low)
  {
    forall i | 0 <= i < |reports| ensures Past(reports[i], 0, low) {
      PastNothing(reports[i], low);
    }
    forall n | LiveName(reports, n) ensures n > low {
      var i, j :| 0 <= i < |reports| && 0 <= j < |reports[i]| && Live(reports[i][j]) && reports[i][j].name == n;
      assert Between(reports[i], low, high);
    }
  }

  lemma LiveNameIsBounded(reports: seq<Report>, low: int, high: int, name: int)
    requires forall i :: 0 <= i < |reports| ==> Between(reports[i], low, high)
    requires LiveName(reports, name)
    ensures low < name <= high
  {
    var i, j :| 0 <= i < |reports| && 0 <= j < |reports[i]| && Live(reports[i][j]) && reports[i][j].name == name;
    assert Between(reports[i], low, high);
  }

  lemma AllDone(reports: seq<Report>, cursors: seq<nat>, names: seq<int>, low: int)
    requires InReports(reports, cursors) && CountOpen(reports, cursors) == 0
    requires forall i :: 0 <= i < |reports| ==> Past(reports[i], cursors[i], low)
    requires NamesUpTo(reports, names, low)
    ensures IsLiveNames(reports, names)
  {
    NoneOpen(reports, cursors);
    forall n | LiveName(reports, n) ensures n <= low {
      var i, j :| 0 <= i < |reports| && 0 <= j < |reports[i]| && Live(reports[i][j]) && reports[i][j].name == n;
    }
  }

  /** In all reports, names up to `low` are done. */
  ghost predicate AllPast(reports: seq<Report>, cursors: seq<nat>, low: int) {
    && InReports(reports, cursors)
    && forall i {:trigger Past(reports[i], cursors[i], low)} :: 0 <= i < |reports| ==> Past(reports[i], cursors[i], low)
  }

  lemma StartWalk(reports: seq<Report>) returns (low: int, high: int)
    ensures NamesUpTo(reports, [], low) && forall name :: LiveName(reports, name) ==> low < name <= high
    ensures forall cursors: seq<nat> ::
              |cursors| == |reports| && (forall i :: 0 <= i < |cursors| ==> cursors[i] == 0) ==> AllPast(reports, cursors, low)
  {
    low, high := NameBounds(reports);
    StartBelow(reports, low, high);
    forall name | LiveName(reports, name) ensures low < name <= high {
      LiveNameIsBounded(reports, low, high, name);
    }
  }

  /** The next name in order that some report has stats for, and all cursors on it or behind it. */
  method NextLeast(reports: seq<Report>, tests: array<nat>, ghost names: seq<int>, ghost low: int)
    returns (found: bool, name: int)
    requires forall i :: 0 <= i < |reports| ==> Loaded(reports[i])
    requires AllPast(reports, tests[..], low) && NamesUpTo(reports, names, low)
    modifies tests
    ensures InReports(reports, tests[..])
    ensures !found ==> IsLiveNames(reports, names)
    ensures found ==>
              && low < name && LiveName(reports, name) && NamesUpTo(reports, names + [name], name)
              && AllCurrent(reports, tests[..], name, low)
  {
    ghost var cursors := tests[..];
    assert forall i :: 0 <= i < |reports| ==> Past(reports[i], cursors[i], low);
    var seen := SkipDead(reports, tests);
    SkippedIsPast(reports, cursors, tests[..], low);
    NoneOpen(reports, tests[..]);
    if seen == 0 {
      AllDone(reports, tests[..], names, low);
      return false, 0;
    }
    var m := FindMin(reports, tests);
    NextName(reports, tests[..], names, low, m);
    return true, reports[m][tests[m]].name;
  }
}
