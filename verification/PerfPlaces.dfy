/** Which entries make up a group, by their places: all that come at or behind an entry with stats and have a time. */
module PerfPlaces {
  import opened PerfReports
  import opened PerfGroups

  /** An entry with stats of this name is among the first `n`. */
  ghost predicate Begun(r: Report, name: int, n: nat)
    requires n <= |r|
  {
    exists j :: 0 <= j < n && r[j].name == name && Live(r[j])
  }

  /** The report adds entry `j` to the group of the name. */
  ghost predicate Adds(r: Report, name: int, j: nat)
    requires j < |r|
  {
    r[j].name == name && r[j].ticks > 0.0 && Begun(r, name, j + 1)
  }

  lemma {:induction false} DropDeadGrows(s: seq<Entry>, e: Entry)
    ensures DropDead(s + [e]) == if DropDead(s) != [] || Live(e) then DropDead(s) + [e] else []
  {
    if s != [] && !Live(s[0]) {
      DropDeadGrows(s[1..], e);
      assert (s + [e])[1..] == s[1..] + [e];
    } else if s == [] {
      assert s + [e] == [e] && [e][1..] == [];
    }
  }

  lemma BegunGrows(r: Report, name: int, n: nat)
    requires n < |r|
    ensures Begun(r, name, n + 1) <==> Begun(r, name, n) || (r[n].name == name && Live(r[n]))
  {
    if r[n].name == name && Live(r[n]) {
      assert r[n].name == name;
    }
  }

  lemma PrefixOf(r: Report, n: nat)
    requires n < |r|
    ensures r[..n + 1][..n] == r[..n] && r[..n + 1][n] == r[n]
  {
  }

  /** What one more entry of the report changes. */
  lemma PartGrows(r: Report, name: int, n: nat)
    requires n < |r| && (Part(r[..n], name) != [] <==> Begun(r, name, n))
    ensures Part(r[..n + 1], name)
              == Part(r[..n], name) + if r[n].name == name && Begun(r, name, n + 1) then [r[n]] else []
    ensures Part(r[..n + 1], name) != [] <==> Begun(r, name, n + 1)
  {
    PrefixOf(r, n);
    BegunGrows(r, name, n);
    DropDeadGrows(Named(r[..n], name), r[n]);
    assert Named(r[..n], name) + [] == Named(r[..n], name);
    assert Part(r[..n], name) + [] == Part(r[..n], name);
  }

  lemma TimedGrows(s: seq<Entry>, e: Entry)
    ensures Timed(s + [e]) == Timed(s) + if e.ticks > 0.0 then [e] else []
  {
    assert (s + [e])[..|s|] == s;
  }

  /** These are the places, in order, of the entries among the first `n` that the report adds. */
  ghost predicate ArePlaces(r: Report, name: int, n: nat, at: seq<nat>, group: seq<Entry>)
    requires n <= |r|
  {
    && |at| == |group| && (forall k :: 0 <= k < |at| ==> at[k] < n && group[k] == r[at[k]])
    && (forall k, l :: 0 <= k < l < |at| ==> at[k] < at[l])
    && (forall j: nat :: j < n ==> (j in at <==> Adds(r, name, j)))
  }

  lemma OneMorePlace(r: Report, name: int, n: nat, at: seq<nat>, group: seq<Entry>)
    requires n < |r| && ArePlaces(r, name, n, at, group)
    ensures Adds(r, name, n) ==> ArePlaces(r, name, n + 1, at + [n], group + [r[n]])
    ensures !Adds(r, name, n) ==> ArePlaces(r, name, n + 1, at, group)
  {
  }

  lemma ContributionGrows(r: Report, name: int, n: nat)
    requires n < |r| && (Part(r[..n], name) != [] <==> Begun(r, name, n))
    ensures Contribution(r[..n + 1], name)
              == if Adds(r, name, n) then Contribution(r[..n], name) + [r[n]] else Contribution(r[..n], name)
  {
    var part, e := Part(r[..n], name), r[n];
    PartGrows(r, name, n);
    TimedGrows(part, e);
    assert part + [] == part;
  }

  lemma {:induction false} PartBegins(r: Report, name: int, n: nat)
    requires n <= |r|
    ensures Part(r[..n], name) != [] <==> Begun(r, name, n)
  {
    if n > 0 {
      PartBegins(r, name, n - 1);
      PartGrows(r, name, n - 1);
    }
  }

  lemma NextPlace(r: Report, name: int, n: nat, at: seq<nat>) returns (at': seq<nat>)
    requires n < |r| && ArePlaces(r, name, n, at, Contribution(r[..n], name))
    ensures ArePlaces(r, name, n + 1, at', Contribution(r[..n + 1], name))
  {
    PartBegins(r, name, n);
    ContributionGrows(r, name, n);
    OneMorePlace(r, name, n, at, Contribution(r[..n], name));
    at' := if Adds(r, name, n) then at + [n] else at;
  }

  lemma NoPlaces(r: Report, name: int)
    ensures ArePlaces(r, name, 0, [], Contribution(r[..0], name))
  {
    assert r[..0] == [];
  }

  /** The entries added, in the order of the report: those of the name with a time from its first one with stats on. */
  lemma {:induction false} ContributionPlaces(r: Report, name: int, n: nat) returns (at: seq<nat>)
    requires n <= |r|
    ensures ArePlaces(r, name, n, at, Contribution(r[..n], name))
  {
    if n == 0 {
      NoPlaces(r, name);
      at := [];
    } else {
      at := ContributionPlaces(r, name, n - 1);
      at := NextPlace(r, name, n - 1, at);
    }
  }

  /** Report by report, and in each report in its order. */
  predicate Before(a: (nat, nat), b: (nat, nat)) {
    a.0 < b.0 || (a.0 == b.0 && a.1 < b.1)
  }

  ghost predicate Ordered(at: seq<(nat, nat)>) {
    forall k, l :: 0 <= k < l < |at| ==> Before(at[k], at[l])
  }

  /** The group has the entries at these places of the first `n` reports. */
  ghost predicate AreAt(reports: seq<Report>, n: nat, at: seq<(nat, nat)>, group: seq<Entry>)
    requires n <= |reports|
  {
    && |at| == |group|
    && forall k :: 0 <= k < |at| ==> at[k].0 < n && at[k].1 < |reports[at[k].0]| && group[k] == reports[at[k].0][at[k].1]
  }

  /** These are the places, in order, of the entries that the first `n` reports add. */
  ghost predicate AreGroupPlaces(reports: seq<Report>, name: int, n: nat, at: seq<(nat, nat)>, group: seq<Entry>)
    requires n <= |reports|
  {
    && AreAt(reports, n, at, group) && Ordered(at)
    && forall i: nat, j: nat :: i < n && j < |reports[i]| ==> ((i, j) in at <==> Adds(reports[i], name, j))
  }

  lemma SeqOfPairs(i: nat, at: seq<nat>)
    ensures var r := seq(|at|, k requires 0 <= k < |at| => (i, at[k]));
            forall h: nat, j: nat :: (h, j) in r <==> h == i && j in at
  {
    var r := seq(|at|, k requires 0 <= k < |at| => (i, at[k]));
    forall j: nat | j in at ensures (i, j) in r {
      var k :| 0 <= k < |at| && at[k] == j;
      assert r[k] == (i, j);
    }
  }

  function InReport(i: nat, at: seq<nat>): (r: seq<(nat, nat)>)
    ensures |r| == |at| && forall k :: 0 <= k < |at| ==> r[k] == (i, at[k])
    ensures forall h: nat, j: nat :: (h, j) in r <==> h == i && j in at
  {
    SeqOfPairs(i, at);
    seq(|at|, k requires 0 <= k < |at| => (i, at[k]))
  }

  lemma AddedByReports(reports: seq<Report>, name: int, n: nat, at: seq<(nat, nat)>, at': seq<nat>)
    requires n < |reports| && forall k :: 0 <= k < |at| ==> at[k].0 < n
    requires forall i: nat, j: nat :: i < n && j < |reports[i]| ==> ((i, j) in at <==> Adds(reports[i], name, j))
    requires forall j: nat :: j < |reports[n]| ==> (j in at' <==> Adds(reports[n], name, j))
    ensures forall i: nat, j: nat :: i < n + 1 && j < |reports[i]| ==>
              ((i, j) in at + InReport(n, at') <==> Adds(reports[i], name, j))
  {
    forall i: nat, j: nat | (i, j) in at ensures i < n {
      var k :| 0 <= k < |at| && at[k] == (i, j);
    }
    forall i: nat, j: nat | i < n + 1 && j < |reports[i]|
      ensures (i, j) in at + InReport(n, at') <==> Adds(reports[i], name, j)
    {
      assert (i, j) in at + InReport(n, at') <==> (i, j) in at || (i == n && j in at');
    }
  }

  lemma OneMoreReport(reports: seq<Report>, name: int, n: nat, at: seq<(nat, nat)>, group: seq<Entry>,
                      at': seq<nat>, part: seq<Entry>)
    requires n < |reports| && AreGroupPlaces(reports, name, n, at, group)
    requires ArePlaces(reports[n], name, |reports[n]|, at', part)
    ensures AreGroupPlaces(reports, name, n + 1, at + InReport(n, at'), group + part)
  {
    AddedByReports(reports, name, n, at, at');
    InOrder(n, at, at');
    MoreAt(reports, n, at, group, at', part);
  }

  lemma InOrder(n: nat, at: seq<(nat, nat)>, at': seq<nat>)
    requires Ordered(at) && (forall k :: 0 <= k < |at| ==> at[k].0 < n)
    requires forall k, l :: 0 <= k < l < |at'| ==> at'[k] < at'[l]
    ensures Ordered(at + InReport(n, at'))
  {
  }

  lemma MoreAt(reports: seq<Report>, n: nat, at: seq<(nat, nat)>, group: seq<Entry>, at': seq<nat>, part: seq<Entry>)
    requires n < |reports| && AreAt(reports, n, at, group) && |at'| == |part|
    requires forall k :: 0 <= k < |at'| ==> at'[k] < |reports[n]| && part[k] == reports[n][at'[k]]
    ensures AreAt(reports, n + 1, at + InReport(n, at'), group + part)
  {
  }

  /** The group of a name over all reports: exactly which entries, and in which order. */
  lemma {:induction false} GroupPlaces(reports: seq<Report>, name: int, n: nat) returns (at: seq<(nat, nat)>)
    requires n <= |reports|
    ensures AreGroupPlaces(reports, name, n, at, Collect(reports, name, n))
  {
    at := [];
    if n > 0 {
      at := GroupPlaces(reports, name, n - 1);
      var r := reports[n - 1];
      var at' := ContributionPlaces(r, name, |r|);
      assert r[..|r|] == r;
      OneMoreReport(reports, name, n - 1, at, Collect(reports, name, n - 1), at', Contribution(r, name));
      at := at + InReport(n - 1, at');
    }
  }
}
