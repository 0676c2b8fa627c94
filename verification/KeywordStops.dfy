/**
 Which keyword lists give a matcher that compiles.  There are comparison macros for up to eight
 characters, so no edge of the merged trie may be longer.  Edges run between the stops of a keyword.
 */
module KeywordStops {
  import opened KeywordTrie
  import opened KeywordWeights
  import opened KeywordWeightSums
  import opened KeywordCompiler

  ghost predicate Extended(keywords: seq<Keyword>, p: Text) {
    exists i :: 0 <= i < |keywords| && p <= keywords[i].text
  }

  /** `p` is a keyword, or keywords part ways after `p`. */
  ghost predicate Stop(keywords: seq<Keyword>, p: Text) {
    HasText(keywords, p) || exists c, d :: c != d && Extended(keywords, p + [c]) && Extended(keywords, p + [d])
  }

  ghost predicate StopWithin(keywords: seq<Keyword>, w: Text, i: nat)
    requires i + 8 <= |w|
  {
    exists j :: i < j <= i + 8 && Stop(keywords, w[..j])
  }

  /** Past `from`, no keyword goes on for more than eight characters without coming to a stop. */
  ghost predicate StopsWithinEight(keywords: seq<Keyword>, full: Text) {
    forall k, i :: 0 <= k < |keywords| && full <= keywords[k].text && |full| <= i && i + 8 < |keywords[k].text| ==>
      StopWithin(keywords, keywords[k].text, i)
  }

  ghost predicate ShortEdges(t: Trie) {
    forall i :: 0 <= i < |t.kids| ==> |t.kids[i].prefix| <= 8 && ShortEdges(t.kids[i])
  }

  // ----- No dead ends -----

  /** Below `t` every leaf has a value. */
  ghost predicate NoDeadEnds(t: Trie) {
    forall i :: 0 <= i < |t.kids| ==> (t.kids[i].value.Some? || t.kids[i].kids != []) && NoDeadEnds(t.kids[i])
  }

  lemma {:induction false} InsertLeavesNoDeadEnds(t: Trie, key: Text, token: Token)
    requires NoDeadEnds(t)
    ensures var u := Insert(t, key, token); NoDeadEnds(u) && (u.value.Some? || u.kids != [])
    decreases key
  {
    if key != [] {
      var i := KeyIndex(t.kids, key[..1]);
      InsertLeavesNoDeadEnds(if i < |t.kids| then t.kids[i] else NewTrie(key[..1]), key[1..], token);
    }
  }

  lemma {:induction false} InsertAllLeavesNoDeadEnds(keywords: seq<Keyword>)
    ensures NoDeadEnds(InsertAll(NewTrie([]), keywords))
    decreases |keywords|
  {
    if keywords != [] {
      var rest := keywords[..|keywords| - 1];
      InsertAllLeavesNoDeadEnds(rest);
      InsertLeavesNoDeadEnds(InsertAll(NewTrie([]), rest), keywords[|keywords| - 1].text, keywords[|keywords| - 1].token);
    }
  }

  lemma {:induction false} CoalesceLeavesNoDeadEnds(t: Trie)
    requires NoDeadEnds(t) && Deterministic(t)
    ensures NoDeadEnds(CoalesceKids(t)) && NoDeadEnds(Coalesce(t))
    ensures t.value.Some? || t.kids != [] ==> Coalesce(t).value.Some? || Coalesce(t).kids != []
    decreases t
  {
    CoalesceShape(t);
    var u := CoalesceKids(t);
    forall i | 0 <= i < |t.kids|
      ensures NoDeadEnds(u.kids[i]) && (u.kids[i].value.Some? || u.kids[i].kids != [])
    {
      CoalesceLeavesNoDeadEnds(t.kids[i]);
    }
  }

  lemma {:induction false} FillOutLeavesNoDeadEnds(t: Trie, prefix: Text, table: WeightTable)
    requires NoDeadEnds(t)
    ensures NoDeadEnds(FillOut(t, prefix, table))
    decreases t
  {
    var u := FilledUnsorted(t, prefix, table);
    forall i | 0 <= i < |t.kids|
      ensures NoDeadEnds(u.kids[i]) && (u.kids[i].value.Some? || u.kids[i].kids != [])
    {
      FillOutLeavesNoDeadEnds(t.kids[i], u.fullPrefix, table);
    }
    assert NoDeadEnds(u);
    SortingLeavesNoDeadEnds(u);
  }

  lemma SortingLeavesNoDeadEnds(u: Trie)
    requires NoDeadEnds(u)
    ensures NoDeadEnds(SortKids(u))
  {
  }

  // ----- Nodes are stops -----

  /** Something is stored below every node that is no dead end. */
  lemma {:induction false} SomeEntry(t: Trie) returns (s: Text)
    requires Deterministic(t) && NoDeadEnds(t) && (t.value.Some? || t.kids != [])
    ensures Find(t, s).Some?
    decreases t
  {
    if t.value.Some? {
      s := [];
    } else {
      s := SomeEntry(t.kids[0]);
      FindThroughKid(t, 0, s);
      s := t.kids[0].prefix + s;
    }
  }

  lemma KidIsExtended(t: Trie, full: Text, keywords: seq<Keyword>, i: nat) returns (k: nat)
    requires Deterministic(t) && NoDeadEnds(t) && Holds(t, full, keywords) && i < |t.kids|
    ensures k < |keywords| && full + t.kids[i].prefix <= keywords[k].text
  {
    var s := SomeEntry(t.kids[i]);
    HoldsBelow(t, full, keywords, i);
    var w := full + t.kids[i].prefix + s;
    assert HasText(keywords, w);
    k :| 0 <= k < |keywords| && keywords[k].text == w;
  }

  lemma ExtendedByPrefix(keywords: seq<Keyword>, full: Text, e: Text, k: nat)
    requires e != [] && k < |keywords| && full + e <= keywords[k].text
    ensures Extended(keywords, full + [e[0]])
  {
    assert full + e == full + [e[0]] + e[1..];
    assert full + [e[0]] <= keywords[k].text;
  }

  lemma KidFirstExtended(t: Trie, full: Text, keywords: seq<Keyword>, i: nat)
    requires Deterministic(t) && NoDeadEnds(t) && Holds(t, full, keywords) && i < |t.kids|
    ensures Extended(keywords, full + [t.kids[i].prefix[0]])
  {
    var k := KidIsExtended(t, full, keywords, i);
    ExtendedByPrefix(keywords, full, t.kids[i].prefix, k);
  }

  lemma NodeIsStop(t: Trie, full: Text, keywords: seq<Keyword>)
    requires Deterministic(t) && NoDeadEnds(t) && Holds(t, full, keywords)
    requires (t.value.Some? || t.kids != []) && !Mergeable(t)
    ensures Stop(keywords, full)
  {
    if t.value.Some? {
      assert Find(t, []).Some?;
      assert full + [] == full;
    } else {
      KidFirstExtended(t, full, keywords, 0);
      KidFirstExtended(t, full, keywords, 1);
    }
  }

  lemma OnlyOneWayOn(t: Trie, full: Text, keywords: seq<Keyword>, i: nat, n: nat, c: CodeUnit)
    requires Deterministic(t) && Holds(t, full, keywords) && i < |t.kids| && 0 < n < |t.kids[i].prefix|
    requires Extended(keywords, full + t.kids[i].prefix[..n] + [c])
    ensures c == t.kids[i].prefix[n]
  {
    var e := t.kids[i].prefix;
    var p := full + e[..n];
    var k :| 0 <= k < |keywords| && p + [c] <= keywords[k].text;
    var w := keywords[k].text;
    assert p <= p + [c] <= w;
    ThroughTheEdge(t, full, keywords, i, n, w);
    assert c == (p + [c])[|p|] == w[|p|];
    assert e[n] == (full + e)[|p|] == w[|p|];
  }

  /** There is no stop inside an edge. */
  lemma NoStopInsideEdge(t: Trie, full: Text, keywords: seq<Keyword>, i: nat, n: nat)
    requires Deterministic(t) && Holds(t, full, keywords) && i < |t.kids| && 0 < n < |t.kids[i].prefix|
    ensures !Stop(keywords, full + t.kids[i].prefix[..n])
  {
    var p := full + t.kids[i].prefix[..n];
    if HasText(keywords, p) {
      ThroughTheEdge(t, full, keywords, i, n, p);
    }
    forall c, d | Extended(keywords, p + [c]) && Extended(keywords, p + [d]) ensures c == d {
      OnlyOneWayOn(t, full, keywords, i, n, c);
      OnlyOneWayOn(t, full, keywords, i, n, d);
    }
  }

  /** A keyword that enters an edge runs through it. */
  lemma ThroughTheEdge(t: Trie, full: Text, keywords: seq<Keyword>, i: nat, n: nat, w: Text)
    requires Deterministic(t) && Holds(t, full, keywords) && i < |t.kids| && 0 < n <= |t.kids[i].prefix|
    requires HasText(keywords, w) && full + t.kids[i].prefix[..n] <= w
    ensures full + t.kids[i].prefix <= w
  {
    var e, s := t.kids[i].prefix, w[|full|..];
    assert full == (full + e[..n])[..|full|] == w[..|full|];
    assert w == full + s;
    assert s[0] == w[|full|] == (full + e[..n])[|full|] == e[0];
    assert Find(t, s).Some?;
    assert KidFor(t.kids, s[0]) == i;
    assert FindAt(t.kids[i], s).Some?;
  }

  // ----- The condition -----

  ghost predicate Merged(t: Trie) {
    Deterministic(t) && NoDeadEnds(t) && Compact(t)
  }

  lemma {:induction false} ShortEdgesStop(t: Trie, full: Text, keywords: seq<Keyword>, w: Text, i: nat)
    requires Merged(t) && Holds(t, full, keywords) && ShortEdges(t)
    requires HasText(keywords, w) && full <= w && |full| <= i && i + 8 < |w|
    ensures StopWithin(keywords, w, i)
    decreases t
  {
    KidsCover(t, full, keywords, w);
    var k :| 0 <= k < |t.kids| && full + t.kids[k].prefix <= w;
    var p := full + t.kids[k].prefix;
    HoldsBelow(t, full, keywords, k);
    if i < |p| {
      NodeIsStop(t.kids[k], p, keywords);
      assert w[..|p|] == p;
      assert Stop(keywords, w[..|p|]);
    } else {
      ShortEdgesStop(t.kids[k], p, keywords, w, i);
    }
  }

  lemma LongEdgeDoesNot(t: Trie, full: Text, keywords: seq<Keyword>, i: nat)
    requires Merged(t) && Holds(t, full, keywords) && i < |t.kids| && |t.kids[i].prefix| > 8
    ensures !StopsWithinEight(keywords, full)
  {
    var e := t.kids[i].prefix;
    var k := KidIsExtended(t, full, keywords, i);
    var w, n := keywords[k].text, |full|;
    assert full <= full + e <= w;
    forall j | n < j <= n + 8 ensures !Stop(keywords, w[..j]) {
      NoStopInsideEdge(t, full, keywords, i, j - n);
      assert w[..j] == (full + e)[..j] == full + e[..j - n];
    }
    assert !StopWithin(keywords, w, n);
  }

  lemma StopsBelow(keywords: seq<Keyword>, full: Text, p: Text)
    requires StopsWithinEight(keywords, full) && full <= p
    ensures StopsWithinEight(keywords, p)
  {
    forall k, i | 0 <= k < |keywords| && p <= keywords[k].text && |p| <= i && i + 8 < |keywords[k].text|
      ensures StopWithin(keywords, keywords[k].text, i)
    {
      assert full <= keywords[k].text;
    }
  }

  /** All edges of a merged trie are short exactly when the keywords come to a stop every eight characters. */
  lemma {:induction false} ShortEdgesIffStops(t: Trie, full: Text, keywords: seq<Keyword>)
    requires Merged(t) && Holds(t, full, keywords)
    ensures ShortEdges(t) <==> StopsWithinEight(keywords, full)
    decreases t
  {
    if ShortEdges(t) {
      forall k, i | 0 <= k < |keywords| && full <= keywords[k].text && |full| <= i && i + 8 < |keywords[k].text|
        ensures StopWithin(keywords, keywords[k].text, i)
      {
        ShortEdgesStop(t, full, keywords, keywords[k].text, i);
      }
    }
    if StopsWithinEight(keywords, full) {
      forall i | 0 <= i < |t.kids| ensures |t.kids[i].prefix| <= 8 && ShortEdges(t.kids[i]) {
        if |t.kids[i].prefix| > 8 {
          LongEdgeDoesNot(t, full, keywords, i);
        }
        HoldsBelow(t, full, keywords, i);
        StopsBelow(keywords, full, full + t.kids[i].prefix);
        ShortEdgesIffStops(t.kids[i], full + t.kids[i].prefix, keywords);
      }
    }
  }

  // ----- The nodes -----

  lemma {:induction false} NodesAreStops(t: Trie, full: Text, keywords: seq<Keyword>, s: Text)
    requires Merged(t) && Holds(t, full, keywords) && HasNode(t, full, s)
    ensures s == full || Stop(keywords, s)
    decreases t
  {
    if s != full {
      var i :| 0 <= i < |t.kids| && HasNode(t.kids[i], full + t.kids[i].prefix, s);
      HoldsBelow(t, full, keywords, i);
      NodeIsStop(t.kids[i], full + t.kids[i].prefix, keywords);
      NodesAreStops(t.kids[i], full + t.kids[i].prefix, keywords, s);
    }
  }

  lemma StopIsExtended(keywords: seq<Keyword>, s: Text) returns (w: Text)
    requires Stop(keywords, s)
    ensures HasText(keywords, w) && s <= w && (w == s ==> HasText(keywords, s))
  {
    if HasText(keywords, s) {
      w := s;
    } else {
      var c, d :| c != d && Extended(keywords, s + [c]) && Extended(keywords, s + [d]);
      var i :| 0 <= i < |keywords| && s + [c] <= keywords[i].text;
      w := keywords[i].text;
      assert s <= s + [c] <= w;
    }
  }

  /** The first edge on the way from a node to a stop below ends there or before. */
  lemma EdgeToStop(t: Trie, full: Text, keywords: seq<Keyword>, s: Text) returns (i: nat)
    requires Merged(t) && Holds(t, full, keywords) && Stop(keywords, s) && full <= s && s != full
    ensures i < |t.kids| && full + t.kids[i].prefix <= s
  {
    var w := StopIsExtended(keywords, s);
    KidsCover(t, full, keywords, w);
    i :| 0 <= i < |t.kids| && full + t.kids[i].prefix <= w;
    var e := t.kids[i].prefix;
    if |s| < |full + e| {
      var n := |s| - |full|;
      assert s == w[..|s|] == full + e[..n];
      NoStopInsideEdge(t, full, keywords, i, n);
    }
    assert full + e == w[..|full + e|] == s[..|full + e|];
  }

  lemma {:induction false} StopsAreNodes(t: Trie, full: Text, keywords: seq<Keyword>, s: Text)
    requires Merged(t) && Holds(t, full, keywords) && Stop(keywords, s) && full <= s
    ensures HasNode(t, full, s)
    decreases t
  {
    if s != full {
      var i := EdgeToStop(t, full, keywords, s);
      HoldsBelow(t, full, keywords, i);
      StopsAreNodes(t.kids[i], full + t.kids[i].prefix, keywords, s);
    }
  }

  /** The nodes of a merged trie are its root and the stops of its keywords. */
  lemma NodesIffStops(t: Trie, keywords: seq<Keyword>, s: Text)
    requires Merged(t) && Holds(t, [], keywords)
    ensures HasNode(t, [], s) <==> s == [] || Stop(keywords, s)
  {
    if HasNode(t, [], s) {
      NodesAreStops(t, [], keywords, s);
    }
    if Stop(keywords, s) {
      StopsAreNodes(t, [], keywords, s);
    }
  }

  // ----- The longest keyword -----

  lemma {:induction false} MaxLengthCoversKeyword(t: Trie, keywords: seq<Keyword>, w: Text)
    requires Merged(t) && FullPrefixes(t) && Holds(t, t.fullPrefix, keywords)
    requires HasText(keywords, w) && t.fullPrefix <= w
    ensures |w| <= MaxLength(t)
    decreases t
  {
    if w != t.fullPrefix {
      KidsCover(t, t.fullPrefix, keywords, w);
      var i :| 0 <= i < |t.kids| && t.fullPrefix + t.kids[i].prefix <= w;
      HoldsBelow(t, t.fullPrefix, keywords, i);
      MaxLengthCoversKeyword(t.kids[i], keywords, w);
      MaxLengthCovers(t.kids, |t.fullPrefix|, i);
    }
  }

  /** The longest full prefix is that of a keyword, unless there is none below. */
  lemma {:induction false} MaxLengthIsReached(t: Trie, keywords: seq<Keyword>) returns (k: nat)
    requires Merged(t) && FullPrefixes(t) && Holds(t, t.fullPrefix, keywords)
    requires MaxLength(t) != |t.fullPrefix|
    ensures k < |keywords| && t.fullPrefix <= keywords[k].text && |keywords[k].text| == MaxLength(t)
    decreases t
  {
    var i := MaxLengthReached(t.kids, |t.fullPrefix|);
    HoldsBelow(t, t.fullPrefix, keywords, i);
    assert t.kids[i].fullPrefix == t.fullPrefix + t.kids[i].prefix;
    if MaxLength(t.kids[i]) != |t.kids[i].fullPrefix| {
      k := MaxLengthIsReached(t.kids[i], keywords);
    } else {
      k := KidIsExtended(t, t.fullPrefix, keywords, i);
      assert HasText(keywords, keywords[k].text);
      MaxLengthCoversKeyword(t.kids[i], keywords, keywords[k].text);
    }
    assert t.fullPrefix <= t.kids[i].fullPrefix <= keywords[k].text;
  }

  lemma {:induction false} MaxLengthReached(kids: seq<Trie>, max: nat) returns (i: nat)
    requires MaxLengthOf(kids, max) != max
    ensures i < |kids| && MaxLength(kids[i]) == MaxLengthOf(kids, max)
    decreases |kids|
  {
    var max' := Max(max, MaxLength(kids[0]));
    if MaxLengthOf(kids[1..], max') == max' {
      i := 0;
    } else {
      i := MaxLengthReached(kids[1..], max');
      i := i + 1;
    }
  }
}
