/** The weight of a node is the total weight of the keywords below it. */
module KeywordWeightSums {
  import opened KeywordTrie
  import opened KeywordWeights

  /** The total weight of the keywords that start with `p`. */
  function WeightBelow(keywords: seq<Keyword>, p: Text, table: WeightTable): real {
    if keywords == [] then 0.0
    else
      var last := keywords[|keywords| - 1].text;
      WeightBelow(keywords[..|keywords| - 1], p, table) + if p <= last then WeightOf(table, last) else 0.0
  }

  ghost predicate HasText(keywords: seq<Keyword>, s: Text) {
    exists i :: 0 <= i < |keywords| && keywords[i].text == s
  }

  ghost predicate DistinctTexts(keywords: seq<Keyword>) {
    forall i, j :: 0 <= i < j < |keywords| ==> keywords[i].text != keywords[j].text
  }

  /** Below `t`, reached by `full`, are exactly the keywords that start with `full`. */
  ghost predicate Holds(t: Trie, full: Text, keywords: seq<Keyword>) {
    forall s :: Find(t, s).Some? <==> HasText(keywords, full + s)
  }

  ghost predicate WeightsAreSums(t: Trie, keywords: seq<Keyword>, table: WeightTable) {
    && t.weight == WeightBelow(keywords, t.fullPrefix, table)
    && forall i :: 0 <= i < |t.kids| ==> WeightsAreSums(t.kids[i], keywords, table)
  }

  function KidSums(kids: seq<Trie>, n: nat, keywords: seq<Keyword>, full: Text, table: WeightTable): real
    requires n <= |kids|
  {
    if n == 0 then 0.0
    else KidSums(kids, n - 1, keywords, full, table) + WeightBelow(keywords, full + kids[n - 1].prefix, table)
  }

  ghost predicate Covers(kids: seq<Trie>, n: nat, full: Text, w: Text)
    requires n <= |kids|
  {
    exists i :: 0 <= i < n && full + kids[i].prefix <= w
  }

  /** One more keyword adds its weight once, to the only child above it. */
  lemma {:induction false} KidSumsStep(kids: seq<Trie>, n: nat, keywords: seq<Keyword>, full: Text, table: WeightTable)
    requires n <= |kids| && DeterministicKids(kids) && keywords != []
    ensures var front, w := keywords[..|keywords| - 1], keywords[|keywords| - 1].text;
            KidSums(kids, n, keywords, full, table)
              == KidSums(kids, n, front, full, table) + if Covers(kids, n, full, w) then WeightOf(table, w) else 0.0
  {
    if n > 0 {
      var w, p := keywords[|keywords| - 1].text, full + kids[n - 1].prefix;
      KidSumsStep(kids, n - 1, keywords, full, table);
      if p <= w {
        forall i | 0 <= i < n - 1 ensures !(full + kids[i].prefix <= w) {
          var q := full + kids[i].prefix;
          assert p[|full|] == kids[n - 1].prefix[0] != kids[i].prefix[0] == q[|full|];
        }
        assert Covers(kids, n, full, w);
      } else {
        assert Covers(kids, n, full, w) <==> Covers(kids, n - 1, full, w);
      }
    }
  }

  lemma {:induction false} WeightSplits(kids: seq<Trie>, keywords: seq<Keyword>, full: Text, table: WeightTable)
    requires DeterministicKids(kids) && DistinctTexts(keywords)
    requires forall i :: 0 <= i < |keywords| ==>
      var w := keywords[i].text; full <= w && w != full ==> Covers(kids, |kids|, full, w)
    ensures WeightBelow(keywords, full, table)
              == KidSums(kids, |kids|, keywords, full, table)
                 + if HasText(keywords, full) then WeightOf(table, full) else 0.0
    decreases |keywords|
  {
    if keywords == [] {
      KidSumsOfNothing(kids, |kids|, full, table);
    } else {
      var front, w := keywords[..|keywords| - 1], keywords[|keywords| - 1].text;
      WeightSplits(kids, front, full, table);
      KidSumsStep(kids, |kids|, keywords, full, table);
      if w == full {
        assert !HasText(front, full);
        assert keywords[|keywords| - 1].text == full;
        forall i | 0 <= i < |kids| ensures !(full + kids[i].prefix <= w) {
          assert |full + kids[i].prefix| > |w|;
        }
      } else {
        assert HasText(keywords, full) <==> HasText(front, full) by {
          if HasText(front, full) {
            var i :| 0 <= i < |front| && front[i].text == full;
            assert keywords[i].text == full;
          }
        }
        if Covers(kids, |kids|, full, w) {
          var i :| 0 <= i < |kids| && full + kids[i].prefix <= w;
          assert full == (full + kids[i].prefix)[..|full|] == w[..|full|];
        }
      }
    }
  }

  lemma {:induction false} KidSumsOfNothing(kids: seq<Trie>, n: nat, full: Text, table: WeightTable)
    requires n <= |kids|
    ensures KidSums(kids, n, [], full, table) == 0.0
  {
    if n > 0 {
      KidSumsOfNothing(kids, n - 1, full, table);
    }
  }

  lemma HoldsBelow(t: Trie, full: Text, keywords: seq<Keyword>, i: nat)
    requires Deterministic(t) && Holds(t, full, keywords) && i < |t.kids|
    ensures Holds(t.kids[i], full + t.kids[i].prefix, keywords)
  {
    var p := t.kids[i].prefix;
    forall s ensures Find(t.kids[i], s).Some? <==> HasText(keywords, full + p + s) {
      FindThroughKid(t, i, s);
      assert full + p + s == full + (p + s);
    }
  }

  lemma KidsCover(t: Trie, full: Text, keywords: seq<Keyword>, w: Text)
    requires Deterministic(t) && Holds(t, full, keywords)
    requires HasText(keywords, w) && full <= w && w != full
    ensures Covers(t.kids, |t.kids|, full, w)
  {
    var s := w[|full|..];
    assert w == full + s;
    assert Find(t, s).Some?;
    var i := KidFor(t.kids, s[0]);
    assert FindAt(t.kids[i], s).Some?;
    assert full + t.kids[i].prefix <= w;
  }

  /** The keywords below a node are its own and those below its children. */
  lemma KeywordsSplit(t: Trie, full: Text, keywords: seq<Keyword>, table: WeightTable)
    requires Deterministic(t) && DistinctTexts(keywords) && Holds(t, full, keywords)
    requires forall s :: s in table ==> HasText(keywords, s)
    ensures WeightBelow(keywords, full, table)
              == KidSums(t.kids, |t.kids|, keywords, full, table) + WeightOf(table, full)
  {
    forall i | 0 <= i < |keywords| && full <= keywords[i].text && keywords[i].text != full
      ensures Covers(t.kids, |t.kids|, full, keywords[i].text)
    {
      KidsCover(t, full, keywords, keywords[i].text);
    }
    WeightSplits(t.kids, keywords, full, table);
  }

  lemma {:induction false} KidSumsAreWeights(
      t: Trie, u: Trie, n: nat, full: Text, keywords: seq<Keyword>, table: WeightTable)
    requires n <= |t.kids| == |u.kids|
    requires forall i :: 0 <= i < n ==> u.kids[i].weight == WeightBelow(keywords, full + t.kids[i].prefix, table)
    ensures Sum(Weights(u.kids)[..n]) == KidSums(t.kids, n, keywords, full, table)
  {
    if n > 0 {
      KidSumsAreWeights(t, u, n - 1, full, keywords, table);
      var ws := Weights(u.kids);
      assert ws[..n][..n - 1] == ws[..n - 1];
    }
  }

  lemma KeptBySorting(u: Trie, keywords: seq<Keyword>, table: WeightTable)
    requires WeightsAreSums(u, keywords, table)
    ensures WeightsAreSums(SortKids(u), keywords, table)
  {
  }

  /** The weight of one node, given those of its children. */
  lemma NodeWeight(t: Trie, u: Trie, full: Text, keywords: seq<Keyword>, table: WeightTable)
    requires Deterministic(t) && DistinctTexts(keywords) && Holds(t, full, keywords)
    requires forall s :: s in table ==> HasText(keywords, s)
    requires |u.kids| == |t.kids|
    requires forall i :: 0 <= i < |t.kids| ==>
      u.kids[i].weight == WeightBelow(keywords, full + t.kids[i].prefix, table)
    ensures WeightOf(table, full) + Sum(Weights(u.kids)) == WeightBelow(keywords, full, table)
  {
    KeywordsSplit(t, full, keywords, table);
    KidSumsAreWeights(t, u, |t.kids|, full, keywords, table);
    assert Weights(u.kids)[..|t.kids|] == Weights(u.kids);
  }

  /** When every weighted word is a keyword, each weight is the total weight of the keywords below. */
  lemma {:induction false} FillOutSumsWeights(t: Trie, prefix: Text, keywords: seq<Keyword>, table: WeightTable)
    requires Deterministic(t) && DistinctTexts(keywords) && Holds(t, prefix + t.prefix, keywords)
    requires forall s :: s in table ==> HasText(keywords, s)
    ensures WeightsAreSums(FillOut(t, prefix, table), keywords, table)
    decreases t
  {
    var u := FilledUnsorted(t, prefix, table);
    forall i | 0 <= i < |t.kids| ensures WeightsAreSums(u.kids[i], keywords, table) {
      HoldsBelow(t, u.fullPrefix, keywords, i);
      FillOutSumsWeights(t.kids[i], u.fullPrefix, keywords, table);
    }
    NodeWeight(t, u, u.fullPrefix, keywords, table);
    KeptBySorting(u, keywords, table);
  }

  // ----- Any table -----

  /** `s` is the full prefix of a node at or below `t`, whose own full prefix is `full`. */
  ghost predicate HasNode(t: Trie, full: Text, s: Text) {
    s == full || exists i :: 0 <= i < |t.kids| && HasNode(t.kids[i], full + t.kids[i].prefix, s)
  }

  lemma {:induction false} NodeExtends(t: Trie, full: Text, s: Text)
    requires HasNode(t, full, s)
    ensures full <= s
    decreases t
  {
    if s != full {
      var i :| 0 <= i < |t.kids| && HasNode(t.kids[i], full + t.kids[i].prefix, s);
      NodeExtends(t.kids[i], full + t.kids[i].prefix, s);
      assert full <= full + t.kids[i].prefix <= s;
    }
  }

  /** At most one child has the node, and none does if it is `t` itself. */
  lemma OneKidHasNode(t: Trie, full: Text, s: Text, i: nat, j: nat)
    requires Deterministic(t) && i < |t.kids| && j < |t.kids|
    requires HasNode(t.kids[i], full + t.kids[i].prefix, s)
    ensures s != full && (HasNode(t.kids[j], full + t.kids[j].prefix, s) ==> i == j)
  {
    var p, q := full + t.kids[i].prefix, full + t.kids[j].prefix;
    NodeExtends(t.kids[i], p, s);
    assert s[|full|] == p[|full|] == t.kids[i].prefix[0];
    if HasNode(t.kids[j], q, s) {
      NodeExtends(t.kids[j], q, s);
      assert s[|full|] == q[|full|] == t.kids[j].prefix[0];
    }
  }

  /** Two sums that differ in at most one place. */
  lemma {:induction false} SumChanges(a: seq<real>, b: seq<real>, k: nat, x: real)
    requires |a| == |b| && forall i :: 0 <= i < |a| ==> b[i] == a[i] + if i == k then x else 0.0
    ensures Sum(b) == Sum(a) + if k < |a| then x else 0.0
    decreases |a|
  {
    if a != [] {
      SumChanges(a[..|a| - 1], b[..|b| - 1], k, x);
    }
  }

  lemma {:induction false} SumOfZeros(a: seq<real>)
    requires forall i :: 0 <= i < |a| ==> a[i] == 0.0
    ensures Sum(a) == 0.0
    decreases |a|
  {
    if a != [] {
      SumOfZeros(a[..|a| - 1]);
    }
  }

  /** Without weights nothing weighs anything. */
  lemma {:induction false} NothingWeighs(t: Trie, prefix: Text)
    ensures FillOut(t, prefix, map[]).weight == 0.0
    decreases t
  {
    var u := FilledUnsorted(t, prefix, map[]);
    forall i | 0 <= i < |t.kids| ensures u.kids[i].weight == 0.0 {
      NothingWeighs(t.kids[i], u.fullPrefix);
    }
    SumOfZeros(Weights(u.kids));
  }

  ghost predicate KidHasNode(t: Trie, full: Text, s: Text, i: nat)
    requires i < |t.kids|
  {
    HasNode(t.kids[i], full + t.kids[i].prefix, s)
  }

  /** The child that has the node `s`, if any. */
  lemma KidWithNode(t: Trie, full: Text, s: Text) returns (k: nat)
    requires Deterministic(t)
    ensures k < |t.kids| <==> HasNode(t, full, s) && s != full
    ensures forall i: nat :: i < |t.kids| ==> (KidHasNode(t, full, s, i) <==> i == k)
  {
    k := |t.kids|;
    if i: nat :| i < |t.kids| && KidHasNode(t, full, s, i) {
      k := i;
      forall j: nat | j < |t.kids| && KidHasNode(t, full, s, j) ensures j == k {
        OneKidHasNode(t, full, s, i, j);
      }
      OneKidHasNode(t, full, s, i, i);
    } else if HasNode(t, full, s) && s != full {
      var i :| 0 <= i < |t.kids| && HasNode(t.kids[i], full + t.kids[i].prefix, s);
      assert KidHasNode(t, full, s, i);
    }
  }

  lemma FilledWeight(t: Trie, prefix: Text, table: WeightTable)
    ensures var u := FilledUnsorted(t, prefix, table);
            FillOut(t, prefix, table).weight == u.weight == WeightOf(table, u.fullPrefix) + Sum(Weights(u.kids))
  {
  }

  /** The node's own weight and its child with the node `s` cannot both change. */
  lemma WeightAddsAt(t: Trie, prefix: Text, table: WeightTable, s: Text, x: real, k: nat)
    requires s !in table && (k < |t.kids| <==> HasNode(t, prefix + t.prefix, s) && s != prefix + t.prefix)
    requires forall i: nat :: i < |t.kids| ==>
      FilledUnsorted(t, prefix, table[s := x]).kids[i].weight
        == FilledUnsorted(t, prefix, table).kids[i].weight + if i == k then x else 0.0
    ensures FillOut(t, prefix, table[s := x]).weight
              == FillOut(t, prefix, table).weight + if HasNode(t, prefix + t.prefix, s) then x else 0.0
  {
    FilledWeight(t, prefix, table);
    FilledWeight(t, prefix, table[s := x]);
    SumChanges(Weights(FilledUnsorted(t, prefix, table).kids), Weights(FilledUnsorted(t, prefix, table[s := x]).kids), k, x);
  }

  /**
   For any table, keywords or not: one more weighted word adds its weight once to each node at or above the
   node that it names, and to no other.
   */
  lemma {:induction false} WeightAdds(t: Trie, prefix: Text, table: WeightTable, s: Text, x: real)
    requires Deterministic(t) && s !in table
    ensures FillOut(t, prefix, table[s := x]).weight
              == FillOut(t, prefix, table).weight + if HasNode(t, prefix + t.prefix, s) then x else 0.0
    decreases t
  {
    var full := prefix + t.prefix;
    var k := KidWithNode(t, full, s);
    forall i: nat | i < |t.kids|
      ensures FilledUnsorted(t, prefix, table[s := x]).kids[i].weight
                == FilledUnsorted(t, prefix, table).kids[i].weight + if i == k then x else 0.0
    {
      WeightAdds(t.kids[i], full, table, s, x);
      assert KidHasNode(t, full, s, i) <==> i == k;
    }
    WeightAddsAt(t, prefix, table, s, x, k);
  }
}
