/** The last pass, fillOut(): full prefixes, weights, and siblings sorted by falling weight. */
module KeywordWeights {
  import opened KeywordTrie

  type WeightTable = map<Text, real>

  function WeightOf(table: WeightTable, s: Text): real {
    if s in table then table[s] else 0.0
  }

  // ----- Stable sorting by falling weight -----

  /** Puts index `i` behind every index of `order` that is at least as heavy. */
  function InsertIndex(ws: seq<real>, order: seq<nat>, i: nat): (r: seq<nat>)
    requires i < |ws| && forall a :: 0 <= a < |order| ==> order[a] < |ws|
    ensures |r| == |order| + 1 && forall a :: 0 <= a < |r| ==> r[a] < |ws|
  {
    if order == [] then [i]
    else
      var last := order[|order| - 1];
      if ws[last] >= ws[i] then order + [i] else InsertIndex(ws, order[..|order| - 1], i) + [last]
  }

  function OrderFirst(ws: seq<real>, n: nat): (r: seq<nat>)
    requires n <= |ws|
    ensures |r| == n && forall a :: 0 <= a < n ==> r[a] < |ws|
  {
    if n == 0 then []
    else
      InsertIndex(ws, OrderFirst(ws, n - 1), n - 1)
  }

  /** The positions of `ws` from the heaviest to the lightest, equals in their old order. */
  function StableOrder(ws: seq<real>): (r: seq<nat>)
    ensures |r| == |ws| && forall a :: 0 <= a < |r| ==> r[a] < |ws|
  {
    OrderFirst(ws, |ws|)
  }

  ghost predicate HeavyFirst(ws: seq<real>, order: seq<nat>)
    requires forall a :: 0 <= a < |order| ==> order[a] < |ws|
  {
    forall a, b :: 0 <= a < b < |order| ==> Precedes(ws, order[a], order[b])
  }

  predicate Precedes(ws: seq<real>, i: nat, j: nat)
    requires i < |ws| && j < |ws|
  {
    ws[i] > ws[j] || (ws[i] == ws[j] && i < j)
  }

  lemma {:induction false} InsertIndexAdds(ws: seq<real>, order: seq<nat>, i: nat, j: nat)
    requires i < |ws| && forall a :: 0 <= a < |order| ==> order[a] < |ws|
    ensures j in InsertIndex(ws, order, i) <==> j == i || j in order
  {
    if order != [] {
      var front, last := order[..|order| - 1], order[|order| - 1];
      assert order == front + [last];
      if ws[last] < ws[i] {
        InsertIndexAdds(ws, front, i, j);
      }
    }
  }

  lemma {:induction false} InsertIndexSorts(ws: seq<real>, order: seq<nat>, i: nat)
    requires i < |ws| && forall a :: 0 <= a < |order| ==> order[a] < i
    requires HeavyFirst(ws, order)
    ensures HeavyFirst(ws, InsertIndex(ws, order, i))
  {
    if order != [] && ws[order[|order| - 1]] < ws[i] {
      var front, last := order[..|order| - 1], order[|order| - 1];
      var r := InsertIndex(ws, front, i);
      InsertIndexSorts(ws, front, i);
      forall a | 0 <= a < |r| ensures Precedes(ws, r[a], last) {
        InsertIndexAdds(ws, front, i, r[a]);
        assert r[a] in front ==> exists b :: 0 <= b < |front| && order[b] == r[a];
      }
    }
  }

  ghost predicate IsPermutation(order: seq<nat>, n: nat) {
    && |order| == n
    && (forall a, b :: 0 <= a < b < n ==> order[a] != order[b])
    && (forall a :: 0 <= a < n ==> order[a] < n)
    && (forall i: nat :: i < n ==> i in order)
  }

  lemma {:induction false} OrderFirstSorts(ws: seq<real>, n: nat)
    requires n <= |ws|
    ensures HeavyFirst(ws, OrderFirst(ws, n))
    ensures forall i: nat :: i in OrderFirst(ws, n) <==> i < n
  {
    if n > 0 {
      var front := OrderFirst(ws, n - 1);
      OrderFirstSorts(ws, n - 1);
      forall a | 0 <= a < |front| ensures front[a] < n - 1 {
        assert front[a] in front;
      }
      InsertIndexSorts(ws, front, n - 1);
      forall i: nat ensures i in OrderFirst(ws, n) <==> i < n {
        InsertIndexAdds(ws, front, n - 1, i);
      }
    }
  }

  function Pick<T>(s: seq<T>, order: seq<nat>): (r: seq<T>)
    requires forall a :: 0 <= a < |order| ==> order[a] < |s|
    ensures |r| == |order| && forall a :: 0 <= a < |r| ==> r[a] == s[order[a]]
  {
    seq(|order|, a requires 0 <= a < |order| => s[order[a]])
  }

  // ----- The pass -----

  function Sum(ws: seq<real>): real {
    if ws == [] then 0.0 else Sum(ws[..|ws| - 1]) + ws[|ws| - 1]
  }

  function Weights(kids: seq<Trie>): (ws: seq<real>)
    ensures |ws| == |kids| && forall i :: 0 <= i < |ws| ==> ws[i] == kids[i].weight
  {
    seq(|kids|, i requires 0 <= i < |kids| => kids[i].weight)
  }

  function FillOutKids(kids: seq<Trie>, full: Text, table: WeightTable): (r: seq<Trie>)
    ensures |r| == |kids|
    ensures forall i :: 0 <= i < |r| ==> r[i] == FillOut(kids[i], full, table)
    decreases kids, 0
  {
    seq(|kids|, i requires 0 <= i < |kids| => FillOut(kids[i], full, table))
  }

  function FilledUnsorted(t: Trie, prefix: Text, table: WeightTable): (r: Trie)
    ensures r.prefix == t.prefix && r.value == t.value && r.fullPrefix == prefix + t.prefix && |r.kids| == |t.kids|
    ensures forall i :: 0 <= i < |r.kids| ==> r.kids[i] == FillOut(t.kids[i], r.fullPrefix, table)
    decreases t, 1
  {
    var full := prefix + t.prefix;
    var filled := FillOutKids(t.kids, full, table);
    Trie(t.prefix, t.value, filled, full, WeightOf(table, full) + Sum(Weights(filled)))
  }

  function Sorted(kids: seq<Trie>): (r: seq<Trie>)
    ensures |r| == |kids|
  {
    Pick(kids, StableOrder(Weights(kids)))
  }

  function SortKids(t: Trie): Trie {
    t.(kids := Sorted(t.kids))
  }

  function FillOut(t: Trie, prefix: Text, table: WeightTable): (r: Trie)
    ensures r.prefix == t.prefix && r.value == t.value && r.fullPrefix == prefix + t.prefix && |r.kids| == |t.kids|
    decreases t, 2
  {
    SortKids(FilledUnsorted(t, prefix, table))
  }

  // ----- What the pass keeps and establishes -----

  /** The order is a permutation of the positions, heavy first and stable. */
  lemma StableOrderIsPermutation(ws: seq<real>)
    ensures IsPermutation(StableOrder(ws), |ws|) && HeavyFirst(ws, StableOrder(ws))
  {
    OrderFirstSorts(ws, |ws|);
    var r := StableOrder(ws);
    forall a | 0 <= a < |ws| ensures r[a] < |ws| {
      assert r[a] in r;
    }
  }

  /** Lookup does not depend on the order of siblings. */
  lemma FindIgnoresSiblingOrder(t: Trie, order: seq<nat>, s: Text)
    requires Deterministic(t) && IsPermutation(order, |t.kids|)
    ensures Find(t.(kids := Pick(t.kids, order)), s) == Find(t, s)
    ensures Deterministic(t.(kids := Pick(t.kids, order)))
  {
    var u := t.(kids := Pick(t.kids, order));
    assert forall a :: 0 <= a < |u.kids| ==> u.kids[a].prefix != [] && Deterministic(u.kids[a]);
    forall a, b | 0 <= a < b < |u.kids| ensures u.kids[a].prefix[0] != u.kids[b].prefix[0] {
      assert order[a] != order[b];
    }
    if s != [] {
      var i, a := KidFor(t.kids, s[0]), KidFor(u.kids, s[0]);
      if i < |t.kids| {
        assert i in order;
        var b :| 0 <= b < |order| && order[b] == i;
        assert u.kids[b] == t.kids[i];
        assert a == b;
      }
    }
  }

  /** Below `t` every full prefix is the parent's followed by the node's own prefix. */
  ghost predicate FullPrefixes(t: Trie) {
    forall i :: 0 <= i < |t.kids| ==> t.kids[i].fullPrefix == t.fullPrefix + t.kids[i].prefix && FullPrefixes(t.kids[i])
  }

  ghost predicate SortedByWeight(t: Trie) {
    && (forall i :: 0 <= i < |t.kids| ==> SortedByWeight(t.kids[i]))
    && (forall i, j :: 0 <= i < j < |t.kids| ==> t.kids[i].weight >= t.kids[j].weight)
  }

  ghost predicate WellFilled(t: Trie) {
    Deterministic(t) && FullPrefixes(t) && SortedByWeight(t)
  }

  lemma FindAfterSorting(t: Trie, s: Text)
    requires Deterministic(t)
    ensures Find(SortKids(t), s) == Find(t, s) && Deterministic(SortKids(t))
  {
    StableOrderIsPermutation(Weights(t.kids));
    FindIgnoresSiblingOrder(t, StableOrder(Weights(t.kids)), s);
  }

  /** Sorting well-filled siblings gives a well-filled parent. */
  lemma SortKidsKeeps(t: Trie)
    requires Deterministic(t)
    requires forall i :: 0 <= i < |t.kids| ==> t.kids[i].fullPrefix == t.fullPrefix + t.kids[i].prefix
    requires forall i :: 0 <= i < |t.kids| ==> WellFilled(t.kids[i])
    ensures WellFilled(SortKids(t)) && (Compact(t) ==> Compact(SortKids(t)))
  {
    var ws, r := Weights(t.kids), SortKids(t);
    FindAfterSorting(t, []);
    StableOrderIsPermutation(ws);
    forall a, b | 0 <= a < b < |r.kids| ensures r.kids[a].weight >= r.kids[b].weight {
      assert Precedes(ws, StableOrder(ws)[a], StableOrder(ws)[b]);
    }
  }

  lemma ShapeFromKids(t: Trie, u: Trie)
    requires Deterministic(t) && |u.kids| == |t.kids|
    requires forall i :: 0 <= i < |t.kids| ==>
      var kid := u.kids[i];
      && kid.prefix == t.kids[i].prefix && Mergeable(kid) == Mergeable(t.kids[i])
      && Deterministic(kid) && (Compact(t.kids[i]) ==> Compact(kid))
    ensures Deterministic(u) && (Compact(t) ==> Compact(u))
  {
  }

  lemma {:induction false} FillOutShape(t: Trie, prefix: Text, table: WeightTable)
    requires Deterministic(t)
    ensures WellFilled(FillOut(t, prefix, table))
    ensures Compact(t) ==> Compact(FillOut(t, prefix, table))
    decreases t, 1
  {
    FilledUnsortedShape(t, prefix, table);
    SortKidsKeeps(FilledUnsorted(t, prefix, table));
  }

  lemma {:induction false} FilledUnsortedShape(t: Trie, prefix: Text, table: WeightTable)
    requires Deterministic(t)
    ensures var u := FilledUnsorted(t, prefix, table);
            && Deterministic(u)
            && (Compact(t) ==> Compact(u))
            && forall i :: 0 <= i < |u.kids| ==> u.kids[i].prefix == t.kids[i].prefix
                                                 && u.kids[i].fullPrefix == u.fullPrefix + u.kids[i].prefix
                                                 && WellFilled(u.kids[i])
    decreases t, 0
  {
    var u := FilledUnsorted(t, prefix, table);
    forall i | 0 <= i < |t.kids|
      ensures WellFilled(u.kids[i]) && (Compact(t.kids[i]) ==> Compact(u.kids[i]))
    {
      FillOutShape(t.kids[i], prefix + t.prefix, table);
    }
    ShapeFromKids(t, u);
  }

  lemma {:induction false} FindBeforeSorting(t: Trie, prefix: Text, table: WeightTable, s: Text)
    requires Deterministic(t)
    ensures Find(FilledUnsorted(t, prefix, table), s) == Find(t, s)
    decreases t, 0
  {
    if s != [] && KidFor(t.kids, s[0]) < |t.kids| {
      FindAtAfterFillOut(t.kids[KidFor(t.kids, s[0])], prefix + t.prefix, table, s);
    }
    FindKidwise(t, FilledUnsorted(t, prefix, table), s);
  }

  /** The pass changes no entry of the trie. */
  lemma {:induction false} FindAfterFillOut(t: Trie, prefix: Text, table: WeightTable, s: Text)
    requires Deterministic(t)
    ensures Find(FillOut(t, prefix, table), s) == Find(t, s)
    decreases t, 1
  {
    FilledUnsortedShape(t, prefix, table);
    FindAfterSorting(FilledUnsorted(t, prefix, table), s);
    FindBeforeSorting(t, prefix, table, s);
  }

  lemma {:induction false} FindAtAfterFillOut(t: Trie, prefix: Text, table: WeightTable, s: Text)
    requires Deterministic(t)
    ensures FindAt(FillOut(t, prefix, table), s) == FindAt(t, s)
    decreases t, 2
  {
    if t.prefix <= s {
      FindAfterFillOut(t, prefix, table, s[|t.prefix|..]);
    }
  }
}
