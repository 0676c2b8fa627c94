/** The generator's trie as it is in memory: nodes whose fields the passes overwrite. */
module KeywordGenerator {
  import opened Wrappers
  import opened KeywordTrie
  import opened KeywordWeights
  import opened KeywordCode
  import opened KeywordCompiler

  type Dict = seq<(Text, TrieNode)>

  /**
   `keys` is the dictionary of children in insertion order, and after fillOut() the sorted list
   that replaces it.  `model` is the value of the whole subtree.
   */
  class TrieNode {
    var prefix: Text
    var keys: Dict
    var value: Option<Token>
    var fullPrefix: Text
    var weight: real
    ghost var Repr: set<object>
    ghost var model: Trie

    ghost predicate Valid()
      reads this, Repr
      ensures Valid() ==> this in Repr
      decreases Repr, 0
    {
      && this in Repr
      && model.prefix == prefix && model.value == value && model.fullPrefix == fullPrefix && model.weight == weight
      && DictValid(keys, model.kids, Repr - {this})
    }

    constructor (prefix: Text)
      ensures Valid() && fresh(Repr)
      ensures model == NewTrie(prefix)
    {
      this.prefix, keys, value, fullPrefix, weight := prefix, [], None, [], 0.0;
      Repr, model := {this}, NewTrie(prefix);
    }

    // ----- Insertion -----

    /** Makes sure that there is a child under `p`. */
    method EnsureKey(p: Text) returns (i: nat)
      requires Valid()
      modifies this
      ensures Valid() && fresh(Repr - old(Repr)) && old(Repr) <= Repr
      ensures i == KeyIndex(old(model).kids, p) < |keys|
      ensures model == if i < |old(model).kids| then old(model)
                       else old(model).(kids := old(model).kids + [NewTrie(p)])
    {
      i := Lookup(keys, model.kids, Repr - {this}, p);
      if i == |keys| {
        var kid := new TrieNode(p);
        DictAppend(keys, model.kids, Repr - {this}, kid);
        keys := keys + [(p, kid)];
        Repr, model := Repr + kid.Repr, model.(kids := model.kids + [kid.model]);
        assert Repr - {this} == old(Repr) - {this} + kid.Repr;
      }
    }

    method InsertBelow(i: nat, key: Text, token: Token)
      requires Valid() && i < |keys|
      modifies Repr
      ensures Valid() && fresh(Repr - old(Repr))
      ensures i < |old(model).kids|
      ensures model == old(model).(kids := old(model).kids[i := KeywordTrie.Insert(old(model).kids[i], key, token)])
      decreases |key|, 2
    {
      var kid := keys[i].1;
      ghost var others := Repr - {this} - kid.Repr;
      DictWithout(keys, model.kids, Repr - {this}, i);
      kid.Insert(key, token);
      DictReplace(keys, model.kids, others, i);
      Repr, model := Repr + kid.Repr, model.(kids := model.kids[i := kid.model]);
      DictGrow(keys, model.kids, others + kid.Repr, Repr - {this});
    }

    method Insert(key: Text, token: Token)
      requires Valid()
      modifies Repr
      ensures Valid() && fresh(Repr - old(Repr))
      ensures model == KeywordTrie.Insert(old(model), key, token)
      decreases |key|, 1
    {
      if |key| == 0 {
        value := Some(token);
        model := model.(value := value);
        return;
      }
      var i := EnsureKey(key[..1]);
      InsertBelow(i, key[1..], token);
    }

    // ----- Merging -----

    /** A new dictionary of the merged children. */
    method MergedKeys() returns (newKeys: Dict, ghost newOwned: set<object>)
      requires Valid()
      modifies Repr - {this}
      ensures DictValid(newKeys, CoalesceFirst(model.kids, |model.kids|), newOwned)
      ensures this !in newOwned && fresh(newOwned - old(Repr))
      decreases Repr, 0
    {
      newKeys, newOwned := [], {};
      ghost var kids, rest := model.kids, Repr - {this};
      var k := 0;
      while k < |keys|
        invariant k <= |keys| == |kids| && unchanged(this)
        invariant DictValid(newKeys, CoalesceFirst(kids, k), newOwned)
        invariant DictValid(keys[k..], kids[k..], rest)
        invariant this !in newOwned && newOwned !! rest && fresh(newOwned - old(Repr))
        invariant rest <= old(Repr) - {this}
      {
        DictTailAt(keys, kids, rest, k);
        rest := rest - keys[k].1.Repr;
        newKeys, newOwned := CoalesceInto(keys[k].1, newKeys, CoalesceFirst(kids, k), newOwned);
        k := k + 1;
      }
    }

    /** Rebuilds the dictionary of children out of their merged forms. */
    method CoalesceKeys()
      requires Valid()
      modifies Repr
      ensures Valid() && fresh(Repr - old(Repr))
      ensures model == KeywordTrie.CoalesceKids(old(model))
      decreases Repr, 1
    {
      var newKeys;
      ghost var newOwned;
      newKeys, newOwned := MergedKeys();
      keys := newKeys;
      Repr, model := {this} + newOwned, model.(kids := CoalesceFirst(model.kids, |model.kids|));
      assert Repr - {this} == newOwned;
    }

    /** A new node in place of this one and its only child, whose own children it takes over. */
    method JoinOnlyChild() returns (r: TrieNode)
      requires Valid() && |keys| == 1
      ensures r.Valid() && fresh(r) && fresh(r.Repr - Repr)
      ensures |model.kids| == 1
      ensures r.model == Trie(model.prefix + model.kids[0].prefix, model.kids[0].value, model.kids[0].kids, [], 0.0)
    {
      var suffix := keys[0].1;
      DictTail(keys, model.kids, Repr - {this});
      r := new TrieNode(prefix + keys[0].0);
      assert r.prefix == prefix + model.kids[0].prefix && r.fullPrefix == [] && r.weight == 0.0;
      r.value := suffix.value;
      r.keys := suffix.keys;
      r.model := Trie(r.prefix, suffix.value, suffix.model.kids, [], 0.0);
      r.Repr := {r} + (suffix.Repr - {suffix});
      assert r.Repr - {r} == suffix.Repr - {suffix};
    }

    /** Returns the merged form of the node, which is the node itself unless it joins its only child. */
    method Coalesce() returns (r: TrieNode)
      requires Valid()
      modifies Repr
      ensures Valid() && fresh(Repr - old(Repr))
      ensures r.Valid() && fresh(r.Repr - old(Repr))
      ensures model == KeywordTrie.CoalesceKids(old(model))
      ensures r.model == KeywordTrie.Coalesce(old(model))
      decreases Repr, 2
    {
      CoalesceKeys();
      if value != None || |keys| != 1 {
        return this;
      }
      r := JoinOnlyChild();
    }

    // ----- Weighing and sorting -----

    /** Completes the children, and returns the node's weight. */
    method FillOutKeys(table: WeightTable) returns (w: real)
      requires Valid()
      modifies Repr - {this}
      ensures unchanged(this)
      ensures DictValid(keys, FillOutKids(model.kids, fullPrefix, table), Repr - {this})
      ensures w == WeightOf(table, fullPrefix) + Sum(Weights(FillOutKids(model.kids, fullPrefix, table)))
      decreases Repr, 0
    {
      ghost var filled := FillOutKids(model.kids, fullPrefix, table);
      ghost var kids, done, rest := model.kids, {}, Repr - {this};
      w := WeightOf(table, fullPrefix);
      var k := 0;
      while k < |keys|
        invariant k <= |keys| == |kids| == |filled|
        invariant DictValid(keys[..k], filled[..k], done)
        invariant DictValid(keys[k..], kids[k..], rest)
        invariant done !! rest && done <= Repr - {this} && rest <= Repr - {this}
        invariant w == WeightOf(table, fullPrefix) + Sum(Weights(filled)[..k])
      {
        var kid := keys[k].1;
        DictTailAt(keys, kids, rest, k);
        rest := rest - kid.Repr;
        kid.FillOut(fullPrefix, table);
        DictHeadAt(keys, filled, done, k);
        SumNext(filled, k);
        done := done + kid.Repr;
        w := w + kid.weight;
        k := k + 1;
      }
      assert keys[..k] == keys && filled[..k] == filled && Weights(filled)[..k] == Weights(filled);
      DictGrow(keys, filled, done, Repr - {this});
    }

    method FillOut(prefix: Text, table: WeightTable)
      requires Valid()
      modifies Repr
      ensures Valid() && Repr == old(Repr)
      ensures model == KeywordWeights.FillOut(old(model), prefix, table)
      decreases Repr, 2
    {
      SetFullPrefix(prefix + this.prefix);
      FillOutIgnoresFullPrefix(old(model), fullPrefix, prefix, table);
      var sorted, w := FillOutChildren(prefix, table);
      Install(sorted, w, KeywordWeights.FillOut(model, prefix, table));
    }

    method SetFullPrefix(full: Text)
      requires Valid()
      modifies this
      ensures Valid() && Repr == old(Repr) && prefix == old(prefix) && fullPrefix == full
      ensures model == old(model).(fullPrefix := full)
    {
      fullPrefix, model := full, model.(fullPrefix := full);
    }

    method FillOutChildren(ghost prefix: Text, table: WeightTable) returns (sorted: Dict, w: real)
      requires Valid() && fullPrefix == prefix + this.prefix
      modifies Repr - {this}
      ensures unchanged(this)
      ensures var r := KeywordWeights.FillOut(model, prefix, table);
              DictValid(sorted, r.kids, Repr - {this}) && r.weight == w
      decreases Repr, 1
    {
      w := FillOutKeys(table);
      sorted := SortChildren(keys, FillOutKids(model.kids, fullPrefix, table), Repr - {this});
    }

    method Install(keys: Dict, weight: real, ghost filled: Trie)
      requires this in Repr && DictValid(keys, filled.kids, Repr - {this}) && filled.weight == weight
      requires filled.prefix == prefix && filled.value == value && filled.fullPrefix == fullPrefix
      modifies this
      ensures Valid() && Repr == old(Repr) && model == filled
    {
      this.keys, this.weight, model := keys, weight, filled;
    }

    // ----- Printing -----

    method PrintSubTreeAsC() returns (code: seq<Stmt>)
      requires Valid() && FullPrefixes(model)
      ensures code == Emit(model)
      decreases Repr
    {
      code := [];
      if value != None {
        code := [GuardedReturn(|fullPrefix|, |fullPrefix|, fullPrefix, value.value)];
      }
      var rootIndex, branches, i := |fullPrefix|, [], 0;
      while i < |keys|
        invariant i <= |keys| && branches == EmitBranches(model)[..i]
      {
        var (k, trie) := keys[i];
        assert trie.Valid() && trie.model == model.kids[i] && model.kids[i].fullPrefix == fullPrefix + model.kids[i].prefix;
        var baseIndex := rootIndex;
        if baseIndex > 0 && |k| == 3 {
          baseIndex := baseIndex - 1;
          k := [trie.fullPrefix[baseIndex]] + k;
        }
        var body := trie.PrintSubTreeAsC();
        branches := branches + [Branch(Test(baseIndex, k), body)];
        i := i + 1;
      }
      assert branches == EmitBranches(model);
      if branches != [] {
        code := code + [IfElse(branches)];
      }
    }

    method MaxLength() returns (max: nat)
      requires Valid()
      ensures max == KeywordCompiler.MaxLength(model)
      decreases Repr
    {
      max := |fullPrefix|;
      var i := 0;
      while i < |keys|
        invariant i <= |keys| && MaxLengthOf(model.kids, |fullPrefix|) == MaxLengthOf(model.kids[i..], max)
      {
        var l := keys[i].1.MaxLength();
        if l > max {
          max := l;
        }
        assert model.kids[i..][1..] == model.kids[i + 1..];
        i := i + 1;
      }
    }
  }

  lemma SumNext(kids: seq<Trie>, k: nat)
    requires k < |kids|
    ensures Sum(Weights(kids)[..k + 1]) == Sum(Weights(kids)[..k]) + kids[k].weight
  {
    assert Weights(kids)[..k + 1][..k] == Weights(kids)[..k];
  }

  lemma FillOutIgnoresFullPrefix(t: Trie, full: Text, prefix: Text, table: WeightTable)
    ensures KeywordWeights.FillOut(t.(fullPrefix := full), prefix, table) == KeywordWeights.FillOut(t, prefix, table)
  {
  }

  /** The children, heaviest first, each paired with its prefix. */
  method SortChildren(d: Dict, ghost kids: seq<Trie>, ghost owned: set<object>) returns (r: Dict)
    requires DictValid(d, kids, owned)
    ensures DictValid(r, Sorted(kids), owned)
  {
    var ws: seq<real> := [];
    var i := 0;
    while i < |d|
      invariant i <= |d| && ws == Weights(kids)[..i]
    {
      ws := ws + [d[i].1.weight];
      i := i + 1;
    }
    assert ws == Weights(kids);
    r := Pick(d, StableOrder(ws));
    DictSorted(d, kids, owned);
  }

  /** Puts the merged form of a child into the new dictionary, under its own prefix. */
  method CoalesceInto(kid: TrieNode, d: Dict, ghost kids: seq<Trie>, ghost owned: set<object>)
    returns (d': Dict, ghost owned': set<object>)
    requires kid.Valid() && DictValid(d, kids, owned) && kid.Repr !! owned
    modifies kid.Repr
    ensures DictValid(d', Put(kids, KeywordTrie.Coalesce(old(kid.model))), owned')
    ensures fresh(owned' - owned - old(kid.Repr))
    decreases kid.Repr, 3
  {
    var t := kid.Coalesce();
    var i := Lookup(d, kids, owned, t.prefix);
    DictPut(d, kids, owned, t);
    d' := if i < |d| then d[i := (t.prefix, t)] else d + [(t.prefix, t)];
    owned' := owned + t.Repr;
  }

  // ----- Dictionaries -----

  /** The entries of `d` are the subtries `kids`, which share no node and lie within `owned`. */
  ghost predicate DictValid(d: Dict, kids: seq<Trie>, owned: set<object>)
    reads owned
    decreases owned, 1
  {
    && |d| == |kids|
    && (forall i :: 0 <= i < |d| ==>
          var kid := d[i].1;
          kid in owned && kid.Repr <= owned && kid.Valid() && d[i].0 == kid.prefix && kids[i] == kid.model)
    && (forall i, j :: 0 <= i < j < |d| ==> d[i].1.Repr !! d[j].1.Repr)
  }

  /** The same for every entry but the one at `hole`. */
  ghost predicate DictValidBut(d: Dict, kids: seq<Trie>, owned: set<object>, hole: nat)
    reads owned
  {
    && |d| == |kids|
    && (forall i :: 0 <= i < |d| && i != hole ==>
          var kid := d[i].1;
          kid in owned && kid.Repr <= owned && kid.Valid() && d[i].0 == kid.prefix && kids[i] == kid.model)
    && (forall i, j :: 0 <= i < j < |d| && i != hole && j != hole ==> d[i].1.Repr !! d[j].1.Repr)
  }

  lemma DictAppend(d: Dict, kids: seq<Trie>, owned: set<object>, kid: TrieNode)
    requires DictValid(d, kids, owned) && kid.Valid() && kid.Repr !! owned
    ensures DictValid(d + [(kid.prefix, kid)], kids + [kid.model], owned + kid.Repr)
  {
  }

  lemma DictWithout(d: Dict, kids: seq<Trie>, owned: set<object>, i: nat)
    requires DictValid(d, kids, owned) && i < |d|
    ensures d[i].1 in owned && d[i].1.Valid()
    ensures DictValidBut(d, kids, owned - d[i].1.Repr, i)
  {
  }

  lemma DictReplace(d: Dict, kids: seq<Trie>, owned: set<object>, i: nat)
    requires DictValidBut(d, kids, owned, i) && i < |d|
    requires d[i].1.Valid() && d[i].0 == d[i].1.prefix && d[i].1.Repr !! owned
    ensures DictValid(d, kids[i := d[i].1.model], owned + d[i].1.Repr)
  {
  }

  lemma DictGrow(d: Dict, kids: seq<Trie>, owned: set<object>, more: set<object>)
    requires DictValid(d, kids, owned) && owned <= more
    ensures DictValid(d, kids, more)
  {
  }

  lemma DictTail(d: Dict, kids: seq<Trie>, owned: set<object>)
    requires DictValid(d, kids, owned) && d != []
    ensures d[0].1 in owned && d[0].1.Valid() && d[0].1.Repr <= owned && d[0].1.model == kids[0]
    ensures DictValid(d[1..], kids[1..], owned - d[0].1.Repr)
  {
  }

  lemma DictTailAt(d: Dict, kids: seq<Trie>, owned: set<object>, k: nat)
    requires k < |d| == |kids| && DictValid(d[k..], kids[k..], owned)
    ensures d[k].1 in owned && d[k].1.Valid() && d[k].1.Repr <= owned && d[k].1.model == kids[k]
    ensures d[k].0 == d[k].1.prefix
    ensures DictValid(d[k + 1..], kids[k + 1..], owned - d[k].1.Repr)
  {
    assert d[k..][0] == d[k] && kids[k..][0] == kids[k];
    DictTail(d[k..], kids[k..], owned);
    assert d[k..][1..] == d[k + 1..] && kids[k..][1..] == kids[k + 1..];
  }

  lemma DictHeadAt(d: Dict, kids: seq<Trie>, owned: set<object>, k: nat)
    requires k < |d| == |kids| && DictValid(d[..k], kids[..k], owned)
    requires d[k].1.Valid() && d[k].0 == d[k].1.prefix && d[k].1.model == kids[k] && d[k].1.Repr !! owned
    ensures DictValid(d[..k + 1], kids[..k + 1], owned + d[k].1.Repr)
  {
    DictAppend(d[..k], kids[..k], owned, d[k].1);
    assert d[..k + 1] == d[..k] + [(d[k].1.prefix, d[k].1)] && kids[..k + 1] == kids[..k] + [kids[k]];
  }

  lemma DictPick(d: Dict, kids: seq<Trie>, owned: set<object>, order: seq<nat>)
    requires DictValid(d, kids, owned) && IsPermutation(order, |d|)
    ensures DictValid(Pick(d, order), Pick(kids, order), owned)
  {
    forall a, b | 0 <= a < b < |d| ensures d[order[a]].1.Repr !! d[order[b]].1.Repr {
      assert order[a] != order[b];
      assert order[a] < order[b] || order[b] < order[a];
    }
  }

  lemma DictSorted(d: Dict, kids: seq<Trie>, owned: set<object>)
    requires DictValid(d, kids, owned)
    ensures DictValid(Pick(d, StableOrder(Weights(kids))), Sorted(kids), owned)
  {
    StableOrderIsPermutation(Weights(kids));
    DictPick(d, kids, owned, StableOrder(Weights(kids)));
  }

  /** Storing a node under its prefix replaces an entry or adds one. */
  lemma DictPut(d: Dict, kids: seq<Trie>, owned: set<object>, t: TrieNode)
    requires DictValid(d, kids, owned) && t.Valid() && t.Repr !! owned
    ensures var i, entry := KeyIndex(kids, t.prefix), (t.prefix, t);
            DictValid(if i < |d| then d[i := entry] else d + [entry], Put(kids, t.model), owned + t.Repr)
  {
  }

  /** Whether there is a child under `p`, and where. */
  method Lookup(d: Dict, ghost kids: seq<Trie>, ghost owned: set<object>, p: Text) returns (i: nat)
    requires DictValid(d, kids, owned)
    ensures i == KeyIndex(kids, p)
  {
    i := 0;
    while i < |d| && d[i].0 != p
      invariant i <= |d|
      invariant forall j :: 0 <= j < i ==> d[j].0 != p
    {
      i := i + 1;
    }
    assert forall j :: 0 <= j < |d| ==> d[j].0 == d[j].1.prefix == kids[j].prefix;
  }
}
