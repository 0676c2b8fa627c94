/**
 The keyword trie of KeywordLookupGenerator.py, as a value, with its three passes: insertion,
 merging of single-child chains, and weighing with sorting.  A dictionary of children is kept as
 the sequence of the children in insertion order: every dictionary key is its child's prefix.
 */
module KeywordTrie {
  import opened Wrappers

  /** A character of a keyword or of the buffer, as a UTF-16 code unit (UChar) or a Latin-1 byte (LChar). */
  type CodeUnit = u: int | 0 <= u < 0x10000
  type Text = seq<CodeUnit>
  type Token = string

  /** `fullPrefix` and `weight` are set by the last pass. */
  datatype Trie = Trie(prefix: Text, value: Option<Token>, kids: seq<Trie>, fullPrefix: Text, weight: real)

  datatype Keyword = Keyword(text: Text, token: Token)

  function NewTrie(prefix: Text): Trie {
    Trie(prefix, None, [], [], 0.0)
  }

  // ----- Lookup, the meaning of a trie -----

  /** The first child whose prefix starts with `c`, or |kids|. */
  function KidFor(kids: seq<Trie>, c: CodeUnit): (i: nat)
    ensures i <= |kids|
    ensures i < |kids| ==> kids[i].prefix != [] && kids[i].prefix[0] == c
    ensures forall j :: 0 <= j < i ==> kids[j].prefix == [] || kids[j].prefix[0] != c
  {
    if kids == [] then 0
    else if kids[0].prefix != [] && kids[0].prefix[0] == c then 0
    else 1 + KidFor(kids[1..], c)
  }

  /** The token stored for `s` below `t`, whose own prefix has been consumed. */
  function Find(t: Trie, s: Text): Option<Token>
    decreases t, 0
  {
    if s == [] then t.value
    else
      var i := KidFor(t.kids, s[0]);
      if i < |t.kids| then FindAt(t.kids[i], s) else None
  }

  /** The token stored for `s`, which must first run through the prefix of `t`. */
  function FindAt(t: Trie, s: Text): Option<Token>
    decreases t, 1
  {
    if t.prefix <= s then Find(t, s[|t.prefix|..]) else None
  }

  /** The first characters of siblings are present and pairwise distinct, throughout the trie. */
  ghost predicate Deterministic(t: Trie) {
    && (forall i :: 0 <= i < |t.kids| ==> t.kids[i].prefix != [] && Deterministic(t.kids[i]))
    && (forall i, j :: 0 <= i < j < |t.kids| ==> t.kids[i].prefix[0] != t.kids[j].prefix[0])
  }

  /** Tries whose children agree on prefixes, and on what they hold, hold the same. */
  lemma FindKidwise(t: Trie, u: Trie, s: Text)
    requires t.value == u.value && |t.kids| == |u.kids|
    requires forall i :: 0 <= i < |t.kids| ==> u.kids[i].prefix == t.kids[i].prefix
    requires s != [] ==>
      var i := KidFor(t.kids, s[0]); i < |t.kids| ==> FindAt(u.kids[i], s) == FindAt(t.kids[i], s)
    ensures Find(u, s) == Find(t, s)
  {
    if s != [] {
      assert KidFor(t.kids, s[0]) == KidFor(u.kids, s[0]);
    }
  }

  /** What a trie holds through one child is what the child holds. */
  lemma FindThroughKid(t: Trie, i: nat, s: Text)
    requires Deterministic(t) && i < |t.kids|
    ensures Find(t, t.kids[i].prefix + s) == Find(t.kids[i], s)
  {
    var r := t.kids[i].prefix + s;
    assert KidFor(t.kids, r[0]) == i;
    assert r[|t.kids[i].prefix|..] == s;
  }

  // ----- Insertion -----

  /** Where the dictionary key `p` is, or |kids|. */
  function KeyIndex(kids: seq<Trie>, p: Text): (i: nat)
    ensures i <= |kids|
    ensures i < |kids| ==> kids[i].prefix == p
    ensures forall j :: 0 <= j < i ==> kids[j].prefix != p
  {
    if kids == [] then 0
    else if kids[0].prefix == p then 0
    else 1 + KeyIndex(kids[1..], p)
  }

  function Insert(t: Trie, key: Text, token: Token): Trie
    decreases key
  {
    if key == [] then t.(value := Some(token))
    else
      var i := KeyIndex(t.kids, key[..1]);
      if i < |t.kids|
      then t.(kids := t.kids[i := Insert(t.kids[i], key[1..], token)])
      else t.(kids := t.kids + [Insert(NewTrie(key[..1]), key[1..], token)])
  }

  function InsertAll(t: Trie, keywords: seq<Keyword>): Trie
    decreases |keywords|
  {
    if keywords == [] then t
    else
      var last := keywords[|keywords| - 1];
      Insert(InsertAll(t, keywords[..|keywords| - 1]), last.text, last.token)
  }

  /** The token of the last keyword spelled `s`. */
  function LastToken(keywords: seq<Keyword>, s: Text): Option<Token> {
    if keywords == [] then None
    else
      var last := keywords[|keywords| - 1];
      if last.text == s then Some(last.token) else LastToken(keywords[..|keywords| - 1], s)
  }

  /** Before merging every edge is one character and no two siblings share it. */
  ghost predicate OneCharEdges(t: Trie) {
    && (forall i :: 0 <= i < |t.kids| ==> |t.kids[i].prefix| == 1 && OneCharEdges(t.kids[i]))
    && (forall i, j :: 0 <= i < j < |t.kids| ==> t.kids[i].prefix != t.kids[j].prefix)
  }

  lemma {:induction false} OneCharEdgesAreDeterministic(t: Trie)
    requires OneCharEdges(t)
    ensures Deterministic(t)
  {
    forall i | 0 <= i < |t.kids| ensures Deterministic(t.kids[i]) {
      OneCharEdgesAreDeterministic(t.kids[i]);
    }
    forall i, j | 0 <= i < j < |t.kids| ensures t.kids[i].prefix[0] != t.kids[j].prefix[0] {
      assert t.kids[i].prefix == [t.kids[i].prefix[0]];
      assert t.kids[j].prefix == [t.kids[j].prefix[0]];
    }
  }

  lemma {:induction false} InsertKeepsOneCharEdges(t: Trie, key: Text, token: Token)
    requires OneCharEdges(t)
    ensures OneCharEdges(Insert(t, key, token))
    ensures Insert(t, key, token).prefix == t.prefix
    decreases key
  {
    if key != [] {
      var i := KeyIndex(t.kids, key[..1]);
      InsertKeepsOneCharEdges(if i < |t.kids| then t.kids[i] else NewTrie(key[..1]), key[1..], token);
    }
  }

  /** With one-character edges, the child for a character is the one the dictionary holds under it. */
  lemma KidForIsKeyIndex(kids: seq<Trie>, c: CodeUnit)
    requires forall i :: 0 <= i < |kids| ==> |kids[i].prefix| == 1
    ensures KidFor(kids, c) == KeyIndex(kids, [c])
  {
    if kids != [] {
      assert kids[0].prefix == [kids[0].prefix[0]];
      KidForIsKeyIndex(kids[1..], c);
    }
  }

  /** Lookup in a trie with one-character edges consumes one character at a time. */
  lemma FindOneChar(t: Trie, s: Text)
    requires OneCharEdges(t) && s != []
    ensures var i := KeyIndex(t.kids, [s[0]]);
            Find(t, s) == if i < |t.kids| then Find(t.kids[i], s[1..]) else None
  {
    KidForIsKeyIndex(t.kids, s[0]);
    assert [s[0]] <= s;
  }

  /** The dictionary key under which insertion leaves a child, and the other keys. */
  lemma KeysAfterInsert(t: Trie, key: Text, token: Token, p: Text)
    requires OneCharEdges(t) && key != []
    ensures var u, i := Insert(t, key, token), KeyIndex(t.kids, key[..1]);
            var kid := if i < |t.kids| then t.kids[i] else NewTrie(key[..1]);
            var j, k := KeyIndex(t.kids, p), KeyIndex(u.kids, p);
            if p == key[..1] then k == i < |u.kids| && u.kids[i] == Insert(kid, key[1..], token)
            else (k < |u.kids| <==> j < |t.kids|) && (j < |t.kids| ==> j == k && u.kids[j] == t.kids[j])
  {
    var u, i := Insert(t, key, token), KeyIndex(t.kids, key[..1]);
    var kid := if i < |t.kids| then t.kids[i] else NewTrie(key[..1]);
    InsertKeepsOneCharEdges(kid, key[1..], token);
    assert u.kids[i].prefix == key[..1];
    assert forall k :: 0 <= k < |t.kids| ==> u.kids[k].prefix == t.kids[k].prefix;
  }

  lemma FindAfterInsertStep(t: Trie, key: Text, token: Token, s: Text)
    requires OneCharEdges(t) && key != [] && s != []
    ensures var i := KeyIndex(t.kids, key[..1]);
            var kid := if i < |t.kids| then t.kids[i] else NewTrie(key[..1]);
            Find(Insert(t, key, token), s)
              == if s[0] == key[0] then Find(Insert(kid, key[1..], token), s[1..]) else Find(t, s)
  {
    InsertKeepsOneCharEdges(t, key, token);
    FindOneChar(t, s);
    FindOneChar(Insert(t, key, token), s);
    KeysAfterInsert(t, key, token, [s[0]]);
    assert key[..1] == [key[0]];
    assert [s[0]][0] == s[0] && [key[0]][0] == key[0];
  }

  /** Insertion adds or overwrites one entry and leaves every other lookup alone. */
  lemma {:induction false} FindAfterInsert(t: Trie, key: Text, token: Token, s: Text)
    requires OneCharEdges(t)
    ensures Find(Insert(t, key, token), s) == if s == key then Some(token) else Find(t, s)
    decreases key
  {
    if key != [] && s != [] {
      FindAfterInsertStep(t, key, token, s);
      if s[0] == key[0] {
        var i := KeyIndex(t.kids, key[..1]);
        var kid := if i < |t.kids| then t.kids[i] else NewTrie(key[..1]);
        FindAfterInsert(kid, key[1..], token, s[1..]);
        assert s == [s[0]] + s[1..] && key == [s[0]] + key[1..];
        FindOneChar(t, s);
        assert [s[0]] == key[..1];
      }
    }
  }

  lemma {:induction false} FindAfterInsertAll(keywords: seq<Keyword>, s: Text)
    ensures var t := InsertAll(NewTrie([]), keywords);
            OneCharEdges(t) && t.prefix == [] && Find(t, s) == LastToken(keywords, s)
    decreases |keywords|
  {
    if keywords != [] {
      var last, rest := keywords[|keywords| - 1], keywords[..|keywords| - 1];
      FindAfterInsertAll(rest, s);
      InsertKeepsOneCharEdges(InsertAll(NewTrie([]), rest), last.text, last.token);
      FindAfterInsert(InsertAll(NewTrie([]), rest), last.text, last.token, s);
    }
  }

  // ----- Merging single-child chains -----

  /** Stores a child in a dictionary under its prefix. */
  function Put(kids: seq<Trie>, t: Trie): seq<Trie> {
    var i := KeyIndex(kids, t.prefix);
    if i < |kids| then kids[i := t] else kids + [t]
  }

  function CoalesceFirst(kids: seq<Trie>, n: nat): (r: seq<Trie>)
    requires n <= |kids|
    decreases kids, n
  {
    if n == 0 then [] else Put(CoalesceFirst(kids, n - 1), Coalesce(kids[n - 1]))
  }

  /** What coalesce() leaves in the node it is called on; the root keeps this form. */
  function CoalesceKids(t: Trie): Trie
    decreases t, 0
  {
    t.(kids := CoalesceFirst(t.kids, |t.kids|))
  }

  /** What coalesce() returns. */
  function Coalesce(t: Trie): Trie
    decreases t, 1
  {
    var u := CoalesceKids(t);
    if u.value.Some? || |u.kids| != 1 then u
    else Trie(u.prefix + u.kids[0].prefix, u.kids[0].value, u.kids[0].kids, [], 0.0)
  }

  ghost predicate DeterministicKids(kids: seq<Trie>) {
    && (forall i :: 0 <= i < |kids| ==> kids[i].prefix != [] && Deterministic(kids[i]))
    && (forall i, j :: 0 <= i < j < |kids| ==> kids[i].prefix[0] != kids[j].prefix[0])
  }

  /** No node below `t` is valueless with exactly one child. */
  ghost predicate Compact(t: Trie) {
    forall i :: 0 <= i < |t.kids| ==> !Mergeable(t.kids[i]) && Compact(t.kids[i])
  }

  predicate Mergeable(t: Trie) {
    t.value.None? && |t.kids| == 1
  }

  /** `r` is the merged form of `kid`, still told apart by the same first character. */
  ghost predicate IsMergedForm(kid: Trie, r: Trie) {
    r == Coalesce(kid) && kid.prefix <= r.prefix && Deterministic(r) && Compact(r) && !Mergeable(r)
  }

  lemma PutBehind(kids: seq<Trie>, r: seq<Trie>, last: Trie)
    requires |r| < |kids| && DeterministicKids(kids) && kids[|r|].prefix <= last.prefix
    requires forall i :: 0 <= i < |r| ==> kids[i].prefix <= r[i].prefix
    ensures Put(r, last) == r + [last]
  {
    forall i | 0 <= i < |r| ensures r[i].prefix != last.prefix {
      assert r[i].prefix[0] == kids[i].prefix[0] != kids[|r|].prefix[0] == last.prefix[0];
    }
  }

  /** The new dictionary holds the merged children in their old order, none displacing another. */
  lemma {:induction false} CoalesceFirstIsPointwise(kids: seq<Trie>, n: nat)
    requires n <= |kids| && DeterministicKids(kids)
    ensures var r := CoalesceFirst(kids, n);
            |r| == n && forall i :: 0 <= i < n ==> IsMergedForm(kids[i], r[i])
    decreases kids, n
  {
    if n > 0 {
      CoalesceFirstIsPointwise(kids, n - 1);
      MergedForm(kids[n - 1]);
      PutBehind(kids, CoalesceFirst(kids, n - 1), Coalesce(kids[n - 1]));
    }
  }

  lemma MergedKidsShape(kids: seq<Trie>, u: Trie)
    requires DeterministicKids(kids) && |u.kids| == |kids|
    requires forall i :: 0 <= i < |kids| ==> IsMergedForm(kids[i], u.kids[i])
    ensures Deterministic(u) && Compact(u)
  {
    assert forall i :: 0 <= i < |kids| ==> u.kids[i].prefix[0] == kids[i].prefix[0];
  }

  lemma {:induction false} CoalesceKidsShape(t: Trie)
    requires Deterministic(t)
    ensures Deterministic(CoalesceKids(t)) && Compact(CoalesceKids(t)) && |CoalesceKids(t).kids| == |t.kids|
    ensures forall i :: 0 <= i < |t.kids| ==> CoalesceKids(t).kids[i] == Coalesce(t.kids[i])
    decreases t.kids, |t.kids| + 1
  {
    CoalesceFirstIsPointwise(t.kids, |t.kids|);
    MergedKidsShape(t.kids, CoalesceKids(t));
  }

  lemma {:induction false} MergedForm(t: Trie)
    requires Deterministic(t)
    ensures IsMergedForm(t, Coalesce(t))
    decreases t.kids, |t.kids| + 2
  {
    CoalesceKidsShape(t);
  }

  /**
   Merging keeps siblings distinguishable by their first characters and leaves no non-root node
   that is valueless with exactly one child.
   */
  lemma CoalesceShape(t: Trie)
    requires Deterministic(t)
    ensures Deterministic(CoalesceKids(t)) && Compact(CoalesceKids(t))
    ensures Deterministic(Coalesce(t)) && Compact(Coalesce(t)) && !Mergeable(Coalesce(t))
    ensures t.prefix <= Coalesce(t).prefix
    ensures |CoalesceKids(t).kids| == |t.kids|
    ensures forall i :: 0 <= i < |t.kids| ==> CoalesceKids(t).kids[i] == Coalesce(t.kids[i])
  {
    CoalesceKidsShape(t);
    MergedForm(t);
  }

  lemma KidForSameFirst(kids: seq<Trie>, kids': seq<Trie>, c: CodeUnit)
    requires |kids| == |kids'|
    requires forall i :: 0 <= i < |kids| ==> kids[i].prefix != [] && kids[i].prefix[..1] <= kids'[i].prefix
    ensures KidFor(kids, c) == KidFor(kids', c)
  {
    forall i | 0 <= i < |kids| ensures kids'[i].prefix != [] && kids[i].prefix[0] == kids'[i].prefix[0] {
      assert kids[i].prefix[..1][0] == kids[i].prefix[0];
    }
  }

  /** Merging loses and invents no entry, in either of its two results. */
  lemma {:induction false} FindAfterCoalesce(t: Trie, s: Text)
    requires Deterministic(t)
    ensures Find(CoalesceKids(t), s) == Find(t, s)
    decreases t, 0
  {
    if s != [] {
      var u := CoalesceKids(t);
      CoalesceShape(t);
      forall i | 0 <= i < |t.kids| ensures t.kids[i].prefix <= u.kids[i].prefix {
        CoalesceShape(t.kids[i]);
      }
      KidForSameFirst(t.kids, u.kids, s[0]);
      var i := KidFor(t.kids, s[0]);
      if i < |t.kids| {
        FindAtAfterCoalesce(t.kids[i], s);
      }
    }
  }

  lemma {:induction false} FindAtAfterCoalesce(t: Trie, s: Text)
    requires Deterministic(t)
    ensures FindAt(Coalesce(t), s) == FindAt(t, s)
    decreases t, 1
  {
    var u := CoalesceKids(t);
    CoalesceShape(t);
    if t.prefix <= s {
      FindAfterCoalesce(t, s[|t.prefix|..]);
    }
    if Mergeable(u) {
      FindAtMerged(u, s);
    }
  }

  /** A valueless node with a single child can be replaced by the child under the longer prefix. */
  lemma FindAtMerged(u: Trie, s: Text)
    requires Mergeable(u) && u.kids[0].prefix != []
    ensures FindAt(u.kids[0].(prefix := u.prefix + u.kids[0].prefix), s) == FindAt(u, s)
  {
    var kid, n := u.kids[0], |u.prefix|;
    var merged := kid.(prefix := u.prefix + kid.prefix);
    if u.prefix <= s {
      var rest := s[n..];
      assert s == u.prefix + rest;
      assert merged.prefix <= s <==> kid.prefix <= rest;
      if kid.prefix <= rest {
        assert s[|merged.prefix|..] == rest[|kid.prefix|..];
        assert KidFor(u.kids, rest[0]) == 0;
        assert FindAt(u, s) == Find(u, rest) == FindAt(kid, rest);
        FindIgnoresPrefix(kid, merged.prefix, rest[|kid.prefix|..]);
      } else if rest != [] {
        assert KidFor(u.kids, rest[0]) == 0 ==> FindAt(kid, rest) == None;
      }
    }
  }

  lemma FindIgnoresPrefix(t: Trie, prefix: Text, s: Text)
    ensures Find(t.(prefix := prefix), s) == Find(t, s)
  {
  }
}
