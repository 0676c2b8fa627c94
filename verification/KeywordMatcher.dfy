/** The whole generator: from a keyword list to a matcher, and what the matcher does. */
module KeywordMatcher {
  import opened Wrappers
  import opened KeywordTrie
  import opened KeywordWeights
  import opened KeywordWeightSums
  import opened KeywordCode
  import opened KeywordCompiler
  import opened KeywordStops
  import opened KeywordGenerator

  /** The trie that is printed: the root keeps its own place, whatever coalesce() returns for it. */
  function Matcher(keywords: seq<Keyword>, table: WeightTable): Trie {
    FillOut(CoalesceKids(InsertAll(NewTrie([]), keywords)), [], table)
  }

  /** The trie of all keywords, each inserted in turn. */
  method BuildTrie(keywords: seq<Keyword>) returns (trie: TrieNode)
    ensures trie.Valid() && fresh(trie.Repr)
    ensures trie.model == InsertAll(NewTrie([]), keywords)
  {
    trie := new TrieNode([]);
    var i := 0;
    while i < |keywords|
      invariant i <= |keywords| && trie.Valid() && fresh(trie.Repr)
      invariant trie.model == InsertAll(NewTrie([]), keywords[..i])
    {
      trie.Insert(keywords[i].text, keywords[i].token);
      assert keywords[..i + 1][..i] == keywords[..i];
      i := i + 1;
    }
    assert keywords[..i] == keywords;
  }

  /** The generator script; `table` holds the observed weights. */
  method Generate(keywords: seq<Keyword>, table: WeightTable) returns (code: seq<Stmt>, maxTokenLength: nat)
    ensures var t := Matcher(keywords, table);
            && FullPrefixes(t)
            && code == Emit(t)
            && maxTokenLength == MaxTokenLength(t)
  {
    var trie := BuildTrie(keywords);
    var _ := trie.Coalesce();
    trie.FillOut([], table);
    MatcherShape(keywords, table);
    code := trie.PrintSubTreeAsC();
    var max := trie.MaxLength();
    maxTokenLength := max + 1;
  }

  lemma {:induction false} LastTokenIsHasText(keywords: seq<Keyword>, s: Text)
    ensures LastToken(keywords, s).Some? <==> HasText(keywords, s)
    decreases |keywords|
  {
    if keywords != [] {
      var rest := keywords[..|keywords| - 1];
      LastTokenIsHasText(rest, s);
      if HasText(rest, s) {
        var i :| 0 <= i < |rest| && rest[i].text == s;
        assert keywords[i].text == s;
      }
    }
  }

  /** The printed trie holds each keyword under its last token, and nothing else. */
  lemma MatcherFinds(keywords: seq<Keyword>, table: WeightTable, s: Text)
    ensures Find(Matcher(keywords, table), s) == LastToken(keywords, s)
  {
    var t := InsertAll(NewTrie([]), keywords);
    FindAfterInsertAll(keywords, s);
    OneCharEdgesAreDeterministic(t);
    FindAfterCoalesce(t, s);
    CoalesceShape(t);
    FindAfterFillOut(CoalesceKids(t), [], table, s);
  }

  lemma MatcherHolds(keywords: seq<Keyword>, table: WeightTable)
    ensures Holds(Matcher(keywords, table), [], keywords)
  {
    forall s ensures Find(Matcher(keywords, table), s).Some? <==> HasText(keywords, [] + s) {
      MatcherFinds(keywords, table, s);
      LastTokenIsHasText(keywords, s);
      assert [] + s == s;
    }
  }

  /** Its siblings are told apart by first characters and sorted by weight, and no node can be merged away. */
  lemma MatcherShape(keywords: seq<Keyword>, table: WeightTable)
    ensures var t := Matcher(keywords, table);
            WellFilled(t) && Merged(t) && t.fullPrefix == [] && Holds(t, [], keywords)
  {
    var t := InsertAll(NewTrie([]), keywords);
    FindAfterInsertAll(keywords, []);
    OneCharEdgesAreDeterministic(t);
    CoalesceShape(t);
    FillOutShape(CoalesceKids(t), [], table);
    InsertAllLeavesNoDeadEnds(keywords);
    CoalesceLeavesNoDeadEnds(t);
    FillOutLeavesNoDeadEnds(CoalesceKids(t), [], table);
    MatcherHolds(keywords, table);
  }

  // ----- Compilation of the output -----

  /** Every comparison macro used in `stmts` exists. */
  predicate Compiles(stmts: seq<Stmt>)
    decreases stmts
  {
    forall i :: 0 <= i < |stmts| ==> StmtCompiles(stmts[i])
  }

  predicate StmtCompiles(s: Stmt)
    decreases s
  {
    s.IfElse? ==>
      forall i :: 0 <= i < |s.branches| ==>
        Expand(s.branches[i].test.chars).Some? && Compiles(s.branches[i].body)
  }

  lemma NodeCompiles(t: Trie)
    requires FullPrefixes(t)
    ensures Compiles(Emit(t)) <==>
      forall i :: 0 <= i < |t.kids| ==>
        Expand(TestFor(|t.fullPrefix|, t.kids[i]).chars).Some? && Compiles(Emit(t.kids[i]))
  {
    var bs := EmitBranches(t);
    if t.kids != [] {
      assert Emit(t)[|Guard(t)|] == IfElse(bs);
      assert Compiles(Emit(t)) <==> StmtCompiles(IfElse(bs));
    }
  }

  lemma TestExistsIff(t: Trie, i: nat)
    requires Deterministic(t) && FullPrefixes(t) && i < |t.kids|
    ensures Expand(TestFor(|t.fullPrefix|, t.kids[i]).chars).Some? <==> |t.kids[i].prefix| <= 8
  {
  }

  /** The code below a node compiles just if no edge has more characters than the longest macro takes. */
  lemma {:induction false} CompilesIffShortEdges(t: Trie)
    requires Deterministic(t) && FullPrefixes(t)
    ensures Compiles(Emit(t)) <==> ShortEdges(t)
    decreases t
  {
    NodeCompiles(t);
    forall i | 0 <= i < |t.kids|
      ensures Compiles(Emit(t.kids[i])) <==> ShortEdges(t.kids[i])
      ensures Expand(TestFor(|t.fullPrefix|, t.kids[i]).chars).Some? <==> |t.kids[i].prefix| <= 8
    {
      CompilesIffShortEdges(t.kids[i]);
      TestExistsIff(t, i);
    }
  }

  /** The output compiles exactly when no keyword goes on for more than eight characters without a stop. */
  lemma CompilesIffStops(keywords: seq<Keyword>, table: WeightTable)
    ensures FullPrefixes(Matcher(keywords, table))
    ensures Compiles(Emit(Matcher(keywords, table))) <==> StopsWithinEight(keywords, [])
  {
    MatcherShape(keywords, table);
    CompilesIffShortEdges(Matcher(keywords, table));
    ShortEdgesIffStops(Matcher(keywords, table), [], keywords);
  }

  /** A keyword on its own compiles up to eight characters. */
  lemma LoneKeywordCompilesIff(keyword: Keyword, table: WeightTable)
    ensures FullPrefixes(Matcher([keyword], table))
    ensures Compiles(Emit(Matcher([keyword], table))) <==> |keyword.text| <= 8
  {
    var w := keyword.text;
    CompilesIffStops([keyword], table);
    if |w| > 8 {
      forall j | 0 < j <= 8 ensures !Stop([keyword], w[..j]) {
        NoStopInside(keyword, j);
      }
      assert !StopWithin([keyword], [keyword][0].text, 0);
    }
  }

  lemma NoStopInside(keyword: Keyword, j: nat)
    requires j < |keyword.text|
    ensures !Stop([keyword], keyword.text[..j])
  {
    forall c | Extended([keyword], keyword.text[..j] + [c]) ensures c == keyword.text[j] {
      assert (keyword.text[..j] + [c])[j] == c;
    }
  }

  // ----- Matching -----

  /** What parseKeyword() may rely on: the code compiles, keywords are ASCII, the buffer is long enough. */
  ghost predicate Usable(keywords: seq<Keyword>, table: WeightTable, m: Machine) {
    && StopsWithinEight(keywords, [])
    && (forall i, j :: 0 <= i < |keywords| && 0 <= j < |keywords[i].text| ==> keywords[i].text[j] < 0x80)
    && InRange(m.code, m.charType)
    && |m.code| >= MaxTokenLength(Matcher(keywords, table))
  }

  /** The buffer starts with the keyword `w`, and the identifier ends there. */
  ghost predicate Qualifies(keywords: seq<Keyword>, m: Machine, w: Text) {
    HasText(keywords, w) && w <= m.code && |w| < |m.code| && !m.isIdentPart(m.code[|w|])
  }

  lemma {:induction false} AsciiIsComparable(t: Trie, keywords: seq<Keyword>, charType: CharType)
    requires Merged(t) && FullPrefixes(t) && Holds(t, t.fullPrefix, keywords) && ShortEdges(t)
    requires forall i, j :: 0 <= i < |keywords| && 0 <= j < |keywords[i].text| ==> keywords[i].text[j] < 0x80
    requires InRange(t.fullPrefix, charType)
    ensures Comparable(t, charType)
    decreases t
  {
    forall i | 0 <= i < |t.kids| ensures Comparable(t.kids[i], charType) {
      var k := KidIsExtended(t, t.fullPrefix, keywords, i);
      assert t.kids[i].fullPrefix == t.fullPrefix + t.kids[i].prefix;
      assert forall j :: 0 <= j < |t.kids[i].fullPrefix| ==> t.kids[i].fullPrefix[j] == keywords[k].text[j];
      HoldsBelow(t, t.fullPrefix, keywords, i);
      AsciiIsComparable(t.kids[i], keywords, charType);
    }
  }

  lemma MatcherIsReached(keywords: seq<Keyword>, table: WeightTable, m: Machine)
    requires Usable(keywords, table, m)
    ensures Reached(Matcher(keywords, table), m)
  {
    var t := Matcher(keywords, table);
    MatcherShape(keywords, table);
    ShortEdgesIffStops(t, [], keywords);
    AsciiIsComparable(t, keywords, m.charType);
  }

  lemma HitIsQualification(t: Trie, keywords: seq<Keyword>, m: Machine, n: nat)
    requires t.fullPrefix == [] && Holds(t, [], keywords) && n < |m.code|
    ensures Hit(t, m, n) <==> Qualifies(keywords, m, m.code[..n])
  {
    assert [] + m.code[0..n] == m.code[..n];
  }

  /** `r` returns the shortest keyword that qualifies, or falls through because none does. */
  ghost predicate ShortestMatch(keywords: seq<Keyword>, m: Machine, r: Outcome) {
    match r
    case Crashed => false
    case FellThrough => forall w :: !Qualifies(keywords, m, w)
    case Returned(shift, ident, token) =>
      && Qualifies(keywords, m, ident) && shift == |ident| && LastToken(keywords, ident) == Some(token)
      && forall w :: Qualifies(keywords, m, w) ==> shift <= |w|
  }

  /**
   Compiler correctness, for any keywords: the matcher returns the shortest qualifying keyword with
   its last token, and IDENT (it falls through) if there is none.  It never reads outside the buffer.
   */
  lemma MatcherReturnsShortest(keywords: seq<Keyword>, table: WeightTable, m: Machine)
    requires Usable(keywords, table, m)
    ensures FullPrefixes(Matcher(keywords, table))
    ensures ShortestMatch(keywords, m, RunStmts(m, Emit(Matcher(keywords, table))))
  {
    var t := Matcher(keywords, table);
    MatcherShape(keywords, table);
    MatcherIsReached(keywords, table, m);
    EmittedCodeIsCorrect(t, m);
    forall w | Qualifies(keywords, m, w) ensures Hit(t, m, |w|) {
      assert m.code[..|w|] == w;
      HitIsQualification(t, keywords, m, |w|);
    }
    var r := RunStmts(m, Emit(t));
    if r.Returned? {
      HitIsQualification(t, keywords, m, r.shift);
      MatcherFinds(keywords, table, m.code[..r.shift]);
      assert m.code[0..r.shift] == m.code[..r.shift];
    }
  }

  ghost predicate IdentifierKeywords(keywords: seq<Keyword>, isIdentPart: CodeUnit -> bool) {
    forall i, j :: 0 <= i < |keywords| && 0 <= j < |keywords[i].text| ==> isIdentPart(keywords[i].text[j])
  }

  lemma IdentifierGoesOn(keywords: seq<Keyword>, m: Machine, v: Text, w: Text)
    requires IdentifierKeywords(keywords, m.isIdentPart) && HasText(keywords, w) && w <= m.code
    ensures |v| < |w| ==> m.isIdentPart(m.code[|v|])
  {
    if |v| < |w| {
      assert m.code[|v|] == w[|v|];
    }
  }

  /** At most one keyword qualifies when keywords consist of identifier characters. */
  lemma AtMostOneQualifies(keywords: seq<Keyword>, m: Machine, v: Text, w: Text)
    requires IdentifierKeywords(keywords, m.isIdentPart)
    requires Qualifies(keywords, m, v) && Qualifies(keywords, m, w)
    ensures v == w
  {
    IdentifierGoesOn(keywords, m, v, w);
    IdentifierGoesOn(keywords, m, w, v);
    assert v == m.code[..|v|] && w == m.code[..|w|];
  }

  /** Compiler correctness for the language's keywords: a keyword is returned exactly when it qualifies. */
  lemma MatcherIsCorrect(keywords: seq<Keyword>, table: WeightTable, m: Machine)
    requires Usable(keywords, table, m) && IdentifierKeywords(keywords, m.isIdentPart)
    ensures FullPrefixes(Matcher(keywords, table))
    ensures var r := RunStmts(m, Emit(Matcher(keywords, table)));
            && (forall w, token :: r == Returned(|w|, w, token) <==>
                 Qualifies(keywords, m, w) && LastToken(keywords, w) == Some(token))
            && (r == FellThrough <==> forall w :: !Qualifies(keywords, m, w))
  {
    MatcherReturnsShortest(keywords, table, m);
    var r := RunStmts(m, Emit(Matcher(keywords, table)));
    if r.Returned? {
      forall w | Qualifies(keywords, m, w) ensures w == r.ident {
        AtMostOneQualifies(keywords, m, w, r.ident);
      }
    }
  }

  /** The shortest match is determined by which keywords qualify and by their tokens. */
  lemma ShortestMatchIsUnique(keywords: seq<Keyword>, m: Machine, r: Outcome,
                              keywords': seq<Keyword>, m': Machine, r': Outcome)
    requires ShortestMatch(keywords, m, r) && ShortestMatch(keywords', m', r')
    requires forall w :: Qualifies(keywords, m, w) <==> Qualifies(keywords', m', w)
    requires forall s :: LastToken(keywords, s) == LastToken(keywords', s)
    requires m'.code <= m.code
    ensures r == r'
  {
    if r.Returned? {
      assert Qualifies(keywords', m', r.ident);
      assert r'.Returned? && r'.shift == r.shift;
      assert r.ident == m.code[..r.shift] == r'.ident;
    } else {
      assert r.FellThrough?;
    }
  }

  /** Neither the weights nor the order and repetition of keywords matter, only the last token of each. */
  lemma OnlyLastTokensMatter(keywords: seq<Keyword>, table: WeightTable,
                             keywords': seq<Keyword>, table': WeightTable, m: Machine)
    requires Usable(keywords, table, m) && Usable(keywords', table', m)
    requires forall s :: LastToken(keywords, s) == LastToken(keywords', s)
    ensures FullPrefixes(Matcher(keywords, table)) && FullPrefixes(Matcher(keywords', table'))
    ensures RunStmts(m, Emit(Matcher(keywords, table))) == RunStmts(m, Emit(Matcher(keywords', table')))
  {
    MatcherReturnsShortest(keywords, table, m);
    MatcherReturnsShortest(keywords', table', m);
    forall w ensures Qualifies(keywords, m, w) <==> Qualifies(keywords', m, w) {
      LastTokenIsHasText(keywords, w);
      LastTokenIsHasText(keywords', w);
    }
    ShortestMatchIsUnique(keywords, m, RunStmts(m, Emit(Matcher(keywords, table))),
                          keywords', m, RunStmts(m, Emit(Matcher(keywords', table'))));
  }

  lemma MaxTokenLengthExceeds(keywords: seq<Keyword>, table: WeightTable, w: Text)
    requires HasText(keywords, w)
    ensures |w| < MaxTokenLength(Matcher(keywords, table))
  {
    MatcherShape(keywords, table);
    MaxLengthCoversKeyword(Matcher(keywords, table), keywords, w);
  }

  /** maxTokenLength is one more than the length of the longest keyword. */
  lemma MaxTokenLengthIsTight(keywords: seq<Keyword>, table: WeightTable)
    ensures forall i :: 0 <= i < |keywords| ==> |keywords[i].text| < MaxTokenLength(Matcher(keywords, table))
    ensures keywords != [] ==>
      exists i :: 0 <= i < |keywords| && |keywords[i].text| + 1 == MaxTokenLength(Matcher(keywords, table))
  {
    var t := Matcher(keywords, table);
    forall i | 0 <= i < |keywords| ensures |keywords[i].text| < MaxTokenLength(t) {
      MaxTokenLengthExceeds(keywords, table, keywords[i].text);
    }
    MatcherShape(keywords, table);
    if MaxLength(t) != 0 {
      var k := MaxLengthIsReached(t, keywords);
    } else if keywords != [] {
      assert |keywords[0].text| + 1 == MaxTokenLength(t);
    }
  }

  lemma QualifiesWithin(keywords: seq<Keyword>, m: Machine, n: nat, w: Text)
    requires n <= |m.code| && (HasText(keywords, w) ==> |w| < n)
    ensures Qualifies(keywords, m, w) <==> Qualifies(keywords, m.(code := m.code[..n]), w)
  {
    if HasText(keywords, w) {
      assert w <= m.code <==> w <= m.code[..n];
    }
  }

  /** maxTokenLength characters are all the matcher looks at. */
  lemma MatcherReadsOnlyMaxTokenLength(keywords: seq<Keyword>, table: WeightTable, m: Machine)
    requires Usable(keywords, table, m)
    ensures FullPrefixes(Matcher(keywords, table))
    ensures var short := m.(code := m.code[..MaxTokenLength(Matcher(keywords, table))]);
            && RunStmts(short, Emit(Matcher(keywords, table))) == RunStmts(m, Emit(Matcher(keywords, table)))
            && RunStmts(short, Emit(Matcher(keywords, table))) != Crashed
  {
    var t := Matcher(keywords, table);
    var short := m.(code := m.code[..MaxTokenLength(t)]);
    MatcherReturnsShortest(keywords, table, m);
    MatcherReturnsShortest(keywords, table, short);
    forall w ensures Qualifies(keywords, m, w) <==> Qualifies(keywords, short, w) {
      if HasText(keywords, w) {
        MaxTokenLengthExceeds(keywords, table, w);
      }
      QualifiesWithin(keywords, m, MaxTokenLength(t), w);
    }
    ShortestMatchIsUnique(keywords, m, RunStmts(m, Emit(t)), keywords, short, RunStmts(short, Emit(t)));
  }

  /** When keywords are distinct and only keywords are weighted, weights are totals over keywords below. */
  lemma MatcherWeights(keywords: seq<Keyword>, table: WeightTable)
    requires DistinctTexts(keywords) && forall s :: s in table ==> HasText(keywords, s)
    ensures WeightsAreSums(Matcher(keywords, table), keywords, table)
    ensures SortedByWeight(Matcher(keywords, table))
  {
    var t := InsertAll(NewTrie([]), keywords);
    FindAfterInsertAll(keywords, []);
    OneCharEdgesAreDeterministic(t);
    CoalesceShape(t);
    MatcherShape(keywords, table);
    forall s ensures Find(CoalesceKids(t), s).Some? <==> HasText(keywords, [] + s) {
      FindAfterFillOut(CoalesceKids(t), [], table, s);
    }
    FillOutSumsWeights(CoalesceKids(t), [], keywords, table);
  }

  /** The trie before the last pass: its nodes are the root and the stops. */
  lemma MergedMatcher(keywords: seq<Keyword>)
    ensures var t := CoalesceKids(InsertAll(NewTrie([]), keywords));
            Merged(t) && t.prefix == [] && Holds(t, [], keywords)
  {
    var t := InsertAll(NewTrie([]), keywords);
    FindAfterInsertAll(keywords, []);
    OneCharEdgesAreDeterministic(t);
    CoalesceShape(t);
    InsertAllLeavesNoDeadEnds(keywords);
    CoalesceLeavesNoDeadEnds(t);
    MatcherShape(keywords, map[]);
    MatcherHolds(keywords, map[]);
    forall s ensures Find(CoalesceKids(t), s).Some? <==> HasText(keywords, [] + s) {
      FindAfterFillOut(CoalesceKids(t), [], map[], s);
    }
  }

  /**
   With any weights: what is weighted counts if it is empty, a keyword, or a place where keywords part ways,
   and it counts once.
   */
  lemma MatcherWeightAdds(keywords: seq<Keyword>, table: WeightTable, s: Text, x: real)
    requires s !in table
    ensures Matcher(keywords, map[]).weight == 0.0
    ensures Matcher(keywords, table[s := x]).weight
              == Matcher(keywords, table).weight + if s == [] || Stop(keywords, s) then x else 0.0
  {
    var t := CoalesceKids(InsertAll(NewTrie([]), keywords));
    MergedMatcher(keywords);
    NothingWeighs(t, []);
    WeightAdds(t, [], table, s, x);
    NodesIffStops(t, keywords, s);
    assert [] + t.prefix == [];
  }
}
