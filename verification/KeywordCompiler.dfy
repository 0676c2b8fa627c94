/** Code generation, printSubTreeAsC(), and its correctness for every trie that fillOut() can produce. */
module KeywordCompiler {
  import opened Wrappers
  import opened KeywordTrie
  import opened KeywordWeights
  import opened KeywordCode

  /**
   The test for the edge to `kid`.  A three-character edge is extended backwards by the character
   before it, which has been matched already, so that one four-character comparison does.
   */
  function TestFor(root: nat, kid: Trie): Test
    requires root <= |kid.fullPrefix|
  {
    if root > 0 && |kid.prefix| == 3 then Test(root - 1, [kid.fullPrefix[root - 1]] + kid.prefix)
    else Test(root, kid.prefix)
  }

  /** A test compares the end of a full prefix, and never three characters unless nothing comes before them. */
  lemma TestIsSuffix(root: nat, kid: Trie)
    requires root <= |kid.fullPrefix| && kid.fullPrefix[root..] == kid.prefix
    ensures var test := TestFor(root, kid);
            && test.base <= |kid.fullPrefix| && test.chars == kid.fullPrefix[test.base..]
            && root - 1 <= test.base <= root && (test.base < root ==> |kid.prefix| == 3)
            && (|test.chars| == 3 ==> root == 0)
  {
  }

  function EmitBranches(t: Trie): (r: seq<Branch>)
    requires FullPrefixes(t)
    ensures |r| == |t.kids|
    ensures forall i :: 0 <= i < |r| ==> r[i] == Branch(TestFor(|t.fullPrefix|, t.kids[i]), Emit(t.kids[i]))
    decreases t, 0
  {
    seq(|t.kids|, i requires 0 <= i < |t.kids| => Branch(TestFor(|t.fullPrefix|, t.kids[i]), Emit(t.kids[i])))
  }

  function Guard(t: Trie): seq<Stmt> {
    var n := |t.fullPrefix|;
    if t.value.Some? then [GuardedReturn(n, n, t.fullPrefix, t.value.value)] else []
  }

  function Emit(t: Trie): seq<Stmt>
    requires FullPrefixes(t)
    decreases t, 1
  {
    Guard(t) + if t.kids == [] then [] else [IfElse(EmitBranches(t))]
  }

  function Max(x: nat, y: nat): nat {
    if y > x then y else x
  }

  function MaxLengthOf(kids: seq<Trie>, max: nat): (r: nat)
    ensures r >= max
    decreases kids
  {
    if kids == [] then max else MaxLengthOf(kids[1..], Max(max, MaxLength(kids[0])))
  }

  function MaxLength(t: Trie): (r: nat)
    ensures r >= |t.fullPrefix|
    decreases t
  {
    MaxLengthOf(t.kids, |t.fullPrefix|)
  }

  function MaxTokenLength(t: Trie): nat {
    MaxLength(t) + 1
  }

  lemma {:induction false} MaxLengthCovers(kids: seq<Trie>, max: nat, i: nat)
    requires i < |kids|
    ensures MaxLength(kids[i]) <= MaxLengthOf(kids, max)
    decreases |kids|
  {
    if i > 0 {
      MaxLengthCovers(kids[1..], Max(max, MaxLength(kids[0])), i - 1);
    }
  }

  // ----- What the matcher should do -----

  /** Some entry of `t` spans the buffer up to `n`, where no identifier continues. */
  ghost predicate Hit(t: Trie, m: Machine, n: nat)
    requires |t.fullPrefix| <= n < |m.code|
  {
    Find(t, m.code[|t.fullPrefix|..n]).Some? && !m.isIdentPart(m.code[n])
  }

  /** `r` is the shortest hit below `t`, or falls through when there is none. */
  ghost predicate Correct(t: Trie, m: Machine, r: Outcome) {
    match r
    case Crashed => false
    case FellThrough => forall n :: |t.fullPrefix| <= n < |m.code| ==> !Hit(t, m, n)
    case Returned(shift, ident, token) =>
      && |t.fullPrefix| <= shift < |m.code|
      && Hit(t, m, shift)
      && Find(t, m.code[|t.fullPrefix|..shift]) == Some(token)
      && ident == m.code[..shift]
      && forall n :: |t.fullPrefix| <= n < shift ==> !Hit(t, m, n)
  }

  /** Each edge of `t` has a macro, and its characters fit the buffer's character type. */
  ghost predicate Comparable(t: Trie, charType: CharType) {
    && InRange(t.fullPrefix, charType)
    && forall i :: 0 <= i < |t.kids| ==> |t.kids[i].prefix| <= 8 && Comparable(t.kids[i], charType)
  }

  ghost predicate Reached(t: Trie, m: Machine) {
    && Deterministic(t) && FullPrefixes(t) && Comparable(t, m.charType) && InRange(m.code, m.charType)
    && t.fullPrefix <= m.code && MaxLength(t) < |m.code|
  }

  /** Given that the parent's full prefix has been matched, the test says whether the edge matches. */
  lemma EdgeTest(t: Trie, m: Machine, i: nat)
    requires Reached(t, m) && i < |t.kids|
    ensures EvalTest(m, TestFor(|t.fullPrefix|, t.kids[i])) == Bool(t.kids[i].prefix <= m.code[|t.fullPrefix|..])
  {
    var root, kid := |t.fullPrefix|, t.kids[i];
    var test := TestFor(root, kid);
    MaxLengthCovers(t.kids, root, i);
    assert kid.fullPrefix == t.fullPrefix + kid.prefix;
    assert Comparable(kid, m.charType);
    forall j | 0 <= j < |kid.prefix| ensures kid.prefix[j] < m.charType.Values() {
      assert kid.prefix[j] == kid.fullPrefix[root + j];
    }
    TestIsComparison(m, test);
    if root > 0 && |kid.prefix| == 3 {
      assert m.code[root - 1..] == [t.fullPrefix[root - 1]] + m.code[root..];
      assert kid.prefix <= m.code[root..] <==> [t.fullPrefix[root - 1]] + kid.prefix <= m.code[root - 1..];
    }
  }

  lemma KidReached(t: Trie, m: Machine, i: nat)
    requires Reached(t, m) && i < |t.kids| && t.kids[i].prefix <= m.code[|t.fullPrefix|..]
    ensures Reached(t.kids[i], m)
  {
    var root, kid := |t.fullPrefix|, t.kids[i];
    MaxLengthCovers(t.kids, root, i);
    assert m.code == t.fullPrefix + m.code[root..];
    assert kid.fullPrefix <= m.code;
  }

  /** Lookup of a stretch of the buffer in a child: the stretch has to run through the edge. */
  lemma FindAtAlong(u: Trie, code: Text, root: nat, n: nat)
    requires root < n <= |code|
    ensures u.prefix <= code[root..] && root + |u.prefix| <= n ==>
              FindAt(u, code[root..n]) == Find(u, code[root + |u.prefix|..n])
    ensures !(u.prefix <= code[root..] && root + |u.prefix| <= n) ==> FindAt(u, code[root..n]) == None
  {
    var s, p := code[root..n], u.prefix;
    assert forall k :: 0 <= k < n - root ==> s[k] == code[root..][k];
    assert p <= s <==> p <= code[root..] && root + |p| <= n;
    if root + |p| <= n {
      assert s[|p|..] == code[root + |p|..n];
    }
  }

  lemma FindInKid(t: Trie, k: nat, s: Text, c: CodeUnit)
    requires s != [] && s[0] == c && KidFor(t.kids, c) == k
    ensures Find(t, s) == if k < |t.kids| then FindAt(t.kids[k], s) else None
  {
  }

  lemma FindThroughEdge(t: Trie, code: Text, root: nat, k: nat, n: nat)
    requires root < n <= |code| && k < |t.kids| && KidFor(t.kids, code[root]) == k && t.kids[k].prefix <= code[root..]
    ensures root + |t.kids[k].prefix| <= n ==> Find(t, code[root..n]) == Find(t.kids[k], code[root + |t.kids[k].prefix|..n])
    ensures root + |t.kids[k].prefix| > n ==> Find(t, code[root..n]) == None
  {
    FindInKid(t, k, code[root..n], code[root]);
    FindAtAlong(t.kids[k], code, root, n);
  }

  /** Past its own end, a node holds what the child on the buffer's path holds. */
  lemma FindOnPath(t: Trie, m: Machine, k: nat, n: nat)
    requires |t.fullPrefix| < n < |m.code| && k < |t.kids| && t.kids[k].fullPrefix == t.fullPrefix + t.kids[k].prefix
    requires KidFor(t.kids, m.code[|t.fullPrefix|]) == k && t.kids[k].prefix <= m.code[|t.fullPrefix|..]
    ensures |t.kids[k].fullPrefix| <= n ==>
              Find(t, m.code[|t.fullPrefix|..n]) == Find(t.kids[k], m.code[|t.kids[k].fullPrefix|..n])
    ensures |t.kids[k].fullPrefix| > n ==> Find(t, m.code[|t.fullPrefix|..n]) == None
  {
    FindThroughEdge(t, m.code, |t.fullPrefix|, k, n);
  }

  /** It holds nothing if no child is on the buffer's path. */
  lemma FindOffPath(t: Trie, m: Machine, k: nat, n: nat)
    requires |t.fullPrefix| < n < |m.code|
    requires KidFor(t.kids, m.code[|t.fullPrefix|]) == k
    requires k < |t.kids| ==> !(t.kids[k].prefix <= m.code[|t.fullPrefix|..])
    ensures Find(t, m.code[|t.fullPrefix|..n]) == None
  {
    FindInKid(t, k, m.code[|t.fullPrefix|..n], m.code[|t.fullPrefix|]);
    if k < |t.kids| {
      FindAtAlong(t.kids[k], m.code, |t.fullPrefix|, n);
    }
  }

  /** One test of the chain: its own branch, or the rest of the chain. */
  ghost predicate ChainStep(t: Trie, m: Machine, from: nat)
    requires FullPrefixes(t) && from < |t.kids| && |t.fullPrefix| < |m.code|
  {
    RunBranches(m, EmitBranches(t)[from..])
      == if t.kids[from].prefix <= m.code[|t.fullPrefix|..] then RunStmts(m, Emit(t.kids[from]))
         else RunBranches(m, EmitBranches(t)[from + 1..])
  }

  lemma EveryChainStep(t: Trie, m: Machine, from: nat)
    requires Reached(t, m) && from < |t.kids|
    ensures ChainStep(t, m, from)
  {
    var bs := EmitBranches(t)[from..];
    EdgeTest(t, m, from);
    assert bs[0] == Branch(TestFor(|t.fullPrefix|, t.kids[from]), Emit(t.kids[from]));
    assert bs[1..] == EmitBranches(t)[from + 1..];
  }

  lemma OnlyKidOnPath(t: Trie, code: Text, root: nat, k: nat)
    requires Deterministic(t) && root < |code| && k < |t.kids| && t.kids[k].prefix <= code[root..]
    ensures KidFor(t.kids, code[root]) == k
  {
    assert t.kids[k].prefix[0] == code[root..][0];
  }

  /** An if-else chain of which at most branch `k` is entered; `rest[i]` is the outcome from branch `i` on. */
  lemma {:induction false} ChainOutcome(rest: nat -> Outcome, n: nat, from: nat, k: nat, outcome: Outcome)
    requires from <= n && rest(n) == FellThrough && (k < n ==> rest(k) == outcome)
    requires forall i: nat :: i < n && i != k ==> rest(i) == rest(i + 1)
    ensures rest(from) == if from <= k < n then outcome else FellThrough
    decreases n - from
  {
    if from < n {
      ChainOutcome(rest, n, from + 1, k, outcome);
    }
  }

  /** The outcome of the chain from the branch of child `i` on. */
  function ChainRest(t: Trie, m: Machine, i: nat): Outcome
    requires FullPrefixes(t)
  {
    if i < |t.kids| then RunBranches(m, EmitBranches(t)[i..]) else FellThrough
  }

  lemma ChainRestStep(t: Trie, m: Machine, i: nat)
    requires Reached(t, m) && i < |t.kids|
    ensures t.kids[i].prefix <= m.code[|t.fullPrefix|..] ==> ChainRest(t, m, i) == RunStmts(m, Emit(t.kids[i]))
    ensures !(t.kids[i].prefix <= m.code[|t.fullPrefix|..]) ==> ChainRest(t, m, i) == ChainRest(t, m, i + 1)
  {
    EveryChainStep(t, m, i);
    assert EmitBranches(t)[|t.kids|..] == [];
  }

  /** The chain enters the branch of the child on the buffer's path, if there is one. */
  lemma ChainPicksThePath(t: Trie, m: Machine)
    requires Reached(t, m) && |t.fullPrefix| < |m.code|
    ensures var k := KidFor(t.kids, m.code[|t.fullPrefix|]);
            RunBranches(m, EmitBranches(t))
              == if k < |t.kids| && t.kids[k].prefix <= m.code[|t.fullPrefix|..]
                 then RunStmts(m, Emit(t.kids[k])) else FellThrough
  {
    var k := KidFor(t.kids, m.code[|t.fullPrefix|]);
    var rest := (i: nat) => ChainRest(t, m, i);
    var hit := if k < |t.kids| && t.kids[k].prefix <= m.code[|t.fullPrefix|..] then k else |t.kids|;
    forall i: nat | i < |t.kids| && i != hit ensures rest(i) == rest(i + 1) {
      ChainRestStep(t, m, i);
      if t.kids[i].prefix <= m.code[|t.fullPrefix|..] {
        OnlyKidOnPath(t, m.code, |t.fullPrefix|, i);
      }
    }
    if hit < |t.kids| {
      ChainRestStep(t, m, hit);
    }
    ChainOutcome(rest, |t.kids|, 0, hit, rest(hit));
    WholeChain(t, m);
  }

  lemma WholeChain(t: Trie, m: Machine)
    requires FullPrefixes(t)
    ensures ChainRest(t, m, 0) == RunBranches(m, EmitBranches(t))
  {
    assert EmitBranches(t)[0..] == EmitBranches(t);
  }

  lemma RunGuard(t: Trie, m: Machine, tail: seq<Stmt>)
    requires |t.fullPrefix| < |m.code|
    ensures var n := |t.fullPrefix|;
            RunStmts(m, Guard(t) + tail)
              == if t.value.Some? && !m.isIdentPart(m.code[n]) then Returned(n, t.fullPrefix, t.value.value)
                 else RunStmts(m, tail)
  {
    if t.value.None? {
      assert Guard(t) + tail == tail;
    } else {
      assert (Guard(t) + tail)[1..] == tail;
    }
  }

  /** Running the code of a node is running its guard, then the code of the child on the buffer's path. */
  lemma RunNode(t: Trie, m: Machine)
    requires Reached(t, m)
    ensures var n := |t.fullPrefix|;
            var k := KidFor(t.kids, m.code[n]);
            RunStmts(m, Emit(t))
              == if t.value.Some? && !m.isIdentPart(m.code[n]) then Returned(n, t.fullPrefix, t.value.value)
                 else if k < |t.kids| && t.kids[k].prefix <= m.code[n..] then RunStmts(m, Emit(t.kids[k]))
                 else FellThrough
  {
    var bs := EmitBranches(t);
    var tail := if t.kids == [] then [] else [IfElse(bs)];
    RunGuard(t, m, tail);
    ChainPicksThePath(t, m);
    if t.kids != [] {
      assert RunStmts(m, tail[1..]) == FellThrough;
    }
  }

  lemma CorrectFromKid(t: Trie, m: Machine, k: nat, r: Outcome)
    requires Reached(t, m) && k < |t.kids| && KidFor(t.kids, m.code[|t.fullPrefix|]) == k
    requires t.kids[k].prefix <= m.code[|t.fullPrefix|..]
    requires !Hit(t, m, |t.fullPrefix|) && Correct(t.kids[k], m, r)
    ensures Correct(t, m, r)
  {
    var root := |t.fullPrefix|;
    forall n | root < n < |m.code|
      ensures Hit(t, m, n) <==> |t.kids[k].fullPrefix| <= n && Hit(t.kids[k], m, n)
    {
      FindOnPath(t, m, k, n);
    }
    if r.Returned? {
      FindOnPath(t, m, k, r.shift);
    }
  }

  lemma CorrectAtNode(t: Trie, m: Machine)
    requires Reached(t, m) && t.value.Some? && !m.isIdentPart(m.code[|t.fullPrefix|])
    ensures Correct(t, m, Returned(|t.fullPrefix|, t.fullPrefix, t.value.value))
  {
    assert m.code[|t.fullPrefix|..|t.fullPrefix|] == [];
    assert m.code[..|t.fullPrefix|] == t.fullPrefix;
  }

  lemma HitAtNode(t: Trie, m: Machine)
    requires |t.fullPrefix| < |m.code|
    ensures Hit(t, m, |t.fullPrefix|) <==> t.value.Some? && !m.isIdentPart(m.code[|t.fullPrefix|])
  {
    assert m.code[|t.fullPrefix|..|t.fullPrefix|] == [];
  }

  lemma CorrectOffPath(t: Trie, m: Machine, k: nat)
    requires |t.fullPrefix| < |m.code| && !Hit(t, m, |t.fullPrefix|) && KidFor(t.kids, m.code[|t.fullPrefix|]) == k
    requires k < |t.kids| ==> !(t.kids[k].prefix <= m.code[|t.fullPrefix|..])
    ensures Correct(t, m, FellThrough)
  {
    forall n | |t.fullPrefix| < n < |m.code| ensures !Hit(t, m, n) {
      FindOffPath(t, m, k, n);
    }
  }

  /** The code emitted for a node returns the shortest hit below it and never reads past the longest keyword. */
  lemma {:induction false} EmittedCodeIsCorrect(t: Trie, m: Machine)
    requires Reached(t, m)
    ensures Correct(t, m, RunStmts(m, Emit(t)))
    decreases t
  {
    var root := |t.fullPrefix|;
    var k := KidFor(t.kids, m.code[root]);
    RunNode(t, m);
    HitAtNode(t, m);
    if Hit(t, m, root) {
      CorrectAtNode(t, m);
    } else if k < |t.kids| && t.kids[k].prefix <= m.code[root..] {
      KidReached(t, m, k);
      EmittedCodeIsCorrect(t.kids[k], m);
      CorrectFromKid(t, m, k, RunStmts(m, Emit(t.kids[k])));
    } else {
      CorrectOffPath(t, m, k);
    }
  }
}
