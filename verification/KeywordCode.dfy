/**
 The C++ that the generator emits, as a syntax tree with an interpreter that faults on a read
 outside the buffer and on a comparison macro that does not exist.
 */
module KeywordCode {
  import opened Wrappers
  import opened KeywordTrie

  /** `code[base] == 'c'` for one character, COMPARE_n(code + base, 'c', ...) for more. */
  datatype Test = Test(base: nat, chars: Text)

  datatype Stmt =
    /** If the identifier ends at `at`: moves on by `shift`, makes the identifier and returns the token. */
    | GuardedReturn(at: nat, shift: nat, ident: Text, token: Token)
    /** if (...) { ... } else if (...) { ... } without a final else */
    | IfElse(branches: seq<Branch>)

  datatype Branch = Branch(test: Test, body: seq<Stmt>)

  /** The preprocessor's view of the processor. */
  datatype Platform = NeedsAlignedAccess | BigEndian | LittleEndian | LittleEndianX86_64

  datatype CharType = LChar | UChar {
    /** How many values a character of this type has. */
    function Values(): nat {
      match this
      case LChar => 0x100
      case UChar => 0x10000
    }
  }

  datatype Machine = Machine(platform: Platform, charType: CharType, isIdentPart: CodeUnit -> bool, code: Text)

  ghost predicate InRange(s: Text, charType: CharType) {
    forall i :: 0 <= i < |s| ==> s[i] < charType.Values()
  }

  // ----- Comparison macros -----

  /** The comparisons the macros are made of; `at` counts from the address argument. */
  datatype Compare =
    | One(at: nat, a: CodeUnit)
    | Two(at: nat, a: CodeUnit, b: CodeUnit)
    | Four(at: nat, a: CodeUnit, b: CodeUnit, c: CodeUnit, d: CodeUnit)

  /** The conjuncts of the comparison for `c`, in evaluation order; None if there is no such macro. */
  function Expand(c: Text): Option<seq<Compare>> {
    match |c|
    case 1 => Some([One(0, c[0])])
    case 2 => Some([Two(0, c[0], c[1])])
    case 3 => Some([Two(0, c[0], c[1]), One(2, c[2])])
    case 4 => Some([Four(0, c[0], c[1], c[2], c[3])])
    case 5 => Some([Four(0, c[0], c[1], c[2], c[3]), One(4, c[4])])
    case 6 => Some([Four(0, c[0], c[1], c[2], c[3]), Two(4, c[4], c[5])])
    case 7 => Some([Four(0, c[0], c[1], c[2], c[3]), Four(3, c[3], c[4], c[5], c[6])])
    case 8 => Some([Four(0, c[0], c[1], c[2], c[3]), Four(4, c[4], c[5], c[6], c[7])])
    case _ => None
  }

  /** The integer constant CHARPAIR_TOUINT16 or UCHARPAIR_TOUINT32. */
  function PairConstant(platform: Platform, values: nat, a: CodeUnit, b: CodeUnit): nat {
    if platform.BigEndian? then a * values + b else b * values + a
  }

  /** The integer constant CHARQUAD_TOUINT32 or UCHARQUAD_TOUINT64, in their little-endian form. */
  function QuadConstant(values: nat, a: CodeUnit, b: CodeUnit, c: CodeUnit, d: CodeUnit): nat {
    PairConstant(LittleEndianX86_64, values, c, d) * (values * values) + PairConstant(LittleEndianX86_64, values, a, b)
  }

  /** Each character is at its own shift: the first at the low end, on a big-endian processor at the high end. */
  lemma PackedConstants(a: CodeUnit, b: CodeUnit, c: CodeUnit, d: CodeUnit)
    ensures PairConstant(LittleEndian, LChar.Values(), a, b) == a + 0x100 * b
    ensures PairConstant(LittleEndian, UChar.Values(), a, b) == a + 0x1_0000 * b
    ensures PairConstant(BigEndian, LChar.Values(), a, b) == 0x100 * a + b
    ensures PairConstant(BigEndian, UChar.Values(), a, b) == 0x1_0000 * a + b
    ensures QuadConstant(LChar.Values(), a, b, c, d) == a + 0x100 * b + 0x1_0000 * c + 0x100_0000 * d
    ensures QuadConstant(UChar.Values(), a, b, c, d)
              == a + 0x1_0000 * b + 0x1_0000_0000 * c + 0x1_0000_0000_0000 * d
  {
  }

  /** The integer that a load sees in `s`, the first unit being the least significant one. */
  function LoadLittle(values: nat, s: Text): nat {
    if s == [] then 0 else s[0] + values * LoadLittle(values, s[1..])
  }

  function LoadBig(values: nat, s: Text): nat {
    if s == [] then 0 else LoadBig(values, s[..|s| - 1]) * values + s[|s| - 1]
  }

  datatype Truth = Fault | Bool(b: bool) {
    function AndThen(other: Truth): Truth {
      if this == Bool(true) then other else this
    }
  }

  function ReadOne(m: Machine, i: nat, a: CodeUnit): Truth {
    if i < |m.code| then Bool(m.code[i] == a) else Fault
  }

  function ReadTwo(m: Machine, i: nat, a: CodeUnit, b: CodeUnit): Truth {
    var values := m.charType.Values();
    if m.platform.NeedsAlignedAccess? then ReadOne(m, i, a).AndThen(ReadOne(m, i + 1, b))
    else if |m.code| < i + 2 then Fault
    else if m.platform.BigEndian?
    then Bool(LoadBig(values, m.code[i..i + 2]) == PairConstant(m.platform, values, a, b))
    else Bool(LoadLittle(values, m.code[i..i + 2]) == PairConstant(m.platform, values, a, b))
  }

  function ReadFour(m: Machine, i: nat, a: CodeUnit, b: CodeUnit, c: CodeUnit, d: CodeUnit): Truth {
    var values := m.charType.Values();
    if !m.platform.LittleEndianX86_64? then ReadTwo(m, i, a, b).AndThen(ReadTwo(m, i + 2, c, d))
    else if |m.code| < i + 4 then Fault
    else Bool(LoadLittle(values, m.code[i..i + 4]) == QuadConstant(values, a, b, c, d))
  }

  function EvalCompare(m: Machine, base: nat, c: Compare): Truth {
    match c
    case One(at, a) => ReadOne(m, base + at, a)
    case Two(at, a, b) => ReadTwo(m, base + at, a, b)
    case Four(at, a, b, c, d) => ReadFour(m, base + at, a, b, c, d)
  }

  function EvalAll(m: Machine, base: nat, cs: seq<Compare>): Truth {
    if cs == [] then Bool(true) else EvalCompare(m, base, cs[0]).AndThen(EvalAll(m, base, cs[1..]))
  }

  function EvalTest(m: Machine, t: Test): Truth {
    match Expand(t.chars)
    case None => Fault
    case Some(cs) => EvalAll(m, t.base, cs)
  }

  // ----- Statements -----

  datatype Outcome = Crashed | FellThrough | Returned(shift: nat, ident: Text, token: Token)

  function RunStmts(m: Machine, stmts: seq<Stmt>): Outcome
    decreases stmts
  {
    if stmts == [] then FellThrough
    else
      var r := RunStmt(m, stmts[0]);
      if r.FellThrough? then RunStmts(m, stmts[1..]) else r
  }

  function RunStmt(m: Machine, s: Stmt): Outcome
    decreases s
  {
    match s
    case GuardedReturn(at, shift, ident, token) =>
      if at >= |m.code| then Crashed
      else if m.isIdentPart(m.code[at]) then FellThrough
      else Returned(shift, ident, token)
    case IfElse(branches) => RunBranches(m, branches)
  }

  function RunBranches(m: Machine, branches: seq<Branch>): Outcome
    decreases branches
  {
    if branches == [] then FellThrough
    else
      match EvalTest(m, branches[0].test)
      case Fault => Crashed
      case Bool(true) => RunStmts(m, branches[0].body)
      case Bool(false) => RunBranches(m, branches[1..])
  }

  // ----- Packed comparison is comparison -----

  lemma UnitsLoad(values: nat, s: Text)
    ensures |s| == 2 ==> LoadLittle(values, s) == s[0] + values * s[1] && LoadBig(values, s) == s[0] * values + s[1]
    ensures |s| == 4 ==> LoadLittle(values, s) == s[0] + values * (s[1] + values * (s[2] + values * s[3]))
  {
    if |s| == 2 {
      assert s[1..][1..] == [] && LoadLittle(values, s[1..]) == s[1];
      assert s[..1][..0] == [] && LoadBig(values, s[..1]) == s[0];
    } else if |s| == 4 {
      var r := s[2..];
      assert s[1..][1..] == r && r[1..][1..] == [] && LoadLittle(values, r[1..]) == r[1];
      assert LoadLittle(values, s[1..]) == s[1] + values * LoadLittle(values, r);
    }
  }

  /** The lowest digit of a number and the rest of it are determined by the number. */
  lemma DigitsAreUnique(t: CharType, x: nat, hi: nat, y: nat, hi': nat)
    requires x < t.Values() && y < t.Values()
    ensures x + t.Values() * hi == y + t.Values() * hi' <==> x == y && hi == hi'
  {
  }

  lemma TwoUnits(m: Machine, i: nat, a: CodeUnit, b: CodeUnit)
    requires InRange(m.code, m.charType) && InRange([a, b], m.charType) && i + 2 <= |m.code|
    ensures ReadTwo(m, i, a, b) == Bool(m.code[i] == a && m.code[i + 1] == b)
  {
    assert [a, b][0] == a && [a, b][1] == b;
    var t, s := m.charType, m.code[i..i + 2];
    if !m.platform.NeedsAlignedAccess? {
      UnitsLoad(t.Values(), s);
      if m.platform.BigEndian? {
        DigitsAreUnique(t, s[1], s[0], b, a);
      } else {
        DigitsAreUnique(t, s[0], s[1], a, b);
      }
    }
  }

  lemma QuadDigits(t: CharType, a: CodeUnit, b: CodeUnit, c: CodeUnit, d: CodeUnit)
    ensures var v := t.Values(); QuadConstant(v, a, b, c, d) == a + v * (b + v * (c + v * d))
  {
  }

  lemma SameFourDigits(t: CharType, x: nat, y: nat, z: nat, w: nat, a: nat, b: nat, c: nat, d: nat)
    requires x < t.Values() && y < t.Values() && z < t.Values() && a < t.Values() && b < t.Values() && c < t.Values()
    ensures var v := t.Values();
            x + v * (y + v * (z + v * w)) == a + v * (b + v * (c + v * d)) <==> x == a && y == b && z == c && w == d
  {
    var v := t.Values();
    DigitsAreUnique(t, x, y + v * (z + v * w), a, b + v * (c + v * d));
    DigitsAreUnique(t, y, z + v * w, b, c + v * d);
    DigitsAreUnique(t, z, w, c, d);
  }

  /** One load of four characters. */
  lemma FourUnitsAtOnce(m: Machine, i: nat, a: CodeUnit, b: CodeUnit, c: CodeUnit, d: CodeUnit)
    requires InRange(m.code, m.charType) && InRange([a, b, c, d], m.charType) && i + 4 <= |m.code|
    requires m.platform.LittleEndianX86_64?
    ensures ReadFour(m, i, a, b, c, d)
              == Bool(m.code[i] == a && m.code[i + 1] == b && m.code[i + 2] == c && m.code[i + 3] == d)
  {
    var q, t, s := [a, b, c, d], m.charType, m.code[i..i + 4];
    assert q[0] == a && q[1] == b && q[2] == c && q[3] == d;
    UnitsLoad(t.Values(), s);
    QuadDigits(t, a, b, c, d);
    SameFourDigits(t, s[0], s[1], s[2], s[3], a, b, c, d);
  }

  lemma FourUnits(m: Machine, i: nat, a: CodeUnit, b: CodeUnit, c: CodeUnit, d: CodeUnit)
    requires InRange(m.code, m.charType) && InRange([a, b, c, d], m.charType) && i + 4 <= |m.code|
    ensures ReadFour(m, i, a, b, c, d)
              == Bool(m.code[i] == a && m.code[i + 1] == b && m.code[i + 2] == c && m.code[i + 3] == d)
  {
    var q, t := [a, b, c, d], m.charType;
    assert q[0] == a && q[1] == b && q[2] == c && q[3] == d;
    if m.platform.LittleEndianX86_64? {
      FourUnitsAtOnce(m, i, a, b, c, d);
    } else {
      assert InRange([a, b], t) && InRange([c, d], t);
      TwoUnits(m, i, a, b);
      TwoUnits(m, i + 2, c, d);
    }
  }

  lemma EvalPair(m: Machine, base: nat, cs: seq<Compare>, x: bool, y: bool)
    requires |cs| == 2 && EvalCompare(m, base, cs[0]) == Bool(x) && EvalCompare(m, base, cs[1]) == Bool(y)
    ensures EvalAll(m, base, cs) == Bool(x && y)
  {
    assert cs[1..][1..] == [];
    assert EvalAll(m, base, cs[1..]) == EvalCompare(m, base, cs[1]).AndThen(EvalAll(m, base, []));
  }

  lemma EvalSingle(m: Machine, base: nat, cs: seq<Compare>, x: bool)
    requires |cs| == 1 && EvalCompare(m, base, cs[0]) == Bool(x)
    ensures EvalAll(m, base, cs) == Bool(x)
  {
    assert EvalAll(m, base, cs[1..]) == Bool(true);
  }

  ghost predicate SameAt(m: Machine, i: nat, c: Text, from: nat, to: nat)
    requires from <= to <= |c| && i + |c| <= |m.code|
  {
    forall j :: from <= j < to ==> m.code[i + j] == c[j]
  }

  lemma TwoAt(m: Machine, i: nat, c: Text, n: nat)
    requires InRange(m.code, m.charType) && InRange(c, m.charType) && i + |c| <= |m.code| && n + 2 <= |c|
    ensures ReadTwo(m, i + n, c[n], c[n + 1]) == Bool(SameAt(m, i, c, n, n + 2))
  {
    assert InRange([c[n], c[n + 1]], m.charType);
    TwoUnits(m, i + n, c[n], c[n + 1]);
  }

  lemma FourAt(m: Machine, i: nat, c: Text, n: nat)
    requires InRange(m.code, m.charType) && InRange(c, m.charType) && i + |c| <= |m.code| && n + 4 <= |c|
    ensures ReadFour(m, i + n, c[n], c[n + 1], c[n + 2], c[n + 3]) == Bool(SameAt(m, i, c, n, n + 4))
  {
    assert InRange([c[n], c[n + 1], c[n + 2], c[n + 3]], m.charType);
    FourUnits(m, i + n, c[n], c[n + 1], c[n + 2], c[n + 3]);
  }

  lemma OneAt(m: Machine, i: nat, c: Text, n: nat)
    requires i + |c| <= |m.code| && n < |c|
    ensures ReadOne(m, i + n, c[n]) == Bool(SameAt(m, i, c, n, n + 1))
  {
  }

  lemma ShortTest(m: Machine, i: nat, c: Text)
    requires InRange(m.code, m.charType) && InRange(c, m.charType)
    requires |c| in {1, 2, 4} && i + |c| <= |m.code|
    ensures EvalTest(m, Test(i, c)) == Bool(SameAt(m, i, c, 0, |c|))
  {
    if |c| == 1 {
      OneAt(m, i, c, 0);
    } else if |c| == 2 {
      TwoAt(m, i, c, 0);
    } else {
      FourAt(m, i, c, 0);
    }
    EvalSingle(m, i, Expand(c).value, SameAt(m, i, c, 0, |c|));
  }

  /** Where the second of two comparisons starts; in a seven-character test it overlaps the first. */
  function SecondAt(n: nat): nat {
    match n
    case 3 => 2
    case 7 => 3
    case _ => 4
  }

  lemma FirstPart(m: Machine, i: nat, c: Text)
    requires InRange(m.code, m.charType) && InRange(c, m.charType)
    requires |c| in {3, 5, 6, 7, 8} && i + |c| <= |m.code|
    ensures EvalCompare(m, i, Expand(c).value[0]) == Bool(SameAt(m, i, c, 0, if |c| == 3 then 2 else 4))
  {
    if |c| == 3 {
      TwoAt(m, i, c, 0);
    } else {
      FourAt(m, i, c, 0);
    }
  }

  lemma SecondPart(m: Machine, i: nat, c: Text)
    requires InRange(m.code, m.charType) && InRange(c, m.charType)
    requires |c| in {3, 5, 6, 7, 8} && i + |c| <= |m.code|
    ensures EvalCompare(m, i, Expand(c).value[1]) == Bool(SameAt(m, i, c, SecondAt(|c|), |c|))
  {
    var n := SecondAt(|c|);
    if |c| - n == 1 {
      OneAt(m, i, c, n);
    } else if |c| - n == 2 {
      TwoAt(m, i, c, n);
    } else {
      FourAt(m, i, c, n);
    }
  }

  /** On every platform each macro that exists compares its characters one by one, inside its window. */
  lemma TestIsComparison(m: Machine, t: Test)
    requires InRange(m.code, m.charType) && InRange(t.chars, m.charType)
    requires 1 <= |t.chars| <= 8 && t.base + |t.chars| <= |m.code|
    ensures EvalTest(m, t) == Bool(t.chars <= m.code[t.base..])
  {
    var c, i := t.chars, t.base;
    assert c <= m.code[i..] <==> c == m.code[i..i + |c|];
    assert SameAt(m, i, c, 0, |c|) <==> c == m.code[i..i + |c|];
    if |c| in {1, 2, 4} {
      ShortTest(m, i, c);
    } else {
      var n := SecondAt(|c|);
      FirstPart(m, i, c);
      SecondPart(m, i, c);
      EvalPair(m, i, Expand(c).value, SameAt(m, i, c, 0, if |c| == 3 then 2 else 4), SameAt(m, i, c, n, |c|));
    }
  }
}
