/** The seedings and the recurrence of the Mersenne Twister as arithmetic on numbers, with all places written out. */
module MersenneNumbers {
  import opened MersenneWords
  import opened MersenneRecurrence
  import opened MersenneSeeding
  import opened MersenneReals
  import opened MersenneMatrix

  // ----- The recurrence -----

  lemma SumBit(hi: Word, lo: Word, low: Word, i: nat)
    requires i < 32 && low == lo % 0x8000_0000
    ensures Bit((if hi >= 0x8000_0000 then 0x8000_0000 else 0) + low, i) == if i == 31 then Bit(hi, i) else Bit(lo, i)
  {
    HalfBits(low, 31, i);
    assert lo == low || lo == low + 0x8000_0000;
    if i == 31 {
      TopBitIsBit(hi, i);
      TopBitIsBit(low, i);
    }
  }

  lemma SpliceIsSum(hi: Word, lo: Word)
    ensures Splice(hi, lo) == (if hi >= 0x8000_0000 then 0x8000_0000 else 0) + lo % 0x8000_0000
  {
    var low := lo % 0x8000_0000;
    var r: Word := (if hi >= 0x8000_0000 then 0x8000_0000 else 0) + low;
    forall i: nat | i < 32 ensures Bit(Splice(hi, lo), i) == Bit(r, i) {
      SpliceBit(hi, lo, i);
      SumBit(hi, lo, low, i);
    }
    SameBits(Splice(hi, lo), r);
  }

  /** The infinite sequence with its places written out. */
  lemma SequenceIsMt19937(seed: State, k: nat)
    ensures k < 624 ==> X(seed, k) == seed[k]
    ensures var y := (if X(seed, k) >= 0x8000_0000 then 0x8000_0000 else 0) + X(seed, k + 1) % 0x8000_0000;
            X(seed, k + 624) == Xor(X(seed, k + 397), Twist(y))
  {
    Next(seed, k);
    SpliceIsSum(X(seed, k), X(seed, k + 1));
  }

  // ----- The seedings as arithmetic -----

  /** Two bits toggled by two others. */
  function Toggled(low: nat, high: nat): (r: nat)
    requires low < 4 && high < 4
    ensures r < 4
  {
    (low % 2 + high % 2) % 2 + 2 * ((low / 2 + high / 2) % 2)
  }

  /** A word whose two low bits are toggled by its two high ones. */
  function Folded(p: Word): nat {
    p - p % 4 + Toggled(p % 4, p / 0x4000_0000)
  }

  lemma BitOfQuad(h: nat, low: nat, i: nat)
    requires low < 4
    ensures Bit(4 * h + low, i) == if i == 0 then low % 2 == 1 else if i == 1 then low / 2 == 1 else Bit(h, i - 2)
  {
    var x := 4 * h + low;
    assert x / 2 == 2 * h + low / 2 && x / 2 / 2 == h;
    if i > 0 {
      assert Bit(x, i) == Bit(x / 2, i - 1);
    }
    if i > 1 {
      assert Bit(x / 2, i - 1) == Bit(x / 2 / 2, i - 2);
    }
  }

  lemma ToggledBits(low: nat, high: nat)
    requires low < 4 && high < 4
    ensures Toggled(low, high) % 2 == 1 <==> (low % 2 == 1) != (high % 2 == 1)
    ensures Toggled(low, high) / 2 == 1 <==> (low / 2 == 1) != (high / 2 == 1)
  {
  }

  lemma FoldBit(x: nat, y: nat, h: nat, low: nat, high: nat, r: nat, i: nat)
    requires x == 4 * h + low && y == 4 * h + r && low < 4 && high < 4 && r < 4
    requires r % 2 == 1 <==> (low % 2 == 1) != (high % 2 == 1)
    requires r / 2 == 1 <==> (low / 2 == 1) != (high / 2 == 1)
    ensures Bit(y, i) == (Bit(x, i) != Bit(high, i))
  {
    BitOfQuad(h, low, i);
    BitOfQuad(h, r, i);
    BitOfQuad(0, high, i);
    if i > 1 {
      ZeroBits(i - 2);
    }
  }

  lemma FoldOfQuad(p: Word, h: nat, low: nat, high: nat)
    requires p == 4 * h + low && low < 4 && high < 4
    ensures Xor(p, high) == 4 * h + Toggled(low, high)
  {
    var r := Toggled(low, high);
    var y: Word := 4 * h + r;
    ToggledBits(low, high);
    forall i: nat | i < 32 ensures Bit(Xor(p, high), i) == Bit(y, i) {
      FoldBit(p, y, h, low, high, r, i);
    }
    SameBits(Xor(p, high), y);
  }

  lemma HighBits(p: Word, n: nat)
    requires n == 30
    ensures Shr(p, n) == p / 0x4000_0000
  {
    Pow2Of32();
    assert Pow2(n + 1) == 2 * Pow2(n);
    ShrIsDivision(p, n);
  }

  /** What the multiplications start from, for all words. */
  lemma FoldIsNumber(p: Word)
    ensures Fold(p) == Folded(p)
  {
    HighBits(p, 30);
    FoldOfQuad(p, p / 4, p % 4, p / 0x4000_0000);
  }

  /** The next word of a seeded state. */
  lemma NextSeedWordIsNumber(p: Word, i: nat)
    ensures NextSeedWord(p, i) == (1812433253 * Folded(p) + i) % 0x1_0000_0000
  {
    FoldIsNumber(p);
  }

  /** `x` and `y` toggled bit by bit. */
  ghost predicate IsToggled(x: Word, y: Word, r: Word) {
    forall i: nat :: i < 32 ==> Bit(r, i) == (Bit(x, i) != Bit(y, i))
  }

  lemma ToggledByZero(x: Word, y: Word, r: Word)
    requires IsToggled(x, y, r)
    ensures x == 0 ==> r == y
    ensures y == 0 ==> r == x
  {
    AllMaskBits();
    if x == 0 {
      SameBits(r, y);
    }
    if y == 0 {
      SameBits(r, x);
    }
  }

  /** A step of the first pass: the word, toggled by the product, plus the key word and its place. */
  lemma MixKeyIsNumber(x: Word, p: Word, f: nat, y: Word, key: Word, j: nat) returns (r: Word)
    requires Fold(p) == f && y == 1664525 * f % 0x1_0000_0000
    ensures IsToggled(x, y, r) && MixKey(x, p, key, j) == (r + key + j) % 0x1_0000_0000
  {
    r := KeyMix(x, p);
  }

  /** A step of the second pass: the word, toggled by the product, minus the place. */
  lemma MixIndexIsNumber(x: Word, p: Word, f: nat, y: Word, i: nat) returns (r: Word)
    requires Fold(p) == f && y == 1566083941 * f % 0x1_0000_0000
    ensures IsToggled(x, y, r) && MixIndex(x, p, i) == (r - i) % 0x1_0000_0000
  {
    r := Xor(x, y);
  }

  lemma FoldOfZero(zero: Word)
    requires zero == 0
    ensures Fold(zero) == 0
  {
    FoldIsNumber(zero);
  }

  /** With 0 before it a word is only counted up by the key word and its place, or down by the place. */
  lemma MixingWithZero(x: Word, zero: Word, key: Word, j: nat)
    requires zero == 0
    ensures MixKey(x, zero, key, j) == (x + key + j) % 0x1_0000_0000
    ensures MixIndex(x, zero, j) == (x - j) % 0x1_0000_0000
  {
    FoldOfZero(zero);
    var r := MixKeyIsNumber(x, zero, 0, 0, key, j);
    var r' := MixIndexIsNumber(x, zero, 0, 0, j);
    ToggledByZero(x, 0, r);
    ToggledByZero(x, 0, r');
  }

  // ----- Seeding by array as one sequence -----

  function Remainder(t: nat, length: nat): (r: nat)
    requires length > 0
    ensures r < length
  {
    t % length
  }

  lemma NextRemainder(t: nat, length: nat)
    requires length > 0
    ensures Remainder(t + 1, length) == if Remainder(t, length) + 1 == length then 0 else Remainder(t, length) + 1
  {
    var q, r := t / length, t % length;
    assert t == length * q + r;
    if r + 1 == length {
      assert t + 1 == length * (q + 1) + 0;
      QuotientIs(t + 1, length, q + 1, 0);
    } else {
      QuotientIs(t + 1, length, q, r + 1);
    }
  }

  lemma {:induction false} TurnIsRemainder(t: nat, length: nat)
    requires length > 0
    ensures Turn(t, length) == Remainder(t, length)
  {
    if t > 0 {
      TurnIsRemainder(t - 1, length);
      NextRemainder(t - 1, length);
    } else {
      QuotientIs(0, length, 0, 0);
    }
  }

  /** The words written by init_by_array, each out of the one written a round ago and the last one. */
  ghost predicate IsWritten(w: seq<Word>, key: seq<Word>, steps: nat, t: nat)
    requires key != [] && 624 + t < |w|
  {
    var last := if t == 0 then w[0] else w[t + 623];
    w[624 + t] == if t < steps then MixKey(w[t + 1], last, key[Remainder(t, |key|)], Remainder(t, |key|)) else MixIndex(w[t + 1], last, 1 + t % 623)
  }

  ghost predicate IsSeeded(w: seq<Word>, s: Word) {
    |w| >= 624 && w[0] == s && forall i :: 1 <= i < 624 ==> w[i] == NextSeedWord(w[i - 1], i)
  }

  /** The seeded state, and behind it all words that are written. */
  ghost predicate IsMixing(w: seq<Word>, s: Word, key: seq<Word>, steps: nat)
    requires key != []
  {
    && IsSeeded(w, s)
    && forall t: nat :: t < |w| - 624 ==> IsWritten(w, key, steps, t)
  }

  /** The state after `t` steps of both passes. */
  function Mixed(init: State, key: seq<Word>, t: nat): State
    requires key != []
  {
    if t <= Steps(key) then FirstPass(init, key, t)
    else SecondPass(FirstPass(init, key, Steps(key)), Steps(key), t - Steps(key))
  }

  lemma MixedStep(init: State, key: seq<Word>, t: nat)
    requires key != []
    ensures t < Steps(key) ==> Mixed(init, key, t + 1) == KeyStep(Mixed(init, key, t), key, t)
    ensures t >= Steps(key) ==> Mixed(init, key, t + 1) == IndexStep(Mixed(init, key, t), t)
  {
    var steps := Steps(key);
    if t < steps {
      FirstPassStep(init, key, t);
    } else {
      var st, n := FirstPass(init, key, steps), t - steps;
      SecondPassStep(st, steps, n);
      assert SecondPass(st, steps, 0) == st;
    }
  }

  lemma FirstPassStep(init: State, key: seq<Word>, n: nat)
    requires key != []
    ensures FirstPass(init, key, n + 1) == KeyStep(FirstPass(init, key, n), key, n)
  {
  }

  lemma SecondPassStep(st: State, start: nat, n: nat)
    ensures SecondPass(st, start, n + 1) == IndexStep(SecondPass(st, start, n), start + n)
  {
  }

  /** The `d`-th place from the one written next onwards has the word `d` places on. */
  ghost predicate RingAt(st: State, w: seq<Word>, t: nat, d: nat)
    requires |w| == 624 + t && d < 623
  {
    st[1 + (t + d) % 623] == w[t + 1 + d]
  }

  /** The places behind 0, from the one written next onwards, are the last words of `w`. */
  ghost predicate InRing(st: State, w: seq<Word>, t: nat) {
    |w| == 624 + t && forall d: nat :: d < 623 ==> RingAt(st, w, t, d)
  }

  /** The place before the one written next. */
  ghost predicate LastWritten(st: State, w: seq<Word>, t: nat) {
    |w| == 624 + t && st[Place(t) - 1] == if t == 0 then w[0] else w[t + 623]
  }

  lemma RingTurns(t: nat, d: nat)
    requires d < 623
    ensures (t + 1 + d) % 623 == if d < 622 then (t + (d + 1)) % 623 else t % 623
    ensures d < 622 ==> (t + 1 + d) % 623 != t % 623
  {
  }

  lemma NextInRing(st: State, w: seq<Word>, t: nat, x: Word)
    requires InRing(st, w, t)
    ensures var st' := Settle(st[Place(t) := x], Place(t));
            InRing(st', w + [x], t + 1) && LastWritten(st', w + [x], t + 1)
  {
    var st', w', t' := Settle(st[Place(t) := x], Place(t)), w + [x], t + 1;
    PlaceTurns(t);
    forall d: nat | d < 623 ensures RingAt(st', w', t', d) {
      RingTurns(t, d);
      if d < 622 {
        assert RingAt(st, w, t, d + 1);
      }
    }
  }

  lemma PlaceTurns(t: nat)
    ensures Place(t) == 1 + t % 623
    ensures Place(t + 1) == if Place(t) == 623 then 1 else Place(t) + 1
  {
  }

  lemma StepIsWritten(init: State, key: seq<Word>, w: seq<Word>, t: nat, st: State) returns (x: Word)
    requires key != [] && st == Mixed(init, key, t) && InRing(st, w, t) && LastWritten(st, w, t)
    ensures IsWritten(w + [x], key, Steps(key), t)
    ensures Mixed(init, key, t + 1) == Settle(st[Place(t) := x], Place(t))
  {
    var last, j := if t == 0 then w[0] else w[t + 623], Remainder(t, |key|);
    MixedStep(init, key, t);
    TurnIsRemainder(t, |key|);
    PlaceTurns(t);
    assert RingAt(st, w, t, 0);
    x := if t < Steps(key) then MixKey(w[t + 1], last, key[j], j) else MixIndex(w[t + 1], last, 1 + t % 623);
  }

  lemma MixingGrows(w: seq<Word>, s: Word, key: seq<Word>, steps: nat, x: Word)
    requires key != [] && IsMixing(w, s, key, steps) && IsWritten(w + [x], key, steps, |w| - 624)
    ensures IsMixing(w + [x], s, key, steps)
  {
    var w' := w + [x];
    forall t: nat | t < |w'| - 624 ensures IsWritten(w', key, steps, t) {
      if t < |w| - 624 {
        assert IsWritten(w, key, steps, t);
      }
    }
  }

  lemma SeedStateIsSeeded(s: Word, w: seq<Word>)
    requires |w| == 624 && forall i: nat :: i < 624 ==> w[i] == SeedWord(s, i)
    ensures IsSeeded(w, s)
  {
    forall i | 1 <= i < 624 ensures w[i] == NextSeedWord(w[i - 1], i) {
      assert SeedWord(s, i) == NextSeedWord(SeedWord(s, i - 1), i);
    }
  }

  lemma StartsAsRing(st: State)
    ensures InRing(st, st, 0) && LastWritten(st, st, 0)
  {
    forall d: nat | d < 623 ensures RingAt(st, st, 0, d) {
    }
  }

  lemma SeededRing(s: Word) returns (w: seq<Word>)
    ensures InRing(SeedState(s), w, 0) && LastWritten(SeedState(s), w, 0) && IsSeeded(w, s)
  {
    w := SeedState(s);
    SeedStateIsSeeded(s, w);
    StartsAsRing(w);
  }

  /** `w` is what `t` steps have written, and the state can be found in it. */
  ghost predicate IsTrace(w: seq<Word>, s: Word, key: seq<Word>, t: nat, st: State)
    requires key != []
  {
    IsMixing(w, s, key, Steps(key)) && InRing(st, w, t) && LastWritten(st, w, t)
  }

  lemma TraceGrows(w: seq<Word>, init: State, s: Word, key: seq<Word>, t: nat, st: State) returns (x: Word)
    requires key != [] && st == Mixed(init, key, t) && IsTrace(w, s, key, t, st)
    ensures IsTrace(w + [x], s, key, t + 1, Mixed(init, key, t + 1))
  {
    x := StepIsWritten(init, key, w, t, st);
    NextInRing(st, w, t, x);
    MixingGrows(w, s, key, Steps(key), x);
  }

  lemma {:induction false} MixingUpTo(init: State, s: Word, key: seq<Word>, t: nat) returns (w: seq<Word>)
    requires key != [] && init == SeedState(s)
    ensures IsTrace(w, s, key, t, Mixed(init, key, t))
  {
    if t == 0 {
      w := SeededRing(s);
    } else {
      w := MixingUpTo(init, s, key, t - 1);
      var x := TraceGrows(w, init, s, key, t - 1, Mixed(init, key, t - 1));
      w := w + [x];
    }
  }

  lemma RingIsState(st: State, w: seq<Word>, from: nat)
    requires InRing(st, w, from + 623)
    ensures forall t: nat {:trigger w[624 + t]} :: from <= t < from + 623 ==> st[1 + t % 623] == w[624 + t]
  {
    forall t: nat {:trigger w[624 + t]} | from <= t < from + 623 ensures st[1 + t % 623] == w[624 + t] {
      assert RingAt(st, w, from + 623, t - from);
      assert (from + 623 + (t - from)) % 623 == t % 623;
    }
  }

  /**
   init_by_array without places: after the seeded words come as many as the key has, but at least 624, and then
   623 more, each out of the word 623 before it and the one right before it.  The last 623 are the state, with
   the constant in front.
   */
  lemma ArrayStateIsMixing(key: seq<Word>) returns (w: seq<Word>)
    requires key != []
    ensures var steps := if |key| > 624 then |key| else 624;
            && IsMixing(w, 19650218, key, steps) && |w| == 624 + steps + 623
            && forall t: nat {:trigger w[624 + t]} :: steps <= t < steps + 623 ==> ArrayState(key)[1 + t % 623] == w[624 + t]
    ensures ArrayState(key)[0] == 0x8000_0000
  {
    var steps, init := Steps(key), SeedState(19650218);
    w := MixingUpTo(init, 19650218, key, steps + 623);
    var st := Mixed(init, key, steps + 623);
    assert ArrayState(key) == ArrayStateFrom(init, key) == st[0 := 0x8000_0000];
    RingIsState(st, w, steps);
  }
}
