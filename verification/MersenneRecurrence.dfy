/**
 The infinite sequence of the mt19937 engine (ISO/IEC 14882:2011, section 26.5.3.2): each word
 follows from the words N, N-1 and N-M places before it.
 */
module MersenneRecurrence {
  import opened MersenneWords

  const N: nat := 624
  const M: nat := 397

  type State = s: seq<Word> | |s| == N witness seq(N, i => 0)

  function X(seed: State, k: nat): Word
    decreases k, seed
  {
    if k < N then seed[k]
    else Xor(X(seed, k - N + M), Twist(Splice(X(seed, k - N), X(seed, k - N + 1))))
  }

  /** The words the refill needs: the one N places further on. */
  lemma Next(seed: State, k: nat)
    ensures X(seed, k + N) == Xor(X(seed, k + M), Twist(Splice(X(seed, k), X(seed, k + 1))))
  {
  }

  // ----- The 19937-bit window -----

  /** Two runs agree at `k` on the top bit of the oldest word and on the N - 1 words after it. */
  ghost predicate SameWindow(a: State, b: State, k: nat) {
    && TopBit(X(a, k)) == TopBit(X(b, k))
    && forall i :: k < i < k + N ==> X(a, i) == X(b, i)
  }

  /** One step of the recurrence loses nothing of the window. */
  lemma StepIsInjective(a: State, b: State, k: nat)
    requires SameWindow(a, b, k + 1)
    ensures SameWindow(a, b, k)
  {
    Next(a, k);
    Next(b, k);
    var ya, yb := Splice(X(a, k), X(a, k + 1)), Splice(X(b, k), X(b, k + 1));
    assert X(a, k + N) == X(b, k + N) && X(a, k + M) == X(b, k + M);
    XorCancels(X(a, k + M), Twist(ya), Twist(yb));
    TwistIsInjective(ya, yb);
    SpliceDetermines(X(a, k), X(a, k + 1), X(b, k), X(b, k + 1));
  }

  /** The window determines the next one. */
  lemma StepIsFunctional(a: State, b: State, k: nat)
    requires SameWindow(a, b, k)
    ensures SameWindow(a, b, k + 1)
  {
    Next(a, k);
    Next(b, k);
    SpliceNeedsTopBit(X(a, k), X(b, k), X(a, k + 1));
    assert X(a, k + M) == X(b, k + M) && X(a, k + 1) == X(b, k + 1);
  }

  lemma StepKeepsAgreement(a: State, b: State, k: nat)
    ensures SameWindow(a, b, k) <==> SameWindow(a, b, k + 1)
  {
    if SameWindow(a, b, k + 1) {
      StepIsInjective(a, b, k);
    } else if SameWindow(a, b, k) {
      StepIsFunctional(a, b, k);
    }
  }

  lemma {:induction false} AgreementIsInitial(a: State, b: State, k: nat)
    ensures SameWindow(a, b, 0) <==> SameWindow(a, b, k)
  {
    if k > 0 {
      AgreementIsInitial(a, b, k - 1);
      StepKeepsAgreement(a, b, k - 1);
    }
  }

  /** Two runs that agree on the window at one time agree on it at every time, earlier or later. */
  lemma WindowsAgreeAlways(a: State, b: State, j: nat, k: nat)
    ensures SameWindow(a, b, j) <==> SameWindow(a, b, k)
  {
    AgreementIsInitial(a, b, j);
    AgreementIsInitial(a, b, k);
  }

  /** N consecutive outputs, anywhere in a run, determine every word after the first and so all outputs. */
  lemma OutputsDetermineTheRun(a: State, b: State, k: nat, j: nat)
    requires forall i :: k <= i < k + N ==> Temper(X(a, i)) == Temper(X(b, i))
    requires j > 0
    ensures X(a, j) == X(b, j)
  {
    forall i | k <= i < k + N ensures X(a, i) == X(b, i) {
      TemperIsBijective(X(a, i));
      TemperIsBijective(X(b, i));
    }
    assert SameWindow(a, b, k);
    WindowsAgreeAlways(a, b, k, j - 1);
  }

  // ----- Never all zero -----

  ghost predicate NonZeroWindow(a: State, k: nat) {
    TopBit(X(a, k)) || exists i :: k < i < k + N && X(a, i) != 0
  }

  function Zeros(): State {
    seq(N, i => 0)
  }

  lemma NextOfZeros(z: State, k: nat)
    requires X(z, k) == 0 && X(z, k + 1) == 0 && X(z, k + M) == 0
    ensures X(z, k + N) == 0
  {
    Next(z, k);
    TwistOfZero(X(z, k));
  }

  lemma {:induction false} ZerosStayZero(z: State, k: nat)
    requires forall i :: 0 <= i < N ==> z[i] == 0
    ensures X(z, k) == 0
  {
    if k >= N {
      var j := k - N;
      ZerosStayZero(z, j);
      ZerosStayZero(z, j + 1);
      ZerosStayZero(z, j + M);
      NextOfZeros(z, j);
    }
  }

  lemma TwistOfZero(z: Word)
    requires z == 0
    ensures Xor(z, Twist(Splice(z, z))) == z
  {
    AllMaskBits();
    forall i: nat | i < 32 ensures !Bit(Splice(z, z), i) {
      SpliceBit(z, z, i);
    }
    SameBits(Splice(z, z), z);
    LowBit(z);
    SameBits(Shr(z, 1), z);
    XorZero(z);
  }

  lemma NonZeroIsNotZeros(a: State, k: nat)
    ensures NonZeroWindow(a, k) <==> !SameWindow(a, Zeros(), k)
  {
    forall i | k <= i < k + N ensures X(Zeros(), i) == 0 {
      ZerosStayZero(Zeros(), i);
    }
  }

  /** A window that is not zero at the start is never zero. */
  lemma NeverAllZero(a: State, k: nat)
    requires NonZeroWindow(a, 0)
    ensures NonZeroWindow(a, k)
  {
    NonZeroIsNotZeros(a, 0);
    NonZeroIsNotZeros(a, k);
    WindowsAgreeAlways(a, Zeros(), 0, k);
  }
}
