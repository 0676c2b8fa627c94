/** The two seeding functions as functions on states, and how much of a key seeding by array keeps. */
module MersenneSeeding {
  import opened MersenneWords
  import opened MersenneRecurrence

  /** The mask with 0xffffffff that follows every sum. */
  function Wrap(x: int): Word {
    x % 0x1_0000_0000
  }

  function Fold(x: Word): Word {
    Xor(x, Shr(x, 30))
  }

  // ----- init_genrand -----

  function SeedWord(s: Word, i: nat): Word
    decreases i, s
  {
    if i == 0 then s else NextSeedWord(SeedWord(s, i - 1), i)
  }

  function NextSeedWord(previous: Word, i: nat): Word {
    Wrap(1812433253 * Fold(previous) + i)
  }

  function SeedState(s: Word): State {
    seq(N, (i: nat) => SeedWord(s, i))
  }

  // ----- init_by_array -----

  /** What the first pass makes of a place and the one before it, before a key word is added. */
  function KeyMix(x: Word, previous: Word): Word {
    Xor(x, Wrap(Fold(previous) * 1664525))
  }

  function MixKey(x: Word, previous: Word, key: Word, j: nat): Word {
    Wrap(KeyMix(x, previous) + key + j)
  }

  function MixIndex(x: Word, previous: Word, i: nat): Word {
    Wrap(Xor(x, Wrap(Fold(previous) * 1566083941)) - i)
  }

  /** The place written by step `t` of either pass, counting the steps of both. */
  function Place(t: nat): (i: nat)
    ensures 1 <= i < N
  {
    1 + t % (N - 1)
  }

  /** The key word read by step `t`: the words are taken in turn. */
  function Turn(t: nat, length: nat): (j: nat)
    requires length > 0
    ensures j < length
  {
    if t == 0 then 0
    else
      var j := Turn(t - 1, length) + 1;
      if j >= length then 0 else j
  }

  /** A write to the last place is copied to place 0. */
  function Settle(st: State, i: nat): State {
    if i == N - 1 then st[0 := st[N - 1]] else st
  }

  function KeyStep(st: State, key: seq<Word>, t: nat): State
    requires key != []
  {
    var i, j := Place(t), Turn(t, |key|);
    Settle(st[i := MixKey(st[i], st[i - 1], key[j], j)], i)
  }

  function IndexStep(st: State, t: nat): State {
    var i := Place(t);
    Settle(st[i := MixIndex(st[i], st[i - 1], i)], i)
  }

  function FirstPass(init: State, key: seq<Word>, n: nat): State
    requires key != []
    decreases n, init
  {
    if n == 0 then init else KeyStep(FirstPass(init, key, n - 1), key, n - 1)
  }

  /** `n` steps of the second pass, after `start` steps of the first. */
  function SecondPass(st: State, start: nat, n: nat): State
    decreases n, st
  {
    if n == 0 then st else IndexStep(SecondPass(st, start, n - 1), start + (n - 1))
  }

  function Steps(key: seq<Word>): nat {
    if N > |key| then N else |key|
  }

  function ArrayStateFrom(init: State, key: seq<Word>): State
    requires key != []
  {
    SecondPass(FirstPass(init, key, Steps(key)), Steps(key), N - 1)[0 := 0x8000_0000]
  }

  function ArrayState(key: seq<Word>): State
    requires key != []
  {
    ArrayStateFrom(SeedState(19650218), key)
  }

  // ----- Both leave a non-zero window -----

  lemma SeedStateIsNotZero(s: Word)
    ensures NonZeroWindow(SeedState(s), 0)
  {
    var st := SeedState(s);
    if SeedWord(s, 1) == 0 {
      XorZero(0);
      forall i: nat | i < 32 ensures !Bit(Shr(0, 30), i) && !Bit(0, i) {
        MaskBits(i);
      }
      SameBits(Shr(0, 30), 0);
      assert st[2] == SeedWord(s, 2) == 2;
      assert X(st, 2) != 0;
    } else {
      assert st[1] != 0;
      assert X(st, 1) != 0;
    }
  }

  lemma ArrayStateIsNotZero(key: seq<Word>)
    requires key != []
    ensures NonZeroWindow(ArrayState(key), 0)
  {
    assert X(ArrayState(key), 0) == 0x8000_0000;
  }

  // ----- The second pass loses nothing -----

  ghost predicate Agree(a: State, b: State) {
    forall p :: 1 <= p < N ==> a[p] == b[p]
  }

  lemma MixIndexRecovers(x: Word, y: Word, previous: Word, i: nat)
    requires MixIndex(x, previous, i) == MixIndex(y, previous, i)
    ensures x == y
  {
    var f := Wrap(Fold(previous) * 1566083941);
    WrapCancels(Xor(x, f), Xor(y, f), 0 - i);
    XorCancels(f, x, y);
  }

  lemma WrapCancels(x: Word, y: Word, d: int)
    requires Wrap(x + d) == Wrap(y + d)
    ensures x == y
  {
  }

  lemma IndexStepBack(a: State, b: State, t: nat)
    requires Agree(IndexStep(a, t), IndexStep(b, t))
    requires Place(t) == 1 ==> a[0] == b[0]
    ensures Agree(a, b)
  {
    var i := Place(t);
    var a', b' := IndexStep(a, t), IndexStep(b, t);
    assert forall p :: 1 <= p < N && p != i ==> a'[p] == a[p] && b'[p] == b[p];
    assert a'[i] == MixIndex(a[i], a[i - 1], i) && b'[i] == MixIndex(b[i], b[i - 1], i);
    MixIndexRecovers(a[i], b[i], a[i - 1], i);
  }

  lemma {:induction false} SecondPassBack(a: State, b: State, n: nat)
    requires n <= N - 2 && Agree(SecondPass(a, N, n), SecondPass(b, N, n))
    ensures Agree(a, b)
  {
    if n > 0 {
      assert Place(N + (n - 1)) == n + 1;
      IndexStepBack(SecondPass(a, N, n - 1), SecondPass(b, N, n - 1), N + (n - 1));
      SecondPassBack(a, b, n - 1);
    }
  }

  lemma WrappedAfterSecondPass(st: State)
    ensures SecondPass(st, N, N - 2)[0] == SecondPass(st, N, N - 2)[N - 1]
  {
    var n := N - 2;
    assert Place(N + (n - 1)) == N - 1;
    assert SecondPass(st, N, n) == IndexStep(SecondPass(st, N, n - 1), N + (n - 1));
  }

  lemma SecondPassIsInjective(a: State, b: State)
    requires Agree(SecondPass(a, N, N - 1), SecondPass(b, N, N - 1))
    ensures Agree(a, b)
  {
    var n := N - 1;
    var a', b' := SecondPass(a, N, n - 1), SecondPass(b, N, n - 1);
    assert Place(N + (n - 1)) == 1;
    assert SecondPass(a, N, n)[N - 1] == a'[N - 1] && SecondPass(b, N, n)[N - 1] == b'[N - 1];
    WrappedAfterSecondPass(a);
    WrappedAfterSecondPass(b);
    IndexStepBack(a', b', N + (n - 1));
    SecondPassBack(a, b, n - 1);
  }

  // ----- What the first pass writes -----

  /** The word written by step `t` of the first pass, up to the first return to place 1. */
  function Written(init: State, key: seq<Word>, t: nat): Word
    requires key != [] && t <= N - 2
    decreases t, init
  {
    MixKey(init[t + 1], if t == 0 then init[0] else Written(init, key, t - 1),
           key[Turn(t, |key|)], Turn(t, |key|))
  }

  /** Place `p` after `n` steps, before place 1 is written again. */
  function AfterSteps(init: State, key: seq<Word>, n: nat, p: nat): Word
    requires key != [] && n <= N - 1 && p < N
  {
    if p == 0 then if n == N - 1 then Written(init, key, N - 2) else init[0]
    else if p <= n then Written(init, key, p - 1) else init[p]
  }

  lemma {:induction false} FirstPassWrites(init: State, key: seq<Word>, n: nat)
    requires key != [] && n <= N - 1
    ensures forall p :: 0 <= p < N ==> FirstPass(init, key, n)[p] == AfterSteps(init, key, n, p)
  {
    if n > 0 {
      FirstPassWrites(init, key, n - 1);
      assert Place(n - 1) == n;
    }
  }

  /** The second word written to place 1. */
  function Rewritten(init: State, key: seq<Word>): Word
    requires key != []
  {
    var j := Turn(N - 1, |key|);
    MixKey(Written(init, key, 0), Written(init, key, N - 2), key[j], j)
  }

  lemma AfterNSteps(init: State, key: seq<Word>, p: nat)
    requires key != [] && p < N
    ensures FirstPass(init, key, N)[p]
              == if p == 0 then Written(init, key, N - 2)
                 else if p == 1 then Rewritten(init, key) else Written(init, key, p - 1)
  {
    var n := N;
    FirstPassWrites(init, key, n - 1);
    assert Place(n - 1) == 1;
    assert FirstPass(init, key, n) == KeyStep(FirstPass(init, key, n - 1), key, n - 1);
  }

  // ----- Keys of at most N - 2 words are recovered -----

  lemma MixKeyRecovers(x: Word, previous: Word, key: Word, key': Word, j: nat)
    requires MixKey(x, previous, key, j) == MixKey(x, previous, key', j)
    ensures key == key'
  {
    WrapCancels(key, key', Xor(x, Wrap(Fold(previous) * 1664525)) + j);
  }

  lemma WrittenRecovers(init: State, key: seq<Word>, key': seq<Word>, t: nat)
    requires key != [] && |key| == |key'| && t <= N - 2
    requires Written(init, key, t) == Written(init, key', t)
    requires t > 0 ==> Written(init, key, t - 1) == Written(init, key', t - 1)
    ensures key[Turn(t, |key|)] == key'[Turn(t, |key|)]
  {
    var previous := if t == 0 then init[0] else Written(init, key, t - 1);
    var j := Turn(t, |key|);
    MixKeyRecovers(init[t + 1], previous, key[j], key'[j], j);
  }

  /** A step from 2 to N - 2 that reads the key word `m`, if the key is short enough. */
  lemma StepReading(m: nat, length: nat) returns (t: nat)
    requires m < length <= N - 2 && !(length == N - 2 && m == 1)
    ensures 2 <= t <= N - 2 && Turn(t, length) == m
  {
    t := if m >= 2 then m else if length == 1 then 2 else m + length;
    TurnOnce(m, length);
    TurnTwice(m, length);
  }

  lemma {:induction false} TurnOnce(t: nat, length: nat)
    requires t < length
    ensures Turn(t, length) == t
  {
    if t > 0 {
      TurnOnce(t - 1, length);
    }
  }

  lemma {:induction false} TurnTwice(t: nat, length: nat)
    requires t < length
    ensures Turn(t + length, length) == t
  {
    if t > 0 {
      TurnTwice(t - 1, length);
    } else {
      TurnOnce(length - 1, length);
    }
  }

  lemma FirstPassIsInjective(init: State, key: seq<Word>, key': seq<Word>)
    requires 1 <= |key| == |key'| <= N - 2
    requires Agree(FirstPass(init, key, N), FirstPass(init, key', N))
    ensures key == key'
  {
    forall t | 1 <= t <= N - 2 ensures Written(init, key, t) == Written(init, key', t) {
      AfterNSteps(init, key, t + 1);
      AfterNSteps(init, key', t + 1);
    }
    forall m: nat | m < |key| && !(|key| == N - 2 && m == 1) ensures key[m] == key'[m] {
      var t := StepReading(m, |key|);
      WrittenRecovers(init, key, key', t);
    }
    if |key| == N - 2 {
      RewrittenRecovers(init, key, key');
    }
  }

  /** With N - 2 key words the second one is recovered from the second word written to place 1. */
  lemma RewrittenRecovers(init: State, key: seq<Word>, key': seq<Word>)
    requires |key| == |key'| == N - 2 && key[0] == key'[0]
    requires Written(init, key, N - 2) == Written(init, key', N - 2)
    requires Agree(FirstPass(init, key, N), FirstPass(init, key', N))
    ensures key[1] == key'[1]
  {
    AfterNSteps(init, key, 1);
    AfterNSteps(init, key', 1);
    assert Rewritten(init, key) == Rewritten(init, key');
    WrittenAtStart(init, key);
    WrittenAtStart(init, key');
    TurnTwice(1, |key|);
    LastKeyWord(init, key, key', Turn(N - 1, |key|));
  }

  lemma LastKeyWord(init: State, key: seq<Word>, key': seq<Word>, j: nat)
    requires key != [] && |key| == |key'| && j == Turn(N - 1, |key|)
    requires Written(init, key, 0) == Written(init, key', 0)
    requires Written(init, key, N - 2) == Written(init, key', N - 2)
    requires Rewritten(init, key) == Rewritten(init, key')
    ensures key[j] == key'[j]
  {
    MixKeyRecovers(Written(init, key, 0), Written(init, key, N - 2), key[j], key'[j], j);
  }

  lemma WrittenAtStart(init: State, key: seq<Word>)
    requires key != []
    ensures Written(init, key, 0) == MixKey(init[1], init[0], key[0], 0)
  {
  }

  lemma WrittenLater(init: State, key: seq<Word>, t: nat)
    requires 0 < t < |key| && t <= N - 2
    ensures Written(init, key, t) == MixKey(init[t + 1], Written(init, key, t - 1), key[t], t)
  {
    TurnOnce(t, |key|);
  }

  // ----- Longer keys collide -----

  function Flip(x: Word): Word {
    Wrap(x + 0x8000_0000)
  }

  lemma {:induction false} BitOfSum(x: nat, n: nat, i: nat)
    requires x < Pow2(n)
    ensures Bit(x + Pow2(n), i) <==> i == n || Bit(x, i)
    decreases i
  {
    if i > 0 {
      if n > 0 {
        assert (x + Pow2(n)) / 2 == x / 2 + Pow2(n - 1);
        BitOfSum(x / 2, n - 1, i - 1);
      } else {
        ZeroBits(i - 1);
      }
    }
  }

  lemma HalfBits(low: nat, n: nat, i: nat)
    requires n == 31 && i < 32 && low < 0x8000_0000
    ensures Bit(low + 0x8000_0000, i) == (Bit(low, i) != (i == n))
  {
    Pow2Of32();
    BitOfSum(low, n, i);
    if i == n {
      TopBitIsBit(low, i);
    }
  }

  lemma FlipBit(x: Word, n: nat, i: nat)
    requires n == 31 && i < 32
    ensures Bit(Flip(x), i) == (Bit(x, i) != (i == n))
  {
    FlipMoves(x);
    HalfBits(if x < 0x8000_0000 then x else x - 0x8000_0000, n, i);
  }

  /** Adding 2^31 toggles the top bit. */
  lemma FlipIsXor(x: Word, n: nat)
    requires n == 31
    ensures Flip(x) == Xor(x, UPPER_MASK)
  {
    forall i: nat | i < 32 ensures Bit(Flip(x), i) == Bit(Xor(x, UPPER_MASK), i) {
      MaskBits(i);
      FlipBit(x, n, i);
    }
    SameBits(Flip(x), Xor(x, UPPER_MASK));
  }

  lemma XorOfFlip(x: Word, d: Word)
    ensures Xor(Flip(x), d) == Flip(Xor(x, d))
  {
    FlipIsXor(x, 31);
    FlipIsXor(Xor(x, d), 31);
    SameBits(Xor(Xor(x, UPPER_MASK), d), Xor(Xor(x, d), UPPER_MASK));
  }

  lemma WrapWithin(x: int, y: int)
    ensures Wrap(Wrap(x) + y) == Wrap(x + y)
  {
  }

  lemma WrapTurn(x: int)
    ensures Wrap(x + 0x1_0000_0000) == Wrap(x)
  {
  }

  lemma FlipMoves(x: Word)
    ensures Flip(x) == if x < 0x8000_0000 then x + 0x8000_0000 else x - 0x8000_0000
  {
  }

  lemma KeyMixOfFlip(x: Word, previous: Word)
    ensures KeyMix(Flip(x), previous) == Flip(KeyMix(x, previous))
  {
    XorOfFlip(x, Wrap(Fold(previous) * 1664525));
  }

  lemma FlippedKey(a: Word, flipped: Word, key: Word, j: nat)
    requires flipped == Flip(a)
    ensures Wrap(flipped + Flip(key) + j) == Wrap(a + key + j)
  {
    FlippedSum(a, key, j);
  }

  /** Flipping both a place and the key word mixed into it leaves the sum as it was. */
  lemma FlipsCancel(x: Word, previous: Word, key: Word, j: nat)
    ensures MixKey(Flip(x), previous, Flip(key), j) == MixKey(x, previous, key, j)
  {
    KeyMixOfFlip(x, previous);
    FlippedKey(KeyMix(x, previous), KeyMix(Flip(x), previous), key, j);
  }

  lemma FlippedSum(a: Word, key: Word, j: nat)
    ensures Wrap(Flip(a) + Flip(key) + j) == Wrap(a + key + j)
  {
    WrapTurn(a + key + j);
    WrapTurn(a + key + j - 0x1_0000_0000);
    FlipMoves(a);
    FlipMoves(key);
  }

  lemma FlipPasses(x: Word, previous: Word, key: Word, j: nat)
    ensures MixKey(x, previous, Flip(key), j) == Flip(MixKey(x, previous, key, j))
  {
    var a := KeyMix(x, previous);
    WrapWithin(key + 0x8000_0000, a + j);
    WrapWithin(a + key + j, 0x8000_0000);
  }

  /** Changes key words 0, 1 and, if there is one, N - 1 so that the changes cancel. */
  function Collision(init: State, key: seq<Word>): (r: seq<Word>)
    requires |key| >= N - 1
    ensures |r| == |key|
    ensures r[0] == Flip(key[0])
    ensures forall m :: 2 <= m < |key| && m != N - 1 ==> r[m] == key[m]
    ensures |key| >= N ==> r[N - 1] == Flip(key[N - 1])
  {
    var w := Written(init, key, 0);
    var k1 := Wrap(key[1] + KeyMix(init[2], w) - KeyMix(init[2], Flip(w)));
    var r := key[0 := Flip(key[0])][1 := k1];
    if |key| >= N then r[N - 1 := Flip(key[N - 1])] else r
  }

  lemma CollisionAtStart(init: State, key: seq<Word>)
    requires |key| >= N - 1
    ensures Written(init, Collision(init, key), 0) == Flip(Written(init, key, 0))
  {
    WrittenAtStart(init, key);
    WrittenAtStart(init, Collision(init, key));
    FlipPasses(init[1], init[0], key[0], 0);
  }

  lemma Compensated(x: Word, previous: Word, previous': Word, key: Word, j: nat)
    ensures MixKey(x, previous', Wrap(key + KeyMix(x, previous) - KeyMix(x, previous')), j) == MixKey(x, previous, key, j)
  {
    WrapWithin(key + KeyMix(x, previous) - KeyMix(x, previous'), KeyMix(x, previous') + j);
  }

  lemma {:induction false} CollisionWrites(init: State, key: seq<Word>, t: nat)
    requires |key| >= N - 1 && 1 <= t <= N - 2
    ensures Written(init, Collision(init, key), t) == Written(init, key, t)
  {
    var r := Collision(init, key);
    WrittenLater(init, key, t);
    WrittenLater(init, r, t);
    if t == 1 {
      CollisionAtStart(init, key);
      Compensated(init[2], Written(init, key, 0), Written(init, r, 0), key[1], 1);
    } else {
      CollisionWrites(init, key, t - 1);
    }
  }

  lemma CollisionRewrites(init: State, key: seq<Word>)
    requires |key| >= N - 1
    ensures Rewritten(init, Collision(init, key)) == Rewritten(init, key)
  {
    var j := Turn(N - 1, |key|);
    CollisionAtStart(init, key);
    CollisionWrites(init, key, N - 2);
    if |key| >= N {
      TurnOnce(N - 1, |key|);
    } else {
      TurnTwice(0, |key|);
    }
    FlipsCancel(Written(init, key, 0), Written(init, key, N - 2), key[j], j);
  }

  lemma CollisionAfterN(init: State, key: seq<Word>)
    requires |key| >= N - 1
    ensures FirstPass(init, Collision(init, key), N) == FirstPass(init, key, N)
  {
    var r := Collision(init, key);
    var a, b := FirstPass(init, r, N), FirstPass(init, key, N);
    CollisionRewrites(init, key);
    CollisionWrites(init, key, N - 2);
    forall p | 0 <= p < N ensures a[p] == b[p] {
      AfterNSteps(init, key, p);
      AfterNSteps(init, r, p);
      if p >= 2 { CollisionWrites(init, key, p - 1); }
    }
  }

  lemma {:induction false} CollisionPasses(init: State, key: seq<Word>, n: nat)
    requires |key| >= N - 1 && N <= n <= Steps(key)
    ensures FirstPass(init, Collision(init, key), n) == FirstPass(init, key, n)
  {
    if n == N {
      CollisionAfterN(init, key);
    } else {
      CollisionPasses(init, key, n - 1);
      TurnOnce(n - 1, |key|);
    }
  }

  /** Every key of N - 1 words or more shares its state with another key of the same length. */
  lemma LongKeysCollide(init: State, key: seq<Word>)
    requires |key| >= N - 1
    ensures Collision(init, key) != key
    ensures ArrayStateFrom(init, Collision(init, key)) == ArrayStateFrom(init, key)
  {
    CollisionAtStart(init, key);
    CollisionPasses(init, key, Steps(key));
  }

  // ----- The exact condition -----

  lemma StatesAgree(a: State, b: State, w: Word)
    requires a[0 := w] == b[0 := w]
    ensures Agree(a, b)
  {
    assert forall p :: 1 <= p < N ==> a[p] == a[0 := w][p] && b[p] == b[0 := w][p];
  }

  ghost predicate KeysAreRecoverable(init: State, length: nat)
    requires length > 0
  {
    forall key: seq<Word>, key': seq<Word> :: |key| == |key'| == length ==>
      ArrayStateFrom(init, key) == ArrayStateFrom(init, key') ==> key == key'
  }

  /** Seeding by array is injective on the keys of a given length exactly up to N - 2 words. */
  lemma SeedingByArrayIsInjectiveIff(init: State, length: nat)
    requires length > 0
    ensures KeysAreRecoverable(init, length) <==> length <= N - 2
  {
    if length <= N - 2 {
      forall key: seq<Word>, key': seq<Word> | |key| == |key'| == length
        && ArrayStateFrom(init, key) == ArrayStateFrom(init, key')
        ensures key == key'
      {
        var a, b := FirstPass(init, key, N), FirstPass(init, key', N);
        StatesAgree(SecondPass(a, N, N - 1), SecondPass(b, N, N - 1), 0x8000_0000);
        SecondPassIsInjective(a, b);
        FirstPassIsInjective(init, key, key');
      }
    } else {
      var key: seq<Word> := seq(length, (i: nat) => 0);
      LongKeysCollide(init, key);
    }
  }
}
