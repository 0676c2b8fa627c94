/** The generator itself: a block of N words that is seeded, drawn from, and refilled in place. */
module MersenneTwister {
  import opened MersenneWords
  import opened MersenneRecurrence
  import opened MersenneSeeding
  import opened MersenneReals

  class Generator {
    const mt: array<Word>
    var mti: nat
    /** The state the present run was seeded with, and how many outputs it has given. */
    ghost var seed: State
    ghost var drawn: nat

    /** mti is N + 1 until the first seeding.  After that mt holds a block of the run's words. */
    ghost predicate Valid()
      reads this, mt
    {
      && mt.Length == N && mti <= N + 1
      && (mti == N + 1 ==> drawn == 0)
      && (mti <= N ==>
            && NonZeroWindow(seed, 0)
            && forall i :: 0 <= i < N ==> mt[i] == X(seed, drawn + N - mti + i))
    }

    /** What a draw continues from: the run's seed, or the default one. */
    ghost function Source(): State
      reads this
    {
      if mti == N + 1 then SeedState(5489) else seed
    }

    /** From the first seeding on, the bits of the array that count are never all zero. */
    lemma ArrayIsNeverZero()
      requires Valid() && mti <= N
      ensures TopBit(mt[0]) || exists i :: 0 < i < N && mt[i] != 0
    {
      var b := drawn + N - mti;
      NeverAllZero(seed, b);
      assert mt[0] == X(seed, b + 0);
      if !TopBit(mt[0]) {
        var k :| b < k < b + N && X(seed, k) != 0;
        assert mt[k - b] == X(seed, b + (k - b));
      }
    }

    /** The static variables at program start. */
    constructor ()
      ensures Valid() && fresh(mt)
      ensures mti == N + 1 && Source() == SeedState(5489) && drawn == 0
    {
      mt := new Word[N](_ => 0);
      mti := N + 1;
      seed, drawn := Zeros(), 0;
    }

    method InitGenrand(s: Word)
      requires Valid()
      modifies this, mt
      ensures Valid() && mti == N
      ensures seed == SeedState(s) && drawn == 0
      ensures mt[..] == SeedState(s)
    {
      FillFromSeed(s);
      SeedStateIsNotZero(s);
      StartRun(SeedState(s));
    }

    method FillFromSeed(s: Word)
      requires mt.Length == N
      modifies this`mti, mt
      ensures mt[..] == SeedState(s) && mti == N
    {
      mt[0] := s;
      mti := 1;
      while mti < N
        invariant 1 <= mti <= N
        invariant forall i :: 0 <= i < mti ==> mt[i] == SeedWord(s, i)
      {
        SeedWordFollows(s, mti);
        mt[mti] := NextSeedWord(mt[mti - 1], mti);
        mti := mti + 1;
      }
    }

    /** Records that a new run starts from the words in mt. */
    ghost method StartRun(state: State)
      requires mt.Length == N && mti == N && mt[..] == state && NonZeroWindow(state, 0)
      modifies this`seed, this`drawn
      ensures Valid() && seed == state && drawn == 0
    {
      seed, drawn := state, 0;
    }

    /** Writes a place and moves to the next one; behind the last place the word is copied to the front. */
    method Store(i: nat, w: Word) returns (next: nat)
      requires mt.Length == N && 1 <= i < N
      modifies mt
      ensures mt[..] == Settle(old(mt[..])[i := w], i)
      ensures next == if i == N - 1 then 1 else i + 1
    {
      mt[i] := w;
      next := i + 1;
      if next >= N {
        mt[0] := mt[N - 1];
        next := 1;
      }
    }

    /** A step of the first pass: step `t` writes place i with key word j. */
    method MixKeyAt(i: nat, initKey: array<Word>, j: nat, ghost t: nat) returns (i': nat, j': nat)
      requires mt.Length == N && initKey.Length > 0 && initKey != mt
      requires i == Place(t) && j == Turn(t, initKey.Length)
      modifies mt
      ensures mt[..] == KeyStep(old(mt[..]), initKey[..], t)
      ensures i' == Place(t + 1) && j' == Turn(t + 1, initKey.Length)
    {
      PlaceFollows(t);
      i' := Store(i, MixKey(mt[i], mt[i - 1], initKey[j], j));
      j' := j + 1;
      if j' >= initKey.Length { j' := 0; }
    }

    /** A step of the second pass: step `t` of both passes writes place i. */
    method MixIndexAt(i: nat, ghost t: nat) returns (i': nat)
      requires mt.Length == N && i == Place(t)
      modifies mt
      ensures mt[..] == IndexStep(old(mt[..]), t)
      ensures i' == Place(t + 1)
    {
      PlaceFollows(t);
      i' := Store(i, MixIndex(mt[i], mt[i - 1], i));
    }

    method MixKeys(initKey: array<Word>) returns (i: nat)
      requires mt.Length == N && initKey.Length > 0 && initKey != mt
      modifies mt
      ensures mt[..] == FirstPass(old(mt[..]), initKey[..], Steps(initKey[..]))
      ensures i == Place(Steps(initKey[..]))
    {
      ghost var init, key, t := mt[..], initKey[..], 0;
      var j := 0;
      i := 1;
      var k: nat := if N > initKey.Length then N else initKey.Length;
      while k > 0
        invariant t + k == Steps(key) && i == Place(t) && j == Turn(t, |key|) && initKey[..] == key
        invariant mt[..] == FirstPass(init, key, t)
      {
        i, j := MixKeyAt(i, initKey, j, t);
        t, k := t + 1, k - 1;
      }
    }

    method MixIndices(start: nat, ghost steps: nat)
      requires mt.Length == N && start == Place(steps)
      modifies mt
      ensures mt[..] == SecondPass(old(mt[..]), steps, N - 1)
    {
      ghost var mixed, t := mt[..], 0;
      var i, k: nat := start, N - 1;
      while k > 0
        invariant t + k == N - 1 && i == Place(steps + t)
        invariant mt[..] == SecondPass(mixed, steps, t)
      {
        i := MixIndexAt(i, steps + t);
        t, k := t + 1, k - 1;
      }
    }

    method MixArray(initKey: array<Word>)
      requires mt.Length == N && initKey.Length > 0 && initKey != mt
      modifies mt
      ensures mt[..] == ArrayStateFrom(old(mt[..]), initKey[..])
    {
      var i := MixKeys(initKey);
      MixIndices(i, Steps(initKey[..]));
      mt[0] := 0x8000_0000;
    }

    method InitByArray(initKey: array<Word>)
      requires Valid() && initKey.Length > 0 && initKey != mt
      modifies this, mt
      ensures Valid() && mti == N
      ensures seed == ArrayState(initKey[..]) && drawn == 0
      ensures mt[..] == ArrayState(initKey[..])
    {
      InitGenrand(19650218);
      MixArray(initKey);
      ArrayStateIsNotZero(initKey[..]);
      StartRun(ArrayState(initKey[..]));
    }

    /** The first `n` words of mt are those of the next block, the others those of the block at `b`. */
    ghost predicate Refilled(b: nat, n: nat)
      reads this, mt
    {
      && mt.Length == N && n <= N
      && (forall i :: 0 <= i < n ==> mt[i] == X(seed, b + N + i))
      && (forall i :: n <= i < N ==> mt[i] == X(seed, b + i))
    }

    /** The places whose third word is still to be overwritten. */
    method RefillLow(ghost b: nat)
      requires Refilled(b, 0)
      modifies mt
      ensures Refilled(b, N - M)
    {
      var kk := 0;
      while kk < N - M
        invariant kk <= N - M && Refilled(b, kk)
      {
        RegenerateIsNext(seed, b + kk);
        mt[kk] := Regenerate(mt[kk], mt[kk + 1], mt[kk + M]);
        kk := kk + 1;
      }
    }

    /** The places whose third word has been overwritten already. */
    method RefillHigh(ghost b: nat)
      requires Refilled(b, N - M)
      modifies mt
      ensures Refilled(b, N - 1)
    {
      var kk := N - M;
      while kk < N - 1
        invariant N - M <= kk <= N - 1 && Refilled(b, kk)
      {
        RegenerateIsNext(seed, b + kk);
        mt[kk] := Regenerate(mt[kk], mt[kk + 1], mt[kk + M - N]);
        kk := kk + 1;
      }
    }

    /** The last place, whose second and third words have both been overwritten. */
    method RefillLast(ghost b: nat)
      requires Refilled(b, N - 1)
      modifies mt
      ensures Refilled(b, N)
    {
      RegenerateIsNext(seed, b + N - 1);
      mt[N - 1] := Regenerate(mt[N - 1], mt[0], mt[M - 1]);
    }

    /** Generates the next N words of the run over the present ones. */
    method Refill()
      requires Valid() && mti == N
      modifies this`mti, mt
      ensures Valid() && mti == 0
    {
      RefillLow(drawn);
      RefillHigh(drawn);
      RefillLast(drawn);
      mti := 0;
    }

    /** The next block of the run, or of the one from the default seed before any seeding. */
    method NextBlock()
      requires Valid() && mti >= N
      modifies this, mt
      ensures Valid() && mti == 0 && seed == old(Source()) && drawn == old(drawn)
    {
      if mti == N + 1 {
        InitGenrand(5489);
      }
      Refill();
    }

    /** The next word of the run, out of a new block if the present one is used up. */
    method DrawWord() returns (y: Word)
      requires Valid()
      modifies this, mt
      ensures Valid() && mti <= N
      ensures seed == old(Source()) && drawn == old(drawn) + 1
      ensures y == X(seed, N + old(drawn))
    {
      if mti >= N {
        NextBlock();
      }
      y := mt[mti];
      mti, drawn := mti + 1, drawn + 1;
    }

    /** The n-th call of a run returns the tempered word N + n of the infinite sequence. */
    method GenrandInt32() returns (y: Word)
      requires Valid()
      modifies this, mt
      ensures Valid() && mti <= N
      ensures seed == old(Source()) && drawn == old(drawn) + 1
      ensures y == Temper(X(seed, N + old(drawn)))
    {
      y := DrawWord();
      y := Xor(y, Shr(y, 11));
      y := Xor(y, And(Shl(y, 7), 0x9d2c_5680));
      y := Xor(y, And(Shl(y, 15), 0xefc6_0000));
      y := Xor(y, Shr(y, 18));
    }

    /** A number from 0 to 1 out of two words of the run. */
    method GenrandRes53() returns (r: real)
      requires Valid()
      modifies this, mt
      ensures Valid() && seed == old(Source()) && drawn == old(drawn) + 2
      ensures r == Res53(Temper(X(seed, N + old(drawn))), Temper(X(seed, N + old(drawn) + 1)))
    {
      var a := GenrandInt32();
      a := Shr(a, 5);
      var b := GenrandInt32();
      b := Shr(b, 6);
      r := (a as real * 67108864.0 + b as real) * (1.0 / 9007199254740992.0);
    }
  }

  /** The word that replaces the first of two neighbours, out of both and of the word M places on. */
  function Regenerate(hi: Word, lo: Word, m: Word): Word {
    var y := Splice(hi, lo);
    Xor(Xor(m, Shr(y, 1)), Mag01(And(y, 1)))
  }

  lemma RegenerateIsNext(seed: State, k: nat)
    ensures Regenerate(X(seed, k), X(seed, k + 1), X(seed, k + M)) == X(seed, k + N)
  {
    var y := Splice(X(seed, k), X(seed, k + 1));
    Next(seed, k);
    XorLaws(X(seed, k + M), Shr(y, 1), Mag01(And(y, 1)));
  }

  lemma PlaceFollows(t: nat)
    ensures Place(t + 1) == if Place(t) == N - 1 then 1 else Place(t) + 1
  {
  }

  lemma SeedWordFollows(s: Word, i: nat)
    requires i > 0
    ensures SeedWord(s, i) == NextSeedWord(SeedWord(s, i - 1), i)
  {
  }
}
