/** The tempering and the twist as sums of bits: both are linear, and these tables are all of them. */
module MersenneMatrix {
  import opened MersenneWords
  import opened MersenneReals

  // ----- The tempering as a matrix of bits -----

  type BitPlace = n: nat | n < 32

  type Bits = b: seq<bool> | |b| == 32 witness seq(32, i => false)

  function BitsOf(x: Word): (b: Bits)
    ensures forall i: nat :: i < 32 ==> b[i] == Bit(x, i)
  {
    seq(32, i requires 0 <= i < 32 => Bit(x, i))
  }

  /** Of the first `n` of these places an odd number is set. */
  predicate Odd(b: Bits, places: seq<BitPlace>, n: nat)
    requires n <= |places|
  {
    n > 0 && Odd(b, places, n - 1) != b[places[n - 1]]
  }

  /** For each bit of a tempered word the bits of the word that it is the sum of. */
  const TEMPERED: seq<seq<BitPlace>> := [
    [0, 3, 14, 18, 22, 29], [1, 19, 23, 30], [2, 13, 20, 31], [3, 21, 25],
    [0, 4, 7, 11, 15, 18, 22], [5, 8, 16, 19, 23], [2, 6, 9, 13, 20, 24, 28], [0, 3, 7, 10, 11, 14, 18, 21, 25],
    [8, 11, 22, 26, 30], [2, 5, 9, 12, 13, 16, 23, 27, 31], [3, 10, 14, 28], [7, 11, 14, 18, 22, 25, 29],
    [5, 12, 15, 16, 23, 26, 30], [13, 16, 27, 31], [7, 14, 18, 25], [15, 26],
    [16, 27], [2, 13, 17, 28], [3, 11, 14, 18, 22, 29], [12, 19, 23, 30],
    [20, 31], [14, 21, 25], [0, 7, 11, 18, 22], [8, 19, 23],
    [2, 9, 13, 17, 20, 24, 28], [3, 10, 14, 21, 25], [11, 19, 22, 26, 30], [5, 12, 16, 20, 23, 27, 31],
    [21, 28], [7, 14, 18, 25, 29], [15, 26, 30], [16, 24, 27, 31]
  ]

  lemma OddSteps(b: Bits)
    ensures forall places: seq<BitPlace>, n: nat {:trigger Odd(b, places, n)} :: 0 < n <= |places| ==>
              Odd(b, places, n) == (Odd(b, places, n - 1) != b[places[n - 1]])
    ensures forall places: seq<BitPlace> {:trigger Odd(b, places, 0)} :: !Odd(b, places, 0)
  {
  }

  predicate Right11At(b: Bits, k: nat)
    requires k < 32
  {
    b[k] != (k + 11 < 32 && b[k + 11])
  }

  predicate Left7At(b: Bits, k: nat)
    requires k < 32
  {
    Right11At(b, k) != (k in MaskBPlaces() && k >= 7 && Right11At(b, k - 7))
  }

  predicate Left15At(b: Bits, k: nat)
    requires k < 32
  {
    Left7At(b, k) != (k in MaskCPlaces() && k >= 15 && Left7At(b, k - 15))
  }

  predicate TemperedAt(b: Bits, k: nat)
    requires k < 32
  {
    Left15At(b, k) != (k + 18 < 32 && Left15At(b, k + 18))
  }

  function MaskBPlaces(): set<nat> {
    {7, 9, 10, 12, 14, 18, 19, 21, 24, 26, 27, 28, 31}
  }

  function MaskCPlaces(): set<nat> {
    {17, 18, 22, 23, 24, 25, 26, 27, 29, 30, 31}
  }

  lemma TemperedFrom0(b: Bits, k: nat)
    requires 0 <= k < 4
    ensures TemperedAt(b, k) == Odd(b, TEMPERED[k], |TEMPERED[k]|)
  {
    OddSteps(b);
  }

  lemma TemperedFrom4(b: Bits, k: nat)
    requires 4 <= k < 8
    ensures TemperedAt(b, k) == Odd(b, TEMPERED[k], |TEMPERED[k]|)
  {
    OddSteps(b);
  }

  lemma TemperedFrom8(b: Bits, k: nat)
    requires 8 <= k < 12
    ensures TemperedAt(b, k) == Odd(b, TEMPERED[k], |TEMPERED[k]|)
  {
    OddSteps(b);
  }

  lemma TemperedFrom12(b: Bits, k: nat)
    requires 12 <= k < 16
    ensures TemperedAt(b, k) == Odd(b, TEMPERED[k], |TEMPERED[k]|)
  {
    OddSteps(b);
  }

  lemma TemperedFrom16(b: Bits, k: nat)
    requires 16 <= k < 20
    ensures TemperedAt(b, k) == Odd(b, TEMPERED[k], |TEMPERED[k]|)
  {
    OddSteps(b);
  }

  lemma TemperedFrom20(b: Bits, k: nat)
    requires 20 <= k < 24
    ensures TemperedAt(b, k) == Odd(b, TEMPERED[k], |TEMPERED[k]|)
  {
    OddSteps(b);
  }

  lemma TemperedFrom24(b: Bits, k: nat)
    requires 24 <= k < 28
    ensures TemperedAt(b, k) == Odd(b, TEMPERED[k], |TEMPERED[k]|)
  {
    OddSteps(b);
  }

  lemma TemperedFrom28(b: Bits, k: nat)
    requires 28 <= k < 32
    ensures TemperedAt(b, k) == Odd(b, TEMPERED[k], |TEMPERED[k]|)
  {
    OddSteps(b);
  }

  lemma TemperedIsOdd(b: Bits, k: nat)
    requires k < 32
    ensures TemperedAt(b, k) == Odd(b, TEMPERED[k], |TEMPERED[k]|)
  {
    if k < 4 {
      TemperedFrom0(b, k);
    } else if k < 8 {
      TemperedFrom4(b, k);
    } else if k < 12 {
      TemperedFrom8(b, k);
    } else if k < 16 {
      TemperedFrom12(b, k);
    } else if k < 20 {
      TemperedFrom16(b, k);
    } else if k < 24 {
      TemperedFrom20(b, k);
    } else if k < 28 {
      TemperedFrom24(b, k);
    } else {
      TemperedFrom28(b, k);
    }
  }

  lemma BitOfByte(x: nat, i: nat)
    requires i < 8
    ensures Bit(x, i) <==> x / [1, 2, 4, 8, 16, 32, 64, 128][i] % 2 == 1
  {
    BitOfQuotient(x, i, 0);
    assert Pow2(i) == [1, 2, 4, 8, 16, 32, 64, 128][i] by {
      assert Pow2(3) == 8 && Pow2(7) == 128;
    }
  }

  lemma {:induction false} BitAbove(high: nat, low: nat, n: nat, i: nat)
    requires low < Pow2(n)
    ensures Bit(Pow2(n) * high + low, i) == if i < n then Bit(low, i) else Bit(high, i - n)
    decreases n
  {
    if n > 0 {
      var x, p := Pow2(n) * high + low, Pow2(n - 1);
      assert x == 2 * (p * high) + low;
      assert x / 2 == p * high + low / 2 && x % 2 == low % 2;
      if i > 0 {
        BitAbove(high, low / 2, n - 1, i - 1);
      }
    }
  }

  lemma BitsAboveByte(high: nat, low: nat, n: nat, i: nat)
    requires n == 8 && low < 0x100
    ensures Bit(0x100 * high + low, i) == if i < n then Bit(low, i) else Bit(high, i - n)
  {
    assert Pow2(8) == 0x100;
    BitAbove(high, low, n, i);
  }

  /** The bits of a word, byte by byte. */
  lemma BitsOfBytes(b3: nat, b2: nat, b1: nat, b0: nat, i: nat)
    requires b0 < 0x100 && b1 < 0x100 && b2 < 0x100 && i < 32
    ensures Bit(0x100_0000 * b3 + 0x1_0000 * b2 + 0x100 * b1 + b0, i)
      == if i < 8 then Bit(b0, i) else if i < 16 then Bit(b1, i - 8)
         else if i < 24 then Bit(b2, i - 16) else Bit(b3, i - 24)
  {
    BitsAboveByte(0x1_0000 * b3 + 0x100 * b2 + b1, b0, 8, i);
    if i >= 8 {
      BitsAboveByte(0x100 * b3 + b2, b1, 8, i - 8);
    }
    if i >= 16 {
      BitsAboveByte(b3, b2, 8, i - 16);
    }
  }

  lemma MaskBByte0(i: nat)
    requires 0 <= i < 8
    ensures Bit(0x80, i - 0) <==> i in MaskBPlaces()
  {
    BitOfByte(0x80, i - 0);
  }

  lemma MaskBByte1(i: nat)
    requires 8 <= i < 16
    ensures Bit(0x56, i - 8) <==> i in MaskBPlaces()
  {
    BitOfByte(0x56, i - 8);
  }

  lemma MaskBByte2(i: nat)
    requires 16 <= i < 24
    ensures Bit(0x2c, i - 16) <==> i in MaskBPlaces()
  {
    BitOfByte(0x2c, i - 16);
  }

  lemma MaskBByte3(i: nat)
    requires 24 <= i < 32
    ensures Bit(0x9d, i - 24) <==> i in MaskBPlaces()
  {
    BitOfByte(0x9d, i - 24);
  }

  lemma MaskBAt(i: nat)
    requires i < 32
    ensures Bit(MASK_B, i) <==> i in MaskBPlaces()
  {
    BitsOfBytes(0x9d, 0x2c, 0x56, 0x80, i);
    if i < 8 {
      MaskBByte0(i);
    } else if i < 16 {
      MaskBByte1(i);
    } else if i < 24 {
      MaskBByte2(i);
    } else {
      MaskBByte3(i);
    }
  }

  lemma MaskCByte0(i: nat)
    requires 0 <= i < 8
    ensures Bit(0x00, i - 0) <==> i in MaskCPlaces()
  {
    BitOfByte(0x00, i - 0);
  }

  lemma MaskCByte1(i: nat)
    requires 8 <= i < 16
    ensures Bit(0x00, i - 8) <==> i in MaskCPlaces()
  {
    BitOfByte(0x00, i - 8);
  }

  lemma MaskCByte2(i: nat)
    requires 16 <= i < 24
    ensures Bit(0xc6, i - 16) <==> i in MaskCPlaces()
  {
    BitOfByte(0xc6, i - 16);
  }

  lemma MaskCByte3(i: nat)
    requires 24 <= i < 32
    ensures Bit(0xef, i - 24) <==> i in MaskCPlaces()
  {
    BitOfByte(0xef, i - 24);
  }

  lemma MaskCAt(i: nat)
    requires i < 32
    ensures Bit(MASK_C, i) <==> i in MaskCPlaces()
  {
    BitsOfBytes(0xef, 0xc6, 0x00, 0x00, i);
    if i < 8 {
      MaskCByte0(i);
    } else if i < 16 {
      MaskCByte1(i);
    } else if i < 24 {
      MaskCByte2(i);
    } else {
      MaskCByte3(i);
    }
  }

  lemma Left7Bit(b: Bits, x: Word, k: nat)
    requires k < 32 && forall i: nat :: i < 32 ==> Bit(x, i) == Right11At(b, i)
    ensures Bit(Left7(x), k) == Left7At(b, k)
  {
    MaskBAt(k);
  }

  lemma Left15Bit(b: Bits, x: Word, k: nat)
    requires k < 32 && forall i: nat :: i < 32 ==> Bit(x, i) == Left7At(b, i)
    ensures Bit(Left15(x), k) == Left15At(b, k)
  {
    MaskCAt(k);
  }

  lemma TemperBit(b: Bits, x: Word, k: nat)
    requires b == BitsOf(x) && k < 32
    ensures Bit(Temper(x), k) == TemperedAt(b, k)
  {
    var y := Right11(x);
    forall i: nat | i < 32 ensures Bit(y, i) == Right11At(b, i) {
    }
    forall i: nat | i < 32 ensures Bit(Left7(y), i) == Left7At(b, i) {
      Left7Bit(b, y, i);
    }
    forall i: nat | i < 32 ensures Bit(Left15(Left7(y)), i) == Left15At(b, i) {
      Left15Bit(b, Left7(y), i);
    }
  }

  /** Each bit of a tempered word is the sum of the bits that the table lists. */
  lemma TemperIsMatrix(x: Word, k: nat)
    requires k < 32
    ensures Bit(Temper(x), k) == Odd(BitsOf(x), TEMPERED[k], |TEMPERED[k]|)
  {
    TemperBit(BitsOf(x), x, k);
    TemperedIsOdd(BitsOf(x), k);
  }

  lemma OneBit(b: Bits, k: nat)
    requires k < 32
    ensures (forall i :: 0 <= i < 32 ==> b[i] == (i == 0)) ==> (TemperedAt(b, k) <==> k in {0, 4, 7, 22})
    ensures (forall i :: 0 <= i < 32 ==> b[i] == (i == 1)) ==> (TemperedAt(b, k) <==> k == 1)
  {
  }

  lemma BitsOfPowers(one: Word, two: Word, i: nat)
    requires one == 1 && two == 2 && i < 32
    ensures (Bit(one, i) <==> i == 0) && (Bit(two, i) <==> i == 1)
  {
    BitsOfPow2(0, i);
    BitsOfPow2(1, i);
    assert Pow2(1) == 2;
  }

  lemma BitsOfImage(i: nat)
    requires i < 32
    ensures Bit(0x40_0091, i) <==> i in {0, 4, 7, 22}
  {
    BitsOfBytes(0, 0x40, 0, 0x91, i);
    if i < 8 {
      BitOfByte(0x91, i);
    } else if i < 16 {
      BitOfByte(0, i - 8);
    } else if i < 24 {
      BitOfByte(0x40, i - 16);
    } else {
      BitOfByte(0, i - 24);
    }
  }

  lemma BitsOfOneAndTwo(one: Word, two: Word)
    requires one == 1 && two == 2
    ensures forall i :: 0 <= i < 32 ==> BitsOf(one)[i] == (i == 0) && BitsOf(two)[i] == (i == 1)
  {
    forall i: nat | i < 32 ensures BitsOf(one)[i] == (i == 0) && BitsOf(two)[i] == (i == 1) {
      BitsOfPowers(one, two, i);
    }
  }

  lemma ImageOfOne(one: Word, b: Bits, k: nat)
    requires k < 32 && b == BitsOf(one) && forall i :: 0 <= i < 32 ==> b[i] == (i == 0)
    ensures Bit(Temper(one), k) == Bit(0x40_0091, k)
  {
    TemperBit(b, one, k);
    OneBit(b, k);
    BitsOfImage(k);
  }

  lemma ImageOfTwo(two: Word, b: Bits, k: nat)
    requires k < 32 && b == BitsOf(two) && forall i :: 0 <= i < 32 ==> b[i] == (i == 1)
    ensures Bit(Temper(two), k) == Bit(two, k)
  {
    TemperBit(b, two, k);
    OneBit(b, k);
    assert b[k] == Bit(two, k);
  }

  /** Two images as numbers. */
  lemma TemperOfOneAndTwo(one: Word, two: Word)
    requires one == 1 && two == 2
    ensures Temper(one) == 0x40_0091 && Temper(two) == 2
  {
    BitsOfOneAndTwo(one, two);
    forall k: nat | k < 32
      ensures Bit(Temper(one), k) == Bit(0x40_0091, k) && Bit(Temper(two), k) == Bit(two, k)
    {
      ImageOfOne(one, BitsOf(one), k);
      ImageOfTwo(two, BitsOf(two), k);
    }
    SameBits(Temper(one), 0x40_0091);
    SameBits(Temper(two), two);
  }

  /** Tempering a sum of words is tempering each of them. */
  lemma TemperIsLinear(x: Word, y: Word)
    ensures Temper(Xor(x, y)) == Xor(Temper(x), Temper(y))
  {
    var z := Xor(x, y);
    forall k: nat | k < 32 ensures Bit(Temper(z), k) == (Bit(Temper(x), k) != Bit(Temper(y), k)) {
      TemperIsMatrix(x, k);
      TemperIsMatrix(y, k);
      TemperIsMatrix(z, k);
      OddOfSum(BitsOf(x), BitsOf(y), BitsOf(z), TEMPERED[k], |TEMPERED[k]|);
    }
    SameBits(Temper(z), Xor(Temper(x), Temper(y)));
  }

  lemma OddOfSum(a: Bits, b: Bits, c: Bits, places: seq<BitPlace>, n: nat)
    requires n <= |places| && forall i :: 0 <= i < 32 ==> c[i] == (a[i] != b[i])
    ensures Odd(c, places, n) == (Odd(a, places, n) != Odd(b, places, n))
  {
    if n > 0 {
      OddOfSum(a, b, c, places, n - 1);
    }
  }

  // ----- The twist -----

  lemma TwistOfSum(x: Word, y: Word)
    ensures Twist(Xor(x, y)) == Xor(Twist(x), Twist(y))
  {
    LowBit(x);
    LowBit(y);
    LowBit(Xor(x, y));
    XorZero(MATRIX_A);
    XorZero(0);
    XorLaws(0, MATRIX_A, 0);
    ShrXor(x, y, 1);
    FourWords(Shr(x, 1), Shr(y, 1), Mag01(And(x, 1)), Mag01(And(y, 1)));
  }

  lemma FourWords(a: Word, b: Word, c: Word, d: Word)
    ensures Xor(Xor(a, b), Xor(c, d)) == Xor(Xor(a, c), Xor(b, d))
  {
    SameBits(Xor(Xor(a, b), Xor(c, d)), Xor(Xor(a, c), Xor(b, d)));
  }

  lemma HalfOf(x: Word)
    ensures Shr(x, 1) == x / 2 && (Bit(x, 0) <==> x % 2 == 1)
  {
    ShrIsDivision(x, 1);
    assert Pow2(1) == 2;
  }

  lemma TwistOfEven(x: Word)
    requires x % 2 == 0
    ensures Twist(x) == x / 2
  {
    HalfOf(x);
    LowBit(x);
    XorZero(x / 2);
  }

  lemma TwistOfOne(one: Word)
    requires one == 1
    ensures Twist(one) == 0x9908_b0df
  {
    HalfOf(one);
    LowBit(one);
    XorZero(0x9908_b0df);
    XorLaws(0, 0x9908_b0df, 0);
  }

  /** The twist halves even words, takes 1 to the matrix's constant, and sums to sums: this is all of it. */
  lemma TwistIsHalving(x: Word, y: Word)
    ensures x % 2 == 0 ==> Twist(x) == x / 2
    ensures Twist(1) == 0x9908_b0df
    ensures Twist(Xor(x, y)) == Xor(Twist(x), Twist(y))
  {
    if x % 2 == 0 {
      TwistOfEven(x);
    }
    TwistOfOne(1);
    TwistOfSum(x, y);
  }
}
