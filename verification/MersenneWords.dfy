/**
 32-bit words, their bitwise operations defined bit by bit, and the word functions of the Mersenne
 Twister.  The program computes in `unsigned long` and masks every store, so a word is a number
 below 2^32.
 */
module MersenneWords {
  type Word = x: int | 0 <= x < 0x1_0000_0000

  function Pow2(n: nat): (r: nat)
    ensures r > 0
  {
    if n == 0 then 1 else 2 * Pow2(n - 1)
  }

  lemma Pow2Adds(m: nat, n: nat)
    ensures Pow2(m + n) == Pow2(m) * Pow2(n)
  {
    if m > 0 {
      Pow2Adds(m - 1, n);
      assert Pow2(m + n) == 2 * Pow2(m - 1 + n);
    }
  }

  lemma Pow2Of32()
    ensures Pow2(31) == 0x8000_0000 && Pow2(32) == 0x1_0000_0000
  {
    assert Pow2(8) == 0x100;
    Pow2Adds(8, 8);
    assert Pow2(15) == 0x8000;
    Pow2Adds(15, 16);
  }

  predicate Bit(x: nat, i: nat)
    decreases i
  {
    if i == 0 then x % 2 == 1 else Bit(x / 2, i - 1)
  }

  /** The number with these bits, the lowest first. */
  function Number(bits: seq<bool>): (r: nat)
    ensures r < Pow2(|bits|)
  {
    if bits == [] then 0 else (if bits[0] then 1 else 0) + 2 * Number(bits[1..])
  }

  lemma {:induction false} BitOfNumber(bits: seq<bool>, i: nat)
    requires i < |bits|
    ensures Bit(Number(bits), i) == bits[i]
    decreases i
  {
    var rest := Number(bits[1..]);
    assert Number(bits) / 2 == rest && (Number(bits) % 2 == 1) == bits[0];
    if i > 0 {
      BitOfNumber(bits[1..], i - 1);
    }
  }

  lemma NumberHasBits(bits: seq<bool>)
    ensures forall i: nat :: i < |bits| ==> Bit(Number(bits), i) == bits[i]
  {
    forall i: nat | i < |bits| ensures Bit(Number(bits), i) == bits[i] {
      BitOfNumber(bits, i);
    }
  }

  lemma {:induction false} SameLowBits(x: nat, y: nat, n: nat)
    requires x < Pow2(n) && y < Pow2(n)
    requires forall i: nat :: i < n ==> Bit(x, i) == Bit(y, i)
    ensures x == y
  {
    if n > 0 {
      assert Bit(x, 0) == Bit(y, 0);
      forall i: nat | i < n - 1 ensures Bit(x / 2, i) == Bit(y / 2, i) {
        assert Bit(x, i + 1) == Bit(y, i + 1);
      }
      SameLowBits(x / 2, y / 2, n - 1);
    }
  }

  predicate HasBits(x: Word, bits: nat -> bool) {
    forall i: nat :: i < 32 ==> Bit(x, i) == bits(i)
  }

  /** Words with the same bits are the same. */
  lemma SameBits(x: Word, y: Word)
    requires forall i: nat :: i < 32 ==> Bit(x, i) == Bit(y, i)
    ensures x == y
  {
    Pow2Of32();
    SameLowBits(x, y, 32);
  }

  lemma WordWithBits(bits: nat -> bool)
    ensures exists x: Word :: HasBits(x, bits)
    ensures forall x: Word, y: Word :: HasBits(x, bits) && HasBits(y, bits) ==> x == y
  {
    var s := seq(32, (i: nat) => bits(i));
    Pow2Of32();
    NumberHasBits(s);
    var x: Word := Number(s);
    assert HasBits(x, bits);
    forall x: Word, y: Word | HasBits(x, bits) && HasBits(y, bits) ensures x == y {
      SameBits(x, y);
    }
  }

  /** The word with these bits. */
  function Build(bits: nat -> bool): (r: Word)
    ensures HasBits(r, bits)
  {
    WordWithBits(bits);
    var r: Word :| HasBits(r, bits);
    r
  }

  // ----- Bitwise operators -----

  function Xor(x: Word, y: Word): (r: Word)
    ensures forall i: nat :: i < 32 ==> Bit(r, i) == (Bit(x, i) != Bit(y, i))
  {
    Build((i: nat) => Bit(x, i) != Bit(y, i))
  }

  function And(x: Word, y: Word): (r: Word)
    ensures forall i: nat :: i < 32 ==> Bit(r, i) == (Bit(x, i) && Bit(y, i))
  {
    Build((i: nat) => Bit(x, i) && Bit(y, i))
  }

  function Or(x: Word, y: Word): (r: Word)
    ensures forall i: nat :: i < 32 ==> Bit(r, i) == (Bit(x, i) || Bit(y, i))
  {
    Build((i: nat) => Bit(x, i) || Bit(y, i))
  }

  function Shr(x: Word, n: nat): (r: Word)
    ensures forall i: nat :: i < 32 ==> Bit(r, i) == (i + n < 32 && Bit(x, i + n))
  {
    Build((i: nat) => i + n < 32 && Bit(x, i + n))
  }

  function Shl(x: Word, n: nat): (r: Word)
    ensures forall i: nat :: i < 32 ==> Bit(r, i) == (i >= n && Bit(x, i - n))
  {
    Build((i: nat) => i >= n && Bit(x, i - n))
  }

  lemma {:induction false} ZeroBits(i: nat)
    ensures !Bit(0, i)
  {
    if i > 0 {
      ZeroBits(i - 1);
    }
  }

  lemma XorLaws(x: Word, y: Word, z: Word)
    ensures Xor(Xor(x, y), y) == x && Xor(Xor(x, y), x) == y
    ensures Xor(x, y) == Xor(y, x) && Xor(Xor(x, y), z) == Xor(x, Xor(y, z))
  {
    SameBits(Xor(Xor(x, y), y), x);
    SameBits(Xor(Xor(x, y), x), y);
    SameBits(Xor(x, y), Xor(y, x));
    SameBits(Xor(Xor(x, y), z), Xor(x, Xor(y, z)));
  }

  lemma XorZero(x: Word)
    ensures Xor(x, 0) == x && Xor(x, x) == 0
  {
    forall i: nat | i < 32 ensures !Bit(0, i) {
      ZeroBits(i);
    }
    SameBits(Xor(x, 0), x);
    SameBits(Xor(x, x), 0);
  }

  lemma XorCancels(x: Word, y: Word, z: Word)
    requires Xor(x, y) == Xor(x, z) || Xor(y, x) == Xor(z, x)
    ensures y == z
  {
    XorLaws(x, y, 0);
    XorLaws(x, z, 0);
    XorLaws(y, x, 0);
    XorLaws(z, x, 0);
  }

  // ----- Masks -----

  predicate TopBit(x: Word) {
    x >= 0x8000_0000
  }

  lemma {:induction false} TopBitOf(x: nat, n: nat)
    requires x < Pow2(n + 1)
    ensures Bit(x, n) <==> x >= Pow2(n)
  {
    if n > 0 {
      TopBitOf(x / 2, n - 1);
    }
  }

  lemma TopBitIsBit(x: Word, i: nat)
    requires i == 31
    ensures Bit(x, i) <==> TopBit(x)
  {
    Pow2Of32();
    TopBitOf(x, i);
  }

  lemma HalvesOfPow2(n: nat)
    requires n > 0
    ensures Pow2(n) / 2 == Pow2(n - 1) && (Pow2(n) - 1) / 2 == Pow2(n - 1) - 1
  {
  }

  lemma {:induction false} BitsOfPow2(n: nat, i: nat)
    ensures Bit(Pow2(n), i) <==> i == n
    ensures Bit(Pow2(n) - 1, i) <==> i < n
    decreases i
  {
    if i > 0 {
      if n > 0 {
        BitsOfPow2(n - 1, i - 1);
        HalvesOfPow2(n);
      } else {
        ZeroBits(i - 1);
      }
    }
  }

  const UPPER_MASK: Word := 0x8000_0000
  const LOWER_MASK: Word := 0x7fff_ffff
  const MATRIX_A: Word := 0x9908_b0df

  lemma MaskBits(i: nat)
    requires i < 32
    ensures Bit(UPPER_MASK, i) <==> i == 31
    ensures Bit(LOWER_MASK, i) <==> i < 31
    ensures Bit(1, i) <==> i == 0
    ensures !Bit(0, i)
  {
    Pow2Of32();
    BitsOfPow2(31, i);
    BitsOfPow2(0, i);
    assert Pow2(0) == 1;
    ZeroBits(i);
  }

  lemma AllMaskBits()
    ensures forall i: nat :: i < 32 ==>
      && (Bit(UPPER_MASK, i) <==> i == 31) && (Bit(LOWER_MASK, i) <==> i < 31)
      && (Bit(1, i) <==> i == 0) && !Bit(0, i)
  {
    forall i: nat | i < 32
      ensures (Bit(UPPER_MASK, i) <==> i == 31) && (Bit(LOWER_MASK, i) <==> i < 31)
      ensures (Bit(1, i) <==> i == 0) && !Bit(0, i)
    {
      MaskBits(i);
    }
  }

  // ----- The twist -----

  /** The top bit of one word with the other bits of the next. */
  function Splice(hi: Word, lo: Word): Word {
    Or(And(hi, UPPER_MASK), And(lo, LOWER_MASK))
  }

  /** The matrix's contribution for the low bit of a word. */
  function Mag01(x: Word): Word {
    if x == 0 then 0 else MATRIX_A
  }

  function Twist(y: Word): Word {
    Xor(Shr(y, 1), Mag01(And(y, 1)))
  }

  lemma LowBit(y: Word)
    ensures And(y, 1) == if Bit(y, 0) then 1 else 0
  {
    AllMaskBits();
    SameBits(And(y, 1), if Bit(y, 0) then 1 else 0);
  }

  lemma TwistTopBitAt(y: Word, i: nat)
    requires i == 31
    ensures TopBit(Twist(y)) <==> And(y, 1) != 0
  {
    TopBitIsBit(Twist(y), i);
    TopBitIsBit(MATRIX_A, i);
    TopBitIsBit(0, i);
  }

  /** The top bit of a twisted word is the low bit of the word. */
  lemma TwistTopBit(y: Word)
    ensures TopBit(Twist(y)) <==> And(y, 1) != 0
  {
    TwistTopBitAt(y, 31);
  }

  lemma TwistIsInjective(y: Word, z: Word)
    requires Twist(y) == Twist(z)
    ensures y == z
  {
    TwistTopBit(y);
    TwistTopBit(z);
    LowBit(y);
    LowBit(z);
    XorCancels(Mag01(And(y, 1)), Shr(y, 1), Shr(z, 1));
    forall i: nat | i < 32 ensures Bit(y, i) == Bit(z, i) {
      if i > 0 {
        assert Bit(Shr(y, 1), i - 1) == Bit(y, i) && Bit(Shr(z, 1), i - 1) == Bit(z, i);
      }
    }
    SameBits(y, z);
  }

  lemma SpliceBit(hi: Word, lo: Word, i: nat)
    requires i < 32
    ensures Bit(Splice(hi, lo), i) == if i == 31 then Bit(hi, i) else Bit(lo, i)
  {
    MaskBits(i);
  }

  lemma SpliceTopBit(hi: Word, lo: Word, i: nat)
    requires i == 31
    ensures TopBit(Splice(hi, lo)) == TopBit(hi)
  {
    SpliceBit(hi, lo, i);
    TopBitIsBit(hi, i);
    TopBitIsBit(Splice(hi, lo), i);
  }

  lemma SpliceDeterminesLow(hi: Word, lo: Word, hi': Word, lo': Word)
    requires Splice(hi, lo) == Splice(hi', lo') && TopBit(lo) == TopBit(lo')
    ensures lo == lo'
  {
    forall i: nat | i < 32 ensures Bit(lo, i) == Bit(lo', i) {
      SpliceBit(hi, lo, i);
      SpliceBit(hi', lo', i);
      if i == 31 {
        TopBitIsBit(lo, i);
        TopBitIsBit(lo', i);
      }
    }
    SameBits(lo, lo');
  }

  /** The top bit of the first word and the other bits of the second can be read off. */
  lemma SpliceDetermines(hi: Word, lo: Word, hi': Word, lo': Word)
    requires Splice(hi, lo) == Splice(hi', lo')
    ensures TopBit(hi) == TopBit(hi')
    ensures TopBit(lo) == TopBit(lo') ==> lo == lo'
  {
    SpliceTopBit(hi, lo, 31);
    SpliceTopBit(hi', lo', 31);
    if TopBit(lo) == TopBit(lo') {
      SpliceDeterminesLow(hi, lo, hi', lo');
    }
  }

  /** Nothing else of the first word matters. */
  lemma SpliceNeedsTopBit(hi: Word, hi': Word, lo: Word)
    requires TopBit(hi) == TopBit(hi')
    ensures Splice(hi, lo) == Splice(hi', lo)
  {
    forall i: nat | i < 32 ensures Bit(Splice(hi, lo), i) == Bit(Splice(hi', lo), i) {
      SpliceBit(hi, lo, i);
      SpliceBit(hi', lo, i);
      if i == 31 {
        TopBitIsBit(hi, i);
        TopBitIsBit(hi', i);
      }
    }
    SameBits(Splice(hi, lo), Splice(hi', lo));
  }

  // ----- Tempering -----

  const MASK_B: Word := 0x9d2c_5680
  const MASK_C: Word := 0xefc6_0000

  function Right11(y: Word): Word { Xor(y, Shr(y, 11)) }
  function Shift7(y: Word): Word { And(Shl(y, 7), MASK_B) }
  function Left7(y: Word): Word { Xor(y, Shift7(y)) }
  function Shift15(y: Word): Word { And(Shl(y, 15), MASK_C) }
  function Left15(y: Word): Word { Xor(y, Shift15(y)) }
  function Right18(y: Word): Word { Xor(y, Shr(y, 18)) }

  /** The tempering of an output word. */
  function Temper(y: Word): Word {
    Right18(Left15(Left7(Right11(y))))
  }

  function Unright11(z: Word): Word { Xor(Xor(z, Shr(z, 11)), Shr(z, 22)) }
  function Unleft7(z: Word): Word { Xor(z, Shift7(Xor(z, Shift7(Xor(z, Shift7(Xor(z, Shift7(z)))))))) }

  function Untemper(z: Word): Word {
    Unright11(Unleft7(Left15(Right18(z))))
  }

  lemma ShrXor(x: Word, y: Word, n: nat)
    ensures Shr(Xor(x, y), n) == Xor(Shr(x, n), Shr(y, n))
  {
    SameBits(Shr(Xor(x, y), n), Xor(Shr(x, n), Shr(y, n)));
  }

  lemma ShrShr(x: Word, m: nat, n: nat)
    ensures Shr(Shr(x, m), n) == Shr(x, m + n)
    ensures m >= 32 ==> Shr(x, m) == 0
  {
    SameBits(Shr(Shr(x, m), n), Shr(x, m + n));
    if m >= 32 {
      AllMaskBits();
      SameBits(Shr(x, m), 0);
    }
  }

  lemma Right18Involutive(y: Word)
    ensures Right18(Right18(y)) == y
  {
    var s := Shr(y, 18);
    ShrXor(y, s, 18);
    ShrShr(y, 18, 18);
    ShrShr(y, 36, 0);
    XorZero(s);
    XorLaws(y, s, 0);
  }

  lemma XorChain(y: Word, s: Word, t: Word)
    ensures Xor(Xor(y, s), Xor(s, t)) == Xor(y, t)
  {
    SameBits(Xor(Xor(y, s), Xor(s, t)), Xor(y, t));
  }

  lemma UnrightRight(y: Word)
    ensures Unright11(Right11(y)) == y
  {
    var s, t := Shr(y, 11), Shr(y, 22);
    ShrXor(y, s, 11);
    ShrXor(y, s, 22);
    ShrShr(y, 11, 11);
    ShrShr(y, 11, 22);
    ShrShr(y, 33, 0);
    XorZero(t);
    XorChain(y, s, t);
    XorLaws(y, t, 0);
  }

  lemma RightUnright(z: Word)
    ensures Right11(Unright11(z)) == z
  {
    var s, t := Shr(z, 11), Shr(z, 22);
    ShrXor(Xor(z, s), t, 11);
    ShrXor(z, s, 11);
    ShrShr(z, 11, 11);
    ShrShr(z, 22, 11);
    ShrShr(z, 33, 0);
    XorZero(Xor(s, t));
    XorLaws(z, s, t);
    XorLaws(z, Xor(s, t), 0);
  }

  lemma Shift7Xor(x: Word, y: Word)
    ensures Shift7(Xor(x, y)) == Xor(Shift7(x), Shift7(y))
  {
    SameBits(Shift7(Xor(x, y)), Xor(Shift7(x), Shift7(y)));
  }

  lemma Shift7FiveTimes(x: Word)
    ensures Shift7(Shift7(Shift7(Shift7(Shift7(x))))) == 0
  {
    AllMaskBits();
    var a := Shift7(x);
    var b := Shift7(a);
    var c := Shift7(b);
    var d := Shift7(c);
    assert forall i: nat :: i < 7 ==> !Bit(a, i);
    assert forall i: nat :: i < 14 ==> !Bit(b, i);
    assert forall i: nat :: i < 21 ==> !Bit(c, i);
    assert forall i: nat :: i < 28 ==> !Bit(d, i);
    SameBits(Shift7(d), 0);
  }

  /** One round of undoing Left7 moves the error up by one more shift. */
  lemma Peel(y: Word, d: Word)
    ensures Xor(Left7(y), Shift7(Xor(y, d))) == Xor(y, Shift7(d))
  {
    Shift7Xor(y, d);
    XorChain(y, Shift7(y), Shift7(d));
  }

  lemma UnleftLeft(y: Word)
    ensures Unleft7(Left7(y)) == y
  {
    Peel(y, Shift7(y));
    Peel(y, Shift7(Shift7(y)));
    Peel(y, Shift7(Shift7(Shift7(y))));
    Peel(y, Shift7(Shift7(Shift7(Shift7(y)))));
    Shift7FiveTimes(y);
    XorZero(y);
  }

  /** Two successive approximations differ by the shifted difference of the previous two. */
  lemma Nearer(z: Word, a: Word, b: Word)
    ensures Xor(Xor(z, Shift7(a)), Xor(z, Shift7(b))) == Shift7(Xor(a, b))
  {
    Shift7Xor(a, b);
    SameBits(Xor(Xor(z, Shift7(a)), Xor(z, Shift7(b))), Xor(Shift7(a), Shift7(b)));
  }

  lemma LeftUnleft(z: Word)
    ensures Left7(Unleft7(z)) == z
  {
    var a := Xor(z, Shift7(z));
    var b := Xor(z, Shift7(a));
    var c := Xor(z, Shift7(b));
    var r := Xor(z, Shift7(c));
    XorLaws(z, Shift7(z), 0);
    assert Xor(z, a) == Shift7(z) by {
      XorLaws(z, a, 0);
    }
    Nearer(z, z, a);
    Nearer(z, a, b);
    Nearer(z, b, c);
    Shift7FiveTimes(z);
    Shift7Xor(c, r);
    XorZero(Shift7(c));
    XorCancels(Shift7(c), Shift7(c), Shift7(r));
    XorLaws(z, Shift7(c), 0);
  }

  lemma MaskCBits()
    ensures !Bit(MASK_C, 15) && !Bit(MASK_C, 16)
  {
    Pow2Adds(8, 8);
    assert Pow2(8) == 0x100;
    BitsOfMultiple(0xefc6, 16, 15);
    BitsOfMultiple(0xefc6, 16, 16);
  }

  lemma {:induction false} BitsOfMultiple(x: nat, n: nat, i: nat)
    ensures Bit(x * Pow2(n), i) <==> i >= n && Bit(x, i - n)
    decreases n
  {
    if n > 0 {
      var half := x * Pow2(n - 1);
      assert x * Pow2(n) == 2 * half;
      if i > 0 {
        BitsOfMultiple(x, n - 1, i - 1);
      }
    }
  }

  lemma Left15Involutive(y: Word)
    ensures Left15(Left15(y)) == y
  {
    var s := Shift15(y);
    MaskCBits();
    AllMaskBits();
    SameBits(Shift15(s), 0);
    SameBits(Shift15(Xor(y, s)), Xor(s, Shift15(s)));
    XorZero(s);
    XorLaws(y, s, 0);
  }

  /** Tempering is a bijection on words. */
  lemma TemperIsBijective(y: Word)
    ensures Untemper(Temper(y)) == y
    ensures Temper(Untemper(y)) == y
  {
    UntemperTemper(y);
    TemperUntemper(y);
  }

  lemma UntemperTemper(y: Word)
    ensures Untemper(Temper(y)) == y
  {
    Right18Involutive(Left15(Left7(Right11(y))));
    Left15Involutive(Left7(Right11(y)));
    UnleftLeft(Right11(y));
    UnrightRight(y);
  }

  lemma TemperUntemper(z: Word)
    ensures Temper(Untemper(z)) == z
  {
    RightUnright(Unleft7(Left15(Right18(z))));
    LeftUnleft(Left15(Right18(z)));
    Left15Involutive(Right18(z));
    Right18Involutive(z);
  }
}
