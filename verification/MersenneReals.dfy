/** A real number from two words: 53 of their 64 bits, over exact numbers. */
module MersenneReals {
  import opened MersenneWords

  /** The 27 high bits of one word and the 26 of the other as a fraction of 2^53. */
  function Res53(x: Word, y: Word): real {
    var a, b := Shr(x, 5), Shr(y, 6);
    (a as real * 67108864.0 + b as real) * (1.0 / 9007199254740992.0)
  }

  function Quotient(x: nat, p: nat): (q: nat)
    requires p > 0
    ensures q <= x
  {
    QuotientIsBelow(x, p);
    x / p
  }

  lemma QuotientIsBelow(x: nat, p: nat)
    requires p > 0
    ensures 0 <= x / p <= x
  {
    var q: int := x / p;
    assert x == p * q + x % p;
    MultipleAtLeast(p, -q);
    if q >= 0 {
      ProductNotBelow(p, q);
    }
  }

  lemma ProductNotBelow(p: int, q: int)
    requires p > 0 && q >= 0
    ensures p * q >= q
  {
    assert (p - 1) * q >= 0;
  }

  lemma {:induction false} BitOfQuotient(x: nat, n: nat, i: nat)
    ensures Bit(Quotient(x, Pow2(n)), i) == Bit(x, i + n)
    decreases n
  {
    if n > 0 {
      var p := Pow2(n - 1);
      QuotientOfHalf(x, p);
      BitOfQuotient(x / 2, n - 1, i);
    }
  }

  lemma QuotientOfHalf(x: nat, p: nat)
    requires p > 0
    ensures x / (2 * p) == x / 2 / p
  {
    var q, h := x / (2 * p), x / 2;
    var r := x - 2 * p * q;
    assert h == p * q + r / 2;
    assert 0 <= r / 2 < p;
    QuotientIs(h, p, q, r / 2);
  }

  lemma QuotientIs(x: nat, p: nat, q: nat, r: nat)
    requires p > 0 && x == p * q + r && r < p
    ensures x / p == q
  {
    var d: int := x / p;
    assert p * (d - q) == r - x % p;
    NoMultipleBetween(p, d - q);
  }

  lemma NoMultipleBetween(p: int, z: int)
    requires p > 0 && -p < p * z < p
    ensures z == 0
  {
    MultipleAtLeast(p, z);
    MultipleAtLeast(p, -z);
  }

  lemma MultipleAtLeast(p: int, z: int)
    requires p > 0
    ensures z >= 1 ==> p * z >= p
    ensures p * -z == -(p * z)
  {
    if z >= 1 {
      assert p * (z - 1) >= 0;
    }
  }

  lemma {:induction false} NoBitAbove(x: nat, n: nat, i: nat)
    requires x < Pow2(n) && n <= i
    ensures !Bit(x, i)
    decreases i
  {
    if i > 0 {
      NoBitAbove(x / 2, if n == 0 then 0 else n - 1, i - 1);
    }
  }

  lemma BitOfShr(x: Word, n: nat, i: nat, size: nat)
    requires i < size && size == 32 && x < Pow2(size)
    ensures Bit(Shr(x, n), i) == Bit(Quotient(x, Pow2(n)), i)
  {
    BitOfQuotient(x, n, i);
    if i + n >= size {
      NoBitAbove(x, size, i + n);
    }
  }

  lemma ShrIsDivision(x: Word, n: nat)
    ensures Shr(x, n) == Quotient(x, Pow2(n))
  {
    Pow2Of32();
    forall i: nat | i < 32 ensures Bit(Shr(x, n), i) == Bit(Quotient(x, Pow2(n)), i) {
      BitOfShr(x, n, i, 32);
    }
    SameBits(Shr(x, n), Quotient(x, Pow2(n)));
  }

  lemma ShrByFive(x: Word)
    ensures Shr(x, 5) == x / 32 < 134217728
  {
    ShrIsDivision(x, 5);
    assert Pow2(5) == 32;
  }

  lemma ShrBySix(x: Word)
    ensures Shr(x, 6) == x / 64 < 67108864
  {
    ShrIsDivision(x, 6);
    assert Pow2(6) == 64;
  }

  lemma TwoParts(a: nat, b: nat)
    requires a < 134217728 && b < 67108864
    ensures var k := a * 67108864 + b;
            k < 9007199254740992 && k / 67108864 == a && k % 67108864 == b
  {
  }

  lemma Fraction(k: nat)
    requires k < 9007199254740992
    ensures var r := k as real * (1.0 / 9007199254740992.0);
            0.0 <= r < 1.0 && r * 9007199254740992.0 == k as real
  {
  }

  lemma SameSum(a: nat, b: nat)
    ensures a as real * 67108864.0 + b as real == (a * 67108864 + b) as real
  {
  }

  lemma WholeFloor(x: real, k: int)
    requires x == k as real
    ensures x.Floor == k
  {
  }

  /** The number is a multiple of 2^-53 from 0 up to but excluding 1, and tells all 53 bits. */
  lemma Res53TellsItsBits(x: Word, y: Word)
    ensures 0.0 <= Res53(x, y) < 1.0
    ensures var k := (Res53(x, y) * 9007199254740992.0).Floor;
            && Res53(x, y) * 9007199254740992.0 == k as real
            && k / 67108864 == x / 32 && k % 67108864 == y / 64
  {
    ShrByFive(x);
    ShrBySix(y);
    var a: nat, b: nat := Shr(x, 5), Shr(y, 6);
    var k: nat := a * 67108864 + b;
    TwoParts(a, b);
    SameSum(a, b);
    Fraction(k);
    WholeFloor(Res53(x, y) * 9007199254740992.0, k);
  }
}
