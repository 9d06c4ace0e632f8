/** Which changes across the stored header checksum the header check accepts. A change of the last
    field bytes by the polynomial `d` is accepted when the stored checksum changes by the remainder
    of d * x^192; a window of eight bytes forces both to be small, and small pairs are multiples of
    one reduced pair per window. */
module Straddle {
  import opened Words
  import opened Crc
  import opened Galois
  import opened BitVectors

  // ---- sizes of concrete polynomials ----

  lemma SmallPowers()
    ensures Pow2(8) == 0x100 && Pow2(9) == 0x200 && Pow2(14) == 0x4000 && Pow2(15) == 0x8000
    ensures Pow2(16) == 0x1_0000
  {
  }

  lemma PowerProduct(m: nat, n: nat, p: nat, q: nat)
    requires Pow2(m) == p && Pow2(n) == q
    ensures Pow2(m + n) == p * q
  {
    Pow2Sum(m, n);
  }

  lemma Powers()
    ensures Pow2(8) == 0x100 && Pow2(9) == 0x200 && Pow2(14) == 0x4000 && Pow2(15) == 0x8000
    ensures Pow2(16) == 0x1_0000
    ensures Pow2(17) == 0x2_0000 && Pow2(23) == 0x80_0000 && Pow2(24) == 0x100_0000
    ensures Pow2(25) == 0x200_0000 && Pow2(29) == 0x2000_0000 && Pow2(30) == 0x4000_0000
    ensures Pow2(32) == 0x1_0000_0000 && Pow2(38) == 0x40_0000_0000 && Pow2(39) == 0x80_0000_0000
    ensures Pow2(40) == 0x100_0000_0000 && Pow2(41) == 0x200_0000_0000 && Pow2(45) == 0x2000_0000_0000
    ensures Pow2(46) == 0x4000_0000_0000 && Pow2(48) == 0x1_0000_0000_0000 && Pow2(55) == 0x80_0000_0000_0000
    ensures Pow2(56) == 0x100_0000_0000_0000
  {
    hide Pow2;
    SmallPowers();
    PowerProduct(8, 9, 0x100, 0x200);
    PowerProduct(8, 15, 0x100, 0x8000);
    PowerProduct(8, 16, 0x100, 0x1_0000);
    PowerProduct(9, 16, 0x200, 0x1_0000);
    PowerProduct(14, 15, 0x4000, 0x8000);
    PowerProduct(15, 15, 0x8000, 0x8000);
    PowerProduct(16, 16, 0x1_0000, 0x1_0000);
    PowerProduct(14, 24, 0x4000, 0x100_0000);
    PowerProduct(15, 24, 0x8000, 0x100_0000);
    PowerProduct(16, 24, 0x1_0000, 0x100_0000);
    PowerProduct(16, 25, 0x1_0000, 0x200_0000);
    PowerProduct(15, 30, 0x8000, 0x4000_0000);
    PowerProduct(16, 30, 0x1_0000, 0x4000_0000);
    PowerProduct(24, 24, 0x100_0000, 0x100_0000);
    PowerProduct(15, 40, 0x8000, 0x100_0000_0000);
    PowerProduct(16, 40, 0x1_0000, 0x100_0000_0000);
  }

  lemma DegreeIs(value: bv64 -> nat, w: bv64, e: nat)
    requires IsValue(value) && Pow2(e) <= Num64(w) < Pow2(e + 1)
    ensures Degree(value(w), e)
  {
    ValueIs(value, w, Num64(w));
  }

  lemma {:induction false} BoundIs(value: bv64 -> nat, w: bv64, e: nat)
    requires IsValue(value) && Num64(w) < Pow2(e)
    ensures value(w) < Pow2(e)
  {
    ValueIs(value, w, Num64(w));
  }

  // ---- reduced pairs ----

  const SHIFT: nat := 192

  /** x^192 modulo the generator. */
  const ROOT: bv64 := 0x4EB9_38A7_D257_740E

  lemma RootSteps()
    ensures Times64(1) == POLY && Times64(0x05F5_C3C7_EB52_FAB6) == ROOT
  {
  }

  lemma RootMiddle()
    ensures Times64(POLY) == 0x05F5_C3C7_EB52_FAB6
  {
  }

  lemma RootIsPower(value: bv64 -> nat)
    requires IsValue(value)
    ensures value(ROOT) == Rem(ShiftUp(1, SHIFT))
  {
    MulLevel64(value);
    RootSteps();
    RootMiddle();
    RootPowers(value, Times64, 0x05F5_C3C7_EB52_FAB6);
  }

  lemma RootPowers(value: bv64 -> nat, times: bv64 -> bv64, middle: bv64)
    requires IsValue(value) && forall w :: TimesAt(value, 64, times, w)
    requires times(1) == POLY && times(POLY) == middle && times(middle) == ROOT
    ensures value(ROOT) == Rem(ShiftUp(1, SHIFT))
  {
    ValueIs(value, 1, 1);
    RemSmall(1);
    assert ShiftUp(1, 0) == 1;
    PowerStep(value, times, 1, 0, POLY);
    PowerStep(value, times, POLY, 64, middle);
    PowerStep(value, times, middle, 128, ROOT);
  }

  lemma PowerStep(value: bv64 -> nat, times: bv64 -> bv64, d: bv64, k: nat, t: bv64)
    requires forall w :: TimesAt(value, 64, times, w)
    requires t == times(d) && value(d) == Rem(ShiftUp(1, k))
    ensures value(t) == Rem(ShiftUp(1, k + 64))
  {
    assert TimesAt(value, 64, times, d);
    RemShift(ShiftUp(1, k), 64);
    ShiftUpAdd(1, k, 64);
  }

  /** Shifting by 192 modulo the generator is multiplication by the root. */
  lemma Shifted(value: bv64 -> nat, mul: Product64, t: bv64)
    requires IsValue(value) && IsProduct(value, mul)
    ensures Quotes(value(t), value(mul(t, ROOT)), SHIFT)
  {
    RootIsPower(value);
    assert ProductAt(value, mul, t, ROOT);
    RemProduct(value(t), ShiftUp(1, SHIFT));
    ProductShift(value(t), 1, SHIFT);
    ProductOne(value(t));
  }

  /** A coprime pair of known degrees. */
  ghost predicate IsPair(value: bv64 -> nat, t: bv64, r: bv64, i: nat, j: nat) {
    && Degree(value(t), i) && Degree(value(r), j)
    && exists u, v :: Bezout(value, t, r, u, v)
  }

  ghost predicate Bezout(value: bv64 -> nat, t: bv64, r: bv64, u: bv64, v: bv64) {
    Xor(Product(value(u), value(t)), Product(value(v), value(r))) == 1
  }

  lemma {:induction false} Coprime(value: bv64 -> nat, mul: Product64, t: bv64, r: bv64, u: bv64, v: bv64, i: nat,
                                   j: nat, m: nat, n: nat)
    requires IsValue(value) && IsProduct(value, mul) && Degree(value(t), i) && Degree(value(r), j)
    requires value(u) < Pow2(m) && value(v) < Pow2(n) && m + i <= 64 && n + j <= 64
    requires mul(u, t) ^ mul(v, r) == 1
    ensures IsPair(value, t, r, i, j)
  {
    SmallProduct(value, mul, u, t, m, i);
    SmallProduct(value, mul, v, r, n, j);
    XorIsOne(value, mul(u, t), mul(v, r));
    assert Bezout(value, t, r, u, v);
  }

  lemma XorIsOne(value: bv64 -> nat, x: bv64, y: bv64)
    requires IsValue(value) && x ^ y == 1
    ensures Xor(value(x), value(y)) == 1
  {
    ValueXor(value, x, y);
    ValueIs(value, 1, 1);
  }

  /** A product below degree 64 needs no reduction. */
  lemma SmallProduct(value: bv64 -> nat, mul: Product64, u: bv64, t: bv64, m: nat, i: nat)
    requires IsProduct(value, mul) && value(u) < Pow2(m) && value(t) < Pow2(i + 1) && m + i <= 64
    ensures value(mul(u, t)) == Product(value(u), value(t))
  {
    assert ProductAt(value, mul, u, t);
    ProductBelow64(value(u), value(t), m, i);
    RemSmall(Product(value(u), value(t)));
  }

  lemma ProductBelow64(a: nat, b: nat, m: nat, i: nat)
    requires a < Pow2(m) && b < Pow2(i + 1) && m + i <= 64
    ensures Product(a, b) < TWO64
  {
    ProductBound(a, b, m, i);
    Pow2Mono(m + i, 64);
    Pow2Of64();
  }

  lemma Quote1(value: bv64 -> nat)
    requires IsValue(value)
    ensures Quotes(value(0x18B), value(0xAE65B1B5989D98), SHIFT)
  {
    assert Mul64(0x18B, ROOT) == 0xAE65B1B5989D98;
    MulIsProduct(value);
    Shifted(value, Mul64, 0x18B);
  }

  lemma Cofactors1()
    ensures Mul64(0x7C982A9DD587EF, 0x18B) ^ Mul64(0xA7, 0xAE65B1B5989D98) == 1
  {
  }

  lemma Sizes1(value: bv64 -> nat)
    requires IsValue(value)
    ensures Degree(value(0x18B), 8) && Degree(value(0xAE65B1B5989D98), 55)
    ensures value(0x7C982A9DD587EF) < Pow2(56) && value(0xA7) < Pow2(8)
  {
    hide Pow2;
    Powers();
    DegreeIs(value, 0x18B, 8);
    DegreeIs(value, 0xAE65B1B5989D98, 55);
    BoundIs(value, 0x7C982A9DD587EF, 56);
    BoundIs(value, 0xA7, 8);
  }

  lemma Pair1(value: bv64 -> nat)
    requires IsValue(value)
    ensures IsPair(value, 0x18B, 0xAE65B1B5989D98, 8, 55)
  {
    hide Mul64;
    Sizes1(value);
    Cofactors1();
    MulIsProduct(value);
    Coprime(value, Mul64, 0x18B, 0xAE65B1B5989D98, 0x7C982A9DD587EF, 0xA7, 8, 55, 56, 8);
  }

  lemma Quote2(value: bv64 -> nat)
    requires IsValue(value)
    ensures Quotes(value(0x74E9), value(0x2EBBB82CAFF0), SHIFT)
  {
    assert Mul64(0x74E9, ROOT) == 0x2EBBB82CAFF0;
    MulIsProduct(value);
    Shifted(value, Mul64, 0x74E9);
  }

  lemma Cofactors2()
    ensures Mul64(0xF2BD02CFE09, 0x74E9) ^ Mul64(0x106E, 0x2EBBB82CAFF0) == 1
  {
  }

  lemma Sizes2(value: bv64 -> nat)
    requires IsValue(value)
    ensures Degree(value(0x74E9), 14) && Degree(value(0x2EBBB82CAFF0), 45)
    ensures value(0xF2BD02CFE09) < Pow2(48) && value(0x106E) < Pow2(16)
  {
    hide Pow2;
    Powers();
    DegreeIs(value, 0x74E9, 14);
    DegreeIs(value, 0x2EBBB82CAFF0, 45);
    BoundIs(value, 0xF2BD02CFE09, 48);
    BoundIs(value, 0x106E, 16);
  }

  lemma Pair2(value: bv64 -> nat)
    requires IsValue(value)
    ensures IsPair(value, 0x74E9, 0x2EBBB82CAFF0, 14, 45)
  {
    hide Mul64;
    Sizes2(value);
    Cofactors2();
    MulIsProduct(value);
    Coprime(value, Mul64, 0x74E9, 0x2EBBB82CAFF0, 0xF2BD02CFE09, 0x106E, 14, 45, 48, 16);
  }

  lemma Quote3(value: bv64 -> nat)
    requires IsValue(value)
    ensures Quotes(value(0x9E4795), value(0x1ED24601E00), SHIFT)
  {
    assert Mul64(0x9E4795, ROOT) == 0x1ED24601E00;
    MulIsProduct(value);
    Shifted(value, Mul64, 0x9E4795);
  }

  lemma Cofactors3()
    ensures Mul64(0x144584AC5, 0x9E4795) ^ Mul64(0xEE8E, 0x1ED24601E00) == 1
  {
  }

  lemma Sizes3(value: bv64 -> nat)
    requires IsValue(value)
    ensures Degree(value(0x9E4795), 23) && Degree(value(0x1ED24601E00), 40)
    ensures value(0x144584AC5) < Pow2(40) && value(0xEE8E) < Pow2(16)
  {
    hide Pow2;
    Powers();
    DegreeIs(value, 0x9E4795, 23);
    DegreeIs(value, 0x1ED24601E00, 40);
    BoundIs(value, 0x144584AC5, 40);
    BoundIs(value, 0xEE8E, 16);
  }

  lemma Pair3(value: bv64 -> nat)
    requires IsValue(value)
    ensures IsPair(value, 0x9E4795, 0x1ED24601E00, 23, 40)
  {
    hide Mul64;
    Sizes3(value);
    Cofactors3();
    MulIsProduct(value);
    Coprime(value, Mul64, 0x9E4795, 0x1ED24601E00, 0x144584AC5, 0xEE8E, 23, 40, 40, 16);
  }

  lemma Quote4(value: bv64 -> nat)
    requires IsValue(value)
    ensures Quotes(value(0xAC00CA27), value(0xD081514B), SHIFT)
  {
    assert Mul64(0xAC00CA27, ROOT) == 0xD081514B;
    MulIsProduct(value);
    Shifted(value, Mul64, 0xAC00CA27);
  }

  lemma Cofactors4()
    ensures Mul64(0x8555612, 0x23FFC20B) ^ Mul64(0xDDEB951, 0x3A804517) == 1
  {
  }

  lemma Sizes4(value: bv64 -> nat)
    requires IsValue(value)
    ensures Degree(value(0x23FFC20B), 29) && Degree(value(0x3A804517), 29)
    ensures value(0x8555612) < Pow2(32) && value(0xDDEB951) < Pow2(32)
  {
    hide Pow2;
    Powers();
    DegreeIs(value, 0x23FFC20B, 29);
    DegreeIs(value, 0x3A804517, 29);
    BoundIs(value, 0x8555612, 32);
    BoundIs(value, 0xDDEB951, 32);
  }

  lemma Pair4(value: bv64 -> nat)
    requires IsValue(value)
    ensures IsPair(value, 0x23FFC20B, 0x3A804517, 29, 29)
  {
    hide Mul64;
    Sizes4(value);
    Cofactors4();
    MulIsProduct(value);
    Coprime(value, Mul64, 0x23FFC20B, 0x3A804517, 0x8555612, 0xDDEB951, 29, 29, 32, 32);
  }

  lemma Quote5(value: bv64 -> nat)
    requires IsValue(value)
    ensures Quotes(value(0x50D4EAD9CD), value(0x182842D), SHIFT)
  {
    assert Mul64(0x50D4EAD9CD, ROOT) == 0x182842D;
    MulIsProduct(value);
    Shifted(value, Mul64, 0x50D4EAD9CD);
  }

  lemma Cofactors5()
    ensures Mul64(0xD5F023, 0x50D4EAD9CD) ^ Mul64(0x2FD3DE713E, 0x182842D) == 1
  {
  }

  lemma Sizes5(value: bv64 -> nat)
    requires IsValue(value)
    ensures Degree(value(0x50D4EAD9CD), 38) && Degree(value(0x182842D), 24)
    ensures value(0xD5F023) < Pow2(24) && value(0x2FD3DE713E) < Pow2(40)
  {
    hide Pow2;
    Powers();
    DegreeIs(value, 0x50D4EAD9CD, 38);
    DegreeIs(value, 0x182842D, 24);
    BoundIs(value, 0xD5F023, 24);
    BoundIs(value, 0x2FD3DE713E, 40);
  }

  lemma Pair5(value: bv64 -> nat)
    requires IsValue(value)
    ensures IsPair(value, 0x50D4EAD9CD, 0x182842D, 38, 24)
  {
    hide Mul64;
    Sizes5(value);
    Cofactors5();
    MulIsProduct(value);
    Coprime(value, Mul64, 0x50D4EAD9CD, 0x182842D, 0xD5F023, 0x2FD3DE713E, 38, 24, 24, 40);
  }

  lemma Quote6(value: bv64 -> nat)
    requires IsValue(value)
    ensures Quotes(value(0x303B64E8FCAD), value(0x1E3AD), SHIFT)
  {
    assert Mul64(0x303B64E8FCAD, ROOT) == 0x1E3AD;
    MulIsProduct(value);
    Shifted(value, Mul64, 0x303B64E8FCAD);
  }

  lemma Cofactors6()
    ensures Mul64(0x53E0, 0x303B64E8FCAD) ^ Mul64(0x87C588858DD, 0x1E3AD) == 1
  {
  }

  lemma Sizes6(value: bv64 -> nat)
    requires IsValue(value)
    ensures Degree(value(0x303B64E8FCAD), 45) && Degree(value(0x1E3AD), 16)
    ensures value(0x53E0) < Pow2(16) && value(0x87C588858DD) < Pow2(48)
  {
    hide Pow2;
    Powers();
    DegreeIs(value, 0x303B64E8FCAD, 45);
    DegreeIs(value, 0x1E3AD, 16);
    BoundIs(value, 0x53E0, 16);
    BoundIs(value, 0x87C588858DD, 48);
  }

  lemma Pair6(value: bv64 -> nat)
    requires IsValue(value)
    ensures IsPair(value, 0x303B64E8FCAD, 0x1E3AD, 45, 16)
  {
    hide Mul64;
    Sizes6(value);
    Cofactors6();
    MulIsProduct(value);
    Coprime(value, Mul64, 0x303B64E8FCAD, 0x1E3AD, 0x53E0, 0x87C588858DD, 45, 16, 16, 48);
  }

  lemma Quote7(value: bv64 -> nat)
    requires IsValue(value)
    ensures Quotes(value(0xBDE173D42020B4), value(0x12D), SHIFT)
  {
    assert Mul64(0xBDE173D42020B4, ROOT) == 0x12D;
    MulIsProduct(value);
    Shifted(value, Mul64, 0xBDE173D42020B4);
  }

  lemma Cofactors7()
    ensures Mul64(0xC9, 0xBDE173D42020B4) ^ Mul64(0x79BF5CAC877699, 0x12D) == 1
  {
  }

  lemma Sizes7(value: bv64 -> nat)
    requires IsValue(value)
    ensures Degree(value(0xBDE173D42020B4), 55) && Degree(value(0x12D), 8)
    ensures value(0xC9) < Pow2(8) && value(0x79BF5CAC877699) < Pow2(56)
  {
    hide Pow2;
    Powers();
    DegreeIs(value, 0xBDE173D42020B4, 55);
    DegreeIs(value, 0x12D, 8);
    BoundIs(value, 0xC9, 8);
    BoundIs(value, 0x79BF5CAC877699, 56);
  }

  lemma Pair7(value: bv64 -> nat)
    requires IsValue(value)
    ensures IsPair(value, 0xBDE173D42020B4, 0x12D, 55, 8)
  {
    hide Mul64;
    Sizes7(value);
    Cofactors7();
    MulIsProduct(value);
    Coprime(value, Mul64, 0xBDE173D42020B4, 0x12D, 0xC9, 0x79BF5CAC877699, 55, 8, 8, 56);
  }

  // ---- small quotients ----

  /** A change of fewer than `n` field bits that fits into 64 - n checksum bits. */
  ghost predicate Fits(d: nat, e: nat, n: nat) {
    n <= 64 && Quotes(d, e, SHIFT) && d < Pow2(n) && e < Pow2(64 - n)
  }

  /** A pair that is itself a quotient: every fitting change is a multiple of it. */
  lemma Multiple(value: bv64 -> nat, d: nat, e: nat, n: nat, t: bv64, r: bv64, i: nat, j: nat) returns (m: nat)
    requires IsValue(value) && Fits(d, e, n) && IsPair(value, t, r, i, j)
    requires i <= n && j <= 64 - n && Quotes(value(t), value(r), SHIFT)
    ensures d == Product(value(t), m) && e == Product(value(r), m)
    ensures d < Pow2(n) && e < Pow2(64 - n)
  {
    EqualCrossProducts(d, e, n, value(t), value(r), i, j);
    var u, v :| Bezout(value, t, r, u, v);
    m := CommonMultiple(d, e, value(t), value(r), value(u), value(v));
  }

  lemma EqualCrossProducts(d: nat, e: nat, n: nat, t: nat, r: nat, i: nat, j: nat)
    requires Fits(d, e, n) && Quotes(t, r, SHIFT) && t < Pow2(i + 1) && r < Pow2(j + 1)
    requires i <= n && j <= 64 - n
    ensures Product(d, r) == Product(t, e)
  {
    ProductBelow64(d, r, n, j);
    ProductBelow64(e, t, 64 - n, i);
    ProductComm(e, t);
    CrossProducts(d, e, t, r, SHIFT);
  }

  /** A multiple of (t, r) that is too small in one component is zero. */
  lemma {:induction false} NoMultiple(t: nat, r: nat, d: nat, e: nat, m: nat, i: nat, first: bool)
    requires d == Product(t, m) && e == Product(r, m)
    requires if first then Degree(t, i) && d < Pow2(i) else Degree(r, i) && e < Pow2(i)
    ensures d == 0 && e == 0
  {
    CofactorBound(if first then t else r, m, i, 0);
    ProductZero(t);
    ProductZero(r);
  }

  lemma NothingFits8(value: bv64 -> nat, d: nat, e: nat)
    requires IsValue(value) && Fits(d, e, 8)
    ensures d == 0 && e == 0
  {
    Pair1(value);
    Quote1(value);
    var m := Multiple(value, d, e, 8, 0x18B, 0xAE65B1B5989D98, 8, 55);
    NoMultiple(value(0x18B), value(0xAE65B1B5989D98), d, e, m, 8, true);
  }

  lemma NothingFits24(value: bv64 -> nat, d: nat, e: nat)
    requires IsValue(value) && Fits(d, e, 24)
    ensures d == 0 && e == 0
  {
    Pair3(value);
    Quote3(value);
    var m := Multiple(value, d, e, 24, 0x9E4795, 0x1ED24601E00, 23, 40);
    NoMultiple(value(0x9E4795), value(0x1ED24601E00), d, e, m, 40, false);
  }

  lemma NothingFits40(value: bv64 -> nat, d: nat, e: nat)
    requires IsValue(value) && Fits(d, e, 40)
    ensures d == 0 && e == 0
  {
    Pair5(value);
    Quote5(value);
    var m := Multiple(value, d, e, 40, 0x50D4EAD9CD, 0x182842D, 38, 24);
    NoMultiple(value(0x50D4EAD9CD), value(0x182842D), d, e, m, 24, false);
  }

  lemma NothingFits48(value: bv64 -> nat, d: nat, e: nat)
    requires IsValue(value) && Fits(d, e, 48)
    ensures d == 0 && e == 0
  {
    Pair6(value);
    Quote6(value);
    var m := Multiple(value, d, e, 48, 0x303B64E8FCAD, 0x1E3AD, 45, 16);
    NoMultiple(value(0x303B64E8FCAD), value(0x1E3AD), d, e, m, 16, false);
  }

  lemma NothingFits56(value: bv64 -> nat, d: nat, e: nat)
    requires IsValue(value) && Fits(d, e, 56)
    ensures d == 0 && e == 0
  {
    Pair7(value);
    Quote7(value);
    var m := Multiple(value, d, e, 56, 0xBDE173D42020B4, 0x12D, 55, 8);
    NoMultiple(value(0xBDE173D42020B4), value(0x12D), d, e, m, 8, false);
  }

  // ---- the windows with two and with four field bytes ----

  lemma {:induction false} SmallMultiples(t: nat, m: nat)
    requires m < 4
    ensures Product(t, m) == if m == 0 then 0 else if m == 1 then t else if m == 2 then 2 * t else Xor(2 * t, t)
  {
    if m == 0 {
      ProductZero(t);
    } else {
      ProductOne(t);
      if m != 1 {
        ProductRight(t, m, 1, m - 2);
        XorZero(2 * t);
      }
    }
  }

  lemma Values2(value: bv64 -> nat)
    requires IsValue(value)
    ensures value(0x74E9) == 0x74E9 && value(0xE9D2) == 0xE9D2 && value(0x9D3B) == 0x9D3B
    ensures value(0x2EBB_B82C_AFF0) == 0x2EBB_B82C_AFF0 && value(0x5D77_7059_5FE0) == 0x5D77_7059_5FE0
    ensures value(0x73CC_C875_F010) == 0x73CC_C875_F010
  {
    ValueIs(value, 0x74E9, 0x74E9);
    ValueIs(value, 0xE9D2, 0xE9D2);
    ValueIs(value, 0x9D3B, 0x9D3B);
    ValueIs(value, 0x2EBB_B82C_AFF0, 0x2EBB_B82C_AFF0);
    ValueIs(value, 0x5D77_7059_5FE0, 0x5D77_7059_5FE0);
    ValueIs(value, 0x73CC_C875_F010, 0x73CC_C875_F010);
  }

  lemma Values4(value: bv64 -> nat)
    requires IsValue(value)
    ensures value(0xAC00_CA27) == 0xAC00_CA27 && value(0xD081_514B) == 0xD081_514B
  {
    ValueIs(value, 0xAC00_CA27, 0xAC00_CA27);
    ValueIs(value, 0xD081_514B, 0xD081_514B);
  }

  /** The changes that fit: pairs of the change of the field bytes before the stored checksum and of
      the change of the stored checksum. */
  predicate IsEscape2(d: nat, e: nat) {
    || (d == 0x74E9 && e == 0x2EBB_B82C_AFF0)
    || (d == 0xE9D2 && e == 0x5D77_7059_5FE0)
    || (d == 0x9D3B && e == 0x73CC_C875_F010)
  }

  predicate IsEscape4(d: nat, e: nat) {
    d == 0xAC00_CA27 && e == 0xD081_514B
  }

  lemma TripleValues(value: bv64 -> nat)
    requires IsValue(value)
    ensures Xor(2 * 0x74E9, 0x74E9) == 0x9D3B
    ensures Xor(2 * 0x2EBB_B82C_AFF0, 0x2EBB_B82C_AFF0) == 0x73CC_C875_F010
  {
    Values2(value);
    ValueXor(value, 0xE9D2, 0x74E9);
    ValueXor(value, 0x5D77_7059_5FE0, 0x2EBB_B82C_AFF0);
  }

  lemma Fits2(value: bv64 -> nat, d: nat, e: nat)
    requires IsValue(value) && Fits(d, e, 16)
    ensures (d == 0 && e == 0) || IsEscape2(d, e)
  {
    hide Mul64, Product, Xor, Rem, ShiftUp;
    Pair2(value);
    Quote2(value);
    var m := Multiple(value, d, e, 16, 0x74E9, 0x2EBB_B82C_AFF0, 14, 45);
    CofactorBound(value(0x74E9), m, 14, 2);
    MultiplesOf2(value, d, e, value(0x74E9), value(0x2EBB_B82C_AFF0), m);
  }

  lemma {:induction false} MultiplesOf2(value: bv64 -> nat, d: nat, e: nat, t: nat, r: nat, m: nat)
    requires IsValue(value) && m < 4 && t == value(0x74E9) && r == value(0x2EBB_B82C_AFF0)
    requires d == Product(t, m) && e == Product(r, m)
    ensures (d == 0 && e == 0) || IsEscape2(d, e)
  {
    SmallMultiples(t, m);
    SmallMultiples(r, m);
    Values2(value);
    TripleValues(value);
  }

  /** With four field bytes the reduced pair must be multiplied by x^2 + 1 before it is a quotient. */
  lemma Multiple4(value: bv64 -> nat, d: nat, e: nat) returns (m: nat)
    requires IsValue(value) && Fits(d, e, 32)
    ensures m < 8 && d == Product(value(0x23FF_C20B), m) && e == Product(value(0x3A80_4517), m)
  {
    Pair4(value);
    var t, r: nat := value(0x23FF_C20B), value(0x3A80_4517);
    FiveTimes(value, d, e, t, r);
    var u, v :| Bezout(value, 0x23FF_C20B, 0x3A80_4517, u, v);
    m := CommonMultiple(d, e, t, r, value(u), value(v));
    CofactorBound(t, m, 29, 3);
  }

  lemma {:induction false} FiveTimes(value: bv64 -> nat, d: nat, e: nat, t: nat, r: nat)
    requires IsValue(value) && Fits(d, e, 32) && t == value(0x23FF_C20B) && r == value(0x3A80_4517)
    requires Degree(t, 29) && Degree(r, 29)
    ensures Product(d, r) == Product(t, e)
  {
    ValueIs(value, 5, 5);
    MulIsProduct(value);
    SmallProduct(value, Mul64, 5, 0x23FF_C20B, 3, 29);
    SmallProduct(value, Mul64, 5, 0x3A80_4517, 3, 29);
    assert Mul64(5, 0x23FF_C20B) == 0xAC00_CA27 && Mul64(5, 0x3A80_4517) == 0xD081_514B;
    ProductDegree(5, t, 2, 29);
    ProductDegree(5, r, 2, 29);
    Quote4(value);
    EqualCrossProducts(d, e, 32, Product(5, t), Product(5, r), 31, 31);
    Exchange(d, 5, r);
    ProductComm(r, Product(5, d));
    ProductAssoc(5, d, r);
    ProductAssoc(5, t, e);
    ProductCancel(5, Product(d, r), Product(t, e));
  }

  /** The multiple `c` of the reduced pair is a quotient only if its own product says so. */
  lemma MultipleQuotes(value: bv64 -> nat, mul: Product64, d: nat, e: nat, c: bv64, t: bv64, r: bv64)
    requires IsValue(value) && IsProduct(value, mul) && Quotes(d, e, SHIFT) && value(c) < 8
    requires d == Product(value(0x23FF_C20B), value(c)) && e == Product(value(0x3A80_4517), value(c))
    requires t == mul(c, 0x23FF_C20B) && r == mul(c, 0x3A80_4517)
    ensures d == value(t) && e == value(r) && mul(t, ROOT) == r
  {
    Sizes4(value);
    SmallProduct(value, mul, c, 0x23FF_C20B, 3, 29);
    SmallProduct(value, mul, c, 0x3A80_4517, 3, 29);
    ProductComm(value(c), value(0x23FF_C20B));
    ProductComm(value(c), value(0x3A80_4517));
    Shifted(value, mul, t);
    ValueInjective(value, mul(t, ROOT), r);
  }

  lemma NoQuote1()
    ensures Mul64(1, 0x23FF_C20B) == 0x23FFC20B && Mul64(1, 0x3A80_4517) == 0x3A804517
    ensures Mul64(0x23FFC20B, ROOT) != 0x3A804517
  {
  }

  lemma NotMultiple1(value: bv64 -> nat, d: nat, e: nat)
    requires IsValue(value) && d == Product(value(0x23FF_C20B), 1) && e == Product(value(0x3A80_4517), 1)
    ensures !Quotes(d, e, SHIFT)
  {
    hide Mul64, Quotes, Product;
    NoQuote1();
    if Quotes(d, e, SHIFT) {
      ValueIs(value, 1, 1);
      MulIsProduct(value);
      MultipleQuotes(value, Mul64, d, e, 1, 0x23FFC20B, 0x3A804517);
    }
  }

  lemma NoQuote2()
    ensures Mul64(2, 0x23FF_C20B) == 0x47FF8416 && Mul64(2, 0x3A80_4517) == 0x75008A2E
    ensures Mul64(0x47FF8416, ROOT) != 0x75008A2E
  {
  }

  lemma NotMultiple2(value: bv64 -> nat, d: nat, e: nat)
    requires IsValue(value) && d == Product(value(0x23FF_C20B), 2) && e == Product(value(0x3A80_4517), 2)
    ensures !Quotes(d, e, SHIFT)
  {
    hide Mul64, Quotes, Product;
    NoQuote2();
    if Quotes(d, e, SHIFT) {
      ValueIs(value, 2, 2);
      MulIsProduct(value);
      MultipleQuotes(value, Mul64, d, e, 2, 0x47FF8416, 0x75008A2E);
    }
  }

  lemma NoQuote3()
    ensures Mul64(3, 0x23FF_C20B) == 0x6400461D && Mul64(3, 0x3A80_4517) == 0x4F80CF39
    ensures Mul64(0x6400461D, ROOT) != 0x4F80CF39
  {
  }

  lemma NotMultiple3(value: bv64 -> nat, d: nat, e: nat)
    requires IsValue(value) && d == Product(value(0x23FF_C20B), 3) && e == Product(value(0x3A80_4517), 3)
    ensures !Quotes(d, e, SHIFT)
  {
    hide Mul64, Quotes, Product;
    NoQuote3();
    if Quotes(d, e, SHIFT) {
      ValueIs(value, 3, 3);
      MulIsProduct(value);
      MultipleQuotes(value, Mul64, d, e, 3, 0x6400461D, 0x4F80CF39);
    }
  }

  lemma NoQuote4()
    ensures Mul64(4, 0x23FF_C20B) == 0x8FFF082C && Mul64(4, 0x3A80_4517) == 0xEA01145C
    ensures Mul64(0x8FFF082C, ROOT) != 0xEA01145C
  {
  }

  lemma NotMultiple4(value: bv64 -> nat, d: nat, e: nat)
    requires IsValue(value) && d == Product(value(0x23FF_C20B), 4) && e == Product(value(0x3A80_4517), 4)
    ensures !Quotes(d, e, SHIFT)
  {
    hide Mul64, Quotes, Product;
    NoQuote4();
    if Quotes(d, e, SHIFT) {
      ValueIs(value, 4, 4);
      MulIsProduct(value);
      MultipleQuotes(value, Mul64, d, e, 4, 0x8FFF082C, 0xEA01145C);
    }
  }

  lemma NoQuote6()
    ensures Mul64(6, 0x23FF_C20B) == 0xC8008C3A && Mul64(6, 0x3A80_4517) == 0x9F019E72
    ensures Mul64(0xC8008C3A, ROOT) != 0x9F019E72
  {
  }

  lemma NotMultiple6(value: bv64 -> nat, d: nat, e: nat)
    requires IsValue(value) && d == Product(value(0x23FF_C20B), 6) && e == Product(value(0x3A80_4517), 6)
    ensures !Quotes(d, e, SHIFT)
  {
    hide Mul64, Quotes, Product;
    NoQuote6();
    if Quotes(d, e, SHIFT) {
      ValueIs(value, 6, 6);
      MulIsProduct(value);
      MultipleQuotes(value, Mul64, d, e, 6, 0xC8008C3A, 0x9F019E72);
    }
  }

  lemma NoQuote7()
    ensures Mul64(7, 0x23FF_C20B) == 0xEBFF4E31 && Mul64(7, 0x3A80_4517) == 0xA581DB65
    ensures Mul64(0xEBFF4E31, ROOT) != 0xA581DB65
  {
  }

  lemma NotMultiple7(value: bv64 -> nat, d: nat, e: nat)
    requires IsValue(value) && d == Product(value(0x23FF_C20B), 7) && e == Product(value(0x3A80_4517), 7)
    ensures !Quotes(d, e, SHIFT)
  {
    hide Mul64, Quotes, Product;
    NoQuote7();
    if Quotes(d, e, SHIFT) {
      ValueIs(value, 7, 7);
      MulIsProduct(value);
      MultipleQuotes(value, Mul64, d, e, 7, 0xEBFF4E31, 0xA581DB65);
    }
  }

  lemma Fits4(value: bv64 -> nat, d: nat, e: nat)
    requires IsValue(value) && Fits(d, e, 32)
    ensures (d == 0 && e == 0) || IsEscape4(d, e)
  {
    var m := Multiple4(value, d, e);
    if m == 0 {
      ProductZero(value(0x23FF_C20B));
      ProductZero(value(0x3A80_4517));
    } else if m == 5 {
      ValueIs(value, 5, 5);
      MulIsProduct(value);
      MultipleQuotes(value, Mul64, d, e, 5, 0xAC00_CA27, 0xD081_514B);
      Values4(value);
    } else {
      OtherMultiples(value, d, e, m);
    }
  }

  lemma {:induction false} OtherMultiples(value: bv64 -> nat, d: nat, e: nat, m: nat)
    requires IsValue(value) && m < 8 && m != 0 && m != 5
    requires d == Product(value(0x23FF_C20B), m) && e == Product(value(0x3A80_4517), m)
    ensures !Quotes(d, e, SHIFT)
  {
    if m == 1 {
      NotMultiple1(value, d, e);
    } else if m == 2 {
      NotMultiple2(value, d, e);
    } else if m == 3 {
      NotMultiple3(value, d, e);
    } else if m == 4 {
      NotMultiple4(value, d, e);
    } else if m == 6 {
      NotMultiple6(value, d, e);
    } else {
      NotMultiple7(value, d, e);
    }
  }

  // ---- the exact windows ----

  predicate IsEscape(d: nat, e: nat) {
    IsEscape2(d, e) || IsEscape4(d, e)
  }

  lemma MoreQuotes(value: bv64 -> nat)
    requires IsValue(value)
    ensures Quotes(value(0xE9D2), value(0x5D77_7059_5FE0), SHIFT)
    ensures Quotes(value(0x9D3B), value(0x73CC_C875_F010), SHIFT)
  {
    assert Mul64(0xE9D2, ROOT) == 0x5D77_7059_5FE0 && Mul64(0x9D3B, ROOT) == 0x73CC_C875_F010;
    MulIsProduct(value);
    Shifted(value, Mul64, 0xE9D2);
    Shifted(value, Mul64, 0x9D3B);
  }

  lemma EscapeQuotes2(value: bv64 -> nat, d: nat, e: nat)
    requires IsValue(value) && IsEscape2(d, e)
    ensures Quotes(d, e, SHIFT)
  {
    Values2(value);
    Quote2(value);
    MoreQuotes(value);
  }

  /** The escapes are quotients. */
  lemma EscapeQuotes(d: nat, e: nat)
    requires IsEscape(d, e)
    ensures Quotes(d, e, SHIFT)
  {
    ValueIsValue();
    if IsEscape2(d, e) {
      EscapeQuotes2(Value, d, e);
    } else {
      Values4(Value);
      Quote4(Value);
    }
  }

  /** In a window with `k` field bytes nothing but the escapes fits, and those only when k is 2 or 4. */
  lemma FitsExactly(d: nat, e: nat, k: nat)
    requires 1 <= k <= 7 && Fits(d, e, 8 * k)
    ensures (d == 0 && e == 0) || (k == 2 && IsEscape2(d, e)) || (k == 4 && IsEscape4(d, e))
  {
    hide Fits, Quotes, Pow2;
    ValueIsValue();
    match k
    case 1 => NothingFits8(Value, d, e);
    case 2 => Fits2(Value, d, e);
    case 3 => NothingFits24(Value, d, e);
    case 4 => Fits4(Value, d, e);
    case 5 => NothingFits40(Value, d, e);
    case 6 => NothingFits48(Value, d, e);
    case 7 => NothingFits56(Value, d, e);
  }
}
