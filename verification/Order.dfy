/** The order of x modulo the generator is exactly 8589606914: x^m is 1 if and only if that number
    divides m. Thirty-six products of concrete polynomials show that this power is 1 and that none
    of its five maximal divisors gives 1. */
module Order {
  import opened Words
  import opened Counting
  import opened Crc
  import opened Galois
  import opened BitVectors

  const ORDER: nat := 8_589_606_914

  /** x^e modulo the generator. */
  function Power(e: nat): nat {
    Rem(ShiftUp(1, e))
  }

  // ---- powers of x ----

  lemma PowerSum(a: nat, b: nat)
    ensures Power(a + b) == Rem(Product(Power(a), Power(b)))
  {
    RemProduct(Power(a), ShiftUp(1, b));
    ProductShift(Power(a), 1, b);
    ProductOne(Power(a));
    RemShift(ShiftUp(1, a), b);
    ShiftUpAdd(1, a, b);
  }

  lemma ZerothPower(e: nat)
    requires e == 0
    ensures Power(e) == 1
  {
    RemSmall(1);
  }

  /** Adding an exponent that gives 1 changes nothing. */
  lemma OneAdded(a: nat, b: nat)
    requires Power(a) == 1
    ensures Power(a + b) == Power(b)
  {
    PowerSum(a, b);
    ProductOne(Power(b));
    RemBound(ShiftUp(1, b));
    RemSmall(Power(b));
  }

  lemma {:induction false} OneMultiplied(a: nat, q: nat)
    requires Power(a) == 1
    ensures Power(a * q) == 1
  {
    hide Power;
    if q == 0 {
      ZerothPower(a * q);
    } else {
      OneMultiplied(a, q - 1);
      OneAdded(a, a * (q - 1));
      OneMore(a, q);
    }
  }

  lemma OneMore(a: nat, q: nat)
    requires q != 0
    ensures a + a * (q - 1) == a * q
  {
  }

  lemma Rest(a: nat, b: nat, q: nat, c: nat)
    requires Power(a) == 1 && Power(c) == 1 && c == a * q + b
    ensures Power(b) == 1
  {
    OneMultiplied(a, q);
    OneAdded(a * q, b);
  }

  predicate Divides(p: nat, d: nat, q: nat) { d * q == p }

  ghost predicate Prime(p: nat) {
    forall d, q :: Divides(p, d, q) ==> d == 1 || d == p
  }

  /** If the n-th power has prime order p and one of its smaller powers is 1, it is 1. */
  lemma {:induction false} SmallerExponent(n: nat, s: nat, p: nat)
    requires 1 <= s < p && Prime(p) && Power(n * p) == 1 && Power(n * s) == 1
    ensures Power(n) == 1
    decreases s
  {
    var q, r := p / s, p % s;
    Distribute(n, s, q, r, p);
    Rest(n * s, n * r, q, n * p);
    if r == 0 {
      assert Divides(p, s, q);
    } else {
      SmallerExponent(n, r, p);
    }
  }

  lemma Distribute(n: nat, s: nat, q: nat, r: nat, p: nat)
    requires p == s * q + r
    ensures n * p == n * s * q + n * r
  {
  }

  /** A prime p divides every exponent that gives 1 if p * n gives 1 and n does not. */
  lemma PrimeDivides(n: nat, p: nat, m: nat)
    requires p != 0 && Prime(p) && Power(n * p) == 1 && Power(n) != 1 && Power(m) == 1
    ensures m % p == 0
  {
    hide Power, Prime;
    var q, s := DivideBy(m, p);
    OneMultiplied(m, n);
    Swapped(m, n);
    Distribute(n, p, q, s, m);
    Rest(n * p, n * s, q, n * m);
    if s != 0 {
      SmallerExponent(n, s, p);
    }
  }

  lemma Swapped(a: nat, b: nat)
    ensures a * b == b * a
  {
  }

  lemma DivideBy(m: nat, p: nat) returns (q: nat, s: nat)
    requires p != 0
    ensures m == p * q + s && s == m % p < p
  {
    q, s := m / p, m % p;
  }

  /** Powers that agree differ by an exponent that gives 1. */
  lemma PowersAgree(a: nat, k: nat)
    ensures Power(a + k) == Power(k) <==> Power(a) == 1
  {
    if Power(a + k) == Power(k) {
      var d := Xor(ShiftUp(1, a), 1);
      ShiftUpXor(ShiftUp(1, a), 1, k);
      ShiftUpAdd(1, a, k);
      RemXor(ShiftUp(1, a + k), ShiftUp(1, k));
      XorSelf(Power(k));
      ShiftedNonzero(d, k);
      RemXor(ShiftUp(1, a), 1);
      RemSmall(1);
      XorCancel(Power(a), 1);
    } else if Power(a) == 1 {
      OneAdded(a, k);
    }
  }

  /** A shift makes no polynomial a multiple of the generator. */
  lemma {:induction false} ShiftedNonzero(d: nat, k: nat)
    ensures Rem(ShiftUp(d, k)) == 0 <==> Rem(d) == 0
  {
    RemShift(d, k);
    RemBound(d);
    if Rem(d) == 0 {
      ShiftUpZero(k);
    } else {
      BurstSurvives(Rem(d), k);
    }
  }

  // ---- primes ----

  /** Trial division. */
  lemma NoSmallDivisor(p: nat, s: nat)
    requires 2 <= p < s * s
    requires forall d, q :: 2 <= d < s ==> !Divides(p, d, q)
    ensures Prime(p)
  {
    forall d, q | Divides(p, d, q)
      ensures d == 1 || d == p
    {
      assert Divides(p, q, d);
      SmallFactor(d, q, s);
    }
  }

  lemma SmallFactor(d: nat, q: nat, s: nat)
    requires d * q < s * s
    ensures d < s || q < s
  {
    if s <= d && s <= q {
      ProductMono(s, d, s);
      ProductMono(s, q, d);
    }
  }

  lemma Trial(p: nat, d: nat, q: nat)
    requires (2 <= d < 3 && p == 7) || (2 <= d < 6 && p == 31)
      || (2 <= d < 13 && p == 151) || (2 <= d < 363 && p == 131071)
    ensures !Divides(p, d, q)
  {
  }

  lemma PrimeFactor(p: nat)
    requires p in {2, 7, 31, 151, 131071}
    ensures Prime(p)
  {
    var s := if p == 2 then 2 else if p == 7 then 3 else if p == 31 then 6 else if p == 151 then 13 else 363;
    forall d, q | 2 <= d < s
      ensures !Divides(p, d, q)
    {
      Trial(p, d, q);
    }
    NoSmallDivisor(p, s);
  }

  /** Coprime divisors multiply. */
  lemma CoprimeDivisors(m: nat, a: nat, b: nat, u: nat, v: nat)
    requires a != 0 && b != 0 && m % a == 0 && m % b == 0 && u * a == v * b + 1
    ensures m % (a * b) == 0
  {
    var i, j := m / a, m / b;
    Combine(m, a, b, u, v, i, j);
    MultipleOf(m, a * b, u * j - v * i);
  }

  lemma Combine(m: int, a: int, b: int, u: int, v: int, i: int, j: int)
    requires m == a * i && m == b * j && u * a == v * b + 1
    ensures m == a * b * (u * j - v * i)
  {
    assert a * b * (u * j) == u * a * m;
    assert a * b * (v * i) == v * b * m;
    assert u * a * m == v * b * m + m;
  }

  lemma Negative(n: nat, j: int)
    requires n > 0 && j < 0
    ensures n * j < 0
  {
  }

  lemma MultipleOf(m: nat, n: nat, k: int)
    requires n > 0 && m == n * k
    ensures m % n == 0
  {
    var j := k - m / n;
    assert m % n == n * j by {
      assert n * k == n * (m / n) + n * j;
    }
    if j >= 1 {
      ProductMono(1, j, n);
    } else if j <= -1 {
      Negative(n, j);
    }
  }

  lemma AllDivide(m: nat)
    requires m % 2 == 0 && m % 7 == 0 && m % 31 == 0 && m % 151 == 0 && m % 131071 == 0
    ensures m % ORDER == 0
  {
    CoprimeDivisors(m, 2, 7, 4, 1);
    CoprimeDivisors(m, 14, 31, 20, 9);
    CoprimeDivisors(m, 434, 151, 143, 411);
    CoprimeDivisors(m, 131071, 65534, 21845, 43691);
  }

  // ---- products of concrete polynomials ----

  function Square(w: bv64): bv64 { Mul64(w, w) }
  function Raise(w: bv64): bv64 { Times1(Square(w)) }

  const X63: bv64 := 0x8000_0000_0000_0000
  const X127: bv64 := 0x02FA_E1E3_F5A9_7D5B
  const X255: bv64 := 0x8AF5_87F0_C5CA_67DC
  const X511: bv64 := 0x2FB4_21E5_2A06_F810
  const X1023: bv64 := 0x02E7_BCEF_54D6_1BEB
  const X2047: bv64 := 0x9ED1_4478_E49B_F8CF
  const X4095: bv64 := 0x0E37_FDA2_F18F_50C2
  const X8191: bv64 := 0x279D_5D92_7824_EEDB
  const X16383: bv64 := 0x56BD_596D_9F98_142F
  const X32767: bv64 := 0x6F50_11E9_BD07_66C1
  const X65535: bv64 := 0x8AB9_D96F_61C3_B05C
  const X131071: bv64 := 0x676F_961F_B2DB_ECA6

  /** The power 131071, squared k times. */
  const Z0: bv64 := X131071
  const Z1: bv64 := 0x9B02_04DE_DE3A_D22B
  const Z2: bv64 := 0x5B2B_6704_2CDB_D28C
  const Z3: bv64 := 0xA2F7_CACF_4056_5B5D
  const Z4: bv64 := 0xFE05_3851_AB38_CFD4
  const Z5: bv64 := 0x636D_5F2D_B24A_ADB4
  const Z6: bv64 := 0x2D03_6322_932C_1A9B
  const Z7: bv64 := 0xA252_D908_8983_3A32
  const Z8: bv64 := 0x9AAC_637B_FC83_A2B3
  const Z9: bv64 := 0xE74B_661F_D330_70CA
  const Z10: bv64 := 0x68FC_C1BE_B57D_DDC9
  const Z11: bv64 := 0xC22A_63DF_C8F1_7F75
  const Z12: bv64 := 0xE9A5_7ED4_E077_580F
  const Z13: bv64 := 0xCC9A_E4C5_6CC5_3DA3
  const Z14: bv64 := 0x2DF8_EF34_CD8A_11E7
  const Z15: bv64 := 0xA6C0_36B9_2A7D_FED7

  lemma Raised1()
    ensures Raise(X63) == X127 && Raise(X127) == X255
    ensures Raise(X255) == X511 && Raise(X511) == X1023
  {
  }

  lemma Raised2()
    ensures Raise(X1023) == X2047 && Raise(X2047) == X4095
    ensures Raise(X4095) == X8191 && Raise(X8191) == X16383
  {
  }

  lemma Raised3()
    ensures Raise(X16383) == X32767 && Raise(X32767) == X65535
    ensures Raise(X65535) == X131071 && Square(X32767) == 0x455C_ECB7_B0E1_D82E
  {
  }

  lemma Squared1()
    ensures Square(Z0) == Z1 && Square(Z1) == Z2
    ensures Square(Z2) == Z3 && Square(Z3) == Z4
  {
  }

  lemma Squared2()
    ensures Square(Z4) == Z5 && Square(Z5) == Z6
    ensures Square(Z6) == Z7 && Square(Z7) == Z8
  {
  }

  lemma Squared3()
    ensures Square(Z8) == Z9 && Square(Z9) == Z10
    ensures Square(Z10) == Z11 && Square(Z11) == Z12
  {
  }

  lemma Squared4()
    ensures Square(Z12) == Z13 && Square(Z13) == Z14
    ensures Square(Z14) == Z15 && Square(Z15) == Z1
  {
  }

  lemma Products7()
    ensures Mul64(Z1, Z4) == 0xAC4F_1147_49D2_C78E && Mul64(Z7, Z10) == 0x1FEE_1443_6007_E91F
  {
  }

  lemma MoreProducts7()
    ensures Mul64(0xAC4F_1147_49D2_C78E, 0x1FEE_1443_6007_E91F) == 0x08EC_705B_6BC6_F563
    ensures Mul64(0x08EC_705B_6BC6_F563, Z13) == 0x7FA8_9A0A_C183_D672
  {
  }

  lemma Products31()
    ensures Mul64(Z1, Z6) == 0x8EAD_22CC_F387_F6A0 && Mul64(0x8EAD_22CC_F387_F6A0, Z11) == 0xE761_EB14_9A78_AD92
  {
  }

  lemma Products151()
    ensures Mul64(Z1, Z2) == 0xFB34_18B8_25B9_757D && Mul64(Z7, Z11) == 0xD98B_A349_1FB2_DE42
  {
  }

  // ---- what the products say ----

  /** `w` is the e-th power. */
  ghost predicate At(value: bv64 -> nat, w: bv64, e: nat) {
    value(w) == Power(e)
  }

  lemma Multiplied(value: bv64 -> nat, v: bv64, a: nat, w: bv64, b: nat)
    requires IsValue(value) && At(value, v, a) && At(value, w, b)
    ensures At(value, Mul64(v, w), a + b)
  {
    hide Mul64;
    MulIsProduct(value);
    assert ProductAt(value, Mul64, v, w);
    PowerSum(a, b);
  }

  lemma Squares(value: bv64 -> nat, w: bv64, e: nat)
    requires IsValue(value) && At(value, w, e)
    ensures At(value, Square(w), e + e)
  {
    hide Mul64;
    Multiplied(value, w, e, w, e);
  }

  lemma Raises(value: bv64 -> nat, w: bv64, e: nat)
    requires IsValue(value) && At(value, w, e)
    ensures At(value, Raise(w), e + e + 1)
  {
    hide Square, Times1;
    Squares(value, w, e);
    TimesIsDouble(value, Square(w));
    RemShift(ShiftUp(1, e + e), 1);
    ShiftUpAdd(1, e + e, 1);
  }

  lemma FirstPower(value: bv64 -> nat, e: nat)
    requires IsValue(value) && e == 63
    ensures At(value, X63, e)
  {
    ValueOfTop(value);
    ShiftUpIsProduct(1, e);
    Pow2Of64();
    RemSmall(ShiftUp(1, e));
  }

  lemma FirstRaises(value: bv64 -> nat)
    requires IsValue(value)
    ensures At(value, X16383, 16383)
  {
    hide Raise, Power;
    FirstPower(value, 63);
    Raised1();
    Raises(value, X63, 63);
    Raises(value, X127, 127);
    Raises(value, X255, 255);
    Raises(value, X511, 511);
    Raised2();
    Raises(value, X1023, 1023);
    Raises(value, X2047, 2047);
    Raises(value, X4095, 4095);
    Raises(value, X8191, 8191);
  }

  lemma LastRaises(value: bv64 -> nat)
    requires IsValue(value)
    ensures At(value, Z0, 131071) && At(value, 0x455C_ECB7_B0E1_D82E, 65534)
  {
    hide Raise, Square, Power;
    FirstRaises(value);
    Raised3();
    Raises(value, X16383, 16383);
    Raises(value, X32767, 32767);
    Raises(value, X65535, 65535);
    Squares(value, X32767, 32767);
  }

  /** The powers 131071 * 2^k for k up to 8. */
  lemma FirstSquares(value: bv64 -> nat)
    requires IsValue(value)
    ensures At(value, Z1, 262142) && At(value, Z2, 524284) && At(value, Z4, 2097136)
    ensures At(value, Z6, 8388544) && At(value, Z7, 16777088) && At(value, Z8, 33554176)
  {
    hide Square, Power;
    LastRaises(value);
    Squared1();
    Squares(value, Z0, 131071);
    Squares(value, Z1, 262142);
    Squares(value, Z2, 524284);
    Squares(value, Z3, 1048568);
    Squared2();
    Squares(value, Z4, 2097136);
    Squares(value, Z5, 4194272);
    Squares(value, Z6, 8388544);
    Squares(value, Z7, 16777088);
  }

  lemma LastSquares(value: bv64 -> nat)
    requires IsValue(value)
    ensures At(value, Z10, 134216704) && At(value, Z11, 268433408) && At(value, Z13, 1073733632)
    ensures At(value, Z15, 4294934528) && At(value, Z1, 8589869056)
  {
    hide Square, Power;
    FirstSquares(value);
    Squared3();
    Squares(value, Z8, 33554176);
    Squares(value, Z9, 67108352);
    Squares(value, Z10, 134216704);
    Squares(value, Z11, 268433408);
    Squared4();
    Squares(value, Z12, 536866816);
    Squares(value, Z13, 1073733632);
    Squares(value, Z14, 2147467264);
    Squares(value, Z15, 4294934528);
  }

  /** Sixteen squarings give the first square again, so the difference of the exponents gives 1. */
  lemma OrderIsOne(value: bv64 -> nat)
    requires IsValue(value)
    ensures Power(ORDER) == 1
  {
    hide Power;
    FirstSquares(value);
    LastSquares(value);
    PowersAgree(ORDER, 262142);
  }

  lemma NotOne(value: bv64 -> nat, w: bv64, e: nat)
    requires IsValue(value) && At(value, w, e) && w != 1
    ensures Power(e) != 1
  {
    ValueIs(value, 1, 1);
    if Power(e) == 1 {
      ValueInjective(value, w, 1);
    }
  }

  lemma NotEqual(value: bv64 -> nat, v: bv64, a: nat, w: bv64, b: nat)
    requires IsValue(value) && At(value, v, a + b) && At(value, w, b) && v != w
    ensures Power(a) != 1
  {
    PowersAgree(a, b);
    if Power(a) == 1 {
      ValueInjective(value, v, w);
    }
  }

  lemma WithoutLargePrime(value: bv64 -> nat)
    requires IsValue(value)
    ensures Power(65534) != 1
  {
    hide Power;
    LastRaises(value);
    NotOne(value, 0x455C_ECB7_B0E1_D82E, 65534);
  }

  lemma WithoutTwo(value: bv64 -> nat)
    requires IsValue(value)
    ensures Power(4294803457) != 1
  {
    hide Power;
    LastRaises(value);
    LastSquares(value);
    NotEqual(value, Z15, 4294803457, Z0, 131071);
  }

  lemma WithoutSeven(value: bv64 -> nat)
    requires IsValue(value)
    ensures Power(1227086702) != 1
  {
    hide Mul64, Power;
    FirstSquares(value);
    LastSquares(value);
    Products7();
    MoreProducts7();
    Multiplied(value, Z1, 262142, Z4, 2097136);
    Multiplied(value, Z7, 16777088, Z10, 134216704);
    Multiplied(value, 0xAC4F_1147_49D2_C78E, 2359278, 0x1FEE_1443_6007_E91F, 150993792);
    Multiplied(value, 0x08EC_705B_6BC6_F563, 153353070, Z13, 1073733632);
    NotOne(value, 0x7FA8_9A0A_C183_D672, 1227086702);
  }

  lemma Without31(value: bv64 -> nat)
    requires IsValue(value)
    ensures Power(277084094) != 1
  {
    hide Mul64, Power;
    FirstSquares(value);
    LastSquares(value);
    Products31();
    Multiplied(value, Z1, 262142, Z6, 8388544);
    Multiplied(value, 0x8EAD_22CC_F387_F6A0, 8650686, Z11, 268433408);
    NotOne(value, 0xE761_EB14_9A78_AD92, 277084094);
  }

  lemma Without151(value: bv64 -> nat)
    requires IsValue(value)
    ensures Power(56884814) != 1
  {
    hide Mul64, Power;
    FirstSquares(value);
    LastSquares(value);
    Products151();
    Multiplied(value, Z1, 262142, Z2, 524284);
    Multiplied(value, Z7, 16777088, Z11, 268433408);
    NotEqual(value, 0xD98B_A349_1FB2_DE42, 284424070, 0xFB34_18B8_25B9_757D, 786426);
    if Power(56884814) == 1 {
      OneMultiplied(56884814, 5);
    }
  }

  // ---- the order ----

  lemma EveryPrimeDivides(value: bv64 -> nat, m: nat)
    requires IsValue(value) && Power(m) == 1
    ensures m % 2 == 0 && m % 7 == 0 && m % 31 == 0 && m % 151 == 0 && m % 131071 == 0
  {
    hide Power, Prime;
    OrderIsOne(value);
    forall p | p in {2, 7, 31, 151, 131071}
      ensures Prime(p)
    {
      PrimeFactor(p);
    }
    WithoutTwo(value);
    PrimeDivides(4294803457, 2, m);
    WithoutSeven(value);
    PrimeDivides(1227086702, 7, m);
    Without31(value);
    PrimeDivides(277084094, 31, m);
    Without151(value);
    PrimeDivides(56884814, 151, m);
    WithoutLargePrime(value);
    PrimeDivides(65534, 131071, m);
  }

  lemma OrderOfPower(value: bv64 -> nat, m: nat)
    requires IsValue(value)
    ensures Power(m) == 1 <==> m % ORDER == 0
  {
    hide Power;
    if Power(m) == 1 {
      EveryPrimeDivides(value, m);
      AllDivide(m);
    }
    if m % ORDER == 0 {
      OrderIsOne(value);
      OneMultiplied(ORDER, m / ORDER);
    }
  }

  /** x^m is 1 modulo the generator exactly when 8589606914 divides m. */
  lemma {:induction false} OrderOfX(m: nat)
    ensures Rem(ShiftUp(1, m)) == 1 <==> m % ORDER == 0
  {
    ValueIsValue();
    OrderOfPower(Value, m);
  }
}
