/** Polynomials of degree below 64 as machine bit vectors, so that concrete products and remainders can
    be computed inside a proof. Numbers, shifts and products of four bits are single expressions; those
    of 8 to 64 bits are composed from halves without recursion, and one lemma about doubling the width
    proves them all. */
module BitVectors {
  import opened Words
  import opened Crc
  import opened Galois

  const POLY: bv64 := 0x42F0_E1EB_A9EA_3693
  const TOP: bv64 := 0x8000_0000_0000_0000

  function Digit(b: bool): (d: nat)
    ensures d < 2
  {
    if b then 1 else 0
  }

  // ---- the polynomial of a bit vector ----

  function Value(w: bv64): nat
    decreases w
  {
    if w == 0 then 0 else Digit(w & 1 == 1) + 2 * Value(w >> 1)
  }

  /** `value` is `Value`; as a parameter it unfolds only where `Unfolds` says so. */
  ghost predicate IsValue(value: bv64 -> nat) {
    forall w :: Unfolds(value, w)
  }

  predicate Unfolds(value: bv64 -> nat, w: bv64) {
    value(w) == Digit(w & 1 == 1) + 2 * value(w >> 1)
  }

  lemma ValueIsValue()
    ensures IsValue(Value)
  {
    forall w
      ensures Unfolds(Value, w)
    {
    }
  }

  lemma XorBits(a: bv64, b: bv64)
    ensures (a ^ b) >> 1 == (a >> 1) ^ (b >> 1)
    ensures ((a ^ b) & 1 == 1) == ((a & 1 == 1) != (b & 1 == 1))
  {
  }

  lemma OrBits(a: bv64, b: bv64)
    ensures (a >> 1) | (b >> 1) == (a | b) >> 1
    ensures a | b == 0 ==> a == 0 && b == 0 && a ^ b == 0
  {
  }

  lemma HalfIsLess(w: bv64)
    requires w != 0
    ensures w >> 1 < w
  {
  }

  lemma ValueOfZero(value: bv64 -> nat)
    requires IsValue(value)
    ensures value(0) == 0
  {
    assert Unfolds(value, 0);
  }

  lemma UnfoldXor(value: bv64 -> nat, a: bv64, b: bv64)
    requires IsValue(value)
    ensures value(a ^ b) == Digit((a & 1 == 1) != (b & 1 == 1)) + 2 * value((a >> 1) ^ (b >> 1))
  {
    XorBits(a, b);
    assert Unfolds(value, a ^ b);
  }

  lemma UnfoldOne(value: bv64 -> nat, a: bv64)
    requires IsValue(value)
    ensures value(a) == Digit(a & 1 == 1) + 2 * value(a >> 1)
  {
    assert Unfolds(value, a);
  }

  lemma {:induction false} XorOfHalves(a: nat, b: nat, c: nat, x: nat, y: nat, z: nat, p: bool, q: bool)
    requires a == Digit(p) + 2 * x && b == Digit(q) + 2 * y && c == Digit(p != q) + 2 * z && z == Xor(x, y)
    ensures c == Xor(a, b)
  {
    XorHorner(a, b, x, y, Digit(p), Digit(q), Digit(p != q));
  }

  lemma XorFromHalves(value: bv64 -> nat, a: bv64, b: bv64)
    requires IsValue(value) && value((a >> 1) ^ (b >> 1)) == Xor(value(a >> 1), value(b >> 1))
    ensures value(a ^ b) == Xor(value(a), value(b))
  {
    UnfoldOne(value, a);
    UnfoldOne(value, b);
    UnfoldXor(value, a, b);
    XorOfHalves(value(a), value(b), value(a ^ b), value(a >> 1), value(b >> 1), value((a >> 1) ^ (b >> 1)),
                a & 1 == 1, b & 1 == 1);
  }

  lemma {:induction false} ValueXor(value: bv64 -> nat, a: bv64, b: bv64)
    requires IsValue(value)
    ensures value(a ^ b) == Xor(value(a), value(b))
    decreases a | b
  {
    OrBits(a, b);
    if a | b == 0 {
      ValueOfZero(value);
      XorZero(0);
    } else {
      HalfIsLess(a | b);
      ValueXor(value, a >> 1, b >> 1);
      XorFromHalves(value, a, b);
    }
  }

  lemma ValueDouble(value: bv64 -> nat, w: bv64)
    requires IsValue(value) && w & TOP == 0
    ensures value(w << 1) == 2 * value(w)
  {
    assert Unfolds(value, w << 1);
    assert (w << 1) >> 1 == w && (w << 1) & 1 == 0;
  }

  // ---- different bit vectors have different polynomials ----

  lemma {:induction false} ValueNonzero(value: bv64 -> nat, w: bv64)
    requires IsValue(value) && w != 0
    ensures value(w) != 0
    decreases w
  {
    UnfoldOne(value, w);
    if w & 1 == 0 {
      HalfIsLess(w);
      EvenHalf(w);
      ValueNonzero(value, w >> 1);
    }
  }

  lemma EvenHalf(w: bv64)
    requires w != 0 && w & 1 == 0
    ensures w >> 1 != 0
  {
  }

  lemma ValueInjective(value: bv64 -> nat, a: bv64, b: bv64)
    requires IsValue(value) && value(a) == value(b)
    ensures a == b
  {
    ValueXor(value, a, b);
    XorSelf(value(a));
    if a ^ b != 0 {
      ValueNonzero(value, a ^ b);
    }
    XorIsZero(a, b);
  }

  lemma XorIsZero(a: bv64, b: bv64)
    ensures a ^ b == 0 ==> a == b
  {
  }

  // ---- numbers, shifts and products of 4, 8, 16, 32 and 64 bits ----

  function Num4(w: bv64): nat {
    (if w & 1 != 0 then 1 else 0) + (if (w >> 1) & 1 != 0 then 2 else 0)
    + (if (w >> 2) & 1 != 0 then 4 else 0) + (if (w >> 3) & 1 != 0 then 8 else 0)
  }
  function Num8(w: bv64): nat { Num4(w) + 0x10 * Num4(w >> 4) }
  function Num16(w: bv64): nat { Num8(w) + 0x100 * Num8(w >> 8) }
  function Num32(w: bv64): nat { Num16(w) + 0x1_0000 * Num16(w >> 16) }
  function Num64(w: bv64): nat { Num32(w) + 0x1_0000_0000 * Num32(w >> 32) }

  /** The low four bits of `h` times x^64 modulo the generator. */
  function Fold(h: bv64): bv64 {
    (if h & 1 != 0 then POLY else 0) ^ (if (h >> 1) & 1 != 0 then POLY2 else 0)
    ^ (if (h >> 2) & 1 != 0 then POLY4 else 0) ^ (if (h >> 3) & 1 != 0 then POLY8 else 0)
  }

  const POLY2: bv64 := 0x85E1_C3D7_53D4_6D26
  const POLY4: bv64 := 0x4933_6645_0E42_ECDF
  const POLY8: bv64 := 0x9266_CC8A_1C85_D9BE

  /** Multiplication by x, x^4, x^8, ... modulo the generator. */
  function Times1(d: bv64): bv64 { if d & TOP != 0 then (d << 1) ^ POLY else d << 1 }
  function Times4(d: bv64): bv64 { (d << 4) ^ Fold(d >> 60) }
  function Times8(d: bv64): bv64 { Times4(Times4(d)) }
  function Times16(d: bv64): bv64 { Times8(Times8(d)) }
  function Times32(d: bv64): bv64 { Times16(Times16(d)) }
  function Times64(d: bv64): bv64 { Times32(Times32(d)) }

  /** The low 64 coefficients of `d` times the low four bits of `q`, and those above. */
  function LowTerms(q: bv64, d: bv64): bv64 {
    (if q & 1 != 0 then d else 0) ^ (if (q >> 1) & 1 != 0 then d << 1 else 0)
    ^ (if (q >> 2) & 1 != 0 then d << 2 else 0) ^ (if (q >> 3) & 1 != 0 then d << 3 else 0)
  }

  function HighTerms(q: bv64, d: bv64): bv64 {
    (if q & 1 != 0 then 0 else 0) ^ (if (q >> 1) & 1 != 0 then d >> 63 else 0)
    ^ (if (q >> 2) & 1 != 0 then d >> 62 else 0) ^ (if (q >> 3) & 1 != 0 then d >> 61 else 0)
  }

  /** Multiplication by the low 4, 8, 16, 32, 64 bits of `q` modulo the generator. */
  function Mul4(q: bv64, d: bv64): bv64 { LowTerms(q, d) ^ Fold(HighTerms(q, d)) }
  function Mul8(q: bv64, d: bv64): bv64 { Mul4(q, d) ^ Mul4(q >> 4, Times4(d)) }
  function Mul16(q: bv64, d: bv64): bv64 { Mul8(q, d) ^ Mul8(q >> 8, Times8(d)) }
  function Mul32(q: bv64, d: bv64): bv64 { Mul16(q, d) ^ Mul16(q >> 16, Times16(d)) }
  function Mul64(q: bv64, d: bv64): bv64 { Mul32(q, d) ^ Mul32(q >> 32, Times32(d)) }

  function Shr4(w: bv64): bv64 { w >> 4 }
  function Shr8(w: bv64): bv64 { w >> 8 }
  function Shr16(w: bv64): bv64 { w >> 16 }
  function Shr32(w: bv64): bv64 { w >> 32 }
  function Shr64(w: bv64): bv64 { 0 }

  type Product64 = (bv64, bv64) -> bv64

  predicate NumAt(value: bv64 -> nat, k: nat, num: bv64 -> nat, shr: bv64 -> bv64, w: bv64) {
    num(w) == Low(value(w), k) && value(shr(w)) == Shr(value(w), k)
  }

  predicate TimesAt(value: bv64 -> nat, k: nat, times: bv64 -> bv64, d: bv64) {
    value(times(d)) == Rem(ShiftUp(value(d), k))
  }

  predicate MulAt(value: bv64 -> nat, k: nat, mul: Product64, q: bv64, d: bv64) {
    value(mul(q, d)) == Rem(Product(Low(value(q), k), value(d)))
  }

  /** Numbers and shifts mean what they should at width `k`. */
  ghost predicate NumLevel(value: bv64 -> nat, k: nat, num: bv64 -> nat, shr: bv64 -> bv64) {
    forall w :: NumAt(value, k, num, shr, w)
  }

  /** So do multiples and products. */
  ghost predicate MulLevel(value: bv64 -> nat, k: nat, times: bv64 -> bv64, mul: Product64) {
    (forall d :: TimesAt(value, k, times, d)) && forall q, d :: MulAt(value, k, mul, q, d)
  }

  lemma {:induction false} LowSplit(w: nat, m: nat, n: nat)
    ensures Low(w, m + n) == Low(w, m) + ShiftUp(Low(Shr(w, m), n), m)
    ensures Shr(Shr(w, m), n) == Shr(w, m + n)
  {
    if m != 0 {
      LowSplit(w / 2, m - 1, n);
      assert Low(w, m + n) == w % 2 + 2 * Low(w / 2, m - 1 + n);
    }
  }

  /** Numbers, shifts, multiples and products of width 2k from those of width k. */
  lemma NumDoubles(v: nat, k: nat, lo: nat, hi: nat)
    requires lo == Low(v, k) && hi == Low(Shr(v, k), k)
    ensures Low(v, k + k) == lo + ShiftUp(hi, k) == Xor(lo, ShiftUp(hi, k))
  {
    LowSplit(v, k, k);
    LowBound(v, k);
    XorDisjoint(lo, hi, k);
  }

  lemma TimesDoubles(d: nat, t: nat, k: nat)
    requires t == Rem(ShiftUp(d, k))
    ensures Rem(ShiftUp(t, k)) == Rem(ShiftUp(d, k + k))
  {
    RemShift(ShiftUp(d, k), k);
    ShiftUpAdd(d, k, k);
  }

  lemma MulDoubles(q: nat, d: nat, t: nat, k: nat, lo: nat, hi: nat)
    requires lo == Low(q, k) && hi == Low(Shr(q, k), k) && t == Rem(ShiftUp(d, k))
    ensures Rem(Product(Low(q, k + k), d)) == Xor(Rem(Product(lo, d)), Rem(Product(hi, t)))
  {
    NumDoubles(q, k, lo, hi);
    XorProduct(lo, ShiftUp(hi, k), d);
    ProductComm(ShiftUp(hi, k), d);
    ProductShift(d, hi, k);
    ProductComm(d, hi);
    ProductShift(hi, d, k);
    RemProduct(hi, ShiftUp(d, k));
    RemXor(Product(lo, d), Product(hi, ShiftUp(d, k)));
  }

  lemma {:induction false} NumberDoubles(v: nat, w: nat, k: nat, k2: nat, lo: nat, hi: nat, n: nat, c: nat)
    requires lo == Low(v, k) && w == Shr(v, k) && hi == Low(w, k) && k2 == k + k
    requires c == Pow2(k) && n == lo + c * hi
    ensures n == Low(v, k2) && Shr(w, k) == Shr(v, k2)
  {
    NumDoubles(v, k, lo, hi);
    ShiftUpIsProduct(hi, k);
    LowSplit(v, k, k);
  }

  lemma {:induction false} NumAtDoubles(value: bv64 -> nat, k: nat, k2: nat, c: nat, num: bv64 -> nat,
                                        shr: bv64 -> bv64, num2: bv64 -> nat, shr2: bv64 -> bv64, w: bv64)
    requires NumAt(value, k, num, shr, w) && NumAt(value, k, num, shr, shr(w))
    requires c == Pow2(k) && k2 == k + k && num2(w) == num(w) + c * num(shr(w)) && shr2(w) == shr(shr(w))
    ensures NumAt(value, k2, num2, shr2, w)
  {
    NumberDoubles(value(w), value(shr(w)), k, k2, num(w), num(shr(w)), num2(w), c);
  }

  lemma MulAtDoubles(value: bv64 -> nat, k: nat, k2: nat, num: bv64 -> nat, shr: bv64 -> bv64, times: bv64 -> bv64,
                     mul: Product64, mul2: Product64, q: bv64, d: bv64)
    requires IsValue(value) && k2 == k + k && NumAt(value, k, num, shr, q) && TimesAt(value, k, times, d)
    requires MulAt(value, k, mul, q, d) && MulAt(value, k, mul, shr(q), times(d))
    requires mul2(q, d) == mul(q, d) ^ mul(shr(q), times(d))
    ensures MulAt(value, k2, mul2, q, d)
  {
    ValueXor(value, mul(q, d), mul(shr(q), times(d)));
    MulDoubles(value(q), value(d), value(times(d)), k, Low(value(q), k), Low(Shr(value(q), k), k));
  }

  lemma {:induction false} NumLevelDoubles(value: bv64 -> nat, k: nat, k2: nat, c: nat, num: bv64 -> nat,
                                           shr: bv64 -> bv64, num2: bv64 -> nat, shr2: bv64 -> bv64)
    requires NumLevel(value, k, num, shr) && c == Pow2(k) && k2 == k + k
    requires forall w :: num2(w) == num(w) + c * num(shr(w))
    requires forall w :: shr2(w) == shr(shr(w))
    ensures NumLevel(value, k2, num2, shr2)
  {
    forall w
      ensures NumAt(value, k2, num2, shr2, w)
    {
      NumAtDoubles(value, k, k2, c, num, shr, num2, shr2, w);
    }
  }

  lemma TimesAtDoubles(value: bv64 -> nat, k: nat, k2: nat, times: bv64 -> bv64, times2: bv64 -> bv64, d: bv64)
    requires TimesAt(value, k, times, d) && TimesAt(value, k, times, times(d))
    requires k2 == k + k && times2(d) == times(times(d))
    ensures TimesAt(value, k2, times2, d)
  {
    TimesDoubles(value(d), value(times(d)), k);
  }

  lemma TimesLevelDoubles(value: bv64 -> nat, k: nat, k2: nat, times: bv64 -> bv64, times2: bv64 -> bv64)
    requires (forall d :: TimesAt(value, k, times, d)) && k2 == k + k
    requires forall d :: times2(d) == times(times(d))
    ensures forall d :: TimesAt(value, k2, times2, d)
  {
    forall d
      ensures TimesAt(value, k2, times2, d)
    {
      TimesAtDoubles(value, k, k2, times, times2, d);
    }
  }

  lemma PairDoubles(value: bv64 -> nat, k: nat, k2: nat, num: bv64 -> nat, shr: bv64 -> bv64, times: bv64 -> bv64,
                    mul: Product64, mul2: Product64, q: bv64, d: bv64)
    requires IsValue(value) && NumLevel(value, k, num, shr) && MulLevel(value, k, times, mul) && k2 == k + k
    requires mul2(q, d) == mul(q, d) ^ mul(shr(q), times(d))
    ensures MulAt(value, k2, mul2, q, d)
  {
    assert NumAt(value, k, num, shr, q) && TimesAt(value, k, times, d);
    assert MulAt(value, k, mul, q, d) && MulAt(value, k, mul, shr(q), times(d));
    MulAtDoubles(value, k, k2, num, shr, times, mul, mul2, q, d);
  }

  lemma MulLevelDoubles(value: bv64 -> nat, k: nat, k2: nat, num: bv64 -> nat, shr: bv64 -> bv64,
                        times: bv64 -> bv64, mul: Product64, times2: bv64 -> bv64, mul2: Product64)
    requires IsValue(value) && NumLevel(value, k, num, shr) && MulLevel(value, k, times, mul) && k2 == k + k
    requires forall d :: times2(d) == times(times(d))
    requires forall q, d :: mul2(q, d) == mul(q, d) ^ mul(shr(q), times(d))
    ensures MulLevel(value, k2, times2, mul2)
  {
    TimesLevelDoubles(value, k, k2, times, times2);
    forall q, d
      ensures MulAt(value, k2, mul2, q, d)
    {
      assert mul2(q, d) == mul(q, d) ^ mul(shr(q), times(d));
      PairDoubles(value, k, k2, num, shr, times, mul, mul2, q, d);
    }
  }

  lemma PowersOfTwo()
    ensures Pow2(0) == 1 && Pow2(1) == 2 && Pow2(2) == 4 && Pow2(3) == 8 && Pow2(4) == 0x10 && Pow2(8) == 0x100
    ensures Pow2(16) == 0x1_0000 && Pow2(32) == 0x1_0000_0000
  {
    assert Pow2(8) == 0x100;
    Pow2Sum(8, 8);
    Pow2Sum(16, 16);
  }

  function Half(w: bv64): bv64 { w >> 1 }
  predicate IsOdd(w: bv64) { w & 1 != 0 }
  function Chosen(b: bool, v: nat): nat { if b then v else 0 }

  lemma NextBit(value: bv64 -> nat, w: bv64, c: nat)
    requires IsValue(value)
    ensures c * value(w) == Chosen(IsOdd(w), c) + 2 * c * value(Half(w))
  {
    UnfoldOne(value, w);
    ScaledDigit(c, w & 1 == 1, value(Half(w)));
  }

  lemma ScaledDigit(c: nat, b: bool, v: nat)
    ensures c * (Digit(b) + 2 * v) == Chosen(b, c) + 2 * c * v
  {
    assert c * (2 * v) == 2 * c * v;
    if b {
      assert c * (1 + 2 * v) == c + c * (2 * v);
    }
  }

  lemma Halves(w: bv64)
    ensures Half(w) == w >> 1 && Half(w >> 1) == w >> 2 && Half(w >> 2) == w >> 3 && Half(w >> 3) == w >> 4
  {
  }

  /** Four bits off the low end. The shifted vectors are parameters, so that nothing is computed here. */
  lemma BitsOff(value: bv64 -> nat, w: bv64, w1: bv64, w2: bv64, w3: bv64, w4: bv64)
    requires IsValue(value) && w1 == Half(w) && w2 == Half(w1) && w3 == Half(w2) && w4 == Half(w3)
    ensures value(w) == Chosen(IsOdd(w), 1) + Chosen(IsOdd(w1), 2) + Chosen(IsOdd(w2), 4)
      + Chosen(IsOdd(w3), 8) + 0x10 * value(w4)
  {
    hide *;
    NextBit(value, w, 1);
    NextBit(value, w1, 2);
    NextBit(value, w2, 4);
    NextBit(value, w3, 8);
  }

  lemma NumberOfBits(w: bv64)
    ensures Num4(w) == Chosen(IsOdd(w), 1) + Chosen(IsOdd(w >> 1), 2) + Chosen(IsOdd(w >> 2), 4)
      + Chosen(IsOdd(w >> 3), 8)
  {
  }

  /** The low four bits and the rest. */
  lemma FourBits(value: bv64 -> nat, w: bv64)
    requires IsValue(value)
    ensures value(w) == Num4(w) + 0x10 * value(w >> 4)
  {
    hide *;
    Halves(w);
    NumberOfBits(w);
    BitsOff(value, w, w >> 1, w >> 2, w >> 3, w >> 4);
  }

  lemma {:induction false} LowAndRest(v: nat, n: nat, h: nat)
    requires v == n + 0x10 * h && n < 0x10
    ensures n == Low(v, 4) && h == Shr(v, 4)
  {
    hide Low, Shr;
    SplitAt(v, 4);
    PowersOfTwo();
  }

  lemma NumLevel4(value: bv64 -> nat)
    requires IsValue(value)
    ensures NumLevel(value, 4, Num4, Shr4)
  {
    forall w
      ensures NumAt(value, 4, Num4, Shr4, w)
    {
      FourBits(value, w);
      LowAndRest(value(w), Num4(w), value(w >> 4));
    }
  }

  lemma NumLevel8(value: bv64 -> nat)
    requires IsValue(value)
    ensures NumLevel(value, 8, Num8, Shr8)
  {
    hide Num4;
    NumLevel4(value);
    PowersOfTwo();
    NumLevelDoubles(value, 4, 8, 0x10, Num4, Shr4, Num8, Shr8);
  }

  lemma NumLevel16(value: bv64 -> nat)
    requires IsValue(value)
    ensures NumLevel(value, 16, Num16, Shr16)
  {
    hide Num8;
    NumLevel8(value);
    PowersOfTwo();
    NumLevelDoubles(value, 8, 16, 0x100, Num8, Shr8, Num16, Shr16);
  }

  lemma NumLevel32(value: bv64 -> nat)
    requires IsValue(value)
    ensures NumLevel(value, 32, Num32, Shr32)
  {
    hide Num16;
    NumLevel16(value);
    PowersOfTwo();
    NumLevelDoubles(value, 16, 32, 0x1_0000, Num16, Shr16, Num32, Shr32);
  }

  lemma NumLevel64(value: bv64 -> nat)
    requires IsValue(value)
    ensures NumLevel(value, 64, Num64, Shr64)
  {
    hide Num32;
    NumLevel32(value);
    PowersOfTwo();
    NumLevelDoubles(value, 32, 64, 0x1_0000_0000, Num32, Shr32, Num64, Shr64);
  }

  lemma AllBits(value: bv64 -> nat, num: bv64 -> nat, shr: bv64 -> bv64, w: bv64)
    requires IsValue(value) && NumLevel(value, 64, num, shr) && shr(w) == 0
    ensures value(w) == num(w) < TWO64
  {
    hide Low, Shr, Pow2;
    assert NumAt(value, 64, num, shr, w);
    ValueOfZero(value);
    SplitAt(value(w), 64);
    Pow2Of64();
  }

  lemma ValueBound(value: bv64 -> nat, w: bv64)
    requires IsValue(value)
    ensures value(w) < TWO64
  {
    NumLevel64(value);
    AllBits(value, Num64, Shr64, w);
  }

  lemma RemOfTop()
    ensures Rem(TWO64) == CRC64_ECMA_POLY
  {
    Pow2Of64();
    RemSmall(0x8000_0000_0000_0000);
    RemDouble(0x8000_0000_0000_0000);
    ReduceTop(TWO64);
    XorZero(CRC64_ECMA_POLY);
  }

  lemma {:induction false} ShiftOne(v: nat)
    ensures ShiftUp(v, 1) == 2 * v
  {
    assert ShiftUp(v, 0) == v;
  }

  lemma TopBits(d: bv64)
    requires d & TOP != 0
    ensures (d ^ TOP) & TOP == 0 && (d ^ TOP) << 1 == d << 1 && (d ^ TOP) ^ TOP == d
  {
  }

  lemma TimesIsDouble(value: bv64 -> nat, d: bv64)
    requires IsValue(value)
    ensures value(Times1(d)) == Rem(ShiftUp(value(d), 1))
  {
    ShiftOne(value(d));
    if d & TOP == 0 {
      TimesSmall(value, d, Times1(d));
    } else {
      TimesTopped(value, d, Times1(d));
    }
  }

  lemma TimesSmall(value: bv64 -> nat, d: bv64, twice: bv64)
    requires IsValue(value) && d & TOP == 0 && twice == d << 1
    ensures value(twice) == Rem(2 * value(d))
  {
    ValueDouble(value, d);
    ValueBound(value, twice);
    RemSmall(2 * value(d));
  }

  lemma TimesTopped(value: bv64 -> nat, d: bv64, t: bv64)
    requires IsValue(value) && d & TOP != 0 && t == (d << 1) ^ POLY
    ensures value(t) == Rem(2 * value(d))
  {
    ShiftOfTopped(value, d);
    ValueOfTopped(value, d);
    ReducedValue(value, d << 1);
    RemTopped(value(d), value(d ^ TOP));
  }

  lemma ShiftOfTopped(value: bv64 -> nat, d: bv64)
    requires IsValue(value) && d & TOP != 0
    ensures value(d << 1) == 2 * value(d ^ TOP) < TWO64
  {
    TopBits(d);
    DoubleLow(value, d ^ TOP, d << 1);
  }

  lemma ValueOfTopped(value: bv64 -> nat, d: bv64)
    requires IsValue(value) && d & TOP != 0
    ensures value(d) == Xor(value(d ^ TOP), 0x8000_0000_0000_0000)
  {
    TopBits(d);
    ValueXor(value, d ^ TOP, TOP);
    ValueOfTop(value);
  }

  lemma ReducedValue(value: bv64 -> nat, twice: bv64)
    requires IsValue(value)
    ensures value(twice ^ POLY) == Xor(value(twice), CRC64_ECMA_POLY)
  {
    ValueXor(value, twice, POLY);
    ValueOfPoly(value);
  }

  lemma DoubleLow(value: bv64 -> nat, e: bv64, twice: bv64)
    requires IsValue(value) && e & TOP == 0 && twice == e << 1
    ensures value(twice) == 2 * value(e) < TWO64
  {
    ValueDouble(value, e);
    ValueBound(value, twice);
  }

  lemma {:induction false} RemTopped(d: nat, e: nat)
    requires d == Xor(e, 0x8000_0000_0000_0000) && 2 * e < TWO64
    ensures Rem(2 * d) == Xor(2 * e, CRC64_ECMA_POLY)
  {
    XorDouble(e, 0x8000_0000_0000_0000);
    RemXor(2 * e, TWO64);
    RemSmall(2 * e);
    RemOfTop();
  }

  /** The polynomial of a concrete vector is computed by `Num64`. */
  lemma ValueIs(value: bv64 -> nat, w: bv64, n: nat)
    requires IsValue(value) && Num64(w) == n
    ensures value(w) == n
  {
    hide Num64;
    NumLevel64(value);
    AllBits(value, Num64, Shr64, w);
  }

  lemma ValueOfTop(value: bv64 -> nat)
    requires IsValue(value)
    ensures value(TOP) == 0x8000_0000_0000_0000
  {
    ValueIs(value, TOP, 0x8000_0000_0000_0000);
  }

  lemma ValueOfPoly(value: bv64 -> nat)
    requires IsValue(value)
    ensures value(POLY) == CRC64_ECMA_POLY
  {
    ValueIs(value, POLY, CRC64_ECMA_POLY);
  }

  // ---- sums of bit vectors ----

  /** Exclusive or under a name that can be hidden: a proof that sees the operation itself gets lost in bits. */
  function Plus(a: bv64, b: bv64): bv64 { a ^ b }

  lemma ValuePlus(value: bv64 -> nat, a: bv64, b: bv64)
    requires IsValue(value)
    ensures value(Plus(a, b)) == Xor(value(a), value(b))
  {
    ValueXor(value, a, b);
  }

  function Xor4(a: nat, b: nat, c: nat, d: nat): nat { Xor(Xor(Xor(a, b), c), d) }

  lemma ValueChosen(value: bv64 -> nat, b: bool, w: bv64)
    requires IsValue(value)
    ensures value(if b then w else 0) == Chosen(b, value(w))
  {
    ValueOfZero(value);
  }

  lemma PlusOfTwo(b0: bool, b1: bool, w0: bv64, w1: bv64)
    ensures (if b0 then w0 else 0) ^ (if b1 then w1 else 0) == Plus(if b0 then w0 else 0, if b1 then w1 else 0)
  {
  }

  lemma PlusOfThree(b0: bool, b1: bool, b2: bool, w0: bv64, w1: bv64, w2: bv64)
    ensures (if b0 then w0 else 0) ^ (if b1 then w1 else 0) ^ (if b2 then w2 else 0) ==
      Plus((if b0 then w0 else 0) ^ (if b1 then w1 else 0), if b2 then w2 else 0)
  {
  }

  lemma PlusOfFour(b0: bool, b1: bool, b2: bool, b3: bool, w0: bv64, w1: bv64, w2: bv64, w3: bv64)
    ensures (if b0 then w0 else 0) ^ (if b1 then w1 else 0) ^ (if b2 then w2 else 0) ^ (if b3 then w3 else 0) ==
      Plus((if b0 then w0 else 0) ^ (if b1 then w1 else 0) ^ (if b2 then w2 else 0), if b3 then w3 else 0)
  {
  }

  lemma ValueOfTwo(value: bv64 -> nat, b0: bool, b1: bool, w0: bv64, w1: bv64)
    requires IsValue(value)
    ensures value((if b0 then w0 else 0) ^ (if b1 then w1 else 0)) == Xor(Chosen(b0, value(w0)), Chosen(b1, value(w1)))
  {
    hide *;
    PlusOfTwo(b0, b1, w0, w1);
    ValuePlus(value, if b0 then w0 else 0, if b1 then w1 else 0);
    ValueChosen(value, b0, w0);
    ValueChosen(value, b1, w1);
  }

  lemma ValueOfThree(value: bv64 -> nat, b0: bool, b1: bool, b2: bool, w0: bv64, w1: bv64, w2: bv64)
    requires IsValue(value)
    ensures value((if b0 then w0 else 0) ^ (if b1 then w1 else 0) ^ (if b2 then w2 else 0)) ==
      Xor(Xor(Chosen(b0, value(w0)), Chosen(b1, value(w1))), Chosen(b2, value(w2)))
  {
    hide *;
    ValueOfTwo(value, b0, b1, w0, w1);
    PlusOfThree(b0, b1, b2, w0, w1, w2);
    ValuePlus(value, (if b0 then w0 else 0) ^ (if b1 then w1 else 0), if b2 then w2 else 0);
    ValueChosen(value, b2, w2);
  }

  lemma ValueOfFour(value: bv64 -> nat, b0: bool, b1: bool, b2: bool, b3: bool, w0: bv64, w1: bv64, w2: bv64, w3: bv64)
    requires IsValue(value)
    ensures value((if b0 then w0 else 0) ^ (if b1 then w1 else 0) ^ (if b2 then w2 else 0) ^ (if b3 then w3 else 0)) ==
      Xor(Xor(Xor(Chosen(b0, value(w0)), Chosen(b1, value(w1))), Chosen(b2, value(w2))), Chosen(b3, value(w3)))
  {
    hide *;
    ValueOfThree(value, b0, b1, b2, w0, w1, w2);
    PlusOfFour(b0, b1, b2, b3, w0, w1, w2, w3);
    ValuePlus(value, (if b0 then w0 else 0) ^ (if b1 then w1 else 0) ^ (if b2 then w2 else 0), if b3 then w3 else 0);
    ValueChosen(value, b3, w3);
  }

  /** The sum of the chosen ones of four vectors. */
  function Mix(b0: bool, b1: bool, b2: bool, b3: bool, w0: bv64, w1: bv64, w2: bv64, w3: bv64): bv64 {
    (if b0 then w0 else 0) ^ (if b1 then w1 else 0) ^ (if b2 then w2 else 0) ^ (if b3 then w3 else 0)
  }

  lemma MixUnfolds(b0: bool, b1: bool, b2: bool, b3: bool, w0: bv64, w1: bv64, w2: bv64, w3: bv64)
    ensures Mix(b0, b1, b2, b3, w0, w1, w2, w3) ==
      (if b0 then w0 else 0) ^ (if b1 then w1 else 0) ^ (if b2 then w2 else 0) ^ (if b3 then w3 else 0)
  {
  }

  lemma MixValue(value: bv64 -> nat, b0: bool, b1: bool, b2: bool, b3: bool, w0: bv64, w1: bv64, w2: bv64, w3: bv64)
    requires IsValue(value)
    ensures value(Mix(b0, b1, b2, b3, w0, w1, w2, w3)) ==
      Xor4(Chosen(b0, value(w0)), Chosen(b1, value(w1)), Chosen(b2, value(w2)), Chosen(b3, value(w3)))
  {
    hide IsValue, Xor, Plus, Chosen, Mix;
    MixUnfolds(b0, b1, b2, b3, w0, w1, w2, w3);
    ValueOfFour(value, b0, b1, b2, b3, w0, w1, w2, w3);
  }

  // ---- linear functions of four bits ----

  ghost predicate Linear(f: nat -> nat) {
    forall a, b :: Additive(f, a, b)
  }

  predicate Additive(f: nat -> nat, a: nat, b: nat) {
    f(Xor(a, b)) == Xor(f(a), f(b))
  }

  lemma LinearAtZero(f: nat -> nat)
    requires Linear(f)
    ensures f(0) == 0
  {
    assert Additive(f, 0, 0);
    XorSelf(0);
    XorSelf(f(0));
  }

  /** Adding a digit above `n`. */
  lemma {:induction false} NextDigit(f: nat -> nat, n: nat, c: nat, k: nat, b: bool)
    requires Linear(f) && c == Pow2(k) && n < c
    ensures f(n + Chosen(b, c)) == Xor(f(n), Chosen(b, f(c)))
  {
    if b {
      XorDisjoint(n, 1, k);
      ShiftUpIsProduct(1, k);
      assert Additive(f, n, c);
    } else {
      XorZero(f(n));
    }
  }

  lemma FourDigits(f: nat -> nat, b0: bool, b1: bool, b2: bool, b3: bool)
    requires Linear(f)
    ensures f(Chosen(b0, 1) + Chosen(b1, 2) + Chosen(b2, 4) + Chosen(b3, 8)) ==
      Xor4(Chosen(b0, f(1)), Chosen(b1, f(2)), Chosen(b2, f(4)), Chosen(b3, f(8)))
  {
    hide Linear, Xor, Pow2;
    PowersOfTwo();
    LinearAtZero(f);
    NextDigit(f, 0, 1, 0, b0);
    XorZero(Chosen(b0, f(1)));
    NextDigit(f, Chosen(b0, 1), 2, 1, b1);
    NextDigit(f, Chosen(b0, 1) + Chosen(b1, 2), 4, 2, b2);
    NextDigit(f, Chosen(b0, 1) + Chosen(b1, 2) + Chosen(b2, 4), 8, 3, b3);
  }

  // ---- multiplication by four bits ----

  /** The polynomial with the coefficients of `lo` below x^64 and those of `hi` from there on. */
  ghost function Wide(value: bv64 -> nat, hi: bv64, lo: bv64): nat {
    Xor(value(lo), ShiftUp(value(hi), 64))
  }

  lemma WideOfZero(value: bv64 -> nat, lo: bv64)
    requires IsValue(value)
    ensures Wide(value, 0, lo) == value(lo)
  {
    ValueOfZero(value);
    ShiftUpZero(64);
    XorZero(value(lo));
  }

  function Twice(w: bv64): bv64 { w << 1 }
  function Carry(w: bv64): bv64 { w >> 63 }
  function NextHigh(hi: bv64, lo: bv64): bv64 { Plus(Twice(hi), Carry(lo)) }
  predicate HasRoom(hi: bv64) { hi & TOP == 0 }

  /** The bit that leaves the low half enters the high half. */
  lemma WideDouble(value: bv64 -> nat, hi: bv64, lo: bv64)
    requires IsValue(value) && HasRoom(hi)
    ensures Wide(value, NextHigh(hi, lo), Twice(lo)) == 2 * Wide(value, hi, lo)
  {
    hide Twice, Carry, Plus, IsValue, Xor, ShiftUp;
    var h, carry := value(hi), value(Carry(lo));
    TwiceValue(value, hi);
    ValuePlus(value, Twice(hi), Carry(lo));
    CarryValue(value, lo);
    ShiftUpXor(2 * h, carry, 64);
    DoubleShifted(h, 64);
    XorDouble(value(lo), ShiftUp(h, 64));
    Recombine(value(Twice(lo)), 2 * ShiftUp(h, 64), ShiftUp(carry, 64), 2 * value(lo));
  }

  lemma TwiceValue(value: bv64 -> nat, w: bv64)
    requires IsValue(value) && HasRoom(w)
    ensures value(Twice(w)) == 2 * value(w)
  {
    ValueDouble(value, w);
  }

  lemma {:induction false} DoubleShifted(v: nat, k: nat)
    ensures ShiftUp(2 * v, k) == 2 * ShiftUp(v, k)
  {
    if k != 0 {
      DoubleShifted(v, k - 1);
    }
  }

  lemma {:induction false} Recombine(lo: nat, h: nat, c: nat, v: nat)
    requires v == Xor(lo, c)
    ensures Xor(lo, Xor(h, c)) == Xor(v, h)
  {
    XorComm(h, c);
    XorAssoc(lo, c, h);
  }

  lemma CarryBit(lo: bv64)
    ensures Carry(lo) == if HasRoom(lo) then 0 else 1
    ensures !HasRoom(lo) ==> HasRoom(lo ^ TOP) && Twice(lo ^ TOP) == Twice(lo)
  {
  }

  lemma CarryValue(value: bv64 -> nat, lo: bv64)
    requires IsValue(value)
    ensures 2 * value(lo) == Xor(value(Twice(lo)), ShiftUp(value(Carry(lo)), 64))
  {
    CarryBit(lo);
    hide Twice, Carry, Xor, ShiftUp, IsValue;
    if HasRoom(lo) {
      ValueOfZero(value);
      ShiftUpZero(64);
      TwiceValue(value, lo);
      XorZero(2 * value(lo));
    } else {
      ValueIs(value, 1, 1);
      ShiftOneWord(value(1));
      ValueOfTopped(value, lo);
      TwiceValue(value, lo ^ TOP);
      XorDouble(value(lo ^ TOP), 0x8000_0000_0000_0000);
    }
  }

  lemma {:induction false} ShiftOneWord(c: nat)
    requires c == 1
    ensures ShiftUp(c, 64) == TWO64
  {
    ShiftUpIsProduct(c, 64);
    Pow2Of64();
  }

  lemma ShiftsByOne(d: bv64)
    ensures Twice(d) == d << 1 && NextHigh(0, d) == d >> 63
    ensures Twice(d << 1) == d << 2 && NextHigh(d >> 63, d << 1) == d >> 62
  {
  }

  lemma MoreShiftsByOne(d: bv64)
    ensures Twice(d << 2) == d << 3 && NextHigh(d >> 62, d << 2) == d >> 61
    ensures Twice(d << 3) == d << 4 && NextHigh(d >> 61, d << 3) == d >> 60
  {
  }

  /** Bits 4 and above are zero. */
  predicate IsNibble(w: bv64) { w >> 4 == 0 }

  lemma NibblesHaveRoom(w: bv64)
    requires IsNibble(w)
    ensures HasRoom(w)
  {
  }

  lemma SmallHighs(d: bv64)
    ensures IsNibble(0) && IsNibble(d >> 63) && IsNibble(d >> 62) && IsNibble(d >> 61) && IsNibble(d >> 60)
  {
  }

  /** `d` shifted by k: its two halves. */
  ghost predicate Shifts(value: bv64 -> nat, d: bv64, k: nat, hi: bv64, lo: bv64) {
    Wide(value, hi, lo) == ShiftUp(value(d), k) && IsNibble(hi)
  }

  lemma NextShift(value: bv64 -> nat, d: bv64, k: nat, hi: bv64, lo: bv64, hi2: bv64, lo2: bv64)
    requires IsValue(value) && Shifts(value, d, k, hi, lo)
    requires lo2 == Twice(lo) && hi2 == NextHigh(hi, lo) && IsNibble(hi2)
    ensures Shifts(value, d, k + 1, hi2, lo2)
  {
    hide Wide, Twice, NextHigh, IsNibble, IsValue;
    NibblesHaveRoom(hi);
    WideDouble(value, hi, lo);
  }

  lemma FirstShift(value: bv64 -> nat, d: bv64)
    requires IsValue(value)
    ensures Shifts(value, d, 0, 0, d)
  {
    WideOfZero(value, d);
  }

  lemma ShiftsAll(value: bv64 -> nat, d: bv64)
    requires IsValue(value)
    ensures Shifts(value, d, 0, 0, d) && Shifts(value, d, 1, d >> 63, d << 1) && Shifts(value, d, 2, d >> 62, d << 2)
    ensures Shifts(value, d, 3, d >> 61, d << 3) && Shifts(value, d, 4, d >> 60, d << 4)
  {
    hide *;
    FirstShift(value, d);
    ShiftsByOne(d);
    MoreShiftsByOne(d);
    SmallHighs(d);
    NextShift(value, d, 0, 0, d, d >> 63, d << 1);
    NextShift(value, d, 1, d >> 63, d << 1, d >> 62, d << 2);
    NextShift(value, d, 2, d >> 62, d << 2, d >> 61, d << 3);
    NextShift(value, d, 3, d >> 61, d << 3, d >> 60, d << 4);
  }

  /** The sum of two sums of halves. */
  lemma {:induction false} WideXor4(l0: nat, l1: nat, l2: nat, l3: nat, h0: nat, h1: nat, h2: nat, h3: nat)
    ensures Xor(Xor4(l0, l1, l2, l3), ShiftUp(Xor4(h0, h1, h2, h3), 64)) ==
      Xor4(Xor(l0, ShiftUp(h0, 64)), Xor(l1, ShiftUp(h1, 64)), Xor(l2, ShiftUp(h2, 64)), Xor(l3, ShiftUp(h3, 64)))
  {
    hide Xor, ShiftUp;
    WideXor(l0, h0, l1, h1);
    WideXor(Xor(l0, l1), Xor(h0, h1), l2, h2);
    WideXor(Xor(Xor(l0, l1), l2), Xor(Xor(h0, h1), h2), l3, h3);
  }

  lemma {:induction false} WideXor(l: nat, h: nat, l2: nat, h2: nat)
    ensures Xor(Xor(l, l2), ShiftUp(Xor(h, h2), 64)) == Xor(Xor(l, ShiftUp(h, 64)), Xor(l2, ShiftUp(h2, 64)))
  {
    ShiftUpXor(h, h2, 64);
    XorSwap(l, l2, ShiftUp(h, 64), ShiftUp(h2, 64));
  }

  lemma {:induction false} ChosenWide(b: bool, l: nat, h: nat)
    ensures Xor(Chosen(b, l), ShiftUp(Chosen(b, h), 64)) == Chosen(b, Xor(l, ShiftUp(h, 64)))
  {
    ShiftUpZero(64);
    XorZero(0);
  }

  /** Four chosen multiples, in halves. */
  lemma FourWides(value: bv64 -> nat, d: bv64, k: nat, b0: bool, b1: bool, b2: bool, b3: bool,
                  l0: bv64, l1: bv64, l2: bv64, l3: bv64, h0: bv64, h1: bv64, h2: bv64, h3: bv64)
    requires Shifts(value, d, k, h0, l0) && Shifts(value, d, k + 1, h1, l1)
    requires Shifts(value, d, k + 2, h2, l2) && Shifts(value, d, k + 3, h3, l3)
    ensures Xor(Xor4(Chosen(b0, value(l0)), Chosen(b1, value(l1)), Chosen(b2, value(l2)), Chosen(b3, value(l3))),
                ShiftUp(Xor4(Chosen(b0, value(h0)), Chosen(b1, value(h1)),
                             Chosen(b2, value(h2)), Chosen(b3, value(h3))), 64)) ==
      Xor4(Chosen(b0, ShiftUp(value(d), k)), Chosen(b1, ShiftUp(value(d), k + 1)),
           Chosen(b2, ShiftUp(value(d), k + 2)), Chosen(b3, ShiftUp(value(d), k + 3)))
  {
    hide Xor, Xor4, ShiftUp, Chosen, IsNibble;
    WideXor4(Chosen(b0, value(l0)), Chosen(b1, value(l1)), Chosen(b2, value(l2)), Chosen(b3, value(l3)),
             Chosen(b0, value(h0)), Chosen(b1, value(h1)), Chosen(b2, value(h2)), Chosen(b3, value(h3)));
    ChosenWide(b0, value(l0), value(h0));
    ChosenWide(b1, value(l1), value(h1));
    ChosenWide(b2, value(l2), value(h2));
    ChosenWide(b3, value(l3), value(h3));
  }

  /** Products with one factor fixed are linear, and those with a power of x are shifts. */
  lemma ProductIsLinear(d: nat, f: nat -> nat)
    requires forall n :: f(n) == Product(n, d)
    ensures Linear(f)
  {
    forall a, b
      ensures Additive(f, a, b)
    {
      XorProduct(a, b, d);
    }
  }

  lemma {:induction false} ProductOfPower(d: nat, c: nat, k: nat)
    requires c == Pow2(k)
    ensures Product(c, d) == ShiftUp(d, k)
  {
    hide Product, Xor;
    ShiftUpIsProduct(1, k);
    ProductComm(ShiftUp(1, k), d);
    ProductShift(d, 1, k);
    ProductOne(d);
  }

  lemma {:induction false} PowerProducts(d: nat)
    ensures Product(1, d) == ShiftUp(d, 0) && Product(2, d) == ShiftUp(d, 1)
    ensures Product(4, d) == ShiftUp(d, 2) && Product(8, d) == ShiftUp(d, 3)
  {
    hide Product, ShiftUp, Pow2;
    PowersOfTwo();
    ProductOfPower(d, 1, 0);
    ProductOfPower(d, 2, 1);
    ProductOfPower(d, 4, 2);
    ProductOfPower(d, 8, 3);
  }

  lemma TermsUnfold(q: bv64, d: bv64)
    ensures LowTerms(q, d) ==
      Mix(q & 1 != 0, (q >> 1) & 1 != 0, (q >> 2) & 1 != 0, (q >> 3) & 1 != 0, d, d << 1, d << 2, d << 3)
    ensures HighTerms(q, d) ==
      Mix(q & 1 != 0, (q >> 1) & 1 != 0, (q >> 2) & 1 != 0, (q >> 3) & 1 != 0, 0, d >> 63, d >> 62, d >> 61)
  {
  }

  lemma TermsAreMixed(q: bv64, d: bv64, b0: bool, b1: bool, b2: bool, b3: bool)
    requires b0 == IsOdd(q) && b1 == IsOdd(q >> 1) && b2 == IsOdd(q >> 2) && b3 == IsOdd(q >> 3)
    ensures LowTerms(q, d) == Mix(b0, b1, b2, b3, d, d << 1, d << 2, d << 3)
    ensures HighTerms(q, d) == Mix(b0, b1, b2, b3, 0, d >> 63, d >> 62, d >> 61)
  {
    hide LowTerms, HighTerms, Mix;
    TermsUnfold(q, d);
  }

  /** The chosen multiples, in halves. */
  lemma MixedShifts(value: bv64 -> nat, d: bv64, b0: bool, b1: bool, b2: bool, b3: bool)
    requires IsValue(value)
    ensures Wide(value, Mix(b0, b1, b2, b3, 0, d >> 63, d >> 62, d >> 61),
                 Mix(b0, b1, b2, b3, d, d << 1, d << 2, d << 3)) ==
      Xor4(Chosen(b0, ShiftUp(value(d), 0)), Chosen(b1, ShiftUp(value(d), 1)),
           Chosen(b2, ShiftUp(value(d), 2)), Chosen(b3, ShiftUp(value(d), 3)))
  {
    hide Shifts, Mix, Xor, Xor4, ShiftUp, Chosen, IsValue;
    ShiftsAll(value, d);
    MixValue(value, b0, b1, b2, b3, 0, d >> 63, d >> 62, d >> 61);
    MixValue(value, b0, b1, b2, b3, d, d << 1, d << 2, d << 3);
    FourWides(value, d, 0, b0, b1, b2, b3, d, d << 1, d << 2, d << 3, 0, d >> 63, d >> 62, d >> 61);
  }

  lemma {:induction false} NibbleProduct(d: nat, b0: bool, b1: bool, b2: bool, b3: bool)
    ensures Product(Chosen(b0, 1) + Chosen(b1, 2) + Chosen(b2, 4) + Chosen(b3, 8), d) ==
      Xor4(Chosen(b0, ShiftUp(d, 0)), Chosen(b1, ShiftUp(d, 1)),
           Chosen(b2, ShiftUp(d, 2)), Chosen(b3, ShiftUp(d, 3)))
  {
    hide Product, Chosen, ShiftUp, Xor4, Linear;
    var f := (n: nat) => Product(n, d);
    ProductIsLinear(d, f);
    PowerProducts(d);
    FourDigits(f, b0, b1, b2, b3);
  }

  /** The two halves of the product of `d` and the low four bits of `q`. */
  lemma NibbleTerms(value: bv64 -> nat, q: bv64, d: bv64)
    requires IsValue(value)
    ensures Wide(value, HighTerms(q, d), LowTerms(q, d)) == Product(Num4(q), value(d))
  {
    hide *;
    var b0, b1, b2, b3 := IsOdd(q), IsOdd(q >> 1), IsOdd(q >> 2), IsOdd(q >> 3);
    TermsAreMixed(q, d, b0, b1, b2, b3);
    NumberOfBits(q);
    MixedShifts(value, d, b0, b1, b2, b3);
    NibbleProduct(value(d), b0, b1, b2, b3);
  }

  // ---- folding the high half in ----

  /** A number times x^64 modulo the generator. */
  function Folded(n: nat): nat { Rem(ShiftUp(n, 64)) }

  lemma FoldedIsLinear()
    ensures Linear(Folded)
  {
    forall a, b
      ensures Additive(Folded, a, b)
    {
      ShiftUpXor(a, b, 64);
      RemXor(ShiftUp(a, 64), ShiftUp(b, 64));
    }
  }

  lemma FoldDouble(value: bv64 -> nat, c: nat, w: bv64, twice: bv64)
    requires IsValue(value) && Folded(c) == value(w) && twice == Times1(w)
    ensures Folded(2 * c) == value(twice)
  {
    TimesIsDouble(value, w);
    ShiftOne(value(w));
    RemDouble(ShiftUp(c, 64));
    DoubleShifted(c, 64);
  }

  lemma FoldStart(value: bv64 -> nat, c: nat)
    requires IsValue(value) && c == 1
    ensures Folded(c) == value(POLY)
  {
    ValueOfPoly(value);
    RemOfTop();
    ShiftOneWord(c);
  }

  lemma FoldSteps()
    ensures POLY2 == Times1(POLY) && POLY4 == Times1(POLY2) && POLY8 == Times1(POLY4)
  {
  }

  lemma FoldConstants(value: bv64 -> nat)
    requires IsValue(value)
    ensures Folded(1) == value(POLY) && Folded(2) == value(POLY2)
    ensures Folded(4) == value(POLY4) && Folded(8) == value(POLY8)
  {
    hide *;
    FoldStart(value, 1);
    FoldSteps();
    FoldDouble(value, 1, POLY, POLY2);
    FoldDouble(value, 2, POLY2, POLY4);
    FoldDouble(value, 4, POLY4, POLY8);
  }

  lemma FoldUnfold(h: bv64)
    ensures Fold(h) ==
      Mix(h & 1 != 0, (h >> 1) & 1 != 0, (h >> 2) & 1 != 0, (h >> 3) & 1 != 0, POLY, POLY2, POLY4, POLY8)
  {
  }

  lemma FoldIsMixed(h: bv64, b0: bool, b1: bool, b2: bool, b3: bool)
    requires b0 == IsOdd(h) && b1 == IsOdd(h >> 1) && b2 == IsOdd(h >> 2) && b3 == IsOdd(h >> 3)
    ensures Fold(h) == Mix(b0, b1, b2, b3, POLY, POLY2, POLY4, POLY8)
  {
    hide Fold, Mix;
    FoldUnfold(h);
  }

  lemma FoldValue(value: bv64 -> nat, h: bv64)
    requires IsValue(value)
    ensures value(Fold(h)) == Folded(Num4(h))
  {
    hide *;
    var b0, b1, b2, b3 := IsOdd(h), IsOdd(h >> 1), IsOdd(h >> 2), IsOdd(h >> 3);
    FoldIsMixed(h, b0, b1, b2, b3);
    NumberOfBits(h);
    FoldConstants(value);
    FoldedIsLinear();
    MixValue(value, b0, b1, b2, b3, POLY, POLY2, POLY4, POLY8);
    FourDigits(Folded, b0, b1, b2, b3);
  }

  lemma NibbleNumber(value: bv64 -> nat, h: bv64)
    requires IsValue(value) && IsNibble(h)
    ensures value(h) == Num4(h)
  {
    hide Num4, IsValue;
    FourBits(value, h);
    ValueOfZero(value);
  }

  /** Folding the high half in reduces modulo the generator. */
  lemma FoldReduces(value: bv64 -> nat, hi: bv64, lo: bv64)
    requires IsValue(value) && IsNibble(hi)
    ensures value(Plus(lo, Fold(hi))) == Rem(Wide(value, hi, lo))
  {
    hide Fold, IsValue, IsNibble, Rem, Xor, ShiftUp, Plus, Num4;
    FoldValue(value, hi);
    NibbleNumber(value, hi);
    ValuePlus(value, lo, Fold(hi));
    RemXor(value(lo), ShiftUp(value(hi), 64));
    ValueBound(value, lo);
    RemSmall(value(lo));
  }

  lemma HighTermsSmall(q: bv64, d: bv64)
    ensures IsNibble(HighTerms(q, d))
  {
  }

  lemma NibblesArePlus(q: bv64, d: bv64)
    ensures Times4(d) == Plus(d << 4, Fold(d >> 60))
    ensures Mul4(q, d) == Plus(LowTerms(q, d), Fold(HighTerms(q, d)))
  {
    hide Fold, LowTerms, HighTerms;
  }

  lemma TimesNibble(value: bv64 -> nat, d: bv64)
    requires IsValue(value)
    ensures TimesAt(value, 4, Times4, d)
  {
    hide Fold, Plus, Times4, Wide, Rem, ShiftUp, IsValue, IsNibble;
    ShiftsAll(value, d);
    FoldReduces(value, d >> 60, d << 4);
    NibblesArePlus(0, d);
  }

  lemma MulNibble(value: bv64 -> nat, q: bv64, d: bv64)
    requires IsValue(value)
    ensures MulAt(value, 4, Mul4, q, d)
  {
    hide Fold, Plus, Mul4, HighTerms, LowTerms, Num4, Wide, IsNibble, IsValue, Rem, Product, Low;
    NibbleTerms(value, q, d);
    HighTermsSmall(q, d);
    FoldReduces(value, HighTerms(q, d), LowTerms(q, d));
    NibblesArePlus(q, d);
    NumLevel4(value);
    assert NumAt(value, 4, Num4, Shr4, q);
  }

  lemma MulLevel4(value: bv64 -> nat)
    requires IsValue(value)
    ensures MulLevel(value, 4, Times4, Mul4)
  {
    hide Times4, Mul4;
    forall d
      ensures TimesAt(value, 4, Times4, d)
    {
      TimesNibble(value, d);
    }
    forall q, d
      ensures MulAt(value, 4, Mul4, q, d)
    {
      MulNibble(value, q, d);
    }
  }

  lemma MulLevel8(value: bv64 -> nat)
    requires IsValue(value)
    ensures MulLevel(value, 8, Times8, Mul8)
  {
    hide Num4, Times4, Mul4;
    NumLevel4(value);
    MulLevel4(value);
    MulLevelDoubles(value, 4, 8, Num4, Shr4, Times4, Mul4, Times8, Mul8);
  }

  lemma MulLevel16(value: bv64 -> nat)
    requires IsValue(value)
    ensures MulLevel(value, 16, Times16, Mul16)
  {
    hide Num8, Times8, Mul8;
    NumLevel8(value);
    MulLevel8(value);
    MulLevelDoubles(value, 8, 16, Num8, Shr8, Times8, Mul8, Times16, Mul16);
  }

  lemma MulLevel32(value: bv64 -> nat)
    requires IsValue(value)
    ensures MulLevel(value, 32, Times32, Mul32)
  {
    hide Num16, Times16, Mul16;
    NumLevel16(value);
    MulLevel16(value);
    MulLevelDoubles(value, 16, 32, Num16, Shr16, Times16, Mul16, Times32, Mul32);
  }

  lemma MulLevel64(value: bv64 -> nat)
    requires IsValue(value)
    ensures MulLevel(value, 64, Times64, Mul64)
  {
    hide Num32, Times32, Mul32;
    NumLevel32(value);
    MulLevel32(value);
    MulLevelDoubles(value, 32, 64, Num32, Shr32, Times32, Mul32, Times64, Mul64);
  }

  predicate ProductAt(value: bv64 -> nat, mul: Product64, q: bv64, d: bv64) {
    value(mul(q, d)) == Rem(Product(value(q), value(d)))
  }

  /** `mul` is multiplication modulo the generator. */
  ghost predicate IsProduct(value: bv64 -> nat, mul: Product64) {
    forall q, d :: ProductAt(value, mul, q, d)
  }

  lemma FullWidth(value: bv64 -> nat, num: bv64 -> nat, shr: bv64 -> bv64, times: bv64 -> bv64, mul: Product64)
    requires IsValue(value) && NumLevel(value, 64, num, shr) && MulLevel(value, 64, times, mul)
    requires forall w :: shr(w) == 0
    ensures IsProduct(value, mul)
  {
    forall q, d
      ensures ProductAt(value, mul, q, d)
    {
      assert MulAt(value, 64, mul, q, d) && NumAt(value, 64, num, shr, q);
      AllBits(value, num, shr, q);
    }
  }

  lemma MulIsProduct(value: bv64 -> nat)
    requires IsValue(value)
    ensures IsProduct(value, Mul64)
  {
    NumLevel64(value);
    MulLevel64(value);
    FullWidth(value, Num64, Shr64, Times64, Mul64);
  }
}
