/** CRC-64/ECMA-182 of `gel-core` as division of polynomials over GF(2).

    A natural number is a polynomial: bit `i` is the coefficient of x^i, addition is `Xor`,
    multiplication by x is doubling. The generator is x^64 plus CRC64_ECMA_POLY. */
module Crc {
  import opened Words

  const CRC64_ECMA_POLY: Word := 0x42F0_E1EB_A9EA_3693
  const TOP_BIT: Word := 0x8000_0000_0000_0000
  const GENERATOR: nat := TWO64 + CRC64_ECMA_POLY

  /** Carry-less product. */
  function Product(q: nat, d: nat): nat {
    if q == 0 then 0 else Xor(2 * Product(q / 2, d), if q % 2 == 1 then d else 0)
  }

  /** Remainder of a polynomial of degree at most 64. */
  function Reduce(x: nat): nat {
    if x >= TWO64 then Xor(x, GENERATOR) else x
  }

  /** Remainder modulo the generator, by Horner's rule on the coefficients. */
  function Rem(a: nat): nat {
    if a == 0 then 0 else MulX(Rem(a / 2), a % 2)
  }

  /** One Horner step: multiply by x, add a coefficient, reduce. */
  function MulX(r: nat, b: nat): nat {
    Reduce(2 * r + b)
  }

  function Quotient(a: nat): nat {
    if a == 0 then 0 else QuotientStep(Quotient(a / 2), Rem(a / 2), a % 2)
  }

  /** The next quotient digit: whether the Horner step subtracts the generator. */
  function QuotientStep(q: nat, r: nat, b: nat): nat {
    if 2 * r + b >= TWO64 then 2 * q + 1 else 2 * q
  }

  // ---- division with remainder ----

  lemma TopSplit(x: nat)
    requires TWO64 <= x < 2 * TWO64
    ensures x == Xor(x - TWO64, TWO64)
  {
    Pow2Of64();
    ShiftUpOne(64);
    XorDisjoint(x - TWO64, 1, 64);
  }

  lemma {:induction false} ShiftUpOne(k: nat)
    ensures ShiftUp(1, k) == Pow2(k)
  {
    if k != 0 {
      ShiftUpOne(k - 1);
    }
  }

  lemma {:induction false} ReduceTop(x: nat)
    requires TWO64 <= x < 2 * TWO64
    ensures Reduce(x) == Xor(x - TWO64, CRC64_ECMA_POLY)
    ensures Reduce(x) < TWO64
  {
    hide Xor;
    TopSplit(x);
    TopSplit(GENERATOR);
    XorSwap(x - TWO64, TWO64, CRC64_ECMA_POLY, TWO64);
    XorSelf(TWO64);
    XorZero(Xor(x - TWO64, CRC64_ECMA_POLY));
    WordBounds(x - TWO64, CRC64_ECMA_POLY);
  }

  lemma MulXBound(r: nat, b: nat)
    requires r < TWO64 && b < 2
    ensures MulX(r, b) < TWO64
  {
    var x := 2 * r + b;
    if x >= TWO64 {
      ReduceTop(x);
    }
  }

  lemma {:induction false} RemBound(a: nat)
    ensures Rem(a) < TWO64
  {
    if a != 0 {
      RemBound(a / 2);
      MulXBound(Rem(a / 2), a % 2);
    }
  }

  /** One Horner step of the division, without and with a subtraction of the generator. */
  lemma {:induction false} DivisionStep(q: nat, r: nat, h: nat, b: nat)
    requires b < 2 && h == Xor(Product(q, GENERATOR), r)
    ensures 2 * h + b == Xor(Product(QuotientStep(q, r, b), GENERATOR), MulX(r, b))
  {
    DivisionForms(q, r, h, b, 2 * r + b, GENERATOR);
  }

  lemma DivisionForms(q: nat, r: nat, h: nat, b: nat, n: nat, g: nat)
    requires b < 2 && h == Xor(Product(q, g), r) && n == 2 * r + b
    ensures 2 * h + b == Xor(Product(2 * q, g), n)
    ensures 2 * h + b == Xor(Product(2 * q + 1, g), Xor(n, g))
  {
    var p := Product(q, g);
    var m := 2 * p;
    ProductHorner(q, g);
    XorHorner(m, n, p, r, 0, b, b);
    XorBoth(m, n, g);
  }

  lemma ProductHorner(q: nat, d: nat)
    ensures Product(2 * q, d) == 2 * Product(q, d)
    ensures Product(2 * q + 1, d) == Xor(2 * Product(q, d), d)
  {
    XorZero(2 * Product(q, d));
    assert 2 * q / 2 == q && (2 * q + 1) / 2 == q;
  }

  /** `Rem` and `Quotient` divide: a = q * generator + r with deg r < 64. */
  lemma {:induction false} DivisionIdentity(a: nat)
    ensures a == Xor(Product(Quotient(a), GENERATOR), Rem(a)) && Rem(a) < TWO64
  {
    RemBound(a);
    if a == 0 {
      XorZero(0);
    } else {
      DivisionIdentity(a / 2);
      DivisionStep(Quotient(a / 2), Rem(a / 2), a / 2, a % 2);
    }
  }

  lemma {:induction false} TopBit(x: nat)
    requires x < 2 * TWO64
    ensures Bit(x, 64) <==> x >= TWO64
  {
    Pow2Of64();
    if x >= TWO64 {
      TopSplit(x);
      XorBit(x - TWO64, TWO64, 64);
      HighBit(x - TWO64, 64, 64);
      Pow2Bit(64, 64);
    } else {
      HighBit(x, 64, 64);
    }
  }

  lemma {:induction false} ReduceXor(x: nat, y: nat)
    requires x < 2 * TWO64 && y < 2 * TWO64
    ensures Xor(x, y) < 2 * TWO64
    ensures Reduce(Xor(x, y)) == Xor(Reduce(x), Reduce(y))
  {
    Pow2Of64();
    assert Pow2(65) == 2 * TWO64;
    XorBound(x, y, 65);
    TopBit(x);
    TopBit(y);
    TopBit(Xor(x, y));
    XorBit(x, y, 64);
    XorSwap(x, GENERATOR, y, GENERATOR);
    XorSelf(GENERATOR);
    XorZero(Xor(x, y));
    XorAssoc(x, y, GENERATOR);
    XorAssoc(x, GENERATOR, y);
    XorComm(y, GENERATOR);
  }

  lemma {:induction false} MulXXor(r: nat, t: nat, b: nat, c: nat, d: nat)
    requires r < TWO64 && t < TWO64 && b < 2 && c < 2
    requires d == if b != c then 1 else 0
    ensures MulX(Xor(r, t), d) == Xor(MulX(r, b), MulX(t, c))
  {
    hide Xor, Reduce;
    var x, y := 2 * r + b, 2 * t + c;
    XorHorner(x, y, r, t, b, c, d);
    ReduceXor(x, y);
  }

  lemma {:induction false} RemHorner(a: nat, half: nat, b: nat)
    requires a == 2 * half + b && b < 2
    ensures Rem(a) == MulX(Rem(half), b)
  {
    assert a / 2 == half && a % 2 == b;
  }

  /** The remainder is linear. */
  lemma {:induction false} RemXor(a: nat, b: nat)
    ensures Rem(Xor(a, b)) == Xor(Rem(a), Rem(b))
    decreases a + b
  {
    if a != 0 || b != 0 {
      RemXor(a / 2, b / 2);
      RemXorStep(a, b, a / 2, b / 2, a % 2, b % 2, if a % 2 != b % 2 then 1 else 0);
    } else {
      XorZero(0);
    }
  }

  lemma {:induction false} RemXorStep(a: nat, b: nat, c: nat, d: nat, i: nat, j: nat, k: nat)
    requires a == 2 * c + i && b == 2 * d + j && i < 2 && j < 2
    requires k == if i != j then 1 else 0
    requires Rem(Xor(c, d)) == Xor(Rem(c), Rem(d))
    ensures Rem(Xor(a, b)) == Xor(Rem(a), Rem(b))
  {
    hide Xor, Rem, MulX;
    RemBound(c);
    RemBound(d);
    RemHorner(a, c, i);
    RemHorner(b, d, j);
    XorHorner(a, b, c, d, i, j, k);
    RemHorner(Xor(a, b), Xor(c, d), k);
    MulXXor(Rem(c), Rem(d), i, j, k);
  }

  lemma {:induction false} RemSmall(r: nat)
    requires r < TWO64
    ensures Rem(r) == r
  {
    if r != 0 {
      RemSmall(r / 2);
    }
  }

  lemma {:induction false} RemEven(x: nat)
    ensures Rem(2 * x) == Reduce(2 * Rem(x))
  {
    RemHorner(2 * x, x, 0);
  }

  lemma {:induction false} RemDouble(x: nat)
    ensures Rem(2 * x) == Reduce(2 * Rem(x))
    ensures Rem(2 * Rem(x)) == Rem(2 * x)
  {
    RemBound(x);
    RemSmall(Rem(x));
    RemEven(x);
    RemEven(Rem(x));
  }

  lemma {:induction false} RemShift(x: nat, k: nat)
    ensures Rem(ShiftUp(Rem(x), k)) == Rem(ShiftUp(x, k))
  {
    if k == 0 {
      RemBound(x);
      RemSmall(Rem(x));
    } else {
      RemShift(x, k - 1);
      RemDouble(ShiftUp(Rem(x), k - 1));
      RemDouble(ShiftUp(x, k - 1));
    }
  }

  lemma {:induction false} MultiplesVanish(q: nat)
    ensures Rem(Product(q, GENERATOR)) == 0
  {
    if q != 0 {
      var half := Product(q / 2, GENERATOR);
      MultiplesVanish(q / 2);
      RemDouble(half);
      RemXor(2 * half, if q % 2 == 1 then GENERATOR else 0);
      XorZero(0);
      GeneratorVanishes();
    }
  }

  lemma GeneratorVanishes()
    ensures Rem(GENERATOR) == 0
  {
    var half := GENERATOR / 2;
    RemSmall(half);
    RemHorner(GENERATOR, half, 1);
    XorSelf(GENERATOR);
  }

  /** The remainder is unique: any r of degree below 64 with a = q * generator + r is `Rem(a)`. */
  lemma {:induction false} RemainderIsUnique(a: nat, q: nat, r: nat)
    requires r < TWO64 && a == Xor(Product(q, GENERATOR), r)
    ensures r == Rem(a)
  {
    RemXor(Product(q, GENERATOR), r);
    MultiplesVanish(q);
    RemSmall(r);
    XorZero(r);
  }

  // ---- the register ----

  /** A byte string as one polynomial, first byte most significant. */
  function BeValue(bytes: seq<Byte>): nat {
    if bytes == [] then 0
    else
      var n := |bytes| - 1;
      256 * BeValue(bytes[..n]) + bytes[n]
  }

  /** The register after `bytes` from state `s`: (s * x^(8n) + message * x^64) mod generator. */
  function Register(s: Word, bytes: seq<Byte>): Word {
    RemBound(Xor(ShiftUp(s, 8 * |bytes|), ShiftUp(BeValue(bytes), 64)));
    Rem(Xor(ShiftUp(s, 8 * |bytes|), ShiftUp(BeValue(bytes), 64)))
  }

  /** The checksum: message * x^64 modulo the generator. */
  function CrcOf(bytes: seq<Byte>): Word {
    RemBound(ShiftUp(BeValue(bytes), 64));
    Rem(ShiftUp(BeValue(bytes), 64))
  }

  lemma CrcIsRegisterFromZero(bytes: seq<Byte>)
    ensures CrcOf(bytes) == Register(0, bytes)
  {
    ShiftUpZero(8 * |bytes|);
    XorZero(ShiftUp(BeValue(bytes), 64));
  }

  lemma {:induction false} ShiftUpZero(k: nat)
    ensures ShiftUp(0, k) == 0
  {
    if k != 0 {
      ShiftUpZero(k - 1);
    }
  }

  lemma {:induction false} AppendByte(m: nat, b: Byte)
    ensures 256 * m + b == Xor(ShiftUp(m, 8), b)
  {
    assert Pow2(8) == 256;
    ShiftUpIsProduct(m, 8);
    XorDisjoint(b, m, 8);
    XorComm(b, ShiftUp(m, 8));
  }

  /** A chunk of `k` bits appended to a message shifted by `w`. */
  lemma AppendShift(s: nat, n: nat, m: nat, b: nat, w: nat, k: nat)
    ensures Xor(ShiftUp(s, n + k), ShiftUp(Xor(ShiftUp(m, k), b), w))
      == Xor(ShiftUp(Xor(ShiftUp(s, n), ShiftUp(m, w)), k), ShiftUp(b, w))
  {
    ShiftUpXor(ShiftUp(m, k), b, w);
    ShiftUpAdd(m, k, w);
    ShiftUpAdd(m, w, k);
    ShiftUpAdd(s, n, k);
    ShiftUpXor(ShiftUp(s, n), ShiftUp(m, w), k);
    XorAssoc(ShiftUp(s, n + k), ShiftUp(m, w + k), ShiftUp(b, w));
  }

  /** Reducing before the shift, and adding the chunk before it, changes no remainder. */
  lemma ReduceFirst(a: nat, b: nat, w: nat, k: nat)
    ensures Rem(Xor(ShiftUp(a, k), ShiftUp(b, w + k))) == Rem(ShiftUp(Xor(Rem(a), ShiftUp(b, w)), k))
  {
    RemXor(ShiftUp(a, k), ShiftUp(b, w + k));
    RemShift(a, k);
    ShiftUpXor(Rem(a), ShiftUp(b, w), k);
    ShiftUpAdd(b, w, k);
    RemXor(ShiftUp(Rem(a), k), ShiftUp(b, w + k));
  }

  lemma RegisterChunk(s: nat, n: nat, m: nat, b: nat, t: nat, k: nat, w: nat)
    requires w == t + k
    ensures Rem(Xor(ShiftUp(s, n + k), ShiftUp(Xor(ShiftUp(m, k), b), w)))
      == Rem(ShiftUp(Xor(Rem(Xor(ShiftUp(s, n), ShiftUp(m, w))), ShiftUp(b, t)), k))
  {
    hide ShiftUp, Xor, Rem;
    AppendShift(s, n, m, b, w, k);
    ReduceFirst(Xor(ShiftUp(s, n), ShiftUp(m, w)), b, t, k);
  }

  /** One more byte: xor it into the top and multiply by x^8. */
  lemma {:induction false} RegisterByte(s: Word, bytes: seq<Byte>, b: Byte)
    ensures Register(s, bytes + [b]) == Rem(ShiftUp(Xor(Register(s, bytes), ShiftUp(b, 56)), 8))
  {
    hide ShiftUp, Xor, Rem;
    var n, m := 8 * |bytes|, BeValue(bytes);
    assert (bytes + [b])[..|bytes|] == bytes;
    AppendByte(m, b);
    RegisterChunk(s, n, m, b, 56, 8, 64);
  }

  /** One turn of the inner loop multiplies the register by x. */
  function ShiftStep(crc: Word): (next: Word)
    ensures next == Rem(2 * crc)
  {
    StepIsRem(crc);
    WordBounds(Shl64(crc, 1), CRC64_ECMA_POLY);
    if And(crc, TOP_BIT) != 0 then Xor(Shl64(crc, 1), CRC64_ECMA_POLY) else Shl64(crc, 1)
  }

  lemma {:induction false} StepIsRem(crc: Word)
    ensures Rem(2 * crc) ==
      if And(crc, TOP_BIT) != 0 then Xor(Shl64(crc, 1), CRC64_ECMA_POLY) else Shl64(crc, 1)
  {
    TopBitTest(crc);
    RemSmall(crc);
    RemHorner(2 * crc, crc, 0);
    DoubleShift(crc);
    if crc >= TOP_BIT {
      ReduceTop(2 * crc);
    }
  }

  lemma {:induction false} TopBitTest(crc: Word)
    ensures And(crc, TOP_BIT) != 0 <==> crc >= TOP_BIT
  {
    Pow2Of64();
    if crc < TOP_BIT {
      forall i: nat
        ensures Bit(And(crc, TOP_BIT), i) == Bit(0, i)
      {
        AndBit(crc, TOP_BIT, i);
        Pow2Bit(63, i);
        HighBit(crc, 63, 63);
        ZeroBit(i);
      }
      SameBits(And(crc, TOP_BIT), 0);
    } else {
      XorDisjoint(crc - TOP_BIT, 1, 63);
      ShiftUpOne(63);
      XorBit(crc - TOP_BIT, TOP_BIT, 63);
      HighBit(crc - TOP_BIT, 63, 63);
      Pow2Bit(63, 63);
      AndBit(crc, TOP_BIT, 63);
      ZeroBit(63);
    }
  }

  /** `crc << 1` drops exactly the top bit. */
  lemma DoubleShift(crc: Word)
    ensures Shl64(crc, 1) == if crc >= TOP_BIT then 2 * crc - TWO64 else 2 * crc
  {
    Pow2Of64();
    var kept := if crc >= TOP_BIT then 2 * crc - TWO64 else 2 * crc;
    assert ShiftUp(crc, 1) == 2 * crc;
    LowBound(2 * crc, 64);
    forall i | 0 <= i < 64
      ensures Bit(Shl64(crc, 1), i) == Bit(kept, i)
    {
      LowBit(2 * crc, 64, i);
      if crc >= TOP_BIT {
        TopSplit(2 * crc);
        XorBit(kept, TWO64, i);
        Pow2Bit(64, i);
      }
    }
    SameLowBits(Shl64(crc, 1), kept, 64);
  }

  /** `Crc64Ecma`. */
  class Crc64Ecma {
    var state: Word

    constructor ()
      ensures state == 0
    {
      state := 0;
    }

    /** Leaves the register at the polynomial remainder. */
    method Update(bytes: seq<Byte>)
      modifies this
      ensures state == Register(old(state), bytes)
    {
      var crc := state;
      EmptyRegister(crc);
      for i := 0 to |bytes|
        invariant crc == Register(old(state), bytes[..i])
      {
        RegisterByte(old(state), bytes[..i], bytes[i]);
        assert bytes[..i + 1] == bytes[..i] + [bytes[i]];
        TopByte(bytes[i]);
        WordBounds(crc, Shl64(bytes[i], 56));
        crc := Xor(crc, Shl64(bytes[i], 56));
        crc := EightSteps(crc);
      }
      assert bytes[..|bytes|] == bytes;
      state := crc;
    }
  }

  /** The inner loop of `update`: eight shifts multiply the register by x^8. */
  method EightSteps(entry: Word) returns (crc: Word)
    ensures crc == Rem(ShiftUp(entry, 8))
  {
    crc := entry;
    RemSmall(entry);
    for k := 0 to 8
      invariant crc == Rem(ShiftUp(entry, k))
    {
      RemDouble(ShiftUp(entry, k));
      crc := ShiftStep(crc);
    }
  }

  lemma EmptyRegister(s: Word)
    ensures Register(s, []) == s
  {
    ShiftUpZero(64);
    XorZero(s);
    RemSmall(s);
  }

  lemma {:induction false} TopByte(b: Byte)
    ensures Shl64(b, 56) == ShiftUp(b, 56)
  {
    assert Pow2(8) == 256;
    ShiftUpBound(b, 8, 56);
    LowOfSmall(ShiftUp(b, 56), 64);
  }

  /** `crc64_ecma`. */
  method Crc64(bytes: seq<Byte>) returns (value: Word)
    ensures value == CrcOf(bytes)
  {
    var crc := new Crc64Ecma();
    crc.Update(bytes);
    CrcIsRegisterFromZero(bytes);
    value := crc.state;
  }

  // ---- properties of the checksum ----

  lemma {:induction false} BeValueAppend(a: seq<Byte>, b: seq<Byte>)
    ensures BeValue(a + b) == Xor(ShiftUp(BeValue(a), 8 * |b|), BeValue(b))
  {
    hide Xor;
    if b == [] {
      assert a + b == a;
      XorZero(BeValue(a));
    } else {
      var n := |b| - 1;
      assert (a + b)[..|a + b| - 1] == a + b[..n];
      BeValueAppend(a, b[..n]);
      AppendByte(BeValue(a + b[..n]), b[n]);
      AppendByte(BeValue(b[..n]), b[n]);
      ShiftUpXor(ShiftUp(BeValue(a), 8 * n), BeValue(b[..n]), 8);
      ShiftUpAdd(BeValue(a), 8 * n, 8);
      XorAssoc(ShiftUp(BeValue(a), 8 * |b|), ShiftUp(BeValue(b[..n]), 8), b[n]);
    }
  }

  /** Feeding a message in any split gives the one-shot register. */
  lemma SplitFeeding(s: Word, a: seq<Byte>, b: seq<Byte>)
    ensures Register(Register(s, a), b) == Register(s, a + b)
  {
    var n, m := 8 * |a|, 8 * |b|;
    var x := Xor(ShiftUp(s, n), ShiftUp(BeValue(a), 64));
    RemXor(ShiftUp(Rem(x), m), ShiftUp(BeValue(b), 64));
    RemShift(x, m);
    RemXor(ShiftUp(x, m), ShiftUp(BeValue(b), 64));
    AppendShift(s, n, BeValue(a), BeValue(b), 64, m);
    BeValueAppend(a, b);
  }

  function XorBytes(a: seq<Byte>, b: seq<Byte>): seq<Byte>
    requires |a| == |b|
  {
    if a == [] then []
    else
      var n := |a| - 1;
      XorBytes(a[..n], b[..n]) + [XorByte(a[n], b[n])]
  }

  function XorByte(a: Byte, b: Byte): Byte {
    XorBound(a, b, 8);
    assert Pow2(8) == 256;
    Xor(a, b)
  }

  lemma {:induction false} BeValueSnoc(bytes: seq<Byte>, b: Byte)
    ensures BeValue(bytes + [b]) == Xor(ShiftUp(BeValue(bytes), 8), b)
  {
    assert (bytes + [b])[..|bytes|] == bytes;
    AppendByte(BeValue(bytes), b);
  }

  lemma {:induction false} BeValueXor(a: seq<Byte>, b: seq<Byte>)
    requires |a| == |b|
    ensures |XorBytes(a, b)| == |a|
    ensures BeValue(XorBytes(a, b)) == Xor(BeValue(a), BeValue(b))
  {
    if a == [] {
      XorZero(0);
    } else {
      var n := |a| - 1;
      BeValueXor(a[..n], b[..n]);
      assert a == a[..n] + [a[n]] && b == b[..n] + [b[n]];
      BeValueSnoc(a[..n], a[n]);
      BeValueSnoc(b[..n], b[n]);
      BeValueSnoc(XorBytes(a[..n], b[..n]), XorByte(a[n], b[n]));
      ShiftUpXor(BeValue(a[..n]), BeValue(b[..n]), 8);
      XorSwap(ShiftUp(BeValue(a[..n]), 8), a[n], ShiftUp(BeValue(b[..n]), 8), b[n]);
    }
  }

  /** For messages of equal length the checksum is linear. */
  lemma {:induction false} CrcIsLinear(a: seq<Byte>, b: seq<Byte>)
    requires |a| == |b|
    ensures CrcOf(XorBytes(a, b)) == Xor(CrcOf(a), CrcOf(b))
  {
    BeValueXor(a, b);
    ShiftUpXor(BeValue(a), BeValue(b), 64);
    RemXor(ShiftUp(BeValue(a), 64), ShiftUp(BeValue(b), 64));
  }

  /** No nonzero polynomial of degree below 64, shifted, is a multiple of the generator. */
  lemma {:induction false} BurstSurvives(w: nat, k: nat)
    requires 0 < w < TWO64
    ensures Rem(ShiftUp(w, k)) != 0
  {
    if k == 0 {
      RemSmall(w);
    } else {
      BurstSurvives(w, k - 1);
      var r := Rem(ShiftUp(w, k - 1));
      RemDouble(ShiftUp(w, k - 1));
      if 2 * r >= TWO64 && Xor(2 * r, GENERATOR) == 0 {
        XorCancel(2 * r, GENERATOR);
      }
    }
  }

  /** Messages that differ by a shifted word have different checksums. */
  lemma {:induction false} DifferenceDetected(a: seq<Byte>, b: seq<Byte>, w: nat, k: nat)
    requires 0 < w < TWO64 && Xor(BeValue(a), BeValue(b)) == ShiftUp(w, k)
    ensures CrcOf(a) != CrcOf(b)
  {
    ShiftUpXor(BeValue(a), BeValue(b), 64);
    ShiftUpAdd(w, k, 64);
    RemXor(ShiftUp(BeValue(a), 64), ShiftUp(BeValue(b), 64));
    BurstSurvives(w, k + 64);
    XorSelf(CrcOf(a));
  }

  /** Any change confined to one window of 64 consecutive bits, wherever it starts, changes the
      checksum, at any message length. Message bits count from the end of the message. */
  lemma {:induction false} BurstDetected(a: seq<Byte>, b: seq<Byte>, k: nat)
    requires BeValue(a) != BeValue(b)
    requires forall i: nat :: i < k || k + 64 <= i ==> Bit(BeValue(a), i) == Bit(BeValue(b), i)
    ensures CrcOf(a) != CrcOf(b)
  {
    var d := Xor(BeValue(a), BeValue(b));
    var w := Low(Shr(d, k), 64);
    forall i: nat
      ensures Bit(ShiftUp(w, k), i) == Bit(d, i)
    {
      ShiftUpBit(w, k, i);
      if k <= i {
        LowBit(Shr(d, k), 64, i - k);
        ShrBit(d, k, i - k);
      }
      XorBit(BeValue(a), BeValue(b), i);
    }
    SameBits(ShiftUp(w, k), d);
    XorCancel(BeValue(a), BeValue(b));
    ShiftUpZero(k);
    LowBound(Shr(d, k), 64);
    Pow2Of64();
    DifferenceDetected(a, b, w, k);
  }

  lemma {:induction false} BeValueInjective(a: seq<Byte>, b: seq<Byte>)
    requires |a| == |b| && BeValue(a) == BeValue(b)
    ensures a == b
  {
    if a != [] {
      var n := |a| - 1;
      BeValueInjective(a[..n], b[..n]);
      assert a == a[..n] + [a[n]] && b == b[..n] + [b[n]];
    }
  }

  lemma {:induction false} BeValueBound(a: seq<Byte>)
    ensures BeValue(a) < Pow2(8 * |a|)
  {
    if a != [] {
      var n := |a| - 1;
      BeValueBound(a[..n]);
      Pow2Sum(8 * n, 8);
      assert Pow2(8) == 256;
    }
  }

  /** Up to eight consecutive bytes: replacing them by others changes the checksum. */
  lemma WindowDetected(before: seq<Byte>, x: seq<Byte>, y: seq<Byte>, after: seq<Byte>)
    requires |x| == |y| <= 8 && x != y
    ensures CrcOf(before + x + after) != CrcOf(before + y + after)
  {
    var k := 8 * |after|;
    var p := ShiftUp(BeValue(before), 8 * |x|);
    BeValueAppend(before, x);
    BeValueAppend(before, y);
    BeValueAppend(before + x, after);
    BeValueAppend(before + y, after);
    var u, v := Xor(p, BeValue(x)), Xor(p, BeValue(y));
    XorSwap(ShiftUp(u, k), BeValue(after), ShiftUp(v, k), BeValue(after));
    XorSelf(BeValue(after));
    XorZero(Xor(ShiftUp(u, k), ShiftUp(v, k)));
    ShiftUpXor(u, v, k);
    XorSwap(p, BeValue(x), p, BeValue(y));
    XorSelf(p);
    XorZero(Xor(BeValue(x), BeValue(y)));
    var w := Xor(BeValue(x), BeValue(y));
    if w == 0 {
      XorCancel(BeValue(x), BeValue(y));
      BeValueInjective(x, y);
    }
    BeValueBound(x);
    BeValueBound(y);
    Pow2Mono(8 * |x|, 64);
    Pow2Of64();
    XorBound(BeValue(x), BeValue(y), 64);
    DifferenceDetected(before + x + after, before + y + after, w, k);
  }
}
