/** Machine words as natural numbers.

    A `u64` is a natural number below 2^64 and a polynomial over GF(2) is a
    natural number of any size: bit `i` is the coefficient of x^i. Every bitwise
    operation is defined one binary digit at a time, so the lemmas below are
    inductions on the digits and need no nonlinear arithmetic. */
module Words {

  const TWO64: nat := 0x1_0000_0000_0000_0000

  type Word = w: nat | w < TWO64
  type Byte = b: nat | b < 256

  function Pow2(n: nat): (p: nat)
    ensures p > 0
  {
    if n == 0 then 1 else 2 * Pow2(n - 1)
  }

  predicate Bit(w: nat, i: nat) {
    if i == 0 then w % 2 == 1 else Bit(w / 2, i - 1)
  }

  function Xor(a: nat, b: nat): nat
    decreases a + b
  {
    if a == 0 && b == 0 then 0 else (if a % 2 != b % 2 then 1 else 0) + 2 * Xor(a / 2, b / 2)
  }

  function And(a: nat, b: nat): nat
    decreases a + b
  {
    if a == 0 && b == 0 then 0 else (if a % 2 == 1 && b % 2 == 1 then 1 else 0) + 2 * And(a / 2, b / 2)
  }

  function Or(a: nat, b: nat): nat
    decreases a + b
  {
    if a == 0 && b == 0 then 0
    else (if a % 2 == 1 || b % 2 == 1 then 1 else 0) + 2 * Or(a / 2, b / 2)
  }

  /** Truncating cast to `n` bits. */
  function Low(w: nat, n: nat): nat {
    if n == 0 then 0 else w % 2 + 2 * Low(w / 2, n - 1)
  }

  /** Unbounded left shift: multiplication by x^k. */
  function ShiftUp(w: nat, k: nat): nat {
    if k == 0 then w else 2 * ShiftUp(w, k - 1)
  }

  function Shr(w: nat, k: nat): nat {
    if k == 0 then w else Shr(w / 2, k - 1)
  }

  /** `!w` on 64 bits. */
  function Not64(w: Word): Word {
    TWO64 - 1 - w
  }

  /** `w << k` on 64 bits: bits shifted past the top are lost. */
  function Shl64(w: Word, k: nat): Word {
    LowBound(ShiftUp(w, k), 64);
    Pow2Of64();
    Low(ShiftUp(w, k), 64)
  }

  /** `u64::count_ones`. */
  function PopCount(w: nat): nat {
    if w == 0 then 0 else w % 2 + PopCount(w / 2)
  }

  /** `u64::trailing_zeros` of a nonzero word. */
  function TrailingZeros(w: nat): nat
    requires w != 0
  {
    if w % 2 == 1 then 0 else 1 + TrailingZeros(w / 2)
  }

  /** The `n` low bits, least significant first. */
  function ToBits(w: nat, n: nat): (bits: seq<bool>)
    ensures |bits| == n
  {
    if n == 0 then [] else [w % 2 == 1] + ToBits(w / 2, n - 1)
  }

  function FromBits(bits: seq<bool>): nat {
    if bits == [] then 0 else (if bits[0] then 1 else 0) + 2 * FromBits(bits[1..])
  }

  /** `u64::reverse_bits`. */
  function ReverseBits(w: Word): Word {
    var bits := seq(64, i requires 0 <= i < 64 => Bit(w, 63 - i));
    FromBitsBound(bits);
    Pow2Of64();
    FromBits(bits)
  }

  // ---- powers and bounds ----

  lemma Pow2Of64()
    ensures Pow2(64) == TWO64
    ensures Pow2(63) == 0x8000_0000_0000_0000
  {
    hide Pow2;
    Pow2OfByte();
    Pow2Doubles(8, 0x100);
    Pow2Doubles(16, 0x1_0000);
    Pow2Doubles(32, 0x1_0000_0000);
    Pow2Next(63);
  }

  lemma Pow2OfByte()
    ensures Pow2(8) == 0x100
  {
  }

  lemma Pow2Doubles(n: nat, p: nat)
    requires Pow2(n) == p
    ensures Pow2(n + n) == p * p
  {
    Pow2Sum(n, n);
  }

  lemma Pow2Next(n: nat)
    ensures Pow2(n + 1) == 2 * Pow2(n)
  {
  }

  lemma {:induction false} Pow2Sum(m: nat, n: nat)
    ensures Pow2(m + n) == Pow2(m) * Pow2(n)
  {
    if n != 0 {
      Pow2Sum(m, n - 1);
      assert Pow2(m + n) == 2 * (Pow2(m) * Pow2(n - 1));
    }
  }

  lemma {:induction false} LowBound(w: nat, n: nat)
    ensures Low(w, n) < Pow2(n)
  {
    if n != 0 {
      LowBound(w / 2, n - 1);
    }
  }

  lemma {:induction false} LowOfSmall(w: nat, n: nat)
    requires w < Pow2(n)
    ensures Low(w, n) == w
  {
    if n != 0 {
      LowOfSmall(w / 2, n - 1);
    }
  }

  lemma {:induction false} XorBound(a: nat, b: nat, n: nat)
    requires a < Pow2(n) && b < Pow2(n)
    ensures Xor(a, b) < Pow2(n)
  {
    if n != 0 {
      XorBound(a / 2, b / 2, n - 1);
    }
  }

  lemma {:induction false} OrBound(a: nat, b: nat, n: nat)
    requires a < Pow2(n) && b < Pow2(n)
    ensures Or(a, b) < Pow2(n)
  {
    if n != 0 {
      OrBound(a / 2, b / 2, n - 1);
    }
  }

  lemma {:induction false} AndBound(a: nat, b: nat, n: nat)
    requires a < Pow2(n)
    ensures And(a, b) < Pow2(n)
  {
    if n != 0 {
      AndBound(a / 2, b / 2, n - 1);
    } else {
      AndZero(b);
    }
  }

  lemma {:induction false} AndZero(b: nat)
    ensures And(0, b) == 0
  {
    if b != 0 {
      AndZero(b / 2);
    }
  }

  lemma {:induction false} AndComm(a: nat, b: nat)
    ensures And(a, b) == And(b, a)
    decreases a + b
  {
    if a != 0 || b != 0 {
      AndComm(a / 2, b / 2);
    }
  }

  lemma {:induction false} WordBounds(a: Word, b: Word)
    ensures Xor(a, b) < TWO64 && Or(a, b) < TWO64 && And(a, b) < TWO64
  {
    Pow2Of64();
    XorBound(a, b, 64);
    OrBound(a, b, 64);
    AndBound(a, b, 64);
  }

  lemma {:induction false} FromBitsBound(bits: seq<bool>)
    ensures FromBits(bits) < Pow2(|bits|)
  {
    if bits != [] {
      FromBitsBound(bits[1..]);
    }
  }

  lemma {:induction false} Pow2Mono(m: nat, n: nat)
    requires m <= n
    ensures Pow2(m) <= Pow2(n)
  {
    if m < n {
      Pow2Mono(m, n - 1);
    }
  }

  // ---- the digits of each operation ----

  lemma {:induction false} ZeroBit(i: nat)
    ensures !Bit(0, i)
  {
    if i != 0 {
      ZeroBit(i - 1);
    }
  }

  lemma {:induction false} XorBit(a: nat, b: nat, i: nat)
    ensures Bit(Xor(a, b), i) == (Bit(a, i) != Bit(b, i))
  {
    assert Xor(a, b) / 2 == Xor(a / 2, b / 2);
    if i != 0 {
      XorBit(a / 2, b / 2, i - 1);
    }
  }

  lemma {:induction false} OrBit(a: nat, b: nat, i: nat)
    ensures Bit(Or(a, b), i) == (Bit(a, i) || Bit(b, i))
  {
    assert Or(a, b) / 2 == Or(a / 2, b / 2);
    if i != 0 {
      OrBit(a / 2, b / 2, i - 1);
    }
  }

  lemma {:induction false} AndBit(a: nat, b: nat, i: nat)
    ensures Bit(And(a, b), i) == (Bit(a, i) && Bit(b, i))
  {
    assert And(a, b) / 2 == And(a / 2, b / 2);
    if i != 0 {
      AndBit(a / 2, b / 2, i - 1);
    }
  }

  lemma {:induction false} LowBit(w: nat, n: nat, i: nat)
    ensures Bit(Low(w, n), i) == (i < n && Bit(w, i))
  {
    if n == 0 {
      ZeroBit(i);
    } else if i != 0 {
      LowBit(w / 2, n - 1, i - 1);
    }
  }

  lemma {:induction false} ShrBit(w: nat, k: nat, i: nat)
    ensures Bit(Shr(w, k), i) == Bit(w, i + k)
  {
    if k != 0 {
      ShrBit(w / 2, k - 1, i);
    }
  }

  lemma {:induction false} ShiftUpBound(v: nat, m: nat, n: nat)
    requires v < Pow2(m)
    ensures ShiftUp(v, n) < Pow2(m + n)
  {
    if n != 0 {
      ShiftUpBound(v, m, n - 1);
    }
  }

  lemma {:induction false} ShrShrinks(v: nat, k: nat)
    ensures Shr(v, k) <= v
  {
    if k != 0 {
      ShrShrinks(v / 2, k - 1);
    }
  }

  lemma {:induction false} ShiftUpBit(w: nat, k: nat, i: nat)
    ensures Bit(ShiftUp(w, k), i) == (k <= i && Bit(w, i - k))
  {
    if k != 0 && i != 0 {
      ShiftUpBit(w, k - 1, i - 1);
    }
  }

  lemma {:induction false} Shl64Bit(w: Word, k: nat, i: nat)
    ensures Bit(Shl64(w, k), i) == (k <= i < 64 && Bit(w, i - k))
  {
    LowBit(ShiftUp(w, k), 64, i);
    ShiftUpBit(w, k, i);
  }

  lemma {:induction false} NotBit(w: nat, n: nat, i: nat)
    requires w < Pow2(n)
    ensures Bit(Pow2(n) - 1 - w, i) == (i < n && !Bit(w, i))
  {
    if n == 0 {
      ZeroBit(i);
    } else if i != 0 {
      assert (Pow2(n) - 1 - w) / 2 == Pow2(n - 1) - 1 - w / 2;
      NotBit(w / 2, n - 1, i - 1);
    }
  }

  lemma {:induction false} Pow2Bit(k: nat, i: nat)
    ensures Bit(Pow2(k), i) == (i == k)
  {
    if k == 0 {
      if i != 0 {
        ZeroBit(i - 1);
      }
    } else if i != 0 {
      Pow2Bit(k - 1, i - 1);
    }
  }

  lemma {:induction false} FromBitsBit(bits: seq<bool>, i: nat)
    ensures Bit(FromBits(bits), i) == (i < |bits| && bits[i])
  {
    if bits == [] {
      ZeroBit(i);
    } else if i != 0 {
      FromBitsBit(bits[1..], i - 1);
    }
  }

  lemma {:induction false} ReverseBit(w: Word, i: nat)
    ensures Bit(ReverseBits(w), i) == (i < 64 && Bit(w, 63 - i))
  {
    FromBitsBit(seq(64, j requires 0 <= j < 64 => Bit(w, 63 - j)), i);
  }

  lemma {:induction false} HighBit(w: nat, n: nat, i: nat)
    requires w < Pow2(n) && n <= i
    ensures !Bit(w, i)
  {
    if n == 0 {
      ZeroBit(i);
    } else {
      HighBit(w / 2, n - 1, i - 1);
    }
  }

  /** A number is determined by its digits. */
  lemma {:induction false} SameBits(a: nat, b: nat)
    requires forall i: nat :: Bit(a, i) == Bit(b, i)
    ensures a == b
    decreases a + b
  {
    if a != 0 || b != 0 {
      forall i: nat
        ensures Bit(a / 2, i) == Bit(b / 2, i)
      {
        assert Bit(a, i + 1) == Bit(b, i + 1);
      }
      SameBits(a / 2, b / 2);
      assert Bit(a, 0) == Bit(b, 0);
    }
  }

  lemma SameLowBits(a: nat, b: nat, n: nat)
    requires a < Pow2(n) && b < Pow2(n)
    requires forall i :: 0 <= i < n ==> Bit(a, i) == Bit(b, i)
    ensures a == b
  {
    forall i: nat
      ensures Bit(a, i) == Bit(b, i)
    {
      if n <= i {
        HighBit(a, n, i);
        HighBit(b, n, i);
      }
    }
    SameBits(a, b);
  }

  // ---- the group of exclusive or ----

  lemma {:induction false} XorComm(a: nat, b: nat)
    ensures Xor(a, b) == Xor(b, a)
    decreases a + b
  {
    if a != 0 || b != 0 {
      XorComm(a / 2, b / 2);
    }
  }

  lemma {:induction false} XorAssoc(a: nat, b: nat, c: nat)
    ensures Xor(Xor(a, b), c) == Xor(a, Xor(b, c))
  {
    forall i: nat
      ensures Bit(Xor(Xor(a, b), c), i) == Bit(Xor(a, Xor(b, c)), i)
    {
      XorBit(Xor(a, b), c, i);
      XorBit(a, b, i);
      XorBit(a, Xor(b, c), i);
      XorBit(b, c, i);
    }
    SameBits(Xor(Xor(a, b), c), Xor(a, Xor(b, c)));
  }

  lemma {:induction false} XorSelf(a: nat)
    ensures Xor(a, a) == 0
  {
    if a != 0 {
      XorSelf(a / 2);
    }
  }

  lemma {:induction false} XorZero(a: nat)
    ensures Xor(a, 0) == a && Xor(0, a) == a
  {
    if a != 0 {
      XorZero(a / 2);
    }
  }

  lemma {:induction false} XorCancel(a: nat, b: nat)
    ensures Xor(Xor(a, b), b) == a
    ensures Xor(a, b) == 0 ==> a == b
  {
    XorAssoc(a, b, b);
    XorSelf(b);
    XorZero(a);
    XorZero(b);
  }

  lemma {:induction false} XorSwap(a: nat, b: nat, c: nat, d: nat)
    ensures Xor(Xor(a, b), Xor(c, d)) == Xor(Xor(a, c), Xor(b, d))
  {
    XorAssoc(a, b, Xor(c, d));
    XorAssoc(b, c, d);
    XorComm(b, c);
    XorAssoc(c, b, d);
    XorAssoc(a, c, Xor(b, d));
  }

  lemma {:induction false} XorBoth(a: nat, b: nat, g: nat)
    ensures Xor(Xor(a, g), Xor(b, g)) == Xor(a, b)
  {
    XorSwap(a, g, b, g);
    XorSelf(g);
    XorZero(Xor(a, b));
  }

  /** Exclusive or at the lowest digit. */
  lemma {:induction false} XorHorner(m: nat, n: nat, x: nat, y: nat, b: nat, c: nat, d: nat)
    requires m == 2 * x + b && n == 2 * y + c && b < 2 && c < 2
    requires d == if b != c then 1 else 0
    ensures Xor(m, n) == 2 * Xor(x, y) + d
  {
    assert m / 2 == x && n / 2 == y && m % 2 == b && n % 2 == c;
    if m == 0 && n == 0 {
      XorZero(0);
    }
  }

  lemma {:induction false} XorDouble(a: nat, b: nat)
    ensures Xor(2 * a, 2 * b) == 2 * Xor(a, b)
  {
    XorHorner(2 * a, 2 * b, a, b, 0, 0, 0);
  }

  lemma {:induction false} ShiftUpXor(a: nat, b: nat, k: nat)
    ensures ShiftUp(Xor(a, b), k) == Xor(ShiftUp(a, k), ShiftUp(b, k))
  {
    if k != 0 {
      ShiftUpXor(a, b, k - 1);
      XorDouble(ShiftUp(a, k - 1), ShiftUp(b, k - 1));
    }
  }

  lemma {:induction false} ShiftUpAdd(a: nat, j: nat, k: nat)
    ensures ShiftUp(ShiftUp(a, j), k) == ShiftUp(a, j + k)
  {
    if k != 0 {
      ShiftUpAdd(a, j, k - 1);
    }
  }

  /** Joining disjoint digits: `lo ^ hi << k` is a sum. */
  lemma {:induction false} XorDisjoint(lo: nat, hi: nat, k: nat)
    requires lo < Pow2(k)
    ensures Xor(lo, ShiftUp(hi, k)) == lo + ShiftUp(hi, k)
  {
    if k == 0 {
      XorZero(hi);
    } else {
      XorDisjoint(lo / 2, hi, k - 1);
      assert ShiftUp(hi, k) / 2 == ShiftUp(hi, k - 1);
    }
  }

  lemma {:induction false} OrZero(a: nat)
    ensures Or(0, a) == a
  {
    if a != 0 {
      OrZero(a / 2);
    }
  }

  // ---- digit strings ----

  lemma {:induction false} ToFromBits(w: nat, n: nat)
    ensures FromBits(ToBits(w, n)) == Low(w, n)
  {
    if n != 0 {
      ToFromBits(w / 2, n - 1);
      assert ToBits(w, n)[1..] == ToBits(w / 2, n - 1);
    }
  }

  lemma {:induction false} FromToBits(bits: seq<bool>)
    ensures ToBits(FromBits(bits), |bits|) == bits
  {
    if bits != [] {
      FromToBits(bits[1..]);
      assert bits == [bits[0]] + bits[1..];
    }
  }

  lemma {:induction false} ToBitsSplit(w: nat, m: nat, n: nat)
    ensures ToBits(w, m + n) == ToBits(w, m) + ToBits(Shr(w, m), n)
  {
    if m == 0 {
      assert ToBits(w, m) == [];
    } else {
      ToBitsSplit(w / 2, m - 1, n);
    }
  }

  lemma {:induction false} ToBitsJoin(lo: nat, hi: nat, m: nat, n: nat)
    requires lo < Pow2(m)
    ensures ToBits(Or(lo, ShiftUp(hi, m)), m + n) == ToBits(lo, m) + ToBits(hi, n)
  {
    if m == 0 {
      OrZero(hi);
      assert ToBits(lo, m) == [];
    } else {
      ToBitsJoin(lo / 2, hi, m - 1, n);
    }
  }

  lemma {:induction false} ToBitsLow(w: nat, m: nat, n: nat)
    requires n <= m
    ensures ToBits(Low(w, m), n) == ToBits(w, n)
  {
    if n != 0 {
      ToBitsLow(w / 2, m - 1, n - 1);
    }
  }

  // ---- least significant set bit ----

  /** `word &= word - 1` clears exactly the lowest set bit. */
  lemma {:induction false} ClearLowest(w: nat, i: nat)
    requires w != 0
    ensures Bit(And(w, w - 1), i) == (Bit(w, i) && i != TrailingZeros(w))
    ensures And(w, w - 1) < w
  {
    if w % 2 == 1 {
      assert (w - 1) / 2 == w / 2;
      AndSelf(w / 2);
    } else {
      assert (w - 1) / 2 == w / 2 - 1;
      ClearLowest(w / 2, if i == 0 then 0 else i - 1);
    }
  }

  lemma {:induction false} AndSelf(a: nat)
    ensures And(a, a) == a
  {
    if a != 0 {
      AndSelf(a / 2);
    }
  }

  lemma {:induction false} TrailingZerosLowest(w: nat, i: nat)
    requires w != 0
    ensures Bit(w, TrailingZeros(w))
    ensures Bit(w, i) ==> TrailingZeros(w) <= i
  {
    if w % 2 != 1 {
      TrailingZerosLowest(w / 2, if i == 0 then 0 else i - 1);
    }
  }

  // ---- arithmetic meaning ----

  /** `Low` and `Shr` are the remainder and the quotient by 2^n. */
  lemma {:induction false} SplitAt(w: nat, n: nat)
    ensures w == Shr(w, n) * Pow2(n) + Low(w, n) && Low(w, n) < Pow2(n)
  {
    if n != 0 {
      SplitAt(w / 2, n - 1);
      var q, p := Shr(w, n), Pow2(n - 1);
      assert q * Pow2(n) == 2 * (q * p);
    }
  }

  lemma {:induction false} ShiftUpIsProduct(w: nat, k: nat)
    ensures ShiftUp(w, k) == w * Pow2(k)
  {
    if k != 0 {
      ShiftUpIsProduct(w, k - 1);
      assert w * Pow2(k) == 2 * (w * Pow2(k - 1));
    }
  }
}
