/** Odd numbers of bit flips. The generator has an even number of terms, so x + 1 divides it and
    the CRC keeps the parity of its message: every accepted header has an even number of set bits,
    and a change of an odd number of bits, wherever they are, is always rejected. */
module Parity {
  import opened Words
  import opened LittleEndian
  import opened Crc
  import opened Store
  import opened Corruption
  import opened Wrappers

  // ---- parity of words ----

  /** An odd number of bits is set. */
  predicate Odd(w: nat) {
    w != 0 && (w % 2 == 1) != Odd(w / 2)
  }

  lemma {:induction false} OddIsPopCount(w: nat)
    ensures Odd(w) == (PopCount(w) % 2 == 1)
  {
    if w != 0 {
      OddIsPopCount(w / 2);
    }
  }

  lemma {:induction false} OddHorner(n: nat, w: nat, b: nat)
    requires b < 2 && n == 2 * w + b
    ensures Odd(n) == (Odd(w) != (b == 1))
  {
    assert n / 2 == w && n % 2 == b;
  }

  lemma {:induction false} OddXor(a: nat, b: nat)
    ensures Odd(Xor(a, b)) == (Odd(a) != Odd(b))
    decreases a + b
  {
    if a != 0 || b != 0 {
      OddXor(a / 2, b / 2);
      OddHorner(Xor(a, b), Xor(a / 2, b / 2), if a % 2 != b % 2 then 1 else 0);
    }
  }

  lemma {:induction false} OddShift(w: nat, k: nat)
    ensures Odd(ShiftUp(w, k)) == Odd(w)
  {
    if k != 0 {
      OddShift(w, k - 1);
      OddHorner(ShiftUp(w, k), ShiftUp(w, k - 1), 0);
    }
  }

  /** Appending `k` low bits. */
  lemma {:induction false} OddJoin(n: nat, hi: nat, lo: nat, k: nat)
    requires lo < Pow2(k) && n == hi * Pow2(k) + lo
    ensures Odd(n) == (Odd(hi) != Odd(lo))
  {
    ShiftUpIsProduct(hi, k);
    XorDisjoint(lo, hi, k);
    OddXor(lo, ShiftUp(hi, k));
    OddShift(hi, k);
  }

  // ---- the generator ----

  function Append(w: nat, digit: nat): nat { 16 * w + digit }

  predicate OddPair(d: nat) { d == 1 || d == 2 }

  predicate OddDigit(d: nat) { OddPair(d / 4) != OddPair(d % 4) }

  /** The parity of the generator's digits, from the effect of appending one digit alone. */
  lemma GeneratorDigits(f: nat -> bool)
    requires f(1)
    requires forall w: nat, d: nat :: d < 16 ==> f(Append(w, d)) == (f(w) != OddDigit(d))
    ensures !f(GENERATOR)
  {
    assert !f(Append(0x1, 4));
    assert f(Append(0x14, 2));
    assert f(Append(0x142, 15));
    assert f(Append(0x142f, 0));
    assert !f(Append(0x142f0, 14));
    assert f(Append(0x142f0e, 1));
    assert !f(Append(0x142f0e1, 14));
    assert f(Append(0x142f0e1e, 11));
    assert f(Append(0x142f0e1eb, 10));
    assert f(Append(0x142f0e1eba, 9));
    assert !f(Append(0x142f0e1eba9, 14));
    assert !f(Append(0x142f0e1eba9e, 10));
    assert !f(Append(0x142f0e1eba9ea, 3));
    assert !f(Append(0x142f0e1eba9ea3, 6));
    assert !f(Append(0x142f0e1eba9ea36, 9));
    assert !f(Append(0x142f0e1eba9ea369, 3));
  }

  lemma {:induction false} OddOfPair(d: nat)
    requires d < 4
    ensures Odd(d) == OddPair(d)
  {
    OddHorner(d, d / 2, d % 2);
    OddHorner(d / 2, 0, d / 2);
  }

  lemma {:induction false} OddOfDigit(d: nat)
    requires d < 16
    ensures Odd(d) == OddDigit(d)
  {
    assert Pow2(2) == 4;
    OddJoin(d, d / 4, d % 4, 2);
    OddOfPair(d / 4);
    OddOfPair(d % 4);
  }

  /** The generator has an even number of terms. */
  lemma {:induction false} GeneratorIsEven(g: nat)
    requires g == GENERATOR
    ensures !Odd(g)
  {
    var f := (w: nat) => Odd(w);
    forall w: nat, d: nat | d < 16
      ensures f(Append(w, d)) == (f(w) != OddDigit(d))
    {
      assert Pow2(4) == 16;
      OddJoin(Append(w, d), w, d, 4);
      OddOfDigit(d);
    }
    OddHorner(1, 0, 1);
    GeneratorDigits(f);
  }

  // ---- the remainder keeps parity ----

  lemma {:induction false} OddStep(r: nat, b: nat, n: nat, g: nat)
    requires b < 2 && g == GENERATOR && n == 2 * r + b
    ensures Odd(MulX(r, b)) == (Odd(r) != (b == 1))
  {
    OddHorner(n, r, b);
    OddXor(n, g);
    GeneratorIsEven(g);
  }

  lemma {:induction false} OddRem(a: nat)
    ensures Odd(Rem(a)) == Odd(a)
  {
    if a != 0 {
      var r, h, b := Rem(a / 2), a / 2, a % 2;
      OddRem(h);
      OddStep(r, b, 2 * r + b, GENERATOR);
      OddHorner(a, h, b);
    }
  }

  // ---- messages ----

  /** An odd number of bits of the message is set. */
  predicate OddBytes(bytes: seq<Byte>) {
    bytes != [] && Odd(bytes[|bytes| - 1]) != OddBytes(bytes[..|bytes| - 1])
  }

  /** The number of bits in which two messages differ. */
  function Flips(a: seq<Byte>, b: seq<Byte>): nat
    requires |a| == |b|
  {
    if a == [] then 0
    else Flips(a[..|a| - 1], b[..|b| - 1]) + PopCount(Xor(a[|a| - 1], b[|b| - 1]))
  }

  predicate OddFlips(a: seq<Byte>, b: seq<Byte>)
    requires |a| == |b|
  {
    Flips(a, b) % 2 == 1
  }

  lemma {:induction false} FlipsChangeParity(a: seq<Byte>, b: seq<Byte>)
    requires |a| == |b|
    ensures OddFlips(a, b) == (OddBytes(a) != OddBytes(b))
  {
    if a != [] {
      var n := |a| - 1;
      FlipsChangeParity(a[..n], b[..n]);
      OddXor(a[n], b[n]);
      OddIsPopCount(Xor(a[n], b[n]));
      ParitySum(Flips(a[..n], b[..n]), PopCount(Xor(a[n], b[n])));
    }
  }

  lemma ParitySum(x: nat, y: nat)
    ensures ((x + y) % 2 == 1) == ((x % 2 == 1) != (y % 2 == 1))
  {
  }

  lemma {:induction false} OddAppend(a: seq<Byte>, b: seq<Byte>)
    ensures OddBytes(a + b) == (OddBytes(a) != OddBytes(b))
  {
    if b == [] {
      assert a + b == a;
    } else {
      OddAppend(a, b[..|b| - 1]);
      assert (a + b)[..|a + b| - 1] == a + b[..|b| - 1];
    }
  }

  lemma {:induction false} OddByteJoin(n: nat, m: nat, b: Byte)
    requires n == 256 * m + b
    ensures Odd(n) == (Odd(m) != Odd(b))
  {
    assert Pow2(8) == 256;
    OddJoin(n, m, b, 8);
  }

  lemma {:induction false} OddMessage(bytes: seq<Byte>)
    ensures Odd(BeValue(bytes)) == OddBytes(bytes)
  {
    if bytes != [] {
      var n := |bytes| - 1;
      OddMessage(bytes[..n]);
      OddByteJoin(BeValue(bytes), BeValue(bytes[..n]), bytes[n]);
    }
  }

  lemma {:induction false} OddShiftedRem(m: nat, k: nat)
    ensures Odd(Rem(ShiftUp(m, k))) == Odd(m)
  {
    OddShift(m, k);
    OddRem(ShiftUp(m, k));
  }

  /** The checksum has the parity of its message. */
  lemma {:induction false} CrcKeepsParity(bytes: seq<Byte>)
    ensures Odd(CrcOf(bytes)) == OddBytes(bytes)
  {
    OddMessage(bytes);
    OddShiftedRem(BeValue(bytes), 64);
  }

  /** Messages of any length that differ in an odd number of bits never share a checksum. */
  lemma OddFlipsDetected(a: seq<Byte>, b: seq<Byte>)
    requires |a| == |b| && OddFlips(a, b)
    ensures CrcOf(a) != CrcOf(b)
  {
    FlipsChangeParity(a, b);
    CrcKeepsParity(a);
    CrcKeepsParity(b);
  }

  // ---- headers and files ----

  lemma {:induction false} OddLeBytes(v: nat, n: nat)
    requires v < Pow2(8 * n)
    ensures OddBytes(LeBytes(v, n)) == Odd(v)
  {
    if n != 0 {
      Pow2Sum(8 * (n - 1), 8);
      assert Pow2(8) == 256;
      OddLeBytes(v / 256, n - 1);
      OddAppend([v % 256], LeBytes(v / 256, n - 1));
      assert [v % 256][..0] == [];
      OddByteJoin(v, v / 256, v % 256);
    }
  }

  lemma {:induction false} ZerosAreEven(bytes: seq<Byte>)
    requires forall i :: 0 <= i < |bytes| ==> bytes[i] == 0
    ensures !OddBytes(bytes)
  {
    if bytes != [] {
      ZerosAreEven(bytes[..|bytes| - 1]);
    }
  }

  lemma {:induction false} OddSlots(fields: seq<Byte>, slot: seq<Byte>)
    ensures OddBytes(fields + slot + ZERO8) == (OddBytes(fields) != OddBytes(slot))
  {
    OddAppend(fields + slot, ZERO8);
    OddAppend(fields, slot);
    ZerosAreEven(ZERO8);
  }

  lemma {:induction false} SelfCheckedIsEven(fields: seq<Byte>, crc: Word)
    requires crc == CrcOf(fields + ZERO8 + ZERO8)
    ensures !OddBytes(fields + LeBytes(crc, 8) + ZERO8)
  {
    CrcKeepsParity(fields + ZERO8 + ZERO8);
    OddSlots(fields, ZERO8);
    ZerosAreEven(ZERO8);
    OddSlots(fields, LeBytes(crc, 8));
    OddWord(crc);
  }

  lemma {:induction false} OddWord(w: Word)
    ensures OddBytes(LeBytes(w, 8)) == Odd(w)
  {
    Pow2Of64();
    OddLeBytes(w, 8);
  }

  /** Every accepted header has an even number of set bits, its stored checksum included. */
  lemma {:induction false} AcceptedHeaderIsEven(bytes: seq<Byte>)
    requires |bytes| == HEADER_BYTES && DecodeHeader(bytes).Ok?
    ensures !OddBytes(bytes)
  {
    AcceptedSelfChecks(bytes);
    SelfCheckedIsEven(bytes[..48], FieldsCrc(bytes));
  }

  lemma {:induction false} OddHeaderRejected(bytes: seq<Byte>)
    requires |bytes| == HEADER_BYTES && OddBytes(bytes)
    ensures DecodeHeader(bytes).Err?
  {
    if DecodeHeader(bytes).Ok? {
      AcceptedHeaderIsEven(bytes);
    }
  }

  /** Any odd number of bit flips anywhere in an accepted header is rejected by `decode`. */
  lemma OddHeaderFlipsRejected(a: seq<Byte>, b: seq<Byte>)
    requires |a| == |b| == HEADER_BYTES && DecodeHeader(a).Ok? && OddFlips(a, b)
    ensures DecodeHeader(b).Err?
  {
    AcceptedHeaderIsEven(a);
    FlipsChangeParity(a, b);
    OddHeaderRejected(b);
  }

  /** Any odd number of bit flips anywhere in the payload of an accepted v2 file is reported as
      `CorruptStore`. */
  lemma OddPayloadFlipsRejected(a: seq<Byte>, b: seq<Byte>, limits: Limits)
    requires Accepted(a, limits)
    requires |a| == |b| && a[..HEADER_BYTES] == b[..HEADER_BYTES]
    requires OddFlips(a[HEADER_BYTES..], b[HEADER_BYTES..])
    ensures Verdict(Some(b), limits) == Err(CorruptStore)
  {
    OddFlipsDetected(a[HEADER_BYTES..], b[HEADER_BYTES..]);
  }
}
