/** Two flipped bits. They go unnoticed exactly when the order of x modulo the generator divides their
    distance: never inside a header, nor in a payload that the default limits accept. */
module TwoFlips {
  import opened Words
  import opened LittleEndian
  import opened Crc
  import opened Galois
  import opened Order
  import opened Straddle
  import opened Store
  import opened Corruption
  import opened Parity
  import opened Wrappers

  // ---- two terms ----

  /** A sum of two powers, the lower one factored out, is a multiple of the generator exactly when the
      order of x divides their distance. */
  lemma {:induction false} TwoTermsVanish(i: nat, m: nat)
    ensures Rem(ShiftUp(Xor(1, ShiftUp(1, m)), i)) == 0 <==> m % ORDER == 0
  {
    hide ShiftUp, Rem;
    ShiftedNonzero(Xor(1, ShiftUp(1, m)), i);
    RemXor(1, ShiftUp(1, m));
    RemSmall(1);
    OrderOfX(m);
    XorCancel(1, Rem(ShiftUp(1, m)));
    XorSelf(1);
  }

  lemma {:induction false} OneTerm(w: nat) returns (i: nat)
    requires PopCount(w) == 1
    ensures w == ShiftUp(1, i)
  {
    if w % 2 == 1 {
      i := 0;
      NoTerms(w / 2);
    } else {
      i := OneTerm(w / 2);
      i := i + 1;
    }
  }

  lemma {:induction false} NoTerms(w: nat)
    requires PopCount(w) == 0
    ensures w == 0
  {
    if w != 0 {
      NoTerms(w / 2);
    }
  }

  lemma {:induction false} TwoTerms(w: nat) returns (i: nat, m: nat)
    requires PopCount(w) == 2
    ensures m >= 1 && w == ShiftUp(Xor(1, ShiftUp(1, m)), i)
  {
    if w % 2 == 1 {
      var j := OneTerm(w / 2);
      i, m := 0, j + 1;
      XorDisjoint(1, ShiftUp(1, j), 1);
      assert Pow2(1) == 2;
      ShiftUpAdd(1, j, 1);
      ShiftUpIsProduct(ShiftUp(1, j), 1);
    } else {
      i, m := TwoTerms(w / 2);
      i := i + 1;
    }
  }

  lemma {:induction false} PowerBound(i: nat, n: nat)
    requires ShiftUp(1, i) < Pow2(n)
    ensures i < n
  {
    ShiftUpIsProduct(1, i);
    if n <= i {
      Pow2Mono(n, i);
    }
  }

  lemma {:induction false} SumBound(i: nat, m: nat, n: nat)
    requires ShiftUp(Xor(1, ShiftUp(1, m)), i) < Pow2(n) && m >= 1
    ensures i + m < n
  {
    hide Xor;
    ShiftUpXor(1, ShiftUp(1, m), i);
    ShiftUpAdd(1, m, i);
    ShiftUpIsProduct(1, i);
    ShiftUpIsProduct(1, i + m);
    Pow2Mono(i + 1, i + m);
    XorKeepsTop(ShiftUp(1, i + m), ShiftUp(1, i), i + m);
    XorComm(ShiftUp(1, i + m), ShiftUp(1, i));
    if n <= i + m {
      Pow2Mono(n, i + m);
    }
  }

  lemma {:induction false} FieldTermsNoticed(d: nat)
    requires d < Pow2(384) && PopCount(d) == 2
    ensures !Quotes(d, 0, SHIFT)
  {
    var i, m := TwoTerms(d);
    SumBound(i, m, 384);
    TwoTermsVanish(i + SHIFT, m);
    ShiftUpAdd(Xor(1, ShiftUp(1, m)), i, SHIFT);
  }

  /** A change of 384 field bits and 64 checksum bits with two terms in all is never consistent. */
  lemma {:induction false} TwoTermsNoticed(d: nat, e: nat)
    requires d < Pow2(384) && e < Pow2(64) && PopCount(d) + PopCount(e) == 2
    ensures !Quotes(d, e, SHIFT)
  {
    if PopCount(d) == 0 {
      NoTerms(d);
      ShiftUpZero(SHIFT);
    } else if PopCount(d) == 2 {
      NoTerms(e);
      FieldTermsNoticed(d);
    } else {
      var i := OneTerm(d);
      var p := OneTerm(e);
      PowerBound(i, 384);
      PowerBound(p, 64);
      OneEach(i, p);
    }
  }

  lemma {:induction false} OneEach(i: nat, p: nat)
    requires i < 384 && p < 64
    ensures !Quotes(ShiftUp(1, i), ShiftUp(1, p), SHIFT)
  {
    hide ShiftUp, Rem, Xor, Pow2;
    var m := i + SHIFT - p;
    TwoTermsVanish(p, m);
    ShiftUpXor(1, ShiftUp(1, m), p);
    ShiftUpAdd(1, m, p);
    ShiftUpAdd(1, i, SHIFT);
    RemXor(ShiftUp(1, p), ShiftUp(1, i + SHIFT));
    ShiftUpIsProduct(1, p);
    Pow2Mono(p, 63);
    Pow2Of64();
    RemSmall(ShiftUp(1, p));
    XorSelf(ShiftUp(1, p));
  }

  // ---- flips of bytes ----

  lemma {:induction false} PopCountJoin(lo: nat, hi: nat, k: nat)
    requires lo < Pow2(k)
    ensures PopCount(lo + ShiftUp(hi, k)) == PopCount(lo) + PopCount(hi)
  {
    if k != 0 {
      PopCountJoin(lo / 2, hi, k - 1);
      var n := lo + ShiftUp(hi, k);
      assert n / 2 == lo / 2 + ShiftUp(hi, k - 1) && n % 2 == lo % 2;
    }
  }

  lemma XorOfJoins(lo: nat, hi: nat, lo2: nat, hi2: nat, k: nat)
    requires lo < Pow2(k) && lo2 < Pow2(k)
    ensures Xor(lo, lo2) < Pow2(k)
    ensures Xor(lo + ShiftUp(hi, k), lo2 + ShiftUp(hi2, k)) == Xor(lo, lo2) + ShiftUp(Xor(hi, hi2), k)
  {
    XorDisjoint(lo, hi, k);
    XorDisjoint(lo2, hi2, k);
    XorSwap(lo, ShiftUp(hi, k), lo2, ShiftUp(hi2, k));
    ShiftUpXor(hi, hi2, k);
    XorBound(lo, lo2, k);
    XorDisjoint(Xor(lo, lo2), Xor(hi, hi2), k);
  }

  lemma FlipsOfJoin(z: nat, x: nat, y: nat, lo: nat, hi: nat, lo2: nat, hi2: nat, k: nat)
    requires lo < Pow2(k) && lo2 < Pow2(k) && x == Xor(lo, lo2) && y == Xor(hi, hi2)
    requires z == Xor(lo + ShiftUp(hi, k), lo2 + ShiftUp(hi2, k))
    ensures PopCount(z) == PopCount(x) + PopCount(y)
  {
    XorOfJoins(lo, hi, lo2, hi2, k);
    PopCountJoin(x, y, k);
  }

  lemma FlipsOfBytes(z: nat, x: nat, y: nat, lo: Byte, hi: nat, lo2: Byte, hi2: nat)
    requires z == Xor(256 * hi + lo, 256 * hi2 + lo2) && x == Xor(lo, lo2) && y == Xor(hi, hi2)
    ensures PopCount(z) == PopCount(x) + PopCount(y)
  {
    ByteJoin(lo, hi);
    ByteJoin(lo2, hi2);
    FlipsOfJoin(z, x, y, lo, hi, lo2, hi2, 8);
  }

  lemma {:induction false} ByteJoin(lo: Byte, hi: nat)
    ensures 256 * hi + lo == lo + ShiftUp(hi, 8) && lo < Pow2(8)
  {
    ShiftUpIsProduct(hi, 8);
    assert Pow2(8) == 256;
  }

  lemma {:induction false} FlipsOfBe(a: seq<Byte>, b: seq<Byte>)
    requires |a| == |b|
    ensures PopCount(Xor(BeValue(a), BeValue(b))) == Flips(a, b)
  {
    if a == [] {
      XorZero(0);
    } else {
      var n := |a| - 1;
      FlipsOfBe(a[..n], b[..n]);
      var x, y := Xor(a[n], b[n]), Xor(BeValue(a[..n]), BeValue(b[..n]));
      FlipsOfBytes(Xor(BeValue(a), BeValue(b)), x, y, a[n], BeValue(a[..n]), b[n], BeValue(b[..n]));
    }
  }

  lemma {:induction false} FlipsAppend(a: seq<Byte>, b: seq<Byte>, x: seq<Byte>, y: seq<Byte>)
    requires |a| == |b| && |x| == |y|
    ensures Flips(a + x, b + y) == Flips(a, b) + Flips(x, y)
  {
    if x == [] {
      assert a + x == a && b + y == b;
    } else {
      var n := |x| - 1;
      FlipsAppend(a, b, x[..n], y[..n]);
      assert (a + x)[..|a + x| - 1] == a + x[..n] && (b + y)[..|b + y| - 1] == b + y[..n];
    }
  }

  lemma {:induction false} FlipsOfLe(a: seq<Byte>, b: seq<Byte>)
    requires |a| == |b|
    ensures PopCount(Xor(LeValue(a), LeValue(b))) == Flips(a, b)
  {
    if a == [] {
      XorZero(0);
    } else {
      FlipsOfLe(a[1..], b[1..]);
      var x, y := Xor(a[0], b[0]), Xor(LeValue(a[1..]), LeValue(b[1..]));
      FlipsOfBytes(Xor(LeValue(a), LeValue(b)), x, y, a[0], LeValue(a[1..]), b[0], LeValue(b[1..]));
      assert a == [a[0]] + a[1..] && b == [b[0]] + b[1..];
      FlipsAppend([a[0]], [b[0]], a[1..], b[1..]);
      FlipsOfOne(a[0], b[0]);
    }
  }

  lemma {:induction false} FlipsOfOne(x: Byte, y: Byte)
    ensures Flips([x], [y]) == PopCount(Xor(x, y))
  {
    assert [x][..0] == [] && [y][..0] == [];
  }

  lemma {:induction false} NoFlips(a: seq<Byte>)
    ensures Flips(a, a) == 0
  {
    if a != [] {
      NoFlips(a[..|a| - 1]);
      XorSelf(a[|a| - 1]);
    }
  }

  // ---- messages ----

  /** Two messages of any length that differ in exactly two bits: they share a checksum exactly when
      the order of x divides the distance of the bits. */
  lemma {:induction false} TwoBitsVerdict(a: seq<Byte>, b: seq<Byte>, i: nat, m: nat)
    requires Xor(BeValue(a), BeValue(b)) == ShiftUp(Xor(1, ShiftUp(1, m)), i)
    ensures CrcOf(a) == CrcOf(b) <==> m % ORDER == 0
  {
    hide ShiftUp, Xor, Rem, BeValue;
    TwoTermsVanish(i + 64, m);
    ShiftUpAdd(Xor(1, ShiftUp(1, m)), i, 64);
    ShiftUpXor(BeValue(a), BeValue(b), 64);
    RemXor(ShiftUp(BeValue(a), 64), ShiftUp(BeValue(b), 64));
    XorSelf(CrcOf(a));
    XorCancel(CrcOf(a), CrcOf(b));
  }

  /** Any two flipped bits of a message of at most 8589606914 bits are noticed. */
  lemma {:induction false} TwoFlipsDetected(a: seq<Byte>, b: seq<Byte>)
    requires |a| == |b| && Flips(a, b) == 2 && 8 * |a| <= ORDER
    ensures CrcOf(a) != CrcOf(b)
  {
    hide Pow2, Xor, BeValue, PopCount, Flips, CrcOf, ShiftUp;
    var d, n := Xor(BeValue(a), BeValue(b)), 8 * |a|;
    FlipsOfBe(a, b);
    BeValueBound(a);
    BeValueBound(b);
    XorBound(BeValue(a), BeValue(b), n);
    var i, m := TwoTerms(d);
    SumBound(i, m, n);
    TwoBitsVerdict(a, b, i, m);
  }

  /** One, two or three flipped bits of a message of at most 8589606914 bits are always noticed. */
  lemma {:induction false} FewFlipsDetected(a: seq<Byte>, b: seq<Byte>)
    requires |a| == |b| && 8 * |a| <= ORDER && 1 <= Flips(a, b) <= 3
    ensures CrcOf(a) != CrcOf(b)
  {
    if Flips(a, b) == 2 {
      TwoFlipsDetected(a, b);
    } else {
      OddFlipsDetected(a, b);
    }
  }

  // ---- longer messages ----

  /** The `n` bytes of a number, most significant first. */
  function BeBytes(v: nat, n: nat): (bytes: seq<Byte>)
    ensures |bytes| == n
  {
    if n == 0 then [] else BeBytes(v / 256, n - 1) + [v % 256]
  }

  lemma {:induction false} ValueOfBeBytes(v: nat, n: nat)
    requires v < Pow2(8 * n)
    ensures BeValue(BeBytes(v, n)) == v
  {
    if n != 0 {
      Pow2Sum(8 * (n - 1), 8);
      assert Pow2(8) == 256;
      ValueOfBeBytes(v / 256, n - 1);
      assert BeBytes(v, n)[..n - 1] == BeBytes(v / 256, n - 1);
    }
  }

  lemma {:induction false} PowerPair(m: nat)
    requires m >= 1
    ensures PopCount(Xor(1, ShiftUp(1, m))) == 2 && Xor(1, ShiftUp(1, m)) < Pow2(m + 1)
  {
    hide Xor;
    XorDisjoint(1, ShiftUp(1, m - 1), 1);
    assert Pow2(1) == 2;
    ShiftUpAdd(1, m - 1, 1);
    PopCountJoin(1, ShiftUp(1, m - 1), 1);
    OnePower(m - 1);
    ShiftUpIsProduct(1, m);
    Pow2Mono(1, m);
    XorBound(1, ShiftUp(1, m), m + 1);
  }

  lemma {:induction false} OnePower(k: nat)
    ensures PopCount(ShiftUp(1, k)) == 1
  {
    if k != 0 {
      OnePower(k - 1);
    }
  }

  /** The message with the last bit and the m-th bit before it flipped. */
  lemma PairFlipped(a: seq<Byte>, m: nat) returns (b: seq<Byte>)
    requires 1 <= m < 8 * |a|
    ensures |a| == |b| && Flips(a, b) == 2 && Xor(BeValue(a), BeValue(b)) == ShiftUp(Xor(1, ShiftUp(1, m)), 0)
  {
    var d := Xor(1, ShiftUp(1, m));
    PowerPair(m);
    Pow2Mono(m + 1, 8 * |a|);
    BeValueBound(a);
    XorBound(BeValue(a), d, 8 * |a|);
    b := BeBytes(Xor(BeValue(a), d), |a|);
    ValueOfBeBytes(Xor(BeValue(a), d), |a|);
    XorAssoc(BeValue(a), BeValue(a), d);
    XorSelf(BeValue(a));
    XorZero(d);
    FlipsOfBe(a, b);
  }

  /** The bound is tight: in every longer message two flipped bits can go unnoticed. */
  lemma TwoFlipsEscape(a: seq<Byte>) returns (b: seq<Byte>)
    requires ORDER < 8 * |a|
    ensures |a| == |b| && Flips(a, b) == 2 && CrcOf(a) == CrcOf(b)
  {
    b := PairFlipped(a, ORDER);
    TwoBitsVerdict(a, b, 0, ORDER);
  }

  /** No change of one, two or three bits of a message of this length keeps its checksum. */
  ghost predicate NoticesFewFlips(length: nat) {
    forall a, b :: |a| == |b| == length && SameCrc(a, b) ==> !(1 <= Flips(a, b) <= 3)
  }

  predicate SameCrc(a: seq<Byte>, b: seq<Byte>) {
    CrcOf(a) == CrcOf(b)
  }

  /** The lengths at which one, two or three flipped bits are always noticed. */
  lemma FewFlipsExactly(length: nat)
    ensures NoticesFewFlips(length) <==> 8 * length <= ORDER
  {
    if 8 * length <= ORDER {
      forall a, b | |a| == |b| == length && SameCrc(a, b)
        ensures !(1 <= Flips(a, b) <= 3)
      {
        if 1 <= Flips(a, b) <= 3 {
          FewFlipsDetected(a, b);
        }
      }
    } else {
      var a: seq<Byte> := seq(length, i => 0);
      var b := TwoFlipsEscape(a);
      assert SameCrc(a, b);
    }
  }

  // ---- headers ----

  /** Two accepted headers: the change of all 48 field bytes fixes the change of the checksum. */
  lemma AcceptedChange(a: seq<Byte>, b: seq<Byte>)
    requires |a| == |b| == HEADER_BYTES && DecodeHeader(a).Ok? && DecodeHeader(b).Ok?
    ensures Quotes(Xor(BeValue(a[..48]), BeValue(b[..48])), ChecksumChange(a, b), SHIFT)
    ensures a[56..64] == ZERO8 && b[56..64] == ZERO8
  {
    AcceptedSelfChecks(a);
    AcceptedSelfChecks(b);
    WordRoundTrip(FieldsCrc(a));
    WordRoundTrip(FieldsCrc(b));
    PaddedCrc(a[..48]);
    PaddedCrc(b[..48]);
    ShiftUpXor(BeValue(a[..48]), BeValue(b[..48]), SHIFT);
    RemXor(ShiftUp(BeValue(a[..48]), SHIFT), ShiftUp(BeValue(b[..48]), SHIFT));
    LastBytes(a);
    LastBytes(b);
  }

  lemma LastBytes(a: seq<Byte>)
    requires |a| == HEADER_BYTES && a == a[..48] + LeBytes(FieldsCrc(a), 8) + ZERO8
    ensures a[56..64] == ZERO8
  {
  }

  lemma {:induction false} FlipsOfThree(a: seq<Byte>, b: seq<Byte>, c: seq<Byte>, d: seq<Byte>, e: seq<Byte>,
                                        f: seq<Byte>)
    requires |a| == |b| && |c| == |d| && |e| == |f|
    ensures Flips(a + c + e, b + d + f) == Flips(a, b) + Flips(c, d) + Flips(e, f)
  {
    FlipsAppend(a, b, c, d);
    FlipsAppend(a + c, b + d, e, f);
  }

  lemma {:induction false} HeaderFlips(a: seq<Byte>, b: seq<Byte>)
    requires |a| == |b| == HEADER_BYTES
    ensures Flips(a, b) == Flips(a[..48], b[..48]) + Flips(a[48..56], b[48..56]) + Flips(a[56..64], b[56..64])
  {
    FlipsOfThree(a[..48], b[..48], a[48..56], b[48..56], a[56..64], b[56..64]);
    HeaderParts(a);
    HeaderParts(b);
  }

  lemma ChangeBounds(a: seq<Byte>, b: seq<Byte>)
    requires |a| == |b| == HEADER_BYTES
    ensures Xor(BeValue(a[..48]), BeValue(b[..48])) < Pow2(384) && ChecksumChange(a, b) < Pow2(64)
  {
    hide Pow2, Xor, BeValue, LeValue;
    BeValueBound(a[..48]);
    BeValueBound(b[..48]);
    XorBound(BeValue(a[..48]), BeValue(b[..48]), 384);
    LeValueBound(a[48..56]);
    LeValueBound(b[48..56]);
    XorBound(LeValue(a[48..56]), LeValue(b[48..56]), 64);
  }

  /** Any two flipped bits of an accepted header, checksum and padding included, are noticed. */
  lemma {:induction false} TwoFlipsRejected(a: seq<Byte>, b: seq<Byte>)
    requires |a| == |b| == HEADER_BYTES && DecodeHeader(a).Ok? && Flips(a, b) == 2
    ensures DecodeHeader(b).Err?
  {
    hide Quotes, Xor, BeValue, LeValue, PopCount, Flips, FieldsCrc;
    if DecodeHeader(b).Ok? {
      AcceptedChange(a, b);
      HeaderFlips(a, b);
      NoFlips(ZERO8);
      FlipsOfBe(a[..48], b[..48]);
      FlipsOfLe(a[48..56], b[48..56]);
      ChangeBounds(a, b);
      TwoTermsNoticed(Xor(BeValue(a[..48]), BeValue(b[..48])), ChecksumChange(a, b));
    }
  }

  lemma OneOrThree(n: nat)
    requires n == 1 || n == 3
    ensures n % 2 == 1
  {
  }

  /** One, two or three flipped bits of an accepted header are always noticed. */
  lemma {:induction false} FewFlipsRejected(a: seq<Byte>, b: seq<Byte>)
    requires |a| == |b| == HEADER_BYTES && DecodeHeader(a).Ok? && 1 <= Flips(a, b) <= 3
    ensures DecodeHeader(b).Err?
  {
    if Flips(a, b) == 2 {
      TwoFlipsRejected(a, b);
    } else {
      OneOrThree(Flips(a, b));
      OddHeaderFlipsRejected(a, b);
    }
  }

  // ---- payloads ----

  /** Two flipped payload bits of an accepted v2 file: it is still accepted exactly when the order of x
      divides their distance, and reported as `CorruptStore` otherwise. */
  lemma {:induction false} TwoPayloadBitsVerdict(a: seq<Byte>, b: seq<Byte>, limits: Limits, i: nat, m: nat)
    requires Accepted(a, limits) && |a| == |b| && a[..HEADER_BYTES] == b[..HEADER_BYTES]
    requires Xor(BeValue(a[HEADER_BYTES..]), BeValue(b[HEADER_BYTES..])) == ShiftUp(Xor(1, ShiftUp(1, m)), i)
    ensures Verdict(Some(b), limits) == if m % ORDER == 0 then Verdict(Some(a), limits) else Err(CorruptStore)
  {
    hide ShiftUp, Xor, BeValue, CrcOf, DecodeHeader, Checksum;
    TwoBitsVerdict(a[HEADER_BYTES..], b[HEADER_BYTES..], i, m);
  }

  /** One, two or three flipped payload bits of an accepted v2 file with at most 8589606914 of them are
      reported as `CorruptStore`. */
  lemma FewPayloadFlipsRejected(a: seq<Byte>, b: seq<Byte>, limits: Limits)
    requires Accepted(a, limits) && |a| == |b| && a[..HEADER_BYTES] == b[..HEADER_BYTES]
    requires 8 * |a[HEADER_BYTES..]| <= ORDER && 1 <= Flips(a[HEADER_BYTES..], b[HEADER_BYTES..]) <= 3
    ensures Verdict(Some(b), limits) == Err(CorruptStore)
  {
    FewFlipsDetected(a[HEADER_BYTES..], b[HEADER_BYTES..]);
  }

  /** So are those of every file that the default limits accept. */
  lemma DefaultFilesNoticeFewFlips(a: seq<Byte>, b: seq<Byte>)
    requires Accepted(a, SAFE_DEFAULT) && |a| == |b| && a[..HEADER_BYTES] == b[..HEADER_BYTES]
    requires 1 <= Flips(a[HEADER_BYTES..], b[HEADER_BYTES..]) <= 3
    ensures Verdict(Some(b), SAFE_DEFAULT) == Err(CorruptStore)
  {
    FewPayloadFlipsRejected(a, b, SAFE_DEFAULT);
  }
}
