/** Which changes of an accepted v2 file the checksums always reject. */
module Corruption {
  import opened Words
  import opened Orbs
  import opened LittleEndian
  import opened Crc
  import opened Galois
  import opened Straddle
  import opened Store
  import opened Wrappers

  /** `b` is `a` with the bytes `at..at + n` replaced by something else. */
  predicate ChangedWithin(a: seq<Byte>, b: seq<Byte>, at: nat, n: nat) {
    && |a| == |b| && at + n <= |a| && a != b
    && a[..at] == b[..at] && a[at + n..] == b[at + n..]
  }

  lemma WindowChangesCrc(a: seq<Byte>, b: seq<Byte>, at: nat, n: nat)
    requires ChangedWithin(a, b, at, n) && n <= 8
    ensures CrcOf(a) != CrcOf(b)
  {
    var x, y := a[at..at + n], b[at..at + n];
    ThreeParts(a, at, at + n);
    ThreeParts(b, at, at + n);
    WindowDetected(a[..at], x, y, a[at + n..]);
  }

  /** The checksum an accepted header must carry. */
  function FieldsCrc(bytes: seq<Byte>): Word
    requires |bytes| == HEADER_BYTES
  {
    CrcOf(bytes[..48] + ZERO8 + ZERO8)
  }

  /** An accepted header checks itself: its last sixteen bytes follow from the first 48. */
  lemma AcceptedSelfChecks(bytes: seq<Byte>)
    requires |bytes| == HEADER_BYTES && DecodeHeader(bytes).Ok?
    ensures bytes == bytes[..48] + LeBytes(FieldsCrc(bytes), 8) + ZERO8
    ensures bytes[48..56] == LeBytes(FieldsCrc(bytes), 8)
  {
    DecodedIsCanonical(bytes);
    ImageParts(bytes, DecodeHeader(bytes).value);
  }

  lemma ImageParts(bytes: seq<Byte>, h: Header)
    requires |bytes| == HEADER_BYTES && HeaderImage(h) == bytes
    ensures bytes[..48] == HeaderFields(h) && bytes[48..56] == LeBytes(ComputeHeaderCrc(h), 8)
    ensures bytes == bytes[..48] + bytes[48..56] + ZERO8
  {
  }

  lemma {:induction false} SameWord(v: Word, w: Word)
    ensures LeBytes(v, 8) == LeBytes(w, 8) ==> v == w
  {
    WordRoundTrip(v);
    WordRoundTrip(w);
  }

  // ---- changes of the last field and of the stored checksum ----

  /** The change of the last header field (the payload checksum), as a polynomial. */
  function FieldChange(a: seq<Byte>, b: seq<Byte>): nat
    requires |a| == |b| == HEADER_BYTES
  {
    Xor(BeValue(a[40..48]), BeValue(b[40..48]))
  }

  /** The change of the stored header checksum. */
  function ChecksumChange(a: seq<Byte>, b: seq<Byte>): nat
    requires |a| == |b| == HEADER_BYTES
  {
    Xor(LeValue(a[48..56]), LeValue(b[48..56]))
  }

  /** The two headers agree outside the last field and the stored checksum. */
  predicate SameOutside(a: seq<Byte>, b: seq<Byte>) {
    |a| == |b| == HEADER_BYTES && a[..40] == b[..40] && a[56..64] == b[56..64]
  }

  lemma {:induction false} ZerosAppended(x: seq<Byte>, zeros: seq<Byte>)
    requires forall i :: 0 <= i < |zeros| ==> zeros[i] == 0
    ensures BeValue(x + zeros) == ShiftUp(BeValue(x), 8 * |zeros|)
  {
    BeValueAppend(x, zeros);
    ZeroValue(zeros);
    XorZero(ShiftUp(BeValue(x), 8 * |zeros|));
  }

  lemma {:induction false} ZeroValue(zeros: seq<Byte>)
    requires forall i :: 0 <= i < |zeros| ==> zeros[i] == 0
    ensures BeValue(zeros) == 0
  {
    if zeros != [] {
      ZeroValue(zeros[..|zeros| - 1]);
    }
  }

  /** Messages with the same front: the values differ by the difference of the tails. */
  lemma {:induction false} SameFront(x: seq<Byte>, y: seq<Byte>, z: seq<Byte>)
    requires |y| == |z|
    ensures Xor(BeValue(x + y), BeValue(x + z)) == Xor(BeValue(y), BeValue(z))
  {
    BeValueAppend(x, y);
    BeValueAppend(x, z);
    var s := ShiftUp(BeValue(x), 8 * |y|);
    XorSwap(s, BeValue(y), s, BeValue(z));
    XorSelf(s);
    XorZero(Xor(BeValue(y), BeValue(z)));
  }

  lemma {:induction false} PaddedCrc(fields: seq<Byte>)
    ensures CrcOf(fields + ZERO8 + ZERO8) == Rem(ShiftUp(BeValue(fields), SHIFT))
  {
    assert fields + ZERO8 + ZERO8 == fields + (ZERO8 + ZERO8);
    ZerosAppended(fields, ZERO8 + ZERO8);
    ShiftUpAdd(BeValue(fields), 128, 64);
  }

  /** The header checksum changes by the shifted change of the last field. */
  lemma ChecksumFollows(a: seq<Byte>, b: seq<Byte>)
    requires SameOutside(a, b)
    ensures Quotes(FieldChange(a, b), Xor(FieldsCrc(a), FieldsCrc(b)), SHIFT)
  {
    PaddedCrc(a[..48]);
    PaddedCrc(b[..48]);
    assert a[..48] == a[..40] + a[40..48] && b[..48] == b[..40] + b[40..48];
    SameFront(a[..40], a[40..48], b[40..48]);
    ShiftUpXor(BeValue(a[..48]), BeValue(b[..48]), SHIFT);
    RemXor(ShiftUp(BeValue(a[..48]), SHIFT), ShiftUp(BeValue(b[..48]), SHIFT));
  }

  /** What `decode` checks of a header that agrees with an accepted one outside the two slots. */
  lemma SlotsDecide(a: seq<Byte>, b: seq<Byte>)
    requires SameOutside(a, b) && DecodeHeader(a).Ok?
    ensures DecodeHeader(b).Ok? <==> FieldsCrc(b) == LeValue(b[48..56])
  {
    SameSlices(a, b);
    FieldsOfBytes(b);
  }

  lemma SameSlices(a: seq<Byte>, b: seq<Byte>)
    requires SameOutside(a, b)
    ensures a[0..8] == b[0..8] && a[8..12] == b[8..12] && a[12..16] == b[12..16]
    ensures a[16..20] == b[16..20] && a[20..24] == b[20..24]
  {
    assert a[0..8] == a[..40][0..8] && b[0..8] == b[..40][0..8];
    assert a[8..12] == a[..40][8..12] && b[8..12] == b[..40][8..12];
    assert a[12..16] == a[..40][12..16] && b[12..16] == b[..40][12..16];
    assert a[16..20] == a[..40][16..20] && b[16..20] == b[..40][16..20];
    assert a[20..24] == a[..40][20..24] && b[20..24] == b[..40][20..24];
  }

  /** Any change of the last field and of the stored checksum: `decode` accepts it exactly when the
      checksum change is the remainder of the shifted field change. */
  lemma SlotChangeVerdict(a: seq<Byte>, b: seq<Byte>)
    requires SameOutside(a, b) && DecodeHeader(a).Ok?
    ensures DecodeHeader(b).Ok? <==> Quotes(FieldChange(a, b), ChecksumChange(a, b), SHIFT)
  {
    SlotsDecide(a, a);
    SlotsDecide(a, b);
    ChecksumFollows(a, b);
    var s, t := FieldsCrc(a), LeValue(b[48..56]);
    XorComm(s, FieldsCrc(b));
    XorComm(s, t);
    XorCancel(FieldsCrc(b), s);
    XorCancel(t, s);
  }

  // ---- windows inside the header ----

  /** The one slot a window leaves alone does not change. */
  lemma UntouchedSlots(a: seq<Byte>, b: seq<Byte>, at: nat, n: nat)
    requires |a| == HEADER_BYTES && ChangedWithin(a, b, at, n)
    ensures at + n <= 48 ==> a[48..56] == b[48..56] && ChecksumChange(a, b) == 0
    ensures 48 <= at ==> a[..48] == b[..48] && FieldChange(a, b) == 0
  {
    if at + n <= 48 {
      assert a[48..56] == a[at + n..][48 - at - n..56 - at - n];
      assert b[48..56] == b[at + n..][48 - at - n..56 - at - n];
      XorSelf(LeValue(a[48..56]));
    }
    if 48 <= at {
      assert a[..48] == a[..at][..48] && b[..48] == b[..at][..48];
      assert a[40..48] == a[..48][40..48] && b[40..48] == b[..48][40..48];
      XorSelf(BeValue(a[40..48]));
    }
  }

  /** What agrees from `m` on agrees in every later slice. */
  lemma SameBehind(a: seq<Byte>, b: seq<Byte>, m: nat, i: nat, j: nat)
    requires m <= i <= j <= |a| && |a| == |b| && a[m..] == b[m..]
    ensures a[i..j] == b[i..j]
  {
    Resliced(a, m, i, j);
    Resliced(b, m, i, j);
  }

  lemma Resliced(a: seq<Byte>, m: nat, i: nat, j: nat)
    requires m <= i <= j <= |a|
    ensures a[i..j] == a[m..][i - m..j - m]
  {
  }

  lemma ThreeParts(a: seq<Byte>, i: nat, j: nat)
    requires i <= j <= |a|
    ensures a == a[..i] + a[i..j] + a[j..]
  {
  }

  /** The covered bytes, padded, in the three parts of a window. */
  lemma PaddedParts(a: seq<Byte>, at: nat, n: nat)
    requires |a| == HEADER_BYTES && at + n <= 48
    ensures var c := a[..48] + ZERO8 + ZERO8;
      c[..at] == a[..at] && c[at..at + n] == a[at..at + n] && c[at + n..] == a[at + n..][..48 - at - n] + ZERO8 + ZERO8
  {
    assert a[..48][at + n..] == a[at + n..][..48 - at - n];
  }

  /** A change inside the covered bytes leaves the checksum slot alone but changes the checksum. */
  lemma FieldChangeBreaksCrc(a: seq<Byte>, b: seq<Byte>, at: nat, n: nat)
    requires |a| == HEADER_BYTES && ChangedWithin(a, b, at, n) && n <= 8 && at + n <= 48
    ensures FieldsCrc(a) != FieldsCrc(b)
  {
    PaddedParts(a, at, n);
    PaddedParts(b, at, n);
    ThreeParts(a, at, at + n);
    ThreeParts(b, at, at + n);
    WindowChangesCrc(a[..48] + ZERO8 + ZERO8, b[..48] + ZERO8 + ZERO8, at, n);
  }

  lemma OneSidedChangeRejected(a: seq<Byte>, b: seq<Byte>, at: nat, n: nat)
    requires |a| == HEADER_BYTES && DecodeHeader(a).Ok?
    requires ChangedWithin(a, b, at, n) && n <= 8 && (at + n <= 48 || 48 <= at)
    ensures DecodeHeader(b).Err?
  {
    AcceptedSelfChecks(a);
    UntouchedSlots(a, b, at, n);
    if at + n <= 48 {
      FieldChangeBreaksCrc(a, b, at, n);
      SameWord(FieldsCrc(a), FieldsCrc(b));
    }
    if DecodeHeader(b).Ok? {
      AcceptedSelfChecks(b);
    }
  }

  lemma {:induction false} LeAppend(x: seq<Byte>, y: seq<Byte>)
    ensures LeValue(x + y) == Xor(LeValue(x), ShiftUp(LeValue(y), 8 * |x|))
  {
    LeSum(x, y);
    LeValueBound(x);
    XorDisjoint(LeValue(x), LeValue(y), 8 * |x|);
  }

  lemma {:induction false} LeSum(x: seq<Byte>, y: seq<Byte>)
    ensures LeValue(x + y) == LeValue(x) + ShiftUp(LeValue(y), 8 * |x|)
  {
    if x == [] {
      assert x + y == y;
    } else {
      LeSum(x[1..], y);
      assert (x + y)[1..] == x[1..] + y;
      ShiftUpAdd(LeValue(y), 8 * |x[1..]|, 8);
      ShiftUpIsProduct(ShiftUp(LeValue(y), 8 * |x[1..]|), 8);
      assert Pow2(8) == 256;
    }
  }

  lemma {:induction false} SameBack(x: seq<Byte>, z: seq<Byte>, y: seq<Byte>)
    requires |x| == |z|
    ensures Xor(LeValue(x + y), LeValue(z + y)) == Xor(LeValue(x), LeValue(z)) < Pow2(8 * |x|)
  {
    LeAppend(x, y);
    LeAppend(z, y);
    var s := ShiftUp(LeValue(y), 8 * |x|);
    XorBoth(LeValue(x), LeValue(z), s);
    LeValueBound(x);
    LeValueBound(z);
    XorBound(LeValue(x), LeValue(z), 8 * |x|);
  }

  lemma {:induction false} SmallFieldChange(x: seq<Byte>, y: seq<Byte>, z: seq<Byte>)
    requires |y| == |z|
    ensures Xor(BeValue(x + y), BeValue(x + z)) < Pow2(8 * |y|)
  {
    SameFront(x, y, z);
    BeValueBound(y);
    BeValueBound(z);
    XorBound(BeValue(y), BeValue(z), 8 * |y|);
  }

  /** A window with `k` field bytes allows 8k bits of field change and 64 - 8k of checksum change. */
  lemma {:induction false} StraddleBounds(a: seq<Byte>, b: seq<Byte>, k: nat)
    requires |a| == |b| == HEADER_BYTES && 1 <= k <= 7
    requires a[..48 - k] == b[..48 - k] && a[56 - k..] == b[56 - k..]
    ensures SameOutside(a, b)
    ensures FieldChange(a, b) < Pow2(8 * k) && ChecksumChange(a, b) < Pow2(64 - 8 * k)
  {
    assert a[..40] == a[..48 - k][..40] && b[..40] == b[..48 - k][..40];
    assert a[56..64] == a[56 - k..][k..] && b[56..64] == b[56 - k..][k..];
    FieldBound(a, b, k);
    ChecksumBound(a, b, k);
  }

  lemma {:induction false} FieldBound(a: seq<Byte>, b: seq<Byte>, k: nat)
    requires |a| == |b| == HEADER_BYTES && 1 <= k <= 7 && a[..48 - k] == b[..48 - k]
    ensures FieldChange(a, b) < Pow2(8 * k)
  {
    assert a[40..48 - k] == a[..48 - k][40..] && b[40..48 - k] == b[..48 - k][40..];
    assert a[40..48] == a[40..48 - k] + a[48 - k..48] && b[40..48] == b[40..48 - k] + b[48 - k..48];
    SmallFieldChange(a[40..48 - k], a[48 - k..48], b[48 - k..48]);
  }

  lemma {:induction false} ChecksumBound(a: seq<Byte>, b: seq<Byte>, k: nat)
    requires |a| == |b| == HEADER_BYTES && 1 <= k <= 7 && a[56 - k..] == b[56 - k..]
    ensures ChecksumChange(a, b) < Pow2(64 - 8 * k)
  {
    hide LeValue, Xor, Pow2;
    SameBehind(a, b, 56 - k, 56 - k, 56);
    Join(a, 48, 56 - k, 56);
    Join(b, 48, 56 - k, 56);
    SameBack(a[48..56 - k], b[48..56 - k], a[56 - k..56]);
  }

  /** Headers that agree outside the slots and have no change in the slots are equal. */
  lemma NoChange(a: seq<Byte>, b: seq<Byte>)
    requires SameOutside(a, b) && FieldChange(a, b) == 0 && ChecksumChange(a, b) == 0
    ensures a == b
  {
    XorCancel(BeValue(a[40..48]), BeValue(b[40..48]));
    BeValueInjective(a[40..48], b[40..48]);
    XorCancel(LeValue(a[48..56]), LeValue(b[48..56]));
    BytesOfValue(a[48..56]);
    BytesOfValue(b[48..56]);
    assert a == a[..40] + a[40..48] + a[48..56] + a[56..64];
    assert b == b[..40] + b[40..48] + b[48..56] + b[56..64];
  }

  lemma StraddlingChangeVerdict(a: seq<Byte>, b: seq<Byte>, k: nat)
    requires |a| == |b| == HEADER_BYTES && DecodeHeader(a).Ok? && a != b && 1 <= k <= 7
    requires a[..48 - k] == b[..48 - k] && a[56 - k..] == b[56 - k..]
    ensures DecodeHeader(b).Ok? <==> IsEscape(FieldChange(a, b), ChecksumChange(a, b))
  {
    var d, e := FieldChange(a, b), ChecksumChange(a, b);
    StraddleBounds(a, b, k);
    SlotChangeVerdict(a, b);
    if Quotes(d, e, SHIFT) {
      FitsExactly(d, e, k);
      if d == 0 && e == 0 {
        NoChange(a, b);
      }
    }
    if IsEscape(d, e) {
      EscapeQuotes(d, e);
    }
  }

  /** A change of up to eight consecutive header bytes, anywhere: `decode` accepts it exactly when it
      is one of the four escapes, which change the last two or four bytes of the payload checksum and
      the stored header checksum together. */
  lemma HeaderChangeVerdict(a: seq<Byte>, b: seq<Byte>, at: nat, n: nat)
    requires |a| == HEADER_BYTES && DecodeHeader(a).Ok? && ChangedWithin(a, b, at, n) && n <= 8
    ensures DecodeHeader(b).Ok? <==> IsEscape(FieldChange(a, b), ChecksumChange(a, b))
  {
    if at + n <= 48 || 48 <= at {
      OneSidedChangeRejected(a, b, at, n);
      UntouchedSlots(a, b, at, n);
    } else {
      var k := 48 - at;
      assert a[56 - k..] == a[at + n..][8 - n..] && b[56 - k..] == b[at + n..][8 - n..];
      StraddlingChangeVerdict(a, b, k);
    }
  }

  /** A window with bytes on one side of the stored checksum only, or with 1, 3, 5, 6 or 7 field
      bytes: no change is accepted. */
  lemma HeaderChangeRejected(a: seq<Byte>, b: seq<Byte>, at: nat, n: nat)
    requires |a| == HEADER_BYTES && DecodeHeader(a).Ok? && ChangedWithin(a, b, at, n) && n <= 8
    requires at + n <= 48 || at !in {44, 46}
    ensures DecodeHeader(b).Err?
  {
    hide DecodeHeader, LeValue, BeValue, Xor, Pow2, Quotes;
    HeaderChangeVerdict(a, b, at, n);
    if at < 48 < at + n {
      var k := 48 - at;
      var d, e := FieldChange(a, b), ChecksumChange(a, b);
      assert a[56 - k..] == a[at + n..][8 - n..] && b[56 - k..] == b[at + n..][8 - n..];
      StraddleBounds(a, b, k);
      if IsEscape(d, e) {
        EscapeQuotes(d, e);
        FitsExactly(d, e, k);
      }
    } else {
      UntouchedSlots(a, b, at, n);
    }
  }

  // ---- one escape in bytes ----

  /** The masks of one escape: bytes 46 and 47, and bytes 48 to 53 of the header. */
  const FIELD_MASK: seq<Byte> := [0x74, 0xE9]
  const CHECKSUM_MASK: seq<Byte> := [0xF0, 0xAF, 0x2C, 0xB8, 0xBB, 0x2E]

  lemma {:induction false} XorBytesLength(x: seq<Byte>, m: seq<Byte>)
    requires |x| == |m|
    ensures |XorBytes(x, m)| == |x|
  {
    if x != [] {
      XorBytesLength(x[..|x| - 1], m[..|m| - 1]);
    }
  }

  lemma {:induction false} LeValueXor(x: seq<Byte>, m: seq<Byte>)
    requires |x| == |m|
    ensures |XorBytes(x, m)| == |x| && LeValue(XorBytes(x, m)) == Xor(LeValue(x), LeValue(m))
  {
    if x == [] {
      XorZero(0);
    } else {
      var n := |x| - 1;
      LeValueXor(x[..n], m[..n]);
      var y := XorBytes(x[..n], m[..n]);
      assert x == x[..n] + [x[n]] && m == m[..n] + [m[n]];
      LeLast(x[..n], x[n]);
      LeLast(m[..n], m[n]);
      LeLast(y, XorByte(x[n], m[n]));
      ShiftUpXor(x[n], m[n], 8 * n);
      XorSwap(LeValue(x[..n]), ShiftUp(x[n], 8 * n), LeValue(m[..n]), ShiftUp(m[n], 8 * n));
    }
  }

  lemma {:induction false} LeLast(x: seq<Byte>, b: Byte)
    ensures LeValue(x + [b]) == Xor(LeValue(x), ShiftUp(b, 8 * |x|))
  {
    LeAppend(x, [b]);
    assert LeValue([b]) == b by {
      assert [b][1..] == [];
    }
  }

  lemma MaskValues()
    ensures BeValue(FIELD_MASK) == 0x74E9 && LeValue(CHECKSUM_MASK) == 0x2EBB_B82C_AFF0
  {
    assert FIELD_MASK[..1] == [0x74] && [0x74][..0] == [];
    assert BeValue([0x74]) == 0x74;
    var m := CHECKSUM_MASK;
    assert m[1..][1..] == m[2..] && m[2..][1..] == m[3..] && m[3..][1..] == m[4..] && m[4..][1..] == m[5..];
    assert LeValue(m[5..]) == 0x2E && LeValue(m[4..]) == 0x2EBB && LeValue(m[3..]) == 0x2E_BBB8;
    assert LeValue(m[2..]) == 0x2EBB_B82C && LeValue(m[1..]) == 0x2E_BBB8_2CAF;
  }

  function Escaped(a: seq<Byte>): (b: seq<Byte>)
    requires |a| == HEADER_BYTES
    ensures |b| == HEADER_BYTES
  {
    XorBytesLength(a[46..48], FIELD_MASK);
    XorBytesLength(a[48..54], CHECKSUM_MASK);
    a[..46] + XorBytes(a[46..48], FIELD_MASK) + XorBytes(a[48..54], CHECKSUM_MASK) + a[54..]
  }

  lemma EscapedChanges(a: seq<Byte>)
    requires |a| == HEADER_BYTES
    ensures FieldChange(a, Escaped(a)) == 0x74E9 && ChecksumChange(a, Escaped(a)) == 0x2EBB_B82C_AFF0
  {
    var b := Escaped(a);
    XorBytesLength(a[46..48], FIELD_MASK);
    XorBytesLength(a[48..54], CHECKSUM_MASK);
    MaskValues();
    FieldMasked(a[40..46], a[46..48], FIELD_MASK);
    assert a[40..48] == a[40..46] + a[46..48] && b[40..48] == a[40..46] + XorBytes(a[46..48], FIELD_MASK);
    ChecksumMasked(a[48..54], CHECKSUM_MASK, a[54..56]);
    assert a[48..56] == a[48..54] + a[54..56] && b[48..56] == XorBytes(a[48..54], CHECKSUM_MASK) + a[54..56];
  }

  lemma {:induction false} FieldMasked(x: seq<Byte>, y: seq<Byte>, m: seq<Byte>)
    requires |y| == |m|
    ensures Xor(BeValue(x + y), BeValue(x + XorBytes(y, m))) == BeValue(m)
  {
    BeValueXor(y, m);
    SameFront(x, y, XorBytes(y, m));
    XorMasked(BeValue(y), BeValue(m));
  }

  lemma {:induction false} ChecksumMasked(x: seq<Byte>, m: seq<Byte>, y: seq<Byte>)
    requires |x| == |m|
    ensures Xor(LeValue(x + y), LeValue(XorBytes(x, m) + y)) == LeValue(m)
  {
    LeValueXor(x, m);
    SameBack(x, XorBytes(x, m), y);
    XorMasked(LeValue(x), LeValue(m));
  }

  lemma {:induction false} XorMasked(x: nat, m: nat)
    ensures Xor(x, Xor(x, m)) == m
  {
    XorAssoc(x, x, m);
    XorSelf(x);
    XorZero(m);
  }

  /** The change that gets through: every accepted header has another one at a distance of eight
      bytes, so `decode` alone does not reject every change of eight bytes. */
  lemma EscapeIsAccepted(a: seq<Byte>)
    requires |a| == HEADER_BYTES && DecodeHeader(a).Ok?
    ensures ChangedWithin(a, Escaped(a), 46, 8) && DecodeHeader(Escaped(a)).Ok?
  {
    var b := Escaped(a);
    EscapedChanges(a);
    if a == b {
      XorSelf(BeValue(a[40..48]));
    }
    assert b[..46] == a[..46] && b[54..] == a[54..];
    HeaderChangeVerdict(a, b, 46, 8);
  }

  // ---- changes of a whole file ----

  /** An accepted v2 file. */
  predicate Accepted(a: seq<Byte>, limits: Limits) {
    Verdict(Some(a), limits).Ok? && Verdict(Some(a), limits).value.sourceFormat == V2
  }

  /** A payload change confined to 64 consecutive bits, wherever they start, is reported as
      `CorruptStore` under the limits that accepted the file. */
  lemma PayloadBurstRejected(a: seq<Byte>, b: seq<Byte>, limits: Limits, k: nat)
    requires Accepted(a, limits)
    requires |a| == |b| && a[..HEADER_BYTES] == b[..HEADER_BYTES] && a != b
    requires forall i: nat :: i < k || k + 64 <= i ==>
      Bit(BeValue(a[HEADER_BYTES..]), i) == Bit(BeValue(b[HEADER_BYTES..]), i)
    ensures Verdict(Some(b), limits) == Err(CorruptStore)
  {
    var p, q := a[HEADER_BYTES..], b[HEADER_BYTES..];
    assert a == a[..HEADER_BYTES] + p && b == b[..HEADER_BYTES] + q;
    if BeValue(p) == BeValue(q) {
      BeValueInjective(p, q);
    }
    BurstDetected(p, q, k);
  }

  lemma SameHeaderSameOpening(a: seq<Byte>, b: seq<Byte>, limits: Limits, other: Limits)
    requires |a| == |b| && HEADER_BYTES <= |a| && a[..HEADER_BYTES] == b[..HEADER_BYTES]
    requires OpenValidated(Some(a), limits).Ok? && OpenValidated(Some(b), other).Ok?
    ensures OpenValidated(Some(a), limits) == OpenValidated(Some(b), other)
  {
  }

  lemma AcceptedParts(a: seq<Byte>, limits: Limits)
    requires Accepted(a, limits)
    ensures HEADER_BYTES <= |a| && DecodeHeader(a[..HEADER_BYTES]).Ok?
    ensures CrcOf(a[HEADER_BYTES..]) == LeU64(a[..HEADER_BYTES], 40)
  {
  }

  /** The changed file is read as v1 and its v1 digest happens to be the one the v2 header holds as
      its payload checksum, while the v2 header checksum happens to be zero. */
  predicate BecomesLegacy(a: seq<Byte>, b: seq<Byte>, other: Limits)
    requires HEADER_BYTES <= |a| == |b|
  {
    var g, h := a[..HEADER_BYTES], b[..HEADER_BYTES];
    && h[0..8] == GEL_MAGIC_V1 && LeU32(h, 8) == 1 && LeU32(h, 12) == ORB_BITS
    && LeU64(g, 48) == 0 && LeU64(g, 40) == Checksum(a[HEADER_BYTES..])
    && |b| <= other.maxFileBytes && ValidateCountAndSize(LeU64(g, 24), |b|, other).Ok?
  }

  lemma SplitWindow(a: seq<Byte>, b: seq<Byte>, at: nat, n: nat)
    requires ChangedWithin(a, b, at, n) && at + n <= HEADER_BYTES <= |a|
    ensures ChangedWithin(a[..HEADER_BYTES], b[..HEADER_BYTES], at, n)
    ensures a[HEADER_BYTES..] == b[HEADER_BYTES..]
  {
    var g, h := a[..HEADER_BYTES], b[..HEADER_BYTES];
    var end := HEADER_BYTES - at - n;
    assert g[..at] == a[..at] && h[..at] == b[..at];
    assert g[at + n..] == a[at + n..][..end] && h[at + n..] == b[at + n..][..end];
    assert a[HEADER_BYTES..] == a[at + n..][end..];
    assert b[HEADER_BYTES..] == b[at + n..][end..];
    assert a == g + a[HEADER_BYTES..] && b == h + b[HEADER_BYTES..];
  }

  /** Header and payload of a file, cut at a window in the payload. */
  lemma PayloadParts(a: seq<Byte>, at: nat, n: nat)
    requires HEADER_BYTES <= at && at + n <= |a|
    ensures var p := a[HEADER_BYTES..];
      p[..at - HEADER_BYTES] == a[..at][HEADER_BYTES..] && p[at - HEADER_BYTES + n..] == a[at + n..]
    ensures a[..HEADER_BYTES] == a[..at][..HEADER_BYTES] && a == a[..HEADER_BYTES] + a[HEADER_BYTES..]
  {
  }

  /** A window in the payload changes the payload checksum. */
  lemma PayloadWindow(a: seq<Byte>, b: seq<Byte>, at: nat, n: nat)
    requires ChangedWithin(a, b, at, n) && n <= 8 && HEADER_BYTES <= at
    ensures a[..HEADER_BYTES] == b[..HEADER_BYTES]
    ensures CrcOf(a[HEADER_BYTES..]) != CrcOf(b[HEADER_BYTES..])
  {
    PayloadParts(a, at, n);
    PayloadParts(b, at, n);
    WindowChangesCrc(a[HEADER_BYTES..], b[HEADER_BYTES..], at - HEADER_BYTES, n);
  }

  lemma PayloadChangeRejected(a: seq<Byte>, b: seq<Byte>, limits: Limits, other: Limits)
    requires Accepted(a, limits) && |a| == |b| && a[..HEADER_BYTES] == b[..HEADER_BYTES]
    requires CrcOf(a[HEADER_BYTES..]) != CrcOf(b[HEADER_BYTES..])
    ensures Verdict(Some(b), other).Err?
  {
    if OpenValidated(Some(b), other).Ok? {
      SameHeaderSameOpening(a, b, limits, other);
    }
  }

  /** A window across the end of the header leaves the checked part of the header alone, so an
      accepted header has not changed at all. */
  lemma AcrossTheHeaderEnd(a: seq<Byte>, b: seq<Byte>, limits: Limits, other: Limits, at: nat, n: nat)
    requires Accepted(a, limits) && ChangedWithin(a, b, at, n) && n <= 8 && at < HEADER_BYTES < at + n
    ensures Verdict(Some(b), other).Err?
  {
    var g, h := a[..HEADER_BYTES], b[..HEADER_BYTES];
    AcceptedParts(a, limits);
    assert g[..56] == a[..at][..56] && h[..56] == b[..at][..56];
    assert g[0..8] == g[..56][0..8] && h[0..8] == h[..56][0..8];
    if DecodeHeader(h).Ok? {
      SameBeforePadding(g, h);
      assert a == g + a[HEADER_BYTES..] && b == h + b[HEADER_BYTES..];
      var start := HEADER_BYTES;
      assert ChangedWithin(a, b, start, at + n - start) by {
        assert a[..start] == g && b[..start] == h;
      }
      PayloadWindow(a, b, start, at + n - start);
      PayloadChangeRejected(a, b, limits, other);
    }
  }

  lemma SameBeforePadding(g: seq<Byte>, h: seq<Byte>)
    requires |g| == |h| == HEADER_BYTES && DecodeHeader(g).Ok? && DecodeHeader(h).Ok? && g[..56] == h[..56]
    ensures g == h
  {
    AcceptedSelfChecks(g);
    AcceptedSelfChecks(h);
    assert g[..48] == g[..56][..48] && h[..48] == h[..56][..48];
  }

  /** A window inside the header that leaves it a v2 header: if it decodes, the payload checksum it
      holds has changed, and the payload has not. */
  lemma HeaderWindowRejected(a: seq<Byte>, b: seq<Byte>, limits: Limits, other: Limits, at: nat, n: nat)
    requires Accepted(a, limits) && ChangedWithin(a, b, at, n) && n <= 8 && at + n <= HEADER_BYTES
    requires b[0..8] != GEL_MAGIC_V1
    ensures Verdict(Some(b), other).Err?
  {
    hide LeValue, BeValue, Xor, IsEscape, CrcOf, Checksum, ParseV1Header, ComputeHeaderCrc, AllZero;
    var g, h := a[..HEADER_BYTES], b[..HEADER_BYTES];
    AcceptedParts(a, limits);
    SplitWindow(a, b, at, n);
    HeaderChangeVerdict(g, h, at, n);
    assert h[0..8] == b[0..8];
    if DecodeHeader(h).Ok? {
      PayloadFieldChanged(g, h);
    }
  }

  lemma PayloadFieldChanged(g: seq<Byte>, h: seq<Byte>)
    requires |g| == |h| == HEADER_BYTES && IsEscape(FieldChange(g, h), ChecksumChange(g, h))
    ensures LeU64(g, 40) != LeU64(h, 40)
  {
    if LeU64(g, 40) == LeU64(h, 40) {
      BytesOfValue(g[40..48]);
      BytesOfValue(h[40..48]);
      XorSelf(BeValue(g[40..48]));
    }
  }

  /** What an accepted v2 header holds outside the numbers. */
  lemma AcceptedGeometry(g: seq<Byte>)
    requires |g| == HEADER_BYTES && DecodeHeader(g).Ok?
    ensures g[0..8] == GEL_MAGIC_V2 && LeU32(g, 8) == 2 && LeU32(g, 16) == ORB_BYTES
    ensures AllZero(g[20..24]) && AllZero(g[56..64])
  {
    BytesOfValue(g[20..24]);
    assert LeBytes(0, 4) == [0, 0, 0, 0];
  }

  /** A window from byte 7 or before leaves the bytes from 15 on alone. */
  lemma SameFrom16(g: seq<Byte>, h: seq<Byte>, at: nat, n: nat)
    requires |g| == HEADER_BYTES && ChangedWithin(g, h, at, n) && at <= 7 && n <= 8
    ensures g[16..20] == h[16..20] && g[20..24] == h[20..24] && g[24..32] == h[24..32]
    ensures g[40..48] == h[40..48] && g[48..56] == h[48..56] && g[48..64] == h[48..64]
  {
    SameBehind(g, h, at + n, 16, 20);
    SameBehind(g, h, at + n, 20, 24);
    SameBehind(g, h, at + n, 24, 32);
    SameBehind(g, h, at + n, 40, 48);
    SameBehind(g, h, at + n, 48, 56);
    SameBehind(g, h, at + n, 48, 64);
  }

  lemma UnchangedByte(g: seq<Byte>, h: seq<Byte>, at: nat, n: nat, i: nat)
    requires ChangedWithin(g, h, at, n) && i < |g| && (i < at || at + n <= i)
    ensures g[i] == h[i]
  {
    if i < at {
      assert g[..at][i] == h[..at][i];
    } else {
      assert g[at + n..][i - at - n] == h[at + n..][i - at - n];
    }
  }

  lemma SeventhByte(g: seq<Byte>)
    requires |g| == HEADER_BYTES
    ensures g[7] == g[0..8][7]
  {
  }

  /** The magic differs in byte 7 alone. */
  lemma MagicWindow(g: seq<Byte>, h: seq<Byte>, at: nat, n: nat)
    requires |g| == HEADER_BYTES && ChangedWithin(g, h, at, n)
    requires g[0..8] == GEL_MAGIC_V2 && h[0..8] == GEL_MAGIC_V1
    ensures at <= 7 < at + n
  {
    SeventhByte(g);
    SeventhByte(h);
    if 7 < at || at + n <= 7 {
      UnchangedByte(g, h, at, n, 7);
    }
  }

  /** A changed version shows in one of its four bytes. */
  lemma VersionWindow(g: seq<Byte>, h: seq<Byte>, at: nat, n: nat)
    requires |g| == HEADER_BYTES && ChangedWithin(g, h, at, n) && at + n <= 8
    ensures LeU32(g, 8) == LeU32(h, 8)
  {
    UnchangedByte(g, h, at, n, 8);
    UnchangedByte(g, h, at, n, 9);
    UnchangedByte(g, h, at, n, 10);
    UnchangedByte(g, h, at, n, 11);
    assert g[8..12] == h[8..12];
  }

  lemma ZeroChecksum(g: seq<Byte>)
    requires |g| == HEADER_BYTES && AllZero(g[56..64])
    ensures AllZero(g[48..64]) <==> LeU64(g, 48) == 0
  {
    assert g[48..64] == g[48..56] + g[56..64];
    BytesOfValue(g[48..56]);
    if LeU64(g, 48) == 0 {
      ZeroBytes(8);
      assert AllZero(g[48..56]);
    }
    if AllZero(g[48..64]) {
      assert AllZero(g[48..56]) by {
        assert forall i :: 0 <= i < 8 ==> g[48..56][i] == g[48..64][i];
      }
      ZeroLe(g[48..56]);
    }
  }

  lemma {:induction false} ZeroBytes(n: nat)
    ensures AllZero(LeBytes(0, n))
  {
    if n != 0 {
      ZeroBytes(n - 1);
    }
  }

  lemma {:induction false} ZeroLe(bytes: seq<Byte>)
    requires AllZero(bytes)
    ensures LeValue(bytes) == 0
  {
    if bytes != [] {
      assert AllZero(bytes[1..]);
      ZeroLe(bytes[1..]);
    }
  }

  /** How the v1 reader judges a header that was an accepted v2 header outside the first 16 bytes. */
  lemma ParsedAsLegacy(g: seq<Byte>, h: seq<Byte>, at: nat, n: nat)
    requires |g| == HEADER_BYTES && DecodeHeader(g).Ok? && ChangedWithin(g, h, at, n) && at <= 7 && n <= 8
    ensures ParseV1Header(h).Ok? <==> LeU32(h, 8) == 1 && LeU32(h, 12) == ORB_BITS && LeU64(g, 48) == 0
    ensures ParseV1Header(h).Ok? ==> ParseV1Header(h).value == ExpectV1(LeU64(g, 24), LeU64(g, 40))
  {
    AcceptedGeometry(g);
    SameFrom16(g, h, at, n);
    ZeroChecksum(g);
  }

  /** A file that turned into a v1 file: the window covers the magic, and also the version if the
      file is accepted. */
  lemma LegacyVerdict(a: seq<Byte>, b: seq<Byte>, limits: Limits, other: Limits, at: nat, n: nat)
    requires Accepted(a, limits) && ChangedWithin(a, b, at, n) && n <= 8 && at + n <= HEADER_BYTES
    requires b[0..8] == GEL_MAGIC_V1
    ensures Verdict(Some(b), other).Ok? <==> BecomesLegacy(a, b, other)
    ensures Verdict(Some(b), other).Ok? ==> at <= 7 && 8 < at + n
  {
    var g, h := a[..HEADER_BYTES], b[..HEADER_BYTES];
    AcceptedParts(a, limits);
    SplitWindow(a, b, at, n);
    assert h[0..8] == b[0..8];
    AcceptedGeometry(g);
    MagicWindow(g, h, at, n);
    if at + n <= 8 {
      VersionWindow(g, h, at, n);
    }
    ParsedAsLegacy(g, h, at, n);
  }

  /** A change of up to eight consecutive bytes anywhere in an accepted v2 file: it is accepted under
      some limits exactly when it turns the file into a v1 file. */
  lemma WindowChangeVerdict(a: seq<Byte>, b: seq<Byte>, limits: Limits, other: Limits, at: nat, n: nat)
    requires Accepted(a, limits) && ChangedWithin(a, b, at, n) && n <= 8
    ensures Verdict(Some(b), other).Ok? <==> BecomesLegacy(a, b, other)
    ensures Verdict(Some(b), other).Ok? ==> at <= 7 && 8 < at + n
  {
    AcceptedParts(a, limits);
    if at + n <= HEADER_BYTES {
      assert b[..HEADER_BYTES][0..8] == b[0..8];
      if b[0..8] == GEL_MAGIC_V1 {
        LegacyVerdict(a, b, limits, other, at, n);
      } else {
        HeaderWindowRejected(a, b, limits, other, at, n);
      }
    } else {
      LateWindowRejected(a, b, limits, other, at, n);
    }
  }

  lemma LateWindowRejected(a: seq<Byte>, b: seq<Byte>, limits: Limits, other: Limits, at: nat, n: nat)
    requires Accepted(a, limits) && ChangedWithin(a, b, at, n) && n <= 8 && HEADER_BYTES < at + n
    ensures Verdict(Some(b), other).Err? && !BecomesLegacy(a, b, other)
  {
    var g, h := a[..HEADER_BYTES], b[..HEADER_BYTES];
    AcceptedParts(a, limits);
    assert g[0..8] == a[..at][0..8] && h[0..8] == b[..at][0..8];
    if at < HEADER_BYTES {
      AcrossTheHeaderEnd(a, b, limits, other, at, n);
    } else {
      PayloadWindow(a, b, at, n);
      PayloadChangeRejected(a, b, limits, other);
    }
  }

  /** Any change of up to eight consecutive bytes of an accepted v2 file, in header, payload or across,
      makes it unacceptable under every limits, unless the window holds bytes 7 and 8. */
  lemma WindowChangeRejected(a: seq<Byte>, b: seq<Byte>, limits: Limits, other: Limits, at: nat, n: nat)
    requires Accepted(a, limits) && ChangedWithin(a, b, at, n) && n <= 8 && !(at <= 7 && 8 < at + n)
    ensures Verdict(Some(b), other).Err?
  {
    WindowChangeVerdict(a, b, limits, other, at, n);
  }
}
