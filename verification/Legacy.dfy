/** The one way in which an accepted v2 file can survive a change of eight bytes: by turning into a v1
    file. It depends on the payload alone: some header allows it exactly when the v1 digest of the
    payload equals its CRC. */
module Legacy {
  import opened Words
  import opened Counting
  import opened Orbs
  import opened LittleEndian
  import opened Crc
  import opened Store
  import opened Corruption
  import opened Wrappers

  /** The checksum of a new header. */
  function HeaderCrc(count: Word, generation: Word, payloadCrc: Word): Word {
    NewHeader(count, generation, payloadCrc).headerCrc
  }

  /** The covered bytes around the generation. */
  lemma {:induction false} AroundGeneration(count: Word, generation: Word, payloadCrc: Word)
    ensures HeaderCrc(count, generation, payloadCrc) ==
      CrcOf(FieldsBefore(count) + LeBytes(generation, 8) + FieldsBehind(payloadCrc))
  {
    var h := NewHeader(count, generation, payloadCrc);
    FieldsIgnoreCrc(h, 0);
    assert HeaderFields(h) + ZERO8 + ZERO8 ==
      FieldsBefore(count) + LeBytes(generation, 8) + FieldsBehind(payloadCrc);
  }

  function FieldsBefore(count: Word): seq<Byte> {
    GEL_MAGIC_V2 + LeBytes(GEL_FORMAT_VERSION, 4) + LeBytes(ORB_BITS, 4) + LeBytes(ORB_BYTES, 4) + LeBytes(0, 4)
    + LeBytes(count, 8)
  }

  function FieldsBehind(payloadCrc: Word): seq<Byte> {
    LeBytes(payloadCrc, 8) + ZERO8 + ZERO8
  }

  /** Different generations give different header checksums. */
  lemma GenerationShows(count: Word, g: Word, h: Word, payloadCrc: Word)
    requires HeaderCrc(count, g, payloadCrc) == HeaderCrc(count, h, payloadCrc)
    ensures g == h
  {
    hide CrcOf, HeaderCrc, FieldsBefore, FieldsBehind;
    AroundGeneration(count, g, payloadCrc);
    AroundGeneration(count, h, payloadCrc);
    SameWord(g, h);
    if g != h {
      WindowDetected(FieldsBefore(count), LeBytes(g, 8), LeBytes(h, 8), FieldsBehind(payloadCrc));
    }
  }

  /** For every record count and payload checksum some generation gives any header checksum, zero
      included. */
  lemma SomeGeneration(count: Word, payloadCrc: Word, wanted: Word, top: nat) returns (generation: Word)
    requires top == TWO64
    ensures HeaderCrc(count, generation, payloadCrc) == wanted
  {
    hide HeaderCrc, Below;
    var f := (g: nat) => if g < TWO64 then HeaderCrc(count, g, payloadCrc) else 0;
    forall x, z | x in Below(top) && z in Below(top) && f(x) == f(z)
      ensures x == z
    {
      GenerationShows(count, x, z, payloadCrc);
    }
    InjectionIsOnto<nat>(Below(top), f, wanted);
    generation :| generation in Below(top) && f(generation) == wanted;
  }

  // ---- the changed file ----

  /** A v2 file with byte 7 of the magic and the version set to those of v1. */
  function AsLegacy(a: seq<Byte>): seq<Byte>
    requires 9 <= |a|
  {
    a[..7] + [0x31, 1] + a[9..]
  }

  lemma VersionBytes()
    ensures LeBytes(2, 4) == [2, 0, 0, 0] && LeValue([1, 0, 0, 0]) == 1
  {
    assert LeBytes(0, 2) == [0, 0];
    assert [1, 0, 0, 0][1..] == [0, 0, 0] && LeValue([0, 0, 0]) == 0;
  }

  lemma LegacyFields(h: Header, b: seq<Byte>)
    requires h.version == 2 && h.orbBits == ORB_BITS && b == AsLegacy(HeaderImage(h))
    ensures |b| == HEADER_BYTES && b[0..8] == GEL_MAGIC_V1 && LeU32(b, 8) == 1 && LeU32(b, 12) == ORB_BITS
    ensures ChangedWithin(HeaderImage(h), b, 7, 2)
  {
    var a := HeaderImage(h);
    HeaderSlices(h);
    VersionBytes();
    ValueOfBits();
    assert [2, 0, 0, 0][1..] == [0, 0, 0] && GEL_MAGIC_V2[..7] + [0x31] == GEL_MAGIC_V1;
    hide *;
    ChangedBytes(a);
    ChangedSlices(a);
  }

  lemma ChangedBytes(a: seq<Byte>)
    requires |a| == HEADER_BYTES && a[0..8] == GEL_MAGIC_V2 && a[8..12] == [2, 0, 0, 0]
    ensures ChangedWithin(a, AsLegacy(a), 7, 2)
  {
    var b := AsLegacy(a);
    SeventhByte(a);
    assert a[..7] == b[..7] && a[9..] == b[9..];
    assert b[7] == 0x31;
  }

  lemma ChangedSlices(a: seq<Byte>)
    requires |a| == HEADER_BYTES
    ensures var b := AsLegacy(a);
      && |b| == HEADER_BYTES && b[0..8] == a[0..8][..7] + [0x31]
      && b[8..12] == [1] + a[8..12][1..] && b[12..16] == a[12..16]
  {
  }

  lemma ValueOfBits()
    ensures LeValue(LeBytes(ORB_BITS, 4)) == ORB_BITS
  {
    Pow2Of32();
    ValueOfBytes(ORB_BITS, 4);
  }

  /** A payload whose v1 digest equals its CRC: with a suitable generation its v2 file becomes a v1 file
      by the change of two bytes. */
  lemma TurnsLegacy(orbs: seq<Orb>) returns (a: seq<Byte>, b: seq<Byte>)
    requires HEADER_BYTES + ORB_BYTES * |orbs| < TWO64 && Checksum(Payload(orbs)) == CrcOf(Payload(orbs))
    ensures Accepted(a, UNLIMITED) && a[HEADER_BYTES..] == Payload(orbs)
    ensures ChangedWithin(a, b, 7, 2) && Verdict(Some(b), UNLIMITED).Ok?
  {
    var crc := CrcOf(Payload(orbs));
    var generation := SomeGeneration(|orbs|, crc, 0, TWO64);
    var h := NewHeader(|orbs|, generation, crc);
    a := StoreImage(h, orbs);
    b := AsLegacy(a);
    ImageOpens(RamStore(h, V2, orbs), UNLIMITED);
    BecomesLegacyFile(h, orbs, a, b);
    WindowChangeVerdict(a, b, UNLIMITED, UNLIMITED, 7, 2);
  }

  lemma HeaderOfFile(g: seq<Byte>, p: seq<Byte>)
    requires |g| == HEADER_BYTES && ChangedWithin(g, AsLegacy(g), 7, 2)
    ensures (g + p)[..HEADER_BYTES] == g && (g + p)[HEADER_BYTES..] == p
    ensures AsLegacy(g + p) == AsLegacy(g) + p && (AsLegacy(g) + p)[..HEADER_BYTES] == AsLegacy(g)
    ensures ChangedWithin(g + p, AsLegacy(g + p), 7, 2)
  {
    var a, b := g + p, AsLegacy(g) + p;
    assert a[..HEADER_BYTES] == g && b[..HEADER_BYTES] == AsLegacy(g);
    assert a[9..] == g[9..] + p && a[..7] == g[..7];
    assert b[9..] == AsLegacy(g)[9..] + p && b[..7] == AsLegacy(g)[..7];
  }

  lemma {:induction false} BecomesLegacyFile(h: Header, orbs: seq<Orb>, a: seq<Byte>, b: seq<Byte>)
    requires ValidStore(RamStore(h, V2, orbs)) && h.headerCrc == 0 && Checksum(Payload(orbs)) == CrcOf(Payload(orbs))
    requires a == StoreImage(h, orbs) && b == AsLegacy(a)
    ensures ChangedWithin(a, b, 7, 2) && BecomesLegacy(a, b, UNLIMITED)
  {
    var g := HeaderImage(h);
    LegacyFields(h, AsLegacy(g));
    HeaderOfFile(g, Payload(orbs));
    CanonicalAtImage(h);
    hide HeaderImage, AsLegacy, Payload, Checksum, CrcOf, ChangedWithin, LeValue, ComputeHeaderCrc;
  }

  /** No other payload allows it. */
  lemma OnlyThenLegacy(a: seq<Byte>, b: seq<Byte>, limits: Limits, other: Limits, at: nat, n: nat)
    requires Accepted(a, limits) && ChangedWithin(a, b, at, n) && n <= 8 && Verdict(Some(b), other).Ok?
    ensures Checksum(a[HEADER_BYTES..]) == CrcOf(a[HEADER_BYTES..])
  {
    AcceptedParts(a, limits);
    WindowChangeVerdict(a, b, limits, other, at, n);
  }
}
