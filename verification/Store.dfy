/** The `.gel` store of `gel-store`: the canonical 64-byte header, v1 and v2 parsing, the
    streaming check and the load. A file is a byte string or absent. */
module Store {
  import opened Words
  import opened Mixing
  import opened Orbs
  import opened LittleEndian
  import opened Crc
  import opened Wrappers

  const HEADER_BYTES: nat := 64
  const V2_HEADER_CRC_OFFSET: nat := 48
  const GEL_FORMAT_VERSION: nat := 2
  const GEL_MAGIC_V1: seq<Byte> := [0x47, 0x45, 0x4C, 0x4F, 0x52, 0x42, 0x30, 0x31]
  const GEL_MAGIC_V2: seq<Byte> := [0x47, 0x45, 0x4C, 0x4F, 0x52, 0x42, 0x30, 0x32]
  const ZERO8: seq<Byte> := [0, 0, 0, 0, 0, 0, 0, 0]

  type U32 = v: nat | v < 0x1_0000_0000

  datatype StoreFormat = LegacyV1 | V2

  datatype Header = Header(
    version: U32,
    orbBits: U32,
    recordBytes: U32,
    flags: U32,
    recordCount: Word,
    generation: Word,
    payloadCrc: Word,
    headerCrc: Word)

  datatype Verification = Verification(sourceFormat: StoreFormat, header: Header)

  datatype RamStore = RamStore(header: Header, sourceFormat: StoreFormat, orbs: seq<Orb>)

  datatype Limits = Limits(maxRecords: Word, maxFileBytes: Word)

  const DEFAULT_MAX_PAYLOAD_BYTES: Word := 256 * 1024 * 1024

  const SAFE_DEFAULT :=
    Limits(DEFAULT_MAX_PAYLOAD_BYTES / ORB_BYTES, HEADER_BYTES + DEFAULT_MAX_PAYLOAD_BYTES)
  const UNLIMITED := Limits(TWO64 - 1, TWO64 - 1)

  datatype StoreError =
    | NotFound
    | UnexpectedEof
    | InvalidMagic
    | UnsupportedVersion(version: nat)
    | InvalidHeader(reason: string)
    | CorruptHeader
    | CorruptStore
    | AllocationFailed
    | InvalidLength(expected: nat, actual: nat)
    | LimitExceeded(what: string)

  // ---- header ----

  /** The first 48 bytes of a header. */
  function HeaderFields(h: Header): (bytes: seq<Byte>)
    ensures |bytes| == V2_HEADER_CRC_OFFSET
  {
    GEL_MAGIC_V2 + LeBytes(h.version, 4) + LeBytes(h.orbBits, 4) + LeBytes(h.recordBytes, 4)
    + LeBytes(h.flags, 4) + LeBytes(h.recordCount, 8) + LeBytes(h.generation, 8) + LeBytes(h.payloadCrc, 8)
  }

  /** The checksum covers the whole header with its own eight bytes read as zero. */
  function ComputeHeaderCrc(h: Header): Word {
    CrcOf(HeaderFields(h) + ZERO8 + ZERO8)
  }

  /** The canonical image of a header. */
  function HeaderImage(h: Header): (bytes: seq<Byte>)
    ensures |bytes| == HEADER_BYTES
  {
    HeaderFields(h) + LeBytes(ComputeHeaderCrc(h), 8) + ZERO8
  }

  function NewHeader(recordCount: Word, generation: Word, payloadCrc: Word): Header {
    var h := Header(GEL_FORMAT_VERSION, ORB_BITS, ORB_BYTES, 0, recordCount, generation, payloadCrc, 0);
    h.(headerCrc := ComputeHeaderCrc(h))
  }

  /** A header as `new` builds it and as `decode` accepts it. */
  predicate Canonical(h: Header) {
    h == NewHeader(h.recordCount, h.generation, h.payloadCrc)
  }

  /** `out[at..at + src.len()].copy_from_slice(src)`. */
  method CopyInto(out: array<Byte>, at: nat, src: seq<Byte>)
    requires at + |src| <= out.Length
    modifies out
    ensures out[..] == old(out[..at]) + src + old(out[at + |src|..])
  {
    forall k | 0 <= k < |src| {
      out[at + k] := src[k];
    }
  }

  /** `Header::encode`: fills a zeroed buffer, then writes the checksum over its slot. */
  method EncodeHeader(h: Header) returns (bytes: seq<Byte>)
    ensures bytes == HeaderImage(h)
  {
    var out := new Byte[HEADER_BYTES](_ => 0);
    assert out[48..] == ZERO8 + ZERO8;
    FillFields(out, h);
    ghost var fields := HeaderFields(h);
    assert out[..] == out[..48] + out[48..] == fields + ZERO8 + ZERO8;
    var crc := Crc64(out[..]);
    CopyInto(out, V2_HEADER_CRC_OFFSET, LeBytes(crc, 8));
    bytes := out[..];
  }

  /** The next field of a buffer filled from the front. */
  method AppendField(out: array<Byte>, at: nat, src: seq<Byte>, ghost written: seq<Byte>)
    requires at + |src| <= out.Length && out[..at] == written
    modifies out
    ensures out[..at + |src|] == written + src
    ensures forall k :: at + |src| <= k < out.Length ==> out[k] == old(out[k])
  {
    ghost var before := out[..];
    CopyInto(out, at, src);
    assert out[..] == before[..at] + src + before[at + |src|..];
  }

  /** `Header::encode_without_header_crc`. */
  method FillFields(out: array<Byte>, h: Header)
    requires out.Length == HEADER_BYTES
    modifies out
    ensures out[..48] == HeaderFields(h) && out[48..] == old(out[48..])
  {
    ghost var f0 := GEL_MAGIC_V2;
    ghost var f1 := f0 + LeBytes(h.version, 4);
    ghost var f2 := f1 + LeBytes(h.orbBits, 4);
    ghost var f3 := f2 + LeBytes(h.recordBytes, 4);
    ghost var f4 := f3 + LeBytes(h.flags, 4);
    ghost var f5 := f4 + LeBytes(h.recordCount, 8);
    ghost var f6 := f5 + LeBytes(h.generation, 8);
    ghost var tail := out[48..];
    AppendField(out, 0, GEL_MAGIC_V2, []);
    AppendField(out, 8, LeBytes(h.version, 4), f0);
    AppendField(out, 12, LeBytes(h.orbBits, 4), f1);
    AppendField(out, 16, LeBytes(h.recordBytes, 4), f2);
    AppendField(out, 20, LeBytes(h.flags, 4), f3);
    assert out[48..] == tail;
    AppendField(out, 24, LeBytes(h.recordCount, 8), f4);
    AppendField(out, 32, LeBytes(h.generation, 8), f5);
    AppendField(out, 40, LeBytes(h.payloadCrc, 8), f6);
  }

  function LeU32(bytes: seq<Byte>, offset: nat): U32
    requires offset + 4 <= |bytes|
  {
    LeValueBound(bytes[offset..offset + 4]);
    Pow2Of64();
    assert Pow2(32) == 0x1_0000_0000 by {
      Pow2Sum(32, 32);
      Pow2Of32();
    }
    LeValue(bytes[offset..offset + 4])
  }

  lemma Pow2Of32()
    ensures Pow2(32) == 0x1_0000_0000
  {
    assert Pow2(8) == 256;
    Pow2Sum(8, 8);
    Pow2Sum(16, 16);
  }

  function LeU64(bytes: seq<Byte>, offset: nat): Word
    requires offset + 8 <= |bytes|
  {
    LeWord(bytes[offset..offset + 8])
  }

  predicate AllZero(bytes: seq<Byte>) {
    forall i :: 0 <= i < |bytes| ==> bytes[i] == 0
  }

  function HeaderAt(bytes: seq<Byte>): Header
    requires |bytes| == HEADER_BYTES
  {
    Header(LeU32(bytes, 8), LeU32(bytes, 12), LeU32(bytes, 16), LeU32(bytes, 20),
           LeU64(bytes, 24), LeU64(bytes, 32), LeU64(bytes, 40), LeU64(bytes, 48))
  }

  /** `Header::decode`. */
  function DecodeHeader(bytes: seq<Byte>): Result<Header, StoreError>
    requires |bytes| == HEADER_BYTES
  {
    if bytes[0..8] != GEL_MAGIC_V2 then Err(InvalidMagic)
    else
      var h := HeaderAt(bytes);
      if h.version != GEL_FORMAT_VERSION then Err(UnsupportedVersion(h.version))
      else if h.orbBits != ORB_BITS then Err(InvalidHeader("orb_bits != 1024"))
      else if h.recordBytes != ORB_BYTES then Err(InvalidHeader("record_bytes != 128"))
      else if h.flags != 0 then Err(InvalidHeader("unsupported nonzero flags"))
      else if !AllZero(bytes[56..64]) then Err(InvalidHeader("reserved bytes must be zero"))
      else if ComputeHeaderCrc(h) != h.headerCrc then Err(CorruptHeader)
      else Ok(h)
  }

  lemma FieldsOfBytes(bytes: seq<Byte>)
    requires |bytes| == HEADER_BYTES && bytes[0..8] == GEL_MAGIC_V2
    ensures HeaderFields(HeaderAt(bytes)) == bytes[..48]
    ensures LeBytes(HeaderAt(bytes).headerCrc, 8) == bytes[48..56]
  {
    BytesOfValue(bytes[8..12]);
    BytesOfValue(bytes[12..16]);
    BytesOfValue(bytes[16..20]);
    BytesOfValue(bytes[20..24]);
    BytesOfValue(bytes[24..32]);
    BytesOfValue(bytes[32..40]);
    BytesOfValue(bytes[40..48]);
    BytesOfValue(bytes[48..56]);
    Join(bytes, 0, 8, 12);
    Join(bytes, 0, 12, 16);
    Join(bytes, 0, 16, 20);
    Join(bytes, 0, 20, 24);
    Join(bytes, 0, 24, 32);
    Join(bytes, 0, 32, 40);
    Join(bytes, 0, 40, 48);
  }

  lemma Join(bytes: seq<Byte>, i: nat, j: nat, k: nat)
    requires i <= j <= k <= |bytes|
    ensures bytes[i..j] + bytes[j..k] == bytes[i..k]
  {
  }

  lemma FieldsIgnoreCrc(h: Header, c: Word)
    ensures HeaderFields(h.(headerCrc := c)) == HeaderFields(h)
    ensures ComputeHeaderCrc(h.(headerCrc := c)) == ComputeHeaderCrc(h)
  {
  }

  /** Whatever decodes is the canonical image of its header. */
  lemma DecodedIsCanonical(bytes: seq<Byte>)
    requires |bytes| == HEADER_BYTES && DecodeHeader(bytes).Ok?
    ensures Canonical(DecodeHeader(bytes).value) && HeaderImage(DecodeHeader(bytes).value) == bytes
  {
    var h := DecodeHeader(bytes).value;
    FieldsOfBytes(bytes);
    FieldsIgnoreCrc(h, 0);
    HeaderParts(bytes);
    assert bytes[56..64] == ZERO8;
  }

  lemma HeaderParts(bytes: seq<Byte>)
    requires |bytes| == HEADER_BYTES
    ensures bytes == bytes[..48] + bytes[48..56] + bytes[56..64]
  {
  }

  lemma HeaderSlices(h: Header)
    ensures var bytes := HeaderImage(h);
      && bytes[0..8] == GEL_MAGIC_V2 && bytes[8..12] == LeBytes(h.version, 4)
      && bytes[12..16] == LeBytes(h.orbBits, 4) && bytes[16..20] == LeBytes(h.recordBytes, 4)
      && bytes[20..24] == LeBytes(h.flags, 4) && bytes[24..32] == LeBytes(h.recordCount, 8)
      && bytes[32..40] == LeBytes(h.generation, 8) && bytes[40..48] == LeBytes(h.payloadCrc, 8)
      && bytes[48..56] == LeBytes(ComputeHeaderCrc(h), 8) && bytes[56..64] == ZERO8
  {
  }

  lemma HeaderAtImage(h: Header)
    ensures HeaderAt(HeaderImage(h)) == h.(headerCrc := ComputeHeaderCrc(h))
  {
    HeaderSlices(h);
    Pow2Of32();
    ValueOfBytes(h.version, 4);
    ValueOfBytes(h.orbBits, 4);
    ValueOfBytes(h.recordBytes, 4);
    ValueOfBytes(h.flags, 4);
    WordRoundTrip(h.recordCount);
    WordRoundTrip(h.generation);
    WordRoundTrip(h.payloadCrc);
    WordRoundTrip(ComputeHeaderCrc(h));
  }

  lemma ImageFrame(h: Header)
    ensures HeaderImage(h)[0..8] == GEL_MAGIC_V2 && AllZero(HeaderImage(h)[56..64])
  {
    HeaderSlices(h);
  }

  lemma CanonicalAtImage(h: Header)
    requires Canonical(h)
    ensures HeaderAt(HeaderImage(h)) == h && ComputeHeaderCrc(h) == h.headerCrc
  {
    FieldsIgnoreCrc(h, 0);
    HeaderAtImage(h);
  }

  /** Every canonical header survives encoding and decoding. */
  lemma HeaderRoundTrip(h: Header)
    requires Canonical(h)
    ensures DecodeHeader(HeaderImage(h)) == Ok(h)
  {
    ImageFrame(h);
    CanonicalAtImage(h);
  }

  // ---- the v1 digest ----

  function Fnv(state: Word, bytes: seq<Byte>): Word {
    if bytes == [] then state
    else
      var n := |bytes| - 1;
      var s := Fnv(state, bytes[..n]);
      WordBounds(s, bytes[n]);
      WrapMul(Xor(s, bytes[n]), 0x0000_0100_0000_01B3)
  }

  const FNV_START: Word := 0xcbf2_9ce4_8422_2325

  /** `checksum64` of a whole message. */
  function Checksum(bytes: seq<Byte>): Word {
    var s := Fnv(FNV_START, bytes);
    WordBounds(s, |bytes| % TWO64);
    Avalanche64(Xor(s, |bytes| % TWO64))
  }

  lemma {:induction false} FnvAppend(state: Word, a: seq<Byte>, b: seq<Byte>)
    ensures Fnv(Fnv(state, a), b) == Fnv(state, a + b)
  {
    if b == [] {
      assert a + b == a;
    } else {
      var n := |b| - 1;
      FnvAppend(state, a, b[..n]);
      assert (a + b)[..|a + b| - 1] == a + b[..n];
    }
  }

  class Checksum64 {
    var state: Word
    var len: Word

    constructor ()
      ensures state == FNV_START && len == 0
    {
      state, len := FNV_START, 0;
    }

    method Update(bytes: seq<Byte>)
      modifies this
      ensures state == Fnv(old(state), bytes)
      ensures len == (old(len) + |bytes|) % TWO64
    {
      for i := 0 to |bytes|
        invariant state == Fnv(old(state), bytes[..i]) && len == old(len)
      {
        assert bytes[..i + 1][..i] == bytes[..i];
        WordBounds(state, bytes[i]);
        state := WrapMul(Xor(state, bytes[i]), 0x0000_0100_0000_01B3);
      }
      assert bytes[..|bytes|] == bytes;
      len := (len + |bytes|) % TWO64;
    }
  }

  // ---- the checks before the payload ----

  /** What the payload is checked against. */
  datatype Expectation =
    | ExpectV2(header: Header)
    | ExpectV1(recordCount: Word, checksum: Word)

  function RecordCount(e: Expectation): Word {
    match e
    case ExpectV2(header) => header.recordCount
    case ExpectV1(count, _) => count
  }

  /** `parse_v1_header`. */
  function ParseV1Header(bytes: seq<Byte>): Result<Expectation, StoreError>
    requires |bytes| == HEADER_BYTES
  {
    if LeU32(bytes, 8) != 1 then Err(UnsupportedVersion(LeU32(bytes, 8)))
    else if LeU32(bytes, 12) != ORB_BITS || LeU32(bytes, 16) != ORB_BYTES then
      Err(InvalidHeader("legacy geometry mismatch"))
    else if !AllZero(bytes[20..24]) || !AllZero(bytes[48..64]) then
      Err(InvalidHeader("legacy reserved bytes must be zero"))
    else Ok(ExpectV1(LeU64(bytes, 24), LeU64(bytes, 40)))
  }

  /** `validate_count_and_size`, with the two overflow checks of 64-bit sizes. */
  function ValidateCountAndSize(recordCount: Word, actual: nat, limits: Limits): Result<(), StoreError> {
    if recordCount > limits.maxRecords then Err(LimitExceeded("record count"))
    else if recordCount * ORB_BYTES >= TWO64 then Err(InvalidHeader("payload size overflow"))
    else if HEADER_BYTES + recordCount * ORB_BYTES >= TWO64 then Err(InvalidHeader("file size overflow"))
    else if actual != HEADER_BYTES + recordCount * ORB_BYTES then
      Err(InvalidLength(HEADER_BYTES + recordCount * ORB_BYTES, actual))
    else Ok(())
  }

  /** `open_validated`: every check that precedes the payload, in order. */
  function OpenValidated(file: Option<seq<Byte>>, limits: Limits): (r: Result<Expectation, StoreError>)
    ensures r.Ok? ==> file.Some? && |file.value| == HEADER_BYTES + RecordCount(r.value) * ORB_BYTES
  {
    if file.None? then Err(NotFound)
    else if |file.value| > limits.maxFileBytes then Err(LimitExceeded("file bytes"))
    else if |file.value| < HEADER_BYTES then Err(UnexpectedEof)
    else
      var bytes := file.value[..HEADER_BYTES];
      var expected :=
        if bytes[0..8] == GEL_MAGIC_V2 then
          match DecodeHeader(bytes)
          case Err(e) => Err(e)
          case Ok(h) => Ok(ExpectV2(h))
        else if bytes[0..8] == GEL_MAGIC_V1 then ParseV1Header(bytes)
        else Err(InvalidMagic);
      match expected
      case Err(e) => Err(e)
      case Ok(e) =>
        match ValidateCountAndSize(RecordCount(e), |file.value|, limits)
        case Err(error) => Err(error)
        case Ok(_) => Ok(e)
  }

  /** Comparing the digests of the payload with the header; a v1 file is upgraded in memory
      with generation zero. */
  function Finish(e: Expectation, crc: Word, checksum: Word): Result<Verification, StoreError> {
    match e
    case ExpectV2(header) =>
      if crc != header.payloadCrc then Err(CorruptStore) else Ok(Verification(V2, header))
    case ExpectV1(count, expected) =>
      if checksum != expected then Err(CorruptStore)
      else Ok(Verification(LegacyV1, NewHeader(count, 0, crc)))
  }

  function FinishPayload(e: Expectation, payload: seq<Byte>): Result<Verification, StoreError> {
    Finish(e, CrcOf(payload), Checksum(payload))
  }

  /** The verdict on a whole file. */
  function Verdict(file: Option<seq<Byte>>, limits: Limits): Result<Verification, StoreError> {
    match OpenValidated(file, limits)
    case Err(e) => Err(e)
    case Ok(e) => FinishPayload(e, file.value[HEADER_BYTES..])
  }

  function Payload(orbs: seq<Orb>): (bytes: seq<Byte>)
    ensures |bytes| == ORB_BYTES * |orbs|
  {
    if orbs == [] then []
    else
      var n := |orbs| - 1;
      Payload(orbs[..n]) + WordsImage(orbs[n])
  }

  function OrbsOf(payload: seq<Byte>, n: nat): (orbs: seq<Orb>)
    requires |payload| == ORB_BYTES * n
    ensures |orbs| == n
  {
    if n == 0 then []
    else
      var last := ORB_BYTES * (n - 1);
      OrbsOf(payload[..last], n - 1) + [WordsOf(payload[last..], ORB_WORDS)]
  }

  /** What loading keeps once the header is accepted. */
  function LoadPayload(e: Expectation, payload: seq<Byte>, capacity: nat): Result<RamStore, StoreError>
    requires |payload| == ORB_BYTES * RecordCount(e)
  {
    if RecordCount(e) > capacity then Err(AllocationFailed)
    else
      match FinishPayload(e, payload)
      case Err(error) => Err(error)
      case Ok(v) => Ok(RamStore(v.header, v.sourceFormat, OrbsOf(payload, RecordCount(e))))
  }

  /** What loading returns; `capacity` is the number of records memory can hold. */
  function Loaded(file: Option<seq<Byte>>, limits: Limits, capacity: nat): Result<RamStore, StoreError> {
    match OpenValidated(file, limits)
    case Err(e) => Err(e)
    case Ok(e) => LoadPayload(e, file.value[HEADER_BYTES..], capacity)
  }

  // ---- streaming ----

  /** `PayloadCheck`: the expectation and the running digests. */
  class PayloadCheck {
    const expected: Expectation
    const crc: Crc64Ecma
    const checksum: Checksum64

    constructor (e: Expectation)
      ensures expected == e && Digests([]) && fresh(crc) && fresh(checksum)
    {
      expected := e;
      crc := new Crc64Ecma();
      checksum := new Checksum64();
      new;
      EmptyRegister(0);
    }

    /** Both digests are those of `seen` (a v2 file never feeds the v1 digest). */
    ghost predicate Digests(seen: seq<Byte>)
      reads crc, checksum
    {
      crc.state == Register(0, seen) &&
      (expected.ExpectV1? ==> checksum.state == Fnv(FNV_START, seen) && checksum.len == |seen| % TWO64)
    }

    method Update(bytes: seq<Byte>, ghost seen: seq<Byte>)
      requires Digests(seen)
      modifies crc, checksum
      ensures Digests(seen + bytes)
    {
      SplitFeeding(0, seen, bytes);
      if expected.ExpectV1? {
        FnvAppend(FNV_START, seen, bytes);
        WrapAdd(|seen|, |bytes|);
        checksum.Update(bytes);
      }
      crc.Update(bytes);
    }

    method Conclude(ghost seen: seq<Byte>) returns (r: Result<Verification, StoreError>)
      requires Digests(seen)
      ensures r == Finish(expected, CrcOf(seen), Checksum(seen))
    {
      CrcIsRegisterFromZero(seen);
      match expected
      case ExpectV2(header) =>
        if crc.state != header.payloadCrc {
          return Err(CorruptStore);
        }
        return Ok(Verification(V2, header));
      case ExpectV1(count, wanted) =>
        WordBounds(checksum.state, checksum.len);
        if Avalanche64(Xor(checksum.state, checksum.len)) != wanted {
          return Err(CorruptStore);
        }
        return Ok(Verification(LegacyV1, NewHeader(count, 0, crc.state)));
    }
  }

  lemma PrefixGrows(payload: seq<Byte>, from: nat, to: nat)
    requires from <= to <= |payload|
    ensures payload[..to] == payload[..from] + payload[from..to]
  {
  }

  /** `verify_file`: one record at a time through a fixed buffer. */
  method VerifyFile(file: Option<seq<Byte>>, limits: Limits) returns (r: Result<Verification, StoreError>)
    ensures r == Verdict(file, limits)
  {
    var checked := OpenValidated(file, limits);
    if checked.Err? {
      return Err(checked.error);
    }
    var check := new PayloadCheck(checked.value);
    var payload := file.value[HEADER_BYTES..];
    for i := 0 to RecordCount(checked.value)
      invariant check.Digests(payload[..ORB_BYTES * i])
      invariant fresh(check.crc) && fresh(check.checksum)
    {
      var bytes := payload[ORB_BYTES * i..ORB_BYTES * (i + 1)];
      PrefixGrows(payload, ORB_BYTES * i, ORB_BYTES * (i + 1));
      check.Update(bytes, payload[..ORB_BYTES * i]);
    }
    assert payload[..|payload|] == payload;
    r := check.Conclude(payload);
  }

  /** `RamStore::open_verified_with_limits`: the same checks, keeping the records. */
  method Load(file: Option<seq<Byte>>, limits: Limits, capacity: nat) returns (r: Result<RamStore, StoreError>)
    ensures r == Loaded(file, limits, capacity)
  {
    var checked := OpenValidated(file, limits);
    if checked.Err? {
      return Err(checked.error);
    }
    var count := RecordCount(checked.value);
    if count > capacity {
      return Err(AllocationFailed);
    }
    var check := new PayloadCheck(checked.value);
    var payload := file.value[HEADER_BYTES..];
    var orbs := ReadPayload(check, payload, count);
    var verification := check.Conclude(payload);
    if verification.Err? {
      return Err(verification.error);
    }
    return Ok(RamStore(verification.value.header, verification.value.sourceFormat, orbs));
  }

  method ReadPayload(check: PayloadCheck, payload: seq<Byte>, count: nat) returns (orbs: seq<Orb>)
    requires |payload| == ORB_BYTES * count && check.Digests([])
    modifies check.crc, check.checksum
    ensures check.Digests(payload) && orbs == OrbsOf(payload, count)
  {
    orbs := [];
    for i := 0 to count
      invariant check.Digests(payload[..ORB_BYTES * i])
      invariant orbs == OrbsOf(payload[..ORB_BYTES * i], i)
    {
      orbs := ReadRecord(check, payload, i, orbs);
    }
    assert payload[..|payload|] == payload;
  }

  /** One record: digested, decoded and kept. */
  method ReadRecord(check: PayloadCheck, payload: seq<Byte>, i: nat, orbs: seq<Orb>) returns (grown: seq<Orb>)
    requires ORB_BYTES * (i + 1) <= |payload|
    requires check.Digests(payload[..ORB_BYTES * i]) && orbs == OrbsOf(payload[..ORB_BYTES * i], i)
    modifies check.crc, check.checksum
    ensures check.Digests(payload[..ORB_BYTES * (i + 1)])
    ensures grown == OrbsOf(payload[..ORB_BYTES * (i + 1)], i + 1)
  {
    var bytes := payload[ORB_BYTES * i..ORB_BYTES * (i + 1)];
    RecordGrows(payload, i, bytes);
    check.Update(bytes, payload[..ORB_BYTES * i]);
    var orb := FromLeBytes(bytes);
    return orbs + [orb.value];
  }

  lemma OrbsOfAppend(payload: seq<Byte>, n: nat, record: seq<Byte>)
    requires |payload| == ORB_BYTES * n && |record| == ORB_BYTES
    ensures OrbsOf(payload + record, n + 1) == OrbsOf(payload, n) + [WordsOf(record, ORB_WORDS)]
  {
    var all := payload + record;
    assert all[..|payload|] == payload && all[|payload|..] == record;
  }

  lemma {:induction false} RecordGrows(payload: seq<Byte>, i: nat, record: seq<Byte>)
    requires ORB_BYTES * (i + 1) <= |payload| && record == payload[ORB_BYTES * i..ORB_BYTES * (i + 1)]
    ensures payload[..ORB_BYTES * (i + 1)] == payload[..ORB_BYTES * i] + record
    ensures OrbsOf(payload[..ORB_BYTES * (i + 1)], i + 1)
      == OrbsOf(payload[..ORB_BYTES * i], i) + [WordsOf(record, ORB_WORDS)]
  {
    PrefixGrows(payload, ORB_BYTES * i, ORB_BYTES * (i + 1));
    OrbsOfAppend(payload[..ORB_BYTES * i], i, record);
  }

  // ---- writing ----

  /** The bytes a store is written as. */
  function StoreImage(header: Header, orbs: seq<Orb>): seq<Byte> {
    HeaderImage(header) + Payload(orbs)
  }

  /** `RamStore::from_orbs`, for as many records as a 64-bit file can hold. */
  method FromOrbs(orbs: seq<Orb>, generation: Word) returns (store: RamStore)
    requires |orbs| < TWO64
    ensures store == RamStore(NewHeader(|orbs|, generation, CrcOf(Payload(orbs))), V2, orbs)
    ensures HEADER_BYTES + ORB_BYTES * |orbs| < TWO64 ==> ValidStore(store)
  {
    var crc := new Crc64Ecma();
    EmptyRegister(0);
    for i := 0 to |orbs|
      invariant crc.state == Register(0, Payload(orbs[..i]))
      invariant fresh(crc)
    {
      var bytes := ToLeBytes(orbs[i]);
      assert orbs[..i + 1][..i] == orbs[..i];
      SplitFeeding(0, Payload(orbs[..i]), bytes);
      crc.Update(bytes);
    }
    assert orbs[..|orbs|] == orbs;
    CrcIsRegisterFromZero(Payload(orbs));
    store := RamStore(NewHeader(|orbs|, generation, crc.state), V2, orbs);
  }

  /** The invariant of every store in memory: built from ORBs or loaded. */
  predicate ValidStore(s: RamStore) {
    && Canonical(s.header)
    && s.header.recordCount == |s.orbs|
    && s.header.payloadCrc == CrcOf(Payload(s.orbs))
    && HEADER_BYTES + ORB_BYTES * |s.orbs| < TWO64
  }

  predicate WithinLimits(s: RamStore, limits: Limits) {
    |s.orbs| <= limits.maxRecords && HEADER_BYTES + ORB_BYTES * |s.orbs| <= limits.maxFileBytes
  }

  lemma {:induction false} PayloadSnoc(orbs: seq<Orb>, orb: Orb)
    ensures Payload(orbs + [orb]) == Payload(orbs) + WordsImage(orb)
  {
    hide WordsImage;
    assert (orbs + [orb])[..|orbs|] == orbs;
  }

  lemma {:induction false} PayloadOfOrbs(payload: seq<Byte>, n: nat)
    requires |payload| == ORB_BYTES * n
    ensures Payload(OrbsOf(payload, n)) == payload
  {
    if n != 0 {
      hide *;
      var last := ORB_BYTES * (n - 1);
      var front, record := payload[..last], payload[last..];
      assert payload == front + record;
      PayloadOfOrbs(front, n - 1);
      OrbsOfAppend(front, n - 1, record);
      ImageOfWords(record, ORB_WORDS);
      PayloadSnoc(OrbsOf(front, n - 1), WordsOf(record, ORB_WORDS));
    }
  }

  lemma {:induction false} OrbsOfPayload(orbs: seq<Orb>)
    ensures OrbsOf(Payload(orbs), |orbs|) == orbs
  {
    if orbs != [] {
      var n := |orbs| - 1;
      OrbsOfPayload(orbs[..n]);
      OrbsOfAppend(Payload(orbs[..n]), n, WordsImage(orbs[n]));
      WordsOfImage(orbs[n]);
    }
  }

  // ---- theorems ----

  /** The magic decides the format of what is accepted. */
  lemma FormatIsMagic(file: seq<Byte>, limits: Limits)
    requires Verdict(Some(file), limits).Ok?
    ensures Verdict(Some(file), limits).value.sourceFormat == V2 <==> GEL_MAGIC_V2 <= file
    ensures Verdict(Some(file), limits).value.sourceFormat == LegacyV1 <==> GEL_MAGIC_V1 <= file
  {
    hide DecodeHeader, ValidateCountAndSize, CrcOf, Checksum, ComputeHeaderCrc;
    assert file[..HEADER_BYTES][0..8] == file[..8];
    assert GEL_MAGIC_V1[7] != GEL_MAGIC_V2[7];
  }

  lemma SmallBytes()
    ensures LeBytes(0, 4) == [0, 0, 0, 0] && LeBytes(1, 4) == [1, 0, 0, 0] && LeBytes(2, 4) == [2, 0, 0, 0]
    ensures LeBytes(1024, 4) == [0, 4, 0, 0] && LeBytes(128, 4) == [0x80, 0, 0, 0]
  {
  }

  /** Where a header names which number, byte by byte. */
  lemma {:induction false} LeU32IsExact(bytes: seq<Byte>, offset: nat, n: U32)
    requires offset + 4 <= |bytes|
    ensures LeU32(bytes, offset) == n <==> bytes[offset..offset + 4] == LeBytes(n, 4)
  {
    BytesOfValue(bytes[offset..offset + 4]);
    Pow2Of32();
    ValueOfBytes(n, 4);
  }

  lemma ZerosAt(bytes: seq<Byte>, from: nat, to: nat)
    requires from <= to <= |bytes|
    ensures AllZero(bytes[from..to]) <==> forall i :: from <= i < to ==> bytes[i] == 0
  {
    forall i | from <= i < to
      ensures bytes[i] == bytes[from..to][i - from]
    {
    }
  }

  /** The 64-byte headers that are read as v1: version 1, 1024 bits, 128 bytes, and zeros at 20 to 23 and from
      48 on. The generation at 32 to 39 is not read. */
  lemma LegacyHeaderIsExact(bytes: seq<Byte>)
    requires |bytes| == HEADER_BYTES
    ensures ParseV1Header(bytes).Ok? <==>
      && bytes[8..12] == [1, 0, 0, 0] && bytes[12..16] == [0, 4, 0, 0] && bytes[16..20] == [0x80, 0, 0, 0]
      && (forall i :: 20 <= i < 24 ==> bytes[i] == 0) && (forall i :: 48 <= i < 64 ==> bytes[i] == 0)
    ensures ParseV1Header(bytes).Ok? ==>
      ParseV1Header(bytes).value == ExpectV1(LeWord(bytes[24..32]), LeWord(bytes[40..48]))
    ensures bytes[8..12] != [1, 0, 0, 0] ==>
      ParseV1Header(bytes) == Err(UnsupportedVersion(LeValue(bytes[8..12])))
  {
    SmallBytes();
    LeU32IsExact(bytes, 8, 1);
    LeU32IsExact(bytes, 12, 1024);
    LeU32IsExact(bytes, 16, 128);
    ZerosAt(bytes, 20, 24);
    ZerosAt(bytes, 48, 64);
    hide LeBytes, LeValue, AllZero, LeWord;
  }

  lemma FourZeros(bytes: seq<Byte>)
    requires |bytes| == 4
    ensures bytes == [0, 0, 0, 0] <==> AllZero(bytes)
  {
  }

  /** The checked fields of a header, on its bytes. */
  lemma CheckedFields(bytes: seq<Byte>)
    requires |bytes| == HEADER_BYTES
    ensures var h := HeaderAt(bytes);
      && (h.version == 2 <==> bytes[8..12] == [2, 0, 0, 0]) && h.version == LeValue(bytes[8..12])
      && (h.orbBits == 1024 <==> bytes[12..16] == [0, 4, 0, 0])
      && (h.recordBytes == 128 <==> bytes[16..20] == [0x80, 0, 0, 0])
      && (h.flags == 0 <==> forall i :: 20 <= i < 24 ==> bytes[i] == 0)
      && h.recordCount == LeWord(bytes[24..32]) && h.generation == LeWord(bytes[32..40])
      && h.payloadCrc == LeWord(bytes[40..48])
  {
    SmallBytes();
    LeU32IsExact(bytes, 8, 2);
    LeU32IsExact(bytes, 12, 1024);
    LeU32IsExact(bytes, 16, 128);
    LeU32IsExact(bytes, 20, 0);
    ZerosAt(bytes, 20, 24);
    FourZeros(bytes[20..24]);
    hide LeBytes, LeValue, AllZero, LeWord;
  }

  /** The verdict on a 64-byte v2 header, on its bytes: the first check that fails names the error. The
      checksum is that of the first 48 bytes and sixteen zeros. */
  lemma HeaderVerdict(bytes: seq<Byte>)
    requires |bytes| == HEADER_BYTES
    ensures DecodeHeader(bytes) ==
      if bytes[0..8] != GEL_MAGIC_V2 then Err(InvalidMagic)
      else if bytes[8..12] != [2, 0, 0, 0] then Err(UnsupportedVersion(LeValue(bytes[8..12])))
      else if bytes[12..16] != [0, 4, 0, 0] then Err(InvalidHeader("orb_bits != 1024"))
      else if bytes[16..20] != [0x80, 0, 0, 0] then Err(InvalidHeader("record_bytes != 128"))
      else if exists i :: 20 <= i < 24 && bytes[i] != 0 then Err(InvalidHeader("unsupported nonzero flags"))
      else if exists i :: 56 <= i < 64 && bytes[i] != 0 then Err(InvalidHeader("reserved bytes must be zero"))
      else if LeBytes(CrcOf(bytes[..48] + seq(16, _ => 0)), 8) != bytes[48..56] then Err(CorruptHeader)
      else Ok(NewHeader(LeWord(bytes[24..32]), LeWord(bytes[32..40]), LeWord(bytes[40..48])))
  {
    hide LeBytes, LeValue, AllZero, CrcOf, HeaderFields, ComputeHeaderCrc, LeWord, HeaderAt, NewHeader, HeaderImage;
    CheckedFields(bytes);
    ZerosAt(bytes, 56, 64);
    if bytes[0..8] == GEL_MAGIC_V2 {
      StoredChecksum(bytes);
    }
    if DecodeHeader(bytes).Ok? {
      DecodedIsCanonical(bytes);
    }
  }

  lemma StoredChecksum(bytes: seq<Byte>)
    requires |bytes| == HEADER_BYTES && bytes[0..8] == GEL_MAGIC_V2
    ensures ComputeHeaderCrc(HeaderAt(bytes)) == HeaderAt(bytes).headerCrc <==>
      LeBytes(CrcOf(bytes[..48] + seq(16, _ => 0)), 8) == bytes[48..56]
  {
    hide CrcOf, HeaderFields, HeaderAt;
    FieldsOfBytes(bytes);
    assert ZERO8 + ZERO8 == seq(16, _ => 0);
    assert bytes[..48] + ZERO8 + ZERO8 == bytes[..48] + seq(16, _ => 0);
    WordRoundTrip(CrcOf(bytes[..48] + ZERO8 + ZERO8));
    WordRoundTrip(HeaderAt(bytes).headerCrc);
  }

  /** The expectation, once the count and the size fit. */
  function Sized(e: Expectation, actual: nat, limits: Limits): Result<Expectation, StoreError> {
    match ValidateCountAndSize(RecordCount(e), actual, limits)
    case Err(error) => Err(error)
    case Ok(_) => Ok(e)
  }

  lemma SizeReasons(count: Word, actual: nat, limits: Limits)
    ensures ValidateCountAndSize(count, actual, limits) ==
      if count > limits.maxRecords then Err(LimitExceeded("record count"))
      else if 128 * count >= TWO64 then Err(InvalidHeader("payload size overflow"))
      else if 64 + 128 * count >= TWO64 then Err(InvalidHeader("file size overflow"))
      else if actual != 64 + 128 * count then Err(InvalidLength(64 + 128 * count, actual))
      else Ok(())
  {
  }

  /** The checks before the payload, in their order: the size budget, the magic, the header it calls for,
      then the record budget and the exact length. */
  lemma OpenReason(file: seq<Byte>, limits: Limits)
    ensures OpenValidated(None, limits) == Err(NotFound)
    ensures |file| > limits.maxFileBytes ==> OpenValidated(Some(file), limits) == Err(LimitExceeded("file bytes"))
    ensures |file| <= limits.maxFileBytes && |file| < 64 ==> OpenValidated(Some(file), limits) == Err(UnexpectedEof)
    ensures |file| <= limits.maxFileBytes && |file| >= 64 ==>
      var r := OpenValidated(Some(file), limits);
      if file[..8] == GEL_MAGIC_V2 then
        (match DecodeHeader(file[..64])
         case Err(e) => r == Err(e)
         case Ok(h) => r == Sized(ExpectV2(h), |file|, limits))
      else if file[..8] == GEL_MAGIC_V1 then
        (match ParseV1Header(file[..64])
         case Err(e) => r == Err(e)
         case Ok(expected) => r == Sized(expected, |file|, limits))
      else r == Err(InvalidMagic)
  {
    hide DecodeHeader, ParseV1Header, ValidateCountAndSize;
    if |file| >= 64 {
      assert file[..64][0..8] == file[..8];
      assert GEL_MAGIC_V1[7] != GEL_MAGIC_V2[7];
    }
  }

  /** A file loaded as v2 is, byte for byte, its header image followed by its ORBs. */
  lemma LoadedIsCanonical(file: seq<Byte>, limits: Limits, capacity: nat)
    requires Loaded(Some(file), limits, capacity).Ok?
    requires Loaded(Some(file), limits, capacity).value.sourceFormat == V2
    ensures var s := Loaded(Some(file), limits, capacity).value;
      ValidStore(s) && WithinLimits(s, limits) && |s.orbs| <= capacity && file == StoreImage(s.header, s.orbs)
  {
    hide CrcOf, Checksum, HeaderImage, Payload, AllZero, ComputeHeaderCrc;
    var s := Loaded(Some(file), limits, capacity).value;
    DecodedIsCanonical(file[..HEADER_BYTES]);
    PayloadOfOrbs(file[HEADER_BYTES..], |s.orbs|);
    assert file == file[..HEADER_BYTES] + file[HEADER_BYTES..];
  }

  /** A store written and reopened within limits gives the same header, generation and ORBs. */
  lemma WrittenReopens(s: RamStore, limits: Limits, capacity: nat)
    requires ValidStore(s) && WithinLimits(s, limits) && |s.orbs| <= capacity
    ensures Loaded(Some(StoreImage(s.header, s.orbs)), limits, capacity) == Ok(RamStore(s.header, V2, s.orbs))
  {
    ImageOpens(s, limits);
    OrbsOfPayload(s.orbs);
  }

  /** The image of a store passes every check before the payload. */
  lemma ImageOpens(s: RamStore, limits: Limits)
    requires ValidStore(s) && WithinLimits(s, limits)
    ensures var file := StoreImage(s.header, s.orbs);
      |file| >= HEADER_BYTES && file[..HEADER_BYTES] == HeaderImage(s.header) &&
      file[HEADER_BYTES..] == Payload(s.orbs) &&
      OpenValidated(Some(file), limits) == Ok(ExpectV2(s.header))
  {
    var file := StoreImage(s.header, s.orbs);
    HeaderRoundTrip(s.header);
    HeaderSlices(s.header);
    assert file[..HEADER_BYTES] == HeaderImage(s.header);
    assert file[HEADER_BYTES..] == Payload(s.orbs);
  }

  lemma OpeningNeverAllocates(file: Option<seq<Byte>>, limits: Limits)
    ensures OpenValidated(file, limits) != Err(AllocationFailed)
  {
  }

  /** Streaming verification and loading agree on every file, allocation failure aside. */
  lemma VerifyAgreesWithLoad(file: Option<seq<Byte>>, limits: Limits, capacity: nat)
    ensures Loaded(file, limits, capacity) != Err(AllocationFailed) ==>
      match Verdict(file, limits)
      case Err(e) => Loaded(file, limits, capacity) == Err(e)
      case Ok(v) =>
        Loaded(file, limits, capacity).Ok? &&
        Loaded(file, limits, capacity).value.header == v.header &&
        Loaded(file, limits, capacity).value.sourceFormat == v.sourceFormat
    ensures Loaded(file, limits, capacity) == Err(AllocationFailed) <==>
      OpenValidated(file, limits).Ok? && RecordCount(OpenValidated(file, limits).value) > capacity
  {
    OpeningNeverAllocates(file, limits);
    hide OpenValidated;
  }

  /** A loaded v1 file has generation zero and round-trips through v2. */
  lemma LegacyUpgrades(file: seq<Byte>, limits: Limits, capacity: nat, later: Limits)
    requires Loaded(Some(file), limits, capacity).Ok?
    requires Loaded(Some(file), limits, capacity).value.sourceFormat == LegacyV1
    ensures var s := Loaded(Some(file), limits, capacity).value;
      && s.header.generation == 0 && ValidStore(s)
      && (WithinLimits(s, later) ==>
            Loaded(Some(StoreImage(s.header, s.orbs)), later, capacity) == Ok(RamStore(s.header, V2, s.orbs)))
  {
    hide DecodeHeader, CrcOf, Checksum, ComputeHeaderCrc, Payload, StoreImage, AllZero;
    var s := Loaded(Some(file), limits, capacity).value;
    PayloadOfOrbs(file[HEADER_BYTES..], |s.orbs|);
    if WithinLimits(s, later) {
      WrittenReopens(s, later, capacity);
    }
  }

  /** The files loaded as v1, byte for byte; the generation they carry is dropped. */
  lemma LegacyLoadsExactly(file: seq<Byte>, limits: Limits, capacity: nat)
    requires |file| >= 64
    ensures var r, count, payload := Loaded(Some(file), limits, capacity), LeWord(file[24..32]), file[64..];
      && (r.Ok? && r.value.sourceFormat == LegacyV1 <==>
            && GEL_MAGIC_V1 <= file && file[8..12] == [1, 0, 0, 0]
            && file[12..16] == [0, 4, 0, 0] && file[16..20] == [0x80, 0, 0, 0]
            && (forall i :: 20 <= i < 24 ==> file[i] == 0) && (forall i :: 48 <= i < 64 ==> file[i] == 0)
            && |file| == 64 + 128 * count < TWO64 && |file| <= limits.maxFileBytes && count <= limits.maxRecords
            && count <= capacity && LeWord(file[40..48]) == Checksum(payload))
      && (r.Ok? && r.value.sourceFormat == LegacyV1 ==>
            && r.value.header == NewHeader(count, 0, CrcOf(payload))
            && |payload| == 128 * count && r.value.orbs == OrbsOf(payload, count))
  {
    hide CrcOf, Checksum, DecodeHeader, ParseV1Header, LeWord, OrbsOf, NewHeader, OpenValidated, ValidateCountAndSize;
    var bytes := file[..64];
    LegacySlices(file, bytes);
    assert GEL_MAGIC_V1[7] != GEL_MAGIC_V2[7];
    LegacyHeaderIsExact(bytes);
    OpenReason(file, limits);
    SizeReasons(LeWord(file[24..32]), |file|, limits);
  }

  lemma LegacySlices(file: seq<Byte>, bytes: seq<Byte>)
    requires |file| >= 64 && bytes == file[..64]
    ensures bytes[8..12] == file[8..12] && bytes[12..16] == file[12..16] && bytes[16..20] == file[16..20]
    ensures bytes[24..32] == file[24..32] && bytes[40..48] == file[40..48]
    ensures forall i :: 0 <= i < 64 ==> bytes[i] == file[i]
  {
  }
}
