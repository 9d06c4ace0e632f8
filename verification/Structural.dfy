/** The structural codec of `gel-structural`: XOR residuals, packed 10-bit positions,
    and the choice of the smallest exact encoding. */
module Structural {
  import opened Words
  import opened Counting
  import opened Orbs
  import opened BitStreams
  import opened Wrappers

  const MAX_DELTA_DEPTH: nat := 2
  const SPARSE_INDEX_BITS: nat := 10
  const TWO32: nat := 0x1_0000_0000

  datatype ParentRef = Prototype(id: nat) | SegmentLocal(slot: nat)

  datatype Residual = Sparse(count: nat, packed: seq<Byte>) | Dense(delta: Orb)

  datatype EncodedOrb = Literal(orb: Orb) | Delta(parent: ParentRef, parentDepth: nat, residual: Residual)

  datatype CodecError =
    | CountExceedsOrb
    | InvalidLength(expected: nat, actual: nat)
    | TruncatedPositions
    | PositionOutsideOrb
    | NotIncreasing
    | NonzeroPadding
    | DepthExceeded
    | InvalidStoredDepth
    | MissingPredictor
    | PrototypeIndexTooLarge

  // ---- packed positions ----

  predicate ValidPositions(ps: seq<nat>) {
    Increasing(ps) && AllBelow(ps, ORB_BITS)
  }

  function PackedLen(count: nat): nat {
    (count * SPARSE_INDEX_BITS + 7) / 8
  }

  /** The canonical image of a position list: 10 bits each, zero padding to a whole byte. */
  function Packed(ps: seq<nat>): (bytes: seq<Byte>)
    ensures |bytes| == PackedLen(|ps|)
    ensures Stream(bytes, 8) == Stream(ps, 10) + Zeros(8 * PackedLen(|ps|) - 10 * |ps|)
  {
    StreamLength(ps, 10);
    var bits := Stream(ps, 10) + Zeros(8 * PackedLen(|ps|) - 10 * |ps|);
    StreamUnstream(bits, 8, PackedLen(|ps|));
    assert Pow2(8) == 256;
    Unstream(bits, 8)
  }

  /** Positions and padding as cut from the bit string: canonical or rejected. */
  function Judge(ps: seq<nat>, padding: seq<bool>): Result<seq<nat>, CodecError> {
    if !Increasing(ps) then Err(NotIncreasing)
    else if true in padding then Err(NonzeroPadding)
    else Ok(ps)
  }

  /** What a byte string of the right length says, read as one bit string. */
  function Unpacked(count: nat, packed: seq<Byte>): Result<seq<nat>, CodecError> {
    if count > ORB_BITS then Err(CountExceedsOrb)
    else if |packed| != PackedLen(count) then Err(InvalidLength(PackedLen(count), |packed|))
    else
      StreamLength(packed, 8);
      var bits := Stream(packed, 8);
      Judge(Unstream(bits[..10 * count], 10), bits[10 * count..])
  }

  lemma {:induction false} IncreasingLength(ps: seq<nat>, bound: nat)
    requires Increasing(ps) && AllBelow(ps, bound)
    ensures |ps| <= bound
  {
    if ps != [] {
      var n := |ps| - 1;
      IncreasingLength(ps[..n], ps[n]);
    }
  }

  /** Decoding the image of any strictly increasing list below 1024 gives the list back. */
  lemma UnpackPacked(ps: seq<nat>)
    requires ValidPositions(ps)
    ensures Unpacked(|ps|, Packed(ps)) == Ok(ps)
  {
    IncreasingLength(ps, ORB_BITS);
    StreamLength(ps, 10);
    var bits := Stream(Packed(ps), 8);
    assert bits[..10 * |ps|] == Stream(ps, 10);
    assert Pow2(10) == 1024;
    UnstreamStream(ps, 10);
    assert bits[10 * |ps|..] == Zeros(8 * PackedLen(|ps|) - 10 * |ps|);
  }

  /** Whatever decodes is the canonical image of its positions. */
  lemma PackUnpacked(count: nat, packed: seq<Byte>)
    requires Unpacked(count, packed).Ok?
    ensures var ps := Unpacked(count, packed).value;
      |ps| == count && ValidPositions(ps) && Packed(ps) == packed
  {
    var ps := Unpacked(count, packed).value;
    StreamLength(packed, 8);
    var bits := Stream(packed, 8);
    StreamUnstream(bits[..10 * count], 10, count);
    assert Pow2(10) == 1024 && Pow2(8) == 256;
    assert bits[10 * count..] == Zeros(8 * PackedLen(count) - 10 * count) by {
      forall i | 10 * count <= i < |bits|
        ensures bits[i] == false
      {
        assert bits[10 * count..][i - 10 * count] == bits[i];
      }
    }
    assert bits == bits[..10 * count] + bits[10 * count..];
    assert Stream(Packed(ps), 8) == bits;
    UnstreamStream(Packed(ps), 8);
    UnstreamStream(packed, 8);
  }

  /** The bytes are the image of this many ascending positions. */
  predicate IsImage(count: nat, packed: seq<Byte>, ps: seq<nat>) {
    |ps| == count && Increasing(ps) && AllBelow(ps, 1024) && packed == Packed(ps)
  }

  /** What unpacks, and why the rest does not: the checks in their order. */
  lemma {:induction false} UnpackIsExact(count: nat, packed: seq<Byte>)
    ensures forall ps :: Unpacked(count, packed) == Ok(ps) <==> IsImage(count, packed, ps)
    ensures count > 1024 ==> Unpacked(count, packed) == Err(CountExceedsOrb)
    ensures count <= 1024 && |packed| != (10 * count + 7) / 8 ==>
      Unpacked(count, packed) == Err(InvalidLength((10 * count + 7) / 8, |packed|))
    ensures count <= 1024 && |packed| == (10 * count + 7) / 8 ==>
      |Stream(packed, 8)| >= 10 * count &&
      if forall ps :: |ps| == count && AllBelow(ps, 1024) && Increasing(ps) ==>
           Stream(ps, 10) != Stream(packed, 8)[..10 * count]
      then Unpacked(count, packed) == Err(NotIncreasing)
      else if true in Stream(packed, 8)[10 * count..] then Unpacked(count, packed) == Err(NonzeroPadding)
      else Unpacked(count, packed).Ok?
  {
    forall ps: seq<nat>
      ensures Unpacked(count, packed) == Ok(ps) <==> IsImage(count, packed, ps)
    {
      if IsImage(count, packed, ps) {
        UnpackPacked(ps);
      }
      if Unpacked(count, packed) == Ok(ps) {
        PackUnpacked(count, packed);
      }
    }
    if count <= 1024 && |packed| == (10 * count + 7) / 8 {
      StreamLength(packed, 8);
      CutIsUnique(Stream(packed, 8)[..10 * count], count);
    }
  }

  /** The only list of ten-bit numbers with these bits is the one cut from them. */
  lemma {:induction false} CutIsUnique(bits: seq<bool>, count: nat)
    requires |bits| == 10 * count
    ensures |Unstream(bits, 10)| == count && AllBelow(Unstream(bits, 10), 1024)
    ensures forall ps :: |ps| == count && AllBelow(ps, 1024) ==>
      (Stream(ps, 10) == bits <==> ps == Unstream(bits, 10))
  {
    ByteAndPositionBounds();
    StreamUnstream(bits, 10, count);
    forall ps | |ps| == count && AllBelow(ps, 1024) && Stream(ps, 10) == bits
      ensures ps == Unstream(bits, 10)
    {
      UnstreamStream(ps, 10);
    }
  }

  lemma ByteAndPositionBounds()
    ensures Pow2(8) == 256 && Pow2(10) == ORB_BITS
  {
  }

  /** The bytes of a finished pack are the canonical image. */
  lemma {:induction false} PackFinish(out: seq<Byte>, positions: seq<nat>)
    requires |out| == PackedLen(|positions|)
    requires Stream(out, 8) == Stream(positions, 10) + Zeros(8 * PackedLen(|positions|) - 10 * |positions|)
    ensures out == Packed(positions)
  {
    ByteAndPositionBounds();
    SameStream(out, Packed(positions), 8);
  }

  /** The inner loop of `pack_positions`: whole bytes leave the accumulator. */
  method Drain(out0: seq<Byte>, acc0: Word, bits0: nat) returns (out: seq<Byte>, acc: Word, bits: nat)
    requires bits0 < 18 && acc0 < Pow2(bits0)
    ensures bits < 8 && acc < Pow2(bits)
    ensures Stream(out, 8) + ToBits(acc, bits) == Stream(out0, 8) + ToBits(acc0, bits0)
  {
    out, acc, bits := out0, acc0, bits0;
    ByteAndPositionBounds();
    while bits >= 8
      invariant bits < 18 && acc < Pow2(bits)
      invariant Stream(out, 8) + ToBits(acc, bits) == Stream(out0, 8) + ToBits(acc0, bits0)
    {
      PopValue(out, acc, bits, 8, Stream(out0, 8) + ToBits(acc0, bits0));
      out := out + [Low(acc, 8)];
      acc := Shr(acc, 8);
      bits := bits - 8;
    }
  }

  /** `pack_positions`. */
  method PackPositions(positions: seq<nat>) returns (out: seq<Byte>)
    requires AllBelow(positions, ORB_BITS)
    ensures out == Packed(positions)
  {
    out := [];
    var acc: Word := 0;
    var bits: nat := 0;
    ByteAndPositionBounds();
    for i := 0 to |positions|
      invariant bits < 8 && acc < Pow2(bits)
      invariant Stream(out, 8) + ToBits(acc, bits) == Stream(positions[..i], 10)
    {
      var position := positions[i];
      PushValue(Stream(out, 8), acc, bits, positions[..i], position, 10);
      assert positions[..i + 1] == positions[..i] + [position];
      out, acc, bits := Drain(out, Or(acc, Shl64(position, bits)), bits + SPARSE_INDEX_BITS);
    }
    assert positions[..|positions|] == positions;
    out := FlushLast(out, acc, bits, positions);
  }

  /** The final partial byte of `pack_positions`. */
  method FlushLast(out0: seq<Byte>, acc: Word, bits: nat, ghost positions: seq<nat>) returns (out: seq<Byte>)
    requires bits < 8 && acc < Pow2(bits)
    requires Stream(out0, 8) + ToBits(acc, bits) == Stream(positions, 10)
    ensures out == Packed(positions)
  {
    out := out0;
    ByteAndPositionBounds();
    StreamLength(positions, 10);
    StreamLength(out, 8);
    if bits != 0 {
      PadValue(out, acc, bits, 8, Stream(positions, 10));
      out := out + [Low(acc, 8)];
      StreamLength(out, 8);
    }
    PackFinish(out, positions);
  }

  /** `validate_sparse`. */
  function ValidateSparse(count: nat, packed: seq<Byte>): Result<(), CodecError> {
    if count > ORB_BITS then Err(CountExceedsOrb)
    else if |packed| != PackedLen(count) then Err(InvalidLength(PackedLen(count), |packed|))
    else Ok(())
  }

  /** The refill loop of `unpack_positions`: bytes enter until ten bits are there. */
  method Refill(packed: seq<Byte>, start: nat, acc0: Word, bits0: nat)
    returns (acc: Word, bits: nat, next: nat, truncated: bool)
    requires start <= |packed| && bits0 < 10 && acc0 < Pow2(bits0)
    ensures start <= next <= |packed| && bits - bits0 == 8 * (next - start)
    ensures acc < Pow2(bits) && bits < 18
    ensures ToBits(acc, bits) + Stream(packed[next..], 8) == ToBits(acc0, bits0) + Stream(packed[start..], 8)
    ensures truncated <==> bits < 10
    ensures truncated ==> next == |packed|
  {
    acc, bits, next, truncated := acc0, bits0, start, false;
    ByteAndPositionBounds();
    while bits < SPARSE_INDEX_BITS
      invariant start <= next <= |packed| && bits - bits0 == 8 * (next - start)
      invariant acc < Pow2(bits) && bits < 18
      invariant ToBits(acc, bits) + Stream(packed[next..], 8) == ToBits(acc0, bits0) + Stream(packed[start..], 8)
    {
      if next == |packed| {
        truncated := true;
        return;
      }
      var byte := packed[next];
      RefillValue(packed, next, acc, bits, 8);
      acc := Or(acc, Shl64(byte, bits));
      bits := bits + 8;
      next := next + 1;
    }
  }

  /** One position read: refill, mask ten bits off, shift. `tail` is the unread bit string. */
  method ReadPosition(packed: seq<Byte>, start: nat, acc0: Word, bits0: nat, ghost tail: seq<bool>, ghost left: nat)
    returns (position: nat, acc: Word, bits: nat, next: nat, truncated: bool)
    requires start <= |packed| && bits0 < 10 && acc0 < Pow2(bits0)
    requires tail == ToBits(acc0, bits0) + Stream(packed[start..], 8)
    requires 10 <= left <= |tail|
    ensures !truncated && position < ORB_BITS
    ensures start <= next <= |packed| && bits + 10 - bits0 == 8 * (next - start)
    ensures bits < 10 && acc < Pow2(bits)
    ensures tail[10..] == ToBits(acc, bits) + Stream(packed[next..], 8)
    ensures Unstream(tail[..left], 10) == [position] + Unstream(tail[10..][..left - 10], 10)
    ensures tail[10..][left - 10..] == tail[left..]
  {
    StreamLength(packed[start..], 8);
    ByteAndPositionBounds();
    acc, bits, next, truncated := Refill(packed, start, acc0, bits0);
    StreamLength(packed[next..], 8);
    TakeValue(tail, left, acc, bits, 10, Stream(packed[next..], 8));
    position := Low(acc, 10);
    acc := Shr(acc, 10);
    bits := bits - SPARSE_INDEX_BITS;
  }

  /** `out` is read, `acc` holds `bits` bits more, `packed[next..]` is unread. */
  predicate Reading(count: nat, packed: seq<Byte>, out: seq<nat>, acc: Word, bits: nat, next: nat,
                    tail: seq<bool>, left: nat)
  {
    && |out| <= count && next <= |packed| && bits < 10 && acc < Pow2(bits)
    && 10 * |out| + bits == 8 * next && left == 10 * count - 10 * |out|
    && |tail| == 8 * |packed| - 10 * |out| && left <= |tail|
    && tail == ToBits(acc, bits) + Stream(packed[next..], 8)
  }

  /** The loop of `unpack_positions`, entered with a validated length. The input never runs
      out, no position is outside the ORB and no byte is left over. */
  method ReadPositions(count: nat, packed: seq<Byte>, ghost ps: seq<nat>, ghost padding: seq<bool>)
    returns (r: Result<seq<nat>, CodecError>)
    requires |packed| == PackedLen(count) && 10 * count <= |Stream(packed, 8)| == 8 * |packed|
    requires ps == Unstream(Stream(packed, 8)[..10 * count], 10) && padding == Stream(packed, 8)[10 * count..]
    ensures r == Judge(ps, padding)
  {
    var out: seq<nat> := [];
    var acc: Word := 0;
    var bits: nat := 0;
    var next: nat := 0;
    ghost var tail: seq<bool>, left: nat := Stream(packed, 8), 10 * count;
    assert packed[0..] == packed && ToBits(0, 0) == [];
    while |out| < count
      invariant Reading(count, packed, out, acc, bits, next, tail, left)
      invariant ps == out + Unstream(tail[..left], 10) && padding == tail[left..]
      invariant Increasing(out)
    {
      var position, truncated;
      position, acc, bits, next, truncated := ReadPosition(packed, next, acc, bits, tail, left);
      if truncated {
        return Err(TruncatedPositions);
      }
      if position >= ORB_BITS {
        return Err(PositionOutsideOrb);
      }
      tail, left := tail[10..], left - 10;
      NextPosition(ps, out, position, Unstream(tail[..left], 10));
      if |out| > 0 && position <= out[|out| - 1] {
        return Err(NotIncreasing);
      }
      out := out + [position];
    }
    r := EndOfPositions(count, packed, out, acc, bits, next, ps, padding, tail);
  }

  /** After the last position: zero padding and no trailing byte. */
  method EndOfPositions(count: nat, packed: seq<Byte>, out: seq<nat>, acc: Word, bits: nat, next: nat,
                        ghost ps: seq<nat>, ghost padding: seq<bool>, ghost tail: seq<bool>)
    returns (r: Result<seq<nat>, CodecError>)
    requires |packed| == PackedLen(count) && Reading(count, packed, out, acc, bits, next, tail, 0) && Increasing(out)
    requires ps == out + Unstream(tail[..0], 10) && padding == tail[0..]
    ensures r == Judge(ps, padding)
  {
    ZeroBits(acc, bits);
    EndOfStream(ps, out, padding, tail, ToBits(acc, bits), packed, next);
    if acc != 0 || next < |packed| {
      return Err(NonzeroPadding);
    }
    return Ok(out);
  }

  /** `unpack_positions`. */
  method UnpackPositions(count: nat, packed: seq<Byte>) returns (r: Result<seq<nat>, CodecError>)
    ensures r == Unpacked(count, packed)
    ensures r.Err? ==> r.error != TruncatedPositions && r.error != PositionOutsideOrb
  {
    var valid := ValidateSparse(count, packed);
    if valid.Err? {
      return Err(valid.error);
    }
    StreamLength(packed, 8);
    ghost var bits := Stream(packed, 8);
    r := ReadPositions(count, packed, Unstream(bits[..10 * count], 10), bits[10 * count..]);
  }

  lemma EndOfStream(ps: seq<nat>, out: seq<nat>, padding: seq<bool>, tail: seq<bool>, last: seq<bool>,
                    packed: seq<Byte>, next: nat)
    requires next <= |packed| && |packed| == PackedLen(|out|) && 10 * |out| + |last| == 8 * next && |last| < 10
    requires tail == last + Stream(packed[next..], 8)
    requires ps == out + Unstream(tail[..0], 10) && padding == tail[0..]
    ensures ps == out && next == |packed| && padding == last
  {
  }

  lemma NextPosition(ps: seq<nat>, out: seq<nat>, position: nat, rest: seq<nat>)
    requires ps == out + ([position] + rest) && Increasing(out)
    ensures ps == (out + [position]) + rest
    ensures |out| > 0 && position <= out[|out| - 1] ==> !Increasing(ps)
    ensures !(|out| > 0 && position <= out[|out| - 1]) ==> Increasing(out + [position])
  {
    if |out| > 0 && position <= out[|out| - 1] {
      assert ps[|out| - 1] >= ps[|out|];
    }
  }

  lemma {:induction false} ZeroBits(acc: nat, bits: nat)
    requires acc < Pow2(bits)
    ensures acc != 0 <==> true in ToBits(acc, bits)
  {
    if bits != 0 {
      ZeroBits(acc / 2, bits - 1);
    }
  }

  // ---- XOR residuals ----

  function XorOrb(a: Orb, b: Orb): (o: Orb)
    ensures forall j :: 0 <= j < ORB_BITS ==> OrbBit(o, j) == (OrbBit(a, j) != OrbBit(b, j))
  {
    var o := seq(ORB_WORDS, i requires 0 <= i < ORB_WORDS => XorWord(a[i], b[i]));
    assert forall j :: 0 <= j < ORB_BITS ==> OrbBit(o, j) == (OrbBit(a, j) != OrbBit(b, j)) by {
      forall j | 0 <= j < ORB_BITS
        ensures OrbBit(o, j) == (OrbBit(a, j) != OrbBit(b, j))
      {
        XorBit(a[j / 64], b[j / 64], j % 64);
      }
    }
    o
  }

  lemma XorOrbWords(a: Orb, b: Orb, words: seq<Word>)
    requires |words| == ORB_WORDS && forall k :: 0 <= k < ORB_WORDS ==> words[k] == Xor(a[k], b[k])
    ensures words == XorOrb(a, b)
  {
  }

  function XorWord(a: Word, b: Word): Word {
    WordBounds(a, b);
    Xor(a, b)
  }

  /** Whether two ORBs differ at a position. */
  function DiffAt(a: Orb, b: Orb): nat -> bool {
    (j: nat) => j < ORB_BITS && OrbBit(a, j) != OrbBit(b, j)
  }

  /** The differing positions below `n`, in order: the per-bit reference list. */
  function DiffList(a: Orb, b: Orb, n: nat): seq<nat> {
    Filter(DiffAt(a, b), n)
  }

  lemma DiffListIsDiffer(a: Orb, b: Orb)
    ensures ValidPositions(DiffList(a, b, ORB_BITS))
    ensures forall j :: j in DiffList(a, b, ORB_BITS) <==> j in Differ(a, b, ORB_BITS)
    ensures |DiffList(a, b, ORB_BITS)| == HammingDistance(a, b)
  {
    var ps := DiffList(a, b, ORB_BITS);
    FilterIsExact(DiffAt(a, b), ORB_BITS, Differ(a, b, ORB_BITS));
    forall i | 0 <= i < |ps|
      ensures ps[i] < ORB_BITS
    {
      assert ps[i] in ps;
    }
  }

  function ResidualLen(r: Residual): nat {
    match r
    case Sparse(_, packed) => 1 + 2 + |packed|
    case Dense(_) => 1 + ORB_BYTES
  }

  /** The exact residual: sparse up to 100 flips, dense above. */
  function ResidualOf(target: Orb, predictor: Orb): Residual {
    var ps := DiffList(target, predictor, ORB_BITS);
    DiffListIsDiffer(target, predictor);
    if HammingDistance(target, predictor) <= 100 then Sparse(|ps|, Packed(ps)) else Dense(XorOrb(target, predictor))
  }

  /** The inner loop of `from_exact_xor`: clears the lowest set bit of one XOR word until none is left. */
  method EmitWord(slot: Word, base: nat, before: seq<nat>, ghost p: nat -> bool) returns (positions: seq<nat>)
    requires WordOf(p, base, slot) && before == Filter(p, base)
    ensures positions == Filter(p, base + 64)
  {
    positions := before;
    var word: nat := slot;
    ghost var low: nat := 0;
    while word != 0
      invariant low <= 64 && word < TWO64 && Remaining(word, low, slot)
      invariant positions == Filter(p, base + low)
    {
      var bit := TrailingZeros(word);
      EmitLowest(p, base, low, word, slot);
      positions := positions + [base + bit];
      ClearedWord(word, low, slot);
      word := And(word, word - 1);
      low := bit + 1;
    }
    WordExhausted(p, base, low, slot);
  }

  /** `word` is `slot` with the bits below `low` cleared. */
  predicate Remaining(word: nat, low: nat, slot: nat) {
    word == ShiftUp(Shr(slot, low), low)
  }

  lemma {:induction false} RemainingBit(word: nat, low: nat, slot: nat, k: nat)
    requires Remaining(word, low, slot)
    ensures Bit(word, k) == (low <= k && Bit(slot, k))
  {
    ShiftUpBit(Shr(slot, low), low, k);
    if low <= k {
      ShrBit(slot, low, k - low);
    }
  }

  /** Comparing the two byte sizes picks the sparse form exactly up to 100 flips. */
  lemma ResidualChoice(target: Orb, predictor: Orb, delta: seq<Word>)
    requires |delta| == ORB_WORDS && forall k :: 0 <= k < ORB_WORDS ==> delta[k] == Xor(target[k], predictor[k])
    ensures var ps := DiffList(target, predictor, ORB_BITS);
      ValidPositions(ps) && ResidualOf(target, predictor) ==
        if 1 + 2 + |Packed(ps)| < 1 + ORB_BYTES then Sparse(|ps|, Packed(ps)) else Dense(delta)
  {
    DiffListIsDiffer(target, predictor);
    XorOrbWords(target, predictor, delta);
  }

  lemma NothingListed(target: Orb, predictor: Orb)
    ensures DiffList(target, predictor, 0) == []
  {
  }

  /** `Residual::from_exact_xor`. */
  method FromExactXor(target: Orb, predictor: Orb) returns (r: Residual)
    ensures r == ResidualOf(target, predictor)
  {
    hide DiffList, Xor, ResidualOf;
    var delta := new Word[ORB_WORDS](_ => 0);
    var positions: seq<nat> := [];
    NothingListed(target, predictor);
    for i := 0 to ORB_WORDS
      invariant positions == DiffList(target, predictor, 64 * i)
      invariant forall k :: 0 <= k < i ==> delta[k] == Xor(target[k], predictor[k])
    {
      var slot := XorWord(target[i], predictor[i]);
      delta[i] := slot;
      positions := EmitDifferences(target, predictor, i, slot, positions);
    }
    r := ChooseResidual(target, predictor, positions, delta[..]);
  }

  /** One word of the loop of `from_exact_xor`. */
  method EmitDifferences(ghost target: Orb, ghost predictor: Orb, i: nat, slot: Word, before: seq<nat>)
    returns (positions: seq<nat>)
    requires i < ORB_WORDS && slot == Xor(target[i], predictor[i])
    requires before == DiffList(target, predictor, 64 * i)
    ensures positions == DiffList(target, predictor, 64 * (i + 1))
  {
    DiffWord(target, predictor, i);
    positions := EmitWord(slot, i * 64, before, DiffAt(target, predictor));
  }

  /** The size comparison at the end of `from_exact_xor`. */
  method ChooseResidual(target: Orb, predictor: Orb, positions: seq<nat>, delta: Orb) returns (r: Residual)
    requires positions == DiffList(target, predictor, ORB_BITS)
    requires forall k :: 0 <= k < ORB_WORDS ==> delta[k] == Xor(target[k], predictor[k])
    ensures r == ResidualOf(target, predictor)
  {
    ResidualChoice(target, predictor, delta);
    var sparse := PackPositions(positions);
    var sparseLen := 1 + 2 + |sparse|;
    var denseLen := 1 + ORB_BYTES;
    if sparseLen < denseLen {
      r := Sparse(|positions|, sparse);
    } else {
      r := Dense(delta);
    }
  }

  lemma {:induction false} DiffBit(a: Orb, b: Orb, i: nat, k: nat)
    requires i < ORB_WORDS && k < 64
    ensures DiffAt(a, b)(64 * i + k) == Bit(Xor(a[i], b[i]), k)
  {
    assert (64 * i + k) / 64 == i && (64 * i + k) % 64 == k;
    XorBit(a[i], b[i], k);
  }

  /** The bits of one XOR word are the differences at its 64 positions. */
  predicate WordOf(p: nat -> bool, base: nat, slot: nat) {
    forall k: nat {:trigger Bit(slot, k)} :: k < 64 ==> p(base + k) == Bit(slot, k)
  }

  lemma DiffWord(a: Orb, b: Orb, i: nat)
    requires i < ORB_WORDS
    ensures WordOf(DiffAt(a, b), 64 * i, Xor(a[i], b[i]))
  {
    forall k: nat | k < 64
      ensures DiffAt(a, b)(64 * i + k) == Bit(Xor(a[i], b[i]), k)
    {
      DiffBit(a, b, i, k);
    }
  }

  /** The lowest remaining set bit is the next differing position. */
  lemma {:induction false} EmitLowest(p: nat -> bool, base: nat, low: nat, word: nat, slot: nat)
    requires low <= 64 && 0 < word < TWO64 && WordOf(p, base, slot) && Remaining(word, low, slot)
    ensures low <= TrailingZeros(word) < 64
    ensures Filter(p, base + TrailingZeros(word) + 1) == Filter(p, base + low) + [base + TrailingZeros(word)]
  {
    var bit := TrailingZeros(word);
    TrailingZerosLowest(word, 0);
    Pow2Of64();
    if 64 <= bit {
      HighBit(word, 64, bit);
    }
    RemainingBit(word, low, slot, bit);
    forall j: nat | base + low <= j < base + bit
      ensures !p(j)
    {
      TrailingZerosLowest(word, j - base);
      RemainingBit(word, low, slot, j - base);
      assert p(base + (j - base)) == Bit(slot, j - base);
    }
    FilterGap(p, base + low, base + bit);
    assert p(base + bit);
  }

  lemma {:induction false} ClearedWord(word: nat, low: nat, slot: nat)
    requires 0 < word < TWO64 && Remaining(word, low, slot)
    ensures And(word, word - 1) < word
    ensures Remaining(And(word, word - 1), TrailingZeros(word) + 1, slot)
  {
    var bit := TrailingZeros(word);
    ClearLowest(word, 0);
    TrailingZerosLowest(word, 0);
    RemainingBit(word, low, slot, bit);
    var cleared := ShiftUp(Shr(slot, bit + 1), bit + 1);
    forall k: nat
      ensures Bit(And(word, word - 1), k) == Bit(cleared, k)
    {
      ClearLowest(word, k);
      TrailingZerosLowest(word, k);
      RemainingBit(word, low, slot, k);
      RemainingBit(cleared, bit + 1, slot, k);
    }
    SameBits(And(word, word - 1), cleared);
  }

  lemma {:induction false} WordExhausted(p: nat -> bool, base: nat, low: nat, slot: nat)
    requires low <= 64 && WordOf(p, base, slot) && Remaining(0, low, slot)
    ensures Filter(p, base + 64) == Filter(p, base + low)
  {
    forall j: nat | base + low <= j < base + 64
      ensures !p(j)
    {
      ZeroBit(j - base);
      RemainingBit(0, low, slot, j - base);
      assert p(base + (j - base)) == Bit(slot, j - base);
    }
    FilterGap(p, base + low, base + 64);
  }

  /** `out.words_mut()[p >> 6] ^= 1 << (p & 63)`. */
  function Flip(o: Orb, p: nat): (r: Orb)
    requires p < ORB_BITS
    ensures forall j :: 0 <= j < ORB_BITS ==> OrbBit(r, j) == (OrbBit(o, j) != (j == p))
  {
    var r := o[p / 64 := XorWord(o[p / 64], Shl64(1, p % 64))];
    assert forall j :: 0 <= j < ORB_BITS ==> OrbBit(r, j) == (OrbBit(o, j) != (j == p)) by {
      forall j | 0 <= j < ORB_BITS
        ensures OrbBit(r, j) == (OrbBit(o, j) != (j == p))
      {
        XorBit(o[p / 64], Shl64(1, p % 64), j % 64);
        Shl64Bit(1, p % 64, j % 64);
        if p % 64 < j % 64 {
          ZeroBit(j % 64 - p % 64 - 1);
        }
      }
    }
    r
  }

  function FlipAll(o: Orb, ps: seq<nat>): Orb
    requires AllBelow(ps, ORB_BITS)
  {
    if ps == [] then o
    else
      var n := |ps| - 1;
      Flip(FlipAll(o, ps[..n]), ps[n])
  }

  lemma {:induction false} FlipAllBit(o: Orb, ps: seq<nat>, j: nat)
    requires ValidPositions(ps) && j < ORB_BITS
    ensures OrbBit(FlipAll(o, ps), j) == (OrbBit(o, j) != (j in ps))
  {
    if ps != [] {
      var n := |ps| - 1;
      FlipAllBit(o, ps[..n], j);
      assert ps == ps[..n] + [ps[n]];
    }
  }

  function Applied(r: Residual, predictor: Orb): Result<Orb, CodecError> {
    match r
    case Dense(delta) => Ok(XorOrb(predictor, delta))
    case Sparse(count, packed) =>
      match Unpacked(count, packed)
      case Err(e) => Err(e)
      case Ok(ps) =>
        PackUnpacked(count, packed);
        Ok(FlipAll(predictor, ps))
  }

  /** The dense arm of `apply`: the words one by one. */
  method ApplyDense(delta: Orb, predictor: Orb) returns (result: Orb)
    ensures result == XorOrb(predictor, delta)
  {
    var out := new Word[ORB_WORDS](_ => 0);
    for i := 0 to ORB_WORDS
      invariant forall k :: 0 <= k < i ==> out[k] == Xor(predictor[k], delta[k])
    {
      out[i] := XorWord(predictor[i], delta[i]);
    }
    XorOrbWords(predictor, delta, out[..]);
    result := out[..];
  }

  /** `Residual::apply`. */
  method ApplyResidual(r: Residual, predictor: Orb) returns (result: Result<Orb, CodecError>)
    ensures result == Applied(r, predictor)
  {
    match r
    case Dense(delta) =>
      var out := ApplyDense(delta, predictor);
      return Ok(out);
    case Sparse(count, packed) =>
      var unpacked := UnpackPositions(count, packed);
      if unpacked.Err? {
        return Err(unpacked.error);
      }
      PackUnpacked(count, packed);
      var positions := unpacked.value;
      var out := predictor;
      for i := 0 to |positions|
        invariant out == FlipAll(predictor, positions[..i])
      {
        assert positions[..i + 1][..i] == positions[..i];
        out := Flip(out, positions[i]);
      }
      assert positions[..|positions|] == positions;
      return Ok(out);
  }

  /** `Residual::popcount`. */
  function ResidualPopCount(r: Residual): Result<nat, CodecError> {
    match r
    case Sparse(count, packed) =>
      (match Unpacked(count, packed)
       case Err(e) => Err(e)
       case Ok(_) => Ok(count))
    case Dense(delta) => Ok(TotalPopCount(delta))
  }

  function TotalPopCount(words: seq<Word>): nat {
    if words == [] then 0 else PopCount(words[0]) + TotalPopCount(words[1..])
  }

  lemma {:induction false} XorPopCount(a: seq<Word>, b: seq<Word>, delta: seq<Word>)
    requires |a| == |b| == |delta|
    requires forall i :: 0 <= i < |a| ==> delta[i] == Xor(a[i], b[i])
    ensures TotalPopCount(delta) == MismatchWords(a, b)
  {
    if a != [] {
      XorPopCount(a[1..], b[1..], delta[1..]);
    }
  }

  /** Prediction is exact: applying the residual restores the target, and its popcount is the
      Hamming distance. */
  lemma ResidualIsExact(target: Orb, predictor: Orb)
    ensures Applied(ResidualOf(target, predictor), predictor) == Ok(target)
    ensures ResidualPopCount(ResidualOf(target, predictor)) == Ok(HammingDistance(target, predictor))
  {
    var r := ResidualOf(target, predictor);
    match r
    case Dense(delta) =>
      XorPopCount(target, predictor, delta);
      SameOrb(XorOrb(predictor, delta), target);
    case Sparse(count, packed) =>
      var ps := DiffList(target, predictor, ORB_BITS);
      DiffListIsDiffer(target, predictor);
      UnpackPacked(ps);
      forall j | 0 <= j < ORB_BITS
        ensures OrbBit(FlipAll(predictor, ps), j) == OrbBit(target, j)
      {
        FlipAllBit(predictor, ps, j);
      }
      SameOrb(FlipAll(predictor, ps), target);
  }

  /** For any stored residual: it counts its flips exactly when it applies, and then the count is the distance
      between the predictor and the result. */
  lemma PopCountIsDistance(r: Residual, predictor: Orb)
    ensures match Applied(r, predictor)
      case Ok(o) => ResidualPopCount(r) == Ok(HammingDistance(o, predictor))
      case Err(e) => ResidualPopCount(r) == Err(e)
  {
    match r
    case Dense(delta) =>
      var o := XorOrb(predictor, delta);
      SameOrb(XorOrb(o, predictor), delta);
      XorPopCount(o, predictor, delta);
    case Sparse(count, packed) =>
      if Unpacked(count, packed).Ok? {
        SparseDistance(count, packed, predictor);
      }
  }

  lemma SparseDistance(count: nat, packed: seq<Byte>, predictor: Orb)
    requires Unpacked(count, packed).Ok?
    ensures Applied(Sparse(count, packed), predictor).Ok?
    ensures HammingDistance(Applied(Sparse(count, packed), predictor).value, predictor) == count
  {
    PackUnpacked(count, packed);
    var ps := Unpacked(count, packed).value;
    var o := FlipAll(predictor, ps);
    DiffListIsDiffer(o, predictor);
    forall j
      ensures j in ps <==> j in DiffList(o, predictor, ORB_BITS)
    {
      if 0 <= j < ORB_BITS {
        FlipAllBit(predictor, ps, j);
      }
    }
    SameMembers(ps, DiffList(o, predictor, ORB_BITS));
  }

  /** Two accepted sparse residuals with the same effect on a predictor are identical. */
  lemma SparseIsCanonical(r: Residual, s: Residual, predictor: Orb)
    requires r.Sparse? && s.Sparse?
    requires Applied(r, predictor).Ok? && Applied(r, predictor) == Applied(s, predictor)
    ensures r == s
  {
    PackUnpacked(r.count, r.packed);
    PackUnpacked(s.count, s.packed);
    var ps, qs := Unpacked(r.count, r.packed).value, Unpacked(s.count, s.packed).value;
    forall j
      ensures j in ps <==> j in qs
    {
      if 0 <= j < ORB_BITS {
        FlipAllBit(predictor, ps, j);
        FlipAllBit(predictor, qs, j);
      }
    }
    SameMembers(ps, qs);
  }

  // ---- the encoding choice ----

  function ParentLen(parent: ParentRef): nat {
    match parent
    case Prototype(_) => 1 + 4
    case SegmentLocal(_) => 1 + 2
  }

  function SerializedLen(e: EncodedOrb): nat {
    match e
    case Literal(_) => 1 + ORB_BYTES
    case Delta(parent, _, residual) => 1 + 1 + ParentLen(parent) + ResidualLen(residual)
  }

  /** The stored length by parts: a tag, then a whole ORB, or depth, parent and residual. */
  lemma StoredLength(e: EncodedOrb)
    ensures SerializedLen(e) ==
      match e
      case Literal(_) => 129
      case Delta(Prototype(_), _, Dense(_)) => 136
      case Delta(SegmentLocal(_), _, Dense(_)) => 134
      case Delta(Prototype(_), _, Sparse(_, packed)) => 10 + |packed|
      case Delta(SegmentLocal(_), _, Sparse(_, packed)) => 8 + |packed|
  {
  }

  function EncodeAgainst(target: Orb, predictor: Orb, parent: ParentRef, parentDepth: nat)
    : (r: Result<EncodedOrb, CodecError>)
  {
    if parentDepth >= MAX_DELTA_DEPTH then Err(DepthExceeded)
    else
      var delta := Delta(parent, parentDepth + 1, ResidualOf(target, predictor));
      if SerializedLen(delta) < 1 + ORB_BYTES then Ok(delta) else Ok(Literal(target))
  }

  function Decode(e: EncodedOrb, predictor: Option<Orb>): Result<Orb, CodecError> {
    match e
    case Literal(orb) => Ok(orb)
    case Delta(_, depth, residual) =>
      if depth == 0 || depth > MAX_DELTA_DEPTH then Err(InvalidStoredDepth)
      else if predictor.None? then Err(MissingPredictor)
      else Applied(residual, predictor.value)
  }

  /** Which stored encodings decode: literals, and deltas of depth one or two whose residual applies to the
      predictor given; otherwise the depth is refused first, then a missing predictor. */
  lemma DecodeIsExact(e: EncodedOrb, predictor: Option<Orb>)
    ensures Decode(e, predictor).Ok? <==>
      e.Literal? ||
      (e.parentDepth in {1, 2} && predictor.Some? &&
       (e.residual.Sparse? ==> exists ps :: IsImage(e.residual.count, e.residual.packed, ps)))
    ensures e.Literal? ==> Decode(e, predictor) == Ok(e.orb)
    ensures e.Delta? && e.parentDepth !in {1, 2} ==> Decode(e, predictor) == Err(InvalidStoredDepth)
    ensures e.Delta? && e.parentDepth in {1, 2} && predictor.None? ==> Decode(e, predictor) == Err(MissingPredictor)
    ensures e.Delta? && Decode(e, predictor).Ok? ==> forall j :: 0 <= j < ORB_BITS ==>
      OrbBit(Decode(e, predictor).value, j) == (OrbBit(predictor.value, j) != Flips(e.residual, j))
  {
    if e.Delta? && e.parentDepth in {1, 2} && predictor.Some? && e.residual.Sparse? {
      UnpackIsExact(e.residual.count, e.residual.packed);
      if Decode(e, predictor).Ok? {
        var ps := Unpacked(e.residual.count, e.residual.packed).value;
        forall j | 0 <= j < ORB_BITS
          ensures OrbBit(FlipAll(predictor.value, ps), j) == (OrbBit(predictor.value, j) != (j in ps))
        {
          PackUnpacked(e.residual.count, e.residual.packed);
          FlipAllBit(predictor.value, ps, j);
        }
      }
    }
  }

  /** Whether a residual that applies flips bit `j`. */
  predicate Flips(r: Residual, j: nat)
    requires j < ORB_BITS && (r.Sparse? ==> Unpacked(r.count, r.packed).Ok?)
  {
    match r
    case Dense(delta) => OrbBit(delta, j)
    case Sparse(count, packed) => j in Unpacked(count, packed).value
  }

  /** The largest number of flips for which a delta beats the literal. */
  function BreakEven(parent: ParentRef): nat {
    match parent
    case Prototype(_) => 94
    case SegmentLocal(_) => 96
  }

  /** Exactness, the depth limit and the break-even point of one encoding. */
  lemma EncodingIsExact(target: Orb, predictor: Orb, parent: ParentRef, parentDepth: nat)
    ensures EncodeAgainst(target, predictor, parent, parentDepth).Ok? <==> parentDepth < 2
    ensures parentDepth >= 2 ==> EncodeAgainst(target, predictor, parent, parentDepth) == Err(DepthExceeded)
    ensures parentDepth < MAX_DELTA_DEPTH ==>
      var e := EncodeAgainst(target, predictor, parent, parentDepth).value;
      && Decode(e, Some(predictor)) == Ok(target)
      && (e.Delta? <==> HammingDistance(target, predictor) <= BreakEven(parent))
      && (e.Delta? ==> e.residual.Sparse? && e.parent == parent && e.parentDepth == parentDepth + 1)
      && SerializedLen(e) <= 1 + ORB_BYTES
  {
    ResidualIsExact(target, predictor);
    DiffListIsDiffer(target, predictor);
  }

  function PrototypeDelta(target: Orb, prototypes: seq<Orb>, i: nat): EncodedOrb
    requires i < |prototypes|
  {
    Delta(Prototype(i), 1, ResidualOf(target, prototypes[i]))
  }

  function Distance(target: Orb, prototypes: seq<Orb>, j: nat): nat
    requires j < |prototypes|
  {
    HammingDistance(target, prototypes[j])
  }

  /** The lowest index at minimum distance among the first `n` prototypes. */
  predicate Nearest(target: Orb, prototypes: seq<Orb>, n: nat, i: nat)
    requires n <= |prototypes|
  {
    && i < n
    && (forall j :: 0 <= j < n ==> Distance(target, prototypes, i) <= Distance(target, prototypes, j))
    && (forall j :: 0 <= j < i ==> Distance(target, prototypes, i) < Distance(target, prototypes, j))
  }

  /** Ties leave no freedom. */
  lemma NearestIsUnique(target: Orb, prototypes: seq<Orb>, n: nat, i: nat, j: nat)
    requires n <= |prototypes| && Nearest(target, prototypes, n, i) && Nearest(target, prototypes, n, j)
    ensures i == j
  {
    hide Distance;
    assert Distance(target, prototypes, i) <= Distance(target, prototypes, j);
    assert Distance(target, prototypes, j) <= Distance(target, prototypes, i);
  }

  /** Serialized length of a prototype delta at a given distance. */
  function DeltaLen(distance: nat): nat {
    7 + if distance <= 100 then 3 + PackedLen(distance) else 1 + ORB_BYTES
  }

  lemma DeltaLength(target: Orb, prototypes: seq<Orb>, i: nat)
    requires i < |prototypes|
    ensures SerializedLen(PrototypeDelta(target, prototypes, i)) == DeltaLen(Distance(target, prototypes, i))
    ensures EncodeAgainst(target, prototypes[i], Prototype(i), 0) ==
      Ok(if DeltaLen(Distance(target, prototypes, i)) < 1 + ORB_BYTES
         then PrototypeDelta(target, prototypes, i) else Literal(target))
  {
    DiffListIsDiffer(target, prototypes[i]);
  }

  /** Up to the break-even point the length grows strictly with the distance. */
  lemma CloserIsShorter(near: nat, other: nat)
    ensures near <= 94 <==> DeltaLen(near) < 1 + ORB_BYTES
    ensures near <= 94 ==> (near < other <==> DeltaLen(near) < DeltaLen(other))
    ensures near <= 94 ==> (near <= other <==> DeltaLen(near) <= DeltaLen(other))
  {
  }

  /** The choice among the first `n` prototypes. */
  predicate BestSoFar(target: Orb, prototypes: seq<Orb>, n: nat, best: EncodedOrb, bestIndex: Option<nat>)
    requires n <= |prototypes|
  {
    match bestIndex
    case None =>
      best == Literal(target) && forall j :: 0 <= j < n ==> Distance(target, prototypes, j) > 94
    case Some(i) =>
      Nearest(target, prototypes, n, i) && Distance(target, prototypes, i) <= 94 &&
      best == PrototypeDelta(target, prototypes, i)
  }

  lemma LiteralLength(target: Orb)
    ensures SerializedLen(Literal(target)) == 1 + ORB_BYTES
  {
  }

  /** A later prototype replaces the best one exactly when it is strictly nearer. */
  lemma BestStep(target: Orb, prototypes: seq<Orb>, n: nat, best: EncodedOrb, bestIndex: Option<nat>)
    requires n < |prototypes| && BestSoFar(target, prototypes, n, best, bestIndex)
    ensures EncodeAgainst(target, prototypes[n], Prototype(n), 0).Ok?
    ensures var candidate := EncodeAgainst(target, prototypes[n], Prototype(n), 0).value;
      if SerializedLen(candidate) < SerializedLen(best)
      then BestSoFar(target, prototypes, n + 1, candidate, Some(n))
      else BestSoFar(target, prototypes, n + 1, best, bestIndex)
  {
    hide Distance, EncodeAgainst, SerializedLen, DeltaLen, Nearest;
    LiteralLength(target);
    DeltaLength(target, prototypes, n);
    var distance := Distance(target, prototypes, n);
    CloserIsShorter(distance, distance);
    match bestIndex
    case None =>
      if distance <= 94 {
        FirstNearest(target, prototypes, n);
      }
    case Some(i) =>
      NextNearest(target, prototypes, n, i);
      DeltaLength(target, prototypes, i);
      CloserIsShorter(Distance(target, prototypes, i), distance);
      CloserIsShorter(distance, Distance(target, prototypes, i));
  }

  lemma FirstNearest(target: Orb, prototypes: seq<Orb>, n: nat)
    requires n < |prototypes| && Distance(target, prototypes, n) <= 94
    requires forall j :: 0 <= j < n ==> Distance(target, prototypes, j) > 94
    ensures Nearest(target, prototypes, n + 1, n)
  {
    hide Distance;
  }

  lemma NextNearest(target: Orb, prototypes: seq<Orb>, n: nat, i: nat)
    requires n < |prototypes| && Nearest(target, prototypes, n, i)
    ensures i < n
    ensures if Distance(target, prototypes, n) < Distance(target, prototypes, i)
            then Nearest(target, prototypes, n + 1, n) else Nearest(target, prototypes, n + 1, i)
  {
    hide Distance;
  }

  /** `encode_best_prototype`: a delta against the nearest prototype (lowest index on ties)
      exactly when some prototype is within 94 flips, the literal otherwise; nothing shorter
      exists among the candidates, and it decodes to the target. */
  method EncodeBestPrototype(target: Orb, prototypes: seq<Orb>)
    returns (r: Result<(EncodedOrb, Option<nat>), CodecError>)
    ensures r.Ok? <==> |prototypes| <= TWO32
    ensures r.Err? ==> r.error == PrototypeIndexTooLarge
    ensures r.Ok? ==> match r.value.1
      case None =>
        r.value.0 == Literal(target) &&
        forall j :: 0 <= j < |prototypes| ==> Distance(target, prototypes, j) > 94
      case Some(i) =>
        Nearest(target, prototypes, |prototypes|, i) && Distance(target, prototypes, i) <= 94 &&
        r.value.0 == PrototypeDelta(target, prototypes, i)
    ensures r.Ok? ==> SerializedLen(r.value.0) <= 1 + ORB_BYTES
    ensures r.Ok? ==> forall j :: 0 <= j < |prototypes| ==>
      SerializedLen(r.value.0) <= SerializedLen(PrototypeDelta(target, prototypes, j))
    ensures r.Ok? ==>
      Decode(r.value.0, if r.value.1.Some? then Some(prototypes[r.value.1.value]) else None) == Ok(target)
  {
    var best := Literal(target);
    var bestIndex: Option<nat> := None;
    for index := 0 to |prototypes|
      invariant index <= TWO32
      invariant BestSoFar(target, prototypes, index, best, bestIndex)
    {
      if index >= TWO32 {
        return Err(PrototypeIndexTooLarge);
      }
      BestStep(target, prototypes, index, best, bestIndex);
      var candidate := EncodeAgainst(target, prototypes[index], Prototype(index), 0);
      if SerializedLen(candidate.value) < SerializedLen(best) {
        best := candidate.value;
        bestIndex := Some(index);
      }
    }
    ChoiceIsMinimal(target, prototypes, bestIndex);
    return Ok((best, bestIndex));
  }

  lemma ChoiceIsMinimal(target: Orb, prototypes: seq<Orb>, bestIndex: Option<nat>)
    requires match bestIndex
      case None => forall j :: 0 <= j < |prototypes| ==> Distance(target, prototypes, j) > 94
      case Some(i) => Nearest(target, prototypes, |prototypes|, i) && Distance(target, prototypes, i) <= 94
    ensures var best :=
        if bestIndex.Some? then PrototypeDelta(target, prototypes, bestIndex.value) else Literal(target);
      && SerializedLen(best) <= 1 + ORB_BYTES
      && (forall j :: 0 <= j < |prototypes| ==>
            SerializedLen(best) <= SerializedLen(PrototypeDelta(target, prototypes, j)))
      && Decode(best, if bestIndex.Some? then Some(prototypes[bestIndex.value]) else None) == Ok(target)
  {
    forall j | 0 <= j < |prototypes|
      ensures Distance(target, prototypes, j) > 94 ==>
        SerializedLen(PrototypeDelta(target, prototypes, j)) >= 1 + ORB_BYTES
    {
      DeltaLength(target, prototypes, j);
      CloserIsShorter(Distance(target, prototypes, j), 0);
    }
    if bestIndex.Some? {
      var i := bestIndex.value;
      ResidualIsExact(target, prototypes[i]);
      DeltaLength(target, prototypes, i);
      forall j | 0 <= j < |prototypes|
        ensures SerializedLen(PrototypeDelta(target, prototypes, i))
          <= SerializedLen(PrototypeDelta(target, prototypes, j))
      {
        DeltaLength(target, prototypes, j);
        CloserIsShorter(Distance(target, prototypes, i), Distance(target, prototypes, j));
      }
    }
  }
}
