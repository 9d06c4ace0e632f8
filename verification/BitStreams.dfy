/** Fixed-width numbers laid end to end as a little-endian bit string. */
module BitStreams {
  import opened Words

  /** `width` bits per number, least significant bit first. */
  function Stream(values: seq<nat>, width: nat): seq<bool> {
    if values == [] then [] else ToBits(values[0], width) + Stream(values[1..], width)
  }

  /** Cut a bit string into numbers; an incomplete tail is dropped. */
  function Unstream(bits: seq<bool>, width: nat): seq<nat>
    requires width > 0
  {
    if |bits| < width then [] else [FromBits(bits[..width])] + Unstream(bits[width..], width)
  }

  predicate AllBelow(values: seq<nat>, bound: nat) {
    forall i :: 0 <= i < |values| ==> values[i] < bound
  }

  function Zeros(n: nat): seq<bool> {
    seq(n, _ => false)
  }

  lemma {:induction false} StreamLength(values: seq<nat>, width: nat)
    ensures |Stream(values, width)| == width * |values|
  {
    if values != [] {
      StreamLength(values[1..], width);
      assert width * |values| == width + width * |values[1..]|;
    }
  }

  lemma {:induction false} StreamAppend(a: seq<nat>, b: seq<nat>, width: nat)
    ensures Stream(a + b, width) == Stream(a, width) + Stream(b, width)
  {
    if a == [] {
      assert a + b == b;
    } else {
      StreamAppend(a[1..], b, width);
      assert (a + b)[0] == a[0] && (a + b)[1..] == a[1..] + b;
      ConcatAssoc(ToBits(a[0], width), Stream(a[1..], width), Stream(b, width));
    }
  }

  lemma {:induction false} StreamSnoc(a: seq<nat>, v: nat, width: nat)
    ensures Stream(a + [v], width) == Stream(a, width) + ToBits(v, width)
  {
    StreamAppend(a, [v], width);
    assert Stream([v], width) == ToBits(v, width) + Stream([], width);
  }

  lemma {:induction false} UnstreamStream(values: seq<nat>, width: nat)
    requires width > 0 && AllBelow(values, Pow2(width))
    ensures Unstream(Stream(values, width), width) == values
  {
    if values != [] {
      var head, tail := ToBits(values[0], width), Stream(values[1..], width);
      assert (head + tail)[..width] == head && (head + tail)[width..] == tail;
      ToFromBits(values[0], width);
      LowOfSmall(values[0], width);
      UnstreamStream(values[1..], width);
    }
  }

  lemma OneMoreChunk(width: nat, n: nat)
    requires n != 0
    ensures width * n == width + width * (n - 1) >= width
  {
    assert width * (n - 1) >= 0;
  }

  lemma {:induction false} StreamUnstream(bits: seq<bool>, width: nat, n: nat)
    requires width > 0 && |bits| == width * n
    ensures Stream(Unstream(bits, width), width) == bits
    ensures |Unstream(bits, width)| == n && AllBelow(Unstream(bits, width), Pow2(width))
  {
    hide FromBits, ToBits, Pow2;
    if n != 0 {
      OneMoreChunk(width, n);
      StreamUnstream(bits[width..], width, n - 1);
      FromToBits(bits[..width]);
      FromBitsBound(bits[..width]);
      assert bits == bits[..width] + bits[width..];
      var v := Unstream(bits, width);
      assert v[1..] == Unstream(bits[width..], width);
    }
  }

  lemma ConcatAssoc(a: seq<bool>, b: seq<bool>, c: seq<bool>)
    ensures a + (b + c) == (a + b) + c
  {
  }

  lemma {:induction false} ToBitsZero(n: nat)
    ensures ToBits(0, n) == Zeros(n)
  {
    if n != 0 {
      ToBitsZero(n - 1);
      assert Zeros(n) == [false] + Zeros(n - 1);
    }
  }

  /** The bits of a small number above its width are zero. */
  lemma ToBitsPad(v: nat, m: nat, n: nat)
    requires v < Pow2(m)
    ensures ToBits(v, m + n) == ToBits(v, m) + Zeros(n)
  {
    ToBitsSplit(v, m, n);
    ShrZero(v, m);
    ToBitsZero(n);
  }

  lemma {:induction false} ShrZero(v: nat, m: nat)
    requires v < Pow2(m)
    ensures Shr(v, m) == 0
  {
    if m != 0 {
      ShrZero(v / 2, m - 1);
    }
  }

  lemma {:induction false} ShrBound(v: nat, m: nat, n: nat)
    requires v < Pow2(m + n)
    ensures Shr(v, m) < Pow2(n)
  {
    if m != 0 {
      ShrBound(v / 2, m - 1, n);
    }
  }

  /** `acc |= (v as u64) << bits`, when nothing is shifted out and `acc` fits below `bits`. */
  lemma PushBits(acc: Word, bits: nat, v: Word, width: nat)
    requires acc < Pow2(bits) && v < Pow2(width) && bits + width <= 64
    ensures ToBits(Or(acc, Shl64(v, bits)), bits + width) == ToBits(acc, bits) + ToBits(v, width)
    ensures Or(acc, Shl64(v, bits)) < Pow2(bits + width)
    ensures Or(acc, Shl64(v, bits)) < TWO64
  {
    hide ToBits, Or, ShiftUp, Low, Pow2;
    ShiftUpBound(v, width, bits);
    Pow2Mono(bits + width, 64);
    Pow2Mono(bits, bits + width);
    LowOfSmall(ShiftUp(v, bits), 64);
    ToBitsJoin(acc, v, bits, width);
    OrBound(acc, ShiftUp(v, bits), bits + width);
    Pow2Of64();
  }

  /** `acc & (2^width - 1)` and `acc >>= width` split the low bits off. */
  lemma PopBits(acc: Word, bits: nat, width: nat)
    requires acc < Pow2(bits) && width <= bits
    ensures ToBits(acc, bits) == ToBits(Low(acc, width), width) + ToBits(Shr(acc, width), bits - width)
    ensures Shr(acc, width) < Pow2(bits - width)
    ensures Low(acc, width) < Pow2(width)
    ensures FromBits(ToBits(acc, width)) == Low(acc, width)
  {
    ToBitsSplit(acc, width, bits - width);
    ToBitsLow(acc, width, width);
    ShrBound(acc, width, bits - width);
    LowBound(acc, width);
    ToFromBits(acc, width);
  }

  /** Writing, one number in: the accumulator grows by `width` bits. */
  lemma PushValue(prefix: seq<bool>, acc: Word, bits: nat, done: seq<nat>, v: Word, width: nat)
    requires acc < Pow2(bits) && v < Pow2(width) && bits + width <= 64
    requires prefix + ToBits(acc, bits) == Stream(done, width)
    ensures Or(acc, Shl64(v, bits)) < TWO64
    ensures Or(acc, Shl64(v, bits)) < Pow2(bits + width)
    ensures prefix + ToBits(Or(acc, Shl64(v, bits)), bits + width) == Stream(done + [v], width)
  {
    PushBits(acc, bits, v, width);
    StreamSnoc(done, v, width);
    ConcatAssoc(prefix, ToBits(acc, bits), ToBits(v, width));
  }

  /** Writing, one number out: the accumulator shrinks by `width` bits. */
  lemma PopValue(out: seq<nat>, acc: Word, bits: nat, width: nat, target: seq<bool>)
    requires width <= bits && acc < Pow2(bits)
    requires Stream(out, width) + ToBits(acc, bits) == target
    ensures Low(acc, width) < Pow2(width) && Shr(acc, width) < TWO64 && Shr(acc, width) < Pow2(bits - width)
    ensures Stream(out + [Low(acc, width)], width) + ToBits(Shr(acc, width), bits - width) == target
  {
    PopBits(acc, bits, width);
    ShrShrinks(acc, width);
    StreamSnoc(out, Low(acc, width), width);
    ConcatAssoc(Stream(out, width), ToBits(Low(acc, width), width), ToBits(Shr(acc, width), bits - width));
  }

  /** The last partial number carries zero padding. */
  lemma {:induction false} PadValue(out: seq<nat>, acc: Word, bits: nat, width: nat, target: seq<bool>)
    requires 0 < bits <= width && acc < Pow2(bits)
    requires Stream(out, width) + ToBits(acc, bits) == target
    ensures Low(acc, width) < Pow2(width)
    ensures Stream(out + [Low(acc, width)], width) == target + Zeros(width - bits)
  {
    Pow2Mono(bits, width);
    LowOfSmall(acc, width);
    ToBitsPad(acc, bits, width - bits);
    StreamSnoc(out, acc, width);
    ConcatAssoc(Stream(out, width), ToBits(acc, bits), Zeros(width - bits));
  }

  /** Equal streams of narrow numbers are equal lists. */
  lemma {:induction false} SameStream(a: seq<nat>, b: seq<nat>, width: nat)
    requires width > 0 && AllBelow(a, Pow2(width)) && AllBelow(b, Pow2(width))
    requires Stream(a, width) == Stream(b, width)
    ensures a == b
  {
    UnstreamStream(a, width);
    UnstreamStream(b, width);
  }

  /** Reading, one number in: the unread tail moves into the accumulator. */
  lemma RefillValue(values: seq<nat>, next: nat, acc: Word, bits: nat, width: nat)
    requires next < |values| && values[next] < TWO64
    requires acc < Pow2(bits) && values[next] < Pow2(width) && bits + width <= 64
    ensures Or(acc, Shl64(values[next], bits)) < TWO64
    ensures Or(acc, Shl64(values[next], bits)) < Pow2(bits + width)
    ensures ToBits(acc, bits) + Stream(values[next..], width)
      == ToBits(Or(acc, Shl64(values[next], bits)), bits + width) + Stream(values[next + 1..], width)
  {
    PushBits(acc, bits, values[next], width);
    assert values[next..][1..] == values[next + 1..];
    ConcatAssoc(ToBits(acc, bits), ToBits(values[next], width), Stream(values[next + 1..], width));
  }

  /** Reading, one number out: it is the next `width` bits of the unread stream `tail`. */
  lemma TakeValue(tail: seq<bool>, n: nat, acc: Word, bits: nat, width: nat, rest: seq<bool>)
    requires 0 < width <= bits && width <= n <= |tail| && acc < Pow2(bits)
    requires tail == ToBits(acc, bits) + rest
    ensures Unstream(tail[..n], width) == [Low(acc, width)] + Unstream(tail[width..][..n - width], width)
    ensures tail[width..][n - width..] == tail[n..]
    ensures tail[width..] == ToBits(Shr(acc, width), bits - width) + rest
    ensures Shr(acc, width) < TWO64 && Shr(acc, width) < Pow2(bits - width) && Low(acc, width) < Pow2(width)
  {
    PopBits(acc, bits, width);
    ShrShrinks(acc, width);
    ToBitsLow(acc, width, width);
    assert tail[..n][..width] == ToBits(acc, width);
    assert tail[..n][width..] == tail[width..][..n - width];
  }
}
