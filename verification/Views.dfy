/** The reversible geometries of `gel-reader`: bit permutations and XOR masks of one ORB. */
module Views {
  import opened Words
  import opened Mixing
  import opened Counting
  import opened Orbs
  import opened Wrappers

  type U16 = n: nat | n < 0x1_0000

  datatype ViewKind = Identity | Reverse | Rotate | XorMask | AffinePermutation | AffineMasked

  /** The fields are public, so `a`, `b` and `seed` may hold anything. */
  datatype ViewSpec = ViewSpec(kind: ViewKind, a: U16, b: U16, seed: Word)

  datatype ViewError = MultiplierNotOdd

  /** `ViewSpec::rotate`. */
  function RotateSpec(bits: U16): ViewSpec {
    ViewSpec(Rotate, 1, bits % ORB_BITS, 0)
  }

  function MaskWord(seed: Word, word: nat): Word {
    var salt := word * 0xD6E8_FEB8_6659_FD93 % TWO64;
    WordBounds(seed, salt);
    SplitMix64(Xor(seed, salt))
  }

  // ---- what a view means, bit by bit ----

  predicate Affine(spec: ViewSpec) {
    spec.kind in {AffinePermutation, AffineMasked}
  }

  /** `validate_odd`, applied to the affine kinds only. */
  predicate Accepts(spec: ViewSpec) {
    Affine(spec) ==> spec.a % 2 == 1
  }

  /** The position a view bit is taken from. */
  function Source(spec: ViewSpec, j: nat): (i: nat)
    requires j < ORB_BITS
    ensures i < ORB_BITS
  {
    match spec.kind
    case Identity => j
    case XorMask => j
    case Reverse => ORB_BITS - 1 - j
    case Rotate => (j + spec.b) % ORB_BITS
    case AffinePermutation => (spec.a * j + spec.b) % ORB_BITS
    case AffineMasked => (spec.a * j + spec.b) % ORB_BITS
  }

  /** Whether the mask inverts a view bit. */
  predicate Masked(spec: ViewSpec, j: nat) {
    spec.kind in {XorMask, AffineMasked} && Bit(MaskWord(spec.seed, j / 64), j % 64)
  }

  /** `out` is the view of `orb`. */
  predicate IsView(orb: Orb, spec: ViewSpec, out: Orb) {
    forall j :: 0 <= j < ORB_BITS ==> OrbBit(out, j) == (OrbBit(orb, Source(spec, j)) != Masked(spec, j))
  }

  /** `base` has the bits of `view` moved back to where they came from. */
  predicate IsInverse(view: Orb, spec: ViewSpec, base: Orb) {
    forall j :: 0 <= j < ORB_BITS ==> OrbBit(base, Source(spec, j)) == (OrbBit(view, j) != Masked(spec, j))
  }

  lemma {:induction false} MaskIsMixed(seed: Word, word: nat, x: Word)
    requires x == Xor(seed, word * 0xD6E8_FEB8_6659_FD93 % 0x1_0000_0000_0000_0000)
    ensures MaskWord(seed, word) == SplitMix64(x)
  {
  }

  /** Which bit of the carrier each kind of view reads, and which bits it inverts. */
  lemma ViewBits(orb: Orb, spec: ViewSpec, out: Orb)
    ensures IsView(orb, spec, out) <==>
      forall j :: 0 <= j < 1024 ==>
        OrbBit(out, j) ==
          match spec.kind
          case Identity => OrbBit(orb, j)
          case Reverse => OrbBit(orb, 1023 - j)
          case Rotate => OrbBit(orb, (j + spec.b) % 1024)
          case XorMask => OrbBit(orb, j) != Bit(MaskWord(spec.seed, j / 64), j % 64)
          case AffinePermutation => OrbBit(orb, (spec.a * j + spec.b) % 1024)
          case AffineMasked =>
            OrbBit(orb, (spec.a * j + spec.b) % 1024) != Bit(MaskWord(spec.seed, j / 64), j % 64)
  {
    forall j | 0 <= j < 1024
      ensures (OrbBit(orb, Source(spec, j)) != Masked(spec, j)) ==
          match spec.kind
          case Identity => OrbBit(orb, j)
          case Reverse => OrbBit(orb, 1023 - j)
          case Rotate => OrbBit(orb, (j + spec.b) % 1024)
          case XorMask => OrbBit(orb, j) != Bit(MaskWord(spec.seed, j / 64), j % 64)
          case AffinePermutation => OrbBit(orb, (spec.a * j + spec.b) % 1024)
          case AffineMasked =>
            OrbBit(orb, (spec.a * j + spec.b) % 1024) != Bit(MaskWord(spec.seed, j / 64), j % 64)
    {
      hide MaskWord;
    }
    hide Source, Masked, MaskWord;
  }

  // ---- number theory of the permutations ----

  /** An odd factor can be cancelled from a multiple of a power of two. */
  lemma {:induction false} OddCancels(a: nat, x: nat, n: nat, q: nat) returns (y: nat)
    requires a % 2 == 1 && a * x == Pow2(n) * q
    ensures x == Pow2(n) * y
  {
    if n == 0 {
      y := x;
    } else {
      var m := Pow2(n - 1);
      DoubleProduct(m, q);
      HalveProduct(a, x, m * q);
      y := OddCancels(a, x / 2, n - 1, q);
      DoubleProduct(m, y);
    }
  }

  lemma DoubleProduct(m: nat, q: nat)
    ensures (2 * m) * q == 2 * (m * q)
  {
  }

  lemma HalveProduct(a: nat, x: nat, p: nat)
    requires a % 2 == 1 && a * x == 2 * p
    ensures x % 2 == 0 && a * (x / 2) == p
  {
    OddTimesOdd(a, x);
    DoubleProduct(x / 2, a);
  }

  lemma OddTimesOdd(a: nat, x: nat)
    requires a % 2 == 1
    ensures (a * x) % 2 == x % 2
  {
    var h := a / 2;
    assert a == 2 * h + 1;
    assert a * x == 2 * (h * x) + x;
  }

  lemma AffineInjective(a: nat, b: nat, i: nat, j: nat)
    requires a % 2 == 1 && i <= j < ORB_BITS
    requires (a * i + b) % ORB_BITS == (a * j + b) % ORB_BITS
    ensures i == j
  {
    var x, y := a * i + b, a * j + b;
    assert a * j == a * i + a * (j - i) && a * (j - i) >= 0;
    var q := y / ORB_BITS - x / ORB_BITS;
    assert y - x == ORB_BITS * q;
    assert Pow2(10) == ORB_BITS;
    var z := OddCancels(a, j - i, 10, q);
  }

  /** Every accepted view reads the positions through a permutation. */
  lemma SourceInjective(spec: ViewSpec, i: nat, j: nat)
    requires Accepts(spec) && i < ORB_BITS && j < ORB_BITS && Source(spec, i) == Source(spec, j)
    ensures i == j
  {
    if Affine(spec) {
      if i <= j {
        AffineInjective(spec.a, spec.b, i, j);
      } else {
        AffineInjective(spec.a, spec.b, j, i);
      }
    }
  }

  function SourceOrSelf(spec: ViewSpec): nat -> nat {
    (j: nat) => if j < ORB_BITS then Source(spec, j) else j
  }

  lemma SourceOnto(spec: ViewSpec, i: nat)
    requires Accepts(spec) && i < ORB_BITS
    ensures exists j :: 0 <= j < ORB_BITS && Source(spec, j) == i
  {
    var f := SourceOrSelf(spec);
    forall x: nat, z: nat | x in Below(ORB_BITS) && z in Below(ORB_BITS) && f(x) == f(z)
      ensures x == z
    {
      SourceInjective(spec, x, z);
    }
    InjectionIsOnto(Below(ORB_BITS), f, i);
    var j: nat :| j in Below(ORB_BITS) && f(j) == i;
    assert Source(spec, j) == i;
  }

  // ---- the word-level code ----

  /** `apply_view`. */
  method ApplyView(orb: Orb, spec: ViewSpec) returns (r: Result<Orb, ViewError>)
    ensures r.Ok? <==> spec.kind !in {AffinePermutation, AffineMasked} || spec.a % 2 == 1
    ensures r.Ok? ==> IsView(orb, spec, r.value)
  {
    match spec.kind
    case Identity =>
      return Ok(orb);
    case Reverse =>
      var out := ReverseWords(orb, spec);
      return Ok(out);
    case Rotate =>
      var out := RotateWords(orb, spec);
      return Ok(out);
    case XorMask =>
      var out := MaskWords(orb, spec);
      return Ok(out);
    case AffinePermutation =>
      r := ApplyAffine(orb, spec);
    case AffineMasked =>
      r := ApplyAffine(orb, spec);
  }

  lemma WordView(orb: Orb, spec: ViewSpec, out: Orb)
    requires forall w, k :: 0 <= w < ORB_WORDS && 0 <= k < 64 ==>
      Bit(out[w], k) == (OrbBit(orb, Source(spec, 64 * w + k)) != Masked(spec, 64 * w + k))
    ensures IsView(orb, spec, out)
  {
    forall j | 0 <= j < ORB_BITS
      ensures OrbBit(out, j) == (OrbBit(orb, Source(spec, j)) != Masked(spec, j))
    {
      assert Bit(out[j / 64], j % 64)
        == (OrbBit(orb, Source(spec, 64 * (j / 64) + j % 64)) != Masked(spec, 64 * (j / 64) + j % 64));
    }
  }

  method ReverseWords(orb: Orb, spec: ViewSpec) returns (out: Orb)
    requires spec.kind == Reverse
    ensures IsView(orb, spec, out)
  {
    var words := new Word[ORB_WORDS](_ => 0);
    for dst := 0 to ORB_WORDS
      invariant forall w :: 0 <= w < dst ==> words[w] == ReverseBits(orb[ORB_WORDS - 1 - w])
    {
      words[dst] := ReverseBits(orb[ORB_WORDS - 1 - dst]);
    }
    out := words[..];
    forall w, k | 0 <= w < ORB_WORDS && 0 <= k < 64
      ensures Bit(out[w], k) == (OrbBit(orb, Source(spec, 64 * w + k)) != Masked(spec, 64 * w + k))
    {
      ReverseBit(orb[ORB_WORDS - 1 - w], k);
      var i := ORB_BITS - 1 - (64 * w + k);
      assert i / 64 == 15 - w && i % 64 == 63 - k;
    }
    WordView(orb, spec, out);
  }

  /** One word of a rotation by `r` bits. */
  function RotatedWord(orb: Orb, r: nat, dst: nat): Word
    requires r < ORB_BITS && dst < ORB_WORDS
  {
    var wordShift, bitShift := r / 64, r % 64;
    var a := orb[(dst + wordShift) % 16];
    if bitShift == 0 then a
    else
      var b := orb[(dst + wordShift + 1) % 16];
      ShrShrinks(a, bitShift);
      WordBounds(Shr(a, bitShift), Shl64(b, 64 - bitShift));
      Or(Shr(a, bitShift), Shl64(b, 64 - bitShift))
  }

  /** Word shifts move bit `k` of word `dst` from position `64 * dst + k + r`, cyclically. */
  lemma {:induction false} RotatedBit(orb: Orb, r: nat, dst: nat, k: nat)
    requires r < ORB_BITS && dst < ORB_WORDS && k < 64
    ensures Bit(RotatedWord(orb, r, dst), k) == OrbBit(orb, (64 * dst + k + r) % ORB_BITS)
  {
    var wordShift, bitShift := r / 64, r % 64;
    var a, b := orb[(dst + wordShift) % 16], orb[(dst + wordShift + 1) % 16];
    var i := (64 * dst + k + r) % ORB_BITS;
    if bitShift != 0 {
      OrBit(Shr(a, bitShift), Shl64(b, 64 - bitShift), k);
      ShrBit(a, bitShift, k);
      Shl64Bit(b, 64 - bitShift, k);
      if 64 <= k + bitShift {
        Pow2Of64();
        HighBit(a, 64, k + bitShift);
      }
    }
    RotatedIndex(64 * dst + k, r, i);
    WordIndex(dst + wordShift, k + bitShift, 64 * dst + k + r);
  }

  lemma RotatedIndex(j: nat, r: nat, i: nat)
    requires j < ORB_BITS && r < ORB_BITS && i == (j + r) % ORB_BITS
    ensures i == if j + r < ORB_BITS then j + r else j + r - ORB_BITS
  {
  }

  lemma WordIndex(w: nat, k: nat, n: nat)
    requires n == 64 * w + k && k < 128 && n < 2 * ORB_BITS
    ensures n % ORB_BITS / 64 == if k < 64 then w % 16 else (w + 1) % 16
    ensures n % ORB_BITS % 64 == if k < 64 then k else k - 64
  {
    var c := if k < 64 then w else w + 1;
    var l := if k < 64 then k else k - 64;
    assert n == 64 * c + l;
    if n < ORB_BITS {
      assert c % 16 == c;
    } else {
      assert c % 16 == c - 16;
      assert n % ORB_BITS == 64 * (c - 16) + l;
    }
  }

  method RotateWords(orb: Orb, spec: ViewSpec) returns (out: Orb)
    requires spec.kind == Rotate
    ensures IsView(orb, spec, out)
  {
    var r := spec.b % ORB_BITS;
    if r == 0 {
      out := orb;
      forall j | 0 <= j < ORB_BITS
        ensures Source(spec, j) == j
      {
        NoRotation(j, spec.b);
      }
      return;
    }
    var words := new Word[ORB_WORDS](_ => 0);
    for dst := 0 to ORB_WORDS
      invariant forall w :: 0 <= w < dst ==> words[w] == RotatedWord(orb, r, w)
    {
      words[dst] := RotatedWord(orb, r, dst);
    }
    out := words[..];
    forall w, k | 0 <= w < ORB_WORDS && 0 <= k < 64
      ensures Bit(out[w], k) == (OrbBit(orb, Source(spec, 64 * w + k)) != Masked(spec, 64 * w + k))
    {
      RotatedBit(orb, r, w, k);
      ReducedAmount(64 * w + k, spec.b);
    }
    WordView(orb, spec, out);
  }

  lemma NoRotation(j: nat, b: nat)
    requires j < ORB_BITS && b % ORB_BITS == 0
    ensures (j + b) % ORB_BITS == j
  {
  }

  lemma ReducedAmount(j: nat, b: nat)
    ensures (j + b % ORB_BITS) % ORB_BITS == (j + b) % ORB_BITS
  {
  }

  method MaskWords(orb: Orb, spec: ViewSpec) returns (out: Orb)
    requires spec.kind == XorMask
    ensures IsView(orb, spec, out)
  {
    var words := new Word[ORB_WORDS](i requires 0 <= i < ORB_WORDS => orb[i]);
    for i := 0 to ORB_WORDS
      invariant forall w :: 0 <= w < i ==> words[w] == Xor(orb[w], MaskWord(spec.seed, w))
      invariant forall w :: i <= w < ORB_WORDS ==> words[w] == orb[w]
    {
      WordBounds(words[i], MaskWord(spec.seed, i));
      words[i] := Xor(words[i], MaskWord(spec.seed, i));
    }
    out := words[..];
    forall w, k | 0 <= w < ORB_WORDS && 0 <= k < 64
      ensures Bit(out[w], k) == (OrbBit(orb, Source(spec, 64 * w + k)) != Masked(spec, 64 * w + k))
    {
      XorBit(orb[w], MaskWord(spec.seed, w), k);
      assert (64 * w + k) / 64 == w && (64 * w + k) % 64 == k;
    }
    WordView(orb, spec, out);
  }

  /** Reading one bit of the carrier: `(words[j >> 6] >> (j & 63)) & 1`. */
  function Get(o: Orb, j: nat): (b: bool)
    requires j < ORB_BITS
    ensures b == OrbBit(o, j)
  {
    ReadBit(o, j).value
  }

  method ApplyAffine(orb: Orb, spec: ViewSpec) returns (r: Result<Orb, ViewError>)
    requires Affine(spec)
    ensures r.Ok? <==> Accepts(spec)
    ensures r.Ok? ==> IsView(orb, spec, r.value)
  {
    if spec.a == 0 || spec.a % 2 == 0 {
      return Err(MultiplierNotOdd);
    }
    var out := ZERO_ORB;
    for dst := 0 to ORB_BITS
      invariant forall j :: 0 <= j < dst ==> OrbBit(out, j) == (OrbBit(orb, Source(spec, j)) != Masked(spec, j))
    {
      var src := (spec.a * dst + spec.b) % ORB_BITS;
      var value := Get(orb, src);
      if spec.kind == AffineMasked {
        value := value != Bit(MaskWord(spec.seed, dst / 64), dst % 64);
      }
      out := WriteBit(out, dst, value);
    }
    return Ok(out);
  }

  method InvertAffine(view: Orb, spec: ViewSpec) returns (r: Result<Orb, ViewError>)
    requires Affine(spec)
    ensures r.Ok? <==> Accepts(spec)
    ensures r.Ok? ==> IsInverse(view, spec, r.value)
  {
    if spec.a == 0 || spec.a % 2 == 0 {
      return Err(MultiplierNotOdd);
    }
    var base := ZERO_ORB;
    for dst := 0 to ORB_BITS
      invariant forall j :: 0 <= j < dst ==> OrbBit(base, Source(spec, j)) == (OrbBit(view, j) != Masked(spec, j))
    {
      var value := Get(view, dst);
      if spec.kind == AffineMasked {
        value := value != Bit(MaskWord(spec.seed, dst / 64), dst % 64);
      }
      var src := (spec.a * dst + spec.b) % ORB_BITS;
      forall j | 0 <= j < dst
        ensures Source(spec, j) != src
      {
        if Source(spec, j) == Source(spec, dst) {
          SourceInjective(spec, j, dst);
        }
      }
      base := WriteBit(base, src, value);
    }
    return Ok(base);
  }

  /** `invert_view`. */
  method InvertView(view: Orb, spec: ViewSpec) returns (r: Result<Orb, ViewError>)
    ensures r.Ok? <==> spec.kind !in {AffinePermutation, AffineMasked} || spec.a % 2 == 1
    ensures r.Ok? ==> IsInverse(view, spec, r.value)
  {
    match spec.kind
    case Identity =>
      return Ok(view);
    case Reverse =>
      r := ApplyView(view, spec);
      BackwardsIsInverse(view, spec, spec, r.value);
    case Rotate =>
      var back := RotateSpec((1024 - spec.b % 1024) % 1024);
      r := ApplyView(view, back);
      BackwardsIsInverse(view, spec, back, r.value);
    case XorMask =>
      r := ApplyView(view, spec);
      BackwardsIsInverse(view, spec, spec, r.value);
    case AffinePermutation =>
      r := InvertAffine(view, spec);
    case AffineMasked =>
      r := InvertAffine(view, spec);
  }

  /** Reversal and the mask undo themselves; a rotation is undone by the complementary one. */
  lemma BackwardsIsInverse(view: Orb, spec: ViewSpec, back: ViewSpec, base: Orb)
    requires spec.kind in {Reverse, XorMask} ==> back == spec
    requires spec.kind == Rotate ==> back == RotateSpec((1024 - spec.b % 1024) % 1024)
    requires spec.kind in {Reverse, XorMask, Rotate} && IsView(view, back, base)
    ensures IsInverse(view, spec, base)
  {
    forall j | 0 <= j < ORB_BITS
      ensures OrbBit(base, Source(spec, j)) == (OrbBit(view, j) != Masked(spec, j))
    {
      SourceReturns(spec, back, j);
      var i := Source(spec, j);
      assert OrbBit(base, i) == (OrbBit(view, Source(back, i)) != Masked(back, i));
    }
  }

  lemma SourceReturns(spec: ViewSpec, back: ViewSpec, j: nat)
    requires spec.kind in {Reverse, XorMask} ==> back == spec
    requires spec.kind == Rotate ==> back == RotateSpec((1024 - spec.b % 1024) % 1024)
    requires spec.kind in {Reverse, XorMask, Rotate} && j < ORB_BITS
    ensures Source(back, Source(spec, j)) == j
    ensures Masked(back, Source(spec, j)) == Masked(spec, j)
  {
    if spec.kind == Rotate {
      RotationReturns(j, spec.b, (1024 - spec.b % 1024) % 1024);
    }
  }

  lemma RotationReturns(j: nat, b: nat, back: nat)
    requires j < ORB_BITS && back == (1024 - b % 1024) % 1024
    ensures ((j + b) % ORB_BITS + back % ORB_BITS) % ORB_BITS == j
  {
    var r, i := b % ORB_BITS, (j + b) % ORB_BITS;
    ReducedAmount(j, b);
    RotatedIndex(j, r, i);
    if r != 0 {
      assert back == ORB_BITS - r;
      RotatedIndex(i, back, (i + back) % ORB_BITS);
    }
  }

  // ---- theorems ----

  /** Undoing a view gives the original ORB. */
  lemma InverseUndoesView(orb: Orb, spec: ViewSpec, view: Orb, base: Orb)
    requires Accepts(spec) && IsView(orb, spec, view) && IsInverse(view, spec, base)
    ensures base == orb
  {
    forall i | 0 <= i < ORB_BITS
      ensures OrbBit(base, i) == OrbBit(orb, i)
    {
      SourceOnto(spec, i);
      var j :| 0 <= j < ORB_BITS && Source(spec, j) == i;
    }
    SameOrb(base, orb);
  }

  /** Viewing an undone view gives the view back. */
  lemma ViewUndoesInverse(view: Orb, spec: ViewSpec, base: Orb, again: Orb)
    requires IsInverse(view, spec, base) && IsView(base, spec, again)
    ensures again == view
  {
    SameOrb(again, view);
  }

  /** View then invert, and invert then view, for any raw fields. */
  method RoundTrips(orb: Orb, spec: ViewSpec) returns (there: Result<Orb, ViewError>, back: Result<Orb, ViewError>)
    ensures spec.kind !in {AffinePermutation, AffineMasked} || spec.a % 2 == 1 ==>
      there == Ok(orb) && back == Ok(orb)
    ensures spec.kind in {AffinePermutation, AffineMasked} && spec.a % 2 == 0 ==>
      there == Err(MultiplierNotOdd) && back == Err(MultiplierNotOdd)
  {
    var view := ApplyView(orb, spec);
    var base := InvertView(orb, spec);
    if view.Err? || base.Err? {
      return Err(MultiplierNotOdd), Err(MultiplierNotOdd);
    }
    there := InvertView(view.value, spec);
    InverseUndoesView(orb, spec, view.value, there.value);
    back := ApplyView(base.value, spec);
    ViewUndoesInverse(orb, spec, base.value, back.value);
  }

  /** Applying one spec to both sides leaves the XNOR score unchanged. */
  lemma ScoreIsInvariant(a: Orb, b: Orb, spec: ViewSpec, va: Orb, vb: Orb)
    requires Accepts(spec) && IsView(a, spec, va) && IsView(b, spec, vb)
    ensures Score(va, vb) == Score(a, b)
  {
    var f := SourceOrSelf(spec);
    var s, t := Agree(va, vb), Agree(a, b);
    forall j | j in s
      ensures f(j) in t
    {
      assert OrbBit(va, j) == (OrbBit(a, Source(spec, j)) != Masked(spec, j));
    }
    forall i, j | i in s && j in s && f(i) == f(j)
      ensures i == j
    {
      SourceInjective(spec, i, j);
    }
    forall i | i in t
      ensures exists j :: j in s && f(j) == i
    {
      SourceOnto(spec, i);
      var j :| 0 <= j < ORB_BITS && Source(spec, j) == i;
      assert OrbBit(va, j) == (OrbBit(a, i) != Masked(spec, j));
      assert j in s && f(j) == i;
    }
    BijectionCard(s, t, f);
  }
}
