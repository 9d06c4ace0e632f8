/** The 1024-bit ORB carrier of `gel-orb`: sixteen words, its bit view and its byte image. */
module Orbs {
  import opened Words
  import opened Counting
  import opened Wrappers

  const ORB_BITS: nat := 1024
  const ORB_WORDS: nat := 16
  const ORB_BYTES: nat := 128

  type Orb = o: seq<Word> | |o| == ORB_WORDS witness [0, 0, 0, 0, 0, 0, 0, 0, 0, 0, 0, 0, 0, 0, 0, 0]

  /** Bit `j` of sixteen words, the abstract view of an ORB. */
  predicate OrbBit(o: seq<Word>, j: nat)
    requires j < 64 * |o|
  {
    Bit(o[j / 64], j % 64)
  }

  lemma SameOrb(a: Orb, b: Orb)
    requires forall j :: 0 <= j < ORB_BITS ==> OrbBit(a, j) == OrbBit(b, j)
    ensures a == b
  {
    Pow2Of64();
    forall w | 0 <= w < ORB_WORDS
      ensures a[w] == b[w]
    {
      forall i | 0 <= i < 64
        ensures Bit(a[w], i) == Bit(b[w], i)
      {
        var j := 64 * w + i;
        assert j / 64 == w && j % 64 == i;
        assert OrbBit(a, j) == OrbBit(b, j);
      }
      SameLowBits(a[w], b[w], 64);
    }
  }

  // ---- counting differing positions ----

  /** The positions below `n` at which two bit strings differ. */
  function Differ(a: seq<Word>, b: seq<Word>, n: nat): set<nat>
    requires n <= 64 * |a| && n <= 64 * |b|
  {
    set j: nat | j < n && OrbBit(a, j) != OrbBit(b, j)
  }

  /** The positions at which two ORBs agree. */
  function Agree(a: Orb, b: Orb): set<nat> {
    set j: nat | j < ORB_BITS && OrbBit(a, j) == OrbBit(b, j)
  }

  /** Per-bit agreement count: the meaning of the XNOR score. */
  function Score(a: Orb, b: Orb): nat {
    |Agree(a, b)|
  }

  lemma AgreeDiffer(a: Orb, b: Orb)
    ensures Score(a, b) + |Differ(a, b, ORB_BITS)| == ORB_BITS
  {
    assert Below(ORB_BITS) == Agree(a, b) + Differ(a, b, ORB_BITS);
    assert Agree(a, b) !! Differ(a, b, ORB_BITS);
  }

  function Ones(w: nat, n: nat): set<nat> {
    set i: nat | i < n && Bit(w, i)
  }

  lemma {:induction false} PopCountOnes(w: nat, n: nat)
    requires w < Pow2(n)
    ensures PopCount(w) == |Ones(w, n)|
  {
    if n == 0 {
      assert Ones(w, n) == {};
    } else {
      PopCountOnes(w / 2, n - 1);
      var shifted := set i | i in Ones(w, n) && i != 0;
      var half := Ones(w / 2, n - 1);
      var next := (i: nat) => i + 1;
      forall y | y in shifted
        ensures exists x :: x in half && next(x) == y
      {
        assert y - 1 in half && next(y - 1) == y;
      }
      BijectionCard(half, shifted, next);
      if w % 2 == 1 {
        assert Ones(w, n) == shifted + {0};
      } else {
        assert Ones(w, n) == shifted;
      }
    }
  }

  /** Population count of the XOR of two word slices, word by word as `zip` pairs them. */
  function MismatchWords(a: seq<Word>, b: seq<Word>): nat {
    if |a| == 0 || |b| == 0 then 0
    else PopCount(Xor(a[0], b[0])) + MismatchWords(a[1..], b[1..])
  }

  lemma {:induction false} MismatchAppend(a: seq<Word>, b: seq<Word>, c: seq<Word>, d: seq<Word>)
    requires |a| == |b|
    ensures MismatchWords(a + c, b + d) == MismatchWords(a, b) + MismatchWords(c, d)
  {
    if a == [] {
      assert a + c == c && b + d == d;
    } else {
      MismatchAppend(a[1..], b[1..], c, d);
      assert (a + c)[1..] == a[1..] + c && (b + d)[1..] == b[1..] + d;
    }
  }

  lemma WordDiffer(a: seq<Word>, b: seq<Word>, k: nat)
    requires k < |a| && k < |b|
    ensures |Differ(a, b, 64 * (k + 1))| == |Differ(a, b, 64 * k)| + PopCount(Xor(a[k], b[k]))
  {
    var x := Xor(a[k], b[k]);
    Pow2Of64();
    XorBound(a[k], b[k], 64);
    PopCountOnes(x, 64);
    var upper, lower := Differ(a, b, 64 * (k + 1)), Differ(a, b, 64 * k);
    var here := set j | j in upper && j !in lower;
    WordPositions(a, b, k, x, here);
    assert upper == lower + here;
  }

  lemma WordPositions(a: seq<Word>, b: seq<Word>, k: nat, x: nat, here: set<nat>)
    requires k < |a| && k < |b| && x == Xor(a[k], b[k])
    requires forall j: nat :: j in here <==> 64 * k <= j < 64 * (k + 1) && OrbBit(a, j) != OrbBit(b, j)
    ensures |here| == |Ones(x, 64)|
  {
    var place := (i: nat) => 64 * k + i;
    forall i: nat | i < 64
      ensures i in Ones(x, 64) <==> place(i) in here
    {
      XorBit(a[k], b[k], i);
      assert place(i) / 64 == k && place(i) % 64 == i;
    }
    forall j | j in here
      ensures exists i :: i in Ones(x, 64) && place(i) == j
    {
      assert place(j - 64 * k) == j;
      assert j - 64 * k in Ones(x, 64);
    }
    BijectionCard(Ones(x, 64), here, place);
  }

  /** Word-level popcounts count differing bits. */
  lemma {:induction false} MismatchIsDiffer(a: seq<Word>, b: seq<Word>, k: nat)
    requires k <= |a| && k <= |b|
    ensures MismatchWords(a[..k], b[..k]) == |Differ(a, b, 64 * k)|
  {
    if k == 0 {
      assert Differ(a, b, 0) == {};
    } else {
      MismatchIsDiffer(a, b, k - 1);
      WordDiffer(a, b, k - 1);
      assert a[..k] == a[..k - 1] + [a[k - 1]] && b[..k] == b[..k - 1] + [b[k - 1]];
      MismatchAppend(a[..k - 1], b[..k - 1], [a[k - 1]], [b[k - 1]]);
    }
  }

  lemma DifferMono(a: Orb, b: Orb, m: nat, n: nat)
    requires m <= n <= ORB_BITS
    ensures |Differ(a, b, m)| <= |Differ(a, b, n)| <= n
  {
    SubsetCard(Differ(a, b, m), Differ(a, b, n));
    SubsetCard(Differ(a, b, n), Below(n));
  }

  /** `Orb1024::hamming_distance`. */
  function HammingDistance(a: Orb, b: Orb): (d: nat)
    ensures d == |Differ(a, b, ORB_BITS)| && d <= ORB_BITS
    ensures d + Score(a, b) == ORB_BITS
  {
    MismatchIsDiffer(a, b, ORB_WORDS);
    AgreeDiffer(a, b);
    DifferMono(a, b, 0, ORB_BITS);
    assert a[..ORB_WORDS] == a && b[..ORB_WORDS] == b;
    MismatchWords(a, b)
  }

  // ---- single bits ----

  /** `word |= mask` or `word &= !mask` with `mask = 1 << k`. */
  function PutBit(w: Word, k: nat, value: bool): (r: Word)
    requires k < 64
    ensures forall i: nat :: Bit(r, i) == (if i == k then value else Bit(w, i))
  {
    var mask: nat := Shl64(1, k);
    assert forall i: nat :: Bit(mask, i) == (i == k) by {
      forall i: nat
        ensures Bit(mask, i) == (i == k)
      {
        Shl64Bit(1, k, i);
        if k < i {
          ZeroBit(i - k - 1);
        }
      }
    }
    Pow2Of64();
    WordBounds(w, mask);
    WordBounds(w, Not64(mask));
    var r := if value then Or(w, mask) else And(w, Not64(mask));
    assert forall i: nat :: Bit(r, i) == (if i == k then value else Bit(w, i)) by {
      forall i: nat
        ensures Bit(r, i) == (if i == k then value else Bit(w, i))
      {
        OrBit(w, mask, i);
        AndBit(w, Not64(mask), i);
        NotBit(mask, 64, i);
        if 64 <= i {
          HighBit(w, 64, i);
        }
      }
    }
    r
  }

  datatype OrbError = BitOutside | WrongLength(expected: nat, actual: nat)

  /** `Orb1024::bit`. */
  function ReadBit(o: Orb, index: nat): (r: Result<bool, OrbError>)
    ensures r.Ok? <==> index < ORB_BITS
    ensures index < ORB_BITS ==> r.value == OrbBit(o, index)
  {
    if index >= ORB_BITS then Err(BitOutside)
    else
      ShrBit(o[index / 64], index % 64, 0);
      AndBit(Shr(o[index / 64], index % 64), 1, 0);
      AndBound(1, Shr(o[index / 64], index % 64), 1);
      AndComm(1, Shr(o[index / 64], index % 64));
      Ok(And(Shr(o[index / 64], index % 64), 1) != 0)
  }

  /** `set`: one position written, for an index in range. */
  function WriteBit(o: Orb, j: nat, value: bool): (r: Orb)
    requires j < ORB_BITS
    ensures forall i :: 0 <= i < ORB_BITS ==> OrbBit(r, i) == (if i == j then value else OrbBit(o, i))
  {
    o[j / 64 := PutBit(o[j / 64], j % 64, value)]
  }

  /** `Orb1024::set_bit`. */
  function SetBit(o: Orb, index: nat, value: bool): (r: Result<Orb, OrbError>)
    ensures r.Ok? <==> index < ORB_BITS
    ensures r.Ok? ==> forall i :: 0 <= i < ORB_BITS ==>
      OrbBit(r.value, i) == (if i == index then value else OrbBit(o, i))
  {
    if index >= ORB_BITS then Err(BitOutside) else Ok(WriteBit(o, index, value))
  }

  const ZERO_ORB: Orb := [0, 0, 0, 0, 0, 0, 0, 0, 0, 0, 0, 0, 0, 0, 0, 0]

  lemma ZeroOrbBits()
    ensures forall j :: 0 <= j < ORB_BITS ==> !OrbBit(ZERO_ORB, j)
  {
    forall j | 0 <= j < ORB_BITS
      ensures !OrbBit(ZERO_ORB, j)
    {
      ZeroBit(j % 64);
    }
  }
}
