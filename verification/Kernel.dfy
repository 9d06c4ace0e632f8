/** The contingency table and the local agreement views of `gel-kernel`. */
module Kernel {
  import opened Words
  import opened Counting
  import opened Orbs

  /** The positions below `n` where `a` reads `x` and `b` reads `y`. */
  function Joint(a: Orb, b: Orb, x: bool, y: bool, n: nat): set<nat>
    requires n <= ORB_BITS
  {
    set j: nat | j < n && OrbBit(a, j) == x && OrbBit(b, j) == y
  }

  /** The word whose set bits are the places where `v` reads `x` and `w` reads `y`. */
  function Cell(v: Word, w: Word, x: bool, y: bool): (c: nat)
    ensures c < TWO64
  {
    WordBounds(v, w);
    WordBounds(v, Not64(w));
    WordBounds(Not64(v), w);
    if x && y then And(v, w)
    else if x then And(v, Not64(w))
    else if y then And(Not64(v), w)
    else Not64(Or(v, w))
  }

  lemma {:induction false} CellBit(v: Word, w: Word, x: bool, y: bool, i: nat)
    requires i < 64
    ensures Bit(Cell(v, w, x, y), i) <==> Bit(v, i) == x && Bit(w, i) == y
  {
    Pow2Of64();
    WordBounds(v, w);
    AndBit(v, w, i);
    AndBit(v, Not64(w), i);
    AndBit(Not64(v), w, i);
    OrBit(v, w, i);
    NotBit(v, 64, i);
    NotBit(w, 64, i);
    NotBit(Or(v, w), 64, i);
  }

  /** One more word adds its cell count. */
  lemma JointWord(a: Orb, b: Orb, x: bool, y: bool, k: nat)
    requires k < ORB_WORDS
    ensures |Joint(a, b, x, y, 64 * (k + 1))| ==
      |Joint(a, b, x, y, 64 * k)| + PopCount(Cell(a[k], b[k], x, y))
  {
    hide PopCount, Pow2;
    var upper, lower := Joint(a, b, x, y, 64 * (k + 1)), Joint(a, b, x, y, 64 * k);
    var here := set j | j in upper && j !in lower;
    var cell := Cell(a[k], b[k], x, y);
    Pow2Of64();
    PopCountOnes(cell, 64);
    CellPositions(a, b, x, y, k, cell, here);
    assert upper == lower + here;
  }

  lemma CellPositions(a: Orb, b: Orb, x: bool, y: bool, k: nat, cell: nat, here: set<nat>)
    requires k < ORB_WORDS && cell == Cell(a[k], b[k], x, y)
    requires forall j: nat :: j in here <==> 64 * k <= j < 64 * (k + 1) && OrbBit(a, j) == x && OrbBit(b, j) == y
    ensures |here| == |Ones(cell, 64)|
  {
    var place := (i: nat) => 64 * k + i;
    forall i: nat | i < 64
      ensures i in Ones(cell, 64) <==> place(i) in here
    {
      CellBit(a[k], b[k], x, y, i);
      assert place(i) / 64 == k && place(i) % 64 == i;
    }
    forall j | j in here
      ensures exists i :: i in Ones(cell, 64) && place(i) == j
    {
      assert place(j - 64 * k) == j;
      assert j - 64 * k in Ones(cell, 64);
    }
    BijectionCard(Ones(cell, 64), here, place);
  }

  datatype Contingency = Contingency(n00: nat, n01: nat, n10: nat, n11: nat)

  /** The joint counts of the first `n` positions. */
  ghost predicate IsTable(t: Contingency, a: Orb, b: Orb, n: nat)
    requires n <= ORB_BITS
  {
    && t.n11 == |Joint(a, b, true, true, n)| && t.n10 == |Joint(a, b, true, false, n)|
    && t.n01 == |Joint(a, b, false, true, n)| && t.n00 == |Joint(a, b, false, false, n)|
  }

  /** `contingency`: the four joint counts over all positions. */
  method ContingencyOf(a: Orb, b: Orb) returns (t: Contingency)
    ensures IsTable(t, a, b, ORB_BITS)
  {
    t := Contingency(0, 0, 0, 0);
    for k := 0 to ORB_WORDS
      invariant IsTable(t, a, b, 64 * k)
    {
      JointWord(a, b, true, true, k);
      JointWord(a, b, true, false, k);
      JointWord(a, b, false, true, k);
      JointWord(a, b, false, false, k);
      t := Contingency(
        t.n00 + PopCount(Not64Or(a[k], b[k])),
        t.n01 + PopCount(And(Not64(a[k]), b[k])),
        t.n10 + PopCount(And(a[k], Not64(b[k]))),
        t.n11 + PopCount(And(a[k], b[k])));
    }
  }

  function Not64Or(v: Word, w: Word): Word {
    WordBounds(v, w);
    Not64(Or(v, w))
  }

  function SetBits(a: Orb): set<nat> {
    set j: nat | j < ORB_BITS && OrbBit(a, j)
  }

  /** The accessors: total, agreements, disagreements and the two marginals. No count can
      overflow its sixteen bits, since all are at most 1024. */
  lemma TableAccounts(t: Contingency, a: Orb, b: Orb)
    requires IsTable(t, a, b, ORB_BITS)
    ensures t.n00 + t.n01 + t.n10 + t.n11 == ORB_BITS
    ensures t.n00 + t.n11 == Score(a, b) && t.n01 + t.n10 == HammingDistance(a, b)
    ensures t.n10 + t.n11 == |SetBits(a)|
    ensures t.n01 + t.n11 == |SetBits(b)|
  {
    var c00, c01 := Joint(a, b, false, false, ORB_BITS), Joint(a, b, false, true, ORB_BITS);
    var c10, c11 := Joint(a, b, true, false, ORB_BITS), Joint(a, b, true, true, ORB_BITS);
    SplitCard(Agree(a, b), c00, c11);
    SplitCard(Differ(a, b, ORB_BITS), c01, c10);
    SplitCard(SetBits(a), c10, c11);
    SplitCard(SetBits(b), c01, c11);
    AgreeDiffer(a, b);
  }

  /** The agreements inside the 128 positions of one group. */
  function LocalAgree(a: Orb, b: Orb, g: nat): set<nat>
    requires g < 8
  {
    set j | j in Agree(a, b) && 128 * g <= j < 128 * (g + 1)
  }

  /** Agreements and disagreements fill each window of 128 positions. */
  lemma WindowCount(a: Orb, b: Orb, g: nat)
    requires g < 8
    ensures |LocalAgree(a, b, g)| + |Differ(a, b, 128 * (g + 1))| == |Differ(a, b, 128 * g)| + 128
  {
    var upper, lower := Differ(a, b, 128 * (g + 1)), Differ(a, b, 128 * g);
    var here := set j | j in upper && j !in lower;
    var window := set j | j in Below(128 * (g + 1)) && j !in Below(128 * g);
    SplitCard(upper, lower, here);
    SplitCard(Below(128 * (g + 1)), Below(128 * g), window);
    SplitCard(window, here, LocalAgree(a, b, g));
  }

  /** `subspace_xnor8`: slot `g` counts the agreements of its own 128 positions. */
  method SubspaceXnor8(a: Orb, b: Orb) returns (slots: array<nat>)
    ensures slots.Length == 8
    ensures forall g :: 0 <= g < 8 ==> slots[g] == |LocalAgree(a, b, g)|
    ensures forall g :: 0 <= g < 8 ==>
      slots[g] == |set j: nat | 128 * g <= j < 128 * g + 128 && OrbBit(a, j) == OrbBit(b, j)|
  {
    slots := new nat[8](_ => 0);
    for g := 0 to 8
      invariant forall k :: 0 <= k < g ==> slots[k] == |LocalAgree(a, b, k)|
    {
      var i := 2 * g;
      var d := PopCount(Xor(a[i], b[i])) + PopCount(Xor(a[i + 1], b[i + 1]));
      WordDiffer(a, b, i);
      WordDiffer(a, b, i + 1);
      WindowCount(a, b, g);
      slots[g] := 128 - d;
    }
    forall g | 0 <= g < 8
      ensures LocalAgree(a, b, g) == set j: nat | 128 * g <= j < 128 * g + 128 && OrbBit(a, j) == OrbBit(b, j)
    {
    }
  }

  /** The eight local views add up to the score. */
  lemma {:induction false} LocalViewsPartition(a: Orb, b: Orb, slots: seq<nat>)
    requires |slots| == 8
    requires forall k :: 0 <= k < 8 ==> slots[k] == |LocalAgree(a, b, k)|
    ensures Sum(slots) == Score(a, b)
  {
    PrefixSum(a, b, slots, 8);
    assert slots[..8] == slots;
    AgreeDiffer(a, b);
  }

  lemma {:induction false} PrefixSum(a: Orb, b: Orb, slots: seq<nat>, g: nat)
    requires g <= 8 && |slots| == 8
    requires forall k :: 0 <= k < 8 ==> slots[k] == |LocalAgree(a, b, k)|
    ensures Sum(slots[..g]) + |Differ(a, b, 128 * g)| == 128 * g
  {
    if g == 0 {
      assert Differ(a, b, 0) == {};
    } else {
      PrefixSum(a, b, slots, g - 1);
      WindowCount(a, b, g - 1);
      assert slots[..g][..g - 1] == slots[..g - 1];
    }
  }
}
