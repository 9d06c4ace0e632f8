/** The Q8 phase quad of `gel-phase-quad`: one canonical record, four reversible views, one
    difference histogram. Scores are a fixed reduction of the histogram and the denominator,
    so equal histograms and denominators mean equal scores. */
module PhaseQuad {
  import opened Words
  import opened Mixing
  import opened Counting
  import opened Orbs
  import opened Wrappers

  const DIM: nat := 1024

  type Carrier = x: seq<Byte> | |x| == DIM witness seq(DIM, _ => 0)
  type Activity = m: seq<bool> | |m| == DIM witness seq(DIM, _ => false)

  datatype GridError = UnsupportedLevels | SymbolOutsideGrid | PoleOutsideRange | UnsupportedDescriptor | SeedMismatch

  // ---- the grid ----

  datatype Grid = Grid(levels: nat, seed: Word, offsets: Carrier)

  predicate ValidGrid(g: Grid) {
    g.levels in {5, 256} && forall j :: 0 <= j < DIM ==> g.offsets[j] < g.levels
  }

  class Rng {
    var state: Word

    constructor (seed: Word)
      ensures state == seed
    {
      state := seed;
    }

    /** One step of `splitmix64`. */
    method NextU64() returns (z: Word)
      modifies this
      ensures state == NextState(old(state)) && z == SplitMix64(old(state))
    {
      state := (state + 0x9E37_79B9_7F4A_7C15) % TWO64;
      z := state;
      z := WrapMul(XorShift(z, 30), 0xBF58_476D_1CE4_E5B9);
      z := WrapMul(XorShift(z, 27), 0x94D0_49BB_1331_11EB);
      z := XorShift(z, 31);
    }
  }

  /** The state of the generator after `j` draws. */
  function Drawn(seed: Word, j: nat): Word {
    if j == 0 then seed else NextState(Drawn(seed, j - 1))
  }

  /** The state is a multiple of the golden gamma away from the seed. */
  lemma {:induction false} DrawnState(seed: Word, j: nat)
    ensures Drawn(seed, j) == (seed + j * GOLDEN_GAMMA) % TWO64
  {
    if j != 0 {
      DrawnState(seed, j - 1);
      WrapAdd(seed + (j - 1) * GOLDEN_GAMMA, GOLDEN_GAMMA);
    }
  }

  /** Offset `j` of a grid: the `j`-th draw, reduced to a symbol. */
  function OffsetAt(levels: nat, seed: Word, j: nat): (o: Byte)
    requires levels in {5, 256}
    ensures o < levels
  {
    SplitMix64(Drawn(seed, j)) % levels
  }

  method NextOffset(rng: Rng, levels: nat, ghost seed: Word, ghost j: nat) returns (o: Byte)
    requires levels in {5, 256} && rng.state == Drawn(seed, j)
    modifies rng
    ensures rng.state == Drawn(seed, j + 1) && o == OffsetAt(levels, seed, j)
  {
    var z := rng.NextU64();
    return z % levels;
  }

  /** `Grid::new`: only 5 or 256 levels, and offsets drawn from the generator in order. */
  method NewGrid(levels: nat, seed: Word) returns (r: Result<Grid, GridError>)
    ensures r.Ok? <==> levels in {5, 256}
    ensures r.Ok? ==> ValidGrid(r.value) && r.value.levels == levels && r.value.seed == seed
    ensures r.Ok? ==> forall j :: 0 <= j < DIM ==>
      r.value.offsets[j] == SplitMix64((seed + j * GOLDEN_GAMMA) % TWO64) % levels
  {
    if levels !in {5, 256} {
      return Err(UnsupportedLevels);
    }
    var rng := new Rng(seed);
    var offsets: seq<Byte> := [];
    while |offsets| < DIM
      invariant |offsets| <= DIM && rng.state == Drawn(seed, |offsets|)
      invariant forall j :: 0 <= j < |offsets| ==> offsets[j] == OffsetAt(levels, seed, j)
    {
      var o := NextOffset(rng, levels, seed, |offsets|);
      offsets := offsets + [o];
    }
    forall j | 0 <= j < DIM
      ensures offsets[j] == SplitMix64((seed + j * GOLDEN_GAMMA) % TWO64) % levels
    {
      DrawnState(seed, j);
    }
    return Ok(Grid(levels, seed, offsets));
  }

  predicate ValidSymbols(g: Grid, x: Carrier) {
    forall j :: 0 <= j < DIM ==> x[j] < g.levels
  }

  function Mirror(pole: nat, j: nat): (i: nat)
    requires j < DIM
    ensures i < DIM
  {
    if pole / 2 % 2 == 1 then DIM - 1 - j else j
  }

  function Offset(g: Grid, pole: nat, j: nat): nat
    requires j < DIM
  {
    if pole % 2 == 1 then g.offsets[j] else 0
  }

  /** `Grid::view`. */
  function GridView(g: Grid, x: Carrier, pole: nat): Result<Carrier, GridError>
    requires ValidGrid(g)
  {
    if !ValidSymbols(g, x) then Err(SymbolOutsideGrid)
    else if pole > 3 then Err(PoleOutsideRange)
    else Ok(ViewOf(g, x, pole))
  }

  function ViewOf(g: Grid, x: Carrier, pole: nat): Carrier
    requires ValidGrid(g)
  {
    seq(DIM, j requires 0 <= j < DIM => (x[Mirror(pole, j)] + Offset(g, pole, j)) % g.levels)
  }

  /** `Grid::invert`. */
  function GridInvert(g: Grid, view: Carrier, pole: nat): Result<Carrier, GridError>
    requires ValidGrid(g)
  {
    if !ValidSymbols(g, view) then Err(SymbolOutsideGrid)
    else if pole > 3 then Err(PoleOutsideRange)
    else Ok(InverseOf(g, view, pole))
  }

  function InverseOf(g: Grid, view: Carrier, pole: nat): Carrier
    requires ValidGrid(g)
  {
    seq(DIM, i requires 0 <= i < DIM =>
      (view[Mirror(pole, i)] + g.levels - Offset(g, pole, Mirror(pole, i))) % g.levels)
  }

  /** `Grid::support_view`. */
  function SupportView(active: Activity, pole: nat): Result<Activity, GridError> {
    if pole > 3 then Err(PoleOutsideRange) else Ok(MirroredActivity(active, pole))
  }

  function MirroredActivity(active: Activity, pole: nat): Activity {
    seq(DIM, i requires 0 <= i < DIM => active[Mirror(pole, i)])
  }

  /** One wrap at most. */
  lemma ModOnce(n: nat, levels: nat)
    requires levels in {5, 256} && n < 2 * levels
    ensures n % levels == if n < levels then n else n - levels
  {
    if levels == 5 {
      assert n % 5 == if n < 5 then n else n - 5;
    } else {
      assert n % 256 == if n < 256 then n else n - 256;
    }
  }

  lemma OffsetCancels(x: nat, o: nat, levels: nat)
    requires levels in {5, 256} && x < levels && o < levels
    ensures ((x + o) % levels + levels - o) % levels == x
    ensures ((x + levels - o) % levels + o) % levels == x
  {
    ModOnce(x + o, levels);
    ModOnce((x + o) % levels + levels - o, levels);
    ModOnce(x + levels - o, levels);
    ModOnce((x + levels - o) % levels + o, levels);
  }

  /** Inverting a view gives the symbols back, and viewing an inverse gives the view back. */
  lemma GridRoundTrip(g: Grid, x: Carrier, pole: nat)
    requires ValidGrid(g) && ValidSymbols(g, x) && pole <= 3
    ensures GridView(g, x, pole).Ok? && GridInvert(g, GridView(g, x, pole).value, pole) == Ok(x)
    ensures GridInvert(g, x, pole).Ok? && GridView(g, GridInvert(g, x, pole).value, pole) == Ok(x)
  {
    var view, base := ViewOf(g, x, pole), InverseOf(g, x, pole);
    forall j | 0 <= j < DIM
      ensures view[j] < g.levels && InverseOf(g, view, pole)[j] == x[j]
      ensures base[j] < g.levels && ViewOf(g, base, pole)[j] == x[j]
    {
      SymbolReturns(g, x, pole, j);
      InverseReturns(g, x, pole, j);
    }
    assert InverseOf(g, view, pole) == x;
    assert ViewOf(g, base, pole) == x;
  }

  /** One symbol of a view and of its inverse. */
  lemma SymbolAt(g: Grid, x: Carrier, pole: nat, j: nat)
    requires ValidGrid(g) && j < DIM
    ensures ViewOf(g, x, pole)[j] == (x[Mirror(pole, j)] + Offset(g, pole, j)) % g.levels
    ensures InverseOf(g, x, pole)[j] == (x[Mirror(pole, j)] + g.levels - Offset(g, pole, Mirror(pole, j))) % g.levels
  {
  }

  lemma SymbolReturns(g: Grid, x: Carrier, pole: nat, j: nat)
    requires ValidGrid(g) && ValidSymbols(g, x) && j < DIM
    ensures ViewOf(g, x, pole)[j] < g.levels && InverseOf(g, ViewOf(g, x, pole), pole)[j] == x[j]
  {
    var i, view := Mirror(pole, j), ViewOf(g, x, pole);
    assert Mirror(pole, i) == j;
    SymbolInRange(g, x, pole, j);
    OffsetCancels(x[j], Offset(g, pole, i), g.levels);
    SymbolAt(g, x, pole, i);
    SymbolAt(g, view, pole, j);
    hide *;
  }

  lemma InverseReturns(g: Grid, x: Carrier, pole: nat, j: nat)
    requires ValidGrid(g) && ValidSymbols(g, x) && j < DIM
    ensures InverseOf(g, x, pole)[j] < g.levels && ViewOf(g, InverseOf(g, x, pole), pole)[j] == x[j]
  {
    var i, base := Mirror(pole, j), InverseOf(g, x, pole);
    assert Mirror(pole, i) == j;
    SymbolInRange(g, x, pole, j);
    OffsetCancels(x[j], Offset(g, pole, j), g.levels);
    SymbolAt(g, base, pole, j);
    SymbolAt(g, x, pole, i);
    hide *;
  }

  lemma SymbolInRange(g: Grid, x: Carrier, pole: nat, j: nat)
    requires ValidGrid(g) && ValidSymbols(g, x) && j < DIM
    ensures ViewOf(g, x, pole)[j] < g.levels && InverseOf(g, x, pole)[j] < g.levels
  {
    ModOnce(x[Mirror(pole, j)] + Offset(g, pole, j), g.levels);
    ModOnce(x[Mirror(pole, j)] + g.levels - Offset(g, pole, Mirror(pole, j)), g.levels);
  }

  lemma ViewSymbol(g: Grid, x: Carrier, pole: nat, j: nat)
    requires ValidGrid(g) && ValidSymbols(g, x) && pole <= 3 && j < 1024
    ensures ViewOf(g, x, pole)[j] ==
      if pole == 0 then x[j]
      else if pole == 1 then (x[j] + g.offsets[j]) % g.levels
      else if pole == 2 then x[1023 - j]
      else (x[1023 - j] + g.offsets[j]) % g.levels
  {
    ModOnce(x[Mirror(pole, j)], g.levels);
  }

  /** Which view each pole takes: the carrier itself, the offsets added, the reversal, and both. */
  lemma PolesAreDistinct(g: Grid, x: Carrier, pole: nat)
    requires ValidGrid(g)
    ensures var fits := forall j :: 0 <= j < 1024 ==> x[j] < g.levels;
      && (!fits ==> GridView(g, x, pole) == Err(SymbolOutsideGrid))
      && (fits && pole > 3 ==> GridView(g, x, pole) == Err(PoleOutsideRange))
      && (fits && pole <= 3 ==> GridView(g, x, pole).Ok?)
    ensures GridView(g, x, pole).Ok? ==>
      forall j :: 0 <= j < 1024 ==>
        GridView(g, x, pole).value[j] ==
          if pole == 0 then x[j]
          else if pole == 1 then (x[j] + g.offsets[j]) % g.levels
          else if pole == 2 then x[1023 - j]
          else (x[1023 - j] + g.offsets[j]) % g.levels
  {
    OffsetsFit(g);
    hide ViewOf, ValidGrid;
    if GridView(g, x, pole).Ok? {
      forall j: nat | j < 1024
        ensures ViewOf(g, x, pole)[j] ==
          if pole == 0 then x[j]
          else if pole == 1 then (x[j] + g.offsets[j]) % g.levels
          else if pole == 2 then x[1023 - j]
          else (x[1023 - j] + g.offsets[j]) % g.levels
      {
        ViewSymbol(g, x, pole, j);
      }
    }
  }

  lemma InverseSymbol(g: Grid, view: Carrier, pole: nat, i: nat)
    requires ValidGrid(g) && ValidSymbols(g, view) && pole <= 3 && i < 1024
    ensures InverseOf(g, view, pole)[i] ==
      if pole == 0 then view[i]
      else if pole == 1 then (view[i] + g.levels - g.offsets[i]) % g.levels
      else if pole == 2 then view[1023 - i]
      else (view[1023 - i] + g.levels - g.offsets[1023 - i]) % g.levels
  {
    ModOnce(view[Mirror(pole, i)] + g.levels, g.levels);
  }

  /** An inverse takes the offset off where the view put it on. */
  lemma InversesAreDistinct(g: Grid, view: Carrier, pole: nat)
    requires ValidGrid(g)
    ensures var fits := forall j :: 0 <= j < 1024 ==> view[j] < g.levels;
      && (!fits ==> GridInvert(g, view, pole) == Err(SymbolOutsideGrid))
      && (fits && pole > 3 ==> GridInvert(g, view, pole) == Err(PoleOutsideRange))
      && (fits && pole <= 3 ==> GridInvert(g, view, pole).Ok?)
    ensures GridInvert(g, view, pole).Ok? ==>
      forall i :: 0 <= i < 1024 ==>
        GridInvert(g, view, pole).value[i] ==
          if pole == 0 then view[i]
          else if pole == 1 then (view[i] + g.levels - g.offsets[i]) % g.levels
          else if pole == 2 then view[1023 - i]
          else (view[1023 - i] + g.levels - g.offsets[1023 - i]) % g.levels
  {
    OffsetsFit(g);
    hide InverseOf, ValidGrid;
    if GridInvert(g, view, pole).Ok? {
      forall i: nat | i < 1024
        ensures InverseOf(g, view, pole)[i] ==
          if pole == 0 then view[i]
          else if pole == 1 then (view[i] + g.levels - g.offsets[i]) % g.levels
          else if pole == 2 then view[1023 - i]
          else (view[1023 - i] + g.levels - g.offsets[1023 - i]) % g.levels
      {
        InverseSymbol(g, view, pole, i);
      }
    }
  }

  lemma OffsetsFit(g: Grid)
    requires ValidGrid(g)
    ensures g.levels > 0 && forall j :: 0 <= j < 1024 ==> g.offsets[j] < g.levels
  {
  }

  /** The activity stays at the poles 0 and 1 and is reversed at 2 and 3. */
  lemma SupportIsMirrored(active: Activity, pole: nat)
    ensures SupportView(active, pole).Ok? <==> pole <= 3
    ensures SupportView(active, pole).Err? ==> SupportView(active, pole).error == PoleOutsideRange
    ensures pole <= 1 ==> SupportView(active, pole) == Ok(active)
    ensures pole in {2, 3} ==> forall j :: 0 <= j < 1024 ==> SupportView(active, pole).value[j] == active[1023 - j]
  {
    if pole <= 1 {
      assert MirroredActivity(active, pole) == active;
    }
  }

  // ---- difference histograms ----

  /** Symbol difference on a grid; at 256 levels this is `wrapping_sub`. */
  function Diff(levels: nat, x: nat, y: nat): nat
    requires levels > 0 && y <= levels
  {
    (x + levels - y) % levels
  }

  /** The positions that land in bucket `d`. */
  function Hits(levels: nat, x: Carrier, y: Carrier, active: Activity, mask: Activity, d: nat): set<nat>
    requires levels in {5, 256} && forall j :: 0 <= j < DIM ==> y[j] < levels
  {
    set j: nat | j < DIM && active[j] && mask[j] && Diff(levels, x[j], y[j]) == d
  }

  predicate IsHistogram(levels: nat, x: Carrier, y: Carrier, active: Activity, mask: Activity, hist: seq<nat>)
    requires levels in {5, 256} && forall j :: 0 <= j < DIM ==> y[j] < levels
  {
    |hist| == 256 && forall d :: 0 <= d < 256 ==> hist[d] == |Hits(levels, x, y, active, mask, d)|
  }

  lemma WrapOnce(n: nat, levels: nat, r: nat)
    requires levels in {5, 256} && n < 2 * levels && r == n % levels
    ensures r == (if n < levels then n else n - levels) < levels
  {
    ModOnce(n, levels);
  }

  lemma DiffOnce(levels: nat, x: nat, y: nat)
    requires levels in {5, 256} && x < levels && y < levels
    ensures Diff(levels, x, y) == if y <= x then x - y else x + levels - y
  {
    ModOnce(x + levels - y, levels);
  }

  lemma SameOffsetSameDiff(levels: nat, x: nat, y: nat, o: nat)
    requires levels in {5, 256} && x < levels && y < levels && o < levels
    ensures Diff(levels, (x + o) % levels, (y + o) % levels) == Diff(levels, x, y)
  {
    hide Diff;
    var vx, vy := (x + o) % levels, (y + o) % levels;
    WrapOnce(x + o, levels, vx);
    WrapOnce(y + o, levels, vy);
    DiffOnce(levels, vx, vy);
    DiffOnce(levels, x, y);
  }

  /** At every position the two views differ as the originals do at the mirrored position. */
  lemma PoleKeepsDiff(g: Grid, x: Carrier, y: Carrier, pole: nat, j: nat)
    requires ValidGrid(g) && ValidSymbols(g, x) && ValidSymbols(g, y) && j < DIM
    ensures ViewOf(g, y, pole)[j] < g.levels
    ensures Diff(g.levels, ViewOf(g, x, pole)[j], ViewOf(g, y, pole)[j])
      == Diff(g.levels, x[Mirror(pole, j)], y[Mirror(pole, j)])
  {
    SymbolInRange(g, y, pole, j);
    SameOffsetSameDiff(g.levels, x[Mirror(pole, j)], y[Mirror(pole, j)], Offset(g, pole, j));
  }

  lemma MirroredCard(s: set<nat>, t: set<nat>, pole: nat)
    requires s <= Below(DIM) && t <= Below(DIM)
    requires forall j: nat :: j < DIM ==> (j in s <==> Mirror(pole, j) in t)
    ensures |s| == |t|
  {
    if pole / 2 % 2 == 1 {
      MirrorImage(s, t);
    } else {
      assert forall j: nat :: j < DIM ==> Mirror(pole, j) == j;
      assert s == t;
    }
  }

  lemma MirrorImage(s: set<nat>, t: set<nat>)
    requires s <= Below(DIM) && t <= Below(DIM)
    requires forall j: nat :: j < DIM ==> (j in s <==> DIM - 1 - j in t)
    ensures |s| == |t|
  {
    var f := (j: nat) => DIM - 1 - j;
    forall i | i in t
      ensures exists j :: j in s && f(j) == i
    {
      assert i in Below(DIM);
      assert f(DIM - 1 - i) == i;
    }
    BijectionCard(s, t, f);
  }

  /** The same view of both sides moves the positions of a bucket but keeps their number. */
  lemma PoleKeepsBucket(g: Grid, x: Carrier, y: Carrier, active: Activity, mask: Activity, pole: nat, d: nat)
    requires ValidGrid(g) && ValidSymbols(g, x) && ValidSymbols(g, y)
    ensures forall j :: 0 <= j < DIM ==> ViewOf(g, y, pole)[j] < g.levels
    ensures |Hits(g.levels, ViewOf(g, x, pole), ViewOf(g, y, pole),
                  MirroredActivity(active, pole), MirroredActivity(mask, pole), d)|
      == |Hits(g.levels, x, y, active, mask, d)|
  {
    var vx, vy := ViewOf(g, x, pole), ViewOf(g, y, pole);
    forall j | 0 <= j < DIM
      ensures vy[j] < g.levels
    {
      PoleKeepsDiff(g, x, y, pole, j);
    }
    var s := Hits(g.levels, vx, vy, MirroredActivity(active, pole), MirroredActivity(mask, pole), d);
    var t := Hits(g.levels, x, y, active, mask, d);
    forall j: nat | j < DIM
      ensures j in s <==> Mirror(pole, j) in t
    {
      PoleKeepsDiff(g, x, y, pole, j);
    }
    MirroredCard(s, t, pole);
  }

  /** Equal histograms: same-pole views give the canonical histogram, with 5 and with 256 levels. */
  lemma PoleKeepsHistogram(g: Grid, x: Carrier, y: Carrier, active: Activity, mask: Activity, pole: nat, hist: seq<nat>)
    requires ValidGrid(g) && ValidSymbols(g, x) && ValidSymbols(g, y)
    ensures forall j :: 0 <= j < DIM ==> ViewOf(g, y, pole)[j] < g.levels
    ensures IsHistogram(g.levels, ViewOf(g, x, pole), ViewOf(g, y, pole),
                        MirroredActivity(active, pole), MirroredActivity(mask, pole), hist)
      <==> IsHistogram(g.levels, x, y, active, mask, hist)
  {
    forall d: nat
      ensures (forall j :: 0 <= j < DIM ==> ViewOf(g, y, pole)[j] < g.levels) &&
        |Hits(g.levels, ViewOf(g, x, pole), ViewOf(g, y, pole),
              MirroredActivity(active, pole), MirroredActivity(mask, pole), d)|
        == |Hits(g.levels, x, y, active, mask, d)|
    {
      PoleKeepsBucket(g, x, y, active, mask, pole, d);
    }
  }

  /** Hits among the positions of a list. */
  function HitsIn(ps: seq<nat>, levels: nat, x: Carrier, y: Carrier, mask: Activity, d: nat): nat
    requires levels in {5, 256} && (forall j :: 0 <= j < DIM ==> y[j] < levels)
    requires forall i :: 0 <= i < |ps| ==> ps[i] < DIM
  {
    if ps == [] then 0
    else
      var n := |ps| - 1;
      HitsIn(ps[..n], levels, x, y, mask, d)
      + if mask[ps[n]] && Diff(levels, x[ps[n]], y[ps[n]]) == d then 1 else 0
  }

  /** Counting along an ascending list of positions is counting the set of its members. */
  lemma {:induction false} HitsInIsCard(ps: seq<nat>, levels: nat, x: Carrier, y: Carrier, mask: Activity, d: nat,
                                        s: set<nat>)
    requires levels in {5, 256} && (forall j :: 0 <= j < DIM ==> y[j] < levels)
    requires Increasing(ps) && forall i :: 0 <= i < |ps| ==> ps[i] < DIM
    requires forall j: nat :: j in s <==> j in ps && mask[j] && Diff(levels, x[j], y[j]) == d
    ensures HitsIn(ps, levels, x, y, mask, d) == |s|
  {
    hide Diff;
    if ps == [] {
      assert s == {};
    } else {
      var n := |ps| - 1;
      var before := s - {ps[n]};
      forall j: nat
        ensures j in before <==> j in ps[..n] && mask[j] && Diff(levels, x[j], y[j]) == d
      {
        InInit(ps, j);
      }
      HitsInIsCard(ps[..n], levels, x, y, mask, d, before);
      assert ps[n] in ps;
      if ps[n] in s {
        assert s == before + {ps[n]};
      } else {
        assert s == before;
      }
    }
  }

  /** The histogram loop shared by every reader: one increment per listed, unmasked position. */
  method CountDifferences(ps: seq<nat>, levels: nat, x: Carrier, y: Carrier, mask: Activity) returns (hist: seq<nat>)
    requires levels in {5, 256} && (forall j :: 0 <= j < DIM ==> y[j] < levels)
    requires forall i :: 0 <= i < |ps| ==> ps[i] < DIM
    ensures |hist| == 256
    ensures forall d :: 0 <= d < 256 ==> hist[d] == HitsIn(ps, levels, x, y, mask, d)
  {
    var counts := new nat[256](_ => 0);
    for k := 0 to |ps|
      invariant forall d :: 0 <= d < 256 ==> counts[d] == HitsIn(ps[..k], levels, x, y, mask, d)
    {
      var j := ps[k];
      assert ps[..k + 1][..k] == ps[..k];
      if mask[j] {
        var bucket := Diff(levels, x[j], y[j]);
        counts[bucket] := counts[bucket] + 1;
      }
    }
    assert ps[..|ps|] == ps;
    hist := counts[..];
  }

  ghost predicate ActiveList(active: Activity, ps: seq<nat>) {
    && Increasing(ps) && (forall i :: 0 <= i < |ps| ==> ps[i] < DIM)
    && forall j: nat :: j in ps <==> j < DIM && active[j]
  }

  lemma {:induction false} ListedHistogram(ps: seq<nat>, levels: nat, x: Carrier, y: Carrier, active: Activity,
                                           mask: Activity, hist: seq<nat>)
    requires levels in {5, 256} && (forall j :: 0 <= j < DIM ==> y[j] < levels)
    requires ActiveList(active, ps) && |hist| == 256
    requires forall d :: 0 <= d < 256 ==> hist[d] == HitsIn(ps, levels, x, y, mask, d)
    ensures IsHistogram(levels, x, y, active, mask, hist)
  {
    forall d | 0 <= d < 256
      ensures hist[d] == |Hits(levels, x, y, active, mask, d)|
    {
      HitsInIsCard(ps, levels, x, y, mask, d, Hits(levels, x, y, active, mask, d));
    }
  }

  function AllActive(): Activity {
    seq(DIM, _ => true)
  }

  lemma IdentityList(ps: seq<nat>)
    requires |ps| == DIM && forall j :: 0 <= j < DIM ==> ps[j] == j
    ensures ActiveList(AllActive(), ps)
  {
    forall j: nat
      ensures j in ps <==> j < DIM && AllActive()[j]
    {
      if j < DIM {
        assert ps[j] in ps;
      }
    }
  }

  /** `Grid::histogram`. */
  method GridHistogram(g: Grid, x: Carrier, y: Carrier, active: Activity) returns (r: Result<seq<nat>, GridError>)
    requires ValidGrid(g)
    ensures r.Ok? <==> ValidSymbols(g, x) && ValidSymbols(g, y)
    ensures r.Ok? ==> IsHistogram(g.levels, x, y, AllActive(), active, r.value)
    ensures r.Ok? ==> |r.value| == 256 && forall d :: 0 <= d < 256 ==>
      r.value[d] == |set j: nat | j < 1024 && active[j] && (x[j] as int + g.levels - y[j]) % g.levels == d|
  {
    if !ValidSymbols(g, x) || !ValidSymbols(g, y) {
      return Err(SymbolOutsideGrid);
    }
    var ps := seq(DIM, i => i);
    IdentityList(ps);
    var hist := CountDifferences(ps, g.levels, x, y, active);
    ListedHistogram(ps, g.levels, x, y, AllActive(), active, hist);
    forall d: nat | d < 256
      ensures Hits(g.levels, x, y, AllActive(), active, d) ==
        set j: nat | j < 1024 && active[j] && (x[j] as int + g.levels - y[j]) % g.levels == d
    {
    }
    return Ok(hist);
  }

  // ---- records and the canonical reader ----

  /** A phase carrier and its activity, packed sixteen words. */
  datatype Record = Record(phase: Carrier, mask: Orb)

  datatype View = View(phase: Carrier, active: Activity)

  /** `Record::new`: packs the activity bit by bit. */
  method NewRecord(phase: Carrier, active: Activity) returns (r: Record)
    ensures r.phase == phase && ActiveMask(r) == active
  {
    var mask := ZERO_ORB;
    ZeroOrbBits();
    for j := 0 to DIM
      invariant forall i :: 0 <= i < DIM ==> OrbBit(mask, i) == (i < j && active[i])
    {
      if active[j] {
        mask := WriteBit(mask, j, true);
      }
    }
    r := Record(phase, mask);
    assert ActiveMask(r) == active;
  }

  /** `Record::active_mask`. */
  function ActiveMask(r: Record): Activity {
    seq(DIM, j requires 0 <= j < DIM => OrbBit(r.mask, j))
  }

  /** A record is determined by its phase and its activity. */
  lemma SameRecord(a: Record, b: Record)
    requires a.phase == b.phase && ActiveMask(a) == ActiveMask(b)
    ensures a == b
  {
    forall j | 0 <= j < ORB_BITS
      ensures OrbBit(a.mask, j) == OrbBit(b.mask, j)
    {
      assert ActiveMask(a)[j] == ActiveMask(b)[j];
    }
    SameOrb(a.mask, b.mask);
  }

  datatype Query = Query(record: Record, active: seq<nat>)

  function IsActive(r: Record): nat -> bool {
    (j: nat) => j < DIM && OrbBit(r.mask, j)
  }

  /** `Reader::prepare`: lists the active positions once. */
  function Prepare(record: Record): (q: Query)
    ensures q.record == record && ActiveList(ActiveMask(record), q.active)
  {
    var ps := Filter(IsActive(record), DIM);
    assert ActiveList(ActiveMask(record), ps) by {
      var s := set j: nat | j < DIM && ActiveMask(record)[j];
      FilterIsExact(IsActive(record), DIM, s);
      forall i | 0 <= i < |ps|
        ensures ps[i] < DIM
      {
        assert ps[i] in ps;
      }
    }
    Query(record, ps)
  }

  datatype Policy = Archive | BodyActivity

  /** What a score is reduced from: the histogram and the number of active query positions. */
  datatype Evidence = Evidence(hist: seq<nat>, denominator: nat)

  function BodyMask(body: Record, policy: Policy): Activity {
    if policy == Archive then AllActive() else ActiveMask(body)
  }

  /** The active positions of a record. */
  function Support(r: Record): set<nat> {
    set j: nat | j < DIM && ActiveMask(r)[j]
  }

  /** The evidence of one read: nothing for a silent query, else the bucket sizes and the
      number of active query positions. */
  function ReadOf(q: Record, body: Record, policy: Policy): Option<Evidence> {
    if Support(q) == {} then None
    else
      Some(Evidence(
        seq(256, d requires 0 <= d < 256 =>
          |Hits(256, q.phase, body.phase, ActiveMask(q), BodyMask(body, policy), d)|),
        |Support(q)|))
  }

  /** `n` is the number of positions of the query's mask with the phase difference `d`, under `BodyActivity`
      only of those in the body's mask too. */
  ghost predicate IsBucket(q: Record, body: Record, policy: Policy, d: nat, n: nat) {
    n == |set j: nat | j < DIM && OrbBit(q.mask, j) && (policy == BodyActivity ==> OrbBit(body.mask, j)) &&
                       (q.phase[j] as int + 256 - body.phase[j]) % 256 == d|
  }

  lemma BucketIsExact(q: Record, body: Record, policy: Policy, d: nat)
    requires d < 256 && ReadOf(q, body, policy).Some?
    ensures IsBucket(q, body, policy, d, ReadOf(q, body, policy).value.hist[d])
  {
    assert Hits(256, q.phase, body.phase, ActiveMask(q), BodyMask(body, policy), d) ==
      set j: nat | j < DIM && OrbBit(q.mask, j) && (policy == BodyActivity ==> OrbBit(body.mask, j)) &&
                   (q.phase[j] as int + 256 - body.phase[j]) % 256 == d;
  }

  /** The positions in some bucket below `n`. */
  function HitsBelow(q: Record, body: Record, mask: Activity, n: nat): set<nat> {
    set j: nat | j < DIM && ActiveMask(q)[j] && mask[j] && Diff(256, q.phase[j], body.phase[j]) < n
  }

  lemma {:induction false} BucketsAddUp(q: Record, body: Record, policy: Policy, n: nat)
    requires n <= 256 && ReadOf(q, body, policy).Some?
    ensures Sum(ReadOf(q, body, policy).value.hist[..n]) == |HitsBelow(q, body, BodyMask(body, policy), n)|
  {
    var mask, hist := BodyMask(body, policy), ReadOf(q, body, policy).value.hist;
    if n == 0 {
      assert HitsBelow(q, body, mask, 0) == {};
    } else {
      BucketsAddUp(q, body, policy, n - 1);
      assert hist[..n][..n - 1] == hist[..n - 1];
      SplitCard(HitsBelow(q, body, mask, n), HitsBelow(q, body, mask, n - 1),
                Hits(256, q.phase, body.phase, ActiveMask(q), mask, n - 1));
    }
  }

  /** Under `Archive` the buckets add up to the denominator; under `BodyActivity` to the number of
      positions active on both sides. */
  lemma BucketsAreConserved(q: Record, body: Record, policy: Policy)
    requires ReadOf(q, body, policy).Some?
    ensures ReadOf(q, body, policy).value.denominator == |Support(q)|
    ensures policy == Archive ==> Sum(ReadOf(q, body, policy).value.hist) == |Support(q)|
    ensures policy == BodyActivity ==> Sum(ReadOf(q, body, policy).value.hist) == |Support(q) * Support(body)|
  {
    var hist := ReadOf(q, body, policy).value.hist;
    BucketsAddUp(q, body, policy, 256);
    assert hist[..256] == hist;
    var all := HitsBelow(q, body, BodyMask(body, policy), 256);
    if policy == Archive {
      assert all == Support(q);
    } else {
      assert all == Support(q) * Support(body);
    }
  }

  lemma SupportIsMask(r: Record)
    ensures Support(r) == set j: nat | j < DIM && OrbBit(r.mask, j)
    ensures Support(r) == {} <==> forall j :: 0 <= j < DIM ==> !OrbBit(r.mask, j)
  {
    if exists j :: 0 <= j < DIM && OrbBit(r.mask, j) {
      var j: nat :| j < DIM && OrbBit(r.mask, j);
      assert j in Support(r);
    }
  }

  /** `e` is what reading `body` with the query `q` finds. */
  ghost predicate IsEvidence(q: Record, body: Record, policy: Policy, e: Evidence) {
    && |e.hist| == 256
    && e.denominator == |set j: nat | j < DIM && OrbBit(q.mask, j)|
    && (forall d :: 0 <= d < 256 ==> IsBucket(q, body, policy, d, e.hist[d]))
    && (policy == Archive ==> Sum(e.hist) == e.denominator)
    && (policy == BodyActivity ==> Sum(e.hist) == |Support(q) * Support(body)|)
  }

  lemma ReadIsEvidence(q: Record, body: Record, policy: Policy)
    ensures ReadOf(q, body, policy).None? <==> forall j :: 0 <= j < DIM ==> !OrbBit(q.mask, j)
    ensures ReadOf(q, body, policy).Some? ==> IsEvidence(q, body, policy, ReadOf(q, body, policy).value)
  {
    SupportIsMask(q);
    if ReadOf(q, body, policy).Some? {
      BucketsAreConserved(q, body, policy);
      forall d: nat | d < 256
        ensures IsBucket(q, body, policy, d, ReadOf(q, body, policy).value.hist[d])
      {
        BucketIsExact(q, body, policy, d);
      }
    }
  }

  /** `Reader::read`, up to the reduction of its evidence to one number. */
  method Read(q: Query, body: Record, policy: Policy) returns (r: Option<Evidence>)
    requires q == Prepare(q.record)
    ensures r == ReadOf(q.record, body, policy)
    ensures r.None? <==> forall j :: 0 <= j < DIM ==> !OrbBit(q.record.mask, j)
    ensures r.Some? ==> IsEvidence(q.record, body, policy, r.value)
  {
    hide IsEvidence;
    ReadIsEvidence(q.record, body, policy);
    ListLength(ActiveMask(q.record), q.active, Support(q.record));
    if |q.active| == 0 {
      return None;
    }
    var hist := CountDifferences(q.active, 256, q.record.phase, body.phase, BodyMask(body, policy));
    ListedHistogram(q.active, 256, q.record.phase, body.phase, ActiveMask(q.record), BodyMask(body, policy), hist);
    r := Some(Evidence(hist, |q.active|));
    assert hist == ReadOf(q.record, body, policy).value.hist;
  }

  // ---- the four-view reference ----

  /** `reference::frames`. */
  function Frame(g: Grid, phase: Carrier, active: Activity, pole: nat): View
    requires ValidGrid(g) && pole <= 3
  {
    View(ViewOf(g, phase, pole), MirroredActivity(active, pole))
  }

  /** `reference::score`, up to the same reduction. */
  method ReferenceScore(query: View, body: View, indices: seq<nat>, masked: bool) returns (r: Option<Evidence>)
    requires forall i :: 0 <= i < |indices| ==> indices[i] < DIM
    ensures r.None? <==> indices == []
    ensures r.Some? ==> r.value.denominator == |indices| && |r.value.hist| == 256
    ensures r.Some? ==> forall d :: 0 <= d < 256 ==>
      r.value.hist[d] == HitsIn(indices, 256, query.phase, body.phase, if masked then body.active else AllActive(), d)
    ensures r.Some? && ActiveList(query.active, indices) ==>
      IsHistogram(256, query.phase, body.phase, query.active, if masked then body.active else AllActive(), r.value.hist)
  {
    if |indices| == 0 {
      return None;
    }
    var mask := if masked then body.active else AllActive();
    var hist := CountDifferences(indices, 256, query.phase, body.phase, mask);
    if ActiveList(query.active, indices) {
      ListedHistogram(indices, 256, query.phase, body.phase, query.active, mask, hist);
    }
    return Some(Evidence(hist, |indices|));
  }

  lemma ListLength(active: Activity, ps: seq<nat>, s: set<nat>)
    requires ActiveList(active, ps) && forall j: nat :: j in s <==> j < DIM && active[j]
    ensures |ps| == |s|
  {
    ListCard(ps, s);
  }

  lemma {:induction false} ListCard(ps: seq<nat>, s: set<nat>)
    requires Increasing(ps) && forall j: nat :: j in s <==> j in ps
    ensures |ps| == |s|
  {
    if ps == [] {
      assert s == {};
    } else {
      var n := |ps| - 1;
      forall j: nat
        ensures j in s - {ps[n]} <==> j in ps[..n]
      {
        InInit(ps, j);
      }
      assert ps[n] in ps;
      ListCard(ps[..n], s - {ps[n]});
    }
  }

  /** Mirroring the activity keeps the number of active positions. */
  lemma MirrorKeepsSupport(active: Activity, ps: seq<nat>, qs: seq<nat>, pole: nat)
    requires ActiveList(active, ps) && ActiveList(MirroredActivity(active, pole), qs)
    ensures |ps| == |qs|
  {
    var t := set j: nat | j < DIM && active[j];
    var s := set j: nat | j < DIM && MirroredActivity(active, pole)[j];
    var f := (j: nat) => if j < DIM then Mirror(pole, j) else j;
    forall i | i in t
      ensures exists j :: j in s && f(j) == i
    {
      assert f(f(i)) == i;
      assert f(i) in s;
    }
    BijectionCard(s, t, f);
    ListLength(active, ps, t);
    ListLength(MirroredActivity(active, pole), qs, s);
  }

  /** The evidence of a read at any pole is the evidence of the canonical read. */
  lemma PoleKeepsEvidence(g: Grid, q: Record, body: Record, policy: Policy, pole: nat, vq: Record, vb: Record)
    requires ValidGrid(g) && g.levels == 256
    requires vq.phase == ViewOf(g, q.phase, pole) && ActiveMask(vq) == MirroredActivity(ActiveMask(q), pole)
    requires vb.phase == ViewOf(g, body.phase, pole) && ActiveMask(vb) == MirroredActivity(ActiveMask(body), pole)
    ensures ReadOf(vq, vb, policy) == ReadOf(q, body, policy)
  {
    var ps, qs := Prepare(q).active, Prepare(vq).active;
    MirrorKeepsSupport(ActiveMask(q), ps, qs, pole);
    ListLength(ActiveMask(q), ps, Support(q));
    ListLength(ActiveMask(vq), qs, Support(vq));
    assert MirroredActivity(AllActive(), pole) == AllActive();
    assert BodyMask(vb, policy) == MirroredActivity(BodyMask(body, policy), pole);
    forall d | 0 <= d < 256
      ensures |Hits(256, vq.phase, vb.phase, ActiveMask(vq), BodyMask(vb, policy), d)|
        == |Hits(256, q.phase, body.phase, ActiveMask(q), BodyMask(body, policy), d)|
    {
      PoleKeepsBucket(g, q.phase, body.phase, ActiveMask(q), BodyMask(body, policy), pole, d);
    }
    if ReadOf(q, body, policy).Some? {
      assert ReadOf(vq, vb, policy).value.hist == ReadOf(q, body, policy).value.hist;
    }
  }

  /** Running both: the reference score of the two views at any pole is the canonical read. */
  method FourViewsAgree(g: Grid, q: Record, body: Record, policy: Policy, pole: nat)
    returns (canonical: Option<Evidence>, viewed: Option<Evidence>, qf: View, bf: View)
    requires ValidGrid(g) && g.levels == 256 && pole <= 3
    ensures canonical.None? <==> forall j :: 0 <= j < DIM ==> !OrbBit(q.mask, j)
    ensures canonical.Some? ==> IsEvidence(q, body, policy, canonical.value)
    ensures GridView(g, q.phase, pole) == Ok(qf.phase) && GridView(g, body.phase, pole) == Ok(bf.phase)
    ensures SupportView(ActiveMask(q), pole) == Ok(qf.active) && SupportView(ActiveMask(body), pole) == Ok(bf.active)
    ensures viewed == canonical
  {
    hide IsEvidence;
    canonical := Read(Prepare(q), body, policy);
    qf, bf := Frame(g, q.phase, ActiveMask(q), pole), Frame(g, body.phase, ActiveMask(body), pole);
    var vq := NewRecord(qf.phase, qf.active);
    var vb := NewRecord(bf.phase, bf.active);
    var indices := Prepare(vq).active;
    viewed := ReferenceScore(qf, bf, indices, policy == BodyActivity);
    PoleKeepsEvidence(g, q, body, policy, pole, vq, vb);
    ListLength(qf.active, indices, Support(vq));
    if viewed.Some? {
      assert viewed.value.hist == ReadOf(vq, vb, policy).value.hist;
    }
  }

  // ---- bound views ----

  const Q8_MASK_MIRROR_V1: nat := 1

  datatype Descriptor = Descriptor(algorithm: nat, dimensions: nat, levels: nat, seed: Word, pole: nat)

  datatype BoundView = BoundView(descriptor: Descriptor, view: View)

  /** `BoundView::from_parts`. */
  function FromParts(d: Descriptor, view: View): Result<BoundView, GridError> {
    if d.algorithm != Q8_MASK_MIRROR_V1 || d.dimensions != DIM || d.levels != 256 || d.pole > 3 then
      Err(UnsupportedDescriptor)
    else Ok(BoundView(d, view))
  }

  /** `Reader::bound_view`. */
  function Bind(g: Grid, record: Record, pole: nat): Result<BoundView, GridError>
    requires ValidGrid(g) && g.levels == 256
  {
    match GridView(g, record.phase, pole)
    case Err(e) => Err(e)
    case Ok(phase) =>
      match SupportView(ActiveMask(record), pole)
      case Err(e) => Err(e)
      case Ok(active) => FromParts(Descriptor(Q8_MASK_MIRROR_V1, DIM, 256, g.seed, pole), View(phase, active))
  }

  lemma FromPartsIsExact(d: Descriptor, view: View)
    ensures FromParts(d, view).Ok? <==>
      d.algorithm == 1 && d.dimensions == 1024 && d.levels == 256 && d.pole <= 3
    ensures FromParts(d, view) in {Ok(BoundView(d, view)), Err(UnsupportedDescriptor)}
  {
  }

  /** A bound view holds the view of its pole, named by its descriptor. */
  lemma BoundIsView(g: Grid, record: Record, pole: nat)
    requires ValidGrid(g) && g.levels == 256
    ensures Bind(g, record, pole).Ok? <==> pole <= 3
    ensures Bind(g, record, pole).Err? ==> Bind(g, record, pole).error == PoleOutsideRange
    ensures Bind(g, record, pole).Ok? ==>
      var bound := Bind(g, record, pole).value;
      && bound.descriptor == Descriptor(1, 1024, 256, g.seed, pole)
      && GridView(g, record.phase, pole) == Ok(bound.view.phase)
      && SupportView(ActiveMask(record), pole) == Ok(bound.view.active)
  {
  }

  /** `Reader::restore_bound_view`. */
  method Restore(g: Grid, bound: BoundView) returns (r: Result<Record, GridError>)
    requires ValidGrid(g) && g.levels == 256
    ensures r.Ok? <==> bound.descriptor.seed == g.seed && bound.descriptor.pole <= 3
    ensures r.Ok? ==> GridInvert(g, bound.view.phase, bound.descriptor.pole) == Ok(r.value.phase)
    ensures r.Ok? ==> SupportView(bound.view.active, bound.descriptor.pole) == Ok(ActiveMask(r.value))
    ensures r.Err? ==> r.error == if bound.descriptor.seed != g.seed then SeedMismatch else PoleOutsideRange
  {
    if bound.descriptor.seed != g.seed {
      return Err(SeedMismatch);
    }
    var phase := GridInvert(g, bound.view.phase, bound.descriptor.pole);
    if phase.Err? {
      return Err(phase.error);
    }
    var active := SupportView(bound.view.active, bound.descriptor.pole);
    if active.Err? {
      return Err(PoleOutsideRange);
    }
    var record := NewRecord(phase.value, active.value);
    return Ok(record);
  }

  /** Binding succeeds exactly at the poles 0 to 3, and restoring a bound view with the same
      reader returns the phase and the activity mask exactly. */
  method BindThenRestore(g: Grid, record: Record, pole: nat) returns (r: Result<Record, GridError>)
    requires ValidGrid(g) && g.levels == 256
    ensures r == if pole <= 3 then Ok(record) else Err(PoleOutsideRange)
  {
    var bound := Bind(g, record, pole);
    if bound.Err? {
      return Err(bound.error);
    }
    r := Restore(g, bound.value);
    GridRoundTrip(g, record.phase, pole);
    forall i | 0 <= i < DIM
      ensures Mirror(pole, Mirror(pole, i)) == i
    {
    }
    assert MirroredActivity(MirroredActivity(ActiveMask(record), pole), pole) == ActiveMask(record);
    SameRecord(r.value, record);
  }
}
