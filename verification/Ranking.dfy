/** Exact ranking of `gel-reader`: bounded insertion, full scan, and the early-exit scan
    in its current and its frozen v0.2.0 form, all against one sorted reference list. */
module Ranking {
  import opened Words
  import opened Counting
  import opened Orbs
  import opened Wrappers

  datatype Candidate = Candidate(index: nat, score: nat)

  /** The ranking order: higher score first, then lower index. */
  predicate Better(x: Candidate, y: Candidate) {
    x.score > y.score || (x.score == y.score && x.index < y.index)
  }

  predicate Sorted(s: seq<Candidate>) {
    forall i, j :: 0 <= i < j < |s| ==> Better(s[i], s[j])
  }

  function Scored(bank: seq<Orb>, query: Orb, i: nat): Candidate
    requires i < |bank|
  {
    Candidate(i, Score(bank[i], query))
  }

  function InsertSorted(s: seq<Candidate>, c: Candidate): seq<Candidate> {
    if s == [] then [c]
    else if Better(c, s[0]) then [c] + s
    else [s[0]] + InsertSorted(s[1..], c)
  }

  /** Every ORB of the bank with its per-bit agreement count, best first. */
  function Ranked(bank: seq<Orb>, query: Orb): seq<Candidate> {
    if bank == [] then []
    else
      var n := |bank| - 1;
      InsertSorted(Ranked(bank[..n], query), Scored(bank, query, n))
  }

  function Take<T>(s: seq<T>, k: nat): seq<T> {
    if |s| <= k then s else s[..k]
  }

  // ---- the reference list ----

  lemma {:induction false} InsertSortedKeeps(s: seq<Candidate>, c: Candidate)
    requires Sorted(s)
    requires forall x :: x in s ==> x.index != c.index
    ensures Sorted(InsertSorted(s, c))
    ensures |InsertSorted(s, c)| == |s| + 1
    ensures forall x :: x in InsertSorted(s, c) <==> x in s || x == c
  {
    if s != [] && !Better(c, s[0]) {
      InsertSortedKeeps(s[1..], c);
      var rest := InsertSorted(s[1..], c);
      assert s == [s[0]] + s[1..];
      forall x | x in rest
        ensures Better(s[0], x)
      {
        if x in s[1..] {
          var i :| 0 <= i < |s[1..]| && s[1..][i] == x;
          assert s[i + 1] == x;
        }
      }
    }
  }

  /** The reference list is strictly sorted and holds exactly the scored bank. */
  lemma {:induction false} RankedIsTheSortedBank(bank: seq<Orb>, query: Orb)
    ensures Sorted(Ranked(bank, query)) && |Ranked(bank, query)| == |bank|
    ensures forall x :: x in Ranked(bank, query) <==> x.index < |bank| && x == Scored(bank, query, x.index)
  {
    if bank != [] {
      var n := |bank| - 1;
      RankedIsTheSortedBank(bank[..n], query);
      InsertSortedKeeps(Ranked(bank[..n], query), Scored(bank, query, n));
    }
  }

  /** No other list is: sorted lists with the same elements are equal. */
  lemma {:induction false} SortedIsUnique(s: seq<Candidate>, t: seq<Candidate>)
    requires Sorted(s) && Sorted(t)
    requires forall x :: x in s <==> x in t
    ensures s == t
  {
    SameEmptiness(s, t);
    if s != [] {
      assert s[0] in t && t[0] in s;
      assert s[0] == t[0];
      forall x
        ensures x in s[1..] <==> x in t[1..]
      {
        InTail(s, x);
        InTail(t, x);
      }
      SortedIsUnique(s[1..], t[1..]);
      assert s == [s[0]] + s[1..] && t == [t[0]] + t[1..];
    }
  }

  lemma InTail(s: seq<Candidate>, x: Candidate)
    requires Sorted(s) && s != []
    ensures x in s[1..] <==> x in s && x != s[0]
  {
    assert s == [s[0]] + s[1..];
  }

  /** Where an insertion lands: before the first entry it beats. */
  lemma {:induction false} InsertSortedAt(s: seq<Candidate>, c: Candidate, p: nat)
    requires p <= |s|
    requires forall i :: 0 <= i < p ==> !Better(c, s[i])
    requires p < |s| ==> Better(c, s[p])
    ensures InsertSorted(s, c) == s[..p] + [c] + s[p..]
  {
    if p == 0 {
      assert s[..0] + [c] + s[0..] == [c] + s;
    } else {
      InsertSortedAt(s[1..], c, p - 1);
      assert s[..p] + [c] + s[p..] == [s[0]] + (s[1..][..p - 1] + [c] + s[1..][p - 1..]);
    }
  }

  /** A candidate that beats none of the first `k` entries does not enter them. */
  lemma {:induction false} Dropped(s: seq<Candidate>, c: Candidate, k: nat)
    requires k <= |s|
    requires forall i :: 0 <= i < k ==> !Better(c, s[i])
    ensures Take(InsertSorted(s, c), k) == Take(s, k)
  {
    if k != 0 {
      Dropped(s[1..], c, k - 1);
      assert InsertSorted(s, c)[1..] == InsertSorted(s[1..], c);
      InsertLength(s[1..], c);
      assert InsertSorted(s, c)[..k] == [s[0]] + InsertSorted(s[1..], c)[..k - 1];
      assert s[..k] == [s[0]] + s[1..][..k - 1];
    } else {
      InsertLength(s, c);
    }
  }

  lemma {:induction false} InsertLength(s: seq<Candidate>, c: Candidate)
    ensures |InsertSorted(s, c)| == |s| + 1
  {
    if s != [] {
      InsertLength(s[1..], c);
    }
  }

  /** A candidate not better than the last kept entry is not better than any kept entry. */
  lemma {:induction false} BoundaryDrops(s: seq<Candidate>, c: Candidate, k: nat)
    requires 0 < k <= |s| && Sorted(s) && !Better(c, s[k - 1])
    ensures Take(InsertSorted(s, c), k) == Take(s, k)
  {
    Dropped(s, c, k);
  }

  // ---- bounded insertion ----

  lemma CutAfterInsertion(s: seq<Candidate>, c: Candidate, k: nat, pos: nat)
    requires pos < k < |s|
    ensures (s[..pos] + [c] + s[pos..])[..k] == (s[..k][..pos] + [c] + s[..k][pos..])[..k]
  {
    assert s[..k][..pos] == s[..pos] && s[..k][pos..] == s[pos..k];
    assert s[pos..] == s[pos..k] + s[k..];
  }

  /** `best.insert(pos, candidate)` then `pop`, at the position found by the scan. */
  lemma {:induction false} InsertedWindow(ranked: seq<Candidate>, c: Candidate, k: nat, pos: nat)
    requires Sorted(ranked) && pos <= |Take(ranked, k)|
    requires forall i :: 0 <= i < pos ==> !Better(c, Take(ranked, k)[i])
    requires pos < |Take(ranked, k)| ==> Better(c, Take(ranked, k)[pos])
    ensures pos < k ==> var grown := Take(ranked, k)[..pos] + [c] + Take(ranked, k)[pos..];
      Take(InsertSorted(ranked, c), k) == (if |grown| > k then grown[..|grown| - 1] else grown)
    ensures pos >= k ==> Take(InsertSorted(ranked, c), k) == Take(ranked, k)
  {
    if pos < k {
      InsertSortedAt(ranked, c, pos);
      if |ranked| > k {
        CutAfterInsertion(ranked, c, k, pos);
      }
    } else {
      Dropped(ranked, c, k);
    }
  }

  /** Current `insert_top_k`. `ranked` is everything seen so far, in order. */
  method InsertTopK(best: seq<Candidate>, candidate: Candidate, k: nat, ghost ranked: seq<Candidate>)
    returns (next: seq<Candidate>)
    requires Sorted(ranked) && best == Take(ranked, k)
    ensures next == Take(InsertSorted(ranked, candidate), k)
  {
    if |best| == k && |best| > 0 {
      var last := best[|best| - 1];
      if candidate.score < last.score || (candidate.score == last.score && candidate.index >= last.index) {
        BoundaryDrops(ranked, candidate, k);
        return best;
      }
    }
    next := FrozenInsertTopK(best, candidate, k, ranked);
  }

  /** Candidates in the order they are fed, ranked. */
  function RankAll(fed: seq<Candidate>): seq<Candidate> {
    if fed == [] then [] else InsertSorted(RankAll(fed[..|fed| - 1]), fed[|fed| - 1])
  }

  predicate DistinctIndices(fed: seq<Candidate>) {
    forall i, j :: 0 <= i < j < |fed| ==> fed[i].index != fed[j].index
  }

  lemma {:induction false} RankAllIsSorted(fed: seq<Candidate>)
    requires DistinctIndices(fed)
    ensures Sorted(RankAll(fed)) && |RankAll(fed)| == |fed|
    ensures forall x :: x in RankAll(fed) <==> x in fed
  {
    if fed != [] {
      var n := |fed| - 1;
      RankAllIsSorted(fed[..n]);
      forall x | x in fed[..n]
        ensures x.index != fed[n].index
      {
        var i :| 0 <= i < n && fed[..n][i] == x;
        assert fed[i].index != fed[n].index;
      }
      InsertSortedKeeps(RankAll(fed[..n]), fed[n]);
      assert fed == fed[..n] + [fed[n]];
    }
  }

  /** The order in which candidates arrive does not matter. */
  lemma {:induction false} ArrivalOrderIsIrrelevant(fed: seq<Candidate>, other: seq<Candidate>)
    requires DistinctIndices(fed) && DistinctIndices(other)
    requires forall x :: x in fed <==> x in other
    ensures RankAll(fed) == RankAll(other)
  {
    RankAllIsSorted(fed);
    RankAllIsSorted(other);
    SortedIsUnique(RankAll(fed), RankAll(other));
  }

  /** Feeding `insert_top_k` in any order keeps the best `k` seen so far. */
  method InsertAll(fed: seq<Candidate>, k: nat) returns (best: seq<Candidate>)
    requires DistinctIndices(fed)
    ensures best == Take(RankAll(fed), k)
  {
    best := [];
    for i := 0 to |fed|
      invariant best == Take(RankAll(fed[..i]), k)
    {
      RankAllIsSorted(fed[..i]);
      assert fed[..i + 1][..i] == fed[..i];
      best := InsertTopK(best, fed[i], k, RankAll(fed[..i]));
    }
    assert fed[..|fed|] == fed;
  }

  /** Frozen v0.2.0 `insert_top_k`: no boundary test before the scan. */
  method FrozenInsertTopK(best: seq<Candidate>, candidate: Candidate, k: nat, ghost ranked: seq<Candidate>)
    returns (next: seq<Candidate>)
    requires Sorted(ranked) && best == Take(ranked, k)
    ensures next == Take(InsertSorted(ranked, candidate), k)
  {
    var pos := 0;
    while pos < |best| && !Better(candidate, best[pos])
      invariant 0 <= pos <= |best|
      invariant forall i :: 0 <= i < pos ==> !Better(candidate, best[i])
    {
      pos := pos + 1;
    }
    InsertedWindow(ranked, candidate, k, pos);
    next := best;
    if pos < k {
      next := best[..pos] + [candidate] + best[pos..];
      if |next| > k {
        next := next[..|next| - 1];
      }
    } else if |best| < k {
      next := best + [candidate];
    }
  }

  // ---- scores ----

  /** `gel_kernel::xnor_matches`: sixteen popcounts in four groups. */
  function ScoreXnor(candidate: Orb, query: Orb): (score: nat)
    ensures score == Score(candidate, query)
  {
    var a, b := candidate, query;
    var d0 := PopCount(Xor(a[0], b[0])) + PopCount(Xor(a[1], b[1]))
      + PopCount(Xor(a[2], b[2])) + PopCount(Xor(a[3], b[3]));
    var d1 := PopCount(Xor(a[4], b[4])) + PopCount(Xor(a[5], b[5]))
      + PopCount(Xor(a[6], b[6])) + PopCount(Xor(a[7], b[7]));
    var d2 := PopCount(Xor(a[8], b[8])) + PopCount(Xor(a[9], b[9]))
      + PopCount(Xor(a[10], b[10])) + PopCount(Xor(a[11], b[11]));
    var d3 := PopCount(Xor(a[12], b[12])) + PopCount(Xor(a[13], b[13]))
      + PopCount(Xor(a[14], b[14])) + PopCount(Xor(a[15], b[15]));
    FourGroups(a, b);
    ORB_BITS - (d0 + d1 + d2 + d3)
  }

  lemma FourWords(a: seq<Word>, b: seq<Word>, k: nat)
    requires k + 4 <= |a| && k + 4 <= |b|
    ensures |Differ(a, b, 64 * (k + 4))| == |Differ(a, b, 64 * k)|
      + PopCount(Xor(a[k], b[k])) + PopCount(Xor(a[k + 1], b[k + 1]))
      + PopCount(Xor(a[k + 2], b[k + 2])) + PopCount(Xor(a[k + 3], b[k + 3]))
  {
    WordDiffer(a, b, k);
    WordDiffer(a, b, k + 1);
    WordDiffer(a, b, k + 2);
    WordDiffer(a, b, k + 3);
  }

  lemma NoneDiffer(a: Orb, b: Orb)
    ensures |Differ(a, b, 0)| == 0
  {
    assert Differ(a, b, 0) == {};
  }

  lemma FourGroups(a: Orb, b: Orb)
    ensures |Differ(a, b, ORB_BITS)| ==
      PopCount(Xor(a[0], b[0])) + PopCount(Xor(a[1], b[1])) + PopCount(Xor(a[2], b[2])) + PopCount(Xor(a[3], b[3]))
      + (PopCount(Xor(a[4], b[4])) + PopCount(Xor(a[5], b[5])) + PopCount(Xor(a[6], b[6])) + PopCount(Xor(a[7], b[7])))
      + (PopCount(Xor(a[8], b[8])) + PopCount(Xor(a[9], b[9]))
         + PopCount(Xor(a[10], b[10])) + PopCount(Xor(a[11], b[11])))
      + (PopCount(Xor(a[12], b[12])) + PopCount(Xor(a[13], b[13]))
         + PopCount(Xor(a[14], b[14])) + PopCount(Xor(a[15], b[15])))
    ensures |Differ(a, b, ORB_BITS)| + Score(a, b) == ORB_BITS
  {
    hide PopCount, Xor, Differ, Score;
    NoneDiffer(a, b);
    FourWords(a, b, 0);
    FourWords(a, b, 4);
    FourWords(a, b, 8);
    FourWords(a, b, 12);
    AgreeDiffer(a, b);
  }

  /** Mismatches in words `lo..hi`, as the progressive scan accumulates them. */
  lemma MismatchSlice(a: Orb, b: Orb, lo: nat, hi: nat)
    requires lo <= hi <= ORB_WORDS
    ensures |Differ(a, b, 64 * lo)| + MismatchWords(a[lo..hi], b[lo..hi]) == |Differ(a, b, 64 * hi)|
  {
    MismatchIsDiffer(a, b, lo);
    MismatchIsDiffer(a, b, hi);
    MismatchAppend(a[..lo], b[..lo], a[lo..hi], b[lo..hi]);
    assert a[..lo] + a[lo..hi] == a[..hi] && b[..lo] + b[lo..hi] == b[..hi];
  }

  datatype Bound = Bound(matches: nat, upper: nat)

  /** `gel_kernel::progressive_xnor_bound`: exact prefix matches and a safe upper bound. */
  method ProgressiveXnorBound(a: Orb, b: Orb, words: nat) returns (r: Result<Bound, string>)
    ensures r.Ok? <==> 1 <= words <= ORB_WORDS
    ensures r.Ok? ==> r.value.matches == 64 * words - |Differ(a, b, 64 * words)|
    ensures r.Ok? ==> r.value.upper == ORB_BITS - |Differ(a, b, 64 * words)|
    ensures r.Ok? ==> r.value.matches <= Score(a, b) <= r.value.upper
  {
    if words == 0 || words > ORB_WORDS {
      return Err("progressive words must be in 1..=16");
    }
    var mismatches := 0;
    assert Differ(a, b, 0) == {};
    for i := 0 to words
      invariant mismatches == |Differ(a, b, 64 * i)|
    {
      WordDiffer(a, b, i);
      mismatches := mismatches + PopCount(Xor(a[i], b[i]));
    }
    DifferMono(a, b, 64 * words, 64 * words);
    PrefixBound(a, b, words);
    var seen := words * 64;
    var matches := seen - mismatches;
    var unseen := ORB_BITS - seen;
    r := Ok(Bound(matches, matches + unseen));
  }

  /** Unseen bits might all agree or all differ, so a prefix brackets the score. */
  lemma PrefixBound(a: Orb, b: Orb, words: nat)
    requires words <= ORB_WORDS
    ensures 64 * words - |Differ(a, b, 64 * words)| <= Score(a, b) <= ORB_BITS - |Differ(a, b, 64 * words)|
  {
    AgreeDiffer(a, b);
    DifferMono(a, b, 64 * words, ORB_BITS);
    var n := 64 * words;
    var all, prefix := Differ(a, b, ORB_BITS), Differ(a, b, n);
    SubsetCard(all, prefix + (Below(ORB_BITS) - Below(n)));
  }

  // ---- scans ----

  lemma {:induction false} RankedStep(bank: seq<Orb>, query: Orb, i: nat)
    requires i < |bank|
    ensures Ranked(bank[..i + 1], query) == InsertSorted(Ranked(bank[..i], query), Scored(bank, query, i))
  {
    assert bank[..i + 1][..i] == bank[..i];
  }

  /** `top_k`: the first `min(k, n)` entries of the sorted bank. */
  method TopK(bank: seq<Orb>, query: Orb, k: nat) returns (best: seq<Candidate>)
    ensures best == Take(Ranked(bank, query), k)
  {
    best := [];
    if k == 0 {
      RankedIsTheSortedBank(bank, query);
      return;
    }
    for i := 0 to |bank|
      invariant best == Take(Ranked(bank[..i], query), k)
    {
      RankedIsTheSortedBank(bank[..i], query);
      RankedStep(bank, query, i);
      best := InsertTopK(best, Candidate(i, ScoreXnor(bank[i], query)), k, Ranked(bank[..i], query));
    }
    assert bank[..|bank|] == bank;
  }

  lemma HeadBeatsTail(s: seq<Candidate>, k: nat, c: Candidate, d: Candidate)
    requires Sorted(s) && c in Take(s, k) && d in s && d !in Take(s, k)
    ensures Better(c, d)
  {
    var a :| 0 <= a < |s| && s[a] == d;
    var b :| 0 <= b < |Take(s, k)| && Take(s, k)[b] == c;
    assert k <= a && s[b] == c;
    hide Better;
  }

  lemma TakeIsHead(s: seq<Candidate>, k: nat)
    requires Sorted(s)
    ensures Sorted(Take(s, k)) && |Take(s, k)| == (if k < |s| then k else |s|)
    ensures forall c :: c in Take(s, k) ==> c in s
  {
    hide Better;
  }

  /** What the first `k` entries of the reference list are: scores by the bits, in order, */
  lemma {:induction false} TopIsOrdered(bank: seq<Orb>, query: Orb, k: nat)
    ensures var best := Take(Ranked(bank, query), k);
      && |best| == (if k < |bank| then k else |bank|)
      && (forall c :: c in best ==>
            && c.index < |bank|
            && c.score == |set j: nat | j < 1024 && OrbBit(bank[c.index], j) == OrbBit(query, j)|)
      && forall i, j :: 0 <= i < j < |best| ==>
           best[i].score > best[j].score || (best[i].score == best[j].score && best[i].index < best[j].index)
  {
    hide Take, Ranked, Score;
    RankedIsTheSortedBank(bank, query);
    TakeIsHead(Ranked(bank, query), k);
    var best := Take(Ranked(bank, query), k);
    forall c | c in best
      ensures c.index < |bank|
      ensures c.score == |set j: nat | j < 1024 && OrbBit(bank[c.index], j) == OrbBit(query, j)|
    {
      ScoreIsAgreement(bank[c.index], query);
    }
  }

  /** and no ORB left out beats one of them. */
  lemma {:induction false} TopIsBest(bank: seq<Orb>, query: Orb, k: nat, c: Candidate, i: nat)
    requires c in Take(Ranked(bank, query), k) && i < |bank|
    requires forall d :: d in Take(Ranked(bank, query), k) ==> d.index != i
    ensures c.score > Score(bank[i], query) || (c.score == Score(bank[i], query) && c.index < i)
  {
    hide Take, Ranked, Score;
    RankedIsTheSortedBank(bank, query);
    var d := Scored(bank, query, i);
    assert d in Ranked(bank, query);
    HeadBeatsTail(Ranked(bank, query), k, c, d);
  }

  lemma ScoreIsAgreement(a: Orb, b: Orb)
    ensures Score(a, b) == |set j: nat | j < 1024 && OrbBit(a, j) == OrbBit(b, j)|
  {
    assert Agree(a, b) == set j: nat | j < 1024 && OrbBit(a, j) == OrbBit(b, j);
  }

  datatype Stage = After32 | After64 | Full

  datatype Stats = Stats(candidates: nat, rejected32: nat, rejected64: nat, full: nat)

  /** The stage at which ORB `i` leaves the scan: decided by the `k`-th best score among the
      ORBs before it and by the agreement still possible after 256 and 512 bits. */
  function StageOf(bank: seq<Orb>, query: Orb, k: nat, i: nat): Stage
    requires i < |bank|
  {
    var before := Ranked(bank[..i], query);
    if k == 0 || |before| < k then Full
    else if ORB_BITS - |Differ(bank[i], query, 256)| < before[k - 1].score then After32
    else if ORB_BITS - |Differ(bank[i], query, 512)| < before[k - 1].score then After64
    else Full
  }

  function StageCount(bank: seq<Orb>, query: Orb, k: nat, n: nat, stage: Stage): nat
    requires n <= |bank|
  {
    if n == 0 then 0
    else StageCount(bank, query, k, n - 1, stage) + if StageOf(bank, query, k, n - 1) == stage then 1 else 0
  }

  function ExpectedStats(bank: seq<Orb>, query: Orb, k: nat, n: nat): Stats
    requires n <= |bank|
  {
    Stats(|bank|, StageCount(bank, query, k, n, After32), StageCount(bank, query, k, n, After64),
          StageCount(bank, query, k, n, Full))
  }

  /** Every candidate leaves at exactly one stage. */
  lemma {:induction false} StagesPartition(bank: seq<Orb>, query: Orb, k: nat, n: nat)
    requires n <= |bank|
    ensures var s := ExpectedStats(bank, query, k, n); s.rejected32 + s.rejected64 + s.full == n
  {
    if n != 0 {
      StagesPartition(bank, query, k, n - 1);
    }
  }

  /** What the counters of a scan with `k > 0` mean. An ORB is measured against the `k`-th best score among the
      ORBs before it: the first counter holds those whose possible agreement is too low after 256 bits, the
      second those for which it is only after 512 bits, the third all others. */
  ghost predicate CountsStages(bank: seq<Orb>, query: Orb, k: nat, s: Stats)
    requires k > 0
  {
    && s.candidates == |bank|
    && s.rejected32 == |set i: nat | i < |bank| && TooLow(bank, query, k, i, 256)|
    && s.rejected64 ==
       |set i: nat | i < |bank| && !TooLow(bank, query, k, i, 256) && TooLow(bank, query, k, i, 512)|
    && s.full == |set i: nat | i < |bank| && !TooLow(bank, query, k, i, 256) && !TooLow(bank, query, k, i, 512)|
  }

  /** After `bits` bits the agreement of ORB `i` can no longer reach the `k`-th best score before it. */
  predicate TooLow(bank: seq<Orb>, query: Orb, k: nat, i: nat, bits: nat)
    requires k > 0 && i < |bank| && bits <= ORB_BITS
  {
    var before := Ranked(bank[..i], query);
    k <= |before| && 1024 - |set j: nat | j < bits && OrbBit(bank[i], j) != OrbBit(query, j)| < before[k - 1].score
  }

  function AtStage(bank: seq<Orb>, query: Orb, k: nat, n: nat, stage: Stage): set<nat>
    requires n <= |bank|
  {
    set i: nat | i < n && StageOf(bank, query, k, i) == stage
  }

  lemma {:induction false} StageCountIsCard(bank: seq<Orb>, query: Orb, k: nat, n: nat, stage: Stage)
    requires n <= |bank|
    ensures StageCount(bank, query, k, n, stage) == |AtStage(bank, query, k, n, stage)|
  {
    if n == 0 {
      assert AtStage(bank, query, k, 0, stage) == {};
    } else {
      hide StageOf;
      StageCountIsCard(bank, query, k, n - 1, stage);
      var last := if StageOf(bank, query, k, n - 1) == stage then {n - 1} else {};
      SplitCard(AtStage(bank, query, k, n, stage), AtStage(bank, query, k, n - 1, stage), last);
    }
  }

  lemma StageIsBound(bank: seq<Orb>, query: Orb, k: nat, i: nat)
    requires k > 0 && i < |bank|
    ensures StageOf(bank, query, k, i) ==
      if TooLow(bank, query, k, i, 256) then After32
      else if TooLow(bank, query, k, i, 512) then After64
      else Full
  {
    hide Ranked;
    DifferIsSet(bank[i], query, 256);
    DifferIsSet(bank[i], query, 512);
  }

  lemma DifferIsSet(a: Orb, b: Orb, bits: nat)
    requires bits <= ORB_BITS
    ensures Differ(a, b, bits) == set j: nat | j < bits && OrbBit(a, j) != OrbBit(b, j)
  {
  }

  lemma ExpectedStatsCount(bank: seq<Orb>, query: Orb, k: nat)
    requires k > 0
    ensures CountsStages(bank, query, k, ExpectedStats(bank, query, k, |bank|))
  {
    hide StageOf, TooLow, StageCount;
    forall i: nat | i < |bank|
      ensures StageOf(bank, query, k, i) ==
        if TooLow(bank, query, k, i, 256) then After32
        else if TooLow(bank, query, k, i, 512) then After64
        else Full
    {
      StageIsBound(bank, query, k, i);
    }
    var n := |bank|;
    StageCountIsCard(bank, query, k, n, After32);
    StageCountIsCard(bank, query, k, n, After64);
    StageCountIsCard(bank, query, k, n, Full);
    assert AtStage(bank, query, k, n, After32) == set i: nat | i < n && TooLow(bank, query, k, i, 256);
    assert AtStage(bank, query, k, n, After64) ==
      set i: nat | i < n && !TooLow(bank, query, k, i, 256) && TooLow(bank, query, k, i, 512);
    assert AtStage(bank, query, k, n, Full) ==
      set i: nat | i < n && !TooLow(bank, query, k, i, 256) && !TooLow(bank, query, k, i, 512);
  }

  /** Pruning never loses an entry: a rejected ORB is not among the best `k`. */
  lemma {:induction false} PrunedIsNotRanked(bank: seq<Orb>, query: Orb, k: nat, i: nat)
    requires i < |bank| && StageOf(bank, query, k, i) != Full
    ensures Take(Ranked(bank[..i + 1], query), k) == Take(Ranked(bank[..i], query), k)
  {
    RankedIsTheSortedBank(bank[..i], query);
    RankedStep(bank, query, i);
    PrefixBound(bank[i], query, 4);
    PrefixBound(bank[i], query, 8);
    BoundaryDrops(Ranked(bank[..i], query), Scored(bank, query, i), k);
  }

  function Counted(stats: Stats, stage: Stage): Stats {
    match stage
    case After32 => stats.(rejected32 := stats.rejected32 + 1)
    case After64 => stats.(rejected64 := stats.rejected64 + 1)
    case Full => stats.(full := stats.full + 1)
  }

  /** What one round of a scan has to do, given the list kept so far. */
  lemma {:induction false} ScanStep(bank: seq<Orb>, query: Orb, k: nat, i: nat, best: seq<Candidate>)
    requires k > 0 && i < |bank| && best == Take(Ranked(bank[..i], query), k)
    ensures |best| <= k && Sorted(Ranked(bank[..i], query))
    ensures StageOf(bank, query, k, i) ==
      if |best| < k then Full
      else if ORB_BITS - |Differ(bank[i], query, 256)| < best[k - 1].score then After32
      else if ORB_BITS - |Differ(bank[i], query, 512)| < best[k - 1].score then After64
      else Full
    ensures StageOf(bank, query, k, i) != Full ==> best == Take(Ranked(bank[..i + 1], query), k)
    ensures Take(InsertSorted(Ranked(bank[..i], query), Scored(bank, query, i)), k)
      == Take(Ranked(bank[..i + 1], query), k)
    ensures ExpectedStats(bank, query, k, i + 1)
      == Counted(ExpectedStats(bank, query, k, i), StageOf(bank, query, k, i))
  {
    RankedIsTheSortedBank(bank[..i], query);
    RankedStep(bank, query, i);
    if StageOf(bank, query, k, i) != Full {
      PrunedIsNotRanked(bank, query, k, i);
    }
  }

  lemma PrefixMismatches(a: Orb, b: Orb)
    ensures MismatchWords(a[..4], b[..4]) == |Differ(a, b, 256)|
    ensures MismatchWords(a[..4], b[..4]) + MismatchWords(a[4..8], b[4..8]) == |Differ(a, b, 512)|
    ensures MismatchWords(a[..4], b[..4]) + MismatchWords(a[4..8], b[4..8]) + MismatchWords(a[8..], b[8..])
      == ORB_BITS - Score(a, b)
  {
    MismatchIsDiffer(a, b, 4);
    MismatchSlice(a, b, 4, 8);
    MismatchSlice(a, b, 8, 16);
    assert a[8..16] == a[8..] && b[8..16] == b[8..];
    AgreeDiffer(a, b);
  }

  /** The staged body of the scan: mismatches accumulate over words 0..4, 4..8, 8..16 and the
      scan leaves as soon as the agreement still possible is below `threshold`. */
  method StagedScore(orb: Orb, query: Orb, threshold: nat) returns (stage: Stage, score: nat)
    ensures stage ==
      if ORB_BITS - |Differ(orb, query, 256)| < threshold then After32
      else if ORB_BITS - |Differ(orb, query, 512)| < threshold then After64
      else Full
    ensures stage == Full ==> score == Score(orb, query)
    ensures stage != Full ==> Score(orb, query) < threshold
  {
    PrefixMismatches(orb, query);
    PrefixBound(orb, query, 4);
    PrefixBound(orb, query, 8);
    var mismatches := MismatchWords(orb[..4], query[..4]);
    if ORB_BITS - mismatches < threshold {
      return After32, 0;
    }
    mismatches := mismatches + MismatchWords(orb[4..8], query[4..8]);
    if ORB_BITS - mismatches < threshold {
      return After64, 0;
    }
    mismatches := mismatches + MismatchWords(orb[8..], query[8..]);
    return Full, ORB_BITS - mismatches;
  }

  /** Current `top_k_progressive`: accumulates prefix mismatches. */
  method TopKProgressive(bank: seq<Orb>, query: Orb, k: nat) returns (best: seq<Candidate>, stats: Stats)
    ensures best == Take(Ranked(bank, query), k)
    ensures stats == if k == 0 then Stats(|bank|, 0, 0, 0) else ExpectedStats(bank, query, k, |bank|)
    ensures k > 0 ==> stats.rejected32 + stats.rejected64 + stats.full == |bank|
    ensures k > 0 ==> CountsStages(bank, query, k, stats)
  {
    best := [];
    stats := Stats(|bank|, 0, 0, 0);
    if k == 0 {
      RankedIsTheSortedBank(bank, query);
      return;
    }
    for i := 0 to |bank|
      invariant best == Take(Ranked(bank[..i], query), k)
      invariant stats == ExpectedStats(bank, query, k, i)
    {
      ScanStep(bank, query, k, i, best);
      var threshold := if |best| == k then best[k - 1].score else 0;
      var stage, score := Full, 0;
      if |best| == k {
        stage, score := StagedScore(bank[i], query, threshold);
      } else {
        score := ScoreXnor(bank[i], query);
      }
      stats := Counted(stats, stage);
      if stage != Full {
        continue;
      }
      best := InsertTopK(best, Candidate(i, score), k, Ranked(bank[..i], query));
    }
    assert bank[..|bank|] == bank;
    StagesPartition(bank, query, k, |bank|);
    ExpectedStatsCount(bank, query, k);
  }

  /** Frozen v0.2.0 `top_k_progressive`: recomputes every prefix and the full score. */
  method FrozenTopKProgressive(bank: seq<Orb>, query: Orb, k: nat) returns (best: seq<Candidate>, stats: Stats)
    ensures best == Take(Ranked(bank, query), k)
    ensures stats == if k == 0 then Stats(|bank|, 0, 0, 0) else ExpectedStats(bank, query, k, |bank|)
    ensures k > 0 ==> stats.rejected32 + stats.rejected64 + stats.full == |bank|
    ensures k > 0 ==> CountsStages(bank, query, k, stats)
  {
    best := [];
    stats := Stats(|bank|, 0, 0, 0);
    if k == 0 {
      RankedIsTheSortedBank(bank, query);
      return;
    }
    for i := 0 to |bank|
      invariant best == Take(Ranked(bank[..i], query), k)
      invariant stats == ExpectedStats(bank, query, k, i)
    {
      ScanStep(bank, query, k, i, best);
      var threshold := if |best| == k then best[k - 1].score else 0;
      if |best| == k {
        var upper32 := ProgressiveXnorBound(bank[i], query, 4);
        if upper32.value.upper < threshold {
          stats := stats.(rejected32 := stats.rejected32 + 1);
          continue;
        }
        var upper64 := ProgressiveXnorBound(bank[i], query, 8);
        if upper64.value.upper < threshold {
          stats := stats.(rejected64 := stats.rejected64 + 1);
          continue;
        }
      }
      stats := stats.(full := stats.full + 1);
      best := FrozenInsertTopK(best, Candidate(i, ScoreXnor(bank[i], query)), k, Ranked(bank[..i], query));
    }
    assert bank[..|bank|] == bank;
    StagesPartition(bank, query, k, |bank|);
    ExpectedStatsCount(bank, query, k);
  }

  /** Frozen v0.2.0 `top_k`. */
  method FrozenTopK(bank: seq<Orb>, query: Orb, k: nat) returns (best: seq<Candidate>)
    ensures best == Take(Ranked(bank, query), k)
  {
    best := [];
    if k == 0 {
      RankedIsTheSortedBank(bank, query);
      return;
    }
    for i := 0 to |bank|
      invariant best == Take(Ranked(bank[..i], query), k)
    {
      RankedIsTheSortedBank(bank[..i], query);
      RankedStep(bank, query, i);
      best := FrozenInsertTopK(best, Candidate(i, ScoreXnor(bank[i], query)), k, Ranked(bank[..i], query));
    }
    assert bank[..|bank|] == bank;
  }

  /** The three counters of the comparison instrument. */
  function StageCounts(stats: Stats): (counts: seq<nat>)
    ensures |counts| == 3
  {
    [stats.rejected32, stats.rejected64, stats.full]
  }

  /** One mode of the comparison instrument: frozen and current `top_k`, then the two early-exit scans. */
  method RunMode(mode: nat, bank: seq<Orb>, query: Orb, k: nat)
    returns (output: seq<Candidate>, counts: seq<nat>)
    ensures output == Take(Ranked(bank, query), k)
    ensures counts ==
      if mode < 2 then [0, 0, 0]
      else if k == 0 then StageCounts(Stats(|bank|, 0, 0, 0))
      else StageCounts(ExpectedStats(bank, query, k, |bank|))
    ensures mode >= 2 && k > 0 ==> CountsStages(bank, query, k, Stats(|bank|, counts[0], counts[1], counts[2]))
  {
    var stats;
    match mode
    case 0 =>
      output := FrozenTopK(bank, query, k);
      counts := [0, 0, 0];
    case 1 =>
      output := TopK(bank, query, k);
      counts := [0, 0, 0];
    case 2 =>
      output, stats := FrozenTopKProgressive(bank, query, k);
      counts := StageCounts(stats);
    case _ =>
      output, stats := TopKProgressive(bank, query, k);
      counts := StageCounts(stats);
  }

  /** The mode of the i-th of four runs. */
  function ModeAt(first: nat, i: nat): nat {
    (first + i) % 4
  }

  lemma EveryModeRuns(first: nat, mode: nat)
    requires mode < 4
    ensures exists i :: 0 <= i < 4 && ModeAt(first, i) == mode
  {
    assert ModeAt(first, (mode + 4 - first % 4) % 4) == mode;
  }

  /** The comparison instrument: in whatever order its four modes run, all return the list of the frozen
      `top_k`, and both early-exit modes run and give the same counters. */
  method CompareModes(bank: seq<Orb>, query: Orb, k: nat, first: nat)
    returns (expected: seq<Candidate>, outputs: seq<seq<Candidate>>, stages: seq<Option<seq<nat>>>)
    ensures |outputs| == 4 && forall i :: 0 <= i < 4 ==> outputs[i] == expected
    ensures |stages| == 2 && stages[0] == stages[1] && stages[0].Some?
  {
    expected := FrozenTopK(bank, query, k);
    outputs, stages := [], [None, None];
    ghost var counters :=
      if k == 0 then StageCounts(Stats(|bank|, 0, 0, 0)) else StageCounts(ExpectedStats(bank, query, k, |bank|));
    for offset := 0 to 4
      invariant |outputs| == offset && forall i :: 0 <= i < offset ==> outputs[i] == expected
      invariant |stages| == 2
      invariant forall i :: 0 <= i < offset && 2 <= ModeAt(first, i) ==> stages[ModeAt(first, i) - 2] == Some(counters)
    {
      var mode := ModeAt(first, offset);
      var output, counts := RunMode(mode, bank, query, k);
      outputs := outputs + [output];
      if mode >= 2 {
        stages := stages[mode - 2 := Some(counts)];
      }
    }
    EveryModeRuns(first, 2);
    EveryModeRuns(first, 3);
  }
}
