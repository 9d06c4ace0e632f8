/** The pointer-chase table of `gel-physics`: a shuffled order turned into one cycle. */
module PointerChase {
  import opened Counting

  /** Each of 0..n exactly once. */
  ghost predicate IsPermutation(order: seq<nat>, n: nat) {
    && |order| == n
    && (forall i :: 0 <= i < n ==> order[i] < n)
    && forall i, j :: 0 <= i < j < n ==> order[i] != order[j]
  }

  /** The table sends every entry of the order to the next one, the last to the first. */
  predicate IsCycle(order: seq<nat>, next: seq<nat>) {
    && |next| == |order|
    && (forall i :: 0 <= i < |order| ==> order[i] < |next|)
    && forall i :: 0 <= i < |order| ==> next[order[i]] == order[if i + 1 == |order| then 0 else i + 1]
  }

  /** The cursor after `m` steps from `start`. */
  function Walk(next: seq<nat>, start: nat, m: nat): nat {
    if m == 0 then start
    else
      var at := Walk(next, start, m - 1);
      if at < |next| then next[at] else at
  }

  /** How often a slot is visited in the first `m` steps, the start not counted. */
  function Visits(next: seq<nat>, start: nat, m: nat, slot: nat): nat {
    if m == 0 then 0
    else Visits(next, start, m - 1, slot) + if Walk(next, start, m) == slot then 1 else 0
  }

  function Swapped(order: seq<nat>, i: nat, j: nat): seq<nat>
    requires i < |order| && j < |order|
  {
    order[i := order[j]][j := order[i]]
  }

  /** The order after the swaps of positions `i - 1` down to 1. */
  function Shuffled(order: seq<nat>, i: nat, pick: nat -> nat): (s: seq<nat>)
    requires i <= |order|
    ensures |s| == |order|
    decreases i
  {
    if i <= 1 then order
    else Shuffled(Swapped(order, i - 1, pick(i - 1) % i), i - 1, pick)
  }

  lemma {:induction false} ShuffledPermutes(order: seq<nat>, i: nat, pick: nat -> nat, n: nat)
    requires IsPermutation(order, n) && i <= n
    ensures IsPermutation(Shuffled(order, i, pick), n)
    decreases i
  {
    if i > 1 {
      ShuffledPermutes(Swapped(order, i - 1, pick(i - 1) % i), i - 1, pick, n);
    }
  }

  lemma ShuffleStep(order: seq<nat>, i: nat, pick: nat -> nat, j: nat)
    requires 1 < i <= |order| && j == pick(i - 1) % i
    ensures j < i && Shuffled(order, i, pick) == Shuffled(Swapped(order, i - 1, j), i - 1, pick)
  {
  }

  lemma SwapKeepsLength(order: seq<nat>, i: nat, j: nat)
    requires i < |order| && j < |order|
    ensures |Swapped(order, i, j)| == |order|
  {
  }

  /** Equal draws at position `k`, reduced modulo that position plus one. */
  predicate SameDraw(p: nat -> nat, q: nat -> nat, k: nat) {
    p(k) % (k + 1) == q(k) % (k + 1)
  }

  lemma TopDraws(p: nat -> nat, q: nat -> nat, i: nat)
    requires i > 1
    ensures SameDraw(p, q, i - 1) <==> p(i - 1) % i == q(i - 1) % i
  {
  }

  /** Only the draws below `i` count. */
  lemma {:induction false} DrawsBelow(order: seq<nat>, i: nat, p: nat -> nat, q: nat -> nat)
    requires i <= |order| && forall k :: 1 <= k < i ==> SameDraw(p, q, k)
    ensures Shuffled(order, i, p) == Shuffled(order, i, q)
    decreases i
  {
    if i > 1 {
      hide *;
      assert SameDraw(p, q, i - 1);
      TopDraws(p, q, i);
      var j := p(i - 1) % i;
      ShuffleStep(order, i, p, j);
      ShuffleStep(order, i, q, j);
      SwapKeepsLength(order, i - 1, j);
      DrawsBelow(Swapped(order, i - 1, j), i - 1, p, q);
    }
  }

  lemma SwapTop(order: seq<nat>, i: nat, j: nat)
    requires j <= i < |order|
    ensures |Swapped(order, i, j)| == |order| && Swapped(order, i, j)[i] == order[j]
    ensures forall k :: i < k < |order| ==> Swapped(order, i, j)[k] == order[k]
  {
  }

  lemma {:induction false} TopIsDrawn(order: seq<nat>, i: nat, pick: nat -> nat)
    requires i <= |order|
    ensures forall k :: i <= k < |order| ==> Shuffled(order, i, pick)[k] == order[k]
    ensures i > 1 ==> pick(i - 1) % i < i && Shuffled(order, i, pick)[i - 1] == order[pick(i - 1) % i]
    decreases i
  {
    if i > 1 {
      var j := pick(i - 1) % i;
      hide *;
      ShuffleStep(order, i, pick, j);
      SwapTop(order, i - 1, j);
      TopIsDrawn(Swapped(order, i - 1, j), i - 1, pick);
    }
  }

  lemma SwapPermutes(order: seq<nat>, n: nat, i: nat, j: nat)
    requires IsPermutation(order, n) && i < n && j < n
    ensures |order| == n && IsPermutation(Swapped(order, i, j), n)
  {
  }

  lemma SameEntry(order: seq<nat>, n: nat, i: nat, j: nat)
    requires IsPermutation(order, n) && i < n && j < n && order[i] == order[j]
    ensures i == j
  {
  }

  /** No order is drawn twice: equal results need equal reduced draws, */
  lemma {:induction false} DrawsAreUnique(order: seq<nat>, n: nat, i: nat, p: nat -> nat, q: nat -> nat)
    requires IsPermutation(order, n) && i <= n && Shuffled(order, i, p) == Shuffled(order, i, q)
    ensures forall k :: 1 <= k < i ==> SameDraw(p, q, k)
    decreases i
  {
    if i > 1 {
      assert |order| == n;
      hide *;
      var j, l := p(i - 1) % i, q(i - 1) % i;
      TopDraws(p, q, i);
      TopIsDrawn(order, i, p);
      TopIsDrawn(order, i, q);
      SameEntry(order, n, j, l);
      ShuffleStep(order, i, p, j);
      ShuffleStep(order, i, q, j);
      SwapPermutes(order, n, i - 1, j);
      DrawsAreUnique(Swapped(order, i - 1, j), n, i - 1, p, q);
    }
  }

  lemma SwapFits(order: seq<nat>, target: seq<nat>, n: nat, i: nat, j: nat)
    requires IsPermutation(order, n) && IsPermutation(target, n) && 1 < i <= n
    requires forall k :: i <= k < n ==> order[k] == target[k]
    requires j < i && order[j] == target[i - 1]
    ensures IsPermutation(Swapped(order, i - 1, j), n) && |Swapped(order, i - 1, j)| == n
    ensures forall k :: i - 1 <= k < n ==> Swapped(order, i - 1, j)[k] == target[k]
  {
    SwapPermutes(order, n, i - 1, j);
    SwapTop(order, i - 1, j);
    hide Swapped;
  }

  /** The draw `j` at the top, and the draws of `rest` below. */
  function Drawing(i: nat, j: nat, rest: nat -> nat): nat -> nat {
    (k: nat) => if k + 1 == i then j else rest(k)
  }

  lemma DrawnTop(i: nat, j: nat, rest: nat -> nat)
    requires j < i
    ensures Drawing(i, j, rest)(i - 1) % i == j
  {
  }

  lemma DrawnBelow(i: nat, j: nat, rest: nat -> nat)
    ensures forall k :: 1 <= k < i - 1 ==> SameDraw(Drawing(i, j, rest), rest, k)
  {
    forall k | 1 <= k < i - 1
      ensures SameDraw(Drawing(i, j, rest), rest, k)
    {
      assert Drawing(i, j, rest)(k) == rest(k);
    }
  }

  lemma {:induction false} DrawFirst(order: seq<nat>, i: nat, j: nat, pick: nat -> nat, rest: nat -> nat)
    requires 1 < i <= |order| && pick(i - 1) % i == j
    requires forall k :: 1 <= k < i - 1 ==> SameDraw(pick, rest, k)
    ensures j < i && Shuffled(order, i, pick) == Shuffled(Swapped(order, i - 1, j), i - 1, rest)
  {
    hide *;
    ShuffleStep(order, i, pick, j);
    SwapKeepsLength(order, i - 1, j);
    DrawsBelow(Swapped(order, i - 1, j), i - 1, pick, rest);
  }

  lemma WithDraw(order: seq<nat>, i: nat, j: nat, rest: nat -> nat) returns (pick: nat -> nat)
    requires 1 < i <= |order| && j < i
    ensures Shuffled(order, i, pick) == Shuffled(Swapped(order, i - 1, j), i - 1, rest)
  {
    hide *;
    pick := Drawing(i, j, rest);
    DrawnTop(i, j, rest);
    DrawnBelow(i, j, rest);
    DrawFirst(order, i, j, pick, rest);
  }

  /** and every order is drawn by some: the shuffle is fair when the reduced draws are. */
  lemma {:induction false} EveryOrderIsDrawn(order: seq<nat>, target: seq<nat>, n: nat, i: nat)
    returns (pick: nat -> nat)
    requires IsPermutation(order, n) && IsPermutation(target, n) && i <= n
    requires forall k :: i <= k < n ==> order[k] == target[k]
    ensures Shuffled(order, i, pick) == target
    decreases i
  {
    if i <= 1 {
      pick := _ => 0;
      LastIsLeft(order, target, n);
    } else {
      assert |order| == n;
      hide *;
      var j := Where(order, target, n, i);
      SwapFits(order, target, n, i, j);
      var rest := EveryOrderIsDrawn(Swapped(order, i - 1, j), target, n, i - 1);
      pick := WithDraw(order, i, j, rest);
    }
  }

  function At(order: seq<nat>): nat -> nat {
    (k: nat) => if k < |order| then order[k] else k
  }

  /** A permutation holds every number. */
  lemma HoldsAll(order: seq<nat>, n: nat, x: nat) returns (j: nat)
    requires IsPermutation(order, n) && x < n
    ensures j < n && order[j] == x
  {
    var f := At(order);
    forall a: nat, b: nat | a in Below(n) && b in Below(n) && f(a) == f(b)
      ensures a == b
    {
    }
    InjectionIsOnto(Below(n), f, x);
    j :| j in Below(n) && f(j) == x;
  }

  /** Where the order now holds what the target wants at position `i - 1`. */
  lemma Where(order: seq<nat>, target: seq<nat>, n: nat, i: nat) returns (j: nat)
    requires IsPermutation(order, n) && IsPermutation(target, n) && 1 <= i <= n
    requires forall k :: i <= k < n ==> order[k] == target[k]
    ensures j < i && order[j] == target[i - 1]
  {
    j := HoldsAll(order, n, target[i - 1]);
  }

  lemma LastIsLeft(order: seq<nat>, target: seq<nat>, n: nat)
    requires IsPermutation(order, n) && IsPermutation(target, n)
    requires forall k :: 1 <= k < n ==> order[k] == target[k]
    ensures order == target
  {
    if n > 0 {
      var j := Where(order, target, n, 1);
    }
  }

  /** The shuffle: one swap per position from the top down; `pick(i)` is the random word drawn there. */
  method Shuffle(order: array<nat>, pick: nat -> nat)
    modifies order
    ensures order[..] == Shuffled(old(order[..]), order.Length, pick)
  {
    var i := order.Length;
    while i > 1
      invariant 0 <= i <= order.Length
      invariant Shuffled(order[..], i, pick) == Shuffled(old(order[..]), order.Length, pick)
    {
      i := i - 1;
      var j := pick(i) % (i + 1);
      ghost var before := order[..];
      order[i], order[j] := order[j], order[i];
      assert order[..] == Swapped(before, i, j);
    }
  }

  function InOrder(n: nat): (s: seq<nat>)
    ensures |s| == n && forall i :: 0 <= i < n ==> s[i] == i
  {
    seq(n, i requires 0 <= i < n => i)
  }

  /** The table construction: for any random choices the result is one cycle through all slots. */
  method BuildTable(slots: nat, pick: nat -> nat) returns (order: seq<nat>, next: seq<nat>)
    requires slots >= 2
    ensures order == Shuffled(InOrder(slots), slots, pick) && |next| == slots
    ensures IsPermutation(order, slots) && IsCycle(order, next)
  {
    var a := new nat[slots](i requires 0 <= i < slots => i);
    assert a[..] == InOrder(slots);
    ShuffledPermutes(a[..], slots, pick, slots);
    Shuffle(a, pick);
    order := a[..];
    next := LinkSlots(order, slots);
  }

  /** Every window of the order becomes a link; the last slot closes the cycle. */
  method LinkSlots(order: seq<nat>, slots: nat) returns (next: seq<nat>)
    requires slots >= 2 && IsPermutation(order, slots)
    ensures IsCycle(order, next)
  {
    var table := new nat[slots](_ => 0);
    for w := 0 to slots - 1
      invariant forall i :: 0 <= i < w ==> table[order[i]] == order[i + 1]
    {
      table[order[w]] := order[w + 1];
    }
    table[order[slots - 1]] := order[0];
    next := table[..];
  }

  lemma SlotIndex(slots: nat, m: nat)
    requires slots > 0
    ensures (m + 1) % slots == if m % slots + 1 == slots then 0 else m % slots + 1
  {
    var q, r := m / slots, m % slots;
    assert m == slots * q + r;
    if r + 1 == slots {
      assert m + 1 == slots * (q + 1);
      Remainder(slots, q + 1, 0);
    } else {
      Remainder(slots, q, r + 1);
    }
  }

  lemma Remainder(slots: nat, q: nat, r: nat)
    requires r < slots
    ensures (slots * q + r) % slots == r
  {
    var n := slots * q + r;
    var d := n / slots;
    assert n == slots * d + n % slots;
    if d < q {
      ProductMono(d + 1, q, slots);
    } else if q < d {
      ProductMono(q + 1, d, slots);
    }
  }

  /** After `m` steps the cursor is at `order[m mod slots]`. */
  lemma {:induction false} CursorPosition(order: seq<nat>, next: seq<nat>, m: nat)
    requires order != [] && IsCycle(order, next)
    ensures Walk(next, order[0], m) == order[m % |order|]
  {
    if m != 0 {
      CursorPosition(order, next, m - 1);
      SlotIndex(|order|, m - 1);
    }
  }

  /** The index reached `k` steps into lap `q`. */
  lemma LapPosition(n: nat, q: nat, k: nat)
    requires 0 < n && k <= n
    ensures (n * q + k) % n == if k == n then 0 else k
  {
    if k == n {
      assert n * q + n == n * (q + 1) + 0;
      Remainder(n, q + 1, 0);
    } else {
      Remainder(n, q, k);
    }
  }

  /** Whether index `at` is met within the first `k` steps of a lap. */
  predicate Visited(n: nat, at: nat, k: nat) {
    if at == 0 then k == n else at <= k
  }

  /** One more lap visits every slot exactly once more. */
  lemma {:induction false} OneLap(order: seq<nat>, next: seq<nat>, base: nat, q: nat, k: nat, slot: nat, at: nat)
    requires order != [] && IsPermutation(order, |order|) && IsCycle(order, next)
    requires base == |order| * q && k <= |order| && at < |order| && order[at] == slot
    ensures Visits(next, order[0], base + k, slot) ==
      Visits(next, order[0], base, slot) + if Visited(|order|, at, k) then 1 else 0
  {
    if k != 0 {
      OneLap(order, next, base, q, k - 1, slot, at);
      CursorPosition(order, next, base + k);
      LapPosition(|order|, q, k);
      var here := if k == |order| then 0 else k;
      assert order[here] == slot <==> here == at;
    }
  }

  /** A walk of c laps visits every slot exactly c times; four laps visit each four times. */
  lemma {:induction false} LapsVisitEvenly(order: seq<nat>, next: seq<nat>, c: nat, slot: nat, at: nat)
    requires order != [] && IsPermutation(order, |order|) && IsCycle(order, next)
    requires at < |order| && order[at] == slot
    ensures Visits(next, order[0], |order| * c, slot) == c
  {
    var n := |order|;
    if c == 0 {
      assert n * 0 == 0;
    } else {
      LapsVisitEvenly(order, next, c - 1, slot, at);
      assert n * c == n * (c - 1) + n;
      OneLap(order, next, n * (c - 1), c - 1, n, slot, at);
    }
  }

  /** After any number of steps the visit counts of two slots differ by at most one. */
  lemma VisitsAreBalanced(order: seq<nat>, next: seq<nat>, c: nat, k: nat, slot: nat, at: nat)
    requires order != [] && IsPermutation(order, |order|) && IsCycle(order, next)
    requires at < |order| && order[at] == slot && k <= |order|
    ensures c <= Visits(next, order[0], |order| * c + k, slot) <= c + 1
  {
    LapsVisitEvenly(order, next, c, slot, at);
    OneLap(order, next, |order| * c, c, k, slot, at);
  }

  /** The measured walk: four laps, or 32768 steps for a small table. */
  method Chase(bytes: nat, pick: nat -> nat) returns (order: seq<nat>, next: seq<nat>, cursor: nat, steps: nat)
    requires bytes < 0x1_0000_0000_0000_0000
    ensures |order| == (if bytes / 8 > 2 then bytes / 8 else 2)
    ensures IsPermutation(order, |order|) && IsCycle(order, next)
    ensures steps == if 4 * |order| > 32_768 then 4 * |order| else 32_768
    ensures cursor == order[steps % |order|]
    ensures steps == 4 * |order| ==> forall at :: 0 <= at < |order| ==> Visits(next, order[0], steps, order[at]) == 4
  {
    var slots := if bytes / 8 > 2 then bytes / 8 else 2;
    order, next := BuildTable(slots, pick);
    steps := if 4 * slots > 32_768 then 4 * slots else 32_768;
    cursor := order[0];
    for m := 0 to steps
      invariant cursor == Walk(next, order[0], m)
      invariant cursor < |next|
    {
      CursorPosition(order, next, m + 1);
      cursor := next[cursor];
    }
    CursorPosition(order, next, steps);
    if steps == 4 * |order| {
      forall at | 0 <= at < |order|
        ensures Visits(next, order[0], steps, order[at]) == 4
      {
        LapsVisitEvenly(order, next, 4, order[at], at);
      }
    }
  }
}
