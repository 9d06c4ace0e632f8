/** `Reader::scan_into`: a bank scanned by several threads into one output buffer. The threads
    write single slots in any interleaving and the system may refuse to start any of them. */
module BankScan {
  import opened Counting
  import opened Orbs
  import opened Wrappers
  import opened PhaseQuad

  const MAX_WORKERS: nat := 64

  datatype ScanError = WorkerCountZero | BufferAllocationFailed

  /** `budget`. */
  function Budget(requested: nat, records: nat, available: nat): Result<nat, ScanError> {
    if requested == 0 then Err(WorkerCountZero)
    else Ok(Min(Min(Min(requested, if available == 0 then 1 else available), MAX_WORKERS), records))
  }

  function Min(a: nat, b: nat): nat {
    if a < b then a else b
  }

  /** One call; `allocates` says whether the buffer can grow, `stale` is its old contents. */
  datatype Call = Call(query: Record, bank: seq<Record>, policy: Policy, requested: nat,
                       available: nat, allocates: bool, stale: seq<Evidence>)

  datatype Phase =
    | Entering
    | Forking
    | CallerFilling(next: nat)
    | Joining
    | Refilling(next: nat)
    | Finished(result: Result<bool, ScanError>)

  /** `workers[w]` is the next bank index thread `w` writes. */
  datatype State = State(phase: Phase, output: seq<Evidence>, workers: seq<nat>, refused: bool)

  datatype Step =
    | Enter
    | SpawnWorker
    | RefuseWorker
    | EndForking
    | CallerWrites
    | EndCaller
    | WorkerWrites(worker: nat)
    | EndScope
    | RefillWrites
    | EndRefill

  function Silent(c: Call): bool {
    forall j :: 0 <= j < DIM ==> !ActiveMask(c.query)[j]
  }

  /** What slot `i` must hold: the serial read. */
  function Want(c: Call, i: nat): Evidence
    requires !Silent(c) && i < |c.bank|
  {
    NotSilent(c);
    ReadOf(c.query, c.bank[i], c.policy).value
  }

  lemma NotSilent(c: Call)
    requires !Silent(c)
    ensures forall body :: ReadOf(c.query, body, c.policy).Some?
  {
    var j :| 0 <= j < DIM && ActiveMask(c.query)[j];
    assert j in Support(c.query);
  }

  /** The buffer after `resize`: old values kept, new slots at the default. */
  function Resized(stale: seq<Evidence>, n: nat): (r: seq<Evidence>)
    ensures |r| == n
  {
    if n <= |stale| then stale[..n] else stale + seq(n - |stale|, _ => Evidence([], 0))
  }

  function Workers(c: Call): nat
    requires c.requested > 0
  {
    Budget(c.requested, |c.bank|, c.available).value
  }

  /** Records per thread: `bank.len().div_ceil(workers)`. */
  function ChunkSize(c: Call): nat
    requires c.requested > 0 && Workers(c) > 0
  {
    (|c.bank| + Workers(c) - 1) / Workers(c)
  }

  /** The bank range of thread `w`; the caller has the first chunk. */
  function SliceStart(c: Call, w: nat): nat
    requires c.requested > 0 && Workers(c) > 0
  {
    ChunkSize(c) * (w + 1)
  }

  function SliceEnd(c: Call, w: nat): nat
    requires c.requested > 0 && Workers(c) > 0
  {
    Min(ChunkSize(c) * (w + 2), |c.bank|)
  }

  /** The buffer is long enough already, or it can grow: reserving nothing cannot fail. */
  predicate HasRoom(c: Call) {
    |c.bank| <= |c.stale| || c.allocates
  }

  /** The parallel path is taken. */
  predicate Parallel(c: Call) {
    c.requested > 0 && !Silent(c) && HasRoom(c) && |c.bank| > 0 && Workers(c) > 1
  }

  /** The chunks fit: the split point is in range, the chunks of all workers cover the bank,
      and there is never a chunk without a worker. */
  lemma ChunksFit(c: Call, w: nat)
    requires Parallel(c)
    ensures 0 < ChunkSize(c) <= |c.bank|
    ensures Workers(c) <= MAX_WORKERS && Workers(c) <= |c.bank|
    ensures (ChunkSize(c) - 1) * Workers(c) < |c.bank| <= ChunkSize(c) * Workers(c)
    ensures SliceStart(c, w) < |c.bank| ==> w + 1 < Workers(c)
  {
    var n, k, size := |c.bank|, Workers(c), ChunkSize(c);
    var m := n + k - 1;
    assert m == k * size + m % k;
    assert size * k == k * size && (size - 1) * k == size * k - k;
    if size > n {
      ChunkTooLarge(n, k, size);
    }
    if Workers(c) <= w + 1 {
      ProductMono(k, w + 1, size);
    }
  }

  lemma ChunkTooLarge(n: nat, k: nat, size: nat)
    requires n < size && 1 <= k
    ensures k * size > n + k - 1
  {
    ProductMono(n + 1, size, k);
    assert k * (n + 1) == k * n + k;
    ProductMono(1, k, n);
  }

  /** Slices of different threads never overlap, and none overlaps the caller's chunk. */
  lemma SlicesDisjoint(c: Call, v: nat, w: nat, i: nat)
    requires Parallel(c) && v < w
    ensures !(SliceStart(c, v) <= i < SliceEnd(c, v) && SliceStart(c, w) <= i < SliceEnd(c, w))
    ensures SliceStart(c, v) <= i || SliceStart(c, w) <= i ==> ChunkSize(c) <= i
  {
    ProductMono(v + 2, w + 1, ChunkSize(c));
    ProductMono(1, v + 1, ChunkSize(c));
    ProductMono(1, w + 1, ChunkSize(c));
  }

  function Init(c: Call): State {
    State(Entering, c.stale, [], false)
  }

  predicate Enabled(c: Call, s: State, step: Step) {
    match step
    case Enter => s.phase == Entering
    case SpawnWorker => s.phase == Forking && Parallel(c) && SliceStart(c, |s.workers|) < |c.bank|
    case RefuseWorker => s.phase == Forking && Parallel(c) && SliceStart(c, |s.workers|) < |c.bank|
    case EndForking => s.phase == Forking && Parallel(c) && SliceStart(c, |s.workers|) >= |c.bank|
    case CallerWrites =>
      s.phase.CallerFilling? && Parallel(c) && s.phase.next < ChunkSize(c) &&
      s.phase.next < |s.output| && s.phase.next < |c.bank|
    case EndCaller => s.phase.CallerFilling? && Parallel(c) && s.phase.next >= ChunkSize(c)
    case WorkerWrites(w) =>
      w < |s.workers| && Parallel(c) && s.workers[w] < SliceEnd(c, w) && s.workers[w] < |s.output|
    case EndScope =>
      s.phase == Joining && Parallel(c) && forall w :: 0 <= w < |s.workers| ==> s.workers[w] >= SliceEnd(c, w)
    case RefillWrites => s.phase.Refilling? && !Silent(c) && s.phase.next < |c.bank| && s.phase.next < |s.output|
    case EndRefill => s.phase.Refilling? && s.phase.next >= |c.bank|
  }

  function EnterState(c: Call, s: State): State {
    if c.requested == 0 then s.(output := [], phase := Finished(Err(WorkerCountZero)))
    else if Silent(c) then s.(output := [], phase := Finished(Ok(false)))
    else if !HasRoom(c) then s.(output := [], phase := Finished(Err(BufferAllocationFailed)))
    else
      var resized := s.(output := Resized(c.stale, |c.bank|));
      if |c.bank| == 0 then resized.(phase := Finished(Ok(true)))
      else if Workers(c) == 1 then resized.(phase := Refilling(0))
      else resized.(phase := Forking)
  }

  function Apply(c: Call, s: State, step: Step): State
    requires Enabled(c, s, step)
  {
    match step
    case Enter => EnterState(c, s)
    case SpawnWorker => s.(workers := s.workers + [SliceStart(c, |s.workers|)])
    case RefuseWorker => s.(phase := Joining, refused := true)
    case EndForking => s.(phase := CallerFilling(0))
    case CallerWrites =>
      s.(phase := CallerFilling(s.phase.next + 1), output := s.output[s.phase.next := Want(c, s.phase.next)])
    case EndCaller => s.(phase := Joining)
    case WorkerWrites(w) =>
      s.(workers := s.workers[w := s.workers[w] + 1], output := s.output[s.workers[w] := Want(c, s.workers[w])])
    case EndScope => if s.refused then s.(phase := Refilling(0)) else s.(phase := Finished(Ok(true)))
    case RefillWrites =>
      s.(phase := Refilling(s.phase.next + 1), output := s.output[s.phase.next := Want(c, s.phase.next)])
    case EndRefill => s.(phase := Finished(Ok(true)))
  }

  function After(c: Call, steps: seq<Step>): Option<State> {
    if steps == [] then Some(Init(c))
    else
      var n := |steps| - 1;
      match After(c, steps[..n])
      case None => None
      case Some(before) => if Enabled(c, before, steps[n]) then Some(Apply(c, before, steps[n])) else None
  }

  // ---- invariant ----

  predicate Filled(c: Call, s: State, lo: nat, hi: nat)
    requires !Silent(c)
  {
    forall i :: lo <= i < hi && i < |c.bank| && i < |s.output| ==> s.output[i] == Want(c, i)
  }

  /** Every thread has filled its slice up to its cursor. */
  predicate WorkersInv(c: Call, s: State)
    requires Parallel(c)
  {
    && |s.output| == |c.bank|
    && |s.workers| < Workers(c)
    && forall w :: 0 <= w < |s.workers| ==>
         SliceStart(c, w) <= s.workers[w] <= SliceEnd(c, w) && Filled(c, s, SliceStart(c, w), s.workers[w])
  }

  predicate AllDone(c: Call, workers: seq<nat>) {
    forall w :: 0 <= w < |workers| ==> Parallel(c) && workers[w] >= SliceEnd(c, w)
  }

  predicate Inv(c: Call, s: State) {
    match s.phase
    case Entering => s == Init(c)
    case Forking => Parallel(c) && WorkersInv(c, s) && !s.refused
    case CallerFilling(next) =>
      Parallel(c) && WorkersInv(c, s) && !s.refused && SliceStart(c, |s.workers|) >= |c.bank| &&
      next <= ChunkSize(c) && Filled(c, s, 0, next)
    case Joining =>
      Parallel(c) && WorkersInv(c, s) &&
      (!s.refused ==> SliceStart(c, |s.workers|) >= |c.bank| && Filled(c, s, 0, ChunkSize(c)))
    case Refilling(next) =>
      c.requested > 0 && !Silent(c) && HasRoom(c) && |s.output| == |c.bank| && Filled(c, s, 0, next) &&
      (s.refused ==> Parallel(c)) &&
      AllDone(c, s.workers)
    case Finished(result) => Outcome(c, s, result)
  }

  /** What a finished scan guarantees. */
  predicate Outcome(c: Call, s: State, result: Result<bool, ScanError>) {
    match result
    case Err(e) =>
      s.output == [] && (e == WorkerCountZero <==> c.requested == 0) && (c.requested > 0 ==> !Silent(c) && !HasRoom(c))
    case Ok(false) => s.output == [] && c.requested > 0 && Silent(c)
    case Ok(true) =>
      c.requested > 0 && !Silent(c) && HasRoom(c) && |s.output| == |c.bank| &&
      forall i :: 0 <= i < |c.bank| ==> s.output[i] == Want(c, i)
  }

  /** Any write of a wanted value keeps every filled range filled. */
  lemma WriteKeepsFilled(c: Call, s: State, t: State, at: nat, lo: nat, hi: nat)
    requires !Silent(c) && at < |s.output| && at < |c.bank| && t.output == s.output[at := Want(c, at)]
    requires Filled(c, s, lo, hi)
    ensures Filled(c, t, lo, hi) && (hi == at ==> Filled(c, t, lo, hi + 1))
  {
  }

  lemma SpawnKeepsInv(c: Call, s: State)
    requires Inv(c, s) && Enabled(c, s, SpawnWorker)
    ensures Inv(c, Apply(c, s, SpawnWorker))
  {
    ChunksFit(c, |s.workers|);
    ProductMono(|s.workers| + 1, |s.workers| + 2, ChunkSize(c));
  }

  lemma WorkerKeepsInv(c: Call, s: State, w: nat)
    requires Inv(c, s) && Enabled(c, s, WorkerWrites(w))
    ensures Inv(c, Apply(c, s, WorkerWrites(w)))
  {
    hide Filled, SliceStart, SliceEnd, ChunkSize, Want;
    if s.phase == Forking || s.phase.CallerFilling? || s.phase == Joining {
      var t := Apply(c, s, WorkerWrites(w));
      WriteKeepsWorkers(c, s, t, s.workers[w], w);
      WriteKeepsCaller(c, s, t, s.workers[w]);
    }
  }

  lemma WriteKeepsWorkers(c: Call, s: State, t: State, at: nat, writer: nat)
    requires Parallel(c) && WorkersInv(c, s) && at < |s.output| && t.output == s.output[at := Want(c, at)]
    requires t.workers == (if writer < |s.workers| then s.workers[writer := at + 1] else s.workers)
    requires writer < |s.workers| ==> at == s.workers[writer] && at < SliceEnd(c, writer)
    ensures WorkersInv(c, t)
  {
    forall v | 0 <= v < |t.workers|
      ensures SliceStart(c, v) <= t.workers[v] <= SliceEnd(c, v) && Filled(c, t, SliceStart(c, v), t.workers[v])
    {
      WriteKeepsFilled(c, s, t, at, SliceStart(c, v), s.workers[v]);
    }
  }

  lemma WriteKeepsCaller(c: Call, s: State, t: State, at: nat)
    requires Parallel(c) && at < |s.output| == |c.bank| && t.output == s.output[at := Want(c, at)]
    ensures forall hi: nat :: Filled(c, s, 0, hi) ==> Filled(c, t, 0, hi)
  {
    forall hi: nat | Filled(c, s, 0, hi)
      ensures Filled(c, t, 0, hi)
    {
      WriteKeepsFilled(c, s, t, at, 0, hi);
    }
  }

  /** With every thread done, the caller's chunk and the slices cover the bank. */
  lemma {:induction false} SlicesCover(c: Call, s: State, m: nat)
    requires Parallel(c) && WorkersInv(c, s) && Filled(c, s, 0, ChunkSize(c)) && m <= |s.workers|
    requires forall w :: 0 <= w < |s.workers| ==> s.workers[w] >= SliceEnd(c, w)
    ensures Filled(c, s, 0, SliceStart(c, m))
  {
    if m == 0 {
      assert SliceStart(c, 0) == ChunkSize(c);
    } else {
      SlicesCover(c, s, m - 1);
      assert Filled(c, s, SliceStart(c, m - 1), s.workers[m - 1]);
      assert SliceStart(c, m) == ChunkSize(c) * (m - 1 + 2);
    }
  }

  lemma EnterKeepsInv(c: Call, s: State)
    requires Inv(c, s) && Enabled(c, s, Enter)
    ensures Inv(c, EnterState(c, s))
  {
  }

  lemma EndKeepsInv(c: Call, s: State)
    requires Inv(c, s) && Enabled(c, s, EndScope)
    ensures Inv(c, Apply(c, s, EndScope))
  {
    if !s.refused {
      SlicesCover(c, s, |s.workers|);
      assert Filled(c, s, 0, SliceStart(c, |s.workers|));
    }
  }

  lemma RefillKeepsInv(c: Call, s: State)
    requires Inv(c, s) && Enabled(c, s, RefillWrites)
    ensures Inv(c, Apply(c, s, RefillWrites))
  {
    var t := Apply(c, s, RefillWrites);
    WriteKeepsFilled(c, s, t, s.phase.next, 0, s.phase.next);
    assert t.workers == s.workers && Filled(c, t, 0, s.phase.next + 1);
  }

  lemma StepKeepsInv(c: Call, s: State, step: Step)
    requires Inv(c, s) && Enabled(c, s, step)
    ensures Inv(c, Apply(c, s, step))
  {
    match step
    case Enter => EnterKeepsInv(c, s);
    case SpawnWorker => SpawnKeepsInv(c, s);
    case CallerWrites =>
      var t := Apply(c, s, step);
      WriteKeepsWorkers(c, s, t, s.phase.next, |s.workers|);
      WriteKeepsFilled(c, s, t, s.phase.next, 0, s.phase.next);
    case WorkerWrites(w) => WorkerKeepsInv(c, s, w);
    case EndScope => EndKeepsInv(c, s);
    case RefillWrites => RefillKeepsInv(c, s);
    case _ =>
  }

  lemma {:induction false} ScheduleKeepsInv(c: Call, steps: seq<Step>, s: State)
    requires After(c, steps) == Some(s)
    ensures Inv(c, s)
  {
    if steps != [] {
      var n := |steps| - 1;
      var before := After(c, steps[..n]).value;
      ScheduleKeepsInv(c, steps[..n], before);
      StepKeepsInv(c, before, steps[n]);
    }
  }

  /** Whatever the interleaving, the refusals and the stale buffer: a finished scan holds the
      serial read of every record, and an error or a silent query leaves the buffer empty. */
  lemma {:induction false} EveryScanIsExact(c: Call, steps: seq<Step>, s: State)
    requires After(c, steps) == Some(s) && s.phase.Finished?
    ensures s.phase.result ==
      if c.requested == 0 then Err(WorkerCountZero)
      else if forall j :: 0 <= j < DIM ==> !OrbBit(c.query.mask, j) then Ok(false)
      else if |c.stale| < |c.bank| && !c.allocates then Err(BufferAllocationFailed)
      else Ok(true)
    ensures s.phase.result != Ok(true) ==> s.output == []
    ensures s.phase.result == Ok(true) ==>
      && |s.output| == |c.bank|
      && forall i :: 0 <= i < |c.bank| ==>
           && ReadOf(c.query, c.bank[i], c.policy) == Some(s.output[i])
           && IsEvidence(c.query, c.bank[i], c.policy, s.output[i])
  {
    ScheduleKeepsInv(c, steps, s);
    SilentIsMask(c);
    if s.phase.result == Ok(true) {
      NotSilent(c);
      forall i | 0 <= i < |c.bank|
        ensures ReadOf(c.query, c.bank[i], c.policy) == Some(s.output[i])
        ensures IsEvidence(c.query, c.bank[i], c.policy, s.output[i])
      {
        assert s.output[i] == Want(c, i);
        ReadIsEvidence(c.query, c.bank[i], c.policy);
      }
    }
  }

  lemma SilentIsMask(c: Call)
    ensures Silent(c) <==> forall j :: 0 <= j < DIM ==> !OrbBit(c.query.mask, j)
  {
    assert forall j :: 0 <= j < DIM ==> ActiveMask(c.query)[j] == OrbBit(c.query.mask, j);
  }

  /** The number of workers is the smallest of the four limits. */
  lemma BudgetIsExact(requested: nat, records: nat, available: nat, n: nat)
    ensures Budget(requested, records, available).Ok? <==> requested > 0
    ensures requested > 0 ==> (Budget(requested, records, available) == Ok(n) <==>
      && n <= requested && (n <= available || n <= 1) && n <= 64 && n <= records
      && (n == requested || (n == available > 0) || (available == 0 && n == 1) || n == 64 || n == records))
  {
  }

  /** At no time do more threads, the caller included, work on the bank than were requested, than the system
      reports, or than 64; the split point is in range; and the full refill starts only when every started
      thread has finished. */
  lemma {:induction false} ThreadsAreBounded(c: Call, steps: seq<Step>, s: State)
    requires After(c, steps) == Some(s) && Parallel(c)
    ensures s.phase in {Forking, Joining} || s.phase.CallerFilling? ==>
      && |s.workers| + 1 <= c.requested && |s.workers| + 1 <= c.available
      && |s.workers| + 1 <= 64 && |s.workers| + 1 <= |c.bank|
    ensures ChunkSize(c) <= |c.bank|
    ensures s.phase.Refilling? ==> forall w :: 0 <= w < |s.workers| ==> s.workers[w] >= SliceEnd(c, w)
  {
    ScheduleKeepsInv(c, steps, s);
    ChunksFit(c, 0);
  }

  // ---- progress ----

  /** Slots the started threads have still to write. */
  function Unwritten(c: Call, workers: seq<nat>): nat
    requires Parallel(c)
  {
    if workers == [] then 0
    else
      var w := |workers| - 1;
      Unwritten(c, workers[..w]) + if workers[w] < SliceEnd(c, w) then SliceEnd(c, w) - workers[w] else 0
  }

  lemma {:induction false} WriteShrinks(c: Call, workers: seq<nat>, w: nat)
    requires Parallel(c) && w < |workers| && workers[w] < SliceEnd(c, w)
    ensures Unwritten(c, workers[w := workers[w] + 1]) == Unwritten(c, workers) - 1
  {
    var n, next := |workers| - 1, workers[w := workers[w] + 1];
    if w == n {
      assert next[..n] == workers[..n];
    } else {
      WriteShrinks(c, workers[..n], w);
      assert next[..n] == workers[..n][w := workers[w] + 1];
    }
  }

  /** A bound on the steps still possible. */
  function StepsLeft(c: Call, s: State): nat {
    PhaseCost(c, s.phase, |s.workers|) + Threads(c, s.workers)
  }

  function PhaseCost(c: Call, phase: Phase, started: nat): nat {
    var n := |c.bank|;
    match phase
    case Entering => 5 + 2 * n + SpawnCost(n, n)
    case Forking => 4 + 2 * n + if started < n then SpawnCost(n - started, n) else 0
    case CallerFilling(next) => 3 + n + if Parallel(c) && next < ChunkSize(c) then ChunkSize(c) - next else 0
    case Joining => 2 + n
    case Refilling(next) => 1 + if next < n then n - next else 0
    case Finished(_) => 0
  }

  /** `k` threads still to start, each with a slice of at most `n` slots. */
  function SpawnCost(k: nat, n: nat): nat {
    if k == 0 then 0 else SpawnCost(k - 1, n) + n + 1
  }

  function Threads(c: Call, workers: seq<nat>): nat {
    if Parallel(c) then Unwritten(c, workers) else 0
  }

  /** No deadlock and no endless run: an unfinished scan has an enabled step, and every enabled
      step brings it closer to the end. */
  lemma {:induction false} EveryScanFinishes(c: Call, steps: seq<Step>, s: State)
    requires After(c, steps) == Some(s)
    ensures !s.phase.Finished? ==> exists step :: Enabled(c, s, step)
    ensures forall step :: Enabled(c, s, step) && !s.phase.Finished? ==>
      StepsLeft(c, Apply(c, s, step)) < StepsLeft(c, s)
  {
    ScheduleKeepsInv(c, steps, s);
    if !s.phase.Finished? {
      var step := SomeStep(c, s);
    }
    forall step | Enabled(c, s, step) && !s.phase.Finished?
      ensures StepsLeft(c, Apply(c, s, step)) < StepsLeft(c, s)
    {
      StepShrinks(c, s, step);
    }
  }

  lemma StepShrinks(c: Call, s: State, step: Step)
    requires Inv(c, s) && Enabled(c, s, step) && !s.phase.Finished?
    ensures StepsLeft(c, Apply(c, s, step)) < StepsLeft(c, s)
  {
    match step
    case Enter => EnterShrinks(c, s);
    case SpawnWorker => SpawnShrinks(c, s);
    case WorkerWrites(w) => WorkerShrinks(c, s, w);
    case EndForking => ChunksFit(c, 0);
    case _ =>
  }

  lemma EnterShrinks(c: Call, s: State)
    requires Inv(c, s) && Enabled(c, s, Enter)
    ensures StepsLeft(c, EnterState(c, s)) < StepsLeft(c, s)
  {
    assert s.workers == [];
  }

  lemma WorkerShrinks(c: Call, s: State, w: nat)
    requires Inv(c, s) && Enabled(c, s, WorkerWrites(w)) && !s.phase.Finished?
    ensures StepsLeft(c, Apply(c, s, WorkerWrites(w))) < StepsLeft(c, s)
  {
    WriteShrinks(c, s.workers, w);
  }

  lemma SpawnShrinks(c: Call, s: State)
    requires Inv(c, s) && Enabled(c, s, SpawnWorker)
    ensures StepsLeft(c, Apply(c, s, SpawnWorker)) < StepsLeft(c, s)
  {
    var k, n := |s.workers|, |c.bank|;
    ChunksFit(c, k);
    var grown := s.workers + [SliceStart(c, k)];
    assert grown[..k] == s.workers;
    assert k < n && SpawnCost(n - k, n) == SpawnCost(n - (k + 1), n) + n + 1;
  }

  lemma SomeStep(c: Call, s: State) returns (step: Step)
    requires Inv(c, s) && !s.phase.Finished?
    ensures Enabled(c, s, step) && step != RefuseWorker
  {
    if s.phase == Joining && exists w :: 0 <= w < |s.workers| && s.workers[w] < SliceEnd(c, w) {
      var w :| 0 <= w < |s.workers| && s.workers[w] < SliceEnd(c, w);
      step := WorkerWrites(w);
    } else {
      step := match s.phase
        case Entering => Enter
        case Forking => if SliceStart(c, |s.workers|) < |c.bank| then SpawnWorker else EndForking
        case CallerFilling(next) => if next < ChunkSize(c) then CallerWrites else EndCaller
        case Joining => EndScope
        case Refilling(next) => if next < |c.bank| then RefillWrites else EndRefill;
      if s.phase.CallerFilling? {
        ChunksFit(c, 0);
      }
    }
  }

  // ---- every refusal occurs ----

  lemma {:induction false} Extend(c: Call, steps: seq<Step>, s: State, step: Step)
    requires After(c, steps) == Some(s) && Enabled(c, s, step)
    ensures After(c, steps + [step]) == Some(Apply(c, s, step))
  {
    hide Enabled, Apply;
    assert (steps + [step])[..|steps|] == steps;
  }

  /** A refusal is remembered, and no thread is started after it. */
  predicate Continues(s: State, t: State) {
    s.refused && s.phase !in {Entering, Forking} ==>
      t.refused && t.phase !in {Entering, Forking} && |t.workers| == |s.workers|
  }

  lemma StepContinues(c: Call, s: State, step: Step)
    requires Enabled(c, s, step)
    ensures Continues(s, Apply(c, s, step))
  {
    hide Want, SliceStart, SliceEnd, ChunkSize;
  }

  lemma ContinuesOn(s: State, t: State, u: State)
    requires Continues(s, t) && Continues(t, u)
    ensures Continues(s, u)
  {
  }

  /** Whatever happened so far, the scan can finish. */
  lemma {:induction false} CanFinish(c: Call, steps: seq<Step>, s: State) returns (all: seq<Step>, t: State)
    requires After(c, steps) == Some(s)
    ensures After(c, all) == Some(t) && t.phase.Finished? && Continues(s, t)
    decreases StepsLeft(c, s)
  {
    if s.phase.Finished? {
      all, t := steps, s;
    } else {
      hide *;
      ScheduleKeepsInv(c, steps, s);
      var step := SomeStep(c, s);
      var next := Apply(c, s, step);
      StepShrinks(c, s, step);
      StepContinues(c, s, step);
      Extend(c, steps, s, step);
      all, t := CanFinish(c, steps + [step], next);
      ContinuesOn(s, next, t);
    }
  }

  /** The first `k` threads started. */
  lemma {:induction false} Started(c: Call, k: nat) returns (steps: seq<Step>, s: State)
    requires Parallel(c) && (k == 0 || SliceStart(c, k - 1) < |c.bank|)
    ensures After(c, steps) == Some(s) && s.phase == Forking && |s.workers| == k
  {
    hide SliceEnd, Want;
    if k == 0 {
      assert [Enter][..0] == [];
      assert After(c, [Enter][..0]) == Some(Init(c));
      steps, s := [Enter], EnterState(c, Init(c));
    } else {
      ProductMono(k - 1, k, ChunkSize(c));
      var before, b := Started(c, k - 1);
      Extend(c, before, b, SpawnWorker);
      steps, s := before + [SpawnWorker], Apply(c, b, SpawnWorker);
    }
  }

  /** Any start of a thread may be refused, and the scan then still ends, with the refill. */
  lemma {:induction false} EveryRefusalOccurs(c: Call, k: nat)
    requires Parallel(c) && SliceStart(c, k) < |c.bank|
    ensures exists steps, s :: After(c, steps) == Some(s) && s.phase.Finished? && s.refused && |s.workers| == k
  {
    ProductMono(k, k + 1, ChunkSize(c));
    var before, b := Started(c, k);
    Extend(c, before, b, RefuseWorker);
    hide After;
    var steps, s := CanFinish(c, before + [RefuseWorker], Apply(c, b, RefuseWorker));
  }
}
