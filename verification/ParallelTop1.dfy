/** Serial and fork/join Top-1 of `gel-reader`. The fork/join is a state machine over its
    steps: a schedule is any sequence of enabled steps, and the operating system chooses
    which starts are refused, which workers panic and how the steps interleave. */
module ParallelTop1 {
  import opened Counting
  import opened Orbs
  import opened Ranking
  import opened Wrappers

  /** The winner among ORBs `lo..hi`, scanned upwards with a strict comparison. */
  function BestIn(bank: seq<Orb>, query: Orb, lo: nat, hi: nat): Option<Candidate>
    requires lo <= hi <= |bank|
    decreases hi
  {
    if lo == hi then None
    else
      var here := Scored(bank, query, hi - 1);
      match BestIn(bank, query, lo, hi - 1)
      case None => Some(here)
      case Some(best) => Some(if here.score > best.score then here else best)
  }

  /** Highest score, lowest index, over a nonempty range; nothing over an empty one. */
  predicate IsBest(bank: seq<Orb>, query: Orb, lo: nat, hi: nat, best: Option<Candidate>)
    requires lo <= hi <= |bank|
  {
    match best
    case None => lo == hi
    case Some(c) =>
      lo <= c.index < hi && c == Scored(bank, query, c.index) &&
      forall i :: lo <= i < hi && i != c.index ==> Better(c, Scored(bank, query, i))
  }

  lemma {:induction false} BestInIsBest(bank: seq<Orb>, query: Orb, lo: nat, hi: nat)
    requires lo <= hi <= |bank|
    ensures IsBest(bank, query, lo, hi, BestIn(bank, query, lo, hi))
    decreases hi
  {
    if lo != hi {
      BestInIsBest(bank, query, lo, hi - 1);
    }
  }

  lemma BestIsUnique(bank: seq<Orb>, query: Orb, lo: nat, hi: nat, x: Option<Candidate>, y: Option<Candidate>)
    requires lo <= hi <= |bank|
    requires IsBest(bank, query, lo, hi, x) && IsBest(bank, query, lo, hi, y)
    ensures x == y
  {
  }

  /** Top-1 is the head of the Top-K reference list. */
  lemma {:induction false} BestHeadsRanking(bank: seq<Orb>, query: Orb)
    requires bank != []
    ensures BestIn(bank, query, 0, |bank|) == Some(Ranked(bank, query)[0])
  {
    RankedIsTheSortedBank(bank, query);
    var ranked := Ranked(bank, query);
    assert ranked[0] in ranked;
    forall i | 0 <= i < |bank| && i != ranked[0].index
      ensures Better(ranked[0], Scored(bank, query, i))
    {
      assert Scored(bank, query, i) in ranked;
    }
    BestInIsBest(bank, query, 0, |bank|);
    BestIsUnique(bank, query, 0, |bank|, BestIn(bank, query, 0, |bank|), Some(ranked[0]));
  }

  /** `top1`. */
  method Top1(bank: seq<Orb>, query: Orb) returns (best: Option<Candidate>)
    ensures IsBest(bank, query, 0, |bank|, best)
    ensures best == BestIn(bank, query, 0, |bank|)
  {
    best := None;
    for index := 0 to |bank|
      invariant best == BestIn(bank, query, 0, index)
    {
      var score := ScoreXnor(bank[index], query);
      if best.None? || score > best.value.score {
        best := Some(Candidate(index, score));
      }
    }
    BestInIsBest(bank, query, 0, |bank|);
  }

  /** `top1` on a slice of the bank, its index moved back by `start`. */
  function ScanChunk(bank: seq<Orb>, query: Orb, start: nat, len: nat): Option<Candidate>
    requires start + len <= |bank|
  {
    match BestIn(bank[start..start + len], query, 0, len)
    case None => None
    case Some(c) => Some(Candidate(start + c.index, c.score))
  }

  lemma {:induction false} ScanChunkIsBest(bank: seq<Orb>, query: Orb, start: nat, len: nat)
    requires start + len <= |bank|
    ensures ScanChunk(bank, query, start, len) == BestIn(bank, query, start, start + len)
  {
    var slice := bank[start..start + len];
    BestInIsBest(slice, query, 0, len);
    forall i | start <= i < start + len
      ensures Scored(bank, query, i).score == Scored(slice, query, i - start).score
    {
      assert slice[i - start] == bank[i];
    }
    BestInIsBest(bank, query, start, start + len);
    BestIsUnique(bank, query, start, start + len, ScanChunk(bank, query, start, len),
                 BestIn(bank, query, start, start + len));
  }

  /** The merge of the join loop: higher score, equal scores to the lower index. */
  function Merge(best: Option<Candidate>, hit: Option<Candidate>): Option<Candidate> {
    if hit.None? then best
    else if best.None? || hit.value.score > best.value.score
         || (hit.value.score == best.value.score && hit.value.index < best.value.index) then hit
    else best
  }

  // ---- chunks ----

  /** First index of chunk `t` of `chunk_bounds(len, threads)`. */
  function ChunkStart(len: nat, threads: nat, t: nat): nat
    requires threads > 0
  {
    var extra := len % threads;
    t * (len / threads) + if t < extra then t else extra
  }

  function ChunkLen(len: nat, threads: nat, t: nat): nat
    requires threads > 0
  {
    len / threads + if t < len % threads then 1 else 0
  }

  /** The chunks are contiguous, start at 0, end at `len`, and are nonempty when `len >= threads`. */
  lemma ChunksCover(len: nat, threads: nat, t: nat)
    requires threads > 0 && t < threads
    ensures ChunkStart(len, threads, 0) == 0 && ChunkStart(len, threads, threads) == len
    ensures ChunkStart(len, threads, t + 1) == ChunkStart(len, threads, t) + ChunkLen(len, threads, t)
    ensures ChunkStart(len, threads, t + 1) <= len
    ensures len >= threads ==> ChunkLen(len, threads, t) > 0
    ensures forall u: nat :: t <= u < threads ==>
      ChunkLen(len, threads, u) <= ChunkLen(len, threads, t) <= ChunkLen(len, threads, u) + 1
  {
    var base, extra := len / threads, len % threads;
    assert len == threads * base + extra;
    assert (t + 1) * base == t * base + base;
    assert (t + 1) * base <= threads * base by {
      ProductMono(t + 1, threads, base);
    }
    if len >= threads {
      QuotientPositive(len, threads);
    }
  }

  lemma QuotientPositive(len: nat, threads: nat)
    requires len >= threads > 0
    ensures len / threads > 0
  {
    assert len == threads * (len / threads) + len % threads;
  }

  // ---- the machine ----

  /** One call: its bank, query and request, and the parallelism the system reports. */
  datatype Call = Call(bank: seq<Orb>, query: Orb, threads: nat, available: nat)

  datatype Fallback = BankTooSmall | BudgetExceeded | ThreadStartFailed | WorkerPanicked

  datatype Report = Report(requested: nat, budget: nat, effective: nat, spawned: nat, fallback: Option<Fallback>)

  datatype Worker = Running | Returned(hit: Option<Candidate>) | Panicked

  datatype Phase = Entering | Spawning | CallerScan | Joining(next: nat) | Deciding | Retrying | Finished

  /** `refused` and `parallel` record history: a start was refused, the merged result was used. */
  datatype State = State(phase: Phase, report: Report, workers: seq<Worker>, best: Option<Candidate>,
                         refused: bool, parallel: bool)

  datatype Step =
    | Enter
    | SpawnChild
    | RefuseChild
    | EndSpawning
    | ScanLast
    | WorkerReturns(worker: nat)
    | WorkerPanics(worker: nat)
    | JoinChild
    | EndScope
    | Decide
    | Retry

  function Budget(available: nat): nat {
    var parallelism := if available == 0 then 1 else available;
    if 4 * parallelism < 256 then 4 * parallelism else 256
  }

  predicate Admitted(c: Call) {
    1 < c.threads <= |c.bank| / 2 && c.threads <= Budget(c.available)
  }

  function Init(c: Call): State {
    State(Entering,
          Report(c.threads, Budget(c.available), if |c.bank| != 0 then 1 else 0, 0, None),
          [], None, false, false)
  }

  function Serial(c: Call): Option<Candidate> {
    ScanChunk(c.bank, c.query, 0, |c.bank|)
  }

  /** What worker `t`, or the caller for the last chunk, computes. */
  function ChunkResult(c: Call, t: nat): Option<Candidate>
    requires t < c.threads
  {
    ChunksCover(|c.bank|, c.threads, t);
    ScanChunk(c.bank, c.query, ChunkStart(|c.bank|, c.threads, t), ChunkLen(|c.bank|, c.threads, t))
  }

  predicate Enabled(c: Call, s: State, step: Step) {
    match step
    case Enter => s.phase == Entering
    case SpawnChild => s.phase == Spawning && |s.workers| + 1 < c.threads
    case RefuseChild => s.phase == Spawning && |s.workers| + 1 < c.threads
    case EndSpawning => s.phase == Spawning && |s.workers| + 1 >= c.threads
    case ScanLast => s.phase == CallerScan && 0 < c.threads
    case WorkerReturns(w) => w < |s.workers| && w < c.threads && s.workers[w] == Running
    case WorkerPanics(w) => w < |s.workers| && s.workers[w] == Running
    case JoinChild => s.phase.Joining? && s.phase.next < |s.workers| && s.workers[s.phase.next] != Running
    case EndScope => s.phase.Joining? && s.phase.next >= |s.workers|
    case Decide => s.phase == Deciding
    case Retry => s.phase == Retrying
  }

  function EnterState(c: Call, s: State): State {
    if |c.bank| == 0 then s.(phase := Finished)
    else if c.threads <= 1 || c.threads > |c.bank| / 2 || c.threads > s.report.budget then
      var fallback :=
        if c.threads > 1 then
          if c.threads > s.report.budget then Some(BudgetExceeded) else Some(BankTooSmall)
        else None;
      s.(phase := Finished, best := Serial(c), report := s.report.(fallback := fallback))
    else s.(phase := Spawning)
  }

  function JoinState(s: State): State
    requires s.phase.Joining? && s.phase.next < |s.workers| && s.workers[s.phase.next] != Running
  {
    var joined := s.(phase := Joining(s.phase.next + 1));
    match s.workers[s.phase.next]
    case Returned(hit) => joined.(best := Merge(s.best, hit))
    case Panicked =>
      if s.report.fallback.Some? then joined
      else joined.(report := s.report.(fallback := Some(WorkerPanicked)))
  }

  function Apply(c: Call, s: State, step: Step): State
    requires Enabled(c, s, step)
  {
    match step
    case Enter => EnterState(c, s)
    case SpawnChild => s.(workers := s.workers + [Running])
    case RefuseChild =>
      s.(phase := Joining(0), refused := true,
         report := s.report.(fallback := Some(ThreadStartFailed), spawned := |s.workers|))
    case EndSpawning => s.(phase := CallerScan, report := s.report.(spawned := |s.workers|))
    case ScanLast => s.(phase := Joining(0), best := ChunkResult(c, c.threads - 1))
    case WorkerReturns(w) => s.(workers := s.workers[w := Returned(ChunkResult(c, w))])
    case WorkerPanics(w) => s.(workers := s.workers[w := Panicked])
    case JoinChild => JoinState(s)
    case EndScope => s.(phase := Deciding)
    case Decide =>
      if s.report.fallback.Some? then s.(phase := Retrying)
      else s.(phase := Finished, parallel := true, report := s.report.(effective := c.threads))
    case Retry => s.(phase := Finished, best := Serial(c))
  }

  /** The state after a schedule; none when some step was not enabled. */
  function After(c: Call, steps: seq<Step>): Option<State> {
    if steps == [] then Some(Init(c))
    else
      var n := |steps| - 1;
      match After(c, steps[..n])
      case None => None
      case Some(before) => if Enabled(c, before, steps[n]) then Some(Apply(c, before, steps[n])) else None
  }

  // ---- invariant ----

  predicate Ended(s: State) {
    forall w :: 0 <= w < |s.workers| ==> s.workers[w] != Running
  }

  predicate SomePanic(s: State, upTo: nat) {
    exists w :: 0 <= w < |s.workers| && w < upTo && s.workers[w] == Panicked
  }

  /** The chunks merged so far: the caller's last chunk and the first `joined` children. */
  predicate Merged(c: Call, s: State, joined: nat)
    requires Admitted(c) && joined + 1 <= c.threads
  {
    var last := ChunkStart(|c.bank|, c.threads, c.threads - 1);
    var mid := ChunkStart(|c.bank|, c.threads, joined);
    mid <= last <= |c.bank| &&
    s.best == Merge(BestIn(c.bank, c.query, last, |c.bank|), BestIn(c.bank, c.query, 0, mid))
  }

  predicate ForkInv(c: Call, s: State) {
    && Admitted(c)
    && |s.workers| + 1 <= c.threads
    && s.report.requested == c.threads && s.report.budget == Budget(c.available)
    && (forall w :: 0 <= w < |s.workers| && s.workers[w].Returned? ==> s.workers[w].hit == ChunkResult(c, w))
    && (s.refused ==> s.report.fallback == Some(ThreadStartFailed) && |s.workers| + 1 < c.threads)
    && (s.phase in {Spawning, CallerScan} ==> !s.refused && s.report.fallback == None)
    && (s.phase == Spawning ==> s.report.spawned == 0)
    && (s.phase != Spawning ==> s.report.spawned == |s.workers|)
    && (s.phase != Spawning && !s.refused ==> |s.workers| + 1 == c.threads)
  }

  /** After the scan of the caller's chunk: which fallback is reported and what is merged. */
  predicate JoinInv(c: Call, s: State, joined: nat)
    requires ForkInv(c, s) && joined <= |s.workers|
  {
    && (forall w :: 0 <= w < joined ==> s.workers[w] != Running)
    && (!s.refused ==> s.report.fallback == if SomePanic(s, joined) then Some(WorkerPanicked) else None)
    && (s.report.fallback == None ==> Merged(c, s, joined))
  }

  predicate Inv(c: Call, s: State) {
    && (s.parallel ==> s.phase == Finished)
    && (!s.parallel ==> s.report.effective == if |c.bank| != 0 then 1 else 0)
    && match s.phase
       case Entering => s == Init(c)
       case Spawning => ForkInv(c, s)
       case CallerScan => ForkInv(c, s)
       case Joining(next) => ForkInv(c, s) && next <= |s.workers| && JoinInv(c, s, next)
       case Deciding => ForkInv(c, s) && JoinInv(c, s, |s.workers|)
       case Retrying => ForkInv(c, s) && JoinInv(c, s, |s.workers|) && s.report.fallback != None
       case Finished => FinalInv(c, s)
  }

  /** What every finished call guarantees. */
  predicate FinalInv(c: Call, s: State) {
    && s.best == BestIn(c.bank, c.query, 0, |c.bank|)
    && Ended(s)
    && s.report.requested == c.threads && s.report.budget == Budget(c.available)
    && s.report.effective == (if |c.bank| == 0 then 0 else if s.parallel then c.threads else 1)
    && s.report.spawned == |s.workers|
    && (s.parallel <==> Admitted(c) && s.report.fallback == None)
    && (s.report.fallback == Some(BudgetExceeded) <==>
          |c.bank| != 0 && c.threads > 1 && c.threads > Budget(c.available))
    && (s.report.fallback == Some(BankTooSmall) <==>
          |c.bank| != 0 && 1 < c.threads <= Budget(c.available) && c.threads > |c.bank| / 2)
    && (s.report.fallback == Some(ThreadStartFailed) <==> s.refused)
    && (s.refused ==> s.report.spawned < c.threads - 1)
    && (s.report.fallback == Some(WorkerPanicked) <==> !s.refused && SomePanic(s, |s.workers|))
    && (Admitted(c) && !s.refused ==> s.report.spawned == c.threads - 1)
    && (!Admitted(c) ==> s.workers == [])
  }

  // ---- preservation ----

  lemma {:induction false} MergeRanges(bank: seq<Orb>, query: Orb, lo: nat, mid: nat, hi: nat)
    requires lo <= mid <= hi <= |bank|
    ensures Merge(BestIn(bank, query, lo, mid), BestIn(bank, query, mid, hi)) == BestIn(bank, query, lo, hi)
    ensures Merge(BestIn(bank, query, mid, hi), BestIn(bank, query, lo, mid)) == BestIn(bank, query, lo, hi)
  {
    BestInIsBest(bank, query, lo, mid);
    BestInIsBest(bank, query, mid, hi);
    BestInIsBest(bank, query, lo, hi);
  }

  lemma MergeAssoc(x: Option<Candidate>, y: Option<Candidate>, z: Option<Candidate>)
    ensures Merge(Merge(x, y), z) == Merge(x, Merge(y, z))
  {
  }

  lemma ChunkIsRange(c: Call, t: nat)
    requires t < c.threads
    ensures ChunkStart(|c.bank|, c.threads, t) <= ChunkStart(|c.bank|, c.threads, t + 1) <= |c.bank|
    ensures ChunkResult(c, t)
      == BestIn(c.bank, c.query, ChunkStart(|c.bank|, c.threads, t), ChunkStart(|c.bank|, c.threads, t + 1))
  {
    ChunksCover(|c.bank|, c.threads, t);
    ScanChunkIsBest(c.bank, c.query, ChunkStart(|c.bank|, c.threads, t), ChunkLen(|c.bank|, c.threads, t));
  }

  lemma {:induction false} StartsIncrease(len: nat, threads: nat, s: nat, t: nat)
    requires 0 < threads && s <= t <= threads
    ensures ChunkStart(len, threads, s) <= ChunkStart(len, threads, t) <= len
  {
    if s < t {
      StartsIncrease(len, threads, s, t - 1);
      ChunksCover(len, threads, t - 1);
    } else if t < threads {
      ChunksCover(len, threads, t);
    } else {
      ChunksCover(len, threads, t - 1);
    }
  }

  lemma StartMerge(c: Call, s: State)
    requires Admitted(c) && s.best == ChunkResult(c, c.threads - 1)
    ensures Merged(c, s, 0)
  {
    ChunkIsRange(c, c.threads - 1);
    ChunksCover(|c.bank|, c.threads, c.threads - 1);
    StartsIncrease(|c.bank|, c.threads, 0, c.threads - 1);
  }

  lemma NextMerge(c: Call, s: State, t: State, joined: nat)
    requires Admitted(c) && joined + 2 <= c.threads && Merged(c, s, joined)
    requires t.best == Merge(s.best, ChunkResult(c, joined))
    ensures Merged(c, t, joined + 1)
  {
    ChunkIsRange(c, joined);
    StartsIncrease(|c.bank|, c.threads, joined + 1, c.threads - 1);
    ChunksCover(|c.bank|, c.threads, c.threads - 1);
    var last := ChunkStart(|c.bank|, c.threads, c.threads - 1);
    var mid, next := ChunkStart(|c.bank|, c.threads, joined), ChunkStart(|c.bank|, c.threads, joined + 1);
    MergeRanges(c.bank, c.query, 0, mid, next);
    MergeAssoc(BestIn(c.bank, c.query, last, |c.bank|), BestIn(c.bank, c.query, 0, mid),
               BestIn(c.bank, c.query, mid, next));
  }

  lemma AllMerged(c: Call, s: State)
    requires Admitted(c) && Merged(c, s, c.threads - 1)
    ensures s.best == BestIn(c.bank, c.query, 0, |c.bank|)
  {
    var last := ChunkStart(|c.bank|, c.threads, c.threads - 1);
    MergeRanges(c.bank, c.query, 0, last, |c.bank|);
  }

  lemma SerialIsBest(c: Call)
    ensures Serial(c) == BestIn(c.bank, c.query, 0, |c.bank|)
  {
    ScanChunkIsBest(c.bank, c.query, 0, |c.bank|);
  }

  lemma StepKeepsInv(c: Call, s: State, step: Step)
    requires Inv(c, s) && Enabled(c, s, step)
    ensures Inv(c, Apply(c, s, step))
  {
    hide Merge, BestIn, ChunkResult;
    var t := Apply(c, s, step);
    match step
    case Enter => EnterKeepsInv(c, s);
    case ScanLast => StartMerge(c, t);
    case WorkerReturns(w) => WorkerEnds(c, s, t, w);
    case WorkerPanics(w) => WorkerEnds(c, s, t, w);
    case JoinChild => JoinKeepsInv(c, s);
    case Decide =>
      if s.report.fallback == None {
        AllMerged(c, s);
      }
    case Retry => SerialIsBest(c);
    case _ =>
  }

  lemma EnterKeepsInv(c: Call, s: State)
    requires Inv(c, s) && s.phase == Entering
    ensures Inv(c, EnterState(c, s))
  {
    SerialIsBest(c);
  }

  lemma WorkerEnds(c: Call, s: State, t: State, w: nat)
    requires Inv(c, s) && w < |s.workers| && s.workers[w] == Running
    requires t == s.(workers := s.workers[w := Panicked])
      || (w < c.threads && t == s.(workers := s.workers[w := Returned(ChunkResult(c, w))]))
    ensures Inv(c, t)
  {
    if s.phase.Joining? {
      assert SomePanic(t, s.phase.next) <==> SomePanic(s, s.phase.next) by {
        if SomePanic(s, s.phase.next) {
          var v :| 0 <= v < |s.workers| && v < s.phase.next && s.workers[v] == Panicked;
          assert t.workers[v] == Panicked;
        }
      }
    }
  }

  lemma PanicSeen(workers: seq<Worker>, s: State, j: nat)
    requires s.workers == workers && j < |workers|
    ensures SomePanic(s, j + 1) <==> SomePanic(s, j) || workers[j] == Panicked
  {
    if SomePanic(s, j) {
      var v :| 0 <= v < |s.workers| && v < j && s.workers[v] == Panicked;
      assert v < j + 1 && s.workers[v] == Panicked;
    }
    if workers[j] == Panicked {
      assert j < j + 1 && s.workers[j] == Panicked;
    }
  }

  lemma JoinKeepsInv(c: Call, s: State)
    requires Inv(c, s) && Enabled(c, s, JoinChild)
    ensures Inv(c, JoinState(s))
  {
    hide ChunkResult, Merge, Merged, Admitted, BestIn, Budget;
    var t, j := JoinState(s), s.phase.next;
    PanicSeen(s.workers, s, j);
    PanicSeen(s.workers, t, j);
    if t.report.fallback == None {
      NextMerge(c, s, t, j);
    }
  }

  // ---- results over every schedule ----

  lemma {:induction false} ScheduleKeepsInv(c: Call, steps: seq<Step>, s: State)
    requires After(c, steps) == Some(s)
    ensures Inv(c, s)
  {
    if steps != [] {
      var n := |steps| - 1;
      var before := After(c, steps[..n]).value;
      ScheduleKeepsInv(c, steps[..n], before);
      StepKeepsInv(c, before, steps[n]);
    }
  }

  predicate Panics(steps: seq<Step>) {
    exists step :: step in steps && step.WorkerPanics?
  }

  lemma PanicsSnoc(steps: seq<Step>, step: Step)
    ensures Panics(steps + [step]) <==> Panics(steps) || step.WorkerPanics?
  {
    assert forall x :: x in steps + [step] <==> x in steps || x == step;
  }

  lemma PanicStays(s: State, t: State, w: nat, ended: Worker)
    requires w < |s.workers| && s.workers[w] == Running && t.workers == s.workers[w := ended]
    ensures SomePanic(t, |t.workers|) <==> SomePanic(s, |s.workers|) || ended == Panicked
  {
    if SomePanic(s, |s.workers|) {
      var v :| 0 <= v < |s.workers| && s.workers[v] == Panicked;
      assert t.workers[v] == Panicked;
    }
    if ended == Panicked {
      assert t.workers[w] == Panicked;
    }
  }

  lemma FaultRecorded(c: Call, s: State, step: Step)
    requires Enabled(c, s, step)
    ensures var t := Apply(c, s, step);
      && (t.refused <==> s.refused || step == RefuseChild)
      && (SomePanic(t, |t.workers|) <==> SomePanic(s, |s.workers|) || step.WorkerPanics?)
  {
    hide Merge, BestIn, ChunkResult, Serial, Budget;
    var t := Apply(c, s, step);
    match step
    case SpawnChild =>
      assert forall w :: 0 <= w < |s.workers| ==> t.workers[w] == s.workers[w];
    case WorkerReturns(w) => PanicStays(s, t, w, Returned(ChunkResult(c, w)));
    case WorkerPanics(w) => PanicStays(s, t, w, Panicked);
    case _ =>
  }

  /** The flag and the workers record which faults the schedule held. */
  lemma {:induction false} FaultsAreRecorded(c: Call, steps: seq<Step>, s: State)
    requires After(c, steps) == Some(s)
    ensures s.refused <==> RefuseChild in steps
    ensures SomePanic(s, |s.workers|) <==> Panics(steps)
  {
    if steps != [] {
      hide Enabled, Apply, SomePanic, Panics;
      var n := |steps| - 1;
      var before := After(c, steps[..n]).value;
      FaultsAreRecorded(c, steps[..n], before);
      FaultRecorded(c, before, steps[n]);
      PanicsSnoc(steps[..n], steps[n]);
      assert steps == steps[..n] + [steps[n]];
    } else {
      assert Init(c).workers == [];
    }
  }

  /** Whatever the schedule, refusals and panics, a finished call returns the serial answer and a truthful
      report. The parallel result is used exactly when two or more threads were requested, at most half as
      many as ORBs, at most 256 and at most four for each processor reported, and nothing failed. */
  lemma {:induction false} EveryScheduleIsExact(c: Call, steps: seq<Step>, s: State)
    requires After(c, steps) == Some(s) && s.phase == Finished
    ensures IsBest(c.bank, c.query, 0, |c.bank|, s.best)
    ensures s.report.requested == c.threads
    ensures s.report.budget == if c.available == 0 then 4 else if c.available < 64 then 4 * c.available else 256
    ensures var n, limit := |c.bank|, if c.available == 0 then 4 else 4 * c.available;
      && (s.parallel <==>
            2 <= c.threads && 2 * c.threads <= n && c.threads <= 256 && c.threads <= limit && s.report.fallback == None)
      && (s.report.fallback == Some(BudgetExceeded) <==>
            n > 0 && c.threads > 1 && (c.threads > 256 || c.threads > limit))
      && (s.report.fallback == Some(BankTooSmall) <==>
            n > 0 && c.threads > 1 && c.threads <= 256 && c.threads <= limit && 2 * c.threads > n)
    ensures s.report.fallback == Some(ThreadStartFailed) <==> RefuseChild in steps
    ensures s.report.fallback == Some(WorkerPanicked) <==> RefuseChild !in steps && Panics(steps)
    ensures s.report.effective == if |c.bank| == 0 then 0 else if s.parallel then c.threads else 1
    ensures s.report.spawned == |s.workers|
    ensures s.parallel || s.report.fallback == Some(WorkerPanicked) ==> s.report.spawned == c.threads - 1
    ensures s.report.fallback == Some(ThreadStartFailed) ==> s.report.spawned < c.threads - 1
    ensures !s.parallel && s.report.fallback in {None, Some(BudgetExceeded), Some(BankTooSmall)} ==>
      s.report.spawned == 0
  {
    ScheduleKeepsInv(c, steps, s);
    BestInIsBest(c.bank, c.query, 0, |c.bank|);
    FaultsAreRecorded(c, steps, s);
  }

  /** When the report's worker count says that the parallel result was used: the two agree unless
      one worker was requested for a nonempty bank, or none for an empty one. */
  lemma {:induction false} EffectiveIsRequested(c: Call, steps: seq<Step>, s: State)
    requires After(c, steps) == Some(s) && s.phase == Finished
    ensures (s.report.effective == c.threads <==> s.parallel) <==>
      !(c.threads == 1 && |c.bank| > 0) && !(c.threads == 0 && |c.bank| == 0)
  {
    EveryScheduleIsExact(c, steps, s);
  }

  /** In both exceptional cases the very first step ends the call: nothing ran in parallel, and the
      worker count equals the request. */
  lemma {:induction false} SerialLooksEffective(c: Call)
    requires (c.threads == 1 && |c.bank| > 0) || (c.threads == 0 && |c.bank| == 0)
    ensures After(c, [Enter]).Some?
    ensures var s := After(c, [Enter]).value;
      s.phase == Finished && s.report.effective == c.threads && !s.parallel
  {
    assert [Enter][..0] == [];
    assert After(c, [Enter][..0]) == Some(Init(c));
  }

  /** The serial retry starts only after every started child has ended. */
  lemma {:induction false} RetryWaitsForChildren(c: Call, steps: seq<Step>, s: State)
    requires After(c, steps) == Some(s) && s.phase in {Deciding, Retrying, Finished}
    ensures Ended(s)
  {
    ScheduleKeepsInv(c, steps, s);
  }

  function CountRunning(workers: seq<Worker>): nat {
    if workers == [] then 0 else (if workers[0] == Running then 1 else 0) + CountRunning(workers[1..])
  }

  lemma {:induction false} RunningAppend(workers: seq<Worker>)
    ensures CountRunning(workers + [Running]) == CountRunning(workers) + 1
  {
    if workers != [] {
      RunningAppend(workers[1..]);
      assert (workers + [Running])[1..] == workers[1..] + [Running];
    }
  }

  lemma {:induction false} RunningDrops(workers: seq<Worker>, w: nat, ended: Worker)
    requires w < |workers| && workers[w] == Running && ended != Running
    ensures CountRunning(workers[w := ended]) == CountRunning(workers) - 1
  {
    if w == 0 {
      assert workers[0 := ended][1..] == workers[1..];
    } else {
      RunningDrops(workers[1..], w - 1, ended);
      assert workers[w := ended][1..] == workers[1..][w - 1 := ended];
    }
  }

  /** A bound on the steps still possible. */
  function StepsLeft(c: Call, s: State): nat {
    var started := |s.workers|;
    CountRunning(s.workers) +
    match s.phase
    case Entering => 6 + 4 * c.threads
    case Spawning => 5 + started + 3 * (if started + 1 < c.threads then c.threads - 1 - started else 0)
    case CallerScan => 4 + started
    case Joining(next) => 3 + if next < started then started - next else 0
    case Deciding => 2
    case Retrying => 1
    case Finished => 0
  }

  /** No deadlock and no endless run: an unfinished call has an enabled step, and every
      enabled step brings it closer to the end. */
  lemma {:induction false} EveryCallFinishes(c: Call, steps: seq<Step>, s: State)
    requires After(c, steps) == Some(s)
    ensures s.phase != Finished ==> exists step :: Enabled(c, s, step)
    ensures forall step :: Enabled(c, s, step) ==> StepsLeft(c, Apply(c, s, step)) < StepsLeft(c, s)
  {
    ScheduleKeepsInv(c, steps, s);
    if s.phase != Finished {
      var step := SomeStep(c, s);
    }
    forall step | Enabled(c, s, step)
      ensures StepsLeft(c, Apply(c, s, step)) < StepsLeft(c, s)
    {
      StepShrinks(c, s, step);
    }
  }

  lemma StepShrinks(c: Call, s: State, step: Step)
    requires Inv(c, s) && Enabled(c, s, step)
    ensures StepsLeft(c, Apply(c, s, step)) < StepsLeft(c, s)
  {
    hide ChunkResult, Merge, Merged, BestIn, Serial, FinalInv, ForkInv, CountRunning;
    match step
    case SpawnChild => RunningAppend(s.workers);
    case WorkerReturns(w) => WorkerShrinks(c, s, w, Returned(ChunkResult(c, w)));
    case WorkerPanics(w) => WorkerShrinks(c, s, w, Panicked);
    case _ =>
  }

  lemma WorkerShrinks(c: Call, s: State, w: nat, ended: Worker)
    requires w < |s.workers| && s.workers[w] == Running && ended != Running
    ensures StepsLeft(c, s.(workers := s.workers[w := ended])) < StepsLeft(c, s)
  {
    RunningDrops(s.workers, w, ended);
  }

  predicate IsFault(step: Step) {
    step == RefuseChild || step.WorkerPanics?
  }

  /** An unfinished call can go on without a new fault. */
  lemma SomeStep(c: Call, s: State) returns (step: Step)
    requires Inv(c, s) && s.phase != Finished
    ensures Enabled(c, s, step) && !IsFault(step)
  {
    step := match s.phase
      case Entering => Enter
      case Spawning => if |s.workers| + 1 < c.threads then SpawnChild else EndSpawning
      case CallerScan => ScanLast
      case Joining(next) =>
        if next >= |s.workers| then EndScope
        else if s.workers[next] == Running then WorkerReturns(next) else JoinChild
      case Deciding => Decide
      case Retrying => Retry;
  }

  // ---- every outcome occurs ----

  lemma {:induction false} Extend(c: Call, steps: seq<Step>, s: State, step: Step)
    requires After(c, steps) == Some(s) && Enabled(c, s, step)
    ensures After(c, steps + [step]) == Some(Apply(c, s, step))
  {
    hide Enabled, Apply;
    assert (steps + [step])[..|steps|] == steps;
  }

  /** Ended children stay as they are, and once starting is over no child is added. */
  predicate Continues(s: State, t: State) {
    && |s.workers| <= |t.workers| && (s.phase !in {Entering, Spawning} ==> |t.workers| == |s.workers|)
    && (s.phase !in {Entering, Spawning} ==> t.phase !in {Entering, Spawning})
    && forall w :: 0 <= w < |s.workers| && s.workers[w] == Panicked ==> t.workers[w] == Panicked
  }

  lemma StepContinues(c: Call, s: State, step: Step)
    requires Enabled(c, s, step)
    ensures Continues(s, Apply(c, s, step))
  {
    hide Serial, ChunkResult, Merge, Budget;
  }

  lemma ContinuesOn(s: State, t: State, u: State)
    requires Continues(s, t) && Continues(t, u)
    ensures Continues(s, u)
  {
  }

  /** Whatever happened so far, the call can finish without another fault. */
  lemma {:induction false} CanFinish(c: Call, steps: seq<Step>, s: State) returns (all: seq<Step>, t: State)
    requires After(c, steps) == Some(s)
    ensures After(c, all) == Some(t) && t.phase == Finished && Continues(s, t)
    ensures RefuseChild in all <==> RefuseChild in steps
    ensures Panics(all) <==> Panics(steps)
    decreases StepsLeft(c, s)
  {
    if s.phase == Finished {
      all, t := steps, s;
    } else {
      hide *;
      ScheduleKeepsInv(c, steps, s);
      var step := SomeStep(c, s);
      var next := Apply(c, s, step);
      StepShrinks(c, s, step);
      StepContinues(c, s, step);
      Extend(c, steps, s, step);
      NoFaultAdded(steps, step);
      all, t := CanFinish(c, steps + [step], next);
      ContinuesOn(s, next, t);
    }
  }

  lemma NoFaultAdded(steps: seq<Step>, step: Step)
    requires !IsFault(step)
    ensures RefuseChild in steps + [step] <==> RefuseChild in steps
    ensures Panics(steps + [step]) <==> Panics(steps)
  {
    PanicsSnoc(steps, step);
  }

  /** The first `n` children started. */
  lemma {:induction false} Started(c: Call, n: nat) returns (steps: seq<Step>, s: State)
    requires Admitted(c) && n < c.threads
    ensures After(c, steps) == Some(s) && s.phase == Spawning && |s.workers| == n
    ensures forall w :: 0 <= w < n ==> s.workers[w] == Running
    ensures RefuseChild !in steps && !Panics(steps)
  {
    hide Serial;
    if n == 0 {
      assert [Enter][..0] == [];
      assert After(c, [Enter][..0]) == Some(Init(c));
      steps, s := [Enter], EnterState(c, Init(c));
    } else {
      var before, b := Started(c, n - 1);
      Extend(c, before, b, SpawnChild);
      NoFaultAdded(before, SpawnChild);
      steps, s := before + [SpawnChild], Apply(c, b, SpawnChild);
    }
  }

  lemma AdmittedNumbers(c: Call)
    ensures Admitted(c) <==>
      && 2 <= c.threads <= 256 && 2 * c.threads <= |c.bank|
      && c.threads <= if c.available == 0 then 4 else 4 * c.available
  {
  }

  lemma FourFallbacks(f: Option<Fallback>)
    ensures f == None || f == Some(BankTooSmall) || f == Some(BudgetExceeded) || f == Some(ThreadStartFailed)
      || f == Some(WorkerPanicked)
  {
    if f.Some? {
      match f.value
      case BankTooSmall =>
      case BudgetExceeded =>
      case ThreadStartFailed =>
      case WorkerPanicked =>
    }
  }

  lemma ParallelOccurs(c: Call) returns (steps: seq<Step>, s: State)
    requires Admitted(c)
    ensures After(c, steps) == Some(s) && s.phase == Finished && s.parallel
  {
    var before, b := Started(c, 0);
    steps, s := CanFinish(c, before, b);
    hide After, Panics, Continues, Admitted, IsBest;
    EveryScheduleIsExact(c, steps, s);
    AdmittedNumbers(c);
    FourFallbacks(s.report.fallback);
  }

  lemma RefusalOccurs(c: Call, child: nat) returns (steps: seq<Step>, s: State)
    requires Admitted(c) && child + 1 < c.threads
    ensures After(c, steps) == Some(s) && s.phase == Finished
    ensures s.report.fallback == Some(ThreadStartFailed) && s.report.spawned == child
  {
    var before, b := Started(c, child);
    Extend(c, before, b, RefuseChild);
    assert RefuseChild in before + [RefuseChild];
    steps, s := CanFinish(c, before + [RefuseChild], Apply(c, b, RefuseChild));
    EveryScheduleIsExact(c, steps, s);
    hide After, Panics;
  }

  lemma PanicOccurs(c: Call, child: nat) returns (steps: seq<Step>, s: State)
    requires Admitted(c) && child + 1 < c.threads
    ensures After(c, steps) == Some(s) && s.phase == Finished && child < |s.workers|
    ensures s.report.fallback == Some(WorkerPanicked) && s.workers[child] == Panicked
  {
    var before, b := Started(c, child + 1);
    Extend(c, before, b, WorkerPanics(child));
    PanicsSnoc(before, WorkerPanics(child));
    assert RefuseChild !in before + [WorkerPanics(child)];
    steps, s := CanFinish(c, before + [WorkerPanics(child)], Apply(c, b, WorkerPanics(child)));
    EveryScheduleIsExact(c, steps, s);
    hide After, Panics;
  }

  /** The call can end so that the parallel result is used, that `refused` children were started and the next
      start failed, or that the child `panicked` panicked. */
  ghost predicate EndsInParallel(c: Call) {
    exists steps, s :: After(c, steps) == Some(s) && s.phase == Finished && s.parallel
  }

  ghost predicate EndsRefused(c: Call, refused: nat) {
    exists steps, s ::
      && After(c, steps) == Some(s) && s.phase == Finished
      && s.report.fallback == Some(ThreadStartFailed) && s.report.spawned == refused
  }

  ghost predicate EndsInPanic(c: Call, panicked: nat) {
    exists steps, s ::
      && After(c, steps) == Some(s) && s.phase == Finished && panicked < |s.workers|
      && s.report.fallback == Some(WorkerPanicked) && s.workers[panicked] == Panicked
  }

  /** An admitted call can end in each of these ways, for every child. */
  lemma EveryOutcomeOccurs(c: Call, child: nat)
    requires 2 <= c.threads <= 256 && 2 * c.threads <= |c.bank| && child + 1 < c.threads
    requires c.threads <= if c.available == 0 then 4 else 4 * c.available
    ensures EndsInParallel(c) && EndsRefused(c, child) && EndsInPanic(c, child)
  {
    AdmittedNumbers(c);
    hide After, Admitted;
    var steps1, s1 := ParallelOccurs(c);
    var steps2, s2 := RefusalOccurs(c, child);
    var steps3, s3 := PanicOccurs(c, child);
  }
}
