/** Atomic publication of `gel-store` as file-system steps. A file system is a map from paths
    to bytes; every step may fail, writes may stop half-way, and a crash is simply a schedule
    that goes no further, so what holds in every reachable state holds after a crash. */
module Publish {
  import opened Words
  import opened LittleEndian
  import opened Store
  import opened Wrappers

  type Path = string
  type FileSystem = map<Path, seq<Byte>>

  /** One call: `write_if_newer` when guarded, `write_atomic` when not. A Unix build asks for the
      mode of the target before it creates the temporary file and syncs the directory at the end. */
  datatype Job = Job(path: Path, store: RamStore, guarded: bool, unix: bool)

  datatype PublishError =
    | Unreadable(error: StoreError)
    | LegacyGenerationUntrusted
    | GenerationRollback(current: Word, attempted: Word)
    | IoError

  datatype Phase =
    | Checking
    | Probing
    | Creating(attempt: nat)
    | Writing(chunks: nat)
    | Renaming
    | SyncingDirectory
    | Removing(error: PublishError)
    | Done(result: Result<(), PublishError>)

  datatype State = State(phase: Phase, fs: FileSystem, tmp: Path)

  /** `suffix` is the process and sequence number of a temporary name, chosen by the system;
      `kept` is how much of a failed write reached the file. `StatAnswers` is a mode, or that there
      is no file; `StatFault` is any other error. */
  datatype Step =
    | Check
    | CheckFault
    | MisreportAbsent
    | StatAnswers
    | StatFault
    | CreateOk(suffix: string)
    | CreateExists(suffix: string)
    | CreateThenFault(suffix: string)
    | CreateFault
    | WriteOk
    | WriteFault(kept: nat)
    | SyncOk
    | SyncFault
    | RenameOk
    | RenameFault
    | DirectorySyncOk
    | DirectorySyncFault
    | RemoveOk
    | RemoveFault

  const MAX_ATTEMPTS: nat := 128

  function Target(fs: FileSystem, path: Path): Option<seq<Byte>> {
    if path in fs then Some(fs[path]) else None
  }

  function Image(job: Job): seq<Byte> {
    StoreImage(job.store.header, job.store.orbs)
  }

  function TempName(path: Path, suffix: string): Path {
    path + ".tmp-" + suffix
  }

  /** `read_generation` and the comparison of `write_if_newer`: none when the write may go on. */
  function Refusal(fs: FileSystem, job: Job): Option<PublishError> {
    if job.path !in fs then None
    else
      match Verdict(Some(fs[job.path]), UNLIMITED)
      case Err(e) => Some(Unreadable(e))
      case Ok(v) =>
        if v.sourceFormat == LegacyV1 then Some(LegacyGenerationUntrusted)
        else if job.store.header.generation <= v.header.generation then
          Some(GenerationRollback(v.header.generation, job.store.header.generation))
        else None
  }

  /** The pieces handed to `write_all`: the header, then each ORB. */
  function Chunk(job: Job, i: nat): seq<Byte>
    requires i <= |job.store.orbs|
  {
    if i == 0 then HeaderImage(job.store.header) else WordsImage(job.store.orbs[i - 1])
  }

  /** The first `i` pieces together. */
  function Written(job: Job, i: nat): seq<Byte>
    requires i <= |job.store.orbs| + 1
  {
    if i == 0 then [] else HeaderImage(job.store.header) + Payload(job.store.orbs[..i - 1])
  }

  function Init(job: Job, fs: FileSystem): State {
    State(if job.guarded then Checking else Checked(job), fs, "")
  }

  /** Where a call goes once nothing refuses it. */
  function Checked(job: Job): Phase {
    if job.unix then Probing else Creating(0)
  }

  predicate Enabled(job: Job, s: State, step: Step) {
    match step
    case Check => s.phase == Checking
    case CheckFault => s.phase == Checking && job.path in s.fs
    case MisreportAbsent => s.phase == Checking
    case StatAnswers => s.phase == Probing
    case StatFault => s.phase == Probing
    case CreateOk(suffix) => s.phase.Creating? && TempName(job.path, suffix) !in s.fs
    case CreateExists(suffix) => s.phase.Creating? && TempName(job.path, suffix) in s.fs
    case CreateThenFault(suffix) =>
      job.unix && job.path in s.fs && s.phase.Creating? && TempName(job.path, suffix) !in s.fs
    case CreateFault => s.phase.Creating?
    case WriteOk => s.phase.Writing? && s.phase.chunks <= |job.store.orbs| && s.tmp in s.fs
    case WriteFault(kept) =>
      s.phase.Writing? && s.phase.chunks <= |job.store.orbs| && s.tmp in s.fs && kept <= |Chunk(job, s.phase.chunks)|
    case SyncOk => s.phase == Writing(|job.store.orbs| + 1)
    case SyncFault => s.phase == Writing(|job.store.orbs| + 1)
    case RenameOk => s.phase == Renaming && s.tmp in s.fs
    case RenameFault => s.phase == Renaming
    case DirectorySyncOk => s.phase == SyncingDirectory
    case DirectorySyncFault => job.unix && s.phase == SyncingDirectory
    case RemoveOk => s.phase.Removing?
    case RemoveFault => s.phase.Removing?
  }

  function Apply(job: Job, s: State, step: Step): State
    requires Enabled(job, s, step)
  {
    match step
    case Check =>
      (match Refusal(s.fs, job)
       case Some(e) => s.(phase := Done(Err(e)))
       case None => s.(phase := Checked(job)))
    case CheckFault => s.(phase := Done(Err(IoError)))
    case MisreportAbsent => s.(phase := Checked(job))
    case StatAnswers => s.(phase := Creating(0))
    case StatFault => s.(phase := Done(Err(IoError)))
    case CreateOk(suffix) =>
      var tmp := TempName(job.path, suffix);
      State(Writing(0), s.fs[tmp := []], tmp)
    case CreateExists(_) =>
      if s.phase.attempt + 1 < MAX_ATTEMPTS then s.(phase := Creating(s.phase.attempt + 1))
      else s.(phase := Done(Err(IoError)))
    case CreateThenFault(suffix) =>
      var tmp := TempName(job.path, suffix);
      State(Removing(IoError), s.fs[tmp := []], tmp)
    case CreateFault => s.(phase := Done(Err(IoError)))
    case WriteOk =>
      s.(phase := Writing(s.phase.chunks + 1), fs := s.fs[s.tmp := s.fs[s.tmp] + Chunk(job, s.phase.chunks)])
    case WriteFault(kept) =>
      s.(phase := Removing(IoError), fs := s.fs[s.tmp := s.fs[s.tmp] + Chunk(job, s.phase.chunks)[..kept]])
    case SyncOk => s.(phase := Renaming)
    case SyncFault => s.(phase := Removing(IoError))
    case RenameOk => s.(phase := SyncingDirectory, fs := (s.fs - {s.tmp})[job.path := s.fs[s.tmp]])
    case RenameFault => s.(phase := Removing(IoError))
    case DirectorySyncOk => s.(phase := Done(Ok(())))
    case DirectorySyncFault => s.(phase := Done(Err(IoError)))
    case RemoveOk => s.(phase := Done(Err(s.phase.error)), fs := s.fs - {s.tmp})
    case RemoveFault => s.(phase := Done(Err(s.phase.error)))
  }

  /** The state after a schedule; none when some step was not enabled. */
  function After(job: Job, fs: FileSystem, steps: seq<Step>): Option<State> {
    if steps == [] then Some(Init(job, fs))
    else
      var n := |steps| - 1;
      match After(job, fs, steps[..n])
      case None => None
      case Some(before) => if Enabled(job, before, steps[n]) then Some(Apply(job, before, steps[n])) else None
  }

  // ---- invariant ----

  /** The only trace of an unfinished call is one new temporary file. */
  predicate OnlyTemporary(job: Job, fs: FileSystem, s: State) {
    s.tmp !in fs && s.tmp != job.path && s.tmp in s.fs && s.fs == fs[s.tmp := s.fs[s.tmp]]
  }

  /** `renamed` says whether the rename has happened. */
  predicate Inv(job: Job, fs: FileSystem, s: State, renamed: bool) {
    match s.phase
    case Checking => s.fs == fs && job.guarded && !renamed
    case Probing => s.fs == fs && job.unix && !renamed
    case Creating(_) => s.fs == fs && !renamed
    case Writing(chunks) =>
      OnlyTemporary(job, fs, s) && chunks <= |job.store.orbs| + 1 && s.fs[s.tmp] == Written(job, chunks) && !renamed
    case Renaming => OnlyTemporary(job, fs, s) && s.fs[s.tmp] == Image(job) && !renamed
    case SyncingDirectory => s.fs == fs[job.path := Image(job)] && renamed
    case Removing(error) => OnlyTemporary(job, fs, s) && error == IoError && !renamed
    case Done(Ok(_)) => s.fs == fs[job.path := Image(job)] && renamed
    case Done(Err(e)) =>
      if renamed then s.fs == fs[job.path := Image(job)] && e == IoError
      else s.fs == fs || (OnlyTemporary(job, fs, s) && e == IoError)
  }

  /** What the steps taken say about the state. */
  predicate Traces(job: Job, fs: FileSystem, steps: seq<Step>, s: State) {
    && Inv(job, fs, s, RenameOk in steps)
    && (DirectorySyncOk in steps <==> s.phase == Done(Ok(())))
    && (DirectorySyncFault in steps <==> RenameOk in steps && s.phase.Done? && s.phase.result.Err?)
    && (s.phase == Renaming || RenameOk in steps ==> SyncOk in steps)
    && (Faulted(steps) ==> RenameOk !in steps && (s.phase.Removing? || (s.phase.Done? && s.phase.result.Err?)))
  }

  /** A step that fails a call before its rename. */
  predicate IsFault(step: Step) {
    step in {CheckFault, StatFault, CreateFault, SyncFault, RenameFault} || step.CreateThenFault? || step.WriteFault?
  }

  predicate Faulted(steps: seq<Step>) {
    exists step :: step in steps && IsFault(step)
  }

  lemma WrittenGrows(job: Job, i: nat)
    requires i <= |job.store.orbs|
    ensures Written(job, i + 1) == Written(job, i) + Chunk(job, i)
  {
    if i != 0 {
      assert job.store.orbs[..i][..i - 1] == job.store.orbs[..i - 1];
      assert Payload(job.store.orbs[..i]) == Payload(job.store.orbs[..i - 1]) + WordsImage(job.store.orbs[i - 1]);
    } else {
      assert job.store.orbs[..0] == [];
    }
  }

  lemma WrittenAll(job: Job)
    ensures Written(job, |job.store.orbs| + 1) == Image(job)
  {
    assert job.store.orbs[..|job.store.orbs|] == job.store.orbs;
  }

  lemma TempIsNew(path: Path, suffix: string)
    ensures TempName(path, suffix) != path
  {
    assert |TempName(path, suffix)| > |path|;
  }

  lemma StepKeepsInv(job: Job, fs: FileSystem, s: State, step: Step, renamed: bool)
    requires Inv(job, fs, s, renamed) && Enabled(job, s, step)
    ensures Inv(job, fs, Apply(job, s, step), renamed || step == RenameOk)
  {
    match step
    case CreateOk(suffix) => CreateKeepsInv(job, fs, s, suffix, Writing(0));
    case CreateThenFault(suffix) => CreateKeepsInv(job, fs, s, suffix, Removing(IoError));
    case WriteOk => WriteKeepsInv(job, fs, s, renamed);
    case SyncOk => WrittenAll(job);
    case RenameOk => RenameKeepsInv(job, fs, s, renamed);
    case _ =>
  }

  lemma CreateKeepsInv(job: Job, fs: FileSystem, s: State, suffix: string, phase: Phase)
    requires s.fs == fs && TempName(job.path, suffix) !in fs && phase in {Writing(0), Removing(IoError)}
    ensures var tmp := TempName(job.path, suffix);
      Inv(job, fs, State(phase, s.fs[tmp := []], tmp), false)
  {
    TempIsNew(job.path, suffix);
  }

  lemma WriteKeepsInv(job: Job, fs: FileSystem, s: State, renamed: bool)
    requires Inv(job, fs, s, renamed) && Enabled(job, s, WriteOk)
    ensures Inv(job, fs, Apply(job, s, WriteOk), renamed)
  {
    WrittenGrows(job, s.phase.chunks);
  }

  lemma RenameKeepsInv(job: Job, fs: FileSystem, s: State, renamed: bool)
    requires Inv(job, fs, s, renamed) && Enabled(job, s, RenameOk)
    ensures Inv(job, fs, Apply(job, s, RenameOk), true)
  {
    assert (s.fs - {s.tmp})[job.path := s.fs[s.tmp]] == fs[job.path := Image(job)];
  }

  lemma FaultedSnoc(before: seq<Step>, step: Step)
    ensures Faulted(before + [step]) <==> Faulted(before) || IsFault(step)
  {
    hide IsFault;
    assert step in before + [step];
    assert forall x :: x in before + [step] <==> x in before || x == step;
  }

  lemma StepKeepsTrace(job: Job, fs: FileSystem, before: seq<Step>, s: State, step: Step)
    requires Traces(job, fs, before, s) && Enabled(job, s, step)
    ensures Traces(job, fs, before + [step], Apply(job, s, step))
  {
    hide OnlyTemporary, Image, Written, Faulted, Refusal, Chunk, TempName, Target;
    StepKeepsInv(job, fs, s, step, RenameOk in before);
    FaultedSnoc(before, step);
    assert forall x :: x in before + [step] <==> x in before || x == step;
  }

  lemma {:induction false} ScheduleKeepsTrace(job: Job, fs: FileSystem, steps: seq<Step>, s: State)
    requires After(job, fs, steps) == Some(s)
    ensures Traces(job, fs, steps, s)
  {
    if steps != [] {
      var n := |steps| - 1;
      var before := After(job, fs, steps[..n]).value;
      ScheduleKeepsTrace(job, fs, steps[..n], before);
      StepKeepsTrace(job, fs, steps[..n], before, steps[n]);
      assert steps == steps[..n] + [steps[n]];
    }
  }

  // ---- one call ----

  /** After any number of steps, with any faults, and so after a crash at any point: the target
      holds the complete old bytes or the complete new encoding, every other path that existed is
      untouched, and at most one new path was left behind. */
  lemma {:induction false} PublicationIsAtomic(job: Job, fs: FileSystem, steps: seq<Step>, s: State)
    requires After(job, fs, steps) == Some(s)
    ensures Target(s.fs, job.path) == Target(fs, job.path) || Target(s.fs, job.path) == Some(Image(job))
    ensures forall p :: p in fs && p != job.path ==> p in s.fs && s.fs[p] == fs[p]
    ensures s.fs.Keys <= fs.Keys + {job.path, s.tmp}
  {
    ScheduleKeepsTrace(job, fs, steps, s);
  }

  /** The rename decides whether the target changed, and the directory sync after it decides the
      result: a call whose rename took effect ends in an error exactly when that sync failed. */
  lemma {:induction false} ResultIsTruthful(job: Job, fs: FileSystem, steps: seq<Step>, s: State)
    requires After(job, fs, steps) == Some(s)
    ensures RenameOk in steps ==> s.fs == fs[job.path := Image(job)]
    ensures RenameOk !in steps ==> Target(s.fs, job.path) == Target(fs, job.path)
    ensures RenameOk in steps ==> SyncOk in steps && forall step :: step in steps ==> !IsFault(step)
    ensures s.phase.Done? ==> (s.phase.result.Ok? <==> DirectorySyncOk in steps)
    ensures s.phase.Done? ==> (s.phase.result.Err? && RenameOk in steps <==> DirectorySyncFault in steps)
    ensures s.phase.Done? && s.phase.result.Err? && s.phase.result.error != IoError ==> s.fs == fs
  {
    ScheduleKeepsTrace(job, fs, steps, s);
  }

  /** A bound on the steps still possible. */
  function StepsLeft(job: Job, s: State): nat {
    var n := |job.store.orbs|;
    match s.phase
    case Checking => n + MAX_ATTEMPTS + 6
    case Probing => n + MAX_ATTEMPTS + 5
    case Creating(attempt) => n + 5 + if attempt < MAX_ATTEMPTS then MAX_ATTEMPTS - 1 - attempt else 0
    case Writing(chunks) => 3 + if chunks <= n then n + 1 - chunks else 0
    case Renaming => 2
    case SyncingDirectory => 1
    case Removing(_) => 1
    case Done(_) => 0
  }

  predicate FewAttempts(s: State) {
    s.phase.Creating? ==> s.phase.attempt < MAX_ATTEMPTS
  }

  lemma StepShrinks(job: Job, s: State, step: Step)
    requires Enabled(job, s, step) && FewAttempts(s)
    ensures FewAttempts(Apply(job, s, step)) && StepsLeft(job, Apply(job, s, step)) < StepsLeft(job, s)
  {
    hide Refusal, Chunk, TempName;
  }

  lemma {:induction false} StepsAreFew(job: Job, fs: FileSystem, steps: seq<Step>, s: State)
    requires After(job, fs, steps) == Some(s)
    ensures FewAttempts(s) && |steps| + StepsLeft(job, s) <= StepsLeft(job, Init(job, fs))
  {
    if steps != [] {
      hide Enabled, Apply, FewAttempts, StepsLeft;
      var n := |steps| - 1;
      var before := After(job, fs, steps[..n]).value;
      StepsAreFew(job, fs, steps[..n], before);
      StepShrinks(job, before, steps[n]);
    }
  }

  /** No call runs on: it takes at most one step for each piece written, 128 names and five other steps,
      and until it is over some step is possible. */
  lemma {:induction false} EveryCallEnds(job: Job, fs: FileSystem, steps: seq<Step>, s: State)
    requires After(job, fs, steps) == Some(s)
    ensures s.phase.Creating? ==> s.phase.attempt < 128
    ensures |steps| <= |job.store.orbs| + 1 + 128 + 5
    ensures s.phase.Done? <==> !exists step :: Enabled(job, s, step)
  {
    hide Inv;
    StepsAreFew(job, fs, steps, s);
    ScheduleKeepsTrace(job, fs, steps, s);
    if !s.phase.Done? {
      SomeStep(job, fs, s, RenameOk in steps);
    }
  }

  /** How many temporary names were taken. */
  function Collisions(steps: seq<Step>): nat {
    if steps == [] then 0
    else Collisions(steps[..|steps| - 1]) + if steps[|steps| - 1].CreateExists? then 1 else 0
  }

  /** The call gives up at the 128th name that is taken, and not before. */
  lemma {:induction false} CollisionsAreCounted(job: Job, fs: FileSystem, steps: seq<Step>, s: State)
    requires After(job, fs, steps) == Some(s)
    ensures s.phase in {Checking, Probing} ==> Collisions(steps) == 0
    ensures s.phase.Creating? ==> s.phase.attempt == Collisions(steps) < 128
    ensures steps != [] && steps[|steps| - 1].CreateExists? ==>
      if Collisions(steps) < 128 then s.phase.Creating? else s.phase == Done(Err(IoError))
  {
    if steps != [] {
      hide Refusal, Chunk, TempName;
      var n := |steps| - 1;
      CollisionsAreCounted(job, fs, steps[..n], After(job, fs, steps[..n]).value);
    }
  }

  lemma SomeStep(job: Job, fs: FileSystem, s: State, renamed: bool)
    requires Inv(job, fs, s, renamed) && !s.phase.Done?
    ensures exists step :: Enabled(job, s, step)
  {
    var step := match s.phase
      case Checking => Check
      case Probing => StatAnswers
      case Creating(_) => CreateFault
      case Writing(chunks) => if chunks <= |job.store.orbs| then WriteOk else SyncOk
      case Renaming => RenameOk
      case SyncingDirectory => DirectorySyncOk
      case Removing(_) => RemoveOk;
    assert Enabled(job, s, step);
  }

  /** Which steps a call can take at all: only a guarded one checks, and only an existing file can fail to be
      read; only a Unix build asks for the mode, sets it on behalf of an existing file, and can fail to sync
      the directory. */
  predicate Fits(job: Job, fs: FileSystem, step: Step) {
    match step
    case Check => job.guarded
    case CheckFault => job.guarded && job.path in fs
    case MisreportAbsent => job.guarded
    case StatAnswers => job.unix
    case StatFault => job.unix
    case CreateThenFault(_) => job.unix && job.path in fs
    case DirectorySyncFault => job.unix
    case _ => true
  }

  lemma {:induction false} EveryStepFits(job: Job, fs: FileSystem, steps: seq<Step>, s: State)
    requires After(job, fs, steps) == Some(s)
    ensures forall step :: step in steps ==> Fits(job, fs, step)
  {
    if steps != [] {
      hide Apply;
      var n := |steps| - 1;
      var before := After(job, fs, steps[..n]).value;
      EveryStepFits(job, fs, steps[..n], before);
      ScheduleKeepsTrace(job, fs, steps[..n], before);
      assert steps == steps[..n] + [steps[n]];
    }
  }

  /** A system call can fail wherever there is one: the next step may lead to an I/O error. */
  lemma {:induction false} FaultsAnywhere(job: Job, fs: FileSystem, steps: seq<Step>, s: State)
    requires After(job, fs, steps) == Some(s) && !s.phase.Done?
    requires (s.phase == Checking ==> job.path in fs) && (s.phase == SyncingDirectory ==> job.unix)
    ensures exists step :: Enabled(job, s, step) && Apply(job, s, step).phase in {Done(Err(IoError)), Removing(IoError)}
  {
    ScheduleKeepsTrace(job, fs, steps, s);
    var step := match s.phase
      case Checking => CheckFault
      case Probing => StatFault
      case Creating(_) => CreateFault
      case Writing(chunks) => if chunks <= |job.store.orbs| then WriteFault(0) else SyncFault
      case Renaming => RenameFault
      case SyncingDirectory => DirectorySyncFault
      case Removing(_) => RemoveFault;
    assert Enabled(job, s, step);
  }

  // ---- the generation guard ----

  /** Not past the guard: nothing has changed, and the call is at its check or over. */
  predicate HeldBack(job: Job, fs: FileSystem, s: State) {
    s.fs == fs &&
    (s.phase == Checking || s.phase == Done(Err(IoError)) ||
     (Refusal(fs, job).Some? && s.phase == Done(Err(Refusal(fs, job).value))))
  }

  /** The generation a path holds, when it holds an intact v2 store. */
  function GenerationAt(fs: FileSystem, path: Path): Option<Word> {
    match Verdict(Target(fs, path), UNLIMITED)
    case Err(_) => None
    case Ok(v) => if v.sourceFormat == V2 then Some(v.header.generation) else None
  }

  /** Every byte string is a v2 store of a generation exactly when it is the image of such a store. */
  lemma GenerationIsStored(fs: FileSystem, path: Path, generation: Word)
    ensures GenerationAt(fs, path) == Some(generation) <==>
      path in fs && exists s: RamStore ::
        ValidStore(s) && s.header.generation == generation && fs[path] == StoreImage(s.header, s.orbs)
  {
    hide OpenValidated, StoreImage, Canonical;
    if GenerationAt(fs, path) == Some(generation) {
      var s := VerifiedStore(fs[path]);
      assert ValidStore(s) && fs[path] == StoreImage(s.header, s.orbs);
    }
    forall s: RamStore | path in fs && ValidStore(s) && fs[path] == StoreImage(s.header, s.orbs)
      ensures GenerationAt(fs, path) == Some(s.header.generation)
    {
      ImageVerdict(s);
    }
  }

  /** A file that verifies as v2 holds a store. */
  lemma VerifiedStore(file: seq<Byte>) returns (s: RamStore)
    requires Verdict(Some(file), UNLIMITED).Ok? && Verdict(Some(file), UNLIMITED).value.sourceFormat == V2
    ensures ValidStore(s) && s.header == Verdict(Some(file), UNLIMITED).value.header
    ensures file == StoreImage(s.header, s.orbs)
  {
    hide OpenValidated, ValidStore, StoreImage;
    VerifyAgreesWithLoad(Some(file), UNLIMITED, TWO64);
    s := Loaded(Some(file), UNLIMITED, TWO64).value;
    LoadedIsCanonical(file, UNLIMITED, TWO64);
  }

  /** Whether the target admits the write: nothing is there, or an intact v2 store of a smaller generation. */
  predicate Newer(fs: FileSystem, job: Job) {
    job.path !in fs ||
    (GenerationAt(fs, job.path).Some? && GenerationAt(fs, job.path).value < job.store.header.generation)
  }

  /** The guard refuses nothing else, and says what is there. */
  lemma RefusalIsExact(job: Job, fs: FileSystem)
    ensures Refusal(fs, job) == None <==>
      job.path !in fs ||
      (GenerationAt(fs, job.path).Some? && GenerationAt(fs, job.path).value < job.store.header.generation)
    ensures forall current, attempted ::
      Refusal(fs, job) == Some(GenerationRollback(current, attempted)) <==>
        GenerationAt(fs, job.path) == Some(current) && attempted == job.store.header.generation <= current
    ensures Refusal(fs, job) == Some(LegacyGenerationUntrusted) <==>
      job.path in fs && GEL_MAGIC_V1 <= fs[job.path] && Verdict(Some(fs[job.path]), UNLIMITED).Ok?
    ensures forall e ::
      Refusal(fs, job) == Some(Unreadable(e)) <==> job.path in fs && Verdict(Some(fs[job.path]), UNLIMITED) == Err(e)
    ensures Refusal(fs, job) != Some(IoError)
  {
    if job.path in fs && Verdict(Some(fs[job.path]), UNLIMITED).Ok? {
      FormatIsMagic(fs[job.path], UNLIMITED);
    }
    hide Verdict;
  }

  lemma RefusalHolds(job: Job, fs: FileSystem, s: State, step: Step)
    requires Refusal(fs, job) != None && HeldBack(job, fs, s) && Enabled(job, s, step) && step != MisreportAbsent
    ensures HeldBack(job, fs, Apply(job, s, step)) && step != RenameOk
  {
  }

  /** The guard was evaluated on the file system the call started from: a write that is not newer changes
      nothing, and unless reading fails the error says what is there. */
  lemma {:induction false} GuardWasEvaluated(job: Job, fs: FileSystem, steps: seq<Step>, s: State)
    requires job.guarded && After(job, fs, steps) == Some(s) && MisreportAbsent !in steps
    requires !Newer(fs, job)
    ensures s.fs == fs && RenameOk !in steps
    ensures s.phase == Checking || (s.phase.Done? && s.phase.result.Err?)
    ensures s.phase.Done? && s.phase.result != Err(IoError) ==>
      Refusal(fs, job).Some? && s.phase.result == Err(Refusal(fs, job).value)
  {
    RefusalIsExact(job, fs);
    StaysHeldBack(job, fs, steps, s);
  }

  lemma {:induction false} StaysHeldBack(job: Job, fs: FileSystem, steps: seq<Step>, s: State)
    requires job.guarded && After(job, fs, steps) == Some(s) && MisreportAbsent !in steps
    requires Refusal(fs, job) != None
    ensures HeldBack(job, fs, s) && RenameOk !in steps
  {
    if steps != [] {
      var n := |steps| - 1;
      var before := After(job, fs, steps[..n]).value;
      StaysHeldBack(job, fs, steps[..n], before);
      RefusalHolds(job, fs, before, steps[n]);
      assert steps == steps[..n] + [steps[n]];
    }
  }

  /** Without an answer to the second probe a Unix build changes nothing. */
  lemma {:induction false} NothingWithoutStat(job: Job, fs: FileSystem, steps: seq<Step>, s: State)
    requires job.unix && After(job, fs, steps) == Some(s) && StatAnswers !in steps
    ensures s.fs == fs && RenameOk !in steps
    ensures s.phase in {Checking, Probing} || (s.phase.Done? && s.phase.result.Err?)
  {
    if steps != [] {
      var n := |steps| - 1;
      var before := After(job, fs, steps[..n]).value;
      NothingWithoutStat(job, fs, steps[..n], before);
      assert steps == steps[..n] + [steps[n]];
    }
  }

  lemma ImageVerdict(s: RamStore)
    requires ValidStore(s)
    ensures Verdict(Some(StoreImage(s.header, s.orbs)), UNLIMITED) == Ok(Verification(V2, s.header))
  {
    ImageOpens(s, UNLIMITED);
  }

  /** A guarded call whose existence probe answered truthfully either leaves the target alone,
      or replaces nothing by the new store, or an intact v2 store by one of a larger generation. */
  lemma {:induction false} GuardedReplacement(job: Job, fs: FileSystem, steps: seq<Step>, s: State)
    requires job.guarded && ValidStore(job.store)
    requires After(job, fs, steps) == Some(s) && MisreportAbsent !in steps
    ensures Target(s.fs, job.path) == Target(fs, job.path) ||
      (&& GenerationAt(s.fs, job.path) == Some(job.store.header.generation)
       && (job.path in fs ==>
             GenerationAt(fs, job.path).Some? &&
             GenerationAt(fs, job.path).value < job.store.header.generation))
  {
    PublicationIsAtomic(job, fs, steps, s);
    if !Newer(fs, job) {
      GuardWasEvaluated(job, fs, steps, s);
    }
    ScheduleKeepsTrace(job, fs, steps, s);
    ImageVerdict(job.store);
  }

  /** How the two probes of a call answer: the first may deny a file that exists, the second may fail. */
  datatype Probes = Probes(misreports: bool, statFails: bool)

  /** The schedule takes only probe steps that fit. */
  predicate Follows(steps: seq<Step>, p: Probes) {
    && (p.misreports ==> Check !in steps && CheckFault !in steps)
    && (!p.misreports ==> MisreportAbsent !in steps)
    && (p.statFails ==> StatAnswers !in steps)
    && (!p.statFails ==> StatFault !in steps)
  }

  /** Whether a call that gets this far can publish. */
  predicate Passes(job: Job, fs: FileSystem, p: Probes) {
    && (job.guarded && !p.misreports ==> Newer(fs, job))
    && (job.unix ==> !p.statFails)
  }

  /** A call the guard must refuse, whatever the reason, publishes exactly when `exists` denies the
      file and the second probe of a Unix build then answers. */
  lemma {:induction false} BypassIsExact(job: Job, fs: FileSystem, suffix: string, p: Probes)
    requires job.guarded && !Newer(fs, job) && TempName(job.path, suffix) !in fs
    ensures (exists steps: seq<Step>, s: State ::
        After(job, fs, steps) == Some(s) && Follows(steps, p) && RenameOk in steps)
      <==> p.misreports && !(job.unix && p.statFails)
  {
    PublishesExactly(job, fs, suffix, p);
  }

  /** For any call and any answers of the probes: it can publish exactly when the guard, if it is
      asked, does not refuse, and the second probe, if there is one, answers. */
  lemma {:induction false} PublishesExactly(job: Job, fs: FileSystem, suffix: string, p: Probes)
    requires TempName(job.path, suffix) !in fs
    ensures (exists steps: seq<Step>, s: State ::
        After(job, fs, steps) == Some(s) && Follows(steps, p) && RenameOk in steps)
      <==> Passes(job, fs, p)
  {
    if Passes(job, fs, p) {
      var steps, s := PublishingSchedule(job, fs, suffix, p, DirectorySyncOk);
      assert After(job, fs, steps) == Some(s) && Follows(steps, p) && RenameOk in steps;
    }
    forall steps: seq<Step>, s: State | After(job, fs, steps) == Some(s) && Follows(steps, p) && RenameOk in steps
      ensures Passes(job, fs, p)
    {
      if job.guarded && !p.misreports && !Newer(fs, job) {
        GuardWasEvaluated(job, fs, steps, s);
      }
      if job.unix && p.statFails {
        NothingWithoutStat(job, fs, steps, s);
      }
    }
  }

  /** A file of any kind under the target path is replaced when `exists` denies it and the second
      probe answers: a larger or equal generation, a v1 file, or bytes that are no store. */
  lemma {:induction false} MisreportBypassesGuard(job: Job, fs: FileSystem, suffix: string)
    requires job.guarded && TempName(job.path, suffix) !in fs
    ensures exists steps: seq<Step>, s: State ::
      After(job, fs, steps) == Some(s) && s.phase == Done(Ok(())) && s.fs == fs[job.path := Image(job)]
  {
    var steps, s := PublishingSchedule(job, fs, suffix, Probes(true, false), DirectorySyncOk);
    assert After(job, fs, steps) == Some(s);
  }

  /** With a truthful probe a guarded call can publish exactly when nothing is there, or an intact v2 store
      of a smaller generation. */
  lemma {:induction false} GuardIsExact(job: Job, fs: FileSystem, suffix: string)
    requires job.guarded && TempName(job.path, suffix) !in fs
    ensures (exists steps: seq<Step>, s: State ::
        After(job, fs, steps) == Some(s) && MisreportAbsent !in steps && s.phase == Done(Ok(())))
      <==>
      job.path !in fs ||
      (GenerationAt(fs, job.path).Some? && GenerationAt(fs, job.path).value < job.store.header.generation)
  {
    if Newer(fs, job) {
      var steps, s := PublishingSchedule(job, fs, suffix, Probes(false, false), DirectorySyncOk);
      assert After(job, fs, steps) == Some(s) && s.phase == Done(Ok(()));
    }
    forall steps: seq<Step>, s: State |
      After(job, fs, steps) == Some(s) && MisreportAbsent !in steps && s.phase == Done(Ok(()))
      ensures Newer(fs, job)
    {
      if !Newer(fs, job) {
        GuardWasEvaluated(job, fs, steps, s);
      }
    }
  }

  /** An error after the rename took effect is reachable for every call of a Unix build that can
      publish at all: the target then holds the new store. */
  lemma {:induction false} ErrorAfterRename(job: Job, fs: FileSystem, suffix: string)
    requires job.unix && TempName(job.path, suffix) !in fs && (job.guarded ==> Newer(fs, job))
    ensures exists steps: seq<Step>, s: State ::
      After(job, fs, steps) == Some(s) && s.phase == Done(Err(IoError)) && s.fs == fs[job.path := Image(job)]
  {
    var steps, s := PublishingSchedule(job, fs, suffix, Probes(false, false), DirectorySyncFault);
    assert After(job, fs, steps) == Some(s);
  }

  /** A schedule without faults up to the rename, and then the given end. */
  lemma PublishingSchedule(job: Job, fs: FileSystem, suffix: string, p: Probes, sync: Step)
    returns (steps: seq<Step>, s: State)
    requires TempName(job.path, suffix) !in fs && Passes(job, fs, p)
    requires sync == DirectorySyncOk || (sync == DirectorySyncFault && job.unix)
    ensures After(job, fs, steps) == Some(s) && Follows(steps, p) && RenameOk in steps
    ensures s.phase == Done(if sync == DirectorySyncOk then Ok(()) else Err(IoError))
    ensures s.fs == fs[job.path := Image(job)]
  {
    var tmp, pieces := TempName(job.path, suffix), |job.store.orbs| + 1;
    var opening := WritingSchedule(job, fs, suffix, p, pieces);
    WrittenAll(job);
    TempIsNew(job.path, suffix);
    steps := opening + [SyncOk] + [RenameOk] + [sync];
    s := ClosingSteps(job, fs, opening, tmp, sync);
    FollowsOn(opening, SyncOk, p);
    FollowsOn(opening + [SyncOk], RenameOk, p);
    FollowsOn(opening + [SyncOk] + [RenameOk], sync, p);
  }

  /** Steps after the probes do not matter to what the probes answered. */
  lemma FollowsOn(steps: seq<Step>, step: Step, p: Probes)
    requires Follows(steps, p) && step !in {Check, CheckFault, MisreportAbsent, StatAnswers, StatFault}
    ensures Follows(steps + [step], p)
  {
  }

  lemma ClosingSteps(job: Job, fs: FileSystem, opening: seq<Step>, tmp: Path, sync: Step) returns (s: State)
    requires tmp !in fs && tmp != job.path
    requires After(job, fs, opening) == Some(State(Writing(|job.store.orbs| + 1), fs[tmp := Image(job)], tmp))
    requires sync == DirectorySyncOk || (sync == DirectorySyncFault && job.unix)
    ensures After(job, fs, opening + [SyncOk] + [RenameOk] + [sync]) == Some(s)
    ensures s.phase == Done(if sync == DirectorySyncOk then Ok(()) else Err(IoError))
    ensures s.fs == fs[job.path := Image(job)]
  {
    var s3 := State(Writing(|job.store.orbs| + 1), fs[tmp := Image(job)], tmp);
    var s4 := s3.(phase := Renaming);
    Extend(job, fs, opening, s3, SyncOk, s4);
    var s5 := State(SyncingDirectory, fs[job.path := Image(job)], tmp);
    assert (s4.fs - {tmp})[job.path := Image(job)] == s5.fs;
    Extend(job, fs, opening + [SyncOk], s4, RenameOk, s5);
    s := Apply(job, s5, sync);
    Extend(job, fs, opening + [SyncOk] + [RenameOk], s5, sync, s);
  }

  lemma GuardPassed(job: Job, fs: FileSystem, p: Probes) returns (steps: seq<Step>)
    requires Passes(job, fs, p)
    ensures After(job, fs, steps) == Some(State(Checked(job), fs, ""))
    ensures Follows(steps, p)
  {
    if !job.guarded {
      steps := [];
    } else {
      var first := if p.misreports then MisreportAbsent else Check;
      RefusalIsExact(job, fs);
      Extend(job, fs, [], Init(job, fs), first, State(Checked(job), fs, ""));
      steps := [first];
      assert [] + [first] == [first];
    }
  }

  /** The probes that lead to the creation of the temporary file. */
  lemma ProbingSchedule(job: Job, fs: FileSystem, p: Probes) returns (steps: seq<Step>)
    requires Passes(job, fs, p)
    ensures After(job, fs, steps) == Some(State(Creating(0), fs, "")) && Follows(steps, p)
  {
    var guarded := GuardPassed(job, fs, p);
    if job.unix {
      Extend(job, fs, guarded, State(Checked(job), fs, ""), StatAnswers, State(Creating(0), fs, ""));
      steps := guarded + [StatAnswers];
    } else {
      steps := guarded;
    }
  }

  /** The probes, the temporary file and the first `i` writes. */
  lemma {:induction false} WritingSchedule(job: Job, fs: FileSystem, suffix: string, p: Probes, i: nat)
    returns (steps: seq<Step>)
    requires TempName(job.path, suffix) !in fs && i <= |job.store.orbs| + 1 && Passes(job, fs, p)
    ensures var tmp := TempName(job.path, suffix);
      After(job, fs, steps) == Some(State(Writing(i), fs[tmp := Written(job, i)], tmp))
    ensures Follows(steps, p)
  {
    var tmp := TempName(job.path, suffix);
    if i == 0 {
      var probes := ProbingSchedule(job, fs, p);
      Extend(job, fs, probes, State(Creating(0), fs, ""), CreateOk(suffix), State(Writing(0), fs[tmp := []], tmp));
      steps := probes + [CreateOk(suffix)];
    } else {
      var before := WritingSchedule(job, fs, suffix, p, i - 1);
      WriteNext(job, fs, before, tmp, i - 1);
      steps := before + [WriteOk];
    }
  }

  lemma {:induction false} WriteNext(job: Job, fs: FileSystem, before: seq<Step>, tmp: Path, i: nat)
    requires i <= |job.store.orbs|
    requires After(job, fs, before) == Some(State(Writing(i), fs[tmp := Written(job, i)], tmp))
    ensures After(job, fs, before + [WriteOk]) == Some(State(Writing(i + 1), fs[tmp := Written(job, i + 1)], tmp))
  {
    WrittenGrows(job, i);
    var s2 := State(Writing(i + 1), fs[tmp := Written(job, i + 1)], tmp);
    assert fs[tmp := Written(job, i)][tmp := Written(job, i + 1)] == s2.fs;
    Extend(job, fs, before, State(Writing(i), fs[tmp := Written(job, i)], tmp), WriteOk, s2);
  }

  lemma {:induction false} Extend(job: Job, fs: FileSystem, steps: seq<Step>, s: State, step: Step, t: State)
    requires After(job, fs, steps) == Some(s) && Enabled(job, s, step) && t == Apply(job, s, step)
    ensures After(job, fs, steps + [step]) == Some(t)
  {
    assert (steps + [step])[..|steps|] == steps;
  }

  // ---- runs of a single writer ----

  /** One call of a run: finished, failed or crashed after the schedule `steps`. */
  datatype Turn = Turn(store: RamStore, unix: bool, steps: seq<Step>)

  function AfterTurn(path: Path, fs: FileSystem, t: Turn): Option<FileSystem> {
    match After(Job(path, t.store, true, t.unix), fs, t.steps)
    case None => None
    case Some(s) => Some(s.fs)
  }

  /** The file system after a run of guarded calls on one path, one at a time. */
  function AfterRun(path: Path, fs: FileSystem, turns: seq<Turn>): Option<FileSystem> {
    if turns == [] then Some(fs)
    else
      var n := |turns| - 1;
      match AfterRun(path, fs, turns[..n])
      case None => None
      case Some(before) => AfterTurn(path, before, turns[n])
  }

  predicate SoundTurn(t: Turn) {
    ValidStore(t.store) && MisreportAbsent !in t.steps
  }

  /** Over any run of a single writer, crashes and faults included: a corrupt or v1 predecessor
      is never replaced, and an intact v2 store is kept or replaced by larger generations only. */
  lemma {:induction false} GenerationsOnlyGrow(path: Path, fs: FileSystem, turns: seq<Turn>, end: FileSystem)
    requires AfterRun(path, fs, turns) == Some(end)
    requires forall i :: 0 <= i < |turns| ==> SoundTurn(turns[i])
    ensures path in fs ==> path in end
    ensures path in fs && GenerationAt(fs, path) == None ==> end[path] == fs[path]
    ensures GenerationAt(fs, path).Some? ==>
      GenerationAt(end, path).Some? &&
      (Target(end, path) == Target(fs, path) || GenerationAt(fs, path).value < GenerationAt(end, path).value)
    ensures path !in fs && path in end ==> GenerationAt(end, path).Some?
  {
    if turns != [] {
      var n := |turns| - 1;
      var before := AfterRun(path, fs, turns[..n]).value;
      GenerationsOnlyGrow(path, fs, turns[..n], before);
      assert SoundTurn(turns[n]);
      var job := Job(path, turns[n].store, true, turns[n].unix);
      var s := After(job, before, turns[n].steps).value;
      GuardedReplacement(job, before, turns[n].steps, s);
      PublicationIsAtomic(job, before, turns[n].steps, s);
    }
  }

  /** Two states of one run are ordered: a later one never holds a smaller generation. */
  lemma {:induction false} EveryPrefixIsOrdered(path: Path, fs: FileSystem, turns: seq<Turn>, i: nat, mid: FileSystem,
                                                end: FileSystem)
    requires i <= |turns| && AfterRun(path, fs, turns[..i]) == Some(mid) && AfterRun(path, fs, turns) == Some(end)
    requires forall j :: 0 <= j < |turns| ==> SoundTurn(turns[j])
    ensures GenerationAt(mid, path).Some? ==>
      GenerationAt(end, path).Some? && GenerationAt(mid, path).value <= GenerationAt(end, path).value
  {
    RunSplits(path, fs, turns, i, mid);
    GenerationsOnlyGrow(path, mid, turns[i..], end);
  }

  lemma {:induction false} RunSplits(path: Path, fs: FileSystem, turns: seq<Turn>, i: nat, mid: FileSystem)
    requires i <= |turns| && AfterRun(path, fs, turns[..i]) == Some(mid)
    ensures AfterRun(path, fs, turns) == AfterRun(path, mid, turns[i..])
  {
    if i == |turns| {
      assert turns[..i] == turns && turns[i..] == [];
    } else {
      var n := |turns| - 1;
      assert turns[..n][..i] == turns[..i];
      RunSplits(path, fs, turns[..n], i, mid);
      assert turns[i..][..n - i] == turns[..n][i..] && turns[i..][n - i] == turns[n];
    }
  }
}
