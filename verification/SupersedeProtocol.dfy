/** Replacing a redacted copy by its original, as a protocol: any number of phones (one job each, the
    per-phone lock), the residue sweeper, concurrent ingests, failures of every call, power loss between
    any two steps, restarts with any pid, and the startup repair. */
module SupersedeProtocol {
  import opened LibraryStore
  import opened Patching

  /** Where a job stands. `Copying` holds the bytes the open source descriptor reads. */
  datatype Pc =
    | Fresh
    | Copying(image: Bytes)
    | Copied
    | Patching(next: nat)
    | Synced
    | Verified
    | Committed
    | Renamed
    | Failed(cleanup: bool)

  datatype Job = Job(oldHash: Hash, newHash: Hash, size: int, row: Row, pieces: seq<Piece>, pc: Pc)

  datatype Phase =
    | Down
    | Starting(todo: set<Hash>, renamed: Option<Hash>)
    | Running

  /** The sweeper's directory listing and its snapshot of the pending table, both possibly stale. */
  datatype Sweeper =
    | Idle
    | Listed(items: set<Path>)
    | Snapped(items: set<Path>, pending: map<Hash, Swap>)

  datatype Sys = Sys(store: Store, jobs: map<Device, Job>, pid: nat, phase: Phase, sweeper: Sweeper)

  /** One step of a running job. */
  datatype Step =
    | StartCopy(junk: Bytes)
    | EndCopy
    | CheckOld
    | PatchNext
    | Sync
    | CheckNew
    | Commit(dbError: bool)
    | Cleanup(ioError: bool)
    | SwapRename(ioError: bool)
    | SwapClear(dbError: bool)
    | IoError(removed: bool)

  datatype Event =
    | Begin(d: Device, oldHash: Hash, newHash: Hash, size: int, pieces: seq<Piece>)
    | Advance(d: Device, step: Step)
    | PlaceFile(rel: string, content: Bytes)
    | InsertRow(h: Hash, row: Row)
    | SweepList
    | SweepSnapshot
    | SweepRemove(item: Path)
    | SweepEnd
    | Crash(torn: map<Path, Option<Bytes>>)
    | Restart(newPid: nat)
    | FinishRename(h: Hash)
    | FinishClear(h: Hash)
    | FinishEnd

  function StagedPath(newHash: Hash, pid: nat): Path {
    Staging(StagedName(newHash, Some(pid)))
  }

  function JobStaged(s: Sys, d: Device): Path
    requires d in s.jobs
  {
    StagedPath(s.jobs[d].newHash, s.pid)
  }

  /** Nothing the job has written since its copy began is known to be on the medium. */
  predicate Unsynced(pc: Pc) {
    pc.Copying? || pc.Copied? || pc.Patching?
  }

  predicate PreCommit(pc: Pc) {
    pc.Fresh? || Unsynced(pc) || pc.Synced? || pc.Verified?
  }

  function SetPc(s: Sys, d: Device, pc: Pc): Sys
    requires d in s.jobs
  {
    s.(jobs := s.jobs[d := s.jobs[d].(pc := pc)])
  }

  function EndJob(s: Sys, d: Device): Sys {
    s.(jobs := s.jobs - {d})
  }

  /** A refusal after staging: the job's staged file is removed and the job ends. */
  function Refuse(s: Sys, d: Device): Sys
    requires d in s.jobs
  {
    EndJob(s.(store := Remove(s.store, JobStaged(s, d))), d)
  }

  predicate SweepTakes(s: Sys, item: Path)
    requires s.sweeper.Snapped?
  {
    item in s.sweeper.items && item in s.store.disk && Unclaimed(item, s.pid, s.sweeper.pending)
  }

  /** When a job can take a step. */
  predicate StepEnabled(s: Sys, d: Device, step: Step) {
    && d in s.jobs
    && var pc := s.jobs[d].pc;
       var staged := JobStaged(s, d) in s.store.disk;
       match step
       case StartCopy(_) => pc.Fresh? && Original(s.jobs[d].row.relPath) in s.store.disk
       case EndCopy => pc.Copying?
       case CheckOld => pc.Copied? && staged
       case PatchNext => pc.Patching? && pc.next < |s.jobs[d].pieces| && staged
       case Sync => pc.Patching? && pc.next == |s.jobs[d].pieces|
       case CheckNew => pc.Synced? && staged
       case Commit(_) => pc.Verified?
       case Cleanup(_) => pc.Failed?
       case SwapRename(_) => pc.Committed?
       case SwapClear(_) => pc.Renamed?
       case IoError(_) => pc.Fresh? || Unsynced(pc) || pc.Synced?
  }

  /** When an event can happen. */
  predicate Enabled(s: Sys, e: Event) {
    match e
    case Begin(d, oldHash, _, _, _) =>
      && s.phase.Running? && d !in s.jobs
      && oldHash in s.store.rows && s.store.rows[oldHash].device == d
    case Advance(d, step) => StepEnabled(s, d, step)
    case PlaceFile(rel, _) => s.phase.Running? && Original(rel) !in s.store.disk
    case InsertRow(h, row) =>
      && s.phase.Running? && h !in s.store.rows
      && Original(row.relPath) in s.store.disk && HashOf(s.store.disk[Original(row.relPath)]) == h
      && forall g | g in s.store.rows :: s.store.rows[g].relPath != row.relPath
    case SweepList => s.phase.Running? && s.sweeper.Idle?
    case SweepSnapshot => s.sweeper.Listed?
    case SweepRemove(item) => s.sweeper.Snapped? && SweepTakes(s, item)
    case SweepEnd => !s.sweeper.Idle?
    case Crash(torn) => forall p | p in torn :: exists d | d in s.jobs :: Unsynced(s.jobs[d].pc) && JobStaged(s, d) == p
    case Restart(_) => s.phase.Down?
    case FinishRename(h) => s.phase.Starting? && s.phase.renamed.None? && h in s.phase.todo && h in s.store.pending
    case FinishClear(h) => s.phase.Starting? && s.phase.renamed == Some(h)
    case FinishEnd => s.phase.Starting?
  }

  /** Move the staged file of a pending record into place if it is there. */
  function SwapIn(s: Store, swap: Swap): Store {
    if swap.staged in s.disk then Rename(s, swap.staged, Original(swap.relPath)) else s
  }

  function Tear(disk: map<Path, Bytes>, torn: map<Path, Option<Bytes>>): map<Path, Bytes> {
    map p | p in disk.Keys + torn.Keys && (p in torn ==> torn[p].Some?)
      :: if p in torn then torn[p].value else disk[p]
  }

  /** Power loss can leave any bytes, or nothing, under a name that was not synced, and leaves all other files. */
  lemma PowerLossMeans(disk: map<Path, Bytes>, torn: map<Path, Option<Bytes>>, p: Path)
    ensures p in torn && torn[p].Some? ==> p in Tear(disk, torn) && Tear(disk, torn)[p] == torn[p].value
    ensures p in torn && torn[p].None? ==> p !in Tear(disk, torn)
    ensures p !in torn ==> (p in Tear(disk, torn) <==> p in disk) && (p in disk ==> Tear(disk, torn)[p] == disk[p])
  {
  }

  /** What a job's step does. */
  function DoStep(s: Sys, d: Device, step: Step): Sys
    requires StepEnabled(s, d, step)
  {
    var job := s.jobs[d];
    var staged := JobStaged(s, d);
    match step
    case StartCopy(junk) =>
      SetPc(s.(store := Write(s.store, staged, junk)), d, Copying(s.store.disk[Original(job.row.relPath)]))
    case EndCopy => SetPc(s.(store := Write(s.store, staged, job.pc.image)), d, Copied)
    case CheckOld =>
      if HashOf(s.store.disk[staged]) == job.oldHash then SetPc(s, d, Pc.Patching(0)) else Refuse(s, d)
    case PatchNext =>
      (match PatchOne(s.store.disk[staged], job.pieces[job.pc.next])
       case Patched(content) =>
         SetPc(s.(store := Write(s.store, staged, content)), d, Pc.Patching(job.pc.next + 1))
       case _ => Refuse(s, d))
    case Sync => SetPc(s, d, Synced)
    case CheckNew =>
      if HashOf(s.store.disk[staged]) == job.newHash then SetPc(s, d, Verified) else Refuse(s, d)
    case Commit(dbError) =>
      var row := job.row.(bytes := job.size, thumbState := 0);
      var committed := SupersedeAsset(s.store, job.oldHash, job.newHash, row, staged);
      if dbError || committed.None? then SetPc(s, d, Failed(job.newHash !in s.store.pending))
      else SetPc(s.(store := committed.value), d, Committed)
    case Cleanup(ioError) =>
      if job.pc.cleanup && !ioError then Refuse(s, d) else EndJob(s, d)
    case SwapRename(ioError) =>
      if ioError then EndJob(s, d)
      else SetPc(s.(store := SwapIn(s.store, Swap(job.row.relPath, staged))), d, Renamed)
    case SwapClear(dbError) =>
      EndJob(if dbError then s else s.(store := ClearPending(s.store, job.newHash)), d)
    case IoError(removed) => if removed then Refuse(s, d) else EndJob(s, d)
  }

  /** An error before the transaction ends the job; its staged file goes, or stays if the removal fails too. */
  lemma IoErrorMeans(s: Sys, d: Device, removed: bool)
    requires StepEnabled(s, d, IoError(removed))
    ensures var t := DoStep(s, d, IoError(removed));
            && d !in t.jobs && t.store.rows == s.store.rows && t.store.alias == s.store.alias && t.store.pending == s.store.pending
            && t.store.disk == if removed then s.store.disk - {JobStaged(s, d)} else s.store.disk
  {
  }

  /** What an event does. */
  function Do(s: Sys, e: Event): Sys
    requires Enabled(s, e)
  {
    match e
    case Begin(d, oldHash, newHash, size, pieces) =>
      s.(jobs := s.jobs[d := Job(oldHash, newHash, size, s.store.rows[oldHash], pieces, Fresh)])
    case Advance(d, step) => DoStep(s, d, step)
    case PlaceFile(rel, content) => s.(store := Write(s.store, Original(rel), content))
    case InsertRow(h, row) => s.(store := s.store.(rows := s.store.rows[h := row]))
    case SweepList => s.(sweeper := Listed(set p | p in s.store.disk && p.Staging?))
    case SweepSnapshot => s.(sweeper := Snapped(s.sweeper.items, s.store.pending))
    case SweepRemove(item) => s.(store := Remove(s.store, item))
    case SweepEnd => s.(sweeper := Idle)
    case Crash(torn) =>
      Sys(s.store.(disk := Tear(s.store.disk, torn)), map[], s.pid, Down, Idle)
    case Restart(newPid) => s.(pid := newPid, phase := Starting(s.store.pending.Keys, None))
    case FinishRename(h) =>
      s.(store := SwapIn(s.store, s.store.pending[h]), phase := Starting(s.phase.todo, Some(h)))
    case FinishClear(h) =>
      s.(store := ClearPending(s.store, h), phase := Starting(s.phase.todo - {h}, None))
    case FinishEnd => s.(phase := Running)
  }

  /** What a caller of `apply_supersede` must not do: replace a hash by itself, or ask for a new hash whose
      staged file another running job or an open pending record already uses. */
  ghost predicate Exclusive(s: Sys, e: Event) {
    e.Begin? ==>
      && e.oldHash != e.newHash
      && (forall d | d in s.jobs :: s.jobs[d].newHash != e.newHash)
      && Unnamed(s.store, StagedPath(e.newHash, s.pid))
  }

  ghost predicate Unnamed(st: Store, p: Path) {
    forall h | h in st.pending :: st.pending[h].staged != p
  }

  /** An open swap: the index already has the new row, the staged file still waits. */
  ghost predicate Live(st: Store, h: Hash) {
    h in st.pending && st.pending[h].staged in st.disk
  }

  ghost predicate FileIs(st: Store, rel: string, h: Hash) {
    Original(rel) in st.disk && HashOf(st.disk[Original(rel)]) == h
  }

  ghost predicate OpenSwap(st: Store, h: Hash, rel: string) {
    && Live(st, h) && st.pending[h].relPath == rel
    && HashOf(st.disk[st.pending[h].staged]) == h
    && Original(rel) in st.disk && RedactionOf(st.disk[Original(rel)], h.content)
  }

  ghost predicate RowAgrees(st: Store, h: Hash)
    requires h in st.rows
  {
    FileIs(st, st.rows[h].relPath, h) || OpenSwap(st, h, st.rows[h].relPath)
  }

  ghost predicate IsStagedOf(p: Path, h: Hash) {
    p.Staging? && p.name.StagedName? && p.name.hash == h
  }

  /** Disk and index agree up to open swaps. */
  ghost predicate Agreement(st: Store) {
    && (forall h | h in st.rows :: RowAgrees(st, h))
    && (forall g, h | g in st.rows && h in st.rows && g != h :: st.rows[g].relPath != st.rows[h].relPath)
    && (forall h | Live(st, h) :: h in st.rows && st.pending[h].relPath == st.rows[h].relPath
                                  && !FileIs(st, st.rows[h].relPath, h))
    && (forall h | h in st.pending :: IsStagedOf(st.pending[h].staged, h))
    && (forall h | h in st.alias :: st.alias[h] in st.rows)
  }

  ghost predicate JobInv(s: Sys, d: Device)
    requires d in s.jobs
  {
    var job := s.jobs[d];
    var staged := JobStaged(s, d);
    var source := Original(job.row.relPath);
    && job.row.device == d
    && job.oldHash != job.newHash
    && (PreCommit(job.pc) ==>
          job.oldHash in s.store.rows && s.store.rows[job.oldHash] == job.row && Unnamed(s.store, staged))
    && (job.pc.Copying? ==> source in s.store.disk && s.store.disk[source] == job.pc.image)
    && (job.pc.Copied? ==> source in s.store.disk && staged in s.store.disk && s.store.disk[staged] == s.store.disk[source])
    && (job.pc.Patching? || job.pc.Synced? || job.pc.Verified? ==>
          && staged in s.store.disk && FileIs(s.store, job.row.relPath, job.oldHash)
          && RedactionOf(job.oldHash.content, s.store.disk[staged]))
    && (job.pc.Verified? ==> HashOf(s.store.disk[staged]) == job.newHash)
    && (job.pc.Committed? ==>
          && job.newHash in s.store.rows && s.store.rows[job.newHash].relPath == job.row.relPath
          && s.store.rows[job.newHash].device == d
          && Live(s.store, job.newHash) && s.store.pending[job.newHash] == Swap(job.row.relPath, staged))
    && (job.pc.Renamed? ==>
          && staged !in s.store.disk
          && (job.newHash in s.store.pending ==> s.store.pending[job.newHash].staged == staged))
    && (job.pc.Failed? && job.pc.cleanup ==> Unnamed(s.store, staged))
  }

  ghost predicate Inv(s: Sys) {
    && Agreement(s.store)
    && (forall d | d in s.jobs :: JobInv(s, d))
    && (forall d, e | d in s.jobs && e in s.jobs && d != e :: s.jobs[d].newHash != s.jobs[e].newHash)
    && (!s.phase.Running? ==> s.jobs == map[] && s.sweeper.Idle?)
    && (s.sweeper.Snapped? ==> forall h | h in s.store.pending ::
          h in s.sweeper.pending || s.store.pending[h].staged == StagedPath(h, s.pid))
    && (s.phase.Starting? ==> s.store.pending.Keys <= s.phase.todo)
    && (s.phase.Starting? && s.phase.renamed.Some? ==> !Live(s.store, s.phase.renamed.value))
  }

  // --- runs -------------------------------------------------------------

  ghost predicate Feasible(s: Sys, run: seq<Event>)
    decreases |run|
  {
    run != [] ==> Enabled(s, run[0]) && Feasible(Do(s, run[0]), run[1..])
  }

  ghost function After(s: Sys, run: seq<Event>): Sys
    requires Feasible(s, run)
    decreases |run|
  {
    if run == [] then s else After(Do(s, run[0]), run[1..])
  }

  /** Every replacement begun in the run respects the exclusivity rule. */
  ghost predicate Polite(s: Sys, run: seq<Event>)
    requires Feasible(s, run)
    decreases |run|
  {
    run != [] ==> Exclusive(s, run[0]) && Polite(Do(s, run[0]), run[1..])
  }

  /** Nothing in progress, and disk and index agree. */
  ghost predicate Settled(s: Sys) {
    && s.jobs == map[] && s.phase.Running? && s.sweeper.Idle? && s.store.pending == map[]
    && (forall h | h in s.store.rows :: FileIs(s.store, s.store.rows[h].relPath, h))
    && (forall g, h | g in s.store.rows && h in s.store.rows && g != h ::
          s.store.rows[g].relPath != s.store.rows[h].relPath)
    && (forall h | h in s.store.alias :: s.store.alias[h] in s.store.rows)
  }

  /** What the library promises at every instant: each indexed path has a file, and the row's hash is the
      hash of that file or of the staged file that its pending record names. */
  ghost predicate Sound(st: Store) {
    forall h | h in st.rows ::
      && Original(st.rows[h].relPath) in st.disk
      && (|| FileIs(st, st.rows[h].relPath, h)
          || (Live(st, h) && st.pending[h].relPath == st.rows[h].relPath && HashOf(st.disk[st.pending[h].staged]) == h))
  }
}
