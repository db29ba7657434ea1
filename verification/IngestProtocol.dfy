/** Bringing files into the library, as a protocol: any number of ingests, each from its own incoming file,
    interleaved with each other, with indexers that look at the tree on their own (the hourly adoption, the
    directory watcher), with failing calls and power loss between any two steps. */
module IngestProtocol {
  import opened LibraryStore

  /** A file: one that waits to be ingested, an ingest's temporary copy (a dot file in the target directory,
      named after pid and clock), or a name below `originals/`. */
  datatype File =
    | Incoming(id: nat)
    | Temp(dir: string, pid: nat, stamp: nat)
    | Library(rel: string)

  /** Where an ingest stands. `i` numbers the candidate names. */
  datatype Pc =
    | Started
    | Hashed
    | Known(rel: string)
    | Trying(i: nat)
    | Unlinkable(i: nat)
    | Copying(i: nat, stamp: nat)
    | Retrying(i: nat, stamp: nat)
    | Linkless(i: nat, stamp: nat)
    | Holding(i: nat, stamp: nat)
    | Published(rel: string, left: Option<nat>)
    | Placed(rel: string)
    | Evicting(rel: string, evicted: Hash)
    | Inserting(rel: string)
    | Undoing(rel: string)
    | Duplicate

  /** `moved`: the hash has a row, but the row's file is gone. */
  datatype Job = Job(dir: string, names: seq<string>, content: Bytes, moved: bool, pc: Pc)

  /** `seen`: files an indexer has hashed and found unindexed, not inserted yet. */
  datatype Sys = Sys(
    disk: map<File, Bytes>, rows: map<Hash, string>, jobs: map<nat, Job>, seen: set<(string, Hash)>, pid: nat)

  datatype Step =
    | ReadHash
    | Lookup
    | CheckFile
    | Link(refused: bool)
    | StartCopy(stamp: nat, junk: Bytes)
    | EndCopy
    | LinkTemp(refused: bool)
    | Reserve
    | RenameTemp
    | DropTemp
    | DropIncoming
    | Settle
    | Evict
    | Insert(dbError: bool)
    | Undo(ioError: bool)
    | Forget
    | Fail(dropHeld: bool, dropTemp: bool)

  datatype Event =
    | Deliver(id: nat, content: Bytes)
    | Begin(id: nat, dir: string, names: seq<string>)
    | Advance(id: nat, step: Step)
    | See(rel: string)
    | Index(rel: string, h: Hash)
    | SweepTemp(temp: File)
    | Crash(torn: map<File, Option<Bytes>>, newPid: nat)

  /** The name an ingest holds below `originals/`: published, or reserved by an empty placeholder. */
  function Held(job: Job): Option<string> {
    match job.pc
    case Holding(i, _) => if i < |job.names| then Some(job.names[i]) else None
    case Published(rel, _) => Some(rel)
    case Placed(rel) => Some(rel)
    case Evicting(rel, _) => Some(rel)
    case Inserting(rel) => Some(rel)
    case Undoing(rel) => Some(rel)
    case _ => None
  }

  function StampOf(pc: Pc): Option<nat> {
    match pc
    case Copying(_, stamp) => Some(stamp)
    case Retrying(_, stamp) => Some(stamp)
    case Linkless(_, stamp) => Some(stamp)
    case Holding(_, stamp) => Some(stamp)
    case Published(_, left) => left
    case _ => None
  }

  /** The temporary copy of a running ingest. */
  function TempOf(pid: nat, job: Job): Option<File> {
    match StampOf(job.pc)
    case Some(stamp) => Some(Temp(job.dir, pid, stamp))
    case None => None
  }

  predicate StepEnabled(s: Sys, id: nat, step: Step) {
    && id in s.jobs
    && var job := s.jobs[id];
       var pc := job.pc;
       match step
       case ReadHash => pc.Started? && Incoming(id) in s.disk
       case Lookup => pc.Hashed?
       case CheckFile => pc.Known?
       case Link(_) => pc.Trying? && pc.i < |job.names| && Incoming(id) in s.disk
       case StartCopy(stamp, _) =>
         pc.Unlinkable? && forall k | k in s.jobs :: TempOf(s.pid, s.jobs[k]) != Some(Temp(job.dir, s.pid, stamp))
       case EndCopy => pc.Copying? && Incoming(id) in s.disk
       case LinkTemp(_) => pc.Retrying? && pc.i < |job.names| && Temp(job.dir, s.pid, pc.stamp) in s.disk
       case Reserve => pc.Linkless? && pc.i < |job.names|
       case RenameTemp => pc.Holding? && pc.i < |job.names| && Temp(job.dir, s.pid, pc.stamp) in s.disk
       case DropTemp => pc.Published? && pc.left.Some?
       case DropIncoming => pc.Published? && pc.left.None?
       case Settle => pc.Placed?
       case Evict => pc.Evicting?
       case Insert(_) => pc.Inserting?
       case Undo(_) => pc.Undoing?
       case Forget => pc.Duplicate?
       case Fail(_, _) => !pc.Duplicate? && !pc.Undoing?
  }

  predicate Enabled(s: Sys, e: Event) {
    match e
    case Deliver(id, _) => Incoming(id) !in s.disk && id !in s.jobs
    case Begin(id, _, _) => Incoming(id) in s.disk && id !in s.jobs
    case Advance(id, step) => StepEnabled(s, id, step)
    case See(rel) => Library(rel) in s.disk && s.disk[Library(rel)] != []
    case Index(rel, h) => (rel, h) in s.seen
    case SweepTemp(temp) => temp.Temp? && temp.pid != s.pid && temp in s.disk
    case Crash(torn, _) =>
      forall f | f in torn :: exists id | id in s.jobs :: s.jobs[id].pc.Copying? && TempOf(s.pid, s.jobs[id]) == Some(f)
  }

  /** A hash other than `h` whose row holds the path, if any. */
  ghost function OtherAt(rows: map<Hash, string>, rel: string, h: Hash): (g: Option<Hash>)
    ensures g.Some? ==> g.value in rows && rows[g.value] == rel && g.value != h
    ensures g.None? ==> forall k | k in rows && rows[k] == rel :: k == h
  {
    if k :| k in rows && rows[k] == rel && k != h then Some(k) else None
  }

  /** What a step makes of the files, the rows and the ingest itself; `None` ends the ingest. */
  datatype Effect = Effect(disk: map<File, Bytes>, rows: map<Hash, string>, job: Option<Job>)

  /** Give up: the placeholder and the temporary copy are removed, if the removals succeed. */
  function GiveUp(s: Sys, job: Job, dropHeld: bool, dropTemp: bool): Effect {
    var held := if dropHeld && job.pc.Holding? && Held(job).Some? then {Library(Held(job).value)} else {};
    var temp := if dropTemp && TempOf(s.pid, job).Some? then {TempOf(s.pid, job).value} else {};
    Effect(s.disk - held - temp, s.rows, None)
  }

  ghost function EffectOf(s: Sys, id: nat, step: Step): Effect
    requires StepEnabled(s, id, step)
  {
    var job := s.jobs[id];
    var pc := job.pc;
    var h := HashOf(job.content);
    var same := Effect(s.disk, s.rows, Some(job));
    match step
    case ReadHash => same.(job := Some(job.(content := s.disk[Incoming(id)], pc := Hashed)))
    case Lookup => same.(job := Some(job.(pc := if h in s.rows then Known(s.rows[h]) else Trying(0))))
    case CheckFile =>
      if Library(pc.rel) in s.disk then same.(job := Some(job.(pc := Duplicate)))
      else same.(job := Some(job.(moved := true, pc := Trying(0))))
    case Link(refused) =>
      var dest := job.names[pc.i];
      if refused then same.(job := Some(job.(pc := Unlinkable(pc.i))))
      else if Library(dest) in s.disk then same.(job := Some(job.(pc := Trying(pc.i + 1))))
      else Effect(s.disk[Library(dest) := s.disk[Incoming(id)]], s.rows, Some(job.(pc := Published(dest, None))))
    case StartCopy(stamp, junk) =>
      Effect(s.disk[Temp(job.dir, s.pid, stamp) := junk], s.rows, Some(job.(pc := Copying(pc.i, stamp))))
    case EndCopy =>
      Effect(s.disk[Temp(job.dir, s.pid, pc.stamp) := s.disk[Incoming(id)]], s.rows,
             Some(job.(pc := Retrying(pc.i, pc.stamp))))
    case LinkTemp(refused) =>
      var dest := job.names[pc.i];
      if refused then same.(job := Some(job.(pc := Linkless(pc.i, pc.stamp))))
      else if Library(dest) in s.disk then same.(job := Some(job.(pc := Retrying(pc.i + 1, pc.stamp))))
      else
        Effect(s.disk[Library(dest) := s.disk[Temp(job.dir, s.pid, pc.stamp)]], s.rows,
               Some(job.(pc := Published(dest, Some(pc.stamp)))))
    case Reserve =>
      var dest := job.names[pc.i];
      if Library(dest) in s.disk then same.(job := Some(job.(pc := Retrying(pc.i + 1, pc.stamp))))
      else Effect(s.disk[Library(dest) := []], s.rows, Some(job.(pc := Holding(pc.i, pc.stamp))))
    case RenameTemp =>
      var dest := job.names[pc.i];
      var temp := Temp(job.dir, s.pid, pc.stamp);
      Effect((s.disk - {temp})[Library(dest) := s.disk[temp]], s.rows, Some(job.(pc := Published(dest, None))))
    case DropTemp =>
      Effect(s.disk - {Temp(job.dir, s.pid, pc.left.value)}, s.rows, Some(job.(pc := Published(pc.rel, None))))
    case DropIncoming => Effect(s.disk - {Incoming(id)}, s.rows, Some(job.(pc := Placed(pc.rel))))
    case Settle =>
      if job.moved then Effect(s.disk, if h in s.rows then s.rows[h := pc.rel] else s.rows, None)
      else
        (match OtherAt(s.rows, pc.rel, h)
         case Some(g) => same.(job := Some(job.(pc := Evicting(pc.rel, g))))
         case None => same.(job := Some(job.(pc := Inserting(pc.rel)))))
    case Evict => Effect(s.disk, s.rows - {pc.evicted}, Some(job.(pc := Inserting(pc.rel))))
    case Insert(dbError) =>
      if dbError || h in s.rows then same.(job := Some(job.(pc := Undoing(pc.rel))))
      else Effect(s.disk, s.rows[h := pc.rel], None)
    case Undo(ioError) => Effect(if ioError then s.disk else s.disk - {Library(pc.rel)}, s.rows, None)
    case Forget => Effect(s.disk - {Incoming(id)}, s.rows, None)
    case Fail(dropHeld, dropTemp) => GiveUp(s, job, dropHeld, dropTemp)
  }

  ghost function DoStep(s: Sys, id: nat, step: Step): Sys
    requires StepEnabled(s, id, step)
  {
    var e := EffectOf(s, id, step);
    s.(disk := e.disk, rows := e.rows, jobs := if e.job.Some? then s.jobs[id := e.job.value] else s.jobs - {id})
  }

  /** A failing ingest takes back what it can: the placeholder it holds and its temporary copy, each unless its removal
      fails too; the incoming file, all other files and the rows stay. */
  lemma FailureMeans(s: Sys, id: nat, dropHeld: bool, dropTemp: bool)
    requires StepEnabled(s, id, Fail(dropHeld, dropTemp))
    ensures var (job, t) := (s.jobs[id], DoStep(s, id, Fail(dropHeld, dropTemp)));
            && t.rows == s.rows && id !in t.jobs
            && (forall f :: f in t.disk <==>
                  && f in s.disk
                  && !(dropHeld && job.pc.Holding? && Held(job).Some? && f == Library(Held(job).value))
                  && !(dropTemp && TempOf(s.pid, job) == Some(f)))
            && (forall f | f in t.disk :: t.disk[f] == s.disk[f])
  {
  }

  function Tear(disk: map<File, Bytes>, torn: map<File, Option<Bytes>>): map<File, Bytes> {
    map f | f in disk.Keys + torn.Keys && (f in torn ==> torn[f].Some?)
      :: if f in torn then torn[f].value else disk[f]
  }

  /** Power loss can leave any bytes, or nothing, under a name that was not synced, and leaves all other files. */
  lemma PowerLossMeans(disk: map<File, Bytes>, torn: map<File, Option<Bytes>>, p: File)
    ensures p in torn && torn[p].Some? ==> p in Tear(disk, torn) && Tear(disk, torn)[p] == torn[p].value
    ensures p in torn && torn[p].None? ==> p !in Tear(disk, torn)
    ensures p !in torn ==> (p in Tear(disk, torn) <==> p in disk) && (p in disk ==> Tear(disk, torn)[p] == disk[p])
  {
  }

  ghost function Do(s: Sys, e: Event): Sys
    requires Enabled(s, e)
  {
    match e
    case Deliver(id, content) => s.(disk := s.disk[Incoming(id) := content])
    case Begin(id, dir, names) => s.(jobs := s.jobs[id := Job(dir, names, [], false, Started)])
    case Advance(id, step) => DoStep(s, id, step)
    case See(rel) =>
      var h := HashOf(s.disk[Library(rel)]);
      if h in s.rows then s else s.(seen := s.seen + {(rel, h)})
    case Index(rel, h) =>
      s.(seen := s.seen - {(rel, h)}, rows := if h in s.rows then s.rows else s.rows[h := rel])
    case SweepTemp(temp) => s.(disk := s.disk - {temp})
    case Crash(torn, newPid) => Sys(Tear(s.disk, torn), s.rows, map[], {}, newPid)
  }

  ghost predicate Feasible(s: Sys, run: seq<Event>)
    decreases |run|
  {
    run != [] ==> Enabled(s, run[0]) && Feasible(Do(s, run[0]), run[1..])
  }

  ghost function After(s: Sys, run: seq<Event>): Sys
    requires Feasible(s, run)
    decreases |run|
  {
    if run == [] then s else After(Do(s, run[0]), run[1..])
  }

  // --- the three rules ---------------------------------------------------------

  /** An indexer inserts a row only for a file that still holds what it hashed, and never for a file that a
      running ingest has published and may still take back. */
  ghost predicate IndexerWaits(s: Sys, rel: string, h: Hash) {
    h in s.rows || Permanent(s, rel, h.content)
  }

  /** A duplicate is reported only when the file at the row's path still holds the row's content. */
  ghost predicate TrueDuplicate(s: Sys, id: nat)
    requires id in s.jobs && s.jobs[id].pc.Known?
  {
    var f := Library(s.jobs[id].pc.rel);
    f in s.disk ==> s.disk[f] == s.jobs[id].content
  }

  /** Besides, ingested files are not empty and an insert fails only on a taken hash. */
  ghost predicate Careful(s: Sys, e: Event) {
    match e
    case Index(rel, h) => IndexerWaits(s, rel, h)
    case Advance(id, ReadHash) => Incoming(id) in s.disk && s.disk[Incoming(id)] != []
    case Advance(_, Insert(dbError)) => !dbError
    case _ => true
  }

  ghost predicate Polite(s: Sys, e: Event)
    requires Enabled(s, e)
  {
    && Careful(s, e)
    && (e.Advance? && e.step.CheckFile? ==> TrueDuplicate(s, e.id))
  }

  ghost predicate PoliteRun(s: Sys, run: seq<Event>)
    requires Feasible(s, run)
    decreases |run|
  {
    run != [] ==> Polite(s, run[0]) && PoliteRun(Do(s, run[0]), run[1..])
  }

  ghost predicate CarefulRun(s: Sys, run: seq<Event>)
    requires Feasible(s, run)
    decreases |run|
  {
    run != [] ==> Careful(s, run[0]) && CarefulRun(Do(s, run[0]), run[1..])
  }

  // --- invariant -----------------------------------------------------------------

  ghost predicate Holds(disk: map<File, Bytes>, f: File, content: Bytes) {
    f in disk && disk[f] == content
  }

  /** The hash has a row and the file at the row's path has that content. */
  ghost predicate Indexed(s: Sys, h: Hash) {
    h in s.rows && Holds(s.disk, Library(s.rows[h]), h.content)
  }

  /** A file below `originals/` has this content. */
  ghost predicate Kept(disk: map<File, Bytes>, content: Bytes) {
    exists rel :: Holds(disk, Library(rel), content)
  }

  /** A copy that no running ingest can take back: nobody holds the name, or a re-placing ingest does, which
      never removes what it has published. */
  ghost predicate Permanent(s: Sys, rel: string, content: Bytes) {
    && Holds(s.disk, Library(rel), content)
    && forall id | id in s.jobs && Held(s.jobs[id]) == Some(rel) :: s.jobs[id].moved
  }

  /** The incoming file is still needed, and there. */
  predicate Undelivered(pc: Pc) {
    !pc.Started? && !pc.Placed? && !pc.Evicting? && !pc.Inserting? && !pc.Undoing?
  }

  predicate PastPublication(pc: Pc) {
    pc.Published? || pc.Placed? || pc.Evicting? || pc.Inserting? || pc.Undoing?
  }

  /** The insert branch: the lookup found no row. */
  predicate Inserts(job: Job) {
    !job.moved && !job.pc.Started? && !job.pc.Hashed? && !job.pc.Known? && !job.pc.Duplicate?
  }

  /** An ingest's own files. */
  ghost predicate FilesInv(disk: map<File, Bytes>, pid: nat, id: nat, job: Job) {
    && (Undelivered(job.pc) ==> Holds(disk, Incoming(id), job.content))
    && (!job.pc.Started? ==> job.content != [])
    && (job.pc.Retrying? || job.pc.Linkless? || job.pc.Holding? ==>
          Holds(disk, Temp(job.dir, pid, job.pc.stamp), job.content))
    && (job.pc.Holding? ==> job.pc.i < |job.names| && Holds(disk, Library(job.names[job.pc.i]), []))
    && (PastPublication(job.pc) ==> Holds(disk, Library(job.pc.rel), job.content))
    && (job.pc.Evicting? || job.pc.Inserting? || job.pc.Undoing? ==> !job.moved)
    && (job.pc.Evicting? ==> job.pc.evicted != HashOf(job.content))
  }

  /** The copies that make an undo or a discard harmless. */
  ghost predicate BackedUp(s: Sys, job: Job) {
    var h := HashOf(job.content);
    && (Inserts(job) && h in s.rows ==> Permanent(s, s.rows[h], job.content))
    && (job.pc.Undoing? ==> exists rel :: Permanent(s, rel, job.content))
    && (job.pc.Duplicate? ==> Kept(s.disk, job.content))
  }

  ghost predicate Apart(s: Sys) {
    forall j, k | j in s.jobs && k in s.jobs && j != k ::
      && (Held(s.jobs[j]).Some? ==> Held(s.jobs[j]) != Held(s.jobs[k]))
      && (TempOf(s.pid, s.jobs[j]).Some? ==> TempOf(s.pid, s.jobs[j]) != TempOf(s.pid, s.jobs[k]))
  }

  ghost predicate Inv(s: Sys) {
    && (forall id | id in s.jobs :: FilesInv(s.disk, s.pid, id, s.jobs[id]) && BackedUp(s, s.jobs[id]))
    && Apart(s)
  }
}
