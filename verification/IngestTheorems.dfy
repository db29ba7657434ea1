/** What holds over whole runs of the ingest protocol, and what each of its rules is worth. */
module IngestTheorems {
  import opened LibraryStore
  import opened IngestProtocol
  import opened IngestSafety

  // --- nothing is lost ----------------------------------------------------------

  ghost predicate Waiting(disk: map<File, Bytes>, content: Bytes) {
    exists id :: Holds(disk, Incoming(id), content)
  }

  /** The bytes are in the library or wait to get there. */
  ghost predicate Present(s: Sys, content: Bytes) {
    Kept(s.disk, content) || Waiting(s.disk, content)
  }

  /** An incoming file goes away only when its bytes are below `originals/`. */
  lemma StepKeepsPresent(s: Sys, id: nat, step: Step, content: Bytes)
    requires StepEnabled(s, id, step) && content != [] && Present(s, content)
    requires FilesInv(s.disk, s.pid, id, s.jobs[id]) && BackedUp(s, s.jobs[id])
    ensures Present(DoStep(s, id, step), content)
  {
    var t := DoStep(s, id, step);
    var job := s.jobs[id];
    if Kept(s.disk, content) {
      StepKeepsKept(s, id, step, content);
    } else {
      var k :| Holds(s.disk, Incoming(k), content);
      if k != id {
        hide EffectOf, FilesInv, BackedUp;
        StepSparesOthers(s, id, step, Incoming(k));
        assert Holds(t.disk, Incoming(k), content);
      } else {
        OwnFileStays(s, id, step);
      }
    }
  }

  /** An ingest removes its incoming file only when the bytes are in the library, and never changes it. */
  lemma OwnFileStays(s: Sys, id: nat, step: Step)
    requires StepEnabled(s, id, step) && FilesInv(s.disk, s.pid, id, s.jobs[id]) && BackedUp(s, s.jobs[id])
    requires Incoming(id) in s.disk
    ensures Holds(DoStep(s, id, step).disk, Incoming(id), s.disk[Incoming(id)]) || Kept(s.disk, s.disk[Incoming(id)])
  {
    var job := s.jobs[id];
    if step.DropIncoming? {
      assert Holds(s.disk, Library(job.pc.rel), job.content) && Holds(s.disk, Incoming(id), job.content);
    }
    hide OtherAt;
  }

  lemma EventKeepsPresent(s: Sys, e: Event, content: Bytes)
    requires Inv(s) && Enabled(s, e) && content != [] && Present(s, content)
    ensures Present(Do(s, e), content)
  {
    if e.Advance? {
      assert FilesInv(s.disk, s.pid, e.id, s.jobs[e.id]) && BackedUp(s, s.jobs[e.id]);
      hide Inv, DoStep, StepEnabled, FilesInv, BackedUp, Present;
      StepKeepsPresent(s, e.id, e.step, content);
    } else if Kept(s.disk, content) {
      OutsideKeepsKept(s, e, content);
    } else {
      var k :| Holds(s.disk, Incoming(k), content);
      assert Holds(Do(s, e).disk, Incoming(k), content);
    }
  }

  lemma {:induction false} RunKeeps(s: Sys, run: seq<Event>)
    requires Inv(s) && Feasible(s, run) && PoliteRun(s, run)
    ensures Inv(After(s, run))
    decreases |run|
  {
    if run != [] {
      EventKeeps(s, run[0]);
      RunKeeps(Do(s, run[0]), run[1..]);
    }
  }

  /** No photo is lost: whatever ingests, indexers, crashes and failures do to each other, bytes that were
      delivered stay in an incoming file or below `originals/`. */
  lemma {:induction false} NothingIsLost(s: Sys, run: seq<Event>, content: Bytes)
    requires Inv(s) && Feasible(s, run) && PoliteRun(s, run)
    requires content != [] && Present(s, content)
    ensures Present(After(s, run), content)
    decreases |run|
  {
    if run != [] {
      EventKeeps(s, run[0]);
      EventKeepsPresent(s, run[0], content);
      NothingIsLost(Do(s, run[0]), run[1..], content);
    }
  }

  /** Once below `originals/`, they stay there. */
  lemma {:induction false} KeptForever(s: Sys, run: seq<Event>, content: Bytes)
    requires Inv(s) && Feasible(s, run) && PoliteRun(s, run)
    requires content != [] && Kept(s.disk, content)
    ensures Kept(After(s, run).disk, content)
    decreases |run|
  {
    if run != [] {
      var e := run[0];
      EventKeeps(s, e);
      if e.Advance? {
        assert FilesInv(s.disk, s.pid, e.id, s.jobs[e.id]) && BackedUp(s, s.jobs[e.id]);
        StepKeepsKept(s, e.id, e.step, content);
      } else {
        OutsideKeepsKept(s, e, content);
      }
      KeptForever(Do(s, e), run[1..], content);
    }
  }

  // --- nothing is clobbered ---------------------------------------------------------

  ghost predicate Unheld(s: Sys, rel: string) {
    forall id | id in s.jobs :: Held(s.jobs[id]) != Some(rel)
  }

  /** No run at all, rules kept or broken, changes or removes a file that no running ingest has put there. */
  lemma {:induction false} NothingIsClobbered(s: Sys, run: seq<Event>, rel: string)
    requires Feasible(s, run) && Library(rel) in s.disk && Unheld(s, rel)
    ensures Holds(After(s, run).disk, Library(rel), s.disk[Library(rel)])
    decreases |run|
  {
    if run != [] {
      var e := run[0];
      var t := Do(s, e);
      if e.Advance? {
        hide EffectOf;
        StepTouchesOnlyItsOwn(s, e.id, e.step, rel);
      }
      NothingIsClobbered(t, run[1..], rel);
    }
  }

  // --- a library without missing files -------------------------------------------------

  /** Every row has its file. */
  ghost predicate Clean(s: Sys) {
    && (forall h | h in s.rows :: h.content != [] && Permanent(s, s.rows[h], h.content))
    && (forall p | p in s.seen :: p.1.content != [])
    && (forall id | id in s.jobs :: Unsurprised(s.rows, s.jobs[id]))
  }

  ghost predicate Unsurprised(rows: map<Hash, string>, job: Job) {
    && !job.moved && !job.pc.Evicting?
    && (job.pc.Known? ==> Says(rows, HashOf(job.content), job.pc.rel))
    && (job.pc.Duplicate? ==> HashOf(job.content) in rows)
  }

  ghost predicate Says(rows: map<Hash, string>, h: Hash, rel: string) {
    h in rows && rows[h] == rel
  }

  /** With every row's file in place, a reported duplicate is one. */
  lemma CleanMeansPolite(s: Sys, e: Event)
    requires Inv(s) && Clean(s) && Enabled(s, e) && Careful(s, e)
    ensures Polite(s, e)
  {
    if e.Advance? && e.step.CheckFile? {
      assert Unsurprised(s.rows, s.jobs[e.id]);
    }
  }

  /** No row is ever repointed or dropped, and a new row says the path of the ingest's own file. */
  lemma CleanStepKeepsRows(s: Sys, id: nat, step: Step)
    requires Inv(s) && Clean(s) && StepEnabled(s, id, step)
    ensures forall h | h in s.rows :: Says(DoStep(s, id, step).rows, h, s.rows[h])
    ensures forall h | h in DoStep(s, id, step).rows :: h in s.rows || h == HashOf(s.jobs[id].content)
  {
    hide OtherAt, Permanent, Inv;
    assert Unsurprised(s.rows, s.jobs[id]);
  }

  lemma NoOtherAt(s: Sys, id: nat)
    requires Inv(s) && Clean(s) && id in s.jobs && s.jobs[id].pc.Placed?
    ensures OtherAt(s.rows, s.jobs[id].pc.rel, HashOf(s.jobs[id].content)) == None
  {
    var job := s.jobs[id];
    assert FilesInv(s.disk, s.pid, id, job);
    assert forall h | h in s.rows :: Holds(s.disk, Library(s.rows[h]), h.content);
  }

  lemma NoSurpriseAhead(s: Sys, id: nat, step: Step)
    requires StepEnabled(s, id, step) && EffectOf(s, id, step).job.Some?
    requires Unsurprised(s.rows, s.jobs[id])
    requires step.Settle? ==> OtherAt(s.rows, s.jobs[id].pc.rel, HashOf(s.jobs[id].content)) == None
    requires step.CheckFile? ==> Library(s.jobs[id].pc.rel) in s.disk
    ensures Unsurprised(EffectOf(s, id, step).rows, EffectOf(s, id, step).job.value)
  {
    hide OtherAt;
  }

  lemma CleanStepSurprisesNobody(s: Sys, id: nat, step: Step)
    requires Inv(s) && Clean(s) && StepEnabled(s, id, step) && EffectOf(s, id, step).job.Some?
    ensures Unsurprised(EffectOf(s, id, step).rows, EffectOf(s, id, step).job.value)
  {
    hide EffectOf, OtherAt, Inv;
    var job := s.jobs[id];
    assert Unsurprised(s.rows, job);
    if step.Settle? {
      NoOtherAt(s, id);
    }
    assert step.CheckFile? ==> Library(job.pc.rel) in s.disk;
    NoSurpriseAhead(s, id, step);
  }

  lemma CleanStepFoundsRows(s: Sys, id: nat, step: Step, h: Hash)
    requires Inv(s) && Clean(s) && StepEnabled(s, id, step) && h in DoStep(s, id, step).rows
    ensures var t := DoStep(s, id, step); h.content != [] && Permanent(t, t.rows[h], h.content)
  {
    assert FilesInv(s.disk, s.pid, id, s.jobs[id]);
    CleanStepKeepsRows(s, id, step);
    if h in s.rows {
      hide EffectOf, Inv, FilesInv, StepEnabled, Permanent;
      assert Says(DoStep(s, id, step).rows, h, s.rows[h]);
      StepKeepsPermanent(s, id, step, s.rows[h], h.content);
    } else {
      StepFoundsRows(s, id, step, h);
      hide Permanent, Inv, OtherAt;
      assert step.Insert? || step.Settle?;
    }
  }

  lemma CleanStep(s: Sys, id: nat, step: Step)
    requires Inv(s) && Clean(s) && StepEnabled(s, id, step)
    ensures Clean(DoStep(s, id, step))
  {
    hide EffectOf, Inv, StepEnabled, Permanent;
    var t := DoStep(s, id, step);
    CleanStepKeepsRows(s, id, step);
    forall h | h in t.rows
      ensures h.content != [] && Permanent(t, t.rows[h], h.content)
    {
      CleanStepFoundsRows(s, id, step, h);
    }
    forall k | k in t.jobs
      ensures Unsurprised(t.rows, t.jobs[k])
    {
      if k == id {
        CleanStepSurprisesNobody(s, id, step);
      } else {
        assert Unsurprised(s.rows, s.jobs[k]);
      }
    }
  }

  lemma CleanEvent(s: Sys, e: Event)
    requires Inv(s) && Clean(s) && Enabled(s, e) && Careful(s, e)
    ensures Clean(Do(s, e))
    ensures forall h | h in s.rows :: Says(Do(s, e).rows, h, s.rows[h])
  {
    if e.Advance? {
      hide Inv, Clean, StepEnabled, EffectOf, Permanent;
      CleanStep(s, e.id, e.step);
      CleanStepKeepsRows(s, e.id, e.step);
    } else {
      var t := Do(s, e);
      forall h | h in t.rows
        ensures h.content != [] && Permanent(t, t.rows[h], h.content)
      {
        if h in s.rows {
          OutsideKeepsPermanent(s, e, s.rows[h], h.content);
        }
      }
      forall p | p in t.seen
        ensures p.1.content != []
      {
      }
      hide Permanent, Inv;
      forall k | k in t.jobs
        ensures Unsurprised(t.rows, t.jobs[k])
      {
        assert k in s.jobs ==> Unsurprised(s.rows, s.jobs[k]);
      }
    }
  }

  lemma {:induction false} CleanRun(s: Sys, run: seq<Event>)
    requires Inv(s) && Clean(s) && Feasible(s, run) && CarefulRun(s, run)
    ensures PoliteRun(s, run) && Inv(After(s, run)) && Clean(After(s, run))
    ensures forall h | h in s.rows :: Says(After(s, run).rows, h, s.rows[h])
    decreases |run|
  {
    if run != [] {
      CleanMeansPolite(s, run[0]);
      EventKeeps(s, run[0]);
      CleanEvent(s, run[0]);
      CleanRun(Do(s, run[0]), run[1..]);
    }
  }

  /** A library at rest: nothing runs, every row has its file. */
  ghost predicate AtRest(s: Sys) {
    && s.jobs == map[] && s.seen == {}
    && forall h | h in s.rows :: h.content != [] && Holds(s.disk, Library(s.rows[h]), h.content)
  }

  /** The library's promise. From a library at rest, over every run: each row has its file with exactly its
      bytes; no two rows share a path; a row, once there, keeps its path and its file; and delivered bytes
      stay. */
  lemma IndexStaysTrue(s: Sys, run: seq<Event>)
    requires AtRest(s) && Feasible(s, run) && CarefulRun(s, run)
    ensures var t := After(s, run);
            && (forall h | h in t.rows :: Indexed(t, h))
            && (forall g, h | g in t.rows && h in t.rows && g != h :: t.rows[g] != t.rows[h])
            && (forall h | h in s.rows :: Says(t.rows, h, s.rows[h]))
            && (forall content | content != [] && Present(s, content) :: Present(t, content))
  {
    assert Inv(s) && Clean(s);
    CleanRun(s, run);
    forall content | content != [] && Present(s, content)
      ensures Present(After(s, run), content)
    {
      NothingIsLost(s, run, content);
    }
    hide After, Inv, Present;
    forall h | h in After(s, run).rows
      ensures Indexed(After(s, run), h)
    {
      assert Permanent(After(s, run), After(s, run).rows[h], h.content);
    }
    assert forall g, h | g in After(s, run).rows && h in After(s, run).rows && After(s, run).rows[g] == After(s, run).rows[h]
        :: g == h by {
      assert forall h | h in After(s, run).rows :: Indexed(After(s, run), h);
    }
  }

  /** What an ingest reports is true: "new" and "duplicate" both mean that the hash is indexed, with its file,
      whatever happened in between. */
  lemma ReportsAreTrue(s: Sys, run: seq<Event>, id: nat)
    requires AtRest(s) && Feasible(s, run) && CarefulRun(s, run)
    requires var t := After(s, run); id in t.jobs && (t.jobs[id].pc.Inserting? || t.jobs[id].pc.Duplicate?)
    ensures var t := After(s, run);
            var h := HashOf(t.jobs[id].content);
            && (t.jobs[id].pc.Inserting? ==> Indexed(DoStep(t, id, Insert(false)), h))
            && (t.jobs[id].pc.Duplicate? ==> Indexed(DoStep(t, id, Forget), h))
  {
    assert Inv(s) && Clean(s);
    CleanRun(s, run);
    var t := After(s, run);
    assert Unsurprised(t.rows, t.jobs[id]) && FilesInv(t.disk, t.pid, id, t.jobs[id]);
    hide After, Inv, OtherAt;
    var h := HashOf(t.jobs[id].content);
    assert h in t.rows ==> Permanent(t, t.rows[h], h.content);
  }

  /** Adoption closes the gap that a crash leaves: once an indexer has looked at a file, its content has
      exactly one row (rows are keyed by hash), and that row's file holds exactly those bytes. */
  lemma LookedAtMeansIndexed(s: Sys, run: seq<Event>, rel: string)
    requires AtRest(s) && Feasible(s, run) && CarefulRun(s, run)
    requires Enabled(After(s, run), See(rel)) && Unheld(After(s, run), rel)
    ensures var t := After(s, run);
            var h := HashOf(t.disk[Library(rel)]);
            var u := Do(t, See(rel));
            && (h in t.rows ==> u == t && Indexed(u, h))
            && (h !in t.rows ==> Enabled(u, Index(rel, h)) && Careful(u, Index(rel, h)) && Indexed(Do(u, Index(rel, h)), h))
  {
    assert Inv(s) && Clean(s);
    CleanRun(s, run);
    var t := After(s, run);
    hide After, Inv;
    assert forall h | h in t.rows :: Permanent(t, t.rows[h], h.content);
  }

  // --- each rule is needed ---------------------------------------------------------------

  lemma Prepend(s: Sys, e: Event, rest: seq<Event>)
    requires Enabled(s, e) && Feasible(Do(s, e), rest)
    ensures Feasible(s, [e] + rest) && After(s, [e] + rest) == After(Do(s, e), rest)
    ensures Polite(s, e) && PoliteRun(Do(s, e), rest) ==> PoliteRun(s, [e] + rest)
    ensures Careful(s, e) && CarefulRun(Do(s, e), rest) ==> CarefulRun(s, [e] + rest)
  {
    assert ([e] + rest)[1..] == rest;
  }

  /** A run that obeys the rules and loses the bytes. */
  ghost predicate Doomed(s: Sys, content: Bytes) {
    exists run :: Feasible(s, run) && PoliteRun(s, run) && !Present(After(s, run), content)
  }

  lemma DoomedBefore(s: Sys, e: Event, content: Bytes)
    requires Enabled(s, e) && Polite(s, e) && Doomed(Do(s, e), content)
    ensures Doomed(s, content)
  {
    var run :| Feasible(Do(s, e), run) && PoliteRun(Do(s, e), run) && !Present(After(Do(s, e), run), content);
    Prepend(s, e, run);
  }

  lemma DoomedNow(s: Sys, content: Bytes)
    requires !Present(s, content)
    ensures Doomed(s, content)
  {
    assert Feasible(s, []) && PoliteRun(s, []) && After(s, []) == s;
  }

  /** The only copy of the bytes is the file at `rel`. */
  ghost predicate OnlyAt(disk: map<File, Bytes>, rel: string, content: Bytes) {
    && Holds(disk, Library(rel), content)
    && (forall r | Holds(disk, Library(r), content) :: r == rel)
    && !Waiting(disk, content)
  }

  /** An ingest whose hash got a row before its own insert takes its file back. */
  lemma LoserTakesBack(s: Sys, id: nat, rel: string, content: Bytes)
    requires id in s.jobs && !s.jobs[id].moved && s.jobs[id].content == content && HashOf(content) in s.rows
    requires s.jobs[id].pc == Inserting(rel) || s.jobs[id].pc == Undoing(rel)
    requires OnlyAt(s.disk, rel, content)
    ensures Doomed(s, content)
    decreases s.jobs[id].pc.Inserting?
  {
    if s.jobs[id].pc.Inserting? {
      var t := Do(s, Advance(id, Insert(false)));
      LoserTakesBack(t, id, rel, content);
      DoomedBefore(s, Advance(id, Insert(false)), content);
    } else {
      var t := Do(s, Advance(id, Undo(false)));
      assert forall f | f in t.disk :: f in s.disk && f != Library(rel) && t.disk[f] == s.disk[f];
      assert !Present(t, content) by {
        if Kept(t.disk, content) {
          var r :| Holds(t.disk, Library(r), content);
          assert Holds(s.disk, Library(r), content);
        }
      }
      DoomedNow(t, content);
      DoomedBefore(s, Advance(id, Undo(false)), content);
    }
  }

  /** So does one that has not come to its insert yet. */
  lemma HolderTakesBack(s: Sys, id: nat, rel: string, content: Bytes)
    requires id in s.jobs && !s.jobs[id].moved && s.jobs[id].content == content && HashOf(content) in s.rows
    requires match s.jobs[id].pc
             case Placed(r) => r == rel
             case Evicting(r, g) => r == rel && g != HashOf(content)
             case Inserting(r) => r == rel
             case Undoing(r) => r == rel
             case _ => false
    requires OnlyAt(s.disk, rel, content)
    ensures Doomed(s, content)
    decreases s.jobs[id].pc.Placed?, s.jobs[id].pc.Evicting?
  {
    if s.jobs[id].pc.Placed? {
      HolderTakesBack(Do(s, Advance(id, Settle)), id, rel, content);
      DoomedBefore(s, Advance(id, Settle), content);
    } else if s.jobs[id].pc.Evicting? {
      HolderTakesBack(Do(s, Advance(id, Evict)), id, rel, content);
      DoomedBefore(s, Advance(id, Evict), content);
    } else {
      LoserTakesBack(s, id, rel, content);
    }
  }

  /** The exact price of adoption running beside ingests. When an indexer inserts a row for the only copy of
      some bytes, these bytes are safe in every later run that obeys the rules if and only if no inserting
      ingest holds the file. If one does, it later finds its hash taken and deletes the file. */
  lemma AdoptionIsSafeExactlyWhenNobodyInserts(s: Sys, rel: string, h: Hash)
    requires Inv(s) && Enabled(s, Index(rel, h)) && h !in s.rows && h.content != []
    requires OnlyAt(s.disk, rel, h.content)
    ensures !Doomed(Do(s, Index(rel, h)), h.content)
            <==> forall id | id in s.jobs && Held(s.jobs[id]) == Some(rel) :: s.jobs[id].moved
  {
    var t := Do(s, Index(rel, h));
    if forall id | id in s.jobs && Held(s.jobs[id]) == Some(rel) :: s.jobs[id].moved {
      assert IndexerWaits(s, rel, h);
      EventKeeps(s, Index(rel, h));
      assert Kept(t.disk, h.content);
      forall run | Feasible(t, run) && PoliteRun(t, run)
        ensures Present(After(t, run), h.content)
      {
        NothingIsLost(t, run, h.content);
      }
    } else {
      var id :| id in s.jobs && Held(s.jobs[id]) == Some(rel) && !s.jobs[id].moved;
      HolderStands(s, id, rel, h.content);
      HolderTakesBack(t, id, rel, h.content);
    }
  }

  /** An inserting ingest that holds the only copy is between its publication and its insert. */
  lemma HolderStands(s: Sys, id: nat, rel: string, content: Bytes)
    requires Inv(s) && id in s.jobs && Held(s.jobs[id]) == Some(rel) && !s.jobs[id].moved
    requires content != [] && OnlyAt(s.disk, rel, content)
    ensures s.jobs[id].content == content
    ensures match s.jobs[id].pc
            case Placed(r) => r == rel
            case Evicting(r, g) => r == rel && g != HashOf(content)
            case Inserting(r) => r == rel
            case _ => false
  {
    var job := s.jobs[id];
    assert FilesInv(s.disk, s.pid, id, job) && BackedUp(s, job);
    assert job.pc.Published? ==> Holds(s.disk, Incoming(id), content);
  }

  ghost predicate Reaches(s: Sys, t: Sys) {
    exists run :: Feasible(s, run) && PoliteRun(s, run) && After(s, run) == t
  }

  lemma ReachesBefore(s: Sys, e: Event, t: Sys)
    requires Enabled(s, e) && Polite(s, e) && Reaches(Do(s, e), t)
    ensures Reaches(s, t)
  {
    var run :| Feasible(Do(s, e), run) && PoliteRun(Do(s, e), run) && After(Do(s, e), run) == t;
    Prepend(s, e, run);
  }

  lemma ReachesItself(s: Sys)
    ensures Reaches(s, s)
  {
    assert Feasible(s, []) && PoliteRun(s, []) && After(s, []) == s;
  }

  function Arrived(content: Bytes): Sys {
    Sys(map[Incoming(0) := content], map[], map[], {}, 0)
  }

  /** The library after the first ingest has published its file. */
  function FirstPlaced(content: Bytes, dir: string, name: string): Sys {
    Sys(map[Library(name) := content], map[], map[0 := Job(dir, [name], content, false, Placed(name))], {}, 0)
  }

  lemma FirstIngestPlaces(content: Bytes, dir: string, name: string)
    requires content != []
    ensures Reaches(Arrived(content), FirstPlaced(content, dir, name))
  {
    var s0 := Arrived(content);
    var job := Job(dir, [name], content, false, Hashed);
    var s1 := s0.(jobs := map[0 := job.(content := [], pc := Started)]);
    var s2 := s0.(jobs := map[0 := job]);
    var s3 := s0.(jobs := map[0 := job.(pc := Trying(0))]);
    var s4 := s0.(jobs := map[0 := job.(pc := Published(name, None))], disk := s0.disk[Library(name) := content]);
    var s5 := FirstPlaced(content, dir, name);
    assert Do(s0, Begin(0, dir, [name])) == s1;
    assert Do(s1, Advance(0, ReadHash)) == s2;
    assert Do(s2, Advance(0, Lookup)) == s3;
    assert Do(s3, Advance(0, Link(false))) == s4;
    assert Do(s4, Advance(0, DropIncoming)) == s5;
    hide EffectOf, DoStep, Do, Reaches;
    ReachesItself(s5);
    ReachesBefore(s4, Advance(0, DropIncoming), s5);
    ReachesBefore(s3, Advance(0, Link(false)), s5);
    ReachesBefore(s2, Advance(0, Lookup), s5);
    ReachesBefore(s1, Advance(0, ReadHash), s5);
    ReachesBefore(s0, Begin(0, dir, [name]), s5);
  }

  /** The race is within reach of every first ingest of a file, by a run that obeys the rules: an adoption that
      looks at the file in that moment and inserts its row dooms the bytes. */
  lemma EveryIngestCanBeHit(content: Bytes, dir: string, name: string)
    requires content != []
    ensures var s := FirstPlaced(content, dir, name);
            var h := HashOf(content);
            && Reaches(Arrived(content), s) && Enabled(s, See(name)) && OnlyAt(s.disk, name, content)
            && var t := Do(s, See(name));
               Enabled(t, Index(name, h)) && !Careful(t, Index(name, h)) && Doomed(Do(t, Index(name, h)), content)
  {
    var s := FirstPlaced(content, dir, name);
    var t := Do(s, See(name));
    FirstIngestPlaces(content, dir, name);
    assert OnlyAt(s.disk, name, content);
    assert t == s.(seen := {(name, HashOf(content))});
    assert Held(t.jobs[0]) == Some(name);
    HolderTakesBack(Do(t, Index(name, HashOf(content))), 0, name, content);
  }

  /** An insert that fails for another reason than a taken hash dooms them just as well: the incoming file is
      gone by then and the published one is deleted. */
  lemma FailedInsertDooms(content: Bytes, dir: string, name: string)
    requires content != []
    ensures var s := FirstPlaced(content, dir, name);
            && Reaches(Arrived(content), s) && Enabled(s, Advance(0, Settle))
            && var t := Do(s, Advance(0, Settle));
               Enabled(t, Advance(0, Insert(true))) && Doomed(Do(t, Advance(0, Insert(true))), content)
  {
    var s := FirstPlaced(content, dir, name);
    var t := Do(s, Advance(0, Settle));
    FirstIngestPlaces(content, dir, name);
    var u := Do(t, Advance(0, Insert(true)));
    assert u.jobs[0].pc == Undoing(name) && u.disk == s.disk;
    var v := Do(u, Advance(0, Undo(false)));
    assert v.disk == map[];
    DoomedNow(v, content);
    DoomedBefore(u, Advance(0, Undo(false)), content);
  }

  /** A row whose file is missing, while another photo takes the free name. */
  function StaleScene(content: Bytes, other: Bytes, dir: string, name: string): Sys {
    Sys(map[Library(name) := other, Incoming(1) := content], map[HashOf(content) := name],
        map[0 := Job(dir, [name], other, false, Placed(name)), 1 := Job(dir, [name], content, false, Known(name))],
        {}, 0)
  }

  lemma StaleSceneIsSound(content: Bytes, other: Bytes, dir: string, name: string)
    requires content != [] && other != [] && content != other
    ensures Inv(StaleScene(content, other, dir, name))
  {
    var s := StaleScene(content, other, dir, name);
    assert FilesInv(s.disk, 0, 0, s.jobs[0]) && FilesInv(s.disk, 0, 1, s.jobs[1]);
    assert BackedUp(s, s.jobs[0]) && BackedUp(s, s.jobs[1]);
    hide FilesInv, BackedUp;
  }

  /** Before the other photo evicts the row, the lost content comes again and is discarded as a duplicate. */
  lemma StaleRowDooms(content: Bytes, other: Bytes, dir: string, name: string)
    requires content != [] && other != [] && content != other
    ensures var s := StaleScene(content, other, dir, name);
            && Inv(s) && Present(s, content) && Enabled(s, Advance(1, CheckFile))
            && !Polite(s, Advance(1, CheckFile)) && Doomed(Do(s, Advance(1, CheckFile)), content)
  {
    StaleSceneIsSound(content, other, dir, name);
    var s := StaleScene(content, other, dir, name);
    assert Holds(s.disk, Incoming(1), content);
    hide Inv;
    var t := Do(s, Advance(1, CheckFile));
    assert t.jobs[1].pc == Duplicate && t.disk == s.disk;
    ForgetDooms(t, content, other, name);
  }

  lemma ForgetDooms(s: Sys, content: Bytes, other: Bytes, name: string)
    requires content != other && 1 in s.jobs && s.jobs[1].pc == Duplicate
    requires s.disk == map[Library(name) := other, Incoming(1) := content]
    ensures Doomed(s, content)
  {
    var t := Do(s, Advance(1, Forget));
    assert t.disk == map[Library(name) := other];
    DoomedNow(t, content);
    DoomedBefore(s, Advance(1, Forget), content);
  }

  /** A moved file evicts nobody, so two rows share a path exactly when another row held the new path before. */
  lemma MovedSharesPathExactlyWhenTaken(s: Sys, id: nat)
    requires StepEnabled(s, id, Settle) && s.jobs[id].moved && HashOf(s.jobs[id].content) in s.rows
    requires forall g, h | g in s.rows && h in s.rows && g != h :: s.rows[g] != s.rows[h]
    ensures var rows := DoStep(s, id, Settle).rows;
            (forall g, h | g in rows && h in rows && g != h :: rows[g] != rows[h])
            <==> OtherAt(s.rows, s.jobs[id].pc.rel, HashOf(s.jobs[id].content)).None?
  {
    var h := HashOf(s.jobs[id].content);
    var rel := s.jobs[id].pc.rel;
    var rows := DoStep(s, id, Settle).rows;
    assert rows == s.rows[h := rel];
    match OtherAt(s.rows, rel, h) {
      case Some(g) => assert rows[g] == rows[h];
      case None =>
    }
  }
}
