/** What holds over every run of the replacement protocol, whether or not callers keep the exclusivity rule: no
    original disappears, every indexed path has a file, a durable hash stays durable, and the sweeper takes
    nothing that anybody wants. */
module SupersedeAnyRun {
  import opened LibraryStore
  import opened Patching
  import opened SupersedeProtocol
  import opened SupersedeTheorems

  /** Rows and running jobs point at existing files; records name staged files of their own hash; a sweeper works
      only while the process runs, and a record that its snapshot lacks is this process's; the startup repair has
      every record on its list. */
  ghost predicate Grounded(s: Sys) {
    && (forall h | h in s.store.rows :: Original(s.store.rows[h].relPath) in s.store.disk)
    && (forall d | d in s.jobs :: Original(s.jobs[d].row.relPath) in s.store.disk)
    && (forall h | h in s.store.pending :: IsStagedOf(s.store.pending[h].staged, h))
    && (!s.phase.Running? ==> s.jobs == map[] && s.sweeper.Idle?)
    && (s.sweeper.Snapped? ==> forall h | h in s.store.pending ::
          h in s.sweeper.pending || s.store.pending[h].staged == StagedPath(h, s.pid))
    && (s.phase.Starting? ==> s.store.pending.Keys <= s.phase.todo)
  }

  /** No step of a job removes an original. */
  lemma StepKeepsOriginals(s: Sys, d: Device, step: Step, rel: string)
    requires StepEnabled(s, d, step) && Original(rel) in s.store.disk
    ensures Original(rel) in DoStep(s, d, step).store.disk
  {
    hide PatchOne, PatchAll;
  }

  lemma EventKeepsOriginals(s: Sys, e: Event, rel: string)
    requires Grounded(s) && Enabled(s, e) && Original(rel) in s.store.disk
    ensures Original(rel) in Do(s, e).store.disk
  {
    hide DoStep, StepEnabled;
    if e.Advance? {
      StepKeepsOriginals(s, e.d, e.step, rel);
    }
  }

  /** A step makes a row only for its job's path, and a record only for its own staged file. */
  lemma StepWritesOwn(s: Sys, d: Device, step: Step)
    requires StepEnabled(s, d, step)
    ensures var t := DoStep(s, d, step);
            && (forall h | h in t.store.rows ::
                  (h in s.store.rows && t.store.rows[h] == s.store.rows[h]) || t.store.rows[h].relPath == s.jobs[d].row.relPath)
            && (forall h | h in t.store.pending ::
                  (h in s.store.pending && t.store.pending[h] == s.store.pending[h]) || t.store.pending[h].staged == StagedPath(h, s.pid))
            && (forall f | f in t.jobs :: f in s.jobs && t.jobs[f].row == s.jobs[f].row)
            && t.pid == s.pid && t.phase == s.phase && t.sweeper == s.sweeper
  {
    hide PatchOne, PatchAll;
  }

  lemma EventKeepsGrounded(s: Sys, e: Event)
    requires Grounded(s) && Enabled(s, e)
    ensures Grounded(Do(s, e))
  {
    var t := Do(s, e);
    if e.Advance? {
      StepWritesOwn(s, e.d, e.step);
      forall rel | Original(rel) in s.store.disk
        ensures Original(rel) in t.store.disk
      {
        StepKeepsOriginals(s, e.d, e.step, rel);
      }
      hide DoStep, StepEnabled;
    } else {
      forall rel | Original(rel) in s.store.disk
        ensures Original(rel) in t.store.disk
      {
        EventKeepsOriginals(s, e, rel);
      }
    }
  }

  lemma {:induction false} RunKeepsGrounded(s: Sys, run: seq<Event>)
    requires Grounded(s) && Feasible(s, run)
    ensures Grounded(After(s, run))
    decreases |run|
  {
    if run != [] {
      EventKeepsGrounded(s, run[0]);
      hide Do, Grounded;
      RunKeepsGrounded(Do(s, run[0]), run[1..]);
    }
  }

  lemma {:induction false} OriginalsStay(s: Sys, run: seq<Event>, rel: string)
    requires Grounded(s) && Feasible(s, run) && Original(rel) in s.store.disk
    ensures Original(rel) in After(s, run).store.disk
    decreases |run|
  {
    if run != [] {
      EventKeepsGrounded(s, run[0]);
      EventKeepsOriginals(s, run[0], rel);
      hide Do, Grounded;
      OriginalsStay(Do(s, run[0]), run[1..], rel);
    }
  }

  /** From a settled library, over every run whatsoever: every indexed path has a file, and no file below
      `originals/` disappears. */
  lemma EveryPathHasAFile(s: Sys, run: seq<Event>)
    requires Settled(s) && Feasible(s, run)
    ensures var st := After(s, run).store; forall h | h in st.rows :: Original(st.rows[h].relPath) in st.disk
    ensures forall rel | Original(rel) in s.store.disk :: Original(rel) in After(s, run).store.disk
  {
    assert Grounded(s);
    RunKeepsGrounded(s, run);
    forall rel | Original(rel) in s.store.disk
      ensures Original(rel) in After(s, run).store.disk
    {
      OriginalsStay(s, run, rel);
    }
  }

  /** A startup repair that has worked off its list leaves no record, over every run. */
  lemma RepairLeavesNoRecord(s: Sys, run: seq<Event>)
    requires Settled(s) && Feasible(s, run)
    requires var t := After(s, run); t.phase.Starting? && t.phase.todo == {}
    ensures After(s, run).store.pending == map[]
  {
    assert Grounded(s);
    RunKeepsGrounded(s, run);
    assert After(s, run).store.pending.Keys == {};
  }

  lemma GroundedResolves(s: Sys, h: Hash)
    requires Grounded(s)
    ensures HasDurableCopy(s.store, h) <==> Resolves(s.store, h)
  {
  }

  lemma {:induction false} ResolvesForever(s: Sys, run: seq<Event>, h: Hash)
    requires Feasible(s, run) && Resolves(s.store, h)
    ensures Resolves(After(s, run).store, h)
    decreases |run|
  {
    if run != [] {
      EventResolves(s, run[0], h);
      hide Do, Resolves;
      ResolvesForever(Do(s, run[0]), run[1..], h);
    }
  }

  /** A phone that was once told "stored" is told so ever after: from a settled library, whatever run came first,
      a hash that is durable then stays durable through every further run, rules kept or broken. */
  lemma DurableForever(s: Sys, before: seq<Event>, run: seq<Event>, h: Hash)
    requires Settled(s) && Feasible(s, before) && Feasible(After(s, before), run)
    requires HasDurableCopy(After(s, before).store, h)
    ensures HasDurableCopy(After(After(s, before), run).store, h)
  {
    assert Grounded(s);
    hide Grounded, HasDurableCopy, Resolves, Feasible, After;
    RunKeepsGrounded(s, before);
    var t := After(s, before);
    GroundedResolves(t, h);
    ResolvesForever(t, run, h);
    RunKeepsGrounded(t, run);
    GroundedResolves(After(t, run), h);
  }

  /** From a settled library, over every run: although listing and snapshot may both be stale, what the sweeper
      takes is named by no record, is no running job's staged file, and is none that this process will ever use. */
  lemma SweepTakesOnlyResidue(s: Sys, run: seq<Event>, item: Path)
    requires Settled(s) && Feasible(s, run)
    requires var t := After(s, run); t.sweeper.Snapped? && SweepTakes(t, item)
    ensures var t := After(s, run);
            && Unnamed(t.store, item)
            && (forall d | d in t.jobs :: JobStaged(t, d) != item)
            && (forall h :: StagedPath(h, t.pid) != item)
  {
    assert Grounded(s);
    RunKeepsGrounded(s, run);
  }
}
