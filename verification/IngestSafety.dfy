/** Every event of the ingest protocol keeps its invariant. */
module IngestSafety {
  import opened LibraryStore
  import opened IngestProtocol

  /** A step of one ingest leaves alone every file below `originals/` that the ingest does not hold itself. */
  lemma StepTouchesOnlyItsOwn(s: Sys, id: nat, step: Step, rel: string)
    requires StepEnabled(s, id, step) && Library(rel) in s.disk && Held(s.jobs[id]) != Some(rel)
    ensures var e := EffectOf(s, id, step);
            && Holds(e.disk, Library(rel), s.disk[Library(rel)])
            && (e.job.Some? ==> Held(e.job.value) != Some(rel))
  {
    hide OtherAt;
  }

  /** It leaves alone the incoming files and the temporary copies of the others, too. */
  lemma StepSparesOthers(s: Sys, id: nat, step: Step, f: File)
    requires StepEnabled(s, id, step) && f in s.disk && f != Incoming(id)
    requires f.Temp? ==> TempOf(s.pid, s.jobs[id]) != Some(f) && (step.StartCopy? ==> f != Temp(s.jobs[id].dir, s.pid, step.stamp))
    requires f.Library? ==> Held(s.jobs[id]) != Some(f.rel)
    ensures Holds(EffectOf(s, id, step).disk, f, s.disk[f])
  {
    hide OtherAt;
  }

  /** A step keeps what its ingest holds, or takes a name that was free, or a temporary file of its own. */
  lemma StepHolds(s: Sys, id: nat, step: Step)
    requires StepEnabled(s, id, step) && EffectOf(s, id, step).job.Some?
    ensures var job := EffectOf(s, id, step).job.value;
            && (Held(job).Some? ==> Held(job) == Held(s.jobs[id]) || Library(Held(job).value) !in s.disk)
            && (TempOf(s.pid, job).Some? ==>
                  || TempOf(s.pid, job) == TempOf(s.pid, s.jobs[id])
                  || (step.StartCopy? && TempOf(s.pid, job) == Some(Temp(s.jobs[id].dir, s.pid, step.stamp))))
  {
    hide OtherAt;
  }

  predicate Publishes(step: Step) {
    step.Link? || step.LinkTemp? || step.Reserve? || step.RenameTemp?
  }

  lemma PublishingKeepsFiles(s: Sys, id: nat, step: Step)
    requires StepEnabled(s, id, step) && Publishes(step)
    requires FilesInv(s.disk, s.pid, id, s.jobs[id])
    ensures EffectOf(s, id, step).job.Some?
    ensures FilesInv(EffectOf(s, id, step).disk, s.pid, id, EffectOf(s, id, step).job.value)
  {
    hide OtherAt, HashOf;
  }

  lemma StepKeepsFiles(s: Sys, id: nat, step: Step)
    requires StepEnabled(s, id, step) && Careful(s, Advance(id, step))
    requires FilesInv(s.disk, s.pid, id, s.jobs[id])
    requires EffectOf(s, id, step).job.Some?
    ensures FilesInv(EffectOf(s, id, step).disk, s.pid, id, EffectOf(s, id, step).job.value)
  {
    if Publishes(step) {
      PublishingKeepsFiles(s, id, step);
    } else {
      hide OtherAt;
    }
  }

  /** A copy that cannot be taken back stays for good. */
  lemma StepKeepsPermanent(s: Sys, id: nat, step: Step, rel: string, content: Bytes)
    requires StepEnabled(s, id, step) && FilesInv(s.disk, s.pid, id, s.jobs[id]) && content != []
    requires Permanent(s, rel, content)
    ensures Permanent(DoStep(s, id, step), rel, content)
  {
    var t := DoStep(s, id, step);
    if Held(s.jobs[id]) != Some(rel) {
      hide EffectOf, FilesInv, Held;
      StepTouchesOnlyItsOwn(s, id, step, rel);
    } else {
      StepKeepsHeld(s, id, step);
      hide EffectOf, FilesInv, Held;
    }
  }

  /** An ingest that re-places a file keeps what it has published. */
  lemma StepKeepsHeld(s: Sys, id: nat, step: Step)
    requires StepEnabled(s, id, step) && FilesInv(s.disk, s.pid, id, s.jobs[id])
    requires Held(s.jobs[id]).Some? && !s.jobs[id].pc.Holding? && !s.jobs[id].pc.Undoing?
    ensures var e := EffectOf(s, id, step);
            && Holds(e.disk, Library(Held(s.jobs[id]).value), s.jobs[id].content)
            && (e.job.Some? ==> e.job.value.moved == s.jobs[id].moved)
  {
    hide OtherAt;
  }

  lemma StepKeepsKept(s: Sys, id: nat, step: Step, content: Bytes)
    requires StepEnabled(s, id, step) && content != [] && Kept(s.disk, content)
    requires FilesInv(s.disk, s.pid, id, s.jobs[id]) && BackedUp(s, s.jobs[id])
    ensures Kept(DoStep(s, id, step).disk, content)
  {
    var t := DoStep(s, id, step);
    var job := s.jobs[id];
    var rel :| Holds(s.disk, Library(rel), content);
    if Held(job) != Some(rel) {
      hide EffectOf, FilesInv;
      StepTouchesOnlyItsOwn(s, id, step, rel);
      assert Holds(t.disk, Library(rel), content);
    } else if job.pc.Undoing? {
      var other :| Permanent(s, other, job.content);
      StepKeepsPermanent(s, id, step, other, job.content);
      assert Holds(t.disk, Library(other), content);
    } else {
      StepKeepsHeld(s, id, step);
      hide EffectOf;
      assert Holds(t.disk, Library(rel), content);
    }
  }

  /** A step that adds or repoints a row is an ingest's last, and the row is for the file it has published. */
  lemma RowsAreWrittenLast(s: Sys, id: nat, step: Step, h: Hash)
    requires StepEnabled(s, id, step) && h in DoStep(s, id, step).rows
    requires !(h in s.rows && DoStep(s, id, step).rows[h] == s.rows[h])
    ensures var t := DoStep(s, id, step);
            var job := s.jobs[id];
            && (job.pc.Placed? || job.pc.Inserting?)
            && h == HashOf(job.content) && t.rows[h] == job.pc.rel
            && t.disk == s.disk && t.jobs == s.jobs - {id}
  {
    hide OtherAt, TempOf;
  }

  /** A row that a step adds or repoints names a copy that stays. */
  lemma StepFoundsRows(s: Sys, id: nat, step: Step, h: Hash)
    requires Inv(s) && StepEnabled(s, id, step) && h in DoStep(s, id, step).rows
    ensures var t := DoStep(s, id, step);
            (h in s.rows && t.rows[h] == s.rows[h]) || Permanent(t, t.rows[h], h.content)
  {
    if !(h in s.rows && DoStep(s, id, step).rows[h] == s.rows[h]) {
      RowsAreWrittenLast(s, id, step, h);
      var job := s.jobs[id];
      assert FilesInv(s.disk, s.pid, id, job);
      assert Held(job) == Some(job.pc.rel) && Holds(s.disk, Library(job.pc.rel), job.content);
      NobodyElseHolds(s, id);
      hide EffectOf, FilesInv, DoStep, Inv, BackedUp, Apart, Held;
    }
  }

  lemma NobodyElseHolds(s: Sys, id: nat)
    requires Inv(s) && id in s.jobs && Held(s.jobs[id]).Some?
    ensures forall k | k in s.jobs && k != id :: Held(s.jobs[k]) != Held(s.jobs[id])
  {
  }

  lemma StepKeepsApart(s: Sys, id: nat, step: Step)
    requires Inv(s) && StepEnabled(s, id, step)
    ensures Apart(DoStep(s, id, step))
  {
    var t := DoStep(s, id, step);
    var e := EffectOf(s, id, step);
    forall j, k | j in t.jobs && k in t.jobs && j != k
      ensures Held(t.jobs[j]).Some? ==> Held(t.jobs[j]) != Held(t.jobs[k])
      ensures TempOf(s.pid, t.jobs[j]).Some? ==> TempOf(s.pid, t.jobs[j]) != TempOf(s.pid, t.jobs[k])
    {
      if j == id || k == id {
        StepClaims(s, id, step, if j == id then k else j);
      }
      hide EffectOf, FilesInv, BackedUp, Held, TempOf;
    }
  }

  /** What a step newly holds, nobody else holds. */
  lemma StepClaims(s: Sys, id: nat, step: Step, k: nat)
    requires Inv(s) && StepEnabled(s, id, step)
    requires EffectOf(s, id, step).job.Some? && k in s.jobs && k != id
    ensures var job := EffectOf(s, id, step).job.value;
            && (Held(job).Some? ==> Held(job) != Held(s.jobs[k]))
            && (TempOf(s.pid, job).Some? ==> TempOf(s.pid, job) != TempOf(s.pid, s.jobs[k]))
  {
    assert Held(s.jobs[k]).Some? ==> Library(Held(s.jobs[k]).value) in s.disk by {
      assert FilesInv(s.disk, s.pid, k, s.jobs[k]);
    }
    assert step.StartCopy? ==> TempOf(s.pid, s.jobs[k]) != Some(Temp(s.jobs[id].dir, s.pid, step.stamp));
    hide EffectOf, FilesInv, BackedUp, Held, TempOf, StepEnabled;
    StepHolds(s, id, step);
  }

  /** The ingests that do not take the step are as well off as before. */
  lemma StepKeepsOthers(s: Sys, id: nat, step: Step, k: nat)
    requires Inv(s) && StepEnabled(s, id, step) && k in s.jobs && k != id
    ensures var t := DoStep(s, id, step);
            FilesInv(t.disk, s.pid, k, s.jobs[k]) && BackedUp(t, s.jobs[k])
  {
    var t := DoStep(s, id, step);
    var job := s.jobs[k];
    var mine := s.jobs[id];
    assert FilesInv(s.disk, s.pid, k, job) && BackedUp(s, job);
    assert FilesInv(s.disk, s.pid, id, mine) && BackedUp(s, mine);
    assert Held(job).Some? ==> Held(job) != Held(mine);
    assert TempOf(s.pid, job).Some? ==> TempOf(s.pid, job) != TempOf(s.pid, mine);
    assert step.StartCopy? ==> TempOf(s.pid, job) != Some(Temp(mine.dir, s.pid, step.stamp));
    assert FilesInv(t.disk, s.pid, k, job) by {
      hide EffectOf, Inv, BackedUp, StepEnabled;
      StepSparesFiles(s, id, step, k);
    }
    StepSparesBackups(s, id, step, k);
  }

  lemma StepSparesFiles(s: Sys, id: nat, step: Step, k: nat)
    requires StepEnabled(s, id, step) && k in s.jobs && k != id
    requires FilesInv(s.disk, s.pid, k, s.jobs[k])
    requires Held(s.jobs[k]).Some? ==> Held(s.jobs[k]) != Held(s.jobs[id])
    requires TempOf(s.pid, s.jobs[k]).Some? ==>
      && TempOf(s.pid, s.jobs[k]) != TempOf(s.pid, s.jobs[id])
      && (step.StartCopy? ==> TempOf(s.pid, s.jobs[k]) != Some(Temp(s.jobs[id].dir, s.pid, step.stamp)))
    ensures FilesInv(DoStep(s, id, step).disk, s.pid, k, s.jobs[k])
  {
    var job := s.jobs[k];
    hide EffectOf, StepEnabled;
    if Incoming(k) in s.disk {
      StepSparesOthers(s, id, step, Incoming(k));
    }
    if TempOf(s.pid, job).Some? && TempOf(s.pid, job).value in s.disk {
      StepSparesOthers(s, id, step, TempOf(s.pid, job).value);
    }
    if Held(job).Some? && Library(Held(job).value) in s.disk {
      StepSparesOthers(s, id, step, Library(Held(job).value));
    }
  }

  lemma StepSparesBackups(s: Sys, id: nat, step: Step, k: nat)
    requires Inv(s) && StepEnabled(s, id, step) && k in s.jobs && k != id
    ensures BackedUp(DoStep(s, id, step), s.jobs[k])
  {
    var t := DoStep(s, id, step);
    var job := s.jobs[k];
    assert FilesInv(s.disk, s.pid, k, job) && BackedUp(s, job);
    assert FilesInv(s.disk, s.pid, id, s.jobs[id]) && BackedUp(s, s.jobs[id]);
    assert !job.pc.Started? ==> job.content != [];
    hide EffectOf, FilesInv, StepEnabled, Permanent, Kept, Inv;
    var h := HashOf(job.content);
    if Inserts(job) && h in t.rows {
      StepFoundsRows(s, id, step, h);
      if h in s.rows {
        StepKeepsPermanent(s, id, step, s.rows[h], job.content);
      }
    }
    if job.pc.Undoing? {
      var rel :| Permanent(s, rel, job.content);
      StepKeepsPermanent(s, id, step, rel, job.content);
    }
    if job.pc.Duplicate? {
      StepKeepsKept(s, id, step, job.content);
    }
  }

  /** Where the claims of `BackedUp` come from. */
  lemma StepInherits(s: Sys, id: nat, step: Step)
    requires StepEnabled(s, id, step) && step != Insert(true) && EffectOf(s, id, step).job.Some?
    ensures var e := EffectOf(s, id, step);
            var job := s.jobs[id];
            var next := e.job.value;
            var h := HashOf(next.content);
            && (Inserts(next) && h in e.rows ==>
                  next.content == job.content && Inserts(job) && h in s.rows && e.rows[h] == s.rows[h])
            && (next.pc.Undoing? ==> next.content == job.content && job.pc.Inserting? && h in s.rows)
            && (next.pc.Duplicate? ==>
                  next.content == job.content && step.CheckFile? && Library(job.pc.rel) in s.disk && e.disk == s.disk)
  {
    hide OtherAt;
  }

  lemma StepKeepsBackup(s: Sys, id: nat, step: Step)
    requires Inv(s) && StepEnabled(s, id, step) && Polite(s, Advance(id, step))
    requires EffectOf(s, id, step).job.Some?
    ensures BackedUp(DoStep(s, id, step), EffectOf(s, id, step).job.value)
  {
    var t := DoStep(s, id, step);
    var job := s.jobs[id];
    var next := EffectOf(s, id, step).job.value;
    var h := HashOf(job.content);
    assert FilesInv(s.disk, s.pid, id, job) && BackedUp(s, job);
    assert !job.pc.Started? ==> job.content != [];
    assert job.pc.Inserting? ==> !job.moved;
    assert step.CheckFile? && Library(job.pc.rel) in s.disk ==> Holds(s.disk, Library(job.pc.rel), job.content);
    StepInherits(s, id, step);
    hide EffectOf, Permanent, Inv, FilesInv, StepEnabled;
    if Inserts(job) && h in s.rows {
      StepKeepsPermanent(s, id, step, s.rows[h], job.content);
    }
  }

  lemma StepKeeps(s: Sys, id: nat, step: Step)
    requires Inv(s) && StepEnabled(s, id, step) && Polite(s, Advance(id, step))
    ensures Inv(DoStep(s, id, step))
  {
    var t := DoStep(s, id, step);
    StepKeepsApart(s, id, step);
    assert FilesInv(s.disk, s.pid, id, s.jobs[id]);
    hide EffectOf, FilesInv, BackedUp, Apart;
    forall k | k in t.jobs
      ensures FilesInv(t.disk, t.pid, k, t.jobs[k]) && BackedUp(t, t.jobs[k])
    {
      if k == id {
        StepKeepsFiles(s, id, step);
        StepKeepsBackup(s, id, step);
      } else {
        StepKeepsOthers(s, id, step, k);
      }
    }
  }

  // --- events outside the ingests -------------------------------------------------

  lemma OutsideKeepsPermanent(s: Sys, e: Event, rel: string, content: Bytes)
    requires Enabled(s, e) && !e.Advance? && Permanent(s, rel, content)
    ensures Permanent(Do(s, e), rel, content)
  {
  }

  lemma OutsideKeepsKept(s: Sys, e: Event, content: Bytes)
    requires Enabled(s, e) && !e.Advance? && Kept(s.disk, content)
    ensures Kept(Do(s, e).disk, content)
  {
    var rel :| Holds(s.disk, Library(rel), content);
    assert Holds(Do(s, e).disk, Library(rel), content);
  }

  lemma OutsideKeepsJob(s: Sys, e: Event, k: nat)
    requires Inv(s) && Enabled(s, e) && Polite(s, e) && !e.Advance? && !e.Crash? && k in s.jobs
    ensures var t := Do(s, e);
            && t.pid == s.pid && k in t.jobs && t.jobs[k] == s.jobs[k]
            && FilesInv(t.disk, t.pid, k, t.jobs[k]) && BackedUp(t, t.jobs[k])
  {
    var t := Do(s, e);
    var job := s.jobs[k];
    assert FilesInv(s.disk, s.pid, k, job) && BackedUp(s, job);
    var h := HashOf(job.content);
    if Inserts(job) && h in t.rows {
      if h in s.rows {
        OutsideKeepsPermanent(s, e, s.rows[h], job.content);
      } else {
        assert Permanent(t, t.rows[h], job.content);
      }
    }
    if job.pc.Undoing? {
      var rel :| Permanent(s, rel, job.content);
      OutsideKeepsPermanent(s, e, rel, job.content);
    }
    if job.pc.Duplicate? {
      OutsideKeepsKept(s, e, job.content);
    }
    hide Permanent, Kept, Inv;
  }

  lemma OutsideKeeps(s: Sys, e: Event)
    requires Inv(s) && Enabled(s, e) && Polite(s, e) && !e.Advance? && !e.Crash?
    ensures Inv(Do(s, e))
  {
    var t := Do(s, e);
    forall k | k in t.jobs
      ensures FilesInv(t.disk, t.pid, k, t.jobs[k]) && BackedUp(t, t.jobs[k])
      ensures k in s.jobs ==> t.pid == s.pid && t.jobs[k] == s.jobs[k]
    {
      if k in s.jobs {
        OutsideKeepsJob(s, e, k);
      }
    }
    assert t.pid == s.pid;
    hide FilesInv, BackedUp;
  }

  lemma EventKeeps(s: Sys, e: Event)
    requires Inv(s) && Enabled(s, e) && Polite(s, e)
    ensures Inv(Do(s, e))
  {
    if e.Crash? {
    } else {
      hide Inv, DoStep, StepEnabled;
      if e.Advance? {
        StepKeeps(s, e.id, e.step);
      } else {
        OutsideKeeps(s, e);
      }
    }
  }
}
