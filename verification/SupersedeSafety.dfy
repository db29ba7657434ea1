/** Every run of the protocol keeps disk and index in agreement. */
module SupersedeSafety {
  import opened LibraryStore
  import opened Patching
  import opened SupersedeProtocol

  /** `p` is or is not on both disks, with the same bytes. */
  ghost predicate SameFile(a: Store, b: Store, p: Path) {
    (p in a.disk <==> p in b.disk) && (p in a.disk ==> a.disk[p] == b.disk[p])
  }

  /** The index is unchanged, and so is every file except staged files that no pending record names. */
  ghost predicate SameVisible(a: Store, b: Store) {
    && b == a.(disk := b.disk)
    && forall p: Path | p.Original? || !Unnamed(a, p) :: SameFile(a, b, p)
  }

  lemma VisibleKeepsAgreement(a: Store, b: Store)
    requires Agreement(a) && SameVisible(a, b)
    ensures Agreement(b)
  {
    forall h | h in a.pending
      ensures SameFile(a, b, a.pending[h].staged)
    {
      assert !Unnamed(a, a.pending[h].staged);
    }
    forall h | h in b.rows
      ensures RowAgrees(b, h)
    {
      assert RowAgrees(a, h) && SameFile(a, b, Original(a.rows[h].relPath));
    }
    forall h | Live(b, h)
      ensures h in b.rows && b.pending[h].relPath == b.rows[h].relPath && !FileIs(b, b.rows[h].relPath, h)
    {
      assert Live(a, h) && SameFile(a, b, Original(a.rows[h].relPath));
    }
  }

  /** Nothing that the invariant of job `d` speaks of has changed. */
  ghost predicate JobFrame(s: Sys, t: Sys, d: Device)
    requires d in s.jobs
  {
    var staged := JobStaged(s, d);
    && d in t.jobs && t.jobs[d] == s.jobs[d] && t.pid == s.pid
    && SameFile(s.store, t.store, staged)
    && (PreCommit(s.jobs[d].pc) ==> SameFile(s.store, t.store, Original(s.jobs[d].row.relPath)))
    && (forall h | h in s.store.rows && s.store.rows[h].device == d :: h in t.store.rows && t.store.rows[h] == s.store.rows[h])
    && (forall h | h in t.store.pending :: t.store.pending[h].staged == staged ==>
          h in s.store.pending && s.store.pending[h] == t.store.pending[h])
    && (s.jobs[d].pc.Committed? && s.jobs[d].newHash in s.store.pending ==>
          s.jobs[d].newHash in t.store.pending && t.store.pending[s.jobs[d].newHash] == s.store.pending[s.jobs[d].newHash])
    && (s.jobs[d].pc.Renamed? && s.jobs[d].newHash in t.store.pending ==>
          s.jobs[d].newHash in s.store.pending && t.store.pending[s.jobs[d].newHash] == s.store.pending[s.jobs[d].newHash])
  }

  lemma FrameKeepsJob(s: Sys, t: Sys, d: Device)
    requires d in s.jobs && JobInv(s, d)
    requires JobFrame(s, t, d)
    ensures JobInv(t, d)
  {
  }

  ghost predicate OthersUnchanged(s: Sys, t: Sys, d: Device) {
    && t.pid == s.pid && t.phase == s.phase && t.sweeper == s.sweeper
    && (forall e | e != d :: (e in s.jobs <==> e in t.jobs) && (e in s.jobs ==> t.jobs[e] == s.jobs[e]))
    && (d in t.jobs ==> d in s.jobs && t.jobs[d].newHash == s.jobs[d].newHash)
  }

  /** A step of job `d` that touches nothing but its own staged file. */
  lemma OwnFileStep(s: Sys, t: Sys, d: Device)
    requires Inv(s) && d in s.jobs && Unnamed(s.store, JobStaged(s, d))
    requires OthersUnchanged(s, t, d)
    requires t.store == s.store.(disk := t.store.disk)
    requires forall p | p != JobStaged(s, d) :: SameFile(s.store, t.store, p)
    requires d in t.jobs ==> JobInv(t, d)
    ensures Inv(t)
  {
    VisibleKeepsAgreement(s.store, t.store);
    forall e | e in t.jobs && e != d
      ensures JobInv(t, e)
    {
      FrameKeepsJob(s, t, e);
    }
  }

  lemma RefuseKeeps(s: Sys, d: Device)
    requires Inv(s) && d in s.jobs && Unnamed(s.store, JobStaged(s, d))
    ensures Inv(Refuse(s, d)) && Inv(EndJob(s, d))
  {
    OwnFileStep(s, Refuse(s, d), d);
    EndJobKeeps(s, d);
  }

  lemma EndJobKeeps(s: Sys, d: Device)
    requires Inv(s) && d in s.jobs
    ensures Inv(EndJob(s, d))
  {
    forall e | e in s.jobs && e != d
      ensures JobInv(EndJob(s, d), e)
    {
      FrameKeepsJob(s, EndJob(s, d), e);
    }
  }

  lemma BeginKeeps(s: Sys, e: Event)
    requires Inv(s) && Enabled(s, e) && Exclusive(s, e) && e.Begin?
    ensures Inv(Do(s, e))
  {
    var t := Do(s, e);
    forall d | d in s.jobs
      ensures JobInv(t, d)
    {
      FrameKeepsJob(s, t, d);
    }
    assert JobInv(t, e.d);
  }

  lemma CopyKeeps(s: Sys, d: Device, step: Step)
    requires Inv(s) && StepEnabled(s, d, step) && (step.StartCopy? || step.EndCopy? || step.Sync?)
    ensures Inv(DoStep(s, d, step))
  {
    assert JobInv(s, d);
    OwnFileStep(s, DoStep(s, d, step), d);
  }

  lemma CheckKeeps(s: Sys, d: Device, step: Step)
    requires Inv(s) && StepEnabled(s, d, step) && (step.CheckOld? || step.CheckNew?)
    ensures Inv(DoStep(s, d, step))
  {
    assert JobInv(s, d);
    var t := DoStep(s, d, step);
    if t == Refuse(s, d) {
      RefuseKeeps(s, d);
    } else {
      OwnFileStep(s, t, d);
    }
  }

  lemma PatchKeeps(s: Sys, d: Device)
    requires Inv(s) && StepEnabled(s, d, PatchNext)
    ensures Inv(DoStep(s, d, PatchNext))
  {
    assert JobInv(s, d);
    var copy, piece := s.store.disk[JobStaged(s, d)], s.jobs[d].pieces[s.jobs[d].pc.next];
    if PatchOne(copy, piece).Patched? {
      PatchOneKeepsRedaction(s.jobs[d].oldHash.content, copy, piece);
      OwnFileStep(s, DoStep(s, d, PatchNext), d);
    } else {
      RefuseKeeps(s, d);
    }
  }

  lemma AbortKeeps(s: Sys, d: Device, step: Step)
    requires Inv(s) && StepEnabled(s, d, step) && (step.Cleanup? || step.IoError?)
    ensures Inv(DoStep(s, d, step))
  {
    assert JobInv(s, d);
    EndJobKeeps(s, d);
    if Unnamed(s.store, JobStaged(s, d)) {
      RefuseKeeps(s, d);
    }
  }

  lemma CommitKeeps(s: Sys, d: Device, dbError: bool)
    requires Inv(s) && StepEnabled(s, d, Commit(dbError))
    ensures Inv(DoStep(s, d, Commit(dbError)))
  {
    var t := DoStep(s, d, Commit(dbError));
    assert JobInv(s, d);
    if t.jobs[d].pc.Failed? {
      OwnFileStep(s, t, d);
    } else {
      CommittedKeeps(s, t, d);
    }
  }

  lemma CommittedKeeps(s: Sys, t: Sys, d: Device)
    requires Inv(s) && d in s.jobs && s.jobs[d].pc.Verified?
    requires t == SetPc(s.(store := t.store), d, Committed)
    requires var job := s.jobs[d];
             SupersedeAsset(s.store, job.oldHash, job.newHash, job.row.(bytes := job.size, thumbState := 0), JobStaged(s, d))
             == Some(t.store)
    ensures Inv(t)
  {
    assert JobInv(s, d);
    var job := s.jobs[d];
    CommittedAgreement(s.store, job.oldHash, job.newHash, job.row.(bytes := job.size, thumbState := 0), JobStaged(s, d));
    CommittedJobs(s, t, d);
  }

  lemma CommittedJobs(s: Sys, t: Sys, d: Device)
    requires Inv(s) && d in s.jobs && s.jobs[d].pc.Verified?
    requires OthersUnchanged(s, t, d) && d in t.jobs && t.jobs[d] == s.jobs[d].(pc := Committed)
    requires var job := s.jobs[d];
             SupersedeAsset(s.store, job.oldHash, job.newHash, job.row.(bytes := job.size, thumbState := 0), JobStaged(s, d))
             == Some(t.store)
    ensures forall f | f in t.jobs :: JobInv(t, f)
  {
    assert JobInv(s, d);
    assert t.store.rows == (s.store.rows - {s.jobs[d].oldHash})[s.jobs[d].newHash := s.jobs[d].row.(bytes := s.jobs[d].size, thumbState := 0)];
    forall f | f in t.jobs && f != d
      ensures JobInv(t, f)
    {
      assert JobInv(s, f);
      FrameKeepsJob(s, t, f);
    }
  }

  /** The transaction opens a swap and keeps every other row as it was. */
  lemma CommittedAgreement(a: Store, oldHash: Hash, newHash: Hash, row: Row, staged: Path)
    requires Agreement(a) && oldHash != newHash
    requires oldHash in a.rows && a.rows[oldHash].relPath == row.relPath
    requires FileIs(a, row.relPath, oldHash)
    requires IsStagedOf(staged, newHash) && Unnamed(a, staged)
    requires staged in a.disk && HashOf(a.disk[staged]) == newHash
    requires RedactionOf(oldHash.content, newHash.content)
    requires SupersedeAsset(a, oldHash, newHash, row, staged).Some?
    ensures Agreement(SupersedeAsset(a, oldHash, newHash, row, staged).value)
  {
    hide RowAgrees, RedactionOf, FileIs, Live, Unnamed, HashOf;
    CommittedRowsAgree(a, oldHash, newHash, row, staged);
    CommittedSwapsAreOpen(a, oldHash, newHash, row, staged);
  }

  lemma CommittedSwapsAreOpen(a: Store, oldHash: Hash, newHash: Hash, row: Row, staged: Path)
    requires Agreement(a) && oldHash != newHash
    requires oldHash in a.rows && a.rows[oldHash].relPath == row.relPath
    requires FileIs(a, row.relPath, oldHash)
    requires SupersedeAsset(a, oldHash, newHash, row, staged).Some?
    ensures var b := SupersedeAsset(a, oldHash, newHash, row, staged).value;
            forall h | Live(b, h) :: h in b.rows && b.pending[h].relPath == b.rows[h].relPath && !FileIs(b, b.rows[h].relPath, h)
  {
    var b := SupersedeAsset(a, oldHash, newHash, row, staged).value;
    hide RowAgrees, RedactionOf, Repoint;
    assert !Live(a, oldHash);
    forall h | Live(b, h)
      ensures h in b.rows && b.pending[h].relPath == b.rows[h].relPath && !FileIs(b, b.rows[h].relPath, h)
    {
      if h != newHash {
        assert Live(a, h);
      }
    }
  }

  lemma CommittedRowsAgree(a: Store, oldHash: Hash, newHash: Hash, row: Row, staged: Path)
    requires Agreement(a) && FileIs(a, row.relPath, oldHash)
    requires staged in a.disk && HashOf(a.disk[staged]) == newHash
    requires RedactionOf(oldHash.content, newHash.content)
    requires SupersedeAsset(a, oldHash, newHash, row, staged).Some?
    ensures var b := SupersedeAsset(a, oldHash, newHash, row, staged).value; forall h | h in b.rows :: RowAgrees(b, h)
  {
    var b := SupersedeAsset(a, oldHash, newHash, row, staged).value;
    hide RedactionOf, Repoint;
    forall h | h in b.rows
      ensures RowAgrees(b, h)
    {
      if h != newHash {
        assert RowAgrees(a, h);
      } else {
        assert OpenSwap(b, h, row.relPath);
      }
    }
  }

  lemma SwapInAgreement(a: Store, h: Hash)
    requires Agreement(a) && h in a.pending
    ensures Agreement(SwapIn(a, a.pending[h])) && !Live(SwapIn(a, a.pending[h]), h)
    ensures h in a.rows && Live(a, h) ==> FileIs(SwapIn(a, a.pending[h]), a.rows[h].relPath, h)
  {
    var b := SwapIn(a, a.pending[h]);
    if Live(a, h) {
      assert RowAgrees(a, h);
      forall g | g in b.rows
        ensures RowAgrees(b, g)
      {
        assert RowAgrees(a, g);
      }
      forall g | Live(b, g)
        ensures g in b.rows && b.pending[g].relPath == b.rows[g].relPath && !FileIs(b, b.rows[g].relPath, g)
      {
        assert Live(a, g);
      }
    }
  }

  lemma ClearAgreement(a: Store, h: Hash)
    requires Agreement(a) && !Live(a, h)
    ensures Agreement(ClearPending(a, h))
  {
    var b := ClearPending(a, h);
    forall g | g in b.rows
      ensures RowAgrees(b, g)
    {
      assert RowAgrees(a, g);
    }
    forall g | Live(b, g)
      ensures g in b.rows && b.pending[g].relPath == b.rows[g].relPath && !FileIs(b, b.rows[g].relPath, g)
    {
      assert Live(a, g);
    }
  }

  lemma RenameKeeps(s: Sys, d: Device)
    requires Inv(s) && StepEnabled(s, d, SwapRename(false))
    ensures Inv(DoStep(s, d, SwapRename(false)))
  {
    hide JobInv, Agreement, PatchOne, SupersedeAsset, Live;
    var t := DoStep(s, d, SwapRename(false));
    RenameSwapsIn(s, d);
    SwapInAgreement(s.store, s.jobs[d].newHash);
    RenamedJobs(s, t, d);
  }

  lemma RenameSwapsIn(s: Sys, d: Device)
    requires Inv(s) && StepEnabled(s, d, SwapRename(false))
    ensures var h := s.jobs[d].newHash;
            && h in s.store.pending
            && DoStep(s, d, SwapRename(false)) == SetPc(s.(store := SwapIn(s.store, s.store.pending[h])), d, Renamed)
  {
    assert JobInv(s, d);
    hide Agreement, SwapIn, PatchOne, SupersedeAsset;
  }

  lemma RenamedJobs(s: Sys, t: Sys, d: Device)
    requires Inv(s) && d in s.jobs && s.jobs[d].pc.Committed?
    requires OthersUnchanged(s, t, d) && d in t.jobs && t.jobs[d] == s.jobs[d].(pc := Renamed)
    requires t.store == SwapIn(s.store, Swap(s.jobs[d].row.relPath, JobStaged(s, d)))
    ensures forall f | f in t.jobs :: JobInv(t, f)
  {
    assert JobInv(s, d);
    forall f | f in t.jobs && f != d
      ensures JobInv(t, f)
    {
      assert JobInv(s, f);
      assert PreCommit(s.jobs[f].pc) ==> s.jobs[f].oldHash != s.jobs[d].newHash;
      FrameKeepsJob(s, t, f);
    }
  }

  lemma ClearKeeps(s: Sys, d: Device)
    requires Inv(s) && StepEnabled(s, d, SwapClear(false))
    ensures Inv(DoStep(s, d, SwapClear(false)))
  {
    var t := DoStep(s, d, SwapClear(false));
    assert JobInv(s, d);
    ClearAgreement(s.store, s.jobs[d].newHash);
    forall f | f in t.jobs
      ensures JobInv(t, f)
    {
      assert JobInv(s, f);
      FrameKeepsJob(s, t, f);
    }
  }

  lemma JobStepKeeps(s: Sys, d: Device, step: Step)
    requires Inv(s) && StepEnabled(s, d, step)
    ensures Inv(DoStep(s, d, step))
  {
    match step
    case StartCopy(_) => CopyKeeps(s, d, step);
    case EndCopy => CopyKeeps(s, d, step);
    case CheckOld => CheckKeeps(s, d, step);
    case PatchNext => PatchKeeps(s, d);
    case Sync => CopyKeeps(s, d, step);
    case CheckNew => CheckKeeps(s, d, step);
    case Commit(dbError) => CommitKeeps(s, d, dbError);
    case Cleanup(_) => AbortKeeps(s, d, step);
    case SwapRename(ioError) => if ioError { EndJobKeeps(s, d); } else { RenameKeeps(s, d); }
    case SwapClear(dbError) => if dbError { EndJobKeeps(s, d); } else { ClearKeeps(s, d); }
    case IoError(_) => AbortKeeps(s, d, step);
  }

  lemma PlaceKeeps(s: Sys, e: Event)
    requires Inv(s) && Enabled(s, e) && e.PlaceFile?
    ensures Inv(Do(s, e))
  {
    var t := Do(s, e);
    PlacedAgreement(s.store, e.rel, e.content);
    forall f | f in t.jobs
      ensures JobInv(t, f)
    {
      assert JobInv(s, f);
      assert PreCommit(s.jobs[f].pc) ==> RowAgrees(s.store, s.jobs[f].oldHash);
      FrameKeepsJob(s, t, f);
    }
  }

  lemma PlacedAgreement(a: Store, rel: string, content: Bytes)
    requires Agreement(a) && Original(rel) !in a.disk
    ensures Agreement(Write(a, Original(rel), content))
  {
    var b := Write(a, Original(rel), content);
    forall h | h in b.rows
      ensures RowAgrees(b, h)
    {
      assert RowAgrees(a, h);
    }
    forall h | Live(b, h)
      ensures h in b.rows && b.pending[h].relPath == b.rows[h].relPath && !FileIs(b, b.rows[h].relPath, h)
    {
      assert Live(a, h) && RowAgrees(a, h);
    }
  }

  lemma InsertKeeps(s: Sys, e: Event)
    requires Inv(s) && Enabled(s, e) && e.InsertRow?
    ensures Inv(Do(s, e))
  {
    var t := Do(s, e);
    forall h | h in t.store.rows
      ensures RowAgrees(t.store, h)
    {
      if h in s.store.rows {
        assert RowAgrees(s.store, h);
      }
    }
    forall f | f in t.jobs
      ensures JobInv(t, f)
    {
      assert JobInv(s, f);
      FrameKeepsJob(s, t, f);
    }
  }

  lemma SweepKeeps(s: Sys, e: Event)
    requires Inv(s) && Enabled(s, e) && (e.SweepList? || e.SweepSnapshot? || e.SweepRemove? || e.SweepEnd?)
    ensures Inv(Do(s, e))
  {
    var t := Do(s, e);
    if e.SweepRemove? {
      SweepTakesOnlyResidue(s, e.item);
      VisibleKeepsAgreement(s.store, t.store);
    }
    forall f | f in t.jobs
      ensures JobInv(t, f)
    {
      assert JobInv(s, f);
      FrameKeepsJob(s, t, f);
    }
  }

  /** Although listing and snapshot may both be stale: what the sweeper removes is named by no pending
      record, and no running job of this process has it or will have it as its staged file. */
  lemma SweepTakesOnlyResidue(s: Sys, item: Path)
    requires Inv(s) && s.sweeper.Snapped? && SweepTakes(s, item)
    ensures Unnamed(s.store, item)
    ensures forall d | d in s.jobs :: JobStaged(s, d) != item
  {
  }

  lemma TornIsUnnamed(s: Sys, e: Event, p: Path)
    requires Inv(s) && Enabled(s, e) && e.Crash?
    ensures p in e.torn ==> p.Staging? && Unnamed(s.store, p)
  {
    if p in e.torn {
      var d :| d in s.jobs && Unsynced(s.jobs[d].pc) && JobStaged(s, d) == p;
      assert JobInv(s, d);
    }
  }

  lemma CrashKeeps(s: Sys, e: Event)
    requires Inv(s) && Enabled(s, e) && (e.Crash? || e.Restart?)
    ensures Inv(Do(s, e))
  {
    var t := Do(s, e);
    if e.Crash? {
      forall p: Path | p.Original? || !Unnamed(s.store, p)
        ensures SameFile(s.store, t.store, p)
      {
        TornIsUnnamed(s, e, p);
      }
      VisibleKeepsAgreement(s.store, t.store);
    }
  }

  lemma FinishKeeps(s: Sys, e: Event)
    requires Inv(s) && Enabled(s, e) && (e.FinishRename? || e.FinishClear? || e.FinishEnd?)
    ensures Inv(Do(s, e))
  {
    if e.FinishRename? {
      SwapInAgreement(s.store, e.h);
    } else if e.FinishClear? {
      ClearAgreement(s.store, e.h);
    }
  }

  /** Every event that respects the exclusivity rule keeps the invariant. */
  lemma EventKeeps(s: Sys, e: Event)
    requires Inv(s) && Enabled(s, e) && Exclusive(s, e)
    ensures Inv(Do(s, e))
  {
    match e
    case Begin(_, _, _, _, _) => BeginKeeps(s, e);
    case Advance(d, step) => JobStepKeeps(s, d, step);
    case PlaceFile(_, _) => PlaceKeeps(s, e);
    case InsertRow(_, _) => InsertKeeps(s, e);
    case SweepList => SweepKeeps(s, e);
    case SweepSnapshot => SweepKeeps(s, e);
    case SweepRemove(_) => SweepKeeps(s, e);
    case SweepEnd => SweepKeeps(s, e);
    case Crash(_) => CrashKeeps(s, e);
    case Restart(_) => CrashKeeps(s, e);
    case FinishRename(_) => FinishKeeps(s, e);
    case FinishClear(_) => FinishKeeps(s, e);
    case FinishEnd => FinishKeeps(s, e);
  }
}
