/** What holds over whole runs of the replacement protocol, and the exact price of breaking its rule. */
module SupersedeTheorems {
  import opened LibraryStore
  import opened Patching
  import opened SupersedeProtocol
  import opened SupersedeSafety

  lemma {:induction false} RunKeeps(s: Sys, run: seq<Event>)
    requires Inv(s) && Feasible(s, run) && Polite(s, run)
    ensures Inv(After(s, run))
    decreases |run|
  {
    if run != [] {
      EventKeeps(s, run[0]);
      RunKeeps(Do(s, run[0]), run[1..]);
    }
  }

  /** Crash safety: after any run from a settled library, with crashes and failures anywhere, the index is
      sound and no path has two open swaps. */
  lemma CrashSafety(s: Sys, run: seq<Event>)
    requires Settled(s) && Feasible(s, run) && Polite(s, run)
    ensures Sound(After(s, run).store)
    ensures var st := After(s, run).store;
            forall g, h | Live(st, g) && Live(st, h) && g != h :: st.pending[g].relPath != st.pending[h].relPath
  {
    RunKeeps(s, run);
    var st := After(s, run).store;
    forall h | h in st.rows
      ensures RowAgrees(st, h)
    {
    }
  }

  /** Startup repair: once every record found at startup has been worked off, no record is left and every
      row's file hashes to its row. */
  lemma RepairCompletes(s: Sys, run: seq<Event>)
    requires Settled(s) && Feasible(s, run) && Polite(s, run)
    requires var t := After(s, run); t.phase.Starting? && t.phase.todo == {}
    ensures var st := After(s, run).store;
            st.pending == map[] && forall h | h in st.rows :: FileIs(st, st.rows[h].relPath, h)
  {
    RunKeeps(s, run);
    var st := After(s, run).store;
    assert st.pending.Keys == {};
    forall h | h in st.rows
      ensures FileIs(st, st.rows[h].relPath, h)
    {
      assert RowAgrees(st, h);
    }
  }

  lemma RedactionTrans(a: Bytes, b: Bytes, c: Bytes)
    requires RedactionOf(a, b) && RedactionOf(b, c)
    ensures RedactionOf(a, c)
  {
  }

  lemma SwapInFills(st: Store, h: Hash, rel: string)
    requires Agreement(st) && h in st.pending && Original(rel) in st.disk
    ensures var t := SwapIn(st, st.pending[h]);
            Original(rel) in t.disk && RedactionOf(st.disk[Original(rel)], t.disk[Original(rel)])
  {
    if Live(st, h) {
      assert RowAgrees(st, h);
    }
  }

  lemma StepFills(s: Sys, d: Device, step: Step, rel: string)
    requires Inv(s) && StepEnabled(s, d, step) && Original(rel) in s.store.disk
    ensures Original(rel) in DoStep(s, d, step).store.disk
    ensures RedactionOf(s.store.disk[Original(rel)], DoStep(s, d, step).store.disk[Original(rel)])
  {
    hide Agreement, PatchOne;
    if step == SwapRename(false) {
      assert JobInv(s, d);
      assert s.store.pending[s.jobs[d].newHash] == Swap(s.jobs[d].row.relPath, JobStaged(s, d));
      SwapInFills(s.store, s.jobs[d].newHash, rel);
    }
  }

  /** One event changes an original only by filling zero bytes. */
  lemma EventFills(s: Sys, e: Event, rel: string)
    requires Inv(s) && Enabled(s, e) && Original(rel) in s.store.disk
    ensures Original(rel) in Do(s, e).store.disk
    ensures RedactionOf(s.store.disk[Original(rel)], Do(s, e).store.disk[Original(rel)])
  {
    match e
    case Advance(d, step) => StepFills(s, d, step, rel);
    case FinishRename(h) => SwapInFills(s.store, h, rel);
    case Crash(torn) => TornIsUnnamed(s, e, Original(rel));
    case _ =>
  }

  /** No photo byte is ever lost: over any run, a file below `originals/` stays, keeps its length, and
      keeps every byte that was not zero. */
  lemma {:induction false} OriginalsOnlyFilled(s: Sys, run: seq<Event>, rel: string)
    requires Inv(s) && Feasible(s, run) && Polite(s, run) && Original(rel) in s.store.disk
    ensures Original(rel) in After(s, run).store.disk
    ensures RedactionOf(s.store.disk[Original(rel)], After(s, run).store.disk[Original(rel)])
    decreases |run|
  {
    if run != [] {
      var t := Do(s, run[0]);
      EventKeeps(s, run[0]);
      EventFills(s, run[0], rel);
      OriginalsOnlyFilled(t, run[1..], rel);
      RedactionTrans(s.store.disk[Original(rel)], t.store.disk[Original(rel)], After(s, run).store.disk[Original(rel)]);
    }
  }

  /** The hash, or the hash it was replaced by, has a row. */
  ghost predicate Resolves(st: Store, h: Hash) {
    h in st.rows || (h in st.alias && st.alias[h] in st.rows)
  }

  lemma ResolvesIsDurable(st: Store, h: Hash)
    requires Agreement(st)
    ensures HasDurableCopy(st, h) <==> Resolves(st, h)
  {
    assert forall g | g in st.rows :: RowAgrees(st, g);
  }

  lemma TransactionResolves(a: Store, oldHash: Hash, newHash: Hash, row: Row, staged: Path, h: Hash)
    requires SupersedeAsset(a, oldHash, newHash, row, staged).Some? && Resolves(a, h)
    ensures Resolves(SupersedeAsset(a, oldHash, newHash, row, staged).value, h)
  {
  }

  lemma EventResolves(s: Sys, e: Event, h: Hash)
    requires Enabled(s, e) && Resolves(s.store, h)
    ensures Resolves(Do(s, e).store, h)
  {
    if e.Advance? && e.step == Commit(false) {
      var job := s.jobs[e.d];
      var row := job.row.(bytes := job.size, thumbState := 0);
      if SupersedeAsset(s.store, job.oldHash, job.newHash, row, JobStaged(s, e.d)).Some? {
        TransactionResolves(s.store, job.oldHash, job.newHash, row, JobStaged(s, e.d), h);
      }
    }
  }
}
