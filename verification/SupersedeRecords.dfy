/** How many pending records a path can have. A record is made by the transaction of a replacement and cleared
    after its rename; when the clearing fails, it stays until the next start, and another replacement of the
    same path adds a second one. */
module SupersedeRecords {
  import opened LibraryStore
  import opened Patching
  import opened SupersedeProtocol
  import opened SupersedeSafety
  import opened SupersedeTheorems
  import opened SupersedeExactness

  /** No two records, finished or not, name the same path. */
  ghost predicate OnePerPath(st: Store) {
    forall g, h | g in st.pending && h in st.pending && g != h :: st.pending[g].relPath != st.pending[h].relPath
  }

  ghost predicate TwoOn(st: Store, rel: string) {
    exists g, h :: g in st.pending && h in st.pending && g != h && st.pending[g].relPath == rel == st.pending[h].relPath
  }

  /** Another hash than `newHash` has a record on the path. */
  ghost predicate NamedByAnother(st: Store, rel: string, newHash: Hash) {
    exists h :: h in st.pending && h != newHash && st.pending[h].relPath == rel
  }

  /** The event is a transaction that goes through. */
  predicate Commits(s: Sys, e: Event) {
    e.Advance? && e.step == Commit(false) && StepEnabled(s, e.d, e.step)
    && var job := s.jobs[e.d]; job.newHash in s.store.rows ==> job.newHash == job.oldHash
  }

  /** The transaction leaves two records on its path if and only if the record of another hash names that path
      already. */
  lemma CommitSharesPathExactlyWhenNamed(s: Sys, e: Event)
    requires Commits(s, e)
    ensures TwoOn(Do(s, e).store, s.jobs[e.d].row.relPath)
            <==> NamedByAnother(s.store, s.jobs[e.d].row.relPath, s.jobs[e.d].newHash)
  {
    var job := s.jobs[e.d];
    var rel := job.row.relPath;
    var before, later := s.store.pending, Do(s, e).store.pending;
    assert later == before[job.newHash := Swap(rel, JobStaged(s, e.d))];
    if h :| h in before && h != job.newHash && before[h].relPath == rel {
      assert later[h].relPath == rel == later[job.newHash].relPath;
    }
  }

  /** The same for all paths: other events make no record. */
  lemma EventKeepsOnePerPathExactlyWhen(s: Sys, e: Event)
    requires Enabled(s, e) && OnePerPath(s.store)
    ensures OnePerPath(Do(s, e).store)
            <==> (Commits(s, e) ==> !NamedByAnother(s.store, s.jobs[e.d].row.relPath, s.jobs[e.d].newHash))
  {
    if Commits(s, e) {
      CommitSharesPathExactlyWhenNamed(s, e);
      var job := s.jobs[e.d];
      var rel := job.row.relPath;
      var before, later := s.store.pending, Do(s, e).store.pending;
      assert later == before[job.newHash := Swap(rel, JobStaged(s, e.d))];
      if TwoOn(Do(s, e).store, rel) {
        var g, h :| g in later && h in later && g != h && later[g].relPath == rel == later[h].relPath;
        assert !OnePerPath(Do(s, e).store);
      } else {
        forall g, h | g in later && h in later && g != h
          ensures later[g].relPath != later[h].relPath
        {
          assert g != job.newHash && h != job.newHash ==> before[g].relPath != before[h].relPath;
        }
      }
    } else {
      NoNewRecord(s, e);
    }
  }

  lemma NoNewRecord(s: Sys, e: Event)
    requires Enabled(s, e) && !Commits(s, e)
    ensures forall h | h in Do(s, e).store.pending :: h in s.store.pending && Do(s, e).store.pending[h] == s.store.pending[h]
  {
    hide PatchOne, SweepTakes;
  }

  /** In every state along the run. */
  ghost predicate Throughout(s: Sys, run: seq<Event>)
    requires Feasible(s, run)
    decreases |run|
  {
    OnePerPath(s.store) && (run != [] ==> Throughout(Do(s, run[0]), run[1..]))
  }

  /** No transaction of the run goes through on a path that the record of another hash names. */
  ghost predicate CommitsOnFreePaths(s: Sys, run: seq<Event>)
    requires Feasible(s, run)
    decreases |run|
  {
    run != [] ==>
      && (Commits(s, run[0]) ==> !NamedByAnother(s.store, s.jobs[run[0].d].row.relPath, s.jobs[run[0].d].newHash))
      && CommitsOnFreePaths(Do(s, run[0]), run[1..])
  }

  /** Over every run whatsoever: each path has at most one record all along if and only if no replacement
      commits on a path that a record names. */
  lemma {:induction false} OnePerPathExactlyWhenFree(s: Sys, run: seq<Event>)
    requires Feasible(s, run) && OnePerPath(s.store)
    ensures Throughout(s, run) <==> CommitsOnFreePaths(s, run)
    decreases |run|
  {
    if run != [] {
      var t := Do(s, run[0]);
      EventKeepsOnePerPathExactlyWhen(s, run[0]);
      hide Do, OnePerPath, NamedByAnother;
      if OnePerPath(t.store) {
        OnePerPathExactlyWhenFree(t, run[1..]);
      } else {
        assert !Throughout(t, run[1..]);
      }
    }
  }

  /** A replacement up to its transaction. */
  lemma CommitRun(s: Sys, f: Event) returns (run: seq<Event>)
    requires f.Begin? && Enabled(s, f) && f.newHash != f.oldHash && f.newHash !in s.store.rows
    requires FileIs(s.store, s.store.rows[f.oldHash].relPath, f.oldHash)
    requires PatchAll(f.oldHash.content, f.pieces) == Patched(f.newHash.content)
    ensures Feasible(s, run) && (Exclusive(s, f) ==> Polite(s, run))
    ensures After(s, run).store.pending
            == s.store.pending[f.newHash := Swap(s.store.rows[f.oldHash].relPath, StagedPath(f.newHash, s.pid))]
  {
    hide PatchAll, FileIs;
    var verify := RequestRun(s, f);
    var s2 := After(s, verify);
    var commit := Advance(f.d, Commit(false));
    CommitStep(s2, f.d);
    OneStep(s2, commit);
    hide Do, After, Feasible, Polite;
    Join(s, verify, [commit]);
    run := verify + [commit];
  }

  /** It happens without breaking any rule. In a settled library, one replacement whose clearing fails, and then
      another of the same file: after its transaction both records name the path. */
  lemma TwoRecordsOnOnePath(s: Sys, e: Event, f: Event) returns (run: seq<Event>)
    requires Settled(s) && e.Begin? && Enabled(s, e) && f.Begin?
    requires f.d == e.d && f.oldHash == e.newHash
    requires e.newHash !in s.store.rows && f.newHash !in s.store.rows && e.newHash != f.newHash
    requires PatchAll(e.oldHash.content, e.pieces) == Patched(e.newHash.content)
    requires PatchAll(f.oldHash.content, f.pieces) == Patched(f.newHash.content)
    ensures Feasible(s, run) && Polite(s, run)
    ensures TwoOn(After(s, run).store, s.store.rows[e.oldHash].relPath)
    ensures After(s, run).store.pending.Keys == {e.newHash, f.newHash}
  {
    var rel := s.store.rows[e.oldHash].relPath;
    var first := ReplaceRun(s, e, true);
    var t := After(s, first);
    assert Exclusive(s, e) && Exclusive(t, f) && Enabled(t, f);
    hide Do, Settled, PatchAll, Exclusive, Enabled;
    var second := CommitRun(t, f);
    Join(s, first, second);
    run := first + second;
    var st := After(s, run).store;
    assert st.pending[e.newHash].relPath == rel == st.pending[f.newHash].relPath;
  }
}
