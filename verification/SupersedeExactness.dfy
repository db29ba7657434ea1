/** The exclusivity rule of `SupersedeProtocol` is needed: what goes wrong without it. */
module SupersedeExactness {
  import opened LibraryStore
  import opened Patching
  import opened SupersedeProtocol
  import opened SupersedeSafety
  import opened SupersedeTheorems

  ghost predicate Occupied(st: Store, rel: string) {
    exists h :: h in st.rows && st.rows[h].relPath == rel
  }

  /** Every pending record, finished or not, names the path of some row. */
  ghost predicate Rooted(st: Store) {
    forall h | h in st.pending :: Occupied(st, st.pending[h].relPath)
  }

  lemma TransactionKeepsRooted(a: Store, oldHash: Hash, newHash: Hash, row: Row, staged: Path)
    requires Rooted(a) && SupersedeAsset(a, oldHash, newHash, row, staged).Some?
    requires oldHash in a.rows && a.rows[oldHash].relPath == row.relPath
    ensures Rooted(SupersedeAsset(a, oldHash, newHash, row, staged).value)
  {
    var b := SupersedeAsset(a, oldHash, newHash, row, staged).value;
    assert newHash in b.rows && b.rows[newHash].relPath == row.relPath;
    forall h | h in b.pending
      ensures Occupied(b, b.pending[h].relPath)
    {
      if h != newHash {
        var g :| g in a.rows && a.rows[g].relPath == a.pending[h].relPath;
        assert g != oldHash ==> g in b.rows && b.rows[g] == a.rows[g];
      }
    }
  }

  lemma SameRecordsKeepRooted(a: Store, b: Store)
    requires Rooted(a)
    requires forall h | h in a.rows :: h in b.rows && b.rows[h].relPath == a.rows[h].relPath
    requires forall h | h in b.pending :: h in a.pending && b.pending[h] == a.pending[h]
    ensures Rooted(b)
  {
    forall h | h in b.pending
      ensures Occupied(b, b.pending[h].relPath)
    {
      var g :| g in a.rows && a.rows[g].relPath == a.pending[h].relPath;
      assert g in b.rows && b.rows[g].relPath == b.pending[h].relPath;
    }
  }

  lemma StepKeepsRooted(s: Sys, d: Device, step: Step)
    requires Inv(s) && StepEnabled(s, d, step) && Rooted(s.store)
    ensures Rooted(DoStep(s, d, step).store)
  {
    hide Agreement, RedactionOf, PatchOne;
    var a, b := s.store, DoStep(s, d, step).store;
    if step == Commit(false) && b.rows != a.rows {
      assert JobInv(s, d);
      var job := s.jobs[d];
      TransactionKeepsRooted(a, job.oldHash, job.newHash, job.row.(bytes := job.size, thumbState := 0), JobStaged(s, d));
    } else if b.pending == a.pending || step.SwapClear? {
      SameRecordsKeepRooted(a, b);
    }
  }

  lemma EventKeepsRooted(s: Sys, e: Event)
    requires Inv(s) && Enabled(s, e) && Rooted(s.store)
    ensures Rooted(Do(s, e).store)
  {
    if e.Advance? {
      StepKeepsRooted(s, e.d, e.step);
    } else {
      SameRecordsKeepRooted(s.store, Do(s, e).store);
    }
  }

  /** `Rooted` holds in every state a settled library can reach. */
  lemma {:induction false} RunKeepsRooted(s: Sys, run: seq<Event>)
    requires Inv(s) && Rooted(s.store) && Feasible(s, run) && Polite(s, run)
    ensures Rooted(After(s, run).store)
    decreases |run|
  {
    if run != [] {
      EventKeeps(s, run[0]);
      EventKeepsRooted(s, run[0]);
      RunKeepsRooted(Do(s, run[0]), run[1..]);
    }
  }

  ghost predicate PreservesOriginals(s: Sys, run: seq<Event>)
    requires Feasible(s, run)
  {
    forall rel | Original(rel) in s.store.disk ::
      && Original(rel) in After(s, run).store.disk
      && RedactionOf(s.store.disk[Original(rel)], After(s, run).store.disk[Original(rel)])
  }

  lemma Prepend(s: Sys, e: Event, run: seq<Event>)
    requires Enabled(s, e) && Feasible(Do(s, e), run)
    ensures Feasible(s, [e] + run) && After(s, [e] + run) == After(Do(s, e), run)
    ensures Polite(s, [e] + run) <==> Exclusive(s, e) && Polite(Do(s, e), run)
  {
    assert ([e] + run)[1..] == run;
  }

  lemma OneStep(s: Sys, e: Event)
    requires Enabled(s, e)
    ensures Feasible(s, [e]) && After(s, [e]) == Do(s, e) && (Polite(s, [e]) <==> Exclusive(s, e))
  {
    assert [e][1..] == [];
    assert After(Do(s, e), []) == Do(s, e) && Polite(Do(s, e), []);
  }

  /** Power loss with no unsynced write, restart, and the repair of one record. */
  lemma RepairRun(s: Sys, h: Hash) returns (run: seq<Event>)
    requires h in s.store.pending
    ensures Feasible(s, run) && Polite(s, run)
    ensures After(s, run).store == SwapIn(s.store, s.store.pending[h])
  {
    var crash, restart, finish := Event.Crash(map[]), Restart(s.pid), FinishRename(h);
    var s1 := Do(s, crash);
    assert s1.store == s.store;
    var s2 := Do(s1, restart);
    var s3 := Do(s2, finish);
    assert After(s3, []) == s3;
    Prepend(s2, finish, []);
    Prepend(s1, restart, [finish] + []);
    Prepend(s, crash, [restart] + ([finish] + []));
    run := [crash] + ([restart] + ([finish] + []));
  }

  /** Copying over a staged file that a pending record names, then losing power, makes the startup repair
      rename the torn copy over the original. */
  lemma NamedStagedIsFatal(s: Sys, e: Event) returns (run: seq<Event>)
    requires Inv(s) && Rooted(s.store) && s.jobs == map[]
    requires e.Begin? && Enabled(s, e) && !Unnamed(s.store, StagedPath(e.newHash, s.pid))
    ensures Feasible(s, [e] + run) && Polite(Do(s, e), run) && !PreservesOriginals(s, [e] + run)
  {
    var rel := s.store.pending[e.newHash].relPath;
    var g :| g in s.store.rows && s.store.rows[g].relPath == rel;
    assert RowAgrees(s.store, g) && RowAgrees(s.store, e.oldHash);
    var junk := s.store.disk[Original(rel)] + [0];
    var copy := Advance(e.d, StartCopy(junk));
    var t := Do(Do(s, e), copy);
    var rest := RepairRun(t, e.newHash);
    Prepend(Do(s, e), copy, rest);
    Prepend(s, e, [copy] + rest);
    run := [copy] + rest;
  }

  /** Exactly when may a replacement be begun while no other runs? When no pending record names the staged
      file it will write; then, and only then, no continuation can damage an original. */
  lemma SafeExactlyWhenUnnamed(s: Sys, e: Event)
    requires Inv(s) && Rooted(s.store) && s.jobs == map[]
    requires e.Begin? && Enabled(s, e) && e.oldHash != e.newHash
    ensures Unnamed(s.store, StagedPath(e.newHash, s.pid))
            <==> (forall run | Feasible(s, [e] + run) && Polite(Do(s, e), run) :: PreservesOriginals(s, [e] + run))
  {
    if Unnamed(s.store, StagedPath(e.newHash, s.pid)) {
      forall run | Feasible(s, [e] + run) && Polite(Do(s, e), run)
        ensures PreservesOriginals(s, [e] + run)
      {
        assert ([e] + run)[1..] == run;
        forall rel | Original(rel) in s.store.disk
          ensures Original(rel) in After(s, [e] + run).store.disk
          ensures RedactionOf(s.store.disk[Original(rel)], After(s, [e] + run).store.disk[Original(rel)])
        {
          OriginalsOnlyFilled(s, [e] + run, rel);
        }
      }
    } else {
      var run := NamedStagedIsFatal(s, e);
    }
  }

  lemma {:induction false} Join(s: Sys, first: seq<Event>, second: seq<Event>)
    requires Feasible(s, first) && Feasible(After(s, first), second)
    ensures Feasible(s, first + second) && After(s, first + second) == After(After(s, first), second)
    ensures Polite(s, first + second) <==> Polite(s, first) && Polite(After(s, first), second)
    decreases |first|
  {
    if first == [] {
      assert first + second == second;
    } else {
      Join(Do(s, first[0]), first[1..], second);
      assert first + second == [first[0]] + (first[1..] + second);
      Prepend(s, first[0], first[1..] + second);
    }
  }

  /** The job of `d` after its splice: the staged file holds `content`, nothing else has changed. */
  function WithStaged(s: Sys, d: Device, content: Bytes, pc: Pc): Sys
    requires d in s.jobs
  {
    SetPc(s.(store := Write(s.store, JobStaged(s, d), content)), d, pc)
  }

  lemma PatchStep(s: Sys, d: Device)
    requires StepEnabled(s, d, PatchNext)
    requires PatchOne(s.store.disk[JobStaged(s, d)], s.jobs[d].pieces[s.jobs[d].pc.next]).Patched?
    ensures var job := s.jobs[d];
            Do(s, Advance(d, PatchNext))
            == WithStaged(s, d, PatchOne(s.store.disk[JobStaged(s, d)], job.pieces[job.pc.next]).content, Pc.Patching(job.pc.next + 1))
  {
  }

  lemma {:induction false} PatchesRun(s: Sys, d: Device, i: nat, copy: Bytes) returns (run: seq<Event>)
    requires d in s.jobs && i <= |s.jobs[d].pieces|
    requires PatchAll(copy, s.jobs[d].pieces[i..]).Patched?
    ensures var job := s.jobs[d];
            var start := WithStaged(s, d, copy, Pc.Patching(i));
            && Feasible(start, run) && Polite(start, run)
            && After(start, run) == WithStaged(s, d, PatchAll(copy, job.pieces[i..]).content, Pc.Patching(|job.pieces|))
    decreases |s.jobs[d].pieces| - i
  {
    var pieces := s.jobs[d].pieces;
    var start := WithStaged(s, d, copy, Pc.Patching(i));
    if i == |pieces| {
      run := [];
    } else {
      assert pieces[i..][1..] == pieces[i + 1..];
      var content := PatchOne(copy, pieces[i]).content;
      PatchStep(start, d);
      assert WithStaged(start, d, content, Pc.Patching(i + 1)) == WithStaged(s, d, content, Pc.Patching(i + 1));
      var rest := PatchesRun(s, d, i + 1, content);
      Prepend(start, Advance(d, PatchNext), rest);
      run := [Advance(d, PatchNext)] + rest;
    }
  }

  lemma CopyRun(s: Sys, d: Device) returns (run: seq<Event>)
    requires d in s.jobs && s.jobs[d].pc.Fresh?
    requires FileIs(s.store, s.jobs[d].row.relPath, s.jobs[d].oldHash)
    ensures Feasible(s, run) && Polite(s, run)
    ensures After(s, run) == WithStaged(s, d, s.jobs[d].oldHash.content, Pc.Patching(0))
  {
    var e1, e2, e3 := Advance(d, StartCopy([])), Advance(d, EndCopy), Advance(d, CheckOld);
    var s1 := Do(s, e1);
    var s2 := Do(s1, e2);
    var s3 := Do(s2, e3);
    assert s3 == WithStaged(s, d, s.jobs[d].oldHash.content, Pc.Patching(0));
    Prepend(s2, e3, []);
    Prepend(s1, e2, [e3] + []);
    Prepend(s, e1, [e2] + ([e3] + []));
    run := [e1] + ([e2] + ([e3] + []));
  }

  lemma CheckRun(s: Sys, d: Device) returns (run: seq<Event>)
    requires d in s.jobs
    ensures var start := WithStaged(s, d, s.jobs[d].newHash.content, Pc.Patching(|s.jobs[d].pieces|));
            && Feasible(start, run) && Polite(start, run)
            && After(start, run) == WithStaged(s, d, s.jobs[d].newHash.content, Verified)
  {
    var start := WithStaged(s, d, s.jobs[d].newHash.content, Pc.Patching(|s.jobs[d].pieces|));
    var e1, e2 := Advance(d, Sync), Advance(d, CheckNew);
    var s1 := Do(start, e1);
    var s2 := Do(s1, e2);
    assert s2 == WithStaged(s, d, s.jobs[d].newHash.content, Verified);
    Prepend(s1, e2, []);
    Prepend(start, e1, [e2] + []);
    run := [e1] + ([e2] + []);
  }

  /** A job whose pieces turn the old content into the requested one gets as far as the transaction. */
  lemma VerifyRun(s: Sys, d: Device) returns (run: seq<Event>)
    requires d in s.jobs && s.jobs[d].pc.Fresh?
    requires FileIs(s.store, s.jobs[d].row.relPath, s.jobs[d].oldHash)
    requires PatchAll(s.jobs[d].oldHash.content, s.jobs[d].pieces) == Patched(s.jobs[d].newHash.content)
    ensures Feasible(s, run) && Polite(s, run)
    ensures After(s, run) == WithStaged(s, d, s.jobs[d].newHash.content, Verified)
  {
    assert s.jobs[d].pieces[0..] == s.jobs[d].pieces;
    var copy := CopyRun(s, d);
    var patches := PatchesRun(s, d, 0, s.jobs[d].oldHash.content);
    var check := CheckRun(s, d);
    Join(After(s, copy), patches, check);
    Join(s, copy, patches + check);
    run := copy + (patches + check);
  }

  /** A request up to its transaction, and what it has changed by then. */
  lemma RequestRun(s: Sys, f: Event) returns (run: seq<Event>)
    requires f.Begin? && Enabled(s, f)
    requires FileIs(s.store, s.store.rows[f.oldHash].relPath, f.oldHash)
    requires PatchAll(f.oldHash.content, f.pieces) == Patched(f.newHash.content)
    ensures Feasible(s, run) && (Exclusive(s, f) ==> Polite(s, run))
    ensures f.d !in s.jobs
    ensures After(s, run)
            == s.(store := Write(s.store, StagedPath(f.newHash, s.pid), f.newHash.content),
                  jobs := s.jobs[f.d := Job(f.oldHash, f.newHash, f.size, s.store.rows[f.oldHash], f.pieces, Verified)])
  {
    var s1 := Do(s, f);
    assert s1 == s.(jobs := s.jobs[f.d := Job(f.oldHash, f.newHash, f.size, s.store.rows[f.oldHash], f.pieces, Fresh)]);
    hide Do, PatchAll, Feasible, After, Polite, Exclusive, FileIs;
    var verify := VerifyRun(s1, f.d);
    Prepend(s, f, verify);
    run := [f] + verify;
  }

  /** Two phones asking for the same new hash share one staged file. Whenever the first of the two
      requests could succeed, some interleaving, free of crashes and errors, leaves an unsound index. */
  lemma SharedTargetIsUnsound(s: Sys, e: Event, f: Event) returns (run: seq<Event>)
    requires Inv(s) && e.Begin? && f.Begin? && e.d != f.d && Enabled(s, e) && Enabled(s, f)
    requires e.newHash == f.newHash != e.oldHash && e.newHash !in s.store.rows
    requires FileIs(s.store, s.store.rows[e.oldHash].relPath, e.oldHash)
    requires PatchAll(e.oldHash.content, e.pieces) == Patched(e.newHash.content)
    ensures Feasible(s, [e] + ([f] + run)) && !Sound(After(s, [e] + ([f] + run)).store)
  {
    assert RowAgrees(s.store, f.oldHash);
    var s1 := Do(s, e);
    var s2 := Do(s1, f);
    var verify := VerifyRun(s2, e.d);
    var clash := OverwriteThenCommit(After(s2, verify), e.d, f.d);
    Join(s2, verify, clash);
    run := verify + clash;
    Prepend(s1, f, run);
    Prepend(s, e, [f] + run);
  }

  /** The second job starts its copy between the first job's check and its transaction. */
  lemma OverwriteThenCommit(s: Sys, d: Device, f: Device) returns (run: seq<Event>)
    requires d in s.jobs && s.jobs[d].pc.Verified? && s.jobs[d].newHash !in s.store.rows
    requires !FileIs(s.store, s.jobs[d].row.relPath, s.jobs[d].newHash)
    requires f in s.jobs && f != d && s.jobs[f].pc.Fresh? && s.jobs[f].newHash == s.jobs[d].newHash
    requires Original(s.jobs[f].row.relPath) in s.store.disk
    ensures Feasible(s, run) && !Sound(After(s, run).store)
  {
    var h := s.jobs[d].newHash;
    var copy, commit := Advance(f, StartCopy(h.content + [0])), Advance(d, Commit(false));
    var s1 := Do(s, copy);
    var s2 := Do(s1, commit);
    assert s2.store.disk[StagedPath(h, s.pid)] == h.content + [0];
    assert h in s2.store.rows && s2.store.rows[h].relPath == s.jobs[d].row.relPath;
    Prepend(s1, commit, []);
    Prepend(s, copy, [commit] + []);
    run := [copy] + ([commit] + []);
  }

  /** A request to replace a hash by itself, with any pieces that leave the content as it is, whose rename fails leaves the staged file and its record behind. */
  lemma SelfRequestRun(s: Sys, e: Event) returns (run: seq<Event>)
    requires Settled(s) && e.Begin? && Enabled(s, e) && e.newHash == e.oldHash
    requires PatchAll(e.oldHash.content, e.pieces) == Patched(e.oldHash.content)
    ensures Feasible(s, run)
    ensures var row := s.store.rows[e.oldHash];
            var staged := StagedPath(e.oldHash, s.pid);
            var st := After(s, run).store;
            && After(s, run) == s.(store := st)
            && st.disk == s.store.disk[staged := e.oldHash.content]
            && st.rows == s.store.rows[e.oldHash := row.(bytes := e.size, thumbState := 0)]
            && st.pending == map[e.oldHash := Swap(row.relPath, staged)]
  {
    assert FileIs(s.store, s.store.rows[e.oldHash].relPath, e.oldHash);
    hide Do, PatchAll, Feasible, After, Polite, Exclusive, Enabled, FileIs;
    var verify := RequestRun(s, e);
    var s2 := After(s, verify);
    var fail := FailedSwapRun(s2, e.d);
    assert s2.jobs - {e.d} == s.jobs;
    Join(s, verify, fail);
    run := verify + fail;
  }

  lemma FailedSwapRun(s: Sys, d: Device) returns (run: seq<Event>)
    requires d in s.jobs && s.jobs[d].pc.Verified? && s.jobs[d].newHash == s.jobs[d].oldHash
    ensures Feasible(s, run)
    ensures var job := s.jobs[d];
            var st := After(s, run).store;
            && After(s, run) == EndJob(s.(store := st), d) && st.disk == s.store.disk
            && st.rows == s.store.rows[job.newHash := job.row.(bytes := job.size, thumbState := 0)]
            && st.pending == s.store.pending[job.newHash := Swap(job.row.relPath, JobStaged(s, d))]
  {
    var commit, swap := Advance(d, Commit(false)), Advance(d, SwapRename(true));
    var job := s.jobs[d];
    var s1 := Do(s, commit);
    var row := job.row.(bytes := job.size, thumbState := 0);
    assert (s.store.rows - {job.oldHash})[job.newHash := row] == s.store.rows[job.newHash := row];
    assert s1.jobs - {d} == s.jobs - {d};
    OneStep(s1, swap);
    Prepend(s, commit, [swap]);
    run := [commit] + [swap];
  }

  /** The transaction of a verified job. */
  lemma CommitStep(s: Sys, d: Device)
    requires d in s.jobs && s.jobs[d].pc.Verified? && s.jobs[d].newHash !in s.store.rows
    ensures var job := s.jobs[d];
            var t := Do(s, Advance(d, Commit(false)));
            && t == SetPc(s.(store := t.store), d, Committed) && t.store.disk == s.store.disk
            && t.store.rows == (s.store.rows - {job.oldHash})[job.newHash := job.row.(bytes := job.size, thumbState := 0)]
            && t.store.pending == s.store.pending[job.newHash := Swap(job.row.relPath, JobStaged(s, d))]
            && t.store.alias == Repoint(s.store.alias, job.oldHash, job.newHash)[job.oldHash := job.newHash]
  {
  }

  /** Rename and clearing after it; the clearing may fail. */
  lemma RenameRun(s: Sys, d: Device, dbError: bool) returns (run: seq<Event>)
    requires d in s.jobs && s.jobs[d].pc.Committed? && JobStaged(s, d) in s.store.disk
    ensures Feasible(s, run) && Polite(s, run)
    ensures var job := s.jobs[d];
            var st := After(s, run).store;
            && After(s, run) == EndJob(s.(store := st), d) && st.rows == s.store.rows && st.alias == s.store.alias
            && st.disk == (s.store.disk - {JobStaged(s, d)})[Original(job.row.relPath) := s.store.disk[JobStaged(s, d)]]
            && st.pending == if dbError then s.store.pending else s.store.pending - {job.newHash}
  {
    var swap, clear := Advance(d, SwapRename(false)), Advance(d, SwapClear(dbError));
    var s1 := Do(s, swap);
    var s2 := Do(s1, clear);
    assert s1.jobs - {d} == s.jobs - {d};
    assert After(s2, []) == s2;
    Prepend(s1, clear, []);
    Prepend(s, swap, [clear] + []);
    run := [swap] + ([clear] + []);
  }

  /** Transaction, rename and clearing of a verified job; the clearing may fail. */
  lemma SwapRun(s: Sys, d: Device, dbError: bool) returns (run: seq<Event>)
    requires d in s.jobs && s.jobs[d].pc.Verified? && JobStaged(s, d) in s.store.disk
    requires s.jobs[d].newHash !in s.store.rows
    ensures Feasible(s, run) && Polite(s, run)
    ensures var job := s.jobs[d];
            var staged := JobStaged(s, d);
            var st := After(s, run).store;
            && st.disk == (s.store.disk - {staged})[Original(job.row.relPath) := s.store.disk[staged]]
            && st.rows == (s.store.rows - {job.oldHash})[job.newHash := job.row.(bytes := job.size, thumbState := 0)]
            && (dbError ==> st.pending == s.store.pending[job.newHash := Swap(job.row.relPath, staged)])
            && (!dbError ==> st.pending == s.store.pending - {job.newHash})
            && st.alias == Repoint(s.store.alias, job.oldHash, job.newHash)[job.oldHash := job.newHash]
            && After(s, run) == EndJob(s.(store := st), d)
  {
    var commit := Advance(d, Commit(false));
    CommitStep(s, d);
    var s1 := Do(s, commit);
    assert Enabled(s, commit);
    hide Do, Feasible, After, Polite;
    var rest := RenameRun(s1, d, dbError);
    assert s1.jobs - {d} == s.jobs - {d};
    Prepend(s, commit, rest);
    run := [commit] + rest;
  }

  /** A whole replacement, whatever other records are open. */
  lemma ReplaceRun(s: Sys, f: Event, dbError: bool) returns (run: seq<Event>)
    requires f.Begin? && Enabled(s, f) && f.newHash != f.oldHash && f.newHash !in s.store.rows
    requires FileIs(s.store, s.store.rows[f.oldHash].relPath, f.oldHash)
    requires PatchAll(f.oldHash.content, f.pieces) == Patched(f.newHash.content)
    ensures Feasible(s, run) && (Exclusive(s, f) ==> Polite(s, run))
    ensures var row := s.store.rows[f.oldHash];
            var staged := StagedPath(f.newHash, s.pid);
            var st := After(s, run).store;
            && st.disk == (s.store.disk - {staged})[Original(row.relPath) := f.newHash.content]
            && st.rows == (s.store.rows - {f.oldHash})[f.newHash := row.(bytes := f.size, thumbState := 0)]
            && (dbError ==> st.pending == s.store.pending[f.newHash := Swap(row.relPath, staged)])
            && (!dbError ==> st.pending == s.store.pending - {f.newHash})
            && st.alias == Repoint(s.store.alias, f.oldHash, f.newHash)[f.oldHash := f.newHash]
            && After(s, run) == s.(store := st)
  {
    hide Do, PatchAll, Feasible, After, Polite, Exclusive, FileIs, Enabled;
    var verify := RequestRun(s, f);
    var s2 := After(s, verify);
    var finish := SwapRun(s2, f.d, dbError);
    assert s2.jobs - {f.d} == s.jobs;
    Join(s, verify, finish);
    run := verify + finish;
  }

  /** An open record whose staged file holds something else than the row of its path asks for: the repair
      of that record breaks the row. */
  lemma StaleRecordReturns(s: Sys, h: Hash, g: Hash) returns (run: seq<Event>)
    requires h in s.store.pending && g in s.store.rows && s.store.pending[h].relPath == s.store.rows[g].relPath
    requires g !in s.store.pending
    requires s.store.pending[h].staged in s.store.disk && s.store.pending[h].staged.Staging?
    requires HashOf(s.store.disk[s.store.pending[h].staged]) != g
    ensures Feasible(s, run) && !Sound(After(s, run).store)
  {
    run := RepairRun(s, h);
    var st := After(s, run).store;
    assert g in st.rows && !FileIs(st, st.rows[g].relPath, g);
  }

  /** Replacing a hash by itself is not harmless: if the rename of such a request fails, a later proper
      replacement followed by a restart puts the old bytes back under the new row. */
  lemma SelfReplacementIsUnsound(s: Sys, e: Event, f: Event) returns (run: seq<Event>)
    requires Settled(s) && e.Begin? && Enabled(s, e) && f.Begin? && Enabled(s, f) && f.d == e.d
    requires e.newHash == e.oldHash == f.oldHash
    requires PatchAll(e.oldHash.content, e.pieces) == Patched(e.oldHash.content)
    requires f.newHash != f.oldHash && f.newHash !in s.store.rows
    requires PatchAll(f.oldHash.content, f.pieces) == Patched(f.newHash.content)
    ensures Feasible(s, run) && !Sound(After(s, run).store)
  {
    var r1 := SelfRequestRun(s, e);
    var s1 := After(s, r1);
    assert Enabled(s1, f);
    assert FileIs(s1.store, s1.store.rows[f.oldHash].relPath, f.oldHash);
    hide *;
    var rest := ReplacedOverStale(s1, f);
    Join(s, r1, rest);
    run := r1 + rest;
  }

  /** With a staged file of the old content still on record, a proper replacement and a repair end unsound. */
  lemma ReplacedOverStale(s: Sys, f: Event) returns (run: seq<Event>)
    requires f.Begin? && Enabled(s, f) && f.newHash != f.oldHash && f.newHash !in s.store.rows
    requires FileIs(s.store, s.store.rows[f.oldHash].relPath, f.oldHash)
    requires PatchAll(f.oldHash.content, f.pieces) == Patched(f.newHash.content)
    requires s.store.pending == map[f.oldHash := Swap(s.store.rows[f.oldHash].relPath, StagedPath(f.oldHash, s.pid))]
    requires StagedPath(f.oldHash, s.pid) in s.store.disk && s.store.disk[StagedPath(f.oldHash, s.pid)] == f.oldHash.content
    ensures Feasible(s, run) && !Sound(After(s, run).store)
  {
    hide Enabled, Do, PatchAll, Feasible, After, Polite, Sound, FileIs, Repoint;
    var first := ReplaceRun(s, f, false);
    var t := After(s, first);
    assert t.store.pending == s.store.pending;
    var rest := StaleRecordReturns(t, f.oldHash, f.newHash);
    Join(s, first, rest);
    run := first + rest;
  }
}
