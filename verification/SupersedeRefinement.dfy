/** The class methods of `Supersede` and the state machine of `SupersedeProtocol` are about the same program: what
    a method says it leaves behind is what a run of the machine leaves behind. */
module SupersedeRefinement {
  import opened LibraryStore
  import opened Patching
  import opened SupersedeProtocol
  import opened SupersedeExactness
  import opened Supersede

  /** The state that `ApplySupersede` promises for a success is reached by a run of one phone's job. */
  lemma SuccessIsARun(s: Sys, d: Device, plan: Plan, newHash: Hash, size: nat, pieces: seq<Piece>) returns (run: seq<Event>)
    requires s.phase.Running? && d !in s.jobs && Acceptable(s.store, plan, newHash, size, pieces)
    requires s.store.rows[plan.oldHash].device == d && s.store.rows[plan.oldHash].relPath == plan.relPath
    requires newHash != plan.oldHash && newHash !in s.store.rows
    ensures Feasible(s, run)
    ensures After(s, run) == s.(store := ReplacedStore(s.store, plan, newHash, size, StagedPath(newHash, s.pid)))
  {
    var begin := Begin(d, plan.oldHash, newHash, size, pieces);
    assert Enabled(s, begin);
    hide Do, Feasible, After, Polite, Enabled, PatchAll, Exclusive, Complete;
    run := ReplaceRun(s, begin, false);
  }

  /** The startup repair of one record is the two steps of the machine. */
  lemma RepairIsItsSteps(s: Sys, h: Hash)
    requires Enabled(s, FinishRename(h))
    ensures var t := Do(s, FinishRename(h));
            && Enabled(t, FinishClear(h))
            && Do(t, FinishClear(h)).store == ClearPending(SwapIn(s.store, s.store.pending[h]), h)
  {
  }
}
