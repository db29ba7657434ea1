/** How many rows a path can have: exactly when, over a whole run, no two rows share one. */
module IngestPaths {
  import opened LibraryStore
  import opened IngestProtocol

  ghost predicate OnePerPath(rows: map<Hash, string>) {
    forall g, h | g in rows && h in rows && g != h :: rows[g] != rows[h]
  }

  /** Another hash than `h` has the path. */
  ghost predicate TakenByAnother(rows: map<Hash, string>, rel: string, h: Hash) {
    exists g :: g in rows && g != h && rows[g] == rel
  }

  /** The row that an event writes: an ingest inserts one or re-points a moved one, or an indexer inserts one. */
  function WritesRow(s: Sys, e: Event): Option<(Hash, string)>
    requires Enabled(s, e)
  {
    match e
    case Index(rel, h) => if h in s.rows then None else Some((h, rel))
    case Advance(id, step) =>
      var job := s.jobs[id];
      var h := HashOf(job.content);
      if step.Settle? && job.moved && h in s.rows then Some((h, job.pc.rel))
      else if step == Insert(false) && h !in s.rows then Some((h, job.pc.rel))
      else None
    case _ => None
  }

  /** That is the only row an event adds or changes. */
  lemma StepWrites(s: Sys, id: nat, step: Step)
    requires StepEnabled(s, id, step)
    ensures var w, rows := WritesRow(s, Advance(id, step)), DoStep(s, id, step).rows;
            && (w.Some? ==> rows == s.rows[w.value.0 := w.value.1])
            && (w.None? ==> forall h | h in rows :: h in s.rows && rows[h] == s.rows[h])
  {
    hide OtherAt;
  }

  lemma EventWrites(s: Sys, e: Event)
    requires Enabled(s, e)
    ensures var w, rows := WritesRow(s, e), Do(s, e).rows;
            && (w.Some? ==> rows == s.rows[w.value.0 := w.value.1])
            && (w.None? ==> forall h | h in rows :: h in s.rows && rows[h] == s.rows[h])
  {
    hide StepEnabled, DoStep;
    if e.Advance? {
      StepWrites(s, e.id, e.step);
    }
  }

  lemma WriteSharesExactlyWhenTaken(rows: map<Hash, string>, h: Hash, rel: string)
    requires OnePerPath(rows)
    ensures OnePerPath(rows[h := rel]) <==> !TakenByAnother(rows, rel, h)
  {
    var later := rows[h := rel];
    if g :| g in rows && g != h && rows[g] == rel {
      assert g in later && h in later && later[g] == later[h];
    }
  }

  lemma EventKeepsOnePerPathExactlyWhen(s: Sys, e: Event)
    requires Enabled(s, e) && OnePerPath(s.rows)
    ensures OnePerPath(Do(s, e).rows)
            <==> (WritesRow(s, e).Some? ==> !TakenByAnother(s.rows, WritesRow(s, e).value.1, WritesRow(s, e).value.0))
  {
    EventWrites(s, e);
    hide Do, WritesRow, TakenByAnother, Enabled;
    if WritesRow(s, e).Some? {
      WriteSharesExactlyWhenTaken(s.rows, WritesRow(s, e).value.0, WritesRow(s, e).value.1);
    }
  }

  ghost predicate Throughout(s: Sys, run: seq<Event>)
    requires Feasible(s, run)
    decreases |run|
  {
    OnePerPath(s.rows) && (run != [] ==> Throughout(Do(s, run[0]), run[1..]))
  }

  /** No event of the run writes a row for a path that another row has. */
  ghost predicate WritesFreePaths(s: Sys, run: seq<Event>)
    requires Feasible(s, run)
    decreases |run|
  {
    run != [] ==>
      && (WritesRow(s, run[0]).Some? ==> !TakenByAnother(s.rows, WritesRow(s, run[0]).value.1, WritesRow(s, run[0]).value.0))
      && WritesFreePaths(Do(s, run[0]), run[1..])
  }

  /** Over every run whatsoever: no two rows share a path all along if and only if no row is written for a path that
      another row has. */
  lemma {:induction false} OnePerPathExactlyWhenFree(s: Sys, run: seq<Event>)
    requires Feasible(s, run) && OnePerPath(s.rows)
    ensures Throughout(s, run) <==> WritesFreePaths(s, run)
    decreases |run|
  {
    if run != [] {
      var t := Do(s, run[0]);
      EventKeepsOnePerPathExactlyWhen(s, run[0]);
      hide Do, OnePerPath, TakenByAnother, WritesRow;
      if OnePerPath(t.rows) {
        OnePerPathExactlyWhenFree(t, run[1..]);
      } else {
        assert !Throughout(t, run[1..]);
      }
    }
  }
}
