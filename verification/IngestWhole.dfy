/** Files below `originals/` are whole: a name that becomes visible has the complete bytes of an incoming file, or is
    the empty placeholder that the fallback without hard links reserves. It holds over every run, whatever rules are
    broken: nothing half-written is ever seen there, crashes included. */
module IngestWhole {
  import opened LibraryStore
  import opened IngestProtocol
  import opened IngestSafety

  /** A temporary copy that waits to be linked or renamed. */
  predicate CopyDone(pc: Pc) {
    pc.Retrying? || pc.Linkless? || pc.Holding?
  }

  /** Finished copies are complete, and no two ingests share one; trivially so where nothing runs. */
  ghost predicate Whole(s: Sys) {
    && (forall id | id in s.jobs && CopyDone(s.jobs[id].pc) :: IsCopied(s.disk, s.pid, id, s.jobs[id]))
    && (forall j, k | j in s.jobs && k in s.jobs && j != k ::
          TempOf(s.pid, s.jobs[j]).Some? ==> TempOf(s.pid, s.jobs[j]) != TempOf(s.pid, s.jobs[k]))
  }

  ghost predicate IsCopied(disk: map<File, Bytes>, pid: nat, id: nat, job: Job)
    requires CopyDone(job.pc)
  {
    Incoming(id) in disk && Holds(disk, Temp(job.dir, pid, job.pc.stamp), disk[Incoming(id)])
  }

  ghost predicate SameAt(s: Sys, t: Sys, f: File) {
    (f in s.disk <==> f in t.disk) && (f in s.disk ==> s.disk[f] == t.disk[f])
  }

  // --- one step ---------------------------------------------------------------

  /** A step that makes a file below `originals/`, or changes one, writes the complete incoming file there, or
      reserves the name with an empty one. */
  lemma StepWritesWhole(s: Sys, id: nat, step: Step, rel: string)
    requires Whole(s) && StepEnabled(s, id, step)
    requires var t := DoStep(s, id, step); Library(rel) in t.disk && !SameAt(s, t, Library(rel))
    ensures var c := DoStep(s, id, step).disk[Library(rel)];
            (step.Reserve? && c == []) || (!step.Reserve? && Holds(s.disk, Incoming(id), c))
  {
    hide OtherAt, HashOf;
    assert CopyDone(s.jobs[id].pc) ==> IsCopied(s.disk, s.pid, id, s.jobs[id]);
  }

  /** A step leaves the incoming files and the finished copies of other ingests alone. */
  lemma StepSparesCopy(s: Sys, id: nat, step: Step, k: nat)
    requires Whole(s) && StepEnabled(s, id, step) && k in s.jobs && k != id && CopyDone(s.jobs[k].pc)
    ensures IsCopied(DoStep(s, id, step).disk, s.pid, k, s.jobs[k])
  {
    var copy := Temp(s.jobs[k].dir, s.pid, s.jobs[k].pc.stamp);
    assert IsCopied(s.disk, s.pid, k, s.jobs[k]) && TempOf(s.pid, s.jobs[k]) == Some(copy);
    assert TempOf(s.pid, s.jobs[id]) != Some(copy);
    assert step.StartCopy? ==> Temp(s.jobs[id].dir, s.pid, step.stamp) != copy;
    hide EffectOf, StepEnabled, TempOf, Whole;
    StepSparesOthers(s, id, step, Incoming(k));
    StepSparesOthers(s, id, step, copy);
  }

  lemma StepCopiesWhole(s: Sys, id: nat, step: Step)
    requires StepEnabled(s, id, step) && (CopyDone(s.jobs[id].pc) ==> IsCopied(s.disk, s.pid, id, s.jobs[id]))
    ensures var e := EffectOf(s, id, step);
            e.job.Some? && CopyDone(e.job.value.pc) ==> IsCopied(e.disk, s.pid, id, e.job.value)
  {
    hide OtherAt, HashOf;
  }

  /** The copy of an ingest is the one it had, or the new one it begins, which nobody else has. */
  lemma StepTemp(s: Sys, id: nat, step: Step)
    requires StepEnabled(s, id, step) && EffectOf(s, id, step).job.Some?
    ensures var job := EffectOf(s, id, step).job.value;
            TempOf(s.pid, job).Some? ==>
              || TempOf(s.pid, job) == TempOf(s.pid, s.jobs[id])
              || forall k | k in s.jobs :: TempOf(s.pid, s.jobs[k]) != TempOf(s.pid, job)
  {
    hide OtherAt, HashOf;
  }

  lemma StepKeepsWhole(s: Sys, id: nat, step: Step)
    requires Whole(s) && StepEnabled(s, id, step)
    ensures Whole(DoStep(s, id, step))
  {
    var t := DoStep(s, id, step);
    hide EffectOf, StepEnabled;
    StepCopiesWhole(s, id, step);
    if EffectOf(s, id, step).job.Some? {
      StepTemp(s, id, step);
    }
    forall k | k in t.jobs && CopyDone(t.jobs[k].pc)
      ensures IsCopied(t.disk, t.pid, k, t.jobs[k])
    {
      if k != id {
        StepSparesCopy(s, id, step, k);
      }
    }
  }

  // --- all events ---------------------------------------------------------------

  lemma EventKeepsWhole(s: Sys, e: Event)
    requires Whole(s) && Enabled(s, e)
    ensures Whole(Do(s, e))
  {
    if e.Advance? {
      hide StepEnabled, EffectOf, DoStep, Whole;
      StepKeepsWhole(s, e.id, e.step);
    } else {
      var t := Do(s, e);
      forall k | k in t.jobs && CopyDone(t.jobs[k].pc)
        ensures IsCopied(t.disk, t.pid, k, t.jobs[k])
      {
        assert IsCopied(s.disk, s.pid, k, s.jobs[k]);
      }
    }
  }

  /** The only events that make or change a file below `originals/` are such steps. */
  lemma EventWritesWhole(s: Sys, e: Event, rel: string)
    requires Whole(s) && Enabled(s, e) && Library(rel) in Do(s, e).disk && !SameAt(s, Do(s, e), Library(rel))
    ensures e.Advance?
    ensures var c := Do(s, e).disk[Library(rel)];
            (e.step.Reserve? && c == []) || (!e.step.Reserve? && Holds(s.disk, Incoming(e.id), c))
  {
    hide EffectOf, StepEnabled, Whole;
    if e.Advance? {
      StepWritesWhole(s, e.id, e.step, rel);
    }
  }

  // --- runs -----------------------------------------------------------------------

  /** The content of a file that waited at the start or was delivered during the run. */
  ghost predicate Delivered(s: Sys, run: seq<Event>, content: Bytes) {
    || (exists id :: Holds(s.disk, Incoming(id), content))
    || (exists i :: 0 <= i < |run| && IsDelivery(run[i], content))
  }

  predicate IsDelivery(e: Event, content: Bytes) {
    e.Deliver? && e.content == content
  }

  lemma DeliveredBefore(s: Sys, e: Event, run: seq<Event>, content: Bytes)
    requires Enabled(s, e) && Delivered(Do(s, e), run, content)
    ensures Delivered(s, [e] + run, content)
  {
    if id :| Holds(Do(s, e).disk, Incoming(id), content) {
      IncomingComesByDelivery(s, e, id, content);
      assert ([e] + run)[0] == e;
    } else {
      var i :| 0 <= i < |run| && IsDelivery(run[i], content);
      assert ([e] + run)[i + 1] == run[i];
    }
  }

  lemma IncomingComesByDelivery(s: Sys, e: Event, id: nat, content: Bytes)
    requires Enabled(s, e) && Holds(Do(s, e).disk, Incoming(id), content)
    ensures Holds(s.disk, Incoming(id), content) || IsDelivery(e, content)
  {
    if e.Advance? {
      StepMakesNoIncoming(s, e.id, e.step, id);
    }
    hide DoStep, StepEnabled;
  }

  lemma StepMakesNoIncoming(s: Sys, id: nat, step: Step, k: nat)
    requires StepEnabled(s, id, step) && Incoming(k) in DoStep(s, id, step).disk
    ensures Holds(s.disk, Incoming(k), DoStep(s, id, step).disk[Incoming(k)])
  {
    hide OtherAt, HashOf, TempOf;
  }

  /** What is below `originals/` after a run is empty, or was there before, or is a complete delivered file. */
  lemma {:induction false} NamesAreWhole(s: Sys, run: seq<Event>, rel: string)
    requires Whole(s) && Feasible(s, run) && Library(rel) in After(s, run).disk
    ensures var c := After(s, run).disk[Library(rel)];
            c == [] || Holds(s.disk, Library(rel), c) || Delivered(s, run, c)
    decreases |run|
  {
    if run != [] {
      var t := Do(s, run[0]);
      var c := After(s, run).disk[Library(rel)];
      EventKeepsWhole(s, run[0]);
      NamesAreWhole(t, run[1..], rel);
      assert [run[0]] + run[1..] == run;
      if Delivered(t, run[1..], c) {
        hide Do, Delivered;
        DeliveredBefore(s, run[0], run[1..], c);
      } else if Holds(t.disk, Library(rel), c) && c != [] && !Holds(s.disk, Library(rel), c) {
        hide Do, Delivered, Whole;
        EventWritesWhole(s, run[0], rel);
        ComesFromWaiting(s, run, run[0].id, c);
      }
    }
  }

  lemma ComesFromWaiting(s: Sys, run: seq<Event>, id: nat, content: Bytes)
    requires Holds(s.disk, Incoming(id), content)
    ensures Delivered(s, run, content)
  {
  }
}
