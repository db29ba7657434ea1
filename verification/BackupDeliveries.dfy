/** Deliveries and the commit that runs beside them: which files that arrive are in the index when a commit of
    their device ends. */
module BackupDeliveries {
  import opened LibraryStore
  import opened Backup
  import opened BackupRuns

  /** The event deals with the item of that name: an upload is taken in, or a commit comes to it. */
  predicate TakesUp(e: Event, n: Name) {
    (e.TakeIn? || e.CommitItem?) && e.n == n
  }

  /** The event brings the same bytes in under another name. */
  predicate BringsOther(s: Sys, e: Event, n: Name)
    requires n.Spelled? && Enabled(s, e)
  {
    match e
    case TakeIn(_, m, env) => m != n && HashOf(s.shelf.staging[m]) == n.hash && !env.ingestError
    case CommitItem(c, m, env) =>
      m != n && m.Spelled? && m.hash == n.hash && BringIn(s.shelf, s.commits[c].provider, m, env).1.Counted?
    case _ => false
  }

  /** When the item comes up, its ingest does not fail. */
  predicate Smooth(e: Event, n: Name) {
    TakesUp(e, n) ==> !e.env.ingestError
  }

  ghost predicate SmoothRun(run: seq<Event>, n: Name) {
    forall i | 0 <= i < |run| :: Smooth(run[i], n)
  }

  ghost predicate ComesUp(s: Sys, run: seq<Event>, n: Name)
    requires n.Spelled? && Feasible(s, run)
    decreases |run|
  {
    run != [] && (TakesUp(run[0], n) || BringsOther(s, run[0], n) || ComesUp(Do(s, run[0]), run[1..], n))
  }

  /** What an event does to the shelf. */
  lemma ShelfAfter(s: Sys, e: Event)
    requires Enabled(s, e)
    ensures Do(s, e).shelf == match e
                              case Upload(_, m, content) => s.shelf.(staging := s.shelf.staging[m := content])
                              case TakeIn(_, m, env) => IngestOne(s.shelf, m, env).0
                              case CommitItem(c, m, env) => BringIn(s.shelf, s.commits[c].provider, m, env).0
                              case _ => s.shelf
  {
    hide IngestOne, BringIn, Settled, Owes, Forgive, Released, Honest;
  }

  lemma IngestIndexesExactlyWhen(shelf: Shelf, m: Name, env: Env, n: Name)
    requires m in shelf.staging && Reachable(shelf, n) && (m == n ==> !env.ingestError)
    ensures var t := IngestOne(shelf, m, env).0;
            && Reachable(t, n)
            && (n.hash in t.index <==> n.hash in shelf.index || m == n || (HashOf(shelf.staging[m]) == n.hash && !env.ingestError))
  {
  }

  lemma BringInIndexesExactlyWhen(shelf: Shelf, provider: bool, m: Name, env: Env, n: Name)
    requires Honest(env, m) && Reachable(shelf, n) && (m == n ==> !env.ingestError)
    ensures var (t, v) := BringIn(shelf, provider, m, env);
            && Reachable(t, n)
            && (n.hash in t.index <==> n.hash in shelf.index || m == n || (m.Spelled? && m.hash == n.hash && v.Counted?))
  {
  }

  lemma EventIndexesExactlyWhen(s: Sys, e: Event, n: Name)
    requires Enabled(s, e) && Reachable(s.shelf, n) && Smooth(e, n)
    ensures n.hash in Do(s, e).shelf.index <==> n.hash in s.shelf.index || TakesUp(e, n) || BringsOther(s, e, n)
    ensures Reachable(Do(s, e).shelf, n)
  {
    hide Do, IngestOne, BringIn;
    ShelfAfter(s, e);
    match e {
      case TakeIn(_, m, env) => IngestIndexesExactlyWhen(s.shelf, m, env, n);
      case CommitItem(c, m, env) => BringInIndexesExactlyWhen(s.shelf, s.commits[c].provider, m, env, n);
      case _ =>
    }
  }

  /** Over every run: what has arrived in staging is in the index later if and only if it was there before, or its
      item has come up since (or the same bytes under another name). */
  lemma {:induction false} IndexedExactlyWhenComesUp(s: Sys, run: seq<Event>, n: Name)
    requires Reachable(s.shelf, n) && Feasible(s, run) && SmoothRun(run, n)
    ensures n.hash in After(s, run).shelf.index <==> n.hash in s.shelf.index || ComesUp(s, run, n)
    decreases |run|
  {
    if run != [] {
      assert Smooth(run[0], n);
      EventIndexesExactlyWhen(s, run[0], n);
      hide Do, Reachable, TakesUp, BringsOther, Smooth;
      assert forall i | 0 <= i < |run[1..]| :: Smooth(run[1..][i], n) by {
        forall i | 0 <= i < |run[1..]|
          ensures Smooth(run[1..][i], n)
        {
          assert run[1..][i] == run[i + 1];
        }
      }
      IndexedExactlyWhenComesUp(Do(s, run[0]), run[1..], n);
    }
  }

  // --- a delivery while a commit of its device runs ------------------------------------------

  predicate CommitTakes(e: Event, c: nat, n: Name) {
    e.CommitItem? && e.c == c && e.n == n
  }

  ghost predicate CommitTakesIn(run: seq<Event>, c: nat, n: Name) {
    exists i :: 0 <= i < |run| && CommitTakes(run[i], c, n)
  }

  /** No other commit starts under that number. */
  ghost predicate SameCommit(run: seq<Event>, c: nat) {
    forall i | 0 <= i < |run| :: run[i].CommitStart? ==> run[i].c != c
  }

  /** Somebody else than that commit takes the item up, or brings its bytes in. */
  ghost predicate OtherwiseUp(s: Sys, run: seq<Event>, c: nat, n: Name)
    requires n.Spelled? && Feasible(s, run)
    decreases |run|
  {
    run != [] && (
      || (TakesUp(run[0], n) && !CommitTakes(run[0], c, n))
      || BringsOther(s, run[0], n)
      || OtherwiseUp(Do(s, run[0]), run[1..], c, n))
  }

  lemma HeadOrTail(run: seq<Event>, c: nat, n: Name)
    requires run != []
    ensures CommitTakesIn(run, c, n) <==> CommitTakes(run[0], c, n) || CommitTakesIn(run[1..], c, n)
  {
    if i :| 0 <= i < |run| && CommitTakes(run[i], c, n) {
      assert i > 0 ==> run[1..][i - 1] == run[i];
    }
    if i :| 0 <= i < |run[1..]| && CommitTakes(run[1..][i], c, n) {
      assert run[i + 1] == run[1..][i];
    }
  }

  lemma {:induction false} ComesUpSplits(s: Sys, run: seq<Event>, c: nat, n: Name)
    requires n.Spelled? && Feasible(s, run)
    ensures ComesUp(s, run, n) <==> OtherwiseUp(s, run, c, n) || CommitTakesIn(run, c, n)
    decreases |run|
  {
    if run != [] {
      HeadOrTail(run, c, n);
      hide Do, BringsOther, CommitTakesIn;
      ComesUpSplits(Do(s, run[0]), run[1..], c, n);
    }
  }

  /** A commit comes to exactly the items it has left. */
  lemma {:induction false} CommitComesToWhatIsLeft(s: Sys, run: seq<Event>, c: nat, n: Name)
    requires Feasible(s, run) && SameCommit(run, c) && c in After(s, run).commits
    ensures c in s.commits
    ensures CommitTakesIn(run, c, n) <==> n in s.commits[c].todo && n !in After(s, run).commits[c].todo
    decreases |run|
  {
    if run != [] {
      HeadOrTail(run, c, n);
      var t := Do(s, run[0]);
      assert SameCommit(run[1..], c) by {
        forall i | 0 <= i < |run[1..]|
          ensures run[1..][i].CommitStart? ==> run[1..][i].c != c
        {
          assert run[1..][i] == run[i + 1];
        }
      }
      CommitComesToWhatIsLeft(t, run[1..], c, n);
      LeftAfterEvent(s, run[0], c, n);
      LeftShrinks(t, run[1..], c, n);
    }
  }

  lemma LeftAfterEvent(s: Sys, e: Event, c: nat, n: Name)
    requires Enabled(s, e) && (e.CommitStart? ==> e.c != c) && c in Do(s, e).commits
    ensures c in s.commits
    ensures n in Do(s, e).commits[c].todo <==> n in s.commits[c].todo && !CommitTakes(e, c, n)
    ensures CommitTakes(e, c, n) ==> n in s.commits[c].todo
  {
    hide BringIn, IngestOne, Settled, Owes;
  }

  lemma {:induction false} LeftShrinks(s: Sys, run: seq<Event>, c: nat, n: Name)
    requires Feasible(s, run) && SameCommit(run, c) && c in After(s, run).commits
    ensures c in s.commits && (n in After(s, run).commits[c].todo ==> n in s.commits[c].todo)
    decreases |run|
  {
    if run != [] {
      assert SameCommit(run[1..], c) by {
        forall i | 0 <= i < |run[1..]|
          ensures run[1..][i].CommitStart? ==> run[1..][i].c != c
        {
          assert run[1..][i] == run[i + 1];
        }
      }
      LeftShrinks(Do(s, run[0]), run[1..], c, n);
      LeftAfterEvent(s, run[0], c, n);
    }
  }

  /** A file that arrives while a commit of its device runs is in the index at the end of that commit if and only
      if its bytes were there already, or the commit has not come to its item yet, or somebody else brings it in.
      The only thing presumed is that its own ingest does not fail. */
  lemma DeliveryDuringCommitIsIndexedExactlyWhen(s: Sys, p: Peer, c: nat, n: Name, content: Bytes, run: seq<Event>)
    requires Enabled(s, Upload(p, n, content)) && c in s.commits && s.commits[c].p == p
    requires Feasible(Do(s, Upload(p, n, content)), run) && SameCommit(run, c) && SmoothRun(run, n)
    requires Enabled(After(Do(s, Upload(p, n, content)), run), CommitEnd(c))
    ensures var t := Do(s, Upload(p, n, content));
            n.hash in After(t, run).shelf.index
            <==> n.hash in s.shelf.index || n in s.commits[c].todo || OtherwiseUp(t, run, c, n)
  {
    var t := Do(s, Upload(p, n, content));
    assert Reachable(t.shelf, n) && t.shelf.index == s.shelf.index && t.commits == s.commits;
    IndexedExactlyWhenComesUp(t, run, n);
    ComesUpSplits(t, run, c, n);
    hide SameCommit, SmoothRun, CommitTakesIn, ComesUp, OtherwiseUp, Reachable;
    CommitComesToWhatIsLeft(t, run, c, n);
  }

  // --- the failing family ------------------------------------------------------------------------

  /** A run that loses a delivery without any error: announced, passed over by the commit as a ghost, and only
      then delivered. The commit ends well and takes the session and the delivery's book entry with it. */
  lemma DeliveryBehindItsItemIsLost(start: Sys, p: Peer, a: Name, content: Bytes) returns (run: seq<Event>)
    requires Fresh(start) && p !in start.delivered && Ghost(start.shelf, false, a, NOTHING) && HashOf(content) == a.hash
    ensures run == [Manifest(p, {a}, false), CommitStart(p, 0), CommitItem(0, a, NOTHING), NoteDelivered(p), Upload(p, a, content), CommitEnd(0)]
    ensures Feasible(start, run)
    ensures var t := After(start, run);
            && p !in t.sessions && p !in t.delivered && a.hash !in t.shelf.index
            && a in t.shelf.staging && HashOf(t.shelf.staging[a]) == a.hash
  {
    var (e1, e2, e3) := (Manifest(p, {a}, false), CommitStart(p, 0), CommitItem(0, a, NOTHING));
    var t := PassedOver(start, p, a);
    var rest := DeliveredTooLate(t, p, a, content);
    var s1 := Do(start, e1);
    var s2 := Do(s1, e2);
    hide Do, Enabled, Ghost;
    Prepend(s2, e3, rest);
    Prepend(s1, e2, [e3] + rest);
    Prepend(start, e1, [e2] + ([e3] + rest));
    run := [e1] + ([e2] + ([e3] + rest));
  }

  lemma DeliveredTooLate(s: Sys, p: Peer, a: Name, content: Bytes) returns (run: seq<Event>)
    requires a.Spelled? && a.hash !in s.shelf.index && HashOf(content) == a.hash
    requires s.commits == map[0 := Commit(p, {}, false, 0, 0, 1, 0, 1, 0, {a})] && p in s.sessions
    ensures run == [NoteDelivered(p), Upload(p, a, content), CommitEnd(0)] && Feasible(s, run)
    ensures var t := After(s, run);
            && p !in t.sessions && p !in t.delivered && a.hash !in t.shelf.index
            && a in t.shelf.staging && HashOf(t.shelf.staging[a]) == a.hash
  {
    var (e4, e5, e6) := (NoteDelivered(p), Upload(p, a, content), CommitEnd(0));
    var s5 := Do(Do(s, e4), e5);
    assert s5.commits == s.commits && !Refuses(s5.commits[0]);
    var s6 := Do(s5, e6);
    assert After(s6, []) == s6;
    Prepend(s5, e6, []);
    hide Owes, Refuses;
    Prepend(Do(s, e4), e5, [e6] + []);
    Prepend(s, e4, [e5] + ([e6] + []));
    run := [e4] + ([e5] + ([e6] + []));
  }

  lemma PassedOver(start: Sys, p: Peer, a: Name) returns (t: Sys)
    requires Fresh(start) && p !in start.delivered && Ghost(start.shelf, false, a, NOTHING)
    ensures Enabled(start, Manifest(p, {a}, false))
    ensures var s1 := Do(start, Manifest(p, {a}, false));
            && Enabled(s1, CommitStart(p, 0))
            && var s2 := Do(s1, CommitStart(p, 0));
               && Enabled(s2, CommitItem(0, a, NOTHING))
               && t == Do(s2, CommitItem(0, a, NOTHING))
    ensures t.commits == map[0 := Commit(p, {}, false, 0, 0, 1, 0, 1, 0, {a})] && p in t.sessions
    ensures t.shelf.index == start.shelf.index && t.delivered == start.delivered
  {
    var s1 := Do(start, Manifest(p, {a}, false));
    var session := s1.sessions[p];
    assert session.items == {a} && session.items - session.settled == {a};
    var s2 := Do(s1, CommitStart(p, 0));
    assert s2.commits == map[0 := Commit(p, {a}, false, 0, 0, 0, 0, 1, 0, {a})];
    t := Do(s2, CommitItem(0, a, NOTHING));
    assert {a} - {a} == {};
    assert BringIn(s2.shelf, false, a, NOTHING).1 == Skipped;
  }
}
