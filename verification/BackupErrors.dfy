/** Ingest errors and deliveries: an error removes the staged file, so what counts is the first try after each
    delivery. */
module BackupErrors {
  import opened LibraryStore
  import opened Backup
  import opened BackupRuns
  import opened BackupDeliveries

  predicate Redelivers(e: Event, n: Name) {
    e.Upload? && e.n == n
  }

  /** The blob store has the item's bytes when a commit comes to it. */
  predicate StoreYields(e: Event, n: Name) {
    e.CommitItem? && e.n == n && (e.env.exported.Some? || e.env.fetched.Some?)
  }

  /** The bytes come from nowhere but deliveries of the item. */
  ghost predicate OnlyDelivered(s: Sys, run: seq<Event>, n: Name)
    requires n.Spelled? && Feasible(s, run)
    decreases |run|
  {
    run != [] ==>
      && !StoreYields(run[0], n) && !BringsOther(s, run[0], n)
      && OnlyDelivered(Do(s, run[0]), run[1..], n)
  }

  /** The first event that takes the item up has no ingest error. */
  predicate FirstTryWorks(run: seq<Event>, n: Name) {
    run != [] && if TakesUp(run[0], n) then !run[0].env.ingestError else FirstTryWorks(run[1..], n)
  }

  /** Some delivery gets through: the first event that takes the item up after it, and before any other, has no
      ingest error. `there`: one waits in staging. */
  predicate GetsThrough(run: seq<Event>, n: Name, there: bool) {
    run != [] &&
    var e := run[0];
    if TakesUp(e, n) then (there && !e.env.ingestError) || GetsThrough(run[1..], n, false)
    else GetsThrough(run[1..], n, there || Redelivers(e, n))
  }

  predicate Staged(shelf: Shelf, n: Name) {
    n.Spelled? && n in shelf.staging && HashOf(shelf.staging[n]) == n.hash
  }

  predicate Absent(shelf: Shelf, n: Name) {
    n.Spelled? && n !in shelf.staging
  }

  lemma IngestTries(shelf: Shelf, m: Name, env: Env, n: Name)
    requires m in shelf.staging && n.Spelled? && n.hash !in shelf.index
    ensures var t := IngestOne(shelf, m, env).0;
            && (m == n ==> n !in t.staging)
            && (m != n ==> (n in shelf.staging <==> n in t.staging) && (n in t.staging ==> t.staging[n] == shelf.staging[n]))
            && (n.hash in t.index <==> HashOf(shelf.staging[m]) == n.hash && !env.ingestError)
  {
  }

  lemma CommitTries(shelf: Shelf, provider: bool, n: Name, env: Env)
    requires Honest(env, n) && n.Spelled? && n.hash !in shelf.index && (Staged(shelf, n) || Absent(shelf, n))
    requires env.exported.None? && env.fetched.None?
    ensures var t := BringIn(shelf, provider, n, env).0;
            n !in t.staging && (n.hash in t.index <==> n in shelf.staging && !env.ingestError)
  {
  }

  lemma CommitPassesOther(shelf: Shelf, provider: bool, m: Name, env: Env, n: Name)
    requires Honest(env, m) && m != n && n.Spelled? && n.hash !in shelf.index
    ensures var (t, v) := BringIn(shelf, provider, m, env);
            && (n in shelf.staging <==> n in t.staging) && (n in t.staging ==> t.staging[n] == shelf.staging[n])
            && (n.hash in t.index <==> m.Spelled? && m.hash == n.hash && v.Counted?)
  {
  }

  /** One event, for an item that is not indexed. */
  lemma EventTries(s: Sys, e: Event, n: Name)
    requires Enabled(s, e) && !StoreYields(e, n) && (Staged(s.shelf, n) || Absent(s.shelf, n)) && n.hash !in s.shelf.index
    requires !BringsOther(s, e, n)
    ensures var t := Do(s, e).shelf;
            && (n.hash in t.index <==> TakesUp(e, n) && n in s.shelf.staging && !e.env.ingestError)
            && (if TakesUp(e, n) then Absent(t, n)
                else if n in s.shelf.staging || Redelivers(e, n) then Staged(t, n) else Absent(t, n))
  {
    hide Do, IngestOne, BringIn;
    ShelfAfter(s, e);
    match e {
      case TakeIn(_, m, env) => IngestTries(s.shelf, m, env, n);
      case CommitItem(c, m, env) =>
        if m == n {
          CommitTries(s.shelf, s.commits[c].provider, n, env);
        } else {
          CommitPassesOther(s.shelf, s.commits[c].provider, m, env, n);
        }
      case _ =>
    }
  }

  lemma EventKeepsIndex(s: Sys, e: Event)
    requires Enabled(s, e)
    ensures s.shelf.index <= Do(s, e).shelf.index
  {
    hide Do;
    ShelfAfter(s, e);
  }

  lemma {:induction false} RunKeepsIndex(s: Sys, run: seq<Event>)
    requires Feasible(s, run)
    ensures s.shelf.index <= After(s, run).shelf.index
    decreases |run|
  {
    if run != [] {
      EventKeepsIndex(s, run[0]);
      hide Do;
      RunKeepsIndex(Do(s, run[0]), run[1..]);
    }
  }

  /** Over every run, with errors and new deliveries anywhere: an item whose bytes come only from its deliveries is
      indexed later if and only if it was before, or the first try after some delivery does not fail. */
  lemma {:induction false} IndexedExactlyWhenSomeTryWorks(s: Sys, run: seq<Event>, n: Name)
    requires (Staged(s.shelf, n) || Absent(s.shelf, n)) && Feasible(s, run) && OnlyDelivered(s, run, n)
    requires n.hash !in s.shelf.index
    ensures n.hash in After(s, run).shelf.index <==> GetsThrough(run, n, n in s.shelf.staging)
    decreases |run|
  {
    if run != [] {
      var t := Do(s, run[0]);
      EventTries(s, run[0], n);
      hide Do, Staged, Absent, BringsOther, TakesUp;
      if n.hash in t.shelf.index {
        RunKeepsIndex(t, run[1..]);
      } else {
        IndexedExactlyWhenSomeTryWorks(t, run[1..], n);
        assert (n in t.shelf.staging) == (!TakesUp(run[0], n) && (n in s.shelf.staging || Redelivers(run[0], n))) by {
          hide *;
          EventTries(s, run[0], n);
          StagedOrNot(t.shelf, n);
        }
      }
    }
  }

  lemma StagedOrNot(shelf: Shelf, n: Name)
    ensures Staged(shelf, n) ==> n in shelf.staging
    ensures Absent(shelf, n) ==> n !in shelf.staging
  {
  }

  ghost predicate NotRedelivered(run: seq<Event>, n: Name) {
    forall i | 0 <= i < |run| :: !Redelivers(run[i], n)
  }

  lemma {:induction false} OneDeliveryOneTry(run: seq<Event>, n: Name)
    requires NotRedelivered(run, n)
    ensures !GetsThrough(run, n, false)
    ensures GetsThrough(run, n, true) <==> FirstTryWorks(run, n)
    decreases |run|
  {
    if run != [] {
      assert !Redelivers(run[0], n);
      assert NotRedelivered(run[1..], n) by {
        forall i | 0 <= i < |run[1..]|
          ensures !Redelivers(run[1..][i], n)
        {
          assert run[1..][i] == run[i + 1];
        }
      }
      OneDeliveryOneTry(run[1..], n);
    }
  }

  /** A file that waits in staging and is not delivered again is indexed later if and only if the first event that
      takes it up has no ingest error: the error costs the delivery, whatever commits follow. */
  lemma IndexedExactlyWhenFirstTryWorks(s: Sys, run: seq<Event>, n: Name)
    requires Staged(s.shelf, n) && n.hash !in s.shelf.index
    requires Feasible(s, run) && OnlyDelivered(s, run, n) && NotRedelivered(run, n)
    ensures n.hash in After(s, run).shelf.index <==> FirstTryWorks(run, n)
  {
    IndexedExactlyWhenSomeTryWorks(s, run, n);
    OneDeliveryOneTry(run, n);
  }

  // --- the failing family ------------------------------------------------------------------

  /** Announced and delivered. */
  function Waiting(start: Sys, p: Peer, a: Name, content: Bytes): Sys {
    start.(sessions := map[p := Session({a}, false, 0, 0, {}, 0)], owed := {(p, a)},
           shelf := start.shelf.(staging := start.shelf.staging[a := content]))
  }

  /** The staged file is gone and nothing else has changed. */
  function FileGone(start: Sys, p: Peer, a: Name): Sys {
    start.(sessions := map[p := Session({a}, false, 0, 0, {}, 0)],
           shelf := start.shelf.(staging := start.shelf.staging - {a}))
  }

  /** An error while a commit takes in its one item: that commit fails and the session stays, but the file is gone;
      the next commit passes the item over and is accepted, and the session is closed. */
  lemma FailedCommitThenAccepted(start: Sys, p: Peer, a: Name, content: Bytes) returns (run: seq<Event>)
    requires Fresh(start) && p !in start.delivered && a.Spelled? && HashOf(content) == a.hash && a.hash !in start.shelf.index
    ensures run == [Manifest(p, {a}, false), Upload(p, a, content), CommitStart(p, 0), CommitItem(0, a, Failing())]
                   + [CommitStart(p, 0), CommitItem(0, a, NOTHING), CommitEnd(0)]
    ensures Feasible(start, run)
    ensures var t := After(start, run);
            p !in t.sessions && a.hash !in t.shelf.index && a !in t.shelf.staging
  {
    FirstCommitFails(start, p, a, content);
    SecondCommitIsAccepted(FileGone(start, p, a), p, a);
    var first := [Manifest(p, {a}, false), Upload(p, a, content), CommitStart(p, 0), CommitItem(0, a, Failing())];
    var second := [CommitStart(p, 0), CommitItem(0, a, NOTHING), CommitEnd(0)];
    hide Do, Enabled, FileGone;
    Join(start, first, second);
    run := first + second;
  }

  lemma {:induction false} Join(s: Sys, first: seq<Event>, second: seq<Event>)
    requires Feasible(s, first) && Feasible(After(s, first), second)
    ensures Feasible(s, first + second) && After(s, first + second) == After(After(s, first), second)
    decreases |first|
  {
    if first == [] {
      assert first + second == second;
    } else {
      hide Do;
      Join(Do(s, first[0]), first[1..], second);
      assert first + second == [first[0]] + (first[1..] + second);
      Prepend(s, first[0], first[1..] + second);
    }
  }

  lemma ItIsDelivered(start: Sys, p: Peer, a: Name, content: Bytes)
    requires Fresh(start) && a.Spelled? && HashOf(content) == a.hash
    ensures var run := [Manifest(p, {a}, false), Upload(p, a, content)];
            Feasible(start, run) && After(start, run) == Waiting(start, p, a, content)
  {
    var (e1, e2) := (Manifest(p, {a}, false), Upload(p, a, content));
    assert {} + {a} == {a};
    var s1 := Do(start, e1);
    assert s1.sessions == map[p := Session({a}, false, 0, 0, {}, 0)];
    var s2 := Do(s1, e2);
    assert s2 == Waiting(start, p, a, content);
    assert After(s2, []) == s2;
    hide Do, Waiting;
    Prepend(s1, e2, []);
    Prepend(start, e1, [e2] + []);
    assert [e1] + ([e2] + []) == [e1, e2];
  }

  lemma ItFails(start: Sys, p: Peer, a: Name, content: Bytes)
    requires Fresh(start) && a.Spelled? && HashOf(content) == a.hash && a.hash !in start.shelf.index
    ensures var s, run := Waiting(start, p, a, content), [CommitStart(p, 0), CommitItem(0, a, Failing())];
            Feasible(s, run) && After(s, run) == FileGone(start, p, a)
  {
    var s := Waiting(start, p, a, content);
    var (e3, e4) := (CommitStart(p, 0), CommitItem(0, a, Failing()));
    var s3 := Do(s, e3);
    assert {a} - {} == {a};
    assert s3.commits[0].todo == {a};
    assert BringIn(s3.shelf, false, a, Failing()) == (Shelf(s.shelf.staging - {a}, s.shelf.index), Failed);
    assert s.shelf.staging - {a} == start.shelf.staging - {a};
    assert Forgive({(p, a)}, a) == {};
    assert s3.commits - {0} == map[];
    var s4 := Do(s3, e4);
    assert s4 == FileGone(start, p, a);
    assert After(s4, []) == s4;
    hide Do, Waiting, FileGone;
    Prepend(s3, e4, []);
    Prepend(s, e3, [e4] + []);
    assert [e3] + ([e4] + []) == [e3, e4];
  }

  lemma FirstCommitFails(start: Sys, p: Peer, a: Name, content: Bytes)
    requires Fresh(start) && a.Spelled? && HashOf(content) == a.hash && a.hash !in start.shelf.index
    ensures var run := [Manifest(p, {a}, false), Upload(p, a, content), CommitStart(p, 0), CommitItem(0, a, Failing())];
            Feasible(start, run) && After(start, run) == FileGone(start, p, a)
  {
    ItIsDelivered(start, p, a, content);
    ItFails(start, p, a, content);
    hide Do, Enabled, Waiting, FileGone;
    Join(start, [Manifest(p, {a}, false), Upload(p, a, content)], [CommitStart(p, 0), CommitItem(0, a, Failing())]);
  }

  lemma SecondCommitIsAccepted(s: Sys, p: Peer, a: Name)
    requires p in s.sessions && s.sessions[p] == Session({a}, false, 0, 0, {}, 0) && s.commits == map[] && p !in s.delivered
    requires a.Spelled? && a.hash !in s.shelf.index && a !in s.shelf.staging
    ensures var run := [CommitStart(p, 0), CommitItem(0, a, NOTHING), CommitEnd(0)];
            && Feasible(s, run)
            && var t := After(s, run); p !in t.sessions && a.hash !in t.shelf.index && a !in t.shelf.staging
  {
    var (e1, e2, e3) := (CommitStart(p, 0), CommitItem(0, a, NOTHING), CommitEnd(0));
    assert {a} - {} == {a};
    var s1 := Do(s, e1);
    assert s1.commits == map[0 := Commit(p, {a}, false, 0, 0, 0, 0, 1, 0, {a})];
    assert BringIn(s1.shelf, false, a, NOTHING) == (s.shelf, Skipped);
    assert {a} - {a} == {};
    var s2 := Do(s1, e2);
    assert s2.commits == map[0 := Commit(p, {}, false, 0, 0, 1, 0, 1, 0, {a})];
    var s3 := Do(s2, e3);
    assert After(s3, []) == s3;
    hide Do;
    Prepend(s2, e3, []);
    Prepend(s1, e2, [e3] + []);
    Prepend(s, e1, [e2] + ([e3] + []));
    assert [e1] + ([e2] + ([e3] + [])) == [e1, e2, e3];
  }
}
