/** The books of backup sessions over whole runs: how many photos a commit says it has dealt with. */
module BackupBooks {
  import opened LibraryStore
  import opened Backup
  import opened BackupRuns
  import opened BackupDeliveries

  function Total(t: Session): nat {
    t.ingested + t.duplicates
  }

  /** One count for every settled item. */
  predicate Even(t: Session) {
    Total(t) == |t.settled|
  }

  ghost predicate AllEven(s: Sys) {
    forall p | p in s.sessions :: Even(s.sessions[p])
  }

  /** A booking of an item that the session has settled before. */
  predicate BooksTwice(s: Sys, e: Event) {
    e.Book? && e.p in s.sessions && e.n in s.sessions[e.p].settled
  }

  lemma EventIsEvenExactlyWhen(s: Sys, e: Event)
    requires Enabled(s, e) && AllEven(s)
    ensures AllEven(Do(s, e)) <==> !BooksTwice(s, e)
  {
    hide Settled, BringIn, IngestOne, Owes, Forgive, Released, Honest, Refuses;
    var t := Do(s, e);
    if e.Book? && e.p in s.sessions {
      assert t.sessions == s.sessions[e.p := Settled(s.sessions[e.p], e.n, e.isNew, 0)];
      assert Even(s.sessions[e.p]);
      SettledCountsOnceExactlyWhenNew(s.sessions[e.p], e.n, e.isNew, 0);
      if !BooksTwice(s, e) {
        forall p | p in t.sessions
          ensures Even(t.sessions[p])
        {
          assert p != e.p ==> Even(s.sessions[p]);
        }
      } else {
        assert !Even(t.sessions[e.p]);
      }
    } else {
      forall p | p in t.sessions
        ensures Even(t.sessions[p])
      {
        assert p in s.sessions ==> Even(s.sessions[p]);
      }
    }
  }

  ghost predicate EvenThroughout(s: Sys, run: seq<Event>)
    requires Feasible(s, run)
    decreases |run|
  {
    AllEven(s) && (run != [] ==> EvenThroughout(Do(s, run[0]), run[1..]))
  }

  ghost predicate BooksOnce(s: Sys, run: seq<Event>)
    requires Feasible(s, run)
    decreases |run|
  {
    run != [] ==> !BooksTwice(s, run[0]) && BooksOnce(Do(s, run[0]), run[1..])
  }

  /** Over every run: each session counts every settled item once all along if and only if no booking hits an item
      that was settled before. */
  lemma {:induction false} EvenExactlyWhenBookedOnce(s: Sys, run: seq<Event>)
    requires AllEven(s) && Feasible(s, run)
    ensures EvenThroughout(s, run) <==> BooksOnce(s, run)
    decreases |run|
  {
    if run != [] {
      EventIsEvenExactlyWhen(s, run[0]);
      hide Do, AllEven, BooksTwice;
      if AllEven(Do(s, run[0])) {
        EvenExactlyWhenBookedOnce(Do(s, run[0]), run[1..]);
      }
    }
  }

  /** Besides, nothing is settled that was not announced. */
  predicate Balanced(t: Session) {
    Even(t) && t.settled <= t.items
  }

  ghost predicate AllBalanced(s: Sys) {
    forall p | p in s.sessions :: Balanced(s.sessions[p])
  }

  /** A booking of an item that the session does not know, or that it has settled before. */
  predicate Misbooks(s: Sys, e: Event) {
    e.Book? && e.p in s.sessions && (e.n !in s.sessions[e.p].items || e.n in s.sessions[e.p].settled)
  }

  lemma BookingBalancesExactlyWhenNew(t: Session, n: Name, isNew: bool)
    requires Balanced(t)
    ensures Balanced(Settled(t, n, isNew, 0)) <==> n in t.items && n !in t.settled
  {
    SettledCountsOnceExactlyWhenNew(t, n, isNew, 0);
  }

  lemma EventBalancesExactlyWhen(s: Sys, e: Event)
    requires Enabled(s, e) && AllBalanced(s)
    ensures AllBalanced(Do(s, e)) <==> !Misbooks(s, e)
  {
    hide Settled, BringIn, IngestOne, Owes, Forgive, Released, Honest, Refuses;
    var t := Do(s, e);
    if e.Book? && e.p in s.sessions {
      assert t.sessions == s.sessions[e.p := Settled(s.sessions[e.p], e.n, e.isNew, 0)];
      assert Balanced(s.sessions[e.p]);
      BookingBalancesExactlyWhenNew(s.sessions[e.p], e.n, e.isNew);
      if !Misbooks(s, e) {
        forall p | p in t.sessions
          ensures Balanced(t.sessions[p])
        {
          assert p != e.p ==> Balanced(s.sessions[p]);
        }
      } else {
        assert !Balanced(t.sessions[e.p]);
      }
    } else {
      forall p | p in t.sessions
        ensures Balanced(t.sessions[p])
      {
        assert p in s.sessions ==> Balanced(s.sessions[p]);
      }
    }
  }

  ghost predicate BalancedThroughout(s: Sys, run: seq<Event>)
    requires Feasible(s, run)
    decreases |run|
  {
    AllBalanced(s) && (run != [] ==> BalancedThroughout(Do(s, run[0]), run[1..]))
  }

  ghost predicate BooksWell(s: Sys, run: seq<Event>)
    requires Feasible(s, run)
    decreases |run|
  {
    run != [] ==> !Misbooks(s, run[0]) && BooksWell(Do(s, run[0]), run[1..])
  }

  /** Over every run: each session has one count for each settled item all along if and only if no booking hits an
      item that was settled before or never announced. */
  lemma {:induction false} BalancedExactlyWhenBookedWell(s: Sys, run: seq<Event>)
    requires AllBalanced(s) && Feasible(s, run)
    ensures BalancedThroughout(s, run) <==> BooksWell(s, run)
    decreases |run|
  {
    if run != [] {
      EventBalancesExactlyWhen(s, run[0]);
      hide Do, AllBalanced, Misbooks;
      if AllBalanced(Do(s, run[0])) {
        BalancedExactlyWhenBookedWell(Do(s, run[0]), run[1..]);
      }
    }
  }

  // --- a wrong booking stays -------------------------------------------------------------------

  /** The session counts more than it has settled. */
  predicate Overcounts(t: Session) {
    Total(t) > |t.settled|
  }

  /** The session of the device is closed: an accepted commit ends, or it is dropped. */
  predicate Closes(s: Sys, e: Event, p: Peer)
    requires Enabled(s, e)
  {
    (e.CommitEnd? && s.commits[e.c].p == p && !Refuses(s.commits[e.c])) || e == DropSession(p)
  }

  ghost predicate StaysOpen(s: Sys, run: seq<Event>, p: Peer)
    requires Feasible(s, run)
    decreases |run|
  {
    run != [] ==> !Closes(s, run[0], p) && StaysOpen(Do(s, run[0]), run[1..], p)
  }

  lemma OnceTooManyIsTooMany(t: Session, n: Name, isNew: bool)
    ensures Overcounts(t) ==> Overcounts(Settled(t, n, isNew, 0))
    ensures n in t.settled && Total(t) >= |t.settled| ==> Overcounts(Settled(t, n, isNew, 0))
  {
    if n in t.settled {
      assert t.settled + {n} == t.settled;
    }
  }

  lemma EventKeepsOvercount(s: Sys, e: Event, p: Peer)
    requires Enabled(s, e) && p in s.sessions && Overcounts(s.sessions[p]) && !Closes(s, e, p)
    ensures p in Do(s, e).sessions && Overcounts(Do(s, e).sessions[p])
  {
    hide Settled, BringIn, IngestOne, Owes, Forgive, Released, Refuses;
    if e.Book? && e.p == p {
      OnceTooManyIsTooMany(s.sessions[p], e.n, e.isNew);
    }
  }

  /** The first booking of a settled item breaks the books for good: the session counts too much until it is
      closed. */
  lemma DoubleBookingStays(s: Sys, e: Event, run: seq<Event>)
    requires AllBalanced(s) && Enabled(s, e) && e.Book? && e.p in s.sessions && e.n in s.sessions[e.p].settled
    requires Feasible(Do(s, e), run) && StaysOpen(Do(s, e), run, e.p)
    ensures var t := After(Do(s, e), run); e.p in t.sessions && Overcounts(t.sessions[e.p])
  {
    assert Balanced(s.sessions[e.p]);
    OnceTooManyIsTooMany(s.sessions[e.p], e.n, e.isNew);
    hide Settled;
    OvercountStays(Do(s, e), run, e.p);
  }

  lemma {:induction false} OvercountStays(s: Sys, run: seq<Event>, p: Peer)
    requires Feasible(s, run) && StaysOpen(s, run, p) && p in s.sessions && Overcounts(s.sessions[p])
    ensures p in After(s, run).sessions && Overcounts(After(s, run).sessions[p])
    decreases |run|
  {
    if run != [] {
      EventKeepsOvercount(s, run[0], p);
      hide Do, Overcounts;
      OvercountStays(Do(s, run[0]), run[1..], p);
    }
  }

  // --- what a commit says ------------------------------------------------------------------------

  /** A running commit started with one count, or one item to come, for everything announced. */
  ghost predicate StartedFull(c: Commit) {
    c.base + c.total == |c.announced|
  }

  ghost predicate AllStartedFull(s: Sys) {
    forall c | c in s.commits :: StartedFull(s.commits[c])
  }

  lemma BalancedStartsFull(t: Session)
    requires Balanced(t)
    ensures Total(t) + |t.items - t.settled| == |t.items|
  {
    assert t.settled + (t.items - t.settled) == t.items && t.settled !! t.items - t.settled;
  }

  lemma EventKeepsStartedFull(s: Sys, e: Event)
    requires Enabled(s, e) && AllBalanced(s) && AllStartedFull(s)
    ensures AllStartedFull(Do(s, e))
  {
    hide Settled, BringIn, IngestOne, Owes, Forgive, Released, Balanced;
    var t := Do(s, e);
    if e.CommitStart? && e.p in s.sessions {
      assert Balanced(s.sessions[e.p]);
      BalancedStartsFull(s.sessions[e.p]);
    }
    forall c | c in t.commits
      ensures StartedFull(t.commits[c])
    {
      assert c in s.commits ==> StartedFull(s.commits[c]);
    }
  }

  lemma {:induction false} RunKeepsStartedFull(s: Sys, run: seq<Event>)
    requires Feasible(s, run) && BooksWell(s, run) && AllBalanced(s) && AllStartedFull(s)
    ensures AllStartedFull(After(s, run))
    decreases |run|
  {
    if run != [] {
      EventBalancesExactlyWhen(s, run[0]);
      EventKeepsStartedFull(s, run[0]);
      hide Do, AllBalanced, AllStartedFull, Misbooks;
      RunKeepsStartedFull(Do(s, run[0]), run[1..]);
    }
  }

  /** The total of a commit: from a fresh engine, over every run that books well, what a commit has ingested, found
      to be there, and skipped adds up to the number of items announced when it started. */
  lemma CommitTotalIsWhatWasAnnounced(start: Sys, run: seq<Event>, c: nat)
    requires Fresh(start) && Feasible(start, run) && BooksWell(start, run) && Enabled(After(start, run), CommitEnd(c))
    ensures var commit := After(start, run).commits[c];
            commit.ingested + commit.duplicates + commit.skipped == |commit.announced|
  {
    RunKeeps(start, run);
    RunKeepsStartedFull(start, run);
    var commit := After(start, run).commits[c];
    assert CommitInv(commit) && StartedFull(commit);
  }

  /** The hashes that come into the index while the commit takes an item. */
  ghost function EntersAt(s: Sys, e: Event, c: nat): nat
    requires Enabled(s, e)
  {
    if e.CommitItem? && e.c == c then |Do(s, e).shelf.index - s.shelf.index| else 0
  }

  /** The commit takes an item whose hash is in the index already. */
  function FindsAt(s: Sys, e: Event, c: nat): nat {
    if e.CommitItem? && e.c == c && e.n.Spelled? && e.n.hash in s.shelf.index then 1 else 0
  }

  ghost function Entered(s: Sys, run: seq<Event>, c: nat): nat
    requires Feasible(s, run)
    decreases |run|
  {
    if run == [] then 0 else EntersAt(s, run[0], c) + Entered(Do(s, run[0]), run[1..], c)
  }

  ghost function FoundThere(s: Sys, run: seq<Event>, c: nat): nat
    requires Feasible(s, run)
    decreases |run|
  {
    if run == [] then 0 else FindsAt(s, run[0], c) + FoundThere(Do(s, run[0]), run[1..], c)
  }

  lemma ItemCounts(shelf: Shelf, provider: bool, n: Name, env: Env)
    requires Honest(env, n)
    ensures var (t, v) := BringIn(shelf, provider, n, env);
            && (v == Counted(true) <==> |t.index - shelf.index| == 1)
            && (v != Counted(true) ==> t.index - shelf.index == {})
            && (v == Counted(false) <==> n.Spelled? && n.hash in shelf.index)
  {
    NewExactlyWhenItEnters(shelf, provider, n, env);
    var (t, v) := BringIn(shelf, provider, n, env);
    if v == Counted(true) {
      assert t.index - shelf.index == {n.hash};
    } else {
      assert t.index - shelf.index == {};
    }
  }

  lemma OthersLeaveCommit(s: Sys, e: Event, c: nat)
    requires Enabled(s, e) && c in Do(s, e).commits && (e.CommitStart? || e.CommitItem? ==> e.c != c)
    ensures c in s.commits && Do(s, e).commits[c] == s.commits[c]
  {
    hide BringIn, IngestOne, Settled, Owes, Forgive, Released, Honest, Refuses;
  }

  /** What one item does to the commit's counts. */
  lemma ItemIsCounted(s: Sys, e: Event)
    requires Enabled(s, e) && e.CommitItem? && e.c in Do(s, e).commits
    ensures var v := BringIn(s.shelf, s.commits[e.c].provider, e.n, e.env).1;
            var (before, later) := (s.commits[e.c], Do(s, e).commits[e.c]);
            && Do(s, e).shelf == BringIn(s.shelf, s.commits[e.c].provider, e.n, e.env).0
            && later.ingested == before.ingested + (if v == Counted(true) then 1 else 0)
            && later.duplicates == before.duplicates + (if v == Counted(false) then 1 else 0)
  {
    hide BringIn, IngestOne, Settled, Owes, Forgive, Released, Honest, Refuses;
  }

  lemma EventCounts(s: Sys, e: Event, c: nat)
    requires Enabled(s, e) && c in Do(s, e).commits && (e.CommitStart? ==> e.c != c)
    ensures c in s.commits
    ensures Do(s, e).commits[c].ingested == s.commits[c].ingested + EntersAt(s, e, c)
    ensures Do(s, e).commits[c].duplicates == s.commits[c].duplicates + FindsAt(s, e, c)
  {
    hide BringIn, Do, Honest;
    if e.CommitItem? && e.c == c {
      ItemIsCounted(s, e);
      ItemCounts(s.shelf, s.commits[c].provider, e.n, e.env);
    } else {
      OthersLeaveCommit(s, e, c);
    }
  }

  lemma StaysThere(s: Sys, run: seq<Event>, c: nat)
    requires run != [] && Feasible(s, run) && SameCommit(run, c) && c in After(s, run).commits
    ensures SameCommit(run[1..], c) && (run[0].CommitStart? ==> run[0].c != c)
    ensures c in Do(s, run[0]).commits
  {
    forall i | 0 <= i < |run[1..]|
      ensures run[1..][i].CommitStart? ==> run[1..][i].c != c
    {
      assert run[1..][i] == run[i + 1];
    }
    hide Do;
    LeftShrinks(Do(s, run[0]), run[1..], c, Garbled(""));
  }

  /** Over every run, whatever else happens beside a commit: what it counts as ingested are the hashes that came into
      the index at its own items, one by one, and what it counts as duplicates are its items that were there. */
  lemma {:induction false} CommitCountsWhatItBringsIn(s: Sys, run: seq<Event>, c: nat)
    requires Feasible(s, run) && SameCommit(run, c) && c in After(s, run).commits
    ensures c in s.commits
    ensures After(s, run).commits[c].ingested == s.commits[c].ingested + Entered(s, run, c)
    ensures After(s, run).commits[c].duplicates == s.commits[c].duplicates + FoundThere(s, run, c)
    decreases |run|
  {
    if run != [] {
      StaysThere(s, run, c);
      EventCounts(s, run[0], c);
      hide Do, EntersAt, FindsAt, SameCommit;
      CommitCountsWhatItBringsIn(Do(s, run[0]), run[1..], c);
    }
  }

  /** A delivery that comes twice is booked twice: the failing run, from any state in which the item is settled. */
  lemma SecondDeliveryOvercounts(s: Sys, p: Peer, n: Name, content: Bytes) returns (run: seq<Event>)
    requires AllBalanced(s) && p in s.sessions && n in s.sessions[p].items && n in s.sessions[p].settled
    requires n.Spelled? && HashOf(content) == n.hash && n.hash in s.shelf.index
    ensures run == [NoteDelivered(p), Upload(p, n, content), TakeIn(p, n, NOTHING), Book(p, n, false)] && Feasible(s, run)
    ensures p in After(s, run).sessions && Overcounts(After(s, run).sessions[p])
  {
    var (e1, e2, e3, e4) := (NoteDelivered(p), Upload(p, n, content), TakeIn(p, n, NOTHING), Book(p, n, false));
    hide Settled, Owes;
    var s3 := Do(Do(s, e1), e2);
    assert IngestOne(s3.shelf, n, NOTHING).1 == Counted(false);
    var s4 := Do(s3, e3);
    assert s4.sessions == s.sessions && (p, n, false) in s4.booking;
    var t := Do(s4, e4);
    assert Balanced(s.sessions[p]);
    OnceTooManyIsTooMany(s.sessions[p], n, false);
    assert After(t, []) == t;
    Prepend(s4, e4, []);
    hide Do, Enabled, IngestOne;
    Prepend(s3, e3, [e4] + []);
    Prepend(Do(s, e1), e2, [e3] + ([e4] + []));
    Prepend(s, e1, [e2] + ([e3] + ([e4] + [])));
    run := [e1] + ([e2] + ([e3] + ([e4] + [])));
  }
}
