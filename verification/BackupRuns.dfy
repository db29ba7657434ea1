/** The backup engine over whole runs: any number of devices, calibrations, uploads and commits, several of one
    device at a time included, interleaved between the single items of a commit. */
module BackupRuns {
  import opened LibraryStore
  import opened Backup

  /** A running commit of a device: what is left to bring in, and the books. `total`, `base` and `announced` are the number
      of unsettled items, the session's counts and all its items at the start. */
  datatype Commit = Commit(
    p: Peer, todo: set<Name>, provider: bool, ingested: nat, duplicates: nat, skipped: nat, delivered: nat, total: nat, base: nat,
    announced: set<Name>)

  /** `commits`: by call, a device may have several. `booking`: staged files that were brought in and are not booked yet. `owed`: deliveries that count as kept
      by an accepted commit, see `Owes`. */
  datatype Sys = Sys(
    sessions: map<Peer, Session>, delivered: map<Peer, nat>, shelf: Shelf,
    booking: set<(Peer, Name, bool)>, commits: map<nat, Commit>, owed: set<(Peer, Name)>)

  datatype Event =
    | Begin(p: Peer)
    | Manifest(p: Peer, items: set<Name>, provider: bool)
    | NoteDelivered(p: Peer)
    | Upload(p: Peer, n: Name, content: Bytes)
    | TakeIn(p: Peer, n: Name, env: Env)
    | Book(p: Peer, n: Name, isNew: bool)
    | CommitStart(p: Peer, c: nat)
    | CommitItem(c: nat, n: Name, env: Env)
    | CommitEnd(c: nat)
    | DropSession(p: Peer)

  function SessionOf(s: Sys, p: Peer): Session {
    if p in s.sessions then s.sessions[p] else FreshSession(0)
  }

  /** The upload plane accepts a file only under the name of its hash. */
  predicate Enabled(s: Sys, e: Event) {
    match e
    case Upload(_, n, content) => n.Spelled? && HashOf(content) == n.hash
    case TakeIn(p, n, _) => p in s.sessions && n in s.sessions[p].items && n in s.shelf.staging
    case Book(p, n, isNew) => (p, n, isNew) in s.booking
    case CommitStart(_, c) => c !in s.commits
    case CommitItem(c, n, env) => c in s.commits && n in s.commits[c].todo && Honest(env, n)
    case CommitEnd(c) => c in s.commits && s.commits[c].todo == {}
    case _ => true
  }

  /** The refusal to report success for deliveries of which nothing was counted. */
  predicate Refuses(c: Commit) {
    c.delivered > 0 && c.ingested == 0 && c.duplicates == 0
  }

  predicate Settling(s: Sys, p: Peer, n: Name) {
    (p in s.sessions && n in s.sessions[p].settled) || (p, n, true) in s.booking || (p, n, false) in s.booking
  }

  /** A delivery counts as owed when the device announced it before, no commit of the device has passed it, and
      it has not been settled, all but for what is in the index. */
  predicate Owes(s: Sys, p: Peer, n: Name) {
    && p in s.sessions && n in s.sessions[p].items
    && (forall c | c in s.commits && s.commits[c].p == p :: n in s.commits[c].todo || (n.Spelled? && n.hash in s.shelf.index))
    && (Settling(s, p, n) ==> n.Spelled? && n.hash in s.shelf.index)
  }

  /** An ingest error removes the staged file: whoever delivered it has to deliver it again. */
  function Forgive(owed: set<(Peer, Name)>, n: Name): set<(Peer, Name)> {
    set q | q in owed && q.1 != n
  }

  function Released(owed: set<(Peer, Name)>, p: Peer): set<(Peer, Name)> {
    set q | q in owed && q.0 != p
  }

  function Do(s: Sys, e: Event): Sys
    requires Enabled(s, e)
  {
    match e
    case Begin(p) => s.(sessions := s.sessions[p := SessionOf(s, p)])
    case Manifest(p, items, provider) =>
      var t := SessionOf(s, p);
      s.(sessions := s.sessions[p := t.(items := t.items + items, provider := t.provider || provider)])
    case NoteDelivered(p) =>
      s.(delivered := s.delivered[p := (if p in s.delivered then s.delivered[p] else 0) + 1])
    case Upload(p, n, content) =>
      s.(shelf := s.shelf.(staging := s.shelf.staging[n := content]),
         owed := if Owes(s, p, n) then s.owed + {(p, n)} else s.owed)
    case TakeIn(p, n, env) =>
      var (t, v) := IngestOne(s.shelf, n, env);
      if v.Failed? then s.(shelf := t, owed := Forgive(s.owed, n))
      else s.(shelf := t, booking := s.booking + {(p, n, v.isNew)})
    case Book(p, n, isNew) =>
      s.(booking := s.booking - {(p, n, isNew)},
         sessions := if p in s.sessions then s.sessions[p := Settled(s.sessions[p], n, isNew, 0)] else s.sessions)
    case CommitStart(p, c) =>
      var t := SessionOf(s, p);
      var todo := if p in s.sessions then t.items - t.settled else {};
      s.(commits := s.commits[c := Commit(
           p, todo, t.provider, t.ingested, t.duplicates, 0, if p in s.delivered then s.delivered[p] else 0,
           |todo|, t.ingested + t.duplicates, t.items)])
    case CommitItem(c, n, env) =>
      var commit := s.commits[c];
      var (t, v) := BringIn(s.shelf, commit.provider, n, env);
      var rest := commit.(todo := commit.todo - {n});
      (match v
       case Failed => s.(shelf := t, commits := s.commits - {c}, owed := Forgive(s.owed, n))
       case Skipped => s.(commits := s.commits[c := rest.(skipped := rest.skipped + 1)], shelf := t)
       case Counted(isNew) =>
         s.(shelf := t,
            commits := s.commits[c := if isNew then rest.(ingested := rest.ingested + 1) else rest.(duplicates := rest.duplicates + 1)]))
    case CommitEnd(c) =>
      if Refuses(s.commits[c]) then s.(commits := s.commits - {c})
      else
        var p := s.commits[c].p;
        s.(commits := s.commits - {c}, sessions := s.sessions - {p}, delivered := s.delivered - {p},
           owed := Released(s.owed, p))
    case DropSession(p) =>
      s.(sessions := s.sessions - {p}, delivered := s.delivered - {p}, owed := Released(s.owed, p))
  }

  /** The engine at process start: any index, any files in staging, no session yet. */
  predicate Fresh(s: Sys) {
    s.sessions == map[] && s.booking == {} && s.commits == map[] && s.owed == {}
  }

  ghost predicate Feasible(s: Sys, run: seq<Event>)
    decreases |run|
  {
    run != [] ==> Enabled(s, run[0]) && Feasible(Do(s, run[0]), run[1..])
  }

  function After(s: Sys, run: seq<Event>): Sys
    requires Feasible(s, run)
    decreases |run|
  {
    if run == [] then s else After(Do(s, run[0]), run[1..])
  }

  // --- the invariant ----------------------------------------------------------------------

  predicate Reachable(shelf: Shelf, n: Name) {
    && n.Spelled?
    && (n.hash in shelf.index || (n in shelf.staging && HashOf(shelf.staging[n]) == n.hash))
  }

  /** A delivery that is owed is announced, and in the index or in staging; one that is settled, or that a
      running commit has passed, is in the index. */
  ghost predicate OwedInv(s: Sys, p: Peer, n: Name) {
    && p in s.sessions && n in s.sessions[p].items && Reachable(s.shelf, n)
    && (Settling(s, p, n) ==> n.hash in s.shelf.index)
    && (forall c | c in s.commits && s.commits[c].p == p :: n in s.commits[c].todo || n.hash in s.shelf.index)
  }

  ghost predicate CommitInv(c: Commit) {
    && c.ingested + c.duplicates + c.skipped + |c.todo| == c.base + c.total
    && c.ingested + c.duplicates >= c.base
  }

  ghost predicate Inv(s: Sys) {
    && (forall q | q in s.owed :: OwedInv(s, q.0, q.1))
    && (forall c | c in s.commits :: CommitInv(s.commits[c]))
  }

  lemma BooksBalance(s: Sys, e: Event)
    requires Inv(s) && Enabled(s, e)
    ensures forall c | c in Do(s, e).commits :: CommitInv(Do(s, e).commits[c])
  {
    hide BringIn, IngestOne, OwedInv, Settled, Owes, Forgive, Released, Honest, Refuses, CommitInv;
    if e.CommitItem? {
      var commit := s.commits[e.c];
      var v := BringIn(s.shelf, commit.provider, e.n, e.env).1;
      ItemIsBooked(commit, e.n);
      forall c | c in Do(s, e).commits
        ensures CommitInv(Do(s, e).commits[c])
      {
      }
    } else if e.CommitStart? {
      NewCommitBalances(Do(s, e).commits[e.c]);
    }
  }

  lemma ItemIsBooked(c: Commit, n: Name)
    requires CommitInv(c) && n in c.todo
    ensures var rest := c.(todo := c.todo - {n});
            && CommitInv(rest.(skipped := c.skipped + 1))
            && CommitInv(rest.(ingested := c.ingested + 1)) && CommitInv(rest.(duplicates := c.duplicates + 1))
  {
    assert |c.todo - {n}| == |c.todo| - 1;
  }

  lemma NewCommitBalances(c: Commit)
    requires c.total == |c.todo| && c.base == c.ingested + c.duplicates && c.skipped == 0
    ensures CommitInv(c)
  {
  }

  /** What ingesting one file can do to another delivery. */
  lemma IngestKeepsReachable(shelf: Shelf, n: Name, env: Env, m: Name)
    requires n in shelf.staging && Reachable(shelf, m)
    ensures var (t, v) := IngestOne(shelf, n, env);
            shelf.index <= t.index && (m != n || !v.Failed? ==> Reachable(t, m)) && (m == n && !v.Failed? ==> m.hash in t.index)
  {
  }

  lemma BringInKeepsReachable(shelf: Shelf, provider: bool, n: Name, env: Env, m: Name)
    requires Honest(env, n) && Reachable(shelf, m)
    ensures var (t, v) := BringIn(shelf, provider, n, env);
            shelf.index <= t.index && (m != n || !v.Failed? ==> Reachable(t, m)) && (m == n && !v.Failed? ==> m.hash in t.index)
  {
  }

  lemma OwedStays(s: Sys, e: Event, p: Peer, n: Name)
    requires Inv(s) && Enabled(s, e) && (p, n) in Do(s, e).owed
    ensures OwedInv(Do(s, e), p, n)
  {
    assert (p, n) in s.owed ==> OwedInv(s, p, n);
    match e {
      case TakeIn(q, m, env) => TakeInKeepsOwed(s, e, p, n);
      case CommitItem(q, m, env) => CommitItemKeepsOwed(s, e, p, n);
      case _ =>
        hide IngestOne, BringIn, CommitInv, Honest;
    }
  }

  lemma TakeInKeepsOwed(s: Sys, e: Event, p: Peer, n: Name)
    requires Enabled(s, e) && e.TakeIn? && (p, n) in Do(s, e).owed && ((p, n) in s.owed ==> OwedInv(s, p, n))
    ensures OwedInv(Do(s, e), p, n)
  {
    hide IngestOne, BringIn, Reachable, Settled, Owes, CommitInv, Honest;
    IngestKeepsReachable(s.shelf, e.n, e.env, n);
  }

  lemma CommitItemKeepsOwed(s: Sys, e: Event, p: Peer, n: Name)
    requires Enabled(s, e) && e.CommitItem? && (p, n) in Do(s, e).owed && ((p, n) in s.owed ==> OwedInv(s, p, n))
    ensures OwedInv(Do(s, e), p, n)
  {
    hide IngestOne, BringIn, Reachable, Settled, Owes, CommitInv, Honest;
    BringInKeepsReachable(s.shelf, s.commits[e.c].provider, e.n, e.env, n);
  }

  lemma EventKeeps(s: Sys, e: Event)
    requires Inv(s) && Enabled(s, e)
    ensures Inv(Do(s, e))
  {
    BooksBalance(s, e);
    forall q | q in Do(s, e).owed
      ensures OwedInv(Do(s, e), q.0, q.1)
    {
      OwedStays(s, e, q.0, q.1);
    }
  }

  lemma {:induction false} RunKeeps(s: Sys, run: seq<Event>)
    requires Inv(s) && Feasible(s, run)
    ensures Inv(After(s, run))
    decreases |run|
  {
    if run != [] {
      EventKeeps(s, run[0]);
      RunKeeps(Do(s, run[0]), run[1..]);
    }
  }

  /** No photo is lost behind an accepted commit: over every run, when a commit of a device succeeds, all its
      owed deliveries are in the index, however many calibrations, announcements and other devices' commits
      were interleaved; and everything the commit found unsettled was counted or skipped once. */
  lemma AcceptedCommitKeepsDeliveries(start: Sys, run: seq<Event>, c: nat)
    requires Fresh(start) && Feasible(start, run) && Enabled(After(start, run), CommitEnd(c))
    ensures var s := After(start, run);
            var commit := s.commits[c];
            && (forall n | (commit.p, n) in s.owed :: n.Spelled? && n.hash in s.shelf.index)
            && commit.ingested + commit.duplicates + commit.skipped == commit.base + commit.total
            && (commit.p !in Do(s, CommitEnd(c)).sessions || Refuses(commit))
  {
    RunKeeps(start, run);
    var s := After(start, run);
    forall n | (s.commits[c].p, n) in s.owed
      ensures n.Spelled? && n.hash in s.shelf.index
    {
      assert OwedInv(s, s.commits[c].p, n);
    }
  }

  /** A calibration (an empty announcement) in the middle of a round changes nothing about the round. */
  lemma CalibrationIsHarmless(s: Sys, p: Peer)
    requires p in s.sessions
    ensures Do(Do(s, Begin(p)), Manifest(p, {}, false)) == s
  {
    var t := s.sessions[p];
    assert t.items + {} == t.items;
    assert s.sessions[p := t] == s.sessions;
  }

  /** What the engine's method does with a staged file is its two events, one after the other. */
  lemma IngestStagedIsItsEvents(s: Sys, p: Peer, n: Name, env: Env)
    requires Enabled(s, TakeIn(p, n, env)) && !env.ingestError
    ensures var (shelf, v) := IngestOne(s.shelf, n, env);
            var t := Do(s, TakeIn(p, n, env));
            && v.Counted? && Enabled(t, Book(p, n, v.isNew))
            && var u := Do(t, Book(p, n, v.isNew));
               u.shelf == shelf && u.sessions == s.sessions[p := Settled(s.sessions[p], n, v.isNew, 0)] && u.delivered == s.delivered
  {
  }

  // --- the same, said about the history ----------------------------------------------------

  /** Every file is announced before it comes, it does not come behind a running commit that has passed its item,
      nothing is settled for a file that was never right, no ingest fails, and no session is dropped. */
  ghost predicate Faithful(s: Sys, e: Event) {
    match e
    case Upload(p, n, _) => Owes(s, p, n)
    case TakeIn(_, _, env) => !env.ingestError
    case CommitItem(_, _, env) => !env.ingestError
    case DropSession(_) => false
    case _ => true
  }

  ghost predicate FaithfulRun(s: Sys, run: seq<Event>)
    requires Feasible(s, run)
    decreases |run|
  {
    run != [] ==> Faithful(s, run[0]) && FaithfulRun(Do(s, run[0]), run[1..])
  }

  /** The deliveries of a run that no accepted commit of their device has followed, given those before it. */
  ghost function Uploaded(s: Sys, run: seq<Event>, before: set<(Peer, Name)>): set<(Peer, Name)>
    requires Feasible(s, run)
    decreases |run|
  {
    if run == [] then before
    else
      var e := run[0];
      var now :=
        if e.Upload? then before + {(e.p, e.n)}
        else if e.CommitEnd? && !Refuses(s.commits[e.c]) then Released(before, s.commits[e.c].p)
        else before;
      Uploaded(Do(s, e), run[1..], now)
  }

  lemma FaithfulItemDoesNotFail(s: Sys, c: nat, n: Name, env: Env, q: Peer)
    requires Inv(s) && Enabled(s, CommitItem(c, n, env)) && !env.ingestError && (q, n) in s.owed
    ensures !BringIn(s.shelf, s.commits[c].provider, n, env).1.Failed?
  {
    assert OwedInv(s, q, n);
  }

  lemma FaithfulEventForgivesNobody(s: Sys, e: Event)
    requires Inv(s) && Enabled(s, e) && Faithful(s, e)
    ensures forall q | q in s.owed && !(e.CommitEnd? && !Refuses(s.commits[e.c]) && q.0 == s.commits[e.c].p) :: q in Do(s, e).owed
    ensures e.Upload? ==> (e.p, e.n) in Do(s, e).owed
  {
    if e.CommitItem? {
      forall q | q in s.owed
        ensures q.1 == e.n ==> !BringIn(s.shelf, s.commits[e.c].provider, e.n, e.env).1.Failed?
      {
        if q.1 == e.n {
          FaithfulItemDoesNotFail(s, e.c, e.n, e.env, q.0);
        }
      }
      hide BringIn, Inv;
    }
  }

  lemma {:induction false} UploadedAreOwed(s: Sys, run: seq<Event>, before: set<(Peer, Name)>)
    requires Inv(s) && Feasible(s, run) && FaithfulRun(s, run) && before <= s.owed
    ensures Uploaded(s, run, before) <= After(s, run).owed
    decreases |run|
  {
    if run != [] {
      var e := run[0];
      FaithfulEventForgivesNobody(s, e);
      EventKeeps(s, e);
      hide Do, Inv, Faithful, Owes;
      var now :=
        if e.Upload? then before + {(e.p, e.n)}
        else if e.CommitEnd? && !Refuses(s.commits[e.c]) then Released(before, s.commits[e.c].p)
        else before;
      UploadedAreOwed(Do(s, e), run[1..], now);
    }
  }

  /** The engine's promise: over every faithful run, an accepted commit of a device has everything in the index
      that the device delivered since its last accepted commit. */
  lemma AcceptedCommitHasAllDeliveries(start: Sys, run: seq<Event>, c: nat)
    requires Fresh(start) && Feasible(start, run) && FaithfulRun(start, run) && Enabled(After(start, run), CommitEnd(c))
    ensures var s := After(start, run);
            forall n | (s.commits[c].p, n) in Uploaded(start, run, {}) :: n.Spelled? && n.hash in s.shelf.index
  {
    UploadedAreOwed(start, run, {});
    AcceptedCommitKeepsDeliveries(start, run, c);
  }

  // --- the failing family ---------------------------------------------------------------------

  lemma Prepend(s: Sys, e: Event, rest: seq<Event>)
    requires Enabled(s, e) && Feasible(Do(s, e), rest)
    ensures Feasible(s, [e] + rest) && After(s, [e] + rest) == After(Do(s, e), rest)
  {
    assert ([e] + rest)[1..] == rest;
  }

  /** Two photos announced and delivered; the second is settled, the first waits in staging. */
  function TwoDelivered(p: Peer, a: Name, content: Bytes, b: Name): Sys
    requires b.Spelled?
  {
    Sys(map[p := Session({a, b}, false, 1, 0, {b}, 0)], map[p := 2], Shelf(map[a := content], {b.hash}),
        {}, map[], {(p, a), (p, b)})
  }

  const NOTHING := Env(None, None, false, false)

  function Failing(): Env {
    NOTHING.(ingestError := true)
  }

  lemma ErrorTakesFile(p: Peer, a: Name, content: Bytes, b: Name)
    requires b.Spelled? && a != b
    ensures var s := TwoDelivered(p, a, content, b);
            && Enabled(s, TakeIn(p, a, Failing()))
            && Do(s, TakeIn(p, a, Failing())) == s.(shelf := Shelf(map[], {b.hash}), owed := {(p, b)})
  {
    var s := TwoDelivered(p, a, content, b);
    assert s.shelf.staging - {a} == map[];
    assert Forgive(s.owed, a) == {(p, b)};
  }

  /** The commit that follows: it starts with one item, finds nothing, and ends. */
  lemma CommitPassesOver(s: Sys, p: Peer, a: Name, b: Name)
    requires a.Spelled? && b.Spelled? && a.hash != b.hash
    requires s.sessions == map[p := Session({a, b}, false, 1, 0, {b}, 0)] && s.delivered == map[p := 2]
    requires s.shelf == Shelf(map[], {b.hash}) && s.commits == map[]
    ensures Enabled(s, CommitStart(p, 0))
    ensures var t := Do(s, CommitStart(p, 0));
            && Enabled(t, CommitItem(0, a, NOTHING))
            && var u := Do(t, CommitItem(0, a, NOTHING));
               && Enabled(u, CommitEnd(0))
               && var v := Do(u, CommitEnd(0));
                  v.sessions == map[] && v.delivered == map[] && v.shelf == s.shelf
  {
    assert {a, b} - {b} == {a} && {a} - {a} == {};
    var t := Do(s, CommitStart(p, 0));
    assert t.commits == map[0 := Commit(p, {a}, false, 1, 0, 0, 2, 1, 1, {a, b})];
    CommitEnds(t, p, a, b);
  }

  lemma CommitEnds(t: Sys, p: Peer, a: Name, b: Name)
    requires a.Spelled? && b.Spelled? && a.hash != b.hash
    requires t.sessions.Keys == {p} && t.delivered.Keys == {p} && t.shelf == Shelf(map[], {b.hash})
    requires t.commits == map[0 := Commit(p, {a}, false, 1, 0, 0, 2, 1, 1, {a, b})]
    ensures Enabled(t, CommitItem(0, a, NOTHING))
    ensures var u := Do(t, CommitItem(0, a, NOTHING));
            && Enabled(u, CommitEnd(0))
            && var v := Do(u, CommitEnd(0));
               v.sessions == map[] && v.delivered == map[] && v.shelf == t.shelf
  {
    var u := Do(t, CommitItem(0, a, NOTHING));
    assert {a} - {a} == {};
    assert BringIn(t.shelf, false, a, NOTHING) == (t.shelf, Skipped);
    assert u.commits[0] == Commit(p, {}, false, 1, 0, 1, 2, 1, 1, {a, b});
    assert t.sessions - {p} == map[] && t.delivered - {p} == map[];
  }

  /** An ingest error is the family in which an accepted commit loses a delivery that was announced before it
      came: the error removes the file, and the commit then passes the item over as a ghost. */
  lemma IngestErrorIsPassedOver(p: Peer, a: Name, content: Bytes, b: Name)
    requires a.Spelled? && b.Spelled? && a.hash != b.hash && HashOf(content) == a.hash
    ensures var s := TwoDelivered(p, a, content, b);
            var run := [TakeIn(p, a, Failing()), CommitStart(p, 0), CommitItem(0, a, NOTHING), CommitEnd(0)];
            && Inv(s) && (p, a) in s.owed && Feasible(s, run)
            && var t := After(s, run);
               p !in t.sessions && p !in t.delivered && a.hash !in t.shelf.index && t.shelf.staging == map[]
  {
    var s := TwoDelivered(p, a, content, b);
    assert OwedInv(s, p, a) && OwedInv(s, p, b);
    ErrorTakesFile(p, a, content, b);
    var (e1, e2, e3, e4) := (TakeIn(p, a, Failing()), CommitStart(p, 0), CommitItem(0, a, NOTHING), CommitEnd(0));
    hide Do, Enabled;
    var s1 := Do(s, e1);
    CommitPassesOver(s1, p, a, b);
    var s2 := Do(s1, e2);
    var s3 := Do(s2, e3);
    var s4 := Do(s3, e4);
    assert Feasible(s4, []) && After(s4, []) == s4;
    Prepend(s3, e4, []);
    Prepend(s2, e3, [e4] + []);
    Prepend(s1, e2, [e3] + ([e4] + []));
    Prepend(s, e1, [e2] + ([e3] + ([e4] + [])));
    assert [e1] + ([e2] + ([e3] + ([e4] + []))) == [e1, e2, e3, e4];
  }

  const EMPTY := Sys(map[], map[], Shelf(map[], {}), {}, map[], {})

  /** Where that family starts is within reach of an empty engine: two photos are announced, one is delivered,
      taken in and booked, the other delivered. */
  lemma TwoDeliveredIsReached(p: Peer, a: Name, content: Bytes, b: Name, other: Bytes) returns (run: seq<Event>)
    requires a.Spelled? && b.Spelled? && a.hash != b.hash && HashOf(content) == a.hash && HashOf(other) == b.hash
    ensures Fresh(EMPTY) && Feasible(EMPTY, run) && After(EMPTY, run) == TwoDelivered(p, a, content, b)
  {
    var (e1, e2, e3, e4) := (Manifest(p, {a, b}, false), NoteDelivered(p), Upload(p, b, other), TakeIn(p, b, NOTHING));
    var s1 := EMPTY.(sessions := map[p := Session({a, b}, false, 0, 0, {}, 0)]);
    assert FreshSession(0).items + {a, b} == {a, b};
    assert Do(EMPTY, e1) == s1;
    var s2 := s1.(delivered := map[p := 1]);
    assert Do(s1, e2) == s2;
    var s3 := s2.(shelf := Shelf(map[b := other], {}), owed := {(p, b)});
    assert Do(s2, e3) == s3;
    var s4 := OneTakenIn(p, a, b);
    assert s3.shelf.staging - {b} == map[];
    assert Do(s3, e4) == s4;
    var rest := SecondDelivered(p, a, content, b);
    hide Do, Enabled, TwoDelivered, OneTakenIn;
    Prepend(s3, e4, rest);
    Prepend(s2, e3, [e4] + rest);
    Prepend(s1, e2, [e3] + ([e4] + rest));
    Prepend(EMPTY, e1, [e2] + ([e3] + ([e4] + rest)));
    run := [e1] + ([e2] + ([e3] + ([e4] + rest)));
  }

  function OneTakenIn(p: Peer, a: Name, b: Name): Sys
    requires b.Spelled?
  {
    Sys(map[p := Session({a, b}, false, 0, 0, {}, 0)], map[p := 1], Shelf(map[], {b.hash}),
        {(p, b, true)}, map[], {(p, b)})
  }

  lemma SecondDelivered(p: Peer, a: Name, content: Bytes, b: Name) returns (run: seq<Event>)
    requires a.Spelled? && b.Spelled? && a.hash != b.hash && HashOf(content) == a.hash
    ensures Feasible(OneTakenIn(p, a, b), run) && After(OneTakenIn(p, a, b), run) == TwoDelivered(p, a, content, b)
  {
    var (e5, e6, e7) := (Book(p, b, true), NoteDelivered(p), Upload(p, a, content));
    var s4 := OneTakenIn(p, a, b);
    var s5 := s4.(booking := {}, sessions := map[p := Session({a, b}, false, 1, 0, {b}, 0)]);
    assert s4.sessions[p].settled + {b} == {b} && s4.booking - {(p, b, true)} == {};
    assert Do(s4, e5) == s5;
    var s6 := s5.(delivered := map[p := 2]);
    assert Do(s5, e6) == s6;
    var s7 := TwoDelivered(p, a, content, b);
    assert Do(s6, e7) == s7;
    hide Do, Enabled, TwoDelivered, OneTakenIn;
    assert Feasible(s7, []) && After(s7, []) == s7;
    Prepend(s6, e7, []);
    Prepend(s5, e6, [e7] + []);
    Prepend(s4, e5, [e6] + ([e7] + []));
    run := [e5] + ([e6] + ([e7] + []));
  }

  /** The end of a commit closes the session and its books, unless deliveries are owed and nothing at all was counted. */
  lemma CommitClosesExactlyWhen(s: Sys, c: nat)
    requires Enabled(s, CommitEnd(c))
    ensures var commit, t := s.commits[c], Do(s, CommitEnd(c));
            && t.commits == s.commits - {c} && t.shelf == s.shelf
            && (if commit.delivered == 0 || commit.ingested + commit.duplicates > 0
                then t.sessions == s.sessions - {commit.p} && t.delivered == s.delivered - {commit.p}
                else t.sessions == s.sessions && t.delivered == s.delivered)
  {
  }
}
