/** The backup session engine: what a device announces, delivers and commits, and how the files that arrived
    in staging get into the index. */
module Backup {
  import opened LibraryStore

  /** The text of a hash as a device sends it: one of the spellings of a hash, or no hash at all. */
  datatype Name = Spelled(hash: Hash, variant: nat) | Garbled(text: string)

  type Peer = Device

  datatype Session = Session(
    items: set<Name>, provider: bool, ingested: nat, duplicates: nat, settled: set<Name>, touchedAt: int)

  function FreshSession(now: int): Session {
    Session({}, false, 0, 0, {}, now)
  }

  /** What the outside answers while one item is brought in. `exported` and `fetched` come from a store that
      checks content against the hash; `moved`: the index has the hash but its file is gone. */
  datatype Env = Env(exported: Option<Bytes>, fetched: Option<Bytes>, moved: bool, ingestError: bool)

  /** What the outside answers for one item; nothing unless given. */
  function EnvFor(envs: map<Name, Env>, n: Name): Env {
    if n in envs then envs[n] else Env(None, None, false, false)
  }

  lemma EnvForIs(envs: map<Name, Env>, n: Name)
    ensures n in envs ==> EnvFor(envs, n) == envs[n]
    ensures n !in envs ==> EnvFor(envs, n) == Env(None, None, false, false)
  {
  }

  predicate Honest(env: Env, name: Name) {
    name.Spelled? ==>
      && (env.exported.Some? ==> HashOf(env.exported.value) == name.hash)
      && (env.fetched.Some? ==> HashOf(env.fetched.value) == name.hash)
  }

  datatype Verdict = Skipped | Counted(isNew: bool) | Failed

  /** Files in staging and hashes in the index. */
  datatype Shelf = Shelf(staging: map<Name, Bytes>, index: set<Hash>)

  /** `ingest_one`: the staged file is gone afterwards, in every case. */
  function IngestOne(s: Shelf, name: Name, env: Env): (Shelf, Verdict)
    requires name in s.staging
  {
    var content := s.staging[name];
    var rest := s.staging - {name};
    if env.ingestError then (Shelf(rest, s.index), Failed)
    else (Shelf(rest, s.index + {HashOf(content)}), Counted(HashOf(content) !in s.index || env.moved))
  }

  /** What taking in a staged file does: the file is gone, an error leaves the index alone, and otherwise the index
      has its content, which is new if it was not there or its file had gone. */
  lemma IngestOneIsExact(s: Shelf, name: Name, env: Env)
    requires name in s.staging
    ensures var (t, v) := IngestOne(s, name, env);
            var h := HashOf(s.staging[name]);
            && name !in t.staging
            && (forall n | n != name :: (n in t.staging <==> n in s.staging) && (n in s.staging ==> t.staging[n] == s.staging[n]))
            && (env.ingestError ==> v == Failed && t.index == s.index)
            && (!env.ingestError ==> v.Counted? && (v.isNew <==> h !in s.index || env.moved))
            && (!env.ingestError ==> forall g :: g in t.index <==> g in s.index || g == h)
  {
  }

  /** One item of a commit. */
  function BringIn(s: Shelf, provider: bool, name: Name, env: Env): (Shelf, Verdict) {
    if name.Garbled? then (s, Skipped)
    else if name.hash in s.index then (s, Counted(false))
    else
      var t := if name in s.staging && HashOf(s.staging[name]) != name.hash then s.(staging := s.staging - {name}) else s;
      if name in t.staging then IngestOne(t, name, env)
      else if env.exported.Some? then IngestOne(t.(staging := t.staging[name := env.exported.value]), name, env)
      else if !provider then (t, Skipped)
      else if env.fetched.Some? then IngestOne(t.(staging := t.staging[name := env.fetched.value]), name, env)
      else (t, Failed)
  }

  /** An item that a commit can find nowhere, in a session whose device does not serve files. */
  predicate Ghost(s: Shelf, provider: bool, name: Name, env: Env) {
    && name.Spelled? && name.hash !in s.index
    && !(name in s.staging && HashOf(s.staging[name]) == name.hash)
    && env.exported.None? && !provider
  }

  /** One item, exactly: a commit that goes on has the item in the index if and only if the item is a hash and
      was not a ghost; it is skipped in just the other cases; and what the index had stays. */
  lemma BroughtInExactlyWhenFound(s: Shelf, provider: bool, name: Name, env: Env)
    requires Honest(env, name)
    ensures var (t, v) := BringIn(s, provider, name, env);
            && s.index <= t.index
            && (v == Skipped <==> name.Garbled? || Ghost(s, provider, name, env))
            && (!v.Failed? && name.Spelled? ==> (name.hash in t.index <==> !Ghost(s, provider, name, env)))
            && (forall n | n in s.staging && n != name :: n in t.staging && t.staging[n] == s.staging[n])
  {
  }

  /** What an item of a commit leaves behind, and when it makes the commit fail: nothing is touched for a text that is no
      hash or a hash that is indexed; otherwise nothing stays in staging under its name, and it fails when what was
      found cannot be taken in, or when the device serves files and still nothing was found. */
  lemma BringInIsExact(s: Shelf, provider: bool, name: Name, env: Env)
    requires Honest(env, name)
    ensures var (t, v) := BringIn(s, provider, name, env);
            var known := name.Garbled? || name.hash in s.index;
            var staged := name.Spelled? && name in s.staging && s.staging[name] == name.hash.content;
            var found := staged || env.exported.Some? || (provider && env.fetched.Some?);
            && (known ==> t == s && !v.Failed?)
            && (!known ==> t.staging == s.staging - {name})
            && (!known && found && !env.ingestError ==> v.Counted? && t.index == s.index + {name.hash})
            && (!known && (!found || env.ingestError) ==> t.index == s.index)
            && (v.Failed? <==> !known && (if found then env.ingestError else provider))
  {
  }

  /** Of a commit's item: it is counted as new if and only if its hash comes into the index, alone; otherwise the
      index stays as it was. */
  lemma NewExactlyWhenItEnters(s: Shelf, provider: bool, name: Name, env: Env)
    requires Honest(env, name)
    ensures var (t, v) := BringIn(s, provider, name, env);
            && (v == Counted(true) <==> t.index != s.index)
            && (v == Counted(true) ==> name.Spelled? && name.hash !in s.index && t.index == s.index + {name.hash})
  {
  }

  /** The books of a commit: new ones are what has come into the index, and everything done is booked. */
  ghost predicate Booked(start: set<Hash>, index: set<Hash>, done: set<Name>, news: nat, olds: nat) {
    news == |index - start| && news + olds == |done|
  }

  lemma OneMoreBooked(s: Shelf, provider: bool, name: Name, env: Env, start: set<Hash>, done: set<Name>, news: nat, olds: nat)
    requires Honest(env, name) && start <= s.index && name !in done && Booked(start, s.index, done, news, olds)
    ensures var (t, v) := BringIn(s, provider, name, env);
            && start <= t.index
            && (v == Counted(true) ==> Booked(start, t.index, done + {name}, news + 1, olds))
            && (v == Counted(false) ==> Booked(start, t.index, done + {name}, news, olds + 1))
            && (v == Skipped ==> Booked(start, t.index, done, news, olds))
  {
    NewExactlyWhenItEnters(s, provider, name, env);
    var (t, v) := BringIn(s, provider, name, env);
    hide BringIn;
    if v == Counted(true) {
      assert t.index - start == (s.index - start) + {name.hash};
    }
  }

  /** The items are those left, those done and those passed over. */
  ghost predicate Parts(items: set<Name>, todo: set<Name>, done: set<Name>, skipped: set<Name>) {
    && todo + done + skipped == items && todo !! done && todo !! skipped && done !! skipped
  }

  lemma PartsMove(items: set<Name>, todo: set<Name>, done: set<Name>, skipped: set<Name>, n: Name)
    requires Parts(items, todo, done, skipped) && n in todo
    ensures n !in done && n !in skipped
    ensures Parts(items, todo - {n}, done + {n}, skipped) && Parts(items, todo - {n}, done, skipped + {n})
  {
  }

  lemma PartsAreItems(items: set<Name>, todo: set<Name>, done: set<Name>, skipped: set<Name>, n: Name)
    requires Parts(items, todo, done, skipped) && n in todo
    ensures n in items
  {
  }

  /** What has been done is indexed, what was passed over was nowhere, and what is left waits as at the start. */
  ghost predicate Treated(todo: set<Name>, done: set<Name>, skipped: set<Name>, provider: bool, envs: map<Name, Env>,
                          before: Shelf, now: Shelf) {
    && before.index <= now.index
    && (forall n | n in todo && n in before.staging :: n in now.staging && now.staging[n] == before.staging[n])
    && (forall n | n in done :: n.Spelled? && n.hash in now.index)
    && (forall n | n in skipped :: n.Garbled? || Ghost(before, provider, n, EnvFor(envs, n)))
  }

  lemma OneMoreTreated(todo: set<Name>, done: set<Name>, skipped: set<Name>, provider: bool, envs: map<Name, Env>,
                       before: Shelf, now: Shelf, n: Name)
    requires Treated(todo, done, skipped, provider, envs, before, now) && n in todo && Honest(EnvFor(envs, n), n)
    ensures var (t, v) := BringIn(now, provider, n, EnvFor(envs, n));
            && (v.Counted? ==> Treated(todo - {n}, done + {n}, skipped, provider, envs, before, t))
            && (v == Skipped ==> Treated(todo - {n}, done, skipped + {n}, provider, envs, before, t))
  {
    BroughtInExactlyWhenFound(now, provider, n, EnvFor(envs, n));
    hide BringIn, Honest;
  }

  /** A commit between two items. */
  datatype Work = Work(todo: set<Name>, done: set<Name>, skipped: set<Name>, news: nat, olds: nat)

  /** What a commit is about. */
  datatype Order = Order(items: set<Name>, provider: bool, envs: map<Name, Env>, before: Shelf)

  ghost predicate Sound(o: Order, w: Work, now: Shelf) {
    && Parts(o.items, w.todo, w.done, w.skipped)
    && Booked(o.before.index, now.index, w.done, w.news, w.olds)
    && Treated(w.todo, w.done, w.skipped, o.provider, o.envs, o.before, now)
  }

  lemma WorkBegins(o: Order)
    ensures Sound(o, Work(o.items, {}, {}, 0, 0), o.before)
  {
  }

  lemma WorkGoesOn(o: Order, w: Work, now: Shelf, n: Name)
    requires Sound(o, w, now) && n in w.todo && Honest(EnvFor(o.envs, n), n)
    ensures var (t, v) := BringIn(now, o.provider, n, EnvFor(o.envs, n));
            && n in o.items && o.before.index <= t.index
            && (v == Skipped ==> Sound(o, Work(w.todo - {n}, w.done, w.skipped + {n}, w.news, w.olds), t))
            && (v == Counted(true) ==> Sound(o, Work(w.todo - {n}, w.done + {n}, w.skipped, w.news + 1, w.olds), t))
            && (v == Counted(false) ==> Sound(o, Work(w.todo - {n}, w.done + {n}, w.skipped, w.news, w.olds + 1), t))
  {
    hide BringIn, Honest, Booked, Parts, Ghost;
    PartsMove(o.items, w.todo, w.done, w.skipped, n);
    PartsAreItems(o.items, w.todo, w.done, w.skipped, n);
    OneMoreBooked(now, o.provider, n, EnvFor(o.envs, n), o.before.index, w.done, w.news, w.olds);
    OneMoreTreated(w.todo, w.done, w.skipped, o.provider, o.envs, o.before, now, n);
    hide Treated;
  }

  /** When nothing is left. */
  ghost predicate AllDone(o: Order, skipped: set<Name>, news: nat, olds: nat, now: Shelf) {
    && o.before.index <= now.index && skipped <= o.items
    && news == |now.index - o.before.index| && news + olds == |o.items - skipped|
    && (forall n | n in o.items - skipped :: n.Spelled? && n.hash in now.index)
    && (forall n | n in skipped :: n.Garbled? || Ghost(o.before, o.provider, n, EnvFor(o.envs, n)))
  }

  lemma WorkEnds(o: Order, w: Work, now: Shelf)
    requires Sound(o, w, now) && w.todo == {}
    ensures AllDone(o, w.skipped, w.news, w.olds, now)
  {
    hide Ghost;
    assert o.items - w.skipped == w.done;
  }

  datatype Outcome = Ok(ingested: nat, duplicates: nat) | NothingIngested(delivered: nat) | ItemFailed(name: Name)

  /** The names, in order, of hashes that the index does not have. */
  function Unindexed(names: seq<Name>, index: set<Hash>): seq<Name> {
    if names == [] then []
    else
      var init, last := Unindexed(names[..|names| - 1], index), names[|names| - 1];
      if last.Spelled? && last.hash !in index then init + [last] else init
  }

  /** The bare hashes that are not items as well. */
  function BareOnly(hashes: seq<Name>, items: seq<Name>): seq<Name> {
    if hashes == [] then []
    else
      var init, last := BareOnly(hashes[..|hashes| - 1], items), hashes[|hashes| - 1];
      if last in items then init else init + [last]
  }

  lemma {:induction false} UnindexedExactly(names: seq<Name>, index: set<Hash>)
    ensures forall n :: n in Unindexed(names, index) <==> n in names && n.Spelled? && n.hash !in index
  {
    if names != [] {
      UnindexedExactly(names[..|names| - 1], index);
      assert names == names[..|names| - 1] + [names[|names| - 1]];
    }
  }

  lemma {:induction false} BareOnlyExactly(hashes: seq<Name>, items: seq<Name>)
    ensures forall n :: n in BareOnly(hashes, items) <==> n in hashes && n !in items
  {
    if hashes != [] {
      BareOnlyExactly(hashes[..|hashes| - 1], items);
      assert hashes == hashes[..|hashes| - 1] + [hashes[|hashes| - 1]];
    }
  }

  class BackupEngine {
    var sessions: map<Peer, Session>
    var delivered: map<Peer, nat>
    var staging: map<Name, Bytes>
    var index: set<Hash>

    constructor (staging: map<Name, Bytes>, index: set<Hash>)
      ensures sessions == map[] && delivered == map[] && this.staging == staging && this.index == index
    {
      this.sessions, this.delivered, this.staging, this.index := map[], map[], staging, index;
    }

    ghost function View(): Shelf
      reads this
    {
      Shelf(staging, index)
    }

    /** A session is there afterwards; one that was there keeps everything but its clock. */
    method Begin(peer: Peer, now: int)
      modifies this`sessions
      ensures sessions == old(sessions)[peer := (if peer in old(sessions) then old(sessions)[peer] else FreshSession(now)).(touchedAt := now)]
    {
      if peer !in sessions {
        sessions := sessions[peer := FreshSession(now)];
      }
      sessions := sessions[peer := sessions[peer].(touchedAt := now)];
    }

    /** The announced hashes that are not in the index: those of the items first, then the bare ones. */
    method Missing(items: seq<Name>, hashes: seq<Name>) returns (missing: seq<Name>)
      ensures missing == Unindexed(items, index) + Unindexed(BareOnly(hashes, items), index)
      ensures forall n :: n in missing <==> (n in items || n in hashes) && n.Spelled? && n.hash !in index
    {
      missing := [];
      for i := 0 to |items|
        invariant missing == Unindexed(items[..i], index)
      {
        assert items[..i + 1][..i] == items[..i];
        if items[i].Spelled? && items[i].hash !in index {
          missing := missing + [items[i]];
        }
      }
      ghost var first := missing;
      assert items[..|items|] == items;
      for i := 0 to |hashes|
        invariant missing == first + Unindexed(BareOnly(hashes[..i], items), index)
      {
        assert hashes[..i + 1][..i] == hashes[..i];
        ghost var bare := BareOnly(hashes[..i], items);
        assert (bare + [hashes[i]])[..|bare|] == bare;
        if hashes[i] !in items && hashes[i].Spelled? && hashes[i].hash !in index {
          missing := missing + [hashes[i]];
        }
      }
      assert hashes[..|hashes|] == hashes;
      hide Unindexed, BareOnly;
      UnindexedExactly(items, index);
      UnindexedExactly(BareOnly(hashes, items), index);
      BareOnlyExactly(hashes, items);
    }

    method Manifest(peer: Peer, items: seq<Name>, hashes: seq<Name>, provider: bool, now: int) returns (missing: seq<Name>)
      modifies this`sessions
      ensures missing == Unindexed(items, index) + Unindexed(BareOnly(hashes, items), index)
      ensures forall n :: n in missing <==> (n in items || n in hashes) && n.Spelled? && n.hash !in index
      ensures var before := if peer in old(sessions) then old(sessions)[peer] else FreshSession(now);
              sessions == old(sessions)[peer := before.(
                items := before.items + (set n | n in items), provider := before.provider || provider, touchedAt := now)]
    {
      missing := Missing(items, hashes);
      hide Unindexed, BareOnly;
      var session := if peer in sessions then sessions[peer] else FreshSession(now);
      session := session.(touchedAt := now);
      ghost var before := session.items;
      for i := 0 to |items|
        invariant session.items == before + (set n | n in items[..i])
        invariant session == (if peer in sessions then sessions[peer] else FreshSession(now)).(touchedAt := now, items := session.items)
      {
        session := session.(items := session.items + {items[i]});
      }
      assert (set n | n in items[..|items|]) == (set n | n in items);
      if provider {
        session := session.(provider := true);
      }
      sessions := sessions[peer := session];
    }

    method NoteDelivered(peer: Peer)
      modifies this`delivered
      ensures delivered == old(delivered)[peer := (if peer in old(delivered) then old(delivered)[peer] else 0) + 1]
    {
      delivered := delivered[peer := (if peer in delivered then delivered[peer] else 0) + 1];
    }

    /** Brings one staged file in while the upload goes on, and books it in the session. */
    method IngestStaged(peer: Peer, name: Name, env: Env, now: int) returns (r: Option<bool>)
      modifies this`sessions, this`staging, this`index
      ensures var known := peer in old(sessions) && name in old(sessions)[peer].items && name in old(staging);
              if !known then r == Some(false) && sessions == old(sessions) && View() == old(View())
              else
                var (t, v) := IngestOne(old(View()), name, env);
                && View() == t
                && (v.Failed? ==> r == None && sessions == old(sessions))
                && (v.Counted? ==> r == Some(v.isNew))
                && (v.Counted? ==> sessions == old(sessions)[peer := Settled(old(sessions)[peer], name, v.isNew, now)])
    {
      if peer !in sessions || name !in sessions[peer].items {
        return Some(false);
      }
      if name !in staging {
        return Some(false);
      }
      var (t, v) := IngestOne(Shelf(staging, index), name, env);
      staging, index := t.staging, t.index;
      if v.Failed? {
        return None;
      }
      var session := sessions[peer];
      if v.isNew {
        session := session.(ingested := session.ingested + 1);
      } else {
        session := session.(duplicates := session.duplicates + 1);
      }
      session := session.(settled := session.settled + {name}, touchedAt := now);
      sessions := sessions[peer := session];
      return Some(v.isNew);
    }

    /** Drops the sessions, and their delivery books, that have been idle for the given time. */
    method SweepSessions(now: int, ttl: int) returns (dropped: nat)
      modifies this`sessions, this`delivered
      ensures forall p :: p in sessions <==> p in old(sessions) && now - old(sessions)[p].touchedAt < ttl
      ensures forall p | p in sessions :: sessions[p] == old(sessions)[p]
      ensures delivered == old(delivered) - (old(sessions).Keys - sessions.Keys)
      ensures dropped == |old(sessions)| - |sessions|
    {
      var idle := set p | p in sessions && now - sessions[p].touchedAt >= ttl;
      assert idle <= sessions.Keys;
      ghost var before := sessions;
      sessions := sessions - idle;
      delivered := delivered - idle;
      assert before.Keys - sessions.Keys == idle;
      assert sessions.Keys == before.Keys - idle;
      return |idle|;
    }

    method EndSession(peer: Peer) returns (had: bool)
      modifies this`sessions, this`delivered
      ensures had <==> peer in old(sessions)
      ensures sessions == old(sessions) - {peer} && delivered == old(delivered) - {peer}
    {
      had := peer in sessions;
      sessions := sessions - {peer};
      delivered := delivered - {peer};
    }

    /** Pulls in what the device announced and has not been settled, in any order. Every such item is counted or
        skipped; a counted one is in the index, and it counts as new exactly when its hash has come into the index
        just now; a skipped one is no hash, or could be found nowhere. */
    method Commit(peer: Peer, envs: map<Name, Env>) returns (r: Outcome, ghost skipped: set<Name>)
      requires forall n :: Honest(EnvFor(envs, n), n)
      modifies this
      ensures old(index) <= index
      ensures var items := if peer in old(sessions) then old(sessions)[peer].items - old(sessions)[peer].settled else {};
              var (before, again) :=
                if peer in old(sessions) then (old(sessions)[peer].ingested, old(sessions)[peer].duplicates) else (0, 0);
              var owed := if peer in old(delivered) then old(delivered)[peer] else 0;
              match r
              case Ok(ingested, duplicates) =>
                && sessions == old(sessions) - {peer} && delivered == old(delivered) - {peer}
                && (owed > 0 ==> ingested + duplicates > 0)
                && skipped <= items
                && ingested == before + |index - old(index)|
                && duplicates == again + |items - skipped| - |index - old(index)|
                && (forall n | n in items - skipped :: n.Spelled? && n.hash in index)
                && (forall n | n in skipped :: n.Garbled? || Ghost(old(View()), old(sessions)[peer].provider, n, EnvFor(envs, n)))
              case NothingIngested(n) =>
                n == owed > 0 && before == again == 0 && items == skipped && sessions == old(sessions) && delivered == old(delivered)
              case ItemFailed(n) => n in items && sessions == old(sessions) && delivered == old(delivered)
    {
      var items: set<Name>, provider := {}, false;
      var ingested: nat, duplicates: nat := 0, 0;
      if peer in sessions {
        var s := sessions[peer];
        items, provider, ingested, duplicates := s.items - s.settled, s.provider, s.ingested, s.duplicates;
      }
      var owed := if peer in delivered then delivered[peer] else 0;
      var failed, news, olds;
      failed, news, olds, skipped := BringAllIn(items, provider, envs);
      if failed.Some? {
        return ItemFailed(failed.value), skipped;
      }
      ingested, duplicates := ingested + news, duplicates + olds;
      if owed > 0 && ingested == 0 && duplicates == 0 {
        assert items - skipped == {};
        return NothingIngested(owed), skipped;
      }
      sessions := sessions - {peer};
      delivered := delivered - {peer};
      return Ok(ingested, duplicates), skipped;
    }

    /** One item of a commit. */
    method BringNext(n: Name, provider: bool, env: Env) returns (v: Verdict)
      modifies this`staging, this`index
      ensures (View(), v) == BringIn(old(View()), provider, n, env)
    {
      var (t, verdict) := BringIn(Shelf(staging, index), provider, n, env);
      staging, index := t.staging, t.index;
      v := verdict;
    }

    /** The items of a commit, in any order, up to the first failure. */
    method BringAllIn(items: set<Name>, provider: bool, envs: map<Name, Env>)
        returns (failed: Option<Name>, news: nat, olds: nat, ghost skipped: set<Name>)
      requires forall n :: Honest(EnvFor(envs, n), n)
      modifies this`staging, this`index
      ensures old(index) <= index
      ensures failed.Some? ==> failed.value in items
      ensures failed.None? ==> AllDone(Order(items, provider, envs, old(View())), skipped, news, olds, View())
    {
      hide Sound, BringIn, Honest, EnvFor, AllDone;
      var todo := items;
      ghost var order, w := Order(items, provider, envs, View()), Work(items, {}, {}, 0, 0);
      news, olds, skipped := 0, 0, {};
      WorkBegins(order);
      while todo != {}
        invariant Sound(order, w, View()) && order.before.index <= index
        invariant w.todo == todo && w.news == news && w.olds == olds
        decreases todo
      {
        var n :| n in todo;
        WorkGoesOn(order, w, View(), n);
        var v := BringNext(n, provider, EnvFor(envs, n));
        todo := todo - {n};
        if v.Failed? {
          return Some(n), news, olds, skipped;
        } else if v.Skipped? {
          w := Work(todo, w.done, w.skipped + {n}, news, olds);
        } else if v.isNew {
          news := news + 1;
          w := Work(todo, w.done + {n}, w.skipped, news, olds);
        } else {
          olds := olds + 1;
          w := Work(todo, w.done + {n}, w.skipped, news, olds);
        }
      }
      WorkEnds(order, w, View());
      skipped := w.skipped;
      return None, news, olds, skipped;
    }
  }

  /** The books after one staged file was brought in. */
  function Settled(s: Session, name: Name, isNew: bool, now: int): Session {
    s.(ingested := s.ingested + (if isNew then 1 else 0), duplicates := s.duplicates + (if isNew then 0 else 1),
       settled := s.settled + {name}, touchedAt := now)
  }

  /** A settlement keeps the books balanced (one count for each settled item) if and only if the item was not
      settled before: a file delivered again is counted again. */
  lemma SettledCountsOnceExactlyWhenNew(s: Session, name: Name, isNew: bool, now: int)
    ensures var t := Settled(s, name, isNew, now);
            t.ingested + t.duplicates - |t.settled| == s.ingested + s.duplicates - |s.settled| <==> name !in s.settled
  {
    if name in s.settled {
      assert s.settled + {name} == s.settled;
    }
  }
}
