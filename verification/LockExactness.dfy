/** Exactly when the answer about a changed lock file leaves no end out. */
module LockExactness {
  import opened LibraryStore
  import opened Worklist
  import opened RustImpact
  import opened LockImpact

  /** The member leads, in one of the two lock graphs, to the external crate, and the crate has changed. */
  ghost predicate LeadsToChanged(a: Lock, b: Lock, m: string, x: Key) {
    && (Ws(m) in a.edges || Ws(m) in b.edges) && x.Ext? && InfoDiffers(a, b, x)
    && (LeadsTo(EdgesOf(a), Ws(m), x) || LeadsTo(EdgesOf(b), Ws(m), x))
  }

  /** Under the member's name (the member itself, or a crate called "ws" whose version reads like it), the union
      of both graphs leads to a changed external crate with another name than "ws". */
  ghost predicate LeadsElsewhere(a: Lock, b: Lock, m: string) {
    exists k: Key, x: Key ::
      && (k in a.edges || k in b.edges) && (k == Ws(m) || (k.Ext? && k.name == "ws" && k.version == m))
      && x.Ext? && x.name != "ws" && InfoDiffers(a, b, x) && LeadsTo(BothEdges(a, b), k, x)
  }

  lemma LeadsElsewhereMeansHit(a: Lock, b: Lock, m: string)
    ensures LeadsElsewhere(a, b, m) <==> exists k :: Hit(a, b, k) && MemberName(k) == m
  {
    hide LeadsTo, InfoDiffers;
    if k :| Hit(a, b, k) && MemberName(k) == m {
      var x :| Changed(a, b, x) && LeadsTo(BothEdges(a, b), k, x);
      assert x.Ext? && x.name != "ws";
    }
    if LeadsElsewhere(a, b, m) {
      var k: Key, x: Key :|
        && (k in a.edges || k in b.edges) && (k == Ws(m) || (k.Ext? && k.name == "ws" && k.version == m))
        && x.Ext? && x.name != "ws" && InfoDiffers(a, b, x) && LeadsTo(BothEdges(a, b), k, x);
      assert Changed(a, b, x) && Hit(a, b, k) && MemberName(k) == m;
    }
  }

  /** A workspace in which one package depends on another, and no other dependencies. */
  function Hub(names: set<string>, hub: string, m: string): Graph {
    Graph(map n | n in names :: if n == hub && n != m then Package([Dep(m, None, Some(m), false, false)], map[]) else Package([], map[]),
          map n | n in names :: n)
  }

  /** All names that can be hit, all packages of the ends, and one more. */
  function Names(a: Lock, b: Lock, m: string): set<string> {
    (set k | k in a.edges.Keys + b.edges.Keys :: MemberName(k)) + (set end, e | end in ENTRIES && e in end.entries :: e.package) + {m}
  }

  lemma HubDeps(names: set<string>, hub: string, m: string, n: string, on: Option<set<string>>)
    requires n in names && m in names
    ensures PathDeps(Hub(names, hub, m), Hub(names, hub, m).pkgs[n].deps, on) == Some(if n == hub && n != m then [m] else [])
  {
    var g := Hub(names, hub, m);
    var d := Dep(m, None, Some(m), false, false);
    assert [d][..0] == [] && PathDeps(g, [], on) == Some([]);
    assert [] + [m] == [m];
  }

  lemma HubIsSure(names: set<string>, hub: string, m: string)
    requires m in names
    ensures Valid(Hub(names, hub, m)) && forall n | n in names :: Sure(Hub(names, hub, m), n)
  {
    forall n | n in names
      ensures Sure(Hub(names, hub, m), n)
    {
      HubDeps(names, hub, m, n, None);
    }
  }

  /** Without declared features exactly the names asked for are on. */
  lemma PlainAreOn(deps: seq<Dep>, features: seq<string>)
    ensures AreOn(Package(deps, map[]), features, {"default"} + Elements(features))
  {
    var pkg, roots := Package(deps, map[]), {"default"} + Elements(features);
    forall x
      ensures x in roots <==> IsOn(pkg, features, x)
    {
      if x in roots {
        RootIsReachable(FeatureSteps(pkg), roots, x);
        assert x !in pkg.features;
      }
      if IsOn(pkg, features, x) {
        assert Closed(FeatureSteps(pkg), roots);
        ReachableStaysInside(FeatureSteps(pkg), roots, roots, x);
      }
    }
  }

  lemma HubUses(names: set<string>, m: string, end: End)
    requires m in names && end.entries != [] && forall e | e in end.entries :: e.package in names
    ensures Uses(Hub(names, end.entries[0].package, m), end, m)
  {
    var e := end.entries[0];
    assert e in end.entries && Considered(Hub(names, e.package, m), e);
    if e.package != m {
      hide *;
      HubHolds(names, m, e);
    }
  }

  lemma DepIsInProduct(g: Graph, entry: string, features: seq<string>, on: set<string>, n: string)
    requires entry in g.pkgs && AreOn(g.pkgs[entry], features, on)
    requires PathDeps(g, g.pkgs[entry].deps, Some(on)).Some? && n in PathDeps(g, g.pkgs[entry].deps, Some(on)).value
    ensures InProduct(g, entry, features, n)
  {
    hide AreOn, PathDeps, Reachable, Stopped, Uncut;
    RootIsReachable(Stopped(Uncut(g), {entry}), Elements(PathDeps(g, g.pkgs[entry].deps, Some(on)).value), n);
  }

  lemma HubHolds(names: set<string>, m: string, e: Entry)
    requires m in names && e.package in names && e.package != m
    ensures InProduct(Hub(names, e.package, m), e.package, e.features, m)
  {
    hide AreOn, PathDeps, InProduct;
    var g := Hub(names, e.package, m);
    var on := {"default"} + Elements(e.features);
    PlainAreOn(g.pkgs[e.package].deps, e.features);
    HubDeps(names, e.package, m, e.package, Some(on));
    DepIsInProduct(g, e.package, e.features, on, m);
  }

  lemma HubUsesOnly(names: set<string>, m: string, hub: string, end: End, n: string)
    requires m in names && (forall e | e in end.entries :: e.package in names) && Uses(Hub(names, hub, m), end, n)
    ensures n == m || exists e :: e in end.entries && n == e.package
  {
    var g := Hub(names, hub, m);
    var e :| e in end.entries && Considered(g, e) && InProduct(g, e.package, e.features, n);
    if n != e.package {
      var on: set<string> :|
        && AreOn(g.pkgs[e.package], e.features, on)
        && PathDeps(g, g.pkgs[e.package].deps, Some(on)).Some?
        && Reachable(Stopped(Uncut(g), {e.package}), Elements(PathDeps(g, g.pkgs[e.package].deps, Some(on)).value), n);
      HubDeps(names, hub, m, e.package, Some(on));
      HubDeps(names, hub, m, m, None);
      assert Closed(Stopped(Uncut(g), {e.package}), {m});
      ReachableStaysInside(Stopped(Uncut(g), {e.package}), Elements(PathDeps(g, g.pkgs[e.package].deps, Some(on)).value), {m}, n);
    }
  }

  /** The program has an answer: see `LockImpact`. */
  ghost predicate Answers(a: Lock, b: Lock, g: Graph) {
    AllHitsKnown(a, b, g) && forall end | end in ENTRIES :: Known(g, end)
  }

  lemma HubAnswers(a: Lock, b: Lock, hub: string, m: string)
    ensures Valid(Hub(Names(a, b, m), hub, m)) && Answers(a, b, Hub(Names(a, b, m), hub, m))
  {
    hide LeadsTo, Changed, Sure;
    HubIsSure(Names(a, b, m), hub, m);
    forall end, e | end in ENTRIES && e in end.entries
      ensures e.package in Names(a, b, m)
    {
    }
  }

  /** Every end that is owed is reported whenever there is an answer. */
  ghost predicate Sound(a: Lock, b: Lock) {
    forall g, end | Valid(g) && Answers(a, b, g) && end in ENTRIES && Owed(a, b, g, end) :: Reported(a, b, g, end)
  }

  /** The end is reported in any case: one of its own packages leads to a changed crate with another name. */
  ghost predicate ReportedAnyway(a: Lock, b: Lock, end: End) {
    exists e :: e in end.entries && LeadsElsewhere(a, b, e.package)
  }

  /** A member that leads to a changed crate called "ws" also leads to one with another name, but for ends that are
      reported in any case. */
  ghost predicate WsIsNotAlone(a: Lock, b: Lock) {
    forall m, x, end | LeadsToChanged(a, b, m, x) && x.name == "ws" && end in ENTRIES ::
      LeadsElsewhere(a, b, m) || ReportedAnyway(a, b, end)
  }

  /** Exactly when the answer is sound: no workspace has an end that is owed and not reported if and only if no
      changed crate called "ws" is the only one that a member leads to, with an end that its own packages do not
      report. */
  lemma SoundExactlyWhen(a: Lock, b: Lock)
    ensures Sound(a, b) <==> WsIsNotAlone(a, b)
  {
    hide *;
    if Sound(a, b) {
      SoundMeansNotAlone(a, b);
    }
    if WsIsNotAlone(a, b) {
      NotAloneMeansSound(a, b);
    }
  }

  lemma SoundMeansNotAlone(a: Lock, b: Lock)
    requires Sound(a, b)
    ensures WsIsNotAlone(a, b)
  {
    hide Valid, LeadsToChanged, LeadsElsewhere, Owed, Reported, Answers, ReportedAnyway, Hub, Names;
    forall m, x, end | LeadsToChanged(a, b, m, x) && x.name == "ws" && end in ENTRIES
      ensures LeadsElsewhere(a, b, m) || ReportedAnyway(a, b, end)
    {
      HubIsOwed(a, b, m, x, end);
      HubAnswers(a, b, end.entries[0].package, m);
      assert Reported(a, b, Hub(Names(a, b, m), end.entries[0].package, m), end);
      ReportedMeansElsewhere(a, b, m, end);
    }
  }

  lemma NotAloneMeansSound(a: Lock, b: Lock)
    requires WsIsNotAlone(a, b)
    ensures Sound(a, b)
  {
    hide Valid, WsIsNotAlone, Owed, Reported;
    forall g, end | Answers(a, b, g) && end in ENTRIES && Owed(a, b, g, end)
      ensures Reported(a, b, g, end)
    {
      OwedIsReported(a, b, g, end);
    }
  }

  lemma OwedIsReported(a: Lock, b: Lock, g: Graph, end: End)
    requires WsIsNotAlone(a, b) && AllHitsKnown(a, b, g) && end in ENTRIES && Owed(a, b, g, end)
    ensures Reported(a, b, g, end)
  {
    hide Uses, InfoDiffers, LeadsTo, LeadsElsewhere, ReportedAnyway, AllHitsKnown;
    var m: string, x: Key :| (Ws(m) in a.edges || Ws(m) in b.edges) && x.Ext? && InfoDiffers(a, b, x)
                && (LeadsTo(EdgesOf(a), Ws(m), x) || LeadsTo(EdgesOf(b), Ws(m), x)) && Uses(g, end, m);
    assert LeadsToChanged(a, b, m, x);
    if x.name != "ws" {
      OtherNameIsElsewhere(a, b, m, x);
    }
    if LeadsElsewhere(a, b, m) {
      LeadsElsewhereMeansHit(a, b, m);
    } else {
      OwnPackageIsReported(a, b, g, end);
    }
  }

  lemma OtherNameIsElsewhere(a: Lock, b: Lock, m: string, x: Key)
    requires LeadsToChanged(a, b, m, x) && x.name != "ws"
    ensures LeadsElsewhere(a, b, m)
  {
    hide InfoDiffers, LeadsTo;
    LeadsToInBoth(a, b, Ws(m), x);
  }

  lemma OwnPackageIsReported(a: Lock, b: Lock, g: Graph, end: End)
    requires AllHitsKnown(a, b, g) && ReportedAnyway(a, b, end)
    ensures Reported(a, b, g, end)
  {
    hide Hit, LeadsElsewhere;
    var e :| e in end.entries && LeadsElsewhere(a, b, e.package);
    LeadsElsewhereMeansHit(a, b, e.package);
    var k :| Hit(a, b, k) && MemberName(k) == e.package;
    assert Considered(g, e) && InProduct(g, e.package, e.features, e.package);
    assert Uses(g, end, e.package);
  }

  lemma HubIsOwed(a: Lock, b: Lock, m: string, x: Key, end: End)
    requires LeadsToChanged(a, b, m, x) && end in ENTRIES
    ensures end.entries != [] && Owed(a, b, Hub(Names(a, b, m), end.entries[0].package, m), end)
  {
    hide Uses, InfoDiffers, LeadsTo;
    HubUses(Names(a, b, m), m, end);
  }

  lemma ReportedMeansElsewhere(a: Lock, b: Lock, m: string, end: End)
    requires end in ENTRIES && Reported(a, b, Hub(Names(a, b, m), end.entries[0].package, m), end)
    ensures LeadsElsewhere(a, b, m) || ReportedAnyway(a, b, end)
  {
    hide Uses, Hit, LeadsElsewhere;
    var names, hub := Names(a, b, m), end.entries[0].package;
    var k :| Hit(a, b, k) && Uses(Hub(names, hub, m), end, MemberName(k));
    HubUsesOnly(names, m, hub, end, MemberName(k));
    LeadsElsewhereMeansHit(a, b, MemberName(k));
  }

  /** A lock file with one member that depends on a crate called "ws". */
  function WithWs(m: string, version: string, source: string, checksum: string): seq<LockPackage> {
    [LockPackage(m, "0.1.0", None, None, [Ref("ws", None, None)]), LockPackage("ws", version, Some(source), Some(checksum), [])]
  }

  lemma WithWsIsRead(m: string, version: string, source: string, checksum: string)
    requires m != "ws"
    ensures var x := Ext("ws", version, source);
            LockGraph(WithWs(m, version, source, checksum), 2)
            == Some(Lock(map[Ws(m) := [x], x := []],
                         map[Ws(m) := Info(None, multiset{Ref("ws", None, None)}), x := Info(Some(checksum), multiset{})]))
  {
    var pkgs, r := WithWs(m, version, source, checksum), Ref("ws", None, None);
    assert pkgs[..1] == [pkgs[0]] && pkgs[..1][..0] == [];
    assert Candidates(pkgs[..1], r) == [];
    assert Candidates(pkgs, r) == [pkgs[1]];
    assert Resolve(pkgs, r) == Some(Ext("ws", version, source));
    hide Resolve, Candidates;
    assert [r][..|[r]| - 1] == [] && ResolveAll(pkgs, []) == Some([]);
    assert [] + [Ext("ws", version, source)] == [Ext("ws", version, source)];
    assert ResolveAll(pkgs, [r]) == Some([Ext("ws", version, source)]);
    assert LockGraph(pkgs, 0) == Some(Lock(map[], map[])) && LockGraph(pkgs, 1).Some?;
  }

  /** The failing inputs: two such lock files that differ in the crate's checksum only. Whatever the workspace, an
      end that uses the member is owed, and the answer is empty. */
  lemma ChangedWsIsMissed(m: string, version: string, source: string, before: string, later: string, g: Graph, end: End)
    requires m != "ws" && before != later && Uses(g, end, m)
    ensures var x, y := LockGraph(WithWs(m, version, source, before), 2), LockGraph(WithWs(m, version, source, later), 2);
            && x.Some? && y.Some?
            && Owed(x.value, y.value, g, end)
            && AllHitsKnown(x.value, y.value, g) && forall other :: !Reported(x.value, y.value, g, other)
  {
    WithWsIsRead(m, version, source, before);
    WithWsIsRead(m, version, source, later);
    var a, b := LockGraph(WithWs(m, version, source, before), 2).value, LockGraph(WithWs(m, version, source, later), 2).value;
    hide LockGraph, WithWs, Uses;
    var x := Ext("ws", version, source);
    RootIsReachable(EdgesOf(a), Elements(EdgesOf(a)(Ws(m))), x);
    assert InfoDiffers(a, b, x) && LeadsTo(EdgesOf(a), Ws(m), x);
    NothingChangedHitsNothing(a, b);
  }

  /** The Android app, for one: it is made of the crate "transport", so it is missed in every workspace when a crate
      called "ws" that this one depends on changes. */
  lemma AndroidIsMissed(version: string, source: string, before: string, later: string, g: Graph)
    requires before != later
    ensures var (x, y) := (LockGraph(WithWs("transport", version, source, before), 2), LockGraph(WithWs("transport", version, source, later), 2));
            && x.Some? && y.Some?
            && ENTRIES[0].name == "android" && Owed(x.value, y.value, g, ENTRIES[0]) && !Reported(x.value, y.value, g, ENTRIES[0])
  {
    var e := Entry("transport", ["mobile-ffi", "mobile-bindgen"]);
    assert e in ENTRIES[0].entries && Considered(g, e) && InProduct(g, "transport", e.features, "transport");
    assert Uses(g, ENTRIES[0], "transport");
    hide Uses, LockGraph, WithWs;
    ChangedWsIsMissed("transport", version, source, before, later, g, ENTRIES[0]);
  }
}
