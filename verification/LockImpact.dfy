/** A changed lock file: the ends whose product holds a workspace member that leads to a changed external
    package, in the lock graph before the change or after it. */
module LockImpact {
  import opened LibraryStore
  import opened Worklist
  import opened RustImpact

  // --- ends --------------------------------------------------------------------------

  const DESKTOP_SHELL := "p-pass-desktop"

  datatype Entry = Entry(package: string, features: seq<string>)
  datatype End = End(name: string, entries: seq<Entry>)

  const ENTRIES: seq<End> := [
    End("android", [Entry("transport", ["mobile-ffi", "mobile-bindgen"])]),
    End("ios", [Entry("transport", ["mobile-ffi", "mobile-bindgen"])]),
    End("macos", [Entry("daemon", []), Entry("decode-worker", []), Entry(DESKTOP_SHELL, [])]),
    End("windows", [Entry("daemon", []), Entry("testclient", []), Entry("decode-worker", []), Entry(DESKTOP_SHELL, [])])
  ]

  /** The desktop shell is left out when its metadata was not given. */
  predicate Considered(g: Graph, e: Entry) {
    e.package == DESKTOP_SHELL ==> e.package in g.pkgs
  }

  /** An end's product holds the crate. */
  ghost predicate Uses(g: Graph, end: End, crate: string) {
    exists e :: e in end.entries && Considered(g, e) && InProduct(g, e.package, e.features, crate)
  }

  /** The metadata give all packages of the end, and every path dependency is one of theirs. */
  predicate Known(g: Graph, end: End) {
    && (forall e | e in end.entries && Considered(g, e) :: e.package in g.pkgs)
    && forall n | n in g.pkgs :: Sure(g, n)
  }

  /** The product of this entry cannot be told, and no entry before it has one of the crates. */
  ghost predicate UnclearAt(g: Graph, end: End, crates: set<string>, i: nat) {
    && i < |end.entries| && Considered(g, end.entries[i])
    && !Answerable(g, end.entries[i].package, end.entries[i].features)
    && forall e, c | e in end.entries[..i] && Considered(g, e) && c in crates :: !InProduct(g, e.package, e.features, c)
  }

  ghost predicate Unclear(g: Graph, end: End, crates: set<string>) {
    exists i: nat :: UnclearAt(g, end, crates, i)
  }

  lemma HitIsClear(g: Graph, end: End, crates: set<string>, i: nat, c: string)
    requires i < |end.entries| && Considered(g, end.entries[i]) && c in crates
    requires InProduct(g, end.entries[i].package, end.entries[i].features, c)
    requires forall e | e in end.entries[..i + 1] && Considered(g, e) :: Answerable(g, e.package, e.features)
    ensures !Unclear(g, end, crates)
  {
    hide InProduct, Answerable, Considered;
    forall k: nat
      ensures !UnclearAt(g, end, crates, k)
    {
      assert k <= i ==> end.entries[k] in end.entries[..i + 1];
      assert i < k < |end.entries| ==> end.entries[i] in end.entries[..k];
    }
  }

  lemma AllClear(g: Graph, end: End, crates: set<string>)
    requires forall e | e in end.entries && Considered(g, e) :: Answerable(g, e.package, e.features)
    ensures !Unclear(g, end, crates)
  {
    hide InProduct, Answerable, Considered;
  }

  /** Entry by entry, up to the first hit. */
  method EntryHits(g: Graph, end: End, crates: set<string>) returns (r: Option<bool>)
    requires Valid(g)
    ensures r.Some? ==> (r.value <==> exists c :: c in crates && Uses(g, end, c))
    ensures Known(g, end) ==> r.Some?
    ensures r.None? <==> Unclear(g, end, crates)
  {
    hide InProduct, Answerable, Unclear;
    for i := 0 to |end.entries|
      invariant forall e | e in end.entries[..i] && Considered(g, e) :: Answerable(g, e.package, e.features)
      invariant forall e, c | e in end.entries[..i] && Considered(g, e) && c in crates :: !InProduct(g, e.package, e.features, c)
    {
      var e := end.entries[i];
      if Considered(g, e) {
        var product := Closure(g, e.package, e.features);
        if product.None? {
          assert UnclearAt(g, end, crates, i) && Unclear(g, end, crates) by {
            UnclearHere(g, end, crates, i);
          }
          return None;
        }
        assert end.entries[..i + 1] == end.entries[..i] + [e];
        if product.value * crates != {} {
          var c :| c in product.value * crates;
          assert e in end.entries && InProduct(g, e.package, e.features, c);
          HitIsClear(g, end, crates, i, c);
          return Some(true);
        }
        assert forall c | c in crates :: c !in product.value * crates;
      }
      assert end.entries[..i + 1] == end.entries[..i] + [e];
    }
    assert end.entries[..|end.entries|] == end.entries;
    AllClear(g, end, crates);
    return Some(false);
  }

  lemma UnclearHere(g: Graph, end: End, crates: set<string>, i: nat)
    requires UnclearAt(g, end, crates, i)
    ensures Unclear(g, end, crates)
  {
    hide UnclearAt;
  }

  /** Those of the ends, in their order, that use one of the crates. */
  ghost function UsersAmong(g: Graph, ends: seq<End>, crates: set<string>): seq<End> {
    if ends == [] then []
    else
      var last := ends[|ends| - 1];
      UsersAmong(g, ends[..|ends| - 1], crates) + if exists c :: c in crates && Uses(g, last, c) then [last] else []
  }

  lemma {:induction false} NobodyUsesNothing(g: Graph, ends: seq<End>)
    ensures UsersAmong(g, ends, {}) == []
  {
    if ends != [] {
      NobodyUsesNothing(g, ends[..|ends| - 1]);
    }
  }

  /** The entries of each end, as the release builds it. */
  lemma EntriesAre()
    ensures |ENTRIES| == 4
    ensures ENTRIES[0] == End("android", [Entry("transport", ["mobile-ffi", "mobile-bindgen"])])
    ensures ENTRIES[1] == End("ios", [Entry("transport", ["mobile-ffi", "mobile-bindgen"])])
    ensures ENTRIES[2] == End("macos", [Entry("daemon", []), Entry("decode-worker", []), Entry("p-pass-desktop", [])])
    ensures ENTRIES[3].name == "windows"
    ensures ENTRIES[3].entries == [Entry("daemon", []), Entry("testclient", []), Entry("decode-worker", []), Entry("p-pass-desktop", [])]
    ensures forall g, e :: !Considered(g, e) <==> e.package == "p-pass-desktop" && "p-pass-desktop" !in g.pkgs
  {
  }

  method EndsUsing(g: Graph, ends: seq<End>, crates: set<string>) returns (r: Option<seq<End>>)
    requires Valid(g)
    ensures r.Some? ==> r.value == UsersAmong(g, ends, crates)
    ensures r.Some? ==> forall end :: end in r.value <==> end in ends && exists c :: c in crates && Uses(g, end, c)
    ensures (forall end | end in ends :: Known(g, end)) ==> r.Some?
    ensures r.None? <==> exists end :: end in ends && Unclear(g, end, crates)
  {
    hide Uses, Known, Unclear;
    var found: seq<End> := [];
    for i := 0 to |ends|
      invariant forall end :: end in found <==> end in ends[..i] && exists c :: c in crates && Uses(g, end, c)
      invariant found == UsersAmong(g, ends[..i], crates)
      invariant forall end | end in ends[..i] :: !Unclear(g, end, crates)
    {
      assert ends[..i + 1][..i] == ends[..i];
      var hit := EntryHits(g, ends[i], crates);
      if hit.None? {
        return None;
      }
      assert ends[..i + 1] == ends[..i] + [ends[i]];
      if hit.value {
        found := found + [ends[i]];
      }
    }
    assert ends[..|ends|] == ends;
    return Some(found);
  }

  // --- the lock file ----------------------------------------------------------------------

  datatype Ref = Ref(name: string, version: Option<string>, source: Option<string>)

  datatype LockPackage = LockPackage(name: string, version: string, source: Option<string>, checksum: Option<string>, deps: seq<Ref>)

  datatype Key = Ws(name: string) | Ext(name: string, version: string, source: string)

  datatype Info = Info(checksum: Option<string>, deps: multiset<Ref>)

  /** Dependencies and contents of the packages of one lock file. */
  datatype Lock = Lock(edges: map<Key, seq<Key>>, info: map<Key, Info>)

  function KeyOf(p: LockPackage): Key {
    if p.source.None? then Ws(p.name) else Ext(p.name, p.version, p.source.value)
  }

  predicate Matches(p: LockPackage, r: Ref) {
    && p.name == r.name
    && (r.version.Some? ==> p.version == r.version.value)
    && (r.source.Some? ==> p.source == r.source)
  }

  function Candidates(pkgs: seq<LockPackage>, r: Ref): seq<LockPackage> {
    if pkgs == [] then []
    else
      var init, last := Candidates(pkgs[..|pkgs| - 1], r), pkgs[|pkgs| - 1];
      if Matches(last, r) then init + [last] else init
  }

  /** The one package that a dependency names; `None` (unsure) when there is none or more than one. */
  function Resolve(pkgs: seq<LockPackage>, r: Ref): Option<Key> {
    var found := Candidates(pkgs, r);
    if |found| == 1 then Some(KeyOf(found[0])) else None
  }

  function ResolveAll(pkgs: seq<LockPackage>, refs: seq<Ref>): Option<seq<Key>> {
    if refs == [] then Some([])
    else
      match (ResolveAll(pkgs, refs[..|refs| - 1]), Resolve(pkgs, refs[|refs| - 1]))
      case (Some(init), Some(k)) => Some(init + [k])
      case _ => None
  }

  /** The graph of the first `n` packages. */
  function LockGraph(pkgs: seq<LockPackage>, n: nat): Option<Lock>
    requires n <= |pkgs|
  {
    if n == 0 then Some(Lock(map[], map[]))
    else
      var p := pkgs[n - 1];
      match (LockGraph(pkgs, n - 1), ResolveAll(pkgs, p.deps))
      case (Some(lock), Some(keys)) =>
        Some(Lock(lock.edges[KeyOf(p) := keys], lock.info[KeyOf(p) := Info(p.checksum, multiset(p.deps))]))
      case _ => None
  }

  lemma {:induction false} CandidatesAreExact(pkgs: seq<LockPackage>, r: Ref)
    ensures forall p :: p in Candidates(pkgs, r) <==> p in pkgs && Matches(p, r)
  {
    if pkgs != [] {
      CandidatesAreExact(pkgs[..|pkgs| - 1], r);
      assert pkgs == pkgs[..|pkgs| - 1] + [pkgs[|pkgs| - 1]];
    }
  }

  lemma {:induction false} ResolvedAreInPackages(pkgs: seq<LockPackage>, refs: seq<Ref>)
    requires ResolveAll(pkgs, refs).Some?
    ensures forall k | k in ResolveAll(pkgs, refs).value :: exists p :: p in pkgs && KeyOf(p) == k
  {
    if refs != [] {
      ResolvedAreInPackages(pkgs, refs[..|refs| - 1]);
      var r := refs[|refs| - 1];
      CandidatesAreExact(pkgs, r);
      assert Candidates(pkgs, r)[0] in Candidates(pkgs, r);
    }
  }

  /** A lock graph is closed: every dependency that was resolved is a package of the file. */
  predicate WellFounded(lock: Lock) {
    && lock.edges.Keys == lock.info.Keys
    && forall k, m | k in lock.edges && m in lock.edges[k] :: m in lock.edges
  }

  lemma {:induction false} LockGraphKeys(pkgs: seq<LockPackage>, n: nat)
    requires n <= |pkgs| && LockGraph(pkgs, n).Some?
    ensures var lock := LockGraph(pkgs, n).value;
            && lock.edges.Keys == lock.info.Keys
            && (forall i | 0 <= i < n :: KeyOf(pkgs[i]) in lock.edges)
            && (forall k, m | k in lock.edges && m in lock.edges[k] :: exists p :: p in pkgs && KeyOf(p) == m)
  {
    if n > 0 {
      LockGraphKeys(pkgs, n - 1);
      ResolvedAreInPackages(pkgs, pkgs[n - 1].deps);
      hide ResolveAll;
    }
  }

  lemma LockGraphIsWellFounded(pkgs: seq<LockPackage>)
    requires LockGraph(pkgs, |pkgs|).Some?
    ensures WellFounded(LockGraph(pkgs, |pkgs|).value)
  {
    LockGraphKeys(pkgs, |pkgs|);
    hide LockGraph;
    var lock := LockGraph(pkgs, |pkgs|).value;
    forall k, m | k in lock.edges && m in lock.edges[k]
      ensures m in lock.edges
    {
      var p :| p in pkgs && KeyOf(p) == m;
      var i :| 0 <= i < |pkgs| && pkgs[i] == p;
    }
  }

  // --- the impact -------------------------------------------------------------------------

  /** How the program tells workspace members from external packages: by the first part of the key, which is
      "ws" for a member, and the name for an external package. */
  predicate LooksLikeMember(k: Key) {
    k.Ws? || k.name == "ws"
  }

  /** The second part of a key. */
  function MemberName(k: Key): string {
    if k.Ws? then k.name else k.version
  }

  predicate InfoDiffers(a: Lock, b: Lock, k: Key) {
    (k in a.info || k in b.info) && !(k in a.info && k in b.info && a.info[k] == b.info[k])
  }

  /** What the program takes for changed. */
  predicate Changed(a: Lock, b: Lock, k: Key) {
    !LooksLikeMember(k) && InfoDiffers(a, b, k)
  }

  function EdgesOf(lock: Lock): Key -> seq<Key> {
    k => if k in lock.edges then lock.edges[k] else []
  }

  function BothEdges(a: Lock, b: Lock): Key -> seq<Key> {
    k => EdgesOf(a)(k) + EdgesOf(b)(k)
  }

  /** A member leads to a package over at least one dependency. */
  ghost predicate LeadsTo(succ: Key -> seq<Key>, k: Key, x: Key) {
    Reachable(succ, Elements(succ(k)), x)
  }

  ghost predicate Hit(a: Lock, b: Lock, k: Key) {
    && (k in a.edges || k in b.edges) && LooksLikeMember(k)
    && exists x :: Changed(a, b, x) && LeadsTo(BothEdges(a, b), k, x)
  }

  /** The metadata know every member that is hit; otherwise there is no answer. */
  ghost predicate AllHitsKnown(a: Lock, b: Lock, g: Graph) {
    forall k | Hit(a, b, k) :: MemberName(k) in g.pkgs
  }

  lemma BothStayKnown(a: Lock, b: Lock)
    requires WellFounded(a) && WellFounded(b)
    ensures Closed(BothEdges(a, b), a.edges.Keys + b.edges.Keys)
  {
    forall n, m | n in a.edges.Keys + b.edges.Keys && m in BothEdges(a, b)(n)
      ensures m in a.edges.Keys + b.edges.Keys
    {
      assert m in EdgesOf(a)(n) || m in EdgesOf(b)(n);
    }
  }

  method HitBy(a: Lock, b: Lock, k: Key, changed: set<Key>) returns (hit: bool)
    requires WellFounded(a) && WellFounded(b) && forall x :: x in changed <==> Changed(a, b, x)
    requires (k in a.edges || k in b.edges) && LooksLikeMember(k)
    ensures hit <==> Hit(a, b, k)
  {
    var both := BothEdges(a, b);
    BothStayKnown(a, b);
    assert Elements(both(k)) <= a.edges.Keys + b.edges.Keys;
    var seen := Collect(both, both(k), {}, a.edges.Keys + b.edges.Keys);
    forall x
      ensures x in seen <==> LeadsTo(both, k, x)
    {
      NothingIsStopped(both, Elements(both(k)), x);
    }
    hide LeadsTo, Changed, Reachable, Stopped;
    hit := seen * changed != {};
    if hit {
      var x :| x in seen * changed;
      assert Changed(a, b, x) && LeadsTo(BothEdges(a, b), k, x);
    } else {
      forall x | Changed(a, b, x)
        ensures !LeadsTo(BothEdges(a, b), k, x)
      {
        assert x in changed && x !in seen * changed;
      }
    }
  }

  /** Over the members in any order; a member that the metadata does not know makes it unsure. */
  method HitMembers(a: Lock, b: Lock, g: Graph, changed: set<Key>) returns (r: Option<set<string>>)
    requires WellFounded(a) && WellFounded(b) && forall x :: x in changed <==> Changed(a, b, x)
    ensures r.Some? <==> AllHitsKnown(a, b, g)
    ensures r.Some? ==> forall m :: m in r.value <==> exists k :: Hit(a, b, k) && MemberName(k) == m
  {
    hide Hit, WellFounded, Changed;
    var members := set k | k in a.edges.Keys + b.edges.Keys && LooksLikeMember(k);
    var todo := members;
    var hits: set<string> := {};
    HitsAreMembers(a, b);
    while todo != {}
      invariant todo <= members
      invariant forall m :: m in hits <==> exists k :: k in members - todo && Hit(a, b, k) && MemberName(k) == m
      invariant hits <= g.pkgs.Keys
      decreases |todo|
    {
      var k :| k in todo;
      var hit := HitBy(a, b, k, changed);
      if hit && MemberName(k) !in g.pkgs {
        return None;
      }
      if hit {
        hits := hits + {MemberName(k)};
      }
      todo := todo - {k};
      assert forall j :: j in members - todo <==> j in members - (todo + {k}) || j == k;
    }
    assert forall k | Hit(a, b, k) :: k in members - todo && MemberName(k) in hits;
    r := Some(hits);
  }

  /** The ends that a change of the lock file concerns. */
  method LockImpact(a: Lock, b: Lock, g: Graph) returns (r: Option<seq<End>>)
    requires WellFounded(a) && WellFounded(b) && Valid(g)
    ensures r.Some? ==> forall end :: end in r.value <==>
              end in ENTRIES && exists k :: Hit(a, b, k) && Uses(g, end, MemberName(k))
    ensures r.Some? ==> r.value == UsersAmong(g, ENTRIES, HitNames(a, b))
    ensures r.Some? ==> AllHitsKnown(a, b, g)
    ensures r.None? <==> (exists x :: Changed(a, b, x))
                         && (!AllHitsKnown(a, b, g) || exists end :: end in ENTRIES && Unclear(g, end, HitNames(a, b)))
    ensures AllHitsKnown(a, b, g) && (forall end | end in ENTRIES :: Known(g, end)) ==> r.Some?
  {
    hide Hit, Uses, InfoDiffers, WellFounded, Known, Unclear, HitNames, UsersAmong;
    HitNamesAre(a, b);
    var changed := set k | k in a.info.Keys + b.info.Keys && Changed(a, b, k);
    assert forall x :: x in changed <==> Changed(a, b, x) by {
      ChangedAreInfo(a, b);
    }
    if changed == {} {
      NothingChangedHitsNothing(a, b);
      NobodyUsesNothing(g, ENTRIES);
      assert HitNames(a, b) == {};
      return Some([]);
    }
    var hits := HitMembers(a, b, g, changed);
    if hits.None? {
      return None;
    }
    assert hits.value == HitNames(a, b);
    r := EndsUsing(g, ENTRIES, hits.value);
  }

  /** The members that lead to a change, by name. */
  ghost function HitNames(a: Lock, b: Lock): set<string> {
    set k | k in a.edges.Keys + b.edges.Keys && Hit(a, b, k) :: MemberName(k)
  }

  lemma HitNamesAre(a: Lock, b: Lock)
    ensures forall m :: m in HitNames(a, b) <==> exists k :: Hit(a, b, k) && MemberName(k) == m
  {
    HitsAreMembers(a, b);
    hide Hit;
  }

  lemma ChangedAreInfo(a: Lock, b: Lock)
    ensures forall x | Changed(a, b, x) :: x in a.info.Keys + b.info.Keys
  {
  }

  lemma HitsAreMembers(a: Lock, b: Lock)
    ensures forall k | Hit(a, b, k) :: k in a.edges.Keys + b.edges.Keys && LooksLikeMember(k)
  {
  }

  lemma NothingChangedHitsNothing(a: Lock, b: Lock)
    requires forall x :: !Changed(a, b, x)
    ensures forall k :: !Hit(a, b, k)
  {
  }

  // --- never too few ------------------------------------------------------------------------

  /** What an answer must hold: every end whose product has a member that leads, in the old graph or in the new
      one, to an external package whose contents differ. */
  ghost predicate Owed(a: Lock, b: Lock, g: Graph, end: End) {
    exists m: string, x: Key :: (Ws(m) in a.edges || Ws(m) in b.edges) && x.Ext? && InfoDiffers(a, b, x)
                   && (LeadsTo(EdgesOf(a), Ws(m), x) || LeadsTo(EdgesOf(b), Ws(m), x)) && Uses(g, end, m)
  }

  /** What the program reports, see `LockImpact`. */
  ghost predicate Reported(a: Lock, b: Lock, g: Graph, end: End) {
    exists k :: Hit(a, b, k) && Uses(g, end, MemberName(k))
  }

  lemma LeadsToInBoth(a: Lock, b: Lock, k: Key, x: Key)
    requires LeadsTo(EdgesOf(a), k, x) || LeadsTo(EdgesOf(b), k, x)
    ensures LeadsTo(BothEdges(a, b), k, x)
  {
    var both := BothEdges(a, b);
    assert Elements(EdgesOf(a)(k)) <= Elements(both(k)) && Elements(EdgesOf(b)(k)) <= Elements(both(k));
    if LeadsTo(EdgesOf(a), k, x) {
      MoreEdgesReachMore(EdgesOf(a), both, Elements(EdgesOf(a)(k)), Elements(both(k)), x);
    } else {
      MoreEdgesReachMore(EdgesOf(b), both, Elements(EdgesOf(b)(k)), Elements(both(k)), x);
    }
  }

  /** Sound, as long as no external crate that changed is called "ws". */
  lemma NeverTooFew(a: Lock, b: Lock, g: Graph, end: End)
    requires forall x: Key | x.Ext? && InfoDiffers(a, b, x) :: x.name != "ws"
    requires Owed(a, b, g, end)
    ensures Reported(a, b, g, end)
  {
    hide Uses, InfoDiffers, LeadsTo;
    var m: string, x: Key :| (Ws(m) in a.edges || Ws(m) in b.edges) && x.Ext? && InfoDiffers(a, b, x)
                && (LeadsTo(EdgesOf(a), Ws(m), x) || LeadsTo(EdgesOf(b), Ws(m), x)) && Uses(g, end, m);
    LeadsToInBoth(a, b, Ws(m), x);
    assert Changed(a, b, x);
    assert Hit(a, b, Ws(m)) && MemberName(Ws(m)) == m;
  }
}
