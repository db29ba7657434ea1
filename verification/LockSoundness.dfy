/** The impact of a changed lock file, said about the two files themselves: lists of packages that name their
    dependencies. */
module LockSoundness {
  import opened LibraryStore
  import opened Worklist
  import opened RustImpact
  import opened LockImpact

  // --- what a lock file says ------------------------------------------------------------------

  /** A package without a source is a member of the workspace, known by its name; another one is known by its name,
      version and source. */
  predicate IsOf(p: LockPackage, k: Key) {
    match k
    case Ws(name) => p.source.None? && p.name == name
    case Ext(name, version, source) => p.source == Some(source) && p.name == name && p.version == version
  }

  /** The last entry of a package among the first `n`. */
  ghost predicate LastOf(pkgs: seq<LockPackage>, n: nat, k: Key, i: nat)
    requires n <= |pkgs|
  {
    i < n && IsOf(pkgs[i], k) && forall j | i < j < n :: !IsOf(pkgs[j], k)
  }

  /** The entry of a package: the last one, should there be several. */
  ghost predicate EntryOf(pkgs: seq<LockPackage>, k: Key, i: nat) {
    LastOf(pkgs, |pkgs|, k, i)
  }

  ghost predicate Listed(pkgs: seq<LockPackage>, k: Key) {
    exists p :: p in pkgs && IsOf(p, k)
  }

  /** A reference fits a package with its name and, where it says so, its version and source. */
  predicate Fits(r: Ref, p: LockPackage) {
    && p.name == r.name
    && (r.version == None || r.version == Some(p.version))
    && (r.source == None || r.source == p.source)
  }

  /** The reference means that package: no other entry fits it. */
  ghost predicate Means(pkgs: seq<LockPackage>, r: Ref, m: Key) {
    exists i :: 0 <= i < |pkgs| && MeansEntry(pkgs, r, m, i)
  }

  ghost predicate MeansEntry(pkgs: seq<LockPackage>, r: Ref, m: Key, i: nat)
    requires i < |pkgs|
  {
    Fits(r, pkgs[i]) && IsOf(pkgs[i], m) && forall j | 0 <= j < |pkgs| && j != i :: !Fits(r, pkgs[j])
  }

  ghost predicate DependsOn(pkgs: seq<LockPackage>, k: Key, m: Key) {
    exists i: nat, r :: EntryOf(pkgs, k, i) && r in pkgs[i].deps && Means(pkgs, r, m)
  }

  /** The package is in one file only, or has another checksum or other dependencies in the other. */
  ghost predicate Differs(before: seq<LockPackage>, later: seq<LockPackage>, k: Key) {
    || (Listed(before, k) && !Listed(later, k))
    || (!Listed(before, k) && Listed(later, k))
    || exists i: nat, j: nat :: EntryOf(before, k, i) && EntryOf(later, k, j)
                      && (before[i].checksum != later[j].checksum || multiset(before[i].deps) != multiset(later[j].deps))
  }

  // --- the graph that is built says the same ------------------------------------------------------

  lemma KeyIsRight(p: LockPackage, k: Key)
    ensures KeyOf(p) == k <==> IsOf(p, k)
  {
  }

  lemma MatchIsRight(p: LockPackage, r: Ref)
    ensures Matches(p, r) <==> Fits(r, p)
  {
  }

  lemma {:induction false} NoCandidate(pkgs: seq<LockPackage>, r: Ref)
    ensures Candidates(pkgs, r) == [] <==> forall i | 0 <= i < |pkgs| :: !Fits(r, pkgs[i])
  {
    if pkgs != [] {
      var init, last := pkgs[..|pkgs| - 1], pkgs[|pkgs| - 1];
      MatchIsRight(last, r);
      NoCandidate(init, r);
      hide Fits, Matches;
      assert forall i | 0 <= i < |init| :: init[i] == pkgs[i];
    }
  }

  /** The place of the only one that fits. */
  ghost predicate OnlyAt(pkgs: seq<LockPackage>, r: Ref, i: nat)
    requires i < |pkgs|
  {
    Fits(r, pkgs[i]) && forall j | 0 <= j < |pkgs| && j != i :: !Fits(r, pkgs[j])
  }

  lemma {:induction false} OneCandidate(pkgs: seq<LockPackage>, r: Ref)
    ensures |Candidates(pkgs, r)| == 1 <==> exists i :: 0 <= i < |pkgs| && OnlyAt(pkgs, r, i)
    ensures forall i | 0 <= i < |pkgs| && OnlyAt(pkgs, r, i) :: Candidates(pkgs, r) == [pkgs[i]]
  {
    if pkgs != [] {
      var n := |pkgs| - 1;
      var init, last := pkgs[..n], pkgs[n];
      MatchIsRight(last, r);
      NoCandidate(init, r);
      OneCandidate(init, r);
      hide Fits, Matches;
      assert forall i | 0 <= i < n :: init[i] == pkgs[i];
      if Fits(r, last) {
        LastFits(pkgs, r);
      } else {
        LastDoesNot(pkgs, r);
      }
    }
  }

  lemma LastFits(pkgs: seq<LockPackage>, r: Ref)
    requires pkgs != [] && Fits(r, pkgs[|pkgs| - 1])
    ensures var n := |pkgs| - 1;
            var none := forall j | 0 <= j < n :: !Fits(r, pkgs[..n][j]);
            && (OnlyAt(pkgs, r, n) <==> none)
            && forall i | 0 <= i < n :: !OnlyAt(pkgs, r, i)
  {
    hide Fits;
    var n := |pkgs| - 1;
    assert forall j | 0 <= j < n :: pkgs[..n][j] == pkgs[j];
  }

  lemma LastDoesNot(pkgs: seq<LockPackage>, r: Ref)
    requires pkgs != [] && !Fits(r, pkgs[|pkgs| - 1])
    ensures var n := |pkgs| - 1;
            !OnlyAt(pkgs, r, n) && forall i | 0 <= i < n :: OnlyAt(pkgs, r, i) <==> OnlyAt(pkgs[..n], r, i)
  {
    hide Fits;
    var n := |pkgs| - 1;
    assert forall j | 0 <= j < n :: pkgs[..n][j] == pkgs[j];
  }

  lemma ResolvesExactlyWhen(pkgs: seq<LockPackage>, r: Ref, m: Key)
    ensures Resolve(pkgs, r) == Some(m) <==> Means(pkgs, r, m)
  {
    OneCandidate(pkgs, r);
    hide Candidates, Fits, IsOf, KeyOf;
    if Resolve(pkgs, r) == Some(m) {
      var i :| 0 <= i < |pkgs| && OnlyAt(pkgs, r, i);
      KeyIsRight(pkgs[i], m);
      assert MeansEntry(pkgs, r, m, i);
    }
    if i :| 0 <= i < |pkgs| && MeansEntry(pkgs, r, m, i) {
      KeyIsRight(pkgs[i], m);
      assert OnlyAt(pkgs, r, i);
    }
  }

  lemma {:induction false} AllResolve(pkgs: seq<LockPackage>, refs: seq<Ref>, m: Key)
    requires ResolveAll(pkgs, refs).Some?
    ensures m in ResolveAll(pkgs, refs).value <==> exists r :: r in refs && Means(pkgs, r, m)
  {
    hide Resolve, Means;
    if refs != [] {
      var init, last := refs[..|refs| - 1], refs[|refs| - 1];
      AllResolve(pkgs, init, m);
      ResolvesExactlyWhen(pkgs, last, m);
      assert refs == init + [last];
      assert forall r :: r in refs <==> r in init || r == last;
    }
  }

  ghost predicate Among(pkgs: seq<LockPackage>, n: nat, k: Key)
    requires n <= |pkgs|
  {
    exists i :: 0 <= i < n && IsOf(pkgs[i], k)
  }

  /** What stands in the graph of the first `n` packages. */
  ghost predicate Holds(pkgs: seq<LockPackage>, n: nat, lock: Lock, k: Key)
    requires n <= |pkgs|
  {
    && (k in lock.info <==> Among(pkgs, n, k))
    && (k in lock.edges <==> k in lock.info)
    && forall i: nat | LastOf(pkgs, n, k, i) ::
         && k in lock.info && lock.info[k] == Info(pkgs[i].checksum, multiset(pkgs[i].deps))
         && ResolveAll(pkgs, pkgs[i].deps) == Some(lock.edges[k])
  }

  lemma {:induction false} GraphHolds(pkgs: seq<LockPackage>, n: nat, k: Key)
    requires n <= |pkgs| && LockGraph(pkgs, n).Some?
    ensures Holds(pkgs, n, LockGraph(pkgs, n).value, k)
  {
    hide ResolveAll, IsOf;
    if n > 0 {
      GraphHolds(pkgs, n - 1, k);
      KeyIsRight(pkgs[n - 1], k);
      hide KeyOf;
      OneMoreHolds(pkgs, n, LockGraph(pkgs, n - 1).value, LockGraph(pkgs, n).value, k);
    }
  }

  lemma OneMoreHolds(pkgs: seq<LockPackage>, n: nat, init: Lock, lock: Lock, k: Key)
    requires 0 < n <= |pkgs| && Holds(pkgs, n - 1, init, k) && (KeyOf(pkgs[n - 1]) == k <==> IsOf(pkgs[n - 1], k))
    requires var p := pkgs[n - 1];
             && ResolveAll(pkgs, p.deps).Some?
             && lock == Lock(init.edges[KeyOf(p) := ResolveAll(pkgs, p.deps).value],
                             init.info[KeyOf(p) := Info(p.checksum, multiset(p.deps))])
    ensures Holds(pkgs, n, lock, k)
  {
    hide ResolveAll, IsOf, KeyOf;
    if IsOf(pkgs[n - 1], k) {
      assert forall i: nat | LastOf(pkgs, n, k, i) :: i == n - 1;
    } else {
      assert forall i: nat :: LastOf(pkgs, n, k, i) <==> LastOf(pkgs, n - 1, k, i);
      assert Among(pkgs, n, k) <==> Among(pkgs, n - 1, k);
    }
  }

  lemma {:induction false} LastIsThere(pkgs: seq<LockPackage>, n: nat, k: Key) returns (i: nat)
    requires n <= |pkgs| && Among(pkgs, n, k)
    ensures LastOf(pkgs, n, k, i)
  {
    hide IsOf;
    if IsOf(pkgs[n - 1], k) {
      i := n - 1;
    } else {
      i := LastIsThere(pkgs, n - 1, k);
    }
  }

  lemma ListedHasEntry(pkgs: seq<LockPackage>, k: Key)
    ensures Listed(pkgs, k) <==> Among(pkgs, |pkgs|, k)
    ensures forall i: nat | EntryOf(pkgs, k, i) :: Listed(pkgs, k)
    ensures Listed(pkgs, k) ==> exists i: nat :: EntryOf(pkgs, k, i)
  {
    hide IsOf;
    if Listed(pkgs, k) {
      var p :| p in pkgs && IsOf(p, k);
      var i :| 0 <= i < |pkgs| && pkgs[i] == p;
      assert Among(pkgs, |pkgs|, k);
      var l := LastIsThere(pkgs, |pkgs|, k);
      assert EntryOf(pkgs, k, l);
    }
  }

  /** The graph of a lock file is what the file says: who is listed, with which contents, and who depends on whom. */
  lemma GraphIsExact(pkgs: seq<LockPackage>, k: Key)
    requires LockGraph(pkgs, |pkgs|).Some?
    ensures var lock := LockGraph(pkgs, |pkgs|).value;
            && (k in lock.info <==> Listed(pkgs, k)) && (k in lock.edges <==> Listed(pkgs, k))
            && (forall i: nat | EntryOf(pkgs, k, i) :: k in lock.info && lock.info[k] == Info(pkgs[i].checksum, multiset(pkgs[i].deps)))
            && (forall m :: m in EdgesOf(lock)(k) <==> DependsOn(pkgs, k, m))
  {
    var lock := LockGraph(pkgs, |pkgs|).value;
    GraphHolds(pkgs, |pkgs|, k);
    ListedHasEntry(pkgs, k);
    hide LockGraph, IsOf, Listed, Means, ResolveAll, Among, LastOf, DependsOn;
    forall m
      ensures m in EdgesOf(lock)(k) <==> DependsOn(pkgs, k, m)
    {
      EdgesAreExact(pkgs, lock, k, m);
    }
  }

  lemma EdgesAreExact(pkgs: seq<LockPackage>, lock: Lock, k: Key, m: Key)
    requires Holds(pkgs, |pkgs|, lock, k)
    ensures m in EdgesOf(lock)(k) <==> DependsOn(pkgs, k, m)
  {
    ListedHasEntry(pkgs, k);
    hide IsOf, Listed, Means, ResolveAll, Among;
    if Listed(pkgs, k) {
      var i: nat :| EntryOf(pkgs, k, i);
      EntryIsOne(pkgs, k, i);
      AllResolve(pkgs, pkgs[i].deps, m);
    }
  }

  lemma DiffersExactlyWhen(before: seq<LockPackage>, later: seq<LockPackage>, k: Key)
    requires LockGraph(before, |before|).Some? && LockGraph(later, |later|).Some?
    ensures InfoDiffers(LockGraph(before, |before|).value, LockGraph(later, |later|).value, k) <==> Differs(before, later, k)
  {
    GraphIsExact(before, k);
    GraphIsExact(later, k);
    ListedHasEntry(before, k);
    ListedHasEntry(later, k);
    hide LockGraph, Listed, EntryOf, DependsOn, EdgesOf;
    if Listed(before, k) && Listed(later, k) {
      var i: nat, j: nat :| EntryOf(before, k, i) && EntryOf(later, k, j);
      EntryIsOne(before, k, i);
      EntryIsOne(later, k, j);
    }
  }

  lemma EntryIsOne(pkgs: seq<LockPackage>, k: Key, i: nat)
    requires EntryOf(pkgs, k, i)
    ensures forall j: nat | EntryOf(pkgs, k, j) :: j == i
  {
    hide IsOf;
  }

  // --- paths -------------------------------------------------------------------------------------

  /** A chain of dependencies, each in one of the two files. */
  ghost predicate Chain(before: seq<LockPackage>, later: seq<LockPackage>, p: seq<Key>) {
    |p| >= 2 && forall i | 0 <= i < |p| - 1 :: DependsOn(before, p[i], p[i + 1]) || DependsOn(later, p[i], p[i + 1])
  }

  ghost predicate ChainTo(before: seq<LockPackage>, later: seq<LockPackage>, k: Key, x: Key) {
    exists p :: Chain(before, later, p) && p[0] == k && p[|p| - 1] == x
  }

  /** The graph has the dependencies of both files. */
  ghost predicate SameSteps(succ: Key -> seq<Key>, before: seq<LockPackage>, later: seq<LockPackage>) {
    forall n, m :: m in succ(n) <==> DependsOn(before, n, m) || DependsOn(later, n, m)
  }

  lemma StepsAreEdges(before: seq<LockPackage>, later: seq<LockPackage>)
    requires LockGraph(before, |before|).Some? && LockGraph(later, |later|).Some?
    ensures SameSteps(BothEdges(LockGraph(before, |before|).value, LockGraph(later, |later|).value), before, later)
  {
    hide LockGraph, DependsOn, EdgesOf;
    var a, b := LockGraph(before, |before|).value, LockGraph(later, |later|).value;
    forall k, m
      ensures m in BothEdges(a, b)(k) <==> DependsOn(before, k, m) || DependsOn(later, k, m)
    {
      GraphIsExact(before, k);
      GraphIsExact(later, k);
    }
  }

  lemma PathIsChain(succ: Key -> seq<Key>, before: seq<LockPackage>, later: seq<LockPackage>, k: Key, x: Key)
    requires SameSteps(succ, before, later) && LeadsTo(succ, k, x)
    ensures ChainTo(before, later, k, x)
  {
    hide DependsOn;
    var p :| Worklist.Path(succ, p) && p[0] in Elements(succ(k)) && p[|p| - 1] == x;
    var q := [k] + p;
    forall i | 0 <= i < |q| - 1
      ensures DependsOn(before, q[i], q[i + 1]) || DependsOn(later, q[i], q[i + 1])
    {
      assert q[i + 1] == p[i] && (i > 0 ==> q[i] == p[i - 1] && p[i - 1 + 1] in succ(p[i - 1]));
      assert q[i + 1] in succ(q[i]);
    }
    assert Chain(before, later, q);
  }

  lemma ChainIsPath(succ: Key -> seq<Key>, before: seq<LockPackage>, later: seq<LockPackage>, k: Key, x: Key)
    requires SameSteps(succ, before, later) && ChainTo(before, later, k, x)
    ensures LeadsTo(succ, k, x)
  {
    hide DependsOn;
    var p :| Chain(before, later, p) && p[0] == k && p[|p| - 1] == x;
    var q := p[1..];
    forall i | 0 <= i < |q| - 1
      ensures q[i + 1] in succ(q[i])
    {
      assert q[i] == p[i + 1] && q[i + 1] == p[i + 1 + 1];
    }
    assert p[0 + 1] in succ(p[0]);
    assert Worklist.Path(succ, q) && q[0] in Elements(succ(k)) && q[|q| - 1] == x;
  }

  lemma LeadsExactlyWhen(before: seq<LockPackage>, later: seq<LockPackage>, k: Key, x: Key)
    requires LockGraph(before, |before|).Some? && LockGraph(later, |later|).Some?
    ensures LeadsTo(BothEdges(LockGraph(before, |before|).value, LockGraph(later, |later|).value), k, x)
            <==> ChainTo(before, later, k, x)
  {
    var both := BothEdges(LockGraph(before, |before|).value, LockGraph(later, |later|).value);
    StepsAreEdges(before, later);
    hide LockGraph, DependsOn, BothEdges, SameSteps, LeadsTo, ChainTo;
    if LeadsTo(both, k, x) {
      PathIsChain(both, before, later, k, x);
    }
    if ChainTo(before, later, k, x) {
      ChainIsPath(both, before, later, k, x);
    }
  }

  // --- soundness ---------------------------------------------------------------------------------

  /** What the program takes for a member, by the first part of its key, and under which name. */
  ghost predicate TakenFor(k: Key, m: string) {
    k == Ws(m) || (k.Ext? && k.name == "ws" && k.version == m)
  }

  /** An end is reported if and only if it uses a member that leads, over dependencies of either file, to an external
      package (not called "ws") that differs. */
  lemma ReportedExactlyWhen(before: seq<LockPackage>, later: seq<LockPackage>, g: Graph, end: End)
    requires LockGraph(before, |before|).Some? && LockGraph(later, |later|).Some?
    ensures Reported(LockGraph(before, |before|).value, LockGraph(later, |later|).value, g, end)
            <==> exists m, k, x: Key :: TakenFor(k, m) && Uses(g, end, m) && x.Ext? && x.name != "ws"
                                        && Differs(before, later, x) && ChainTo(before, later, k, x)
  {
    hide LockGraph, Reported, Uses, Differs, ChainTo;
    var a, b := LockGraph(before, |before|).value, LockGraph(later, |later|).value;
    if Reported(a, b, g, end) {
      ReportedHasCause(before, later, g, end);
    }
    if m, k, x: Key :| TakenFor(k, m) && Uses(g, end, m) && x.Ext? && x.name != "ws"
                       && Differs(before, later, x) && ChainTo(before, later, k, x) {
      CauseIsReported(before, later, g, end, m, k, x);
    }
  }

  lemma ReportedHasCause(before: seq<LockPackage>, later: seq<LockPackage>, g: Graph, end: End)
    requires LockGraph(before, |before|).Some? && LockGraph(later, |later|).Some?
    requires Reported(LockGraph(before, |before|).value, LockGraph(later, |later|).value, g, end)
    ensures exists m, k, x: Key :: TakenFor(k, m) && Uses(g, end, m) && x.Ext? && x.name != "ws"
                                   && Differs(before, later, x) && ChainTo(before, later, k, x)
  {
    hide LockGraph, Uses, InfoDiffers, LeadsTo, Differs, ChainTo;
    var a, b := LockGraph(before, |before|).value, LockGraph(later, |later|).value;
    var k :| Hit(a, b, k) && Uses(g, end, MemberName(k));
    var x :| Changed(a, b, x) && LeadsTo(BothEdges(a, b), k, x);
    DiffersExactlyWhen(before, later, x);
    LeadsExactlyWhen(before, later, k, x);
    assert TakenFor(k, MemberName(k));
  }

  lemma CauseIsReported(before: seq<LockPackage>, later: seq<LockPackage>, g: Graph, end: End, m: string, k: Key, x: Key)
    requires LockGraph(before, |before|).Some? && LockGraph(later, |later|).Some?
    requires TakenFor(k, m) && Uses(g, end, m) && x.Ext? && x.name != "ws" && Differs(before, later, x) && ChainTo(before, later, k, x)
    ensures Reported(LockGraph(before, |before|).value, LockGraph(later, |later|).value, g, end)
  {
    var a, b := LockGraph(before, |before|).value, LockGraph(later, |later|).value;
    ChainStartsListed(before, later, k, x);
    GraphIsExact(before, k);
    GraphIsExact(later, k);
    hide LockGraph, Uses, InfoDiffers, LeadsTo, Differs, ChainTo, DependsOn, Listed, EntryOf;
    DiffersExactlyWhen(before, later, x);
    LeadsExactlyWhen(before, later, k, x);
    assert Changed(a, b, x);
    assert Hit(a, b, k) && MemberName(k) == m;
  }

  lemma ChainStartsListed(before: seq<LockPackage>, later: seq<LockPackage>, k: Key, x: Key)
    requires ChainTo(before, later, k, x)
    ensures Listed(before, k) || Listed(later, k)
  {
    hide Means, LastOf, Listed;
    var p :| Chain(before, later, p) && p[0] == k && p[|p| - 1] == x;
    assert DependsOn(before, p[0], p[0 + 1]) || DependsOn(later, p[0], p[0 + 1]);
    ListedHasEntry(before, k);
    ListedHasEntry(later, k);
  }

  /** A version bump: a package that one of the files has in this version and the other does not. Every end that uses a
      member with a chain to it is reported. */
  lemma VersionBumpIsReported(before: seq<LockPackage>, later: seq<LockPackage>, g: Graph, end: End, m: string, name: string,
                              version: string, source: string)
    requires LockGraph(before, |before|).Some? && LockGraph(later, |later|).Some? && name != "ws" && Uses(g, end, m)
    requires Listed(before, Ext(name, version, source)) != Listed(later, Ext(name, version, source))
    requires ChainTo(before, later, Ws(m), Ext(name, version, source))
    ensures Reported(LockGraph(before, |before|).value, LockGraph(later, |later|).value, g, end)
  {
    hide LockGraph, Uses, Listed, ChainTo;
    CauseIsReported(before, later, g, end, m, Ws(m), Ext(name, version, source));
  }

  /** The reference means exactly one entry. */
  ghost predicate Clear(pkgs: seq<LockPackage>, r: Ref) {
    exists m :: Means(pkgs, r, m)
  }

  lemma ResolvesWhenClear(pkgs: seq<LockPackage>, r: Ref)
    ensures Resolve(pkgs, r).Some? <==> Clear(pkgs, r)
  {
    hide Resolve, Means;
    forall m {
      ResolvesExactlyWhen(pkgs, r, m);
    }
    if Resolve(pkgs, r).Some? {
      assert Means(pkgs, r, Resolve(pkgs, r).value);
    }
  }

  lemma {:induction false} AllResolveExactlyWhen(pkgs: seq<LockPackage>, refs: seq<Ref>)
    ensures ResolveAll(pkgs, refs).Some? <==> forall r | r in refs :: Clear(pkgs, r)
  {
    hide Resolve, Clear;
    if refs != [] {
      var init, last := refs[..|refs| - 1], refs[|refs| - 1];
      AllResolveExactlyWhen(pkgs, init);
      ResolvesWhenClear(pkgs, last);
      assert refs == init + [last];
      assert forall r :: r in refs <==> r in init || r == last;
    }
  }

  /** There is a graph, and so an answer, if and only if every dependency means exactly one entry. */
  lemma {:induction false} GraphExistsExactlyWhen(pkgs: seq<LockPackage>, n: nat)
    requires n <= |pkgs|
    ensures LockGraph(pkgs, n).Some? <==> forall i, r | 0 <= i < n && r in pkgs[i].deps :: Clear(pkgs, r)
  {
    hide ResolveAll, Clear;
    if n > 0 {
      GraphExistsExactlyWhen(pkgs, n - 1);
      AllResolveExactlyWhen(pkgs, pkgs[n - 1].deps);
    }
  }
}
