/** What goes into the product of an entry, said about the dependencies themselves: by routes from package to
    package, and from feature to feature. */
module CrateProducts {
  import opened LibraryStore
  import W = Worklist
  import opened RustImpact

  /** Package `a` has a path dependency on package `b` that goes into the product. */
  ghost predicate Links(g: Graph, a: string, b: string, on: Option<set<string>>) {
    && a in g.pkgs
    && exists d :: d in g.pkgs[a].deps && GoesIn(d, on) && d.path.value in g.byDir && g.byDir[d.path.value] == b
  }

  /** A route leaves the entry by a dependency that its features leave, and goes on by any. It does not pass
      through the entry again. */
  ghost predicate Route(g: Graph, entry: string, on: set<string>, p: seq<string>) {
    && p != [] && Links(g, entry, p[0], Some(on))
    && forall i | 0 <= i < |p| - 1 :: p[i] != entry && Links(g, p[i], p[i + 1], None)
  }

  ghost predicate Routed(g: Graph, entry: string, on: set<string>, n: string) {
    exists p :: Route(g, entry, on, p) && p[|p| - 1] == n
  }

  /** All path dependencies of a package are known packages. */
  ghost predicate Settled(g: Graph, n: string, on: Option<set<string>>) {
    n in g.pkgs && forall d | d in g.pkgs[n].deps && GoesIn(d, on) :: d.path.value in g.byDir
  }

  lemma StepsAreLinks(g: Graph, a: string, b: string)
    ensures b in Uncut(g)(a) <==> Settled(g, a, None) && Links(g, a, b, None)
    ensures Sure(g, a) <==> Settled(g, a, None)
  {
    hide PathDeps, GoesIn;
    if a in g.pkgs {
      PathDepsAreExact(g, g.pkgs[a].deps, None);
    }
  }

  lemma FirstStepsAreLinks(g: Graph, entry: string, on: set<string>, b: string)
    requires entry in g.pkgs
    ensures PathDeps(g, g.pkgs[entry].deps, Some(on)).Some? <==> Settled(g, entry, Some(on))
    ensures PathDeps(g, g.pkgs[entry].deps, Some(on)).Some? ==>
              (b in PathDeps(g, g.pkgs[entry].deps, Some(on)).value <==> Links(g, entry, b, Some(on)))
  {
    hide PathDeps, GoesIn;
    PathDepsAreExact(g, g.pkgs[entry].deps, Some(on));
  }

  /** Every package on a route is settled, so routes are paths of the walk and the other way round. */
  ghost predicate AllSettled(g: Graph, entry: string, on: set<string>) {
    && entry in g.pkgs && Settled(g, entry, Some(on))
    && forall n | Routed(g, entry, on, n) && n != entry :: Settled(g, n, None)
  }

  lemma RouteIsPath(g: Graph, entry: string, on: set<string>, p: seq<string>)
    requires AllSettled(g, entry, on) && Route(g, entry, on, p)
    ensures PathDeps(g, g.pkgs[entry].deps, Some(on)).Some?
    ensures W.Path(W.Stopped(Uncut(g), {entry}), p) && p[0] in PathDeps(g, g.pkgs[entry].deps, Some(on)).value
  {
    hide Settled, Links, PathDeps;
    FirstStepsAreLinks(g, entry, on, p[0]);
    forall i | 0 <= i < |p| - 1
      ensures p[i + 1] in W.Stopped(Uncut(g), {entry})(p[i])
    {
      var front := p[..i + 1];
      assert Route(g, entry, on, front) && front[|front| - 1] == p[i];
      assert Routed(g, entry, on, p[i]);
      StepsAreLinks(g, p[i], p[i + 1]);
    }
  }

  lemma PathIsRoute(g: Graph, entry: string, on: set<string>, p: seq<string>)
    requires entry in g.pkgs && PathDeps(g, g.pkgs[entry].deps, Some(on)).Some?
    requires W.Path(W.Stopped(Uncut(g), {entry}), p) && p[0] in PathDeps(g, g.pkgs[entry].deps, Some(on)).value
    ensures Route(g, entry, on, p)
  {
    hide Settled, Links;
    FirstStepsAreLinks(g, entry, on, p[0]);
    forall i | 0 <= i < |p| - 1
      ensures p[i] != entry && Links(g, p[i], p[i + 1], None)
    {
      assert p[i + 1] in W.Stopped(Uncut(g), {entry})(p[i]);
      StepsAreLinks(g, p[i], p[i + 1]);
    }
  }

  /** The product of an entry: the entry itself and what a route leads to. */
  lemma InProductExactlyWhenRouted(g: Graph, entry: string, features: seq<string>, on: set<string>, n: string)
    requires AllSettled(g, entry, on) && AreOn(g.pkgs[entry], features, on)
    ensures InProduct(g, entry, features, n) <==> n == entry || Routed(g, entry, on, n)
  {
    hide AreOn, Uncut, PathDeps, Settled, Links, W.Stopped;
    FirstStepsAreLinks(g, entry, on, n);
    var first := W.Elements(PathDeps(g, g.pkgs[entry].deps, Some(on)).value);
    if InProduct(g, entry, features, n) && n != entry {
      var other: set<string> :|
        && AreOn(g.pkgs[entry], features, other)
        && PathDeps(g, g.pkgs[entry].deps, Some(other)).Some?
        && W.Reachable(W.Stopped(Uncut(g), {entry}), W.Elements(PathDeps(g, g.pkgs[entry].deps, Some(other)).value), n);
      OnIsUnique(g.pkgs[entry], features, on, other);
      var p :| W.Path(W.Stopped(Uncut(g), {entry}), p) && p[0] in first && p[|p| - 1] == n;
      PathIsRoute(g, entry, on, p);
    }
    if Routed(g, entry, on, n) {
      var p :| Route(g, entry, on, p) && p[|p| - 1] == n;
      RouteIsPath(g, entry, on, p);
      assert W.Reachable(W.Stopped(Uncut(g), {entry}), first, n);
    }
  }

  lemma OnIsUnique(pkg: Package, features: seq<string>, on: set<string>, other: set<string>)
    requires AreOn(pkg, features, on) && AreOn(pkg, features, other)
    ensures on == other
  {
    hide IsOn;
  }

  // --- features -------------------------------------------------------------------------

  /** From the default feature or one asked for, each feature lists the next. */
  ghost predicate FeatureRoute(pkg: Package, features: seq<string>, p: seq<string>) {
    && p != [] && (p[0] == "default" || p[0] in features)
    && forall i | 0 <= i < |p| - 1 :: Lists(pkg, p[i], p[i + 1])
  }

  predicate Lists(pkg: Package, f: string, v: string) {
    f in pkg.features && v in pkg.features[f] && OptionalOf(v) == None
  }

  /** A dependency is on if and only if a feature at the end of a route switches it on, or is no feature but its
      name. */
  lemma IsOnExactlyWhenRouted(pkg: Package, features: seq<string>, x: string)
    ensures IsOn(pkg, features, x) <==>
            exists p :: FeatureRoute(pkg, features, p) && Switches(pkg, p[|p| - 1], x)
  {
    hide OptionalOf;
    forall p
      ensures FeatureRoute(pkg, features, p)
              <==> W.Path(FeatureSteps(pkg), p) && p[0] in {"default"} + W.Elements(features)
    {
      FeatureRouteIsPath(pkg, features, p);
    }
  }

  ghost predicate Switches(pkg: Package, f: string, x: string) {
    if f in pkg.features then exists v :: v in pkg.features[f] && OptionalOf(v) == Some(x) else x == f
  }

  lemma FeatureRouteIsPath(pkg: Package, features: seq<string>, p: seq<string>)
    ensures FeatureRoute(pkg, features, p) <==> W.Path(FeatureSteps(pkg), p) && p[0] in {"default"} + W.Elements(features)
  {
    hide OptionalOf, PlainValues;
    forall i | 0 <= i < |p| - 1
      ensures p[i + 1] in FeatureSteps(pkg)(p[i]) <==> Lists(pkg, p[i], p[i + 1])
    {
      if p[i] in pkg.features {
        PlainValuesAreExact(pkg.features[p[i]]);
      }
    }
  }
}
