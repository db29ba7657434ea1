/** Which ends a change of a Rust crate, or of the lock file, touches. Being unsure means "all ends"; an answer
    must never leave an end out. */
module RustImpact {
  import opened LibraryStore
  import opened Text
  import opened Worklist

  // --- the workspace graph ------------------------------------------------------------

  datatype Dep = Dep(name: string, rename: Option<string>, path: Option<string>, dev: bool, optional: bool)

  datatype Package = Package(deps: seq<Dep>, features: map<string, seq<string>>)

  datatype Graph = Graph(pkgs: map<string, Package>, byDir: map<string, string>)

  predicate Valid(g: Graph) {
    forall d | d in g.byDir :: g.byDir[d] in g.pkgs
  }

  function TrimQuestionMarks(s: string): string {
    if s != [] && s[|s| - 1] == '?' then TrimQuestionMarks(s[..|s| - 1]) else s
  }

  const DEP := "dep:"

  /** The optional dependency that a feature value switches on; `None` for the name of another feature. */
  function OptionalOf(v: string): Option<string> {
    if DEP <= v then Some(v[|DEP|..])
    else
      var slash := IndexFrom(v, '/', 0);
      if slash < |v| then Some(TrimQuestionMarks(v[..slash])) else None
  }

  /** What a feature can list: `dep:x` and `x/f` or `x?/f` switch the dependency `x` on, anything else is the name
      of a feature. */
  lemma FeatureValuesMean(x: string, f: string)
    ensures OptionalOf("dep:" + x) == Some(x)
    ensures '/' !in x && !("dep:" <= x) ==> OptionalOf(x) == None
    ensures '/' !in x && !("dep:" <= x) && x != "" && x[|x| - 1] != '?' && !("dep:" <= x + "/" + f) ==>
              OptionalOf(x + "/" + f) == Some(x) && (!("dep:" <= x + "?/" + f) ==> OptionalOf(x + "?/" + f) == Some(x))
  {
    assert ("dep:" + x)[4..] == x;
    if '/' !in x {
      assert forall k | 0 <= k < |x| :: x[k] in x;
      if x != "" && x[|x| - 1] != '?' {
        FirstComponent(x, '/', f);
        FirstComponent(x + "?", '/', f);
        assert x + "/" + f == x + ['/'] + f && x + "?/" + f == (x + "?") + ['/'] + f;
        assert (x + "/" + f)[..|x|] == x && (x + "?/" + f)[..|x| + 1] == x + "?";
        assert (x + "?")[..|x|] == x;
      }
    }
  }

  lemma {:induction false} PlainValuesAreExact(values: seq<string>)
    ensures forall v :: v in PlainValues(values) <==> v in values && OptionalOf(v) == None
  {
    hide OptionalOf;
    if values != [] {
      PlainValuesAreExact(values[..|values| - 1]);
      assert values == values[..|values| - 1] + [values[|values| - 1]];
    }
  }

  function PlainValues(values: seq<string>): seq<string> {
    if values == [] then []
    else
      var init, last := PlainValues(values[..|values| - 1]), values[|values| - 1];
      if OptionalOf(last).None? then init + [last] else init
  }

  /** The features that a feature switches on directly. */
  function FeatureSteps(pkg: Package): string -> seq<string> {
    f => if f in pkg.features then PlainValues(pkg.features[f]) else []
  }

  /** An optional dependency is on when a feature that is on names it, or when it is itself asked for as a
      feature that the package does not declare. */
  ghost predicate IsOn(pkg: Package, features: seq<string>, x: string) {
    exists f :: Reachable(FeatureSteps(pkg), {"default"} + Elements(features), f)
                && if f in pkg.features then exists v :: v in pkg.features[f] && OptionalOf(v) == Some(x) else x == f
  }

  /** Exactly the names that are on. */
  ghost predicate AreOn(pkg: Package, features: seq<string>, on: set<string>) {
    forall x :: x in on <==> IsOn(pkg, features, x)
  }

  lemma {:induction false} FeatureNamesAreKnown(pkg: Package, features: seq<string>) returns (known: set<string>)
    ensures Closed(FeatureSteps(pkg), known) && {"default"} + Elements(features) <= known
  {
    var values := set f, v | f in pkg.features && v in pkg.features[f] :: v;
    known := {"default"} + Elements(features) + values;
    forall n, m | n in known && m in FeatureSteps(pkg)(n)
      ensures m in known
    {
      PlainValuesAreExact(pkg.features[n]);
    }
  }

  lemma NothingIsStopped<N(!new)>(succ: N -> seq<N>, roots: set<N>, n: N)
    ensures Reachable(Stopped(succ, {}), roots, n) <==> Reachable(succ, roots, n)
  {
    if Reachable(succ, roots, n) {
      MoreEdgesReachMore(succ, Stopped(succ, {}), roots, roots, n);
    }
    if Reachable(Stopped(succ, {}), roots, n) {
      MoreEdgesReachMore(Stopped(succ, {}), succ, roots, roots, n);
    }
  }

  method Activated(pkg: Package, features: seq<string>) returns (on: set<string>)
    ensures AreOn(pkg, features, on)
  {
    ghost var known := FeatureNamesAreKnown(pkg, features);
    assert Elements(["default"] + features) == {"default"} + Elements(features);
    var seen := Collect(FeatureSteps(pkg), ["default"] + features, {}, known);
    forall f
      ensures f in seen <==> Reachable(FeatureSteps(pkg), {"default"} + Elements(features), f)
    {
      NothingIsStopped(FeatureSteps(pkg), {"default"} + Elements(features), f);
    }
    hide Reachable, Stopped, OptionalOf;
    var named := set f, v | f in seen && f in pkg.features && v in pkg.features[f] && OptionalOf(v).Some? :: OptionalOf(v).value;
    var implied := set f | f in seen && f !in pkg.features;
    on := named + implied;
  }

  function DepName(d: Dep): string {
    if d.rename.Some? then d.rename.value else d.name
  }

  /** Whether a dependency goes into the product. `on` is `None` where features do not cut. */
  predicate Counts(d: Dep, on: Option<set<string>>) {
    d.path.Some? && !d.dev && (d.optional && on.Some? ==> DepName(d) in on.value)
  }

  /** The path dependencies that go into the product; `None` when one is not a known package. */
  function PathDeps(g: Graph, deps: seq<Dep>, on: Option<set<string>>): Option<seq<string>> {
    if deps == [] then Some([])
    else
      var d := deps[|deps| - 1];
      match PathDeps(g, deps[..|deps| - 1], on)
      case Some(init) =>
        if !Counts(d, on) then Some(init)
        else if d.path.value in g.byDir then Some(init + [g.byDir[d.path.value]])
        else None
      case None => None
  }

  lemma {:induction false} PathDepsAreCounted(g: Graph, deps: seq<Dep>, on: Option<set<string>>)
    ensures PathDeps(g, deps, on).Some? <==> forall d | d in deps && Counts(d, on) :: d.path.value in g.byDir
    ensures PathDeps(g, deps, on).Some? ==>
              forall n :: n in PathDeps(g, deps, on).value <==>
                exists d :: d in deps && Counts(d, on) && d.path.value in g.byDir && g.byDir[d.path.value] == n
  {
    hide Counts;
    if deps != [] {
      var init, last := deps[..|deps| - 1], deps[|deps| - 1];
      PathDepsAreCounted(g, init, on);
      assert deps == init + [last];
      assert forall d :: d in deps <==> d in init || d == last;
    }
  }

  /** What goes into the product: dependencies with a path, other than for tests, and of the optional ones only
      those that are on, under the name the package knows them by. */
  predicate GoesIn(d: Dep, on: Option<set<string>>) {
    match d
    case Dep(_, _, None, _, _) => false
    case Dep(name, rename, Some(_), dev, optional) =>
      var known := match rename case Some(other) => other case None => name;
      !dev && (!optional || on == None || known in on.value)
  }

  /** The answer is exactly the packages of those dependencies, and there is one exactly when each of them is a
      known package. */
  lemma PathDepsAreExact(g: Graph, deps: seq<Dep>, on: Option<set<string>>)
    ensures PathDeps(g, deps, on).Some? <==> forall d | d in deps && GoesIn(d, on) :: d.path.value in g.byDir
    ensures PathDeps(g, deps, on).Some? ==>
              forall n :: n in PathDeps(g, deps, on).value <==>
                exists d :: d in deps && GoesIn(d, on) && d.path.value in g.byDir && g.byDir[d.path.value] == n
  {
    PathDepsAreCounted(g, deps, on);
    hide PathDeps, Counts, GoesIn;
    forall d: Dep
      ensures Counts(d, on) <==> GoesIn(d, on)
    {
      CountsExactlyWhenItGoesIn(d, on);
    }
  }

  lemma CountsExactlyWhenItGoesIn(d: Dep, on: Option<set<string>>)
    ensures Counts(d, on) <==> GoesIn(d, on)
    ensures GoesIn(d, on) ==> d.path.Some?
  {
  }

  /** Later hops are not cut by features. */
  function Uncut(g: Graph): string -> seq<string> {
    n => if n in g.pkgs && PathDeps(g, g.pkgs[n].deps, None).Some? then PathDeps(g, g.pkgs[n].deps, None).value else []
  }

  predicate Sure(g: Graph, n: string) {
    n in g.pkgs && PathDeps(g, g.pkgs[n].deps, None).Some?
  }

  /** A package goes into the product of an entry: it is the entry, or it is reached from what the entry's
      features leave of its dependencies. */
  ghost predicate InProduct(g: Graph, entry: string, features: seq<string>, n: string) {
    n == entry || (
      entry in g.pkgs && exists on: set<string> ::
        && AreOn(g.pkgs[entry], features, on)
        && PathDeps(g, g.pkgs[entry].deps, Some(on)).Some?
        && Reachable(Stopped(Uncut(g), {entry}), Elements(PathDeps(g, g.pkgs[entry].deps, Some(on)).value), n))
  }

  lemma PathDepsAreKnown(g: Graph, deps: seq<Dep>, on: Option<set<string>>)
    requires Valid(g) && PathDeps(g, deps, on).Some?
    ensures forall n | n in PathDeps(g, deps, on).value :: n in g.pkgs
  {
    PathDepsAreCounted(g, deps, on);
  }

  /** Features only take dependencies away. */
  lemma {:induction false} CutDepsAreFound(g: Graph, deps: seq<Dep>, on: set<string>)
    requires PathDeps(g, deps, None).Some?
    ensures PathDeps(g, deps, Some(on)).Some?
  {
    if deps != [] {
      CutDepsAreFound(g, deps[..|deps| - 1], on);
    }
  }

  lemma UncutStaysKnown(g: Graph)
    requires Valid(g)
    ensures Closed(Uncut(g), g.pkgs.Keys)
  {
    forall n, m | n in g.pkgs.Keys && m in Uncut(g)(n)
      ensures m in g.pkgs.Keys
    {
      PathDepsAreKnown(g, g.pkgs[n].deps, None);
    }
  }

  /** The entry is known, and so are its own dependencies as its features leave them, and all those of the rest of the
      product. */
  ghost predicate Answerable(g: Graph, entry: string, features: seq<string>) {
    && entry in g.pkgs
    && (exists on: set<string> :: AreOn(g.pkgs[entry], features, on) && PathDeps(g, g.pkgs[entry].deps, Some(on)).Some?)
    && forall n | InProduct(g, entry, features, n) && n != entry :: Sure(g, n)
  }

  /** The packages of an entry's product; `None` means unsure. */
  method Closure(g: Graph, entry: string, features: seq<string>) returns (r: Option<set<string>>)
    requires Valid(g)
    ensures r.Some? ==> forall n :: n in r.value <==> InProduct(g, entry, features, n)
    ensures r.Some? ==> entry in g.pkgs && forall n | n in r.value && n != entry :: Sure(g, n)
    ensures entry in g.pkgs && (forall n | n in g.pkgs :: Sure(g, n)) ==> r.Some?
    ensures r.Some? <==> Answerable(g, entry, features)
  {
    hide PathDeps, AreOn, Reachable, Stopped, InProduct, Answerable;
    if entry !in g.pkgs {
      OnlyKnownIsAnswerable(g, entry, features);
      return None;
    }
    var on := Activated(g.pkgs[entry], features);
    AnswerableMeans(g, entry, features, on);
    var first := PathDeps(g, g.pkgs[entry].deps, Some(on));
    if PathDeps(g, g.pkgs[entry].deps, None).Some? {
      CutDepsAreFound(g, g.pkgs[entry].deps, on);
    }
    if first.None? {
      return None;
    }
    PathDepsAreKnown(g, g.pkgs[entry].deps, Some(on));
    UncutStaysKnown(g);
    var seen := Collect(Uncut(g), first.value, {entry}, g.pkgs.Keys);
    ProductIsSeen(g, entry, features, on, seen);
    if exists n :: n in seen && n != entry && !Sure(g, n) {
      return None;
    }
    return Some(seen);
  }

  lemma OnlyKnownIsAnswerable(g: Graph, entry: string, features: seq<string>)
    requires entry !in g.pkgs
    ensures !Answerable(g, entry, features)
  {
  }

  lemma AnswerableMeans(g: Graph, entry: string, features: seq<string>, on: set<string>)
    requires entry in g.pkgs && AreOn(g.pkgs[entry], features, on)
    ensures Answerable(g, entry, features) <==>
            && PathDeps(g, g.pkgs[entry].deps, Some(on)).Some?
            && forall n | InProduct(g, entry, features, n) && n != entry :: Sure(g, n)
  {
    hide PathDeps, InProduct, IsOn, Sure;
    forall other: set<string> | AreOn(g.pkgs[entry], features, other)
      ensures other == on
    {
    }
  }

  lemma ProductIsSeen(g: Graph, entry: string, features: seq<string>, on: set<string>, seen: set<string>)
    requires entry in g.pkgs && PathDeps(g, g.pkgs[entry].deps, Some(on)).Some?
    requires AreOn(g.pkgs[entry], features, on)
    requires forall n :: n in seen <==>
               n in {entry} || Reachable(Stopped(Uncut(g), {entry}), Elements(PathDeps(g, g.pkgs[entry].deps, Some(on)).value), n)
    ensures forall n :: n in seen <==> InProduct(g, entry, features, n)
  {
    hide IsOn, Reachable, PathDeps;
    forall n
      ensures n in seen <==> InProduct(g, entry, features, n)
    {
      if InProduct(g, entry, features, n) && n != entry {
        var other: set<string> :|
          && AreOn(g.pkgs[entry], features, other)
          && PathDeps(g, g.pkgs[entry].deps, Some(other)).Some?
          && Reachable(Stopped(Uncut(g), {entry}), Elements(PathDeps(g, g.pkgs[entry].deps, Some(other)).value), n);
        assert other == on;
      }
    }
  }
}
