/** Reachability in a finite graph, as a worklist computes it. */
module Worklist {

  /** Every step of a path follows an edge. */
  ghost predicate Path<N(!new)>(succ: N -> seq<N>, p: seq<N>) {
    p != [] && forall i | 0 <= i < |p| - 1 :: p[i + 1] in succ(p[i])
  }

  /** `n` can be reached from one of the roots. */
  ghost predicate Reachable<N(!new)>(succ: N -> seq<N>, roots: set<N>, n: N) {
    exists p :: Path(succ, p) && p[0] in roots && p[|p| - 1] == n
  }

  ghost predicate Closed<N(!new)>(succ: N -> seq<N>, s: set<N>) {
    forall n, m | n in s && m in succ(n) :: m in s
  }

  lemma RootIsReachable<N(!new)>(succ: N -> seq<N>, roots: set<N>, n: N)
    requires n in roots
    ensures Reachable(succ, roots, n)
  {
    assert Path(succ, [n]) && [n][0] in roots && [n][|[n]| - 1] == n;
  }

  lemma StepIsReachable<N(!new)>(succ: N -> seq<N>, roots: set<N>, n: N, m: N)
    requires Reachable(succ, roots, n) && m in succ(n)
    ensures Reachable(succ, roots, m)
  {
    var p :| Path(succ, p) && p[0] in roots && p[|p| - 1] == n;
    var q := p + [m];
    assert Path(succ, q) && q[0] in roots && q[|q| - 1] == m;
  }

  lemma {:induction false} PathStaysInside<N(!new)>(succ: N -> seq<N>, s: set<N>, p: seq<N>)
    requires Closed(succ, s) && Path(succ, p) && p[0] in s
    ensures p[|p| - 1] in s
    decreases |p|
  {
    if |p| > 1 {
      var q := p[..|p| - 1];
      assert forall i | 0 <= i < |q| - 1 :: q[i + 1] in succ(q[i]);
      PathStaysInside(succ, s, q);
      assert p[|q| - 1 + 1] in succ(p[|q| - 1]);
    }
  }

  /** A closed set that holds the roots holds everything reachable. */
  lemma ReachableStaysInside<N(!new)>(succ: N -> seq<N>, roots: set<N>, s: set<N>, n: N)
    requires Closed(succ, s) && roots <= s && Reachable(succ, roots, n)
    ensures n in s
  {
    var p :| Path(succ, p) && p[0] in roots && p[|p| - 1] == n;
    PathStaysInside(succ, s, p);
  }

  lemma MoreEdgesReachMore<N(!new)>(few: N -> seq<N>, many: N -> seq<N>, roots: set<N>, more: set<N>, n: N)
    requires roots <= more && forall a, b | b in few(a) :: b in many(a)
    requires Reachable(few, roots, n)
    ensures Reachable(many, more, n)
  {
    var p :| Path(few, p) && p[0] in roots && p[|p| - 1] == n;
    assert Path(many, p);
  }

  function Elements<N>(s: seq<N>): set<N> {
    set x | x in s
  }

  /** The graph without the edges that leave some nodes. */
  function Stopped<N(!new)>(succ: N -> seq<N>, at: set<N>): N -> seq<N> {
    n => if n in at then [] else succ(n)
  }

  /** Seen nodes are reachable or were there before, entries are reachable and known, and whatever a seen node
      or a root leads to is seen or entered. */
  ghost predicate Explored<N(!new)>(cut: N -> seq<N>, roots: set<N>, already: set<N>, known: set<N>, seen: set<N>, todo: seq<N>) {
    && already <= seen <= known
    && (forall n | n in seen :: n in already || Reachable(cut, roots, n))
    && (forall n | n in todo :: n in known && Reachable(cut, roots, n))
    && (forall r | r in roots :: r in seen || r in todo)
    && (forall n, m | n in seen && m in cut(n) :: m in seen || m in todo)
  }

  lemma ExploreStarts<N(!new)>(cut: N -> seq<N>, already: set<N>, known: set<N>, start: seq<N>)
    requires Elements(start) <= known && already <= known && forall n | n in already :: cut(n) == []
    ensures Explored(cut, Elements(start), already, known, already, start)
  {
    forall n | n in start
      ensures n in known && Reachable(cut, Elements(start), n)
    {
      RootIsReachable(cut, Elements(start), n);
    }
  }

  lemma ExploreSkips<N(!new)>(cut: N -> seq<N>, roots: set<N>, already: set<N>, known: set<N>, seen: set<N>, todo: seq<N>, n: N)
    requires Explored(cut, roots, already, known, seen, todo + [n]) && n in seen
    ensures Explored(cut, roots, already, known, seen, todo)
  {
    hide Reachable;
    assert forall m :: m in todo + [n] <==> m in todo || m == n;
  }

  lemma ExploreTakes<N(!new)>(cut: N -> seq<N>, roots: set<N>, already: set<N>, known: set<N>, seen: set<N>, todo: seq<N>, n: N)
    requires Explored(cut, roots, already, known, seen, todo + [n]) && n !in seen && forall m | m in cut(n) :: m in known
    ensures Explored(cut, roots, already, known, seen + {n}, todo + cut(n)) && n in known
  {
    assert forall m :: m in todo + [n] <==> m in todo || m == n;
    assert forall m :: m in todo + cut(n) <==> m in todo || m in cut(n);
    assert n in todo + [n];
    forall m | m in cut(n)
      ensures Reachable(cut, roots, m)
    {
      StepIsReachable(cut, roots, n, m);
    }
    hide Reachable;
  }

  lemma ExploreEnds<N(!new)>(cut: N -> seq<N>, roots: set<N>, already: set<N>, known: set<N>, seen: set<N>)
    requires Explored(cut, roots, already, known, seen, [])
    ensures forall n :: n in seen <==> n in already || Reachable(cut, roots, n)
  {
    hide Reachable;
    assert Closed(cut, seen) && roots <= seen;
    forall n | Reachable(cut, roots, n)
      ensures n in seen
    {
      ReachableStaysInside(cut, roots, seen, n);
    }
  }

  /** The loop of the program: take the last entry, skip it if it was seen, else see it and add what it leads
      to. Nodes seen from the start are never expanded. `known` bounds the nodes. */
  method Collect<N(==,!new)>(succ: N -> seq<N>, start: seq<N>, already: set<N>, ghost known: set<N>) returns (seen: set<N>)
    requires Closed(succ, known) && Elements(start) <= known && already <= known
    ensures forall n :: n in seen <==> n in already || Reachable(Stopped(succ, already), Elements(start), n)
    ensures seen <= known
  {
    ghost var cut, roots := Stopped(succ, already), Elements(start);
    var todo := start;
    seen := already;
    ExploreStarts(cut, already, known, start);
    hide Reachable, Explored;
    while todo != []
      invariant Explored(cut, roots, already, known, seen, todo) && already <= seen <= known
      decreases known - seen, |todo|
    {
      var n := todo[|todo| - 1];
      ghost var before := todo;
      todo := todo[..|todo| - 1];
      assert before == todo + [n];
      if n in seen {
        ExploreSkips(cut, roots, already, known, seen, todo, n);
      } else {
        assert cut(n) == succ(n);
        assert n in known by {
          EntryIsKnown(cut, roots, already, known, seen, before, n);
        }
        ExploreTakes(cut, roots, already, known, seen, todo, n);
        seen := seen + {n};
        todo := todo + succ(n);
      }
    }
    ExploreEnds(cut, roots, already, known, seen);
  }

  lemma EntryIsKnown<N(!new)>(cut: N -> seq<N>, roots: set<N>, already: set<N>, known: set<N>, seen: set<N>, todo: seq<N>, n: N)
    requires Explored(cut, roots, already, known, seen, todo) && n in todo
    ensures n in known
  {
  }
}
