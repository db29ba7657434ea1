/** The event throttle: signals are merged into one emit per window, a flush forces it, and a timer that a
    flush has overtaken must stay silent. */
module Throttle {

  datatype State = State(pending: bool, generation: nat)

  /** The lock section of `signal`: the generation to arm a timer for, if none is armed. */
  function SignalUnderLock(s: State): (State, bool) {
    (s.(pending := true), !s.pending)
  }

  /** The lock section of `flush_now`: true if an emit follows. */
  function FlushUnderLock(s: State): (State, bool) {
    if s.pending then (State(false, s.generation + 1), true) else (s, false)
  }

  /** The lock section of a timer that wakes up for `generation`. */
  function FireUnderLock(s: State, generation: nat): (State, bool) {
    if s.pending && s.generation == generation then (State(false, s.generation + 1), true) else (s, false)
  }

  class Coalescer {
    var pending: bool
    var generation: nat
    var emitted: nat
    var timers: seq<nat>

    constructor ()
      ensures !pending && generation == 0 && emitted == 0 && timers == []
    {
      pending, generation, emitted, timers := false, 0, 0, [];
    }

    ghost function View(): State
      reads this
    {
      State(pending, generation)
    }

    method Signal()
      modifies this
      ensures View() == SignalUnderLock(old(View())).0 && emitted == old(emitted)
      ensures timers == if SignalUnderLock(old(View())).1 then old(timers) + [old(generation)] else old(timers)
    {
      var alreadyScheduled := pending;
      pending := true;
      if alreadyScheduled {
        return;
      }
      timers := timers + [generation];
    }

    method FlushNow()
      modifies this
      ensures View() == FlushUnderLock(old(View())).0 && timers == old(timers)
      ensures emitted == old(emitted) + if old(pending) then 1 else 0
    {
      if !pending {
        return;
      }
      pending, generation := false, generation + 1;
      emitted := emitted + 1;
    }

    method FireIfCurrent(woken: nat)
      modifies this
      ensures View() == FireUnderLock(old(View()), woken).0 && timers == old(timers)
      ensures emitted == old(emitted) + if FireUnderLock(old(View()), woken).1 then 1 else 0
    {
      if !pending || generation != woken {
        return;
      }
      pending, generation := false, generation + 1;
      emitted := emitted + 1;
    }
  }

  // --- all interleavings ------------------------------------------------------

  /** `unarmed`: signals past their lock section, timer not spawned yet. `timers`: sleeping timers.
      `sending`: flushes and timers past their lock section, emit not done yet, each with the number of the
      newest signal it reports. `signals` counts signals, `first` those that found nothing pending,
      `reported` is the newest signal that an emit has followed. */
  datatype Sys = Sys(
    s: State, unarmed: multiset<nat>, timers: multiset<nat>, sending: multiset<nat>,
    signals: nat, first: nat, emits: nat, cleared: nat, reported: nat)

  datatype Event =
    | Signal
    | Arm(generation: nat)
    | Flush
    | Wake(generation: nat)
    | Emit(upTo: nat)

  predicate Enabled(w: Sys, e: Event) {
    match e
    case Signal => true
    case Arm(g) => g in w.unarmed
    case Flush => true
    case Wake(g) => g in w.timers
    case Emit(n) => n in w.sending
  }

  /** A lock section that decided to emit, or not. */
  function Claim(w: Sys, next: (State, bool)): Sys {
    if next.1 then w.(s := next.0, sending := w.sending + multiset{w.signals}, cleared := w.signals)
    else w.(s := next.0)
  }

  function Do(w: Sys, e: Event): Sys {
    match e
    case Signal =>
      var next := SignalUnderLock(w.s);
      var t := w.(s := next.0, signals := w.signals + 1);
      if next.1 then t.(unarmed := w.unarmed + multiset{w.s.generation}, first := w.first + 1) else t
    case Arm(g) => w.(unarmed := w.unarmed - multiset{g}, timers := w.timers + multiset{g})
    case Flush => Claim(w, FlushUnderLock(w.s))
    case Wake(g) => Claim(w.(timers := w.timers - multiset{g}), FireUnderLock(w.s, g))
    case Emit(n) =>
      w.(sending := w.sending - multiset{n}, emits := w.emits + 1, reported := if n > w.reported then n else w.reported)
  }

  const START := Sys(State(false, 0), multiset{}, multiset{}, multiset{}, 0, 0, 0, 0, 0)

  ghost predicate Feasible(w: Sys, run: seq<Event>)
    decreases |run|
  {
    run != [] ==> Enabled(w, run[0]) && Feasible(Do(w, run[0]), run[1..])
  }

  function After(w: Sys, run: seq<Event>): Sys
    decreases |run|
  {
    if run == [] then w else After(Do(w, run[0]), run[1..])
  }

  ghost predicate Inv(w: Sys) {
    && (w.unarmed + w.timers)[w.s.generation] == (if w.s.pending then 1 else 0)
    && (forall g | g in w.unarmed + w.timers :: g <= w.s.generation)
    && w.emits + |w.sending| == w.s.generation
    && w.first == w.s.generation + (if w.s.pending then 1 else 0)
    && w.reported <= w.cleared <= w.signals
    && (forall n | n in w.sending :: n <= w.cleared)
    && (w.reported < w.cleared ==> w.cleared in w.sending)
    && (!w.s.pending ==> w.cleared == w.signals)
  }

  /** The claim of an emit, by a flush or by the current timer: the timer that carried the generation, spawned
      or not, is from then on out of date. */
  lemma ClaimKeeps(w: Sys, next: (State, bool), timers: multiset<nat>)
    requires Inv(w) && timers <= w.timers
    requires next == if w.s.pending then (State(false, w.s.generation + 1), true) else (w.s, false)
    ensures Inv(Claim(w.(timers := timers), next))
  {
    var t := Claim(w.(timers := timers), next);
    forall g | g in w.unarmed + timers
      ensures g <= w.s.generation && (w.unarmed + timers)[g] <= (w.unarmed + w.timers)[g]
    {
      assert g in w.unarmed + w.timers;
    }
    if w.s.pending {
      assert t.s.generation !in w.unarmed + timers;
      assert |t.sending| == |w.sending| + 1;
    }
  }

  lemma SignalKeeps(w: Sys)
    requires Inv(w)
    ensures Inv(Do(w, Signal))
  {
    var t := Do(w, Signal);
    if !w.s.pending {
      assert t.unarmed + t.timers == w.unarmed + w.timers + multiset{w.s.generation};
    }
  }

  lemma EmitKeeps(w: Sys, n: nat)
    requires Inv(w) && n in w.sending
    ensures Inv(Do(w, Emit(n)))
  {
    var t := Do(w, Emit(n));
    assert |t.sending| == |w.sending| - 1;
    forall m | m in t.sending
      ensures m <= w.cleared
    {
      assert m in w.sending;
    }
  }

  lemma EventKeeps(w: Sys, e: Event)
    requires Inv(w) && Enabled(w, e)
    ensures Inv(Do(w, e))
  {
    match e {
      case Signal => SignalKeeps(w);
      case Arm(g) => assert Do(w, e).unarmed + Do(w, e).timers == w.unarmed + w.timers;
      case Flush =>
        assert w.(timers := w.timers) == w;
        ClaimKeeps(w, FlushUnderLock(w.s), w.timers);
      case Wake(g) => WakeKeeps(w, g);
      case Emit(n) => EmitKeeps(w, n);
    }
  }

  lemma WakeKeeps(w: Sys, g: nat)
    requires Inv(w) && g in w.timers
    ensures Inv(Do(w, Wake(g)))
  {
    var rest := w.timers - multiset{g};
    if FireUnderLock(w.s, g).1 || !w.s.pending {
      ClaimKeeps(w, FireUnderLock(w.s, g), rest);
    } else {
      assert w.unarmed + rest == w.unarmed + w.timers - multiset{g};
    }
  }

  lemma {:induction false} RunKeeps(w: Sys, run: seq<Event>)
    requires Inv(w) && Feasible(w, run)
    ensures Inv(After(w, run))
    decreases |run|
  {
    if run != [] {
      EventKeeps(w, run[0]);
      RunKeeps(Do(w, run[0]), run[1..]);
    }
  }

  /** In every reachable state: something is pending exactly when one timer, spawned or about to be, carries
      the current generation; no timer is from the future; every generation is one emit, done or under way;
      and there are never more emits than signals that found nothing pending. */
  lemma NeitherLostNorDoubled(run: seq<Event>)
    requires Feasible(START, run)
    ensures var w := After(START, run);
            && (w.s.pending <==> (w.unarmed + w.timers)[w.s.generation] == 1)
            && (!w.s.pending <==> w.s.generation !in w.unarmed + w.timers)
            && (forall g | g in w.unarmed + w.timers :: g <= w.s.generation)
            && w.emits + |w.sending| == w.s.generation
            && w.emits <= w.first <= w.signals
  {
    RunKeeps(START, run);
    FirstAmongSignals(START, run);
  }

  lemma {:induction false} FirstAmongSignals(w: Sys, run: seq<Event>)
    requires Feasible(w, run) && w.first <= w.signals
    ensures After(w, run).first <= After(w, run).signals
    decreases |run|
  {
    if run != [] {
      FirstAmongSignals(Do(w, run[0]), run[1..]);
    }
  }

  /** No lost wake-up: once every timer has run and every emit is done, an emit has followed every signal. */
  lemma EverySignalIsReported(run: seq<Event>)
    requires Feasible(START, run)
    requires var w := After(START, run); w.unarmed == multiset{} && w.timers == multiset{} && w.sending == multiset{}
    ensures var w := After(START, run);
            !w.s.pending && w.reported == w.signals && w.emits == w.first == w.s.generation
  {
    RunKeeps(START, run);
  }

  /** A timer that a flush or another timer has overtaken changes nothing and emits nothing. */
  lemma StaleTimerIsSilent(run: seq<Event>, g: nat)
    requires Feasible(START, run) && g in After(START, run).timers
    requires g != After(START, run).s.generation || !After(START, run).s.pending
    ensures var w := After(START, run); Do(w, Wake(g)) == w.(timers := w.timers - multiset{g})
  {
    RunKeeps(START, run);
  }

  /** Signals and flushes are never refused, and a signal that finds nothing pending is reported by the timer it
      starts, once, if nobody is quicker; a flush in between reports it at once and leaves the timer nothing to do. */
  lemma SignalIsReportedByItsTimer(w: Sys)
    requires !w.s.pending && w.reported <= w.signals
    ensures forall v :: Enabled(v, Signal) && Enabled(v, Flush)
    ensures var g, n := w.s.generation, w.signals + 1;
            var byTimer, byFlush := [Signal, Arm(g), Wake(g), Emit(n)], [Signal, Arm(g), Flush, Emit(n), Wake(g)];
            && Feasible(w, byTimer) && Feasible(w, byFlush)
            && After(w, byTimer) == w.(s := State(false, g + 1), signals := n, cleared := n, first := w.first + 1,
                                       emits := w.emits + 1, reported := n)
            && After(w, byFlush) == After(w, byTimer)
  {
    hide Feasible, After, Do;
    ByItsTimer(w);
    ByAFlush(w);
  }

  lemma ByItsTimer(w: Sys)
    requires !w.s.pending && w.reported <= w.signals
    ensures var g, n := w.s.generation, w.signals + 1;
            var run := [Signal, Arm(g), Wake(g), Emit(n)];
            && Feasible(w, run)
            && After(w, run) == w.(s := State(false, g + 1), signals := n, cleared := n, first := w.first + 1,
                                   emits := w.emits + 1, reported := n)
  {
    hide *;
    var g, n := w.s.generation, w.signals + 1;
    var armed := w.(s := State(true, g), timers := w.timers + multiset{g}, signals := n, first := w.first + 1);
    SignalArms(w);
    TimerReports(armed, g, n, w.timers);
    TwoAndTwo(w, Signal, Arm(g), Wake(g), Emit(n));
  }

  lemma ByAFlush(w: Sys)
    requires !w.s.pending && w.reported <= w.signals
    ensures var g, n := w.s.generation, w.signals + 1;
            var run := [Signal, Arm(g), Flush, Emit(n), Wake(g)];
            && Feasible(w, run)
            && After(w, run) == w.(s := State(false, g + 1), signals := n, cleared := n, first := w.first + 1,
                                   emits := w.emits + 1, reported := n)
  {
    hide *;
    var g, n := w.s.generation, w.signals + 1;
    var armed := w.(s := State(true, g), timers := w.timers + multiset{g}, signals := n, first := w.first + 1);
    SignalArms(w);
    FlushReports(armed, g, n, w.timers);
    TwoAndThree(w, Signal, Arm(g), Flush, Emit(n), Wake(g));
  }

  lemma TwoAndTwo(w: Sys, a: Event, b: Event, c: Event, d: Event)
    requires Feasible(w, [a, b]) && Feasible(After(w, [a, b]), [c, d])
    ensures Feasible(w, [a, b, c, d]) && After(w, [a, b, c, d]) == After(After(w, [a, b]), [c, d])
  {
    hide *;
    JoinRuns(w, [a, b], [c, d]);
    assert [a, b] + [c, d] == [a, b, c, d];
  }

  lemma TwoAndThree(w: Sys, a: Event, b: Event, c: Event, d: Event, e: Event)
    requires Feasible(w, [a, b]) && Feasible(After(w, [a, b]), [c, d, e])
    ensures Feasible(w, [a, b, c, d, e]) && After(w, [a, b, c, d, e]) == After(After(w, [a, b]), [c, d, e])
  {
    hide *;
    JoinRuns(w, [a, b], [c, d, e]);
    assert [a, b] + [c, d, e] == [a, b, c, d, e];
  }

  lemma SignalArms(w: Sys)
    requires !w.s.pending
    ensures var g, n := w.s.generation, w.signals + 1;
            && Feasible(w, [Signal, Arm(g)])
            && After(w, [Signal, Arm(g)])
            == w.(s := State(true, g), timers := w.timers + multiset{g}, signals := n, first := w.first + 1)
  {
    var g := w.s.generation;
    TwoMore(w, Signal, Arm(g));
    assert w.unarmed + multiset{g} - multiset{g} == w.unarmed;
  }

  lemma TimerReports(b: Sys, g: nat, n: nat, others: multiset<nat>)
    requires b.s == State(true, g) && b.timers == others + multiset{g} && n == b.signals >= b.reported
    ensures Feasible(b, [Wake(g), Emit(n)])
    ensures After(b, [Wake(g), Emit(n)])
         == b.(s := State(false, g + 1), timers := others, cleared := n, emits := b.emits + 1, reported := n)
  {
    assert b.timers - multiset{g} == others;
    TwoMore(b, Wake(g), Emit(n));
    hide Feasible, After;
    assert b.sending + multiset{n} - multiset{n} == b.sending;
  }

  lemma FlushReports(b: Sys, g: nat, n: nat, others: multiset<nat>)
    requires b.s == State(true, g) && b.timers == others + multiset{g} && n == b.signals >= b.reported
    ensures Feasible(b, [Flush, Emit(n), Wake(g)])
    ensures After(b, [Flush, Emit(n), Wake(g)])
         == b.(s := State(false, g + 1), timers := others, cleared := n, emits := b.emits + 1, reported := n)
  {
    var c := b.(s := State(false, g + 1), cleared := n, emits := b.emits + 1, reported := n);
    FlushEmits(b, g, n);
    LateTimerIsSilent(c, g, others);
    hide *;
    OneMore(c, Wake(g));
    JoinRuns(b, [Flush, Emit(n)], [Wake(g)]);
    assert [Flush, Emit(n)] + [Wake(g)] == [Flush, Emit(n), Wake(g)];
  }

  lemma FlushEmits(b: Sys, g: nat, n: nat)
    requires b.s == State(true, g) && n == b.signals >= b.reported
    ensures Feasible(b, [Flush, Emit(n)])
    ensures After(b, [Flush, Emit(n)]) == b.(s := State(false, g + 1), cleared := n, emits := b.emits + 1, reported := n)
  {
    TwoMore(b, Flush, Emit(n));
    hide Feasible, After;
    assert b.sending + multiset{n} - multiset{n} == b.sending;
  }

  lemma LateTimerIsSilent(c: Sys, g: nat, others: multiset<nat>)
    requires !c.s.pending && c.timers == others + multiset{g}
    ensures Enabled(c, Wake(g)) && Do(c, Wake(g)) == c.(timers := others)
  {
    assert c.timers - multiset{g} == others;
  }

  lemma OneMore(w: Sys, e: Event)
    requires Enabled(w, e)
    ensures Feasible(w, [e]) && After(w, [e]) == Do(w, e)
  {
    assert [e][1..] == [];
  }

  lemma TwoMore(w: Sys, e: Event, f: Event)
    requires Enabled(w, e) && Enabled(Do(w, e), f)
    ensures Feasible(w, [e, f]) && After(w, [e, f]) == Do(Do(w, e), f)
  {
    assert [e, f][1..] == [f];
    OneMore(Do(w, e), f);
  }

  lemma {:induction false} JoinRuns(w: Sys, a: seq<Event>, b: seq<Event>)
    requires Feasible(w, a) && Feasible(After(w, a), b)
    ensures Feasible(w, a + b) && After(w, a + b) == After(After(w, a), b)
    decreases |a|
  {
    if a == [] {
      assert a + b == b;
    } else {
      assert (a + b)[1..] == a[1..] + b;
      JoinRuns(Do(w, a[0]), a[1..], b);
    }
  }
}
