/** Round-robin scheduling: the states of the scheduler and what its callbacks do to them. */
module RoundRobin {
  import opened Basics

  type Tid = nat

  /** The ready queue, the thread on the CPU with the ticks left of its quantum, and the threads that the
      scheduler has put out of its hands: those blocked on I/O and those that have exited. */
  datatype State = State(ready: seq<Tid>, running: Option<Tid>, left: int, blocked: set<Tid>, exited: set<Tid>)

  datatype Event = Tick | Exec(t: Tid) | Exit(t: Tid) | Read(t: Tid) | IoComplete(t: Tid)

  const START := State([], None, 0, {}, {})

  // --------------------------------------------------------------------------
  // Steps

  /** The head of the ready queue gets the CPU; the thread that had it goes to the tail. */
  function Switched(s: State, q: nat): State
    requires s.ready != []
  {
    s.(ready := s.ready[1..] + (if s.running.Some? then [s.running.value] else []),
       running := Some(s.ready[0]), left := q)
  }

  function Ticked(s: State, q: nat): State {
    var scheduled :=
      if s.ready != [] then
        if s.running.None? || s.left <= 0 then Switched(s, q) else s
      else if s.running.Some? && s.left <= 0 then s.(left := q)
      else s;
    if scheduled.running.Some? then scheduled.(left := scheduled.left - 1) else scheduled
  }

  function Step(s: State, q: nat, e: Event): State {
    match e
    case Tick => Ticked(s, q)
    case Exec(t) => s.(ready := s.ready + [t])
    case Exit(t) => s.(running := None, left := 0, exited := s.exited + {t})
    case Read(t) => s.(running := None, left := 0, blocked := s.blocked + {t})
    case IoComplete(t) => s.(ready := s.ready + [t], blocked := s.blocked - {t})
  }

  /** When the simulator calls back: a thread starts once, and exits or reads only while it is running. */
  ghost predicate Enabled(s: State, e: Event) {
    match e
    case Tick => true
    case Exec(t) => t !in Places(s)
    case Exit(t) => s.running == Some(t)
    case Read(t) => s.running == Some(t)
    case IoComplete(t) => t in s.blocked
  }

  /** The state after the first k of some events. */
  function After(s: State, q: nat, events: seq<Event>, k: nat): State
    requires k <= |events|
  {
    if k == 0 then s else Step(After(s, q, events, k - 1), q, events[k - 1])
  }

  ghost predicate Legal(s: State, q: nat, events: seq<Event>) {
    forall k :: 0 <= k < |events| ==> Enabled(After(s, q, events, k), events[k])
  }

  // --------------------------------------------------------------------------
  // Every thread is in one place

  ghost function OnCpu(s: State): multiset<Tid> {
    if s.running.Some? then multiset{s.running.value} else multiset{}
  }

  ghost function Places(s: State): multiset<Tid> {
    multiset(s.ready) + OnCpu(s) + multiset(s.blocked) + multiset(s.exited)
  }

  ghost predicate OncePlaced(s: State) {
    forall t :: Places(s)[t] <= 1
  }

  /** The threads that an event starts. */
  ghost function New(e: Event): multiset<Tid> {
    if e.Exec? then multiset{e.t} else multiset{}
  }

  ghost function Started(events: seq<Event>, k: nat): multiset<Tid>
    requires k <= |events|
  {
    if k == 0 then multiset{} else Started(events, k - 1) + New(events[k - 1])
  }

  /** Steps move threads and lose none; only a new thread adds a place. */
  lemma StepConserves(s: State, q: nat, e: Event)
    requires OncePlaced(s) && Enabled(s, e)
    ensures Places(Step(s, q, e)) == Places(s) + New(e)
    ensures OncePlaced(Step(s, q, e))
  {
    hide Places, OncePlaced;
    match e {
      case Tick => TickConserves(s, q);
      case Exec(t) => ExecConserves(s, q, t);
      case Exit(t) => LeaveConserves(s, q, t);
      case Read(t) => LeaveConserves(s, q, t);
      case IoComplete(t) => WakeConserves(s, q, t);
    }
    StillOnce(s, Step(s, q, e), New(e));
  }

  lemma StillOnce(s: State, s': State, more: multiset<Tid>)
    requires OncePlaced(s) && Places(s') == Places(s) + more
    requires forall t :: t in more ==> t !in Places(s) && more[t] == 1
    ensures OncePlaced(s')
  {
    hide Places;
    forall t
      ensures Places(s')[t] <= 1
    {
      assert Places(s')[t] == Places(s)[t] + more[t];
    }
  }

  lemma TickConserves(s: State, q: nat)
    ensures Places(Step(s, q, Tick)) == Places(s)
  {
    if s.ready != [] {
      SwitchConserves(s, q);
    }
  }

  lemma SwitchConserves(s: State, q: nat)
    requires s.ready != []
    ensures var r := Switched(s, q); multiset(r.ready) + OnCpu(r) == multiset(s.ready) + OnCpu(s)
  {
    var head, rest := s.ready[0], s.ready[1..];
    assert s.ready == [head] + rest;
    var back := if s.running.Some? then [s.running.value] else [];
    assert multiset(back) == OnCpu(s);
    Rearranged(multiset{head}, multiset(rest), OnCpu(s));
  }

  lemma Rearranged(a: multiset<Tid>, b: multiset<Tid>, c: multiset<Tid>)
    ensures b + c + a == a + b + c
  {
  }

  lemma ExecConserves(s: State, q: nat, t: Tid)
    ensures Places(Step(s, q, Exec(t))) == Places(s) + multiset{t}
  {
  }

  lemma WakeConserves(s: State, q: nat, t: Tid)
    requires t in s.blocked
    ensures Places(Step(s, q, IoComplete(t))) == Places(s)
  {
    assert multiset(s.blocked) == multiset(s.blocked - {t}) + multiset{t};
  }

  lemma LeaveConserves(s: State, q: nat, t: Tid)
    requires OncePlaced(s) && s.running == Some(t)
    ensures Places(Step(s, q, Exit(t))) == Places(s) && Places(Step(s, q, Read(t))) == Places(s)
  {
    assert Places(s)[t] <= 1;
    assert t !in s.exited && t !in s.blocked by { OnlyRunning(s, t); }
    assert multiset(s.exited + {t}) == multiset(s.exited) + multiset{t};
    assert multiset(s.blocked + {t}) == multiset(s.blocked) + multiset{t};
  }

  lemma OnlyRunning(s: State, t: Tid)
    requires Places(s)[t] <= 1 && s.running == Some(t)
    ensures t !in s.exited && t !in s.blocked && t !in s.ready
  {
    assert Places(s)[t] == multiset(s.ready)[t] + 1 + multiset(s.blocked)[t] + multiset(s.exited)[t];
  }

  /** In every run, every thread that has started is in exactly one place: once in the ready queue, on the
      CPU, blocked, or exited; and no other thread is in any. */
  lemma {:induction false} RunConserves(s: State, q: nat, events: seq<Event>, k: nat)
    requires OncePlaced(s) && Legal(s, q, events) && k <= |events|
    ensures OncePlaced(After(s, q, events, k))
    ensures Places(After(s, q, events, k)) == Places(s) + Started(events, k)
  {
    hide Places, Step, OncePlaced, Enabled, New;
    if k > 0 {
      RunConserves(s, q, events, k - 1);
      StepConserves(After(s, q, events, k - 1), q, events[k - 1]);
      SumAssociative(Places(s), Started(events, k - 1), New(events[k - 1]));
    } else {
      SumAssociative(Places(s), multiset{}, multiset{});
    }
  }

  lemma SumAssociative(a: multiset<Tid>, b: multiset<Tid>, c: multiset<Tid>)
    ensures a + b + c == a + (b + c) && a + multiset{} == a
  {
  }

  // --------------------------------------------------------------------------
  // Bounded waiting

  /** The ticks that a thread has the CPU for: a quantum of no ticks still takes one. */
  function Quantum(q: nat): nat {
    if q == 0 then 1 else q
  }

  ghost predicate LeftBounded(s: State, q: nat) {
    s.running.Some? ==> s.left < Quantum(q)
  }

  lemma StepKeepsLeft(s: State, q: nat, e: Event)
    requires LeftBounded(s, q)
    ensures LeftBounded(Step(s, q, e), q)
  {
  }

  /** The ticks until the thread at a position of the ready queue is dispatched, at the latest. */
  function Bound(s: State, q: nat, p: nat): nat {
    (if s.running.Some? && s.left > 0 then s.left + 1 else 1) + p * Quantum(q)
  }

  /** The ticks of a quantum for a thread and each one before it in the queue. */
  function Quanta(p: nat, q: nat): nat {
    (p + 1) * Quantum(q)
  }

  function Ticks(events: seq<Event>): nat {
    if events == [] then 0 else (if events[0].Tick? then 1 else 0) + Ticks(events[1..])
  }

  /** The k-th event is the tick that takes a thread from the ready queue to the CPU. */
  ghost predicate Dispatched(s: State, q: nat, events: seq<Event>, k: nat, t: Tid) {
    && 0 < k <= |events| && events[k - 1] == Tick
    && t in After(s, q, events, k - 1).ready && After(s, q, events, k).running == Some(t)
  }

  /** The same, within some ticks. */
  ghost predicate DispatchedBy(s: State, q: nat, events: seq<Event>, k: nat, t: Tid, ticks: nat) {
    Dispatched(s, q, events, k, t) && Ticks(events[..k]) <= ticks
  }

  /** One tick dispatches a thread of the ready queue, or brings it nearer to that. */
  lemma TickProgress(s: State, q: nat, p: nat)
    requires LeftBounded(s, q) && p < |s.ready|
    ensures Ticked(s, q).running == Some(s.ready[p])
            || exists p' :: 0 <= p' < |Ticked(s, q).ready| && Ticked(s, q).ready[p'] == s.ready[p]
                            && Bound(Ticked(s, q), q, p') < Bound(s, q, p)
  {
    var r := Ticked(s, q);
    if s.running.None? || s.left <= 0 {
      if p > 0 {
        assert r.ready[p - 1] == s.ready[p];
        NextPosition(p, Quantum(q));
      }
    } else {
      assert r.ready[p] == s.ready[p];
    }
  }

  lemma NextPosition(p: nat, q: nat)
    requires p > 0
    ensures p * q == (p - 1) * q + q
  {
  }

  /** Other events leave the thread where it is in the queue, and do not put its dispatch off. */
  lemma OtherProgress(s: State, q: nat, e: Event, p: nat)
    requires p < |s.ready| && !e.Tick?
    ensures p < |Step(s, q, e).ready| && Step(s, q, e).ready[p] == s.ready[p]
    ensures Bound(Step(s, q, e), q, p) <= Bound(s, q, p)
  {
  }

  /** With at least as many ticks to come as the bound says, the thread is dispatched within the bound. */
  lemma {:induction false} DispatchedInBound(s: State, q: nat, events: seq<Event>, p: nat) returns (k: nat)
    requires LeftBounded(s, q) && p < |s.ready| && Ticks(events) >= Bound(s, q, p)
    ensures DispatchedBy(s, q, events, k, s.ready[p], Bound(s, q, p))
    decreases |events|
  {
    BoundPositive(s, q, p);
    assert events != [];
    hide LeftBounded, Step, Bound, Ticked, After;
    var t, e, rest := s.ready[p], events[0], events[1..];
    var s' := Step(s, q, e);
    StepKeepsLeft(s, q, e);
    var p' := p;
    if e.Tick? {
      TickProgress(s, q, p);
      StepIsTick(s, q);
      if s'.running == Some(t) {
        assert events[..1] == [Tick] && Ticks([Tick]) == 1;
        assert s.ready[p] in s.ready;
        AfterOne(s, q, events);
        return 1;
      }
      p' :| 0 <= p' < |s'.ready| && s'.ready[p'] == t && Bound(s', q, p') < Bound(s, q, p);
    } else {
      OtherProgress(s, q, e, p);
    }
    var k' := DispatchedInBound(s', q, rest, p');
    k := k' + 1;
    AfterRest(s, q, events, k');
    AfterRest(s, q, events, k' - 1);
    assert events[..k][1..] == rest[..k'];
  }

  lemma BoundPositive(s: State, q: nat, p: nat)
    ensures Bound(s, q, p) > 0
  {
  }

  lemma StepIsTick(s: State, q: nat)
    ensures Step(s, q, Tick) == Ticked(s, q)
  {
  }

  lemma AfterOne(s: State, q: nat, events: seq<Event>)
    requires events != []
    ensures After(s, q, events, 0) == s && After(s, q, events, 1) == Step(s, q, events[0])
  {
  }

  lemma {:induction false} AfterRest(s: State, q: nat, events: seq<Event>, k: nat)
    requires events != [] && k < |events|
    ensures After(s, q, events, k + 1) == After(Step(s, q, events[0]), q, events[1..], k)
  {
    hide Step;
    if k > 0 {
      AfterRest(s, q, events, k - 1);
    }
  }

  /** No starvation: a thread at position p of the ready queue is dispatched within p + 1 quanta, whatever
      threads start, exit, block or wake up in between. */
  lemma BoundedWaiting(s: State, q: nat, events: seq<Event>, p: nat)
    requires LeftBounded(s, q) && p < |s.ready| && Ticks(events) >= Quanta(p, q)
    ensures exists k :: DispatchedBy(s, q, events, k, s.ready[p], Quanta(p, q))
  {
    BoundAtMost(s, q, p);
    hide Bound, Quanta, After, Ticks;
    var k := DispatchedInBound(s, q, events, p);
    assert DispatchedBy(s, q, events, k, s.ready[p], Quanta(p, q));
  }

  lemma BoundAtMost(s: State, q: nat, p: nat)
    requires LeftBounded(s, q)
    ensures Bound(s, q, p) <= Quanta(p, q)
  {
    NextPosition(p + 1, Quantum(q));
  }

  /** The bound on a quantum's rest holds in every run from the start. */
  lemma {:induction false} RunKeepsLeft(q: nat, events: seq<Event>, k: nat)
    requires k <= |events|
    ensures LeftBounded(After(START, q, events, k), q)
  {
    if k > 0 {
      RunKeepsLeft(q, events, k - 1);
      StepKeepsLeft(After(START, q, events, k - 1), q, events[k - 1]);
    }
  }

  // --------------------------------------------------------------------------
  // Quanta

  /** Whether one of some events is the thread's exit or its waiting for I/O. */
  ghost predicate Leaves(events: seq<Event>, t: Tid) {
    Exit(t) in events || Read(t) in events
  }

  /** A tick takes a thread from the ready queue to the CPU, with a fresh quantum less the tick itself. */
  lemma DispatchFresh(s: State, q: nat, t: Tid)
    requires OncePlaced(s) && t in s.ready && Ticked(s, q).running == Some(t)
    ensures Ticked(s, q).left == q - 1
  {
    if s.running == Some(t) {
      OnlyRunning(s, t);
    }
  }

  /** One event while a thread has the CPU with some of its quantum left. */
  lemma RunningStep(s: State, q: nat, e: Event, t: Tid)
    requires s.running == Some(t) && Enabled(s, e) && e != Exit(t) && e != Read(t)
    requires e.Tick? ==> s.left > 0
    ensures Step(s, q, e).running == Some(t) && Step(s, q, e).left == s.left - if e.Tick? then 1 else 0
  {
  }

  /** The tick at which the quantum is used up: the thread goes to the tail of the queue and its head gets the
      CPU; with nobody ready the thread goes on for another quantum. */
  lemma QuantumUsed(s: State, q: nat, t: Tid)
    requires OncePlaced(s) && s.running == Some(t) && s.left <= 0
    ensures s.ready != [] ==>
              && Ticked(s, q).running == Some(s.ready[0]) && s.ready[0] != t
              && Ticked(s, q).ready == s.ready[1..] + [t]
    ensures s.ready == [] ==> Ticked(s, q).running == Some(t) && Ticked(s, q).left == q - 1
  {
    OnlyRunning(s, t);
  }

  lemma {:induction false} TicksSnoc(events: seq<Event>, e: Event)
    ensures Ticks(events + [e]) == Ticks(events) + if e.Tick? then 1 else 0
  {
    if events == [] {
      assert events + [e] == [e];
    } else {
      assert (events + [e])[1..] == events[1..] + [e];
      TicksSnoc(events[1..], e);
    }
  }

  /** A thread that a tick has dispatched keeps the CPU for its quantum: after each of the following
      Quantum(q) - 1 ticks it is the running one, unless it exits or waits for I/O, whatever else happens. */
  lemma {:induction false} QuantumKept(s: State, q: nat, events: seq<Event>, j: nat, k: nat, t: Tid)
    requires OncePlaced(s) && Legal(s, q, events) && Dispatched(s, q, events, j, t)
    requires j <= k <= |events| && Ticks(events[j..k]) < Quantum(q) && !Leaves(events[j..k], t)
    ensures After(s, q, events, k).running == Some(t)
    ensures After(s, q, events, k).left == q - 1 - Ticks(events[j..k])
    decreases k
  {
    hide Step, Places, OncePlaced, Enabled, Ticked;
    if k == j {
      RunConserves(s, q, events, j - 1);
      StepIsTick(After(s, q, events, j - 1), q);
      DispatchFresh(After(s, q, events, j - 1), q, t);
    } else {
      var e := events[k - 1];
      assert events[j..k] == events[j..k - 1] + [e];
      TicksSnoc(events[j..k - 1], e);
      QuantumKept(s, q, events, j, k - 1, t);
      assert e in events[j..k];
      RunningStep(After(s, q, events, k - 1), q, e, t);
    }
  }

  /** And at the tick after those it is switched exactly if another thread is ready. */
  lemma QuantumEnds(s: State, q: nat, events: seq<Event>, j: nat, k: nat, t: Tid)
    requires OncePlaced(s) && Legal(s, q, events) && Dispatched(s, q, events, j, t)
    requires j <= k < |events| && Ticks(events[j..k]) == Quantum(q) - 1 && !Leaves(events[j..k], t)
    requires events[k] == Tick
    ensures var before, after := After(s, q, events, k), After(s, q, events, k + 1);
            && (after.running != Some(t) <==> before.ready != [])
            && (before.ready != [] ==> after.running == Some(before.ready[0]) && after.ready == before.ready[1..] + [t])
            && (before.ready == [] ==> after.left == q - 1)
  {
    hide Step, Places, OncePlaced, Enabled, Ticked, Legal, Dispatched, Leaves;
    QuantumKept(s, q, events, j, k, t);
    RunConserves(s, q, events, k);
    StepIsTick(After(s, q, events, k), q);
    QuantumUsed(After(s, q, events, k), q, t);
  }
}
