/** The cart manager: any number of carts, one thread each, cross tracks that join two junctions. Each
    junction has a semaphore and is reserved with the simulator. The model is a state machine whose steps are
    those of the threads, interleaved in any order. */
module CartManager {
  import opened Basics

  /** Where a thread is in its routine: what it has done last. */
  datatype Stage =
    | Arrived           // thread started
    | WaitedFirst       // waited for the lower junction's semaphore
    | WaitedBoth        // and for the higher one's
    | ReservedFirst     // reserved the lower junction
    | ReservedBoth      // and the higher one
    | Crossed
    | ReleasedStart     // released the junction it came from
    | PostedStart       // and posted its semaphore
    | ReleasedEnd       // released the junction it went to
    | Finished          // and posted its semaphore

  datatype Cart = Cart(track: nat, junction: nat, stage: Stage)

  datatype State = State(tracks: nat, sems: seq<nat>, reservedBy: seq<Option<nat>>, carts: seq<Cart>)

  /** The junction at the other end, as the thread computes it. */
  function Destination(tracks: nat, track: nat, junction: nat): nat
    requires tracks > 0
  {
    var maxTrack := tracks - 1;
    if track == maxTrack then
      if junction == 0 then maxTrack else 0
    else if junction == track then junction + 1
    else if junction > track then junction - 1
    else 0
  }

  /** A cart arrives at an end of its own track: track t joins junctions t and t + 1, and the last track
      joins the last junction and the first. */
  predicate AtEnd(tracks: nat, track: nat, junction: nat) {
    track < tracks && (junction == track || junction == (if track + 1 == tracks then 0 else track + 1))
  }

  lemma OppositeEnd(tracks: nat, track: nat, junction: nat)
    requires tracks >= 2 && AtEnd(tracks, track, junction)
    ensures var d := Destination(tracks, track, junction);
            d != junction && AtEnd(tracks, track, d) && junction < tracks && d < tracks
    ensures Destination(tracks, track, Destination(tracks, track, junction)) == junction
  {
  }

  function End(tracks: nat, c: Cart): nat
    requires tracks > 0
  {
    Destination(tracks, c.track, c.junction)
  }

  /** The thread takes the lower junction first. */
  function First(tracks: nat, c: Cart): nat
    requires tracks > 0
  {
    if c.junction < End(tracks, c) then c.junction else End(tracks, c)
  }

  function Second(tracks: nat, c: Cart): nat
    requires tracks > 0
  {
    if c.junction < End(tracks, c) then End(tracks, c) else c.junction
  }

  function Progress(stage: Stage): nat {
    match stage
    case Arrived => 0
    case WaitedFirst => 1
    case WaitedBoth => 2
    case ReservedFirst => 3
    case ReservedBoth => 4
    case Crossed => 5
    case ReleasedStart => 6
    case PostedStart => 7
    case ReleasedEnd => 8
    case Finished => 9
  }

  /** Whether a cart has taken a junction's semaphore and not yet posted it. */
  predicate Holds(tracks: nat, c: Cart, j: nat)
    requires tracks > 0
  {
    var p := Progress(c.stage);
    || (1 <= p <= 6 && j == First(tracks, c))
    || (2 <= p <= 6 && j == Second(tracks, c))
    || (7 <= p <= 8 && j == End(tracks, c))
  }

  /** Whether a cart has reserved a junction and not yet released it. */
  predicate HasReserved(tracks: nat, c: Cart, j: nat)
    requires tracks > 0
  {
    var p := Progress(c.stage);
    || (3 <= p <= 5 && j == First(tracks, c))
    || (4 <= p <= 5 && j == Second(tracks, c))
    || (6 <= p <= 7 && j == End(tracks, c))
  }

  // --------------------------------------------------------------------------
  // Steps

  predicate WellFormed(s: State) {
    && s.tracks >= 2
    && |s.sems| == |s.reservedBy| == s.tracks
    && forall i :: 0 <= i < |s.carts| ==> AtEnd(s.tracks, s.carts[i].track, s.carts[i].junction)
  }

  /** What a thread does next. */
  datatype Call =
    | Wait(junction: nat)      // on the junction's semaphore
    | Post(junction: nat)
    | Reserve(junction: nat)   // with the simulator
    | Release(junction: nat)
    | Cross
    | Nothing

  function NextCall(tracks: nat, c: Cart): Call
    requires tracks > 0
  {
    match c.stage
    case Arrived => Wait(First(tracks, c))
    case WaitedFirst => Wait(Second(tracks, c))
    case WaitedBoth => Reserve(First(tracks, c))
    case ReservedFirst => Reserve(Second(tracks, c))
    case ReservedBoth => Cross
    case Crossed => Release(c.junction)
    case ReleasedStart => Post(c.junction)
    case PostedStart => Release(End(tracks, c))
    case ReleasedEnd => Post(End(tracks, c))
    case Finished => Nothing
  }

  function NextStage(stage: Stage): Stage {
    match stage
    case Arrived => WaitedFirst
    case WaitedFirst => WaitedBoth
    case WaitedBoth => ReservedFirst
    case ReservedFirst => ReservedBoth
    case ReservedBoth => Crossed
    case Crossed => ReleasedStart
    case ReleasedStart => PostedStart
    case PostedStart => ReleasedEnd
    case ReleasedEnd => Finished
    case Finished => Finished
  }

  function Advance(c: Cart): Cart {
    c.(stage := NextStage(c.stage))
  }

  /** What a step changes in who holds, and who has reserved, which junction; and what it relies on. */
  lemma CallChangesOwners(tracks: nat, c: Cart)
    requires tracks >= 2 && AtEnd(tracks, c.track, c.junction)
    ensures var call := NextCall(tracks, c);
            && (call.Wait? || call.Post? || call.Reserve? || call.Release? ==> call.junction < tracks)
            && (forall j: nat :: Holds(tracks, Advance(c), j) <==>
                  (Holds(tracks, c, j) || call == Wait(j)) && call != Post(j))
            && (forall j: nat :: HasReserved(tracks, Advance(c), j) <==>
                  (HasReserved(tracks, c, j) || call == Reserve(j)) && call != Release(j))
            && (call.Wait? ==> !Holds(tracks, c, call.junction))
            && (call.Post? ==> Holds(tracks, c, call.junction) && !HasReserved(tracks, c, call.junction))
            && (call.Reserve? ==> Holds(tracks, c, call.junction) && !HasReserved(tracks, c, call.junction))
            && (call.Release? ==> HasReserved(tracks, c, call.junction))
            && (call.Cross? ==> HasReserved(tracks, c, c.junction) && HasReserved(tracks, c, End(tracks, c)))
            && (forall j: nat :: HasReserved(tracks, c, j) ==> Holds(tracks, c, j) && j < tracks)
  {
    OppositeEnd(tracks, c.track, c.junction);
    hide Destination;
  }

  /** Thread i has a next step and is not blocked. */
  predicate Enabled(s: State, i: nat)
    requires WellFormed(s) && i < |s.carts|
  {
    var call := NextCall(s.tracks, s.carts[i]);
    CallChangesOwners(s.tracks, s.carts[i]);
    !call.Nothing? && (call.Wait? ==> s.sems[call.junction] > 0)
  }

  /** Where a cart is, and whether it has still to cross. */
  function Position(tracks: nat, c: Cart): nat
    requires tracks > 0
  {
    if Active(c) then c.junction else End(tracks, c)
  }

  predicate Active(c: Cart) {
    Progress(c.stage) < Progress(Crossed)
  }

  /** Whether the simulator accepts the call that thread i makes next. It exits if a junction is reserved
      that is reserved already, that does not end the track the cart is at, or by a cart that has crossed; if
      a cart crosses from a junction it is not at, without having reserved both ends of its track, or again;
      or if a junction is released by a cart that has not reserved it. */
  predicate Accepted(s: State, i: nat)
    requires WellFormed(s) && i < |s.carts|
  {
    var c := s.carts[i];
    CallChangesOwners(s.tracks, c);
    match NextCall(s.tracks, c)
    case Reserve(j) =>
      && s.reservedBy[j] == None && Active(c)
      && (j == Position(s.tracks, c) || j == Destination(s.tracks, c.track, Position(s.tracks, c)))
    case Release(j) => s.reservedBy[j] == Some(i)
    case Cross =>
      OppositeEnd(s.tracks, c.track, c.junction);
      && s.reservedBy[c.junction] == Some(i) && s.reservedBy[End(s.tracks, c)] == Some(i)
      && c.junction == Position(s.tracks, c) && Active(c)
    case _ => true
  }

  /** Thread i takes its next step. */
  function Step(s: State, i: nat): State
    requires WellFormed(s) && i < |s.carts| && Enabled(s, i)
  {
    CallChangesOwners(s.tracks, s.carts[i]);
    var s' := s.(carts := s.carts[i := Advance(s.carts[i])]);
    match NextCall(s.tracks, s.carts[i])
    case Wait(j) => s'.(sems := s.sems[j := s.sems[j] - 1])
    case Post(j) => s'.(sems := s.sems[j := s.sems[j] + 1])
    case Reserve(j) => s'.(reservedBy := s.reservedBy[j := Some(i)])
    case Release(j) => s'.(reservedBy := s.reservedBy[j := None])
    case _ => s'
  }

  /** Starting the manager sets every junction's semaphore to 1. */
  function Start(tracks: nat): State {
    State(tracks, seq(tracks, _ => 1), seq(tracks, _ => None), [])
  }

  function Arrive(s: State, track: nat, junction: nat): State {
    s.(carts := s.carts + [Cart(track, junction, Arrived)])
  }

  // --------------------------------------------------------------------------
  // Safety

  /** A semaphore is 0 exactly while a cart holds the junction, no two carts hold the same one, and a
      junction is reserved exactly by the cart that has reserved and not yet released it. */
  ghost predicate Owned(s: State, holders: seq<Option<nat>>) {
    && WellFormed(s)
    && |holders| == s.tracks
    && (forall j :: 0 <= j < s.tracks ==> s.sems[j] == if holders[j].None? then 1 else 0)
    && (forall i, j :: 0 <= i < |s.carts| && 0 <= j < s.tracks ==>
          (holders[j] == Some(i) <==> Holds(s.tracks, s.carts[i], j)))
    && (forall i, j :: 0 <= i < |s.carts| && 0 <= j < s.tracks ==>
          (s.reservedBy[j] == Some(i) <==> HasReserved(s.tracks, s.carts[i], j)))
    && (forall j :: 0 <= j < s.tracks && holders[j].Some? ==> holders[j].value < |s.carts|)
    && (forall j :: 0 <= j < s.tracks && s.reservedBy[j].Some? ==> s.reservedBy[j].value < |s.carts|)
  }

  ghost predicate Invariant(s: State) {
    exists holders :: Owned(s, holders)
  }

  lemma StartInvariant(tracks: nat)
    requires tracks >= 2
    ensures Invariant(Start(tracks))
  {
    assert Owned(Start(tracks), seq(tracks, _ => None));
  }

  lemma ArriveKeepsInvariant(s: State, track: nat, junction: nat)
    requires Invariant(s) && AtEnd(s.tracks, track, junction)
    ensures Invariant(Arrive(s, track, junction))
  {
    var holders: seq<Option<nat>> :| Owned(s, holders);
    assert Owned(Arrive(s, track, junction), holders);
  }

  /** What a step of thread i does to the holders. */
  function NextHolders(s: State, holders: seq<Option<nat>>, i: nat): seq<Option<nat>>
    requires WellFormed(s) && i < |s.carts| && |holders| == s.tracks
  {
    CallChangesOwners(s.tracks, s.carts[i]);
    match NextCall(s.tracks, s.carts[i])
    case Wait(j) => holders[j := Some(i)]
    case Post(j) => holders[j := None]
    case _ => holders
  }

  lemma StepOwned(s: State, holders: seq<Option<nat>>, i: nat)
    requires Owned(s, holders) && i < |s.carts| && Enabled(s, i)
    ensures Owned(Step(s, i), NextHolders(s, holders, i))
  {
    hide Holds, HasReserved, NextCall, NextStage, AtEnd;
    CallChangesOwners(s.tracks, s.carts[i]);
    var call, s', holders' := NextCall(s.tracks, s.carts[i]), Step(s, i), NextHolders(s, holders, i);
    if call.Reserve? {
      ReservedIsHeld(s, holders, call.junction);
    }
    forall k, j | 0 <= k < |s'.carts| && 0 <= j < s'.tracks
      ensures holders'[j] == Some(k) <==> Holds(s'.tracks, s'.carts[k], j)
      ensures s'.reservedBy[j] == Some(k) <==> HasReserved(s'.tracks, s'.carts[k], j)
    {
      assert holders[j] == Some(k) <==> Holds(s.tracks, s.carts[k], j);
      assert s.reservedBy[j] == Some(k) <==> HasReserved(s.tracks, s.carts[k], j);
    }
  }

  lemma StepKeepsInvariant(s: State, i: nat)
    requires Invariant(s) && i < |s.carts| && Enabled(s, i)
    ensures Invariant(Step(s, i))
  {
    var holders: seq<Option<nat>> :| Owned(s, holders);
    StepOwned(s, holders, i);
  }

  /** A thread reserves only the ends of its cart's track, and reserves and crosses only before it has crossed. */
  lemma CallsBeforeCrossing(tracks: nat, c: Cart)
    requires tracks > 0
    ensures var call := NextCall(tracks, c);
            && (call.Reserve? ==> Active(c) && (call.junction == c.junction || call.junction == End(tracks, c)))
            && (call.Cross? ==> Active(c))
  {
    hide Destination;
  }

  /** In every reachable state, every call a thread is about to make is one the simulator accepts. */
  lemma CallsAccepted(s: State, i: nat)
    requires Invariant(s) && i < |s.carts|
    ensures Accepted(s, i)
  {
    hide Holds, HasReserved, NextCall, AtEnd, Destination;
    var holders: seq<Option<nat>> :| Owned(s, holders);
    CallChangesOwners(s.tracks, s.carts[i]);
    CallsBeforeCrossing(s.tracks, s.carts[i]);
    var call := NextCall(s.tracks, s.carts[i]);
    if call.Reserve? {
      ReservedIsHeld(s, holders, call.junction);
    }
  }

  /** A reserved junction has semaphore value 0 and is held by the cart that reserved it. */
  lemma ReservedIsHeld(s: State, holders: seq<Option<nat>>, j: nat)
    requires Owned(s, holders) && j < s.tracks
    ensures s.reservedBy[j].Some? ==> s.sems[j] == 0 && holders[j] == s.reservedBy[j]
  {
    if s.reservedBy[j].Some? {
      CallChangesOwners(s.tracks, s.carts[s.reservedBy[j].value]);
    }
  }

  // --------------------------------------------------------------------------
  // Progress

  /** If some cart has not finished, some thread can take a step: a chain of threads waiting for each other
      climbs to ever higher junctions. */
  lemma {:induction false} FindEnabled(s: State, holders: seq<Option<nat>>, i: nat) returns (k: nat)
    requires Owned(s, holders) && i < |s.carts| && !s.carts[i].stage.Finished?
    ensures k < |s.carts| && Enabled(s, k)
    decreases s.tracks - Height(s.tracks, s.carts[i])
  {
    hide Destination, AtEnd;
    if Enabled(s, i) {
      return i;
    }
    CallChangesOwners(s.tracks, s.carts[i]);
    var h := holders[NextCall(s.tracks, s.carts[i]).junction].value;
    CallChangesOwners(s.tracks, s.carts[h]);
    assert Holds(s.tracks, s.carts[h], NextCall(s.tracks, s.carts[i]).junction);
    if Enabled(s, h) {
      return h;
    }
    OppositeEnd(s.tracks, s.carts[h].track, s.carts[h].junction);
    k := FindEnabled(s, holders, h);
  }

  /** The junction a thread waits for. */
  function Height(tracks: nat, c: Cart): nat
    requires tracks > 0
  {
    if c.stage.Arrived? then First(tracks, c) else Second(tracks, c)
  }

  lemma DeadlockFree(s: State, i: nat)
    requires Invariant(s) && i < |s.carts| && !s.carts[i].stage.Finished?
    ensures exists k :: 0 <= k < |s.carts| && Enabled(s, k)
  {
    var holders: seq<Option<nat>> :| Owned(s, holders);
    var k := FindEnabled(s, holders, i);
  }

  /** The steps the threads still have to take. */
  function Remaining(carts: seq<Cart>): nat {
    if carts == [] then 0 else 9 - Progress(carts[0].stage) + Remaining(carts[1..])
  }

  lemma {:induction false} RemainingUpdate(carts: seq<Cart>, i: nat, c: Cart)
    requires i < |carts| && Progress(c.stage) == Progress(carts[i].stage) + 1
    ensures Remaining(carts[i := c]) == Remaining(carts) - 1
  {
    if i > 0 {
      RemainingUpdate(carts[1..], i - 1, c);
      assert carts[i := c][1..] == carts[1..][i - 1 := c];
    } else {
      assert carts[i := c][1..] == carts[1..];
    }
  }

  /** Each step brings the end of the run one step nearer. */
  lemma StepProgresses(s: State, i: nat)
    requires WellFormed(s) && i < |s.carts| && Enabled(s, i)
    ensures Remaining(Step(s, i).carts) == Remaining(s.carts) - 1
  {
    RemainingUpdate(s.carts, i, Step(s, i).carts[i]);
  }

  lemma {:induction false} RemainingArrival(carts: seq<Cart>, c: Cart)
    requires c.stage.Arrived?
    ensures Remaining(carts + [c]) == Remaining(carts) + 9
  {
    if carts == [] {
      assert [c][1..] == [];
    } else {
      RemainingArrival(carts[1..], c);
      assert (carts + [c])[1..] == carts[1..] + [c];
    }
  }

  /** What happens next in a run: a thread takes a step, or another cart arrives. */
  datatype Event = Turn(i: nat) | Arrival(track: nat, junction: nat)

  ghost predicate Possible(s: State, e: Event) {
    WellFormed(s) && match e
      case Turn(i) => i < |s.carts| && Enabled(s, i)
      case Arrival(track, junction) => AtEnd(s.tracks, track, junction)
  }

  function Happen(s: State, e: Event): State
    requires Possible(s, e)
  {
    match e
    case Turn(i) => Step(s, i)
    case Arrival(track, junction) => Arrive(s, track, junction)
  }

  /** The run leads from one state to the other; threads that are blocked take no turns. */
  ghost predicate Reaches(s: State, run: seq<Event>, t: State)
    decreases |run|
  {
    if run == [] then s == t
    else Possible(s, run[0]) && Reaches(Happen(s, run[0]), run[1..], t)
  }

  function Turns(run: seq<Event>): nat {
    if run == [] then 0 else (if run[0].Turn? then 1 else 0) + Turns(run[1..])
  }

  function Arrivals(run: seq<Event>): nat {
    if run == [] then 0 else (if run[0].Arrival? then 1 else 0) + Arrivals(run[1..])
  }

  lemma EventKeepsInvariant(s: State, e: Event)
    requires Invariant(s) && Possible(s, e)
    ensures Invariant(Happen(s, e))
    ensures Remaining(Happen(s, e).carts) == if e.Turn? then Remaining(s.carts) - 1 else Remaining(s.carts) + 9
  {
    match e {
      case Turn(i) =>
        StepKeepsInvariant(s, i);
        StepProgresses(s, i);
      case Arrival(track, junction) =>
        ArriveKeepsInvariant(s, track, junction);
        RemainingArrival(s.carts, Cart(track, junction, Arrived));
    }
  }

  /** In every run, whatever carts arrive during it, every state is a safe one, and each cart has just nine
      steps to take; and a run that no thread can continue has taken every cart across and left every
      semaphore at 1 and every junction unreserved. */
  lemma {:induction false} RunsFinish(s: State, run: seq<Event>, t: State)
    requires Invariant(s) && Reaches(s, run, t)
    ensures Invariant(t) && Turns(run) + Remaining(t.carts) == Remaining(s.carts) + 9 * Arrivals(run)
    ensures (forall i :: 0 <= i < |t.carts| ==> !Enabled(t, i)) ==>
              && (forall i :: 0 <= i < |t.carts| ==> t.carts[i].stage.Finished?)
              && (forall j :: 0 <= j < t.tracks ==> t.sems[j] == 1 && t.reservedBy[j] == None)
    decreases |run|
  {
    if run == [] {
      if forall i :: 0 <= i < |t.carts| ==> !Enabled(t, i) {
        StuckIsFinished(t);
      }
    } else {
      EventKeepsInvariant(s, run[0]);
      RunsFinish(Happen(s, run[0]), run[1..], t);
    }
  }

  lemma StuckIsFinished(t: State)
    requires Invariant(t) && forall i :: 0 <= i < |t.carts| ==> !Enabled(t, i)
    ensures forall i :: 0 <= i < |t.carts| ==> t.carts[i].stage.Finished?
    ensures forall j :: 0 <= j < t.tracks ==> t.sems[j] == 1 && t.reservedBy[j] == None
  {
    forall i | 0 <= i < |t.carts| ensures t.carts[i].stage.Finished? {
      if !t.carts[i].stage.Finished? {
        DeadlockFree(t, i);
      }
    }
    var holders: seq<Option<nat>> :| Owned(t, holders);
    forall j | 0 <= j < t.tracks ensures holders[j].None? && t.reservedBy[j] == None {
      ReservedIsHeld(t, holders, j);
      assert forall i :: 0 <= i < |t.carts| ==> !Holds(t.tracks, t.carts[i], j);
    }
  }

  // --------------------------------------------------------------------------
  // Crossing

  /** A cart crosses exactly when it stops being active. */
  lemma CrossingStep(tracks: nat, c: Cart)
    requires tracks > 0
    ensures NextCall(tracks, c).Cross? <==> Active(c) && !Active(Advance(c))
    ensures !Active(c) ==> !Active(Advance(c))
  {
    hide Destination;
  }

  /** The carts that have still to cross. */
  function Waiting(carts: seq<Cart>): nat {
    if carts == [] then 0 else (if Active(carts[0]) then 1 else 0) + Waiting(carts[1..])
  }

  lemma {:induction false} WaitingUpdate(carts: seq<Cart>, i: nat, c: Cart)
    requires i < |carts|
    ensures Waiting(carts[i := c]) + (if Active(carts[i]) then 1 else 0)
            == Waiting(carts) + if Active(c) then 1 else 0
  {
    if i > 0 {
      WaitingUpdate(carts[1..], i - 1, c);
      assert carts[i := c][1..] == carts[1..][i - 1 := c];
    } else {
      assert carts[i := c][1..] == carts[1..];
    }
  }

  lemma {:induction false} WaitingArrival(carts: seq<Cart>, c: Cart)
    requires Active(c)
    ensures Waiting(carts + [c]) == Waiting(carts) + 1
  {
    if carts == [] {
      assert [c][1..] == [];
    } else {
      WaitingArrival(carts[1..], c);
      assert (carts + [c])[1..] == carts[1..] + [c];
    }
  }

  /** How many of a run's steps are calls of cross. */
  ghost function Crossings(s: State, run: seq<Event>): nat
    decreases |run|
  {
    if run == [] || !Possible(s, run[0]) then 0
    else
      (if run[0].Turn? && NextCall(s.tracks, s.carts[run[0].i]).Cross? then 1 else 0)
      + Crossings(Happen(s, run[0]), run[1..])
  }

  lemma OneCrossing(s: State, e: Event)
    requires Possible(s, e)
    ensures Waiting(Happen(s, e).carts)
            == if e.Arrival? then Waiting(s.carts) + 1
               else if NextCall(s.tracks, s.carts[e.i]).Cross? then Waiting(s.carts) - 1
               else Waiting(s.carts)
  {
    match e {
      case Turn(i) =>
        CrossingStep(s.tracks, s.carts[i]);
        WaitingUpdate(s.carts, i, Advance(s.carts[i]));
      case Arrival(track, junction) =>
        WaitingArrival(s.carts, Cart(track, junction, Arrived));
    }
  }

  /** In every run each cart crosses once: there are as many crossings as carts that were there or arrived, less
      those that have still to cross. */
  lemma {:induction false} EachCrossesOnce(s: State, run: seq<Event>, t: State)
    requires Reaches(s, run, t)
    ensures Crossings(s, run) + Waiting(t.carts) == Waiting(s.carts) + Arrivals(run)
    decreases |run|
  {
    if run != [] {
      OneCrossing(s, run[0]);
      EachCrossesOnce(Happen(s, run[0]), run[1..], t);
    }
  }

  /** So a run from the start that no thread can continue has crossed as often as carts arrived. */
  lemma AllHaveCrossed(tracks: nat, run: seq<Event>, t: State)
    requires tracks >= 2 && Reaches(Start(tracks), run, t)
    requires WellFormed(t) && forall i :: 0 <= i < |t.carts| ==> !Enabled(t, i)
    ensures Crossings(Start(tracks), run) == Arrivals(run)
  {
    StartInvariant(tracks);
    RunsFinish(Start(tracks), run, t);
    EachCrossesOnce(Start(tracks), run, t);
    NoneWaiting(t.carts);
  }

  lemma {:induction false} NoneWaiting(carts: seq<Cart>)
    requires forall i :: 0 <= i < |carts| ==> carts[i].stage.Finished?
    ensures Waiting(carts) == 0
  {
    if carts != [] {
      NoneWaiting(carts[1..]);
    }
  }
}
