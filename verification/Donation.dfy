/** Priority donation along chains of locks. */
module Donation {
  import opened Basics

  // --------------------------------------------------------------------------
  // Donation over priorities, and a relation that says which thread each blocked thread waits for

  ghost function Lower<T>(priority: map<T, int>, p: int): set<T> {
    set t | t in priority && priority[t] < p
  }

  lemma RaisedShrinks<T>(priority: map<T, int>, t: T, p: int)
    requires t in priority && priority[t] < p
    ensures |Lower(priority[t := p], p)| < |Lower(priority, p)|
  {
    assert Lower(priority, p) == Lower(priority[t := p], p) + {t};
  }

  /** Priorities after one of p was donated to a thread, and on to the threads it waits for, until one waits
      for none or for one that has enough. However the waiting goes round in circles, this ends. */
  ghost function Donated<T>(priority: map<T, int>, waits: map<T, T>, t: T, p: int): map<T, int>
    requires t in priority && priority[t] < p
    requires forall u :: u in waits ==> waits[u] in priority
    decreases |Lower(priority, p)|
  {
    var raised := priority[t := p];
    RaisedShrinks(priority, t, p);
    if t in waits && raised[waits[t]] < p then Donated(raised, waits, waits[t], p) else raised
  }

  /** The thread n steps along the chain. */
  function Along<T>(waits: map<T, T>, t: T, n: nat): Option<T> {
    if n == 0 then Some(t)
    else
      var before := Along(waits, t, n - 1);
      if before.Some? && before.value in waits then Some(waits[before.value]) else None
  }

  /** The first n + 1 threads of the chain all have a priority below p. */
  ghost predicate LowerAlong<T>(priority: map<T, int>, waits: map<T, T>, t: T, p: int, n: nat) {
    forall m: nat :: m <= n ==>
      && Along(waits, t, m).Some? && Along(waits, t, m).value in priority
      && priority[Along(waits, t, m).value] < p
  }

  /** A thread is on the chain, with nothing but lower priorities up to it and its own. */
  ghost predicate Raised<T>(priority: map<T, int>, waits: map<T, T>, t: T, p: int, u: T) {
    exists n: nat :: LowerAlong(priority, waits, t, p, n) && Along(waits, t, n) == Some(u)
  }

  lemma {:induction false} AlongNext<T>(waits: map<T, T>, t: T, n: nat)
    requires t in waits
    ensures Along(waits, t, n + 1) == Along(waits, waits[t], n)
  {
    if n == 0 {
      assert Along(waits, t, 0) == Some(t);
    } else {
      AlongNext(waits, t, n - 1);
    }
  }

  lemma {:induction false} AlongSum<T>(waits: map<T, T>, t: T, m: nat, n: nat)
    requires Along(waits, t, m) == Some(t)
    ensures Along(waits, t, m + n) == Along(waits, t, n)
  {
    if n > 0 {
      AlongSum(waits, t, m, n - 1);
    }
  }

  /** Once the first thread of a chain has its priority, the rest of the chain is raised as before: a chain
      that comes back to the first thread could as well start there. */
  lemma {:induction false} RestRaised<T>(priority: map<T, int>, waits: map<T, T>, t: T, p: int, n: nat, u: T)
    requires LowerAlong(priority, waits, t, p, n) && Along(waits, t, n) == Some(u) && u != t
    ensures t in waits && Raised(priority[t := p], waits, waits[t], p, u)
    decreases n
  {
    assert Along(waits, t, 0) == Some(t);
    StepOut(waits, t, n);
    if m: nat :| 0 < m <= n && Along(waits, t, m) == Some(t) {
      AlongSum(waits, t, m, n - m);
      RestRaised(priority, waits, t, p, n - m, u);
    } else {
      var raised := priority[t := p];
      forall m: nat | m <= n - 1
        ensures Along(waits, waits[t], m) == Along(waits, t, m + 1)
      {
        AlongNext(waits, t, m);
      }
      assert LowerAlong(raised, waits, waits[t], p, n - 1);
    }
  }

  /** A chain that goes anywhere goes through what the first thread waits for. */
  lemma {:induction false} StepOut<T>(waits: map<T, T>, t: T, n: nat)
    ensures n > 0 && Along(waits, t, n).Some? ==> t in waits
  {
    if n > 1 {
      StepOut(waits, t, n - 1);
    } else if n == 1 {
      assert Along(waits, t, 0) == Some(t);
    }
  }

  lemma FirstRaised<T>(priority: map<T, int>, waits: map<T, T>, t: T, p: int, u: T)
    requires t in priority && priority[t] < p
    ensures Raised(priority, waits, t, p, t)
    ensures t in waits && Raised(priority[t := p], waits, waits[t], p, u) ==> Raised(priority, waits, t, p, u)
  {
    assert LowerAlong(priority, waits, t, p, 0) && Along(waits, t, 0) == Some(t);
    var raised := priority[t := p];
    if t in waits && Raised(raised, waits, waits[t], p, u) {
      var n: nat :| LowerAlong(raised, waits, waits[t], p, n) && Along(waits, waits[t], n) == Some(u);
      forall m: nat | m <= n + 1
        ensures Along(waits, t, m).Some? && Along(waits, t, m).value in priority
        ensures priority[Along(waits, t, m).value] < p
      {
        if m > 0 {
          AlongNext(waits, t, m - 1);
        }
      }
      AlongNext(waits, t, n);
      assert LowerAlong(priority, waits, t, p, n + 1);
    }
  }

  /** Donation raises exactly the threads on the chain up to the first that waits for none or for one with
      enough priority, and changes no other. */
  lemma {:induction false} DonatedExactly<T>(priority: map<T, int>, waits: map<T, T>, t: T, p: int, u: T)
    requires t in priority && priority[t] < p && u in priority
    requires forall v :: v in waits ==> waits[v] in priority
    ensures Donated(priority, waits, t, p).Keys == priority.Keys
    ensures Donated(priority, waits, t, p)[u] == if Raised(priority, waits, t, p, u) then p else priority[u]
    decreases |Lower(priority, p)|
  {
    hide Raised;
    var raised := priority[t := p];
    RaisedShrinks(priority, t, p);
    FirstRaised(priority, waits, t, p, u);
    if u != t {
      OnlyRest(priority, waits, t, p, u);
    }
    if t in waits && raised[waits[t]] < p {
      DonatedExactly(raised, waits, waits[t], p, u);
      NotLower(raised, waits, waits[t], p, t);
    } else if u != t {
      NoRest(raised, waits, t, p, u);
    }
  }

  lemma OnlyRest<T>(priority: map<T, int>, waits: map<T, T>, t: T, p: int, u: T)
    requires u != t
    ensures Raised(priority, waits, t, p, u) ==> t in waits && Raised(priority[t := p], waits, waits[t], p, u)
  {
    if Raised(priority, waits, t, p, u) {
      var n: nat :| LowerAlong(priority, waits, t, p, n) && Along(waits, t, n) == Some(u);
      RestRaised(priority, waits, t, p, n, u);
    }
  }

  /** A thread that has enough priority is not raised. */
  lemma NotLower<T>(priority: map<T, int>, waits: map<T, T>, t: T, p: int, u: T)
    requires u in priority && priority[u] >= p
    ensures !Raised(priority, waits, t, p, u)
  {
  }

  lemma NoRest<T>(priority: map<T, int>, waits: map<T, T>, t: T, p: int, u: T)
    requires t in waits ==> waits[t] in priority && priority[waits[t]] >= p
    ensures t in waits ==> !Raised(priority, waits, waits[t], p, u)
  {
    if t in waits {
      assert Along(waits, waits[t], 0) == Some(waits[t]);
    }
  }

  // --------------------------------------------------------------------------
  // Priority inversion. A thread's blocker is recorded only if the thread outranked the lock's holder when it
  // went to sleep, so the waiting that donation follows is not all the waiting there is.

  /** Each waiting thread waits for one with at least its priority. */
  ghost predicate Propagated<T>(priority: map<T, int>, waits: map<T, T>) {
    forall t :: t in waits ==> t in priority && waits[t] in priority && priority[t] <= priority[waits[t]]
  }

  /** The same, but for the threads that wait for t, which may have priorities up to p. */
  ghost predicate PropagatedBut<T>(priority: map<T, int>, waits: map<T, T>, t: T, p: int) {
    forall u :: u in waits ==>
      && u in priority && waits[u] in priority
      && (priority[u] <= priority[waits[u]] || (waits[u] == t && priority[u] <= p))
  }

  lemma {:induction false} DonationMends<T>(priority: map<T, int>, waits: map<T, T>, t: T, p: int)
    requires PropagatedBut(priority, waits, t, p) && t in priority && priority[t] < p
    ensures Propagated(Donated(priority, waits, t, p), waits)
    decreases |Lower(priority, p)|
  {
    var raised := priority[t := p];
    RaisedShrinks(priority, t, p);
    if t in waits && raised[waits[t]] < p {
      DonationMends(raised, waits, waits[t], p);
    }
  }

  /** Among the threads whose blocker is recorded, donation by one that is about to wait leaves none waiting
      for one of lower priority. */
  lemma DonationPropagates<T>(priority: map<T, int>, waits: map<T, T>, donor: T, t: T)
    requires Propagated(priority, waits) && donor in priority && t in priority && priority[t] < priority[donor]
    ensures Propagated(Donated(priority, waits[donor := t], t, priority[donor]), waits[donor := t])
  {
    DonationMends(priority, waits[donor := t], t, priority[donor]);
  }

  /** A thread that donation raises while it sleeps behind another than the recorded one, which donation does
      not reach and whose priority is below the donor's. */
  ghost predicate Stranded<T>(priority: map<T, int>, recorded: map<T, T>, sleeps: map<T, T>, t: T, p: int, u: T) {
    && u in sleeps && Raised(priority, recorded, t, p, u)
    && (u !in recorded || recorded[u] != sleeps[u])
    && sleeps[u] in priority && priority[sleeps[u]] < p && !Raised(priority, recorded, t, p, sleeps[u])
  }

  lemma NextRaised<T>(priority: map<T, int>, waits: map<T, T>, t: T, p: int, u: T)
    requires Raised(priority, waits, t, p, u) && u in waits && waits[u] in priority && priority[waits[u]] < p
    ensures Raised(priority, waits, t, p, waits[u])
  {
    var n: nat :| LowerAlong(priority, waits, t, p, n) && Along(waits, t, n) == Some(u);
    assert Along(waits, t, n + 1) == Some(waits[u]);
    assert LowerAlong(priority, waits, t, p, n + 1);
  }

  /** If every sleeping thread waited for one of at least its priority, that is still so after a thread has
      donated and gone to sleep exactly if donation stranded no sleeper. */
  lemma InversionExactly<T>(priority: map<T, int>, recorded: map<T, T>, sleeps: map<T, T>, donor: T, t: T)
    requires Propagated(priority, sleeps) && donor in priority && t in priority && priority[t] < priority[donor]
    requires donor !in sleeps && forall u :: u in recorded ==> recorded[u] in priority
    ensures Propagated(Donated(priority, recorded, t, priority[donor]), sleeps[donor := t])
            <==> forall u :: u in sleeps ==> !Stranded(priority, recorded, sleeps, t, priority[donor], u)
  {
    hide Raised, Donated;
    var p := priority[donor];
    var after, sleeps' := Donated(priority, recorded, t, p), sleeps[donor := t];
    forall u | u in priority
      ensures u in after && after[u] == if Raised(priority, recorded, t, p, u) then p else priority[u]
    {
      DonatedExactly(priority, recorded, t, p, u);
    }
    FirstRaised(priority, recorded, t, p, t);
    NotLower(priority, recorded, t, p, donor);
    DonatedExactly(priority, recorded, t, p, t);
    forall u | u in sleeps
      ensures u in after && sleeps[u] in after
      ensures after[u] <= after[sleeps[u]] <==> !Stranded(priority, recorded, sleeps, t, p, u)
    {
      SleeperExactly(priority, recorded, sleeps, t, p, u);
    }
    assert after[donor] == after[t] == p;
    assert forall u :: u in sleeps ==> u in sleeps' && sleeps'[u] == sleeps[u];
    assert forall u :: u in sleeps' <==> u == donor || u in sleeps;
  }

  lemma SleeperExactly<T>(priority: map<T, int>, recorded: map<T, T>, sleeps: map<T, T>, t: T, p: int, u: T)
    requires Propagated(priority, sleeps) && t in priority && priority[t] < p && u in sleeps
    requires forall v :: v in recorded ==> recorded[v] in priority
    ensures var after := Donated(priority, recorded, t, p);
            && u in after && sleeps[u] in after
            && (after[u] <= after[sleeps[u]] <==> !Stranded(priority, recorded, sleeps, t, p, u))
  {
    hide Raised, Donated;
    DonatedExactly(priority, recorded, t, p, u);
    DonatedExactly(priority, recorded, t, p, sleeps[u]);
    if priority[u] >= p {
      NotLower(priority, recorded, t, p, u);
    }
    if priority[sleeps[u]] >= p {
      NotLower(priority, recorded, t, p, sleeps[u]);
    }
    if u in recorded && recorded[u] == sleeps[u] && priority[sleeps[u]] < p && Raised(priority, recorded, t, p, u) {
      NextRaised(priority, recorded, t, p, u);
    }
  }

  /** Thread 0 of priority 20 holds a lock that thread 1 of priority 10 sleeps on, which did not outrank it
      and so has no blocker recorded. When thread 2 of priority 30 acquires a lock of thread 1, it raises
      thread 1, which then sleeps behind a thread of lower priority. */
  lemma InversionArises()
    ensures var priority, sleeps, recorded := map[0 := 20, 1 := 10, 2 := 30], map[1 := 0], map[2 := 1];
            && Propagated(priority, sleeps) && Stranded(priority, recorded, sleeps, 1, 30, 1)
            && !Propagated(Donated(priority, recorded, 1, 30), sleeps[2 := 1])
  {
    var priority, sleeps, recorded := map[0 := 20, 1 := 10, 2 := 30], map[1 := 0], map[2 := 1];
    var after := Donated(priority, recorded, 1, 30);
    assert after == priority[1 := 30];
    FirstRaised(priority, recorded, 1, 30, 1);
    DonatedExactly(priority, recorded, 1, 30, 0);
    assert 1 in sleeps[2 := 1] && after[1] > after[sleeps[2 := 1][1]];
  }

  /** Where no waiting thread waits for one of lower priority, nothing on the chain that a thread waits for
      has a lower priority than it, however long the chain. */
  lemma {:induction false} ChainNotLower<T>(priority: map<T, int>, waits: map<T, T>, t: T, n: nat)
    requires Propagated(priority, waits) && t in priority && Along(waits, t, n).Some?
    ensures var u := Along(waits, t, n).value; u in priority && priority[t] <= priority[u]
  {
    if n > 0 {
      ChainNotLower(priority, waits, t, n - 1);
    }
  }

  // --------------------------------------------------------------------------
  // Threads and locks

  class Lock {
    var holder: Thread?
    var donator: Thread?

    constructor ()
      ensures holder == null && donator == null
    {
      holder, donator := null, null;
    }
  }

  class Thread {
    var priority: int
    var blocker: Lock?
    var donators: seq<Lock>

    constructor (priority: int)
      ensures this.priority == priority && blocker == null && donators == []
    {
      this.priority, blocker, donators := priority, null, [];
    }
  }

  ghost function Priorities(threads: set<Thread>): map<Thread, int>
    reads threads`priority
  {
    map t | t in threads :: t.priority
  }

  /** Each thread's list of the locks whose waiters may donate to it. */
  ghost function Lists(threads: set<Thread>): map<Thread, seq<Lock>>
    reads threads`donators
  {
    map t | t in threads :: t.donators
  }

  /** The lists once a lock has a waiter: its holder's ends with the lock if it was not on it; no other changes. */
  ghost function Noted(lists: map<Thread, seq<Lock>>, lock: Lock, holder: Thread?): map<Thread, seq<Lock>> {
    if holder != null && holder in lists && lock !in lists[holder] then lists[holder := lists[holder] + [lock]]
    else lists
  }

  /** The blocker that each thread has recorded. */
  ghost function Recorded(threads: set<Thread>): map<Thread, Lock?>
    reads threads`blocker
  {
    map t | t in threads :: t.blocker
  }

  /** The locks recorded as blockers of some threads. */
  ghost function Blockers(threads: set<Thread>): set<Lock>
    reads threads`blocker
  {
    set t | t in threads && t.blocker != null :: t.blocker
  }

  /** The thread that each thread with a recorded blocker waits for. */
  ghost function Waits(threads: set<Thread>): map<Thread, Thread>
    reads threads`blocker, Blockers(threads)`holder
  {
    map t | t in threads && t.blocker != null && t.blocker.holder != null :: t.blocker.holder
  }

  /** Every recorded blocker is held, by one of the threads. */
  ghost predicate Held(threads: set<Thread>)
    reads threads`blocker, Blockers(threads)`holder
  {
    forall t :: t in threads && t.blocker != null ==> t.blocker.holder != null && t.blocker.holder in threads
  }

  /** Donates the current thread's priority to a lock's holder, and on along the chain. It ends whatever the
      locks are that the threads wait for, even in a circle. */
  method Donate(current: Thread, lock: Lock, ghost threads: set<Thread>)
    requires current in threads && Held(threads)
    requires lock.holder != null && lock.holder in threads && lock.holder.priority < current.priority
    modifies threads`priority
    ensures Priorities(threads)
            == Donated<Thread>(old(Priorities(threads)), old(Waits(threads)), lock.holder, old(current.priority))
    ensures Lists(threads) == old(Lists(threads)) && Recorded(threads) == old(Recorded(threads))
    decreases |Lower<Thread>(Priorities(threads), current.priority)|
  {
    var holder: Thread := lock.holder;
    ghost var priorities, waits := Priorities(threads), Waits(threads);
    RaisedShrinks<Thread>(priorities, holder, current.priority);
    holder.priority := current.priority;
    assert Priorities(threads) == priorities[holder := current.priority];
    assert Waits(threads) == waits;
    if holder.blocker != null && holder.blocker.holder.priority < current.priority {
      Donate(current, holder.blocker, threads);
    }
  }

  /** Whether a thread that finds a lock held has the priority to donate. */
  ghost predicate Outranks(current: Thread, lock: Lock)
    reads current, lock, lock.holder
  {
    lock.holder != null && lock.holder.priority < current.priority
  }

  /** What acquiring a lock does before sleeping: a held lock joins the locks whose waiters may donate to its
      holder, and a waiter of higher priority than the holder records it as its blocker and donates. If none of
      the threads with a recorded blocker waited for one of lower priority before, none does then. */
  method BeforeAcquire(current: Thread, lock: Lock, ghost threads: set<Thread>)
    requires current in threads && Held(threads) && (lock.holder != null ==> lock.holder in threads)
    requires lock.holder != current
    modifies threads, lock
    ensures Held(threads) && lock.holder == old(lock.holder)
    ensures lock.donator == if lock.holder != null then current else old(lock.donator)
    ensures Lists(threads) == Noted(old(Lists(threads)), lock, lock.holder)
    ensures Recorded(threads)
            == if old(Outranks(current, lock)) then old(Recorded(threads))[current := lock] else old(Recorded(threads))
    ensures !old(Outranks(current, lock)) ==>
              Priorities(threads) == old(Priorities(threads)) && Waits(threads) == old(Waits(threads))
    ensures old(Outranks(current, lock)) ==>
              var waits := old(Waits(threads))[current := lock.holder];
              && Waits(threads) == waits
              && Priorities(threads)
                 == Donated<Thread>(old(Priorities(threads)), waits, lock.holder, old(current.priority))
    ensures old(Propagated<Thread>(Priorities(threads), Waits(threads))) ==>
              Propagated<Thread>(Priorities(threads), Waits(threads))
  {
    hide Propagated, Lists, Recorded, Donated;
    ghost var priorities, waits := Priorities(threads), Waits(threads);
    if lock.holder != null {
      NoteWaiter(current, lock, threads);
      if current.priority > lock.holder.priority {
        Block(current, lock, threads);
        Donate(current, lock, threads);
        if Propagated<Thread>(priorities, waits) {
          DonationPropagates<Thread>(priorities, waits, current, lock.holder);
        }
      }
    }
  }

  method NoteWaiter(current: Thread, lock: Lock, ghost threads: set<Thread>)
    requires lock.holder != null && lock.holder in threads && Held(threads)
    modifies lock.holder`donators, lock`donator
    ensures lock.donator == current && Lists(threads) == Noted(old(Lists(threads)), lock, lock.holder)
    ensures Recorded(threads) == old(Recorded(threads))
    ensures Held(threads) && Priorities(threads) == old(Priorities(threads)) && Waits(threads) == old(Waits(threads))
  {
    hide Priorities, Waits, Recorded, Held, Blockers;
    if lock !in lock.holder.donators {
      lock.holder.donators := lock.holder.donators + [lock];
    }
    lock.donator := current;
  }

  method Block(current: Thread, lock: Lock, ghost threads: set<Thread>)
    requires current in threads && lock.holder != null && lock.holder in threads && Held(threads)
    modifies current`blocker
    ensures Held(threads) && Priorities(threads) == old(Priorities(threads))
    ensures Recorded(threads) == old(Recorded(threads))[current := lock] && Lists(threads) == old(Lists(threads))
    ensures Waits(threads) == old(Waits(threads))[current := lock.holder]
  {
    current.blocker := lock;
    assert lock in Blockers(threads);
  }

  // --------------------------------------------------------------------------
  // All the threads that sleep

  /** Every lock that a thread sleeps on is held, by one of the threads. */
  ghost predicate Asleep(threads: set<Thread>, sleeping: map<Thread, Lock>)
    reads sleeping.Values`holder
  {
    forall t :: t in sleeping ==> t in threads && sleeping[t].holder != null && sleeping[t].holder in threads
  }

  /** The thread that each sleeping thread waits for, recorded or not. */
  ghost function SleepsBehind(sleeping: map<Thread, Lock>): map<Thread, Thread>
    reads sleeping.Values`holder
  {
    map t | t in sleeping && sleeping[t].holder != null :: sleeping[t].holder
  }

  ghost predicate NoInversion(threads: set<Thread>, sleeping: map<Thread, Lock>)
    reads threads`priority, sleeping.Values`holder
  {
    Propagated<Thread>(Priorities(threads), SleepsBehind(sleeping))
  }

  /** The priorities after a thread has tried to acquire a lock with the given holder. */
  ghost function Outcome(priority: map<Thread, int>, waits: map<Thread, Thread>, current: Thread, holder: Thread?)
    : map<Thread, int>
    requires current in priority && (holder != null ==> holder in priority)
    requires forall t :: t in waits ==> waits[t] in priority
  {
    if holder != null && priority[holder] < priority[current]
    then Donated<Thread>(priority, waits[current := holder], holder, priority[current])
    else priority
  }

  /** Whether acquiring a lock would raise a sleeper above the thread that it sleeps behind. */
  ghost predicate Strands(current: Thread, lock: Lock, threads: set<Thread>, sleeping: map<Thread, Lock>)
    reads current, lock, lock.holder, threads, Blockers(threads), sleeping.Values
  {
    && Outranks(current, lock)
    && exists u :: u in sleeping
         && Stranded<Thread>(Priorities(threads), Waits(threads)[current := lock.holder], SleepsBehind(sleeping),
                             lock.holder, current.priority, u)
  }

  /** Acquiring a lock, up to going to sleep if it is held. If no thread slept behind one of lower priority,
      that is still so afterwards exactly if acquiring strands no sleeper. */
  method Acquire(current: Thread, lock: Lock, ghost threads: set<Thread>, ghost sleeping: map<Thread, Lock>)
    returns (acquired: bool, ghost sleeping': map<Thread, Lock>)
    requires current in threads && current !in sleeping && Held(threads) && Asleep(threads, sleeping)
    requires lock.holder != current && (lock.holder != null ==> lock.holder in threads)
    modifies threads, lock
    ensures Held(threads) && Asleep(threads, sleeping')
    ensures acquired <==> old(lock.holder) == null
    ensures lock.holder == if acquired then current else old(lock.holder)
    ensures sleeping' == if acquired then sleeping else sleeping[current := lock]
    ensures lock.donator == if acquired then old(lock.donator) else current
    ensures Lists(threads) == Noted(old(Lists(threads)), lock, old(lock.holder))
    ensures Recorded(threads)
            == if old(Outranks(current, lock)) then old(Recorded(threads))[current := lock] else old(Recorded(threads))
    ensures Priorities(threads) == Outcome(old(Priorities(threads)), old(Waits(threads)), current, old(lock.holder))
    ensures old(NoInversion(threads, sleeping)) ==>
              (NoInversion(threads, sleeping') <==> !old(Strands(current, lock, threads, sleeping)))
  {
    hide Propagated, Stranded, Strands, NoInversion;
    if lock.holder != null {
      sleeping' := GoToSleep(current, lock, threads, sleeping);
      return false, sleeping';
    }
    ghost var behind := SleepsBehind(sleeping);
    NothingToKeep(current, lock, threads, sleeping);
    lock.holder := current;
    assert SleepsBehind(sleeping) == behind;
    SameInversion(threads, sleeping, Priorities(threads), behind);
    return true, sleeping;
  }

  lemma NothingToKeep(current: Thread, lock: Lock, threads: set<Thread>, sleeping: map<Thread, Lock>)
    requires lock.holder == null
    ensures !Strands(current, lock, threads, sleeping)
    ensures NoInversion(threads, sleeping) <==> Propagated<Thread>(Priorities(threads), SleepsBehind(sleeping))
  {
  }

  lemma SameInversion(threads: set<Thread>, sleeping: map<Thread, Lock>, priority: map<Thread, int>,
                      behind: map<Thread, Thread>)
    requires Priorities(threads) == priority && SleepsBehind(sleeping) == behind
    ensures NoInversion(threads, sleeping) <==> Propagated<Thread>(priority, behind)
  {
  }

  /** The part of acquiring a held lock up to going to sleep. */
  method GoToSleep(current: Thread, lock: Lock, ghost threads: set<Thread>, ghost sleeping: map<Thread, Lock>)
    returns (ghost sleeping': map<Thread, Lock>)
    requires current in threads && current !in sleeping && Held(threads) && Asleep(threads, sleeping)
    requires lock.holder != current && lock.holder != null && lock.holder in threads
    modifies threads, lock
    ensures Held(threads) && Asleep(threads, sleeping')
    ensures lock.holder == old(lock.holder) && lock.donator == current && sleeping' == sleeping[current := lock]
    ensures Lists(threads) == Noted(old(Lists(threads)), lock, lock.holder)
    ensures Recorded(threads)
            == if old(Outranks(current, lock)) then old(Recorded(threads))[current := lock] else old(Recorded(threads))
    ensures Priorities(threads) == Outcome(old(Priorities(threads)), old(Waits(threads)), current, lock.holder)
    ensures old(NoInversion(threads, sleeping)) ==>
              (NoInversion(threads, sleeping') <==> !old(Strands(current, lock, threads, sleeping)))
  {
    hide Propagated, Stranded, Lists, Recorded, Noted, Donated;
    ghost var priorities, waits, behind := Priorities(threads), Waits(threads), SleepsBehind(sleeping);
    ghost var outranks := Outranks(current, lock);
    BeforeAcquire(current, lock, threads);
    sleeping' := sleeping[current := lock];
    var holder: Thread := lock.holder;
    assert SleepsBehind(sleeping') == behind[current := holder];
    if Propagated<Thread>(priorities, behind) {
      if outranks {
        InversionExactly<Thread>(priorities, waits[current := holder], behind, current, holder);
      } else {
        EnoughPriority<Thread>(priorities, behind, current, holder);
      }
    }
  }

  /** Sleeping behind a thread of at least one's own priority is no inversion. */
  lemma EnoughPriority<T>(priority: map<T, int>, sleeps: map<T, T>, t: T, u: T)
    requires Propagated(priority, sleeps) && t in priority && u in priority && priority[t] <= priority[u]
    ensures Propagated(priority, sleeps[t := u])
  {
  }
}
