/** The scheduler's queues and callbacks, for the round-robin algorithm. */
module Scheduler {
  import opened Basics
  import opened RoundRobin

  class Thread {
    const tid: Tid
    var tick: int

    constructor (tid: Tid, tick: int)
      ensures this.tid == tid && this.tick == tick
    {
      this.tid, this.tick := tid, tick;
    }
  }

  function Tids(queue: seq<Thread>): (tids: seq<Tid>)
    ensures |tids| == |queue|
  {
    seq(|queue|, i requires 0 <= i < |queue| => queue[i].tid)
  }

  lemma KnownGrows(all: seq<Thread>, thread: Thread)
    ensures Tids(all + [thread]) == Tids(all) + [thread.tid]
    ensures thread.tid !in Tids(all) ==> forall i :: 0 <= i < |all| ==> all[i].tid != thread.tid
  {
    assert forall i :: 0 <= i < |all| ==> Tids(all)[i] == all[i].tid;
  }

  lemma BlockedPlaced(s: State, t: Tid)
    requires t in s.blocked
    ensures t in Places(s)
  {
  }

  class Scheduler {
    var ready: seq<Thread>
    var all: seq<Thread>
    var running: Thread?
    const quantum: nat
    ghost var blocked: set<Tid>
    ghost var exited: set<Tid>

    ghost function View(): State
      reads this, running
    {
      State(Tids(ready), if running == null then None else Some(running.tid),
            if running == null then 0 else running.tick, blocked, exited)
    }

    /** Every thread that has started is known, once. */
    ghost predicate Valid()
      reads this, running
    {
      && quantum <= INT_MAX && OncePlaced(View())
      && (forall i, j :: 0 <= i < j < |all| ==> all[i].tid != all[j].tid)
      && (forall t :: t in Tids(all) <==> t in Places(View()))
      && (forall i :: 0 <= i < |ready| ==> ready[i] in all)
      && (running != null ==> running in all)
    }

    constructor (quantum: nat)
      requires quantum <= INT_MAX
      ensures Valid() && View() == START && this.quantum == quantum
    {
      ready, all, running, blocked, exited := [], [], null, {}, {};
      this.quantum := quantum;
    }

    /** A thread is ready for the first time. */
    method SysExec(t: Tid)
      requires Valid() && Enabled(View(), Exec(t))
      modifies this
      ensures Valid() && View() == Step(old(View()), quantum, Exec(t))
    {
      hide OncePlaced, Places;
      ghost var s := View();
      StepConserves(s, quantum, Exec(t));
      ExecConserves(s, quantum, t);
      var thread := new Thread(t, quantum);
      all := all + [thread];
      ready := ready + [thread];
      assert View() == Step(s, quantum, Exec(t));
      KnownGrows(old(all), thread);
    }

    /** The clock interrupt; the thread dispatched by it, if any. */
    method Tick() returns (dispatched: Option<Tid>)
      requires Valid()
      modifies this, all
      ensures Valid() && all == old(all) && View() == Step(old(View()), quantum, Event.Tick)
      ensures dispatched == if old(ready != [] && (running == null || running.tick <= 0)) then View().running else None
    {
      hide OncePlaced, Places;
      ghost var s := View();
      StepConserves(s, quantum, Event.Tick);
      dispatched := None;
      if |ready| > 0 {
        dispatched := RunThread();
      } else if running != null && running.tick <= 0 {
        running.tick := quantum;
      }
      if running != null {
        running.tick := running.tick - 1;
      }
      assert View() == Step(s, quantum, Event.Tick);
    }

    method RunThread() returns (dispatched: Option<Tid>)
      requires ready != [] && forall i :: 0 <= i < |ready| ==> ready[i] in all
      modifies this`ready, this`running, all
      ensures old(running == null || running.tick <= 0) ==>
                View() == Switched(old(View()), quantum) && dispatched == View().running
      ensures !old(running == null || running.tick <= 0) ==> View() == old(View()) && dispatched == None
      ensures running != null && (running == old(running) || running in all)
      ensures forall i :: 0 <= i < |ready| ==> ready[i] in all || ready[i] == old(running)
    {
      if running == null {
        running := Dequeue();
        running.tick := quantum;
      } else if running.tick <= 0 {
        var runningOld := running;
        running := Dequeue();
        ready := ready + [runningOld];
        running.tick := quantum;
      } else {
        return None;
      }
      return Some(running.tid);
    }

    method Dequeue() returns (thread: Thread)
      requires ready != []
      modifies this`ready
      ensures thread == old(ready[0]) && ready == old(ready[1..])
    {
      thread := ready[0];
      ready := ready[1..];
    }

    /** The running thread has exited. */
    method SysExit(t: Tid)
      requires Valid() && Enabled(View(), Exit(t))
      modifies this
      ensures Valid() && View() == Step(old(View()), quantum, Exit(t))
    {
      hide OncePlaced, Places;
      StepConserves(View(), quantum, Exit(t));
      running := null;
      exited := exited + {t};
      assert View() == Step(old(View()), quantum, Exit(t));
    }

    /** The running thread waits for I/O. */
    method SysRead(t: Tid)
      requires Valid() && Enabled(View(), Read(t))
      modifies this
      ensures Valid() && View() == Step(old(View()), quantum, Read(t))
    {
      hide OncePlaced, Places;
      StepConserves(View(), quantum, Read(t));
      running := null;
      blocked := blocked + {t};
      assert View() == Step(old(View()), quantum, Read(t));
    }

    /** The I/O of a thread is over; it is ready again. */
    method IoComplete(t: Tid)
      requires Valid() && Enabled(View(), Event.IoComplete(t))
      modifies this
      ensures Valid() && View() == Step(old(View()), quantum, Event.IoComplete(t))
    {
      hide OncePlaced, Places;
      BlockedPlaced(View(), t);
      StepConserves(View(), quantum, Event.IoComplete(t));
      var thread := Find(t);
      ready := ready + [thread];
      blocked := blocked - {t};
      assert View() == Step(old(View()), quantum, Event.IoComplete(t));
    }

    /** The thread known by an identifier. */
    method Find(t: Tid) returns (thread: Thread)
      requires t in Tids(all)
      ensures thread in all && thread.tid == t
    {
      var i := 0;
      while all[i].tid != t
        invariant 0 <= i < |all| && t !in Tids(all)[..i]
        decreases |all| - i
      {
        assert Tids(all)[..i + 1] == Tids(all)[..i] + [all[i].tid];
        assert Tids(all)[..|all|] == Tids(all);
        i := i + 1;
      }
      thread := all[i];
    }
  }
}
