/** The write-back buffer cache: a fixed set of slots over a block device, replaced by a clock. */
module BufferCache {
  import opened Basics
  import opened Sectors

  /** A block device. Its drivers are not part of this model: it is a sequence of sectors, and a log of the
      sectors that have been read. */
  class BlockDevice {
    var sectors: seq<Sector>
    ghost var log: seq<nat>

    constructor (contents: seq<Sector>)
      ensures sectors == contents && log == []
    {
      sectors, log := contents, [];
    }

    method Read(sector: nat) returns (buffer: Sector)
      requires sector < |sectors|
      modifies this`log
      ensures buffer == sectors[sector] && log == old(log) + [sector]
    {
      buffer := sectors[sector];
      log := log + [sector];
    }

    method Write(sector: nat, buffer: Sector)
      requires sector < |sectors|
      modifies this`sectors
      ensures sectors == old(sectors)[sector := buffer]
    {
      sectors := sectors[sector := buffer];
    }
  }

  const CACHE_SIZE := 64

  datatype Entry = Entry(occupied: bool, sector: nat, buffer: Sector, dirty: bool, access: bool)

  predicate Holds(e: Entry, sector: nat) {
    e.occupied && e.sector == sector
  }

  /** The sector's current contents are what the disk has, unless a dirty slot has newer ones. */
  ghost predicate Coherent(slots: seq<Entry>, disk: seq<Sector>, view: seq<Sector>) {
    && |view| == |disk|
    && (forall i :: 0 <= i < |slots| && slots[i].occupied ==>
          slots[i].sector < |disk| && slots[i].buffer == view[slots[i].sector])
    && (forall i :: 0 <= i < |slots| && slots[i].occupied && !slots[i].dirty ==>
          slots[i].buffer == disk[slots[i].sector])
    && (forall i, j :: 0 <= i < j < |slots| && slots[i].occupied && slots[j].occupied ==>
          slots[i].sector != slots[j].sector)
    && (forall s :: 0 <= s < |disk| ==> view[s] == disk[s] || Dirty(slots, s))
  }

  ghost predicate Dirty(slots: seq<Entry>, s: nat) {
    exists i :: 0 <= i < |slots| && Holds(slots[i], s) && slots[i].dirty
  }

  ghost predicate Cached(slots: seq<Entry>, sector: nat) {
    exists i :: 0 <= i < |slots| && Holds(slots[i], sector)
  }

  /** The slot of a sector has been used since the hand last came by, and after a write is dirty. */
  ghost predicate Used(slots: seq<Entry>, sector: nat, written: bool) {
    exists i :: 0 <= i < |slots| && Holds(slots[i], sector) && slots[i].access && (written ==> slots[i].dirty)
  }

  /** How many steps the clock hand takes from `hand` until it is at slot j for the first time. */
  function Distance(hand: nat, j: nat): int {
    if hand <= j then j - hand else j + CACHE_SIZE - hand
  }

  /** The hand stops at a slot that is empty or has not been used since it last came by. */
  predicate Stops(e: Entry) {
    !e.occupied || !e.access
  }

  /** The slots after the hand has taken `chances` steps from `hand`: those it passed were in use and
      have lost their access bit, the others are as they were. */
  ghost predicate Swept(before: seq<Entry>, after: seq<Entry>, hand: nat, chances: nat) {
    && |before| == |after| == CACHE_SIZE
    && forall j :: 0 <= j < CACHE_SIZE ==>
         if Distance(hand, j) < chances
         then !Stops(before[j]) && after[j] == before[j].(access := false)
         else after[j] == before[j]
  }

  /** The slot where the sweep from `hand` stops; the hand rests there. */
  ghost predicate StopsAt(before: seq<Entry>, swept: seq<Entry>, hand: nat, chances: nat, rest: nat) {
    && chances <= CACHE_SIZE && rest < CACHE_SIZE && Swept(before, swept, hand, chances)
    && Distance(hand, rest) == (if chances < CACHE_SIZE then chances else 0)
    && Stops(swept[rest])
  }

  /** The slot where the sweep stops has been filled with e, and every other is as the sweep left it. */
  ghost predicate Replaced(before: seq<Entry>, after: seq<Entry>, hand: nat, rest: nat, e: Entry) {
    exists chances: nat, swept :: StopsAt(before, swept, hand, chances, rest) && after == swept[rest := e]
  }

  /** The device's contents once a slot that was dirty has been written back. */
  function WrittenBack(disk: seq<Sector>, e: Entry): seq<Sector> {
    if e.occupied && e.dirty && e.sector < |disk| then disk[e.sector := e.buffer] else disk
  }

  /** A cache into which the sectors of the log were loaded, in that order, and that has had room for them all:
      the slots are filled from the first on, and the hand rests at the last one filled. */
  ghost predicate Filling(slots: seq<Entry>, clock: nat, log: seq<nat>) {
    && |log| <= CACHE_SIZE == |slots| && Distinct(log)
    && (forall i :: 0 <= i < CACHE_SIZE ==> if i < |log| then Holds(slots[i], log[i]) else !slots[i].occupied)
    && (if log == [] then clock == 0 else clock == |log| - 1 && slots[clock].access)
  }

  /** How access to the sector of e, which leaves e in its slot, changes the cache and the device. On a hit
      only that slot changes, which stays dirty if it was. On a miss the slot where the clock stops is written
      back if it is dirty, and filled after one read of the device. */
  ghost predicate Served(before: seq<Entry>, disk: seq<Sector>, log: seq<nat>, after: seq<Entry>, disk': seq<Sector>,
                         log': seq<nat>, hand: nat, rest: nat, e: Entry)
  {
    if Cached(before, e.sector) then
      && rest == hand && disk' == disk && log' == log
      && exists i :: 0 <= i < |before| && Holds(before[i], e.sector)
           && after == before[i := e.(dirty := e.dirty || before[i].dirty)]
    else
      && Replaced(before, after, hand, rest, e)
      && rest < |before| && disk' == WrittenBack(disk, before[rest]) && log' == log + [e.sector]
  }

  /** The same for a sector that is only brought into its slot. */
  ghost predicate Loaded(before: seq<Entry>, disk: seq<Sector>, log: seq<nat>, after: seq<Entry>, disk': seq<Sector>,
                         log': seq<nat>, hand: nat, rest: nat, sector: nat, slot: nat)
  {
    if Cached(before, sector) then
      rest == hand && after == before && disk' == disk && log' == log
    else
      && slot == rest < |after| && slot < |before| && !after[slot].dirty
      && Replaced(before, after, hand, rest, after[slot])
      && disk' == WrittenBack(disk, before[slot]) && log' == log + [sector]
  }

  class Cache {
    const device: BlockDevice
    const slots: array<Entry>
    var clock: nat
    ghost var view: seq<Sector>

    ghost predicate Valid()
      reads this, slots, device
    {
      && slots.Length == CACHE_SIZE
      && clock < CACHE_SIZE
      && Coherent(slots[..], device.sectors, view)
    }

    constructor (device: BlockDevice)
      ensures Valid() && this.device == device && fresh(slots)
      ensures view == device.sectors && Filling(slots[..], clock, [])
    {
      this.device := device;
      slots := new Entry[CACHE_SIZE](_ => Entry(false, 0, Zeros(), false, false));
      clock := 0;
      view := device.sectors;
    }

    /** Assigns one slot. */
    method SetSlot(i: nat, e: Entry)
      requires Valid() && i < CACHE_SIZE
      requires e.occupied ==> e.sector < |view| && e.buffer == view[e.sector]
      requires e.occupied && !e.dirty ==> e.buffer == device.sectors[e.sector]
      requires e.occupied ==> forall k :: 0 <= k < CACHE_SIZE && k != i ==> !Holds(slots[k], e.sector)
      requires slots[i].occupied && slots[i].dirty ==> Holds(e, slots[i].sector) && e.dirty
      modifies slots
      ensures Valid()
      ensures slots[..] == old(slots[..])[i := e]
    {
      ReplaceSlot(slots[..], device.sectors, view, i, e);
      slots[i] := e;
      assert slots[..] == old(slots[..])[i := e];
    }

    /** Writes a dirty slot back to the device. */
    method Flush(i: nat)
      requires Valid() && i < CACHE_SIZE && slots[i].occupied
      modifies slots, device`sectors
      ensures Valid()
      ensures slots[..] == old(slots[..])[i := old(slots[i]).(dirty := false)]
      ensures device.sectors == if old(slots[i]).dirty
                                then old(device.sectors)[slots[i].sector := slots[i].buffer]
                                else old(device.sectors)
    {
      ghost var before := slots[..];
      ghost var disk := device.sectors;
      if slots[i].dirty {
        device.Write(slots[i].sector, slots[i].buffer);
        slots[i] := slots[i].(dirty := false);
        FlushKeepsCoherent(before, disk, view, i);
      }
      assert slots[..] == before[i := before[i].(dirty := false)];
    }

    /** Writes every dirty slot back, after which the device itself holds the current contents. The slots keep
        what they hold. */
    method Close()
      requires Valid()
      modifies slots, device`sectors
      ensures Valid()
      ensures device.sectors == view
      ensures forall k :: 0 <= k < CACHE_SIZE ==>
                slots[k] == if old(slots[k]).occupied then old(slots[k]).(dirty := false) else old(slots[k])
    {
      var i := 0;
      while i < CACHE_SIZE
        invariant Valid()
        invariant 0 <= i <= CACHE_SIZE
        invariant forall k :: 0 <= k < CACHE_SIZE ==>
                    slots[k] == if k < i && old(slots[k]).occupied then old(slots[k]).(dirty := false)
                                else old(slots[k])
      {
        if slots[i].occupied {
          Flush(i);
        }
        i := i + 1;
      }
      assert forall s :: 0 <= s < |view| ==> !Dirty(slots[..], s);
    }

    /** The slot that holds a sector, if any. */
    method Lookup(sector: nat) returns (found: bool, i: nat)
      requires Valid()
      ensures found ==> i < CACHE_SIZE && Holds(slots[i], sector)
      ensures !found ==> forall k :: 0 <= k < CACHE_SIZE ==> !Holds(slots[k], sector)
    {
      i := 0;
      while i < CACHE_SIZE
        invariant 0 <= i <= CACHE_SIZE
        invariant forall k :: 0 <= k < i ==> !Holds(slots[k], sector)
      {
        if slots[i].occupied {
          if slots[i].sector == sector {
            return true, i;
          }
        }
        i := i + 1;
      }
      return false, 0;
    }

    /** Moves the clock hand to the next slot, wrapping around. */
    method Tick()
      requires Valid()
      modifies this`clock
      ensures Valid()
      ensures clock == if old(clock) == CACHE_SIZE - 1 then 0 else old(clock) + 1
    {
      clock := clock + 1;
      clock := clock % CACHE_SIZE;
    }

    /** Moves the clock hand to the first slot in circular order that is empty or unused since the hand
        last came by. Every slot it passes gets a second chance, at most one each; if every slot was in
        use the hand ends where it started. */
    method AdvanceHand() returns (ghost chances: nat)
      requires Valid()
      modifies this`clock, slots
      ensures Valid()
      ensures chances <= CACHE_SIZE
      ensures Distance(old(clock), clock) == if chances < CACHE_SIZE then chances else 0
      ensures Swept(old(slots[..]), slots[..], old(clock), chances)
      ensures Stops(slots[clock])
    {
      chances := 0;
      ghost var start := clock;
      ghost var before := slots[..];
      while true
        invariant Valid()
        invariant 0 <= chances <= CACHE_SIZE
        invariant Distance(start, clock) == if chances < CACHE_SIZE then chances else 0
        invariant Swept(before, slots[..], start, chances)
        decreases CACHE_SIZE - chances
      {
        if !slots[clock].occupied {
          return;
        }
        if slots[clock].access {
          HandAtRest(before, slots[..], start, chances, clock);
          SweepOne(before, slots[..], start, chances, clock);
          SetSlot(clock, slots[clock].(access := false));
        } else {
          break;
        }
        Tick();
        chances := chances + 1;
      }
    }

    /** Frees the slot the clock hand stops at, writing it back first if it is dirty. */
    method Evict() returns (slot: nat, ghost chances: nat, ghost swept: seq<Entry>)
      requires Valid()
      modifies this`clock, slots, device`sectors
      ensures Valid()
      ensures slot == clock && StopsAt(old(slots[..]), swept, old(clock), chances, slot)
      ensures !slots[slot].occupied && slots[..] == swept[slot := slots[slot]]
      ensures device.sectors == WrittenBack(old(device.sectors), old(slots[..])[slot])
    {
      chances := AdvanceHand();
      slot := clock;
      swept := slots[..];
      SweptSame(old(slots[..]), swept, old(clock), chances, slot);
      if slots[slot].occupied {
        if slots[slot].dirty {
          Flush(slot);
        }
        SetSlot(slot, slots[slot].(occupied := false));
      }
    }

    /** Copies a sector's current contents out of the cache, loading it first if needed. */
    method Read(sector: nat) returns (target: Sector)
      requires Valid() && sector < |view|
      modifies this`clock, slots, device
      ensures Valid()
      ensures target == view[sector]
      ensures Served(old(slots[..]), old(device.sectors), old(device.log), slots[..], device.sectors, device.log,
                     old(clock), clock, Entry(true, sector, view[sector], false, true))
    {
      hide Served;
      ghost var before, disk, log, hand := slots[..], device.sectors, device.log, clock;
      var slot := Load(sector);
      ghost var loaded := slots[..];
      SetSlot(slot, slots[slot].(access := true));
      target := slots[slot].buffer;
      LoadServed(before, disk, log, loaded, device.sectors, device.log, hand, clock, slot, slots[slot], false);
    }

    /** Replaces a sector's current contents; the device learns of it when the slot is flushed. */
    method Write(sector: nat, source: Sector)
      requires Valid() && sector < |view|
      modifies this, slots, device
      ensures Valid()
      ensures view == old(view)[sector := source]
      ensures Served(old(slots[..]), old(device.sectors), old(device.log), slots[..], device.sectors, device.log,
                     old(clock), clock, Entry(true, sector, source, true, true))
    {
      hide Served;
      ghost var before, disk, log, hand := slots[..], device.sectors, device.log, clock;
      var slot := Load(sector);
      var e := slots[slot].(access := true, dirty := true, buffer := source);
      StoreKeepsCoherent(slots[..], device.sectors, view, slot, e);
      ghost var loaded := slots[..];
      slots[slot] := e;
      view := view[sector := source];
      assert slots[..] == loaded[slot := e];
      LoadServed(before, disk, log, loaded, device.sectors, device.log, hand, clock, slot, e, true);
    }

    /** The slot that holds the sector, after a miss has been filled from the device. */
    method Load(sector: nat) returns (slot: nat)
      requires Valid() && sector < |view|
      modifies this`clock, slots, device
      ensures Valid()
      ensures slot < CACHE_SIZE && Holds(slots[slot], sector)
      ensures Loaded(old(slots[..]), old(device.sectors), old(device.log), slots[..], device.sectors, device.log,
                     old(clock), clock, sector, slot)
    {
      ghost var before, disk, log, hand := slots[..], device.sectors, device.log, clock;
      var found;
      found, slot := Lookup(sector);
      if !found {
        ghost var chances, swept;
        slot, chances, swept := Evict();
        assert !Dirty(slots[..], sector);
        var buffer := device.Read(sector);
        SetSlot(slot, Entry(true, sector, buffer, false, slots[slot].access));
      }
    }
  }

  /** The sweep changes nothing but access bits. */
  lemma SweptSame(before: seq<Entry>, swept: seq<Entry>, hand: nat, chances: nat, j: nat)
    requires Swept(before, swept, hand, chances) && j < CACHE_SIZE
    ensures swept[j].(access := before[j].access) == before[j]
    ensures forall disk :: WrittenBack(disk, swept[j]) == WrittenBack(disk, before[j])
  {
  }

  /** Setting the bits and the contents of the slot that has been loaded completes the access. */
  lemma LoadServed(before: seq<Entry>, disk: seq<Sector>, log: seq<nat>, loaded: seq<Entry>, disk': seq<Sector>,
                   log': seq<nat>, hand: nat, rest: nat, slot: nat, e: Entry, written: bool)
    requires slot < |loaded| && Holds(loaded[slot], e.sector)
    requires Loaded(before, disk, log, loaded, disk', log', hand, rest, e.sector, slot)
    requires e.occupied && e.access && e.dirty == (written || loaded[slot].dirty)
    ensures Served(before, disk, log, loaded[slot := e], disk', log', hand, rest,
                   Entry(true, e.sector, e.buffer, written, true))
  {
    if !Cached(before, e.sector) {
      var chances: nat, swept :| StopsAt(before, swept, hand, chances, rest) && loaded == swept[rest := loaded[slot]];
      assert loaded[slot := e] == swept[rest := e];
      assert Replaced(before, loaded[slot := e], hand, rest, e);
    }
  }

  /** Changing one slot keeps the cache coherent, if no newer contents than the disk's are dropped with it. */
  lemma ReplaceSlot(slots: seq<Entry>, disk: seq<Sector>, view: seq<Sector>, i: nat, e: Entry)
    requires Coherent(slots, disk, view) && i < |slots|
    requires e.occupied ==> e.sector < |disk| && e.buffer == view[e.sector]
    requires e.occupied && !e.dirty ==> e.buffer == disk[e.sector]
    requires e.occupied ==> forall k :: 0 <= k < |slots| && k != i ==> !Holds(slots[k], e.sector)
    requires slots[i].occupied && slots[i].dirty ==> Holds(e, slots[i].sector) && e.dirty
    ensures Coherent(slots[i := e], disk, view)
  {
    var slots' := slots[i := e];
    forall s | 0 <= s < |disk| && view[s] != disk[s] ensures Dirty(slots', s) {
      var k :| 0 <= k < |slots| && Holds(slots[k], s) && slots[k].dirty;
      assert Holds(slots'[k], s) && slots'[k].dirty;
    }
  }

  /** Clearing the access bit under the hand is one more step of the sweep. */
  lemma SweepOne(before: seq<Entry>, after: seq<Entry>, hand: nat, chances: nat, clock: nat)
    requires hand < CACHE_SIZE && clock < CACHE_SIZE && chances < CACHE_SIZE
    requires Swept(before, after, hand, chances) && Distance(hand, clock) == chances && !Stops(after[clock])
    ensures Swept(before, after[clock := after[clock].(access := false)], hand, chances + 1)
  {
  }

  /** Once the hand has passed every slot, every slot has lost its access bit. */
  lemma SweptAround(before: seq<Entry>, after: seq<Entry>, hand: nat, j: nat)
    requires hand < CACHE_SIZE && j < CACHE_SIZE && Swept(before, after, hand, CACHE_SIZE)
    ensures Stops(after[j])
  {
  }

  lemma HandAtRest(before: seq<Entry>, after: seq<Entry>, hand: nat, chances: nat, clock: nat)
    requires hand < CACHE_SIZE && clock < CACHE_SIZE && chances <= CACHE_SIZE && Swept(before, after, hand, chances)
    requires !Stops(after[clock])
    ensures chances < CACHE_SIZE
  {
    if chances == CACHE_SIZE {
      SweptAround(before, after, hand, clock);
    }
  }

  /** Where the clock stops is determined. */
  lemma StopsOnce(before: seq<Entry>, hand: nat, swept: seq<Entry>, chances: nat, rest: nat, swept': seq<Entry>,
                  chances': nat, rest': nat)
    requires hand < CACHE_SIZE
    requires StopsAt(before, swept, hand, chances, rest) && StopsAt(before, swept', hand, chances', rest')
    ensures chances == chances' && rest == rest' && swept == swept'
  {
    NotBefore(before, swept, hand, chances, rest, chances');
    NotBefore(before, swept', hand, chances', rest', chances);
  }

  /** The clock does not go past a slot where it stops. */
  lemma NotBefore(before: seq<Entry>, swept: seq<Entry>, hand: nat, chances: nat, rest: nat, other: nat)
    requires hand < CACHE_SIZE && StopsAt(before, swept, hand, chances, rest) && other <= CACHE_SIZE
    requires forall j :: 0 <= j < CACHE_SIZE && Distance(hand, j) < other ==> !Stops(before[j])
    ensures other <= chances
  {
    if chances < CACHE_SIZE {
      assert swept[rest] == before[rest];
    }
  }

  /** As long as a slot is empty, nothing is thrown out: the next slot is filled. */
  lemma FillsNext(before: seq<Entry>, hand: nat, log: seq<nat>, after: seq<Entry>, rest: nat, e: Entry)
    requires Filling(before, hand, log) && |log| < CACHE_SIZE && e.sector !in log && e.occupied && e.access
    requires Replaced(before, after, hand, rest, e)
    ensures rest == |log| && Filling(after, rest, log + [e.sector])
    ensures !before[rest].occupied
  {
    var chances: nat, swept :| StopsAt(before, swept, hand, chances, rest) && after == swept[rest := e];
    assert Distance(hand, |log|) == (if log == [] then 0 else 1) && !before[|log|].occupied;
    assert chances == 0 ==> swept[hand] == before[hand];
  }

  /** Access to a sector that has been loaded loads nothing. */
  lemma FilledHit(before: seq<Entry>, clock: nat, log: seq<nat>, i: nat, e: Entry)
    requires Filling(before, clock, log) && i < |before| && Holds(before[i], e.sector) && e.occupied && e.access
    ensures Filling(before[i := e], clock, log) && e.sector in log
  {
  }

  lemma FilledCached(slots: seq<Entry>, clock: nat, log: seq<nat>, sector: nat)
    requires Filling(slots, clock, log)
    ensures Cached(slots, sector) <==> sector in log
  {
    if sector in log {
      var i :| 0 <= i < |log| && log[i] == sector;
      assert Holds(slots[i], sector);
    }
  }

  /** One access while there is room: a sector is read from the device the first time it is named, and only then. */
  lemma AccessFills(before: seq<Entry>, disk: seq<Sector>, log: seq<nat>, after: seq<Entry>, disk': seq<Sector>,
                    log': seq<nat>, hand: nat, rest: nat, e: Entry, loads: seq<nat>)
    requires Served(before, disk, log, after, disk', log', hand, rest, e) && e.occupied && e.access
    requires Filling(before, hand, loads) && (e.sector in loads || |loads| < CACHE_SIZE)
    ensures var more := if e.sector in loads then [] else [e.sector];
            log' == log + more && Filling(after, rest, loads + more)
  {
    FilledCached(before, hand, loads, e.sector);
    if e.sector in loads {
      var i :| 0 <= i < |before| && Holds(before[i], e.sector)
               && after == before[i := e.(dirty := e.dirty || before[i].dirty)];
      FilledHit(before, hand, loads, i, e.(dirty := e.dirty || before[i].dirty));
      assert loads + [] == loads && log + [] == log;
    } else {
      FillsNext(before, hand, loads, after, rest, e);
    }
  }

  lemma FlushKeepsCoherent(slots: seq<Entry>, disk: seq<Sector>, view: seq<Sector>, i: nat)
    requires Coherent(slots, disk, view) && i < |slots| && slots[i].occupied
    ensures Coherent(slots[i := slots[i].(dirty := false)], disk[slots[i].sector := slots[i].buffer], view)
  {
    var slots' := slots[i := slots[i].(dirty := false)];
    forall s | 0 <= s < |disk| && s != slots[i].sector && view[s] != disk[s] ensures Dirty(slots', s) {
      var k :| 0 <= k < |slots| && Holds(slots[k], s) && slots[k].dirty;
      assert Holds(slots'[k], s) && slots'[k].dirty;
    }
  }

  lemma StoreKeepsCoherent(slots: seq<Entry>, disk: seq<Sector>, view: seq<Sector>, i: nat, e: Entry)
    requires Coherent(slots, disk, view) && i < |slots|
    requires slots[i].occupied && Holds(e, slots[i].sector) && e.dirty
    ensures Coherent(slots[i := e], disk, view[e.sector := e.buffer])
  {
    var slots', view' := slots[i := e], view[e.sector := e.buffer];
    forall s | 0 <= s < |disk| && view'[s] != disk[s] ensures Dirty(slots', s) {
      if s == e.sector {
        assert Holds(slots'[i], s);
      } else {
        var k :| 0 <= k < |slots| && Holds(slots[k], s) && slots[k].dirty;
        assert Holds(slots'[k], s) && slots'[k].dirty;
      }
    }
  }

  // --------------------------------------------------------------------------
  // Whole runs

  datatype Op = Fetch(sector: nat) | Store(sector: nat, data: Sector)

  /** What a plain disk would hold after a run of operations. */
  ghost function Apply(disk: seq<Sector>, ops: seq<Op>): seq<Sector>
    requires forall op <- ops :: op.sector < |disk|
    decreases |ops|
  {
    if ops == [] then disk
    else
      var before := Apply(disk, ops[..|ops| - 1]);
      var op := ops[|ops| - 1];
      if op.Store? && op.sector < |before| then before[op.sector := op.data] else before
  }

  lemma ApplyOneMore(disk: seq<Sector>, ops: seq<Op>, i: nat)
    requires i < |ops| && forall op <- ops :: op.sector < |disk|
    ensures var before := Apply(disk, ops[..i]);
            |before| == |disk|
            && Apply(disk, ops[..i + 1])
               == if ops[i].Store? then before[ops[i].sector := ops[i].data] else before
  {
    assert ops[..i + 1][..i] == ops[..i];
    if i > 0 {
      ApplyOneMore(disk, ops, i - 1);
    }
  }

  /** A plain disk holds, in every sector, the last contents stored there. */
  lemma {:induction false} ApplyKeepsLastStore(disk: seq<Sector>, ops: seq<Op>, s: nat)
    requires s < |disk| && forall op <- ops :: op.sector < |disk|
    ensures |Apply(disk, ops)| == |disk|
    ensures (forall k :: 0 <= k < |ops| && ops[k].Store? ==> ops[k].sector != s) ==> Apply(disk, ops)[s] == disk[s]
    ensures forall k :: 0 <= k < |ops| && ops[k].Store? && ops[k].sector == s
              && (forall m :: k < m < |ops| && ops[m].Store? ==> ops[m].sector != s)
              ==> Apply(disk, ops)[s] == ops[k].data
    decreases |ops|
  {
    if ops != [] {
      var front := ops[..|ops| - 1];
      ApplyKeepsLastStore(disk, front, s);
      assert forall k :: 0 <= k < |front| ==> ops[k] == front[k];
    }
  }

  /** If the k-th operation is a fetch, it returns what a plain disk holds at that point. */
  ghost predicate AgreesAt(disk: seq<Sector>, ops: seq<Op>, k: nat, contents: Sector)
    requires k < |ops| && forall op <- ops :: op.sector < |disk|
  {
    ops[k].Fetch? ==> FetchedFrom(Apply(disk, ops[..k]), ops[k].sector, contents)
  }

  /** Every fetch among the operations done so far returned what a plain disk held at that point. */
  ghost predicate Agrees(disk: seq<Sector>, ops: seq<Op>, fetched: seq<Sector>)
    requires forall op <- ops :: op.sector < |disk|
  {
    |fetched| <= |ops| && forall k :: 0 <= k < |fetched| ==> AgreesAt(disk, ops, k, fetched[k])
  }

  ghost predicate FetchedFrom(disk: seq<Sector>, sector: nat, contents: Sector) {
    sector < |disk| && contents == disk[sector]
  }

  /** The sectors that some operations name. */
  ghost function Named(ops: seq<Op>): set<nat> {
    set op | op in ops :: op.sector
  }

  /** How an operation leaves the slot of its sector. */
  function Touched(op: Op, contents: Sector): Entry {
    if op.Fetch? then Entry(true, op.sector, contents, false, true) else Entry(true, op.sector, op.data, true, true)
  }

  /** The cache refines a plain disk over any run: every fetch returns what the plain disk holds at that
      point, and once the cache is closed the device holds what the plain disk does. A run on a fresh cache that
      names no more sectors than there are slots reads each of them from the device once, and no other. */
  method Replay(cache: Cache, ops: seq<Op>) returns (fetched: seq<Sector>, ghost loads: seq<nat>)
    requires cache.Valid() && forall op <- ops :: op.sector < |cache.view|
    modifies cache, cache.slots, cache.device
    ensures cache.Valid()
    ensures |fetched| == |ops| && Agrees(old(cache.view), ops, fetched)
    ensures cache.device.sectors == Apply(old(cache.view), ops)
    ensures old(Filling(cache.slots[..], cache.clock, [])) && |Named(ops)| <= CACHE_SIZE ==>
              && cache.device.log == old(cache.device.log) + loads
              && Distinct(loads) && forall s :: s in loads <==> s in Named(ops)
  {
    hide Filling, Served, FilledBy, Coherent, Named, Touched, FetchedFrom, Apply;
    fetched, loads := [], [];
    FilledNone(cache.slots[..], cache.clock, cache.device.log, ops);
    ghost var disk, log := cache.view, cache.device.log;
    NothingApplied(disk, ops);
    ghost var few := Filling(cache.slots[..], cache.clock, []) && |Named(ops)| <= CACHE_SIZE;
    for i := 0 to |ops|
      invariant cache.Valid() && |cache.view| == |disk|
      invariant cache.view == Apply(disk, ops[..i])
      invariant |fetched| == i && Agrees(disk, ops, fetched)
      invariant few ==> FilledBy(cache.slots[..], cache.clock, log, cache.device.log, loads, ops[..i])
    {
      ApplyOneMore(disk, ops, i);
      ghost var slots, sectors, logged, hand := cache.slots[..], cache.device.sectors, cache.device.log, cache.clock;
      ghost var e := Touched(ops[i], cache.view[ops[i].sector]);
      TouchedEntry(ops[i], cache.view[ops[i].sector]);
      var buffer := Perform(cache, ops[i]);
      if few {
        loads := AccessNamed(slots, sectors, logged, cache.slots[..], cache.device.sectors, cache.device.log, hand,
                             cache.clock, e, log, loads, ops, i);
      }
      assert AgreesAt(disk, ops, i, buffer);
      fetched := fetched + [buffer];
    }
    assert ops[..|ops|] == ops;
    FilledAll(cache.slots[..], cache.clock, log, cache.device.log, loads, ops);
    cache.Close();
  }

  /** The cache after a run on a fresh cache that named no more sectors than there are slots. */
  ghost predicate FilledBy(slots: seq<Entry>, clock: nat, log: seq<nat>, log': seq<nat>, loads: seq<nat>, ops: seq<Op>)
  {
    Filling(slots, clock, loads) && log' == log + loads && forall s :: s in loads <==> s in Named(ops)
  }

  lemma NothingApplied(disk: seq<Sector>, ops: seq<Op>)
    requires forall op <- ops :: op.sector < |disk|
    ensures Apply(disk, ops[..0]) == disk && Agrees(disk, ops, [])
  {
  }

  lemma FilledNone(slots: seq<Entry>, clock: nat, log: seq<nat>, ops: seq<Op>)
    ensures Filling(slots, clock, []) ==> FilledBy(slots, clock, log, log, [], ops[..0])
  {
    assert log + [] == log;
  }

  lemma FilledAll(slots: seq<Entry>, clock: nat, log: seq<nat>, log': seq<nat>, loads: seq<nat>, ops: seq<Op>)
    ensures FilledBy(slots, clock, log, log', loads, ops) ==>
              log' == log + loads && Distinct(loads) && forall s :: s in loads <==> s in Named(ops)
  {
  }

  lemma TouchedEntry(op: Op, contents: Sector)
    ensures var e := Touched(op, contents); e.sector == op.sector && e.occupied && e.access
  {
  }

  lemma AccessNamed(before: seq<Entry>, disk: seq<Sector>, log: seq<nat>, after: seq<Entry>, disk': seq<Sector>,
                    log': seq<nat>, hand: nat, rest: nat, e: Entry, log0: seq<nat>, loads: seq<nat>, ops: seq<Op>,
                    i: nat) returns (loads': seq<nat>)
    requires i < |ops| && |Named(ops)| <= CACHE_SIZE && e.sector == ops[i].sector && e.occupied && e.access
    requires Served(before, disk, log, after, disk', log', hand, rest, e)
    requires FilledBy(before, hand, log0, log, loads, ops[..i])
    ensures FilledBy(after, rest, log0, log', loads', ops[..i + 1])
  {
    hide Filling, Served;
    assert ops[i] in ops;
    FewLoads(before, hand, loads, ops, i);
    AccessFills(before, disk, log, after, disk', log', hand, rest, e, loads);
    loads' := loads + if e.sector in loads then [] else [e.sector];
    assert ops[..i + 1] == ops[..i] + [ops[i]];
    assert Named(ops[..i + 1]) == Named(ops[..i]) + {e.sector};
  }

  lemma FewLoads(slots: seq<Entry>, clock: nat, loads: seq<nat>, ops: seq<Op>, i: nat)
    requires Filling(slots, clock, loads) && i < |ops| && |Named(ops)| <= CACHE_SIZE
    requires forall s :: s in loads <==> s in Named(ops[..i])
    ensures ops[i].sector in loads || |loads| < CACHE_SIZE
  {
    assert ops[i].sector in Named(ops) by { assert ops[i] in ops; }
    assert Named(ops[..i]) <= Named(ops);
    var rest := Named(ops) - {ops[i].sector};
    if ops[i].sector !in loads {
      DistinctFits(loads, rest);
    }
  }

  method Perform(cache: Cache, op: Op) returns (buffer: Sector)
    requires cache.Valid() && op.sector < |cache.view|
    modifies cache, cache.slots, cache.device
    ensures cache.Valid()
    ensures op.Fetch? ==> FetchedFrom(old(cache.view), op.sector, buffer) && cache.view == old(cache.view)
    ensures op.Store? ==> cache.view == old(cache.view)[op.sector := op.data]
    ensures Served(old(cache.slots[..]), old(cache.device.sectors), old(cache.device.log), cache.slots[..],
                   cache.device.sectors, cache.device.log, old(cache.clock), cache.clock,
                   Touched(op, old(cache.view)[op.sector]))
  {
    hide Served;
    match op {
      case Fetch(sector) => buffer := cache.Read(sector);
      case Store(sector, data) => cache.Write(sector, data); buffer := data;
    }
  }
}
