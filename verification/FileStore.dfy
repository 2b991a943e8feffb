/** Inodes over the buffer cache and the free map. */
module FileStore {
  import opened Basics
  import opened Sectors
  import opened BufferCache
  import opened Bitmaps
  import opened SectorMap
  import opened InodeTree
  import opened Shortage

  lemma {:induction false} KeysBelow(own: Owners, size: nat)
    requires forall s :: s in own ==> 0 <= s < size
    ensures |own| <= size
    ensures (forall s :: 0 <= s < size ==> s in own) ==> |own| == size
  {
    assert |own.Keys| == |own|;
    SetBelow(own.Keys, size);
  }

  lemma {:induction false} SetBelow(xs: set<nat>, size: nat)
    requires forall s :: s in xs ==> s < size
    ensures |xs| <= size
    ensures (forall s :: 0 <= s < size ==> s in xs) ==> |xs| == size
  {
    if size > 0 {
      SetBelow(xs - {size - 1}, size - 1);
    }
  }

  class Store {
    const cache: Cache
    const freeMap: FreeMap
    ghost var own: Owners

    /** The sectors in use are those with an owner, and sector 0 is the free map's inode, so that 0 can
        stand for "no sector" in an index. */
    ghost predicate Consistent()
      reads this, cache, cache.slots, cache.device, freeMap.bits
    {
      && cache.Valid()
      && freeMap.Used() == own.Keys
      && freeMap.bits.Length == |cache.view| < 0x1_0000_0000
      && (forall s :: s in own ==> !own[s].File?)
      && FREE_MAP_SECTOR in own && own[FREE_MAP_SECTOR] == Home(FREE_MAP_SECTOR)
    }

    /** The objects the store is made of. */
    ghost function Footprint(): set<object> {
      {this, cache, cache.slots, cache.device, freeMap.bits}
    }

    lemma OwnersBelow()
      requires Consistent()
      ensures |own| <= |cache.view| && forall s :: s in own ==> 0 <= s < |cache.view|
      ensures (forall s :: 0 <= s < |cache.view| ==> s in own) ==> |own| == |cache.view|
    {
      assert forall s :: s in own ==> s in freeMap.Used();
      KeysBelow(own, |cache.view|);
    }

    constructor (device: BlockDevice)
      requires 2 <= |device.sectors| < 0x1_0000_0000
      ensures Consistent()
      ensures cache.device == device && fresh(cache) && fresh(cache.slots) && fresh(freeMap) && fresh(freeMap.bits)
      ensures cache.view == device.sectors
      ensures own == map[FREE_MAP_SECTOR := Home(FREE_MAP_SECTOR), ROOT_DIR_SECTOR := Home(ROOT_DIR_SECTOR)]
    {
      cache := new Cache(device);
      freeMap := new FreeMap(|device.sectors|);
      own := map[FREE_MAP_SECTOR := Home(FREE_MAP_SECTOR), ROOT_DIR_SECTOR := Home(ROOT_DIR_SECTOR)];
    }

    /** Takes a sector for a new inode. */
    method AllocateHome() returns (ok: bool, sector: U32)
      requires Consistent()
      modifies this`own, freeMap.bits
      ensures Consistent()
      ensures ok <==> old(|own|) < |cache.view|
      ensures ok ==> sector !in old(own) && sector < |cache.view| && own == old(own)[sector := Home(sector)]
      ensures ok ==> forall s: nat :: s < sector ==> s in old(own)
      ensures !ok ==> own == old(own)
    {
      OwnersBelow();
      var s;
      ok, s := freeMap.AllocateOne();
      assert !ok ==> forall t :: 0 <= t < |cache.view| ==> t in freeMap.Used();
      sector := 0;
      if ok {
        sector := s;
        own := own[sector := Home(sector)];
        OwnersBelow();
      }
    }

    /** A data sector is allocated, zeroed, unless the entry already has one. */
    method ReserveData(entry: U32, ghost p: Path, ghost n: nat) returns (ok: bool, entry': U32)
      requires Consistent() && InTree(p) && Level(p) == 0 && Owned(cache.view, own, entry, p, n)
      modifies this, cache, cache.slots, cache.device, freeMap.bits
      ensures Consistent() && Attempted(ok, old(cache.view), old(own), cache.view, own, entry, entry', p, n, 1)
    {
      hide Coherent, UsedIn, Owned, Attempted;
      entry' := entry;
      OwnersBelow();
      NoneOrSome(cache.view, own, entry, p, n);
      if entry == 0 {
        ok, entry' := AllocateOne(p);
        if !ok {
          DataLacking(cache.view, own, p);
          return false, entry;
        }
        OwnersBelow();
        DataTaken(cache.view, old(own), entry', p);
        cache.Write(entry', Zeros());
      } else {
        DataThere(cache.view, own, entry, p, n);
      }
      return true, entry';
    }

    method AllocateOne(ghost p: Path) returns (ok: bool, entry: U32)
      requires Consistent() && InTree(p) && Owned(cache.view, own, 0, p, 0)
      modifies this`own, freeMap.bits
      ensures Consistent()
      ensures ok <==> old(|own|) < |cache.view|
      ensures ok ==> entry !in old(own) && entry < |cache.view|
      ensures ok ==> own == old(own)[entry := p] && |own| == old(|own|) + 1
      ensures !ok ==> own == old(own)
    {
      OwnersBelow();
      var sector;
      ok, sector := freeMap.AllocateOne();
      assert !ok ==> forall s :: 0 <= s < |cache.view| ==> s in freeMap.Used();
      entry := 0;
      if ok {
        entry := sector;
        own := own[entry := p];
        OwnersBelow();
      }
    }

    /** Makes the tree at p hold at least `num` data sectors. It can do so exactly when there are enough
        free sectors for the data and index sectors that are missing. */
    method ReserveIndirect(entry: U32, num: nat, level: nat, ghost p: Path, ghost n: nat)
      returns (ok: bool, entry': U32)
      requires Consistent() && InTree(p) && level == Level(p)
      requires 0 < num <= Capacity(level) && n <= Capacity(level) && Owned(cache.view, own, entry, p, n)
      modifies this, cache, cache.slots, cache.device, freeMap.bits
      ensures Consistent() && Attempted(ok, old(cache.view), old(own), cache.view, own, entry, entry', p, n, num)
      decreases level, 2
    {
      hide Coherent, UsedIn, Extending, Starved, Owned, Grown, Missing, Max, Unpack, Pack, EntriesKept, Stuck;
      if level == 0 {
        ok, entry' := ReserveData(entry, p, n);
        return;
      }
      ghost var v0, own0 := cache.view, own;
      ghost var starved;
      entry', starved := ReserveIndex(entry, p, n, num);
      var sector := cache.Read(entry');
      var block := Unpack(sector);
      ok, block := ReserveEntries(block, num, level, p, n, v0, own0, entry', starved);
      if ok {
        ExtendEnd(v0, own0, cache.view, own, block, entry', p, n, num);
        KeptWrite(v0, own0, cache.view, entry', block);
        UnpackRoundTrip(sector);
        cache.Write(entry', Pack(block));
      }
    }

    /** The loop of ReserveIndirect over the entries of the index block. */
    method ReserveEntries(block: Block, num: nat, level: nat, ghost p: Path, ghost n: nat,
                          ghost v0: seq<Sector>, ghost own0: Owners, ghost entry: nat, ghost starved: bool)
      returns (ok: bool, block': Block)
      requires Consistent() && InTree(p) && 0 < level == Level(p)
      requires 0 < num <= Capacity(level) && n <= Capacity(level)
      requires starved ==> Starved(cache.view, own0, own, block, p, n)
      requires !starved ==> Extending(v0, own0, cache.view, own, block, entry, p, 0, n, Max(n, num))
      requires EntriesKept(v0, own0, cache.view) && Begun(v0, own0, cache.view, own, n, starved)
      modifies this, cache, cache.slots, cache.device, freeMap.bits
      ensures Consistent() && |cache.view| == |old(cache.view)|
      ensures ok <==> |own0| + Missing(n, num, level) <= |cache.view|
      ensures ok ==> Extending(v0, own0, cache.view, own, block', entry, p, WORDS_PER_SECTOR, n, Max(n, num))
      ensures EntriesKept(v0, own0, cache.view) && SetKept(block, block')
      ensures num <= n ==> cache.view == old(cache.view) && own == old(own) && block' == block
      ensures !ok ==> Stuck(v0, own0, cache.view, own, p, NeedsIndex(n, level))
      decreases level, 1
    {
      hide Extending, Starved, Coherent, UsedIn, Missing, Part, EntriesKept, Stuck, Visited, Rounds;
      ghost var v1, own1 := cache.view, own;
      block' := block;
      OwnersBelow();
      NothingMissing(n, num, level);
      var i, l := 0, DivRoundUp(num, Unit(level));
      var left := num;
      LeftStart(num, level);
      RoundsStart(v0, own0, v1, own1, block, entry, p, n, num, starved);
      while i < l
        invariant Consistent() && 0 <= i <= l && left == Left(num, i, level)
        invariant Rounds(v0, own0, v1, own1, cache.view, own, block, block', entry, p, i, n, num, starved)
      {
        LeftStep(num, i, level);
        var subsize := Min(left, Unit(level));
        ghost var v, own' := cache.view, own;
        var e;
        ok, e := ReserveEntry(block', i, subsize, num, level, p, n, v0, own0, v1, own1, block, entry, starved);
        RoundsStep(ok, v0, own0, v1, own1, v, own', cache.view, own, block, block', e, entry, p, i, n, num, starved);
        block' := block'[i := e];
        if !ok {
          return;
        }
        i, left := i + 1, left - subsize;
      }
      LeftLast(num, l, level);
      assert left == 0;
      RoundsEnd(v0, own0, v1, own1, cache.view, own, block, block', entry, p, l, n, num, starved);
      OwnersBelow();
      ok := true;
    }

    /** One round of that loop: what the i-th entry becomes. */
    method ReserveEntry(block: Block, i: Slot, subsize: nat, ghost num: nat, level: nat, ghost p: Path, ghost n: nat,
                        ghost v0: seq<Sector>, ghost own0: Owners, ghost v1: seq<Sector>, ghost own1: Owners,
                        ghost block0: Block, ghost entry: nat, ghost starved: bool)
      returns (ok: bool, e: U32)
      requires Consistent() && InTree(p) && 0 < level == Level(p)
      requires num <= Capacity(level) && n <= Capacity(level)
      requires i < DivRoundUp(num, Unit(level)) && subsize == Part(num, i, level)
      requires Rounds(v0, own0, v1, own1, cache.view, own, block0, block, entry, p, i, n, num, starved)
      modifies this, cache, cache.slots, cache.device, freeMap.bits
      ensures Consistent() && Visited(ok, v0, own0, old(cache.view), old(own), cache.view, own, block, e, entry, p, i,
                                      n, num, starved)
      decreases level, 0
    {
      hide Coherent, UsedIn, Owned, Missing, Part, EntriesKept, Attempted, Visited, Ready;
      ghost var v, own' := cache.view, own;
      PartOfMax(n, num, i, level);
      RoundReady(v0, own0, v, own', block, entry, p, i, n, num, starved);
      OwnersBelow();
      ok, e := ReserveIndirect(block[i], subsize, level - 1, Child(p, i), Part(n, i, level));
      OwnersBelow();
      RoundFollows(ok, v0, own0, v, own', cache.view, own, block, e, entry, p, i, n, num, starved);
    }

    /** The index sector at p is allocated, zeroed, unless the entry already has one. When no sector is
        free the entry stays 0 and the zeros go to sector 0, which is the free map's own inode. */
    method ReserveIndex(entry: U32, ghost p: Path, ghost n: nat, ghost num: nat)
      returns (entry': U32, ghost starved: bool)
      requires Consistent() && InTree(p) && Level(p) > 0
      requires n <= Capacity(Level(p)) && Owned(cache.view, own, entry, p, n)
      modifies this, cache, cache.slots, cache.device, freeMap.bits
      ensures Consistent() && |cache.view| == |old(cache.view)| && entry' < |cache.view|
      ensures starved <==> n == 0 && old(|own|) == |cache.view|
      ensures starved ==> own == old(own) && entry' == 0 && cache.view == old(cache.view)[0 := Zeros()]
      ensures starved ==> Starved(cache.view, old(own), own, Unpack(cache.view[entry']), p, n)
      ensures !starved ==> Extending(old(cache.view), old(own), cache.view, own, Unpack(cache.view[entry']), entry',
                                     p, 0, n, Max(n, num))
      ensures EntriesKept(old(cache.view), old(own), cache.view) && (entry != 0 ==> entry' == entry)
      ensures Begun(old(cache.view), old(own), cache.view, own, n, starved)
      ensures n > 0 ==> entry' == entry
      ensures n == 0 && !starved ==> entry' !in old(own)
    {
      hide Coherent, UsedIn;
      entry', starved := entry, false;
      OwnersBelow();
      if entry == 0 {
        var ok, e := AllocateOne(p);
        starved := !ok;
        if ok {
          entry' := e;
          TakeSector(cache.view, old(own), e, p);
        }
        NewIndex(cache.view, old(own), entry', p, own, Max(n, num));
        cache.Write(entry', Zeros());
      }
    }

    /** Makes the inode hold at least `length` bytes, zeroing the new data sectors. It can do so exactly
        when there are enough free sectors for the data and index sectors that are missing. When it cannot, the
        sectors it took are kept, and in want of an index sector it has overwritten sector 0. */
    method Reserve(d: InodeDisk, length: I32, ghost x: nat, ghost n: nat) returns (ok: bool, d': InodeDisk)
      requires Consistent() && n <= MAX_SECTORS && FileTree(cache.view, own, d, x, n)
      requires length <= MAX_SECTORS * SECTOR_SIZE
      modifies this, cache, cache.slots, cache.device, freeMap.bits
      ensures Consistent() && |cache.view| == |old(cache.view)|
      ensures ok <==> && length >= 0
                      && var num := BytesToSectors(length);
                         old(|own|) + FileTotal(Max(n, num)) - FileTotal(n) <= |cache.view|
      ensures ok ==> var num := BytesToSectors(length);
                && FileTree(cache.view, own, d', x, Max(n, num))
                && |own| == old(|own|) + FileTotal(Max(n, num)) - FileTotal(n)
                && Grown(old(cache.view), old(own), cache.view, own, File(x))
      ensures SameButEntries(d, d')
      ensures EntriesKept(old(cache.view), old(own), cache.view)
      ensures length < 0 || BytesToSectors(length) <= n ==>
                cache.view == old(cache.view) && own == old(own) && d' == d
      ensures !ok && length >= 0 ==>
                && Stuck(old(cache.view), old(own), cache.view, own, File(x), FileNeedsIndex(n))
                && (old(|own|) == |cache.view| ==> d' == d)
    {
      hide Coherent, UsedIn, Reserving, OwnedByRoot, Grown, FileTotal, EntriesKept, Stuck;
      d' := d;
      KeptSame(cache.view, own);
      if length < 0 {
        return false, d;
      }
      var num := BytesToSectors(length);
      ghost var v0, own0 := cache.view, own;
      var left := num;
      ReservingStart(cache.view, own, d, x, n, Max(n, num));
      OwnersBelow();

      var l := Min(left, DIRECT_BLOCKS_COUNT);
      var i := 0;
      while i < l
        invariant Consistent() && |cache.view| == |v0|
        invariant 0 <= i <= l && RootReady(v0, own0, cache.view, own, d', x, i, n, num)
        invariant SameButEntries(d, d')
        invariant num <= n ==> cache.view == v0 && own == own0
        invariant num <= n || |own0| == |v0| ==> d' == d
      {
        ok, d' := ReserveRoot(d', i, 1, x, n, num, v0, own0);
        if !ok {
          return;
        }
        i := i + 1;
      }
      left := left - l;
      if left > 0 {
        l := Min(left, WORDS_PER_SECTOR);
        ok, d' := ReserveRoot(d', INDIRECT, l, x, n, num, v0, own0);
        if !ok {
          return;
        }
        left := left - l;
        if left > 0 {
          l := Min(left, WORDS_PER_SECTOR * WORDS_PER_SECTOR);
          ok, d' := ReserveRoot(d', DOUBLY_INDIRECT, l, x, n, num, v0, own0);
          if !ok {
            return;
          }
          left := left - l;
        }
      }
      assert left == 0;
      ReservingRest(v0, own0, cache.view, own, d', x, VisitedRoots(num), n, num);
      OwnersBelow();
      ok := true;
    }

    /** One of the inode's entries is extended. */
    method ReserveRoot(d: InodeDisk, k: RootSlot, l: nat, ghost x: nat, ghost n: nat, ghost num: nat,
                       ghost v0: seq<Sector>, ghost own0: Owners)
      returns (ok: bool, d': InodeDisk)
      requires Consistent() && n <= MAX_SECTORS && num <= MAX_SECTORS
      requires 0 < l == RootPart(num, k)
      requires RootReady(v0, own0, cache.view, own, d, x, k, n, num)
      modifies this, cache, cache.slots, cache.device, freeMap.bits
      ensures Consistent()
      ensures RootVisited(ok, v0, own0, old(cache.view), old(own), cache.view, own, d, d', x, k, n, num)
    {
      hide Coherent, UsedIn, Owned, RootReady, RootVisited, Attempted;
      RootEntry(v0, own0, cache.view, own, d, x, k, n, num);
      OwnersBelow();
      ghost var v1, own1 := cache.view, own;
      var e;
      ok, e := ReserveIndirect(EntryOf(d, k), l, RootLevel(k), Root(x, k), RootPart(n, k));
      d' := SetEntry(d, k, e);
      OwnersBelow();
      RootFollows(ok, v0, own0, v1, own1, cache.view, own, d, x, k, n, num, e);
    }

    /** Gives up one sector. */
    method ReleaseOne(entry: nat)
      requires Consistent() && entry in own && entry != FREE_MAP_SECTOR
      modifies this`own, freeMap.bits
      ensures Consistent()
      ensures own == old(own) - {entry}
    {
      freeMap.ReleaseOne(entry);
      own := own - {entry};
    }

    /** Gives up the `num` data sectors of the tree at p and all its index sectors, each once. */
    method DeallocateIndirect(entry: U32, num: nat, level: nat, ghost p: Path)
      requires Consistent() && InTree(p) && level == Level(p)
      requires 0 < num <= Capacity(level) && Owned(cache.view, own, entry, p, num)
      modifies this, cache, cache.slots, cache.device, freeMap.bits
      ensures Consistent() && cache.view == old(cache.view)
      ensures Pruned(old(own), own, p)
      ensures |own| == old(|own|) - Total(num, level)
      decreases level
    {
      hide Coherent, UsedIn, Owned, Pruned, Pruning, Unpack, Part, Total, Left, DivRoundUp;
      ghost var own0 := own;
      OwnedEntry(cache.view, own, entry, p, num);
      if level == 0 {
        PrunedData(cache.view, own, entry, p);
        ReleaseOne(entry);
        return;
      }
      var sector := cache.Read(entry);
      var block := Unpack(sector);
      var left := num;
      var i, l := 0, DivRoundUp(num, Unit(level));
      PruningStart(cache.view, own, entry, p, num);
      LeftStart(num, level);
      while i < l
        invariant Consistent() && cache.view == old(cache.view)
        invariant 0 <= i <= l && left == Left(num, i, level)
        invariant Pruning(cache.view, own0, own, block, entry, p, i, num)
      {
        LeftStep(num, i, level);
        PartOfMax(num, num, i, level);
        var subsize := Min(left, Unit(level));
        ghost var own1 := own;
        PruningEntry(cache.view, own0, own, block, entry, p, i, num);
        DeallocateIndirect(block[i], subsize, level - 1, Child(p, i));
        PruningStep(cache.view, own0, own1, own, block, entry, p, i, num);
        i, left := i + 1, left - subsize;
      }
      LeftLast(num, l, level);
      assert left == 0;
      PruningEnd(cache.view, own0, own, block, entry, p, l, num);
      assert entry in own by { PruningHead(cache.view, own0, own, block, entry, p, l, num); }
      ReleaseOne(entry);
    }

    /** Gives up every sector of the file but the inode's own. If the recorded length is 0, it gives up nothing,
        whatever the tree holds. */
    method Deallocate(d: InodeDisk, ghost x: nat, ghost n: nat) returns (ok: bool)
      requires Consistent() && n <= MAX_SECTORS && FileTree(cache.view, own, d, x, n)
      requires d.length > 0 ==> n == BytesToSectors(d.length)
      modifies this, cache, cache.slots, cache.device, freeMap.bits
      ensures Consistent() && cache.view == old(cache.view)
      ensures ok <==> d.length >= 0
      ensures ok && n == BytesToSectors(d.length) ==>
                Pruned(old(own), own, File(x)) && |own| == old(|own|) - FileTotal(n)
      ensures d.length <= 0 ==> own == old(own)
    {
      hide Coherent, UsedIn, Owned, Pruned, Freeing, FileTotal, Total, RootsBelow;
      ghost var own0 := own;
      if d.length < 0 {
        return false;
      }
      var left := BytesToSectors(d.length);
      FreeingStart(cache.view, own, d, x, n);

      var i, l := 0, Min(left, DIRECT_BLOCKS_COUNT);
      while i < l
        invariant Consistent() && cache.view == old(cache.view) && (i == 0 ==> own == own0)
        invariant 0 <= i <= l && Freeing(cache.view, own0, own, d, x, i, n)
      {
        DeallocateRoot(d, i, 1, x, n, own0);
        i := i + 1;
      }
      left := left - l;
      l := Min(left, WORDS_PER_SECTOR);
      if l > 0 {
        DeallocateRoot(d, INDIRECT, l, x, n, own0);
        left := left - l;
      }
      l := Min(left, WORDS_PER_SECTOR * WORDS_PER_SECTOR);
      if l > 0 {
        DeallocateRoot(d, DOUBLY_INDIRECT, l, x, n, own0);
        left := left - l;
      }
      assert left == 0;
      if n == BytesToSectors(d.length) {
        FreeingEnd(cache.view, own0, own, d, x, VisitedRoots(n), n);
      }
      return true;
    }

    /** What is below one of the inode's entries is given up. */
    method DeallocateRoot(d: InodeDisk, k: RootSlot, l: nat, ghost x: nat, ghost n: nat, ghost own0: Owners)
      requires Consistent() && n <= MAX_SECTORS && WellFormed(d)
      requires 0 < l == RootPart(n, k)
      requires Freeing(cache.view, own0, own, d, x, k, n)
      modifies this, cache, cache.slots, cache.device, freeMap.bits
      ensures Consistent() && cache.view == old(cache.view)
      ensures Freeing(cache.view, own0, own, d, x, k + 1, n)
    {
      hide Coherent, UsedIn, Owned, Pruned, Total, RootsBelow;
      ghost var own1 := own;
      DeallocateIndirect(EntryOf(d, k), l, RootLevel(k), Root(x, k));
      FreeingStep(cache.view, own0, own1, own, d, x, k, n);
    }
  }
}
