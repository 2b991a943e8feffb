/** What a reservation leaves behind when the free sectors do not suffice. */
module Shortage {
  import opened Basics
  import opened Sectors
  import opened InodeTree
  import opened FileContents
  import opened SectorMap

  /** Whether the next sector that a tree with n data sectors needs is an index sector. */
  predicate NeedsIndex(n: nat, level: nat) {
    level > 0 && (n == 0 || (level == 2 && n % WORDS_PER_SECTOR == 0))
  }

  /** The same for the tree of a file. */
  predicate FileNeedsIndex(n: nat) {
    n == DIRECT_BLOCKS_COUNT || (n >= INDIRECT_END && (n - INDIRECT_END) % WORDS_PER_SECTOR == 0)
  }

  /** No entry of an index sector changes once it is set. */
  ghost predicate EntriesKept(v: seq<Sector>, own: Owners, v': seq<Sector>) {
    && |v| == |v'|
    && forall s, i: Slot :: s in own && Level(own[s]) > 0 && 0 <= s < |v| && Unpack(v[s])[i] != 0 ==>
         Unpack(v'[s])[i] == Unpack(v[s])[i]
  }

  /** From one state to the other sectors were only taken, under p, and only sectors under p were written, of
      the old ones only index sectors; and perhaps sector 0 was overwritten with zeros. */
  ghost predicate Spoiled(v: seq<Sector>, own: Owners, v': seq<Sector>, own': Owners, p: Path) {
    && |v| == |v'|
    && (forall s :: s in own ==> s in own' && own'[s] == own[s])
    && (forall s :: s in own' && s !in own ==> Under(own'[s], p))
    && (forall s :: 0 <= s < |v| && v'[s] != v[s] ==>
          || (s == 0 && v'[s] == Zeros())
          || (s in own' && Under(own'[s], p) && (s in own ==> Level(own[s]) > 0)))
  }

  /** What a failed attempt to extend the tree at p leaves: no sector is free any more, for it has taken them all.
      If none was free before, nothing was written either, except that sector 0 was overwritten for want of an
      index sector. */
  ghost predicate Stuck(v: seq<Sector>, own: Owners, v': seq<Sector>, own': Owners, p: Path, needsIndex: bool) {
    && |v| > 0
    && Spoiled(v, own, v', own', p)
    && (|own| == |v| ==> own' == own && v' == if needsIndex then v[0 := Zeros()] else v)
    && |own'| == |v|
  }

  /** The start of extending a tree, with its topmost index sector there: only a tree without any sector has
      changed, by that sector; or by zeros in sector 0, if there was none free. */
  ghost predicate Begun(v: seq<Sector>, own: Owners, v': seq<Sector>, own': Owners, n: nat, starved: bool) {
    && |v| == |v'| > 0
    && (starved ==> n == 0 && |own| == |v| && own' == own && v' == v[0 := Zeros()])
    && (n > 0 ==> v' == v && own' == own)
    && (n == 0 && !starved ==> |own| < |v|)
  }

  /** The entries of a block that were set are the same in another. */
  ghost predicate SetKept(block: Block, block': Block) {
    forall i: Slot :: block[i] != 0 ==> block'[i] == block[i]
  }

  /** An attempt to make the tree at p, whose entry was e and is e' now, hold num data sectors where it held n.
      It succeeds exactly if the data and index sectors that are missing are free, and then the tree has its
      sectors and only it grew. It changes nothing if nothing is missing, and in no case an entry that is set. */
  ghost predicate Attempted(ok: bool, v: seq<Sector>, own: Owners, v': seq<Sector>, own': Owners, e: nat, e': nat,
                            p: Path, n: nat, num: nat)
  {
    && |v| == |v'|
    && (ok <==> |own| + Missing(n, num, Level(p)) <= |v|)
    && (ok ==>
          && Owned(v', own', e', p, Max(n, num))
          && |own'| == |own| + Missing(n, num, Level(p))
          && Grown(v, own, v', own', p))
    && EntriesKept(v, own, v') && (e != 0 ==> e' == e)
    && (num <= n ==> v' == v && own' == own && e' == e)
    && (!ok ==> Stuck(v, own, v', own', p, NeedsIndex(n, Level(p))) && (|own| == |v| ==> e' == e))
  }

  // --------------------------------------------------------------------------
  // Entries are kept

  lemma KeptSame(v: seq<Sector>, own: Owners)
    ensures EntriesKept(v, own, v)
  {
  }

  lemma SetKeptMore(block0: Block, block: Block, i: Slot, e: U32)
    requires SetKept(block0, block) && (block[i] != 0 ==> e == block[i])
    ensures SetKept(block0, block[i := e])
    ensures e == block[i] ==> block[i := e] == block
  {
  }

  /** An entry is 0 just when there is nothing there, since sector 0 is an inode's. */
  lemma NoneOrSome(v: seq<Sector>, own: Owners, e: nat, p: Path, n: nat)
    requires InTree(p) && Owned(v, own, e, p, n) && 0 in own && own[0].Home?
    ensures e == 0 <==> n == 0
  {
  }

  /** The three outcomes for a data sector: it is there, it is taken, or no sector is free. */
  lemma DataThere(v: seq<Sector>, own: Owners, e: nat, p: Path, n: nat)
    requires Level(p) == 0 && Owned(v, own, e, p, n) && e != 0 && |own| <= |v|
    ensures Attempted(true, v, own, v, own, e, e, p, n, 1)
  {
  }

  lemma DataTaken(v: seq<Sector>, own: Owners, e: nat, p: Path)
    requires Level(p) == 0 && Owned(v, own, 0, p, 0) && e !in own && e < |v| && |own[e := p]| == |own| + 1 <= |v|
    ensures Attempted(true, v, own, v[e := Zeros()], own[e := p], 0, e, p, 0, 1)
  {
    hide EntriesKept;
    NewData(v, own, e, p);
    TakeSector(v, own, e, p);
    KeptBeside(v, own, e, Zeros());
  }

  lemma DataLacking(v: seq<Sector>, own: Owners, p: Path)
    requires Level(p) == 0 && |own| == |v| > 0
    ensures Attempted(false, v, own, v, own, 0, 0, p, 0, 1)
  {
  }

  lemma KeptTransitive(v: seq<Sector>, own: Owners, v': seq<Sector>, own': Owners, v'': seq<Sector>)
    requires EntriesKept(v, own, v') && EntriesKept(v', own', v'')
    requires forall s :: s in own ==> s in own' && own'[s] == own[s]
    ensures EntriesKept(v, own, v'')
  {
    hide Unpack;
  }

  /** Writing to a sector that is no index sector keeps all entries. */
  lemma KeptBeside(v: seq<Sector>, own: Owners, e: nat, contents: Sector)
    requires e < |v| && (e in own ==> Level(own[e]) == 0)
    ensures EntriesKept(v, own, v[e := contents])
  {
    hide Unpack;
  }

  /** Writing an index block back keeps all entries if those that were set are as before. */
  lemma KeptWrite(v: seq<Sector>, own: Owners, v': seq<Sector>, e: nat, block: Block)
    requires EntriesKept(v, own, v') && e < |v|
    requires e in own && Level(own[e]) > 0 ==> forall i: Slot :: Unpack(v[e])[i] != 0 ==> block[i] == Unpack(v[e])[i]
    ensures EntriesKept(v, own, v'[e := Pack(block)])
  {
    PackRoundTrip(block);
    hide Unpack, Pack;
  }

  /** Reading a sector as words and writing these gives the same sector. */
  lemma UnpackRoundTrip(s: Sector)
    ensures Pack(Unpack(s)) == s
  {
    forall i | 0 <= i < SECTOR_SIZE
      ensures Pack(Unpack(s))[i] == s[i]
    {
      BytesOfWord(s[i / 4 * 4], s[i / 4 * 4 + 1], s[i / 4 * 4 + 2], s[i / 4 * 4 + 3]);
    }
  }

  lemma BytesOfWord(b0: Byte, b1: Byte, b2: Byte, b3: Byte)
    ensures var w := b0 + 0x100 * b1 + 0x1_0000 * b2 + 0x100_0000 * b3;
            WordByte(w, 0) == b0 && WordByte(w, 1) == b1 && WordByte(w, 2) == b2 && WordByte(w, 3) == b3
  {
    var w := b0 + 0x100 * b1 + 0x1_0000 * b2 + 0x100_0000 * b3;
    DropBytes(b0, b1 + 0x100 * b2 + 0x1_0000 * b3);
    DropBytes(b1, b2 + 0x100 * b3);
    DropBytes(b0 + 0x100 * b1, b2 + 0x100 * b3);
    DropBytes(b2, b3);
    DropBytes(b0 + 0x100 * b1 + 0x1_0000 * b2, b3);
  }

  /** Dividing drops the low bytes of a word. */
  lemma DropBytes(low: nat, high: nat)
    ensures low < 0x100 ==> (low + 0x100 * high) / 0x100 == high && (low + 0x100 * high) % 0x100 == low
    ensures low < 0x1_0000 ==> (low + 0x1_0000 * high) / 0x1_0000 == high
    ensures low < 0x100_0000 ==> (low + 0x100_0000 * high) / 0x100_0000 == high
  {
  }

  // --------------------------------------------------------------------------
  // Failing

  lemma OwnersGrow(own: Owners, own': Owners)
    requires forall s :: s in own ==> s in own'
    ensures |own| <= |own'|
    ensures |own| < |own'| ==> exists s :: s in own' && s !in own
  {
    assert |own.Keys| == |own| && |own'.Keys| == |own'|;
    assert own'.Keys == own.Keys + (own'.Keys - own.Keys);
    if |own| < |own'| {
      assert own'.Keys - own.Keys != {};
      var s :| s in own'.Keys - own.Keys;
    }
  }

  lemma SpoiledAfter(v0: seq<Sector>, own0: Owners, v1: seq<Sector>, own1: Owners, v2: seq<Sector>, own2: Owners,
                     p: Path, q: Path)
    requires Grown(v0, own0, v1, own1, p) && Spoiled(v1, own1, v2, own2, q)
    requires forall r :: Under(r, q) ==> Under(r, p)
    ensures Spoiled(v0, own0, v2, own2, p)
  {
  }

  /** Failing below one entry after others were extended. */
  lemma StuckAfter(v0: seq<Sector>, own0: Owners, v1: seq<Sector>, own1: Owners, v2: seq<Sector>, own2: Owners,
                   p: Path, q: Path, needsIndex: bool, needsBelow: bool)
    requires Grown(v0, own0, v1, own1, p) && Stuck(v1, own1, v2, own2, q, needsBelow)
    requires forall r :: Under(r, q) ==> Under(r, p)
    requires |own1| <= |v1|
    requires |own0| == |v0| ==> v1 == v0 && own1 == own0 && needsBelow == needsIndex
    ensures Stuck(v0, own0, v2, own2, p, needsIndex)
  {
    SpoiledAfter(v0, own0, v1, own1, v2, own2, p, q);
    OwnersGrow(own0, own1);
    hide Grown, Spoiled;
  }

  /** Failing below a new index sector that itself could not be allocated. */
  lemma StuckStarved(v0: seq<Sector>, own: Owners, v2: seq<Sector>, own2: Owners, p: Path, q: Path, needsBelow: bool)
    requires |own| == |v0| > 0 && Stuck(v0[0 := Zeros()], own, v2, own2, q, needsBelow)
    requires forall r :: Under(r, q) ==> Under(r, p)
    ensures Stuck(v0, own, v2, own2, p, true)
  {
    assert v2 == v0[0 := Zeros()];
  }

  /** Where the first entry that is short of sectors lies. */
  lemma FirstShort(n: nat, num: nat, i: Slot, level: nat)
    requires 1 <= level <= 2 && 0 < n <= Capacity(level) && num <= Capacity(level) && i < DivRoundUp(num, Unit(level))
    requires forall t: Slot :: t < i ==> Part(num, t, level) <= Part(n, t, level)
    requires Part(num, i, level) > Part(n, i, level)
    ensures NeedsIndex(Part(n, i, level), level - 1) == NeedsIndex(n, level)
  {
    if level == 2 {
      if i > 0 {
        assert Part(num, i - 1, level) <= Part(n, i - 1, level);
      }
      assert n == WORDS_PER_SECTOR * i + Part(n, i, level);
    }
  }

  lemma FirstShortRoot(n: nat, num: nat, k: RootSlot)
    requires n <= MAX_SECTORS && num <= MAX_SECTORS
    requires forall t: RootSlot :: t < k ==> RootPart(num, t) <= RootPart(n, t)
    requires RootPart(num, k) > RootPart(n, k)
    ensures NeedsIndex(RootPart(n, k), RootLevel(k)) == FileNeedsIndex(n)
  {
    if k > 0 {
      assert RootPart(num, k - 1) <= RootPart(n, k - 1);
    }
    if k == DOUBLY_INDIRECT {
      assert RootPart(num, DIRECT_BLOCKS_COUNT - 1) <= RootPart(n, DIRECT_BLOCKS_COUNT - 1);
    }
  }

  // --------------------------------------------------------------------------
  // One round of the loop over the entries of an index block

  /** What is known before a round. */
  ghost predicate Ready(v0: seq<Sector>, own0: Owners, v: seq<Sector>, own: Owners, block: Block, e: nat, p: Path,
                        i: nat, n: nat, num: nat, starved: bool)
    requires Level(p) > 0
  {
    && (starved ==> i == 0 && Starved(v, own0, own, block, p, n))
    && (!starved ==> Extending(v0, own0, v, own, block, e, p, i, n, Max(n, num)))
    && (if |own0| == |v0| then Begun(v0, own0, v, own, n, starved) else !starved)
  }

  lemma RoundReady(v0: seq<Sector>, own0: Owners, v: seq<Sector>, own: Owners, block: Block, e: nat, p: Path,
                   i: Slot, n: nat, num: nat, starved: bool)
    requires Level(p) > 0 && Ready(v0, own0, v, own, block, e, p, i, n, num, starved)
    ensures Owned(v, own, block[i], Child(p, i), Part(n, i, Level(p)))
    ensures forall s :: s in own0 ==> s in own && own[s] == own0[s]
    ensures !starved ==> Grown(v0, own0, v, own, p)
    ensures |v| == |v0| && (|own0| == |v0| ==> |own| == |v|)
  {
  }

  lemma RoundDone(v0: seq<Sector>, own0: Owners, v1: seq<Sector>, own1: Owners, v2: seq<Sector>, own2: Owners,
                  block: Block, e: nat, p: Path, i: Slot, n: nat, num: nat, x: nat, y: nat, child: U32, starved: bool)
    requires Level(p) > 0 && i < DivRoundUp(num, Unit(Level(p))) && num <= Capacity(Level(p)) && n <= Capacity(Level(p))
    requires x == Part(n, i, Level(p)) && y == Part(num, i, Level(p))
    requires Ready(v0, own0, v1, own1, block, e, p, i, n, num, starved)
    requires Grown(v1, own1, v2, own2, Child(p, i)) && |own2| <= |v2| == |v1|
    requires Owned(v2, own2, child, Child(p, i), Max(x, y))
    requires |own2| == |own1| + Missing(x, y, Level(p) - 1)
    ensures !starved && Extending(v0, own0, v2, own2, block[i := child], e, p, i + 1, n, Max(n, num))
  {
    hide Owned, Grown, Part, Total;
    PartOfMax(n, num, i, Level(p));
    NothingMissing(x, y, Level(p) - 1);
    if starved {
      StarvedFails(p, i, n, num);
    } else {
      hide Extending;
      ExtendStep(v0, own0, v1, own1, v2, own2, block, e, p, i, n, Max(n, num), child);
    }
  }

  /** An entry that is short of sectors means that the tree is. */
  lemma RoundShort(v0: seq<Sector>, own0: Owners, v: seq<Sector>, own: Owners, block: Block, e: nat, p: Path,
                   i: Slot, n: nat, num: nat, x: nat, y: nat, starved: bool)
    requires Level(p) > 0 && i < DivRoundUp(num, Unit(Level(p))) && num <= Capacity(Level(p)) && n <= Capacity(Level(p))
    requires x == Part(n, i, Level(p)) && y == Part(num, i, Level(p))
    requires Ready(v0, own0, v, own, block, e, p, i, n, num, starved)
    requires |own| + Missing(x, y, Level(p) - 1) > |v|
    ensures |own0| + Missing(n, num, Level(p)) > |v|
  {
    hide OwnedBelow, Grown, Owned, Part, Missing;
    MissingBelow(n, num, i, Level(p));
  }

  lemma StarvedFails(p: Path, i: Slot, n: nat, num: nat)
    requires Level(p) > 0 && n == 0 && i < DivRoundUp(num, Unit(Level(p))) && num <= Capacity(Level(p))
    ensures Part(num, i, Level(p)) > Part(n, i, Level(p))
  {
  }

  lemma RoundFailed(v0: seq<Sector>, own0: Owners, v1: seq<Sector>, own1: Owners, v2: seq<Sector>, own2: Owners,
                    block: Block, e: nat, p: Path, i: Slot, n: nat, num: nat, starved: bool)
    requires Level(p) > 0 && i < DivRoundUp(num, Unit(Level(p))) && num <= Capacity(Level(p)) && n <= Capacity(Level(p))
    requires Ready(v0, own0, v1, own1, block, e, p, i, n, num, starved)
    requires |own0| == |v0| ==> forall t: Slot :: t < i ==> Part(num, t, Level(p)) <= Part(n, t, Level(p))
    requires |own1| <= |v1| && Part(num, i, Level(p)) > Part(n, i, Level(p))
    requires Stuck(v1, own1, v2, own2, Child(p, i), NeedsIndex(Part(n, i, Level(p)), Level(p) - 1))
    ensures Stuck(v0, own0, v2, own2, p, NeedsIndex(n, Level(p)))
  {
    hide Grown, Stuck, Part;
    BelowChild(p, i);
    if starved {
      StuckStarved(v0, own0, v2, own2, p, Child(p, i), NeedsIndex(Part(n, i, Level(p)), Level(p) - 1));
    } else {
      if |own0| == |v0| {
        FirstShort(n, num, i, Level(p));
      }
      StuckAfter(v0, own0, v1, own1, v2, own2, p, Child(p, i), NeedsIndex(n, Level(p)),
                 NeedsIndex(Part(n, i, Level(p)), Level(p) - 1));
    }
  }

  /** One round, from v to v', that made the i-th entry of the block child. */
  ghost predicate Visited(ok: bool, v0: seq<Sector>, own0: Owners, v: seq<Sector>, own: Owners, v': seq<Sector>,
                          own': Owners, block: Block, child: U32, e: nat, p: Path, i: Slot, n: nat, num: nat,
                          starved: bool)
    requires Level(p) > 0
  {
    && |v'| == |v|
    && (ok ==> !starved && Extending(v0, own0, v', own', block[i := child], e, p, i + 1, n, Max(n, num)))
    && (!ok ==> |own0| + Missing(n, num, Level(p)) > |v|)
    && EntriesKept(v0, own0, v') && (block[i] != 0 ==> child == block[i])
    && (ok && (num <= n || |own0| == |v0|) ==>
          v' == v && own' == own && child == block[i] && Part(num, i, Level(p)) <= Part(n, i, Level(p)))
    && (!ok ==> Stuck(v0, own0, v', own', p, NeedsIndex(n, Level(p))))
  }

  lemma RoundFollows(ok: bool, v0: seq<Sector>, own0: Owners, v1: seq<Sector>, own1: Owners, v2: seq<Sector>,
                     own2: Owners, block: Block, child: U32, e: nat, p: Path, i: Slot, n: nat, num: nat, starved: bool)
    requires Level(p) > 0 && i < DivRoundUp(num, Unit(Level(p))) && num <= Capacity(Level(p)) && n <= Capacity(Level(p))
    requires Ready(v0, own0, v1, own1, block, e, p, i, n, num, starved) && EntriesKept(v0, own0, v1)
    requires |own0| == |v0| ==> forall t: Slot :: t < i ==> Part(num, t, Level(p)) <= Part(n, t, Level(p))
    requires |own1| <= |v1| && |own2| <= |v2|
    requires Attempted(ok, v1, own1, v2, own2, block[i], child, Child(p, i), Part(n, i, Level(p)),
                       Part(num, i, Level(p)))
    ensures Visited(ok, v0, own0, v1, own1, v2, own2, block, child, e, p, i, n, num, starved)
  {
    hide Owned, Missing, Part, EntriesKept, Stuck, Grown, Ready, Extending, Starved, NeedsIndex;
    var x, y := Part(n, i, Level(p)), Part(num, i, Level(p));
    PartOfMax(n, num, i, Level(p));
    RoundReady(v0, own0, v1, own1, block, e, p, i, n, num, starved);
    KeptTransitive(v0, own0, v1, own1, v2);
    NothingMissing(x, y, Level(p) - 1);
    PartMonotone(num, n, i, Level(p));
    if ok {
      RoundDone(v0, own0, v1, own1, v2, own2, block, e, p, i, n, num, x, y, child, starved);
    } else {
      RoundShort(v0, own0, v1, own1, block, e, p, i, n, num, x, y, starved);
      RoundFailed(v0, own0, v1, own1, v2, own2, block, e, p, i, n, num, starved);
    }
  }

  /** What is known before the i-th round of the loop over the entries, which started at v1 with block0. */
  ghost predicate Rounds(v0: seq<Sector>, own0: Owners, v1: seq<Sector>, own1: Owners, v: seq<Sector>, own: Owners,
                         block0: Block, block: Block, e: nat, p: Path, i: nat, n: nat, num: nat, starved: bool)
    requires Level(p) > 0
  {
    && |v| == |v1| && Ready(v0, own0, v, own, block, e, p, i, n, num, starved)
    && EntriesKept(v0, own0, v) && SetKept(block0, block)
    && (num <= n || |own0| == |v0| ==> v == v1 && own == own1 && block == block0)
    && (|own0| == |v0| ==> forall t: Slot :: t < i ==> Part(num, t, Level(p)) <= Part(n, t, Level(p)))
  }

  lemma RoundsStart(v0: seq<Sector>, own0: Owners, v: seq<Sector>, own: Owners, block: Block, e: nat, p: Path,
                    n: nat, num: nat, starved: bool)
    requires Level(p) > 0 && EntriesKept(v0, own0, v) && Begun(v0, own0, v, own, n, starved)
    requires starved ==> Starved(v, own0, own, block, p, n)
    requires !starved ==> Extending(v0, own0, v, own, block, e, p, 0, n, Max(n, num))
    ensures Rounds(v0, own0, v, own, v, own, block, block, e, p, 0, n, num, starved)
  {
    hide Extending, Starved, EntriesKept, Part;
  }

  lemma RoundsEnd(v0: seq<Sector>, own0: Owners, v1: seq<Sector>, own1: Owners, v: seq<Sector>, own: Owners,
                  block0: Block, block: Block, e: nat, p: Path, l: nat, n: nat, num: nat, starved: bool)
    requires Level(p) > 0 && Rounds(v0, own0, v1, own1, v, own, block0, block, e, p, l, n, num, starved)
    requires 0 < num <= Capacity(Level(p)) && n <= Capacity(Level(p)) && l == DivRoundUp(num, Unit(Level(p)))
    ensures |v| == |v1| && EntriesKept(v0, own0, v) && SetKept(block0, block)
    ensures num <= n ==> v == v1 && own == own1 && block == block0
    ensures Extending(v0, own0, v, own, block, e, p, WORDS_PER_SECTOR, n, Max(n, num))
    ensures |own| == |own0| + Missing(n, num, Level(p))
  {
    hide Extending, Starved, EntriesKept, Part, Missing, SetKept;
    ExtendRest(v0, own0, v, own, block, e, p, l, n, num);
  }

  lemma RoundsStep(ok: bool, v0: seq<Sector>, own0: Owners, v1: seq<Sector>, own1: Owners, v: seq<Sector>, own: Owners,
                   v': seq<Sector>, own': Owners, block0: Block, block: Block, child: U32, e: nat, p: Path, i: Slot,
                   n: nat, num: nat, starved: bool)
    requires Level(p) > 0 && Rounds(v0, own0, v1, own1, v, own, block0, block, e, p, i, n, num, starved)
    requires Visited(ok, v0, own0, v, own, v', own', block, child, e, p, i, n, num, starved)
    ensures SetKept(block0, block[i := child]) && |v'| == |v1| && EntriesKept(v0, own0, v')
    ensures if ok then Rounds(v0, own0, v1, own1, v', own', block0, block[i := child], e, p, i + 1, n, num, starved)
            else Stuck(v0, own0, v', own', p, NeedsIndex(n, Level(p))) && |own0| + Missing(n, num, Level(p)) > |v|
  {
    hide Extending, Starved, EntriesKept, Stuck, Part, NeedsIndex, Missing, SetKept, Begun;
    SetKeptMore(block0, block, i, child);
  }

  lemma PartMonotone(num: nat, n: nat, i: Slot, level: nat)
    requires level > 0
    ensures num <= n ==> Part(num, i, level) <= Part(n, i, level)
  {
  }

  // --------------------------------------------------------------------------
  // One of the inode's entries

  /** What is known before the k-th entry of an inode is visited. */
  ghost predicate RootReady(v0: seq<Sector>, own0: Owners, v: seq<Sector>, own: Owners, d: InodeDisk, x: nat, k: nat,
                            n: nat, num: nat)
  {
    && Reserving(v0, own0, v, own, d, x, k, n, Max(n, num))
    && EntriesKept(v0, own0, v)
    && (|own0| == |v0| ==> v == v0 && own == own0)
    && (|own0| == |v0| ==> forall t: RootSlot :: t < k ==> RootPart(num, t) <= RootPart(n, t))
  }

  /** An inode of which only entries have changed. */
  ghost predicate SameButEntries(d: InodeDisk, d': InodeDisk) {
    WellFormed(d') && d'.isDir == d.isDir && d'.length == d.length && d'.magic == d.magic
  }

  lemma RootEntry(v0: seq<Sector>, own0: Owners, v: seq<Sector>, own: Owners, d: InodeDisk, x: nat, k: RootSlot,
                  n: nat, num: nat)
    requires RootReady(v0, own0, v, own, d, x, k, n, num)
    ensures WellFormed(d) && Owned(v, own, EntryOf(d, k), Root(x, k), RootPart(n, k))
    ensures RootPart(num, k) <= Capacity(RootLevel(k)) && RootPart(n, k) <= Capacity(RootLevel(k))
  {
  }

  /** A visit that took the state from v to v' and the inode from d to d'. */
  ghost predicate RootVisited(ok: bool, v0: seq<Sector>, own0: Owners, v: seq<Sector>, own: Owners, v': seq<Sector>,
                              own': Owners, d: InodeDisk, d': InodeDisk, x: nat, k: nat, n: nat, num: nat)
  {
    && |v'| == |v0| && SameButEntries(d, d')
    && (ok ==> RootReady(v0, own0, v', own', d', x, k + 1, n, num))
    && (ok && num <= n ==> v' == v && own' == own)
    && (num <= n || |own0| == |v0| ==> d' == d)
    && (!ok ==>
          && |own0| + FileTotal(Max(n, num)) - FileTotal(n) > |v0|
          && EntriesKept(v0, own0, v')
          && Stuck(v0, own0, v', own', File(x), FileNeedsIndex(n)))
  }

  lemma RootFollows(ok: bool, v0: seq<Sector>, own0: Owners, v1: seq<Sector>, own1: Owners, v2: seq<Sector>,
                    own2: Owners, d: InodeDisk, x: nat, k: RootSlot, n: nat, num: nat, e: U32)
    requires n <= MAX_SECTORS && num <= MAX_SECTORS && |own1| <= |v1| && |own2| <= |v2|
    requires RootReady(v0, own0, v1, own1, d, x, k, n, num)
    requires Attempted(ok, v1, own1, v2, own2, EntryOf(d, k), e, Root(x, k), RootPart(n, k), RootPart(num, k))
    ensures RootVisited(ok, v0, own0, v1, own1, v2, own2, d, SetEntry(d, k, e), x, k, n, num)
  {
    hide Owned, OwnedByRoot, Missing, EntriesKept, Stuck, Grown, NeedsIndex, FileTotal, RootsBelow, RootPart;
    var a, b := RootPart(n, k), RootPart(num, k);
    RootsKept(v0, own0, v1, own1, d, x, k, n, num);
    KeptTransitive(v0, own0, v1, own1, v2);
    RootSizes(n, num, k);
    NothingMissing(a, b, RootLevel(k));
    SameEntry(d, k);
    FileMissing(n, num, k);
    if ok {
      ReservingStep(v0, own0, v1, own1, v2, own2, d, x, k, n, num, e);
    } else {
      if |own0| == |v0| {
        FirstShortRoot(n, num, k);
      }
      StuckAfter(v0, own0, v1, own1, v2, own2, File(x), Root(x, k), FileNeedsIndex(n), NeedsIndex(a, RootLevel(k)));
    }
  }

  lemma RootsKept(v0: seq<Sector>, own0: Owners, v: seq<Sector>, own: Owners, d: InodeDisk, x: nat, k: nat,
                  n: nat, num: nat)
    requires RootReady(v0, own0, v, own, d, x, k, n, num)
    ensures |v| == |v0| && Grown(v0, own0, v, own, File(x))
    ensures forall s :: s in own0 ==> s in own && own[s] == own0[s]
  {
    hide OwnedByRoot;
  }

  lemma RootSizes(n: nat, num: nat, k: RootSlot)
    ensures RootPart(n, k) <= Capacity(RootLevel(k)) && RootPart(num, k) <= Capacity(RootLevel(k))
    ensures num <= n ==> RootPart(num, k) <= RootPart(n, k)
  {
  }

  lemma SameEntry(d: InodeDisk, k: RootSlot)
    requires WellFormed(d)
    ensures SetEntry(d, k, EntryOf(d, k)) == d
  {
  }

  /** Only a tree that is to grow is short of sectors. */
  lemma NothingMissing(n: nat, num: nat, level: nat)
    requires level <= 2 && num <= Capacity(level) && n <= Capacity(level)
    ensures Missing(n, num, level) >= 0
    ensures Missing(n, num, level) == 0 <==> num <= n
  {
  }

  // --------------------------------------------------------------------------
  // A tree has room for no more sectors than it has

  /** Two trees of the same size at the same place, one with more owners around it, have the same sectors. */
  lemma {:induction false} NoMore(v: seq<Sector>, own: Owners, e: nat, v': seq<Sector>, own': Owners, e': nat,
                                  p: Path, n: nat, s: nat)
    requires Owned(v, own, e, p, n) && Owned(v', own', e', p, n)
    requires forall t :: t in own ==> t in own' && own'[t] == own[t]
    requires s in own' && Under(own'[s], p)
    ensures s in own
    decreases Level(p)
  {
    if n > 0 && Level(p) > 0 && own'[s] != p {
      var t: Slot := SlotBelow(own'[s], p);
      assert Under(own'[s], Child(p, t));
      NoMore(v, own, Unpack(v[e])[t], v', own', Unpack(v'[e'])[t], Child(p, t), Part(n, t, Level(p)), s);
    }
  }

  // --------------------------------------------------------------------------
  // What is left of the files

  /** Every file has the inode and the contents it had, except that the free map's may be empty now. */
  ghost predicate FilesKept(v: seq<Sector>, v': seq<Sector>, files: set<nat>) {
    |v'| == |v| && forall y :: y in files ==> FileKept(v, v', y) || (y == FREE_MAP_SECTOR && FileAt(v', y) == [])
  }

  ghost predicate FileKept(v: seq<Sector>, v': seq<Sector>, y: nat) {
    y < |v| == |v'| && v'[y] == v[y] && FileAt(v', y) == FileAt(v, y)
  }

  /** What a failed attempt to extend file x, of n data sectors, leaves. */
  ghost predicate Unfinished(v: seq<Sector>, own: Owners, v': seq<Sector>, own': Owners, files: set<nat>,
                             x: nat, n: nat)
  {
    Stuck(v, own, v', own', File(x), FileNeedsIndex(n)) && FilesKept(v, v', files)
  }

  /** Entries that are kept lead to the same data sectors. */
  lemma SectorAtSpoiled(v: seq<Sector>, own: Owners, v': seq<Sector>, d: InodeDisk, x: nat, n: nat, k: nat)
    requires FileTree(v, own, d, x, n) && k < n <= MAX_SECTORS
    requires EntriesKept(v, own, v') && 0 in own && own[0].Home?
    ensures SectorAt(v', d, k) == SectorAt(v, d, k)
  {
    hide OwnedByRoot, Unpack;
    SectorAtOwned(v, own, d, x, n, k);
    if k >= INDIRECT_END {
      IndexOwned(v, own, d, x, n, (k - INDIRECT_END) / WORDS_PER_SECTOR);
    } else if k >= DIRECT_BLOCKS_COUNT {
      IndexOwned(v, own, d, x, n, 0);
    }
  }

  lemma ContentsSpoiled(v: seq<Sector>, own: Owners, v': seq<Sector>, own': Owners, d: InodeDisk, x: nat, p: Path)
    requires FileOk(v, own, d, x) && 0 in own && own[0].Home?
    requires Spoiled(v, own, v', own', p) && EntriesKept(v, own, v')
    ensures Contents(v', d) == Contents(v, d)
  {
    hide FileTree, SectorAt, EntriesKept, Under;
    var n := BytesToSectors(d.length);
    forall o: nat | o < d.length ensures ByteAt(v', d, o) == ByteAt(v, d, o) {
      SectorAtOwned(v, own, d, x, n, o / SECTOR_SIZE);
      SectorAtSpoiled(v, own, v', d, x, n, o / SECTOR_SIZE);
    }
  }

  /** A failed attempt to extend file x changes no file's contents, except for the free map's. */
  lemma FilesSpoiled(v: seq<Sector>, own: Owners, v': seq<Sector>, own': Owners, files: set<nat>, x: nat)
    requires FilesOk(v, own, files) && 0 in own && own[0] == Home(0)
    requires Spoiled(v, own, v', own', File(x)) && EntriesKept(v, own, v')
    ensures FilesKept(v, v', files)
    ensures forall y :: y in files ==> y < |v| && (v'[y] == v[y] || (y == FREE_MAP_SECTOR && v'[y] == Zeros()))
  {
    hide FileOk, Contents, UnpackInode, EntriesKept;
    EmptyInode();
    forall y | y in files
      ensures FileKept(v, v', y) || (y == FREE_MAP_SECTOR && FileAt(v', y) == [])
    {
      ContentsSpoiled(v, own, v', own', UnpackInode(v[y]), y, File(x));
    }
  }

  lemma EmptyInode()
    ensures var d := UnpackInode(Zeros());
            && d.length == 0 && d.indirect == 0 && d.doublyIndirect == 0
            && forall k :: 0 <= k < |d.direct| ==> d.direct[k] == 0
    ensures forall v :: Contents(v, UnpackInode(Zeros())) == []
  {
    assert forall i: Slot :: Unpack(Zeros())[i] == 0 by {
      forall i: Slot ensures Unpack(Zeros())[i] == 0 {
        UnpackZeros(i);
      }
    }
  }

  /** With sectors left over from a failed attempt, file x is not intact. */
  lemma LeakBreaks(v: seq<Sector>, own: Owners, v': seq<Sector>, own': Owners, files: set<nat>, x: nat, s: nat)
    requires FilesOk(v, own, files) && x in files && 0 in own && own[0] == Home(0)
    requires Spoiled(v, own, v', own', File(x)) && s in own' && s !in own && !own'[s].File?
    ensures !FilesOk(v', own', files)
  {
    hide OwnedByRoot, UnpackInode, Owned, ZeroFrom;
    var d, d' := UnpackInode(v[x]), UnpackInode(v'[x]);
    EmptyInode();
    if FileOk(v', own', d', x) {
      var k := own'[s].k;
      RootOwned(v', own', d', x, BytesToSectors(d'.length), k);
      if v'[x] == v[x] {
        RootOwned(v, own, d, x, BytesToSectors(d.length), k);
        NoMore(v, own, EntryOf(d, k), v', own', EntryOf(d', k), Root(x, k), RootPart(BytesToSectors(d.length), k), s);
      } else {
        NoneOwned(v', own', EntryOf(d', k), Root(x, k), s);
      }
    }
  }

  lemma RootOwned(v: seq<Sector>, own: Owners, d: InodeDisk, x: nat, n: nat, k: RootSlot)
    requires FileTree(v, own, d, x, n)
    ensures Owned(v, own, EntryOf(d, k), Root(x, k), RootPart(n, k))
  {
  }

  lemma NoneOwned(v: seq<Sector>, own: Owners, e: nat, p: Path, s: nat)
    requires Owned(v, own, e, p, 0) && s in own
    ensures !Under(own[s], p)
  {
  }

  /** With sector 0 overwritten, the files are intact if the free map's is empty or there is none. */
  lemma ZeroedInode(v: seq<Sector>, own: Owners, files: set<nat>)
    requires FilesOk(v, own, files) && 0 in own && own[0] == Home(0) && |v| > 0
    ensures FilesOk(v[0 := Zeros()], own, files) <==> (0 in files ==> |FileAt(v, 0)| == 0)
  {
    hide FileOk, UnpackInode, Contents;
    var v' := v[0 := Zeros()];
    forall y | y in files && y != 0 ensures FileOk(v', own, UnpackInode(v'[y]), y) {
      FileFrame(v, own, v', own, UnpackInode(v[y]), y);
    }
    if 0 in files {
      ZeroedFile(v, own, UnpackInode(v[0]));
    }
  }

  lemma ZeroedFile(v: seq<Sector>, own: Owners, d: InodeDisk)
    requires FileOk(v, own, d, 0) && 0 in own && own[0] == Home(0) && |v| > 0
    ensures FileOk(v[0 := Zeros()], own, UnpackInode(Zeros()), 0) <==> d.length == 0
    ensures d.length == |Contents(v, d)|
  {
    hide UnpackInode, Owned, ZeroFrom;
    var v', d0 := v[0 := Zeros()], UnpackInode(Zeros());
    EmptyInode();
    TreeFrame(v, own, v', own, d, 0, BytesToSectors(d.length));
    if d.length == 0 {
      forall k: RootSlot ensures Owned(v', own, 0, Root(0, k), 0) {
        RootOwned(v', own, d, 0, 0, k);
      }
      EmptyFile(v', own, d0, 0);
    } else if FileOk(v', own, d0, 0) {
      SectorAtOwned(v', own, d, 0, BytesToSectors(d.length), 0);
      RootOwned(v', own, d0, 0, 0, 0);
      NoneOwned(v', own, EntryOf(d0, 0), Root(0, 0), SectorAt(v', d, 0));
    }
  }

  /** Exactly when all files are intact after a failed attempt to extend file x: when no sector was free, so that
      none was taken in vain, and either no index sector was wanted or the free map has no file to be overwritten. */
  lemma StuckFiles(v: seq<Sector>, own: Owners, v': seq<Sector>, own': Owners, files: set<nat>, x: nat,
                   needsIndex: bool)
    requires FilesOk(v, own, files) && x in files && 0 in own && own[0] == Home(0) && |own| <= |v|
    requires Stuck(v, own, v', own', File(x), needsIndex) && forall s :: s in own' ==> !own'[s].File?
    ensures FilesOk(v', own', files) <==> |own| == |v| && (needsIndex && 0 in files ==> |FileAt(v, 0)| == 0)
  {
    hide FilesOk, FileAt;
    OwnersGrow(own, own');
    if |own| < |v| {
      var s :| s in own' && s !in own;
      LeakBreaks(v, own, v', own', files, x, s);
    } else if needsIndex {
      ZeroedInode(v, own, files);
    }
  }

  /** The same for a failed attempt to make a new file with inode x. */
  lemma StuckNewFile(v: seq<Sector>, own: Owners, v': seq<Sector>, own': Owners, files: set<nat>, x: nat)
    requires FilesOk(v, own, files) && x !in files && |own| <= |v|
    requires Stuck(v, own, v', own', File(x), false) && forall s :: s in own' ==> !own'[s].File?
    ensures FilesOk(v', own', files) <==> |own| == |v|
  {
    hide FileOk;
    OwnersGrow(own, own');
    if |own| < |v| {
      var s :| s in own' && s !in own;
      assert InTree(own'[s]) && own'[s].inode == x;
    }
  }
}
