/** The inode's index tree as a description of who owns each sector in use.

    A sector in use has an owner: its place in some inode's tree. Since a sector has one owner, sectors in
    different places are different sectors, so the tree of an inode never shares a sector with itself or
    with another inode, and an index sector is never a data sector. */
module InodeTree {
  import opened Basics
  import opened Sectors

  type Slot = i: nat | i < WORDS_PER_SECTOR
  type RootSlot = k: nat | k < ROOT_ENTRIES

  const INDIRECT: RootSlot := 123
  const DOUBLY_INDIRECT: RootSlot := 124
  const ROOT_ENTRIES := 125
  const INDIRECT_END := 251  // 123 + 128
  const MAX_SECTORS := 16635  // 123 + 128 + 128 * 128

  /** The places a sector can have: the inode itself, one of its 125 entries, or below such an entry.
      File(x) is no sector's place; it stands for everything below inode x. */
  datatype Path =
    | Home(inode: nat)
    | File(inode: nat)
    | Root(inode: nat, k: RootSlot)
    | Mid(inode: nat, k: RootSlot, i: Slot)
    | Leaf(inode: nat, k: RootSlot, i: Slot, j: Slot)

  /** The places an allocated data or index sector can have. */
  predicate InTree(p: Path) {
    p.Root? || p.Mid? || p.Leaf?
  }

  type Owners = map<nat, Path>

  function RootLevel(k: RootSlot): nat {
    if k == INDIRECT then 1 else if k == DOUBLY_INDIRECT then 2 else 0
  }

  /** How many levels of index sectors start at a place: 0 for data. */
  function Level(p: Path): (r: nat)
    ensures r <= 2
  {
    match p
    case Home(_) => 0
    case File(_) => 0
    case Root(_, k) => RootLevel(k)
    case Mid(_, k, _) => if k == DOUBLY_INDIRECT then 1 else 0
    case Leaf(_, _, _, _) => 0
  }

  function Child(p: Path, i: Slot): (c: Path)
    requires Level(p) > 0
    ensures Level(c) == Level(p) - 1
  {
    match p
    case Root(x, k) => Mid(x, k, i)
    case Mid(x, k, m) => Leaf(x, k, m, i)
  }

  /** Whether q is p or a place below it. */
  predicate Under(q: Path, p: Path) {
    if p.Root? then !q.Home? && !q.File? && q.inode == p.inode && q.k == p.k
    else if p.File? then !q.Home? && q.inode == p.inode
    else if p.Mid? then (q.Mid? || q.Leaf?) && q.inode == p.inode && q.k == p.k && q.i == p.i
    else q == p
  }

  function DivRoundUp(x: nat, step: nat): nat
    requires step > 0
  {
    (x + step - 1) / step
  }

  /** The data sectors of a file of the given length. */
  function BytesToSectors(length: nat): nat {
    DivRoundUp(length, SECTOR_SIZE)
  }

  /** Data sectors below one entry of an index sector of the given level. */
  function Unit(level: nat): nat {
    if level <= 1 then 1 else WORDS_PER_SECTOR
  }

  function Capacity(level: nat): nat
    requires level <= 2
  {
    if level == 0 then 1 else if level == 1 then WORDS_PER_SECTOR else WORDS_PER_SECTOR * WORDS_PER_SECTOR
  }

  /** How many of the n data sectors below an index sector are below its i-th entry. */
  function Part(n: nat, i: Slot, level: nat): nat
    requires level > 0
  {
    if n <= i * Unit(level) then 0 else Min(n - i * Unit(level), Unit(level))
  }

  /** How many of a file's n data sectors are below the inode's k-th entry. */
  function RootPart(n: nat, k: RootSlot): nat {
    if k == DOUBLY_INDIRECT then
      if n <= INDIRECT_END then 0 else Min(n - INDIRECT_END, WORDS_PER_SECTOR * WORDS_PER_SECTOR)
    else if k == INDIRECT then if n <= DIRECT_BLOCKS_COUNT then 0 else Min(n - DIRECT_BLOCKS_COUNT, WORDS_PER_SECTOR)
    else if k < n then 1 else 0
  }

  function EntryOf(d: InodeDisk, k: RootSlot): U32
    requires WellFormed(d)
  {
    if k == DOUBLY_INDIRECT then d.doublyIndirect
    else if k == INDIRECT then d.indirect
    else d.direct[k]
  }

  /** The entry e, at place p, is the root of a tree with exactly n data sectors: nothing is there when n
      is 0; otherwise e is the only sector at p and, if p is an index, so on for its 128 entries. */
  ghost predicate Owned(v: seq<Sector>, own: Owners, e: nat, p: Path, n: nat)
    decreases Level(p)
  {
    if n == 0 then
      e == 0 && forall s :: s in own ==> !Under(own[s], p)
    else
      && Sole(own, e, p)
      && e < |v|
      && if Level(p) == 0 then
           n == 1 && forall s :: s in own && Under(own[s], p) ==> s == e
         else
           n <= Capacity(Level(p)) && OwnedBelow(v, own, Unpack(v[e]), p, 0, n, n)
  }

  ghost predicate Sole(own: Owners, e: nat, p: Path) {
    e in own && own[e] == p && forall s :: s in own && own[s] == p ==> s == e
  }

  /** The entries of an index block at place p while it is being extended from n to m data sectors: those
      before i are done. */
  ghost predicate OwnedBelow(v: seq<Sector>, own: Owners, block: Block, p: Path, i: nat, n: nat, m: nat)
    requires Level(p) > 0
    decreases Level(p), 0
  {
    forall t: Slot :: Owned(v, own, block[t], Child(p, t), Part(if t < i then m else n, t, Level(p)))
  }

  /** The entries of an inode's own block, in the same way. */
  ghost predicate OwnedByRoot(v: seq<Sector>, own: Owners, d: InodeDisk, x: nat, k: nat, n: nat, m: nat)
    requires WellFormed(d)
  {
    forall t: RootSlot :: Owned(v, own, EntryOf(d, t), Root(x, t), RootPart(if t < k then m else n, t))
  }

  /** The inode d with number x maps exactly n data sectors. */
  ghost predicate FileTree(v: seq<Sector>, own: Owners, d: InodeDisk, x: nat, n: nat) {
    WellFormed(d) && OwnedByRoot(v, own, d, x, 0, n, n)
  }

  // --------------------------------------------------------------------------
  // What does not disturb a tree

  /** Between the two states nothing under p was taken, given up or, for index sectors, written. */
  ghost predicate SameUnder(v: seq<Sector>, own: Owners, v': seq<Sector>, own': Owners, p: Path) {
    && |v| == |v'|
    && (forall s :: s in own && Under(own[s], p) ==> s in own' && own'[s] == own[s])
    && (forall s :: s in own' && Under(own'[s], p) ==> s in own && own[s] == own'[s])
    && (forall s :: s in own && Under(own[s], p) && Level(own[s]) > 0 && s < |v| ==> v'[s] == v[s])
  }

  lemma {:induction false} OwnedFrame(v: seq<Sector>, own: Owners, v': seq<Sector>, own': Owners,
                                      e: nat, p: Path, n: nat)
    requires Owned(v, own, e, p, n) && SameUnder(v, own, v', own', p)
    ensures Owned(v', own', e, p, n)
    decreases Level(p)
  {
    if n > 0 && Level(p) > 0 {
      assert Under(own[e], p);
      var block := Unpack(v[e]);
      forall t: Slot
        ensures Owned(v', own', block[t], Child(p, t), Part(n, t, Level(p)))
      {
        OwnedFrame(v, own, v', own', block[t], Child(p, t), Part(n, t, Level(p)));
      }
    }
  }

  /** From one state to the other only the tree under p grew: sectors keep their owners, new ones are
      under p, new data sectors are zero, and of the old sectors only index sectors under p were written. */
  ghost predicate Grown(v: seq<Sector>, own: Owners, v': seq<Sector>, own': Owners, p: Path) {
    && |v| == |v'|
    && (forall s :: s in own ==> s in own' && own'[s] == own[s])
    && (forall s :: s in own' && s !in own ==>
          Under(own'[s], p) && s < |v| && (Level(own'[s]) == 0 ==> v'[s] == Zeros()))
    && (forall s :: 0 <= s < |v| && v'[s] != v[s] ==>
          s in own' && Under(own'[s], p) && (s in own ==> Level(own[s]) > 0))
  }

  lemma GrownTransitive(v: seq<Sector>, own: Owners, v': seq<Sector>, own': Owners, v'': seq<Sector>, own'': Owners,
                        p: Path, q: Path)
    requires Grown(v, own, v', own', p) && Grown(v', own', v'', own'', q)
    requires forall r :: Under(r, q) ==> Under(r, p)
    ensures Grown(v, own, v'', own'', p)
  {
  }

  /** Growing under one place leaves the trees at places beside it as they are. */
  lemma GrownBeside(v: seq<Sector>, own: Owners, v': seq<Sector>, own': Owners, p: Path, e: nat, q: Path, n: nat)
    requires Grown(v, own, v', own', p) && Owned(v, own, e, q, n)
    requires forall r :: !(Under(r, p) && Under(r, q))
    ensures Owned(v', own', e, q, n)
  {
    OwnedFrame(v, own, v', own', e, q, n);
  }

  // --------------------------------------------------------------------------
  // Growing an index block entry by entry

  lemma ExtendEntry(v: seq<Sector>, own: Owners, v': seq<Sector>, own': Owners,
                    block: Block, e: U32, p: Path, i: Slot, n: nat, m: nat)
    requires Level(p) > 0 && OwnedBelow(v, own, block, p, i, n, m)
    requires Grown(v, own, v', own', Child(p, i))
    requires Owned(v', own', e, Child(p, i), Part(m, i, Level(p)))
    ensures OwnedBelow(v', own', block[i := e], p, i + 1, n, m)
  {
    forall t: Slot
      ensures Owned(v', own', block[i := e][t], Child(p, t), Part(if t < i + 1 then m else n, t, Level(p)))
    {
      if t != i {
        GrownBeside(v, own, v', own', Child(p, i), block[t], Child(p, t), Part(if t < i then m else n, t, Level(p)));
      }
    }
  }

  /** Taking a free, zeroed sector for place p grows the tree under p. */
  lemma TakeSector(v: seq<Sector>, own: Owners, e: nat, p: Path)
    requires Owned(v, own, 0, p, 0) && e !in own && e < |v|
    ensures Grown(v, own, v[e := Zeros()], own[e := p], p)
    ensures Sole(own[e := p], e, p)
  {
    assert Under(p, p);
  }

  /** A new index sector starts out without entries. */
  lemma NewIndex(v: seq<Sector>, own: Owners, e: nat, p: Path, own': Owners, m: nat)
    requires Level(p) > 0 && Owned(v, own, 0, p, 0) && e < |v|
    requires own' == own || own' == own[e := p]
    ensures OwnedBelow(v[e := Zeros()], own', Unpack(Zeros()), p, 0, 0, m)
  {
    forall t: Slot
      ensures Owned(v[e := Zeros()], own', Unpack(Zeros())[t], Child(p, t), 0)
    {
      UnpackZeros(t);
    }
  }

  lemma NewData(v: seq<Sector>, own: Owners, e: nat, p: Path)
    requires Level(p) == 0 && Owned(v, own, 0, p, 0) && e !in own && e < |v|
    ensures Owned(v[e := Zeros()], own[e := p], e, p, 1)
  {
    var v', own' := v[e := Zeros()], own[e := p];
    TakeSector(v, own, e, p);
    assert forall s :: s in own' && Under(own'[s], p) ==> s == e;
    assert e < |v'|;
  }

  /** Once all entries are done, writing the block to its sector completes the tree. */
  lemma FinishIndex(v: seq<Sector>, own: Owners, contents: Sector, e: nat, p: Path, l: nat, n: nat, m: nat)
    requires Level(p) > 0 && OwnedBelow(v, own, Unpack(contents), p, l, n, m)
    requires 0 < m <= Capacity(Level(p)) && Sole(own, e, p) && e < |v|
    requires forall t: Slot :: l <= t ==> Part(n, t, Level(p)) == Part(m, t, Level(p))
    ensures Owned(v[e := contents], own, e, p, m)
    ensures Grown(v, own, v[e := contents], own, p)
  {
    var v' := v[e := contents];
    assert Under(p, p);
    forall t: Slot
      ensures Owned(v', own, Unpack(contents)[t], Child(p, t), Part(m, t, Level(p)))
    {
      OwnedFrame(v, own, v', own, Unpack(contents)[t], Child(p, t), Part(m, t, Level(p)));
    }
  }

  // --------------------------------------------------------------------------
  // How many sectors a tree takes

  /** The data and index sectors of a tree with n data sectors and the given number of index levels. */
  function Total(n: nat, level: nat): nat {
    if n == 0 then 0
    else if level == 0 then n
    else if level == 1 then n + 1
    else n + DivRoundUp(n, WORDS_PER_SECTOR) + 1
  }

  /** Those of them below the first i entries of the topmost index sector. */
  function TotalBelow(n: nat, i: nat, level: nat): nat {
    if level <= 1 then Min(n, i) else Min(n, WORDS_PER_SECTOR * i) + Min(DivRoundUp(n, WORDS_PER_SECTOR), i)
  }

  lemma TotalBelowStep(n: nat, i: Slot, level: nat)
    requires 1 <= level <= 2
    ensures TotalBelow(n, i + 1, level) == TotalBelow(n, i, level) + Total(Part(n, i, level), level - 1)
  {
  }

  /** The sectors it takes to extend a tree from n to at least num data sectors. */
  function Missing(n: nat, num: nat, level: nat): int {
    Total(Max(n, num), level) - Total(n, level)
  }

  /** What remains of num data sectors after the first i entries of an index sector. */
  function Left(num: nat, i: nat, level: nat): nat {
    num - Min(num, i * Unit(level))
  }

  lemma LeftStart(num: nat, level: nat)
    requires 1 <= level <= 2 && num <= Capacity(level)
    ensures Left(num, 0, level) == num
    ensures DivRoundUp(num, Unit(level)) <= WORDS_PER_SECTOR
  {
  }

  lemma LeftStep(num: nat, i: Slot, level: nat)
    requires 1 <= level <= 2
    ensures Part(num, i, level) == Min(Left(num, i, level), Unit(level))
    ensures Left(num, i + 1, level) == Left(num, i, level) - Part(num, i, level)
  {
  }

  lemma LeftLast(num: nat, l: nat, level: nat)
    requires 1 <= level <= 2 && l == DivRoundUp(num, Unit(level))
    ensures Left(num, l, level) == 0
  {
  }

  lemma MissingBelow(n: nat, num: nat, i: Slot, level: nat)
    requires 1 <= level <= 2 && i < DivRoundUp(num, Unit(level)) && num <= Capacity(level) && n <= Capacity(level)
    ensures (if n == 0 then 1 else 0) + TotalBelow(Max(n, num), i, level) - TotalBelow(n, i, level)
            + Missing(Part(n, i, level), Part(num, i, level), level - 1)
            <= Missing(n, num, level)
    ensures n == 0 ==> 0 < Missing(n, num, level)
  {
    PartOfMax(n, num, i, level);
    TotalBelowStep(n, i, level);
    TotalBelowStep(Max(n, num), i, level);
    TotalBelowRest(n, num, DivRoundUp(num, Unit(level)), level);
  }

  lemma PartOfMax(n: nat, num: nat, i: Slot, level: nat)
    requires 1 <= level <= 2 && i < DivRoundUp(num, Unit(level)) && num <= Capacity(level) && n <= Capacity(level)
    ensures 0 < Part(num, i, level) <= Capacity(level - 1) && Part(n, i, level) <= Capacity(level - 1)
    ensures Part(Max(n, num), i, level) == Max(Part(n, i, level), Part(num, i, level))
  {
  }

  /** Only the first l entries have anything to gain when a tree is extended to num data sectors. */
  lemma TotalBelowRest(n: nat, num: nat, l: nat, level: nat)
    requires 1 <= level <= 2 && 0 < num <= Capacity(level) && n <= Capacity(level) && l == DivRoundUp(num, Unit(level))
    ensures l <= WORDS_PER_SECTOR
    ensures Total(Max(n, num), level) - Total(n, level)
            == TotalBelow(Max(n, num), l, level) - TotalBelow(n, l, level) + if n == 0 then 1 else 0
    ensures TotalBelow(Max(n, num), l, level) - TotalBelow(n, l, level)
            == TotalBelow(Max(n, num), WORDS_PER_SECTOR, level) - TotalBelow(n, WORDS_PER_SECTOR, level)
    ensures forall i :: 0 <= i <= l ==>
              TotalBelow(Max(n, num), i, level) - TotalBelow(n, i, level)
              <= TotalBelow(Max(n, num), l, level) - TotalBelow(n, l, level)
    ensures forall t: Slot :: l <= t ==> Part(n, t, level) == Part(Max(n, num), t, level)
  {
    hide Part;
    RestSame(n, num, l, level);
  }

  lemma RestSame(n: nat, num: nat, l: nat, level: nat)
    requires 1 <= level <= 2 && l == DivRoundUp(num, Unit(level))
    ensures forall t: Slot :: l <= t ==> Part(n, t, level) == Part(Max(n, num), t, level)
  {
  }

  /** An index tree on its way from n to m data sectors, with the first i entries of its topmost block
      (still in memory) done, compared with the state in which the extension started. */
  ghost predicate Extending(v0: seq<Sector>, own0: Owners, v: seq<Sector>, own: Owners,
                            block: Block, e: nat, p: Path, i: nat, n: nat, m: nat)
    requires Level(p) > 0
  {
    && OwnedBelow(v, own, block, p, i, n, m)
    && Sole(own, e, p)
    && Grown(v0, own0, v, own, p)
    && |own| == |own0| + (if n == 0 then 1 else 0) + TotalBelow(m, i, Level(p)) - TotalBelow(n, i, Level(p))
  }

  /** No sector was free for the topmost index sector. */
  ghost predicate Starved(v: seq<Sector>, own0: Owners, own: Owners, block: Block, p: Path, n: nat)
    requires Level(p) > 0
  {
    n == 0 && |own0| == |own| == |v| && forall t: Slot :: Owned(v, own, block[t], Child(p, t), 0)
  }

  lemma ExtendStep(v0: seq<Sector>, own0: Owners, v: seq<Sector>, own: Owners, v': seq<Sector>, own': Owners,
                   block: Block, e: nat, p: Path, i: Slot, n: nat, m: nat, child: U32)
    requires Level(p) > 0 && Extending(v0, own0, v, own, block, e, p, i, n, m)
    requires Grown(v, own, v', own', Child(p, i)) && Owned(v', own', child, Child(p, i), Part(m, i, Level(p)))
    requires |own'| == |own| + Total(Part(m, i, Level(p)), Level(p) - 1) - Total(Part(n, i, Level(p)), Level(p) - 1)
    ensures Extending(v0, own0, v', own', block[i := child], e, p, i + 1, n, m)
  {
    hide OwnedBelow, Owned, Total, TotalBelow, Part, Grown, Sole;
    ExtendEntry(v, own, v', own', block, child, p, i, n, m);
    BelowChild(p, i);
    hide Under, Child;
    GrownTransitive(v0, own0, v, own, v', own', p, Child(p, i));
    TotalBelowStep(n, i, Level(p));
    TotalBelowStep(m, i, Level(p));
    SoleKept(v, own, v', own', e, p, Child(p, i));
  }

  lemma BelowChild(p: Path, i: Slot)
    requires Level(p) > 0
    ensures !Under(p, Child(p, i)) && forall r :: Under(r, Child(p, i)) ==> Under(r, p)
  {
  }

  lemma SoleKept(v: seq<Sector>, own: Owners, v': seq<Sector>, own': Owners, e: nat, p: Path, q: Path)
    requires Grown(v, own, v', own', q) && Sole(own, e, p) && !Under(p, q)
    ensures Sole(own', e, p)
  {
  }

  /** Writing the finished block to its sector completes the extension. */
  lemma ExtendEnd(v0: seq<Sector>, own0: Owners, v: seq<Sector>, own: Owners, block: Block, e: nat, p: Path,
                  n: nat, num: nat)
    requires Level(p) > 0 && Extending(v0, own0, v, own, block, e, p, WORDS_PER_SECTOR, n, Max(n, num))
    requires 0 < num <= Capacity(Level(p)) && n <= Capacity(Level(p)) && e < |v|
    ensures Owned(v[e := Pack(block)], own, e, p, Max(n, num))
    ensures Grown(v0, own0, v[e := Pack(block)], own, p)
    ensures |own| == |own0| + Missing(n, num, Level(p))
  {
    TotalBelowRest(n, num, DivRoundUp(num, Unit(Level(p))), Level(p));
    PackRoundTrip(block);
    FinishIndex(v, own, Pack(block), e, p, WORDS_PER_SECTOR, n, Max(n, num));
    GrownTransitive(v0, own0, v, own, v[e := Pack(block)], own, p, p);
  }

  lemma ExtendRest(v0: seq<Sector>, own0: Owners, v: seq<Sector>, own: Owners,
                   block: Block, e: nat, p: Path, l: nat, n: nat, num: nat)
    requires Level(p) > 0 && Extending(v0, own0, v, own, block, e, p, l, n, Max(n, num))
    requires 0 < num <= Capacity(Level(p)) && n <= Capacity(Level(p)) && l == DivRoundUp(num, Unit(Level(p)))
    ensures Extending(v0, own0, v, own, block, e, p, WORDS_PER_SECTOR, n, Max(n, num))
    ensures |own| == |own0| + Missing(n, num, Level(p))
  {
    TotalBelowRest(n, num, l, Level(p));
  }

  // --------------------------------------------------------------------------
  // The inode's own 125 entries

  function SetEntry(d: InodeDisk, k: RootSlot, e: U32): (d': InodeDisk)
    requires WellFormed(d)
    ensures WellFormed(d')
  {
    if k == DOUBLY_INDIRECT then d.(doublyIndirect := e)
    else if k == INDIRECT then d.(indirect := e)
    else d.(direct := d.direct[k := e])
  }

  /** The sectors below the first k entries of an inode with n data sectors. */
  function RootsBelow(n: nat, k: nat): nat {
    Min(n, Min(k, DIRECT_BLOCKS_COUNT))
    + (if k > INDIRECT then Total(RootPart(n, INDIRECT), 1) else 0)
    + (if k > DOUBLY_INDIRECT then Total(RootPart(n, DOUBLY_INDIRECT), 2) else 0)
  }

  /** All the sectors, data and index, of a file with n data sectors. */
  function FileTotal(n: nat): nat {
    n + (if n > DIRECT_BLOCKS_COUNT then 1 else 0)
    + (if n > INDIRECT_END then 1 + DivRoundUp(n - INDIRECT_END, WORDS_PER_SECTOR) else 0)
  }

  /** The entries that reserving or deallocating n data sectors visits. */
  function VisitedRoots(n: nat): nat {
    if n <= DIRECT_BLOCKS_COUNT then n else if n <= INDIRECT_END then DOUBLY_INDIRECT else ROOT_ENTRIES
  }

  lemma RootsBelowAll(n: nat)
    requires n <= MAX_SECTORS
    ensures RootsBelow(n, ROOT_ENTRIES) == FileTotal(n)
  {
  }

  lemma RootsBelowStep(n: nat, k: RootSlot)
    ensures RootsBelow(n, k + 1) == RootsBelow(n, k) + Total(RootPart(n, k), RootLevel(k))
  {
  }

  /** A file's tree on its way from n to m data sectors, with the inode's first k entries done. */
  ghost predicate Reserving(v0: seq<Sector>, own0: Owners, v: seq<Sector>, own: Owners,
                            d: InodeDisk, x: nat, k: nat, n: nat, m: nat)
  {
    && WellFormed(d)
    && OwnedByRoot(v, own, d, x, k, n, m)
    && Grown(v0, own0, v, own, File(x))
    && |own| == |own0| + RootsBelow(m, k) - RootsBelow(n, k)
  }

  lemma ReservingStart(v: seq<Sector>, own: Owners, d: InodeDisk, x: nat, n: nat, m: nat)
    requires FileTree(v, own, d, x, n)
    ensures Reserving(v, own, v, own, d, x, 0, n, m)
  {
  }

  lemma ReservingStep(v0: seq<Sector>, own0: Owners, v: seq<Sector>, own: Owners, v': seq<Sector>, own': Owners,
                      d: InodeDisk, x: nat, k: RootSlot, n: nat, num: nat, e: U32)
    requires Reserving(v0, own0, v, own, d, x, k, n, Max(n, num))
    requires n <= MAX_SECTORS && num <= MAX_SECTORS
    requires Grown(v, own, v', own', Root(x, k))
    requires Owned(v', own', e, Root(x, k), Max(RootPart(n, k), RootPart(num, k)))
    requires |own'| == |own| + Missing(RootPart(n, k), RootPart(num, k), RootLevel(k))
    ensures Reserving(v0, own0, v', own', SetEntry(d, k, e), x, k + 1, n, Max(n, num))
  {
    hide OwnedByRoot, Owned, Grown, RootsBelow, Total;
    var m := Max(n, num);
    assert RootPart(m, k) == Max(RootPart(n, k), RootPart(num, k));
    GrownTransitive(v0, own0, v, own, v', own', File(x), Root(x, k));
    RootsBelowStep(n, k);
    RootsBelowStep(m, k);
    ReservingEntry(v, own, v', own', d, x, k, n, m, e);
  }

  lemma ReservingEntry(v: seq<Sector>, own: Owners, v': seq<Sector>, own': Owners,
                       d: InodeDisk, x: nat, k: RootSlot, n: nat, m: nat, e: U32)
    requires WellFormed(d) && OwnedByRoot(v, own, d, x, k, n, m)
    requires Grown(v, own, v', own', Root(x, k)) && Owned(v', own', e, Root(x, k), RootPart(m, k))
    ensures OwnedByRoot(v', own', SetEntry(d, k, e), x, k + 1, n, m)
  {
    hide Owned, Grown, RootPart;
    forall t: RootSlot
      ensures Owned(v', own', EntryOf(SetEntry(d, k, e), t), Root(x, t), RootPart(if t < k + 1 then m else n, t))
    {
      if t != k {
        GrownBeside(v, own, v', own', Root(x, k), EntryOf(d, t), Root(x, t), RootPart(if t < k then m else n, t));
      }
    }
  }

  /** Entries from k on that have nothing to gain need not be visited. */
  lemma ReservingRest(v0: seq<Sector>, own0: Owners, v: seq<Sector>, own: Owners,
                      d: InodeDisk, x: nat, k: nat, n: nat, num: nat)
    requires Reserving(v0, own0, v, own, d, x, k, n, Max(n, num))
    requires n <= MAX_SECTORS && num <= MAX_SECTORS
    requires k == VisitedRoots(num)
    ensures FileTree(v, own, d, x, Max(n, num)) && Grown(v0, own0, v, own, File(x))
    ensures |own| == |own0| + FileTotal(Max(n, num)) - FileTotal(n)
  {
    var m := Max(n, num);
    RootsBelowAll(n);
    RootsBelowAll(m);
    assert forall t: RootSlot :: k <= t ==> RootPart(n, t) == RootPart(m, t);
    RootsBelowRest(n, num, k);
  }

  lemma RootsBelowRest(n: nat, num: nat, k: nat)
    requires n <= MAX_SECTORS && num <= MAX_SECTORS
    requires k == VisitedRoots(num)
    ensures RootsBelow(Max(n, num), ROOT_ENTRIES) - RootsBelow(n, ROOT_ENTRIES)
            == RootsBelow(Max(n, num), k) - RootsBelow(n, k)
  {
  }

  /** If the k-th entry cannot be extended for want of sectors, neither can the file. */
  lemma FileMissing(n: nat, num: nat, k: RootSlot)
    requires n <= MAX_SECTORS && num <= MAX_SECTORS
    ensures RootsBelow(Max(n, num), k) - RootsBelow(n, k) + Missing(RootPart(n, k), RootPart(num, k), RootLevel(k))
            <= FileTotal(Max(n, num)) - FileTotal(n)
  {
    var m := Max(n, num);
    assert RootPart(m, k) == Max(RootPart(n, k), RootPart(num, k));
    RootsBelowStep(n, k);
    RootsBelowStep(m, k);
    RootsBelowAll(n);
    RootsBelowAll(m);
    RootsMonotone(n, m, k + 1);
  }

  lemma RootsMonotone(n: nat, m: nat, k: nat)
    requires n <= m <= MAX_SECTORS && k <= ROOT_ENTRIES
    ensures RootsBelow(m, k) - RootsBelow(n, k) <= RootsBelow(m, ROOT_ENTRIES) - RootsBelow(n, ROOT_ENTRIES)
  {
  }

  // --------------------------------------------------------------------------
  // Giving a tree up

  /** Exactly what was under p has been given up. */
  ghost predicate Pruned(own: Owners, own': Owners, p: Path) {
    && (forall s :: s in own' ==> s in own && own'[s] == own[s] && !Under(own[s], p))
    && (forall s :: s in own && !Under(own[s], p) ==> s in own')
  }

  /** Which entry of the index sector at p a place below it belongs to. */
  function SlotBelow(q: Path, p: Path): Slot {
    if p.Root? && (q.Mid? || q.Leaf?) then q.i else if p.Mid? && q.Leaf? then q.j else 0
  }

  predicate FreedSlot(q: Path, p: Path, i: nat) {
    Under(q, p) && q != p && SlotBelow(q, p) < i
  }

  /** What was below the first i entries of the index sector at p has been given up; the rest of its n
      data sectors are still there. */
  ghost predicate Pruning(v: seq<Sector>, own0: Owners, own: Owners, block: Block, e: nat, p: Path, i: nat, n: nat)
    requires Level(p) > 0
  {
    && Sole(own, e, p)
    && (forall s :: s in own ==> s in own0 && own[s] == own0[s] && !FreedSlot(own0[s], p, i))
    && (forall s :: s in own0 && !FreedSlot(own0[s], p, i) ==> s in own)
    && (forall t: Slot :: i <= t ==> Owned(v, own, block[t], Child(p, t), Part(n, t, Level(p))))
    && |own| == |own0| - TotalBelow(n, i, Level(p))
  }

  lemma PruningStart(v: seq<Sector>, own: Owners, e: nat, p: Path, n: nat)
    requires Level(p) > 0 && n > 0 && Owned(v, own, e, p, n)
    ensures Pruning(v, own, own, Unpack(v[e]), e, p, 0, n)
  {
  }

  lemma PruningEntry(v: seq<Sector>, own0: Owners, own: Owners, block: Block, e: nat, p: Path, i: Slot, n: nat)
    requires Level(p) > 0 && Pruning(v, own0, own, block, e, p, i, n)
    ensures Owned(v, own, block[i], Child(p, i), Part(n, i, Level(p)))
  {
  }

  lemma PruningHead(v: seq<Sector>, own0: Owners, own: Owners, block: Block, e: nat, p: Path, i: nat, n: nat)
    requires Level(p) > 0 && Pruning(v, own0, own, block, e, p, i, n)
    ensures e in own
  {
  }

  lemma PruningStep(v: seq<Sector>, own0: Owners, own: Owners, own': Owners, block: Block, e: nat, p: Path,
                    i: Slot, n: nat)
    requires Level(p) > 0 && Pruning(v, own0, own, block, e, p, i, n)
    requires Pruned(own, own', Child(p, i)) && |own'| == |own| - Total(Part(n, i, Level(p)), Level(p) - 1)
    ensures Pruning(v, own0, own', block, e, p, i + 1, n)
  {
    hide Owned, Part, Total, TotalBelow;
    TotalBelowStep(n, i, Level(p));
    forall t: Slot | i + 1 <= t ensures Owned(v, own', block[t], Child(p, t), Part(n, t, Level(p))) {
      OwnedFrame(v, own, v, own', block[t], Child(p, t), Part(n, t, Level(p)));
    }
  }

  /** Once its entries are given up, giving up the index sector itself completes the pruning. */
  lemma PruningEnd(v: seq<Sector>, own0: Owners, own: Owners, block: Block, e: nat, p: Path, l: nat, n: nat)
    requires Level(p) > 0 && Pruning(v, own0, own, block, e, p, l, n)
    requires 0 < n <= Capacity(Level(p)) && l == DivRoundUp(n, Unit(Level(p)))
    ensures Pruned(own0, own - {e}, p)
    ensures |own - {e}| == |own0| - Total(n, Level(p))
  {
    forall t: Slot | l <= t ensures forall s :: s in own ==> !Under(own[s], Child(p, t)) {
      assert Part(n, t, Level(p)) == 0;
    }
    assert forall s :: s in own && Under(own[s], p) && own[s] != p ==> Under(own[s], Child(p, SlotBelow(own[s], p)));
    assert |(own - {e}).Keys| == |own.Keys - {e}|;
    assert Under(p, p);
  }

  /** A data sector is all there is under its place. */
  lemma PrunedData(v: seq<Sector>, own: Owners, e: nat, p: Path)
    requires Level(p) == 0 && Owned(v, own, e, p, 1)
    ensures Pruned(own, own - {e}, p)
    ensures |own - {e}| == |own| - Total(1, 0)
  {
    assert |(own - {e}).Keys| == |own.Keys - {e}|;
    assert Under(p, p);
  }

  lemma OwnedEntry(v: seq<Sector>, own: Owners, e: nat, p: Path, n: nat)
    requires n > 0 && Owned(v, own, e, p, n)
    ensures e in own && own[e] == p && e < |v|
  {
  }

  /** What was below the first k entries of inode x has been given up; the rest is still there. */
  ghost predicate Freeing(v: seq<Sector>, own0: Owners, own: Owners, d: InodeDisk, x: nat, k: nat, n: nat)
    requires WellFormed(d)
  {
    && (forall s :: s in own ==> s in own0 && own[s] == own0[s] && !FreedRoot(own0[s], x, k))
    && (forall s :: s in own0 && !FreedRoot(own0[s], x, k) ==> s in own)
    && (forall t: RootSlot :: k <= t ==> Owned(v, own, EntryOf(d, t), Root(x, t), RootPart(n, t)))
    && |own| == |own0| - RootsBelow(n, k)
  }

  predicate FreedRoot(q: Path, x: nat, k: nat) {
    !q.Home? && !q.File? && q.inode == x && q.k < k
  }

  lemma FreeingStart(v: seq<Sector>, own: Owners, d: InodeDisk, x: nat, n: nat)
    requires FileTree(v, own, d, x, n)
    ensures Freeing(v, own, own, d, x, 0, n)
  {
  }

  lemma FreeingStep(v: seq<Sector>, own0: Owners, own: Owners, own': Owners, d: InodeDisk, x: nat, k: RootSlot, n: nat)
    requires WellFormed(d) && Freeing(v, own0, own, d, x, k, n)
    requires Pruned(own, own', Root(x, k)) && |own'| == |own| - Total(RootPart(n, k), RootLevel(k))
    ensures Freeing(v, own0, own', d, x, k + 1, n)
  {
    hide Owned, RootPart, Total, RootsBelow;
    RootsBelowStep(n, k);
    forall t: RootSlot | k + 1 <= t ensures Owned(v, own', EntryOf(d, t), Root(x, t), RootPart(n, t)) {
      OwnedFrame(v, own, v, own', EntryOf(d, t), Root(x, t), RootPart(n, t));
    }
  }

  lemma FreeingEnd(v: seq<Sector>, own0: Owners, own: Owners, d: InodeDisk, x: nat, k: nat, n: nat)
    requires WellFormed(d) && Freeing(v, own0, own, d, x, k, n)
    requires n <= MAX_SECTORS && k == VisitedRoots(n)
    requires forall s :: s in own0 ==> !own0[s].File?
    ensures Pruned(own0, own, File(x))
    ensures |own| == |own0| - FileTotal(n)
  {
    RootsBelowAll(n);
    RootsBelowRest(0, n, k);
    forall t: RootSlot | k <= t ensures forall s :: s in own ==> !Under(own[s], Root(x, t)) {
      assert RootPart(n, t) == 0;
    }
    assert forall s :: s in own && Under(own[s], File(x)) ==> Under(own[s], Root(x, own[s].k));
  }
}
