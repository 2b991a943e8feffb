/** How memory is divided into blocks: arenas of equal blocks, one page each, and big blocks of whole pages,
    all with a header in front. Addresses count from the base of the page pool. */
module Arenas {
  import opened Basics
  import opened Bitmaps
  import opened Pages

  const ARENA_SIZE := 12
  const DESC_CNT := 7

  /** An arena's header: the descriptor it belongs to and its free blocks, or the pages of a big block. */
  datatype Arena = Small(desc: nat, freeCnt: nat) | Big(pageCnt: nat)

  /** All that malloc keeps track of, and the blocks that are in use. */
  datatype Heap = Heap(arenas: map<nat, Arena>, lists: seq<seq<nat>>, live: set<nat>)

  // --------------------------------------------------------------------------
  // Addresses

  /** The block size of a descriptor. */
  function Size(d: nat): (n: nat)
    ensures n >= 16
  {
    if d == 0 then 16 else 2 * Size(d - 1)
  }

  /** The blocks of an arena of a descriptor. */
  function Count(d: nat): nat {
    Fitting(PGSIZE - ARENA_SIZE, Size(d))
  }

  /** How many pieces of a size fit into a space. */
  function Fitting(space: nat, size: nat): nat
    requires size > 0
  {
    space / size
  }

  function Address(page: nat, d: nat, i: nat): nat {
    page * PGSIZE + ARENA_SIZE + i * Size(d)
  }

  function BigAddress(page: nat): nat {
    page * PGSIZE + ARENA_SIZE
  }

  function PageOf(a: nat): nat {
    a / PGSIZE
  }

  function PagesOf(arena: Arena): nat {
    if arena.Small? then 1 else arena.pageCnt
  }

  /** The bytes of a block in an arena. */
  function Capacity(arena: Arena): int {
    if arena.Small? then Size(arena.desc) else PGSIZE * arena.pageCnt - ARENA_SIZE
  }

  ghost predicate IsBlock(arena: Arena, a: nat) {
    if arena.Small? then exists i: nat :: i < Count(arena.desc) && a == Address(PageOf(a), arena.desc, i)
    else a == BigAddress(PageOf(a))
  }

  lemma Sizes(d: nat)
    requires d < DESC_CNT
    ensures 16 <= Size(d) <= 1024 && Count(d) >= 3 && Count(d) * Size(d) <= PGSIZE - ARENA_SIZE
  {
    assert Size(2) == 64;
    assert Size(4) == 256;
    assert Size(6) == 1024;
  }

  /** An arena has as many blocks as its page has room for. */
  lemma BlocksFill(d: nat)
    requires d < DESC_CNT
    ensures Count(d) * Size(d) <= PGSIZE - ARENA_SIZE < (Count(d) + 1) * Size(d)
    ensures (d == 0 ==> Size(d) == 16 && Count(d) == 255) && (d == DESC_CNT - 1 ==> Size(d) == 1024 && Count(d) == 3)
    ensures d > 0 ==> Size(d) == 2 * Size(d - 1)
  {
    Sizes(d);
    Sizes(DESC_CNT - 1);
    assert Size(2) == 64;
    assert Size(4) == 256;
  }

  lemma BlockInside(page: nat, d: nat, i: nat)
    requires d < DESC_CNT && i < Count(d)
    ensures PageOf(Address(page, d, i)) == page
    ensures BigAddress(page) <= Address(page, d, i)
    ensures Address(page, d, i) + Size(d) <= (page + 1) * PGSIZE
  {
    hide Size, Count;
    Sizes(d);
    MulSteps(i, Count(d), Size(d));
  }

  lemma MulSteps(i: nat, n: nat, size: nat)
    requires i < n
    ensures 0 <= i * size && i * size + size <= n * size
  {
    assert n * size == (i + 1) * size + (n - i - 1) * size;
  }

  lemma BlocksApart(page: nat, d: nat, i: nat, j: nat)
    requires i < j
    ensures Address(page, d, i) + Size(d) <= Address(page, d, j)
  {
    hide Size;
    MulSteps(i, j, Size(d));
  }

  lemma BigInside(page: nat)
    ensures PageOf(BigAddress(page)) == page
  {
  }

  // --------------------------------------------------------------------------
  // A sound heap

  ghost function FreeOn(list: seq<nat>, page: nat): set<nat> {
    set a | a in list && PageOf(a) == page
  }

  /** Every block of a small arena is in use or free, and its header counts the free ones; not all are free,
      unless the arena is spare, about to be used or given back. */
  ghost predicate ArenaOk(h: Heap, page: nat, spare: set<nat>)
    requires |h.lists| == DESC_CNT && page in h.arenas
  {
    match h.arenas[page]
    case Big(n) => n > 0 && BigAddress(page) in h.live
    case Small(d, c) =>
      && d < DESC_CNT && c == |FreeOn(h.lists[d], page)| <= Count(d)
      && (page !in spare ==> c < Count(d))
      && forall i: nat :: i < Count(d) ==> (Address(page, d, i) in h.live) != (Address(page, d, i) in h.lists[d])
  }

  ghost predicate ArenasOk(h: Heap, spare: set<nat>) {
    |h.lists| == DESC_CNT && forall page :: page in h.arenas ==> ArenaOk(h, page, spare)
  }

  ghost predicate LiveOk(h: Heap) {
    forall a :: a in h.live ==> PageOf(a) in h.arenas && IsBlock(h.arenas[PageOf(a)], a)
  }

  ghost predicate ListOk(arenas: map<nat, Arena>, list: seq<nat>, d: nat) {
    && Distinct(list)
    && forall a :: a in list ==>
         PageOf(a) in arenas && arenas[PageOf(a)].Small? && arenas[PageOf(a)].desc == d && IsBlock(arenas[PageOf(a)], a)
  }

  ghost predicate ListsOk(h: Heap) {
    |h.lists| == DESC_CNT && forall d :: 0 <= d < DESC_CNT ==> ListOk(h.arenas, h.lists[d], d)
  }

  /** Arenas take pages in use, and no page twice. */
  ghost predicate PagesOk(arenas: map<nat, Arena>, used: seq<bool>) {
    && (forall p :: p in arenas ==> PagesOf(arenas[p]) > 0 && Run(used, p, PagesOf(arenas[p]), true))
    && forall p, q :: p in arenas && q in arenas && p < q ==> p + PagesOf(arenas[p]) <= q
  }

  ghost predicate Sound(h: Heap, used: seq<bool>, spare: set<nat>) {
    ArenasOk(h, spare) && LiveOk(h) && ListsOk(h) && PagesOk(h.arenas, used)
  }

  // --------------------------------------------------------------------------
  // What soundness means for blocks in use

  /** A block in use lies inside its arena's pages, after the header. */
  lemma LiveInside(h: Heap, used: seq<bool>, spare: set<nat>, a: nat)
    requires Sound(h, used, spare) && a in h.live
    ensures var page := PageOf(a);
            && page in h.arenas && BigAddress(page) <= a
            && a + Capacity(h.arenas[page]) <= (page + PagesOf(h.arenas[page])) * PGSIZE <= |used| * PGSIZE
  {
    hide Size, Count, Address, PageOf, FreeOn;
    var page := PageOf(a);
    assert ArenaOk(h, page, spare);
    if h.arenas[page].Small? {
      var d := h.arenas[page].desc;
      var i: nat :| i < Count(d) && a == Address(page, d, i);
      BlockInside(page, d, i);
    }
  }

  /** The arena found below a block in use has the block where its descriptor says. */
  lemma LiveAligned(h: Heap, used: seq<bool>, spare: set<nat>, a: nat)
    requires Sound(h, used, spare) && a in h.live
    ensures PageOf(a) in h.arenas && a % PGSIZE >= ARENA_SIZE
    ensures h.arenas[PageOf(a)].Big? ==> a % PGSIZE == ARENA_SIZE
    ensures h.arenas[PageOf(a)].Small? ==> (a % PGSIZE - ARENA_SIZE) % Size(h.arenas[PageOf(a)].desc) == 0
  {
    hide Size, Count, FreeOn;
    var page := PageOf(a);
    assert ArenaOk(h, page, spare);
    if h.arenas[page].Small? {
      var d := h.arenas[page].desc;
      var i: nat :| i < Count(d) && a == Address(page, d, i);
      BlockInside(page, d, i);
      assert a % PGSIZE == ARENA_SIZE + i * Size(d);
      MultipleOfSize(i, d);
    }
  }

  lemma MultipleOfSize(i: nat, d: nat)
    ensures (i * Size(d)) % Size(d) == 0
  {
    hide Size;
    var n, x := Size(d), i * Size(d);
    NoRemainder(i - x / n, x % n, n) by {
      Distribute(i, x / n, n);
    }
  }

  lemma Distribute(i: int, q: int, n: nat)
    requires n > 0
    ensures (i - q) * n == i * n - q * n && i * n / n * n + i * n % n == i * n
  {
  }

  lemma NoRemainder(k: int, r: nat, n: nat)
    requires k * n == r < n
    ensures r == 0
  {
    if k > 0 {
      MulSteps(0, k, n);
    } else if k < 0 {
      MulSteps(0, -k, n);
    }
  }

  /** Blocks in use do not overlap. */
  lemma LiveApart(h: Heap, used: seq<bool>, spare: set<nat>, a: nat, b: nat)
    requires Sound(h, used, spare) && a in h.live && b in h.live && a < b
    ensures PageOf(a) in h.arenas && PageOf(b) in h.arenas
    ensures a + Capacity(h.arenas[PageOf(a)]) <= b
  {
    hide Size, Count, Address, PageOf, FreeOn, Capacity, PagesOf, Run;
    LiveInside(h, used, spare, a);
    LiveInside(h, used, spare, b);
    var p: nat, q: nat := PageOf(a), PageOf(b);
    PageOrder(a, b);
    if p < q {
      PagesBefore(p + PagesOf(h.arenas[p]), q);
    } else if h.arenas[p].Small? {
      assert ArenaOk(h, p, spare);
      var d := h.arenas[p].desc;
      var i: nat :| i < Count(d) && a == Address(p, d, i);
      var j: nat :| j < Count(d) && b == Address(p, d, j);
      if i < j {
        BlocksApart(p, d, i, j);
        assert Capacity(h.arenas[p]) == Size(d) by { SmallCapacity(h.arenas[p]); }
      } else if j < i {
        BlocksApart(p, d, j, i);
      }
    }
  }

  lemma SmallCapacity(arena: Arena)
    requires arena.Small?
    ensures Capacity(arena) == Size(arena.desc)
  {
  }

  lemma PageOrder(a: nat, b: nat)
    requires a < b
    ensures PageOf(a) <= PageOf(b)
  {
  }

  lemma PagesBefore(p: nat, q: nat)
    requires p <= q
    ensures p * PGSIZE <= BigAddress(q)
  {
  }

  /** Each block of an arena is in use, or on the free list of its descriptor, exactly once and on no other. */
  lemma BlockOnce(h: Heap, used: seq<bool>, page: nat, i: nat)
    requires Sound(h, used, {}) && page in h.arenas && h.arenas[page].Small? && i < Count(h.arenas[page].desc)
    ensures var d, a := h.arenas[page].desc, Address(page, h.arenas[page].desc, i);
            && d < |h.lists|
            && (a in h.live <==> multiset(h.lists[d])[a] == 0)
            && (a !in h.live <==> multiset(h.lists[d])[a] == 1)
            && forall e :: 0 <= e < |h.lists| && e != d ==> a !in h.lists[e]
  {
    hide Size, Count, Address, PageOf, FreeOn, Run, PagesOf;
    assert ArenaOk(h, page, {});
    var d := h.arenas[page].desc;
    BlockInside(page, d, i);
    assert ListOk(h.arenas, h.lists[d], d);
    DistinctOnce(h.lists[d], Address(page, d, i));
    assert forall e :: 0 <= e < |h.lists| && e != d ==> ListOk(h.arenas, h.lists[e], e);
  }

  lemma {:induction false} DistinctOnce(list: seq<nat>, a: nat)
    requires Distinct(list)
    ensures multiset(list)[a] == if a in list then 1 else 0
  {
    if list != [] {
      assert list == [list[0]] + list[1..];
      DistinctOnce(list[1..], a);
    }
  }

  /** With no block in use there is no arena: every page has gone back to the page allocator. */
  lemma NothingKept(h: Heap, used: seq<bool>)
    requires Sound(h, used, {}) && h.live == {}
    ensures h.arenas == map[] && forall d :: 0 <= d < |h.lists| ==> h.lists[d] == []
  {
    hide Size, Count, Address, PageOf, Run, PagesOf;
    forall page | page in h.arenas
      ensures exists a :: a in h.live
    {
      SomeLive(h, page);
    }
    forall d | 0 <= d < |h.lists|
      ensures h.lists[d] == []
    {
      assert ListOk(h.arenas, h.lists[d], d);
      HeadIn(h.lists[d]);
    }
  }

  lemma HeadIn(list: seq<nat>)
    ensures list == [] || list[0] in list
  {
  }

  ghost function BlockSet(page: nat, d: nat, n: nat): set<nat> {
    set i: nat | i < n :: Address(page, d, i)
  }

  lemma {:induction false} BlockSetSize(page: nat, d: nat, n: nat)
    ensures |BlockSet(page, d, n)| == n
  {
    hide Address;
    if n > 0 {
      BlockSetSize(page, d, n - 1);
      forall i: nat | i < n - 1
        ensures Address(page, d, i) != Address(page, d, n - 1)
      {
        BlocksApart(page, d, i, n - 1);
      }
      assert BlockSet(page, d, n) == BlockSet(page, d, n - 1) + {Address(page, d, n - 1)};
    } else {
      assert BlockSet(page, d, n) == {};
    }
  }

  /** Every arena has a block in use. */
  lemma SomeLive(h: Heap, page: nat)
    requires ArenasOk(h, {}) && page in h.arenas
    ensures exists a :: a in h.live && PageOf(a) == page
  {
    hide Size, Count, Address, PageOf;
    assert ArenaOk(h, page, {});
    if h.arenas[page].Big? {
      BigInside(page);
    } else {
      var d := h.arenas[page].desc;
      var free := FreeOn(h.lists[d], page);
      BlockSetSize(page, d, Count(d));
      if BlockSet(page, d, Count(d)) <= free {
        CardinalityMonotone(BlockSet(page, d, Count(d)), free);
        assert false;
      }
      var i: nat :| i < Count(d) && Address(page, d, i) !in free;
      BlockInside(page, d, i);
    }
  }

  lemma {:induction false} CardinalityMonotone(s: set<nat>, t: set<nat>)
    requires s <= t
    ensures |s| <= |t|
    ensures |s| == |t| ==> s == t
  {
    assert |t| == |s| + |t - s| by { assert t == s + (t - s); }
  }

  // --------------------------------------------------------------------------
  // Steps

  function Blocks(page: nat, d: nat, n: nat): seq<nat> {
    seq(n, i requires 0 <= i < n => Address(page, d, i))
  }

  /** A heap with a new arena, all of its blocks free. */
  function WithArena(h: Heap, page: nat, d: nat): Heap
    requires d < |h.lists|
  {
    Heap(h.arenas[page := Small(d, Count(d))], h.lists[d := h.lists[d] + Blocks(page, d, Count(d))], h.live)
  }

  /** Two heaps that differ in one page and in the free list of one descriptor. */
  ghost predicate DifferAt(h: Heap, g: Heap, page: nat, d: nat) {
    && |h.lists| == |g.lists| == DESC_CNT && d < DESC_CNT
    && (forall p :: p != page ==> (p in g.arenas <==> p in h.arenas) && (p in h.arenas ==> g.arenas[p] == h.arenas[p]))
    && (forall e :: 0 <= e < DESC_CNT && e != d ==> g.lists[e] == h.lists[e])
    && (page in h.arenas ==> h.arenas[page].Small? ==> h.arenas[page].desc == d)
    && forall a :: PageOf(a) != page ==> (a in g.live <==> a in h.live) && (a in g.lists[d] <==> a in h.lists[d])
  }

  /** A heap that differs from a sound one in one page is sound if that page is. */
  lemma OnePageChanged(h: Heap, g: Heap, used: seq<bool>, used': seq<bool>, spare: set<nat>, spare': set<nat>,
                       page: nat, d: nat)
    requires Sound(h, used, spare) && DifferAt(h, g, page, d)
    requires forall p :: p in spare ==> p == page
    requires page in g.arenas ==> ArenaOk(g, page, spare')
    requires ListOk(g.arenas, g.lists[d], d) && LiveOk(g) && PagesOk(g.arenas, used')
    ensures Sound(g, used', spare')
  {
    hide Size, Count, Address, PageOf, IsBlock, PagesOf;
    forall p | p in g.arenas && p != page
      ensures ArenaOk(g, p, spare')
    {
      assert ArenaOk(h, p, spare);
      ArenaUnchanged(h, g, p, spare, spare');
    }
    forall e | 0 <= e < DESC_CNT && e != d
      ensures ListOk(g.arenas, g.lists[e], e)
    {
      assert ListOk(h.arenas, h.lists[e], e);
    }
  }

  lemma AddArena(h: Heap, used: seq<bool>, used': seq<bool>, page: nat, d: nat)
    requires Sound(h, used, {}) && d < DESC_CNT
    requires page < |used| && !used[page] && used' == used[page := true]
    ensures Sound(WithArena(h, page, d), used', {page})
  {
    hide Count, ArenaOk, ListOk, LiveOk, DifferAt;
    assert page !in h.arenas by { FreePageUnowned(h.arenas, used, page); }
    AddPages(h.arenas, used, used', page, Small(d, Count(d)));
    NewArenaOk(h, page, d);
    NewArenaListed(h, page, d);
    OnePageChanged(h, WithArena(h, page, d), used, used', {}, {page}, page, d);
  }

  lemma FreePageUnowned(arenas: map<nat, Arena>, used: seq<bool>, page: nat)
    requires PagesOk(arenas, used) && page < |used| && !used[page]
    ensures page !in arenas
  {
  }

  lemma NewArenaListed(h: Heap, page: nat, d: nat)
    requires ListsOk(h) && LiveOk(h) && d < DESC_CNT && page !in h.arenas
    ensures var g := WithArena(h, page, d);
            DifferAt(h, g, page, d) && LiveOk(g) && ListOk(g.arenas, g.lists[d], d)
  {
    hide Size, Count, Address, PageOf, Blocks, Distinct, BlockSet, IsBlock;
    NewBlocks(page, d);
    assert ListOk(h.arenas, h.lists[d], d);
    ListsJoined(h.lists[d], Blocks(page, d, Count(d)));
    IsBlockOf(d);
  }

  lemma IsBlockOf(d: nat)
    ensures forall c, c', a :: IsBlock(Small(d, c), a) == IsBlock(Small(d, c'), a)
  {
  }

  lemma ListsJoined(list: seq<nat>, blocks: seq<nat>)
    requires Distinct(list) && Distinct(blocks) && forall a :: a in blocks ==> a !in list
    ensures Distinct(list + blocks) && forall a :: a in list + blocks <==> a in list || a in blocks
  {
    forall i, j | 0 <= i < |list| && 0 <= j < |blocks|
      ensures list[i] != blocks[j]
    {
      assert blocks[j] in blocks;
    }
  }

  lemma NewArenaOk(h: Heap, page: nat, d: nat)
    requires ListsOk(h) && LiveOk(h) && d < DESC_CNT && page !in h.arenas
    ensures ArenaOk(WithArena(h, page, d), page, {page})
  {
    hide Size, Count, Address, PageOf, Blocks, IsBlock;
    var list, blocks := h.lists[d], Blocks(page, d, Count(d));
    assert ListOk(h.arenas, list, d);
    NewBlocks(page, d);
    assert FreeOn(list + blocks, page) == BlockSet(page, d, Count(d));
    BlockSetSize(page, d, Count(d));
    forall i: nat | i < Count(d)
      ensures Address(page, d, i) in list + blocks && Address(page, d, i) !in h.live
    {
      BlockInside(page, d, i);
      assert Address(page, d, i) in BlockSet(page, d, Count(d));
    }
  }

  /** The blocks of a page, each once and in order. */
  lemma NewBlocks(page: nat, d: nat)
    requires d < DESC_CNT
    ensures var blocks := Blocks(page, d, Count(d));
            && Distinct(blocks)
            && (forall a :: a in blocks <==> a in BlockSet(page, d, Count(d)))
            && (forall a :: a in blocks ==> PageOf(a) == page && IsBlock(Small(d, Count(d)), a))
  {
    hide Size, Count, Address, PageOf;
    var n := Count(d);
    forall i: nat, j: nat | i < j < n
      ensures Address(page, d, i) != Address(page, d, j)
    {
      BlocksApart(page, d, i, j);
    }
    forall i: nat | i < n
      ensures PageOf(Address(page, d, i)) == page
    {
      BlockInside(page, d, i);
    }
    assert forall i: nat :: i < n ==> Blocks(page, d, n)[i] == Address(page, d, i);
  }

  /** An arena is as sound as before if its header, its free blocks and its blocks in use are the same. */
  lemma ArenaUnchanged(h: Heap, g: Heap, page: nat, spare: set<nat>, spare': set<nat>)
    requires |h.lists| == |g.lists| == DESC_CNT && page in h.arenas && page in g.arenas
    requires ArenaOk(h, page, spare) && h.arenas[page] == g.arenas[page] && page !in spare
    requires forall a :: PageOf(a) == page ==> (a in h.live <==> a in g.live)
    requires h.arenas[page].Small? ==>
               forall a :: PageOf(a) == page ==>
                 (a in g.lists[h.arenas[page].desc] <==> a in h.lists[h.arenas[page].desc])
    ensures ArenaOk(g, page, spare')
  {
    hide Size, Count, Address, PageOf;
    BigInside(page);
    if h.arenas[page].Small? {
      var d := h.arenas[page].desc;
      assert FreeOn(g.lists[d], page) == FreeOn(h.lists[d], page);
      forall i: nat | i < Count(d)
        ensures (Address(page, d, i) in g.live) != (Address(page, d, i) in g.lists[d])
      {
        BlockInside(page, d, i);
      }
    }
  }

  /** A heap with the first free block of a descriptor in use. */
  function Taken(h: Heap, d: nat): Heap
    requires d < |h.lists| && h.lists[d] != []
  {
    var a := h.lists[d][0];
    var page := PageOf(a);
    var arena := if page in h.arenas then h.arenas[page] else Big(0);
    var freeCnt := if arena.Small? && arena.freeCnt > 0 then arena.freeCnt - 1 else 0;
    Heap(h.arenas[page := Small(d, freeCnt)], h.lists[d := h.lists[d][1..]], h.live + {a})
  }

  lemma TakeBlock(h: Heap, used: seq<bool>, spare: set<nat>, d: nat)
    requires Sound(h, used, spare) && d < DESC_CNT && h.lists[d] != []
    requires forall p :: p in spare ==> p == PageOf(h.lists[d][0])
    ensures var a := h.lists[d][0];
            && PageOf(a) in h.arenas && h.arenas[PageOf(a)].Small? && h.arenas[PageOf(a)].desc == d
            && h.arenas[PageOf(a)].freeCnt > 0 && a !in h.live
    ensures Sound(Taken(h, d), used, {})
  {
    hide Count, PageOf, ArenaOk, LiveOk, DifferAt, IsBlock, Distinct;
    var list, a, g := h.lists[d], h.lists[d][0], Taken(h, d);
    var page := PageOf(a);
    HeadIn(list);
    assert ListOk(h.arenas, list, d);
    FreeBlock(h, spare, a, d);
    TakenArenaOk(h, spare, d);
    TakenListed(h, d);
    SamePages(h.arenas, used, page, g.arenas[page]) by { BothOnePage(h.arenas[page], g.arenas[page]); }
    OnePageChanged(h, g, used, used, spare, {}, page, d);
  }

  lemma TakenListed(h: Heap, d: nat)
    requires ListsOk(h) && LiveOk(h) && d < DESC_CNT && h.lists[d] != []
    ensures var g := Taken(h, d);
            DifferAt(h, g, PageOf(h.lists[d][0]), d) && LiveOk(g) && ListOk(g.arenas, g.lists[d], d)
  {
    hide Size, Count, Address, PageOf, Distinct, IsBlock;
    HeadIn(h.lists[d]);
    assert ListOk(h.arenas, h.lists[d], d);
    RestOfList(h.lists[d]);
    IsBlockOf(d);
  }

  lemma SamePages(arenas: map<nat, Arena>, used: seq<bool>, page: nat, arena: Arena)
    requires PagesOk(arenas, used) && page in arenas && PagesOf(arena) == PagesOf(arenas[page])
    ensures PagesOk(arenas[page := arena], used)
  {
  }

  lemma TakenArenaOk(h: Heap, spare: set<nat>, d: nat)
    requires ArenasOk(h, spare) && d < DESC_CNT && h.lists[d] != [] && ListOk(h.arenas, h.lists[d], d)
    ensures ArenaOk(Taken(h, d), PageOf(h.lists[d][0]), {})
  {
    hide Size, Count, Address, PageOf, IsBlock;
    var list, a := h.lists[d], h.lists[d][0];
    var page := PageOf(a);
    HeadIn(list);
    assert ArenaOk(h, page, spare);
    RestOfList(list);
    FreeBlock(h, spare, a, d);
    assert FreeOn(list[1..], page) == FreeOn(list, page) - {a};
  }

  lemma RestOfList(list: seq<nat>)
    requires list != [] && Distinct(list)
    ensures Distinct(list[1..]) && forall x :: x in list[1..] <==> x in list && x != list[0]
  {
    assert list == [list[0]] + list[1..];
  }

  /** A block on a free list is not in use, and its arena counts it. */
  lemma FreeBlock(h: Heap, spare: set<nat>, a: nat, d: nat)
    requires ArenasOk(h, spare) && d < |h.lists| && a in h.lists[d] && ListOk(h.arenas, h.lists[d], d)
    ensures a !in h.live && h.arenas[PageOf(a)].freeCnt > 0
  {
    hide Size, Count, Address, PageOf;
    assert ArenaOk(h, PageOf(a), spare);
    assert a in FreeOn(h.lists[d], PageOf(a));
  }

  /** A heap with a block of a small arena back on its free list. */
  function Freed(h: Heap, a: nat): Heap
    requires PageOf(a) in h.arenas && h.arenas[PageOf(a)].Small? && h.arenas[PageOf(a)].desc < |h.lists|
  {
    var page := PageOf(a);
    var Small(d, c) := h.arenas[page];
    Heap(h.arenas[page := Small(d, c + 1)], h.lists[d := [a] + h.lists[d]], h.live - {a})
  }

  lemma PutBlock(h: Heap, used: seq<bool>, a: nat)
    requires Sound(h, used, {}) && a in h.live && h.arenas[PageOf(a)].Small?
    ensures var d, c := h.arenas[PageOf(a)].desc, h.arenas[PageOf(a)].freeCnt;
            && d < DESC_CNT && c + 1 <= Count(d)
            && Sound(Freed(h, a), used, if c + 1 == Count(d) then {PageOf(a)} else {})
  {
    hide Count, PageOf, ArenaOk, ListOk, LiveOk, DifferAt;
    var page := PageOf(a);
    LivePage(h, a);
    var d, c := h.arenas[page].desc, h.arenas[page].freeCnt;
    var g := Freed(h, a);
    FreedArenaOk(h, a);
    FreedListed(h, a);
    SamePages(h.arenas, used, page, g.arenas[page]) by { BothOnePage(h.arenas[page], g.arenas[page]); }
    OnePageChanged(h, g, used, used, {}, if c + 1 == Count(d) then {page} else {}, page, d);
  }

  lemma LivePage(h: Heap, a: nat)
    requires ArenasOk(h, {}) && LiveOk(h) && a in h.live && h.arenas[PageOf(a)].Small?
    ensures PageOf(a) in h.arenas && h.arenas[PageOf(a)].desc < DESC_CNT
  {
    hide PageOf;
    assert ArenaOk(h, PageOf(a), {});
  }

  lemma FreedListed(h: Heap, a: nat)
    requires ArenasOk(h, {}) && ListsOk(h) && LiveOk(h) && a in h.live && h.arenas[PageOf(a)].Small?
    requires h.arenas[PageOf(a)].desc < DESC_CNT
    ensures var g, d := Freed(h, a), h.arenas[PageOf(a)].desc;
            DifferAt(h, g, PageOf(a), d) && LiveOk(g) && ListOk(g.arenas, g.lists[d], d)
  {
    hide Size, Count, Address, PageOf, Distinct, IsBlock, ArenaOk, BlockSet, ListOk;
    var d := h.arenas[PageOf(a)].desc;
    LiveNotListed(h, {}, a);
    PutFirst(h.lists[d], a);
    FreedList(h, a);
    IsBlockOf(d);
  }

  lemma FreedList(h: Heap, a: nat)
    requires ListsOk(h) && LiveOk(h) && a in h.live && h.arenas[PageOf(a)].Small?
    requires h.arenas[PageOf(a)].desc < DESC_CNT && a !in h.lists[h.arenas[PageOf(a)].desc]
    ensures var g, d := Freed(h, a), h.arenas[PageOf(a)].desc; ListOk(g.arenas, g.lists[d], d)
  {
    hide Size, Count, Address, PageOf, Distinct, IsBlock;
    var d := h.arenas[PageOf(a)].desc;
    PutFirst(h.lists[d], a);
    assert ListOk(h.arenas, h.lists[d], d);
    IsBlockOf(d);
  }

  lemma BothOnePage(x: Arena, y: Arena)
    requires x.Small? && y.Small?
    ensures PagesOf(x) == PagesOf(y)
  {
  }

  lemma FreedArenaOk(h: Heap, a: nat)
    requires ArenasOk(h, {}) && LiveOk(h) && a in h.live && h.arenas[PageOf(a)].Small?
    requires h.arenas[PageOf(a)].desc < |h.lists|
    ensures var d, c := h.arenas[PageOf(a)].desc, h.arenas[PageOf(a)].freeCnt;
            && a !in h.lists[d] && c < Count(d)
            && ArenaOk(Freed(h, a), PageOf(a), if c + 1 == Count(d) then {PageOf(a)} else {})
  {
    hide Size, Count, Address, PageOf;
    var page := PageOf(a);
    assert ArenaOk(h, page, {});
    var d := h.arenas[page].desc;
    var list := h.lists[d];
    LiveNotListed(h, {}, a);
    PutFirst(list, a);
    assert FreeOn([a] + list, page) == FreeOn(list, page) + {a};
  }

  lemma PutFirst(list: seq<nat>, a: nat)
    ensures Distinct(list) && a !in list ==> Distinct([a] + list)
    ensures forall x :: x in [a] + list <==> x == a || x in list
  {
  }

  /** What of a free list is on other pages. */
  function OffPage(list: seq<nat>, page: nat): seq<nat> {
    if list == [] then []
    else if PageOf(list[0]) == page then OffPage(list[1..], page)
    else [list[0]] + OffPage(list[1..], page)
  }

  lemma {:induction false} OffPageKeeps(list: seq<nat>, page: nat)
    requires Distinct(list)
    ensures Distinct(OffPage(list, page))
    ensures forall x :: x in OffPage(list, page) <==> x in list && PageOf(x) != page
  {
    hide PageOf;
    if list != [] {
      RestOfList(list);
      OffPageKeeps(list[1..], page);
      assert list[0] in list;
    }
  }

  function Without(arenas: map<nat, Arena>, page: nat): map<nat, Arena> {
    map p | p in arenas && p != page :: arenas[p]
  }

  /** A heap without an arena whose blocks are all free. */
  function WithoutArena(h: Heap, page: nat): Heap
    requires page in h.arenas && h.arenas[page].Small? && h.arenas[page].desc < |h.lists|
  {
    var d := h.arenas[page].desc;
    Heap(Without(h.arenas, page), h.lists[d := OffPage(h.lists[d], page)], h.live)
  }

  lemma DropArena(h: Heap, used: seq<bool>, used': seq<bool>, page: nat)
    requires Sound(h, used, {page}) && page in h.arenas && h.arenas[page].Small?
    requires h.arenas[page].freeCnt == Count(h.arenas[page].desc)
    requires page < |used| && used' == used[page := false]
    ensures h.arenas[page].desc < |h.lists| && Sound(WithoutArena(h, page), used', {})
    ensures forall a :: a in h.live ==> PageOf(a) != page
  {
    hide Size, Count, Address, PageOf, IsBlock, Distinct, FreeOn;
    assert ArenaOk(h, page, {page});
    var d := h.arenas[page].desc;
    var list, g := h.lists[d], WithoutArena(h, page);
    assert ListOk(h.arenas, list, d);
    OffPageKeeps(list, page);
    AllFree(h, page);
    DropPages(h.arenas, used, used', page);
    OnePageChanged(h, g, used, used', {page}, {}, page, d);
  }

  /** An arena with as many free blocks as it has blocks has none in use. */
  lemma AllFree(h: Heap, page: nat)
    requires ArenasOk(h, {page}) && ListsOk(h) && LiveOk(h) && page in h.arenas && h.arenas[page].Small?
    requires h.arenas[page].freeCnt == Count(h.arenas[page].desc)
    ensures forall a :: a in h.live ==> PageOf(a) != page
  {
    hide Size, Count, Address, PageOf;
    assert ArenaOk(h, page, {page});
    var d := h.arenas[page].desc;
    var free, blocks := FreeOn(h.lists[d], page), BlockSet(page, d, Count(d));
    assert ListOk(h.arenas, h.lists[d], d);
    BlockSetSize(page, d, Count(d));
    assert free <= blocks;
    CardinalityMonotone(free, blocks);
    forall a | a in h.live && PageOf(a) == page
      ensures a in blocks && a !in h.lists[d]
    {
      LiveNotListed(h, {page}, a);
    }
  }

  /** A block in use is one of its arena's blocks, and not on the free list. */
  lemma LiveNotListed(h: Heap, spare: set<nat>, a: nat)
    requires ArenasOk(h, spare) && LiveOk(h) && a in h.live && h.arenas[PageOf(a)].Small?
    requires h.arenas[PageOf(a)].desc < |h.lists|
    ensures var d := h.arenas[PageOf(a)].desc; a !in h.lists[d] && a in BlockSet(PageOf(a), d, Count(d))
  {
    hide Size, Count, Address, PageOf;
    assert ArenaOk(h, PageOf(a), spare);
    var d := h.arenas[PageOf(a)].desc;
    var i: nat :| i < Count(d) && a == Address(PageOf(a), d, i);
  }

  lemma DropPages(arenas: map<nat, Arena>, used: seq<bool>, used': seq<bool>, page: nat)
    requires PagesOk(arenas, used) && page in arenas && |used'| == |used|
    requires forall k :: 0 <= k < |used| ==>
               (used'[k] <==> used[k] && !(page <= k < page + PagesOf(arenas[page])))
    ensures PagesOk(Without(arenas, page), used')
  {
    hide PagesOf;
  }

  /** A heap with a big block more. */
  function WithBig(h: Heap, page: nat, n: nat): Heap {
    Heap(h.arenas[page := Big(n)], h.lists, h.live + {BigAddress(page)})
  }

  lemma AddBig(h: Heap, used: seq<bool>, used': seq<bool>, page: nat, n: nat)
    requires Sound(h, used, {}) && n > 0 && Run(used, page, n, false) && |used'| == |used|
    requires forall k :: 0 <= k < |used| ==> (used'[k] <==> used[k] || page <= k < page + n)
    ensures BigAddress(page) !in h.live && page !in h.arenas
    ensures Sound(WithBig(h, page, n), used', {})
  {
    hide Count, PageOf, ListOk, LiveOk, DifferAt, ArenaOk;
    assert used[page] == false;
    FreePageUnowned(h.arenas, used, page);
    AddPages(h.arenas, used, used', page, Big(n));
    BigListed(h, page, n);
    OnePageChanged(h, WithBig(h, page, n), used, used', {}, {}, page, 0);
  }

  lemma BigListed(h: Heap, page: nat, n: nat)
    requires ListsOk(h) && LiveOk(h) && page !in h.arenas && n > 0
    ensures var g := WithBig(h, page, n);
            && BigAddress(page) !in h.live && ArenaOk(g, page, {})
            && DifferAt(h, g, page, 0) && LiveOk(g) && ListOk(g.arenas, g.lists[0], 0)
  {
    hide Size, Count, Address, PageOf, BigAddress, Distinct, FreeOn;
    BigInside(page);
    assert ListOk(h.arenas, h.lists[0], 0);
  }

  lemma AddPages(arenas: map<nat, Arena>, used: seq<bool>, used': seq<bool>, page: nat, arena: Arena)
    requires PagesOk(arenas, used) && PagesOf(arena) > 0 && Run(used, page, PagesOf(arena), false)
    requires |used'| == |used|
    requires forall k :: 0 <= k < |used| ==> (used'[k] <==> used[k] || page <= k < page + PagesOf(arena))
    ensures PagesOk(arenas[page := arena], used')
  {
    hide PagesOf;
    forall p | p in arenas
      ensures p < page ==> p + PagesOf(arenas[p]) <= page
      ensures page < p ==> page + PagesOf(arena) <= p
    {
      assert used[p] && !used[page];
    }
  }

  /** A heap without a big block. */
  function WithoutBig(h: Heap, page: nat): Heap {
    Heap(Without(h.arenas, page), h.lists, h.live - {BigAddress(page)})
  }

  lemma DropBig(h: Heap, used: seq<bool>, used': seq<bool>, page: nat)
    requires Sound(h, used, {}) && page in h.arenas && h.arenas[page].Big? && |used'| == |used|
    requires forall k :: 0 <= k < |used| ==>
               (used'[k] <==> used[k] && !(page <= k < page + h.arenas[page].pageCnt))
    ensures Sound(WithoutBig(h, page), used', {})
    ensures forall a :: a in WithoutBig(h, page).live ==> PageOf(a) != page
  {
    hide Size, Count, Address, PageOf, BigAddress, Distinct, FreeOn;
    BigInside(page);
    DropPages(h.arenas, used, used', page);
    assert ListOk(h.arenas, h.lists[0], 0);
    OnePageChanged(h, WithoutBig(h, page), used, used', {}, {}, page, 0);
  }
}
