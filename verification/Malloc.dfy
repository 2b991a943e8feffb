/** The allocator of small blocks on top of the page allocator. */
module Malloc {
  import opened Basics
  import opened Bitmaps
  import opened Pages
  import opened Arenas

  const WORD := 0x1_0000_0000

  /** The sizes from here on wrap around when a header is added to them, and are served too little. */
  const WRAPPING: U32 := 0xffff_fff5

  datatype Desc = Desc(blockSize: nat, blocksPerArena: nat)

  /** The smallest descriptor from d on whose blocks are large enough. */
  function Class(size: nat, d: nat): (e: nat)
    requires d <= DESC_CNT
    ensures d <= e <= DESC_CNT && (e < DESC_CNT ==> Size(e) >= size)
    decreases DESC_CNT - d
  {
    if d == DESC_CNT || Size(d) >= size then d else Class(size, d + 1)
  }

  /** The pages of a big block: the additions are those of a 32-bit size_t. */
  function BigPages(size: U32): nat {
    ((size + ARENA_SIZE) % WORD + PGSIZE - 1) % WORD / PGSIZE
  }

  /** The arena that a request is served from. */
  function Served(size: U32): Arena {
    if Class(size, 0) < DESC_CNT then Small(Class(size, 0), 0) else Big(BigPages(size))
  }

  /** Whether there is memory for a request. */
  ghost predicate Available(h: Heap, used: seq<bool>, size: U32)
  {
    if Class(size, 0) < |h.lists| then h.lists[Class(size, 0)] != [] || exists k: nat :: Run(used, k, 1, false)
    else BigPages(size) > 0 && exists k: nat :: Run(used, k, BigPages(size), false)
  }

  /** What is served is large enough for every size up to the last few of a size_t, and only for those. */
  lemma ServedSuffices(size: U32)
    requires Class(size, 0) < DESC_CNT || BigPages(size) > 0
    ensures Capacity(Served(size)) >= size <==> size < WRAPPING
  {
    if Class(size, 0) < DESC_CNT {
      Sizes(Class(size, 0));
    } else {
      hide Class;
      Smalls(size);
    }
  }

  /** An arena of the smallest blocks that hold so many bytes, or of the fewest pages that hold them and a header. */
  ghost predicate Least(arena: Arena, size: nat) {
    if arena.Small? then
      size <= Size(arena.desc) && forall d: nat :: d < arena.desc ==> Size(d) < size
    else
      size + ARENA_SIZE <= PGSIZE * arena.pageCnt < size + ARENA_SIZE + PGSIZE
  }

  /** A request that can be served is served from the smallest blocks that are large enough, up to 1024 bytes, and
      from the fewest pages above that. */
  lemma ServedLeast(size: U32)
    requires size < WRAPPING && (Class(size, 0) < DESC_CNT || BigPages(size) > 0)
    ensures Least(Served(size), size) && (Served(size).Small? <==> size <= 1024)
  {
    Smalls(size);
    if size <= 1024 {
      ClassLeast(size, 0);
    }
  }

  lemma {:induction false} ClassLeast(size: nat, d: nat)
    requires d <= DESC_CNT
    ensures forall e: nat :: d <= e < Class(size, d) ==> Size(e) < size
    decreases DESC_CNT - d
  {
    hide Size;
    if d < DESC_CNT && Size(d) < size {
      ClassLeast(size, d + 1);
    }
  }

  /** What realloc copies fits into the new block exactly if the new size does not wrap around, or the old
      block is not larger than what a wrapping size is served. */
  lemma CopyFits(newSize: U32, oldSize: nat)
    requires Class(newSize, 0) < DESC_CNT || BigPages(newSize) > 0
    ensures Min(newSize, oldSize) <= Capacity(Served(newSize))
            <==> newSize < WRAPPING || oldSize <= PGSIZE - ARENA_SIZE
  {
    hide Class, BigPages, Served;
    ServedSuffices(newSize);
    if newSize >= WRAPPING {
      WrappedServed(newSize);
    }
  }

  /** A block of two pages reallocated to the largest size there is would overflow the new block. */
  lemma CopyOverflows()
    ensures Served(WORD - 1) == Big(1)
    ensures Min(WORD - 1, Capacity(Big(2))) > Capacity(Served(WORD - 1))
  {
    WrappedServed(WORD - 1);
  }

  lemma Smalls(size: U32)
    ensures Class(size, 0) == DESC_CNT <==> size > 1024
  {
    ClassOf(size, 0);
  }

  lemma {:induction false} ClassOf(size: nat, d: nat)
    requires d < DESC_CNT
    ensures Class(size, d) == DESC_CNT <==> size > 1024
    decreases DESC_CNT - d
  {
    hide Size;
    Sizes(d);
    if d + 1 < DESC_CNT {
      ClassOf(size, d + 1);
    } else {
      LastSize();
    }
  }

  /** Requests for the last few sizes get one page: the size wraps around. */
  lemma WrappedServed(size: U32)
    requires size >= WRAPPING
    ensures Served(size) == Big(1) && Capacity(Served(size)) == PGSIZE - ARENA_SIZE
  {
    Smalls(size);
  }

  // --------------------------------------------------------------------------
  // Free lists

  /** A list without one of its elements. */
  function Removed(list: seq<nat>, a: nat): seq<nat> {
    if list == [] then [] else if list[0] == a then list[1..] else [list[0]] + Removed(list[1..], a)
  }

  function Except(list: seq<nat>, s: set<nat>): seq<nat> {
    if list == [] then []
    else if list[0] in s then Except(list[1..], s)
    else [list[0]] + Except(list[1..], s)
  }

  lemma {:induction false} ExceptNone(list: seq<nat>)
    ensures Except(list, {}) == list
  {
    if list != [] {
      ExceptNone(list[1..]);
    }
  }

  lemma {:induction false} ExceptOneMore(list: seq<nat>, s: set<nat>, a: nat)
    requires Distinct(list)
    ensures Removed(Except(list, s), a) == Except(list, s + {a})
  {
    if list != [] {
      var rest := list[1..];
      RestOfList(list);
      ExceptOneMore(rest, s, a);
      if list[0] == a && a !in s {
        ExceptAbsent(rest, s, a);
      }
    }
  }

  lemma {:induction false} ExceptAbsent(list: seq<nat>, s: set<nat>, a: nat)
    requires a !in list
    ensures Except(list, s + {a}) == Except(list, s)
  {
    if list != [] {
      assert list == [list[0]] + list[1..];
      ExceptAbsent(list[1..], s, a);
    }
  }

  lemma {:induction false} ExceptPage(list: seq<nat>, s: set<nat>, page: nat)
    requires forall x :: x in list ==> (x in s <==> PageOf(x) == page)
    ensures Except(list, s) == OffPage(list, page)
  {
    if list != [] {
      assert list == [list[0]] + list[1..];
      assert list[0] in list;
      ExceptPage(list[1..], s, page);
    }
  }

  // --------------------------------------------------------------------------
  // What one call changes

  /** The blocks in use in a heap are blocks of the same size in another. */
  ghost predicate Kept(live: set<nat>, h: Heap, g: Heap) {
    forall a :: a in live ==>
      && PageOf(a) in h.arenas && PageOf(a) in g.arenas
      && Capacity(g.arenas[PageOf(a)]) == Capacity(h.arenas[PageOf(a)])
  }

  /** A call of malloc: a block more in use, as large as the given arena's, and its arena's pages in use. */
  ghost predicate Grew(h: Heap, g: Heap, used: seq<bool>, used': seq<bool>, r: nat, arena: Arena) {
    && r !in h.live && g.live == h.live + {r} && Kept(h.live, h, g)
    && PageOf(r) in g.arenas && Capacity(g.arenas[PageOf(r)]) == Capacity(arena)
    && |used'| == |used|
    && forall k :: 0 <= k < |used| ==>
         (used'[k] <==>
            used[k] || (PageOf(r) !in h.arenas && PageOf(r) <= k < PageOf(r) + PagesOf(g.arenas[PageOf(r)])))
  }

  /** A call of free: a block less in use, and its arena given back if none of its blocks is in use now. */
  ghost predicate Shrank(h: Heap, g: Heap, used: seq<bool>, used': seq<bool>, a: nat) {
    && g.live == h.live - {a} && Kept(g.live, h, g)
    && PageOf(a) in h.arenas
    && (PageOf(a) in g.arenas <==> exists b :: b in g.live && PageOf(b) == PageOf(a))
    && |used'| == |used|
    && forall k :: 0 <= k < |used| ==>
         (used'[k] <==>
            used[k] && !(PageOf(a) !in g.arenas && PageOf(a) <= k < PageOf(a) + PagesOf(h.arenas[PageOf(a)])))
  }

  lemma TakenGrew(h: Heap, used: seq<bool>, d: nat)
    requires Sound(h, used, {}) && d < DESC_CNT && h.lists[d] != []
    ensures Grew(h, Taken(h, d), used, used, h.lists[d][0], Small(d, 0)) && PageOf(h.lists[d][0]) in h.arenas
  {
    hide PageOf, ArenaOk, ListOk, IsBlock;
    TakeBlock(h, used, {}, d);
  }

  lemma FreshGrew(h: Heap, used: seq<bool>, used': seq<bool>, page: nat, d: nat)
    requires Sound(h, used, {}) && d < DESC_CNT && h.lists[d] == []
    requires page < |used| && !used[page] && used' == used[page := true]
    ensures WithArena(h, page, d).lists[d] != [] && PageOf(WithArena(h, page, d).lists[d][0]) == page
    ensures Sound(Taken(WithArena(h, page, d), d), used', {}) && page !in h.arenas
    ensures var r := WithArena(h, page, d).lists[d][0];
            Grew(h, Taken(WithArena(h, page, d), d), used, used', r, Small(d, 0))
  {
    hide PageOf, ArenaOk, ListOk, IsBlock, Size, Count, Address, Run;
    Sizes(d);
    var g := WithArena(h, page, d);
    AddArena(h, used, used', page, d);
    BlockInside(page, d, 0);
    assert g.lists[d][0] == Address(page, d, 0);
    FreePageUnowned(h.arenas, used, page);
    TakeBlock(g, used', {page}, d);
  }

  lemma BigGrew(h: Heap, used: seq<bool>, used': seq<bool>, page: nat, n: nat)
    requires Sound(h, used, {}) && n > 0 && Run(used, page, n, false) && |used'| == |used|
    requires forall k :: 0 <= k < |used| ==> (used'[k] <==> used[k] || page <= k < page + n)
    ensures Sound(WithBig(h, page, n), used', {})
    ensures Grew(h, WithBig(h, page, n), used, used', BigAddress(page), Big(n))
    ensures PageOf(BigAddress(page)) !in h.arenas
  {
    hide PageOf, ArenaOk, ListOk, IsBlock, BigAddress;
    BigInside(page);
    AddBig(h, used, used', page, n);
  }

  lemma KeptShrank(h: Heap, used: seq<bool>, a: nat)
    requires Sound(h, used, {}) && a in h.live && h.arenas[PageOf(a)].Small?
    requires h.arenas[PageOf(a)].freeCnt + 1 < Count(h.arenas[PageOf(a)].desc)
    ensures h.arenas[PageOf(a)].desc < |h.lists|
    ensures Sound(Freed(h, a), used, {}) && Shrank(h, Freed(h, a), used, used, a)
  {
    hide PageOf, ArenaOk, ListOk, IsBlock, Count;
    PutBlock(h, used, a);
    SomeLive(Freed(h, a), PageOf(a));
  }

  lemma DroppedShrank(h: Heap, used: seq<bool>, used': seq<bool>, a: nat)
    requires Sound(h, used, {}) && a in h.live && h.arenas[PageOf(a)].Small?
    requires h.arenas[PageOf(a)].freeCnt + 1 >= Count(h.arenas[PageOf(a)].desc)
    requires PageOf(a) < |used| && used' == used[PageOf(a) := false]
    ensures h.arenas[PageOf(a)].desc < |h.lists|
    ensures h.arenas[PageOf(a)].freeCnt + 1 == Count(h.arenas[PageOf(a)].desc)
    ensures Sound(Freed(h, a), used, {PageOf(a)})
    ensures var g := WithoutArena(Freed(h, a), PageOf(a)); Sound(g, used', {}) && Shrank(h, g, used, used', a)
  {
    hide PageOf, ArenaOk, ListOk, IsBlock, Count;
    PutBlock(h, used, a);
    DropArena(Freed(h, a), used, used', PageOf(a));
  }

  lemma BigShrank(h: Heap, used: seq<bool>, used': seq<bool>, a: nat)
    requires Sound(h, used, {}) && a in h.live && h.arenas[PageOf(a)].Big? && |used'| == |used|
    requires forall k :: 0 <= k < |used| ==>
               (used'[k] <==> used[k] && !(PageOf(a) <= k < PageOf(a) + h.arenas[PageOf(a)].pageCnt))
    ensures BigAddress(PageOf(a)) == a
    ensures Sound(WithoutBig(h, PageOf(a)), used', {}) && Shrank(h, WithoutBig(h, PageOf(a)), used, used', a)
  {
    hide PageOf, ArenaOk, ListOk, BigAddress;
    DropBig(h, used, used', PageOf(a));
  }

  /** The bytes of some blocks in use are the same in two memories. */
  ghost predicate SameBytes(live: set<nat>, h: Heap, m: seq<Byte>, m': seq<Byte>) {
    && |m'| == |m|
    && forall b, x ::
         b in live && PageOf(b) in h.arenas && 0 <= b <= x < b + Capacity(h.arenas[PageOf(b)]) && x < |m| ==>
         m'[x] == m[x]
  }

  /** Writing to one block in use leaves the others alone. */
  lemma OthersUntouched(h: Heap, used: seq<bool>, m: seq<Byte>, m': seq<Byte>, a: nat)
    requires Sound(h, used, {}) && a in h.live && PageOf(a) in h.arenas && |m'| == |m|
    requires forall x :: 0 <= x < |m| && !(a <= x < a + Capacity(h.arenas[PageOf(a)])) ==> m'[x] == m[x]
    ensures SameBytes(h.live - {a}, h, m, m')
  {
    hide Sound, Capacity, PageOf;
    forall b, x |
        b in h.live - {a} && PageOf(b) in h.arenas && 0 <= b <= x < b + Capacity(h.arenas[PageOf(b)]) && x < |m|
      ensures m'[x] == m[x]
    {
      if a < b {
        LiveApart(h, used, {}, a, b);
      } else {
        LiveApart(h, used, {}, b, a);
      }
    }
  }

  /** Clearing pages that are not in use leaves every block in use alone. */
  lemma UsedUntouched(h: Heap, used: seq<bool>, m: seq<Byte>, m': seq<Byte>, page: nat, n: nat)
    requires Sound(h, used, {}) && |m'| == |m| && Run(used, page, n, false)
    requires forall x :: 0 <= x < |m| ==>
               (m'[x] == if page * PGSIZE <= x < (page + n) * PGSIZE then CLEARED else m[x])
    ensures SameBytes(h.live, h, m, m')
  {
    hide Sound, Capacity;
    forall b, x | b in h.live && PageOf(b) in h.arenas && 0 <= b <= x < b + Capacity(h.arenas[PageOf(b)]) && x < |m|
      ensures m'[x] == m[x]
    {
      LiveByteUsed(h, used, b, x);
    }
  }

  lemma SameTwice(h: Heap, g: Heap, m: seq<Byte>, m': seq<Byte>, m'': seq<Byte>)
    requires SameBytes(g.live, h, m, m') && SameBytes(g.live, g, m', m'') && Kept(g.live, h, g)
    ensures SameBytes(g.live, h, m, m'')
  {
    hide PageOf, Capacity;
  }

  ghost function BytesOf(h: Heap, m: seq<Byte>, a: nat): seq<Byte> {
    if PageOf(a) in h.arenas && 0 <= Capacity(h.arenas[PageOf(a)]) <= |m| - a
    then m[a..a + Capacity(h.arenas[PageOf(a)])]
    else []
  }

  lemma SameBlocks(live: set<nat>, h: Heap, g: Heap, m: seq<Byte>, m': seq<Byte>)
    requires SameBytes(live, h, m, m') && Kept(live, h, g)
    ensures forall b :: b in live ==> BytesOf(g, m', b) == BytesOf(h, m, b)
  {
    hide PageOf, Capacity;
  }

  lemma SmallArena(h: Heap, used: seq<bool>, a: nat)
    requires Sound(h, used, {}) && a in h.live && PageOf(a) in h.arenas && h.arenas[PageOf(a)].Small?
    ensures |h.lists| == DESC_CNT && h.arenas[PageOf(a)].desc < DESC_CNT
    ensures Capacity(h.arenas[PageOf(a)]) == Size(h.arenas[PageOf(a)].desc)
    ensures a + Size(h.arenas[PageOf(a)].desc) <= |used| * PGSIZE
    ensures PageOf(a) < |used| && used[PageOf(a)] && Run(used, PageOf(a), 1, true)
  {
    hide PageOf, ListOk, Size;
    LivePage(h, a);
    LiveInside(h, used, {}, a);
  }

  /** The bytes of a block in use are in pages in use. */
  lemma LiveByteUsed(h: Heap, used: seq<bool>, b: nat, x: nat)
    requires Sound(h, used, {}) && b in h.live && PageOf(b) in h.arenas && b <= x < b + Capacity(h.arenas[PageOf(b)])
    ensures PageOf(x) < |used| && used[PageOf(x)]
  {
    hide ArenaOk, ListOk, LiveOk, Capacity, PagesOf, BigAddress;
    LiveInside(h, used, {}, b);
    PageOrder(b, x + 1);
    assert Run(used, PageOf(b), PagesOf(h.arenas[PageOf(b)]), true);
  }

  // --------------------------------------------------------------------------
  // The allocator

  class Allocator {
    const pool: Pool
    const descs: seq<Desc>
    var arenas: map<nat, Arena>
    var lists: seq<seq<nat>>
    ghost var live: set<nat>

    ghost function State(): Heap
      reads this
    {
      Heap(arenas, lists, live)
    }

    ghost predicate Valid()
      reads this, pool.usedMap
    {
      && pool.Valid() && |descs| == DESC_CNT
      && (forall d :: 0 <= d < DESC_CNT ==> descs[d] == Desc(Size(d), Count(d)))
      && Sound(State(), pool.usedMap[..], {})
    }

    /** The bytes of a block in use. */
    ghost function Bytes(a: nat): seq<Byte>
      reads this, pool.memory
    {
      BytesOf(State(), pool.memory[..], a)
    }

    constructor (pageCnt: nat)
      ensures Valid() && fresh(pool) && fresh(pool.usedMap) && fresh(pool.memory)
      ensures live == {} && pool.usedMap.Length == pageCnt && forall k :: 0 <= k < pageCnt ==> !pool.usedMap[k]
    {
      pool := new Pool(pageCnt);
      var table := MallocInit();
      descs := table;
      lists := seq(DESC_CNT, _ => []);
      arenas, live := map[], {};
    }

    method FindClass(size: nat) returns (d: nat)
      requires Valid()
      ensures d == Class(size, 0)
    {
      d := 0;
      while d < |descs|
        invariant 0 <= d <= |descs| && Class(size, d) == Class(size, 0)
      {
        if descs[d].blockSize >= size {
          break;
        }
        d := d + 1;
      }
    }

    /** A block more in use, as large as its size class or its pages allow; null for no bytes at all, and when
        there is no memory for it. */
    method Malloc(size: U32) returns (r: Option<nat>)
      requires Valid()
      modifies this, pool.usedMap
      ensures Valid()
      ensures r.Some? <==> size > 0 && Available(old(State()), old(pool.usedMap[..]), size)
      ensures r.Some? ==> Grew(old(State()), State(), old(pool.usedMap[..]), pool.usedMap[..], r.value, Served(size))
      ensures r.Some? ==>
                (PageOf(r.value) in old(arenas) <==>
                   Served(size).Small? && old(lists)[Served(size).desc] != [])
      ensures r.Some? && Served(size).Small? && old(lists)[Served(size).desc] != [] ==>
                var list := old(lists)[Served(size).desc];
                r.value == list[0] && lists == old(lists)[Served(size).desc := list[1..]]
      ensures r.None? ==> State() == old(State()) && pool.usedMap[..] == old(pool.usedMap[..])
    {
      hide Sound, Grew, Class, BigPages;
      if size == 0 {
        return None;
      }
      var d := FindClass(size);
      if d == |descs| {
        r := MallocBig(size);
        return;
      }
      ghost var h, used := State(), pool.usedMap[..];
      HasLists(h, used);
      if lists[d] == [] {
        var page := pool.GetMultiple(1);
        if page.None? {
          return None;
        }
        OnePageTaken(used, pool.usedMap[..], page.value);
        FreshGrew(h, used, pool.usedMap[..], page.value, d);
        AddBlocks(page.value, d);
      } else {
        TakenGrew(h, used, d);
        TakeBlock(h, used, {}, d);
      }
      var b := PopFront(d);
      return Some(b);
    }

    /** Enough pages for the bytes and a header. */
    method MallocBig(size: U32) returns (r: Option<nat>)
      requires Valid() && Class(size, 0) == DESC_CNT
      modifies this, pool.usedMap
      ensures Valid()
      ensures r.Some? <==> Available(old(State()), old(pool.usedMap[..]), size)
      ensures r.Some? ==> PageOf(r.value) !in old(arenas)
      ensures r.Some? ==> Grew(old(State()), State(), old(pool.usedMap[..]), pool.usedMap[..], r.value, Served(size))
      ensures r.None? ==> State() == old(State()) && pool.usedMap[..] == old(pool.usedMap[..])
    {
      hide Sound, Grew, Class;
      ghost var h, used := State(), pool.usedMap[..];
      HasLists(h, used);
      var pageCnt := ((size + ARENA_SIZE) % WORD + PGSIZE - 1) % WORD / PGSIZE;
      assert pageCnt == BigPages(size);
      hide BigPages;
      var page := pool.GetMultiple(pageCnt);
      if page.None? {
        return None;
      }
      BigGrew(h, used, pool.usedMap[..], page.value, pageCnt);
      arenas := arenas[page.value := Big(pageCnt)];
      live := live + {BigAddress(page.value)};
      return Some(BigAddress(page.value));
    }

    /** Makes a page an arena, and puts its blocks at the end of the free list. */
    method AddBlocks(page: nat, d: nat)
      requires d < |lists| && d < |descs| && descs[d] == Desc(Size(d), Count(d))
      modifies this`arenas, this`lists
      ensures State() == WithArena(old(State()), page, d)
    {
      hide Count, Address;
      arenas := arenas[page := Small(d, descs[d].blocksPerArena)];
      ghost var before, header := lists, arenas;
      for i := 0 to descs[d].blocksPerArena
        invariant arenas == header && |lists| == |before|
        invariant lists[d] == before[d] + Blocks(page, d, i)
        invariant forall e :: 0 <= e < |lists| && e != d ==> lists[e] == before[e]
      {
        assert Blocks(page, d, i + 1) == Blocks(page, d, i) + [Address(page, d, i)];
        lists := lists[d := lists[d] + [Address(page, d, i)]];
      }
      assert lists == before[d := before[d] + Blocks(page, d, Count(d))];
    }

    /** Takes the first block off a free list. */
    method PopFront(d: nat) returns (b: nat)
      requires d < |lists| && lists[d] != []
      requires var page := PageOf(lists[d][0]);
               page in arenas && arenas[page].Small? && arenas[page].desc == d && arenas[page].freeCnt > 0
      modifies this`arenas, this`lists, this`live
      ensures b == old(lists[d][0]) && State() == Taken(old(State()), d)
    {
      hide PageOf;
      b := lists[d][0];
      lists := lists[d := lists[d][1..]];
      var page := PageOf(b);
      arenas := arenas[page := Small(d, arenas[page].freeCnt - 1)];
      live := live + {b};
    }

    /** Gives a block back, and its arena with it if none of the arena's blocks is in use any more. The bytes
        of every other block in use stay as they are. */
    method Free(p: Option<nat>)
      requires Valid() && (p.Some? ==> p.value in live)
      modifies this, pool.usedMap, pool.memory
      ensures Valid()
      ensures p.None? ==> State() == old(State()) && pool.usedMap[..] == old(pool.usedMap[..])
      ensures p.None? ==> pool.memory[..] == old(pool.memory[..])
      ensures p.Some? ==> Shrank(old(State()), State(), old(pool.usedMap[..]), pool.usedMap[..], p.value)
      ensures p.Some? ==> Wiped(old(State()), pool.memory[..], p.value) && FirstOnList(old(State()), State(), p.value)
      ensures live == old(live) - Only(p)
      ensures forall a :: a in live ==> a in old(live) && Bytes(a) == old(Bytes(a))
    {
      if p.None? {
        return;
      }
      hide Sound, Shrank, SameBytes, Kept, BytesOf, Wiped, FirstOnList;
      ghost var h, used, bytes := State(), pool.usedMap[..], pool.memory[..];
      FreeBlock(p.value);
      ShrankFacts(h, State(), used, pool.usedMap[..], p.value);
      SameBlocks(live, h, State(), bytes, pool.memory[..]);
    }

    /** Moves a block's bytes, as many as the old and the new size have room for, to a new block and gives the
        old block back. If there is no memory for the new size, nothing changes. If the new size wraps around
        and the old block is larger than what is served for it, the copy overflows the new block: C leaves
        undefined what happens then, and the state is the one before the copy. */
    method Realloc(oldBlock: Option<nat>, newSize: U32) returns (r: Option<nat>, overflows: bool)
      requires Valid() && (oldBlock.Some? ==> oldBlock.value in live)
      modifies this, pool.usedMap, pool.memory
      ensures Valid()
      ensures newSize == 0 ==> r.None? && live == old(live) - Only(oldBlock)
      ensures newSize > 0 ==> (r.Some? <==> Available(old(State()), old(pool.usedMap[..]), newSize))
      ensures newSize > 0 && r.None? ==> State() == old(State()) && pool.memory[..] == old(pool.memory[..])
      ensures overflows <==>
                && r.Some? && oldBlock.Some?
                && newSize >= WRAPPING && |old(Bytes(oldBlock.value))| > PGSIZE - ARENA_SIZE
      ensures overflows ==>
                && live == old(live) + {r.value} && pool.memory[..] == old(pool.memory[..])
                && |Bytes(r.value)| < Min(newSize, |old(Bytes(oldBlock.value))|)
      ensures r.Some? && !overflows ==>
                Moved(old(State()), State(), old(pool.memory[..]), pool.memory[..], oldBlock, newSize, r.value)
      ensures r.None? ==> forall b :: b in live ==> b in old(live) && Bytes(b) == old(Bytes(b))
    {
      hide Sound, Shrank, Grew, SameBytes, Kept, BytesOf, Available, Class, BigPages;
      overflows := false;
      if newSize == 0 {
        Free(oldBlock);
        return None, false;
      }
      ghost var h, used, bytes := State(), pool.usedMap[..], pool.memory[..];
      r := Malloc(newSize);
      if r.None? {
        return;
      }
      ghost var g, used' := State(), pool.usedMap[..];
      HasLists(h, used);
      AvailableServed(h, used, newSize);
      GrewFacts(h, g, used, used', r.value, newSize, bytes);
      if oldBlock.Some? {
        var oldSize := BlockSize(oldBlock.value);
        var minSize := Min(newSize, oldSize);
        if newSize >= WRAPPING && oldSize > PGSIZE - ARENA_SIZE {
          overflows := true;
          return;
        }
        CopyBlock(oldBlock.value, r.value, minSize);
        Free(oldBlock);
      }
    }

    /** The bytes allocated for a block. */
    method BlockSize(a: nat) returns (size: nat)
      requires Valid() && a in live
      ensures size == |Bytes(a)|
    {
      hide Sound, Size;
      LiveInside(State(), pool.usedMap[..], {}, a);
      SizeAtLeast(State(), pool.usedMap[..], a);
      var arena := arenas[PageOf(a)];
      size := if arena.Small? then descs[arena.desc].blockSize else PGSIZE * arena.pageCnt - a % PGSIZE;
    }

    /** memcpy from a block to another. */
    method CopyBlock(source: nat, target: nat, cnt: nat)
      requires Valid() && source in live && target in live && source != target
      requires cnt <= |Bytes(source)| && cnt <= |Bytes(target)|
      modifies pool.memory
      ensures Valid() && |Bytes(target)| == |old(Bytes(target))|
      ensures Bytes(target)[..cnt] == old(Bytes(source))[..cnt]
      ensures forall b :: b in live && b != target ==> Bytes(b) == old(Bytes(b))
    {
      hide Sound, BytesOf;
      ghost var h, used, bytes := State(), pool.usedMap[..], pool.memory[..];
      InMemory(h, used, bytes, source);
      InMemory(h, used, bytes, target);
      Apart(h, used, source, target);
      Memcpy(pool.memory, target, source, cnt);
      Copied(h, used, bytes, pool.memory[..], source, target, cnt);
    }

    method FreeBlock(a: nat)
      requires Valid() && a in live
      modifies this, pool.usedMap, pool.memory
      ensures Valid()
      ensures Shrank(old(State()), State(), old(pool.usedMap[..]), pool.usedMap[..], a)
      ensures Wiped(old(State()), pool.memory[..], a) && FirstOnList(old(State()), State(), a)
      ensures SameBytes(live, old(State()), old(pool.memory[..]), pool.memory[..])
    {
      hide Sound, Shrank, SameBytes, PageOf, Capacity, Wiped, FirstOnList;
      LiveInside(State(), pool.usedMap[..], {}, a);
      if arenas[PageOf(a)].Small? {
        FreeSmall(a);
      } else {
        FreeBig(a);
      }
    }

    method FreeSmall(a: nat)
      requires Valid() && a in live && PageOf(a) in arenas && arenas[PageOf(a)].Small?
      modifies this, pool.usedMap, pool.memory
      ensures Valid()
      ensures Shrank(old(State()), State(), old(pool.usedMap[..]), pool.usedMap[..], a)
      ensures Wiped(old(State()), pool.memory[..], a) && FirstOnList(old(State()), State(), a)
      ensures SameBytes(live, old(State()), old(pool.memory[..]), pool.memory[..])
    {
      hide Sound, Shrank, PageOf, Count, Size, SameBytes, Run;
      ghost var h, used, bytes := State(), pool.usedMap[..], pool.memory[..];
      var page := PageOf(a);
      SmallArena(h, used, a);
      var d := arenas[page].desc;
      pool.Clear(a, descs[d].blockSize);
      ghost var cleared := pool.memory[..];
      OthersUntouched(h, used, bytes, cleared, a);
      lists := lists[d := [a] + lists[d]];
      live := live - {a};
      arenas := arenas[page := Small(d, arenas[page].freeCnt + 1)];
      if arenas[page].freeCnt >= descs[d].blocksPerArena {
        DroppedShrank(h, used, used[page := false], a);
        DropBlocks(page, used);
        pool.FreeMultiple(page, 1);
        assert pool.usedMap[..] == used[page := false];
        PagesGone(pool.usedMap[..], page, 1);
        UsedUntouched(State(), pool.usedMap[..], cleared, pool.memory[..], page, 1);
        ShrankFacts(h, State(), used, pool.usedMap[..], a);
        SameTwice(h, State(), bytes, cleared, pool.memory[..]);
      } else {
        KeptShrank(h, used, a);
      }
    }

    /** Removes all blocks of an arena whose blocks are all free from the free list, and the arena. */
    method DropBlocks(page: nat, ghost used: seq<bool>)
      requires page in arenas && arenas[page].Small? && arenas[page].desc < |lists| == |descs| == DESC_CNT
      requires descs[arenas[page].desc] == Desc(Size(arenas[page].desc), Count(arenas[page].desc))
      requires Sound(State(), used, {page})
      modifies this`arenas, this`lists
      ensures State() == WithoutArena(old(State()), page)
    {
      hide Sound, PageOf, Count, Size, Address, Distinct, Removed;
      ghost var h, before := State(), lists;
      var d := arenas[page].desc;
      ListedOnPage(h, used, page);
      ghost var done: set<nat> := {};
      ExceptNone(lists[d]);
      for i := 0 to descs[d].blocksPerArena
        invariant arenas == h.arenas && live == h.live && |lists| == |before|
        invariant done == BlockSet(page, d, i) && lists[d] == Except(before[d], done)
        invariant forall e :: 0 <= e < |lists| && e != d ==> lists[e] == before[e]
      {
        ExceptOneMore(before[d], done, Address(page, d, i));
        lists := lists[d := Removed(lists[d], Address(page, d, i))];
        done := done + {Address(page, d, i)};
        assert done == BlockSet(page, d, i + 1);
      }
      ExceptPage(before[d], done, page);
      arenas := Without(arenas, page);
      assert lists == before[d := OffPage(before[d], page)];
    }

    method FreeBig(a: nat)
      requires Valid() && a in live && PageOf(a) in arenas && arenas[PageOf(a)].Big?
      modifies this, pool.usedMap, pool.memory
      ensures Valid()
      ensures Shrank(old(State()), State(), old(pool.usedMap[..]), pool.usedMap[..], a)
      ensures Wiped(old(State()), pool.memory[..], a) && FirstOnList(old(State()), State(), a)
      ensures SameBytes(live, old(State()), old(pool.memory[..]), pool.memory[..])
    {
      hide Sound, Shrank, PageOf, SameBytes, Run;
      ghost var h, used, bytes := State(), pool.usedMap[..], pool.memory[..];
      var page := PageOf(a);
      var pageCnt := arenas[page].pageCnt;
      BigArena(h, used, a);
      pool.FreeMultiple(page, pageCnt);
      BigShrank(h, used, pool.usedMap[..], a);
      arenas := Without(arenas, page);
      live := live - {a};
      PagesGone(pool.usedMap[..], page, pageCnt);
      UsedUntouched(State(), pool.usedMap[..], bytes, pool.memory[..], page, pageCnt);
      ShrankFacts(h, State(), used, pool.usedMap[..], a);
      SameTwice(h, State(), bytes, bytes, pool.memory[..]) by { SameSelf(live, h, bytes); }
    }
  }

  /** Every byte of a block has been overwritten, so that its use after it was freed shows. */
  ghost predicate Wiped(h: Heap, m: seq<Byte>, a: nat) {
    && PageOf(a) in h.arenas && a + Capacity(h.arenas[PageOf(a)]) <= |m|
    && forall x :: a <= x < a + Capacity(h.arenas[PageOf(a)]) ==> m[x] == CLEARED
  }

  /** A freed block of an arena that is kept is the first on its free list. */
  ghost predicate FirstOnList(h: Heap, g: Heap, a: nat) {
    PageOf(a) in g.arenas && g.arenas[PageOf(a)].Small? && g.arenas[PageOf(a)].desc < |h.lists| ==>
      g.lists == h.lists[g.arenas[PageOf(a)].desc := [a] + h.lists[g.arenas[PageOf(a)].desc]]
  }

  lemma ShrankFacts(h: Heap, g: Heap, used: seq<bool>, used': seq<bool>, a: nat)
    requires Shrank(h, g, used, used', a)
    ensures g.live == h.live - {a} && Kept(g.live, h, g)
  {
  }

  method Memcpy(memory: array<Byte>, target: nat, source: nat, cnt: nat)
    requires source + cnt <= memory.Length && target + cnt <= memory.Length
    requires source + cnt <= target || target + cnt <= source
    modifies memory
    ensures forall x :: 0 <= x < memory.Length ==>
              memory[x] == if target <= x < target + cnt then old(memory[source + (x - target)]) else old(memory[x])
    ensures memory[target..target + cnt] == old(memory[source..source + cnt])
  {
    for i := 0 to cnt
      invariant forall x :: 0 <= x < memory.Length ==>
                  memory[x] == if target <= x < target + i then old(memory[source + (x - target)]) else old(memory[x])
    {
      memory[target + i] := memory[source + i];
    }
  }

  /** A call of realloc: the new block has the bytes of the old one, which is not in use any more, as far as
      both reach; and all other blocks in use keep theirs. */
  ghost predicate Moved(h: Heap, g: Heap, m: seq<Byte>, m': seq<Byte>, oldBlock: Option<nat>, newSize: U32, r: nat) {
    && r !in h.live && g.live == h.live - Only(oldBlock) + {r}
    && (|BytesOf(g, m', r)| >= newSize <==> newSize < WRAPPING)
    && (oldBlock.Some? ==>
          var b := BytesOf(h, m, oldBlock.value);
          var kept := Min(newSize, |b|);
          kept <= |BytesOf(g, m', r)| && BytesOf(g, m', r)[..kept] == b[..kept])
    && forall b :: b in g.live && b != r ==> b in h.live && BytesOf(g, m', b) == BytesOf(h, m, b)
  }

  /** The bytes of a block in use are in memory. */
  lemma InMemory(h: Heap, used: seq<bool>, m: seq<Byte>, a: nat)
    requires Sound(h, used, {}) && a in h.live && |m| == |used| * PGSIZE
    ensures a + |BytesOf(h, m, a)| <= |m| && BytesOf(h, m, a) == m[a..a + |BytesOf(h, m, a)|]
    ensures PageOf(a) in h.arenas && Capacity(h.arenas[PageOf(a)]) == |BytesOf(h, m, a)|
  {
    hide Sound, PageOf;
    LiveInside(h, used, {}, a);
    CapacityPositive(h, used, a);
  }

  lemma CapacityPositive(h: Heap, used: seq<bool>, a: nat)
    requires Sound(h, used, {}) && a in h.live
    ensures PageOf(a) in h.arenas && Capacity(h.arenas[PageOf(a)]) >= 0
  {
    hide PageOf, ListOk, Size, Count;
    assert ArenaOk(h, PageOf(a), {});
  }

  lemma Apart(h: Heap, used: seq<bool>, a: nat, b: nat)
    requires Sound(h, used, {}) && a in h.live && b in h.live && a != b
    ensures PageOf(a) in h.arenas && PageOf(b) in h.arenas
    ensures a + Capacity(h.arenas[PageOf(a)]) <= b || b + Capacity(h.arenas[PageOf(b)]) <= a
  {
    hide Sound, PageOf, Capacity;
    if a < b {
      LiveApart(h, used, {}, a, b);
    } else {
      LiveApart(h, used, {}, b, a);
    }
  }

  lemma Copied(h: Heap, used: seq<bool>, m: seq<Byte>, m': seq<Byte>, source: nat, target: nat, cnt: nat)
    requires Sound(h, used, {}) && source in h.live && target in h.live && |m| == |m'| == |used| * PGSIZE
    requires source + cnt <= |m| && cnt <= |BytesOf(h, m, source)| && cnt <= |BytesOf(h, m, target)|
    requires target + cnt <= |m| && m'[target..target + cnt] == m[source..source + cnt]
    requires forall x :: 0 <= x < |m| && !(target <= x < target + cnt) ==> m'[x] == m[x]
    ensures |BytesOf(h, m', target)| == |BytesOf(h, m, target)|
    ensures BytesOf(h, m', target)[..cnt] == BytesOf(h, m, source)[..cnt]
    ensures forall b :: b in h.live && b != target ==> BytesOf(h, m', b) == BytesOf(h, m, b)
  {
    hide Sound, PageOf, Capacity, BytesOf;
    InMemory(h, used, m, source);
    InMemory(h, used, m, target);
    InMemory(h, used, m', target);
    OthersUntouched(h, used, m, m', target);
    KeptSelf(h, used);
    SameBlocks(h.live - {target}, h, h, m, m');
    SlicePrefix(m', target, |BytesOf(h, m', target)|, cnt);
    SlicePrefix(m, source, |BytesOf(h, m, source)|, cnt);
  }

  lemma SlicePrefix(m: seq<Byte>, start: nat, size: nat, cnt: nat)
    requires cnt <= size && start + size <= |m|
    ensures m[start..start + size][..cnt] == m[start..start + cnt]
  {
  }

  lemma AvailableServed(h: Heap, used: seq<bool>, size: U32)
    requires |h.lists| == DESC_CNT && Available(h, used, size)
    ensures Class(size, 0) < DESC_CNT || BigPages(size) > 0
  {
  }

  ghost function Only(p: Option<nat>): set<nat> {
    if p.Some? then {p.value} else {}
  }

  lemma KeptSelf(h: Heap, used: seq<bool>)
    requires Sound(h, used, {})
    ensures Kept(h.live, h, h)
  {
    hide PageOf, ArenaOk, ListOk;
  }

  lemma SizeAtLeast(h: Heap, used: seq<bool>, a: nat)
    requires Sound(h, used, {}) && a in h.live
    ensures PageOf(a) in h.arenas
    ensures h.arenas[PageOf(a)].Small? ==> h.arenas[PageOf(a)].desc < DESC_CNT
    ensures h.arenas[PageOf(a)].Big? ==> a % PGSIZE == ARENA_SIZE && h.arenas[PageOf(a)].pageCnt > 0
  {
    hide ListOk, Size, Count;
    assert ArenaOk(h, PageOf(a), {});
  }

  /** What malloc leaves alone, and how many bytes the block it returns has. */
  lemma GrewFacts(h: Heap, g: Heap, used: seq<bool>, used': seq<bool>, r: nat, size: U32, m: seq<Byte>)
    requires Sound(g, used', {}) && |m| == |used'| * PGSIZE
    requires Grew(h, g, used, used', r, Served(size)) && (Class(size, 0) < DESC_CNT || BigPages(size) > 0)
    ensures r !in h.live && g.live == h.live + {r}
    ensures forall b :: b in h.live ==> BytesOf(g, m, b) == BytesOf(h, m, b)
    ensures |BytesOf(g, m, r)| >= size <==> size < WRAPPING
    ensures size >= WRAPPING ==> |BytesOf(g, m, r)| == PGSIZE - ARENA_SIZE
  {
    hide PageOf, Sound, Class, BigPages, Served;
    ServedSuffices(size);
    if size >= WRAPPING {
      WrappedServed(size);
    }
    LiveInside(g, used', {}, r);
  }

  lemma SameSelf(live: set<nat>, h: Heap, m: seq<Byte>)
    ensures SameBytes(live, h, m, m)
  {
  }

  lemma BigArena(h: Heap, used: seq<bool>, a: nat)
    requires Sound(h, used, {}) && a in h.live && PageOf(a) in h.arenas && h.arenas[PageOf(a)].Big?
    ensures Run(used, PageOf(a), h.arenas[PageOf(a)].pageCnt, true)
    ensures PageOf(a) + h.arenas[PageOf(a)].pageCnt <= |used|
  {
    hide PageOf, ListOk, ArenaOk;
  }

  lemma PagesGone(used: seq<bool>, page: nat, n: nat)
    requires page + n <= |used| && forall k :: page <= k < page + n ==> !used[k]
    ensures Run(used, page, n, false)
  {
  }

  /** The blocks on a free list that lie in a page are that page's blocks. */
  lemma ListedOnPage(h: Heap, used: seq<bool>, page: nat)
    requires Sound(h, used, {page}) && page in h.arenas && h.arenas[page].Small?
    ensures var d := h.arenas[page].desc;
            && d < |h.lists| && Distinct(h.lists[d])
            && forall x :: x in h.lists[d] ==> (x in BlockSet(page, d, Count(d)) <==> PageOf(x) == page)
  {
    hide PageOf, Count, Address, Size, LiveOk, PagesOk;
    assert ArenaOk(h, page, {page});
    var d := h.arenas[page].desc;
    assert ListOk(h.arenas, h.lists[d], d);
    forall i: nat | i < Count(d)
      ensures PageOf(Address(page, d, i)) == page
    {
      BlockInside(page, d, i);
    }
  }

  lemma HasLists(h: Heap, used: seq<bool>)
    requires Sound(h, used, {})
    ensures |h.lists| == DESC_CNT
  {
  }

  lemma OnePageTaken(used: seq<bool>, used': seq<bool>, page: nat)
    requires Run(used, page, 1, false) && |used'| == |used|
    requires forall k :: 0 <= k < |used| ==> (used'[k] <==> used[k] || page <= k < page + 1)
    ensures !used[page] && used' == used[page := true]
  {
  }

  /** The block sizes are the powers of two from 16 up to 1024, below half a page. */
  method MallocInit() returns (descs: seq<Desc>)
    ensures |descs| == DESC_CNT
    ensures forall d :: 0 <= d < |descs| ==> descs[d] == Desc(Size(d), Count(d))
  {
    descs := [];
    var blockSize := 16;
    LastSize();
    while blockSize < PGSIZE / 2
      invariant |descs| <= DESC_CNT && blockSize == Size(|descs|)
      invariant forall d :: 0 <= d < |descs| ==> descs[d] == Desc(Size(d), Count(d))
      decreases PGSIZE - blockSize
    {
      descs := descs + [Desc(blockSize, Fitting(PGSIZE - ARENA_SIZE, blockSize))];
      blockSize := blockSize * 2;
    }
    SmallSizes(|descs|);
  }

  lemma LastSize()
    ensures Size(DESC_CNT - 1) == 1024 && Size(DESC_CNT) == PGSIZE / 2
  {
    assert Size(2) == 64;
    assert Size(4) == 256;
    assert Size(6) == 1024;
  }

  lemma SmallSizes(d: nat)
    requires d <= DESC_CNT && Size(d) >= PGSIZE / 2
    ensures d == DESC_CNT
  {
    if d < DESC_CNT {
      Sizes(d);
    }
  }
}
