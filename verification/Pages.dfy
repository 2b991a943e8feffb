/** The page allocator: groups of contiguous pages out of a pool, whose addresses count from its base. */
module Pages {
  import opened Basics
  import opened Bitmaps

  const PGSIZE := 4096

  const CLEARED: Byte := 0xcc

  class Pool {
    const usedMap: array<bool>
    const memory: array<Byte>

    ghost predicate Valid() {
      memory.Length == usedMap.Length * PGSIZE
    }

    constructor (pageCnt: nat)
      ensures Valid() && fresh(usedMap) && fresh(memory) && usedMap.Length == pageCnt
      ensures forall k :: 0 <= k < pageCnt ==> !usedMap[k]
    {
      usedMap := new bool[pageCnt](_ => false);
      memory := new Byte[pageCnt * PGSIZE];
    }

    /** The first group of contiguous free pages, now in use; none if there is no such group. */
    method GetMultiple(pageCnt: nat) returns (page: Option<nat>)
      modifies usedMap
      ensures page.Some? <==> pageCnt > 0 && exists k: nat :: Run(old(usedMap[..]), k, pageCnt, false)
      ensures page.Some? ==> Run(old(usedMap[..]), page.value, pageCnt, false)
      ensures page.Some? ==> forall k: nat :: k < page.value ==> !Run(old(usedMap[..]), k, pageCnt, false)
      ensures page.Some? ==> forall k :: 0 <= k < usedMap.Length ==>
                               (usedMap[k] <==> old(usedMap[k]) || page.value <= k < page.value + pageCnt)
      ensures page.None? ==> usedMap[..] == old(usedMap[..])
    {
      if pageCnt == 0 {
        return None;
      }
      var found, idx := ScanAndFlip(usedMap, pageCnt, false);
      return if found then Some(idx) else None;
    }

    /** Gives a group of pages in use back, after clearing it. */
    method FreeMultiple(page: nat, pageCnt: nat)
      requires Valid() && Run(usedMap[..], page, pageCnt, true)
      modifies usedMap, memory
      ensures forall k :: 0 <= k < usedMap.Length ==>
                (usedMap[k] <==> old(usedMap[k]) && !(page <= k < page + pageCnt))
      ensures forall x :: 0 <= x < memory.Length ==>
                memory[x] == if page * PGSIZE <= x < (page + pageCnt) * PGSIZE then CLEARED else old(memory[x])
    {
      if pageCnt == 0 {
        return;
      }
      Clear(page * PGSIZE, pageCnt * PGSIZE);
      SetMultiple(usedMap, page, pageCnt, false);
    }

    /** memset to 0xcc, so that use of memory after it was freed shows. */
    method Clear(start: nat, size: nat)
      requires start + size <= memory.Length
      modifies memory
      ensures forall x :: 0 <= x < memory.Length ==>
                memory[x] == if start <= x < start + size then CLEARED else old(memory[x])
    {
      for i := 0 to size
        invariant forall x :: 0 <= x < memory.Length ==>
                    memory[x] == if start <= x < start + i then CLEARED else old(memory[x])
      {
        memory[start + i] := CLEARED;
      }
    }
  }
}
