/** The pager: a queue of resident pages, replaced first-in-first-out or least-recently-used. */
module Pager {
  import opened Basics
  import opened Paging

  datatype Page = Page(num: nat, lastRequest: int, frequency: nat)

  function Nums(q: seq<Page>): (r: seq<nat>)
    ensures |r| == |q|
  {
    seq(|q|, i requires 0 <= i < |q| => q[i].num)
  }

  /** Strictly increasing request times. */
  ghost predicate ByAge(q: seq<Page>) {
    forall i, j :: 0 <= i < j < |q| ==> q[i].lastRequest < q[j].lastRequest
  }

  ghost predicate Sorted(q: seq<Page>) {
    forall i, j :: 0 <= i < j < |q| ==> q[i].lastRequest <= q[j].lastRequest
  }

  /** A sorting of pages with different request times is the only one. */
  lemma {:induction false} SortingUnique(s: seq<Page>, t: seq<Page>)
    requires multiset(s) == multiset(t) && ByAge(s) && Sorted(t)
    ensures s == t
  {
    assert |multiset(s)| == |s| && |multiset(t)| == |t|;
    if s != [] {
      SameHead(s, t);
      MultisetTail(s);
      MultisetTail(t);
      SortingUnique(s[1..], t[1..]);
      assert s == [s[0]] + s[1..] && t == [t[0]] + t[1..];
    }
  }

  lemma SameHead(s: seq<Page>, t: seq<Page>)
    requires s != [] && t != [] && multiset(s) == multiset(t) && ByAge(s) && Sorted(t)
    ensures s[0] == t[0]
  {
    assert t[0] in multiset(s) && s[0] in multiset(t);
  }

  lemma MultisetTail(s: seq<Page>)
    requires s != []
    ensures multiset(s[1..]) == multiset(s) - multiset{s[0]}
  {
    assert s == [s[0]] + s[1..];
  }

  /** The queue's sort, least recent request first. Its source is not part of this model: any sort will do. */
  method SortByRequest(q: seq<Page>) returns (r: seq<Page>)
    ensures multiset(r) == multiset(q) && Sorted(r)
  {
    r := [];
    for i := 0 to |q|
      invariant multiset(r) == multiset(q[..i]) && Sorted(r)
    {
      r := Insert(r, q[i]);
      assert q[..i + 1] == q[..i] + [q[i]];
    }
    assert q[..|q|] == q;
  }

  method Insert(q: seq<Page>, page: Page) returns (r: seq<Page>)
    requires Sorted(q)
    ensures multiset(r) == multiset(q) + multiset{page} && Sorted(r)
  {
    var k := 0;
    while k < |q| && q[k].lastRequest <= page.lastRequest
      invariant 0 <= k <= |q|
      invariant forall j :: 0 <= j < k ==> q[j].lastRequest <= page.lastRequest
    {
      k := k + 1;
    }
    InsertMultiset(q, k, page);
    r := q[..k] + [page] + q[k..];
  }

  lemma InsertMultiset(q: seq<Page>, k: nat, page: Page)
    requires k <= |q|
    ensures multiset(q[..k] + [page] + q[k..]) == multiset(q) + multiset{page}
  {
    assert q == q[..k] + q[k..];
  }

  /** byAge lists the pages of the queue, the one requested longest ago first. */
  ghost predicate Aged(queue: seq<Page>, byAge: seq<Page>, lastTime: int) {
    && multiset(queue) == multiset(byAge)
    && ByAge(byAge)
    && Distinct(Nums(byAge))
    && forall i :: 0 <= i < |byAge| ==> byAge[i].lastRequest <= lastTime
  }

  lemma AgedMembers(queue: seq<Page>, byAge: seq<Page>, lastTime: int)
    requires Aged(queue, byAge, lastTime)
    ensures forall page :: page in queue <==> page in byAge
    ensures forall num :: num in Nums(queue) <==> num in Nums(byAge)
  {
    assert forall page :: page in queue <==> page in multiset(queue);
    assert forall page :: page in byAge <==> page in multiset(byAge);
    NumsMembers(queue);
    NumsMembers(byAge);
  }

  lemma NumsMembers(q: seq<Page>)
    ensures forall num :: num in Nums(q) <==> exists page :: page in q && page.num == num
  {
    assert forall i :: 0 <= i < |q| ==> Nums(q)[i] == q[i].num && q[i] in q;
    forall page | page in q ensures page.num in Nums(q) {
      var i :| 0 <= i < |q| && q[i] == page;
      assert Nums(q)[i] == page.num;
    }
  }

  /** A page requested again goes to the young end. */
  lemma HitAges(queue: seq<Page>, byAge: seq<Page>, lastTime: int, i: nat, now: int) returns (byAge': seq<Page>)
    requires Aged(queue, byAge, lastTime) && i < |queue| && lastTime < now
    ensures Aged(queue[i := queue[i].(lastRequest := now)], byAge', now)
    ensures Nums(byAge') == Without(Nums(byAge), queue[i].num) + [queue[i].num]
    ensures Nums(queue[i := queue[i].(lastRequest := now)]) == Nums(queue)
  {
    AgedMembers(queue, byAge, lastTime);
    assert queue[i] in queue;
    var k :| 0 <= k < |byAge| && byAge[k] == queue[i];
    var young := queue[i].(lastRequest := now);
    byAge' := byAge[..k] + byAge[k + 1..] + [young];
    MoveToEnd(byAge, k, young);
    HitNums(byAge, k, young);
    assert Nums(queue[i := young]) == Nums(queue);
  }

  lemma MoveToEnd(q: seq<Page>, k: nat, young: Page)
    requires k < |q| && ByAge(q) && forall i :: 0 <= i < |q| ==> q[i].lastRequest < young.lastRequest
    ensures var r := q[..k] + q[k + 1..] + [young];
            && multiset(r) == multiset(q) - multiset{q[k]} + multiset{young}
            && ByAge(r)
            && forall i :: 0 <= i < |r| ==> r[i].lastRequest <= young.lastRequest
  {
    var rest := q[..k] + q[k + 1..];
    RemoveMultiset(q, k);
    assert forall i :: 0 <= i < |rest| ==> rest[i] == q[if i < k then i else i + 1];
    assert forall i :: 0 <= i <= |rest| ==> (rest + [young])[i] == if i < |rest| then rest[i] else young;
  }

  lemma RemoveMultiset(q: seq<Page>, k: nat)
    requires k < |q|
    ensures multiset(q[..k] + q[k + 1..]) == multiset(q) - multiset{q[k]}
  {
    assert q == q[..k] + [q[k]] + q[k + 1..];
  }

  lemma HitNums(byAge: seq<Page>, k: nat, young: Page)
    requires k < |byAge| && young.num == byAge[k].num && Distinct(Nums(byAge))
    ensures Nums(byAge[..k] + byAge[k + 1..] + [young]) == Without(Nums(byAge), young.num) + [young.num]
    ensures Distinct(Nums(byAge[..k] + byAge[k + 1..] + [young]))
  {
    var nums := Nums(byAge);
    WithoutAt(nums, k);
    WithoutDistinct(nums, young.num);
    assert Nums(byAge[..k] + byAge[k + 1..] + [young]) == nums[..k] + nums[k + 1..] + [young.num];
  }

  /** A new page joins at the young end, after the oldest made room for it if need be. */
  lemma FaultAges(byAge: seq<Page>, lastTime: int, frames: nat, page: Page)
    requires Aged(byAge, byAge, lastTime) && lastTime < page.lastRequest && page.num !in Nums(byAge)
    ensures Aged(Room(byAge, frames) + [page], Room(byAge, frames) + [page], page.lastRequest)
    ensures Nums(Room(byAge, frames) + [page]) == Room(Nums(byAge), frames) + [page.num]
  {
    RoomNums(byAge, frames, page);
  }

  lemma RoomNums(q: seq<Page>, frames: nat, page: Page)
    requires Distinct(Nums(q)) && page.num !in Nums(q)
    ensures Nums(Room(q, frames) + [page]) == Room(Nums(q), frames) + [page.num]
    ensures Distinct(Nums(Room(q, frames) + [page]))
  {
    assert forall i :: 0 <= i < |Room(q, frames)| ==> Room(Nums(q), frames)[i] in Nums(q);
  }

  class Pager {
    const policy: Policy
    const frames: nat
    var queue: seq<Page>
    /** The queue's pages by the time of their last request; kept for the least-recently-used policy. */
    ghost var byAge: seq<Page>
    ghost var lastTime: int
    ghost var faults: nat

    ghost predicate Valid()
      reads this
    {
      && frames > 0
      && Distinct(Nums(queue))
      && (policy.LeastRecentlyUsed? ==> Aged(queue, byAge, lastTime))
    }

    /** The resident pages, the one to be replaced next first. */
    ghost function Resident(): seq<nat>
      reads this
    {
      if policy.FirstInFirstOut? then Nums(queue) else Nums(byAge)
    }

    constructor (policy: Policy, frames: nat, ghost startTime: int)
      requires frames > 0
      ensures Valid() && Resident() == [] && faults == 0 && lastTime == startTime
      ensures this.policy == policy && this.frames == frames
    {
      this.policy, this.frames := policy, frames;
      queue, byAge, lastTime, faults := [], [], startTime, 0;
    }

    method Find(page: nat) returns (found: bool, i: nat)
      ensures found <==> page in Nums(queue)
      ensures found ==> i < |queue| && queue[i].num == page
    {
      i := 0;
      while i < |queue|
        invariant 0 <= i <= |queue|
        invariant forall j :: 0 <= j < i ==> queue[j].num != page
      {
        if queue[i].num == page {
          assert Nums(queue)[i] == page;
          return true, i;
        }
        i := i + 1;
      }
      return false, 0;
    }

    /** A request for a page, at a time later than that of any request before. */
    method Request(page: nat, now: int)
      requires Valid() && lastTime < now
      modifies this
      ensures Valid() && lastTime == now
      ensures Resident() == Step(policy, old(Resident()), frames, page)
      ensures faults == old(faults) + if page in old(Resident()) then 0 else 1
    {
      hide Aged, Nums, Without, Distinct;
      var found, i := Find(page);
      if policy.FirstInFirstOut? {
        if !found {
          RoomNums(queue, frames, Page(page, 0, 0));
          faults := faults + 1;
          if |queue| >= frames {
            queue := queue[1..];
          }
          queue := queue + [Page(page, 0, 0)];
        }
      } else if !found {
        AgedMembers(queue, byAge, lastTime);
        var sorted := SortByRequest(queue);
        AgedSorted(queue, byAge, lastTime, sorted);
        FaultAges(byAge, lastTime, frames, Page(page, now, 0));
        AgedDistinct(Room(sorted, frames) + [Page(page, now, 0)], Room(sorted, frames) + [Page(page, now, 0)], now);
        faults := faults + 1;
        queue := sorted;
        if |queue| >= frames {
          queue := queue[1..];
        }
        queue := queue + [Page(page, now, 0)];
        byAge := queue;
      } else {
        AgedMembers(queue, byAge, lastTime);
        ghost var aged := HitAges(queue, byAge, lastTime, i, now);
        queue := queue[i := queue[i].(lastRequest := now)];
        byAge := aged;
      }
      lastTime := now;
    }
  }

  lemma AgedDistinct(queue: seq<Page>, byAge: seq<Page>, lastTime: int)
    requires Aged(queue, byAge, lastTime) && queue == byAge
    ensures Distinct(Nums(queue))
  {
  }

  /** Sorting the queue by request time puts it in order of age. */
  lemma AgedSorted(queue: seq<Page>, byAge: seq<Page>, lastTime: int, sorted: seq<Page>)
    requires Aged(queue, byAge, lastTime) && multiset(sorted) == multiset(queue) && Sorted(sorted)
    ensures sorted == byAge && Aged(byAge, byAge, lastTime)
  {
    SortingUnique(byAge, sorted);
  }

  /** A pager serving a run of requests holds the pages, and fetches as many, as its policy says. */
  method Serve(policy: Policy, frames: nat, trace: seq<nat>, times: seq<int>) returns (pager: Pager)
    requires frames > 0 && |times| == |trace| && forall i, j :: 0 <= i < j < |times| ==> times[i] < times[j]
    ensures pager.Valid() && pager.Resident() == Run(policy, [], frames, trace)
    ensures pager.faults == Faults(policy, [], frames, trace)
  {
    pager := new Pager(policy, frames, if times == [] then 0 else times[0] - 1);
    for i := 0 to |trace|
      invariant pager.Valid() && pager.policy == policy && pager.frames == frames && fresh(pager)
      invariant i < |times| ==> pager.lastTime < times[i]
      invariant pager.Resident() == Run(policy, [], frames, trace[..i])
      invariant pager.faults == Faults(policy, [], frames, trace[..i])
    {
      pager.Request(trace[i], times[i]);
      assert Front(trace[..i + 1]) == trace[..i] && Last(trace[..i + 1]) == trace[i];
    }
    assert trace[..|trace|] == trace;
  }
}
