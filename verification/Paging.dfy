/** What the page-replacement policies do to the resident pages, and what follows for whole runs.

    A resident list has the page to be replaced next at its head. */
module Paging {
  import opened Basics

  function Without(s: seq<nat>, x: nat): (r: seq<nat>)
    ensures |r| <= |s|
    ensures forall y :: y in r <==> y in s && y != x
    ensures x !in s ==> r == s
  {
    if s == [] then [] else (if s[0] == x then [] else [s[0]]) + Without(s[1..], x)
  }

  function Room<T>(s: seq<T>, frames: nat): seq<T> {
    if s != [] && |s| >= frames then s[1..] else s
  }

  function FifoStep(resident: seq<nat>, frames: nat, page: nat): seq<nat> {
    if page in resident then resident else Room(resident, frames) + [page]
  }

  function LruStep(resident: seq<nat>, frames: nat, page: nat): seq<nat> {
    if page in resident then Without(resident, page) + [page] else Room(resident, frames) + [page]
  }

  datatype Policy = FirstInFirstOut | LeastRecentlyUsed

  function Step(policy: Policy, resident: seq<nat>, frames: nat, page: nat): seq<nat> {
    if policy.FirstInFirstOut? then FifoStep(resident, frames, page) else LruStep(resident, frames, page)
  }

  /** The resident pages after a run of requests. */
  function Run(policy: Policy, resident: seq<nat>, frames: nat, trace: seq<nat>): seq<nat>
    decreases |trace|
  {
    if trace == [] then resident
    else Step(policy, Run(policy, resident, frames, Front(trace)), frames, Last(trace))
  }

  /** How many of the requests of a run had to fetch their page. */
  function Faults(policy: Policy, resident: seq<nat>, frames: nat, trace: seq<nat>): nat
    decreases |trace|
  {
    if trace == [] then 0
    else Faults(policy, resident, frames, Front(trace))
         + if Last(trace) in Run(policy, resident, frames, Front(trace)) then 0 else 1
  }

  function Front<T>(s: seq<T>): seq<T>
    requires s != []
  {
    s[..|s| - 1]
  }

  function Last<T>(s: seq<T>): T
    requires s != []
  {
    s[|s| - 1]
  }

  /** The distinct pages of a run, the most recently requested last. */
  function ByRecency(trace: seq<nat>): (r: seq<nat>)
    ensures forall p :: p in r <==> p in trace
    decreases |trace|
  {
    if trace == [] then []
    else
      assert trace == Front(trace) + [Last(trace)];
      Without(ByRecency(Front(trace)), Last(trace)) + [Last(trace)]
  }

  lemma {:induction false} WithoutDistinct(s: seq<nat>, x: nat)
    requires Distinct(s)
    ensures Distinct(Without(s, x))
    ensures |Without(s, x)| == if x in s then |s| - 1 else |s|
  {
    if s != [] {
      WithoutDistinct(s[1..], x);
      var rest := Without(s[1..], x);
      assert s[0] !in s[1..];
      assert s == [s[0]] + s[1..];
      assert s[0] !in rest && (s[0] != x ==> Without(s, x) == [s[0]] + rest);
    }
  }

  lemma {:induction false} WithoutAppend(s: seq<nat>, t: seq<nat>, x: nat)
    ensures Without(s + t, x) == Without(s, x) + Without(t, x)
  {
    if s == [] {
      assert s + t == t;
    } else {
      var first := if s[0] == x then [] else [s[0]];
      calc {
        Without(s + t, x);
        { assert (s + t)[0] == s[0] && (s + t)[1..] == s[1..] + t; }
        first + Without(s[1..] + t, x);
        { WithoutAppend(s[1..], t, x); }
        first + (Without(s[1..], x) + Without(t, x));
        (first + Without(s[1..], x)) + Without(t, x);
      }
    }
  }

  lemma {:induction false} WithoutAt(s: seq<nat>, k: nat)
    requires k < |s| && Distinct(s)
    ensures Without(s, s[k]) == s[..k] + s[k + 1..]
  {
    var rest := s[1..];
    if k == 0 {
      assert s[0] !in rest;
      assert Without(s, s[0]) == [] + Without(rest, s[0]);
    } else {
      assert s[k] == rest[k - 1] && s[0] != s[k];
      WithoutAt(rest, k - 1);
      hide Distinct;
      assert Without(s, s[k]) == [s[0]] + Without(rest, s[k]);
      assert [s[0]] + (rest[..k - 1] + rest[k..]) == s[..k] + s[k + 1..];
    }
  }

  lemma {:induction false} ByRecencyDistinct(trace: seq<nat>)
    ensures Distinct(ByRecency(trace))
    decreases |trace|
  {
    if trace != [] {
      ByRecencyDistinct(Front(trace));
      WithoutDistinct(ByRecency(Front(trace)), Last(trace));
    }
  }

  /** The last k elements. */
  function Suffix<T>(s: seq<T>, k: nat): seq<T> {
    if |s| <= k then s else s[|s| - k..]
  }

  lemma SuffixWithout(s: seq<nat>, x: nat, k: nat)
    requires Distinct(s) && k > 0
    ensures Suffix(Without(s, x) + [x], k)
            == if x in Suffix(s, k) then Without(Suffix(s, k), x) + [x] else Room(Suffix(s, k), k) + [x]
  {
    var head, tail := s[..|s| - |Suffix(s, k)|], Suffix(s, k);
    assert s == head + tail;
    WithoutAppend(head, tail, x);
    SuffixOfParts(head, tail, x, k);
  }

  lemma SuffixOfParts(head: seq<nat>, tail: seq<nat>, x: nat, k: nat)
    requires Distinct(head + tail) && k > 0 && |tail| <= k && (head != [] ==> |tail| == k)
    ensures Suffix(Without(head, x) + Without(tail, x) + [x], k)
            == if x in tail then Without(tail, x) + [x] else Room(tail, k) + [x]
  {
    hide Without, Distinct;
    DistinctParts(head, tail);
    WithoutDistinct(head, x);
    WithoutDistinct(tail, x);
    var head', tail' := Without(head, x), Without(tail, x);
    if x in tail {
      assert x !in head;
      assert head' + tail' + [x] == head + (tail' + [x]);
      SuffixOfConcat(head, tail' + [x], k);
    } else if |tail| < k {
      assert head' + tail' + [x] == tail + [x];
    } else {
      assert head' + tail' + [x] == (head' + [tail[0]]) + (tail[1..] + [x]);
      SuffixOfConcat(head' + [tail[0]], tail[1..] + [x], k);
    }
  }

  lemma SuffixOfConcat(s: seq<nat>, t: seq<nat>, k: nat)
    requires |t| == k || (s == [] && |t| <= k)
    ensures Suffix(s + t, k) == t
  {
  }

  lemma DistinctParts(s: seq<nat>, t: seq<nat>)
    requires Distinct(s + t)
    ensures Distinct(s) && Distinct(t)
    ensures forall x :: x in s ==> x !in t
  {
    assert forall i :: 0 <= i < |s| ==> s[i] == (s + t)[i];
    assert forall i :: 0 <= i < |t| ==> t[i] == (s + t)[|s| + i];
  }

  /** Least-recently-used keeps the k most recently requested distinct pages. */
  lemma {:induction false} LruKeepsMostRecent(k: nat, trace: seq<nat>)
    requires k > 0
    ensures Run(LeastRecentlyUsed, [], k, trace) == Suffix(ByRecency(trace), k)
    decreases |trace|
  {
    if trace != [] {
      LruKeepsMostRecent(k, Front(trace));
      ByRecencyDistinct(Front(trace));
      SuffixWithout(ByRecency(Front(trace)), Last(trace), k);
    }
  }

  /** Fewer frames hold a subset of what more frames hold. */
  lemma LruInclusion(k: nat, m: nat, trace: seq<nat>, page: nat)
    requires 0 < k <= m
    ensures page in Run(LeastRecentlyUsed, [], k, trace) ==> page in Run(LeastRecentlyUsed, [], m, trace)
  {
    hide Run, ByRecency;
    LruKeepsMostRecent(k, trace);
    LruKeepsMostRecent(m, trace);
    var s := ByRecency(trace);
    assert |s| > m ==> Suffix(s, k) == s[|s| - m..][m - k..];
    assert k < |s| <= m ==> Suffix(s, k) == s[|s| - k..];
  }

  /** More frames never cause more faults. */
  lemma {:induction false} LruFaultsMonotone(k: nat, m: nat, trace: seq<nat>)
    requires 0 < k <= m
    ensures Faults(LeastRecentlyUsed, [], m, trace) <= Faults(LeastRecentlyUsed, [], k, trace)
    decreases |trace|
  {
    if trace != [] {
      LruFaultsMonotone(k, m, Front(trace));
      LruInclusion(k, m, Front(trace), Last(trace));
    }
  }

  // --------------------------------------------------------------------------
  // First in, first out

  /** The pages that a run fetched, in the order of fetching. */
  function Fetched(policy: Policy, frames: nat, trace: seq<nat>): seq<nat>
    decreases |trace|
  {
    if trace == [] then []
    else
      Fetched(policy, frames, Front(trace))
      + if Last(trace) in Run(policy, [], frames, Front(trace)) then [] else [Last(trace)]
  }

  lemma {:induction false} FetchedFaults(policy: Policy, frames: nat, trace: seq<nat>)
    ensures |Fetched(policy, frames, trace)| == Faults(policy, [], frames, trace)
    decreases |trace|
  {
    if trace != [] {
      FetchedFaults(policy, frames, Front(trace));
    }
  }

  /** First-in-first-out keeps the k pages fetched last, the one fetched longest ago at the head. */
  lemma {:induction false} FifoKeepsLastFetched(k: nat, trace: seq<nat>)
    requires k > 0
    ensures Run(FirstInFirstOut, [], k, trace) == Suffix(Fetched(FirstInFirstOut, k, trace), k)
    decreases |trace|
  {
    if trace != [] {
      FifoKeepsLastFetched(k, Front(trace));
      SuffixMore(Fetched(FirstInFirstOut, k, Front(trace)), Last(trace), k);
    }
  }

  /** Requests that first-in-first-out serves with fewer fetches from three frames than from four. */
  const ANOMALY := [1, 2, 3, 4] + [1, 2, 5, 1] + [2, 3, 4, 5]

  /** More frames can fault more. */
  lemma FifoAnomaly()
    ensures Faults(FirstInFirstOut, [], 3, ANOMALY) == 9
    ensures Faults(FirstInFirstOut, [], 4, ANOMALY) == 10
  {
    hide FifoStep;
    ThreeFrames();
    ThreeFramesLater();
    FourFrames();
    assert [] + [1, 2, 3, 4] == [1, 2, 3, 4];
    FourRequests(3, [], [], [1], [1, 2], [1, 2, 3], 0, 1, 2, 3, 4);
    FourRequests(3, [1, 2, 3, 4], [2, 3, 4], [3, 4, 1], [4, 1, 2], [1, 2, 5], 4, 1, 2, 5, 1);
    FourRequests(3, [1, 2, 3, 4] + [1, 2, 5, 1], [1, 2, 5], [1, 2, 5], [2, 5, 3], [5, 3, 4], 7, 2, 3, 4, 5);
    FourRequests(4, [], [], [1], [1, 2], [1, 2, 3], 0, 1, 2, 3, 4);
    FourRequests(4, [1, 2, 3, 4], [1, 2, 3, 4], [1, 2, 3, 4], [1, 2, 3, 4], [2, 3, 4, 5], 4, 1, 2, 5, 1);
    FourRequests(4, [1, 2, 3, 4] + [1, 2, 5, 1], [3, 4, 5, 1], [4, 5, 1, 2], [5, 1, 2, 3], [1, 2, 3, 4], 6, 2, 3, 4, 5);
  }

  lemma ThreeFrames()
    ensures FifoStep([], 3, 1) == [1] && FifoStep([1], 3, 2) == [1, 2] && FifoStep([1, 2], 3, 3) == [1, 2, 3]
    ensures FifoStep([1, 2, 3], 3, 4) == [2, 3, 4] && FifoStep([2, 3, 4], 3, 1) == [3, 4, 1]
    ensures FifoStep([3, 4, 1], 3, 2) == [4, 1, 2] && FifoStep([4, 1, 2], 3, 5) == [1, 2, 5]
  {
  }

  lemma ThreeFramesLater()
    ensures FifoStep([1, 2, 5], 3, 1) == [1, 2, 5] && FifoStep([1, 2, 5], 3, 2) == [1, 2, 5]
    ensures FifoStep([1, 2, 5], 3, 3) == [2, 5, 3] && FifoStep([2, 5, 3], 3, 4) == [5, 3, 4]
    ensures FifoStep([5, 3, 4], 3, 5) == [5, 3, 4]
  {
  }

  lemma FourFrames()
    ensures FifoStep([], 4, 1) == [1] && FifoStep([1], 4, 2) == [1, 2] && FifoStep([1, 2], 4, 3) == [1, 2, 3]
    ensures FifoStep([1, 2, 3], 4, 4) == [1, 2, 3, 4] && FifoStep([1, 2, 3, 4], 4, 1) == [1, 2, 3, 4]
    ensures FifoStep([1, 2, 3, 4], 4, 2) == [1, 2, 3, 4] && FifoStep([1, 2, 3, 4], 4, 5) == [2, 3, 4, 5]
    ensures FifoStep([2, 3, 4, 5], 4, 1) == [3, 4, 5, 1] && FifoStep([3, 4, 5, 1], 4, 2) == [4, 5, 1, 2]
    ensures FifoStep([4, 5, 1, 2], 4, 3) == [5, 1, 2, 3] && FifoStep([5, 1, 2, 3], 4, 4) == [1, 2, 3, 4]
  {
  }

  /** The resident pages and the faults so far of a run. */
  ghost predicate Reached(frames: nat, trace: seq<nat>, resident: seq<nat>, faults: nat) {
    Run(FirstInFirstOut, [], frames, trace) == resident && Faults(FirstInFirstOut, [], frames, trace) == faults
  }

  function FaultsOf(resident: seq<nat>, page: nat): nat {
    if page in resident then 0 else 1
  }

  lemma FourRequests(frames: nat, trace: seq<nat>, resident: seq<nat>, r1: seq<nat>, r2: seq<nat>, r3: seq<nat>,
                     faults: nat, a: nat, b: nat, c: nat, d: nat)
    requires Reached(frames, trace, resident, faults)
    requires r1 == FifoStep(resident, frames, a) && r2 == FifoStep(r1, frames, b) && r3 == FifoStep(r2, frames, c)
    ensures Reached(frames, trace + [a, b, c, d], FifoStep(r3, frames, d),
                    faults + FaultsOf(resident, a) + FaultsOf(r1, b) + FaultsOf(r2, c) + FaultsOf(r3, d))
  {
    hide FifoStep, Reached;
    OneRequest(frames, trace, resident, faults, a);
    OneRequest(frames, trace + [a], r1, faults + FaultsOf(resident, a), b);
    OneRequest(frames, trace + [a] + [b], r2, faults + FaultsOf(resident, a) + FaultsOf(r1, b), c);
    OneRequest(frames, trace + [a] + [b] + [c], r3,
               faults + FaultsOf(resident, a) + FaultsOf(r1, b) + FaultsOf(r2, c), d);
    assert trace + [a] + [b] + [c] + [d] == trace + [a, b, c, d];
  }

  lemma OneRequest(frames: nat, trace: seq<nat>, resident: seq<nat>, faults: nat, page: nat)
    requires Reached(frames, trace, resident, faults)
    ensures Reached(frames, trace + [page], FifoStep(resident, frames, page), faults + FaultsOf(resident, page))
  {
    assert Front(trace + [page]) == trace && Last(trace + [page]) == page;
  }

  lemma SuffixMore(s: seq<nat>, x: nat, k: nat)
    requires k > 0
    ensures Suffix(s + [x], k) == Room(Suffix(s, k), k) + [x]
    ensures s + [] == s
  {
  }

  // --------------------------------------------------------------------------
  // Conservative policies

  /** What a run with few distinct pages leaves of the resident list: some of what was there before,
      followed by the pages it requested, in the order the policy keeps them. */
  ghost predicate Split(resident: seq<nat>, kept: seq<nat>, recent: seq<nat>) {
    resident == kept + recent && Distinct(resident)
  }

  /** From a state in which at most `frames` pages are resident, requests that name at most `frames`
      distinct pages, those of `pages`, cause at most one fault for each of them. */
  lemma {:induction false} WindowFaults(policy: Policy, start: seq<nat>, frames: nat, window: seq<nat>, pages: set<nat>)
    returns (kept: seq<nat>, recent: seq<nat>)
    requires Distinct(start) && |start| <= frames && frames > 0
    requires (forall p :: p in window ==> p in pages) && |pages| <= frames
    ensures Split(Run(policy, start, frames, window), kept, recent)
    ensures |Run(policy, start, frames, window)| <= frames
    ensures forall p :: p in recent ==> p in window
    ensures Faults(policy, start, frames, window) <= |recent| <= |pages|
    decreases |window|
  {
    if window == [] {
      kept, recent := start, [];
      assert start + [] == start;
    } else {
      var front, page := Front(window), Last(window);
      assert window == front + [page];
      kept, recent := WindowFaults(policy, start, frames, front, pages);
      if page in kept + recent {
        kept, recent := HitInWindow(policy, frames, kept, recent, page);
      } else {
        kept, recent := FaultInWindow(policy, frames, kept, recent, page, pages);
      }
      DistinctFits(recent, pages) by { DistinctParts(kept, recent); }
    }
  }

  lemma HitInWindow(policy: Policy, frames: nat, kept: seq<nat>, recent: seq<nat>, page: nat)
    returns (kept': seq<nat>, recent': seq<nat>)
    requires Distinct(kept + recent) && page in kept + recent
    ensures Split(Step(policy, kept + recent, frames, page), kept', recent')
    ensures |kept' + recent'| == |kept + recent|
    ensures |recent| <= |recent'| && forall p :: p in recent' ==> p in recent || p == page
  {
    if policy.FirstInFirstOut? {
      return kept, recent;
    }
    DistinctParts(kept, recent);
    WithoutAppend(kept, recent, page);
    WithoutDistinct(kept, page);
    WithoutDistinct(recent, page);
    WithoutDistinct(kept + recent, page);
    kept', recent' := Without(kept, page), Without(recent, page) + [page];
    assert kept' + recent' == Without(kept + recent, page) + [page];
  }

  lemma FaultInWindow(policy: Policy, frames: nat, kept: seq<nat>, recent: seq<nat>, page: nat, pages: set<nat>)
    returns (kept': seq<nat>, recent': seq<nat>)
    requires Distinct(kept + recent) && |kept + recent| <= frames && page !in kept + recent
    requires (forall p :: p in recent + [page] ==> p in pages) && |pages| <= frames
    ensures Split(Step(policy, kept + recent, frames, page), kept', recent')
    ensures |kept' + recent'| <= frames
    ensures recent' == recent + [page]
  {
    DistinctParts(kept, recent);
    DistinctFits(recent + [page], pages);
    recent' := recent + [page];
    kept' := if |kept + recent| >= frames then kept[1..] else kept;
    assert kept' + recent' == Room(kept + recent, frames) + [page];
  }

  lemma {:induction false} RunBounded(policy: Policy, frames: nat, trace: seq<nat>)
    requires frames > 0
    ensures Distinct(Run(policy, [], frames, trace)) && |Run(policy, [], frames, trace)| <= frames
    decreases |trace|
  {
    if trace != [] {
      RunBounded(policy, frames, Front(trace));
      WithoutDistinct(Run(policy, [], frames, Front(trace)), Last(trace));
    }
  }

  lemma {:induction false} RunAppend(policy: Policy, start: seq<nat>, frames: nat, s: seq<nat>, t: seq<nat>)
    ensures Run(policy, start, frames, s + t) == Run(policy, Run(policy, start, frames, s), frames, t)
    ensures Faults(policy, start, frames, s + t)
            == Faults(policy, start, frames, s) + Faults(policy, Run(policy, start, frames, s), frames, t)
    decreases |t|
  {
    if t == [] {
      assert s + t == s;
    } else {
      assert Front(s + t) == s + Front(t) && Last(s + t) == Last(t);
      RunAppend(policy, start, frames, s, Front(t));
    }
  }

  ghost function PagesIn(trace: seq<nat>): set<nat> {
    set p | p in trace
  }

  /** Both policies are conservative: after any run, a stretch of requests that names at most `frames`
      distinct pages fetches each of them at most once. */
  lemma Conservative(policy: Policy, frames: nat, before: seq<nat>, window: seq<nat>)
    requires frames > 0 && |PagesIn(window)| <= frames
    ensures Faults(policy, [], frames, before + window)
            <= Faults(policy, [], frames, before) + |PagesIn(window)|
  {
    RunBounded(policy, frames, before);
    RunAppend(policy, [], frames, before, window);
    var kept, recent := WindowFaults(policy, Run(policy, [], frames, before), frames, window, PagesIn(window));
  }
}
