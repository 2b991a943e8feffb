/** Bitmaps: the free map's and the page pools'. */
module Bitmaps {

  ghost predicate Run(map_: seq<bool>, start: nat, cnt: nat, value: bool) {
    start + cnt <= |map_| && forall k :: start <= k < start + cnt ==> map_[k] == value
  }

  ghost function UsedIn(map_: seq<bool>): set<nat> {
    set s: nat | s < |map_| && map_[s]
  }

  /** Whether any of `cnt` bits from `start` on has the given value. */
  method Contains(bits: array<bool>, start: nat, cnt: nat, value: bool) returns (r: bool)
    requires start + cnt <= bits.Length
    ensures r <==> !Run(bits[..], start, cnt, !value)
  {
    for i := 0 to cnt
      invariant Run(bits[..], start, i, !value)
    {
      if bits[start + i] == value {
        return true;
      }
    }
    return false;
  }

  method SetMultiple(bits: array<bool>, start: nat, cnt: nat, value: bool)
    requires start + cnt <= bits.Length
    modifies bits
    ensures forall k :: 0 <= k < bits.Length ==>
              bits[k] == if start <= k < start + cnt then value else old(bits[k])
  {
    for i := 0 to cnt
      invariant forall k :: 0 <= k < bits.Length ==>
                  bits[k] == if start <= k < start + i then value else old(bits[k])
    {
      bits[start + i] := value;
    }
  }

  /** The start of the first run of `cnt` bits with the given value, if there is one. */
  method Scan(bits: array<bool>, cnt: nat, value: bool) returns (found: bool, start: nat)
    ensures found ==> Run(bits[..], start, cnt, value)
    ensures found ==> forall k: nat :: k < start ==> !Run(bits[..], k, cnt, value)
    ensures !found ==> forall k: nat :: !Run(bits[..], k, cnt, value)
  {
    start := 0;
    if cnt <= bits.Length {
      var last := bits.Length - cnt;
      while start <= last
        invariant 0 <= start <= last + 1
        invariant forall k: nat :: k < start ==> !Run(bits[..], k, cnt, value)
      {
        var other := Contains(bits, start, cnt, !value);
        if !other {
          return true, start;
        }
        start := start + 1;
      }
    }
    return false, start;
  }

  /** Flips the first run of `cnt` bits with the given value, or reports that there is none. */
  method ScanAndFlip(bits: array<bool>, cnt: nat, value: bool) returns (found: bool, start: nat)
    modifies bits
    ensures found ==> Run(old(bits[..]), start, cnt, value)
    ensures found ==> forall k: nat :: k < start ==> !Run(old(bits[..]), k, cnt, value)
    ensures found ==> forall k :: 0 <= k < bits.Length ==>
                        bits[k] == if start <= k < start + cnt then !value else old(bits[k])
    ensures !found ==> forall k: nat :: !Run(old(bits[..]), k, cnt, value)
    ensures !found ==> bits[..] == old(bits[..])
  {
    found, start := Scan(bits, cnt, value);
    assert bits[..] == old(bits[..]);
    if found {
      SetMultiple(bits, start, cnt, !value);
    }
  }
}
