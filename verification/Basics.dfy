/** Machine integers and small things that the other modules share. */
module Basics {

  type Byte = x: int | 0 <= x < 0x100
  type U32 = x: int | 0 <= x < 0x1_0000_0000
  type I32 = x: int | -0x8000_0000 <= x < 0x8000_0000
  type U64 = x: int | 0 <= x < 0x1_0000_0000_0000_0000
  type I64 = x: int | -0x8000_0000_0000_0000 <= x < 0x8000_0000_0000_0000

  const INT_MIN: I32 := -0x8000_0000
  const INT_MAX: I32 := 0x7fff_ffff

  datatype Option<+T> = None | Some(value: T)

  function Abs(n: int): nat {
    if n < 0 then -n else n
  }

  function Min(a: nat, b: nat): nat {
    if a < b then a else b
  }

  function Max(a: nat, b: nat): nat {
    if a < b then b else a
  }

  ghost predicate Distinct<T>(s: seq<T>) {
    forall i, j :: 0 <= i < j < |s| ==> s[i] != s[j]
  }

  lemma {:induction false} DistinctFits(s: seq<nat>, xs: set<nat>)
    requires Distinct(s) && forall x :: x in s ==> x in xs
    ensures |s| <= |xs|
  {
    if s != [] {
      assert forall x :: x in s[1..] ==> x in xs - {s[0]};
      DistinctFits(s[1..], xs - {s[0]});
    }
  }
}
