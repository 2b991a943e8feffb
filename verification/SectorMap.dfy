/** The free map: one bit per sector, set while the sector is in use. */
module SectorMap {
  import opened Bitmaps

  const FREE_MAP_SECTOR := 0
  const ROOT_DIR_SECTOR := 1

  class FreeMap {
    const bits: array<bool>

    ghost function Used(): set<nat>
      reads bits
    {
      UsedIn(bits[..])
    }

    /** A map of a device with `size` sectors, with the free map's and the root directory's inode in use. */
    constructor (size: nat)
      requires size >= 2
      ensures bits.Length == size && fresh(bits)
      ensures Used() == {FREE_MAP_SECTOR, ROOT_DIR_SECTOR}
    {
      bits := new bool[size](_ => false);
      new;
      bits[FREE_MAP_SECTOR] := true;
      bits[ROOT_DIR_SECTOR] := true;
    }

    /** Takes the first run of `cnt` free sectors, or reports that there is none. */
    method Allocate(cnt: nat) returns (ok: bool, sector: nat)
      modifies bits
      ensures ok ==> Run(old(bits[..]), sector, cnt, false)
      ensures ok ==> forall k: nat :: k < sector ==> !Run(old(bits[..]), k, cnt, false)
      ensures ok ==> forall s :: s in Used() <==> s in old(Used()) || sector <= s < sector + cnt
      ensures !ok ==> forall k: nat :: !Run(old(bits[..]), k, cnt, false)
      ensures !ok ==> bits[..] == old(bits[..])
    {
      ok, sector := ScanAndFlip(bits, cnt, false);
    }

    /** Gives sectors back; they must be in use. */
    method Release(sector: nat, cnt: nat)
      requires Run(bits[..], sector, cnt, true)
      modifies bits
      ensures forall s :: s in Used() <==> s in old(Used()) && !(sector <= s < sector + cnt)
    {
      SetMultiple(bits, sector, cnt, false);
    }

    /** Taking one sector succeeds exactly when one is free, and takes the lowest. */
    method AllocateOne() returns (ok: bool, sector: nat)
      modifies bits
      ensures ok ==> sector < bits.Length && sector !in old(Used()) && Used() == old(Used()) + {sector}
      ensures ok ==> forall s: nat :: s < sector ==> s in old(Used())
      ensures !ok ==> Used() == old(Used()) && forall s: nat :: s < bits.Length ==> s in Used()
    {
      ghost var before := bits[..];
      assert forall k: nat :: k < |before| && k !in UsedIn(before) ==> Run(before, k, 1, false);
      ok, sector := Allocate(1);
    }

    method ReleaseOne(sector: nat)
      requires sector in Used()
      modifies bits
      ensures Used() == old(Used()) - {sector}
    {
      Release(sector, 1);
    }
  }
}
