/** A file as the bytes its data sectors hold. */
module FileContents {
  import opened Basics
  import opened Sectors
  import opened InodeTree

  const NO_SECTOR: U32 := 0xFFFF_FFFF

  /** Entry i of the index block in sector s. */
  function Lookup(v: seq<Sector>, s: nat, i: Slot): U32 {
    if s < |v| then Unpack(v[s])[i] else 0
  }

  /** The sector that the inode maps its k-th data sector to. */
  function SectorAt(v: seq<Sector>, d: InodeDisk, k: nat): U32
    requires WellFormed(d)
  {
    if k < DIRECT_BLOCKS_COUNT then d.direct[k]
    else if k < INDIRECT_END then Lookup(v, d.indirect, k - DIRECT_BLOCKS_COUNT)
    else if k < MAX_SECTORS then
      var i, j := (k - INDIRECT_END) / WORDS_PER_SECTOR, (k - INDIRECT_END) % WORDS_PER_SECTOR;
      Lookup(v, Lookup(v, d.doublyIndirect, i), j)
    else NO_SECTOR
  }

  /** The place of a file's k-th data sector. */
  function DataPath(x: nat, k: nat): (p: Path)
    requires k < MAX_SECTORS
    ensures InTree(p) && Level(p) == 0 && p.inode == x
  {
    if k < DIRECT_BLOCKS_COUNT then Root(x, k)
    else if k < INDIRECT_END then Mid(x, INDIRECT, k - DIRECT_BLOCKS_COUNT)
    else Leaf(x, DOUBLY_INDIRECT, (k - INDIRECT_END) / WORDS_PER_SECTOR, (k - INDIRECT_END) % WORDS_PER_SECTOR)
  }

  lemma DataPathInjective(x: nat, j: nat, k: nat)
    requires j < MAX_SECTORS && k < MAX_SECTORS && DataPath(x, j) == DataPath(x, k)
    ensures j == k
  {
  }

  /** The k-th data sector is the one sector whose place is the k-th, so different data sectors of a file
      are different sectors, none of them is an index sector, and none belongs to another file. */
  lemma SectorAtOwned(v: seq<Sector>, own: Owners, d: InodeDisk, x: nat, n: nat, k: nat)
    requires FileTree(v, own, d, x, n) && k < n <= MAX_SECTORS
    ensures SectorAt(v, d, k) < |v| && Sole(own, SectorAt(v, d, k), DataPath(x, k))
    ensures DIRECT_BLOCKS_COUNT <= k < INDIRECT_END ==> d.indirect < |v|
    ensures INDIRECT_END <= k ==>
              d.doublyIndirect < |v| && Lookup(v, d.doublyIndirect, (k - INDIRECT_END) / WORDS_PER_SECTOR) < |v|
  {
    if k < DIRECT_BLOCKS_COUNT {
      assert Owned(v, own, EntryOf(d, k), Root(x, k), RootPart(n, k));
    } else if k < INDIRECT_END {
      assert Owned(v, own, d.indirect, Root(x, INDIRECT), RootPart(n, INDIRECT));
      EntryOwned(v, own, d.indirect, Root(x, INDIRECT), RootPart(n, INDIRECT), k - DIRECT_BLOCKS_COUNT);
    } else {
      var e, i, j := d.doublyIndirect, (k - INDIRECT_END) / WORDS_PER_SECTOR, (k - INDIRECT_END) % WORDS_PER_SECTOR;
      assert Owned(v, own, EntryOf(d, DOUBLY_INDIRECT), Root(x, DOUBLY_INDIRECT), RootPart(n, DOUBLY_INDIRECT));
      LeafOwned(v, own, e, x, RootPart(n, DOUBLY_INDIRECT), i, j);
    }
  }

  lemma LeafOwned(v: seq<Sector>, own: Owners, e: U32, x: nat, n: nat, i: Slot, j: Slot)
    requires Owned(v, own, e, Root(x, DOUBLY_INDIRECT), n) && WORDS_PER_SECTOR * i + j < n
    ensures e < |v| && Lookup(v, e, i) < |v| && Lookup(v, Lookup(v, e, i), j) < |v|
    ensures Sole(own, Lookup(v, Lookup(v, e, i), j), Leaf(x, DOUBLY_INDIRECT, i, j))
  {
    EntryOwned(v, own, e, Root(x, DOUBLY_INDIRECT), n, i);
    EntryOwned(v, own, Lookup(v, e, i), Mid(x, DOUBLY_INDIRECT, i), Part(n, i, 2), j);
  }

  lemma EntryOwned(v: seq<Sector>, own: Owners, e: U32, p: Path, n: nat, i: Slot)
    requires Level(p) > 0 && Owned(v, own, e, p, n) && i * Unit(Level(p)) < n
    ensures e < |v| && Owned(v, own, Lookup(v, e, i), Child(p, i), Part(n, i, Level(p)))
    ensures Lookup(v, e, i) < |v| && Sole(own, Lookup(v, e, i), Child(p, i))
  {
    assert Owned(v, own, Unpack(v[e])[i], Child(p, i), Part(n, i, Level(p)));
    assert Part(n, i, Level(p)) > 0;
  }

  /** Places past a file's last data sector have no owner. */
  lemma NothingBeyond(v: seq<Sector>, own: Owners, d: InodeDisk, x: nat, n: nat, k: nat, s: nat)
    requires FileTree(v, own, d, x, n) && n <= k < MAX_SECTORS && s in own
    ensures own[s] != DataPath(x, k)
  {
    if k < DIRECT_BLOCKS_COUNT {
      assert Owned(v, own, EntryOf(d, k), Root(x, k), RootPart(n, k));
    } else if k < INDIRECT_END {
      assert Owned(v, own, EntryOf(d, INDIRECT), Root(x, INDIRECT), RootPart(n, INDIRECT));
      NoEntry(v, own, d.indirect, Root(x, INDIRECT), RootPart(n, INDIRECT), k - DIRECT_BLOCKS_COUNT);
    } else {
      var i, j := (k - INDIRECT_END) / WORDS_PER_SECTOR, (k - INDIRECT_END) % WORDS_PER_SECTOR;
      var m := RootPart(n, DOUBLY_INDIRECT);
      assert Owned(v, own, EntryOf(d, DOUBLY_INDIRECT), Root(x, DOUBLY_INDIRECT), m);
      if WORDS_PER_SECTOR * i < m {
        EntryOwned(v, own, d.doublyIndirect, Root(x, DOUBLY_INDIRECT), m, i);
        NoEntry(v, own, Lookup(v, d.doublyIndirect, i), Mid(x, DOUBLY_INDIRECT, i), Part(m, i, 2), j);
      } else {
        NoEntry(v, own, d.doublyIndirect, Root(x, DOUBLY_INDIRECT), m, i);
      }
      assert Under(Leaf(x, DOUBLY_INDIRECT, i, j), Mid(x, DOUBLY_INDIRECT, i));
    }
  }

  lemma NoEntry(v: seq<Sector>, own: Owners, e: U32, p: Path, n: nat, i: Slot)
    requires Level(p) > 0 && Owned(v, own, e, p, n) && n <= i * Unit(Level(p))
    ensures forall s :: s in own ==> !Under(own[s], Child(p, i))
  {
    if n > 0 {
      assert Owned(v, own, Unpack(v[e])[i], Child(p, i), Part(n, i, Level(p)));
    } else {
      assert forall q :: Under(q, Child(p, i)) ==> Under(q, p);
    }
  }

  // --------------------------------------------------------------------------
  // Bytes

  /** The byte at offset o among the file's data sectors. */
  function ByteAt(v: seq<Sector>, d: InodeDisk, o: nat): Byte
    requires WellFormed(d)
  {
    var s := SectorAt(v, d, o / SECTOR_SIZE);
    if s < |v| then v[s][o % SECTOR_SIZE] else 0
  }

  function Bytes(v: seq<Sector>, d: InodeDisk, length: nat): (r: seq<Byte>)
    requires WellFormed(d)
    ensures |r| == length
  {
    seq(length, o requires 0 <= o < length => ByteAt(v, d, o))
  }

  /** The file's contents. */
  function Contents(v: seq<Sector>, d: InodeDisk): seq<Byte>
    requires WellFormed(d) && d.length >= 0
  {
    Bytes(v, d, d.length)
  }

  /** An intact file: its tree holds just the data sectors its length calls for, and what they hold past
      its end is zero. */
  ghost predicate FileOk(v: seq<Sector>, own: Owners, d: InodeDisk, x: nat) {
    && WellFormed(d)
    && 0 <= d.length <= MAX_SECTORS * SECTOR_SIZE
    && FileTree(v, own, d, x, BytesToSectors(d.length))
    && ZeroFrom(v, d, d.length)
  }

  ghost predicate ZeroFrom(v: seq<Sector>, d: InodeDisk, length: nat)
    requires WellFormed(d)
  {
    forall o: nat :: length <= o < BytesToSectors(length) * SECTOR_SIZE ==> ByteAt(v, d, o) == 0
  }

  /** Between the two states nothing under p was taken, given up or written, not even data. */
  ghost predicate Untouched(v: seq<Sector>, own: Owners, v': seq<Sector>, own': Owners, p: Path) {
    && SameUnder(v, own, v', own', p)
    && (forall s :: s in own && Under(own[s], p) && s < |v| ==> v'[s] == v[s])
  }

  lemma TreeFrame(v: seq<Sector>, own: Owners, v': seq<Sector>, own': Owners, d: InodeDisk, x: nat, n: nat)
    requires FileTree(v, own, d, x, n) && SameUnder(v, own, v', own', File(x))
    ensures FileTree(v', own', d, x, n)
  {
    hide Owned, RootPart;
    forall k: RootSlot ensures Owned(v', own', EntryOf(d, k), Root(x, k), RootPart(n, k)) {
      OwnedFrame(v, own, v', own', EntryOf(d, k), Root(x, k), RootPart(n, k));
    }
  }

  /** If sectors in use keep their owners, a file's data sectors stay where they are. */
  lemma SectorAtKept(v: seq<Sector>, own: Owners, d: InodeDisk, v': seq<Sector>, own': Owners, d': InodeDisk,
                     x: nat, n: nat, n': nat, k: nat)
    requires FileTree(v, own, d, x, n) && FileTree(v', own', d', x, n') && k < n <= n' <= MAX_SECTORS
    requires forall s :: s in own && Under(own[s], File(x)) ==> s in own' && own'[s] == own[s]
    ensures SectorAt(v', d', k) == SectorAt(v, d, k)
  {
    hide FileTree, SectorAt;
    SectorAtOwned(v, own, d, x, n, k);
    SectorAtOwned(v', own', d', x, n', k);
  }

  /** A file that is not touched keeps its contents. */
  lemma FileFrame(v: seq<Sector>, own: Owners, v': seq<Sector>, own': Owners, d: InodeDisk, x: nat)
    requires FileOk(v, own, d, x) && Untouched(v, own, v', own', File(x))
    ensures FileOk(v', own', d, x) && Contents(v', d) == Contents(v, d)
  {
    hide FileTree, SectorAt;
    var n := BytesToSectors(d.length);
    TreeFrame(v, own, v', own', d, x, n);
    forall o: nat | o < n * SECTOR_SIZE ensures ByteAt(v', d, o) == ByteAt(v, d, o) {
      SectorAtOwned(v, own, d, x, n, o / SECTOR_SIZE);
      SectorAtKept(v, own, d, v', own', d, x, n, n, o / SECTOR_SIZE);
    }
  }

  // --------------------------------------------------------------------------
  // Extending a file

  /** Data sectors a file had before it grew are still there with the same contents, and the new ones are zero. */
  lemma GrownByte(v: seq<Sector>, own: Owners, d: InodeDisk, v': seq<Sector>, own': Owners, d': InodeDisk,
                  x: nat, n: nat, m: nat, o: nat)
    requires FileTree(v, own, d, x, n) && FileTree(v', own', d', x, m) && n <= m <= MAX_SECTORS
    requires Grown(v, own, v', own', File(x)) && o < m * SECTOR_SIZE
    ensures ByteAt(v', d', o) == if o < n * SECTOR_SIZE then ByteAt(v, d, o) else 0
  {
    hide OwnedByRoot, SectorAt;
    var k := o / SECTOR_SIZE;
    SectorAtOwned(v', own', d', x, m, k);
    if k < n {
      SectorAtOwned(v, own, d, x, n, k);
      SectorAtKept(v, own, d, v', own', d', x, n, m, k);
    } else {
      var s := SectorAt(v', d', k);
      if s in own {
        NothingBeyond(v, own, d, x, n, k, s);
      }
    }
  }

  lemma ExtendFile(v: seq<Sector>, own: Owners, d: InodeDisk, v': seq<Sector>, own': Owners, d': InodeDisk, x: nat)
    requires FileOk(v, own, d, x) && WellFormed(d') && d.length <= d'.length <= MAX_SECTORS * SECTOR_SIZE
    requires FileTree(v', own', d', x, BytesToSectors(d'.length)) && Grown(v, own, v', own', File(x))
    ensures FileOk(v', own', d', x)
    ensures Contents(v', d') == Contents(v, d) + seq(d'.length - d.length, _ => 0)
  {
    hide FileTree, Grown, SectorAt, ByteAt;
    var n, m := BytesToSectors(d.length), BytesToSectors(d'.length);
    forall o: nat | o < m * SECTOR_SIZE
      ensures ByteAt(v', d', o) == if o < d.length then ByteAt(v, d, o) else 0
    {
      GrownByte(v, own, d, v', own', d', x, n, m, o);
    }
  }

  // --------------------------------------------------------------------------
  // Writing within a file

  /** `old` with `data` written at `offset`; a gap past its end is filled with zeros. */
  function Splice(old_: seq<Byte>, offset: nat, data: seq<Byte>): (r: seq<Byte>)
    ensures |r| == Max(|old_|, offset + |data|)
  {
    seq(Max(|old_|, offset + |data|), o requires 0 <= o =>
      if offset <= o < offset + |data| then data[o - offset]
      else if o < |old_| then old_[o]
      else 0)
  }

  lemma SpliceMore(old_: seq<Byte>, offset: nat, data: seq<Byte>, i: nat, j: nat)
    requires i <= j <= |data| && offset + j <= |old_|
    ensures Splice(Splice(old_, offset, data[..i]), offset + i, data[i..j]) == Splice(old_, offset, data[..j])
  {
  }

  lemma SpliceNothing(old_: seq<Byte>, offset: nat)
    requires offset <= |old_|
    ensures Splice(old_, offset, []) == old_
  {
  }

  /** Zeros appended first make no difference to what is written over or beyond them. */
  lemma SpliceExtended(old_: seq<Byte>, offset: nat, data: seq<Byte>)
    requires |old_| <= offset + |data|
    ensures Splice(old_ + seq(offset + |data| - |old_|, _ => 0), offset, data) == Splice(old_, offset, data)
  {
  }

  /** A sector with some of its bytes replaced. */
  function Patch(s: Sector, ofs: nat, data: seq<Byte>): Sector
    requires ofs + |data| <= SECTOR_SIZE
  {
    s[..ofs] + data + s[ofs + |data|..]
  }

  lemma PatchByte(s: Sector, ofs: nat, data: seq<Byte>, i: nat)
    requires ofs + |data| <= SECTOR_SIZE && i < SECTOR_SIZE
    ensures Patch(s, ofs, data)[i] == if ofs <= i < ofs + |data| then data[i - ofs] else s[i]
  {
  }

  /** Writing to one of a file's data sectors leaves its index, and so where its bytes are, as it was. */
  lemma DataWrite(v: seq<Sector>, own: Owners, d: InodeDisk, x: nat, n: nat, k: nat, contents: Sector)
    requires FileTree(v, own, d, x, n) && k < n <= MAX_SECTORS
    ensures SectorAt(v, d, k) < |v|
    ensures FileTree(v[SectorAt(v, d, k) := contents], own, d, x, n)
    ensures forall j :: 0 <= j < n ==>
              && SectorAt(v[SectorAt(v, d, k) := contents], d, j) == SectorAt(v, d, j) < |v|
              && (SectorAt(v, d, j) == SectorAt(v, d, k) ==> j == k)
  {
    hide OwnedByRoot, SectorAt;
    SectorAtOwned(v, own, d, x, n, k);
    var v' := v[SectorAt(v, d, k) := contents];
    TreeFrame(v, own, v', own, d, x, n);
    forall j | 0 <= j < n
      ensures SectorAt(v', d, j) == SectorAt(v, d, j) < |v| && (SectorAt(v, d, j) == SectorAt(v, d, k) ==> j == k)
    {
      SectorAtKept(v, own, d, v', own, d, x, n, n, j);
      SectorAtOwned(v, own, d, x, n, j);
      if SectorAt(v, d, j) == SectorAt(v, d, k) {
        DataPathInjective(x, j, k);
      }
    }
  }

  /** Writing part of a data sector within the file's length is a splice of its contents. */
  lemma WriteChunk(v: seq<Sector>, own: Owners, d: InodeDisk, x: nat, offset: nat, data: seq<Byte>)
    requires FileOk(v, own, d, x) && 0 < |data|
    requires offset % SECTOR_SIZE + |data| <= SECTOR_SIZE && offset + |data| <= d.length
    ensures SectorAt(v, d, offset / SECTOR_SIZE) < |v|
    ensures var s := SectorAt(v, d, offset / SECTOR_SIZE);
            var v' := v[s := Patch(v[s], offset % SECTOR_SIZE, data)];
            FileOk(v', own, d, x) && Contents(v', d) == Splice(Contents(v, d), offset, data)
  {
    hide FileTree, SectorAt, Patch;
    var n, k := BytesToSectors(d.length), offset / SECTOR_SIZE;
    SectorAtOwned(v, own, d, x, n, k);
    var s := SectorAt(v, d, k);
    var v' := v[s := Patch(v[s], offset % SECTOR_SIZE, data)];
    DataWrite(v, own, d, x, n, k, v'[s]);
    forall o: nat | o < n * SECTOR_SIZE
      ensures ByteAt(v', d, o) == if offset <= o < offset + |data| then data[o - offset] else ByteAt(v, d, o)
    {
      PatchByte(v[s], offset % SECTOR_SIZE, data, o % SECTOR_SIZE);
      assert SectorAt(v', d, o / SECTOR_SIZE) == SectorAt(v, d, o / SECTOR_SIZE);
    }
  }

  /** What a read of up to `size` bytes at `offset` can see. */
  function Slice(contents: seq<Byte>, offset: nat, size: nat): seq<Byte> {
    if offset >= |contents| then [] else contents[offset..Min(offset + size, |contents|)]
  }

  lemma ReadChunk(v: seq<Sector>, own: Owners, d: InodeDisk, x: nat, offset: nat, size: nat)
    requires FileOk(v, own, d, x) && offset % SECTOR_SIZE + size <= SECTOR_SIZE && 0 < size && offset + size <= d.length
    ensures SectorAt(v, d, offset / SECTOR_SIZE) < |v|
    ensures v[SectorAt(v, d, offset / SECTOR_SIZE)][offset % SECTOR_SIZE..offset % SECTOR_SIZE + size]
            == Contents(v, d)[offset..offset + size]
  {
    hide OwnedByRoot, SectorAt;
    SectorAtOwned(v, own, d, x, BytesToSectors(d.length), offset / SECTOR_SIZE);
    var s := SectorAt(v, d, offset / SECTOR_SIZE);
    var ofs := offset % SECTOR_SIZE;
    var piece, contents := v[s][ofs..ofs + size], Contents(v, d)[offset..offset + size];
    forall i | 0 <= i < size ensures piece[i] == contents[i] {
      assert (offset + i) / SECTOR_SIZE == offset / SECTOR_SIZE && (offset + i) % SECTOR_SIZE == ofs + i;
    }
  }

  /** Reading back what was written gives the data. */
  lemma ReadBack(old_: seq<Byte>, offset: nat, data: seq<Byte>)
    ensures Slice(Splice(old_, offset, data), offset, |data|) == data
  {
  }

  lemma SliceEnd(contents: seq<Byte>, offset: nat, size: nat, done: nat)
    requires done == size || (done < size && |contents| <= offset + done)
    ensures Slice(contents, offset, done) == Slice(contents, offset, size)
    ensures Slice(contents, offset, 0) == []
  {
  }

  lemma SliceMore(contents: seq<Byte>, offset: nat, size: nat, more: nat)
    requires offset + size + more <= |contents|
    ensures Slice(contents, offset, size) + contents[offset + size..offset + size + more]
            == Slice(contents, offset, size + more)
  {
  }

  // --------------------------------------------------------------------------
  // All files

  /** Between the two states only the file x was touched: its inode, and what is below it. */
  ghost predicate OnlyFile(v: seq<Sector>, own: Owners, v': seq<Sector>, own': Owners, x: nat) {
    && |v| == |v'|
    && (forall s :: s in own && !Under(own[s], File(x)) ==>
          s in own' && own'[s] == own[s] && (own[s] == Home(x) || s >= |v| || v'[s] == v[s]))
    && (forall s :: s in own' && !Under(own'[s], File(x)) ==> s in own && own[s] == own'[s])
  }

  /** A data sector of one file is no part of another. */
  lemma DataWriteIsOnlyFile(v: seq<Sector>, own: Owners, d: InodeDisk, x: nat, n: nat, k: nat, contents: Sector)
    requires FileTree(v, own, d, x, n) && k < n <= MAX_SECTORS
    ensures SectorAt(v, d, k) < |v|
    ensures OnlyFile(v, own, v[SectorAt(v, d, k) := contents], own, x)
  {
    hide FileTree, SectorAt;
    SectorAtOwned(v, own, d, x, n, k);
  }

  /** Every file is intact in its own place, and every sector in use is an inode's or part of a file. */
  ghost predicate FilesOk(v: seq<Sector>, own: Owners, files: set<nat>) {
    && (forall x :: x in files ==>
          x < |v| && x in own && own[x] == Home(x) && FileOk(v, own, UnpackInode(v[x]), x))
    && (forall s :: s in own && InTree(own[s]) ==> own[s].inode in files)
    && (forall s :: s in own && own[s].Home? ==> own[s].inode == s)
  }

  lemma FileFacts(v: seq<Sector>, own: Owners, files: set<nat>, x: nat)
    requires FilesOk(v, own, files) && x in files
    ensures x < |v| && x in own && own[x] == Home(x)
    ensures var d := UnpackInode(v[x]);
            && 0 <= d.length == |FileAt(v, x)|
            && BytesToSectors(d.length) <= MAX_SECTORS
            && FileTree(v, own, d, x, BytesToSectors(d.length))
  {
  }

  /** The contents of the file whose inode is in sector x. */
  ghost function FileAt(v: seq<Sector>, x: nat): seq<Byte> {
    if x < |v| && UnpackInode(v[x]).length >= 0 then Contents(v, UnpackInode(v[x])) else []
  }

  ghost function FilesIn(v: seq<Sector>, files: set<nat>): map<nat, seq<Byte>> {
    map x | x in files :: FileAt(v, x)
  }

  /** Whether the file is a directory, and its inode's magic number. */
  ghost function KindOf(v: seq<Sector>, x: nat): (bool, U32) {
    if x < |v| then (UnpackInode(v[x]).isDir, UnpackInode(v[x]).magic) else (false, 0)
  }

  ghost function KindsIn(v: seq<Sector>, files: set<nat>): map<nat, (bool, U32)> {
    map x | x in files :: KindOf(v, x)
  }

  lemma KindsKept(v: seq<Sector>, v': seq<Sector>, files: set<nat>)
    requires forall y :: y in files ==> KindOf(v', y) == KindOf(v, y)
    ensures KindsIn(v', files) == KindsIn(v, files)
  {
  }

  /** Growing a file and rewriting its inode with another length leaves the kind of every file. */
  lemma RecordedKinds(v: seq<Sector>, own: Owners, v1: seq<Sector>, own1: Owners, files: set<nat>, x: nat, d: InodeDisk)
    requires FilesOk(v, own, files) && Grown(v, own, v1, own1, File(x)) && x in files && WellFormed(d)
    requires KindOf(v, x) == (d.isDir, d.magic) && |v1| == |v| && x < |v|
    ensures KindsIn(v1[x := PackInode(d)], files) == KindsIn(v, files)
  {
    hide FileOk, UnpackInode, PackInode;
    InodeRoundTrip(d);
    KindsKept(v, v1[x := PackInode(d)], files);
  }

  /** An operation that touches one file changes that file alone. */
  lemma OtherFilesKept(v: seq<Sector>, own: Owners, files: set<nat>, v': seq<Sector>, own': Owners, x: nat, y: nat)
    requires FilesOk(v, own, files) && OnlyFile(v, own, v', own', x) && y in files && y != x
    ensures y in own' && own'[y] == Home(y) && v'[y] == v[y]
    ensures FileOk(v', own', UnpackInode(v'[y]), y)
    ensures FileAt(v', y) == FileAt(v, y)
  {
    hide FileOk, Contents, UnpackInode;
    FileFrame(v, own, v', own', UnpackInode(v[y]), y);
  }

  lemma ChangeOneFile(v: seq<Sector>, own: Owners, files: set<nat>, v': seq<Sector>, own': Owners, x: nat)
    requires FilesOk(v, own, files) && OnlyFile(v, own, v', own', x)
    requires x < |v| && x in own && own[x] == Home(x) && FileOk(v', own', UnpackInode(v'[x]), x)
    ensures FilesOk(v', own', files + {x})
    ensures FilesIn(v', files + {x}) == FilesIn(v, files)[x := FileAt(v', x)]
    ensures forall y :: y in files && y != x ==> y < |v| && v'[y] == v[y]
  {
    hide FileOk, FileAt, UnpackInode;
    forall y | y in files && y != x
      ensures y in own' && own'[y] == Home(y) && FileOk(v', own', UnpackInode(v'[y]), y)
      ensures FileAt(v', y) == FileAt(v, y)
    {
      OtherFilesKept(v, own, files, v', own', x, y);
    }
  }

  /** Writing to a file's data sector changes that file alone, by a splice. */
  lemma WriteChunkInFiles(v: seq<Sector>, own: Owners, files: set<nat>, x: nat, offset: nat, data: seq<Byte>)
    requires FilesOk(v, own, files) && x in files
    requires var d := UnpackInode(v[x]);
             offset % SECTOR_SIZE + |data| <= SECTOR_SIZE && 0 < |data| && offset + |data| <= d.length
    ensures var s := SectorAt(v, UnpackInode(v[x]), offset / SECTOR_SIZE);
            && s < |v| && s in own && InTree(own[s])
            && var v' := v[s := Patch(v[s], offset % SECTOR_SIZE, data)];
               && FilesOk(v', own, files)
               && (forall y :: y in files ==> y < |v| && v'[y] == v[y])
               && KindsIn(v', files) == KindsIn(v, files)
               && FileAt(v', x) == Splice(FileAt(v, x), offset, data)
               && FilesIn(v', files) == FilesIn(v, files)[x := FileAt(v', x)]
  {
    hide FileTree, SectorAt, Patch, UnpackInode, ZeroFrom, Bytes;
    var d := UnpackInode(v[x]);
    var s := SectorAt(v, d, offset / SECTOR_SIZE);
    SectorAtOwned(v, own, d, x, BytesToSectors(d.length), offset / SECTOR_SIZE);
    WriteChunk(v, own, d, x, offset, data);
    DataWriteIsOnlyFile(v, own, d, x, BytesToSectors(d.length), offset / SECTOR_SIZE,
                        Patch(v[s], offset % SECTOR_SIZE, data));
    ChangeOneFile(v, own, files, v[s := Patch(v[s], offset % SECTOR_SIZE, data)], own, x);
    assert files + {x} == files;
    KindsKept(v, v[s := Patch(v[s], offset % SECTOR_SIZE, data)], files);
  }

  /** Recording a new length in the inode's own sector leaves the tree and the data as they are. */
  lemma SetLength(v: seq<Sector>, own: Owners, d: InodeDisk, x: nat, n: nat, length: I32)
    requires FileTree(v, own, d, x, n) && x < |v| && x in own && own[x] == Home(x)
    ensures var d' := d.(length := length);
            && FileTree(v, own, d', x, n)
            && Untouched(v, own, v[x := PackInode(d')], own, File(x))
            && FileTree(v[x := PackInode(d')], own, d', x, n)
            && UnpackInode(v[x := PackInode(d')][x]) == d'
  {
    hide Owned, PackInode, UnpackInode;
    var d' := d.(length := length);
    forall k: RootSlot ensures Owned(v, own, EntryOf(d', k), Root(x, k), RootPart(n, k)) {
      assert EntryOf(d', k) == EntryOf(d, k);
    }
    TreeFrame(v, own, v[x := PackInode(d')], own, d', x, n);
    InodeRoundTrip(d');
  }

  /** Between the two states file x was extended to `length` bytes with zeros; the other files are as they were. */
  ghost predicate Extended(v: seq<Sector>, own: Owners, v': seq<Sector>, own': Owners, files: set<nat>,
                           x: nat, length: nat)
  {
    && FilesOk(v', own', files)
    && |FileAt(v, x)| <= length
    && FileAt(v', x) == FileAt(v, x) + seq(length - |FileAt(v, x)|, _ => 0)
    && FilesIn(v', files) == FilesIn(v, files)[x := FileAt(v', x)]
    && |own'| == |own| + FileTotal(BytesToSectors(length)) - FileTotal(BytesToSectors(|FileAt(v, x)|))
  }

  /** Extending a file and recording its new length changes that file alone, by appending zeros. */
  lemma ExtendInFiles(v: seq<Sector>, own: Owners, files: set<nat>, v1: seq<Sector>, own1: Owners, x: nat,
                      d1: InodeDisk, length: I32)
    requires FilesOk(v, own, files) && x in files
    requires Grown(v, own, v1, own1, File(x)) && UnpackInode(v[x]).length <= length <= MAX_SECTORS * SECTOR_SIZE
    requires var n, m := BytesToSectors(UnpackInode(v[x]).length), BytesToSectors(length);
             && FileTree(v1, own1, d1, x, Max(n, m))
             && |own1| == |own| + FileTotal(Max(n, m)) - FileTotal(n)
    ensures Extended(v, own, v1[x := PackInode(d1.(length := length))], own1, files, x, length)
  {
    hide OwnedByRoot, PackInode, UnpackInode, ZeroFrom, Bytes, FileTotal, Grown, FilesIn, OnlyFile;
    var d, d2 := UnpackInode(v[x]), d1.(length := length);
    GrownInode(v, own, v1, own1, x, PackInode(d2));
    var v2 := v1[x := PackInode(d2)];
    SetLength(v1, own1, d1, x, BytesToSectors(length), length);
    ExtendFile(v, own, d, v1, own1, d2, x);
    FileFrame(v1, own1, v2, own1, d2, x);
    ChangeOneFile(v, own, files, v2, own1, x);
    assert files + {x} == files;
  }

  lemma GrownInode(v: seq<Sector>, own: Owners, v1: seq<Sector>, own1: Owners, x: nat, contents: Sector)
    requires Grown(v, own, v1, own1, File(x)) && x < |v| && x in own && own[x] == Home(x)
    ensures |v1| == |v| && x in own1 && own1[x] == Home(x)
    ensures OnlyFile(v, own, v1[x := contents], own1, x)
  {
  }

  /** Between the two states `data` was written at `offset` of file x; the other files are as they were,
      and the sectors newly in use are those that x's length calls for. */
  ghost predicate Written(v: seq<Sector>, own: Owners, v': seq<Sector>, own': Owners, files: set<nat>,
                          x: nat, offset: nat, data: seq<Byte>)
  {
    && FilesIn(v', files) == FilesIn(v, files)[x := Splice(FileAt(v, x), offset, data)]
    && |own'| == |own| + FileTotal(BytesToSectors(Max(|FileAt(v, x)|, offset + |data|)))
               - FileTotal(BytesToSectors(|FileAt(v, x)|))
  }

  lemma WrittenWithin(v: seq<Sector>, own: Owners, v': seq<Sector>, files: set<nat>,
                      x: nat, offset: nat, data: seq<Byte>)
    requires offset + |data| <= |FileAt(v, x)|
    requires FileAt(v', x) == Splice(FileAt(v, x), offset, data)
    requires FilesIn(v', files) == FilesIn(v, files)[x := FileAt(v', x)]
    ensures Written(v, own, v', own, files, x, offset, data)
  {
  }

  lemma WrittenExtended(v: seq<Sector>, own: Owners, v1: seq<Sector>, own1: Owners, v': seq<Sector>, files: set<nat>,
                        x: nat, offset: nat, data: seq<Byte>)
    requires Extended(v, own, v1, own1, files, x, offset + |data|)
    requires FileAt(v', x) == Splice(FileAt(v1, x), offset, data)
    requires FilesIn(v', files) == FilesIn(v1, files)[x := FileAt(v', x)]
    ensures Written(v, own, v', own1, files, x, offset, data)
  {
    hide FilesOk, FileAt, Splice;
    SpliceExtended(FileAt(v, x), offset, data);
  }

  lemma WrittenNothing(v: seq<Sector>, own: Owners, v': seq<Sector>, own': Owners, files: set<nat>, x: nat, offset: nat)
    requires Extended(v, own, v', own', files, x, offset)
    ensures Written(v, own, v', own', files, x, offset, [])
  {
    hide FilesOk, FileAt, Splice;
    SpliceExtended(FileAt(v, x), offset, []);
    SpliceNothing(FileAt(v', x), offset);
  }

  lemma ExtendedFilesOk(v: seq<Sector>, own: Owners, v': seq<Sector>, own': Owners, files: set<nat>,
                        x: nat, length: nat)
    requires Extended(v, own, v', own', files, x, length)
    ensures FilesOk(v', own', files)
  {
  }

  /** If the recorded length calls for fewer sectors than the tree holds, the file is not intact. */
  lemma ShrinkBreaks(v: seq<Sector>, own: Owners, files: set<nat>, d: InodeDisk, x: nat, n: nat, length: I32)
    requires 0 <= length && BytesToSectors(length) < n <= MAX_SECTORS
    requires FileTree(v, own, d, x, Max(n, BytesToSectors(length)))
    requires x in files && x < |v| && x in own && own[x] == Home(x)
    ensures !FilesOk(v[x := PackInode(d.(length := length))], own, files)
    ensures FileTree(v[x := PackInode(d.(length := length))], own, d.(length := length), x, n)
  {
    hide OwnedByRoot, PackInode, UnpackInode, ZeroFrom, Bytes;
    var d' := d.(length := length);
    var v' := v[x := PackInode(d')];
    SetLength(v, own, d, x, n, length);
    if FileOk(v', own, d', x) {
      TreeSizeUnique(v', own, d', x, n, BytesToSectors(length));
    }
  }

  // --------------------------------------------------------------------------
  // Creating and removing files

  /** An inode number that is not in use has no tree. */
  lemma NoTree(v: seq<Sector>, own: Owners, files: set<nat>, x: nat, isDir: bool, length: I32, magic: U32)
    requires FilesOk(v, own, files) && x !in files
    ensures FileTree(v, own, NewInode(isDir, length, magic), x, 0)
    ensures FileOk(v, own, NewInode(isDir, 0, magic), x)
  {
    hide FileOk;
    forall k: RootSlot ensures Owned(v, own, 0, Root(x, k), 0) {
    }
    EmptyFile(v, own, NewInode(isDir, 0, magic), x);
  }

  lemma EmptyFile(v: seq<Sector>, own: Owners, d: InodeDisk, x: nat)
    requires FileTree(v, own, d, x, 0) && d.length == 0
    ensures FileOk(v, own, d, x) && Contents(v, d) == []
  {
  }

  lemma HomeInFiles(v: seq<Sector>, own: Owners, files: set<nat>, x: nat)
    requires FilesOk(v, own, files) && x !in own
    ensures FilesOk(v, own[x := Home(x)], files)
  {
    hide FileOk, UnpackInode;
    var own' := own[x := Home(x)];
    forall y | y in files ensures y in own' && own'[y] == Home(y) && FileOk(v, own', UnpackInode(v[y]), y) {
      FileFrame(v, own, v, own', UnpackInode(v[y]), y);
    }
  }

  function NewInode(isDir: bool, length: I32, magic: U32): (d: InodeDisk)
    ensures WellFormed(d)
  {
    InodeDisk(seq(DIRECT_BLOCKS_COUNT, _ => 0), 0, 0, isDir, length, magic)
  }

  /** Reserving a new inode's sectors and writing the inode adds one file, full of zeros. */
  lemma CreateInFiles(v: seq<Sector>, own: Owners, files: set<nat>, v1: seq<Sector>, own1: Owners, x: nat,
                      isDir: bool, magic: U32, d1: InodeDisk)
    requires FilesOk(v, own, files) && x !in files && x < |v| && x in own && own[x] == Home(x)
    requires Grown(v, own, v1, own1, File(x)) && 0 <= d1.length <= MAX_SECTORS * SECTOR_SIZE
    requires WellFormed(d1) && FileTree(v1, own1, d1, x, BytesToSectors(d1.length))
    ensures |v1| == |v|
    ensures var v2 := v1[x := PackInode(d1)];
            && FilesOk(v2, own1, files + {x})
            && FilesIn(v2, files + {x}) == FilesIn(v, files)[x := seq(d1.length, _ => 0)]
            && KindsIn(v2, files + {x}) == KindsIn(v, files)[x := (d1.isDir, d1.magic)]
            && (forall y :: y in files ==> y < |v| && v2[y] == v[y])
  {
    hide OwnedByRoot, PackInode, UnpackInode, Bytes, Grown, OnlyFile, FilesOk, FilesIn, ZeroFrom;
    NoTree(v, own, files, x, isDir, 0, magic);
    GrownInode(v, own, v1, own1, x, PackInode(d1));
    var v2 := v1[x := PackInode(d1)];
    SetLength(v1, own1, d1, x, BytesToSectors(d1.length), d1.length);
    assert d1.(length := d1.length) == d1;
    ExtendFile(v, own, NewInode(isDir, 0, magic), v1, own1, d1, x);
    FileFrame(v1, own1, v2, own1, d1, x);
    ChangeOneFile(v, own, files, v2, own1, x);
    assert [] + seq(d1.length, _ => 0) == seq(d1.length, _ => 0);
    InodeRoundTrip(d1);
  }

  /** Giving up all of a file's sectors, its inode's included, removes that file alone. */
  lemma RemoveOneFile(v: seq<Sector>, own: Owners, files: set<nat>, own': Owners, x: nat)
    requires FilesOk(v, own, files) && x in files
    requires forall s :: s in own' <==> s in own && s != x && !Under(own[s], File(x))
    requires forall s :: s in own' ==> own'[s] == own[s]
    ensures FilesOk(v, own', files - {x})
    ensures FilesIn(v, files - {x}) == FilesIn(v, files) - {x}
  {
    hide FileOk, FileAt, UnpackInode;
    forall y | y in files && y != x
      ensures y in own' && own'[y] == Home(y) && FileOk(v, own', UnpackInode(v[y]), y)
    {
      FileFrame(v, own, v, own', UnpackInode(v[y]), y);
    }
  }

  /** Giving up the inode's own sector leaves the tree below it as it is. */
  lemma ReleaseHome(v: seq<Sector>, own: Owners, d: InodeDisk, x: nat, n: nat)
    requires FileTree(v, own, d, x, n) && x in own && own[x] == Home(x)
    ensures FileTree(v, own - {x}, d, x, n)
    ensures |own - {x}| == |own| - 1
  {
    hide OwnedByRoot;
    assert |(own - {x}).Keys| == |own.Keys - {x}|;
    TreeFrame(v, own, v, own - {x}, d, x, n);
  }

  /** A file's tree has one size. */
  lemma TreeSizeUnique(v: seq<Sector>, own: Owners, d: InodeDisk, x: nat, n: nat, m: nat)
    requires FileTree(v, own, d, x, n) && FileTree(v, own, d, x, m) && n <= MAX_SECTORS && m <= MAX_SECTORS
    ensures n == m
  {
    hide OwnedByRoot, SectorAt;
    if n < m {
      SectorAtOwned(v, own, d, x, m, n);
      NothingBeyond(v, own, d, x, n, n, SectorAt(v, d, n));
    } else if m < n {
      SectorAtOwned(v, own, d, x, n, m);
      NothingBeyond(v, own, d, x, m, m, SectorAt(v, d, m));
    }
  }

  // --------------------------------------------------------------------------
  // What keeps files apart, and what comes back

  /** Data sectors of intact files are in use and never sector 0, never an inode's own sector, and never
      shared: not between two places of one file, not between two files. */
  lemma DataSectorsSeparate(v: seq<Sector>, own: Owners, files: set<nat>, x: nat, j: nat, y: nat, k: nat)
    requires FilesOk(v, own, files) && x in files && y in files && 0 in own && own[0] == Home(0)
    requires j < BytesToSectors(|FileAt(v, x)|) && k < BytesToSectors(|FileAt(v, y)|)
    ensures SectorAt(v, UnpackInode(v[x]), j) in own && SectorAt(v, UnpackInode(v[x]), j) !in files + {0}
    ensures SectorAt(v, UnpackInode(v[x]), j) == SectorAt(v, UnpackInode(v[y]), k) ==> x == y && j == k
  {
    hide OwnedByRoot, FilesOk, SectorAt, UnpackInode;
    FileFacts(v, own, files, x);
    FileFacts(v, own, files, y);
    SectorAtOwned(v, own, UnpackInode(v[x]), x, BytesToSectors(|FileAt(v, x)|), j);
    SectorAtOwned(v, own, UnpackInode(v[y]), y, BytesToSectors(|FileAt(v, y)|), k);
    if SectorAt(v, UnpackInode(v[x]), j) in files {
      FileFacts(v, own, files, SectorAt(v, UnpackInode(v[x]), j));
    }
    if x == y && DataPath(x, j) == DataPath(y, k) {
      DataPathInjective(x, j, k);
    }
  }

  /** A file's index sectors are not data sectors of any file. */
  lemma IndexSectorsSeparate(v: seq<Sector>, own: Owners, files: set<nat>, x: nat, y: nat, k: nat, i: Slot)
    requires FilesOk(v, own, files) && x in files && y in files && k < BytesToSectors(|FileAt(v, y)|)
    ensures var d, s := UnpackInode(v[x]), SectorAt(v, UnpackInode(v[y]), k);
            && (BytesToSectors(|FileAt(v, x)|) > DIRECT_BLOCKS_COUNT ==> s != d.indirect)
            && (BytesToSectors(|FileAt(v, x)|) > INDIRECT_END ==> s != d.doublyIndirect)
            && (BytesToSectors(|FileAt(v, x)|) > INDIRECT_END + WORDS_PER_SECTOR * i ==>
                  s != Lookup(v, d.doublyIndirect, i))
  {
    hide FilesOk, SectorAt, UnpackInode, FileAt, OwnedByRoot, Lookup;
    FileFacts(v, own, files, x);
    FileFacts(v, own, files, y);
    SectorAtOwned(v, own, UnpackInode(v[y]), y, BytesToSectors(|FileAt(v, y)|), k);
    IndexOwned(v, own, UnpackInode(v[x]), x, BytesToSectors(|FileAt(v, x)|), i);
  }

  /** The places of index sectors. */
  lemma IndexOwned(v: seq<Sector>, own: Owners, d: InodeDisk, x: nat, n: nat, i: Slot)
    requires FileTree(v, own, d, x, n)
    ensures n > DIRECT_BLOCKS_COUNT ==> d.indirect in own && own[d.indirect] == Root(x, INDIRECT)
    ensures n > INDIRECT_END ==> d.doublyIndirect in own && own[d.doublyIndirect] == Root(x, DOUBLY_INDIRECT)
    ensures n > INDIRECT_END + WORDS_PER_SECTOR * i ==>
              var s := Lookup(v, d.doublyIndirect, i); s in own && own[s] == Mid(x, DOUBLY_INDIRECT, i)
  {
    hide Lookup;
    assert Owned(v, own, EntryOf(d, INDIRECT), Root(x, INDIRECT), RootPart(n, INDIRECT));
    assert Owned(v, own, EntryOf(d, DOUBLY_INDIRECT), Root(x, DOUBLY_INDIRECT), RootPart(n, DOUBLY_INDIRECT));
    if n > INDIRECT_END + WORDS_PER_SECTOR * i {
      EntryOwned(v, own, d.doublyIndirect, Root(x, DOUBLY_INDIRECT), RootPart(n, DOUBLY_INDIRECT), i);
    }
  }

  /** Deallocating what was reserved for a file restores the owners, and so the free map, from before. */
  lemma ReserveThenDeallocate(v: seq<Sector>, own: Owners, v1: seq<Sector>, own1: Owners, own2: Owners, x: nat)
    requires forall s :: s in own ==> !Under(own[s], File(x))
    requires Grown(v, own, v1, own1, File(x)) && Pruned(own1, own2, File(x))
    ensures own2 == own
  {
    assert forall s :: s in own2 ==> s in own && own2[s] == own[s];
  }
}
