/** Open inodes and the operations on them. */
module Inodes {
  import opened Basics
  import opened Sectors
  import opened BufferCache
  import opened Bitmaps
  import opened SectorMap
  import opened InodeTree
  import opened Shortage
  import opened FileContents
  import opened FileStore

  /** An in-memory inode. */
  class Inode {
    const sector: U32
    var openCnt: nat
    var removed: bool
    var denyWriteCnt: nat
    var data: InodeDisk

    constructor (sector: U32, data: InodeDisk)
      ensures this.sector == sector && this.data == data
      ensures openCnt == 1 && !removed && denyWriteCnt == 0
    {
      this.sector := sector;
      this.data := data;
      openCnt, removed, denyWriteCnt := 1, false, 0;
    }
  }

  class FileSystem {
    const store: Store
    var openInodes: seq<Inode>
    ghost var files: set<nat>

    ghost function View(): seq<Sector>
      reads store.cache
    {
      store.cache.view
    }

    ghost function Own(): Owners
      reads store
    {
      store.own
    }

    /** Each open inode is the only one for its file and agrees with the inode on disk. */
    ghost predicate InodesOk(v: seq<Sector>)
      reads this, openInodes
    {
      && (forall i :: i in openInodes ==>
            && i.sector in files
            && i.sector < |v|
            && i.data == UnpackInode(v[i.sector])
            && i.openCnt > 0
            && (i.removed ==> i.sector != FREE_MAP_SECTOR))
      && (forall i, j :: i in openInodes && j in openInodes && i.sector == j.sector ==> i == j)
      && Distinct(openInodes)
    }

    ghost predicate Valid()
      reads this, store.Footprint(), openInodes
    {
      store.Consistent() && FilesOk(View(), Own(), files) && InodesOk(View())
    }

    /** The contents of every file, by inode number. */
    ghost function Files(): map<nat, seq<Byte>>
      reads this, store.cache
    {
      FilesIn(View(), files)
    }

    /** Whether each file is a directory, and its magic number. */
    ghost function Kinds(): map<nat, (bool, U32)>
      reads this, store.cache
    {
      KindsIn(View(), files)
    }

    constructor (device: BlockDevice)
      requires 2 <= |device.sectors| < 0x1_0000_0000
      ensures Valid() && Files() == map[] && openInodes == [] && files == {}
      ensures View() == device.sectors
      ensures Own() == map[FREE_MAP_SECTOR := Home(FREE_MAP_SECTOR), ROOT_DIR_SECTOR := Home(ROOT_DIR_SECTOR)]
      ensures store.cache.device == device && fresh(store) && fresh(store.Footprint() - {device})
    {
      store := new Store(device);
      openInodes, files := [], {};
    }

    /** The sector of a file's data sector `index`; -1 past the largest file. */
    method IndexToSector(d: InodeDisk, index: nat, ghost x: nat, ghost n: nat) returns (sector: U32)
      requires store.Consistent() && n <= MAX_SECTORS && FileTree(View(), Own(), d, x, n)
      requires index < n || index >= MAX_SECTORS
      modifies store.Footprint()
      ensures store.Consistent() && View() == old(View()) && Own() == old(Own())
      ensures sector == SectorAt(View(), d, index)
      ensures index < n ==> sector < |View()| && sector in Own() && Own()[sector] == DataPath(x, index)
    {
      hide Coherent, UsedIn, OwnedByRoot, Unpack;
      if index < n {
        SectorAtOwned(View(), Own(), d, x, n, index);
      }
      if index < DIRECT_BLOCKS_COUNT {
        return d.direct[index];
      }
      if index < DIRECT_BLOCKS_COUNT + WORDS_PER_SECTOR {
        var contents := store.cache.Read(d.indirect);
        return Unpack(contents)[index - DIRECT_BLOCKS_COUNT];
      }
      if index < MAX_SECTORS {
        var first := (index - INDIRECT_END) / WORDS_PER_SECTOR;
        var second := (index - INDIRECT_END) % WORDS_PER_SECTOR;
        var contents := store.cache.Read(d.doublyIndirect);
        contents := store.cache.Read(Unpack(contents)[first]);
        return Unpack(contents)[second];
      }
      return NO_SECTOR;
    }

    lemma OpenInode(inode: Inode)
      requires Valid() && inode in openInodes
      ensures store.Consistent() && FilesOk(View(), Own(), files) && InodesOk(View()) && |Own()| <= |View()|
      ensures inode.sector < |View()| < 0x1_0000_0000 && inode.sector in files
      ensures inode.sector in Own() && Own()[inode.sector] == Home(inode.sector)
      ensures 0 in Own() && Own()[0] == Home(0)
      ensures FileOk(View(), Own(), inode.data, inode.sector) && inode.data == UnpackInode(View()[inode.sector])
      ensures BytesToSectors(inode.data.length) <= MAX_SECTORS
      ensures inode.sector in Files() && Files()[inode.sector] == FileAt(View(), inode.sector)
      ensures FileAt(View(), inode.sector) == Contents(View(), inode.data)
      ensures |FileAt(View(), inode.sector)| == inode.data.length
    {
      hide FileTree, ZeroFrom, Bytes;
      store.OwnersBelow();
    }

    /** The sector that holds the file's byte at `pos`; -1 if there is no such byte. */
    method ByteToSector(inode: Inode, pos: int) returns (sector: U32)
      requires Valid() && inode in openInodes
      modifies store.Footprint()
      ensures Valid() && View() == old(View()) && Own() == old(Own())
      ensures sector == NO_SECTOR <==> !(0 <= pos < inode.data.length)
      ensures sector != NO_SECTOR ==>
                sector < |View()| && sector == SectorAt(View(), inode.data, pos / SECTOR_SIZE)
    {
      hide Coherent, UsedIn, FilesOk, FileTree, ZeroFrom, SectorAt;
      OpenInode(inode);
      if 0 <= pos && pos < inode.data.length {
        var index := pos / SECTOR_SIZE;
        sector := IndexToSector(inode.data, index, inode.sector, BytesToSectors(inode.data.length));
      } else {
        sector := NO_SECTOR;
      }
    }

    /** Reading a sector through the cache changes no file. */
    method Fetch(sector: nat) returns (contents: Sector)
      requires Valid() && sector < |View()|
      modifies store.Footprint()
      ensures Valid() && View() == old(View()) && Own() == old(Own())
      ensures contents == View()[sector]
    {
      hide Coherent, UsedIn, FilesOk, UnpackInode;
      contents := store.cache.Read(sector);
    }

    /** Reads `chunk` bytes that lie in one sector of the file. */
    method ReadPiece(inode: Inode, offset: nat, chunk: nat) returns (piece: seq<Byte>)
      requires Valid() && inode in openInodes
      requires 0 < chunk && offset % SECTOR_SIZE + chunk <= SECTOR_SIZE && offset + chunk <= inode.data.length
      modifies store.Footprint()
      ensures Valid() && View() == old(View()) && Own() == old(Own())
      ensures piece == Contents(View(), inode.data)[offset..offset + chunk]
    {
      hide Coherent, UsedIn, FilesOk, FileTree, ZeroFrom, SectorAt, Bytes, UnpackInode, InodesOk;
      OpenInode(inode);
      var sector := ByteToSector(inode, offset);
      var sectorOfs := offset % SECTOR_SIZE;
      ReadChunk(View(), Own(), inode.data, inode.sector, offset, chunk);
      if sectorOfs == 0 && chunk == SECTOR_SIZE {
        piece := Fetch(sector);
      } else {
        var bounce := Fetch(sector);
        piece := bounce[sectorOfs..sectorOfs + chunk];
      }
    }

    /** Returns exactly the part of the file's contents that lies in the `size` bytes from `offset` on. */
    method ReadAt(inode: Inode, size: nat, offset: nat) returns (buffer: seq<Byte>)
      requires Valid() && inode in openInodes
      modifies store.Footprint()
      ensures Valid() && View() == old(View()) && Own() == old(Own())
      ensures buffer == Slice(Contents(View(), inode.data), offset, size)
    {
      hide Coherent, UsedIn, FilesOk, FileTree, ZeroFrom, Bytes, UnpackInode, Slice, InodesOk;
      OpenInode(inode);
      buffer := [];
      var left, at := size, offset;
      ghost var contents := Contents(View(), inode.data);
      SliceEnd(contents, offset, 0, 0);
      while left > 0
        invariant Valid() && View() == old(View()) && Own() == old(Own())
        invariant 0 <= left <= size && at == offset + (size - left)
        invariant size == left || at <= inode.data.length
        invariant buffer == Slice(contents, offset, size - left)
        decreases left
      {
        var sectorOfs := at % SECTOR_SIZE;
        var inodeLeft := inode.data.length - at;
        var sectorLeft := SECTOR_SIZE - sectorOfs;
        var minLeft := if inodeLeft < sectorLeft then inodeLeft else sectorLeft;
        var chunk := if left < minLeft then left else minLeft;
        if chunk <= 0 {
          break;
        }
        var piece := ReadPiece(inode, at, chunk);
        buffer := buffer + piece;
        SliceMore(contents, offset, size - left, chunk);
        left, at := left - chunk, at + chunk;
      }
      SliceEnd(contents, offset, size, size - left);
    }

    /** Writes bytes that lie in one sector of the file. */
    method WritePiece(inode: Inode, offset: nat, data: seq<Byte>)
      requires Valid() && inode in openInodes
      requires 0 < |data| && offset % SECTOR_SIZE + |data| <= SECTOR_SIZE && offset + |data| <= inode.data.length
      modifies store.Footprint()
      ensures Valid() && Own() == old(Own()) && |View()| == |old(View())|
      ensures FileAt(View(), inode.sector) == Splice(old(FileAt(View(), inode.sector)), offset, data)
      ensures Files() == old(Files())[inode.sector := FileAt(View(), inode.sector)]
      ensures Kinds() == old(Kinds())
    {
      hide Coherent, UsedIn, FilesOk, FileTree, ZeroFrom, SectorAt, Bytes, UnpackInode, Splice, FileAt, FilesIn,
           KindsIn;
      OpenInode(inode);
      var sector := ByteToSector(inode, offset);
      var sectorOfs := offset % SECTOR_SIZE;
      var sectorLeft := SECTOR_SIZE - sectorOfs;
      var chunk := |data|;
      WriteChunkInFiles(View(), Own(), files, inode.sector, offset, data);
      ghost var v := View();
      var contents: Sector;
      if sectorOfs == 0 && chunk == SECTOR_SIZE {
        contents := data;
      } else {
        var bounce;
        if sectorOfs > 0 || chunk < sectorLeft {
          bounce := Fetch(sector);
        } else {
          bounce := Zeros();
        }
        contents := Patch(bounce, sectorOfs, data);
      }
      assert contents == Patch(v[sector], sectorOfs, data);
      store.cache.Write(sector, contents);
    }

    /** Writes bytes that lie within the file's length, sector by sector. */
    method WriteWithin(inode: Inode, buffer: seq<Byte>, size: nat, offset: nat) returns (written: nat)
      requires Valid() && inode in openInodes
      requires size <= |buffer| && offset + size <= inode.data.length
      modifies store.Footprint()
      ensures Valid() && Own() == old(Own()) && |View()| == |old(View())|
      ensures written == size
      ensures FileAt(View(), inode.sector) == Splice(old(FileAt(View(), inode.sector)), offset, buffer[..size])
      ensures Files() == old(Files())[inode.sector := FileAt(View(), inode.sector)]
      ensures Kinds() == old(Kinds())
    {
      hide Coherent, UsedIn, FilesOk, FileOk, Contents, UnpackInode, Splice, InodesOk, Valid, FileAt, FilesIn, Files,
           Kinds;
      OpenInode(inode);
      written := 0;
      var left, at := size, offset;
      ghost var before := FileAt(View(), inode.sector);
      SpliceNothing(before, offset);
      while left > 0
        invariant Valid() && Own() == old(Own()) && |View()| == |old(View())|
        invariant 0 <= left <= size && written == size - left && at == offset + written
        invariant FileAt(View(), inode.sector) == Splice(before, offset, buffer[..written])
        invariant Files() == old(Files())[inode.sector := FileAt(View(), inode.sector)]
        invariant Kinds() == old(Kinds())
        decreases left
      {
        var sectorOfs := at % SECTOR_SIZE;
        var inodeLeft := inode.data.length - at;
        var sectorLeft := SECTOR_SIZE - sectorOfs;
        var minLeft := if inodeLeft < sectorLeft then inodeLeft else sectorLeft;
        var chunk := if left < minLeft then left else minLeft;
        if chunk <= 0 {
          break;
        }
        WritePiece(inode, at, buffer[written..written + chunk]);
        SpliceMore(before, offset, buffer, written, written + chunk);
        left, at, written := left - chunk, at + chunk, written + chunk;
      }
    }

    /** Whether the free map's inode, if it is open, is one of zeros. */
    ghost predicate OpenAsZeros()
      reads this, openInodes
    {
      forall i :: i in openInodes && i.sector == FREE_MAP_SECTOR ==> i.data == UnpackInode(Zeros())
    }

    /** Whether a failed attempt to extend the file leaves everything intact: no sector is free, so that none is
        taken in vain, and no index sector is wanted, or else the zeros that are meant for it and go to sector 0
        do no harm there, because the free map's file, if there is one, is empty. */
    ghost predicate Survives(inode: Inode)
      requires inode.data.length >= 0
      reads this, store, store.cache, inode, openInodes
    {
      && |Own()| == |View()|
      && (FileNeedsIndex(BytesToSectors(inode.data.length)) ==>
            (FREE_MAP_SECTOR in files ==> |FileAt(View(), FREE_MAP_SECTOR)| == 0) && OpenAsZeros())
    }

    lemma InodesZeroed(v: seq<Sector>)
      requires InodesOk(v) && |v| > 0
      ensures InodesOk(v[0 := Zeros()]) <==> OpenAsZeros()
    {
      hide UnpackInode;
    }

    /** Reserves space for `length` bytes and records the new length. */
    method Extend(inode: Inode, length: nat) returns (ok: bool)
      requires Valid() && inode in openInodes && length <= MAX_SECTORS * SECTOR_SIZE
      modifies store.Footprint(), inode`data
      ensures |View()| == |old(View())|
      ensures old(inode.data.length) >= 0
      ensures var n, m := BytesToSectors(old(inode.data.length)), BytesToSectors(length);
              ok <==> old(|Own()|) + FileTotal(Max(n, m)) - FileTotal(n) <= |View()|
      ensures ok ==> inode.data.length == length && Kinds() == old(Kinds())
      ensures inode.data.isDir == old(inode.data.isDir) && inode.data.magic == old(inode.data.magic)
      ensures ok && old(inode.data.length) <= length ==>
                Valid() && Extended(old(View()), old(Own()), View(), Own(), files, inode.sector, length)
      ensures ok && BytesToSectors(length) < BytesToSectors(old(inode.data.length)) ==>
                && !Valid() && store.Consistent()
                && FileTree(View(), Own(), inode.data, inode.sector, BytesToSectors(old(inode.data.length)))
      ensures BytesToSectors(length) <= BytesToSectors(old(inode.data.length)) ==> Own() == old(Own())
      ensures !ok ==>
                && store.Consistent() && inode.data.length == old(inode.data.length)
                && Unfinished(old(View()), old(Own()), View(), Own(), files, inode.sector,
                              BytesToSectors(old(inode.data.length)))
                && (Valid() <==> old(Survives(inode)))
    {
      hide Coherent, UsedIn, FileTree, ZeroFrom, PackInode, UnpackInode, FileTotal, Extended, InodesOk, FileAt,
           FilesOk, Max, Valid, Stuck, EntriesKept, Unfinished, KindsIn, Grown, Store.Consistent;
      OpenInode(inode);
      ghost var v, own, x := View(), Own(), inode.sector;
      ghost var n, m := BytesToSectors(inode.data.length), BytesToSectors(length);
      var d;
      ok, d := store.Reserve(inode.data, length, x, n);
      if !ok {
        NotExtended(inode, d, v, own);
        return;
      }
      ghost var v1, own1 := View(), Own();
      ghost var grows := inode.data.length <= length;
      RecordedKinds(v, own, v1, own1, files, x, d.(length := length));
      Record(inode, d.(length := length), v, own);
      if grows {
        ExtendInFiles(v, own, files, v1, own1, x, d, length);
        ExtendedFilesOk(v, own, View(), own1, files, x, length);
      } else if m < n {
        ShrinkBreaks(v1, own1, files, d, x, n, length);
      }
    }

    /** After a failed reservation: the inode in memory has the new entries, the one on disk has not. */
    method NotExtended(inode: Inode, d: InodeDisk, ghost v: seq<Sector>, ghost own: Owners)
      requires store.Consistent() && inode in openInodes && SameButEntries(inode.data, d)
      requires FilesOk(v, own, files) && InodesOk(v) && 0 in own && own[0] == Home(0) && |own| <= |v|
      requires inode.data.length == |FileAt(v, inode.sector)|
      requires Stuck(v, own, View(), Own(), File(inode.sector),
                     FileNeedsIndex(BytesToSectors(|FileAt(v, inode.sector)|)))
      requires EntriesKept(v, own, View()) && (|own| == |v| ==> d == inode.data)
      modifies inode`data
      ensures inode.data == d
      ensures Unfinished(v, own, View(), Own(), files, inode.sector, BytesToSectors(|FileAt(v, inode.sector)|))
      ensures Valid() <==> && |own| == |v|
                           && (FileNeedsIndex(BytesToSectors(|FileAt(v, inode.sector)|)) ==>
                                 (FREE_MAP_SECTOR in files ==> |FileAt(v, FREE_MAP_SECTOR)| == 0) && OpenAsZeros())
    {
      hide Coherent, UsedIn, FilesOk, UnpackInode, FileAt, EntriesKept, FilesKept;
      inode.data := d;
      FilesSpoiled(v, own, View(), Own(), files, inode.sector);
      StuckFiles(v, own, View(), Own(), files, inode.sector, FileNeedsIndex(BytesToSectors(|FileAt(v, inode.sector)|)));
      if |own| == |v| {
        InodesZeroed(v);
      }
    }

    /** Updates an open inode, in memory and in its sector. */
    method Record(inode: Inode, d: InodeDisk, ghost v: seq<Sector>, ghost own: Owners)
      requires store.Consistent() && inode in openInodes && WellFormed(d)
      requires FilesOk(v, own, files) && InodesOk(v) && Grown(v, own, View(), Own(), File(inode.sector))
      modifies store.Footprint(), inode`data
      ensures store.Consistent() && Own() == old(Own()) && inode.data == d
      ensures View() == old(View())[inode.sector := PackInode(d)]
      ensures Valid() <==> FilesOk(View(), Own(), files)
    {
      hide Coherent, UsedIn, FileOk, PackInode, UnpackInode;
      inode.data := d;
      store.cache.Write(inode.sector, PackInode(d));
      InodeRoundTrip(d);
    }

    /** Whether the file can be made to hold `length` bytes with the free sectors there are. */
    ghost predicate Fits(inode: Inode, length: nat)
      requires inode.data.length >= 0
      reads store, store.cache, inode
    {
      var n, m := BytesToSectors(inode.data.length), BytesToSectors(length);
      |Own()| + FileTotal(Max(n, m)) - FileTotal(n) <= |View()|
    }

    lemma SectorsMonotone(length: nat, more: nat)
      ensures length <= more ==> BytesToSectors(length) <= BytesToSectors(more)
      ensures length == 0 < more ==> BytesToSectors(length) < BytesToSectors(more)
    {
    }

    /** Writes `size` bytes at `offset`, extending the file with zeros where needed; writes nothing if writes
        are denied or the free sectors do not suffice. In the latter case the sectors it has taken stay with the
        file, out of its reach, so that nothing is broken just when there were none. A write of no bytes at
        offset 0 of a nonempty file breaks the file system: it takes the path that extends the file, sets the
        file's length to 0 and leaves its sectors allocated. */
    method WriteAt(inode: Inode, buffer: seq<Byte>, size: nat, offset: nat) returns (written: nat)
      requires Valid() && inode in openInodes
      requires size <= |buffer| && offset + size <= MAX_SECTORS * SECTOR_SIZE
      modifies store.Footprint(), inode`data
      ensures old(inode.data.length) >= 0
      ensures inode.data.isDir == old(inode.data.isDir) && inode.data.magic == old(inode.data.magic)
      ensures inode.denyWriteCnt > 0 ==>
                written == 0 && Valid() && View() == old(View()) && Own() == old(Own())
      ensures inode.denyWriteCnt == 0 && !old(Fits(inode, offset + size)) ==>
                && written == 0 && store.Consistent() && inode.data.length == old(inode.data.length)
                && Unfinished(old(View()), old(Own()), View(), Own(), files, inode.sector,
                              BytesToSectors(old(inode.data.length)))
                && (Valid() <==> old(Survives(inode)))
      ensures var truncates := size == 0 && offset == 0 && old(inode.data.length) > 0;
              inode.denyWriteCnt == 0 && old(Fits(inode, offset + size)) ==>
                && written == size && Kinds() == old(Kinds())
                && (Valid() <==> !truncates)
                && (!truncates ==>
                      Written(old(View()), old(Own()), View(), Own(), files, inode.sector, offset, buffer[..size]))
                && (truncates ==>
                      && inode.data.length == 0 && store.Consistent() && Own() == old(Own())
                      && FileTree(View(), Own(), inode.data, inode.sector, BytesToSectors(old(inode.data.length))))
    {
      hide Coherent, UsedIn, FileOk, UnpackInode, InodesOk, FileAt, FilesIn, FilesOk, Valid, Extended, Written,
           Splice, FileTotal, Contents, Unfinished, BytesToSectors, FileNeedsIndex, SectorAt, FileTree,
           Store.Consistent, KindsIn;
      if inode.denyWriteCnt > 0 {
        OpenInode(inode);
        return 0;
      }
      OpenInode(inode);
      ghost var v, own, x := View(), Own(), inode.sector;
      SectorsMonotone(offset + size, inode.data.length);
      var sector := ByteToSector(inode, offset + size - 1);
      if sector == NO_SECTOR {
        var ok := Extend(inode, offset + size);
        if !ok {
          return 0;
        }
        ghost var v1, own1 := View(), Own();
        if size > 0 {
          OpenInode(inode);
          written := WriteWithin(inode, buffer, size, offset);
          WrittenExtended(v, own, v1, own1, View(), files, x, offset, buffer[..size]);
        } else {
          written := 0;
          if offset > 0 || |FileAt(v, x)| == 0 {
            WrittenNothing(v, own, v1, own1, files, x, offset);
          }
        }
      } else {
        written := WriteWithin(inode, buffer, size, offset);
        WrittenWithin(v, own, View(), files, x, offset, buffer[..size]);
      }
    }

    /** Takes a sector for a new inode, as creating a file does first. */
    method AllocateInode() returns (ok: bool, sector: U32)
      requires Valid()
      modifies store.Footprint()
      ensures Valid() && View() == old(View())
      ensures ok <==> old(|Own()|) < |View()|
      ensures ok ==> sector !in old(Own()) && sector < |View()| && Own() == old(Own())[sector := Home(sector)]
      ensures ok ==> forall s: nat :: s < sector ==> s in old(Own())
      ensures !ok ==> Own() == old(Own())
    {
      hide Coherent, UsedIn, FileOk, UnpackInode;
      ghost var own := Own();
      ok, sector := store.AllocateHome();
      if ok {
        HomeInFiles(View(), own, files, sector);
      }
    }

    /** Makes the allocated sector the inode of a new file of `length` zeros. It can do so exactly when
        there are enough free sectors; otherwise those it has taken are nobody's, and nothing is broken just
        when there were none. */
    method Create(sector: U32, length: I32, isDir: bool) returns (ok: bool)
      requires Valid() && 0 <= length <= MAX_SECTORS * SECTOR_SIZE
      requires sector < |View()| && sector !in files && sector in Own() && Own()[sector] == Home(sector)
      modifies this`files, store.Footprint()
      ensures |View()| == |old(View())|
      ensures ok <==> old(|Own()|) + FileTotal(BytesToSectors(length)) <= |View()|
      ensures ok ==> Valid() && files == old(files) + {sector}
      ensures ok ==> Files() == old(Files())[sector := seq(length, _ => 0)]
      ensures ok ==> |Own()| == old(|Own()|) + FileTotal(BytesToSectors(length))
      ensures ok ==> Kinds() == old(Kinds())[sector := (isDir, INODE_MAGIC)]
      ensures !ok ==>
                && store.Consistent() && files == old(files)
                && Unfinished(old(View()), old(Own()), View(), Own(), files, sector, 0)
                && (Valid() <==> old(|Own()|) == |View()|)
    {
      hide Coherent, UsedIn, FileOk, UnpackInode, PackInode, FilesOk, FilesIn, OwnedByRoot, Grown, EntriesKept,
           FilesKept, FileAt, Stuck, Unfinished, KindsIn;
      store.OwnersBelow();
      ghost var v, own := View(), Own();
      var d := NewInode(isDir, length, INODE_MAGIC);
      NoTree(v, own, files, sector, isDir, length, INODE_MAGIC);
      ok, d := store.Reserve(d, d.length, sector, 0);
      if ok {
        RecordNew(sector, d, v, own);
      } else {
        NotCreated(v, own, sector);
      }
    }

    /** Writes a new file's inode to its sector. */
    method RecordNew(sector: U32, d: InodeDisk, ghost v: seq<Sector>, ghost own: Owners)
      requires store.Consistent() && FilesOk(v, own, files) && InodesOk(v) && Grown(v, own, View(), Own(), File(sector))
      requires sector < |v| && sector !in files && sector in own && own[sector] == Home(sector)
      requires 0 <= d.length <= MAX_SECTORS * SECTOR_SIZE
      requires FileTree(View(), Own(), d, sector, BytesToSectors(d.length))
      modifies this`files, store.Footprint()
      ensures Valid() && files == old(files) + {sector} && Own() == old(Own()) && |View()| == |v|
      ensures Files() == FilesIn(v, old(files))[sector := seq(d.length, _ => 0)]
      ensures Kinds() == KindsIn(v, old(files))[sector := (d.isDir, d.magic)]
    {
      hide Coherent, UsedIn, FileOk, UnpackInode, PackInode, FilesOk, FilesIn, OwnedByRoot, Grown, FileAt, KindsIn;
      CreateInFiles(v, own, files, View(), Own(), sector, d.isDir, d.magic, d);
      store.cache.Write(sector, PackInode(d));
      InodeRoundTrip(d);
      files := files + {sector};
    }

    lemma NotCreated(v: seq<Sector>, own: Owners, sector: nat)
      requires store.Consistent() && FilesOk(v, own, files) && InodesOk(v) && 0 in own && own[0] == Home(0)
      requires sector !in files && |own| <= |v| && EntriesKept(v, own, View())
      requires Stuck(v, own, View(), Own(), File(sector), false)
      ensures Unfinished(v, own, View(), Own(), files, sector, 0) && (Valid() <==> |own| == |v|)
    {
      hide Coherent, UsedIn, FilesOk, FilesKept, EntriesKept, UnpackInode;
      FilesSpoiled(v, own, View(), Own(), files, sector);
      StuckNewFile(v, own, View(), Own(), files, sector);
    }

    /** Opens the file with the given inode number; opening it again gives the same inode. */
    method Open(sector: U32) returns (inode: Inode)
      requires Valid() && sector in files
      modifies this`openInodes, store.Footprint(), openInodes`openCnt
      ensures Valid() && View() == old(View()) && Own() == old(Own())
      ensures inode in openInodes && inode.sector == sector
      ensures if exists i :: i in old(openInodes) && i.sector == sector
              then inode in old(openInodes) && openInodes == old(openInodes) && inode.openCnt == old(inode.openCnt) + 1
              else && fresh(inode) && openInodes == [inode] + old(openInodes)
                   && inode.openCnt == 1 && inode.denyWriteCnt == 0 && !inode.removed
      ensures forall i :: i in old(openInodes) && i != inode ==> i.openCnt == old(i.openCnt)
    {
      hide Coherent, UsedIn, FilesOk, UnpackInode;
      var found := FindOpen(sector);
      if found != null {
        inode := found;
        inode.openCnt := inode.openCnt + 1;
      } else {
        inode := OpenFirst(sector);
      }
    }

    method OpenFirst(sector: U32) returns (inode: Inode)
      requires Valid() && sector in files && forall i :: i in openInodes ==> i.sector != sector
      modifies this`openInodes, store.Footprint()
      ensures Valid() && View() == old(View()) && Own() == old(Own())
      ensures fresh(inode) && inode.sector == sector
      ensures inode.openCnt == 1 && inode.denyWriteCnt == 0 && !inode.removed
      ensures openInodes == [inode] + old(openInodes)
    {
      hide Coherent, UsedIn, FilesOk, UnpackInode;
      SectorOfFile(sector);
      var contents := Fetch(sector);
      inode := new Inode(sector, UnpackInode(contents));
      assert inode !in openInodes;
      openInodes := [inode] + openInodes;
      assert forall i :: i in openInodes ==> i == inode || i in old(openInodes);
    }

    /** The open inode for a sector, if there is one. */
    method FindOpen(sector: U32) returns (inode: Inode?)
      ensures inode != null ==> inode in openInodes && inode.sector == sector
      ensures inode == null ==> forall i :: i in openInodes ==> i.sector != sector
    {
      for k := 0 to |openInodes|
        invariant forall j :: 0 <= j < k ==> openInodes[j].sector != sector
      {
        if openInodes[k].sector == sector {
          return openInodes[k];
        }
      }
      return null;
    }

    lemma SectorOfFile(sector: nat)
      requires Valid() && sector in files
      ensures sector < |View()|
    {
    }

    /** Marks the file to be deleted when its last opener closes it. The free map's own must not be: with it
        sector 0, which stands for "no sector", would become free. */
    method Remove(inode: Inode)
      requires Valid() && inode in openInodes
      modifies inode`removed
      ensures inode.removed && View() == old(View()) && Own() == old(Own())
      ensures Valid() <==> inode.sector != FREE_MAP_SECTOR
    {
      hide Coherent, UsedIn, FilesOk, UnpackInode;
      inode.removed := true;
    }

    /** Closes the inode. The last close of a removed file gives up its inode and all of its data and index
        sectors, each once; the other files are as they were. */
    method Close(inode: Inode)
      requires Valid() && inode in openInodes
      modifies this, store.Footprint(), inode`openCnt
      ensures Valid() && View() == old(View())
      ensures inode.openCnt == old(inode.openCnt) - 1
      ensures if inode.openCnt > 0 then openInodes == old(openInodes)
              else Dropped(old(openInodes), openInodes, inode)
                   && forall i :: i in openInodes <==> i in old(openInodes) && i != inode
      ensures var freed := inode.openCnt == 0 && inode.removed;
              && files == old(files) - (if freed then {inode.sector} else {})
              && Files() == old(Files()) - (if freed then {inode.sector} else {})
              && |Own()| == old(|Own()|)
                           - (if freed then 1 + FileTotal(BytesToSectors(old(|FileAt(View(), inode.sector)|))) else 0)
              && (freed ==> forall s :: s in Own() <==>
                    s in old(Own()) && s != inode.sector && !Under(old(Own())[s], File(inode.sector)))
    {
      hide Coherent, UsedIn, FilesOk, FileOk, UnpackInode, FileTotal, FilesIn, FileAt, Contents, Dropped;
      OpenInode(inode);
      inode.openCnt := inode.openCnt - 1;
      if inode.openCnt > 0 {
        return;
      }
      DropFromList(inode);
      if inode.removed {
        Free(inode.sector, inode.data);
      }
    }

    /** The list is as before but for the inode. */
    static ghost predicate Dropped(before: seq<Inode>, after: seq<Inode>, inode: Inode) {
      exists k :: 0 <= k < |before| && before[k] == inode && after == before[..k] + before[k + 1..]
    }

    /** Takes the inode off the list of open inodes. */
    method DropFromList(inode: Inode)
      requires inode in openInodes
      requires Distinct(openInodes)
      modifies this`openInodes
      ensures Dropped(old(openInodes), openInodes, inode)
      ensures forall i :: i in openInodes <==> i in old(openInodes) && i != inode
      ensures Distinct(openInodes)
    {
      var k := 0;
      while openInodes[k] != inode
        invariant 0 <= k < |openInodes| && inode !in openInodes[..k]
        decreases |openInodes| - k
      {
        k := k + 1;
      }
      var before := openInodes;
      openInodes := before[..k] + before[k + 1..];
      assert forall i :: i in before ==> i == before[k] || i in before[..k] || i in before[k + 1..];
    }

    /** Gives up all the sectors of a file that is no longer open. */
    method Free(sector: U32, d: InodeDisk)
      requires Valid() && sector in files && sector != FREE_MAP_SECTOR && sector < |View()|
      requires d == UnpackInode(View()[sector]) && forall i <- openInodes :: i.sector != sector
      modifies this`files, store.Footprint()
      ensures Valid() && View() == old(View())
      ensures files == old(files) - {sector} && Files() == old(Files()) - {sector}
      ensures |Own()| == old(|Own()|) - 1 - FileTotal(BytesToSectors(|FileAt(View(), sector)|))
      ensures forall s :: s in Own() <==> s in old(Own()) && s != sector && !Under(old(Own())[s], File(sector))
    {
      hide Coherent, UsedIn, FileOk, UnpackInode, FileTotal, FilesIn, FilesOk, FileAt;
      ReleaseFile(sector, d);
      files := files - {sector};
    }

    method ReleaseFile(sector: U32, d: InodeDisk)
      requires store.Consistent() && FilesOk(View(), Own(), files) && sector in files && sector != FREE_MAP_SECTOR
      requires sector < |View()| && d == UnpackInode(View()[sector])
      modifies store.Footprint()
      ensures store.Consistent() && View() == old(View())
      ensures FilesOk(View(), Own(), files - {sector}) && FilesIn(View(), files - {sector}) == old(Files()) - {sector}
      ensures |Own()| == old(|Own()|) - 1 - FileTotal(BytesToSectors(|FileAt(View(), sector)|))
      ensures forall s :: s in Own() <==> s in old(Own()) && s != sector && !Under(old(Own())[s], File(sector))
    {
      hide Coherent, UsedIn, OwnedByRoot, FileOk, UnpackInode, FileTotal, FilesIn, FilesOk, FileAt;
      FileFacts(View(), Own(), files, sector);
      ghost var own := Own();
      ReleaseTree(sector, d, BytesToSectors(d.length));
      RemoveOneFile(View(), own, files, Own(), sector);
    }

    /** The inode's sector and then, as its length tells, the sectors below it are given up. */
    method ReleaseTree(sector: U32, d: InodeDisk, ghost n: nat)
      requires store.Consistent() && FileTree(View(), Own(), d, sector, n) && n <= MAX_SECTORS
      requires sector in Own() && Own()[sector] == Home(sector) && sector != FREE_MAP_SECTOR
      requires d.length == 0 || (d.length > 0 && n == BytesToSectors(d.length))
      modifies store.Footprint()
      ensures store.Consistent() && View() == old(View())
      ensures n == BytesToSectors(d.length) ==>
                && |Own()| == old(|Own()|) - 1 - FileTotal(n)
                && (forall s :: s in Own() ==> s in old(Own()) && Own()[s] == old(Own())[s])
                && forall s :: s in Own() <==> s in old(Own()) && s != sector && !Under(old(Own())[s], File(sector))
      ensures d.length == 0 ==> Own() == old(Own()) - {sector}
    {
      hide Coherent, UsedIn, OwnedByRoot, FileTotal;
      ReleaseHome(View(), Own(), d, sector, n);
      store.ReleaseOne(sector);
      var ok := store.Deallocate(d, sector, n);
    }
  }

  /** A new file of one byte, opened. */
  method OpenNewFile(device: BlockDevice) returns (fs: FileSystem, inode: Inode)
    requires 4 <= |device.sectors| < 0x1_0000_0000
    modifies device
    ensures fresh(fs) && fresh(fs.store) && fresh(fs.store.Footprint() - {device}) && fresh(inode)
    ensures fs.Valid() && inode in fs.openInodes && inode.sector != FREE_MAP_SECTOR
    ensures inode.data.length == 1 && inode.denyWriteCnt == 0
    ensures |fs.Own()| == 4 && |fs.View()| == |old(device.sectors)|
  {
    hide FilesOk, UnpackInode, Unfinished, Coherent, UsedIn, Store.Consistent;
    fs := new FileSystem(device);
    OneSector();
    assert |fs.Own()| == 2;
    var ok, sector := fs.AllocateInode();
    ok := fs.Create(sector, 1, false);
    inode := fs.Open(sector);
    fs.OpenInode(inode);
  }

  lemma OneSector()
    ensures BytesToSectors(1) == 1 && BytesToSectors(0) == 0 && FileTotal(1) == 1
  {
  }

  /** Nothing is written at its start: its length is 0 then, though its data sector is still there. */
  method WriteNothing(device: BlockDevice) returns (fs: FileSystem, inode: Inode)
    requires 4 <= |device.sectors| < 0x1_0000_0000
    modifies device
    ensures fresh(fs) && fresh(fs.store) && fresh(fs.store.Footprint() - {device}) && fresh(inode)
    ensures inode in fs.openInodes && inode.sector != FREE_MAP_SECTOR
    ensures !fs.Valid() && fs.store.Consistent() && inode.data.length == 0
    ensures inode.sector in fs.Own() && fs.Own()[inode.sector] == Home(inode.sector)
    ensures FileTree(fs.View(), fs.Own(), inode.data, inode.sector, 1)
  {
    hide FileTree, FilesOk, UnpackInode, Written, Unfinished, Coherent, UsedIn, Store.Consistent, BytesToSectors,
         FileTotal;
    fs, inode := OpenNewFile(device);
    OneSector();
    fs.OpenInode(inode);
    var written := fs.WriteAt(inode, [], 0, 0);
  }

  /** When that file is removed and closed, its data sector stays in use, though no file can reach it. */
  method LoseSector(device: BlockDevice) returns (fs: FileSystem, x: nat, lost: nat)
    requires 4 <= |device.sectors| < 0x1_0000_0000
    modifies device
    ensures fs.store.Consistent() && x !in fs.Own()
    ensures lost in fs.Own() && fs.Own()[lost] == Root(x, 0)
  {
    hide Coherent, UsedIn, Owned;
    var inode;
    fs, inode := WriteNothing(device);
    x := inode.sector;
    SectorAtOwned(fs.View(), fs.Own(), inode.data, x, 1, 0);
    lost := inode.data.direct[0];
    fs.ReleaseTree(inode.sector, inode.data, 1);
  }

  /** Writing three sectors' worth to it when there is one free sector writes nothing, and takes that one. */
  method WriteTooMuch(device: BlockDevice) returns (fs: FileSystem, written: nat)
    requires |device.sectors| == 5
    modifies device
    ensures written == 0 && fs.store.Consistent() && |fs.Own()| == |fs.View()| == 5
    ensures !fs.Valid()
  {
    hide FilesOk, UnpackInode, Written, FilesKept, Coherent, UsedIn, Store.Consistent, FileTree;
    var inode;
    fs, inode := OpenNewFile(device);
    OneSector();
    assert BytesToSectors(1025) == 3 && FileTotal(3) == 3;
    written := fs.WriteAt(inode, seq(1025, _ => 0), 1025, 0);
  }
}
