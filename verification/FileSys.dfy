/**
 The file system: create, open, reopen, close, remove, read, write and write denial, over a
 device of 512-byte sectors, a free map, the list of open inodes and the root directory.

 Every place where the kernel allocates memory or writes the free map back can fail; which
 ones do is a parameter of the call, and so is how far a directory scan gets. The invariant
 holds whatever fails. A scan that stops short can still mislead a create into repeating a
 name or overwriting an entry; `Tidy` is what holds as long as that has not happened.
 */
module FileSys {
  import opened Bytes
  import opened InodeIo
  import opened Options
  import opened Runs
  import opened FsModel
  import D = Directory

  class FileSystem {
    const dev: Device
    var freeMap: seq<bool>
    var inodes: map<Id, Inode>      // struct inode, by address
    var openList: seq<Id>           // open_inodes
    var files: map<Fid, File>       // struct file, by address
    var nextAddress: nat            // where the next struct will be
    ghost var owned: Owned          // live files: inode sector and data extent
    ghost var extra: multiset<Id>   // references to inodes held by calls in progress

    ghost predicate Base()
      reads this, dev
    {
      && WellFormed(dev.sectors) && FREE_MAP_SECTOR in owned && ROOT_DIR_SECTOR in owned &&
        Fits(dev.sectors, owned[ROOT_DIR_SECTOR])
    }

    /** The root directory's slots. */
    ghost function Root(): seq<D.Slot>
      requires Base()
      reads this, dev
    {
      D.Slots(dev.sectors, owned[ROOT_DIR_SECTOR])
    }

    /** The invariant, in the middle of a call or between calls. */
    ghost predicate Valid()
      reads this, dev
    {
      && Base() && |dev.sectors| == |freeMap| < 0x1_0000_0000
      && Listing(openList, inodes, files, nextAddress)
      && Allocated(freeMap, owned)
      && OnDisk(dev.sectors, owned)
      && Counted(inodes, files, extra)
      && Named(Root()) && Live(owned, Root(), inodes)
    }

    /**
     Formats the device and opens the free map file, as `filesys_init (true)` does when the
     device is large enough: inodes in sectors 0 and 1, then their data, first fit.
     */
    constructor (dev: Device)
      requires dev.Valid() && 3 + SectorsFor(FreeMapBytes(|dev.sectors|)) <= |dev.sectors| < 0x8000_0000
      modifies dev
      ensures Valid() && this.dev == dev && extra == multiset{} && Tidy() && inodes.Keys == {0} && files.Keys == {1}
      ensures |Root()| == 16 && forall k :: 0 <= k < |Root()| ==> !Root()[k].inUse
      ensures |freeMap| == |dev.sectors| == |old(dev.sectors)|
      ensures forall x :: 0 <= x < |freeMap| ==> (freeMap[x] <==> x < 3 + SectorsFor(FreeMapBytes(|freeMap|)))
    {
      hide Allocated, Counted, Live, Listing, Listed, D.Slots, D.UniqueNames, RemovedExact, SetRun, InodeIn,
           InodeBytes, OnDisk, Named, FormatRoot, FormatFreeMap;
      var n := |dev.sectors|;
      var fm := seq(n, _ => false)[FREE_MAP_SECTOR := true][ROOT_DIR_SECTOR := true];
      var e0, e1 := FormatFreeMap(fm), FormatRoot(fm);
      FormatLayout(n, fm);
      WriteInode(dev, FREE_MAP_SECTOR, e0);
      WriteInode(dev, ROOT_DIR_SECTOR, e1);
      Formatted(fm, dev.sectors, e0, e1);
      this.dev := dev;
      freeMap := SetRun(SetRun(fm, e0.start, SectorsFor(e0.length), true), e1.start, 1, true);
      owned := map[FREE_MAP_SECTOR := e0, ROOT_DIR_SECTOR := e1];
      inodes := map[0 := Inode(FREE_MAP_SECTOR, 1, false, 0, e0)];
      openList := [0];
      files := map[1 := File(0, 0, false)];
      nextAddress := 2;
      extra := multiset{};
    }

    // ---- free map ---------------------------------------------------------------------------

    /** `free_map_allocate`: first fit, rolled back if the free map file cannot be written. */
    method FreeMapAllocate(cnt: nat, writeOk: bool) returns (r: Option<nat>)
      requires Valid()
      modifies this`freeMap
      ensures Valid()
      ensures r == if writeOk then FirstFit(old(freeMap), 0, cnt, false) else None
      ensures r.None? ==> freeMap == old(freeMap)
      ensures r.Some? ==> RunAt(old(freeMap), r.value, cnt, false) &&
                          freeMap == SetRun(old(freeMap), r.value, cnt, true)
    {
      hide Counted, Allocated, OnDisk, Live, Listing, D.Slots;
      var sector := FirstFit(freeMap, 0, cnt, false);
      if sector.None? {
        return None;
      }
      assert RunAt(freeMap, sector.value, cnt, false) by { FirstFitIsLeast(freeMap, 0, cnt, false); }
      freeMap := SetRun(freeMap, sector.value, cnt, true);
      if !writeOk {
        freeMap := SetRun(freeMap, sector.value, cnt, false);
        assert freeMap == old(freeMap) by { SetRunUndo(old(freeMap), sector.value, cnt, false); }
        return None;
      }
      AllocatedMono(old(freeMap), owned, freeMap);
      r := sector;
    }

    // ---- inodes -------------------------------------------------------------------------------

    /** The search of `inode_open` through the list of open inodes. */
    method InodeFind(sector: nat) returns (r: Option<Id>)
      requires Listing(openList, inodes, files, nextAddress)
      ensures r.Some? ==> r.value in inodes && inodes[r.value].sector == sector
      ensures r.None? ==> forall id :: id in inodes ==> inodes[id].sector != sector
      ensures r.Some? <==> sector in OpenSectors(inodes)
    {
      var i := 0;
      while i < |openList|
        invariant 0 <= i <= |openList|
        invariant forall k :: 0 <= k < i ==> openList[k] in inodes && inodes[openList[k]].sector != sector
      {
        var id := openList[i];
        assert Linked(openList, inodes, id);
        if inodes[id].sector == sector {
          return Some(id);
        }
        i := i + 1;
      }
      NotListed(openList, inodes, files, nextAddress, sector);
      r := None;
    }

    /** `inode_reopen` */
    method InodeReopen(id: Id)
      requires Valid() && id in inodes
      modifies this`inodes, this`extra
      ensures Valid() && extra == old(extra) + multiset{id}
      ensures inodes == old(inodes)[id := old(inodes)[id].(openCnt := old(inodes)[id].openCnt + 1)]
    {
      hide Counted, Allocated, OnDisk, Live, Listing, D.Slots;
      var inode := inodes[id].(openCnt := inodes[id].openCnt + 1);
      CountedReopen(inodes, files, extra, id);
      LiveSame(owned, Root(), inodes, id, inode);
      ListSame(openList, inodes, files, nextAddress, inodes[id := inode], files);
      inodes := inodes[id := inode];
      extra := extra + multiset{id};
    }

    /** The end of `inode_open`: a new structure, at the front of the list, filled from the disk. */
    method InodeNew(sector: nat) returns (id: Id)
      requires Valid() && sector in Rooted(Root()) && forall i :: i in inodes ==> inodes[i].sector != sector
      modifies this`inodes, this`openList, this`nextAddress, this`extra
      ensures Valid() && extra == old(extra) + multiset{id} && nextAddress > old(nextAddress)
      ensures id !in old(inodes) && sector in owned &&
              inodes == old(inodes)[id := Inode(sector, 1, false, 0, owned[sector])]
    {
      hide Counted, Allocated, OnDisk, Live, Listing, D.Slots;
      id := nextAddress;
      FreshAddress(openList, inodes, files, nextAddress);
      LiveOpen(owned, Root(), inodes, id, sector);
      DiskAt(dev.sectors, owned, sector);
      var data := InodeIn(dev.sectors[sector]);
      CountedNew(inodes, files, extra, id, sector, data);
      ListPush(openList, inodes, files, nextAddress, nextAddress + 1, Inode(sector, 1, false, 0, data));
      openList := [id] + openList;
      inodes := inodes[id := Inode(sector, 1, false, 0, data)];
      extra := extra + multiset{id};
      nextAddress := nextAddress + 1;
    }

    /** `inode_open`: the one in-memory inode of the sector, found or made. */
    method InodeOpen(sector: nat, mallocOk: bool) returns (r: Option<Id>)
      requires Valid() && sector in Rooted(Root())
      modifies this`inodes, this`openList, this`nextAddress, this`extra
      ensures Valid() && nextAddress >= old(nextAddress)
      ensures r.Some? <==> sector in OpenSectors(old(inodes)) || mallocOk
      ensures r.None? ==> inodes == old(inodes) && extra == old(extra)
      ensures r.Some? ==> extra == old(extra) + multiset{r.value}
      ensures r.Some? ==> Opened(old(inodes), inodes, owned, r.value, sector)
    {
      hide Counted, Allocated, OnDisk, Live, Listing, D.Slots;
      r := InodeFind(sector);
      if r.Some? {
        LiveAt(owned, Root(), inodes, r.value);
        InodeReopen(r.value);
        return;
      }
      if !mallocOk {
        return None;
      }
      var id := InodeNew(sector);
      r := Some(id);
    }

    /** `inode_close` of one of several references. */
    method InodeDrop(id: Id)
      requires Valid() && id in extra && id in inodes && inodes[id].openCnt > 1
      modifies this`inodes, this`extra
      ensures Valid() && extra == old(extra) - multiset{id}
      ensures inodes == old(inodes)[id := old(inodes)[id].(openCnt := old(inodes)[id].openCnt - 1)]
    {
      hide Counted, Allocated, OnDisk, Live, Listing, D.Slots;
      var inode := inodes[id].(openCnt := inodes[id].openCnt - 1);
      CountedDrop(inodes, files, extra, id);
      LiveSame(owned, Root(), inodes, id, inode);
      ListSame(openList, inodes, files, nextAddress, inodes[id := inode], files);
      inodes := inodes[id := inode];
      extra := extra - multiset{id};
    }

    /**
     `inode_close` of the last reference to a file that was not removed: it lives on under its
     name. If its entry was overwritten it has none, and its sectors stay marked for nobody.
     */
    method InodeFree(id: Id)
      requires Valid() && id in extra && id in inodes && inodes[id].openCnt == 1 && !inodes[id].removed
      modifies this`inodes, this`openList, this`owned, this`extra
      ensures Valid() && extra == old(extra) - multiset{id} && Root() == old(Root())
      ensures Closed(freeMap, old(inodes), old(owned), Root(), freeMap, inodes, owned, id)
    {
      hide Counted, Allocated, OnDisk, Live, Listing, D.Slots, Without;
      ghost var s := inodes[id].sector;
      CountedClose(inodes, files, extra, id);
      IdAt(inodes, files, extra, id);
      LiveClose(owned, Root(), inodes, id);
      ListRemove(openList, inodes, files, nextAddress, id);
      AllocatedDrop(freeMap, owned, s);
      OnDiskShrink(dev.sectors, owned, s);
      openList := Without(openList, id);
      owned := if s in Rooted(Root()) then owned else owned - {s};
      inodes := inodes - {id};
      extra := extra - multiset{id};
    }

    /** `inode_close` of the last reference to a removed file: its sectors, all of them marked, are released. */
    method InodeDestroy(id: Id)
      requires Valid() && id in extra && id in inodes && inodes[id].openCnt == 1 && inodes[id].removed
      modifies this`freeMap, this`inodes, this`openList, this`owned, this`extra
      ensures Valid() && extra == old(extra) - multiset{id} && Root() == old(Root())
      ensures Closed(old(freeMap), old(inodes), old(owned), Root(), freeMap, inodes, owned, id)
    {
      hide Counted, Allocated, OnDisk, Live, Listing, D.Slots, SetRun;
      var inode := inodes[id];
      Destroyed(freeMap, dev.sectors, owned, Root(), inodes, files, extra, id);
      ListRemove(openList, inodes, files, nextAddress, id);
      openList := Without(openList, id);
      assert RunAt(freeMap, inode.sector, 1, true);
      freeMap := SetRun(freeMap, inode.sector, 1, false);
      assert RunAt(freeMap, inode.data.start, SectorsFor(inode.data.length), true);
      freeMap := SetRun(freeMap, inode.data.start, SectorsFor(inode.data.length), false);
      owned := owned - {inode.sector};
      inodes := inodes - {id};
      extra := extra - multiset{id};
    }

    /** `inode_close` */
    method InodeClose(id: Id)
      requires Valid() && id in extra
      modifies this`freeMap, this`inodes, this`openList, this`owned, this`extra
      ensures Valid() && extra == old(extra) - multiset{id}
      ensures Closed(old(freeMap), old(inodes), old(owned), Root(), freeMap, inodes, owned, id)
      ensures Root() == old(Root())
    {
      hide Counted, Allocated, OnDisk, Live, Listing, D.Slots;
      IdAt(inodes, files, extra, id);
      if inodes[id].openCnt > 1 {
        InodeDrop(id);
      } else if !inodes[id].removed {
        InodeFree(id);
      } else {
        InodeDestroy(id);
      }
    }

    // ---- files ---------------------------------------------------------------------------------

    /** `file_open`: the call's reference becomes a handle's, or is dropped. */
    method FileOpen(id: Id, callocOk: bool) returns (r: Option<Fid>)
      requires Valid() && id in extra && id in inodes && inodes[id].sector != ROOT_DIR_SECTOR
      modifies this`freeMap, this`inodes, this`openList, this`owned, this`extra, this`files, this`nextAddress
      ensures Valid() && extra == old(extra) - multiset{id} && Root() == old(Root())
      ensures r.Some? <==> callocOk
      ensures r.Some? ==> r.value !in old(files) && files == old(files)[r.value := File(id, 0, false)]
      ensures r.Some? ==> inodes == old(inodes) && owned == old(owned) && freeMap == old(freeMap)
      ensures r.None? ==> files == old(files) &&
                          Closed(old(freeMap), old(inodes), old(owned), Root(), freeMap, inodes, owned, id)
    {
      hide Counted, Allocated, OnDisk, Live, Listing, D.Slots;
      if !callocOk {
        InodeClose(id);
        return None;
      }
      var f := nextAddress;
      FreshAddress(openList, inodes, files, nextAddress);
      CountedHandOver(inodes, files, extra, f, id);
      HeapGrow(openList, inodes, files, nextAddress, nextAddress + 1, File(id, 0, false));
      files := files[f := File(id, 0, false)];
      extra := extra - multiset{id};
      nextAddress := nextAddress + 1;
      r := Some(f);
    }

    /** `file_deny_write` and `file_allow_write`: at most one denial per handle, counted in the inode. */
    method SetDeny(f: Fid, deny: bool)
      requires Valid() && f in files
      modifies this`inodes, this`files
      ensures Valid() && files == old(files)[f := old(files)[f].(denyWrite := deny)]
      ensures inodes.Keys == old(inodes).Keys && OpenSectors(inodes) == OpenSectors(old(inodes))
      ensures forall i :: i in inodes ==> inodes[i] == old(inodes)[i].(denyWriteCnt := inodes[i].denyWriteCnt)
    {
      hide Counted, Allocated, OnDisk, Live, Listing, D.Slots;
      if files[f].denyWrite == deny {
        assert files == files[f := files[f].(denyWrite := deny)];
        return;
      }
      var id := files[f].inode;
      CountedDeny(inodes, files, extra, f, deny);
      var inode := inodes[id].(denyWriteCnt := inodes[id].denyWriteCnt + (if deny then 1 else -1));
      assert deny ==> inode.denyWriteCnt <= inode.openCnt;
      LiveSame(owned, Root(), inodes, id, inode);
      ListSame(openList, inodes, files, nextAddress, inodes[id := inode], files[f := files[f].(denyWrite := deny)]);
      inodes := inodes[id := inode];
      files := files[f := files[f].(denyWrite := deny)];
    }

    /** `file_close` */
    method FileClose(f: Fid)
      requires Valid() && f in files
      modifies this`freeMap, this`inodes, this`openList, this`owned, this`extra, this`files
      ensures Valid() && files == old(files) - {f} && extra == old(extra) && Root() == old(Root())
      ensures Departed(old(freeMap), old(inodes), old(owned), Root(), freeMap, inodes, owned, old(files)[f].inode)
    {
      hide Counted, Allocated, OnDisk, Live, Listing, D.Slots, Closed, Departed;
      FileAt(inodes, files, extra, f);
      SetDeny(f, false);
      ghost var mid := inodes;
      var id := files[f].inode;
      CountedTakeBack(inodes, files, extra, f);
      ListSame(openList, inodes, files, nextAddress, inodes, files - {f});
      files := files - {f};
      extra := extra + multiset{id};
      InodeClose(id);
      ClosedDeparts(old(freeMap), old(inodes), mid, old(owned), Root(), freeMap, inodes, owned, id);
    }

    /** `file_reopen` */
    method FileReopen(f: Fid, callocOk: bool) returns (r: Option<Fid>)
      requires Valid() && f in files
      modifies this`freeMap, this`inodes, this`openList, this`owned, this`extra, this`files, this`nextAddress
      ensures Valid() && extra == old(extra) && Root() == old(Root()) && owned == old(owned) && freeMap == old(freeMap)
      ensures r.Some? <==> callocOk
      ensures r.Some? ==> r.value !in old(files) && files == old(files)[r.value := File(old(files)[f].inode, 0, false)]
      ensures r.None? ==> files == old(files) && inodes == old(inodes)
      ensures Retains(old(inodes), inodes, Root())
    {
      hide Counted, Allocated, OnDisk, Live, Listing, D.Slots;
      var id := files[f].inode;
      FileAt(inodes, files, extra, f);
      IdAt(inodes, files, extra, id);
      InodeReopen(id);
      r := FileOpen(id, callocOk);
      assert r.None? ==> inodes == old(inodes);
    }

    /** The bytes of live file `s`. */
    ghost function Bytes(s: nat): seq<byte>
      requires OnDisk(dev.sectors, owned) && s in owned
      reads this, dev
    {
      assert DiskOk(dev.sectors, owned, s);
      Contents(dev.sectors, owned[s])
    }

    /** The inode sector of the file behind handle `f`. */
    function SectorOf(f: Fid): nat
      requires f in files && files[f].inode in inodes
      reads this
    {
      inodes[files[f].inode].sector
    }

    /** `file_read`: a slice of the file's bytes, and the position moves past it. */
    method FileRead(f: Fid, buffer: array<byte>, size: int, mallocOk: bool) returns (n: nat)
      requires Valid() && f in files && size <= buffer.Length
      modifies this`files, buffer
      ensures Valid() && files == old(files)[f := old(files)[f].(pos := old(files)[f].pos + n)]
      ensures files[f].inode in inodes && SectorOf(f) in owned
      ensures n == Transferred(owned[SectorOf(f)], size, old(files)[f].pos, mallocOk) <= buffer.Length
      ensures var length, pos := |Bytes(SectorOf(f))|, old(files)[f].pos;
              && (0 < size && pos < length && mallocOk ==> n == if size < length - pos then size else length - pos)
              && (0 < size && pos < length && !mallocOk ==>
                    n == if pos % 512 != 0 then 0 else (if size < length - pos then size else length - pos) / 512 * 512)
              && (size <= 0 || length <= pos ==> n == 0)
      ensures n > 0 ==> old(files)[f].pos + n <= |Bytes(SectorOf(f))|
      ensures n > 0 ==> buffer[..n] == Bytes(SectorOf(f))[old(files)[f].pos..old(files)[f].pos + n]
    {
      hide Counted, Allocated, OnDisk, Live, Listing, D.Slots;
      FileAt(inodes, files, extra, f);
      LiveAt(owned, Root(), inodes, files[f].inode);
      DiskAt(dev.sectors, owned, SectorOf(f));
      n := ReadAt(dev, inodes[files[f].inode].data, buffer, size, files[f].pos, mallocOk);
      var file := files[f].(pos := files[f].pos + n);
      CountedMove(inodes, files, extra, f, file);
      ListSame(openList, inodes, files, nextAddress, inodes, files[f := file]);
      files := files[f := file];
    }

    /**
     `inode_write_at` on an open file: a slice update of its bytes, none while writes are denied,
     and nothing anywhere else.
     */
    method InodeWrite(id: Id, buffer: seq<byte>, size: int, offset: nat, mallocOk: bool) returns (n: nat)
      requires Valid() && id in inodes && inodes[id].sector != ROOT_DIR_SECTOR && size <= |buffer|
      modifies dev
      ensures Valid() && Root() == old(Root()) && inodes[id].sector in owned
      ensures n == (if inodes[id].denyWriteCnt > 0 then 0
                else Transferred(owned[inodes[id].sector], size, offset, mallocOk)) <= |buffer|
      ensures var length := |old(Bytes(inodes[id].sector))|;
              && (inodes[id].denyWriteCnt > 0 || size <= 0 || length <= offset ==> n == 0)
              && (inodes[id].denyWriteCnt == 0 && 0 < size && offset < length && mallocOk ==>
                    n == if size < length - offset then size else length - offset)
              && (inodes[id].denyWriteCnt == 0 && 0 < size && offset < length && !mallocOk ==>
                    n == if offset % 512 != 0 then 0
                         else (if size < length - offset then size else length - offset) / 512 * 512)
      ensures n == 0 ==> dev.sectors == old(dev.sectors)
      ensures n > 0 ==> offset + n <= |old(Bytes(inodes[id].sector))|
      ensures n > 0 ==> Bytes(inodes[id].sector) == Spliced(old(Bytes(inodes[id].sector)), offset, buffer[..n])
      ensures OthersSame(old(dev.sectors), dev.sectors, owned, inodes[id].sector)
    {
      hide Counted, Allocated, OnDisk, Live, Listing, D.Slots;
      var inode := inodes[id];
      LiveAt(owned, Root(), inodes, id);
      DiskAt(dev.sectors, owned, inode.sector);
      n := WriteAt(dev, inode.data, inode.denyWriteCnt, buffer, size, offset, mallocOk);
      if n > 0 {
        WriteOutcome(old(dev.sectors), dev.sectors, freeMap, owned, inode.sector, offset, buffer[..n]);
        RootKept(old(dev.sectors), dev.sectors, owned);
      } else {
        KeepSame(dev.sectors, owned, inode.sector);
      }
    }

    /** `file_write` */
    method FileWrite(f: Fid, buffer: seq<byte>, size: int, mallocOk: bool) returns (n: nat)
      requires Valid() && f in files && size <= |buffer|
      modifies this`files, dev
      ensures Valid() && Root() == old(Root()) && files == old(files)[f := old(files)[f].(pos := old(files)[f].pos + n)]
      ensures files[f].inode in inodes && SectorOf(f) in owned && old(files)[f].inode in inodes
      ensures n == (if inodes[files[f].inode].denyWriteCnt > 0 then 0
                    else Transferred(owned[SectorOf(f)], size, old(files)[f].pos, mallocOk)) <= |buffer|
      ensures var length, pos, denied := |old(Bytes(SectorOf(f)))|, old(files)[f].pos,
                inodes[files[f].inode].denyWriteCnt > 0;
              && (denied || size <= 0 || length <= pos ==> n == 0)
              && (!denied && 0 < size && pos < length && mallocOk ==>
                    n == if size < length - pos then size else length - pos)
              && (!denied && 0 < size && pos < length && !mallocOk ==>
                    n == if pos % 512 != 0 then 0 else (if size < length - pos then size else length - pos) / 512 * 512)
      ensures n > 0 ==> old(files)[f].pos + n <= |old(Bytes(SectorOf(f)))|
      ensures n > 0 ==> Bytes(SectorOf(f)) == Spliced(old(Bytes(SectorOf(f))), old(files)[f].pos, buffer[..n])
      ensures n == 0 ==> Bytes(SectorOf(f)) == old(Bytes(SectorOf(f)))
      ensures OthersSame(old(dev.sectors), dev.sectors, owned, SectorOf(f))
    {
      hide Counted, Allocated, OnDisk, Live, Listing, D.Slots;
      FileAt(inodes, files, extra, f);
      LiveAt(owned, Root(), inodes, files[f].inode);
      n := InodeWrite(files[f].inode, buffer, size, files[f].pos, mallocOk);
      var file := files[f].(pos := files[f].pos + n);
      CountedMove(inodes, files, extra, f, file);
      ListSame(openList, inodes, files, nextAddress, inodes, files[f := file]);
      files := files[f := file];
    }

    // ---- the root directory --------------------------------------------------------------------

    /** `dir_open_root` */
    method DirOpenRoot(mallocOk: bool, callocOk: bool) returns (r: Option<Id>)
      requires Valid()
      modifies this`freeMap, this`inodes, this`openList, this`owned, this`extra, this`nextAddress
      ensures Valid() && Root() == old(Root()) && owned == old(owned) && freeMap == old(freeMap)
      ensures r.None? ==> inodes == old(inodes) && extra == old(extra)
      ensures r.Some? ==> extra == old(extra) + multiset{r.value} &&
                          Opened(old(inodes), inodes, owned, r.value, ROOT_DIR_SECTOR)
      ensures r.Some? <==> DirReady(old(inodes), mallocOk, callocOk)
    {
      hide Counted, Allocated, OnDisk, Live, Listing, D.Slots;
      OpenCountsPositive(inodes, files, extra);
      r := InodeOpen(ROOT_DIR_SECTOR, mallocOk);
      if r.Some? && !callocOk {
        OpenThenClose(old(inodes), inodes, owned, r.value, ROOT_DIR_SECTOR);
        InodeClose(r.value);
        return None;
      }
    }

    /**
     The first half of `filesys_create`: a sector for the inode, then `inode_create`. If the
     second allocation fails, the first is given back and the free map is as before.
     */
    method NewFile(size: nat, firstMapOk: bool, callocOk: bool, secondMapOk: bool) returns (ok: bool, s: nat, e: Extent)
      requires Valid() && size < 0x8000_0000
      modifies this`freeMap, dev
      ensures Valid() && Root() == old(Root())
      ensures !ok ==> freeMap == old(freeMap) && dev.sectors == old(dev.sectors)
      ensures ok ==> e.length == size && NewRegion(old(freeMap), s, e) && freeMap == Acquire(old(freeMap), s, e)
      ensures ok ==> OnlyFree(old(dev.sectors), dev.sectors, old(freeMap)) && FreshOnDisk(dev.sectors, s, e)
      ensures ok <==> firstMapOk && callocOk && secondMapOk && HasRoom(old(freeMap), size)
      ensures ok ==> FirstFit(old(freeMap), 0, 1, false) == Some(s) &&
                     FirstFit(SetRun(old(freeMap), s, 1, true), 0, SectorsFor(size), false) == Some(e.start)
    {
      hide Counted, Allocated, OnDisk, Live, Listing, D.Slots;
      ghost var fm0, sectors0 := freeMap, dev.sectors;
      var first := FreeMapAllocate(1, firstMapOk);
      if first.None? {
        return false, 0, Extent(0, 0);
      }
      s := first.value;
      ghost var fm1 := freeMap;
      var second: Option<nat> := None;
      if callocOk {
        second := FreeMapAllocate(SectorsFor(size), secondMapOk);
      }
      if second.None? {
        SetRunUndo(fm0, s, 1, false);
        assert RunAt(freeMap, s, 1, true);
        freeMap := SetRun(freeMap, s, 1, false);
        return false, 0, Extent(0, 0);
      }
      e := Extent(second.value, size);
      RegionIsNew(fm0, s, e);
      WriteInode(dev, s, e);
      WriteIsFree(sectors0, dev.sectors, fm0, s, e);
      FreeWrites(sectors0, dev.sectors, fm0, owned);
      FreeWritesKeep(sectors0, dev.sectors, fm0, owned, ROOT_DIR_SECTOR);
      RootKept(sectors0, dev.sectors, owned);
      ok := true;
    }

    /**
     `dir_add` for a new file in the open root directory, and the cleanup of `filesys_create`
     when it fails: only the inode's sector is given back. A scan cut short by lack of memory
     can let the new entry overwrite another; that one's file then lives only while it is open.
     */
    method AddEntry(dir: Id, name: Name, s: nat, e: Extent, lookupBudget: nat, scanBudget: nat, writeOk: bool,
                    ghost fm0: seq<bool>)
      returns (success: bool)
      requires Valid() && dir in inodes && inodes[dir].sector == ROOT_DIR_SECTOR && 0 !in name
      requires NewRegion(fm0, s, e) && freeMap == Acquire(fm0, s, e) && Allocated(fm0, owned) &&
               FreshOnDisk(dev.sectors, s, e)
      modifies this`freeMap, this`owned, dev
      ensures Valid() && |Root()| == |old(Root())|
      ensures success <==> D.Added(old(Root()), name, s, lookupBudget, scanBudget, writeOk).1
      ensures success ==> Root() == D.Added(old(Root()), name, s, lookupBudget, scanBudget, true).0 &&
                          freeMap == old(freeMap)
      ensures success ==> s !in old(owned) && owned == Narrow(old(owned), Rooted(Root()) + OpenSectors(inodes))[s := e]
      ensures success ==> s in owned && Bytes(s) == seq(e.length, _ => 0)
      ensures !success ==> owned == old(owned) && Root() == old(Root()) && freeMap == Cleanup(fm0, s, e)
      ensures OthersSame(old(dev.sectors), dev.sectors, old(owned), ROOT_DIR_SECTOR)
    {
      hide Counted, Allocated, OnDisk, Live, Listing, D.Slots;
      LiveAt(owned, Root(), inodes, dir);
      RootUndenied(inodes, files, extra, dir);
      ghost var sectors0, slots0 := dev.sectors, Root();
      success := D.Add(dev, inodes[dir].data, inodes[dir].denyWriteCnt, name, s, lookupBudget, scanBudget, writeOk);
      OnDiskFrame(sectors0, dev.sectors, freeMap, owned, ROOT_DIR_SECTOR);
      OnlyRootChanges(sectors0, dev.sectors, freeMap, owned);
      if success {
        AddOutcome(sectors0, dev.sectors, fm0, owned, slots0, inodes, name, s, e, lookupBudget, scanBudget);
        owned := Narrow(owned, Rooted(Root()) + OpenSectors(inodes))[s := e];
      } else {
        FreshPair(fm0, owned, s, e, FREE_MAP_SECTOR);
        assert RunAt(freeMap, s, 1, true);
        freeMap := SetRun(freeMap, s, 1, false);
        AllocatedMono(fm0, owned, freeMap);
      }
    }

    /** `dir_close` of a directory opened by this call. */
    method DirClose(dir: Id, ghost before: map<Id, Inode>)
      requires Valid() && dir in extra && Opened(before, inodes, owned, dir, ROOT_DIR_SECTOR)
      requires forall i :: i in before ==> before[i].openCnt > 0
      modifies this`freeMap, this`inodes, this`openList, this`owned, this`extra
      ensures Valid() && extra == old(extra) - multiset{dir} && Root() == old(Root())
      ensures inodes == before && owned == old(owned) && freeMap == old(freeMap)
    {
      hide Counted, Allocated, OnDisk, Live, Listing, D.Slots;
      OpenThenClose(before, inodes, owned, dir, ROOT_DIR_SECTOR);
      InodeClose(dir);
    }

    /** `filesys_create` once the root directory is open. */
    method CreateIn(dir: Id, name: Name, size: nat, m: CreateMemory)
      returns (success: bool, ghost s: nat, ghost e: Extent)
      requires Valid() && dir in inodes && inodes[dir].sector == ROOT_DIR_SECTOR && 0 !in name && size < 0x8000_0000
      modifies this`freeMap, this`owned, dev
      ensures Valid() && |Root()| == |old(Root())|
      ensures success <==> Allocates(old(freeMap), size, m) && AddsEntry(old(Root()), name, m)
      ensures success ==> Created(old(freeMap), old(owned), old(Root()), inodes, freeMap, owned, Root(), name, size, m,
                s, e)
      ensures success ==> s in owned && Bytes(s) == seq(size, _ => 0)
      ensures !success ==> owned == old(owned) && Root() == old(Root())
      ensures !success ==> Uncreated(old(freeMap), freeMap, size, Allocates(old(freeMap), size, m), s, e)
      ensures OthersSame(old(dev.sectors), dev.sectors, old(owned), ROOT_DIR_SECTOR)
    {
      hide Counted, Allocated, OnDisk, Live, Listing, D.Slots, Named, OthersSame, OnlyFree, FreshOnDisk, HasRoom;
      ghost var fm0, sectors0 := freeMap, dev.sectors;
      success, s, e := false, 0, Extent(0, 0);
      var ok, sector, data := NewFile(size, m.firstMapOk, m.inodeCalloc, m.secondMapOk);
      if ok {
        ghost var sectors1 := dev.sectors;
        FreeWritesKeepAll(sectors0, sectors1, fm0, owned);
        success := AddEntry(dir, name, sector, data, m.lookupBudget, m.scanBudget, m.writeMalloc, fm0);
        KeepTrans(sectors0, sectors1, dev.sectors, old(owned));
        CreateCanLeak(fm0, sector, data);
        s, e := sector, data;
      } else {
        KeepSame(sectors0, owned, ROOT_DIR_SECTOR);
      }
    }

    /**
     `filesys_create`, for every pattern of failures. On success `s` is the new file's inode
     sector and `e` its data. When it fails no mark is lost; the free map is as before exactly
     if the file was to be empty or its sectors could not be had.
     */
    method Create(name: Name, size: nat, m: CreateMemory) returns (success: bool, ghost s: nat, ghost e: Extent)
      requires Valid() && 0 !in name && size < 0x8000_0000
      modifies this, dev
      ensures Valid() && extra == old(extra) && inodes == old(inodes) && files == old(files) &&
              |Root()| == |old(Root())|
      ensures success <==> Reaches(old(inodes), old(freeMap), size, m) && AddsEntry(old(Root()), name, m)
      ensures success ==> Created(old(freeMap), old(owned), old(Root()), inodes, freeMap, owned, Root(), name, size, m,
                s, e)
      ensures success && D.UniqueNames(old(Root())) ==>
                (D.GainsExactly(old(Root()), Root(), name, s) <==>
                    D.ScansSuffice(old(Root()), name, m.lookupBudget, m.scanBudget))
      ensures success ==> s in owned && Bytes(s) == seq(size, _ => 0)
      ensures !success ==> owned == old(owned) && Root() == old(Root())
      ensures !success ==> Uncreated(old(freeMap), freeMap, size, Reaches(old(inodes), old(freeMap), size, m), s, e)
      ensures OthersSame(old(dev.sectors), dev.sectors, old(owned), ROOT_DIR_SECTOR)
    {
      hide Counted, Allocated, OnDisk, Live, Listing, D.Slots, Named, OthersSame, Created, AddsEntry, Allocates;
      hide D.UniqueNames, D.GainsExactly, D.ScansSuffice;
      success, s, e := false, 0, Extent(0, 0);
      OpenCountsPositive(inodes, files, extra);
      var dir := DirOpenRoot(m.dirMalloc, m.dirCalloc);
      if dir.Some? {
        ghost var inodes1 := inodes;
        success, s, e := CreateIn(dir.value, name, size, m);
        if success {
          OpenedStill(old(freeMap), old(owned), old(Root()), old(inodes), inodes1, freeMap, owned, Root(), name, size,
              m, s, e, dir.value);
        }
        DirClose(dir.value, old(inodes));
        if success {
          CreatedAgain(old(freeMap), old(owned), old(Root()), inodes1, old(inodes), freeMap, owned, Root(), name, size,
              m, s, e, dir.value);
          CreateRefinesIff(old(freeMap), old(owned), old(Root()), old(inodes), freeMap, owned, Root(), name, size, m,
              s, e);
        }
      } else {
        KeepSame(dev.sectors, owned, ROOT_DIR_SECTOR);
      }
    }

    /**
     A create that gets its sectors but no entry (the name is taken, empty or too long, the
     directory is full, or there is no memory for the write) loses the data sectors it took:
     they were free, they stay marked, and no live file has them.
     */
    method CreateLeaks(name: Name, size: nat, m: CreateMemory) returns (ghost e: Extent)
      requires Valid() && 0 !in name && 0 < size < 0x8000_0000
      requires Reaches(inodes, freeMap, size, m) && !AddsEntry(Root(), name, m)
      modifies this, dev
      ensures Valid() && extra == old(extra) && inodes == old(inodes) && files == old(files)
      ensures owned == old(owned) && Root() == old(Root()) && freeMap != old(freeMap)
      ensures e.length == size && D.InExtent(e.start, e) && e.start + SectorsFor(size) <= |freeMap| == |old(freeMap)|
      ensures forall x: nat :: D.InExtent(x, e) ==> !old(freeMap)[x] && freeMap[x] && Unclaimed(owned, x)
    {
      hide Counted, Allocated, OnDisk, Live, Listing, D.Slots, Named, OthersSame, Created, AddsEntry, Reaches;
      var success, _, data := Create(name, size, m);
      e := data;
      AllocatedMeans(old(freeMap), owned);
    }

    /**
     `dir_lookup` in the open root directory: a reference to the inode of the file listed under
     `name`, in slot `k`.
     */
    method DirFind(dir: Id, name: Name, buf: array<byte>, scanBudget: nat, inodeMalloc: bool)
      returns (k: nat, r: Option<Id>)
      requires Valid() && dir in inodes && inodes[dir].sector == ROOT_DIR_SECTOR
      requires buf.Length == D.SLOT
      modifies this`inodes, this`openList, this`nextAddress, this`extra, buf
      ensures Valid()
      ensures r.Some? <==> Obtains(Root(), old(inodes), name, scanBudget, inodeMalloc)
      ensures r.None? ==> inodes == old(inodes) && extra == old(extra)
      ensures r.Some? ==> D.Find(Root(), name, scanBudget) == Some(k) && D.Decode(buf[..]) == Root()[k]
      ensures r.Some? ==> extra == old(extra) + multiset{r.value} &&
                          Opened(old(inodes), inodes, owned, r.value, Root()[k].sector)
    {
      hide Counted, Allocated, OnDisk, Live, Listing, D.Slots;
      LiveAt(owned, Root(), inodes, dir);
      k := 0;
      var found := D.Lookup(dev, inodes[dir].data, name, buf, scanBudget);
      if found.None? {
        return 0, None;
      }
      k := found.value;
      var sector := Le32(buf[..4]);
      assert buf[..][..4] == buf[..4];
      assert sector == Root()[k].sector && sector in Listed(Root());
      r := InodeOpen(sector, inodeMalloc);
    }

    /** The directory part of `filesys_open`: open the root directory, look the name up, close the directory. */
    method LookupRoot(name: Name, m: NameMemory) returns (r: Option<Id>)
      requires Valid()
      modifies this`freeMap, this`inodes, this`openList, this`owned, this`extra, this`nextAddress
      ensures Valid() && Root() == old(Root()) && owned == old(owned) && freeMap == old(freeMap)
      ensures r.Some? <==> DirReady(old(inodes), m.dirMalloc, m.dirCalloc) &&
                           Obtains(Root(), old(inodes), name, m.scanBudget, m.inodeMalloc)
      ensures r.None? ==> extra == old(extra) && inodes == old(inodes)
      ensures r.Some? ==> extra == old(extra) + multiset{r.value} && D.Find(Root(), name, m.scanBudget).Some?
      ensures r.Some? ==> LookedUp(old(inodes), inodes, Root(), r.value,
                Root()[D.Find(Root(), name, m.scanBudget).value].sector)
    {
      hide Counted, Allocated, OnDisk, Live, Listing, D.Slots, Obtains, LookedUp, Named, D.Find;
      OpenCountsPositive(inodes, files, extra);
      var dir := DirOpenRoot(m.dirMalloc, m.dirCalloc);
      if dir.None? {
        return None;
      }
      ObtainsSame(Root(), old(inodes), inodes, owned, dir.value, name, m.scanBudget, m.inodeMalloc);
      r := LookupThenClose(dir.value, name, m, old(inodes));
    }

    method LookupThenClose(dir: Id, name: Name, m: NameMemory, ghost before: map<Id, Inode>) returns (r: Option<Id>)
      requires Valid() && dir in extra && Opened(before, inodes, owned, dir, ROOT_DIR_SECTOR)
      requires forall i :: i in before ==> before[i].openCnt > 0
      modifies this`freeMap, this`inodes, this`openList, this`owned, this`extra, this`nextAddress
      ensures Valid() && Root() == old(Root()) && owned == old(owned) && freeMap == old(freeMap)
      ensures r.Some? <==> Obtains(Root(), old(inodes), name, m.scanBudget, m.inodeMalloc)
      ensures r.None? ==> extra == old(extra) - multiset{dir} && inodes == before
      ensures r.Some? ==> extra == old(extra) - multiset{dir} + multiset{r.value} &&
                          D.Find(Root(), name, m.scanBudget).Some?
      ensures r.Some? ==> LookedUp(before, inodes, Root(), r.value,
                Root()[D.Find(Root(), name, m.scanBudget).value].sector)
    {
      hide Counted, Allocated, OnDisk, Live, Listing, D.Slots, Obtains, Opened, LookedUp, Named, D.Find, OpenSectors,
           D.Decode;
      OpenedAt(before, inodes, owned, dir, ROOT_DIR_SECTOR);
      var buf := new byte[D.SLOT];
      var k;
      k, r := DirFind(dir, name, buf, m.scanBudget, m.inodeMalloc);
      if r.None? {
        DirClose(dir, before);
        return;
      }
      ghost var inodes2 := inodes;
      FoundSector(Root(), name, m.scanBudget);
      OpenedAt(old(inodes), inodes2, owned, r.value, Root()[k].sector);
      CloseRoot(dir);
      LookupDone(before, old(inodes), inodes2, inodes, owned, Root(), dir, r.value, Root()[k].sector);
    }

    /** Closing the root directory's inode, whoever else has it open. */
    method CloseRoot(dir: Id)
      requires Valid() && dir in extra && dir in inodes && inodes[dir].sector == ROOT_DIR_SECTOR
      modifies this`freeMap, this`inodes, this`openList, this`owned, this`extra
      ensures Valid() && extra == old(extra) - multiset{dir} && Root() == old(Root()) && owned == old(owned) &&
              freeMap == old(freeMap)
      ensures inodes == old(inodes) - {dir} || (old(inodes)[dir].openCnt > 1 &&
                inodes == old(inodes)[dir := old(inodes)[dir].(openCnt := old(inodes)[dir].openCnt - 1)])
    {
      hide Counted, Allocated, OnDisk, Live, Listing, D.Slots;
      LiveAt(owned, Root(), inodes, dir);
      InodeClose(dir);
    }

    /**
     `filesys_open`: a new handle on the file of the first entry with the name that the scan
     sees. It succeeds exactly when there is one and memory is had for what is not open yet.
     */
    method Open(name: Name, m: NameMemory) returns (r: Option<Fid>)
      requires Valid()
      modifies this
      ensures Valid() && extra == old(extra) && Root() == old(Root()) && owned == old(owned) && freeMap == old(freeMap)
      ensures r.Some? <==> Succeeds(Root(), old(inodes), name, m)
      ensures r.None? ==> files == old(files)
      ensures r.Some? ==> r.value !in old(files) && r.value in files &&
                          files == old(files)[r.value := File(files[r.value].inode, 0, false)]
      ensures r.Some? ==> files[r.value].inode in inodes && D.Find(Root(), name, m.scanBudget).Some?
      ensures r.Some? ==> SectorOf(r.value) == Root()[D.Find(Root(), name, m.scanBudget).value].sector
      ensures r.Some? && files[r.value].inode in old(inodes) ==>
                old(inodes)[files[r.value].inode].sector == SectorOf(r.value)
      ensures Retains(old(inodes), inodes, Root())
    {
      hide Counted, Allocated, OnDisk, Live, Listing, D.Slots, D.Find, Obtains;
      var id := LookupRoot(name, m);
      if id.None? {
        return None;
      }
      r := FileOpen(id.value, m.last);
    }

    /** The directory write and `inode_remove` of `dir_remove`. */
    method EraseEntry(dir: Id, id: Id, buf: array<byte>, k: nat, writeOk: bool) returns (ok: bool)
      requires Valid() && dir in inodes && inodes[dir].sector == ROOT_DIR_SECTOR && id in inodes
      requires buf.Length == D.SLOT && k < |Root()| && D.Decode(buf[..]) == Root()[k] && Root()[k].inUse
      requires inodes[id].sector == Root()[k].sector
      modifies this`inodes, dev, buf
      ensures Valid() && Root() == D.Erased(old(Root()), k, ok)
      ensures inodes == if ok then old(inodes)[id := old(inodes)[id].(removed := true)] else old(inodes)
      ensures ok <==> writeOk
      ensures OthersSame(old(dev.sectors), dev.sectors, owned, ROOT_DIR_SECTOR)
    {
      hide Counted, Allocated, OnDisk, Live, Listing, D.Slots;
      LiveAt(owned, Root(), inodes, dir);
      RootUndenied(inodes, files, extra, dir);
      ghost var sectors0, slots0 := dev.sectors, Root();
      ok := D.Erase(dev, inodes[dir].data, inodes[dir].denyWriteCnt, buf, k, writeOk);
      OnDiskFrame(sectors0, dev.sectors, freeMap, owned, ROOT_DIR_SECTOR);
      OnlyRootChanges(sectors0, dev.sectors, freeMap, owned);
      if ok {
        ListedErase(slots0, k);
        IdAt(inodes, files, extra, id);
        LiveErase(owned, slots0, inodes, k, id);
        CountedMark(inodes, files, extra, id);
        ListSame(openList, inodes, files, nextAddress, inodes[id := inodes[id].(removed := true)], files);
        inodes := inodes[id := inodes[id].(removed := true)];
      }
    }

    /** `dir_remove` from the point where the entry's inode is open: erase, mark, close. */
    method EraseAndClose(dir: Id, id: Id, buf: array<byte>, k: nat, writeOk: bool, ghost before: map<Id, Inode>)
      returns (success: bool)
      requires Valid() && dir in inodes && inodes[dir].sector == ROOT_DIR_SECTOR && id in extra
      requires buf.Length == D.SLOT && k < |Root()| && D.Decode(buf[..]) == Root()[k] && Root()[k].inUse
      requires Opened(before, inodes, owned, id, Root()[k].sector) && forall i :: i in before ==> before[i].openCnt > 0
      modifies this`freeMap, this`inodes, this`openList, this`owned, this`extra, dev, buf
      ensures Valid() && extra == old(extra) - multiset{id} && Root() == D.Erased(old(Root()), k, success)
      ensures success <==> writeOk
      ensures success ==> RemovedFrom(before, old(owned), old(freeMap), inodes, owned, freeMap, old(Root())[k].sector)
      ensures !success ==> owned == old(owned) && freeMap == old(freeMap) && inodes == before
      ensures OthersSame(old(dev.sectors), dev.sectors, old(owned), ROOT_DIR_SECTOR)
    {
      hide Counted, Allocated, OnDisk, Live, Listing, D.Slots;
      ghost var s := Root()[k].sector;
      LiveAt(owned, Root(), inodes, id);
      EntryListed(Root(), k);
      success := EraseEntry(dir, id, buf, k, writeOk);
      ghost var inodes2 := inodes;
      InodeClose(id);
      if success {
        OpenMarkClose(before, old(inodes), old(owned), old(freeMap), Root(), inodes2, inodes, owned, freeMap, id, s);
      } else {
        OpenThenClose(before, old(inodes), old(owned), id, s);
      }
    }

    /** `dir_remove` in the open root directory: it erases the first entry with the name that the scan sees. */
    method DirRemove(dir: Id, name: Name, scanBudget: nat, inodeMalloc: bool, writeOk: bool)
      returns (success: bool, ghost k: nat)
      requires Valid() && dir in inodes && inodes[dir].sector == ROOT_DIR_SECTOR
      modifies this`freeMap, this`inodes, this`openList, this`owned, this`extra, this`nextAddress, dev
      ensures Valid() && extra == old(extra)
      ensures success <==> Obtains(old(Root()), old(inodes), name, scanBudget, inodeMalloc) && writeOk
      ensures success ==> D.Find(old(Root()), name, scanBudget) == Some(k) && Root() == D.Erased(old(Root()), k, true)
      ensures success ==> RemovedFrom(old(inodes), old(owned), old(freeMap), inodes, owned, freeMap,
                old(Root())[k].sector)
      ensures !success ==> Root() == old(Root()) && owned == old(owned) && freeMap == old(freeMap) &&
                           inodes == old(inodes)
      ensures OthersSame(old(dev.sectors), dev.sectors, old(owned), ROOT_DIR_SECTOR)
    {
      hide Counted, Allocated, OnDisk, Live, Listing, D.Slots, Kept, Obtains;
      success, k := false, 0;
      OpenCountsPositive(inodes, files, extra);
      var buf := new byte[D.SLOT];
      var found, id := DirFind(dir, name, buf, scanBudget, inodeMalloc);
      if id.None? {
        KeepSame(dev.sectors, owned, ROOT_DIR_SECTOR);
        return;
      }
      k := found;
      success := EraseAndClose(dir, id.value, buf, found, writeOk, old(inodes));
    }

    /**
     `filesys_remove`: the first entry with the name that the scan sees, and no other,
     disappears. A file that somebody has open keeps its sectors; any other loses them at once.
     It succeeds exactly when there is such an entry and memory is had for what is not open yet.
     */
    method Remove(name: Name, m: NameMemory) returns (success: bool, ghost k: nat)
      requires Valid()
      modifies this, dev
      ensures Valid() && extra == old(extra) && files == old(files)
      ensures success <==> Succeeds(old(Root()), old(inodes), name, m)
      ensures success ==> D.Find(old(Root()), name, m.scanBudget) == Some(k) && Root() == D.Erased(old(Root()), k, true)
      ensures success && D.UniqueNames(old(Root())) ==> LosesExactly(old(Root()), Root(), name, old(Root())[k].sector)
      ensures success ==> RemovedFrom(old(inodes), old(owned), old(freeMap), inodes, owned, freeMap,
                old(Root())[k].sector)
      ensures !success ==> Root() == old(Root()) && owned == old(owned) && freeMap == old(freeMap) &&
                           inodes == old(inodes)
      ensures OthersSame(old(dev.sectors), dev.sectors, old(owned), ROOT_DIR_SECTOR)
    {
      hide Counted, Allocated, OnDisk, Live, Listing, D.Slots, Obtains, OthersSame, Kept, D.Find, LosesExactly;
      success, k := false, 0;
      OpenCountsPositive(inodes, files, extra);
      var dir := DirOpenRoot(m.dirMalloc, m.dirCalloc);
      if dir.None? {
        KeepSame(dev.sectors, owned, ROOT_DIR_SECTOR);
        return;
      }
      ghost var inodes1 := inodes;
      ObtainsSame(Root(), old(inodes), inodes1, owned, dir.value, name, m.scanBudget, m.inodeMalloc);
      success, k := DirRemove(dir.value, name, m.scanBudget, m.inodeMalloc, m.last);
      if !success {
        DirClose(dir.value, old(inodes));
        return;
      }
      Disappears(old(Root()), name, m.scanBudget, k);
      ghost var inodes2, owned2, fm2 := inodes, owned, freeMap;
      InodeClose(dir.value);
      RemoveUnderRoot(old(inodes), old(owned), old(freeMap), inodes1, inodes2, owned2, Root(), fm2, inodes, owned,
          freeMap, dir.value, old(Root())[k].sector);
    }

    // ---- runs -----------------------------------------------------------------------------------

    /** No name twice, and a file that is open but not listed was removed. */
    ghost predicate Tidy()
      requires Base()
      reads this, dev
    {
      D.UniqueNames(Root()) && RemovedExact(Root(), inodes)
    }

    /** One system call on the root directory or on a handle that exists. */
    method Step(op: Op)
      requires Valid() && extra == multiset{}
      modifies this, dev
      ensures Valid() && extra == multiset{}
      ensures Links(old(Snapshot()), op, Snapshot())
      ensures old(Tidy()) && Undeceived(old(Root()), op) ==> Tidy()
    {
      hide Counted, Allocated, OnDisk, Live, Listing, D.Slots, D.UniqueNames, RemovedExact, Undeceived, Named, Links;
      if op.CreateOp? || op.OpenOp? || op.RemoveOp? {
        NameStep(op);
      } else {
        HandleStep(op);
      }
    }

    method NameStep(op: Op)
      requires Valid() && extra == multiset{} && (op.CreateOp? || op.OpenOp? || op.RemoveOp?)
      modifies this, dev
      ensures Valid() && extra == multiset{}
      ensures Links(old(Snapshot()), op, Snapshot())
      ensures old(Tidy()) && Undeceived(old(Root()), op) ==> Tidy()
    {
      hide Counted, Allocated, OnDisk, Live, Listing, D.Slots, RemovedFrom, Departed, OthersSame, Created, Uncreated,
           Reaches, AddsEntry;
      hide LosesExactly, D.Find, D.UniqueNames, RemovedExact, Succeeds, Retains, D.ScansSuffice, Named, Kept,
           Transferred;
      ghost var inodes0, slots0 := inodes, Root();
      IdAt(inodes, files, extra, 0);
      match op {
        case CreateOp(name, size, m) =>
          var ok, s, e := Create(name, size, m);
          if ok {
            TidyCreate(old(freeMap), old(owned), slots0, inodes, freeMap, owned, Root(), name, size, m, s, e);
          }
        case OpenOp(name, m) =>
          var f := Open(name, m);
          RetainsExact(slots0, inodes0, inodes);
        case RemoveOp(name, m) =>
          var ok, k := Remove(name, m);
          if ok {
            TidyRemove(old(freeMap), old(owned), slots0, inodes0, freeMap, owned, inodes, name, m.scanBudget, k);
          }
      }
    }

    method HandleStep(op: Op)
      requires Valid() && extra == multiset{} && !op.CreateOp? && !op.OpenOp? && !op.RemoveOp?
      modifies this, dev
      ensures Valid() && extra == multiset{}
      ensures Links(old(Snapshot()), op, Snapshot())
      ensures old(Tidy()) && Undeceived(old(Root()), op) ==> Tidy()
    {
      hide Counted, Allocated, OnDisk, Live, Listing, D.Slots, RemovedFrom, Departed, OthersSame, Created, Uncreated,
           Reaches, AddsEntry;
      hide LosesExactly, D.Find, D.UniqueNames, RemovedExact, Succeeds, Retains, D.ScansSuffice, Named, Kept,
           Transferred;
      ghost var inodes0, slots0 := inodes, Root();
      match op {
        case ReopenOp(f, callocOk) =>
          if f in files {
            var g := FileReopen(f, callocOk);
            RetainsExact(slots0, inodes0, inodes);
          }
        case CloseOp(f) =>
          if f in files {
            FileClose(f);
            TidyClose(old(freeMap), old(owned), slots0, inodes0, freeMap, owned, inodes, old(files)[f].inode);
          }
        case DenyOp(f, deny) =>
          if f in files {
            SetDeny(f, deny);
            SameFlags(slots0, inodes0, inodes);
          }
        case WriteOp(f, data, mallocOk) =>
          if f in files {
            var n := FileWrite(f, data, |data|, mallocOk);
          }
        case ReadOp(f, size, mallocOk) =>
          if f in files {
            var buffer := new byte[size];
            var n := FileRead(f, buffer, size, mallocOk);
          }
      }
    }

    ghost function Snapshot(): Snap
      requires Base()
      reads this, dev
    {
      Snap(freeMap, owned, Root(), inodes, files)
    }

    /**
     Every run, with any pattern of failures: each call does to the directory, the handles and
     the free map what `Links` says, and the file system stays consistent. If moreover no create
     was misled by a scan that lack of memory cut short, names stay unique and the removed flags
     exact. `trace` is the state before each call, and in the end.
     */
    method Run(ops: seq<Op>) returns (ghost trace: seq<Snap>)
      requires Valid() && extra == multiset{}
      modifies this, dev
      ensures Valid() && extra == multiset{} && Consistent(freeMap, owned, Root(), inodes, files)
      ensures |trace| == |ops| + 1 && trace[0] == old(Snapshot()) && trace[|ops|] == Snapshot()
      ensures forall i :: 0 <= i < |ops| ==> Links(trace[i], ops[i], trace[i + 1])
      ensures old(Tidy()) && (forall i :: 0 <= i < |ops| ==> Undeceived(trace[i].slots, ops[i])) ==> Tidy()
    {
      hide Counted, Allocated, OnDisk, Live, Listing, D.Slots, Consistent, D.UniqueNames, RemovedExact, Undeceived,
           Named, Links;
      trace := [Snapshot()];
      for i := 0 to |ops|
        invariant Valid() && extra == multiset{} && |trace| == i + 1
        invariant trace[0] == old(Snapshot()) && trace[i] == Snapshot()
        invariant forall k :: 0 <= k < i ==> Links(trace[k], ops[k], trace[k + 1])
        invariant old(Tidy()) && (forall k :: 0 <= k < i ==> Undeceived(trace[k].slots, ops[k])) ==> Tidy()
      {
        Step(ops[i]);
        trace := trace + [Snapshot()];
      }
      InvariantMeans(freeMap, owned, Root(), inodes, files);
    }

    /**
     A file created, opened, removed while open and then closed. The name leads to the new file
     exactly if no earlier slot has it; then every sector it took stays marked until the close,
     which restores the free map. Otherwise another file went, and the new one stays.
     */
    method Lifetime(name: Name, size: nat, m: CreateMemory)
      returns (success: bool, ghost s: nat, ghost e: Extent, ghost fm1: seq<bool>)
      requires Valid() && 0 !in name && size < 0x8000_0000
      modifies this, dev
      ensures Valid() && extra == old(extra) && files == old(files)
      ensures success <==> Reaches(old(inodes), old(freeMap), size, m) && AddsEntry(old(Root()), name, m)
      ensures success ==> NewRegion(old(freeMap), s, e) && e.length == size
      ensures success ==> (freeMap == old(freeMap) <==> LeadsTo(old(Root()), name, m.scanBudget))
      ensures success && LeadsTo(old(Root()), name, m.scanBudget) ==> fm1 == Acquire(old(freeMap), s, e)
    {
      hide Counted, Allocated, OnDisk, Live, Listing, D.Slots, RemovedFrom, Departed, OthersSame, Uncreated, Created,
           LeadsTo;
      hide D.Find, Reaches, AddsEntry, LosesExactly, Retains, Named, NewRegion, D.Matches;
      fm1 := freeMap;
      var slots := RootSlots();
      success, s, e := Create(name, size, m);
      if !success {
        return;
      }
      ghost var slots1 := Root();
      CreatedFirst(old(freeMap), old(owned), slots, inodes, freeMap, owned, slots1, name, size, m, s, e);
      var f := OpenNew(name, |slots|, old(inodes), old(files), s, e);
      ghost var id, inodes1, owned1, k := files[f].inode, inodes, owned, 0;
      success, k := Remove(name, NameMemory(true, true, |slots|, true, true));
      fm1 := freeMap;
      ghost var inodes2, owned2, slots2 := inodes, owned, Root();
      FileClose(f);
      assert files == old(files);
      if slots1[k].sector == s {
        LastClose(old(freeMap), s, e, inodes1, owned1, slots2, inodes2, owned2, fm1, inodes, owned, freeMap, id);
      } else {
        StillListed(freeMap, owned, slots1, inodes, slots, name, m, s, k);
      }
    }

    /** Opens what the name leads to; if that is a file created since, its inode has this handle as its only user. */
    method OpenNew(name: Name, budget: nat, ghost inodes0: map<Id, Inode>, ghost files0: map<Fid, File>, ghost s: nat,
                   ghost e: Extent)
      returns (f: Fid)
      requires Valid() && budget == |Root()| && D.Find(Root(), name, budget).Some? && inodes == inodes0 &&
               files == files0
      requires s in owned && owned[s] == e && s !in OpenSectors(inodes0)
      modifies this
      ensures Valid() && extra == old(extra) && Root() == old(Root()) && owned == old(owned) && freeMap == old(freeMap)
      ensures f !in files0 && f in files && files == files0[f := File(files[f].inode, 0, false)] &&
              files[f].inode in inodes
      ensures SectorOf(f) == Root()[D.Find(Root(), name, budget).value].sector
      ensures SectorOf(f) == s ==> OnlyHandle(inodes, files[f].inode, s, e)
    {
      hide Counted, Allocated, OnDisk, Live, Listing, D.Slots, D.Find, Retains, Named, OpenSectors;
      var m := NameMemory(true, true, budget, true, true);
      SucceedsAll(Root(), inodes, name, m);
      var r := Open(name, m);
      f := r.value;
      ghost var id := files[f].inode;
      IdAt(inodes, files, extra, id);
      LiveAt(owned, Root(), inodes, id);
      if SectorOf(f) == s {
        NotOpen(inodes0, id, s);
        SoleUser(inodes0, files0, inodes, files, extra, f, id);
      }
    }

    /** The root directory's slots, read from the device. */
    method RootSlots() returns (slots: seq<D.Slot>)
      requires Valid()
      ensures slots == Root()
    {
      hide Counted, Allocated, OnDisk, Live, Listing, D.Slots;
      DiskAt(dev.sectors, owned, ROOT_DIR_SECTOR);
      slots := D.Slots(dev.sectors, InodeIn(dev.sectors[ROOT_DIR_SECTOR]));
    }
  }

  /** Which allocations of `filesys_open` and `filesys_remove` succeed. */
  datatype NameMemory = NameMemory(dirMalloc: bool, dirCalloc: bool, scanBudget: nat, inodeMalloc: bool, last: bool)

  /** A C string, and a file size. */
  type CName = n: Name | 0 !in n witness []
  type FileSize = x: nat | x < 0x8000_0000

  datatype Op =
    | CreateOp(cname: CName, size: FileSize, create: CreateMemory)
    | OpenOp(name: Name, memory: NameMemory)
    | RemoveOp(name: Name, memory: NameMemory)
    | ReopenOp(f: Fid, callocOk: bool)
    | CloseOp(f: Fid)
    | DenyOp(f: Fid, deny: bool)
    | WriteOp(f: Fid, data: seq<byte>, mallocOk: bool)
    | ReadOp(f: Fid, count: nat, mallocOk: bool)

  /** What the calls of a run see and change. */
  datatype Snap = Snap(freeMap: seq<bool>, owned: Owned, slots: seq<D.Slot>, inodes: map<Id, Inode>,
      files: map<Fid, File>)

  /** What one call of a run does, and when it succeeds; a call on a handle that does not exist is not made. */
  ghost predicate Links(a: Snap, op: Op, b: Snap) {
    match op
    case CreateOp(name, size, m) => LinksCreate(a, name, size, m, b)
    case OpenOp(name, m) =>
      && b.slots == a.slots && b.owned == a.owned && b.freeMap == a.freeMap
      && if Succeeds(a.slots, a.inodes, name, m) then LinksOpen(a, name, m, b) else b.files == a.files
    case RemoveOp(name, m) => if Succeeds(a.slots, a.inodes, name, m) then LinksRemove(a, name, m, b) else b == a
    case ReopenOp(f, callocOk) =>
      if f !in a.files || !callocOk then b == a
      else b.slots == a.slots && b.owned == a.owned && b.freeMap == a.freeMap &&
           exists g: Fid :: g !in a.files && b.files == a.files[g := File(a.files[f].inode, 0, false)]
    case CloseOp(f) =>
      if f !in a.files then b == a
      else b.slots == a.slots && b.files == a.files - {f} &&
           Departed(a.freeMap, a.inodes, a.owned, a.slots, b.freeMap, b.inodes, b.owned, a.files[f].inode)
    case DenyOp(f, deny) =>
      b.slots == a.slots && b.owned == a.owned && b.freeMap == a.freeMap &&
      b.files == if f in a.files then a.files[f := a.files[f].(denyWrite := deny)] else a.files
    case WriteOp(f, data, mallocOk) => if f !in a.files then b == a else LinksMove(a, f, |data|, mallocOk, true, b)
    case ReadOp(f, count, mallocOk) => if f !in a.files then b == a else LinksMove(a, f, count, mallocOk, false, b)
  }

  ghost predicate LinksCreate(a: Snap, name: Name, size: nat, m: CreateMemory, b: Snap) {
    && b.inodes == a.inodes && b.files == a.files
    && if Reaches(a.inodes, a.freeMap, size, m) && AddsEntry(a.slots, name, m) then
         exists s: nat, e: Extent :: Created(a.freeMap, a.owned, a.slots, a.inodes, b.freeMap, b.owned, b.slots, name,
             size, m, s, e)
       else
         b.owned == a.owned && b.slots == a.slots &&
         exists s: nat, e: Extent :: Uncreated(a.freeMap, b.freeMap, size, Reaches(a.inodes, a.freeMap, size, m), s, e)
  }

  ghost predicate LinksOpen(a: Snap, name: Name, m: NameMemory, b: Snap) {
    D.Find(a.slots, name, m.scanBudget).Some? &&
    exists f: Fid, id: Id :: f !in a.files && b.files == a.files[f := File(id, 0, false)] && id in b.inodes &&
                    b.inodes[id].sector == a.slots[D.Find(a.slots, name, m.scanBudget).value].sector
  }

  ghost predicate LinksRemove(a: Snap, name: Name, m: NameMemory, b: Snap) {
    var k := D.Find(a.slots, name, m.scanBudget);
    && k.Some? && b.files == a.files && b.slots == D.Erased(a.slots, k.value, true)
    && RemovedFrom(a.inodes, a.owned, a.freeMap, b.inodes, b.owned, b.freeMap, a.slots[k.value].sector)
  }

  /** A read or write moves the handle's position by as much as it transfers. */
  ghost predicate LinksMove(a: Snap, f: Fid, size: nat, mallocOk: bool, write: bool, b: Snap)
    requires f in a.files
  {
    var file := a.files[f];
    && b.slots == a.slots && b.owned == a.owned && b.freeMap == a.freeMap && b.inodes == a.inodes
    && file.inode in a.inodes && a.inodes[file.inode].sector in a.owned
    && var n := if write && a.inodes[file.inode].denyWriteCnt > 0 then 0
                else Transferred(a.owned[a.inodes[file.inode].sector], size, file.pos, mallocOk);
       b.files == a.files[f := file.(pos := file.pos + n)]
  }

  /** At most one in-memory inode exists for a sector. */
  ghost predicate OneInodePerSector(inodes: map<Id, Inode>) {
    forall i: nat, j: nat :: i in inodes && j in inodes && inodes[i].sector == inodes[j].sector ==> i == j
  }

  /** An inode's counters are those of the handles that exist. */
  ghost predicate CountsExact(inodes: map<Id, Inode>, files: map<Fid, File>) {
    forall i: nat :: i in inodes ==>
        inodes[i].openCnt == |Users(files, i)| > 0 && inodes[i].denyWriteCnt == |Deniers(files, i)|
  }

  /** Whatever a handle or a directory entry leads to is alive. */
  ghost predicate NothingDangles(owned: Owned, slots: seq<D.Slot>, inodes: map<Id, Inode>, files: map<Fid, File>) {
    && (forall f: nat :: f in files ==> files[f].inode in inodes && inodes[files[f].inode].sector in owned)
    && (forall k :: 0 <= k < |slots| && slots[k].inUse ==> slots[k].sector in owned)
  }

  /** Sector `x` is the inode sector or a data sector of live file `s`. */
  ghost predicate BelongsTo(owned: Owned, s: nat, x: nat) {
    s in owned && Occupies(s, owned[s], x)
  }

  ghost predicate Unclaimed(owned: Owned, x: nat) {
    forall s: nat :: !BelongsTo(owned, s, x)
  }

  /** Every sector of a live file, inode and data, is marked in use. */
  ghost predicate SectorsMarked(fm: seq<bool>, owned: Owned) {
    forall s: nat, x: nat :: BelongsTo(owned, s, x) ==> x < |fm| && fm[x]
  }

  /** No sector belongs to two live files. */
  ghost predicate SectorsDisjoint(owned: Owned) {
    forall s: nat, t: nat, x: nat :: BelongsTo(owned, s, x) && BelongsTo(owned, t, x) ==> s == t
  }

  /** The removed flag tells exactly the open files that no name leads to. */
  ghost predicate RemovedExact(slots: seq<D.Slot>, inodes: map<Id, Inode>) {
    forall i: nat :: i in inodes ==> (inodes[i].removed <==> inodes[i].sector !in Rooted(slots))
  }

  /** An open file marked removed is one that no name leads to. */
  ghost predicate RemovedUnlisted(slots: seq<D.Slot>, inodes: map<Id, Inode>) {
    forall i: nat :: i in inodes && inodes[i].removed ==> inodes[i].sector !in Rooted(slots)
  }

  /** What holds between calls. A live file is one that can be reached, by name or by handle. */
  ghost predicate Consistent(fm: seq<bool>, owned: Owned, slots: seq<D.Slot>, inodes: map<Id, Inode>,
                             files: map<Fid, File>) {
    && OneInodePerSector(inodes) && CountsExact(inodes, files) && NothingDangles(owned, slots, inodes, files)
    && SectorsMarked(fm, owned) && SectorsDisjoint(owned) && RemovedUnlisted(slots, inodes)
  }

  lemma InvariantMeans(fm: seq<bool>, owned: Owned, slots: seq<D.Slot>, inodes: map<Id, Inode>, files: map<Fid, File>)
    requires Allocated(fm, owned) && Counted(inodes, files, multiset{}) && Live(owned, slots, inodes)
    ensures Consistent(fm, owned, slots, inodes, files)
  {
    AllocatedMeans(fm, owned);
    CountedMeans(inodes, files);
    LiveMeans(owned, slots, inodes, files);
  }

  lemma AllocatedMeans(fm: seq<bool>, owned: Owned)
    requires Allocated(fm, owned)
    ensures SectorsMarked(fm, owned) && SectorsDisjoint(owned)
  {
    forall s: nat, x: nat | BelongsTo(owned, s, x) ensures x < |fm| && fm[x] {
      assert OwnOk(fm, owned, s);
    }
    forall s: nat, t: nat, x: nat | BelongsTo(owned, s, x) && BelongsTo(owned, t, x) ensures s == t {
      assert PairOk(owned, s, t);
    }
  }

  lemma CountedMeans(inodes: map<Id, Inode>, files: map<Fid, File>)
    requires Counted(inodes, files, multiset{})
    ensures OneInodePerSector(inodes) && CountsExact(inodes, files)
  {
    forall i: nat, j: nat | i in inodes && j in inodes && inodes[i].sector == inodes[j].sector ensures i == j {
      assert DistinctOk(inodes, i, j);
    }
    forall i: nat | i in inodes
      ensures inodes[i].openCnt == |Users(files, i)| > 0 && inodes[i].denyWriteCnt == |Deniers(files, i)|
    {
      assert IdOk(inodes, files, multiset{}, i);
    }
  }

  lemma LiveMeans(owned: Owned, slots: seq<D.Slot>, inodes: map<Id, Inode>, files: map<Fid, File>)
    requires Live(owned, slots, inodes) && Counted(inodes, files, multiset{})
    ensures NothingDangles(owned, slots, inodes, files) && RemovedUnlisted(slots, inodes)
  {
    forall f: nat | f in files ensures files[f].inode in inodes && inodes[files[f].inode].sector in owned {
      assert FileOk(inodes, files, f) && LiveOk(owned, slots, inodes, files[f].inode);
    }
    forall k | 0 <= k < |slots| && slots[k].inUse ensures slots[k].sector in owned {
      assert slots[k].sector in Listed(slots);
    }
    forall i: nat | i in inodes && inodes[i].removed ensures inodes[i].sector !in Rooted(slots) {
      assert LiveOk(owned, slots, inodes, i);
    }
  }

  /** Every live file but `s` has the same bytes on both devices. */
  ghost predicate OthersSame(a: seq<seq<byte>>, b: seq<seq<byte>>, owned: Owned, s: nat) {
    forall t: nat :: t != s ==> Kept(a, b, owned, t)
  }

  /** The map of `after` is that of `slots` without `name`, which was file `s`. */
  ghost predicate LosesExactly(slots: seq<D.Slot>, after: seq<D.Slot>, name: Name, s: nat) {
    && D.Lists(slots, name, s) && D.UniqueNames(after)
    && forall n, t :: D.Lists(after, n, t) <==> D.Lists(slots, n, t) && n != name
  }

  lemma Disappears(slots: seq<D.Slot>, name: Name, budget: nat, k: nat)
    requires Named(slots) && D.Find(slots, name, budget) == Some(k)
    ensures slots[k].sector > ROOT_DIR_SECTOR
    ensures D.UniqueNames(slots) ==> LosesExactly(slots, D.Erased(slots, k, true), name, slots[k].sector)
  {
    if D.UniqueNames(slots) {
      D.EraseRefines(slots, name, k);
    }
  }

  // ---- when the calls succeed ----------------------------------------------------------------------

  /** `dir_open_root` succeeds: an inode that is open, or memory for one, and memory for the directory structure. */
  ghost predicate DirReady(inodes: map<Id, Inode>, mallocOk: bool, callocOk: bool) {
    (ROOT_DIR_SECTOR in OpenSectors(inodes) || mallocOk) && callocOk
  }

  /** The scan sees the name, and the inode of its file is open or memory is had for it. */
  ghost predicate Obtains(slots: seq<D.Slot>, inodes: map<Id, Inode>, name: Name, scanBudget: nat, inodeMalloc: bool) {
    var f := D.Find(slots, name, scanBudget);
    f.Some? && (slots[f.value].sector in OpenSectors(inodes) || inodeMalloc)
  }

  /** `filesys_open` and `filesys_remove` succeed; their last need is the handle, or the buffer for the write. */
  ghost predicate Succeeds(slots: seq<D.Slot>, inodes: map<Id, Inode>, name: Name, m: NameMemory) {
    DirReady(inodes, m.dirMalloc, m.dirCalloc) && Obtains(slots, inodes, name, m.scanBudget, m.inodeMalloc) && m.last
  }

  /** With all memory granted that is to say that the name is listed. */
  lemma SucceedsAll(slots: seq<D.Slot>, inodes: map<Id, Inode>, name: Name, m: NameMemory)
    requires m.dirMalloc && m.dirCalloc && m.inodeMalloc && m.last && D.Ample(slots, m.scanBudget)
    ensures Succeeds(slots, inodes, name, m) <==> !D.Absent(slots, name)
    ensures Succeeds(slots, inodes, name, m) <==> D.Find(slots, name, m.scanBudget).Some?
  {
  }

  /**
   The comment on `dir_remove` says that it fails only if there is no such name. For a
   directory with entries that is so, for all names, exactly when the directory can be opened
   and written and every entry's name leads to an inode that is open or can be.
   */
  lemma FailsOnlyIfAbsentIff(slots: seq<D.Slot>, inodes: map<Id, Inode>, m: NameMemory)
    ensures (forall name :: !Succeeds(slots, inodes, name, m) ==> D.Absent(slots, name)) <==>
              forall k :: 0 <= k < |slots| && slots[k].inUse ==>
                DirReady(inodes, m.dirMalloc, m.dirCalloc) && m.last &&
                  Obtains(slots, inodes, slots[k].name, m.scanBudget, m.inodeMalloc)
  {
    if forall name :: !Succeeds(slots, inodes, name, m) ==> D.Absent(slots, name) {
      forall k | 0 <= k < |slots| && slots[k].inUse ensures Succeeds(slots, inodes, slots[k].name, m) {
        assert D.Matches(slots[k], slots[k].name);
        assert !D.Absent(slots, slots[k].name);
      }
    }
    if forall k :: 0 <= k < |slots| && slots[k].inUse ==>
         DirReady(inodes, m.dirMalloc, m.dirCalloc) && m.last &&
           Obtains(slots, inodes, slots[k].name, m.scanBudget, m.inodeMalloc) {
      forall name | !Succeeds(slots, inodes, name, m) ensures D.Absent(slots, name) {
        forall k | 0 <= k < |slots| ensures !D.Matches(slots[k], name) {
          assert slots[k].inUse && slots[k].name == name ==> Succeeds(slots, inodes, slots[k].name, m);
        }
      }
    }
  }

  /** `filesys_create` gets its two allocations. */
  predicate Allocates(fm: seq<bool>, size: nat, m: CreateMemory) {
    m.firstMapOk && m.inodeCalloc && m.secondMapOk && HasRoom(fm, size)
  }

  /** It gets as far as `dir_add`. */
  ghost predicate Reaches(inodes: map<Id, Inode>, fm: seq<bool>, size: nat, m: CreateMemory) {
    DirReady(inodes, m.dirMalloc, m.dirCalloc) && Allocates(fm, size, m)
  }

  /** And that succeeds. */
  predicate AddsEntry(slots: seq<D.Slot>, name: Name, m: CreateMemory) {
    D.Added(slots, name, 0, m.lookupBudget, m.scanBudget, m.writeMalloc).1
  }

  /** With all memory granted: there is room, and the name is new and fits. */
  lemma GrantedCreate(slots: seq<D.Slot>, inodes: map<Id, Inode>, fm: seq<bool>, name: Name, size: nat, m: CreateMemory)
    requires Granted(m, |slots|)
    ensures Reaches(inodes, fm, size, m) <==> HasRoom(fm, size)
    ensures AddsEntry(slots, name, m) <==> CanAdd(slots, name)
  {
    D.AmpleAddFails(slots, name, 0, m.lookupBudget, m.scanBudget, m.writeMalloc);
  }

  lemma TakenName(slots: seq<D.Slot>, name: Name, m: CreateMemory)
    ensures D.Find(slots, name, m.lookupBudget).Some? || name == [] || |name| > D.NAME_MAX ==>
              !AddsEntry(slots, name, m)
    ensures (forall k :: 0 <= k < |slots| ==> slots[k].inUse) && D.Ample(slots, m.scanBudget) ==>
              !AddsEntry(slots, name, m)
  {
    var k := D.FreeSlot(slots, m.scanBudget);
    assert k < |slots| && D.Ample(slots, m.scanBudget) ==> !slots[k].inUse;
  }

  /** Two free sectors are room for a file of one. */
  lemma TwoFree(fm: seq<bool>, size: nat, x: nat, y: nat)
    requires SectorsFor(size) == 1 && x < |fm| && y < |fm| && x != y && !fm[x] && !fm[y]
    ensures HasRoom(fm, size)
  {
    FirstFitIsLeast(fm, 0, 1, false);
    assert RunAt(fm, x, 1, false);
    var first := FirstFit(fm, 0, 1, false).value;
    var fm1 := SetRun(fm, first, 1, true);
    FirstFitIsLeast(fm1, 0, 1, false);
    assert RunAt(fm1, if first == x then y else x, 1, false);
  }

  /** All the memory that a create in a directory of `slots` slots can need. */
  function AllMemory(slots: nat): CreateMemory {
    CreateMemory(true, true, true, true, true, slots, slots, true)
  }

  /** Creating the same file twice on a fresh device loses a sector for good. */
  method LeakASector(dev: Device) returns (fs: FileSystem, ghost x: nat)
    requires dev.Valid() && 7 + SectorsFor(FreeMapBytes(|dev.sectors|)) <= |dev.sectors| < 0x8000_0000
    modifies dev
    ensures fs.Valid() && fresh(fs) && x < |fs.freeMap| && fs.freeMap[x] && Unclaimed(fs.owned, x)
  {
    hide Counted, Allocated, OnDisk, Live, Listing, D.Slots, Named, OthersSame, AddsEntry, Reaches, Uncreated, HasRoom,
         Unclaimed;
    fs := new FileSystem(dev);
    ghost var fm, slots, inodes, owned := fs.freeMap, fs.Root(), fs.inodes, fs.owned;
    ghost var n := 3 + SectorsFor(FreeMapBytes(|fm|));
    var m := AllMemory(16);
    assert HasRoom(fm, 1) by { TwoFree(fm, 1, n, n + 1); }
    assert CanAdd(slots, [97]) by { assert !slots[0].inUse; }
    GrantedCreate(slots, inodes, fm, [97], 1, m);
    var ok, s, e := fs.Create([97], 1, m);
    CreatedFirst(fm, owned, slots, inodes, fs.freeMap, fs.owned, fs.Root(), [97], 1, m, s, e);
    assert HasRoom(fs.freeMap, 1) by { TwoLeft(fm, n, s, e); }
    TakenName(fs.Root(), [97], m);
    GrantedCreate(fs.Root(), inodes, fs.freeMap, [97], 1, m);
    var lost := fs.CreateLeaks([97], 1, m);
    x := lost.start;
  }

  lemma TwoLeft(fm: seq<bool>, n: nat, s: nat, e: Extent)
    requires n + 4 <= |fm| && (forall x :: n <= x < |fm| ==> !fm[x])
    requires s < |fm| && e.start + SectorsFor(e.length) <= |fm| && SectorsFor(e.length) == 1
    ensures HasRoom(Acquire(fm, s, e), 1)
  {
    var x := if n != s && n != e.start then n else if n + 1 != s && n + 1 != e.start then n + 1 else n + 2;
    var y := if n + 3 != s && n + 3 != e.start then n + 3 else if n + 2 != s && n + 2 != e.start then n + 2 else n + 1;
    TwoFree(Acquire(fm, s, e), 1, x, y);
  }

  /** First fit finds a sector for the inode and then a run for the data. */
  predicate HasRoom(fm: seq<bool>, size: nat) {
    var first := FirstFit(fm, 0, 1, false);
    first.Some? && first.value < |fm| && FirstFit(SetRun(fm, first.value, 1, true), 0, SectorsFor(size), false).Some?
  }

  /** That is: with the least free sector taken, a run of as many sectors as the size needs is left. */
  lemma HasRoomIff(fm: seq<bool>, size: nat)
    ensures HasRoom(fm, size) <==> exists s: nat, i: nat :: LeastFree(fm, s) && Leaves(fm, s, i, SectorsFor(size))
  {
    FirstFitIsLeast(fm, 0, 1, false);
    if s: nat, i: nat :| LeastFree(fm, s) && Leaves(fm, s, i, SectorsFor(size)) {
      assert RunAt(fm, s, 1, false);
      var r := FirstFit(fm, 0, 1, false).value;
      assert r == s by { assert !fm[r]; }
      FirstFitIsLeast(SetRun(fm, s, 1, true), 0, SectorsFor(size), false);
      assert RunAt(SetRun(fm, s, 1, true), i, SectorsFor(size), false);
    }
    if HasRoom(fm, size) {
      var s := FirstFit(fm, 0, 1, false).value;
      forall x: nat | x < s ensures fm[x] {
        assert !RunAt(fm, x, 1, false);
      }
      assert !fm[s];
      var fm1 := SetRun(fm, s, 1, true);
      FirstFitIsLeast(fm1, 0, SectorsFor(size), false);
      var i := FirstFit(fm1, 0, SectorsFor(size), false).value;
      forall k: nat | i <= k < i + SectorsFor(size) ensures !fm[k] && k != s {
        assert !fm1[k];
      }
      assert LeastFree(fm, s) && Leaves(fm, s, i, SectorsFor(size));
    }
  }

  ghost predicate LeastFree(fm: seq<bool>, s: nat) {
    s < |fm| && !fm[s] && forall x :: 0 <= x < s ==> fm[x]
  }

  /** The `n` sectors from `i` on are free, and none of them is `s`. */
  ghost predicate Leaves(fm: seq<bool>, s: nat, i: nat, n: nat) {
    i + n <= |fm| && forall k: nat :: i <= k < i + n ==> !fm[k] && k != s
  }

  ghost predicate CanAdd(slots: seq<D.Slot>, name: Name) {
    0 < |name| <= D.NAME_MAX && D.Absent(slots, name) && exists k :: 0 <= k < |slots| && !slots[k].inUse
  }

  predicate Granted(m: CreateMemory, slots: nat) {
    slots <= m.lookupBudget && slots <= m.scanBudget && m.dirMalloc && m.dirCalloc && m.firstMapOk && m.inodeCalloc &&
      m.secondMapOk && m.writeMalloc
  }

  /** The last close of a removed file releases sectors that are all marked, and leaves the rest in order. */
  lemma Destroyed(fm: seq<bool>, sectors: seq<seq<byte>>, owned: Owned, slots: seq<D.Slot>, inodes: map<Id, Inode>,
                  files: map<Fid, File>, extra: multiset<Id>, id: Id)
    requires Allocated(fm, owned) && OnDisk(sectors, owned) && Counted(inodes, files, extra) &&
             Live(owned, slots, inodes)
    requires id in extra && id in inodes && inodes[id].openCnt == 1 && inodes[id].removed
    ensures var s, e := inodes[id].sector, inodes[id].data;
            && s > ROOT_DIR_SECTOR && s < |fm| && e.start + SectorsFor(e.length) <= |fm|
            && RunAt(fm, s, 1, true) && RunAt(SetRun(fm, s, 1, false), e.start, SectorsFor(e.length), true)
            && Allocated(Release(fm, s, e), owned - {s}) && OnDisk(sectors, owned - {s})
            && Live(owned - {s}, slots, inodes - {id})
    ensures Counted(inodes - {id}, files, extra - multiset{id})
  {
    LiveAt(owned, slots, inodes, id);
    IdAt(inodes, files, extra, id);
    CountedClose(inodes, files, extra, id);
    LiveClose(owned, slots, inodes, id);
    AllocatedShrink(fm, owned, inodes[id].sector);
    OnDiskShrink(sectors, owned, inodes[id].sector);
  }

  // ---- what a create does ----------------------------------------------------------------------------

  /**
   The outcome of a successful create. A file whose entry it overwrote, misled by a short scan,
   is alive only if it is open.
   */
  ghost predicate Created(fm0: seq<bool>, owned0: Owned, slots0: seq<D.Slot>, inodes: map<Id, Inode>, fm: seq<bool>,
                          owned: Owned,
                          slots: seq<D.Slot>, name: Name, size: nat, m: CreateMemory, s: nat, e: Extent)
  {
    && e.length == size && NewRegion(fm0, s, e) && fm == Acquire(fm0, s, e)
    && D.Added(slots0, name, s, m.lookupBudget, m.scanBudget, true) == (slots, true)
    && s !in owned0 && owned == Narrow(owned0, Rooted(slots) + OpenSectors(inodes))[s := e]
  }

  /** The free map after a create that failed: as before, or with a run marked that nobody owns. */
  ghost predicate Uncreated(fm0: seq<bool>, fm: seq<bool>, size: nat, reached: bool, s: nat, e: Extent) {
    && NoMarkLost(fm0, fm) && (fm == fm0 <==> size == 0 || !reached)
    && (fm != fm0 ==> e.length == size && NewRegion(fm0, s, e) && fm == SetRun(fm0, e.start, SectorsFor(size), true))
  }

  /** The root directory's own inode makes no difference to who is alive. */
  lemma CreatedAgain(fm0: seq<bool>, owned0: Owned, slots0: seq<D.Slot>, inodes1: map<Id, Inode>,
                     inodes: map<Id, Inode>, fm: seq<bool>, owned: Owned,
                     slots: seq<D.Slot>, name: Name, size: nat, m: CreateMemory, s: nat, e: Extent, dir: Id)
    requires Created(fm0, owned0, slots0, inodes1, fm, owned, slots, name, size, m, s, e) &&
             Opened(inodes, inodes1, owned0, dir, ROOT_DIR_SECTOR)
    ensures Created(fm0, owned0, slots0, inodes, fm, owned, slots, name, size, m, s, e)
  {
    OpenSectorsUpdate(inodes, dir, inodes1[dir]);
    assert Rooted(slots) + OpenSectors(inodes1) == Rooted(slots) + OpenSectors(inodes);
  }

  lemma OpenedStill(fm0: seq<bool>, owned0: Owned, slots0: seq<D.Slot>, inodes: map<Id, Inode>,
                    inodes1: map<Id, Inode>, fm: seq<bool>, owned: Owned,
                    slots: seq<D.Slot>, name: Name, size: nat, m: CreateMemory, s: nat, e: Extent, dir: Id)
    requires Created(fm0, owned0, slots0, inodes1, fm, owned, slots, name, size, m, s, e) &&
             Opened(inodes, inodes1, owned0, dir, ROOT_DIR_SECTOR)
    ensures Opened(inodes, inodes1, owned, dir, ROOT_DIR_SECTOR)
  {
  }

  /**
   In a directory without duplicates, a successful create adds exactly the new name to the map
   if and only if its scans were not misleading; then every file stays alive.
   */
  lemma CreateRefinesIff(fm0: seq<bool>, owned0: Owned, slots0: seq<D.Slot>, inodes: map<Id, Inode>, fm: seq<bool>,
                         owned: Owned,
                         slots: seq<D.Slot>, name: Name, size: nat, m: CreateMemory, s: nat, e: Extent)
    requires Created(fm0, owned0, slots0, inodes, fm, owned, slots, name, size, m, s, e) && Live(owned0, slots0, inodes)
    ensures D.UniqueNames(slots0) ==>
              (D.GainsExactly(slots0, slots, name, s) <==> D.ScansSuffice(slots0, name, m.lookupBudget, m.scanBudget))
    ensures D.ScansSuffice(slots0, name, m.lookupBudget, m.scanBudget) ==>
              owned == owned0[s := e] && Rooted(slots) == Rooted(slots0) + {s}
  {
    NotListedSector(owned0, slots0, inodes, s);
    if D.UniqueNames(slots0) {
      D.AddRefinesIff(slots0, name, s, m.lookupBudget, m.scanBudget);
    }
    ListedAdd(slots0, D.FreeSlot(slots0, m.scanBudget), name, s);
    if D.ScansSuffice(slots0, name, m.lookupBudget, m.scanBudget) {
      assert Narrow(owned0, Rooted(slots) + OpenSectors(inodes)) == owned0;
    }
  }

  /** No slot before the one that `dir_add` takes has the name. */
  predicate LeadsTo(slots: seq<D.Slot>, name: Name, scanBudget: nat) {
    forall j :: 0 <= j < D.FreeSlot(slots, scanBudget) ==> !D.Matches(slots[j], name)
  }

  /**
   After a create the name is found, and leads to the new file exactly if no earlier slot had
   it; the new file was not open.
   */
  lemma CreatedFirst(fm0: seq<bool>, owned0: Owned, slots0: seq<D.Slot>, inodes: map<Id, Inode>, fm: seq<bool>,
                     owned: Owned,
                     slots: seq<D.Slot>, name: Name, size: nat, m: CreateMemory, s: nat, e: Extent)
    requires Created(fm0, owned0, slots0, inodes, fm, owned, slots, name, size, m, s, e) && Live(owned0, slots0, inodes)
    ensures |slots| == |slots0| && D.Find(slots, name, |slots|).Some? && s !in OpenSectors(inodes) && s in owned &&
            owned[s] == e
    ensures D.FreeSlot(slots0, m.scanBudget) < |slots0| &&
            slots[D.FreeSlot(slots0, m.scanBudget)] == D.Slot(s, name, true)
    ensures slots[D.Find(slots, name, |slots|).value].sector == s <==> LeadsTo(slots0, name, m.scanBudget)
    ensures D.Find(slots, name, |slots|).value == D.FreeSlot(slots0, m.scanBudget) <==>
              LeadsTo(slots0, name, m.scanBudget)
    ensures e.length == size && NewRegion(fm0, s, e) && fm == Acquire(fm0, s, e)
  {
    var k := D.FreeSlot(slots0, m.scanBudget);
    NotListedSector(owned0, slots0, inodes, s);
    assert slots == slots0[k := D.Slot(s, name, true)] && D.Matches(slots[k], name);
    var f := D.Find(slots, name, |slots|);
    FindIsFirst(slots, name, k);
    if f.value < k {
      assert slots[f.value] == slots0[f.value] && slots0[f.value].sector in Listed(slots0);
    } else {
      forall j | 0 <= j < k ensures !D.Matches(slots0[j], name) {
        assert slots[j] == slots0[j];
      }
    }
  }

  /** A scan of the whole directory finds the first entry with the name. */
  lemma FindIsFirst(slots: seq<D.Slot>, name: Name, k: nat)
    requires k < |slots| && D.Matches(slots[k], name)
    ensures var f := D.Find(slots, name, |slots|);
            f.Some? && f.value <= k && D.Matches(slots[f.value], name) &&
            forall j :: 0 <= j < f.value ==> !D.Matches(slots[j], name)
  {
  }

  /** A file that another with its name outlived is still listed, so its sector is still marked. */
  lemma StillListed(fm: seq<bool>, owned: Owned, slots1: seq<D.Slot>, inodes: map<Id, Inode>, slots0: seq<D.Slot>,
                    name: Name, m: CreateMemory, s: nat, k: nat)
    requires k < |slots1| == |slots0| && D.FreeSlot(slots0, m.scanBudget) < |slots0|
    requires slots1[D.FreeSlot(slots0, m.scanBudget)] == D.Slot(s, name, true) && slots1[k].sector != s
    requires Allocated(fm, owned) && Live(owned, D.Erased(slots1, k, true), inodes)
    ensures s < |fm| && fm[s]
  {
    var j, after := D.FreeSlot(slots0, m.scanBudget), D.Erased(slots1, k, true);
    assert after[j] == slots1[j] && after[j].sector in Listed(after);
    assert OwnOk(fm, owned, s);
  }

  /** The inode is in memory for file `s` and has one user. */
  ghost predicate OnlyHandle(inodes: map<Id, Inode>, id: Id, s: nat, e: Extent) {
    && id in inodes && inodes[id].sector == s && inodes[id].openCnt == 1 && inodes[id].data == e
    && forall i: nat, j: nat :: DistinctOk(inodes, i, j)
  }

  lemma NotOpen(inodes: map<Id, Inode>, id: Id, s: nat)
    requires s !in OpenSectors(inodes)
    ensures id in inodes ==> inodes[id].sector != s
  {
  }

  /** The first handle on an inode that was not in memory is its only user. */
  lemma SoleUser(inodes: map<Id, Inode>, files: map<Fid, File>, inodes': map<Id, Inode>, files': map<Fid, File>,
                 extra: multiset<Id>, f: Fid, id: Id)
    requires Counted(inodes, files, extra) && Counted(inodes', files', extra) && id !in inodes && id in inodes'
    requires f !in files && files' == files[f := File(id, 0, false)]
    ensures inodes'[id].openCnt == 1
  {
    IdAt(inodes, files, extra, id);
    IdAt(inodes', files', extra, id);
    forall g | g in files ensures files[g].inode != id {
      FileAt(inodes, files, extra, g);
    }
    assert Users(files', id) == {f};
  }

  /**
   Removing a file that one handle has open changes no mark; closing that handle gives back
   exactly what the creation took.
   */
  lemma LastClose(fm: seq<bool>, s: nat, e: Extent, inodes1: map<Id, Inode>, owned1: Owned, slots: seq<D.Slot>,
                  inodes2: map<Id, Inode>,
                  owned2: Owned, fm2: seq<bool>, inodes3: map<Id, Inode>, owned3: Owned, fm3: seq<bool>, id: Id)
    requires NewRegion(fm, s, e) && OnlyHandle(inodes1, id, s, e)
    requires RemovedFrom(inodes1, owned1, Acquire(fm, s, e), inodes2, owned2, fm2, s)
    requires Departed(fm2, inodes2, owned2, slots, fm3, inodes3, owned3, id)
    ensures fm2 == Acquire(fm, s, e) && fm3 == fm
  {
    assert inodes1[id].sector in OpenSectors(inodes1);
    var i :| i in inodes1 && inodes1[i].sector == s && inodes2 == inodes1[i := inodes1[i].(removed := true)];
    assert DistinctOk(inodes1, i, id);
    AcquireRelease(fm, s, e);
  }

  /** The root directory's open and close around a removal cancel out. */
  lemma RemoveUnderRoot(inodes: map<Id, Inode>, owned: Owned, fm: seq<bool>, inodes1: map<Id, Inode>,
                        inodes2: map<Id, Inode>, owned2: Owned, slots: seq<D.Slot>, fm2: seq<bool>,
                        inodes3: map<Id, Inode>, owned3: Owned, fm3: seq<bool>, dir: Id, s: nat)
    requires Opened(inodes, inodes1, owned, dir, ROOT_DIR_SECTOR) && forall i :: i in inodes ==> inodes[i].openCnt > 0
    requires RemovedFrom(inodes1, owned, fm, inodes2, owned2, fm2, s) && s > ROOT_DIR_SECTOR
    requires Closed(fm2, inodes2, owned2, slots, fm3, inodes3, owned3, dir)
    ensures RemovedFrom(inodes, owned, fm, inodes3, owned3, fm3, s)
  {
    OpenSectorsUpdate(inodes, dir, inodes1[dir]);
    if s in OpenSectors(inodes1) {
      var id :| id in inodes1 && inodes1[id].sector == s && inodes2 == inodes1[id := inodes1[id].(removed := true)];
      assert id != dir && id in inodes;
      assert inodes3 == inodes[id := inodes[id].(removed := true)];
    } else {
      OpenThenClose(inodes, inodes1, owned, dir, ROOT_DIR_SECTOR);
    }
  }

  /** The table, the owners and the free map after the file in sector `s` was removed. */
  ghost predicate RemovedFrom(inodes: map<Id, Inode>, owned: Owned, fm: seq<bool>, inodes': map<Id, Inode>,
                              owned': Owned, fm': seq<bool>, s: nat) {
    s in owned &&
    if s in OpenSectors(inodes) then
      && owned' == owned && fm' == fm
      && exists id :: id in inodes && inodes[id].sector == s && inodes' == inodes[id := inodes[id].(removed := true)]
    else
      && inodes' == inodes && owned' == owned - {s}
      && s < |fm| && owned[s].start + SectorsFor(owned[s].length) <= |fm| && fm' == Release(fm, s, owned[s])
  }

  /** Opening, marking and closing an inode: an earlier opener keeps it, marked; otherwise it goes with its sectors. */
  lemma OpenMarkClose(inodes: map<Id, Inode>, inodes1: map<Id, Inode>, owned: Owned, fm: seq<bool>, slots: seq<D.Slot>,
                      inodes2: map<Id, Inode>,
                      inodes3: map<Id, Inode>, owned3: Owned, fm3: seq<bool>, id: Id, s: nat)
    requires Opened(inodes, inodes1, owned, id, s) && forall i :: i in inodes ==> inodes[i].openCnt > 0
    requires inodes2 == inodes1[id := inodes1[id].(removed := true)]
    requires Closed(fm, inodes2, owned, slots, fm3, inodes3, owned3, id)
    requires inodes1[id].data == owned[s]
    ensures RemovedFrom(inodes, owned, fm, inodes3, owned3, fm3, s)
  {
    if id in inodes {
      assert inodes[id].sector in OpenSectors(inodes);
      assert inodes3 == inodes[id := inodes[id].(removed := true)];
    } else {
      assert inodes3 == inodes;
    }
  }

  lemma EntryListed(slots: seq<D.Slot>, k: nat)
    requires k < |slots| && slots[k].inUse
    ensures slots[k].sector in Rooted(slots)
  {
    assert slots[k].sector in Listed(slots);
  }

  lemma FoundSector(slots: seq<D.Slot>, name: Name, budget: nat)
    requires Named(slots) && D.Find(slots, name, budget).Some?
    ensures var k := D.Find(slots, name, budget).value;
            k < |slots| && D.Matches(slots[k], name) && slots[k].sector in Rooted(slots) &&
              slots[k].sector > ROOT_DIR_SECTOR
  {
    EntryListed(slots, D.Find(slots, name, budget).value);
  }

  lemma OpenedAt(inodes: map<Id, Inode>, inodes': map<Id, Inode>, owned: Owned, id: Id, sector: nat)
    requires Opened(inodes, inodes', owned, id, sector)
    ensures id in inodes' && inodes'[id].sector == sector
    ensures forall i :: i in inodes ==> i in inodes' && inodes'[i].sector == inodes[i].sector
  {
  }

  /** Opening the root directory makes no difference to what a name leads to. */
  lemma ObtainsSame(slots: seq<D.Slot>, inodes: map<Id, Inode>, inodes1: map<Id, Inode>, owned: Owned, dir: Id,
                    name: Name, budget: nat, inodeMalloc: bool)
    requires Named(slots) && Opened(inodes, inodes1, owned, dir, ROOT_DIR_SECTOR)
    ensures Obtains(slots, inodes1, name, budget, inodeMalloc) <==> Obtains(slots, inodes, name, budget, inodeMalloc)
  {
    OpenSectorsUpdate(inodes, dir, inodes1[dir]);
    if D.Find(slots, name, budget).Some? {
      FoundSector(slots, name, budget);
    }
  }

  /**
   Inodes that were in memory keep sector and flag; new ones are for files with a name (or
   system files) and not removed.
   */
  ghost predicate Retains(inodes: map<Id, Inode>, inodes': map<Id, Inode>, slots: seq<D.Slot>) {
    forall i: nat :: i in inodes' ==>
      if i in inodes then inodes'[i].sector == inodes[i].sector && inodes'[i].removed == inodes[i].removed
      else !inodes'[i].removed && inodes'[i].sector in Rooted(slots)
  }

  /** The table after a name was looked up: a reference to the inode of its file. */
  ghost predicate LookedUp(inodes: map<Id, Inode>, inodes': map<Id, Inode>, slots: seq<D.Slot>, id: Id, sector: nat) {
    && id in inodes' && inodes'[id].sector == sector && !inodes'[id].removed &&
      (id in inodes ==> inodes[id].sector == sector)
    && sector in Rooted(slots) && sector > ROOT_DIR_SECTOR && Retains(inodes, inodes', slots)
  }

  lemma LookupDone(inodes0: map<Id, Inode>, inodes1: map<Id, Inode>, inodes2: map<Id, Inode>, inodes3: map<Id, Inode>,
                   owned: Owned,
                   slots: seq<D.Slot>, dir: Id, id: Id, sector: nat)
    requires Opened(inodes0, inodes1, owned, dir, ROOT_DIR_SECTOR) && Opened(inodes1, inodes2, owned, id, sector)
    requires sector in Rooted(slots) && sector > ROOT_DIR_SECTOR && dir in inodes2
    requires inodes3 == inodes2 - {dir} ||
             (inodes2[dir].openCnt > 1 && inodes3 == inodes2[dir := inodes2[dir].(openCnt := inodes2[dir].openCnt - 1)])
    ensures LookedUp(inodes0, inodes3, slots, id, sector)
  {
  }

  // ---- names and flags -------------------------------------------------------------------------------

  /** If the call is a create, its scans do not mislead it. */
  predicate Undeceived(slots: seq<D.Slot>, op: Op) {
    op.CreateOp? ==> D.ScansSuffice(slots, op.cname, op.create.lookupBudget, op.create.scanBudget)
  }

  lemma RetainsExact(slots: seq<D.Slot>, inodes: map<Id, Inode>, inodes': map<Id, Inode>)
    requires Retains(inodes, inodes', slots)
    ensures RemovedExact(slots, inodes) ==> RemovedExact(slots, inodes')
  {
  }

  lemma SameFlags(slots: seq<D.Slot>, inodes: map<Id, Inode>, inodes': map<Id, Inode>)
    requires inodes'.Keys == inodes.Keys && forall i :: i in inodes ==>
               inodes'[i] == inodes[i].(denyWriteCnt := inodes'[i].denyWriteCnt)
    ensures RemovedExact(slots, inodes) ==> RemovedExact(slots, inodes')
  {
  }

  lemma TidyClose(fm: seq<bool>, owned: Owned, slots: seq<D.Slot>, inodes: map<Id, Inode>, fm': seq<bool>,
                  owned': Owned, inodes': map<Id, Inode>, id: Id)
    requires Departed(fm, inodes, owned, slots, fm', inodes', owned', id)
    ensures RemovedExact(slots, inodes) ==> RemovedExact(slots, inodes')
  {
  }

  lemma TidyCreate(fm0: seq<bool>, owned0: Owned, slots0: seq<D.Slot>, inodes: map<Id, Inode>, fm: seq<bool>,
                   owned: Owned,
                   slots: seq<D.Slot>, name: Name, size: nat, m: CreateMemory, s: nat, e: Extent)
    requires Created(fm0, owned0, slots0, inodes, fm, owned, slots, name, size, m, s, e) && Live(owned0, slots0, inodes)
    ensures D.UniqueNames(slots0) && RemovedExact(slots0, inodes) &&
            D.ScansSuffice(slots0, name, m.lookupBudget, m.scanBudget) ==>
              D.UniqueNames(slots) && RemovedExact(slots, inodes)
  {
    CreateRefinesIff(fm0, owned0, slots0, inodes, fm, owned, slots, name, size, m, s, e);
    forall i: nat | i in inodes ensures inodes[i].sector != s {
      assert LiveOk(owned0, slots0, inodes, i);
    }
  }

  lemma TidyRemove(fm0: seq<bool>, owned0: Owned, slots0: seq<D.Slot>, inodes0: map<Id, Inode>, fm: seq<bool>,
                   owned: Owned,
                   inodes: map<Id, Inode>, name: Name, budget: nat, k: nat)
    requires Named(slots0) && D.Find(slots0, name, budget) == Some(k) &&
             forall i: nat, j: nat :: DistinctOk(inodes0, i, j)
    requires RemovedFrom(inodes0, owned0, fm0, inodes, owned, fm, slots0[k].sector)
    ensures D.UniqueNames(slots0) && RemovedExact(slots0, inodes0) ==>
              D.UniqueNames(D.Erased(slots0, k, true)) && RemovedExact(D.Erased(slots0, k, true), inodes)
  {
    var s, slots := slots0[k].sector, D.Erased(slots0, k, true);
    if D.UniqueNames(slots0) && RemovedExact(slots0, inodes0) {
      D.EraseRefines(slots0, name, k);
      ListedErase(slots0, k);
      if s in OpenSectors(inodes0) {
        var id :| id in inodes0 && inodes0[id].sector == s && inodes == inodes0[id := inodes0[id].(removed := true)];
        forall i: nat | i in inodes ensures inodes[i].removed <==> inodes[i].sector !in Rooted(slots) {
          assert DistinctOk(inodes0, i, id);
        }
      } else {
        forall i: nat | i in inodes ensures inodes[i].removed <==> inodes[i].sector !in Rooted(slots) {
          assert inodes0[i].sector in OpenSectors(inodes0);
        }
      }
    }
  }

  lemma CountedMark(inodes: map<Id, Inode>, files: map<Fid, File>, extra: multiset<Id>, id: Id)
    requires Counted(inodes, files, extra) && id in inodes
    ensures Counted(inodes[id := inodes[id].(removed := true)], files, extra)
  {
    var inodes' := inodes[id := inodes[id].(removed := true)];
    forall i: nat ensures IdOk(inodes', files, extra, i) {
      assert IdOk(inodes, files, extra, i);
    }
    SameKeys(inodes, inodes', files);
  }

  /** What the cleanup of a failed `filesys_create` leaves once both allocations had succeeded. */
  function Cleanup(fm: seq<bool>, s: nat, e: Extent): seq<bool>
    requires s < |fm| && e.start + SectorsFor(e.length) <= |fm|
  {
    SetRun(Acquire(fm, s, e), s, 1, false)
  }

  /**
   A create that fails at its last step restores the free map if and only if the file was to
   be empty: otherwise its data sectors stay marked although no file owns them.
   */
  lemma CreateCanLeak(fm: seq<bool>, s: nat, e: Extent)
    requires NewRegion(fm, s, e)
    ensures Cleanup(fm, s, e) == SetRun(fm, e.start, SectorsFor(e.length), true)
    ensures Cleanup(fm, s, e) == fm <==> e.length == 0
  {
    var r := Cleanup(fm, s, e);
    assert r == SetRun(fm, e.start, SectorsFor(e.length), true);
    if e.length > 0 {
      assert SectorsFor(e.length) > 0;
      assert r[e.start] && !fm[e.start];
    }
  }

  ghost predicate NoMarkLost(fm: seq<bool>, fm': seq<bool>) {
    |fm'| == |fm| && forall x :: 0 <= x < |fm| && fm[x] ==> fm'[x]
  }

  /** Which of the allocations and free-map writes of `filesys_create` succeed. */
  datatype CreateMemory = CreateMemory(dirMalloc: bool, dirCalloc: bool, firstMapOk: bool, inodeCalloc: bool,
      secondMapOk: bool,
                                       lookupBudget: nat, scanBudget: nat, writeMalloc: bool)

  /** Writing only free sectors keeps the bytes of all live files. */
  lemma FreeWritesKeepAll(a: seq<seq<byte>>, b: seq<seq<byte>>, fm: seq<bool>, owned: Owned)
    requires OnDisk(a, owned) && Allocated(fm, owned) && OnlyFree(a, b, fm)
    ensures forall t: nat :: Kept(a, b, owned, t)
  {
    forall t: nat ensures Kept(a, b, owned, t) {
      if t in owned {
        FreeWritesKeep(a, b, fm, owned, t);
      }
    }
  }

  lemma RootKept(a: seq<seq<byte>>, b: seq<seq<byte>>, owned: Owned)
    requires ROOT_DIR_SECTOR in owned && Kept(a, b, owned, ROOT_DIR_SECTOR)
    ensures D.Slots(b, owned[ROOT_DIR_SECTOR]) == D.Slots(a, owned[ROOT_DIR_SECTOR])
  {
  }

  lemma KeepSame(a: seq<seq<byte>>, owned: Owned, s: nat)
    requires OnDisk(a, owned)
    ensures OthersSame(a, a, owned, s)
  {
    forall t: nat | t != s ensures Kept(a, a, owned, t) {
      assert DiskOk(a, owned, t);
    }
  }

  lemma KeepTrans(a: seq<seq<byte>>, b: seq<seq<byte>>, c: seq<seq<byte>>, owned: Owned)
    requires forall t: nat :: Kept(a, b, owned, t)
    requires OthersSame(b, c, owned, ROOT_DIR_SECTOR)
    ensures OthersSame(a, c, owned, ROOT_DIR_SECTOR)
  {
    forall t: nat | t != ROOT_DIR_SECTOR ensures Kept(a, c, owned, t) {
      assert Kept(a, b, owned, t) && Kept(b, c, owned, t);
    }
  }

  lemma OnlyRootChanges(a: seq<seq<byte>>, b: seq<seq<byte>>, fm: seq<bool>, owned: Owned)
    requires OnDisk(a, owned) && Allocated(fm, owned) && ROOT_DIR_SECTOR in owned &&
             D.OnlyWithin(a, b, owned[ROOT_DIR_SECTOR])
    ensures OthersSame(a, b, owned, ROOT_DIR_SECTOR)
  {
    forall t: nat | t != ROOT_DIR_SECTOR ensures Kept(a, b, owned, t) {
      if t in owned {
        OthersKeep(a, b, fm, owned, ROOT_DIR_SECTOR, t);
      }
    }
  }

  /** A successful `dir_add` of a new file, piece by piece. */
  lemma AddOutcome(a: seq<seq<byte>>, b: seq<seq<byte>>, fm0: seq<bool>, owned: Owned, slots: seq<D.Slot>,
                   inodes: map<Id, Inode>,
                   name: Name, s: nat, e: Extent, lookupBudget: nat, scanBudget: nat)
    requires OnDisk(a, owned) && OnDisk(b, owned) && Allocated(fm0, owned) && NewRegion(fm0, s, e) && |fm0| == |a|
    requires ROOT_DIR_SECTOR in owned && D.OnlyWithin(a, b, owned[ROOT_DIR_SECTOR]) && FreshOnDisk(a, s, e)
    requires Named(slots) && Live(owned, slots, inodes) && D.Added(slots, name, s, lookupBudget, scanBudget, true).1
    ensures var slots' := D.Added(slots, name, s, lookupBudget, scanBudget, true).0;
            var owned' := Narrow(owned, Rooted(slots') + OpenSectors(inodes))[s := e];
            && s !in owned && Allocated(Acquire(fm0, s, e), owned') && OnDisk(b, owned')
            && Named(slots') && Live(owned', slots', inodes)
    ensures Fits(b, e) && Contents(b, e) == seq(e.length, _ => 0)
  {
    var k, slots' := D.FreeSlot(slots, scanBudget), D.Added(slots, name, s, lookupBudget, scanBudget, true).0;
    var kept := Narrow(owned, Rooted(slots') + OpenSectors(inodes));
    assert slots' == slots[k := D.Slot(s, name, true)];
    FreshPair(fm0, owned, s, e, ROOT_DIR_SECTOR);
    assert s !in owned by { assert OwnOk(fm0, owned, s); }
    AllocatedNarrow(fm0, owned, Rooted(slots') + OpenSectors(inodes));
    AllocatedGrow(fm0, kept, s, e);
    NotListedSector(owned, slots, inodes, s);
    NamedAdd(slots, k, name, s);
    LiveAdd(owned, slots, inodes, k, name, s, e);
    OnDiskNarrow(b, owned, Rooted(slots') + OpenSectors(inodes));
    OnDiskGrow(a, b, kept, s, e, owned[ROOT_DIR_SECTOR]);
    ZeroContents(a, b, owned[ROOT_DIR_SECTOR], e);
  }

  lemma OnDiskGrow(a: seq<seq<byte>>, b: seq<seq<byte>>, owned: Owned, s: nat, e: Extent, root: Extent)
    requires OnDisk(b, owned) && FreshOnDisk(a, s, e) && D.OnlyWithin(a, b, root) && !D.InExtent(s, root)
    ensures OnDisk(b, owned[s := e])
  {
    var owned' := owned[s := e];
    assert b[s] == a[s];
    forall t: nat ensures DiskOk(b, owned', t) {
      assert DiskOk(b, owned, t);
    }
  }

  lemma NotListedSector(owned: Owned, slots: seq<D.Slot>, inodes: map<Id, Inode>, s: nat)
    requires Live(owned, slots, inodes) && s !in owned
    ensures s !in Rooted(slots) && forall n :: !D.Lists(slots, n, s)
  {
    forall n ensures !D.Lists(slots, n, s) {
      forall k | 0 <= k < |slots| && slots[k].inUse ensures slots[k].sector != s {
        assert slots[k].sector in Listed(slots);
      }
    }
  }

  lemma ZeroContents(a: seq<seq<byte>>, b: seq<seq<byte>>, r: Extent, e: Extent)
    requires D.OnlyWithin(a, b, r) && Fits(a, e) && NoOverlap(e, r)
    requires forall x :: 0 <= x < |a| && D.InExtent(x, e) ==> a[x] == Zeros()
    ensures Fits(b, e) && Contents(b, e) == seq(e.length, _ => 0)
  {
    forall i | 0 <= i < e.length ensures Contents(b, e)[i] == 0 {
      var p := SECTOR * e.start + i;
      assert D.InExtent(p / SECTOR, e) && !D.InExtent(p / SECTOR, r);
      assert b[p / SECTOR] == a[p / SECTOR] == Zeros();
      assert Contents(b, e)[i] == At(b, p);
    }
  }

  /** A sector and a data extent that are free and do not overlap. */
  ghost predicate NewRegion(fm: seq<bool>, s: nat, e: Extent) {
    && s < |fm| && !fm[s] && e.start + SectorsFor(e.length) <= |fm|
    && RunAt(fm, e.start, SectorsFor(e.length), false) && !D.InExtent(s, e)
  }

  /** The disk holds the inode of a file of zeros. */
  ghost predicate FreshOnDisk(sectors: seq<seq<byte>>, s: nat, e: Extent) {
    && WellFormed(sectors) && s < |sectors| && InodeIn(sectors[s]) == e && Fits(sectors, e)
    && forall x :: 0 <= x < |sectors| && D.InExtent(x, e) ==> sectors[x] == Zeros()
  }

  lemma RegionIsNew(fm: seq<bool>, s: nat, e: Extent)
    requires RunAt(fm, s, 1, false) && RunAt(SetRun(fm, s, 1, true), e.start, SectorsFor(e.length), false)
    ensures NewRegion(fm, s, e)
  {
    var fm1 := SetRun(fm, s, 1, true);
    assert fm1[s];
    forall x: nat | e.start <= x < e.start + SectorsFor(e.length) ensures !fm[x] {
      assert !fm1[x];
    }
  }

  lemma WriteIsFree(a: seq<seq<byte>>, b: seq<seq<byte>>, fm: seq<bool>, s: nat, e: Extent)
    requires WellFormed(a) && WellFormed(b) && |a| == |b| == |fm| && NewRegion(fm, s, e)
    requires forall x :: 0 <= x < |b| && !Occupies(s, e, x) ==> b[x] == a[x]
    ensures OnlyFree(a, b, fm)
  {
    forall x | 0 <= x < |fm| && fm[x] ensures b[x] == a[x] {
      assert !Occupies(s, e, x);
    }
  }

  lemma OpenCountsPositive(inodes: map<Id, Inode>, files: map<Fid, File>, extra: multiset<Id>)
    requires Counted(inodes, files, extra)
    ensures forall i :: i in inodes ==> inodes[i].openCnt > 0
  {
    forall i: nat | i in inodes ensures inodes[i].openCnt > 0 {
      assert IdOk(inodes, files, extra, i);
    }
  }

  /** Opening an inode and closing it again leaves the table as it was. */
  lemma OpenThenClose(inodes: map<Id, Inode>, inodes1: map<Id, Inode>, owned: Owned, id: Id, sector: nat)
    requires Opened(inodes, inodes1, owned, id, sector)
    requires forall i :: i in inodes ==> inodes[i].openCnt > 0
    ensures if inodes1[id].openCnt > 1 then inodes1[id := inodes1[id].(openCnt := inodes1[id].openCnt - 1)] == inodes
            else inodes1 - {id} == inodes
  {
  }

  /** A byte sequence with the slice at `at` replaced by `d`. */
  function Spliced(c: seq<byte>, at: nat, d: seq<byte>): seq<byte>
    requires at + |d| <= |c|
  {
    c[..at] + d + c[at + |d|..]
  }

  /** A write inside file `s` patches its bytes and leaves every inode and every other file as it was. */
  lemma WriteOutcome(a: seq<seq<byte>>, b: seq<seq<byte>>, fm: seq<bool>, owned: Owned, s: nat, offset: nat,
                     d: seq<byte>)
    requires OnDisk(a, owned) && Allocated(fm, owned) && s in owned && offset + |d| <= owned[s].length &&
             Fits(a, owned[s])
    requires Updated(a, b, SECTOR * owned[s].start + offset, d)
    ensures OnDisk(b, owned) && Contents(b, owned[s]) == Spliced(Contents(a, owned[s]), offset, d)
    ensures OthersSame(a, b, owned, s)
  {
    D.UpdateOnlyWithin(a, b, owned[s], offset, d);
    UpdateWithin(a, b, owned[s], offset, d);
    OnDiskFrame(a, b, fm, owned, s);
    forall t: nat | t != s ensures Kept(a, b, owned, t) {
      if t in owned {
        OthersKeep(a, b, fm, owned, s, t);
      }
    }
  }

  /** What `inode_open` of a live sector does to the table: one more reference to its only inode. */
  ghost predicate Opened(inodes: map<Id, Inode>, inodes': map<Id, Inode>, owned: Owned, id: Id, sector: nat) {
    && id in inodes' && inodes'[id].sector == sector && !inodes'[id].removed && sector in owned
    && (if id in inodes then inodes' == inodes[id := inodes[id].(openCnt := inodes[id].openCnt + 1)]
        else sector !in OpenSectors(inodes) && inodes' == inodes[id := Inode(sector, 1, false, 0, owned[sector])])
  }

  /**
   What `inode_close` does: one reference less, or the structure goes, and with it a removed
   file's sectors. The sectors of a file that lost its name without being removed stay marked.
   */
  ghost predicate Closed(fm: seq<bool>, inodes: map<Id, Inode>, owned: Owned, slots: seq<D.Slot>,
                         fm': seq<bool>, inodes': map<Id, Inode>, owned': Owned, id: Id)
  {
    id in inodes &&
    var inode := inodes[id];
    if inode.openCnt > 1 then
      inodes' == inodes[id := inode.(openCnt := inode.openCnt - 1)] && owned' == owned && fm' == fm
    else
      inodes' == inodes - {id} && Freed(fm, owned, slots, fm', owned', inode)
  }

  /** What the end of its last in-memory inode means for a file. */
  ghost predicate Freed(fm: seq<bool>, owned: Owned, slots: seq<D.Slot>, fm': seq<bool>, owned': Owned, inode: Inode) {
    if inode.removed then
      && owned' == owned - {inode.sector} && inode.sector < |fm| &&
        inode.data.start + SectorsFor(inode.data.length) <= |fm|
      && fm' == Release(fm, inode.sector, inode.data)
    else
      fm' == fm && owned' == if inode.sector in Rooted(slots) then owned else owned - {inode.sector}
  }

  /**
   A handle's departure: the last one takes the in-memory inode with it, and a removed file's
   sectors; any other only counts down.
   */
  ghost predicate Departed(fm: seq<bool>, inodes: map<Id, Inode>, owned: Owned, slots: seq<D.Slot>,
                           fm': seq<bool>, inodes': map<Id, Inode>, owned': Owned, id: Id)
  {
    id in inodes &&
    var inode := inodes[id];
    && inodes'.Keys == (if inode.openCnt > 1 then inodes.Keys else inodes.Keys - {id})
    && (forall i :: i in inodes' ==> inodes'[i].sector == inodes[i].sector && inodes'[i].removed == inodes[i].removed)
    && if inode.openCnt <= 1 then Freed(fm, owned, slots, fm', owned', inode) else owned' == owned && fm' == fm
  }

  /** Withdrawing the handle's write denial first makes no difference. */
  lemma ClosedDeparts(fm: seq<bool>, inodes: map<Id, Inode>, mid: map<Id, Inode>, owned: Owned, slots: seq<D.Slot>,
                      fm': seq<bool>, inodes': map<Id, Inode>, owned': Owned, id: Id)
    requires mid.Keys == inodes.Keys && forall i :: i in mid ==>
               mid[i] == inodes[i].(denyWriteCnt := mid[i].denyWriteCnt)
    requires id in inodes && Closed(fm, mid, owned, slots, fm', inodes', owned', id)
    ensures Departed(fm, inodes, owned, slots, fm', inodes', owned', id)
  {
  }

  // ---- the list of open inodes and the heap ------------------------------------------------

  ghost predicate Linked(openList: seq<Id>, inodes: map<Id, Inode>, id: Id) {
    id in openList <==> id in inodes
  }

  ghost predicate NoDup(q: seq<Id>) {
    forall i, j :: 0 <= i < j < |q| ==> q[i] != q[j]
  }

  /** Addresses from `next` on are unused. */
  ghost predicate Allocatable(inodes: map<Id, Inode>, files: map<Fid, File>, next: nat, a: nat) {
    a in inodes || a in files ==> a < next
  }

  /** `open_inodes` lists each in-memory inode once. */
  ghost predicate Listing(openList: seq<Id>, inodes: map<Id, Inode>, files: map<Fid, File>, next: nat) {
    && (forall id: nat :: Linked(openList, inodes, id)) && NoDup(openList)
    && (forall a: nat :: Allocatable(inodes, files, next, a))
  }

  lemma FreshAddress(openList: seq<Id>, inodes: map<Id, Inode>, files: map<Fid, File>, next: nat)
    requires Listing(openList, inodes, files, next)
    ensures next !in inodes && next !in files
  {
    assert Allocatable(inodes, files, next, next);
  }

  lemma ListSame(openList: seq<Id>, inodes: map<Id, Inode>, files: map<Fid, File>, next: nat, inodes': map<Id, Inode>,
                 files': map<Fid, File>)
    requires Listing(openList, inodes, files, next)
    requires inodes'.Keys == inodes.Keys && files'.Keys <= files.Keys
    ensures Listing(openList, inodes', files', next)
  {
    forall id: nat ensures Linked(openList, inodes', id) {
      assert Linked(openList, inodes, id);
    }
    forall a: nat ensures Allocatable(inodes', files', next, a) {
      assert Allocatable(inodes, files, next, a);
    }
  }

  /** A search that met every listed inode without finding the sector has met them all. */
  lemma NotListed(openList: seq<Id>, inodes: map<Id, Inode>, files: map<Fid, File>, next: nat, sector: nat)
    requires Listing(openList, inodes, files, next)
    requires forall k :: 0 <= k < |openList| ==> openList[k] in inodes && inodes[openList[k]].sector != sector
    ensures forall id :: id in inodes ==> inodes[id].sector != sector
    ensures sector !in OpenSectors(inodes)
  {
    forall id | id in inodes ensures inodes[id].sector != sector {
      assert Linked(openList, inodes, id);
      var k :| 0 <= k < |openList| && openList[k] == id;
    }
  }

  lemma HeapGrow(openList: seq<Id>, inodes: map<Id, Inode>, files: map<Fid, File>, next: nat, next': nat, file: File)
    requires next' == next + 1 && Listing(openList, inodes, files, next)
    ensures Listing(openList, inodes, files[next := file], next')
  {
    var files' := files[next := file];
    forall a: nat ensures Allocatable(inodes, files', next', a) {
      assert Allocatable(inodes, files, next, a);
    }
  }

  lemma ListPush(openList: seq<Id>, inodes: map<Id, Inode>, files: map<Fid, File>, next: nat, next': nat, inode: Inode)
    requires next' == next + 1 && Listing(openList, inodes, files, next)
    ensures Listing([next] + openList, inodes[next := inode], files, next')
  {
    var inodes', list' := inodes[next := inode], [next] + openList;
    assert Allocatable(inodes, files, next, next) && Linked(openList, inodes, next);
    forall id: nat ensures Linked(list', inodes', id) {
      assert Linked(openList, inodes, id);
    }
    forall a: nat ensures Allocatable(inodes', files, next', a) {
      assert Allocatable(inodes, files, next, a);
    }
  }

  lemma ListRemove(openList: seq<Id>, inodes: map<Id, Inode>, files: map<Fid, File>, next: nat, id: Id)
    requires Listing(openList, inodes, files, next)
    ensures Listing(Without(openList, id), inodes - {id}, files, next)
  {
    var inodes', list' := inodes - {id}, Without(openList, id);
    WithoutMembers(openList, id);
    forall i: nat ensures Linked(list', inodes', i) {
      assert Linked(openList, inodes, i);
    }
    forall a: nat ensures Allocatable(inodes', files, next, a) {
      assert Allocatable(inodes, files, next, a);
    }
  }

  /** `list_remove` */
  function Without(q: seq<Id>, id: Id): seq<Id> {
    if q == [] then [] else (if q[0] == id then [] else [q[0]]) + Without(q[1..], id)
  }

  lemma {:induction false} WithoutMembers(q: seq<Id>, id: Id)
    ensures forall x :: x in Without(q, id) <==> x in q && x != id
    ensures NoDup(q) ==> NoDup(Without(q, id))
  {
    if q != [] {
      WithoutMembers(q[1..], id);
      assert q == [q[0]] + q[1..];
      if NoDup(q) {
        assert q[0] !in q[1..];
      }
    }
  }

  lemma OnDiskShrink(sectors: seq<seq<byte>>, owned: Owned, s: nat)
    requires OnDisk(sectors, owned)
    ensures OnDisk(sectors, owned - {s})
  {
    forall t: nat ensures DiskOk(sectors, owned - {s}, t) {
      assert DiskOk(sectors, owned, t);
    }
  }

  // ---- formatting -----------------------------------------------------------------------------

  /** First fit for the free map file, then for the root directory's 16 slots, right after the two inode sectors. */
  function FormatFreeMap(fm: seq<bool>): Extent {
    var size := FreeMapBytes(|fm|);
    Extent(match FirstFit(fm, 0, SectorsFor(size), false) case Some(x) => x case None => 0, size)
  }

  function FormatRoot(fm: seq<bool>): Extent {
    var e0 := FormatFreeMap(fm);
    var fm1 := if e0.start + SectorsFor(e0.length) <= |fm| then SetRun(fm, e0.start, SectorsFor(e0.length), true)
        else fm;
    Extent(match FirstFit(fm1, 0, 1, false) case Some(x) => x case None => 0, 16 * D.SLOT)
  }

  /** In a map marked exactly below `m`, the first fit is at `m`. */
  lemma FirstFitAfter(fm: seq<bool>, m: nat, cnt: nat)
    requires cnt > 0 && m + cnt <= |fm| && forall i :: 0 <= i < |fm| ==> (fm[i] <==> i < m)
    ensures FirstFit(fm, 0, cnt, false) == Some(m)
  {
    FirstFitIsLeast(fm, 0, cnt, false);
    assert RunAt(fm, m, cnt, false);
    var r := FirstFit(fm, 0, cnt, false).value;
    assert !fm[r];
  }

  lemma FormatLayout(n: nat, fm: seq<bool>)
    requires 3 + SectorsFor(FreeMapBytes(n)) <= n && |fm| == n
    requires forall i :: 0 <= i < n ==> (fm[i] <==> i <= ROOT_DIR_SECTOR)
    ensures var k := SectorsFor(FreeMapBytes(n));
            && FormatFreeMap(fm) == Extent(2, FreeMapBytes(n)) && FormatRoot(fm) == Extent(2 + k, 16 * D.SLOT)
            && SectorsFor(16 * D.SLOT) == 1
            && Allocated(SetRun(SetRun(fm, 2, k, true), 2 + k, 1, true),
                         map[FREE_MAP_SECTOR := FormatFreeMap(fm), ROOT_DIR_SECTOR := FormatRoot(fm)])
  {
    var k := SectorsFor(FreeMapBytes(n));
    assert k > 0;
    FirstFitAfter(fm, 2, k);
    var fm1 := SetRun(fm, 2, k, true);
    FirstFitAfter(fm1, 2 + k, 1);
    var e0, e1 := FormatFreeMap(fm), FormatRoot(fm);
    var owned := map[FREE_MAP_SECTOR := e0, ROOT_DIR_SECTOR := e1];
    var fm2 := SetRun(fm1, 2 + k, 1, true);
    forall s: nat ensures OwnOk(fm2, owned, s) { }
    forall s: nat, t: nat ensures PairOk(owned, s, t) { }
  }

  /** A directory of zero bytes has no entries. */
  lemma FormatDirectory(sectors: seq<seq<byte>>, e: Extent)
    requires WellFormed(sectors) && Fits(sectors, e) && e.length == 16 * D.SLOT
    requires forall x :: 0 <= x < |sectors| && D.InExtent(x, e) ==> sectors[x] == Zeros()
    ensures var slots := D.Slots(sectors, e);
            |slots| == 16 && (forall k :: 0 <= k < |slots| ==> !slots[k].inUse) && Named(slots) &&
              Listed(slots) == {} && D.UniqueNames(slots)
  {
    var slots := D.Slots(sectors, e);
    var c := Contents(sectors, e);
    forall k | 0 <= k < |slots| ensures !slots[k].inUse {
      var p := SECTOR * e.start + D.SLOT * k + 19;
      assert p / SECTOR == e.start && D.InExtent(p / SECTOR, e);
      assert c[D.SLOT * k + 19] == At(sectors, p) == 0;
      assert c[D.SLOT * k..D.SLOT * k + D.SLOT][19] == c[D.SLOT * k + 19];
    }
  }

  lemma FormatTable(e0: Extent, e1: Extent, slots: seq<D.Slot>)
    requires Listed(slots) == {}
    ensures Counted(map[0 := Inode(FREE_MAP_SECTOR, 1, false, 0, e0)], map[1 := File(0, 0, false)], multiset{})
    ensures Live(map[FREE_MAP_SECTOR := e0, ROOT_DIR_SECTOR := e1], slots,
              map[0 := Inode(FREE_MAP_SECTOR, 1, false, 0, e0)])
  {
    var inodes, files := map[0 := Inode(FREE_MAP_SECTOR, 1, false, 0, e0)], map[1 := File(0, 0, false)];
    assert Users(files, 0) == {1} && Deniers(files, 0) == {};
    OpenSectorsUpdate(map[], 0, inodes[0]);
    assert inodes == map[][0 := inodes[0]] && OpenSectors(map[]) == {};
    forall id: nat ensures IdOk(inodes, files, multiset{}, id) { }
    forall f: nat ensures FileOk(inodes, files, f) { }
    forall i: nat, j: nat ensures DistinctOk(inodes, i, j) { }
    var owned := map[FREE_MAP_SECTOR := e0, ROOT_DIR_SECTOR := e1];
    forall id: nat ensures LiveOk(owned, slots, inodes, id) { }
  }

  /** What formatting leaves, part by part. */
  lemma Formatted(fm: seq<bool>, sectors: seq<seq<byte>>, e0: Extent, e1: Extent)
    requires |sectors| == |fm| && 3 + SectorsFor(FreeMapBytes(|fm|)) <= |fm| &&
             (forall i :: 0 <= i < |fm| ==> (fm[i] <==> i <= ROOT_DIR_SECTOR))
    requires e0 == Extent(2, FreeMapBytes(|fm|)) && e1 == Extent(2 + SectorsFor(FreeMapBytes(|fm|)), 16 * D.SLOT)
    requires WellFormed(sectors) && InodeIn(sectors[0]) == e0 && InodeIn(sectors[1]) == e1
    requires forall x :: 0 <= x < |sectors| && D.InExtent(x, e1) ==> sectors[x] == Zeros()
    ensures var owned := map[FREE_MAP_SECTOR := e0, ROOT_DIR_SECTOR := e1];
            var inodes := map[0 := Inode(FREE_MAP_SECTOR, 1, false, 0, e0)];
            && SectorsFor(e1.length) == 1 && Fits(sectors, e1) && OnDisk(sectors, owned)
            && Listing([0], inodes, map[1 := File(0, 0, false)], 2) &&
              Counted(inodes, map[1 := File(0, 0, false)], multiset{})
            && var slots := D.Slots(sectors, e1);
            && Named(slots) && Live(owned, slots, inodes) && D.UniqueNames(slots) && RemovedExact(slots, inodes)
            && |slots| == 16 && (forall k :: 0 <= k < |slots| ==> !slots[k].inUse)
    ensures var k := SectorsFor(FreeMapBytes(|fm|));
            var fm2 := SetRun(SetRun(fm, 2, k, true), 2 + k, 1, true);
            forall x :: 0 <= x < |fm2| ==> (fm2[x] <==> x < 3 + k)
  {
    hide InodeIn, D.Slots;
    var owned := map[FREE_MAP_SECTOR := e0, ROOT_DIR_SECTOR := e1];
    var inodes, files := map[0 := Inode(FREE_MAP_SECTOR, 1, false, 0, e0)], map[1 := File(0, 0, false)];
    FormatDirectory(sectors, e1);
    FormatTable(e0, e1, D.Slots(sectors, e1));
    forall s: nat ensures DiskOk(sectors, owned, s) { }
    forall id: nat ensures Linked([0], inodes, id) { }
    forall a: nat ensures Allocatable(inodes, files, 2, a) { }
  }

  /** Size of the free map file: one bit per sector, in 32-bit words. */
  function FreeMapBytes(n: nat): nat {
    4 * ((n + 31) / 32)
  }

  /** The disk writes of `inode_create`: the inode itself, and zeros over its data. */
  method WriteInode(dev: Device, s: nat, e: Extent)
    requires dev.Valid() && s < |dev.sectors| && Fits(dev.sectors, e) && e.start < 0x1_0000_0000 &&
             e.length < 0x8000_0000
    requires !D.InExtent(s, e)
    modifies dev
    ensures dev.Valid() && |dev.sectors| == |old(dev.sectors)|
    ensures dev.sectors[s] == InodeBytes(e)
    ensures forall x :: 0 <= x < |dev.sectors| && D.InExtent(x, e) ==> dev.sectors[x] == Zeros()
    ensures forall x :: 0 <= x < |dev.sectors| && !Occupies(s, e, x) ==> dev.sectors[x] == old(dev.sectors)[x]
  {
    dev.BlockWrite(s, InodeBytes(e));
    var i := 0;
    while i < SectorsFor(e.length)
      invariant 0 <= i <= SectorsFor(e.length) && dev.Valid() && |dev.sectors| == |old(dev.sectors)|
      invariant dev.sectors[s] == InodeBytes(e)
      invariant forall x :: e.start <= x < e.start + i ==> dev.sectors[x] == Zeros()
      invariant forall x :: 0 <= x < |dev.sectors| && !Occupies(s, e, x) ==> dev.sectors[x] == old(dev.sectors)[x]
    {
      dev.BlockWrite(e.start + i, Zeros());
      i := i + 1;
    }
  }

  function Zeros(): (z: seq<byte>)
    ensures |z| == SECTOR
  {
    seq(SECTOR, _ => 0)
  }
}
