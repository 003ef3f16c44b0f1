/**
 The parts of the file system's invariant, each over plain values, with the lemmas that the
 operations use to keep them:

   Allocated   which sectors each live file owns, and that the free map marks them
   OnDisk      inode sectors hold what the owner table says
   Counted     in-memory inodes against the handles that refer to them
   Named       the root directory against the owner table
   Live        which files are alive: the two system files, the listed ones and the open ones
 */
module FsModel {
  import opened Bytes
  import opened InodeIo
  import opened Options
  import opened Sets
  import opened Runs
  import D = Directory

  const FREE_MAP_SECTOR: nat := 0
  const ROOT_DIR_SECTOR: nat := 1
  const INODE_MAGIC: nat := 0x494e4f44

  type Id = nat     // an in-memory inode (a pointer)
  type Fid = nat    // an open file (a pointer)

  datatype Inode = Inode(sector: nat, openCnt: nat, removed: bool, denyWriteCnt: nat, data: Extent)

  datatype File = File(inode: Id, pos: nat, denyWrite: bool)

  /** Live files, by inode sector. */
  type Owned = map<nat, Extent>

  // ---- Allocated -----------------------------------------------------------------------------

  predicate Occupies(s: nat, e: Extent, x: nat) {
    x == s || D.InExtent(x, e)
  }

  /** File `s` has its sectors inside the device, marked, and its inode sector apart from its data. */
  ghost predicate OwnOk(fm: seq<bool>, owned: Owned, s: nat) {
    s in owned ==>
      && s < |fm| && fm[s] && !D.InExtent(s, owned[s]) && owned[s].start + SectorsFor(owned[s].length) <= |fm|
      && forall x: nat :: D.InExtent(x, owned[s]) ==> fm[x]
  }

  /** Files `s` and `t` share no sector. */
  ghost predicate PairOk(owned: Owned, s: nat, t: nat) {
    s in owned && t in owned && s != t ==>
        !D.InExtent(s, owned[t]) && !D.InExtent(t, owned[s]) && NoOverlap(owned[s], owned[t])
  }

  predicate NoOverlap(a: Extent, b: Extent) {
    D.Apart(a, b) || SectorsFor(a.length) == 0 || SectorsFor(b.length) == 0
  }

  ghost predicate Allocated(fm: seq<bool>, owned: Owned) {
    && (forall s: nat :: OwnOk(fm, owned, s))
    && (forall s: nat, t: nat :: PairOk(owned, s, t))
  }

  /** Sectors free in `fm` are not in any live file, so a file made of them overlaps none. */
  lemma FreshPair(fm: seq<bool>, owned: Owned, s: nat, e: Extent, t: nat)
    requires Allocated(fm, owned) && t in owned
    requires s < |fm| && !fm[s] && RunAt(fm, e.start, SectorsFor(e.length), false)
    ensures s != t && !D.InExtent(s, owned[t]) && !D.InExtent(t, e) && NoOverlap(e, owned[t])
  {
    assert OwnOk(fm, owned, t);
    var b := owned[t];
    if SectorsFor(e.length) > 0 && SectorsFor(b.length) > 0 {
      var x := if e.start < b.start then b.start else e.start;
      assert D.InExtent(x, b) ==> fm[x];
    }
  }

  /** A file made of sectors that were free. */
  lemma AllocatedGrow(fm: seq<bool>, owned: Owned, s: nat, e: Extent)
    requires Allocated(fm, owned) && s < |fm| && !fm[s] && RunAt(fm, e.start, SectorsFor(e.length), false) &&
             !D.InExtent(s, e)
    ensures s !in owned && Allocated(Acquire(fm, s, e), owned[s := e])
  {
    var fm', owned' := Acquire(fm, s, e), owned[s := e];
    assert OwnOk(fm, owned, s);
    forall t: nat ensures OwnOk(fm', owned', t) {
      assert OwnOk(fm, owned, t);
    }
    forall t: nat, u: nat ensures PairOk(owned', t, u) {
      assert PairOk(owned, t, u);
      if t in owned { FreshPair(fm, owned, s, e, t); }
      if u in owned { FreshPair(fm, owned, s, e, u); }
    }
  }

  /** Giving back what one file owned takes nothing from another. */
  lemma AllocatedShrink(fm: seq<bool>, owned: Owned, s: nat)
    requires Allocated(fm, owned) && s in owned
    ensures OwnOk(fm, owned, s) && Allocated(Release(fm, s, owned[s]), owned - {s})
    ensures RunAt(fm, s, 1, true) && RunAt(SetRun(fm, s, 1, false), owned[s].start, SectorsFor(owned[s].length), true)
  {
    var e := owned[s];
    assert OwnOk(fm, owned, s);
    forall x: nat | e.start <= x < e.start + SectorsFor(e.length) ensures fm[x] && x != s {
      assert D.InExtent(x, e);
    }
    forall t: nat ensures OwnOk(Release(fm, s, e), owned - {s}, t) {
      assert OwnOk(fm, owned, t) && PairOk(owned, s, t);
    }
    forall t: nat, u: nat ensures PairOk(owned - {s}, t, u) {
      assert PairOk(owned, t, u);
    }
  }

  /** A file that dies without giving its sectors back takes nothing from another either. */
  lemma AllocatedDrop(fm: seq<bool>, owned: Owned, s: nat)
    requires Allocated(fm, owned)
    ensures Allocated(fm, owned - {s})
  {
    forall t: nat ensures OwnOk(fm, owned - {s}, t) {
      assert OwnOk(fm, owned, t);
    }
    forall t: nat, u: nat ensures PairOk(owned - {s}, t, u) {
      assert PairOk(owned, t, u);
    }
  }

  lemma AllocatedMono(fm: seq<bool>, owned: Owned, fm': seq<bool>)
    requires Allocated(fm, owned) && |fm'| == |fm| && forall x :: 0 <= x < |fm| && fm[x] ==> fm'[x]
    ensures Allocated(fm', owned)
  {
    forall s: nat ensures OwnOk(fm', owned, s) {
      assert OwnOk(fm, owned, s);
    }
  }

  /** The free map once a file is taken, and once it is given back. */
  function Acquire(fm: seq<bool>, s: nat, e: Extent): (r: seq<bool>)
    requires s < |fm| && e.start + SectorsFor(e.length) <= |fm|
    ensures |r| == |fm|
  {
    SetRun(SetRun(fm, s, 1, true), e.start, SectorsFor(e.length), true)
  }

  function Release(fm: seq<bool>, s: nat, e: Extent): (r: seq<bool>)
    requires s < |fm| && e.start + SectorsFor(e.length) <= |fm|
    ensures |r| == |fm|
  {
    SetRun(SetRun(fm, s, 1, false), e.start, SectorsFor(e.length), false)
  }

  /** Taking free sectors and giving them back restores the free map exactly. */
  lemma AcquireRelease(fm: seq<bool>, s: nat, e: Extent)
    requires s < |fm| && !fm[s] && RunAt(fm, e.start, SectorsFor(e.length), false)
    ensures Release(Acquire(fm, s, e), s, e) == fm
  {
  }

  // ---- OnDisk --------------------------------------------------------------------------------

  /** The inode stored in a sector. */
  function InodeIn(b: seq<byte>): Extent
    requires |b| == SECTOR
  {
    Extent(Le32(b[..4]), Le32(b[4..8]))
  }

  /** The bytes of a fresh on-disk inode. */
  function InodeBytes(e: Extent): (b: seq<byte>)
    requires e.start < 0x1_0000_0000 && e.length < 0x8000_0000
    ensures |b| == SECTOR && InodeIn(b) == e
  {
    var b := ToLe32(e.start) + ToLe32(e.length) + ToLe32(INODE_MAGIC) + seq(SECTOR - 12, _ => 0);
    assert b[..4] == ToLe32(e.start) && b[4..8] == ToLe32(e.length);
    b
  }

  /** On disk an inode is its first sector, its length, the letters DONI ("INOD" as a word) and zeros. */
  lemma InodeLayout(e: Extent)
    requires e.start < 0x1_0000_0000 && e.length < 0x8000_0000
    ensures var b := InodeBytes(e);
            b[..4] == ToLe32(e.start) && b[4..8] == ToLe32(e.length) && b[8..12] == [0x44, 0x4f, 0x4e, 0x49] &&
            forall k :: 12 <= k < 512 ==> b[k] == 0
  {
    hide InodeIn, Le32;
    assert ToLe32(INODE_MAGIC) == [0x44, 0x4f, 0x4e, 0x49];
  }

  ghost predicate DiskOk(sectors: seq<seq<byte>>, owned: Owned, s: nat)
    requires WellFormed(sectors)
  {
    s in owned ==> s < |sectors| && InodeIn(sectors[s]) == owned[s] && Fits(sectors, owned[s])
  }

  ghost predicate OnDisk(sectors: seq<seq<byte>>, owned: Owned) {
    WellFormed(sectors) && forall s: nat :: DiskOk(sectors, owned, s)
  }

  /** Changing sectors that belong to one file's data leaves every inode sector alone. */
  lemma OnDiskFrame(sectors: seq<seq<byte>>, sectors': seq<seq<byte>>, fm: seq<bool>, owned: Owned, t: nat)
    requires OnDisk(sectors, owned) && Allocated(fm, owned) && t in owned && D.OnlyWithin(sectors, sectors', owned[t])
    ensures OnDisk(sectors', owned)
  {
    forall s: nat ensures DiskOk(sectors', owned, s) {
      assert DiskOk(sectors, owned, s) && OwnOk(fm, owned, s) && PairOk(owned, s, t);
    }
  }

  /** File `t` has the same bytes on both devices. */
  ghost predicate Kept(a: seq<seq<byte>>, b: seq<seq<byte>>, owned: Owned, t: nat) {
    t in owned ==>
      && WellFormed(a) && WellFormed(b) && Fits(a, owned[t]) && Fits(b, owned[t])
      && Contents(b, owned[t]) == Contents(a, owned[t])
  }

  /** So a write to one file changes no byte of another. */
  lemma OthersKeep(sectors: seq<seq<byte>>, sectors': seq<seq<byte>>, fm: seq<bool>, owned: Owned, t: nat, s: nat)
    requires OnDisk(sectors, owned) && Allocated(fm, owned) && t in owned && s in owned && s != t
    requires D.OnlyWithin(sectors, sectors', owned[t])
    ensures Kept(sectors, sectors', owned, s)
  {
    assert DiskOk(sectors, owned, s) && PairOk(owned, s, t);
    if SectorsFor(owned[t].length) == 0 {
      assert sectors' == sectors;
    } else if SectorsFor(owned[s].length) > 0 {
      D.ApartKeeps(sectors, sectors', owned[t], owned[s]);
    }
  }

  /** Writing sectors that were free disturbs no live file. */
  ghost predicate OnlyFree(sectors: seq<seq<byte>>, sectors': seq<seq<byte>>, fm: seq<bool>) {
    && WellFormed(sectors) && WellFormed(sectors') && |sectors'| == |sectors| == |fm|
    && forall x :: 0 <= x < |fm| && fm[x] ==> sectors'[x] == sectors[x]
  }

  lemma FreeWrites(sectors: seq<seq<byte>>, sectors': seq<seq<byte>>, fm: seq<bool>, owned: Owned)
    requires OnDisk(sectors, owned) && Allocated(fm, owned) && OnlyFree(sectors, sectors', fm)
    ensures OnDisk(sectors', owned)
  {
    forall s: nat ensures DiskOk(sectors', owned, s) {
      assert DiskOk(sectors, owned, s) && OwnOk(fm, owned, s);
    }
  }

  lemma FreeWritesKeep(sectors: seq<seq<byte>>, sectors': seq<seq<byte>>, fm: seq<bool>, owned: Owned, s: nat)
    requires OnDisk(sectors, owned) && Allocated(fm, owned) && OnlyFree(sectors, sectors', fm) && s in owned
    ensures Kept(sectors, sectors', owned, s)
  {
    var e := owned[s];
    assert DiskOk(sectors, owned, s) && OwnOk(fm, owned, s);
    forall i | 0 <= i < e.length ensures Contents(sectors', e)[i] == Contents(sectors, e)[i] {
      var p := SECTOR * e.start + i;
      assert D.InExtent(p / SECTOR, e);
      assert sectors'[p / SECTOR] == sectors[p / SECTOR];
      assert At(sectors', p) == At(sectors, p);
    }
  }

  // ---- Counted -------------------------------------------------------------------------------

  function Users(files: map<Fid, File>, id: Id): set<Fid> {
    set f | f in files && files[f].inode == id
  }

  function Deniers(files: map<Fid, File>, id: Id): set<Fid> {
    set f | f in files && files[f].inode == id && files[f].denyWrite
  }

  /** An in-memory inode counts its handles, plus the references that calls in progress hold. */
  ghost predicate IdOk(inodes: map<Id, Inode>, files: map<Fid, File>, extra: multiset<Id>, id: Id) {
    && (id in extra ==> id in inodes)
    && (id in inodes ==>
         && inodes[id].openCnt == |Users(files, id)| + extra[id] && inodes[id].openCnt > 0
         && inodes[id].denyWriteCnt == |Deniers(files, id)|)
  }

  /** A handle has its inode, which is not the root directory's: `filesys_open` opens only what has a name. */
  ghost predicate FileOk(inodes: map<Id, Inode>, files: map<Fid, File>, f: Fid) {
    f in files ==> files[f].inode in inodes && inodes[files[f].inode].sector != ROOT_DIR_SECTOR
  }

  ghost predicate DistinctOk(inodes: map<Id, Inode>, i: Id, j: Id) {
    i in inodes && j in inodes && inodes[i].sector == inodes[j].sector ==> i == j
  }

  ghost predicate Counted(inodes: map<Id, Inode>, files: map<Fid, File>, extra: multiset<Id>) {
    && (forall id: nat :: IdOk(inodes, files, extra, id))
    && (forall f: nat :: FileOk(inodes, files, f))
    && (forall i: nat, j: nat :: DistinctOk(inodes, i, j))
  }

  lemma UsersAdd(files: map<Fid, File>, f: Fid, file: File, id: Id)
    requires f !in files && !file.denyWrite
    ensures |Users(files[f := file], id)| == |Users(files, id)| + if file.inode == id then 1 else 0
    ensures Deniers(files[f := file], id) == Deniers(files, id)
  {
    assert Users(files[f := file], id) == Users(files, id) + (if file.inode == id then {f} else {});
    assert f !in Users(files, id);
  }

  lemma UsersRemove(files: map<Fid, File>, f: Fid, id: Id)
    requires f in files
    ensures Users(files - {f}, id) == Users(files, id) - {f}
    ensures Deniers(files - {f}, id) == Deniers(files, id) - {f}
    ensures f in Users(files, id) <==> files[f].inode == id
    ensures f in Deniers(files, id) <==> files[f].inode == id && files[f].denyWrite
  {
  }

  /** So nobody denies writes to the root directory. */
  lemma RootUndenied(inodes: map<Id, Inode>, files: map<Fid, File>, extra: multiset<Id>, id: Id)
    requires Counted(inodes, files, extra) && id in inodes && inodes[id].sector == ROOT_DIR_SECTOR
    ensures inodes[id].denyWriteCnt == 0
  {
    assert IdOk(inodes, files, extra, id);
    forall f: nat | f in files ensures files[f].inode != id {
      assert FileOk(inodes, files, f);
    }
    assert Deniers(files, id) == {};
  }

  /** A reference held by a call becomes a file handle. */
  lemma CountedHandOver(inodes: map<Id, Inode>, files: map<Fid, File>, extra: multiset<Id>, f: Fid, id: Id)
    requires Counted(inodes, files, extra) && id in extra && f !in files && id in inodes &&
             inodes[id].sector != ROOT_DIR_SECTOR
    ensures Counted(inodes, files[f := File(id, 0, false)], extra - multiset{id})
  {
    var files', extra' := files[f := File(id, 0, false)], extra - multiset{id};
    forall i: nat ensures IdOk(inodes, files', extra', i) {
      assert IdOk(inodes, files, extra, i);
      UsersAdd(files, f, File(id, 0, false), i);
      assert extra'[i] == extra[i] - if i == id then 1 else 0;
    }
    forall g: nat ensures FileOk(inodes, files', g) {
      assert FileOk(inodes, files, g) && IdOk(inodes, files, extra, id);
    }
  }

  /** And back, when the handle is destroyed (its write denial already withdrawn). */
  lemma CountedTakeBack(inodes: map<Id, Inode>, files: map<Fid, File>, extra: multiset<Id>, f: Fid)
    requires Counted(inodes, files, extra) && f in files && !files[f].denyWrite
    ensures Counted(inodes, files - {f}, extra + multiset{files[f].inode})
  {
    var extra' := extra + multiset{files[f].inode};
    assert FileOk(inodes, files, f);
    forall i: nat ensures IdOk(inodes, files - {f}, extra', i) {
      assert IdOk(inodes, files, extra, i);
      UsersRemove(files, f, i);
      assert extra'[i] == extra[i] + if i == files[f].inode then 1 else 0;
    }
    forall g: nat ensures FileOk(inodes, files - {f}, g) {
      assert FileOk(inodes, files, g);
    }
  }

  /** `inode_reopen` */
  lemma CountedReopen(inodes: map<Id, Inode>, files: map<Fid, File>, extra: multiset<Id>, id: Id)
    requires Counted(inodes, files, extra) && id in inodes
    ensures Counted(inodes[id := inodes[id].(openCnt := inodes[id].openCnt + 1)], files, extra + multiset{id})
  {
    var inodes', extra' := inodes[id := inodes[id].(openCnt := inodes[id].openCnt + 1)], extra + multiset{id};
    forall i: nat ensures IdOk(inodes', files, extra', i) {
      assert IdOk(inodes, files, extra, i);
      assert extra'[i] == extra[i] + if i == id then 1 else 0;
    }
    SameKeys(inodes, inodes', files);
  }

  /** Handles and distinctness look at keys and sectors only. */
  lemma SameKeys(inodes: map<Id, Inode>, inodes': map<Id, Inode>, files: map<Fid, File>)
    requires forall f: nat :: FileOk(inodes, files, f)
    requires forall i: nat, j: nat :: DistinctOk(inodes, i, j)
    requires inodes'.Keys == inodes.Keys && forall i :: i in inodes ==> inodes'[i].sector == inodes[i].sector
    ensures (forall f: nat :: FileOk(inodes', files, f)) && forall i: nat, j: nat :: DistinctOk(inodes', i, j)
  {
    forall f: nat ensures FileOk(inodes', files, f) {
      assert FileOk(inodes, files, f);
    }
    forall i: nat, j: nat ensures DistinctOk(inodes', i, j) {
      assert DistinctOk(inodes, i, j);
    }
  }

  /** A new in-memory inode for a sector that has none. */
  lemma CountedNew(inodes: map<Id, Inode>, files: map<Fid, File>, extra: multiset<Id>, id: Id, sector: nat,
                   data: Extent)
    requires Counted(inodes, files, extra) && id !in inodes
    requires forall i :: i in inodes ==> inodes[i].sector != sector
    ensures Counted(inodes[id := Inode(sector, 1, false, 0, data)], files, extra + multiset{id})
  {
    var inodes', extra' := inodes[id := Inode(sector, 1, false, 0, data)], extra + multiset{id};
    forall f: nat ensures FileOk(inodes', files, f) && (f in files ==> files[f].inode != id) {
      assert FileOk(inodes, files, f);
    }
    assert Users(files, id) == {} && Deniers(files, id) == {};
    forall i: nat ensures IdOk(inodes', files, extra', i) {
      assert IdOk(inodes, files, extra, i);
      assert extra'[i] == extra[i] + if i == id then 1 else 0;
    }
    forall i: nat, j: nat ensures DistinctOk(inodes', i, j) {
      assert DistinctOk(inodes, i, j);
    }
  }

  /** `inode_close` of one of several references. */
  lemma CountedDrop(inodes: map<Id, Inode>, files: map<Fid, File>, extra: multiset<Id>, id: Id)
    requires Counted(inodes, files, extra) && id in extra && id in inodes && inodes[id].openCnt > 1
    ensures Counted(inodes[id := inodes[id].(openCnt := inodes[id].openCnt - 1)], files, extra - multiset{id})
  {
    var inodes', extra' := inodes[id := inodes[id].(openCnt := inodes[id].openCnt - 1)], extra - multiset{id};
    forall i: nat ensures IdOk(inodes', files, extra', i) {
      assert IdOk(inodes, files, extra, i);
      assert extra'[i] == extra[i] - if i == id then 1 else 0;
    }
    SameKeys(inodes, inodes', files);
  }

  /** `inode_close` of the last reference: nothing refers to the structure any more. */
  lemma CountedClose(inodes: map<Id, Inode>, files: map<Fid, File>, extra: multiset<Id>, id: Id)
    requires Counted(inodes, files, extra) && id in extra && id in inodes && inodes[id].openCnt == 1
    ensures Counted(inodes - {id}, files, extra - multiset{id})
  {
    var extra' := extra - multiset{id};
    assert IdOk(inodes, files, extra, id);
    assert Users(files, id) == {};
    forall i: nat ensures IdOk(inodes - {id}, files, extra', i) {
      assert IdOk(inodes, files, extra, i);
      assert extra'[i] == extra[i] - if i == id then 1 else 0;
    }
    forall f: nat ensures FileOk(inodes - {id}, files, f) {
      assert FileOk(inodes, files, f);
      assert f !in Users(files, id);
    }
    forall i: nat, j: nat ensures DistinctOk(inodes - {id}, i, j) {
      assert DistinctOk(inodes, i, j);
    }
  }

  /** `file_deny_write` and `file_allow_write` move flag and counter together, within the kernel's assertions. */
  lemma CountedDeny(inodes: map<Id, Inode>, files: map<Fid, File>, extra: multiset<Id>, f: Fid, deny: bool)
    requires Counted(inodes, files, extra) && f in files && files[f].denyWrite != deny
    ensures var id := files[f].inode;
            && id in inodes && (!deny ==> inodes[id].denyWriteCnt > 0)
            && inodes[id].denyWriteCnt + (if deny then 1 else 0) <= inodes[id].openCnt
            && Counted(inodes[id := inodes[id].(denyWriteCnt := inodes[id].denyWriteCnt + (if deny then 1 else -1))],
                       files[f := files[f].(denyWrite := deny)], extra)
  {
    var id := files[f].inode;
    var files' := files[f := files[f].(denyWrite := deny)];
    assert IdOk(inodes, files, extra, id) && FileOk(inodes, files, f);
    DeniersChange(files, f, deny, id);
    SubsetCard(Deniers(files, id), Users(files, id));
    SubsetCard(Deniers(files', id), Users(files, id));
    var inodes' := inodes[id := inodes[id].(denyWriteCnt := inodes[id].denyWriteCnt + (if deny then 1 else -1))];
    forall i: nat ensures IdOk(inodes', files', extra, i) {
      assert IdOk(inodes, files, extra, i);
      DeniersChange(files, f, deny, i);
    }
    forall g: nat ensures FileOk(inodes', files', g) {
      assert FileOk(inodes, files, g);
    }
    forall i: nat, j: nat ensures DistinctOk(inodes', i, j) {
      assert DistinctOk(inodes, i, j);
    }
  }

  /** Moving a handle's position changes no count. */
  lemma CountedMove(inodes: map<Id, Inode>, files: map<Fid, File>, extra: multiset<Id>, f: Fid, file: File)
    requires Counted(inodes, files, extra) && f in files
    requires file.inode == files[f].inode && file.denyWrite == files[f].denyWrite
    ensures Counted(inodes, files[f := file], extra)
  {
    var files' := files[f := file];
    forall i: nat ensures IdOk(inodes, files', extra, i) {
      assert IdOk(inodes, files, extra, i);
      assert Users(files', i) == Users(files, i) && Deniers(files', i) == Deniers(files, i);
    }
    forall g: nat ensures FileOk(inodes, files', g) {
      assert FileOk(inodes, files, g);
    }
  }

  lemma DeniersChange(files: map<Fid, File>, f: Fid, deny: bool, id: Id)
    requires f in files && files[f].denyWrite != deny
    ensures var files' := files[f := files[f].(denyWrite := deny)];
            && Users(files', id) == Users(files, id) && Deniers(files', id) <= Users(files, id) &&
              Deniers(files, id) <= Users(files, id)
            && |Deniers(files', id)| == |Deniers(files, id)| +
                                        if files[f].inode != id then 0 else if deny then 1 else -1
  {
    var files' := files[f := files[f].(denyWrite := deny)];
    if files[f].inode != id {
      assert Deniers(files', id) == Deniers(files, id);
    } else if deny {
      assert Deniers(files', id) == Deniers(files, id) + {f} && f !in Deniers(files, id);
    } else {
      assert Deniers(files', id) == Deniers(files, id) - {f} && f in Deniers(files, id);
    }
  }

  // ---- Named and Live --------------------------------------------------------------------------

  function Listed(slots: seq<D.Slot>): set<nat> {
    set k | 0 <= k < |slots| && slots[k].inUse :: slots[k].sector
  }

  /**
   Entries lead to files of their own, none of them a system file. (Names may repeat: see
   `Directory.ShortScansDoHarm`.)
   */
  predicate Named(slots: seq<D.Slot>) {
    && (forall k :: 0 <= k < |slots| && slots[k].inUse ==> slots[k].sector > ROOT_DIR_SECTOR)
    && (forall j, k :: 0 <= j < k < |slots| && slots[j].inUse && slots[k].inUse ==> slots[j].sector != slots[k].sector)
  }

  function OpenSectors(inodes: map<Id, Inode>): set<nat> {
    set id | id in inodes :: inodes[id].sector
  }

  function Rooted(slots: seq<D.Slot>): set<nat> {
    {FREE_MAP_SECTOR, ROOT_DIR_SECTOR} + Listed(slots)
  }

  /** An in-memory inode holds its file's data extent, and is marked removed only if no name leads to its file. */
  ghost predicate LiveOk(owned: Owned, slots: seq<D.Slot>, inodes: map<Id, Inode>, id: Id) {
    id in inodes ==>
      && inodes[id].sector in owned && inodes[id].data == owned[inodes[id].sector]
      && (inodes[id].removed ==> inodes[id].sector !in Rooted(slots))
  }

  /** Live files are the system files, the listed ones and the open ones. */
  ghost predicate Live(owned: Owned, slots: seq<D.Slot>, inodes: map<Id, Inode>) {
    && owned.Keys == Rooted(slots) + OpenSectors(inodes)
    && forall id: nat :: LiveOk(owned, slots, inodes, id)
  }

  lemma OpenSectorsMono(a: map<Id, Inode>, b: map<Id, Inode>)
    requires forall id :: id in a ==> id in b && b[id].sector == a[id].sector
    ensures OpenSectors(a) <= OpenSectors(b)
  {
    forall id | id in a ensures a[id].sector in OpenSectors(b) {
      assert b[id].sector in OpenSectors(b);
    }
  }

  lemma OpenSectorsUpdate(inodes: map<Id, Inode>, id: Id, inode: Inode)
    requires id in inodes ==> inodes[id].sector == inode.sector
    ensures OpenSectors(inodes[id := inode]) == OpenSectors(inodes) + {inode.sector}
    ensures id in inodes ==> OpenSectors(inodes[id := inode]) == OpenSectors(inodes)
  {
    var after := inodes[id := inode];
    OpenSectorsMono(inodes, after);
    assert after[id].sector in OpenSectors(after);
    forall i | i in after ensures after[i].sector in OpenSectors(inodes) + {inode.sector} {
      if i != id {
        assert inodes[i].sector in OpenSectors(inodes);
      }
    }
    if id in inodes {
      assert inodes[id].sector in OpenSectors(inodes);
    }
  }

  lemma OpenSectorsRemove(inodes: map<Id, Inode>, id: Id)
    requires id in inodes && forall i: nat, j: nat :: DistinctOk(inodes, i, j)
    ensures OpenSectors(inodes - {id}) == OpenSectors(inodes) - {inodes[id].sector}
  {
    var after := inodes - {id};
    OpenSectorsMono(after, inodes);
    forall i: nat | i in inodes && i != id
      ensures inodes[i].sector in OpenSectors(after) && inodes[i].sector != inodes[id].sector
    {
      assert after[i].sector in OpenSectors(after);
      assert DistinctOk(inodes, i, id);
    }
  }

  /** A count changed, nothing that liveness looks at. */
  lemma LiveSame(owned: Owned, slots: seq<D.Slot>, inodes: map<Id, Inode>, id: Id, inode: Inode)
    requires Live(owned, slots, inodes) && id in inodes
    requires inode.sector == inodes[id].sector && inode.data == inodes[id].data && inode.removed == inodes[id].removed
    ensures Live(owned, slots, inodes[id := inode]) && OpenSectors(inodes[id := inode]) == OpenSectors(inodes)
  {
    var inodes' := inodes[id := inode];
    OpenSectorsUpdate(inodes, id, inode);
    forall i: nat ensures LiveOk(owned, slots, inodes', i) {
      assert LiveOk(owned, slots, inodes, i);
    }
  }

  /** Opening a file that is listed (or a system file). */
  lemma LiveOpen(owned: Owned, slots: seq<D.Slot>, inodes: map<Id, Inode>, id: Id, s: nat)
    requires Live(owned, slots, inodes) && id !in inodes && s in Rooted(slots)
    ensures s in owned && Live(owned, slots, inodes[id := Inode(s, 1, false, 0, owned[s])])
    ensures OpenSectors(inodes[id := Inode(s, 1, false, 0, owned[s])]) == OpenSectors(inodes) + {s}
  {
    var inode := Inode(s, 1, false, 0, owned[s]);
    var inodes' := inodes[id := inode];
    OpenSectorsUpdate(inodes, id, inode);
    forall i: nat ensures LiveOk(owned, slots, inodes', i) {
      assert LiveOk(owned, slots, inodes, i);
    }
  }

  /** The last close: a file that no name leads to dies, any other lives on. */
  lemma LiveClose(owned: Owned, slots: seq<D.Slot>, inodes: map<Id, Inode>, id: Id)
    requires Live(owned, slots, inodes) && id in inodes && forall i: nat, j: nat :: DistinctOk(inodes, i, j)
    ensures inodes[id].sector in owned && (inodes[id].removed ==> inodes[id].sector !in Rooted(slots))
    ensures Live(if inodes[id].sector in Rooted(slots) then owned
              else owned - {inodes[id].sector}, slots, inodes - {id})
  {
    var s := inodes[id].sector;
    assert LiveOk(owned, slots, inodes, id);
    OpenSectorsRemove(inodes, id);
    var owned' := if s in Rooted(slots) then owned else owned - {s};
    forall i: nat ensures LiveOk(owned', slots, inodes - {id}, i) {
      assert LiveOk(owned, slots, inodes, i) && DistinctOk(inodes, i, id);
    }
  }

  /** The owner table without the files that are no longer live. */
  function Narrow(owned: Owned, live: set<nat>): (r: Owned)
    ensures r.Keys == owned.Keys * live && forall t :: t in r ==> r[t] == owned[t]
  {
    map t | t in owned && t in live :: owned[t]
  }

  lemma AllocatedNarrow(fm: seq<bool>, owned: Owned, live: set<nat>)
    requires Allocated(fm, owned)
    ensures Allocated(fm, Narrow(owned, live))
  {
    var owned' := Narrow(owned, live);
    forall s: nat ensures OwnOk(fm, owned', s) {
      assert OwnOk(fm, owned, s);
    }
    forall s: nat, t: nat ensures PairOk(owned', s, t) {
      assert PairOk(owned, s, t);
    }
  }

  lemma OnDiskNarrow(sectors: seq<seq<byte>>, owned: Owned, live: set<nat>)
    requires OnDisk(sectors, owned)
    ensures OnDisk(sectors, Narrow(owned, live))
  {
    var owned' := Narrow(owned, live);
    forall s: nat ensures DiskOk(sectors, owned', s) {
      assert DiskOk(sectors, owned, s);
    }
  }

  /** A new entry, in a free slot or over another entry, adds its sector to those listed and no other. */
  lemma ListedAdd(slots: seq<D.Slot>, k: nat, name: Name, s: nat)
    requires k < |slots|
    ensures var after := Listed(slots[k := D.Slot(s, name, true)]);
            s in after && after <= Listed(slots) + {s} && (!slots[k].inUse ==> after == Listed(slots) + {s})
  {
    var slots' := slots[k := D.Slot(s, name, true)];
    assert slots'[k].inUse && slots'[k].sector == s;
    forall j | 0 <= j < |slots| && slots[j].inUse && j != k ensures slots[j].sector in Listed(slots') {
      assert slots'[j] == slots[j];
    }
  }

  /** A new entry for a new file. A file whose entry is overwritten stays alive only while it is open. */
  lemma LiveAdd(owned: Owned, slots: seq<D.Slot>, inodes: map<Id, Inode>, k: nat, name: Name, s: nat, e: Extent)
    requires Live(owned, slots, inodes) && s !in owned && k < |slots|
    ensures var slots' := slots[k := D.Slot(s, name, true)];
            Live(Narrow(owned, Rooted(slots') + OpenSectors(inodes))[s := e], slots', inodes)
  {
    ListedAdd(slots, k, name, s);
    var slots' := slots[k := D.Slot(s, name, true)];
    var owned' := Narrow(owned, Rooted(slots') + OpenSectors(inodes))[s := e];
    forall id: nat ensures LiveOk(owned', slots', inodes, id) {
      assert LiveOk(owned, slots, inodes, id);
      assert id in inodes ==> inodes[id].sector in OpenSectors(inodes);
    }
  }

  lemma NamedAdd(slots: seq<D.Slot>, k: nat, name: Name, s: nat)
    requires Named(slots) && k < |slots| && s !in Rooted(slots)
    ensures Named(slots[k := D.Slot(s, name, true)])
  {
    forall j | 0 <= j < |slots| && slots[j].inUse ensures slots[j].sector != s {
      assert slots[j].sector in Listed(slots);
    }
  }

  lemma ListedErase(slots: seq<D.Slot>, k: nat)
    requires Named(slots) && k < |slots| && slots[k].inUse
    ensures Named(D.Erased(slots, k, true)) && Listed(D.Erased(slots, k, true)) == Listed(slots) - {slots[k].sector}
  {
    var slots' := D.Erased(slots, k, true);
    forall j | 0 <= j < |slots| && slots[j].inUse && j != k
      ensures slots[j].sector in Listed(slots') && slots[j].sector != slots[k].sector
    {
      assert slots'[j] == slots[j];
    }
  }

  /** Erasing an entry while its inode is open and gets its removed flag. */
  lemma LiveErase(owned: Owned, slots: seq<D.Slot>, inodes: map<Id, Inode>, k: nat, id: Id)
    requires Live(owned, slots, inodes) && Named(slots) && k < |slots| && slots[k].inUse
    requires id in inodes && inodes[id].sector == slots[k].sector && forall i: nat, j: nat :: DistinctOk(inodes, i, j)
    ensures Live(owned, D.Erased(slots, k, true), inodes[id := inodes[id].(removed := true)])
  {
    var inodes' := inodes[id := inodes[id].(removed := true)];
    ListedErase(slots, k);
    OpenSectorsUpdate(inodes, id, inodes'[id]);
    forall i: nat ensures LiveOk(owned, D.Erased(slots, k, true), inodes', i) {
      assert LiveOk(owned, slots, inodes, i) && DistinctOk(inodes, i, id);
    }
  }

  // ---- single instances, for callers that keep the parts folded ------------------------------

  lemma DiskAt(sectors: seq<seq<byte>>, owned: Owned, s: nat)
    requires OnDisk(sectors, owned)
    ensures WellFormed(sectors) && DiskOk(sectors, owned, s)
  {
  }

  lemma LiveAt(owned: Owned, slots: seq<D.Slot>, inodes: map<Id, Inode>, id: Id)
    requires Live(owned, slots, inodes)
    ensures LiveOk(owned, slots, inodes, id)
  {
  }

  lemma IdAt(inodes: map<Id, Inode>, files: map<Fid, File>, extra: multiset<Id>, id: Id)
    requires Counted(inodes, files, extra)
    ensures IdOk(inodes, files, extra, id) && forall i: nat, j: nat :: DistinctOk(inodes, i, j)
  {
  }

  lemma FileAt(inodes: map<Id, Inode>, files: map<Fid, File>, extra: multiset<Id>, f: Fid)
    requires Counted(inodes, files, extra)
    ensures FileOk(inodes, files, f)
  {
  }
}
