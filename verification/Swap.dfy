/**
 The swap table: slots of eight sectors, and per process a list of entries that say which
 frame address was written to which slot.

 Nothing stops two live entries of one process from having the same frame address. What the
 code implements is therefore not a map but, for every (owner, address) key, a queue of
 pages: writing out appends, reading back takes the oldest. A page written out under a key
 that no other live entry shares comes back exactly.
 */
module Swap {
  import opened Bytes
  import opened InodeIo
  import opened Options

  const PAGE: nat := 4096
  const PER_PAGE: nat := 8      // sectors in a page

  type Page = p: seq<byte> | |p| == PAGE witness seq(PAGE, _ => 0)

  datatype Entry = Entry(kpage: nat, slot: nat)
  datatype OwnerList = OwnerList(owner: nat, entries: seq<Entry>)
  type Table = seq<OwnerList>

  // ---- slots that live entries own -----------------------------------------------------------

  function Slots(es: seq<Entry>): multiset<nat> {
    if es == [] then multiset{} else multiset{es[0].slot} + Slots(es[1..])
  }

  function Held(t: Table): multiset<nat> {
    if t == [] then multiset{} else Slots(t[0].entries) + Held(t[1..])
  }

  lemma {:induction false} SlotsAppend(es: seq<Entry>, e: Entry)
    ensures Slots(es + [e]) == Slots(es) + multiset{e.slot}
  {
    if es == [] {
      assert es + [e] == [e] && [e][1..] == [];
    } else {
      SlotsAppend(es[1..], e);
      assert (es + [e])[1..] == es[1..] + [e];
    }
  }

  lemma {:induction false} SlotsRemove(es: seq<Entry>, j: nat)
    requires j < |es|
    ensures Slots(es) == Slots(es[..j] + es[j + 1..]) + multiset{es[j].slot}
  {
    if j == 0 {
      assert es[..0] + es[1..] == es[1..];
    } else {
      SlotsRemove(es[1..], j - 1);
      var rest := es[..j] + es[j + 1..];
      assert rest[1..] == es[1..][..j - 1] + es[1..][j..] && rest[0] == es[0];
    }
  }

  lemma {:induction false} HeldUpdate(t: Table, i: nat, es: seq<Entry>)
    requires i < |t|
    ensures Held(t[i := OwnerList(t[i].owner, es)]) + Slots(t[i].entries) == Held(t) + Slots(es)
  {
    var t' := t[i := OwnerList(t[i].owner, es)];
    if i == 0 {
      assert t'[1..] == t[1..];
    } else {
      HeldUpdate(t[1..], i - 1, es);
      assert t'[1..] == t[1..][i - 1 := OwnerList(t[i].owner, es)] && t'[0] == t[0];
      Rearrange(Slots(t[0].entries), Held(t'[1..]), Held(t[1..]), Slots(t[i].entries), Slots(es));
    }
  }

  lemma Rearrange(z: multiset<nat>, a: multiset<nat>, b: multiset<nat>, x: multiset<nat>, y: multiset<nat>)
    requires a + x == b + y
    ensures z + a + x == z + b + y
  {
    assert z + a + x == z + (a + x) && z + b + y == z + (b + y);
  }

  lemma {:induction false} HeldPush(t: Table, o: OwnerList)
    ensures Held(t + [o]) == Held(t) + Slots(o.entries)
  {
    if t == [] {
      assert t + [o] == [o] && [o][1..] == [];
    } else {
      HeldPush(t[1..], o);
      assert (t + [o])[1..] == t[1..] + [o];
    }
  }

  /** A listed entry's slot is held. */
  lemma {:induction false} HeldHas(t: Table, i: nat, j: nat)
    requires i < |t| && j < |t[i].entries|
    ensures t[i].entries[j].slot in Held(t)
  {
    if i == 0 {
      SlotsRemove(t[0].entries, j);
    } else {
      HeldHas(t[1..], i - 1, j);
    }
  }

  // ---- pages ------------------------------------------------------------------------------------

  /** The bytes of `n` consecutive sectors. */
  function Joined(sectors: seq<seq<byte>>, at: nat, n: nat): (r: seq<byte>)
    requires WellFormed(sectors) && at + n <= |sectors|
    ensures |r| == SECTOR * n
  {
    if n == 0 then [] else Joined(sectors, at, n - 1) + sectors[at + n - 1]
  }

  lemma {:induction false} JoinedFrame(a: seq<seq<byte>>, b: seq<seq<byte>>, at: nat, n: nat)
    requires WellFormed(a) && WellFormed(b) && at + n <= |a| && at + n <= |b| && forall k :: at <= k < at + n ==>
               a[k] == b[k]
    ensures Joined(a, at, n) == Joined(b, at, n)
  {
    if n > 0 {
      JoinedFrame(a, b, at, n - 1);
    }
  }

  predicate InDevice(sectors: seq<seq<byte>>, es: seq<Entry>) {
    WellFormed(sectors) && forall j :: 0 <= j < |es| ==> PER_PAGE * es[j].slot + PER_PAGE <= |sectors|
  }

  function Window(sectors: seq<seq<byte>>, slot: nat): Page
    requires WellFormed(sectors) && PER_PAGE * slot + PER_PAGE <= |sectors|
  {
    Joined(sectors, PER_PAGE * slot, PER_PAGE)
  }

  /** The pages swapped out under address `k`, oldest first. */
  function Pages(sectors: seq<seq<byte>>, es: seq<Entry>, k: nat): seq<Page>
    requires InDevice(sectors, es)
  {
    if es == [] then []
    else (if es[0].kpage == k then [Window(sectors, es[0].slot)] else []) + Pages(sectors, es[1..], k)
  }

  lemma {:induction false} PagesAppend(sectors: seq<seq<byte>>, es: seq<Entry>, e: Entry, k: nat)
    requires InDevice(sectors, es + [e])
    ensures InDevice(sectors, es) && PER_PAGE * e.slot + PER_PAGE <= |sectors|
    ensures Pages(sectors, es + [e], k) ==
              Pages(sectors, es, k) + (if e.kpage == k then [Window(sectors, e.slot)] else [])
  {
    assert forall j :: 0 <= j < |es| ==> (es + [e])[j] == es[j];
    assert (es + [e])[|es|] == e;
    if es == [] {
      assert es + [e] == [e] && [e][1..] == [];
    } else {
      assert (es + [e])[1..] == es[1..] + [e];
      PagesAppend(sectors, es[1..], e, k);
    }
  }

  /** Removing entry `j`, the first for its address, takes the oldest page of that address and no other. */
  lemma {:induction false} PagesRemove(sectors: seq<seq<byte>>, es: seq<Entry>, j: nat, k: nat)
    requires InDevice(sectors, es) && j < |es| && forall i :: 0 <= i < j ==> es[i].kpage != es[j].kpage
    ensures InDevice(sectors, es[..j] + es[j + 1..])
    ensures Pages(sectors, es, es[j].kpage) ==
              [Window(sectors, es[j].slot)] + Pages(sectors, es[..j] + es[j + 1..], es[j].kpage)
    ensures k != es[j].kpage ==> Pages(sectors, es[..j] + es[j + 1..], k) == Pages(sectors, es, k)
  {
    var rest := es[..j] + es[j + 1..];
    if j == 0 {
      assert rest == es[1..];
    } else {
      PagesRemove(sectors, es[1..], j - 1, k);
      assert rest[1..] == es[1..][..j - 1] + es[1..][j..] && rest[0] == es[0];
    }
  }

  lemma {:induction false} PagesNone(sectors: seq<seq<byte>>, es: seq<Entry>, k: nat)
    requires InDevice(sectors, es) && forall j :: 0 <= j < |es| ==> es[j].kpage != k
    ensures Pages(sectors, es, k) == []
  {
    if es != [] {
      PagesNone(sectors, es[1..], k);
    }
  }

  /** Writing a slot that no entry owns changes no page. */
  lemma {:induction false} PagesFrame(a: seq<seq<byte>>, b: seq<seq<byte>>, es: seq<Entry>, slot: nat, k: nat)
    requires InDevice(a, es) && WellFormed(b) && |b| == |a| && forall j :: 0 <= j < |es| ==> es[j].slot != slot
    requires forall x :: 0 <= x < |a| && !(PER_PAGE * slot <= x < PER_PAGE * slot + PER_PAGE) ==> b[x] == a[x]
    ensures InDevice(b, es) && Pages(b, es, k) == Pages(a, es, k)
  {
    if es != [] {
      PagesFrame(a, b, es[1..], slot, k);
      JoinedFrame(a, b, PER_PAGE * es[0].slot, PER_PAGE);
    }
  }

  // ---- the table ----------------------------------------------------------------------------------

  /** `swap_entry_list_lookup` */
  function IndexOf(t: Table, owner: nat): (r: Option<nat>)
    ensures r.Some? ==> r.value < |t| && t[r.value].owner == owner
    ensures r.None? ==> forall i :: 0 <= i < |t| ==> t[i].owner != owner
  {
    if t == [] then None
    else if t[0].owner == owner then Some(0)
    else match IndexOf(t[1..], owner)
         case None => assert forall i :: 1 <= i < |t| ==> t[i] == t[1..][i - 1]; None
         case Some(i) => Some(i + 1)
  }

  ghost predicate OwnersDistinct(t: Table) {
    forall i, j :: 0 <= i < j < |t| ==> t[i].owner != t[j].owner
  }

  lemma IndexUnique(t: Table, i: nat)
    requires OwnersDistinct(t) && i < |t|
    ensures IndexOf(t, t[i].owner) == Some(i)
  {
  }

  /** The pages waiting under a key, oldest first. */
  function Queue(sectors: seq<seq<byte>>, t: Table, owner: nat, k: nat): seq<Page> {
    match IndexOf(t, owner)
    case None => []
    case Some(i) => if InDevice(sectors, t[i].entries) then Pages(sectors, t[i].entries, k) else []
  }

  /** A slot is marked in use exactly when one live entry owns it. */
  ghost predicate SlotOk(t: Table, empty: seq<bool>, s: nat) {
    Held(t)[s] == if s < |empty| && !empty[s] then 1 else 0
  }

  ghost predicate Accounted(t: Table, empty: seq<bool>) {
    forall s: nat :: SlotOk(t, empty, s)
  }

  /** So entries stay inside the device, and away from a slot that is marked empty. */
  lemma EntriesInside(sectors: seq<seq<byte>>, t: Table, empty: seq<bool>, i: nat)
    requires Accounted(t, empty) && i < |t| && WellFormed(sectors) && PER_PAGE * |empty| <= |sectors|
    ensures InDevice(sectors, t[i].entries)
    ensures forall j :: 0 <= j < |t[i].entries| ==> t[i].entries[j].slot < |empty| && !empty[t[i].entries[j].slot]
  {
    forall j | 0 <= j < |t[i].entries| ensures t[i].entries[j].slot < |empty| && !empty[t[i].entries[j].slot] {
      HeldHas(t, i, j);
      assert SlotOk(t, empty, t[i].entries[j].slot);
    }
  }

  /** Live windows of distinct slots do not meet. */
  lemma WindowsApart(a: nat, b: nat, x: nat)
    requires a != b && PER_PAGE * a <= x < PER_PAGE * a + PER_PAGE
    ensures !(PER_PAGE * b <= x < PER_PAGE * b + PER_PAGE)
  {
  }

  /** The table after an entry is appended to its owner's list, which is made if there is none. */
  function Inserted(t: Table, owner: nat, e: Entry): Table {
    match IndexOf(t, owner)
    case None => t + [OwnerList(owner, [e])]
    case Some(i) => t[i := OwnerList(owner, t[i].entries + [e])]
  }

  lemma HeldInserted(t: Table, owner: nat, e: Entry)
    ensures Held(Inserted(t, owner, e)) == Held(t) + multiset{e.slot}
  {
    hide Slots, Held;
    match IndexOf(t, owner) {
      case None =>
        HeldPush(t, OwnerList(owner, [e]));
        SlotsOne(e);
      case Some(i) =>
        var es := t[i].entries;
        HeldUpdate(t, i, es + [e]);
        SlotsAppend(es, e);
        Uncancel(Held(t), Held(Inserted(t, owner, e)), Slots(es), multiset{e.slot});
    }
  }

  lemma SlotsOne(e: Entry)
    ensures Slots([e]) == multiset{e.slot}
  {
    assert [e][1..] == [];
  }

  lemma InsertKeeps(t: Table, empty: seq<bool>, owner: nat, e: Entry)
    requires OwnersDistinct(t) && Accounted(t, empty) && e.slot < |empty| && empty[e.slot]
    ensures OwnersDistinct(Inserted(t, owner, e)) && Accounted(Inserted(t, owner, e), empty[e.slot := false])
  {
    hide Held;
    var t', empty' := Inserted(t, owner, e), empty[e.slot := false];
    HeldInserted(t, owner, e);
    forall s: nat ensures SlotOk(t', empty', s) {
      assert SlotOk(t, empty, s);
    }
  }

  /** The key's queue gains the page at its end; no other queue changes. */
  lemma InsertQueues(a: seq<seq<byte>>, b: seq<seq<byte>>, t: Table, empty: seq<bool>, owner: nat, e: Entry, o: nat,
                     k: nat)
    requires OwnersDistinct(t) && Accounted(t, empty) && e.slot < |empty| && empty[e.slot]
    requires WellFormed(a) && WellFormed(b) && PER_PAGE * |empty| <= |a| == |b|
    requires forall x :: 0 <= x < |a| && !(PER_PAGE * e.slot <= x < PER_PAGE * e.slot + PER_PAGE) ==> b[x] == a[x]
    ensures Queue(b, Inserted(t, owner, e), o, k) ==
              Queue(a, t, o, k) + if o == owner && k == e.kpage then [Window(b, e.slot)] else []
  {
    var t' := Inserted(t, owner, e);
    InsertKeeps(t, empty, owner, e);
    match IndexOf(t, o) {
      case None =>
        if o == owner {
          IndexUnique(t', |t|);
          assert t'[|t|].entries == [] + [e];
          PagesAppend(b, [], e, k);
        }
      case Some(i) =>
        IndexUnique(t', i);
        EntriesInside(a, t, empty, i);
        PagesFrame(a, b, t[i].entries, e.slot, k);
        if o == owner {
          EntriesInside(b, t', empty[e.slot := false], i);
          PagesAppend(b, t[i].entries, e, k);
        }
    }
  }

  /** The table without entry `j` of list `i`. */
  function Deleted(t: Table, i: nat, j: nat): Table
    requires i < |t| && j < |t[i].entries|
  {
    t[i := OwnerList(t[i].owner, t[i].entries[..j] + t[i].entries[j + 1..])]
  }

  lemma DeleteKeeps(t: Table, empty: seq<bool>, i: nat, j: nat)
    requires OwnersDistinct(t) && Accounted(t, empty) && i < |t| && j < |t[i].entries|
    ensures var s := t[i].entries[j].slot;
            s < |empty| && !empty[s] && OwnersDistinct(Deleted(t, i, j)) &&
              Accounted(Deleted(t, i, j), empty[s := true])
  {
    hide Held, Slots;
    var t', s := Deleted(t, i, j), t[i].entries[j].slot;
    HeldHas(t, i, j);
    assert SlotOk(t, empty, s);
    HeldUpdate(t, i, t'[i].entries);
    SlotsRemove(t[i].entries, j);
    assert Held(t') + multiset{s} == Held(t) by {
      Uncancel(Held(t'), Held(t), Slots(t'[i].entries), multiset{s});
    }
    var empty' := empty[s := true];
    forall x: nat ensures SlotOk(t', empty', x) {
      assert SlotOk(t, empty, x);
    }
  }

  lemma Uncancel(a: multiset<nat>, b: multiset<nat>, x: multiset<nat>, y: multiset<nat>)
    requires a + (x + y) == b + x
    ensures a + y == b
  {
    assert a + y == a + (x + y) - x && b == b + x - x;
  }

  /** Deleting the oldest entry for a key pops its queue; no other queue changes. */
  lemma DeleteQueues(sectors: seq<seq<byte>>, t: Table, empty: seq<bool>, i: nat, j: nat, o: nat, k: nat)
    requires OwnersDistinct(t) && Accounted(t, empty) && i < |t| && j < |t[i].entries|
    requires WellFormed(sectors) && PER_PAGE * |empty| <= |sectors|
    requires forall x :: 0 <= x < j ==> t[i].entries[x].kpage != t[i].entries[j].kpage
    ensures PER_PAGE * t[i].entries[j].slot + PER_PAGE <= |sectors|
    ensures if o == t[i].owner && k == t[i].entries[j].kpage
            then Queue(sectors, t, o, k) ==
                [Window(sectors, t[i].entries[j].slot)] + Queue(sectors, Deleted(t, i, j), o, k)
            else Queue(sectors, Deleted(t, i, j), o, k) == Queue(sectors, t, o, k)
  {
    var t' := Deleted(t, i, j);
    DeleteKeeps(t, empty, i, j);
    EntriesInside(sectors, t, empty, i);
    match IndexOf(t, o) {
      case None =>
        forall x | 0 <= x < |t'| ensures t'[x].owner != o { }
        assert IndexOf(t', o).None?;
      case Some(x) =>
        IndexUnique(t', x);
        IndexUnique(t, i);
        if x == i {
          PagesRemove(sectors, t[i].entries, j, k);
        }
    }
  }

  class Store {
    const dev: Device
    var table: Table
    var empty: seq<bool>       // empty_block_sector
    var locked: bool           // swap_lock is held

    ghost predicate Valid()
      reads this, dev
    {
      dev.Valid() && PER_PAGE * |empty| <= |dev.sectors| && OwnersDistinct(table) && Accounted(table, empty)
    }

    /** `swap_disk_init` */
    constructor (dev: Device)
      requires dev.Valid()
      ensures Valid() && this.dev == dev && !locked && forall o: nat, k: nat :: Queue(dev.sectors, table, o, k) == []
      ensures |empty| == |dev.sectors| / 8 && forall i :: 0 <= i < |empty| ==> empty[i]
    {
      this.dev := dev;
      table := [];
      empty := seq(|dev.sectors| / PER_PAGE, _ => true);
      locked := false;
      new;
      forall s: nat ensures SlotOk(table, empty, s) { }
    }

    /** `swap_find_empty_sector`: the least empty slot, marked; or a number out of range. */
    method FindEmpty() returns (slot: nat)
      modifies this`empty
      ensures |empty| == |old(empty)|
      ensures slot < |empty| ==> old(empty)[slot] && empty == old(empty)[slot := false] &&
                                 forall i :: 0 <= i < slot ==> !empty[i]
      ensures slot >= |empty| ==> empty == old(empty) && forall i :: 0 <= i < |empty| ==> !empty[i]
    {
      var i := 0;
      while i < |empty|
        invariant i <= |empty| && empty == old(empty) && forall k :: 0 <= k < i ==> !empty[k]
      {
        if empty[i] {
          empty := empty[i := false];
          return i;
        }
        i := i + 1;
      }
      slot := |empty| + 1;
    }

    /** The copy loop of `swap_frame_to_disk`. */
    method WritePage(page: array<byte>, slot: nat)
      requires dev.Valid() && page.Length == PAGE && PER_PAGE * slot + PER_PAGE <= |dev.sectors|
      modifies dev
      ensures dev.Valid() && |dev.sectors| == |old(dev.sectors)| && Window(dev.sectors, slot) == page[..]
      ensures forall x :: 0 <= x < |dev.sectors| && !(PER_PAGE * slot <= x < PER_PAGE * slot + PER_PAGE) ==>
                dev.sectors[x] == old(dev.sectors)[x]
    {
      var i := 0;
      while i < PER_PAGE
        invariant i <= PER_PAGE && dev.Valid() && |dev.sectors| == |old(dev.sectors)|
        invariant Joined(dev.sectors, PER_PAGE * slot, i) == page[..SECTOR * i]
        invariant forall x :: 0 <= x < |dev.sectors| && !(PER_PAGE * slot <= x < PER_PAGE * slot + PER_PAGE) ==>
                    dev.sectors[x] == old(dev.sectors)[x]
      {
        var buffer := page[i * SECTOR..i * SECTOR + SECTOR];
        ghost var before := dev.sectors;
        dev.BlockWrite(PER_PAGE * slot + i, buffer);
        JoinedFrame(before, dev.sectors, PER_PAGE * slot, i);
        assert page[..SECTOR * (i + 1)] == page[..SECTOR * i] + buffer;
        i := i + 1;
      }
      assert page[..] == page[..SECTOR * i];
    }

    /** The copy loop of `swap_disk_to_frame`. */
    method ReadPage(dst: array<byte>, slot: nat)
      requires dev.Valid() && dst.Length == PAGE && PER_PAGE * slot + PER_PAGE <= |dev.sectors|
      modifies dst
      ensures dst[..] == Window(dev.sectors, slot)
    {
      var i := 0;
      while i < PER_PAGE
        invariant i <= PER_PAGE && dst[..SECTOR * i] == Joined(dev.sectors, PER_PAGE * slot, i)
      {
        var buffer := dev.BlockRead(PER_PAGE * slot + i);
        ghost var before := dst[..SECTOR * i];
        forall k | 0 <= k < SECTOR {
          dst[SECTOR * i + k] := buffer[k];
        }
        assert dst[..SECTOR * i] == before;
        assert dst[..SECTOR * (i + 1)] == dst[..SECTOR * i] + buffer;
        i := i + 1;
      }
      assert dst[..] == dst[..SECTOR * i];
    }

    /**
     `swap_frame_to_disk`: the page joins the end of its key's queue. It fails, and the kernel
     panics, exactly when no slot is empty.
     */
    method FrameToDisk(page: array<byte>, kpage: nat, owner: nat) returns (ok: bool)
      requires Valid() && !locked && page.Length == PAGE
      modifies this`table, this`empty, this`locked, dev
      ensures Valid() && !locked && |empty| == |old(empty)|
      ensures ok <==> exists i :: 0 <= i < |old(empty)| && old(empty)[i]
      ensures !ok ==> table == old(table) && empty == old(empty) && dev.sectors == old(dev.sectors)
      ensures ok ==> Gained(old(dev.sectors), old(table), dev.sectors, table, (owner, kpage), page[..])
    {
      hide Held, Queue, Pages, Window;
      locked := true;
      var slot := FindEmpty();
      if slot >= |empty| {
        locked := false;
        return false;
      }
      var e := Entry(kpage, slot);
      InsertKeeps(table, old(empty), owner, e);
      ghost var t, sectors := table, dev.sectors;
      table := Inserted(table, owner, e);
      WritePage(page, slot);
      forall o: nat, k: nat
        ensures Queue(dev.sectors, table, o, k) ==
                  QueueAfterOut(Queue(sectors, t, o, k), (o, k) == (owner, kpage), page[..])
      {
        InsertQueues(sectors, dev.sectors, t, old(empty), owner, e, o, k);
      }
      locked := false;
      ok := true;
    }

    /** `swap_entry_lookup` in one owner's list: the first entry with the address. */
    method FindEntry(es: seq<Entry>, kpage: nat) returns (j: nat)
      ensures j <= |es| && (forall x :: 0 <= x < j ==> es[x].kpage != kpage) && (j < |es| ==> es[j].kpage == kpage)
    {
      j := 0;
      while j < |es| && es[j].kpage != kpage
        invariant j <= |es| && forall x :: 0 <= x < j ==> es[x].kpage != kpage
      {
        j := j + 1;
      }
    }

    /**
     `swap_disk_to_frame`: the oldest page of the key, and its slot is empty again. When the
     key has no page the function returns with the lock still held.
     */
    method DiskToFrame(dst: array<byte>, kpage: nat, owner: nat) returns (found: bool)
      requires Valid() && !locked && dst.Length == PAGE
      modifies this`table, this`empty, this`locked, dst
      ensures Valid() && |empty| == |old(empty)|
      ensures found <==> Queue(dev.sectors, old(table), owner, kpage) != []
      ensures locked <==> !found
      ensures !found ==> table == old(table) && empty == old(empty) && dst[..] == old(dst[..])
      ensures found ==> dst[..] == Queue(dev.sectors, old(table), owner, kpage)[0]
      ensures found ==> Popped(dev.sectors, old(table), table, (owner, kpage))
    {
      hide Held, Pages, Window;
      locked := true;
      var i := IndexOf(table, owner);
      if i.None? {
        return false;
      }
      EntriesInside(dev.sectors, table, empty, i.value);
      var j := FindEntry(table[i.value].entries, kpage);
      if j == |table[i.value].entries| {
        PagesNone(dev.sectors, table[i.value].entries, kpage);
        return false;
      }
      var slot := table[i.value].entries[j].slot;
      DeleteKeeps(table, empty, i.value, j);
      hide Queue;
      forall o: nat, k: nat
        ensures Queue(dev.sectors, Deleted(table, i.value, j), o, k) ==
                  QueueAfterIn(Queue(dev.sectors, table, o, k), (o, k) == (owner, kpage))
      {
        DeleteQueues(dev.sectors, table, empty, i.value, j, o, k);
      }
      DeleteQueues(dev.sectors, table, empty, i.value, j, owner, kpage);
      ReadPage(dst, slot);
      empty := empty[slot := true];
      table := Deleted(table, i.value, j);
      locked := false;
      found := true;
    }

    /** One operation, on the page store and on the queues alike. */
    method Step(op: Op, ghost q: Queues) returns (ok: bool, r: Option<Page>)
      requires Valid() && !locked && Refines(dev.sectors, table, q)
      modifies this`table, this`empty, this`locked, dev
      ensures Valid()
      ensures ok ==> !locked && r == Result(q, op) && Refines(dev.sectors, table, Stepped(q, op))
      ensures !ok ==> Stuck(q, op, empty)
    {
      hide Held, Queue, Pages, Window;
      var buffer := new byte[PAGE];
      match op {
        case Out(key, page) =>
          forall k | 0 <= k < PAGE {
            buffer[k] := page[k];
          }
          assert buffer[..] == page;
          ok := FrameToDisk(buffer, key.1, key.0);
          r := None;
          if ok {
            GainRefines(old(dev.sectors), old(table), dev.sectors, table, key, page, q);
          }
        case In(key) =>
          ok := DiskToFrame(buffer, key.1, key.0);
          assert Queue(dev.sectors, old(table), key.0, key.1) == Get(q, (key.0, key.1)) && key == (key.0, key.1);
          r := if ok then Some(buffer[..]) else None;
          if ok {
            PopRefines(dev.sectors, old(table), table, key, q);
          }
      }
    }

    /**
     A run of swap calls: what they return is what the queues return. The run ends early at a
     panic, or at a read of a key that has no page, after which no call gets the lock.
     */
    method Run(ops: seq<Op>, ghost q: Queues) returns (n: nat, results: seq<Option<Page>>)
      requires Valid() && !locked && Refines(dev.sectors, table, q)
      modifies this`table, this`empty, this`locked, dev
      ensures Valid() && n <= |ops| && results == Results(q, ops[..n]) &&
              (n < |ops| ==> Stuck(After(q, ops[..n]), ops[n], empty))
    {
      hide Held, Queue, Pages, Window, Accounted, Refines, Stuck;
      n, results := 0, [];
      ghost var now := q;
      while n < |ops|
        invariant Valid() && !locked && n <= |ops|
        invariant now == After(q, ops[..n]) && Refines(dev.sectors, table, now) && results == Results(q, ops[..n])
      {
        assert ops[..n + 1] == ops[..n] + [ops[n]];
        var ok, r := Step(ops[n], now);
        if !ok {
          return;
        }
        OneMore(q, ops[..n], ops[n]);
        now := Stepped(now, ops[n]);
        results := results + [r];
        n := n + 1;
      }
    }
  }

  // ---- the queues that the table implements -----------------------------------------------------------

  function QueueAfterOut(q: seq<Page>, here: bool, p: Page): seq<Page> {
    if here then q + [p] else q
  }

  function QueueAfterIn(q: seq<Page>, here: bool): seq<Page> {
    if here && q != [] then q[1..] else q
  }

  type Key = (nat, nat)     // owner and frame address
  type Queues = map<Key, seq<Page>>
  datatype Op = Out(key: Key, page: Page) | In(key: Key)

  function Get(q: Queues, key: Key): seq<Page> {
    if key in q then q[key] else []
  }

  function Stepped(q: Queues, op: Op): Queues {
    match op
    case Out(key, page) => q[key := Get(q, key) + [page]]
    case In(key) => q[key := QueueAfterIn(Get(q, key), true)]
  }

  function After(q: Queues, ops: seq<Op>): Queues {
    if ops == [] then q else Stepped(After(q, ops[..|ops| - 1]), ops[|ops| - 1])
  }

  /** What an operation returns: the oldest page of its key, for a read that finds one. */
  function Result(q: Queues, op: Op): Option<Page> {
    if op.In? && Get(q, op.key) != [] then Some(Get(q, op.key)[0]) else None
  }

  function Results(q: Queues, ops: seq<Op>): seq<Option<Page>> {
    if ops == [] then [] else Results(q, ops[..|ops| - 1]) + [Result(After(q, ops[..|ops| - 1]), ops[|ops| - 1])]
  }

  lemma OneMore(q: Queues, ops: seq<Op>, op: Op)
    ensures After(q, ops + [op]) == Stepped(After(q, ops), op)
    ensures Results(q, ops + [op]) == Results(q, ops) + [Result(After(q, ops), op)]
  {
    assert (ops + [op])[..|ops|] == ops;
  }

  /** The key's queue gained the page, every other queue is as before. */
  ghost predicate Gained(a: seq<seq<byte>>, t: Table, b: seq<seq<byte>>, t': Table, key: Key, p: Page) {
    forall o: nat, k: nat :: Queue(b, t', o, k) == QueueAfterOut(Queue(a, t, o, k), (o, k) == key, p)
  }

  /** The key's queue lost its oldest page, every other queue is as before. */
  ghost predicate Popped(sectors: seq<seq<byte>>, t: Table, t': Table, key: Key) {
    forall o: nat, k: nat :: Queue(sectors, t', o, k) == QueueAfterIn(Queue(sectors, t, o, k), (o, k) == key)
  }

  lemma GainRefines(a: seq<seq<byte>>, t: Table, b: seq<seq<byte>>, t': Table, key: Key, p: Page, q: Queues)
    requires Refines(a, t, q) && Gained(a, t, b, t', key, p)
    ensures Refines(b, t', Stepped(q, Out(key, p)))
  {
    hide Queue;
    var q' := Stepped(q, Out(key, p));
    forall o: nat, k: nat ensures Queue(b, t', o, k) == Get(q', (o, k)) {
      assert Queue(a, t, o, k) == Get(q, (o, k));
    }
  }

  lemma PopRefines(a: seq<seq<byte>>, t: Table, t': Table, key: Key, q: Queues)
    requires Refines(a, t, q) && Popped(a, t, t', key)
    ensures Refines(a, t', Stepped(q, In(key)))
  {
    hide Queue;
    var q' := Stepped(q, In(key));
    forall o: nat, k: nat ensures Queue(a, t', o, k) == Get(q', (o, k)) {
      assert Queue(a, t, o, k) == Get(q, (o, k));
    }
  }

  ghost predicate Refines(sectors: seq<seq<byte>>, t: Table, q: Queues) {
    forall o: nat, k: nat :: Queue(sectors, t, o, k) == Get(q, (o, k))
  }

  /** The next operation panics for want of a slot, or keeps the lock for want of a page. */
  ghost predicate Stuck(q: Queues, op: Op, empty: seq<bool>) {
    match op
    case Out(_, _) => forall i :: 0 <= i < |empty| ==> !empty[i]
    case In(key) => Get(q, key) == []
  }

  /** Operations on other keys leave a key's queue alone. */
  lemma {:induction false} OtherKeys(q: Queues, ops: seq<Op>, key: Key)
    requires forall i :: 0 <= i < |ops| ==> ops[i].key != key
    ensures Get(After(q, ops), key) == Get(q, key)
  {
    if ops != [] {
      OtherKeys(q, ops[..|ops| - 1], key);
    }
  }

  /**
   A page written out, then any swaps under other keys, then read back: it comes back with its
   exact bytes if and only if it is the oldest page of its key, in particular whenever no
   other live entry shares the key.
   */
  lemma RoundTrip(q: Queues, key: Key, page: Page, ops: seq<Op>)
    requires forall i :: 0 <= i < |ops| ==> ops[i].key != key
    ensures var after := After(q, [Out(key, page)] + ops);
            Result(after, In(key)) == Some(page) <==> Get(q, key) == [] || Get(q, key)[0] == page
    ensures Get(q, key) == [] ==> Get(Stepped(After(q, [Out(key, page)] + ops), In(key)), key) == []
  {
    AfterCons(q, Out(key, page), ops);
    OtherKeys(Stepped(q, Out(key, page)), ops, key);
  }

  lemma {:induction false} AfterCons(q: Queues, op: Op, ops: seq<Op>)
    ensures After(q, [op] + ops) == After(Stepped(q, op), ops)
  {
    if ops == [] {
      assert [op] + ops == [op] && [op][..0] == [];
    } else {
      var n := |ops| - 1;
      AfterCons(q, op, ops[..n]);
      assert ([op] + ops)[..n + 1] == [op] + ops[..n];
    }
  }
}
