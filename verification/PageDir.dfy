/**
 Two-level page tables: a directory of 1024 entries, of which the first 768 are for user
 addresses, and page tables of 1024 entries (section 3.7.6 of the IA-32 manual, volume 3A).
 What they implement is a map from user page numbers to frames.
 */
module PageDir {
  import opened Bits
  import opened Options

  const PGSIZE: nat := 4096
  const PHYS_BASE: nat := 0xC000_0000
  const WORD: nat := 0x1_0000_0000
  const ENTRIES: nat := 1024           // in a directory or a table
  const USER_PDES: nat := 768          // pd_no (PHYS_BASE)
  const USER_PAGES: nat := 786432      // pages below PHYS_BASE

  // ---- entries ---------------------------------------------------------------------------------

  /** The address bits and the flag bits of an entry do not meet, so or-ing them adds them. */
  lemma {:induction false} OrIsSum(m: nat, f: nat, k: nat, n: nat)
    requires k <= n && f < Pow2(k) && m * Pow2(k) < Pow2(n)
    ensures OrBits(m * Pow2(k), f, n) == m * Pow2(k) + f
    decreases n
  {
    if n > 0 {
      OrStep(m * Pow2(k), f, n);
    }
    if k > 0 {
      Doubled(m, Pow2(k - 1));
      OrIsSum(m, f / 2, k - 1, n - 1);
    } else if n > 0 {
      OrIsSum(m / 2, 0, 0, n - 1);
    }
  }

  /** Masking with the address bits drops the flags. */
  lemma {:induction false} AndDropsFlags(m: nat, f: nat, k: nat, n: nat)
    requires k <= n && f < Pow2(k) && m * Pow2(k) + f < Pow2(n)
    ensures Pow2(k) <= Pow2(n)
    ensures AndBits(m * Pow2(k) + f, Pow2(n) - Pow2(k), n) == m * Pow2(k)
    decreases n
  {
    if k > 0 {
      var p := Pow2(k - 1);
      Doubled(m, p);
      HalfPlus(m * p, f);
      AndDropsFlags(m, f / 2, k - 1, n - 1);
      AndHalf(m * Pow2(k) + f, Pow2(n - 1) - p, n);
    } else {
      AndOnes(m, n);
    }
  }

  lemma HalfPlus(x: nat, f: nat)
    ensures (2 * x + f) / 2 == x + f / 2
  {
  }

  lemma AndHalf(a: nat, b: nat, n: nat)
    requires n > 0
    ensures AndBits(a, 2 * b, n) == 2 * AndBits(a / 2, b, n - 1)
  {
    AndStep(a, 2 * b, n);
    assert 2 * b / 2 == b && 2 * b % 2 == 0;
  }

  lemma {:induction false} AndOnes(a: nat, n: nat)
    requires a < Pow2(n)
    ensures AndBits(a, Pow2(n) - 1, n) == a
    decreases n
  {
    if n > 0 {
      AndStep(a, Pow2(n) - 1, n);
      assert (Pow2(n) - 1) / 2 == Pow2(n - 1) - 1 && (Pow2(n) - 1) % 2 == 1;
      AndOnes(a / 2, n - 1);
    }
  }

  lemma Doubled(m: nat, p: nat)
    ensures m * (2 * p) == 2 * (m * p)
  {
  }

  lemma Sizes()
    ensures Pow2(12) == PGSIZE && Pow2(WORD_BITS) == WORD && Pow2(0) == 1
  {
    assert Pow2(4) == 16 && Pow2(8) == 256 && Pow2(16) == 0x1_0000 && Pow2(20) == 0x10_0000 && Pow2(28) == 0x1000_0000;
  }

  predicate PageAligned(a: nat) {
    a % PGSIZE == 0
  }

  /** A kernel page: aligned and mapped at its physical address plus PHYS_BASE. */
  predicate KernelPage(a: nat) {
    PHYS_BASE <= a < WORD && PageAligned(a)
  }

  function Vtop(a: nat): nat
    requires a >= PHYS_BASE
  {
    a - PHYS_BASE
  }

  function Ptov(p: nat): nat {
    p + PHYS_BASE
  }

  const FLAG_P: nat := 1
  const FLAG_W: nat := 2
  const FLAG_U: nat := 4
  const ADDR: nat := 0xFFFF_F000

  /** `pde_create` */
  function PdeCreate(pt: nat): nat
    requires KernelPage(pt)
  {
    Or(Vtop(pt), FLAG_U + FLAG_P + FLAG_W)
  }

  /** `pte_create_user` */
  function PteCreateUser(page: nat, writable: bool): nat
    requires KernelPage(page)
  {
    Or(Vtop(page), FLAG_P + (if writable then FLAG_W else 0) + FLAG_U)
  }

  /** `pde_get_pt` and `pte_get_page` */
  function PageOf(e: nat): nat {
    Ptov(And(e, ADDR))
  }

  predicate Present(e: nat) {
    e % 2 == 1
  }

  predicate Writable(e: nat) {
    e / 2 % 2 == 1
  }


  /** An entry made for a page is present, and gives the page and its permission back. */
  lemma EntryFields(page: nat, flags: nat)
    requires KernelPage(page) && flags < PGSIZE
    ensures Or(Vtop(page), flags) == Vtop(page) + flags && PageOf(Vtop(page) + flags) == page
  {
    var m := Vtop(page) / PGSIZE;
    Sizes();
    assert Vtop(page) == m * PGSIZE;
    OrIsSum(m, flags, 12, WORD_BITS);
    AndDropsFlags(m, flags, 12, WORD_BITS);
    assert ADDR == WORD - PGSIZE;
  }

  // ---- the directory and its tables --------------------------------------------------------------

  type Tables = map<nat, seq<nat>>       // page tables by kernel address

  /** Entry `i` of the directory is empty or points to a page table of its own. */
  ghost predicate PdeOk(pd: seq<nat>, tables: Tables, i: nat) {
    i < USER_PDES && i < |pd| && pd[i] != 0 ==>
      exists pt :: KernelPage(pt) && pd[i] == PdeCreate(pt) && pt in tables && |tables[pt]| == ENTRIES
  }

  ghost predicate ApartOk(pd: seq<nat>, i: nat, j: nat) {
    i < j < USER_PDES && j < |pd| && pd[i] != 0 && pd[j] != 0 ==> PageOf(pd[i]) != PageOf(pd[j])
  }

  ghost predicate WellFormed(pd: seq<nat>, tables: Tables) {
    |pd| == ENTRIES && (forall i: nat :: PdeOk(pd, tables, i)) && (forall i: nat, j: nat :: ApartOk(pd, i, j))
  }

  /** A nonzero user entry of the directory is present and leads to its table. */
  lemma PdeLeads(pd: seq<nat>, tables: Tables, i: nat)
    requires WellFormed(pd, tables) && i < USER_PDES && pd[i] != 0
    ensures Present(pd[i]) && PageOf(pd[i]) in tables && |tables[PageOf(pd[i])]| == ENTRIES && KernelPage(PageOf(pd[i]))
  {
    hide PageOf, PdeCreate;
    assert PdeOk(pd, tables, i);
    var pt :| KernelPage(pt) && pd[i] == PdeCreate(pt) && pt in tables && |tables[pt]| == ENTRIES;
    PdeIs(pt);
  }

  /** The table entry for user page `p`; zero if there is no table. */
  ghost function Entry(pd: seq<nat>, tables: Tables, p: nat): nat
    requires WellFormed(pd, tables) && p < USER_PAGES
  {
    var e := pd[p / ENTRIES];
    if e == 0 then 0 else
    PdeLeads(pd, tables, p / ENTRIES);
    tables[PageOf(e)][p % ENTRIES]
  }

  datatype Mapping = Unmapped | Mapped(frame: nat, writable: bool)

  /** What the tables mean. */
  ghost function Translation(pd: seq<nat>, tables: Tables, p: nat): Mapping
    requires WellFormed(pd, tables) && p < USER_PAGES
  {
    var e := Entry(pd, tables, p);
    if Present(e) then Mapped(PageOf(e), Writable(e)) else Unmapped
  }

  /** A new, zeroed page table changes no entry. */
  lemma NewTable(pd: seq<nat>, tables: Tables, i: nat, pt: nat)
    requires WellFormed(pd, tables) && i < USER_PDES && pd[i] == 0 && KernelPage(pt) && pt !in tables
    ensures WellFormed(pd[i := PdeCreate(pt)], tables[pt := seq(ENTRIES, _ => 0)]) && PdeCreate(pt) != 0 &&
            PageOf(PdeCreate(pt)) == pt
    ensures forall p: nat :: p < USER_PAGES ==>
              Entry(pd[i := PdeCreate(pt)], tables[pt := seq(ENTRIES, _ => 0)], p) == Entry(pd, tables, p)
  {
    hide PdeCreate, PageOf;
    assert PageOf(PdeCreate(pt)) == pt && PdeCreate(pt) != 0 by { PdeIs(pt); }
    var pd', tables' := pd[i := PdeCreate(pt)], tables[pt := seq(ENTRIES, _ => 0)];
    forall j: nat ensures PdeOk(pd', tables', j) {
      assert PdeOk(pd, tables, j);
    }
    forall j: nat, k: nat ensures ApartOk(pd', j, k) {
      assert ApartOk(pd, j, k);
      if k < USER_PDES && pd[k] != 0 { PdeLeads(pd, tables, k); }
      if j < USER_PDES && pd[j] != 0 { PdeLeads(pd, tables, j); }
    }
    forall p: nat | p < USER_PAGES ensures Entry(pd', tables', p) == Entry(pd, tables, p) {
      if pd[p / ENTRIES] != 0 { PdeLeads(pd, tables, p / ENTRIES); }
    }
  }

  lemma PdeIs(pt: nat)
    requires KernelPage(pt)
    ensures PdeCreate(pt) == Vtop(pt) + 7 && PageOf(PdeCreate(pt)) == pt && Present(PdeCreate(pt))
  {
    EntryFields(pt, FLAG_U + FLAG_P + FLAG_W);
  }

  function With(t: seq<nat>, i: nat, e: nat): seq<nat>
    requires i < |t|
  {
    t[i := e]
  }

  /** Writing one table entry changes the translation of one page. */
  lemma WriteEntry(pd: seq<nat>, tables: Tables, p: nat, e: nat)
    requires WellFormed(pd, tables) && p < USER_PAGES && pd[p / ENTRIES] != 0
    ensures PageOf(pd[p / ENTRIES]) in tables && |tables[PageOf(pd[p / ENTRIES])]| == ENTRIES
    ensures var pt := PageOf(pd[p / ENTRIES]);
            var tables' := tables[pt := With(tables[pt], p % ENTRIES, e)];
            WellFormed(pd, tables') && forall q: nat :: q < USER_PAGES ==>
                Entry(pd, tables', q) == if q == p then e else Entry(pd, tables, q)
  {
    hide PageOf, PdeCreate;
    PdeLeads(pd, tables, p / ENTRIES);
    var pt := PageOf(pd[p / ENTRIES]);
    var tables' := tables[pt := With(tables[pt], p % ENTRIES, e)];
    forall j: nat ensures PdeOk(pd, tables', j) {
      assert PdeOk(pd, tables, j);
    }
    forall q: nat | q < USER_PAGES ensures Entry(pd, tables', q) == if q == p then e else Entry(pd, tables, q) {
      var i, j := p / ENTRIES, q / ENTRIES;
      assert ApartOk(pd, i, j) && ApartOk(pd, j, i);
      if pd[j] != 0 { PdeLeads(pd, tables, j); }
    }
  }

  /** Page number, directory index, table index and offset of a user address. */
  lemma AddressSplit(va: nat)
    requires va < PHYS_BASE
    ensures va / PGSIZE < USER_PAGES && va / PGSIZE / ENTRIES == va / 0x40_0000 < USER_PDES
    ensures va == 0x40_0000 * (va / 0x40_0000) + PGSIZE * (va / PGSIZE % ENTRIES) + va % PGSIZE
  {
  }

  class Directory {
    const page: nat                    // where the directory itself is
    var pd: seq<nat>
    var tables: Tables

    ghost predicate Valid()
      reads this
    {
      |pd| == ENTRIES && WellFormed(pd, tables)
    }

    ghost function View(p: nat): Mapping
      requires Valid() && p < USER_PAGES
      reads this
    {
      Translation(pd, tables, p)
    }

    /** `pagedir_create`: a copy of the kernel's directory, which has no user mappings. */
    constructor (page: nat, initPageDir: seq<nat>)
      requires |initPageDir| == ENTRIES && forall i :: 0 <= i < USER_PDES ==> initPageDir[i] == 0
      ensures Valid() && this.page == page && Unshared(pd, tables, page) && pd == initPageDir
      ensures forall p: nat :: p < USER_PAGES ==> View(p) == Unmapped
    {
      this.page := page;
      pd, tables := initPageDir, map[];
    }

    /** `lookup_page` that may create a table from `newPage`: the table's address, if there is one in the end. */
    method LookupCreate(p: nat, newPage: Option<nat>) returns (r: Option<nat>)
      requires Valid() && p < USER_PAGES
      requires newPage.Some? ==> KernelPage(newPage.value) && newPage.value !in tables
      modifies this
      ensures Valid() && forall q: nat :: q < USER_PAGES ==> Entry(pd, tables, q) == old(Entry(pd, tables, q))
      ensures r.Some? <==> old(pd[p / ENTRIES]) != 0 || newPage.Some?
      ensures r.Some? ==> pd[p / ENTRIES] != 0 && r.value == PageOf(pd[p / ENTRIES])
      ensures r.None? ==> pd == old(pd) && tables == old(tables)
      ensures forall i :: 0 <= i < 1024 && i != p / 1024 ==> pd[i] == old(pd)[i]
      ensures pd[p / 1024] == if old(pd[p / 1024]) == 0 &&
              newPage.Some? then newPage.value - 0xC000_0000 + 7 else old(pd[p / 1024])
      ensures forall a: nat :: IsTable(pd, a) ==> old(IsTable(pd, a)) || newPage == Some(a)
    {
      hide PdeCreate, PageOf, WellFormed, Entry;
      var i := p / ENTRIES;
      if pd[i] == 0 {
        if newPage.None? {
          return None;
        }
        NewTable(pd, tables, i, newPage.value);
        PdeIs(newPage.value);
        pd := With(pd, i, PdeCreate(newPage.value));
        tables := tables[newPage.value := seq(ENTRIES, _ => 0)];
      }
      r := Some(PageOf(pd[i]));
    }

    /** `pagedir_set_page`: maps one page that was not mapped; without memory for a table, nothing changes. */
    method SetPage(upage: nat, kpage: nat, writable: bool, newPage: Option<nat>) returns (ok: bool)
      requires Valid() && upage < PHYS_BASE && PageAligned(upage) && KernelPage(kpage) &&
               View(upage / PGSIZE) == Unmapped
      requires newPage.Some? ==> KernelPage(newPage.value) && newPage.value !in tables
      modifies this
      ensures Valid() && (ok <==> old(pd[upage / PGSIZE / ENTRIES]) != 0 || newPage.Some?)
      ensures forall q: nat :: q < USER_PAGES ==>
                View(q) == if ok && q == upage / PGSIZE then Mapped(kpage, writable) else old(View(q))
      ensures forall i :: 768 <= i < 1024 ==> pd[i] == old(pd)[i]
      ensures ok ==> Entry(pd, tables, upage / PGSIZE) / 4 % 2 == 1
      ensures ok ==> Entry(pd, tables, upage / PGSIZE) == kpage - 0xC000_0000 + (if writable then 7 else 5)
      ensures old(Unshared(pd, tables, page) && !InUse(pd, tables, page, kpage)) &&
              (newPage.Some? ==> newPage.value != kpage && !old(InUse(pd, tables, page, newPage.value)))
              ==> Unshared(pd, tables, page)
    {
      hide PdeCreate, PteCreateUser, PageOf, WellFormed, Entry, Unshared, InUse, IsTable;
      var p := upage / PGSIZE;
      var pt := LookupCreate(p, newPage);
      if pt.None? {
        return false;
      }
      var e := PteCreateUser(kpage, writable);
      PteIs(kpage, writable);
      WriteEntry(pd, tables, p, e);
      tables := tables[pt.value := With(tables[pt.value], p % ENTRIES, e)];
      ok := true;
      if old(Unshared(pd, tables, page) && !InUse(pd, tables, page, kpage)) &&
         (newPage.Some? ==> newPage.value != kpage && !old(InUse(pd, tables, page, newPage.value)))
      {
        StaysUnshared(old(pd), old(tables), page, pd, tables, p, kpage, newPage);
      }
    }

    /** `lookup_page` that creates nothing, followed by a read of the entry. */
    method ReadEntry(p: nat) returns (e: Option<nat>)
      requires Valid() && p < USER_PAGES
      ensures (e.Some? <==> pd[p / ENTRIES] != 0) && Entry(pd, tables, p) == (if e.Some? then e.value else 0)
    {
      hide PdeCreate, PageOf;
      if pd[p / ENTRIES] == 0 {
        return None;
      }
      PdeLeads(pd, tables, p / ENTRIES);
      e := Some(tables[PageOf(pd[p / ENTRIES])][p % ENTRIES]);
    }

    /** `pagedir_get_page`: the frame that the address's page is mapped to, plus the offset. */
    method GetPage(uaddr: nat) returns (r: Option<nat>)
      requires Valid() && uaddr < PHYS_BASE
      ensures match View(uaddr / PGSIZE)
              case Unmapped => r == None
              case Mapped(frame, _) => r == Some(frame + uaddr % PGSIZE)
    {
      hide PdeCreate, PageOf, WellFormed, Entry;
      var e := ReadEntry(uaddr / PGSIZE);
      r := if e.Some? && Present(e.value) then Some(PageOf(e.value) + uaddr % PGSIZE) else None;
    }

    /** `pagedir_clear_page`: unmaps one page, keeping the other bits of its entry. */
    method ClearPage(upage: nat)
      requires Valid() && upage < PHYS_BASE && PageAligned(upage)
      modifies this
      ensures Valid()
      ensures forall q: nat :: q < USER_PAGES ==> View(q) == if q == upage / PGSIZE then Unmapped else old(View(q))
      ensures pd == old(pd)
      ensures Entry(pd, tables, upage / PGSIZE) / 2 == old(Entry(pd, tables, upage / PGSIZE)) / 2
      ensures old(Unshared(pd, tables, page)) ==> Unshared(pd, tables, page)
    {
      hide PdeCreate, PageOf, WellFormed, Entry;
      var p := upage / PGSIZE;
      var e := ReadEntry(p);
      if e.Some? && Present(e.value) {
        WriteEntry(pd, tables, p, e.value - 1);
        var pt := PageOf(pd[p / ENTRIES]);
        tables := tables[pt := With(tables[pt], p % ENTRIES, e.value - 1)];
        if old(Unshared(pd, tables, page)) {
          FewerUnshared(pd, old(tables), page, tables);
        }
      }
    }

    /**
     `pagedir_destroy`. `items` says what each freed page was: every mapped page's frame once,
     every page table once, and last the directory itself. No page is freed twice if and only
     if no frame serves two pages, or is at the same time a page table or the directory.
     */
    method Destroy() returns (freed: seq<nat>, items: seq<Item>)
      requires Valid()
      ensures |items| == |freed| && Increasing(items)
      ensures forall it :: it in items <==> Alive(pd, tables, it)
      ensures NoDup(freed) <==> Unshared(pd, tables, page)
      ensures forall k :: 0 <= k < |freed| ==>
                AliveIn(pd, items[k]) && freed[k] == AddressOf(pd, tables, page, items[k])
    {
      hide PdeCreate, PageOf, WellFormed, Entry;
      freed, items := [], [];
      var i := 0;
      while i < USER_PDES
        invariant i <= USER_PDES && Collected(pd, tables, page, freed, items, 1025 * i)
      {
        if pd[i] == 0 {
          NothingThere(pd, tables, page, freed, items, i);
        } else {
          freed, items := FreeTable(i, freed, items);
        }
        i := i + 1;
      }
      OneMore(pd, tables, page, freed, items, Dir);
      freed := freed + [page];
      items := items + [Dir];
      forall it | InRange(it) ensures Rank(it) <= Rank(Dir) { RankBound(it); }
      FreedOnceIff(pd, tables, page, freed, items);
    }

    /** The inner loop of `pagedir_destroy`, and the table itself. */
    method FreeTable(i: nat, freed0: seq<nat>, items0: seq<Item>) returns (freed: seq<nat>, items: seq<Item>)
      requires Valid() && i < USER_PDES && pd[i] != 0 && Collected(pd, tables, page, freed0, items0, 1025 * i)
      ensures Collected(pd, tables, page, freed, items, 1025 * (i + 1))
    {
      hide PdeCreate, PageOf, WellFormed, Entry;
      PdeLeads(pd, tables, i);
      var pt := PageOf(pd[i]);
      freed, items := freed0, items0;
      var j := 0;
      while j < ENTRIES
        invariant j <= ENTRIES && Collected(pd, tables, page, freed, items, 1025 * i + j)
      {
        var e := tables[pt][j];
        EntryAt(pd, tables, i, j);
        OneMore(pd, tables, page, freed, items, Frame(1024 * i + j));
        if Present(e) {
          freed := freed + [PageOf(e)];
          items := items + [Frame(1024 * i + j)];
        }
        j := j + 1;
      }
      OneMore(pd, tables, page, freed, items, Table(i));
      freed := freed + [pt];
      items := items + [Table(i)];
    }
  }

  lemma PteIs(page: nat, writable: bool)
    requires KernelPage(page)
    ensures var e := PteCreateUser(page, writable); PageOf(e) == page && Present(e) && Writable(e) == writable
    ensures PteCreateUser(page, writable) == page - 0xC000_0000 + (if writable then 7 else 5)
    ensures PteCreateUser(page, writable) / 4 % 2 == 1
  {
    hide Or, PageOf;
    EntryFields(page, FLAG_P + (if writable then FLAG_W else 0) + FLAG_U);
    FlagBits(page / PGSIZE - PHYS_BASE / PGSIZE, writable);
  }

  lemma FlagBits(m: nat, writable: bool)
    ensures var e := 4096 * m + (if writable then 7 else 5); Present(e) && Writable(e) == writable && e / 4 % 2 == 1
  {
  }

  // ---- what destroying frees ----------------------------------------------------------------------

  datatype Item = Frame(page: nat) | Table(pde: nat) | Dir

  predicate InRange(it: Item) {
    match it
    case Frame(p) => p < USER_PAGES
    case Table(i) => i < USER_PDES
    case Dir => true
  }

  /** The order in which `pagedir_destroy` frees: a table's frames, then the table, then the next table. */
  function Rank(it: Item): nat {
    match it
    case Frame(p) => p + p / ENTRIES
    case Table(i) => 1025 * i + 1024
    case Dir => 1025 * USER_PDES
  }

  lemma RankInjective(a: Item, b: Item)
    requires InRange(a) && InRange(b) && Rank(a) == Rank(b)
    ensures a == b
  {
  }

  predicate AliveIn(pd: seq<nat>, it: Item) {
    InRange(it) && |pd| == ENTRIES && (it.Table? ==> pd[it.pde] != 0)
  }

  /** The mapped pages, the page tables and the directory. */
  ghost predicate Alive(pd: seq<nat>, tables: Tables, it: Item)
    requires WellFormed(pd, tables)
  {
    AliveIn(pd, it) && (it.Frame? ==> Translation(pd, tables, it.page).Mapped?)
  }

  ghost function AddressOf(pd: seq<nat>, tables: Tables, pdPage: nat, it: Item): nat
    requires WellFormed(pd, tables) && AliveIn(pd, it)
  {
    match it
    case Frame(p) => (match Translation(pd, tables, p) case Mapped(frame, _) => frame case Unmapped => 0)
    case Table(i) => PageOf(pd[i])
    case Dir => pdPage
  }

  ghost predicate Increasing(items: seq<Item>) {
    forall j, k :: 0 <= j < k < |items| ==> Rank(items[j]) < Rank(items[k])
  }

  /** Exactly the items ranked below `bound` have been freed. */
  ghost predicate Collected(pd: seq<nat>, tables: Tables, pdPage: nat, freed: seq<nat>, items: seq<Item>, bound: nat) {
    && WellFormed(pd, tables) && |items| == |freed| && Increasing(items)
    && (forall it :: it in items <==> Alive(pd, tables, it) && Rank(it) < bound)
    && (forall k :: 0 <= k < |freed| ==> AliveIn(pd, items[k]) && freed[k] == AddressOf(pd, tables, pdPage, items[k]))
  }

  /** Freeing the next item in order, if it is alive. */
  lemma OneMore(pd: seq<nat>, tables: Tables, pdPage: nat, freed: seq<nat>, items: seq<Item>, it: Item)
    requires Collected(pd, tables, pdPage, freed, items, Rank(it)) && InRange(it)
    ensures if Alive(pd, tables, it) then Collected(pd, tables, pdPage, freed + [AddressOf(pd, tables, pdPage, it)],
              items + [it], Rank(it) + 1)
            else Collected(pd, tables, pdPage, freed, items, Rank(it) + 1)
  {
    hide WellFormed, Translation, AddressOf;
    forall x | Alive(pd, tables, x) && Rank(x) < Rank(it) + 1 ensures x in items || x == it {
      if Rank(x) == Rank(it) {
        RankInjective(x, it);
      }
    }
    forall k | 0 <= k < |items| ensures Rank(items[k]) < Rank(it) {
      assert items[k] in items;
    }
  }

  /** Without a table nothing of it is there to free. */
  lemma NothingThere(pd: seq<nat>, tables: Tables, pdPage: nat, freed: seq<nat>, items: seq<Item>, i: nat)
    requires Collected(pd, tables, pdPage, freed, items, 1025 * i) && i < USER_PDES && |pd| == ENTRIES && pd[i] == 0
    ensures Collected(pd, tables, pdPage, freed, items, 1025 * (i + 1))
  {
    hide WellFormed, AddressOf;
    forall x | InRange(x) && 1025 * i <= Rank(x) < 1025 * (i + 1) ensures !Alive(pd, tables, x) {
      RankPde(x, i);
    }
  }

  lemma RankBound(it: Item)
    requires InRange(it)
    ensures Rank(it) <= Rank(Dir)
  {
  }

  lemma RankPde(x: Item, i: nat)
    requires InRange(x) && i < USER_PDES && 1025 * i <= Rank(x) < 1025 * (i + 1)
    ensures match x case Frame(p) => p / ENTRIES == i case Table(j) => j == i case Dir => false
  {
  }

  lemma EntryAt(pd: seq<nat>, tables: Tables, i: nat, j: nat)
    requires WellFormed(pd, tables) && i < USER_PDES && j < ENTRIES && pd[i] != 0
    ensures PageOf(pd[i]) in tables && |tables[PageOf(pd[i])]| == ENTRIES && 1024 * i + j < USER_PAGES
    ensures Entry(pd, tables, 1024 * i + j) == tables[PageOf(pd[i])][j] && Rank(Frame(1024 * i + j)) == 1025 * i + j
  {
    PdeLeads(pd, tables, i);
    assert (1024 * i + j) / ENTRIES == i && (1024 * i + j) % ENTRIES == j;
  }

  // ---- sharing -------------------------------------------------------------------------------------

  /** `a` is the page of a page table. */
  ghost predicate IsTable(pd: seq<nat>, a: nat) {
    exists i: nat :: i < USER_PDES && i < |pd| && pd[i] != 0 && PageOf(pd[i]) == a
  }

  /** A mapped frame is neither a page table nor the directory. */
  ghost predicate FrameOk(pd: seq<nat>, tables: Tables, pdPage: nat, p: nat)
    requires WellFormed(pd, tables)
  {
    p < USER_PAGES && Translation(pd, tables, p).Mapped? ==>
      var a := Translation(pd, tables, p).frame; !IsTable(pd, a) && a != pdPage
  }

  ghost predicate FramesApart(pd: seq<nat>, tables: Tables, p: nat, q: nat)
    requires WellFormed(pd, tables)
  {
    p < q < USER_PAGES && Translation(pd, tables, p).Mapped? && Translation(pd, tables, q).Mapped? ==>
      Translation(pd, tables, p).frame != Translation(pd, tables, q).frame
  }

  /** No frame is mapped twice, and none is also a page table or the directory, which is no page table either. */
  ghost predicate Unshared(pd: seq<nat>, tables: Tables, pdPage: nat)
    requires WellFormed(pd, tables)
  {
    && (forall p: nat :: FrameOk(pd, tables, pdPage, p))
    && (forall p: nat, q: nat :: FramesApart(pd, tables, p, q))
    && !IsTable(pd, pdPage)
  }

  ghost predicate InUse(pd: seq<nat>, tables: Tables, pdPage: nat, a: nat)
    requires WellFormed(pd, tables)
  {
    a == pdPage || IsTable(pd, a) || exists p: nat :: p < USER_PAGES && Translation(pd, tables, p).Mapped? &&
                                                      Translation(pd, tables, p).frame == a
  }

  ghost predicate NoDup(s: seq<nat>) {
    forall j, k :: 0 <= j < k < |s| ==> s[j] != s[k]
  }

  /** Different things to free are at different addresses; page tables are by construction. */
  lemma AddressesApart(pd: seq<nat>, tables: Tables, pdPage: nat, a: Item, b: Item)
    requires WellFormed(pd, tables) && Unshared(pd, tables, pdPage)
    requires Alive(pd, tables, a) && Alive(pd, tables, b) && Rank(a) < Rank(b)
    ensures AddressOf(pd, tables, pdPage, a) != AddressOf(pd, tables, pdPage, b)
  {
    hide PageOf, Entry;
    if a.Frame? {
      assert FrameOk(pd, tables, pdPage, a.page);
    }
    match b {
      case Frame(q) =>
        assert FrameOk(pd, tables, pdPage, q);
        if a.Frame? { assert FramesApart(pd, tables, a.page, q); }
      case Table(j) =>
        if a.Table? { assert ApartOk(pd, a.pde, j); }
      case Dir =>
    }
  }

  /** What `Destroy` frees has no repetition exactly when nothing is shared. */
  lemma FreedOnceIff(pd: seq<nat>, tables: Tables, pdPage: nat, freed: seq<nat>, items: seq<Item>)
    requires WellFormed(pd, tables) && |items| == |freed| && Increasing(items)
    requires forall it :: it in items <==> Alive(pd, tables, it)
    requires forall x :: 0 <= x < |freed| ==>
               AliveIn(pd, items[x]) && freed[x] == AddressOf(pd, tables, pdPage, items[x])
    ensures NoDup(freed) <==> Unshared(pd, tables, pdPage)
  {
    hide Unshared, WellFormed;
    if Unshared(pd, tables, pdPage) {
      forall j, k | 0 <= j < k < |freed| ensures freed[j] != freed[k] {
        assert items[j] in items && items[k] in items;
        AddressesApart(pd, tables, pdPage, items[j], items[k]);
      }
    }
    if NoDup(freed) {
      forall a, b | Alive(pd, tables, a) && Alive(pd, tables, b) && a != b
        ensures AddressOf(pd, tables, pdPage, a) != AddressOf(pd, tables, pdPage, b)
      {
        var j :| 0 <= j < |items| && items[j] == a;
        var k :| 0 <= k < |items| && items[k] == b;
      }
      ApartUnshared(pd, tables, pdPage);
    }
  }

  lemma ApartUnshared(pd: seq<nat>, tables: Tables, pdPage: nat)
    requires WellFormed(pd, tables)
    requires forall a, b :: Alive(pd, tables, a) && Alive(pd, tables, b) && a != b ==>
               AddressOf(pd, tables, pdPage, a) != AddressOf(pd, tables, pdPage, b)
    ensures Unshared(pd, tables, pdPage)
  {
    hide PageOf, Entry;
    assert Alive(pd, tables, Dir);
    forall i: nat | i < USER_PDES && pd[i] != 0 ensures PageOf(pd[i]) != pdPage {
      assert Alive(pd, tables, Table(i));
    }
    forall p: nat ensures FrameOk(pd, tables, pdPage, p) {
      if p < USER_PAGES && Translation(pd, tables, p).Mapped? {
        assert Alive(pd, tables, Frame(p));
        forall i: nat | i < USER_PDES && pd[i] != 0 ensures PageOf(pd[i]) != Translation(pd, tables, p).frame {
          assert Alive(pd, tables, Table(i));
        }
      }
    }
    forall p: nat, q: nat ensures FramesApart(pd, tables, p, q) {
      if p < q < USER_PAGES && Translation(pd, tables, p).Mapped? && Translation(pd, tables, q).Mapped? {
        assert Alive(pd, tables, Frame(p)) && Alive(pd, tables, Frame(q));
      }
    }
  }

  /** Unmapping pages shares nothing. */
  lemma FewerUnshared(pd: seq<nat>, tables: Tables, pdPage: nat, tables': Tables)
    requires WellFormed(pd, tables) && WellFormed(pd, tables') && Unshared(pd, tables, pdPage)
    requires forall q: nat :: q < USER_PAGES && Translation(pd, tables', q).Mapped? ==>
               Translation(pd, tables', q) == Translation(pd, tables, q)
    ensures Unshared(pd, tables', pdPage)
  {
    hide PageOf, Entry, WellFormed, IsTable, Translation;
    forall q: nat ensures FrameOk(pd, tables', pdPage, q) {
      assert FrameOk(pd, tables, pdPage, q);
    }
    forall q: nat, r: nat ensures FramesApart(pd, tables', q, r) {
      assert FramesApart(pd, tables, q, r);
    }
  }

  /** Mapping a page to a frame that is not in use, with a new table that is not in use, shares nothing. */
  lemma StaysUnshared(pd: seq<nat>, tables: Tables, pdPage: nat, pd': seq<nat>, tables': Tables, p: nat, kpage: nat,
                      newPage: Option<nat>)
    requires WellFormed(pd, tables) && WellFormed(pd', tables') && Unshared(pd, tables, pdPage) && p < USER_PAGES
    requires !InUse(pd, tables, pdPage, kpage) &&
             (newPage.Some? ==> newPage.value != kpage && !InUse(pd, tables, pdPage, newPage.value))
    requires forall a: nat :: IsTable(pd', a) ==> IsTable(pd, a) || newPage == Some(a)
    requires forall q: nat :: q < USER_PAGES ==>
               (q != p ==> Translation(pd', tables', q) == Translation(pd, tables, q)) &&
               (q == p ==> Translation(pd', tables', q).Mapped? && Translation(pd', tables', q).frame == kpage)
    ensures Unshared(pd', tables', pdPage)
  {
    hide PageOf, Entry, WellFormed, IsTable, Translation;
    forall q: nat ensures FrameOk(pd', tables', pdPage, q) {
      assert FrameOk(pd, tables, pdPage, q);
    }
    forall q: nat, r: nat ensures FramesApart(pd', tables', q, r) {
      assert FramesApart(pd, tables, q, r);
    }
  }
}
