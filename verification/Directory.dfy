/**
 A directory is a file of 20-byte slots: inode sector (little-endian), 15 bytes of
 null-terminated name, in-use flag. The operations scan and patch those bytes through the
 inode layer; the lemmas say what they mean for the map from names to inode sectors.

 A slot is never a whole sector, so each access needs the bounce buffer. A scan stops at
 the first access that fails, so the memory situation during a scan is one number: how
 many slots can be read before the allocation fails.
 */
module Directory {
  import opened Bytes
  import opened Options
  import opened InodeIo

  const SLOT: nat := 20
  const NAME_MAX: nat := 14

  datatype Slot = Slot(sector: nat, name: Name, inUse: bool)

  // ---- bytes of a slot ----------------------------------------------------------------

  function Decode(b: seq<byte>): (s: Slot)
    requires |b| == SLOT
    ensures s.sector < 0x1_0000_0000
  {
    Slot(Le32(b[..4]), CString(b[4..19]), b[19] != 0)
  }

  function SlotCount(e: Extent): nat {
    e.length / SLOT
  }

  /** The directory's slots, decoded from the device. */
  function Slots(sectors: seq<seq<byte>>, e: Extent): (s: seq<Slot>)
    requires WellFormed(sectors) && Fits(sectors, e)
    ensures |s| == SlotCount(e)
  {
    var c := Contents(sectors, e);
    seq(SlotCount(e), k requires 0 <= k < SlotCount(e) => Decode(c[SLOT * k..SLOT * k + SLOT]))
  }

  /** Patching the bytes of slot `k` replaces that slot and no other. */
  lemma PatchSlot(a: seq<seq<byte>>, b: seq<seq<byte>>, e: Extent, k: nat, raw: seq<byte>)
    requires WellFormed(a) && Fits(a, e) && k < SlotCount(e) && |raw| == SLOT
    requires Updated(a, b, SECTOR * e.start + SLOT * k, raw)
    ensures Slots(b, e) == Slots(a, e)[k := Decode(raw)]
  {
    hide Contents, Decode;
    UpdateWithin(a, b, e, SLOT * k, raw);
    var c := Contents(a, e);
    forall j | 0 <= j < SlotCount(e)
      ensures Slots(b, e)[j] == Slots(a, e)[k := Decode(raw)][j]
    {
      if j == k {
        SlotPatched(c, k, raw);
      } else {
        SlotKept(c, SLOT * k, raw, j);
      }
    }
  }

  lemma SlotPatched(c: seq<byte>, k: nat, raw: seq<byte>)
    requires |raw| == SLOT && SLOT * k + SLOT <= |c|
    ensures (c[..SLOT * k] + raw + c[SLOT * k + SLOT..])[SLOT * k..SLOT * k + SLOT] == raw
  {
  }

  lemma SlotKept(c: seq<byte>, at: nat, d: seq<byte>, j: nat)
    requires at + |d| <= |c| && SLOT * j + SLOT <= |c| && (SLOT * j + SLOT <= at || at + |d| <= SLOT * j)
    ensures (c[..at] + d + c[at + |d|..])[SLOT * j..SLOT * j + SLOT] == c[SLOT * j..SLOT * j + SLOT]
  {
  }

  // ---- what the scans compute -------------------------------------------------------------

  predicate Matches(s: Slot, name: Name) {
    s.inUse && s.name == name
  }

  /** The first of the slots from `k` on, among the first `limit`, that satisfies `p`; otherwise `limit`. */
  function FirstFrom(slots: seq<Slot>, p: Slot -> bool, k: nat, limit: nat): (r: nat)
    requires k <= limit <= |slots|
    ensures k <= r <= limit && (r < limit ==> p(slots[r]))
    ensures forall j :: k <= j < r ==> !p(slots[j])
    decreases limit - k
  {
    if k == limit || p(slots[k]) then k else FirstFrom(slots, p, k + 1, limit)
  }

  /** How many slots a scan can see when `budget` reads succeed. */
  function Visible(n: nat, budget: nat): nat {
    if budget < n then budget else n
  }

  /** `lookup`: the index of the first visible slot in use under `name`. */
  function Find(slots: seq<Slot>, name: Name, budget: nat): (r: Option<nat>)
    ensures r.Some? ==> r.value < |slots| && Matches(slots[r.value], name)
    ensures r.None? ==> forall k :: 0 <= k < Visible(|slots|, budget) ==> !Matches(slots[k], name)
  {
    var limit := Visible(|slots|, budget);
    var k := FirstFrom(slots, s => Matches(s, name), 0, limit);
    if k < limit then Some(k) else None
  }

  /** Where `dir_add` puts a new entry: the first visible free slot, or wherever the scan stopped. */
  function FreeSlot(slots: seq<Slot>, budget: nat): (r: nat)
    ensures r <= |slots|
  {
    FirstFrom(slots, (s: Slot) => !s.inUse, 0, Visible(|slots|, budget))
  }

  /** A lookup that can read `budget` slots finds the first of these that has the name, if one has. */
  lemma FindIsLeast(slots: seq<Slot>, name: Name, budget: nat, k: nat)
    ensures Find(slots, name, budget) == Some(k) <==>
              && k < |slots| && k < budget && slots[k].inUse && slots[k].name == name
              && forall j :: 0 <= j < k ==> !(slots[j].inUse && slots[j].name == name)
  {
    if k < |slots| && k < budget && slots[k].inUse && slots[k].name == name &&
       forall j :: 0 <= j < k ==> !(slots[j].inUse && slots[j].name == name)
    {
      var r := Find(slots, name, budget);
      assert Matches(slots[k], name) && r.Some? && Matches(slots[r.value], name);
    }
  }

  // ---- the operations ------------------------------------------------------------------------

  /** One step of a scan: reads slot `k` into `buf`, unless it is past the end or memory is out. */
  method ReadSlot(dev: Device, e: Extent, buf: array<byte>, k: nat, mallocOk: bool) returns (ok: bool)
    requires dev.Valid() && Fits(dev.sectors, e) && buf.Length == SLOT
    modifies buf
    ensures ok <==> k < SlotCount(e) && mallocOk
    ensures ok ==> Decode(buf[..]) == Slots(dev.sectors, e)[k]
    ensures !ok && mallocOk ==> k >= SlotCount(e)
  {
    var n := ReadAt(dev, e, buf, SLOT, SLOT * k, mallocOk);
    ok := n == SLOT;
    if ok {
      assert buf[..] == buf[..SLOT];
    }
  }

  /** `lookup`: the buffer is left holding the slot that was found. */
  method Lookup(dev: Device, e: Extent, name: Name, buf: array<byte>, budget: nat) returns (r: Option<nat>)
    requires dev.Valid() && Fits(dev.sectors, e) && buf.Length == SLOT
    modifies buf
    ensures r == Find(Slots(dev.sectors, e), name, budget)
    ensures r.Some? ==> Decode(buf[..]) == Slots(dev.sectors, e)[r.value]
  {
    var k := 0;
    ghost var slots := Slots(dev.sectors, e);
    ghost var p := (s: Slot) => Matches(s, name);
    ghost var limit := Visible(|slots|, budget);
    while true
      invariant 0 <= k <= limit
      invariant FirstFrom(slots, p, 0, limit) == FirstFrom(slots, p, k, limit)
      decreases limit - k
    {
      var ok := ReadSlot(dev, e, buf, k, k < budget);
      if !ok {
        break;
      }
      if buf[19] != 0 && CString(buf[4..19]) == name {
        assert Decode(buf[..]) == slots[k] && buf[..][19] == buf[19] && buf[..][4..19] == buf[4..19];
        return Some(k);
      }
      assert buf[..][19] == buf[19] && buf[..][4..19] == buf[4..19];
      k := k + 1;
    }
    r := None;
  }

  /** `strlcpy` into the name field, the flag and the sector number: the buffer then decodes to the new entry. */
  method FillSlot(buf: array<byte>, name: Name, sector: nat)
    requires buf.Length == SLOT && |name| <= NAME_MAX && 0 !in name && sector < 0x1_0000_0000
    modifies buf
    ensures Decode(buf[..]) == Slot(sector, name, true)
    ensures buf[..4] == ToLe32(sector) && buf[4..4 + |name|] == name && buf[4 + |name|] == 0 && buf[19] == 1
  {
    buf[19] := 1;
    CopyInto(buf, 4, name + [0]);
    CopyInto(buf, 0, ToLe32(sector));
    ghost var raw := buf[..];
    assert raw[..4] == ToLe32(sector);
    assert raw[4..19][..|name|] == name by {
      forall i | 0 <= i < |name| ensures raw[4..19][i] == name[i] {
        assert raw[4 + i] == (name + [0])[i];
      }
    }
    assert raw[4..19][|name|] == 0;
    CStringUnique(raw[4..19], name);
  }

  /** What `dir_add` does to the slots, and whether it reports success. */
  function Added(slots: seq<Slot>, name: Name, sector: nat, lookupBudget: nat, scanBudget: nat,
                 writeOk: bool): (seq<Slot>, bool) {
    if name == [] || |name| > NAME_MAX || Find(slots, name, lookupBudget).Some? then (slots, false) else
    var k := FreeSlot(slots, scanBudget);
    if k < |slots| && writeOk then (slots[k := Slot(sector, name, true)], true) else (slots, false)
  }

  /**
   In terms of the slots alone: the scan for a place stops at the first free slot, at the end,
   or after `scanBudget` slots, and the entry goes wherever it stopped.
   */
  lemma AddedMeans(slots: seq<Slot>, name: Name, sector: nat, lookupBudget: nat, scanBudget: nat, writeOk: bool, k: nat)
    requires k <= |slots| && k <= scanBudget && forall j :: 0 <= j < k ==> slots[j].inUse
    requires k == |slots| || k == scanBudget || !slots[k].inUse
    ensures var absent := forall j :: 0 <= j < |slots| && j < lookupBudget ==>
              !(slots[j].inUse && slots[j].name == name);
            Added(slots, name, sector, lookupBudget, scanBudget, writeOk) ==
              if 0 < |name| <= 14 && absent && k < |slots| && writeOk then (slots[k := Slot(sector, name, true)], true)
              else (slots, false)
  {
    assert FreeSlot(slots, scanBudget) == k;
    var found := Find(slots, name, lookupBudget);
    if found.Some? {
      FindIsLeast(slots, name, lookupBudget, found.value);
    } else {
      forall j | 0 <= j < |slots| && j < lookupBudget ensures !(slots[j].inUse && slots[j].name == name) {
        assert !Matches(slots[j], name);
      }
    }
  }

  method Add(dev: Device, e: Extent, denyWriteCnt: nat, name: Name, sector: nat, lookupBudget: nat, scanBudget: nat,
             mallocOk: bool)
    returns (success: bool)
    requires dev.Valid() && Fits(dev.sectors, e) && 0 !in name && sector < 0x1_0000_0000
    modifies dev
    ensures dev.Valid() && |dev.sectors| == |old(dev.sectors)|
    ensures (Slots(dev.sectors, e), success) ==
              Added(Slots(old(dev.sectors), e), name, sector, lookupBudget, scanBudget, mallocOk && denyWriteCnt == 0)
    ensures OnlyWithin(old(dev.sectors), dev.sectors, e)
  {
    if name == [] || |name| > NAME_MAX {
      return false;
    }
    var buf := new byte[SLOT];
    var found := Lookup(dev, e, name, buf, lookupBudget);
    if found.Some? {
      return false;
    }
    var k := 0;
    ghost var slots := Slots(dev.sectors, e);
    ghost var p := (s: Slot) => !s.inUse;
    ghost var limit := Visible(|slots|, scanBudget);
    while true
      modifies buf
      invariant 0 <= k <= limit
      invariant FirstFrom(slots, p, 0, limit) == FirstFrom(slots, p, k, limit)
      decreases limit - k
    {
      var ok := ReadSlot(dev, e, buf, k, k < scanBudget);
      if !ok {
        break;
      }
      assert buf[..][19] == buf[19];
      if buf[19] == 0 {
        break;
      }
      k := k + 1;
    }
    FillSlot(buf, name, sector);
    success := WriteSlot(dev, e, denyWriteCnt, buf[..], k, mallocOk);
  }

  /** Two extents with no sector in common. */
  predicate Apart(a: Extent, b: Extent) {
    a.start + SectorsFor(a.length) <= b.start || b.start + SectorsFor(b.length) <= a.start
  }

  predicate InExtent(s: nat, e: Extent) {
    e.start <= s < e.start + SectorsFor(e.length)
  }

  /** Only sectors of `e` differ between `a` and `b`. */
  ghost predicate OnlyWithin(a: seq<seq<byte>>, b: seq<seq<byte>>, e: Extent) {
    && WellFormed(a) && WellFormed(b) && |b| == |a|
    && forall s :: 0 <= s < |a| && !InExtent(s, e) ==> b[s] == a[s]
  }

  lemma UpdateOnlyWithin(a: seq<seq<byte>>, b: seq<seq<byte>>, e: Extent, offset: nat, d: seq<byte>)
    requires Fits(a, e) && offset + |d| <= e.length && Updated(a, b, SECTOR * e.start + offset, d)
    ensures OnlyWithin(a, b, e)
  {
    forall s | 0 <= s < |a| && !InExtent(s, e) ensures b[s] == a[s] {
      forall j | 0 <= j < SECTOR ensures b[s][j] == a[s][j] {
        AtSector(a, s, j);
        AtSector(b, s, j);
      }
    }
  }

  /** A file apart from `e` keeps its bytes. */
  lemma ApartKeeps(a: seq<seq<byte>>, b: seq<seq<byte>>, e: Extent, x: Extent)
    requires OnlyWithin(a, b, e) && Fits(a, x) && Apart(x, e)
    ensures Contents(b, x) == Contents(a, x)
  {
    forall i | 0 <= i < x.length ensures Contents(b, x)[i] == Contents(a, x)[i] {
      var p := SECTOR * x.start + i;
      assert x.start <= p / SECTOR < x.start + SectorsFor(x.length);
      assert !InExtent(p / SECTOR, e);
      assert b[p / SECTOR] == a[p / SECTOR];
      assert At(b, p) == At(a, p);
    }
  }

  /** Writes slot `k` back; past the end, denied, or out of memory, nothing changes. */
  method WriteSlot(dev: Device, e: Extent, denyWriteCnt: nat, raw: seq<byte>, k: nat, mallocOk: bool) returns (ok: bool)
    requires dev.Valid() && Fits(dev.sectors, e) && |raw| == SLOT && k <= SlotCount(e)
    modifies dev
    ensures dev.Valid() && |dev.sectors| == |old(dev.sectors)|
    ensures ok <==> k < SlotCount(e) && mallocOk && denyWriteCnt == 0
    ensures Slots(dev.sectors, e) == if ok then Slots(old(dev.sectors), e)[k := Decode(raw)]
              else Slots(old(dev.sectors), e)
    ensures OnlyWithin(old(dev.sectors), dev.sectors, e)
  {
    SlotTransfer(e, k, mallocOk);
    var n := WriteAt(dev, e, denyWriteCnt, raw, SLOT, SLOT * k, mallocOk);
    ok := n == SLOT;
    ghost var was := old(dev.sectors);
    if ok {
      assert raw[..SLOT] == raw;
      PatchSlot(was, dev.sectors, e, k, raw);
    } else if n > 0 {
      PatchTail(was, dev.sectors, e, raw[..n]);
    }
    if n > 0 {
      UpdateOnlyWithin(was, dev.sectors, e, SLOT * k, raw[..n]);
    }
  }

  lemma SlotTransfer(e: Extent, k: nat, mallocOk: bool)
    requires k <= SlotCount(e)
    ensures Transferred(e, SLOT, SLOT * k, mallocOk) ==
              if !mallocOk then 0 else if k < SlotCount(e) then SLOT else e.length - SLOT * k
    ensures k == SlotCount(e) ==> e.length - SLOT * k < SLOT
  {
  }

  /** Bytes after the last whole slot belong to no slot. */
  lemma PatchTail(a: seq<seq<byte>>, b: seq<seq<byte>>, e: Extent, d: seq<byte>)
    requires Fits(a, e) && SLOT * SlotCount(e) + |d| <= e.length
    requires Updated(a, b, SECTOR * e.start + SLOT * SlotCount(e), d)
    ensures Slots(b, e) == Slots(a, e)
  {
    hide Contents, Decode;
    UpdateWithin(a, b, e, SLOT * SlotCount(e), d);
    forall j | 0 <= j < SlotCount(e) ensures Slots(b, e)[j] == Slots(a, e)[j] {
      SlotKept(Contents(a, e), SLOT * SlotCount(e), d, j);
    }
  }

  /** Erases slot `k`, whose bytes are in `buf`. */
  method Erase(dev: Device, e: Extent, denyWriteCnt: nat, buf: array<byte>, k: nat, mallocOk: bool) returns (ok: bool)
    requires dev.Valid() && Fits(dev.sectors, e) && buf.Length == SLOT && k < SlotCount(e)
    requires Decode(buf[..]) == Slots(dev.sectors, e)[k]
    modifies dev, buf
    ensures dev.Valid() && OnlyWithin(old(dev.sectors), dev.sectors, e)
    ensures ok <==> mallocOk && denyWriteCnt == 0
    ensures Slots(dev.sectors, e) == Erased(Slots(old(dev.sectors), e), k, ok)
  {
    ghost var was := buf[..];
    buf[19] := 0;
    assert buf[..][..4] == was[..4] && buf[..][4..19] == was[4..19];
    ok := WriteSlot(dev, e, denyWriteCnt, buf[..], k, mallocOk);
  }

  function Erased(slots: seq<Slot>, k: nat, ok: bool): seq<Slot>
    requires k < |slots|
  {
    if ok then slots[k := slots[k].(inUse := false)] else slots
  }

  /** `dir_readdir`: the next name in use at or after slot position `pos`, which then moves past it. */
  method ReadDir(dev: Device, e: Extent, pos: nat, budget: nat) returns (pos': nat, r: Option<Name>)
    requires dev.Valid() && Fits(dev.sectors, e)
    ensures var slots := Slots(dev.sectors, e);
            var limit := Visible(|slots|, budget);
            if pos > limit then r == None && pos' == pos else
            var k := FirstFrom(slots, (s: Slot) => s.inUse, pos, limit);
            if k < limit then r == Some(slots[k].name) && pos' == k + 1 else r == None && pos' == k
  {
    var buf := new byte[SLOT];
    pos' := pos;
    ghost var slots := Slots(dev.sectors, e);
    ghost var p := (s: Slot) => s.inUse;
    ghost var limit := Visible(|slots|, budget);
    while true
      invariant if pos > limit then pos' == pos
                else pos <= pos' <= limit && FirstFrom(slots, p, pos, limit) == FirstFrom(slots, p, pos', limit)
      decreases limit - pos'
    {
      var ok := ReadSlot(dev, e, buf, pos', pos' < budget);
      if !ok {
        break;
      }
      assert buf[..][19] == buf[19] && buf[..][4..19] == buf[4..19];
      pos' := pos' + 1;
      if buf[19] != 0 {
        return pos', Some(CString(buf[4..19]));
      }
    }
    r := None;
  }

  // ---- the directory as a map --------------------------------------------------------------

  predicate UniqueNames(slots: seq<Slot>) {
    forall i, j :: 0 <= i < j < |slots| && slots[i].inUse && slots[j].inUse ==> slots[i].name != slots[j].name
  }

  ghost predicate Lists(slots: seq<Slot>, name: Name, sector: nat) {
    exists k :: 0 <= k < |slots| && Matches(slots[k], name) && slots[k].sector == sector
  }

  /** Enough memory to see every slot. */
  predicate Ample(slots: seq<Slot>, budget: nat) {
    |slots| <= budget
  }

  /** `lookup` agrees with the map: it finds exactly the listed names, and the sector is determined. */
  lemma FindIsMap(slots: seq<Slot>, name: Name, budget: nat)
    requires UniqueNames(slots) && Ample(slots, budget)
    ensures Find(slots, name, budget).Some? <==> exists sector :: Lists(slots, name, sector)
    ensures Find(slots, name, budget).Some? ==>
              forall sector :: Lists(slots, name, sector) <==> sector == slots[Find(slots, name, budget).value].sector
  {
    var f := Find(slots, name, budget);
    if f.Some? {
      assert Lists(slots, name, slots[f.value].sector);
    }
  }

  /** The map of `after` is that of `slots` plus `name` -> `sector`, and it is still a map. */
  ghost predicate GainsExactly(slots: seq<Slot>, after: seq<Slot>, name: Name, sector: nat) {
    && UniqueNames(after)
    && forall n, s :: Lists(after, n, s) <==> Lists(slots, n, s) || (n == name && s == sector)
  }

  predicate Absent(slots: seq<Slot>, name: Name) {
    forall k :: 0 <= k < |slots| ==> !Matches(slots[k], name)
  }

  /** What a caller of `dir_add` can check beforehand: the scans, as far as they get, will not mislead it. */
  predicate ScansSuffice(slots: seq<Slot>, name: Name, lookupBudget: nat, scanBudget: nat) {
    Find(slots, name, lookupBudget).Some? || FreeSlot(slots, scanBudget) == |slots| ||
    (Absent(slots, name) && !slots[FreeSlot(slots, scanBudget)].inUse)
  }

  /**
   A reported success with a new inode sector means what it should if and only if the name
   was really absent and the chosen slot really free. A scan cut short by lack of memory can
   miss both: see `ShortScansDoHarm`.
   */
  lemma AddRefinesIff(slots: seq<Slot>, name: Name, sector: nat, lookupBudget: nat, scanBudget: nat)
    requires UniqueNames(slots) && (forall n :: !Lists(slots, n, sector))
    requires Added(slots, name, sector, lookupBudget, scanBudget, true).1
    ensures GainsExactly(slots, Added(slots, name, sector, lookupBudget, scanBudget, true).0, name, sector)
       <==> Absent(slots, name) && !slots[FreeSlot(slots, scanBudget)].inUse
  {
    var k := FreeSlot(slots, scanBudget);
    var after := slots[k := Slot(sector, name, true)];
    if Absent(slots, name) && !slots[k].inUse {
      forall n, s ensures Lists(after, n, s) <==> Lists(slots, n, s) || (n == name && s == sector) {
        ListsPatched(slots, k, after[k], n, s);
      }
    }
    if GainsExactly(slots, after, name, sector) {
      assert !slots[k].inUse by {
        if slots[k].inUse {
          assert Matches(slots[k], slots[k].name);
          assert Lists(slots, slots[k].name, slots[k].sector);
          LosesSlot(slots, k, after[k]);
        }
      }
      forall j | 0 <= j < |slots| ensures !Matches(slots[j], name) {
        if j != k {
          assert after[j] == slots[j];
          NamesDiffer(after, j, k);
        }
      }
    }
  }

  /** Overwriting a slot in use with a new sector removes its entry from the map. */
  lemma LosesSlot(slots: seq<Slot>, k: nat, new_: Slot)
    requires k < |slots| && slots[k].inUse && UniqueNames(slots) && new_.sector != slots[k].sector
    ensures Lists(slots, slots[k].name, slots[k].sector) && !Lists(slots[k := new_], slots[k].name, slots[k].sector)
  {
    var after := slots[k := new_];
    assert Matches(slots[k], slots[k].name);
    forall j | 0 <= j < |after| ensures !(Matches(after[j], slots[k].name) && after[j].sector == slots[k].sector) {
      if j != k && slots[j].inUse {
        assert after[j] == slots[j];
        NamesDiffer(slots, j, k);
      }
    }
  }

  lemma NamesDiffer(slots: seq<Slot>, i: nat, j: nat)
    requires UniqueNames(slots) && i < |slots| && j < |slots| && i != j
    ensures slots[i].inUse && slots[j].inUse ==> slots[i].name != slots[j].name
  {
  }

  /** With memory for whole scans they always suffice, so a successful add always means what it should. */
  lemma AmpleAddRefines(slots: seq<Slot>, name: Name, sector: nat, lookupBudget: nat, scanBudget: nat)
    requires UniqueNames(slots) && (forall n :: !Lists(slots, n, sector))
    requires Ample(slots, lookupBudget) && Ample(slots, scanBudget)
    ensures ScansSuffice(slots, name, lookupBudget, scanBudget)
    ensures Added(slots, name, sector, lookupBudget, scanBudget, true).1 ==>
              GainsExactly(slots, Added(slots, name, sector, lookupBudget, scanBudget, true).0, name, sector)
  {
    var k := FreeSlot(slots, scanBudget);
    if Added(slots, name, sector, lookupBudget, scanBudget, true).1 {
      AddRefinesIff(slots, name, sector, lookupBudget, scanBudget);
    }
  }

  /** It fails cleanly, and exactly when the name is bad or taken, the directory is full, or the write fails. */
  lemma AmpleAddFails(slots: seq<Slot>, name: Name, sector: nat, lookupBudget: nat, scanBudget: nat, writeOk: bool)
    requires Ample(slots, lookupBudget) && Ample(slots, scanBudget)
    ensures var r := Added(slots, name, sector, lookupBudget, scanBudget, writeOk);
            (!r.1 ==> r.0 == slots) &&
            (r.1 <==> 0 < |name| <= NAME_MAX && Absent(slots, name) && writeOk &&
                      exists k :: 0 <= k < |slots| && !slots[k].inUse)
  {
    var k := FreeSlot(slots, scanBudget);
  }

  /** Two directories on which a scan cut short by lack of memory breaks the map: a duplicate name, and a lost entry. */
  lemma ShortScansDoHarm()
    ensures var a := [Slot(7, [97], true), Slot(0, [], false)];
            var r := Added(a, [97], 9, 0, 2, true); r.1 && !UniqueNames(r.0)
    ensures var a := [Slot(7, [97], true), Slot(0, [], false)];
            var r := Added(a, [98], 9, 2, 0, true); r.1 && Lists(a, [97], 7) && !Lists(r.0, [97], 7)
  {
    var a := [Slot(7, [97], true), Slot(0, [], false)];
    var p := (s: Slot) => !s.inUse;
    assert FirstFrom(a, p, 0, 2) == 1;
    var r := Added(a, [97], 9, 0, 2, true);
    assert r.0[0] == Slot(7, [97], true) && r.0[1] == Slot(9, [97], true);
    assert Matches(a[0], [97]);
    var q := Added(a, [98], 9, 2, 0, true);
    assert q.0[0] == Slot(9, [98], true) && q.0[1] == Slot(0, [], false);
  }

  /** Erasing the slot that `lookup` found removes exactly that name. */
  lemma EraseRefines(slots: seq<Slot>, name: Name, k: nat)
    requires UniqueNames(slots) && k < |slots| && Matches(slots[k], name)
    ensures UniqueNames(Erased(slots, k, true))
    ensures forall n, s :: Lists(Erased(slots, k, true), n, s) <==> Lists(slots, n, s) && n != name
  {
    var after := Erased(slots, k, true);
    forall n, s ensures Lists(after, n, s) <==> Lists(slots, n, s) && n != name {
      if Lists(after, n, s) {
        var j :| 0 <= j < |after| && Matches(after[j], n) && after[j].sector == s;
        assert j != k && slots[j] == after[j];
      }
      if Lists(slots, n, s) && n != name {
        var j :| 0 <= j < |slots| && Matches(slots[j], n) && slots[j].sector == s;
        assert j != k && slots[j] == after[j];
      }
    }
  }

  /** Replacing a free slot adds its entry; the others are still listed. */
  lemma ListsPatched(slots: seq<Slot>, k: nat, new_: Slot, n: Name, s: nat)
    requires k < |slots| && !slots[k].inUse
    ensures Lists(slots[k := new_], n, s) <==> Lists(slots, n, s) || (Matches(new_, n) && new_.sector == s)
  {
    var after := slots[k := new_];
    if Lists(slots, n, s) {
      var j :| 0 <= j < |slots| && Matches(slots[j], n) && slots[j].sector == s;
      assert after[j] == slots[j];
    }
    if Matches(new_, n) && new_.sector == s {
      assert after[k] == new_;
    }
    if Lists(after, n, s) {
      var j :| 0 <= j < |after| && Matches(after[j], n) && after[j].sector == s;
      assert j != k ==> slots[j] == after[j];
    }
  }
}
