/**
 Loading the segments of an executable into an address space: the checks on a program header,
 the page arithmetic, and the loop that reads, zeroes and maps page after page. Program
 headers are those of the ELF specification, version 1.1, book I, pages 2-2 to 2-4.

 The address space is the map from page numbers to frames that the page directory implements;
 the executable is its bytes. Which allocations fail is a parameter.
 */
module ElfLoad {
  import opened Bytes
  import opened InodeIo

  const PGSIZE: nat := 4096
  const PHYS_BASE: nat := 0xC000_0000
  const WORD: nat := 0x1_0000_0000

  datatype Phdr = Phdr(typ: nat, offset: nat, vaddr: nat, filesz: nat, memsz: nat, flags: nat)

  const PT_LOAD: nat := 1
  const PT_DYNAMIC: nat := 2
  const PT_INTERP: nat := 3
  const PT_SHLIB: nat := 5

  predicate Words(p: Phdr) {
    p.typ < WORD && p.offset < WORD && p.vaddr < WORD && p.filesz < WORD && p.memsz < WORD && p.flags < WORD
  }

  /** `validate_segment`, in the wrapping arithmetic of 32-bit words. */
  predicate Validate(p: Phdr, fileLength: nat) {
    if p.offset % PGSIZE != p.vaddr % PGSIZE then false
    else if p.offset > fileLength then false
    else if p.memsz < p.filesz then false
    else if p.memsz == 0 then false
    else if p.vaddr >= PHYS_BASE then false
    else if (p.vaddr + p.memsz) % WORD >= PHYS_BASE then false
    else if (p.vaddr + p.memsz) % WORD < p.vaddr then false
    else if p.vaddr < PGSIZE then false
    else true
  }

  /** What an accepted header means: a nonempty range of user addresses above page 0, without wrap-around. */
  lemma ValidMeans(p: Phdr, fileLength: nat)
    requires Words(p)
    ensures Validate(p, fileLength) <==>
              && p.offset % PGSIZE == p.vaddr % PGSIZE && p.offset <= fileLength
              && p.filesz <= p.memsz && 0 < p.memsz && PGSIZE <= p.vaddr && p.vaddr + p.memsz < PHYS_BASE
  {
  }

  function RoundUp(n: nat): (r: nat)
    ensures n <= r < n + PGSIZE && r % PGSIZE == 0
  {
    (n + PGSIZE - 1) / PGSIZE * PGSIZE
  }

  /** `read_bytes` and `zero_bytes` of `load`. */
  function ReadBytes(p: Phdr): nat {
    if p.filesz > 0 then p.vaddr % PGSIZE + p.filesz else 0
  }

  function ZeroBytes(p: Phdr): int {
    RoundUp(p.vaddr % PGSIZE + p.memsz) - ReadBytes(p)
  }

  /** Neither underflows or overflows a word, together they are whole pages, and those pages are user pages. */
  lemma PageArithmetic(p: Phdr, fileLength: nat)
    requires Words(p) && Validate(p, fileLength)
    ensures 0 <= ZeroBytes(p) < WORD && ReadBytes(p) < WORD && (ReadBytes(p) + ZeroBytes(p)) % PGSIZE == 0
    ensures 0 < (ReadBytes(p) + ZeroBytes(p)) / PGSIZE
    ensures p.vaddr / PGSIZE + (ReadBytes(p) + ZeroBytes(p)) / PGSIZE == (p.vaddr + p.memsz + 4095) / 4096
    ensures 0 < p.vaddr / PGSIZE && p.vaddr / PGSIZE + (ReadBytes(p) + ZeroBytes(p)) / PGSIZE <= PHYS_BASE / PGSIZE
  {
    ValidMeans(p, fileLength);
    var q, r := p.vaddr / PGSIZE, p.vaddr % PGSIZE;
    assert PGSIZE * q + r + p.memsz < PHYS_BASE;
    assert RoundUp(r + p.memsz) <= PHYS_BASE - PGSIZE * q;
  }

  // ---- the address space ---------------------------------------------------------------------------

  datatype Frame = Frame(bytes: seq<byte>, writable: bool)
  type Space = map<nat, Frame>       // by page number

  /** Which steps of loading a page find memory: the frame, the file system's bounce buffer, a page table. */
  datatype PageMemory = PageMemory(frameOk: bool, bounceOk: bool, tableOk: bool)

  /** Page `i` of a segment whose first `read` bytes come from the file at `ofs`. */
  function PageBytes(file: seq<byte>, ofs: nat, read: nat, i: nat): (b: seq<byte>)
    ensures |b| == PGSIZE
  {
    seq(PGSIZE, k requires 0 <= k < PGSIZE =>
      if PGSIZE * i + k < read && ofs + PGSIZE * i + k < |file| then file[ofs + PGSIZE * i + k] else 0)
  }

  /** The space with `n` pages of the segment mapped from page `first` on. */
  function Mapped(space: Space, file: seq<byte>, ofs: nat, read: nat, writable: bool, first: nat, n: nat): Space {
    if n == 0 then space
    else
      var page := Frame(PageBytes(file, ofs, read, n - 1), writable);
      Mapped(space, file, ofs, read, writable, first, n - 1)[first + n - 1 := page]
  }

  ghost predicate Vacant(space: Space, first: nat, n: nat) {
    forall q :: first <= q < first + n ==> q !in space
  }

  lemma {:induction false} MappedAt(space: Space, file: seq<byte>, ofs: nat, read: nat, writable: bool, first: nat,
                                    n: nat, q: nat)
    ensures var after := Mapped(space, file, ofs, read, writable, first, n);
            && (q in after <==> q in space || first <= q < first + n)
            && (first <= q < first + n ==> after[q] == Frame(PageBytes(file, ofs, read, q - first), writable))
            && (q in space && !(first <= q < first + n) ==> after[q] == space[q])
  {
    if n > 0 {
      MappedAt(space, file, ofs, read, writable, first, n - 1, q);
    }
  }

  /** What one page of the loop reads and zeroes is that page of the segment. */
  lemma PageFilled(file: seq<byte>, ofs: nat, read: nat, i: nat, n: nat)
    requires n == Clip(read - PGSIZE * i) && (n > 0 ==> ofs + PGSIZE * i + n <= |file|)
    ensures (if n > 0 then file[ofs + PGSIZE * i..ofs + PGSIZE * i + n] else []) + seq(PGSIZE - n, _ => 0) ==
              PageBytes(file, ofs, read, i)
  {
  }

  /** A byte count clipped to what one page takes. */
  function Clip(n: int): nat {
    if n <= 0 then 0 else if n < PGSIZE then n else PGSIZE
  }

  /**
   Page `i` of a segment can be loaded: it is not mapped, its frame and page table can be had, and
   its part of the file is there and can be read; only whole sectors can be without a bounce buffer.
   */
  predicate PageLoads(space: Space, file: seq<byte>, ofs: nat, read: nat, first: nat, memory: nat -> PageMemory,
                      i: nat) {
    var n := if read <= 4096 * i then 0 else if read - 4096 * i < 4096 then read - 4096 * i else 4096;
    && first + i !in space && memory(first + i).frameOk && memory(first + i).tableOk
    && (n > 0 ==> ofs + 4096 * i + n <= |file|)
    && (n > 0 && !memory(first + i).bounceOk ==> (ofs + 4096 * i) % 512 == 0 && n % 512 == 0)
  }

  /** A read gets all it asks for exactly if the file has it, and memory is had unless it is of whole sectors. */
  lemma FullRead(length: nat, size: nat, pos: nat, bounce: bool)
    ensures Transferred(Extent(0, length), size, pos, bounce) == size <==>
              size == 0 || (pos + size <= length && (bounce || (pos % 512 == 0 && size % 512 == 0)))
  {
    hide Transferred;
    TransferredMeans(Extent(0, length), size, pos, bounce);
  }

  class Process {
    var space: Space

    /** `install_page`: fails on a page that is mapped already. */
    method InstallPage(page: nat, frame: Frame, tableOk: bool) returns (ok: bool)
      requires page < PHYS_BASE / PGSIZE
      modifies this
      ensures ok <==> page !in old(space) && tableOk
      ensures space == if ok then old(space)[page := frame] else old(space)
    {
      ok := page !in space && tableOk;
      if ok {
        space := space[page := frame];
      }
    }

    /**
     `load_segment`: on success all pages, none of which was mapped, hold the file's bytes and
     then zeros. On failure the pages of some beginning of the segment are mapped.
     */
    method LoadSegment(file: seq<byte>, ofs: nat, first: nat, readBytes: nat, zeroBytes: nat, writable: bool,
                       memory: nat -> PageMemory)
      returns (ok: bool, ghost done: nat)
      requires (readBytes + zeroBytes) % PGSIZE == 0 && first + (readBytes + zeroBytes) / PGSIZE <= PHYS_BASE / PGSIZE
      modifies this
      ensures done <= (readBytes + zeroBytes) / PGSIZE && (ok <==> done == (readBytes + zeroBytes) / PGSIZE)
      ensures space == Mapped(old(space), file, ofs, readBytes, writable, first, done) &&
              Vacant(old(space), first, done)
      ensures ok && readBytes > 0 ==> ofs + readBytes <= |file|
      ensures forall i: nat :: i < done ==> PageLoads(old(space), file, ofs, readBytes, first, memory, i)
      ensures !ok ==> !PageLoads(old(space), file, ofs, readBytes, first, memory, done)
    {
      hide Mapped, PageBytes, PageLoads;
      var read, zero, page, pos := readBytes, zeroBytes, first, ofs;
      ghost var total := (readBytes + zeroBytes) / PGSIZE;
      done := 0;
      MappedNone(space, file, ofs, readBytes, writable, first);
      while read > 0 || zero > 0
        invariant 0 <= done <= total && page == first + done && read + zero == PGSIZE * (total - done) && 0 <= zero
        invariant read == (if readBytes <= PGSIZE * done then 0 else readBytes - PGSIZE * done)
        invariant pos == ofs + readBytes - read && (readBytes > read ==> pos <= |file|)
        invariant space == Mapped(old(space), file, ofs, readBytes, writable, first, done) &&
                  Vacant(old(space), first, done)
        invariant forall i: nat :: i < done ==> PageLoads(old(space), file, ofs, readBytes, first, memory, i)
        decreases read + zero
      {
        var pageRead := if read < PGSIZE then read else PGSIZE;
        var pageZero := PGSIZE - pageRead;
        var m := memory(page);
        MappedAt(old(space), file, ofs, readBytes, writable, first, done, page);
        PageOutcome(old(space), file, ofs, readBytes, first, memory, done, pageRead, pos);
        if !m.frameOk {
          return false, done;
        }
        var n := Transferred(Extent(0, |file|), pageRead, pos, m.bounceOk);
        if n != pageRead {
          return false, done;
        }
        var bytes := (if n > 0 then file[pos..pos + n] else []) + seq(pageZero, _ => 0);
        PageFilled(file, ofs, readBytes, done, n);
        var installed := InstallPage(page, Frame(bytes, writable), m.tableOk);
        if !installed {
          return false, done;
        }
        MappedNext(old(space), file, ofs, readBytes, writable, first, done);
        read := read - pageRead;
        zero := zero - pageZero;
        page := page + 1;
        pos := pos + pageRead;
        done := done + 1;
      }
      ok := true;
    }

    /** The `PT_LOAD` arm of `load`. */
    method LoadOne(file: seq<byte>, p: Phdr, memory: nat -> PageMemory) returns (ok: bool)
      requires Words(p) && |file| < 0x8000_0000
      modifies this
      ensures ok <==> Validate(p, |file|) && SegmentLoads(old(space), file, p, memory)
      ensures ok ==> SegmentLoaded(space, file, p) && space == WithSegment(old(space), file, p)
      ensures Grown(old(space), space)
    {
      hide Mapped, PageBytes, Validate, SegmentLoaded, Grown, PageLoads;
      if !Validate(p, |file|) {
        GrownSame(space);
        return false;
      }
      PageArithmetic(p, |file|);
      var ofs := FileStart(p);
      var read, zero := ReadBytes(p), ZeroBytes(p);
      ghost var done;
      ok, done := LoadSegment(file, ofs, p.vaddr / PGSIZE, read, zero, p.flags / 2 % 2 == 1, memory);
      MappedGrown(old(space), file, ofs, read, p.flags / 2 % 2 == 1, p.vaddr / PGSIZE, done);
      if ok {
        SegmentMeans(old(space), file, p);
      } else {
        assert done < PageCount(p) && !PageLoads(old(space), file, FileStart(p), read, p.vaddr / PGSIZE, memory, done);
      }
    }

    /** The program-header loop of `load`: after it, every loadable segment is in memory, all at once. */
    method LoadSegments(file: seq<byte>, phdrs: seq<Phdr>, memory: nat -> PageMemory) returns (ok: bool)
      requires |file| < 0x8000_0000 && forall i :: 0 <= i < |phdrs| ==> Words(phdrs[i])
      modifies this
      ensures ok <==> forall i :: 0 <= i < |phdrs| ==> HeaderLoads(old(space), file, phdrs, memory, i)
      ensures ok ==> space == WithSegments(old(space), file, phdrs, |phdrs|)
      ensures ok ==> forall i :: 0 <= i < |phdrs| ==> !Refused(phdrs[i])
      ensures ok ==> forall i :: 0 <= i < |phdrs| && phdrs[i].typ == PT_LOAD ==>
                Validate(phdrs[i], |file|) && SegmentLoaded(space, file, phdrs[i])
      ensures Grown(old(space), space)
    {
      hide Validate, SegmentLoaded, Grown, SegmentLoads, WithSegment;
      GrownSame(space);
      var i := 0;
      while i < |phdrs|
        invariant i <= |phdrs| && Grown(old(space), space) && space == WithSegments(old(space), file, phdrs, i)
        invariant forall k :: 0 <= k < i ==> HeaderLoads(old(space), file, phdrs, memory, k)
        invariant forall k :: 0 <= k < i ==> !Refused(phdrs[k])
        invariant forall k :: 0 <= k < i && phdrs[k].typ == PT_LOAD ==>
                    Validate(phdrs[k], |file|) && SegmentLoaded(space, file, phdrs[k])
      {
        assert HeaderLoads(old(space), file, phdrs, memory, i) <==>
                 !Refused(phdrs[i]) && (phdrs[i].typ == PT_LOAD ==>
                     Validate(phdrs[i], |file|) && SegmentLoads(space, file, phdrs[i], memory));
        if Refused(phdrs[i]) {
          return false;
        }
        if phdrs[i].typ == PT_LOAD {
          ghost var before := space;
          var loaded := LoadOne(file, phdrs[i], memory);
          GrownTrans(old(space), before, space);
          if !loaded {
            return false;
          }
          forall k | 0 <= k < i && phdrs[k].typ == PT_LOAD ensures SegmentLoaded(space, file, phdrs[k]) {
            SegmentStays(before, space, file, phdrs[k]);
          }
        }
        i := i + 1;
      }
      ok := true;
    }
  }

  /** How many pages a segment spans, and where its part of the file begins. */
  function PageCount(p: Phdr): nat {
    var n := ReadBytes(p) + ZeroBytes(p);
    if n <= 0 then 0 else n / PGSIZE
  }

  function FileStart(p: Phdr): nat {
    p.offset - p.offset % PGSIZE
  }

  ghost predicate SegmentLoads(space: Space, file: seq<byte>, p: Phdr, memory: nat -> PageMemory) {
    forall i: nat :: i < PageCount(p) ==>
        PageLoads(space, file, FileStart(p), ReadBytes(p), p.vaddr / PGSIZE, memory, i)
  }

  /** The space with the segment in it. */
  function WithSegment(space: Space, file: seq<byte>, p: Phdr): Space {
    Mapped(space, file, FileStart(p), ReadBytes(p), p.flags / 2 % 2 == 1, p.vaddr / PGSIZE, PageCount(p))
  }

  /** The space after the first `n` headers, if all of them load. */
  function WithSegments(space: Space, file: seq<byte>, phdrs: seq<Phdr>, n: nat): Space
    requires n <= |phdrs|
  {
    if n == 0 then space else
    var before := WithSegments(space, file, phdrs, n - 1);
    if phdrs[n - 1].typ == PT_LOAD then WithSegment(before, file, phdrs[n - 1]) else before
  }

  /**
   Header `i` is none that the kernel refuses, and if it is of a loadable segment, that loads
   after those before it.
   */
  ghost predicate HeaderLoads(space: Space, file: seq<byte>, phdrs: seq<Phdr>, memory: nat -> PageMemory, i: nat)
    requires i < |phdrs|
  {
    && !Refused(phdrs[i])
    && (phdrs[i].typ == PT_LOAD ==>
          Validate(phdrs[i], |file|) && SegmentLoads(WithSegments(space, file, phdrs, i), file, phdrs[i], memory))
  }

  predicate Refused(p: Phdr) {
    p.typ == PT_DYNAMIC || p.typ == PT_INTERP || p.typ == PT_SHLIB
  }

  /** The steps of one iteration, in the terms of the loop. */
  lemma PageOutcome(space: Space, file: seq<byte>, ofs: nat, read: nat, first: nat, memory: nat -> PageMemory, i: nat,
                    n: nat, pos: nat)
    requires n == Clip(read - PGSIZE * i) && (n > 0 ==> pos == ofs + PGSIZE * i)
    ensures PageLoads(space, file, ofs, read, first, memory, i) <==>
              var m := memory(first + i);
              m.frameOk && Transferred(Extent(0, |file|), n, pos, m.bounceOk) == n && first + i !in space && m.tableOk
  {
    hide Transferred;
    FullRead(|file|, n, pos, memory(first + i).bounceOk);
  }

  /** Page `q` is one of the segment's. */
  predicate Spans(p: Phdr, q: nat) {
    p.vaddr / PGSIZE <= q < p.vaddr / PGSIZE + PageCount(p)
  }

  lemma {:induction false} MappedBySome(space: Space, file: seq<byte>, phdrs: seq<Phdr>, n: nat, q: nat)
    requires n <= |phdrs|
    ensures q in WithSegments(space, file, phdrs, n) <==>
              q in space || exists j :: 0 <= j < n && phdrs[j].typ == PT_LOAD && Spans(phdrs[j], q)
  {
    if n > 0 {
      var p := phdrs[n - 1];
      MappedBySome(space, file, phdrs, n - 1, q);
      MappedAt(WithSegments(space, file, phdrs, n - 1), file, FileStart(p), ReadBytes(p), p.flags / 2 % 2 == 1,
               p.vaddr / PGSIZE, PageCount(p), q);
      if q in WithSegments(space, file, phdrs, n) && q !in WithSegments(space, file, phdrs, n - 1) {
        assert phdrs[n - 1].typ == PT_LOAD && Spans(phdrs[n - 1], q);
      }
    }
  }

  /** Segment `i` has no page in common with an earlier one. */
  ghost predicate ApartBefore(phdrs: seq<Phdr>, i: nat)
    requires i < |phdrs|
  {
    forall j, q: nat :: 0 <= j < i && phdrs[j].typ == PT_LOAD ==> !(Spans(phdrs[i], q) && Spans(phdrs[j], q))
  }

  /**
   All headers load in turn if and only if none is refused, every loadable one is valid and
   loads on its own, and no two loadable segments have a page in common.
   */
  lemma LoadIff(space: Space, file: seq<byte>, phdrs: seq<Phdr>, memory: nat -> PageMemory)
    ensures (forall i :: 0 <= i < |phdrs| ==> HeaderLoads(space, file, phdrs, memory, i)) <==>
              forall i :: 0 <= i < |phdrs| ==>
                && !Refused(phdrs[i])
                && (phdrs[i].typ == PT_LOAD ==>
                      Validate(phdrs[i], |file|) && SegmentLoads(space, file, phdrs[i], memory) &&
                        ApartBefore(phdrs, i))
  {
    hide Validate, Refused, WithSegments, SegmentLoads, ApartBefore;
    forall i | 0 <= i < |phdrs|
      ensures HeaderLoads(space, file, phdrs, memory, i) <==>
                && !Refused(phdrs[i])
                && (phdrs[i].typ == PT_LOAD ==>
                      Validate(phdrs[i], |file|) && SegmentLoads(space, file, phdrs[i], memory) &&
                        ApartBefore(phdrs, i))
    {
      LoadsAmong(space, file, phdrs, memory, i);
    }
  }

  lemma LoadsAmong(space: Space, file: seq<byte>, phdrs: seq<Phdr>, memory: nat -> PageMemory, i: nat)
    requires i < |phdrs|
    ensures SegmentLoads(WithSegments(space, file, phdrs, i), file, phdrs[i], memory) <==>
              SegmentLoads(space, file, phdrs[i], memory) && ApartBefore(phdrs, i)
  {
    hide WithSegments, PageCount, FileStart, ReadBytes;
    var p, before := phdrs[i], WithSegments(space, file, phdrs, i);
    forall k: nat
      ensures PageLoads(before, file, FileStart(p), ReadBytes(p), p.vaddr / PGSIZE, memory, k) <==>
                PageLoads(space, file, FileStart(p), ReadBytes(p), p.vaddr / PGSIZE, memory, k) &&
                forall j :: 0 <= j < i && phdrs[j].typ == PT_LOAD ==> !Spans(phdrs[j], p.vaddr / PGSIZE + k)
    {
      MappedBySome(space, file, phdrs, i, p.vaddr / PGSIZE + k);
    }
    if SegmentLoads(before, file, p, memory) {
      forall j, q: nat | 0 <= j < i && phdrs[j].typ == PT_LOAD ensures !(Spans(p, q) && Spans(phdrs[j], q)) {
        if Spans(p, q) {
          var k := q - p.vaddr / PGSIZE;
          assert PageLoads(before, file, FileStart(p), ReadBytes(p), p.vaddr / PGSIZE, memory, k);
        }
      }
    }
    if SegmentLoads(space, file, p, memory) && ApartBefore(phdrs, i) {
      forall k: nat | k < PageCount(p)
        ensures PageLoads(before, file, FileStart(p), ReadBytes(p), p.vaddr / PGSIZE, memory, k)
      {
        assert Spans(p, p.vaddr / PGSIZE + k);
      }
    }
  }

  // ---- what loading achieves ------------------------------------------------------------------------

  /** Nothing mapped was touched, and whatever is new is a user page other than page 0. */
  ghost predicate Grown(a: Space, b: Space) {
    && (forall q :: q in a ==> q in b && b[q] == a[q])
    && (forall q :: q in b && q !in a ==> 0 < q < PHYS_BASE / PGSIZE)
  }

  lemma GrownSame(a: Space)
    ensures Grown(a, a)
  {
  }

  lemma GrownTrans(a: Space, b: Space, c: Space)
    requires Grown(a, b) && Grown(b, c)
    ensures Grown(a, c)
  {
  }

  lemma MappedGrown(space: Space, file: seq<byte>, ofs: nat, read: nat, writable: bool, first: nat, n: nat)
    requires Vacant(space, first, n) && 0 < first && first + n <= PHYS_BASE / PGSIZE
    ensures Grown(space, Mapped(space, file, ofs, read, writable, first, n))
  {
    hide Mapped, PageBytes;
    var after := Mapped(space, file, ofs, read, writable, first, n);
    forall q | q in space ensures q in after && after[q] == space[q] {
      MappedAt(space, file, ofs, read, writable, first, n, q);
    }
    forall q | q in after && q !in space ensures 0 < q < PHYS_BASE / PGSIZE {
      MappedAt(space, file, ofs, read, writable, first, n, q);
    }
  }

  /** Byte `k` of the segment in memory: the file's byte, or zero past the part that the file provides. */
  ghost predicate ByteLoaded(space: Space, file: seq<byte>, p: Phdr, k: nat) {
    var va := p.vaddr + k;
    && va / PGSIZE in space && |space[va / PGSIZE].bytes| == PGSIZE
    && space[va / PGSIZE].writable == (p.flags / 2 % 2 == 1)
    && if k < p.filesz then p.offset + k < |file| && space[va / PGSIZE].bytes[va % PGSIZE] == file[p.offset + k]
       else space[va / PGSIZE].bytes[va % PGSIZE] == 0
  }

  ghost predicate SegmentLoaded(space: Space, file: seq<byte>, p: Phdr) {
    forall k: nat :: k < p.memsz ==> ByteLoaded(space, file, p, k)
  }

  lemma SegmentStays(a: Space, b: Space, file: seq<byte>, p: Phdr)
    requires Grown(a, b) && SegmentLoaded(a, file, p)
    ensures SegmentLoaded(b, file, p)
  {
    forall k: nat | k < p.memsz ensures ByteLoaded(b, file, p, k) {
      assert ByteLoaded(a, file, p, k);
    }
  }

  /** Position of segment byte `k`: page and offset from the first page of the segment. */
  lemma BytePosition(vaddr: nat, k: nat)
    ensures var x := vaddr % PGSIZE + k;
            (vaddr + k) / PGSIZE == vaddr / PGSIZE + x / PGSIZE && (vaddr + k) % PGSIZE == x % PGSIZE &&
              PGSIZE * (x / PGSIZE) + x % PGSIZE == x
  {
    assert vaddr == PGSIZE * (vaddr / PGSIZE) + vaddr % PGSIZE;
  }

  lemma PageByte(file: seq<byte>, ofs: nat, read: nat, i: nat, j: nat)
    requires j < PGSIZE
    ensures PageBytes(file, ofs, read, i)[j] ==
              if PGSIZE * i + j < read && ofs + PGSIZE * i + j < |file| then file[ofs + PGSIZE * i + j] else 0
  {
  }

  /**
   The page arithmetic of `load` and the page loop of `load_segment` put every byte of a
   segment where its header says.
   */
  lemma SegmentMeans(space: Space, file: seq<byte>, p: Phdr)
    requires Words(p) && Validate(p, |file|) && ZeroBytes(p) >= 0
    requires ReadBytes(p) > 0 ==> p.offset - p.offset % PGSIZE + ReadBytes(p) <= |file|
    ensures SegmentLoaded(Mapped(space, file, p.offset - p.offset % PGSIZE, ReadBytes(p), p.flags / 2 % 2 == 1,
                                 p.vaddr / PGSIZE, (ReadBytes(p) + ZeroBytes(p)) / PGSIZE), file, p)
  {
    hide Mapped, PageBytes;
    ValidMeans(p, |file|);
    var ofs, read, total := p.offset - p.offset % PGSIZE, ReadBytes(p), (ReadBytes(p) + ZeroBytes(p)) / PGSIZE;
    var w, first := p.flags / 2 % 2 == 1, p.vaddr / PGSIZE;
    var after := Mapped(space, file, ofs, read, w, first, total);
    forall k: nat | k < p.memsz ensures ByteLoaded(after, file, p, k) {
      var x := p.vaddr % PGSIZE + k;
      BytePosition(p.vaddr, k);
      assert x < PGSIZE * total;
      MappedAt(space, file, ofs, read, w, first, total, first + x / PGSIZE);
      PageByte(file, ofs, read, x / PGSIZE, x % PGSIZE);
    }
  }

  lemma MappedNone(space: Space, file: seq<byte>, ofs: nat, read: nat, writable: bool, first: nat)
    ensures Mapped(space, file, ofs, read, writable, first, 0) == space
  {
  }

  lemma MappedNext(space: Space, file: seq<byte>, ofs: nat, read: nat, writable: bool, first: nat, n: nat)
    ensures Mapped(space, file, ofs, read, writable, first, n + 1) ==
            var page := Frame(PageBytes(file, ofs, read, n), writable);
            Mapped(space, file, ofs, read, writable, first, n)[first + n := page]
  {
  }
}
