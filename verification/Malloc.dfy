/**
 The block allocator on top of the kernel page pool: seven descriptors of power-of-two block
 sizes, arenas of one page cut into blocks, and groups of whole pages for anything larger.

 A block pointer is a page index and a block index; `Off` is the address it stands for,
 relative to the pool's first page, and `BlockToArena` says that rounding that address down
 finds the arena header. The words that the allocator keeps inside pages (arena headers and
 free-list links) are the fields `arenas` and `lists`; `mem` is what callers store. Calls are
 serialised by the descriptor locks.
 */
module Malloc {
  import opened Bytes
  import opened Options
  import opened Runs
  import opened Palloc

  const HEADER: nat := 12      // sizeof (struct arena)
  const DESCS: nat := 7        // descriptors that malloc_init makes

  datatype Desc = Desc(blockSize: nat, blocksPerArena: nat)
  datatype Block = Block(page: nat, idx: nat)
  datatype Arena = Arena(desc: Option<nat>, freeCnt: nat)   // desc is None for a big block, freeCnt then its page count

  /** Block size and blocks per arena of descriptor `d`. */
  function Size(d: nat): (s: nat)
    requires d < DESCS
    ensures s > 0
  {
    if d == 0 then 16 else if d == 1 then 32 else if d == 2 then 64 else if d == 3 then 128
    else if d == 4 then 256 else if d == 5 then 512 else 1024
  }

  function PerArena(d: nat): (n: nat)
    requires d < DESCS
    ensures n > 0
  {
    (PGSIZE - HEADER) / Size(d)
  }

  // ---- free lists ------------------------------------------------------------------------------

  ghost predicate NoDup(q: seq<Block>) {
    forall i, j :: 0 <= i < j < |q| ==> q[i] != q[j]
  }

  /** The blocks of page `p` on a free list. */
  function FreeIdx(q: seq<Block>, p: nat): set<nat> {
    set b | b in q && b.page == p :: b.idx
  }

  lemma FreeIdxMember(q: seq<Block>, p: nat, i: nat)
    ensures i in FreeIdx(q, p) <==> Block(p, i) in q
  {
    if Block(p, i) in q {
      assert Block(p, i).idx in FreeIdx(q, p);
    }
  }

  lemma FreeIdxPush(q: seq<Block>, b: Block, p: nat)
    requires b !in q
    ensures FreeIdx([b] + q, p) == FreeIdx(q, p) + (if b.page == p then {b.idx} else {})
    ensures b.idx !in FreeIdx(q, b.page)
    ensures |FreeIdx([b] + q, p)| == |FreeIdx(q, p)| + if b.page == p then 1 else 0
  {
    FreeIdxMember(q, b.page, b.idx);
    forall i: nat ensures i in FreeIdx([b] + q, p) <==> i in FreeIdx(q, p) || (b.page == p && i == b.idx) {
      FreeIdxMember(q, p, i);
      FreeIdxMember([b] + q, p, i);
    }
  }

  /** All the block indices of an arena. */
  function Upto(n: nat): (s: set<nat>)
    ensures |s| == n && forall i: nat :: i in s <==> i < n
  {
    if n == 0 then {} else Upto(n - 1) + {n - 1}
  }

  lemma {:induction false} SubsetFull(a: set<nat>, n: nat)
    requires a <= Upto(n)
    ensures |a| <= n && (|a| == n ==> a == Upto(n))
  {
    if n > 0 {
      SubsetFull(a - {n - 1}, n - 1);
    }
  }

  /** `list_remove` */
  function Without(q: seq<Block>, b: Block): seq<Block> {
    if q == [] then [] else if q[0] == b then q[1..] else [q[0]] + Without(q[1..], b)
  }

  lemma {:induction false} WithoutMembers(q: seq<Block>, b: Block)
    requires NoDup(q)
    ensures NoDup(Without(q, b)) && forall x :: x in Without(q, b) <==> x in q && x != b
  {
    if q != [] {
      assert q == [q[0]] + q[1..] && q[0] !in q[1..];
      WithoutMembers(q[1..], b);
    }
  }

  // ---- the invariant ---------------------------------------------------------------------------

  type Lists = seq<seq<Block>>

  /** The header of page `p` counts its blocks on its descriptor's free list, or its pages. */
  ghost predicate ArenaOk(groups: Groups, arenas: map<nat, Arena>, lists: Lists, p: nat) {
    p in arenas ==>
      && p in groups
      && match arenas[p].desc
         case Some(d) => d < DESCS && d < |lists| && groups[p] == 1 && arenas[p].freeCnt == |FreeIdx(lists[d], p)|
         case None => arenas[p].freeCnt == groups[p] > 0
  }

  /** An arena always has a block in use: an entirely free one is given back. */
  ghost predicate StrictOk(arenas: map<nat, Arena>, p: nat) {
    p in arenas && arenas[p].desc.Some? && arenas[p].desc.value < DESCS ==>
        arenas[p].freeCnt < PerArena(arenas[p].desc.value)
  }

  /** A listed block is a block of an arena of that descriptor, and nobody holds it. */
  ghost predicate FreeOk(arenas: map<nat, Arena>, lists: Lists, live: map<Block, nat>, d: nat, b: Block) {
    d < |lists| && d < DESCS && b in lists[d] ==>
      b.page in arenas && arenas[b.page].desc == Some(d) && b.idx < PerArena(d) && b !in live
  }

  ghost predicate ListOk(lists: Lists, d: nat) {
    d < |lists| ==> NoDup(lists[d])
  }

  /** `b` is one of the blocks that an arena with header `a` is cut into. */
  predicate IsBlock(a: Arena, b: Block) {
    match a.desc
    case Some(d) => d < DESCS && b.idx < PerArena(d)
    case None => b.idx == 0
  }

  /** A held block is a block of an arena and at least as large as was asked for. */
  ghost predicate LiveOk(arenas: map<nat, Arena>, live: map<Block, nat>, b: Block) {
    b in live ==> b.page in arenas && 0 < live[b] <= BlockSize(arenas[b.page]) && IsBlock(arenas[b.page], b)
  }

  /** Every block of a small arena is on the free list or held. */
  ghost predicate SplitOk(arenas: map<nat, Arena>, lists: Lists, live: map<Block, nat>, b: Block) {
    b.page in arenas && arenas[b.page].desc.Some? && IsBlock(arenas[b.page], b) ==>
      b in live || (arenas[b.page].desc.value < |lists| && b in lists[arenas[b.page].desc.value])
  }

  ghost predicate Shape(groups: Groups, arenas: map<nat, Arena>, lists: Lists, live: map<Block, nat>) {
    && |lists| == DESCS
    && (forall p: nat :: ArenaOk(groups, arenas, lists, p))
    && (forall d: nat, b: Block :: FreeOk(arenas, lists, live, d, b))
    && (forall d: nat :: ListOk(lists, d))
    && (forall b: Block :: LiveOk(arenas, live, b))
    && (forall b: Block :: SplitOk(arenas, lists, live, b))
  }

  ghost predicate Strict(arenas: map<nat, Arena>) {
    forall p: nat :: StrictOk(arenas, p)
  }

  /** `block_size` */
  function BlockSize(a: Arena): int {
    match a.desc
    case Some(d) => if d < DESCS then Size(d) else 0
    case None => PGSIZE * a.freeCnt - HEADER
  }

  /** `malloc_init`: the descriptors double from 16 bytes while below half a page, and fit the static array of ten. */
  method Descriptors() returns (descs: seq<Desc>)
    ensures |descs| == DESCS <= 10 && forall d :: 0 <= d < DESCS ==> descs[d] == Desc(Size(d), PerArena(d))
    ensures descs == [Desc(16, 255), Desc(32, 127), Desc(64, 63), Desc(128, 31), Desc(256, 15), Desc(512, 7),
              Desc(1024, 3)]
  {
    descs := [];
    var blockSize := 16;
    while blockSize < PGSIZE / 2
      invariant |descs| <= DESCS && blockSize == (if |descs| < DESCS then Size(|descs|) else 2048)
      invariant forall d :: 0 <= d < |descs| ==> descs[d] == Desc(Size(d), PerArena(d))
      decreases 2048 - blockSize
    {
      descs := descs + [Desc(blockSize, (PGSIZE - HEADER) / blockSize)];
      blockSize := blockSize * 2;
    }
  }

  // ---- what the operations do to the invariant ---------------------------------------------------

  /** `malloc` hands out the front block of a list. */
  lemma PopKeeps(groups: Groups, arenas: map<nat, Arena>, lists: Lists, live: map<Block, nat>, d: nat, size: nat)
    requires Shape(groups, arenas, lists, live) && d < DESCS && lists[d] != [] && 0 < size <= Size(d)
    ensures var b := lists[d][0];
            && b.page in arenas && arenas[b.page].freeCnt > 0 && arenas[b.page].desc == Some(d) && b !in live
            && Shape(groups, arenas[b.page := Arena(Some(d), arenas[b.page].freeCnt - 1)], lists[d := lists[d][1..]],
                live[b := size])
            && arenas[b.page].freeCnt <= PerArena(d)
  {
    hide Size, PerArena, FreeIdx, Upto;
    var b, q := lists[d][0], lists[d][1..];
    assert lists[d] == [b] + q && ListOk(lists, d) && FreeOk(arenas, lists, live, d, b) &&
      ArenaOk(groups, arenas, lists, b.page);
    assert b !in q;
    FreeIdxPush(q, b, b.page);
    FreeIdxBound(arenas, lists, live, d, b.page);
    var arenas', lists', live' := arenas[b.page := Arena(Some(d), arenas[b.page].freeCnt - 1)], lists[d := q],
        live[b := size];
    forall p: nat ensures ArenaOk(groups, arenas', lists', p) {
      assert ArenaOk(groups, arenas, lists, p);
      PopArenaOk(groups, arenas, lists, d, b, q, p);
    }
    hide ArenaOk;
    forall e: nat, c: Block ensures FreeOk(arenas', lists', live', e, c) {
      assert FreeOk(arenas, lists, live, e, c);
    }
    forall e: nat ensures ListOk(lists', e) {
      assert ListOk(lists, e);
    }
    forall c: Block ensures LiveOk(arenas', live', c) && SplitOk(arenas', lists', live', c) {
      assert LiveOk(arenas, live, c) && SplitOk(arenas, lists, live, c);
    }
  }

  lemma PopArenaOk(groups: Groups, arenas: map<nat, Arena>, lists: Lists, d: nat, b: Block, q: seq<Block>, p: nat)
    requires d < |lists| && d < DESCS && lists[d] == [b] + q && b !in q && ArenaOk(groups, arenas, lists, p)
    requires b.page in arenas && arenas[b.page].desc == Some(d) && arenas[b.page].freeCnt > 0
    ensures ArenaOk(groups, arenas[b.page := Arena(Some(d), arenas[b.page].freeCnt - 1)], lists[d := q], p)
  {
    hide FreeIdx;
    FreeIdxPush(q, b, p);
  }

  /** A list holds at most the blocks that an arena has; if it holds that many, it holds all of them. */
  lemma FreeIdxBound(arenas: map<nat, Arena>, lists: Lists, live: map<Block, nat>, d: nat, p: nat)
    requires d < DESCS && d < |lists| && forall b: Block :: FreeOk(arenas, lists, live, d, b)
    ensures |FreeIdx(lists[d], p)| <= PerArena(d)
    ensures |FreeIdx(lists[d], p)| == PerArena(d) ==> forall i: nat :: i < PerArena(d) ==> Block(p, i) in lists[d]
  {
    hide Size, PerArena, FreeIdx, Upto;
    forall i: nat
      ensures i in FreeIdx(lists[d], p) <==> Block(p, i) in lists[d]
      ensures i in FreeIdx(lists[d], p) ==> i in Upto(PerArena(d))
    {
      FreeIdxMember(lists[d], p, i);
      assert FreeOk(arenas, lists, live, d, Block(p, i));
    }
    SubsetFull(FreeIdx(lists[d], p), PerArena(d));
  }

  /** `malloc` cuts a new page into blocks, all of them listed. */
  lemma GrowKeeps(groups: Groups, arenas: map<nat, Arena>, lists: Lists, live: map<Block, nat>, d: nat, p: nat,
                  q: seq<Block>)
    requires Shape(groups, arenas, lists, live) && d < DESCS && lists[d] == [] && p !in groups
    requires NoDup(q) && forall b :: b in q <==> b.page == p && b.idx < PerArena(d)
    ensures p !in arenas
    ensures Shape(groups[p := 1], arenas[p := Arena(Some(d), PerArena(d))], lists[d := q], live)
  {
    hide Size, PerArena, FreeIdx, Upto;
    assert ArenaOk(groups, arenas, lists, p);
    var groups', arenas', lists' := groups[p := 1], arenas[p := Arena(Some(d), PerArena(d))], lists[d := q];
    forall i: nat ensures i in FreeIdx(q, p) <==> i in Upto(PerArena(d)) {
      FreeIdxMember(q, p, i);
    }
    assert FreeIdx(q, p) == Upto(PerArena(d));
    forall r: nat ensures ArenaOk(groups', arenas', lists', r) {
      assert ArenaOk(groups, arenas, lists, r);
      forall i: nat | r != p ensures i !in FreeIdx(q, r) && i !in FreeIdx([], r) {
        FreeIdxMember(q, r, i);
        FreeIdxMember([], r, i);
      }
      assert r != p ==> FreeIdx(q, r) == FreeIdx([], r);
    }
    forall e: nat, c: Block ensures FreeOk(arenas', lists', live, e, c) {
      assert FreeOk(arenas, lists, live, e, c) && LiveOk(arenas, live, c);
    }
    forall e: nat ensures ListOk(lists', e) {
      assert ListOk(lists, e);
    }
    forall c: Block ensures LiveOk(arenas', live, c) && SplitOk(arenas', lists', live, c) {
      assert LiveOk(arenas, live, c) && SplitOk(arenas, lists, live, c);
    }
  }

  /** `malloc` of a big block. */
  lemma BigKeeps(groups: Groups, arenas: map<nat, Arena>, lists: Lists, live: map<Block, nat>, p: nat, cnt: nat,
                 size: nat)
    requires Shape(groups, arenas, lists, live) && p !in groups && cnt > 0 && 0 < size <= PGSIZE * cnt - HEADER
    ensures p !in arenas && Block(p, 0) !in live
    ensures Shape(groups[p := cnt], arenas[p := Arena(None, cnt)], lists, live[Block(p, 0) := size])
  {
    hide Size, PerArena, FreeIdx, Upto;
    assert ArenaOk(groups, arenas, lists, p) && LiveOk(arenas, live, Block(p, 0));
    var groups', arenas', live' := groups[p := cnt], arenas[p := Arena(None, cnt)], live[Block(p, 0) := size];
    forall r: nat ensures ArenaOk(groups', arenas', lists, r) {
      assert ArenaOk(groups, arenas, lists, r);
    }
    forall e: nat, c: Block ensures FreeOk(arenas', lists, live', e, c) {
      assert FreeOk(arenas, lists, live, e, c);
    }
    forall c: Block ensures LiveOk(arenas', live', c) && SplitOk(arenas', lists, live', c) {
      assert LiveOk(arenas, live, c) && SplitOk(arenas, lists, live, c);
    }
  }

  /** `free` puts a block at the front of its descriptor's list. */
  lemma PushKeeps(groups: Groups, arenas: map<nat, Arena>, lists: Lists, live: map<Block, nat>, b: Block)
    requires Shape(groups, arenas, lists, live) && b in live && b.page in arenas && arenas[b.page].desc.Some?
    ensures var d := arenas[b.page].desc.value;
            && d < DESCS && b !in lists[d] && arenas[b.page].freeCnt + 1 <= PerArena(d)
            && Shape(groups, arenas[b.page := Arena(Some(d), arenas[b.page].freeCnt + 1)], lists[d := [b] + lists[d]],
                live - {b})
  {
    hide Size, PerArena, FreeIdx, Upto;
    assert LiveOk(arenas, live, b) && ArenaOk(groups, arenas, lists, b.page);
    var d := arenas[b.page].desc.value;
    assert FreeOk(arenas, lists, live, d, b) && ListOk(lists, d);
    var q := [b] + lists[d];
    var arenas', lists', live' := arenas[b.page := Arena(Some(d), arenas[b.page].freeCnt + 1)], lists[d := q],
        live - {b};
    forall e: nat, c: Block ensures FreeOk(arenas', lists', live', e, c) {
      assert FreeOk(arenas, lists, live, e, c);
    }
    forall p: nat ensures ArenaOk(groups, arenas', lists', p) {
      assert ArenaOk(groups, arenas, lists, p);
      FreeIdxPush(lists[d], b, p);
    }
    assert ArenaOk(groups, arenas', lists', b.page);
    FreeIdxBound(arenas', lists', live', d, b.page);
    forall e: nat ensures ListOk(lists', e) {
      assert ListOk(lists, e);
    }
    forall c: Block ensures LiveOk(arenas', live', c) && SplitOk(arenas', lists', live', c) {
      assert LiveOk(arenas, live, c) && SplitOk(arenas, lists, live, c);
    }
  }

  /** `free` gives back an arena none of whose blocks is held. */
  lemma ShrinkKeeps(groups: Groups, arenas: map<nat, Arena>, lists: Lists, live: map<Block, nat>, p: nat, d: nat,
                    q: seq<Block>)
    requires Shape(groups, arenas, lists, live) && p in arenas && d < DESCS && arenas[p] == Arena(Some(d), PerArena(d))
    requires NoDup(q) && forall b :: b in q <==> b in lists[d] && b.page != p
    ensures p in groups && groups[p] == 1 && Shape(groups - {p}, arenas - {p}, lists[d := q], live)
  {
    hide Size, PerArena, FreeIdx, Upto;
    assert ArenaOk(groups, arenas, lists, p);
    FreeIdxBound(arenas, lists, live, d, p);
    var groups', arenas', lists' := groups - {p}, arenas - {p}, lists[d := q];
    forall r: nat ensures ArenaOk(groups', arenas', lists', r) {
      assert ArenaOk(groups, arenas, lists, r);
      forall i: nat | r != p ensures i in FreeIdx(q, r) <==> i in FreeIdx(lists[d], r) {
        FreeIdxMember(q, r, i);
        FreeIdxMember(lists[d], r, i);
      }
      assert r != p ==> FreeIdx(q, r) == FreeIdx(lists[d], r);
    }
    forall e: nat, c: Block ensures FreeOk(arenas', lists', live, e, c) {
      assert FreeOk(arenas, lists, live, e, c);
    }
    forall e: nat ensures ListOk(lists', e) {
      assert ListOk(lists, e);
    }
    forall c: Block ensures LiveOk(arenas', live, c) && SplitOk(arenas', lists', live, c) {
      assert LiveOk(arenas, live, c) && SplitOk(arenas, lists, live, c) && FreeOk(arenas, lists, live, d, c);
      assert c.page == p && c.idx < PerArena(d) ==> c == Block(p, c.idx);
    }
  }

  /** `free` of a big block gives back its pages, as many as its header counts. */
  lemma BigFreeKeeps(groups: Groups, arenas: map<nat, Arena>, lists: Lists, live: map<Block, nat>, b: Block)
    requires Shape(groups, arenas, lists, live) && b in live && b.page in arenas && arenas[b.page].desc.None?
    ensures b.page in groups && groups[b.page] == arenas[b.page].freeCnt
    ensures Shape(groups - {b.page}, arenas - {b.page}, lists, live - {b})
  {
    hide Size, PerArena, FreeIdx, Upto;
    var p := b.page;
    assert LiveOk(arenas, live, b) && ArenaOk(groups, arenas, lists, p);
    var groups', arenas', live' := groups - {p}, arenas - {p}, live - {b};
    forall r: nat ensures ArenaOk(groups', arenas', lists, r) {
      assert ArenaOk(groups, arenas, lists, r);
    }
    forall e: nat, c: Block ensures FreeOk(arenas', lists, live', e, c) {
      assert FreeOk(arenas, lists, live, e, c);
    }
    forall c: Block ensures LiveOk(arenas', live', c) && SplitOk(arenas', lists, live', c) {
      assert LiveOk(arenas, live, c) && SplitOk(arenas, lists, live, c);
    }
  }

  // ---- addresses -----------------------------------------------------------------------------------

  /** Address of a block, from the start of the pool: `arena_to_block`, or `a + 1` for a big block. */
  function Off(a: Arena, b: Block): nat
    requires IsBlock(a, b)
  {
    PGSIZE * b.page + HEADER + match a.desc case Some(d) => b.idx * Size(d) case None => 0
  }

  lemma BlockInPage(d: nat, i: nat)
    requires d < DESCS && i < PerArena(d)
    ensures HEADER + i * Size(d) + Size(d) <= PGSIZE && i * Size(d) % Size(d) == 0
  {
    hide Size;
    SlotsApart(i, PerArena(d), Size(d));
    WholeBlocks(PGSIZE - HEADER, Size(d));
    ModOf(i, Size(d), i * Size(d));
  }

  /** Rounding a block's address down finds its arena, and the alignment assertions of `block_to_arena` hold. */
  lemma BlockToArena(a: Arena, b: Block)
    requires IsBlock(a, b)
    ensures Off(a, b) / PGSIZE == b.page
    ensures match a.desc
            case Some(d) => (Off(a, b) % PGSIZE - HEADER) % Size(d) == 0
            case None => Off(a, b) % PGSIZE == HEADER
  {
    hide Size, PerArena;
    match a.desc {
      case Some(d) =>
        BlockInPage(d, b.idx);
        PageOffset(b.page, HEADER + b.idx * Size(d));
      case None => PageOffset(b.page, HEADER);
    }
  }

  lemma PageOffset(p: nat, o: nat)
    requires o < PGSIZE
    ensures (PGSIZE * p + o) / PGSIZE == p && (PGSIZE * p + o) % PGSIZE == o
  {
  }

  /** A held block lies inside its group of pages, after the header. */
  lemma BlockInGroup(used: seq<bool>, groups: Groups, arenas: map<nat, Arena>, lists: Lists, live: map<Block, nat>,
                     b: Block)
    requires Shape(groups, arenas, lists, live) && Tracks(used, groups) && b in live
    ensures b.page in arenas && b.page in groups && IsBlock(arenas[b.page], b)
    ensures var a := arenas[b.page];
            && PGSIZE * b.page + HEADER <= Off(a, b) &&
              Off(a, b) + BlockSize(a) <= PGSIZE * (b.page + groups[b.page]) <= PGSIZE * |used|
            && 0 < live[b] <= BlockSize(a)
  {
    hide Size, PerArena, Tracks;
    assert LiveOk(arenas, live, b) && ArenaOk(groups, arenas, lists, b.page);
    var a := arenas[b.page];
    GroupInRange(used, groups, b.page);
    if a.desc.Some? {
      BlockInPage(a.desc.value, b.idx);
    }
  }

  lemma GroupInRange(used: seq<bool>, groups: Groups, g: nat)
    requires Tracks(used, groups) && g in groups
    ensures groups[g] > 0 && g + groups[g] <= |used|
    ensures forall h :: h in groups && h != g ==> h + groups[h] <= g || g + groups[g] <= h
  {
  }

  /** No two held blocks overlap. */
  lemma LiveBlocksApart(used: seq<bool>, groups: Groups, arenas: map<nat, Arena>, lists: Lists, live: map<Block, nat>,
                        b: Block, c: Block)
    requires Shape(groups, arenas, lists, live) && Tracks(used, groups) && b in live && c in live && b != c
    ensures b.page in arenas && c.page in arenas && IsBlock(arenas[b.page], b) && IsBlock(arenas[c.page], c)
    ensures var x, y := arenas[b.page], arenas[c.page];
            Off(x, b) + BlockSize(x) <= Off(y, c) || Off(y, c) + BlockSize(y) <= Off(x, b)
  {
    hide Size, PerArena, Tracks, Shape;
    BlockInGroup(used, groups, arenas, lists, live, b);
    BlockInGroup(used, groups, arenas, lists, live, c);
    GroupInRange(used, groups, b.page);
    if b.page == c.page {
      var a := arenas[b.page];
      assert b.idx != c.idx;
      var d := a.desc.value;
      SlotsApart(b.idx, c.idx, Size(d));
      SlotsApart(c.idx, b.idx, Size(d));
    }
  }

  lemma {:induction false} SlotsApart(i: nat, j: nat, size: nat)
    ensures i < j ==> i * size + size <= j * size
    decreases j
  {
    if i < j {
      NextSlot(j - 1, size);
      SlotsApart(i, j - 1, size);
    }
  }

  lemma WholeBlocks(n: nat, size: nat)
    requires size > 0
    ensures (n / size) * size <= n
  {
    assert n == (n / size) * size + n % size;
  }

  lemma ModOf(q: nat, size: nat, x: nat)
    requires size > 0 && x == q * size
    ensures x % size == 0
  {
    var k, r := x / size, x % size;
    assert x == k * size + r;
    if k < q {
      SlotsApart(k, q, size);
    } else if q < k {
      SlotsApart(q, k, size);
    }
  }

  lemma NextSlot(j: nat, size: nat)
    ensures (j + 1) * size == j * size + size
  {
  }

  // ---- the allocator --------------------------------------------------------------------------------

  /** A block is where it was. */
  ghost predicate PlaceKept(arenas: map<nat, Arena>, arenas': map<nat, Arena>, b: Block) {
    && b.page in arenas && b.page in arenas' && arenas'[b.page].desc == arenas[b.page].desc
    && (arenas[b.page].desc.None? ==> arenas'[b.page] == arenas[b.page])
  }

  ghost predicate PlacesKept(arenas: map<nat, Arena>, arenas': map<nat, Arena>, live: map<Block, nat>) {
    forall b: Block :: b in live ==> PlaceKept(arenas, arenas', b)
  }

  lemma PlacesSame(groups: Groups, arenas: map<nat, Arena>, lists: Lists, live: map<Block, nat>,
                   arenas': map<nat, Arena>)
    requires Shape(groups, arenas, lists, live)
    requires forall p :: p in arenas ==>
               p in arenas' && arenas'[p].desc == arenas[p].desc && (arenas[p].desc.None? ==> arenas'[p] == arenas[p])
    ensures PlacesKept(arenas, arenas', live)
  {
    forall b: Block | b in live ensures PlaceKept(arenas, arenas', b) {
      assert LiveOk(arenas, live, b);
    }
  }

  /** The groups of the page pool that are none of the heap's. */
  ghost function Foreign(groups: Groups, arenas: map<nat, Arena>): Groups {
    map g | g in groups && g !in arenas :: groups[g]
  }

  lemma ForeignGrow(groups: Groups, arenas: map<nat, Arena>, lists: Lists, live: map<Block, nat>, p: nat, cnt: nat,
                    a: Arena)
    requires Shape(groups, arenas, lists, live) && p !in groups
    ensures Foreign(groups[p := cnt], arenas[p := a]) == Foreign(groups, arenas)
  {
    assert ArenaOk(groups, arenas, lists, p);
  }

  lemma ForeignShrink(groups: Groups, arenas: map<nat, Arena>, p: nat)
    requires p in arenas
    ensures Foreign(groups - {p}, arenas - {p}) == Foreign(groups, arenas)
  {
  }

  lemma ForeignSame(groups: Groups, arenas: map<nat, Arena>, p: nat, a: Arena)
    requires p in arenas
    ensures Foreign(groups, arenas[p := a]) == Foreign(groups, arenas)
  {
  }

  /** Entirely free arenas are not kept, except possibly `p`. */
  ghost predicate StrictBut(arenas: map<nat, Arena>, p: nat) {
    forall r: nat :: r != p ==> StrictOk(arenas, r)
  }

  lemma StrictUpdate(arenas: map<nat, Arena>, p: nat, a: Arena)
    requires StrictBut(arenas, p)
    ensures StrictBut(arenas[p := a], p)
    ensures (a.desc.Some? && a.desc.value < DESCS ==> a.freeCnt < PerArena(a.desc.value)) ==> Strict(arenas[p := a])
  {
    var arenas' := arenas[p := a];
    forall r: nat | r != p ensures StrictOk(arenas', r) {
      assert StrictOk(arenas, r);
    }
    if a.desc.Some? && a.desc.value < DESCS ==> a.freeCnt < PerArena(a.desc.value) {
      forall r: nat ensures StrictOk(arenas', r) {
        assert r != p ==> StrictOk(arenas, r);
      }
    }
  }

  ghost predicate Made(descs: seq<Desc>) {
    |descs| == DESCS && forall d :: 0 <= d < DESCS ==> descs[d] == Desc(Size(d), PerArena(d))
  }

  /** The smallest descriptor that serves a request, or `DESCS` if none does. */
  function DescFor(size: nat): (d: nat)
    ensures d <= DESCS && (d < DESCS ==> size <= Size(d)) && (d > 0 ==> Size(d - 1) < size)
  {
    if size <= 16 then 0 else if size <= 32 then 1 else if size <= 64 then 2 else if size <= 128 then 3
    else if size <= 256 then 4 else if size <= 512 then 5 else if size <= 1024 then 6 else 7
  }

  type Size32 = n: nat | n < WORD

  const WORD: nat := 0x1_0000_0000
  const LARGEST: nat := 0xFFFF_FFF4      // the last size for which rounding up to pages gives enough of them

  /** Pages that a request asks for when no free block serves it; rounding up wraps around in 32 bits. */
  function PagesFor(size: nat): nat {
    if size <= Size(DESCS - 1) then 1 else ((size + HEADER) % WORD + PGSIZE - 1) % WORD / PGSIZE
  }

  /** How much of a block the caller may use: what was asked for, except after a wrap-around. */
  function Usable(size: nat): nat {
    if size <= LARGEST then size else PGSIZE - HEADER
  }

  /** The pages asked for hold the request, or there are none, or the last eleven sizes get a single page. */
  lemma PagesSuffice(size: Size32)
    requires size > Size(DESCS - 1)
    ensures PagesFor(size) == 0 || 0 < Usable(size) <= PGSIZE * PagesFor(size) - HEADER
    ensures PagesFor(size) == 0 || (size <= PGSIZE * PagesFor(size) - HEADER <==> size <= LARGEST)
    ensures size > LARGEST ==> PagesFor(size) == 1
  {
  }

  /** Copying as much as the old block has, up to the new size, stays inside the new block. */
  predicate CopyFits(arenas: map<nat, Arena>, b: Block, newSize: nat) {
    newSize > LARGEST && b.page in arenas ==> BlockSize(arenas[b.page]) <= PGSIZE - HEADER
  }

  /** What header the page of a block for `size` has. */
  predicate Serves(a: Arena, size: nat) {
    if DescFor(size) < DESCS then a.desc == Some(DescFor(size)) else a == Arena(None, PagesFor(size)) && a.freeCnt > 0
  }

  lemma CopyFitsIff(arenas: map<nat, Arena>, b: Block, r: Block, newSize: Size32)
    requires newSize > 0 && b.page in arenas && r.page in arenas && Serves(arenas[r.page], newSize)
    ensures Min(newSize, BlockSize(arenas[b.page])) <= BlockSize(arenas[r.page]) <==> CopyFits(arenas, b, newSize)
    ensures newSize <= BlockSize(arenas[r.page]) <==> newSize <= LARGEST
  {
    if DescFor(newSize) == DESCS {
      PagesSuffice(newSize);
    }
  }

  /** The loop of `free` that unlinks an arena's blocks, each of them on the list. */
  method Unlink(list: seq<Block>, p: nat, n: nat) returns (q: seq<Block>)
    requires NoDup(list) && forall i: nat :: i < n ==> Block(p, i) in list
    ensures NoDup(q) && forall x :: x in q <==> x in list && !(x.page == p && x.idx < n)
  {
    q := list;
    for i := 0 to n
      invariant NoDup(q) && forall x :: x in q <==> x in list && !(x.page == p && x.idx < i)
    {
      assert Block(p, i) in q;
      WithoutMembers(q, Block(p, i));
      q := Without(q, Block(p, i));
    }
  }

  lemma ServesStill(arenas: map<nat, Arena>, arenas': map<nat, Arena>, b: Block, size: nat)
    requires PlaceKept(arenas, arenas', b) && Serves(arenas[b.page], size)
    ensures Serves(arenas'[b.page], size)
  {
  }

  /** No free block is listed for the size. */
  predicate NoneListed(lists: Lists, size: nat) {
    DescFor(size) < |lists| ==> lists[DescFor(size)] == []
  }

  class Heap {
    const pool: Pool
    const descs: seq<Desc>
    var arenas: map<nat, Arena>
    var lists: Lists
    var mem: seq<byte>
    var live: map<Block, nat>     // what callers hold, and how much of it they may use; the allocator never reads it

    ghost predicate Base()
      reads this, pool, pool.usedMap.words
    {
      && pool.Valid() && |mem| == PGSIZE * |pool.used| && Made(descs) && |lists| == DESCS
      && Shape(pool.live, arenas, lists, live)
    }

    ghost predicate Valid()
      reads this, pool, pool.usedMap.words
    {
      Base() && Strict(arenas)
    }

    /** `malloc_init` over a page pool that may have other users. */
    constructor (pool: Pool, mem: seq<byte>)
      requires pool.Valid() && |mem| == PGSIZE * |pool.used|
      ensures Valid() && live == map[] && this.pool == pool
    {
      this.pool := pool;
      this.mem := mem;
      var ds := Descriptors();
      descs := ds;
      arenas, live := map[], map[];
      lists := seq(DESCS, _ => []);
    }

    /** A fresh arena for descriptor `d`, all its blocks on the free list. */
    method NewArena(d: nat) returns (r: Option<nat>)
      requires Valid() && d < DESCS && lists[d] == []
      modifies this`arenas, this`lists, pool, pool.usedMap.words
      ensures Base() && |pool.used| == old(|pool.used|) && PlacesKept(old(arenas), arenas, live)
      ensures r.None? <==> FirstFit(old(pool.used), 0, 1, false).None?
      ensures r.None? ==> Valid() && lists == old(lists)
      ensures Foreign(pool.live, arenas) == old(Foreign(pool.live, arenas))
      ensures r.Some? ==> r == FirstFit(old(pool.used), 0, 1, false)
      ensures r.Some? ==> |lists[d]| == PerArena(d) && forall k :: 0 <= k < |lists[d]| ==>
                lists[d][k] == Block(r.value, k)
      ensures r.Some? ==> lists[d] != [] && lists[d][0].page == r.value && StrictBut(arenas, r.value)
    {
      hide Size, PerArena, Shape, FirstFit;
      r := pool.Take(1);
      PlacesSame(old(pool.live), arenas, lists, live, arenas);
      if r.None? {
        return;
      }
      var p := r.value;
      var n := descs[d].blocksPerArena;
      var q: seq<Block> := [];
      for i := 0 to n
        invariant |q| == i && forall k :: 0 <= k < i ==> q[k] == Block(p, k)
        invariant pool.live == old(pool.live)[p := 1] && pool.Valid() && |pool.used| == old(|pool.used|)
        invariant arenas == old(arenas) && lists == old(lists)
      {
        q := q + [Block(p, i)];
      }
      forall b: Block ensures b in q <==> b.page == p && b.idx < n {
        if b.page == p && b.idx < n {
          assert q[b.idx] == b;
        }
      }
      GrowKeeps(old(pool.live), arenas, lists, live, d, p, q);
      ForeignGrow(old(pool.live), arenas, lists, live, p, 1, Arena(Some(d), n));
      PlacesSame(old(pool.live), arenas, lists, live, arenas[p := Arena(Some(d), n)]);
      StrictUpdate(arenas, p, Arena(Some(d), n));
      arenas := arenas[p := Arena(Some(d), n)];
      lists := lists[d := q];
    }

    /** The end of `malloc`: the front block of a list that has one. */
    method PopFront(d: nat, size: nat) returns (b: Block)
      requires Base() && d < DESCS && lists[d] != [] && StrictBut(arenas, lists[d][0].page) && 0 < size <= Size(d)
      modifies this`arenas, this`lists, this`live
      ensures Valid() && b !in old(live) && live == old(live)[b := size] && PlacesKept(old(arenas), arenas, old(live))
      ensures b.page in arenas && arenas[b.page].desc == Some(d)
      ensures b == old(lists)[d][0] && lists == old(lists)[d := old(lists)[d][1..]]
      ensures Foreign(pool.live, arenas) == old(Foreign(pool.live, arenas))
    {
      hide Size, PerArena, Shape;
      b := lists[d][0];
      PopKeeps(pool.live, arenas, lists, live, d, size);
      ForeignSame(pool.live, arenas, b.page, Arena(Some(d), arenas[b.page].freeCnt - 1));
      var a := Arena(Some(d), arenas[b.page].freeCnt - 1);
      PlacesSame(pool.live, arenas, lists, live, arenas[b.page := a]);
      StrictUpdate(arenas, b.page, a);
      lists := lists[d := lists[d][1..]];
      arenas := arenas[b.page := a];
      live := live[b := size];
    }

    /** The part of `malloc` for requests larger than any descriptor's blocks. */
    method MallocBig(size: Size32) returns (r: Option<Block>)
      requires Valid() && size > Size(DESCS - 1)
      modifies this`arenas, this`live, pool, pool.usedMap.words
      ensures Valid() && |pool.used| == old(|pool.used|) && PlacesKept(old(arenas), arenas, old(live))
      ensures r.None? <==> PagesFor(size) == 0 || FirstFit(old(pool.used), 0, PagesFor(size), false).None?
      ensures r.None? ==> live == old(live)
      ensures r.Some? ==> r.value !in old(live) && live == old(live)[r.value := Usable(size)]
      ensures r.Some? ==> r.value.page in arenas && Serves(arenas[r.value.page], size)
      ensures r.Some? ==> FirstFit(old(pool.used), 0, PagesFor(size), false) == Some(r.value.page) && r.value.idx == 0
      ensures Foreign(pool.live, arenas) == old(Foreign(pool.live, arenas))
    {
      hide Shape, FirstFit;
      var cnt := ((size + HEADER) % WORD + PGSIZE - 1) % WORD / PGSIZE;
      assert cnt == PagesFor(size);
      PlacesSame(pool.live, arenas, lists, live, arenas);
      if cnt == 0 {
        return None;
      }
      PagesSuffice(size);
      assert DescFor(size) == DESCS;
      hide Size, PerArena, PagesFor, DescFor, Usable;
      var p := pool.Take(cnt);
      if p.None? {
        return None;
      }
      BigKeeps(old(pool.live), arenas, lists, live, p.value, cnt, Usable(size));
      ForeignGrow(old(pool.live), arenas, lists, live, p.value, cnt, Arena(None, cnt));
      PlacesSame(old(pool.live), arenas, lists, live, arenas[p.value := Arena(None, cnt)]);
      StrictUpdate(arenas, p.value, Arena(None, cnt));
      arenas := arenas[p.value := Arena(None, cnt)];
      live := live[Block(p.value, 0) := Usable(size)];
      r := Some(Block(p.value, 0));
    }

    /**
     `malloc`: a block that nobody held, from the smallest descriptor that serves the size; or
     none, if the size is zero, or no block is listed and the pages are not to be had. What it
     returns has room for the request if and only if the request is at most `LARGEST` bytes.
     */
    method Malloc(size: Size32) returns (r: Option<Block>)
      requires Valid()
      modifies this`arenas, this`lists, this`live, pool, pool.usedMap.words
      ensures Valid() && PlacesKept(old(arenas), arenas, old(live))
      ensures r.None? <==> (size == 0 || (NoneListed(old(lists), size) &&
                            (PagesFor(size) == 0 || FirstFit(old(pool.used), 0, PagesFor(size), false).None?)))
      ensures r.None? ==> live == old(live)
      ensures r.Some? ==> r.value !in old(live) && live == old(live)[r.value := Usable(size)]
      ensures r.Some? ==> r.value.page in arenas && Serves(arenas[r.value.page], size)
      ensures r.Some? ==> (size <= BlockSize(arenas[r.value.page]) <==> size <= LARGEST)
      ensures r.Some? && !NoneListed(old(lists), size) ==> r.value == old(lists)[DescFor(size)][0]
      ensures r.Some? && NoneListed(old(lists), size) ==>
                FirstFit(old(pool.used), 0, PagesFor(size), false) == Some(r.value.page) && r.value.idx == 0
      ensures Foreign(pool.live, arenas) == old(Foreign(pool.live, arenas))
    {
      hide Shape, FirstFit;
      PlacesSame(pool.live, arenas, lists, live, arenas);
      if size == 0 {
        return None;
      }
      var d := 0;
      while d < |descs| && descs[d].blockSize < size
        invariant d <= DESCS && forall k :: 0 <= k < d ==> Size(k) < size
      {
        d := d + 1;
      }
      assert d == DescFor(size) && (d < DESCS ==> size <= Size(d) && PagesFor(size) == 1);
      if d == |descs| {
        r := MallocBig(size);
        if r.Some? { CopyFitsIff(arenas, r.value, r.value, size); }
        return;
      }
      assert Usable(size) == size;
      hide Size, PerArena, PagesFor, DescFor, Usable;
      if lists[d] == [] {
        var p := NewArena(d);
        if p.None? {
          return None;
        }
      }
      ghost var arenas1 := arenas;
      var b := PopFront(d, size);
      PlacesTrans(old(arenas), arenas1, arenas, old(live));
      CopyFitsIff(arenas, b, b, size);
      r := Some(b);
    }

    /**
     The end of `free` when its arena holds no block in use any more: every block is on the list
     and leaves it, and the page goes back.
     */
    method ReleaseArena(p: nat, d: nat)
      requires Base() && d < DESCS && p in arenas && arenas[p] == Arena(Some(d), PerArena(d)) && StrictBut(arenas, p)
      modifies this`arenas, this`lists, pool, pool.usedMap.words
      ensures Valid() && PlacesKept(old(arenas), arenas, live) && p !in arenas && pool.live == old(pool.live) - {p}
      ensures Foreign(pool.live, arenas) == old(Foreign(pool.live, arenas))
    {
      hide Size, PerArena, FirstFit, Tracks;
      var n := descs[d].blocksPerArena;
      assert ArenaOk(pool.live, arenas, lists, p) && ListOk(lists, d);
      FreeIdxBound(arenas, lists, live, d, p);
      var q := Unlink(lists[d], p, n);
      forall x: Block ensures x in q <==> x in lists[d] && x.page != p {
        assert FreeOk(arenas, lists, live, d, x);
      }
      ShrinkKeeps(pool.live, arenas, lists, live, p, d, q);
      PlacesShrunk(pool.live - {p}, arenas, lists[d := q], live, arenas - {p});
      StrictRemove(arenas, p);
      ForeignShrink(pool.live, arenas, p);
      lists := lists[d := q];
      arenas := arenas - {p};
      pool.Give(p, 1);
    }

    /** `free` of a block of an arena. */
    method FreeSmall(b: Block)
      requires Valid() && b in live && b.page in arenas && arenas[b.page].desc.Some?
      modifies this`arenas, this`lists, this`live, this`mem, pool, pool.usedMap.words
      ensures Valid() && live == old(live) - {b} && ContentsKept(old(mem), old(arenas), mem, arenas, live)
      ensures PlacesKept(old(arenas), arenas, live) && Foreign(pool.live, arenas) == old(Foreign(pool.live, arenas))
      ensures var d := old(arenas)[b.page].desc.value;
              d < DESCS && (b.page in arenas ==> lists == old(lists)[d := [b] + old(lists)[d]])
      ensures IsBlock(old(arenas)[b.page], b) && 0 <= BlockSize(old(arenas)[b.page])
      ensures Off(old(arenas)[b.page], b) + BlockSize(old(arenas)[b.page]) <= |old(mem)|
      ensures mem == Patch(old(mem), Off(old(arenas)[b.page], b), seq(BlockSize(old(arenas)[b.page]), _ => 0xcc))
    {
      hide Size, PerArena, FirstFit, Tracks, Shape, BytesOf;
      var p := b.page;
      BlockInGroup(pool.used, pool.live, arenas, lists, live, b);
      var d := arenas[p].desc.value;
      PatchKeeps(mem, pool.used, pool.live, arenas, lists, live, b, seq(descs[d].blockSize, _ => 0xcc));
      mem := Patch(mem, Off(arenas[p], b), seq(descs[d].blockSize, _ => 0xcc));
      PushKeeps(pool.live, arenas, lists, live, b);
      var a := Arena(Some(d), arenas[p].freeCnt + 1);
      StrictUpdate(arenas, p, a);
      ForeignSame(pool.live, arenas, p, a);
      PlacesSame(pool.live, arenas, lists, live, arenas[p := a]);
      lists := lists[d := [b] + lists[d]];
      arenas := arenas[p := a];
      live := live - {b};
      if a.freeCnt >= descs[d].blocksPerArena {
        assert a.freeCnt == descs[d].blocksPerArena;
        ghost var arenas1 := arenas;
        ReleaseArena(p, d);
        PlacesTrans(old(arenas), arenas1, arenas, live);
      }
      PlacesContents(mem, old(arenas), arenas, live);
      ContentsTrans(old(mem), old(arenas), mem, old(arenas), mem, arenas, live);
    }

    /** `free` of a group of whole pages. */
    method FreeBig(b: Block)
      requires Valid() && b in live && b.page in arenas && arenas[b.page].desc.None?
      modifies this`arenas, this`live, pool, pool.usedMap.words
      ensures Valid() && live == old(live) - {b} && ContentsKept(mem, old(arenas), mem, arenas, live)
      ensures pool.live == old(pool.live) - {b.page} && arenas == old(arenas) - {b.page}
      ensures PlacesKept(old(arenas), arenas, live) && Foreign(pool.live, arenas) == old(Foreign(pool.live, arenas))
    {
      hide Size, PerArena, FirstFit, Tracks, Shape, BytesOf;
      BigFreeKeeps(pool.live, arenas, lists, live, b);
      PlacesShrunk(pool.live - {b.page}, arenas, lists, live - {b}, arenas - {b.page});
      StrictRemove(arenas, b.page);
      ForeignShrink(pool.live, arenas, b.page);
      var cnt := arenas[b.page].freeCnt;
      arenas := arenas - {b.page};
      live := live - {b};
      pool.Give(b.page, cnt);
      PlacesContents(mem, old(arenas), arenas, live);
    }

    /** `free`: only the block goes, and every block still held keeps its place and its bytes. */
    method Free(b: Option<Block>)
      requires Valid() && (b.Some? ==> b.value in live)
      modifies this`arenas, this`lists, this`live, this`mem, pool, pool.usedMap.words
      ensures Valid() && live == (if b.Some? then old(live) - {b.value} else old(live))
      ensures ContentsKept(old(mem), old(arenas), mem, arenas, live)
      ensures PlacesKept(old(arenas), arenas, live) && Foreign(pool.live, arenas) == old(Foreign(pool.live, arenas))
    {
      hide Size, PerArena, Tracks, Shape, BytesOf;
      PlacesSame(pool.live, arenas, lists, live, arenas);
      if b.Some? {
        BlockInGroup(pool.used, pool.live, arenas, lists, live, b.value);
        if arenas[b.value.page].desc.Some? {
          FreeSmall(b.value);
        } else {
          FreeBig(b.value);
        }
      }
    }

    /**
     `realloc`: the new block begins with the old one's bytes, as many as both have. Beyond
     `LARGEST` it copies outside the new block, unless the old one is no larger than a page holds.
     */
    method Realloc(b: Option<Block>, newSize: Size32) returns (r: Option<Block>)
      requires Valid() && (b.Some? ==> b.value in live && CopyFits(arenas, b.value, newSize))
      modifies this`arenas, this`lists, this`live, this`mem, pool, pool.usedMap.words
      ensures Valid()
      ensures newSize == 0 ==> r.None? && live == (if b.Some? then old(live) - {b.value} else old(live))
      ensures newSize > 0 && r.None? ==> live == old(live)
      ensures newSize > 0 ==> (r.None? <==> (NoneListed(old(lists), newSize) &&
                (PagesFor(newSize) == 0 || FirstFit(old(pool.used), 0, PagesFor(newSize), false).None?)))
      ensures r.Some? ==> r.value.page in arenas && Serves(arenas[r.value.page], newSize)
      ensures Foreign(pool.live, arenas) == old(Foreign(pool.live, arenas))
      ensures r.Some? ==> r.value !in old(live)
      ensures r.Some? ==> live == (if b.Some? then old(live) - {b.value} else old(live))[r.value := Usable(newSize)]
      ensures ContentsKept(old(mem), old(arenas), mem, arenas, if r.Some? then live - {r.value} else live)
      ensures r.Some? && b.Some? ==> StartsWith(old(mem), old(arenas), b.value, old(live)[b.value], mem, arenas,
                r.value, newSize)
    {
      hide Size, PerArena, Tracks, Shape, FirstFit, PagesFor, DescFor, BytesOf, ContentsKept, Serves;
      if newSize == 0 {
        Free(b);
        assert live - {} == live;
        return None;
      }
      r := Malloc(newSize);
      ghost var arenas1 := arenas;
      PlacesContents(mem, old(arenas), arenas, old(live));
      if b.Some? && r.Some? {
        assert PlaceKept(old(arenas), arenas, b.value);
        CopyFitsIff(arenas, b.value, r.value, newSize);
        Move(b.value, r.value, newSize);
        ServesStill(arenas1, arenas, r.value, newSize);
        Relocated(mem, old(mem), old(arenas), arenas1, arenas, old(live), live, b.value, r.value);
      } else if r.Some? {
        assert live - {r.value} == old(live);
      }
    }

    /** The rest of `realloc` once it has both blocks: copy, then free the old one. */
    method Move(b: Block, r: Block, newSize: nat)
      requires Valid() && b in live && r in live && b != r && b.page in arenas && r.page in arenas
      requires Min(newSize, BlockSize(arenas[b.page])) <= BlockSize(arenas[r.page])
      modifies this`arenas, this`lists, this`live, this`mem, pool, pool.usedMap.words
      ensures Valid() && live == old(live) - {b} && ContentsKept(old(mem), old(arenas), mem, arenas, live - {r})
      ensures StartsWith(old(mem), old(arenas), b, old(live)[b], mem, arenas, r, newSize)
      ensures PlaceKept(old(arenas), arenas, r) && Foreign(pool.live, arenas) == old(Foreign(pool.live, arenas))
    {
      hide Size, PerArena, Tracks, Shape, BytesOf;
      BlockInGroup(pool.used, pool.live, arenas, lists, live, b);
      BlockInGroup(pool.used, pool.live, arenas, lists, live, r);
      var n := Min(newSize, BlockSize(arenas[b.page]));
      BytesLength(mem, pool.used, pool.live, arenas, lists, live, b);
      Copy(r, b, n);
      ghost var mem1 := mem;
      Free(Some(b));
      assert BytesOf(mem, arenas, r) == BytesOf(mem1, old(arenas), r);
    }

    /**
     Every sequence of calls on valid blocks; a call with a block that is not held, or a realloc
     that copies too much, is not made.
     */
    method Run(ops: seq<Op>) returns (ghost trace: seq<Snap>)
      requires Valid()
      modifies this`arenas, this`lists, this`live, this`mem, pool, pool.usedMap.words
      ensures Valid() && Sound(pool.live, arenas, lists, live)
      ensures Foreign(pool.live, arenas) == old(Foreign(pool.live, arenas))
      ensures |trace| == |ops| + 1 && trace[0] == old(Snapshot()) && trace[|ops|] == Snapshot()
      ensures forall i :: 0 <= i < |ops| ==> Links(trace[i], ops[i], trace[i + 1])
    {
      hide Size, PerArena, Tracks, Shape, FirstFit, PagesFor, BytesOf, Sound, Foreign, Links;
      trace := [Snapshot()];
      for i := 0 to |ops|
        invariant Valid() && Foreign(pool.live, arenas) == old(Foreign(pool.live, arenas))
        invariant |trace| == i + 1 && trace[0] == old(Snapshot()) && trace[i] == Snapshot()
        invariant forall k :: 0 <= k < i ==> Links(trace[k], ops[k], trace[k + 1])
      {
        Step(ops[i]);
        trace := trace + [Snapshot()];
      }
      InvariantMeans(pool.used, pool.live, arenas, lists, live);
    }

    /** One call; see `Run`. */
    method Step(op: Op)
      requires Valid()
      modifies this`arenas, this`lists, this`live, this`mem, pool, pool.usedMap.words
      ensures Valid() && Foreign(pool.live, arenas) == old(Foreign(pool.live, arenas))
      ensures Links(old(Snapshot()), op, Snapshot())
    {
      hide Size, PerArena, Tracks, Shape, FirstFit, PagesFor, BytesOf, Foreign, NoneListed;
      match op {
        case MallocOp(size) =>
          var r := Malloc(size);
        case FreeOp(b) =>
          if b in live {
            Free(Some(b));
          }
        case ReallocOp(b, size) =>
          if b in live && CopyFits(arenas, b, size) {
            var r := Realloc(Some(b), size);
          }
      }
    }

    ghost function Snapshot(): Snap
      reads this, pool
    {
      Snap(live, lists, arenas, pool.used)
    }

    /** `memcpy` of the first `n` bytes of one held block into another. */
    method Copy(dst: Block, src: Block, n: nat)
      requires Valid() && dst in live && src in live && dst != src
      requires dst.page in arenas && src.page in arenas && n <= BlockSize(arenas[src.page]) &&
               n <= BlockSize(arenas[dst.page])
      modifies this`mem
      ensures Valid() && ContentsKept(old(mem), arenas, mem, arenas, live - {dst})
      ensures n <= |BytesOf(mem, arenas, dst)| && n <= |BytesOf(old(mem), arenas, src)|
      ensures BytesOf(mem, arenas, dst)[..n] == BytesOf(old(mem), arenas, src)[..n]
    {
      hide Size, PerArena, Tracks, Shape;
      BlockInGroup(pool.used, pool.live, arenas, lists, live, dst);
      BlockInGroup(pool.used, pool.live, arenas, lists, live, src);
      var from := Off(arenas[src.page], src);
      PatchKeeps(mem, pool.used, pool.live, arenas, lists, live, dst, mem[from..from + n]);
      assert BytesOf(mem, arenas, src)[..n] == mem[from..from + n];
      mem := Patch(mem, Off(arenas[dst.page], dst), mem[from..from + n]);
    }
  }

  datatype Op = MallocOp(size: Size32) | FreeOp(b: Block) | ReallocOp(b: Block, size: Size32)

  /** What decides the outcome of a call. */
  datatype Snap = Snap(live: map<Block, nat>, lists: Lists, arenas: map<nat, Arena>, used: seq<bool>)

  /** No block is to be had: for nothing, or when none is listed and the pages are not free. */
  predicate Exhausted(a: Snap, size: nat) {
    size == 0 || (NoneListed(a.lists, size) &&
                  (PagesFor(size) == 0 || FirstFit(a.used, 0, PagesFor(size), false).None?))
  }

  /** What a call of a run does to the blocks that are held. */
  ghost predicate Links(a: Snap, op: Op, b: Snap) {
    match op
    case MallocOp(size) =>
      if Exhausted(a, size) then b.live == a.live
      else exists x :: x !in a.live && b.live == a.live[x := Usable(size)]
    case FreeOp(x) => if x in a.live then b.live == a.live - {x} else b == a
    case ReallocOp(x, size) =>
      if x !in a.live || !CopyFits(a.arenas, x, size) then b == a
      else if size == 0 then b.live == a.live - {x}
      else if Exhausted(a, size) then b.live == a.live
      else exists y :: y !in a.live && b.live == (a.live - {x})[y := Usable(size)]
  }

  /**
   What callers and the allocator's own assertions rely on: header counts are exact and below
   the number of blocks per arena, no block is listed twice, and held blocks lie inside their
   pages, clear of the header, as large as was asked for and apart from each other.
   */
  ghost predicate Sound(groups: Groups, arenas: map<nat, Arena>, lists: Lists, live: map<Block, nat>) {
    && |lists| == DESCS && (forall d :: 0 <= d < DESCS ==> NoDup(lists[d]))
    && (forall p, d :: p in arenas && arenas[p].desc == Some(d) ==>
        d < DESCS && arenas[p].freeCnt == |FreeIdx(lists[d], p)| < PerArena(d))
    && (forall b: Block :: b in live ==> Fits(groups, arenas, live, b))
    && (forall b: Block, c: Block :: b in live && c in live && b != c ==> Apart(arenas, b, c))
  }

  ghost predicate Fits(groups: Groups, arenas: map<nat, Arena>, live: map<Block, nat>, b: Block) {
    b in live && b.page in arenas && b.page in groups && IsBlock(arenas[b.page], b) &&
    PGSIZE * b.page + HEADER <= Off(arenas[b.page], b) &&
    Off(arenas[b.page], b) + live[b] <= PGSIZE * (b.page + groups[b.page])
  }

  ghost predicate Apart(arenas: map<nat, Arena>, b: Block, c: Block) {
    b.page in arenas && c.page in arenas && IsBlock(arenas[b.page], b) && IsBlock(arenas[c.page], c) &&
    var x, y := arenas[b.page], arenas[c.page];
    Off(x, b) + BlockSize(x) <= Off(y, c) || Off(y, c) + BlockSize(y) <= Off(x, b)
  }

  lemma InvariantMeans(used: seq<bool>, groups: Groups, arenas: map<nat, Arena>, lists: Lists, live: map<Block, nat>)
    requires Shape(groups, arenas, lists, live) && Strict(arenas) && Tracks(used, groups)
    ensures Sound(groups, arenas, lists, live)
  {
    hide Size, PerArena, Tracks, FreeIdx, Off;
    forall d | 0 <= d < DESCS ensures NoDup(lists[d]) {
      assert ListOk(lists, d);
    }
    forall p, d | p in arenas && arenas[p].desc == Some(d)
      ensures d < DESCS && arenas[p].freeCnt == |FreeIdx(lists[d], p)| < PerArena(d)
    {
      assert ArenaOk(groups, arenas, lists, p) && StrictOk(arenas, p);
    }
    forall b: Block | b in live ensures Fits(groups, arenas, live, b) {
      BlockInGroup(used, groups, arenas, lists, live, b);
    }
    forall b: Block, c: Block | b in live && c in live && b != c ensures Apart(arenas, b, c) {
      LiveBlocksApart(used, groups, arenas, lists, live, b, c);
    }
  }

  function Min(a: int, b: int): int {
    if a < b then a else b
  }

  /** The bytes of a block. */
  function BytesOf(mem: seq<byte>, arenas: map<nat, Arena>, b: Block): seq<byte> {
    if b.page in arenas && IsBlock(arenas[b.page], b) && 0 <= BlockSize(arenas[b.page]) &&
       Off(arenas[b.page], b) + BlockSize(arenas[b.page]) <= |mem|
    then mem[Off(arenas[b.page], b)..Off(arenas[b.page], b) + BlockSize(arenas[b.page])]
    else []
  }

  ghost predicate ContentsKept(mem: seq<byte>, arenas: map<nat, Arena>, mem': seq<byte>, arenas': map<nat, Arena>,
                               live: map<Block, nat>) {
    forall b: Block :: b in live ==> BytesOf(mem', arenas', b) == BytesOf(mem, arenas, b)
  }

  /** Writing inside one held block changes no other. */
  lemma PatchKeeps(mem: seq<byte>, used: seq<bool>, groups: Groups, arenas: map<nat, Arena>, lists: Lists,
                   live: map<Block, nat>, b: Block, d: seq<byte>)
    requires Shape(groups, arenas, lists, live) && Tracks(used, groups) && |mem| == PGSIZE * |used| && b in live
    requires b.page in arenas && IsBlock(arenas[b.page], b) && |d| <= BlockSize(arenas[b.page])
    ensures Off(arenas[b.page], b) + |d| <= |mem|
    ensures ContentsKept(mem, arenas, Patch(mem, Off(arenas[b.page], b), d), arenas, live - {b})
    ensures var r := BytesOf(Patch(mem, Off(arenas[b.page], b), d), arenas, b);
            |r| == BlockSize(arenas[b.page]) && r[..|d|] == d
  {
    hide Size, PerArena, Tracks, Shape;
    BlockInGroup(used, groups, arenas, lists, live, b);
    var o := Off(arenas[b.page], b);
    var mem' := Patch(mem, o, d);
    forall c: Block | c in live - {b} ensures BytesOf(mem', arenas, c) == BytesOf(mem, arenas, c) {
      LiveBlocksApart(used, groups, arenas, lists, live, b, c);
      BlockInGroup(used, groups, arenas, lists, live, c);
      SliceKept(mem, o, d, Off(arenas[c.page], c), BlockSize(arenas[c.page]));
    }
    SlicePatched(mem, o, d, BlockSize(arenas[b.page]));
  }

  lemma SliceKept(mem: seq<byte>, o: nat, d: seq<byte>, at: nat, n: nat)
    requires o + |d| <= |mem| && at + n <= |mem| && (at + n <= o || o + |d| <= at)
    ensures Patch(mem, o, d)[at..at + n] == mem[at..at + n]
  {
  }

  lemma SlicePatched(mem: seq<byte>, o: nat, d: seq<byte>, n: nat)
    requires o + n <= |mem| && |d| <= n
    ensures Patch(mem, o, d)[o..o + n][..|d|] == d
  {
    assert Patch(mem, o, d)[o..o + n][..|d|] == Patch(mem, o, d)[o..o + |d|];
  }

  lemma PlacesTrans(a: map<nat, Arena>, b: map<nat, Arena>, c: map<nat, Arena>, live: map<Block, nat>)
    requires PlacesKept(a, b, live) && PlacesKept(b, c, live)
    ensures PlacesKept(a, c, live)
  {
    forall x: Block | x in live ensures PlaceKept(a, c, x) {
      assert PlaceKept(a, b, x) && PlaceKept(b, c, x);
    }
  }

  lemma PlacesShrunk(groups: Groups, arenas: map<nat, Arena>, lists: Lists, live: map<Block, nat>,
                     arenas': map<nat, Arena>)
    requires Shape(groups, arenas', lists, live) && forall p :: p in arenas' ==> p in arenas && arenas[p] == arenas'[p]
    ensures PlacesKept(arenas, arenas', live)
  {
    forall b: Block | b in live ensures PlaceKept(arenas, arenas', b) {
      assert LiveOk(arenas', live, b);
    }
  }

  lemma StrictRemove(arenas: map<nat, Arena>, p: nat)
    requires StrictBut(arenas, p)
    ensures Strict(arenas - {p})
  {
    forall r: nat ensures StrictOk(arenas - {p}, r) {
      assert r != p ==> StrictOk(arenas, r);
    }
  }

  lemma PlacesContents(mem: seq<byte>, arenas: map<nat, Arena>, arenas': map<nat, Arena>, live: map<Block, nat>)
    requires PlacesKept(arenas, arenas', live)
    ensures ContentsKept(mem, arenas, mem, arenas', live)
  {
    hide BytesOf;
    forall b: Block | b in live ensures BytesOf(mem, arenas', b) == BytesOf(mem, arenas, b) {
      assert PlaceKept(arenas, arenas', b);
      PlaceContents(mem, arenas, arenas', b);
    }
  }

  lemma PlaceContents(mem: seq<byte>, arenas: map<nat, Arena>, arenas': map<nat, Arena>, b: Block)
    requires PlaceKept(arenas, arenas', b)
    ensures BytesOf(mem, arenas', b) == BytesOf(mem, arenas, b)
  {
    hide Size, PerArena;
  }

  lemma ContentsTrans(mem: seq<byte>, a: map<nat, Arena>, mem1: seq<byte>, b: map<nat, Arena>, mem2: seq<byte>,
                      c: map<nat, Arena>, live: map<Block, nat>)
    requires ContentsKept(mem, a, mem1, b, live) && ContentsKept(mem1, b, mem2, c, live)
    ensures ContentsKept(mem, a, mem2, c, live)
  {
    hide BytesOf;
  }

  /**
   The new block begins with as many bytes of the old one as both have, so with all that its
   holder asked for or the new size allows.
   */
  ghost predicate StartsWith(mem: seq<byte>, arenas: map<nat, Arena>, b: Block, oldSize: nat,
                             mem': seq<byte>, arenas': map<nat, Arena>, r: Block, newSize: nat)
  {
    var n := Min(newSize, |BytesOf(mem, arenas, b)|);
    Min(newSize, oldSize) <= n <= |BytesOf(mem', arenas', r)| &&
      BytesOf(mem', arenas', r)[..n] == BytesOf(mem, arenas, b)[..n]
  }

  lemma BytesLength(mem: seq<byte>, used: seq<bool>, groups: Groups, arenas: map<nat, Arena>, lists: Lists,
                    live: map<Block, nat>, b: Block)
    requires Shape(groups, arenas, lists, live) && Tracks(used, groups) && |mem| == PGSIZE * |used| && b in live
    ensures b.page in arenas && |BytesOf(mem, arenas, b)| == BlockSize(arenas[b.page])
  {
    hide Size, PerArena, Tracks, Shape;
    BlockInGroup(used, groups, arenas, lists, live, b);
  }

  /** What the move did, seen from before the allocation that preceded it. */
  lemma Relocated(mem2: seq<byte>, mem: seq<byte>, a: map<nat, Arena>, b: map<nat, Arena>, c: map<nat, Arena>,
                  live: map<Block, nat>, live': map<Block, nat>, x: Block, y: Block)
    requires x in live && y !in live && y in live' && live' - {y} == live - {x}
    requires ContentsKept(mem, a, mem, b, live) && ContentsKept(mem, b, mem2, c, live' - {y})
    ensures ContentsKept(mem, a, mem2, c, live' - {y}) && BytesOf(mem, b, x) == BytesOf(mem, a, x)
  {
    hide BytesOf;
    forall z: Block | z in live' - {y} ensures BytesOf(mem2, c, z) == BytesOf(mem, a, z) {
      assert z in live - {x};
    }
  }
}
