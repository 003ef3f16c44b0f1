/**
 The page allocator: two pools of pages, each behind a bitmap that sits in the pool's own
 first pages. The history of what callers currently hold is, per pool, a map from the index
 of the first page of each live group to its page count.
 */
module Palloc {
  import opened Options
  import opened Runs
  import B = Bitmap

  const PGSIZE: nat := 4096
  const FREE_START: nat := 0xC010_0000   // ptov (1 MB)

  // ---- one pool, by page index --------------------------------------------------------------

  type Groups = map<nat, nat>

  /** Page `i` belongs to a live group. */
  ghost predicate Held(live: Groups, i: nat) {
    exists g :: g in live && g <= i < g + live[g]
  }

  /** The bitmap marks exactly the pages of the live groups, which are nonempty, in range and disjoint. */
  ghost predicate Tracks(used: seq<bool>, live: Groups) {
    && (forall i :: 0 <= i < |used| ==> used[i] == Held(live, i))
    && (forall g :: g in live ==> live[g] > 0 && g + live[g] <= |used|)
    && (forall g, h :: g in live && h in live && g < h ==> g + live[g] <= h)
  }

  lemma HeldAdd(live: Groups, g: nat, cnt: nat, i: nat)
    requires g !in live
    ensures Held(live[g := cnt], i) <==> Held(live, i) || g <= i < g + cnt
  {
    var live' := live[g := cnt];
    if Held(live, i) {
      var h :| h in live && h <= i < h + live[h];
      assert h in live' && live'[h] == live[h];
    }
    if g <= i < g + cnt {
      assert g in live' && live'[g] == cnt;
    }
    if Held(live', i) {
      var h :| h in live' && h <= i < h + live'[h];
      assert h != g ==> h in live && live[h] == live'[h];
    }
  }

  lemma HeldRemove(used: seq<bool>, live: Groups, g: nat, i: nat)
    requires Tracks(used, live) && g in live
    ensures Held(live - {g}, i) <==> Held(live, i) && !(g <= i < g + live[g])
  {
    var live' := live - {g};
    if Held(live', i) {
      var h :| h in live' && h <= i < h + live'[h];
      assert h in live && live[h] == live'[h] && h != g;
    }
    if Held(live, i) && !(g <= i < g + live[g]) {
      var h :| h in live && h <= i < h + live[h];
      assert h in live' && live'[h] == live[h];
    }
  }

  /** A run of unmarked pages meets no live group. */
  lemma FreshRun(used: seq<bool>, live: Groups, idx: nat, cnt: nat, h: nat)
    requires Tracks(used, live) && RunAt(used, idx, cnt, false) && cnt > 0 && h in live
    ensures h + live[h] <= idx || idx + cnt <= h
  {
    forall i | h <= i < h + live[h] ensures used[i] {
      assert Held(live, i);
    }
    var both := used[if idx < h then h else idx];
  }

  lemma TakeTracks(used: seq<bool>, live: Groups, idx: nat, cnt: nat)
    requires Tracks(used, live) && RunAt(used, idx, cnt, false) && cnt > 0
    ensures idx !in live && Tracks(SetRun(used, idx, cnt, true), live[idx := cnt])
  {
    forall h | h in live ensures h + live[h] <= idx || idx + cnt <= h {
      FreshRun(used, live, idx, cnt, h);
    }
    forall i | 0 <= i < |used| ensures SetRun(used, idx, cnt, true)[i] == Held(live[idx := cnt], i) {
      HeldAdd(live, idx, cnt, i);
    }
  }

  lemma FreeTracks(used: seq<bool>, live: Groups, g: nat)
    requires Tracks(used, live) && g in live
    ensures RunAt(used, g, live[g], true)
    ensures Tracks(SetRun(used, g, live[g], false), live - {g})
  {
    forall i | g <= i < g + live[g] ensures used[i] {
      assert Held(live, i);
    }
    forall i | 0 <= i < |used| ensures SetRun(used, g, live[g], false)[i] == Held(live - {g}, i) {
      HeldRemove(used, live, g, i);
    }
  }

  // ---- the two pools ----------------------------------------------------------------------------

  /** Pages that a pool of `pageCnt` pages spends on its bitmap. */
  function BitmapPages(pageCnt: nat): nat {
    (8 + 4 * B.ElemCount(pageCnt) + PGSIZE - 1) / PGSIZE
  }

  /** The bitmap that a pool builds fits in the pages set aside for it, although it counts fewer pages. */
  lemma BitmapFits(pageCnt: nat)
    requires BitmapPages(pageCnt) <= pageCnt
    ensures 8 + 4 * B.ElemCount(pageCnt - BitmapPages(pageCnt)) <= PGSIZE * BitmapPages(pageCnt)
    ensures 4096 * (BitmapPages(pageCnt) - 1) < 8 + 4 * B.ElemCount(pageCnt) <= 4096 * BitmapPages(pageCnt)
  {
  }

  /** Groups as address and page count. */
  ghost function GroupSet(base: nat, live: Groups): set<(nat, nat)> {
    set g | g in live :: (base + PGSIZE * g, live[g])
  }

  lemma GroupAdded(base: nat, live: Groups, g: nat, cnt: nat)
    requires g !in live
    ensures GroupSet(base, live[g := cnt]) == GroupSet(base, live) + {(base + PGSIZE * g, cnt)}
    ensures (base + PGSIZE * g, cnt) !in GroupSet(base, live)
  {
    var live' := live[g := cnt];
    forall x ensures x in GroupSet(base, live') <==> x in GroupSet(base, live) || x == (base + PGSIZE * g, cnt) {
      if x in GroupSet(base, live) {
        var h := GroupAt(base, live, x);
        assert h in live' && live'[h] == live[h];
      }
      assert g in live' && live'[g] == cnt;
    }
  }

  lemma GroupRemoved(base: nat, live: Groups, g: nat)
    requires g in live
    ensures GroupSet(base, live - {g}) == GroupSet(base, live) - {(base + PGSIZE * g, live[g])}
  {
    var live' := live - {g};
    forall x ensures x in GroupSet(base, live') <==> x in GroupSet(base, live) && x != (base + PGSIZE * g, live[g]) {
      if x in GroupSet(base, live) && x != (base + PGSIZE * g, live[g]) {
        var h := GroupAt(base, live, x);
        assert h in live' && live'[h] == live[h];
      }
    }
  }

  lemma GroupAt(base: nat, live: Groups, x: (nat, nat)) returns (g: nat)
    requires x in GroupSet(base, live)
    ensures g in live && x == (base + PGSIZE * g, live[g])
  {
    g :| g in live && x == (base + PGSIZE * g, live[g]);
  }

  /** A pool. Its bitmap's words live in the pages from `start` to `base`; `used` is what they mean. */
  class Pool {
    const start: nat
    const base: nat
    const usedMap: B.Bitmap
    ghost var used: seq<bool>
    ghost var live: Groups

    ghost predicate Valid()
      reads this, usedMap.words
    {
      0 < start < base && base % PGSIZE == 0 && usedMap.Valid() && used == usedMap.Model() && Tracks(used, live)
    }

    /** `init_pool`, when the pool has room for its own bitmap. */
    constructor (start: nat, pageCnt: nat)
      requires 0 < start && start % PGSIZE == 0 && BitmapPages(pageCnt) <= pageCnt
      ensures Valid() && live == map[] && this.start == start && fresh(usedMap.words)
      ensures base == start + PGSIZE * BitmapPages(pageCnt) && base + PGSIZE * |used| == start + PGSIZE * pageCnt
    {
      var bmPages := BitmapPages(pageCnt);
      this.start := start;
      base := start + bmPages * PGSIZE;
      var m := new B.Bitmap(pageCnt - bmPages);
      usedMap := m;
      used := m.Model();
      live := map[];
    }

    /** The scan of `palloc_get_multiple`: takes the least free run. */
    method Take(pageCnt: nat) returns (r: Option<nat>)
      requires Valid() && pageCnt > 0
      modifies this`used, this`live, usedMap.words
      ensures Valid() && |used| == old(|used|)
      ensures r == FirstFit(old(used), 0, pageCnt, false)
      ensures r.None? ==> live == old(live) && used == old(used)
      ensures r.Some? ==> r.value !in old(live) && live == old(live)[r.value := pageCnt]
      ensures r.Some? ==> r.value + pageCnt <= |used| && used == SetRun(old(used), r.value, pageCnt, true)
    {
      hide Tracks, SetRun, FirstFit, RunAt;
      r := usedMap.ScanAndFlip(0, pageCnt, false);
      if r.Some? {
        assert RunAt(used, r.value, pageCnt, false) by { FirstFitIsLeast(used, 0, pageCnt, false); }
        TakeTracks(used, live, r.value, pageCnt);
        used := SetRun(used, r.value, pageCnt, true);
        live := live[r.value := pageCnt];
      }
    }

    /** The end of `palloc_free_multiple`: its assertion that all the pages are marked holds for a live group. */
    method Give(idx: nat, pageCnt: nat)
      requires Valid() && idx in live && live[idx] == pageCnt
      modifies this`used, this`live, usedMap.words
      ensures Valid() && |used| == old(|used|) && live == old(live) - {idx}
      ensures idx + pageCnt <= |used| && used == SetRun(old(used), idx, pageCnt, false)
    {
      FreeTracks(used, live, idx);
      hide Tracks, SetRun;
      var unmarked := usedMap.Contains(idx, pageCnt, false);
      assert !unmarked;
      usedMap.SetMultiple(idx, pageCnt, false);
      used := SetRun(used, idx, pageCnt, false);
      live := live - {idx};
    }

    /** `page_from_pool` */
    predicate HasPage(page: nat) {
      base / PGSIZE <= page / PGSIZE < base / PGSIZE + usedMap.bitCnt
    }

    /** The address of page `idx`. */
    function Address(idx: nat): nat {
      base + PGSIZE * idx
    }

    /** The live groups as their callers know them. */
    ghost function Groups(): set<(nat, nat)>
      reads this
    {
      GroupSet(base, live)
    }
  }

  class Allocator {
    const kernel: Pool
    const user: Pool

    ghost predicate Valid()
      reads this, kernel, user, kernel.usedMap.words, user.usedMap.words
    {
      && kernel != user && kernel.usedMap.words != user.usedMap.words
      && kernel.Valid() && user.Valid() && kernel.Address(|kernel.used|) <= user.start
    }

    /** What callers hold, of either pool. */
    ghost function Groups(): set<(nat, nat)>
      reads kernel, user
    {
      kernel.Groups() + user.Groups()
    }

    /**
     `palloc_init`: half of the free pages go to the user pool, but no more than the limit. Kernel
     bitmap, kernel pages, user bitmap and user pages follow each other and fill the free memory.
     */
    constructor (freePages: nat, userPageLimit: nat)
      requires var user := if freePages / 2 < userPageLimit then freePages / 2 else userPageLimit;
               BitmapPages(freePages - user) <= freePages - user && BitmapPages(user) <= user
      ensures Valid() && kernel.live == map[] && user.live == map[] && Groups() == {}
      ensures kernel.start == FREE_START && kernel.Address(|kernel.used|) == user.start
      ensures user.Address(|user.used|) == FREE_START + PGSIZE * freePages
      ensures user.start == FREE_START +
                            4096 * (freePages - if freePages / 2 < userPageLimit then freePages / 2 else userPageLimit)
      ensures fresh(kernel) && fresh(user) && fresh(kernel.usedMap.words) && fresh(user.usedMap.words)
    {
      hide Tracks, BitmapPages, Pool.Valid;
      var userPages := freePages / 2;
      if userPages > userPageLimit {
        userPages := userPageLimit;
      }
      var kernelPages := freePages - userPages;
      var k := new Pool(FREE_START, kernelPages);
      var u := new Pool(FREE_START + kernelPages * PGSIZE, userPages);
      kernel, user := k, u;
    }

    /** `palloc_get_multiple`: the least free run of the chosen pool, or a null pointer. */
    method GetMultiple(fromUser: bool, pageCnt: nat) returns (r: Option<nat>)
      requires Valid()
      modifies kernel, user, kernel.usedMap.words, user.usedMap.words
      ensures Valid()
      ensures var fit := FirstFit(old(if fromUser then user.used else kernel.used), 0, pageCnt, false);
              r == if pageCnt == 0 ||
                fit.None? then None else Some((if fromUser then user else kernel).Address(fit.value))
      ensures r.None? ==> Groups() == old(Groups())
      ensures r.Some? ==> (r.value, pageCnt) !in old(Groups()) && Groups() == old(Groups()) + {(r.value, pageCnt)}
    {
      hide FirstFit, Tracks, SetRun, Pool.Valid, GroupSet;
      if pageCnt == 0 {
        return None;
      }
      var pool := if fromUser then user else kernel;
      var idx := pool.Take(pageCnt);
      if idx.None? {
        return None;
      }
      GroupAdded(pool.base, old(pool.live), idx.value, pageCnt);
      PoolsApart(this, fromUser, idx.value, pageCnt);
      r := Some(pool.base + PGSIZE * idx.value);
    }

    /**
     `palloc_free_multiple`: of nothing, or of a group that is held. The address alone leads to
     the pool and the index that it came from.
     */
    method FreeMultiple(pages: nat, pageCnt: nat)
      requires Valid() && (pages == 0 || pageCnt == 0 || (pages, pageCnt) in Groups())
      modifies kernel, user, kernel.usedMap.words, user.usedMap.words
      ensures Valid() && Groups() == old(Groups()) - {(pages, pageCnt)}
    {
      hide Tracks, SetRun, Pool.Valid, GroupSet;
      if pages == 0 || pageCnt == 0 {
        NotNull(this, pages, pageCnt);
        return;
      }
      ghost var inUser := (pages, pageCnt) in user.Groups();
      ghost var p := if inUser then user else kernel;
      ghost var idx := GroupAt(p.base, p.live, (pages, pageCnt));
      PoolOf(kernel, user, pages, inUser, idx);
      PoolsApart(this, inUser, idx, pageCnt);
      GroupRemoved(p.base, p.live, idx);
      if kernel.HasPage(pages) {
        kernel.Give(pages / PGSIZE - kernel.base / PGSIZE, pageCnt);
      } else {
        assert user.HasPage(pages);
        user.Give(pages / PGSIZE - user.base / PGSIZE, pageCnt);
      }
    }

    /**
     Every sequence of gets and frees, from either pool. `held` lists what callers got and have
     not given back, in the order in which they got it; a free is of one of these, or of a null
     pointer if there is none with that number.
     */
    method Run(ops: seq<Op>) returns (held: seq<(nat, nat)>, ghost trace: seq<Marks>)
      requires Valid()
      modifies kernel, user, kernel.usedMap.words, user.usedMap.words
      ensures Valid() && Sound()
      ensures forall x :: x in Groups() <==> x in old(Groups()) || x in held
      ensures forall x :: x in held ==> x !in old(Groups())
      ensures forall i, j :: 0 <= i < j < |held| ==> Apart(held[i], held[j])
      ensures |trace| == |ops| + 1 && trace[0] == old(Snapshot([])) && trace[|ops|] == Snapshot(held)
      ensures forall i :: 0 <= i < |ops| ==> Follows(kernel.base, user.base, trace[i], ops[i], trace[i + 1])
    {
      hide Tracks, FirstFit, Pool.Valid, GroupSet;
      held := [];
      trace := [Snapshot([])];
      for i := 0 to |ops|
        invariant Valid()
        invariant NoDup(held) && forall x :: x in Groups() <==> x in old(Groups()) || x in held
        invariant forall x :: x in held ==> x !in old(Groups())
        invariant |trace| == i + 1 && trace[0] == old(Snapshot([])) && trace[i] == Snapshot(held)
        invariant forall k :: 0 <= k < i ==> Follows(kernel.base, user.base, trace[k], ops[k], trace[k + 1])
      {
        match ops[i] {
          case Get(fromUser, pageCnt) =>
            var r := GetMultiple(fromUser, pageCnt);
            if r.Some? {
              held := held + [(r.value, pageCnt)];
            }
          case Free(k) =>
            if k < |held| {
              assert held[k] in Groups();
              FreeMultiple(held[k].0, held[k].1);
              Dropped(held, k);
              held := held[..k] + held[k + 1..];
            } else {
              NotNull(this, 0, 1);
              FreeMultiple(0, 1);
            }
        }
        trace := trace + [Snapshot(held)];
      }
      AlwaysSound();
      forall i, j | 0 <= i < j < |held| ensures Apart(held[i], held[j]) {
        assert held[i] in Groups() && held[j] in Groups();
      }
    }

    ghost function Snapshot(held: seq<(nat, nat)>): Marks
      reads kernel, user
    {
      Marks(kernel.used, user.used, held)
    }

    /**
     Live groups are nonempty, page aligned, inside one of the pools, clear of both bitmaps and
     apart from each other.
     */
    ghost predicate Sound()
      reads this, kernel, user
    {
      && (forall x :: x in kernel.Groups() ==> Inside(kernel, x) && OffBitmaps(x))
      && (forall x :: x in user.Groups() ==> Inside(user, x) && OffBitmaps(x))
      && kernel.Groups() !! user.Groups()
      && (forall x, y :: x in Groups() && y in Groups() && x != y ==> Apart(x, y))
    }

    ghost predicate OffBitmaps(x: (nat, nat)) {
      && (End(x) <= kernel.start || kernel.base <= x.0) && (End(x) <= user.start || user.base <= x.0)
    }

    lemma AlwaysSound()
      requires Valid()
      ensures Sound()
    {
      hide Pool.Valid, GroupSet;
      forall x, y | x in Groups() && y in Groups() && x != y ensures Apart(x, y) {
        GroupsApart(this, x, y);
      }
      forall x | x in kernel.Groups() ensures Inside(kernel, x) && OffBitmaps(x) && x !in user.Groups() {
        var g := GroupAt(kernel.base, kernel.live, x);
        LiveGroupInside(this, kernel, g);
        PoolsApart(this, false, g, x.1);
      }
      forall x | x in user.Groups() ensures Inside(user, x) && OffBitmaps(x) {
        var g := GroupAt(user.base, user.live, x);
        LiveGroupInside(this, user, g);
      }
    }
  }

  datatype Op = Get(fromUser: bool, pageCnt: nat) | Free(k: nat)

  /** The marks of both pools, and what callers hold. */
  datatype Marks = Marks(kernelUsed: seq<bool>, userUsed: seq<bool>, held: seq<(nat, nat)>)

  /**
   What a call of a run does to what callers hold: the least free run of the pool is added, or
   the group that is freed goes.
   */
  ghost predicate Follows(kernelBase: nat, userBase: nat, a: Marks, op: Op, b: Marks) {
    match op
    case Get(fromUser, pageCnt) =>
      var fit := FirstFit(if fromUser then a.userUsed else a.kernelUsed, 0, pageCnt, false);
      b.held == if pageCnt == 0 || fit.None? then a.held
                else a.held + [((if fromUser then userBase else kernelBase) + 4096 * fit.value, pageCnt)]
    case Free(k) => b.held == if k < |a.held| then a.held[..k] + a.held[k + 1..] else a.held
  }

  function End(x: (nat, nat)): nat {
    x.0 + PGSIZE * x.1
  }

  predicate Apart(x: (nat, nat), y: (nat, nat)) {
    End(x) <= y.0 || End(y) <= x.0
  }

  ghost predicate Inside(p: Pool, x: (nat, nat))
    reads p
  {
    x.1 > 0 && x.0 % PGSIZE == 0 && p.base <= x.0 && End(x) <= p.Address(|p.used|)
  }

  ghost predicate NoDup(s: seq<(nat, nat)>) {
    forall i, j :: 0 <= i < j < |s| ==> s[i] != s[j]
  }

  lemma Dropped(s: seq<(nat, nat)>, k: nat)
    requires NoDup(s) && k < |s|
    ensures var t := s[..k] + s[k + 1..]; NoDup(t) && forall x :: x in t <==> x in s && x != s[k]
  {
    var t := s[..k] + s[k + 1..];
    forall x ensures x in t <==> x in s && x != s[k] {
      if x in s && x != s[k] {
        var i :| 0 <= i < |s| && s[i] == x;
        assert t[if i < k then i else i - 1] == x;
      }
    }
  }

  /** No group is at address zero, and none is empty. */
  lemma NotNull(m: Allocator, pages: nat, pageCnt: nat)
    requires m.Valid() && (pages == 0 || pageCnt == 0)
    ensures (pages, pageCnt) !in m.Groups()
  {
    hide Held;
  }

  /** A group of one pool is none of the other's. */
  lemma PoolsApart(m: Allocator, inUser: bool, g: nat, cnt: nat)
    requires m.Valid() && var p := if inUser then m.user else m.kernel; g in p.live && p.live[g] == cnt
    ensures var p, q := if inUser then m.user else m.kernel, if inUser then m.kernel else m.user;
            (p.Address(g), cnt) in p.Groups() && (p.Address(g), cnt) !in q.Groups()
  {
  }

  /** The page-number tests tell the pools apart, and the difference of page numbers is the page index. */
  lemma PoolOf(kernel: Pool, user: Pool, pages: nat, inUser: bool, idx: nat)
    requires kernel.Valid() && user.Valid() && kernel.Address(|kernel.used|) <= user.start
    requires var p := if inUser then user else kernel; idx in p.live && pages == p.Address(idx)
    ensures kernel.HasPage(pages) <==> !inUser
    ensures inUser ==> user.HasPage(pages)
    ensures pages / PGSIZE - (if inUser then user else kernel).base / PGSIZE == idx
  {
  }

  lemma Scaled(base: nat, g: nat, cnt: nat, n: nat)
    requires base % PGSIZE == 0 && g + cnt <= n
    ensures (base + PGSIZE * g) % PGSIZE == 0 && base + PGSIZE * g + PGSIZE * cnt <= base + PGSIZE * n
  {
  }

  lemma LiveGroupInside(m: Allocator, p: Pool, g: nat)
    requires m.Valid() && p in {m.kernel, m.user} && g in p.live
    ensures Inside(p, (p.Address(g), p.live[g])) && m.OffBitmaps((p.Address(g), p.live[g]))
  {
    hide Held;
    Scaled(p.base, g, p.live[g], |p.used|);
  }

  /** No two live groups, of one pool or of both, overlap. */
  lemma LiveGroupsApart(m: Allocator, p: Pool, g: nat, q: Pool, h: nat)
    requires m.Valid() && p in {m.kernel, m.user} && q in {m.kernel, m.user}
    requires g in p.live && h in q.live && (p != q || g != h)
    ensures Apart((p.Address(g), p.live[g]), (q.Address(h), q.live[h]))
  {
  }

  lemma GroupsApart(m: Allocator, x: (nat, nat), y: (nat, nat))
    requires m.Valid() && x in m.Groups() && y in m.Groups() && x != y
    ensures Apart(x, y)
  {
    hide Pool.Valid, GroupSet;
    var p, q := if x in m.user.Groups() then m.user else m.kernel, if y in m.user.Groups() then m.user else m.kernel;
    var g := GroupAt(p.base, p.live, x);
    var h := GroupAt(q.base, q.live, y);
    LiveGroupsApart(m, p, g, q, h);
  }
}
