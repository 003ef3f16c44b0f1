/**
 Priority donation along a chain of lock holders.

 Threads and locks are named by numbers. A thread that waits for a lock donates its
 priority to the holder, to the holder of the lock which that thread waits for, and so on.
 Nothing is assumed about the wait-for graph: it may contain cycles.
 */
module Donation {
  import opened Options

  type Tid = nat
  type Lid = nat

  const MAX_NESTED_LEVEL := 8

  datatype Thread = Thread(
    priority: int,
    origPriority: int,
    nestedLevel: int,
    lockList: seq<Lid>,
    waitingFor: Option<Lid>)

  type Threads = map<Tid, Thread>
  type Holders = map<Lid, Option<Tid>>

  function HolderOf(ts: Threads, h: Holders, l: Lid): Option<Tid> {
    if l in h && h[l].Some? && h[l].value in ts then h[l] else None
  }

  /** The guard under which a holder receives a donation of priority `p`. */
  predicate Raisable(t: Thread, p: int) {
    t.priority < p && t.nestedLevel < MAX_NESTED_LEVEL
  }

  /** What a donation through lock `l` does to the holder's record. */
  function Raise(t: Thread, p: int, l: Lid): Thread {
    var t1 := if t.nestedLevel == 0 then t.(origPriority := t.priority) else t;
    var t2 := if l in t1.lockList then t1 else t1.(nestedLevel := t1.nestedLevel + 1, lockList := t1.lockList + [l]);
    t2.(priority := p)
  }

  /** The threads that a donation of priority `p` could still raise; it shrinks on every recursive call. */
  function Below(ts: Threads, p: int): set<Tid> {
    set t | t in ts && ts[t].priority < p
  }

  /** The walk itself. */
  function Donate(ts: Threads, h: Holders, p: int, l: Lid): (r: Threads)
    ensures r.Keys == ts.Keys
    decreases Below(ts, p)
  {
    match HolderOf(ts, h, l)
    case None => ts
    case Some(t) =>
      if !Raisable(ts[t], p) then ts else
      var ts1 := ts[t := Raise(ts[t], p, l)];
      assert Below(ts1, p) == Below(ts, p) - {t} && t in Below(ts, p);
      match ts[t].waitingFor
      case None => ts1
      case Some(l1) => Donate(ts1, h, p, l1)
  }

  /**
   The scheduler's thread table. `PriorityDonation` is the recursive procedure of the
   source, updating the table in place; `current` is the running thread.
   */
  class Scheduler {
    var threads: Threads
    var holders: Holders
    var current: Tid

    constructor (threads: Threads, holders: Holders, current: Tid)
      ensures this.threads == threads && this.holders == holders && this.current == current
    {
      this.threads, this.holders, this.current := threads, holders, current;
    }

    method PriorityDonation(l: Lid)
      requires current in threads
      modifies this`threads
      ensures threads == Donate(old(threads), holders, old(threads)[current].priority, l)
      ensures current in threads && threads[current] == old(threads)[current]
      decreases Below(threads, threads[current].priority)
    {
      var p := threads[current].priority;
      var lh := HolderOf(threads, holders, l);
      if lh.Some? {
        var t := lh.value;
        if threads[t].priority < p {
          if threads[t].nestedLevel < MAX_NESTED_LEVEL {
            ghost var before := threads;
            if threads[t].nestedLevel == 0 {
              threads := threads[t := threads[t].(origPriority := threads[t].priority)];
            }
            if l !in threads[t].lockList {
              threads := threads[t := threads[t].(nestedLevel := threads[t].nestedLevel + 1)];
              threads := threads[t := threads[t].(lockList := threads[t].lockList + [l])];
            }
            threads := threads[t := threads[t].(priority := p)];
            assert threads == before[t := Raise(before[t], p, l)];
            assert Below(threads, p) == Below(before, p) - {t} && t in Below(before, p);
            if threads[t].waitingFor.Some? {
              PriorityDonation(threads[t].waitingFor.value);
            }
          }
        }
      }
    }
  }

  // ---- the chain, independently of the walk ------------------------------------

  /** The k-th lock and the k-th holder down the chain that starts at lock `l`. */
  function LockAt(ts: Threads, h: Holders, l: Lid, k: nat): Option<Lid>
    decreases k
  {
    if k == 0 then Some(l) else
    match HolderOf(ts, h, l)
    case None => None
    case Some(t) =>
      match ts[t].waitingFor
      case None => None
      case Some(l1) => LockAt(ts, h, l1, k - 1)
  }

  function HolderAt(ts: Threads, h: Holders, l: Lid, k: nat): Option<Tid> {
    match LockAt(ts, h, l, k)
    case None => None
    case Some(m) => HolderOf(ts, h, m)
  }

  /** The first k+1 holders exist and each could be raised before the walk began. */
  ghost predicate Open(ts: Threads, h: Holders, p: int, l: Lid, k: nat) {
    forall j: nat :: j <= k ==>
      HolderAt(ts, h, l, j).Some? && HolderAt(ts, h, l, j).value in ts && Raisable(ts[HolderAt(ts, h, l, j).value], p)
  }

  /** Thread `t` is the k-th holder, is not an earlier one, and nothing before it stops the walk. */
  ghost predicate FirstReached(ts: Threads, h: Holders, p: int, l: Lid, t: Tid, k: nat) {
    && HolderAt(ts, h, l, k) == Some(t)
    && Open(ts, h, p, l, k)
    && forall j: nat :: j < k ==> HolderAt(ts, h, l, j) != Some(t)
  }

  /** Raising a thread leaves the chain as it was. */
  lemma {:induction false} ChainUnchanged(ts: Threads, h: Holders, l: Lid, t: Tid, r: Thread, k: nat)
    requires t in ts && r.waitingFor == ts[t].waitingFor
    ensures LockAt(ts[t := r], h, l, k) == LockAt(ts, h, l, k)
    ensures HolderAt(ts[t := r], h, l, k) == HolderAt(ts, h, l, k)
    decreases k
  {
    if k > 0 {
      match HolderOf(ts, h, l)
      case None =>
      case Some(u) =>
        if ts[u].waitingFor.Some? {
          ChainUnchanged(ts, h, ts[u].waitingFor.value, t, r, k - 1);
        }
    }
  }

  /** From any visit to `t` the chain goes on as it does from the lock `t` waits for. */
  lemma {:induction false} ChainFrom(ts: Threads, h: Holders, l: Lid, j: nat, t: Tid, i: nat)
    requires HolderAt(ts, h, l, j) == Some(t)
    ensures LockAt(ts, h, l, j + 1 + i) ==
            match ts[t].waitingFor case None => None case Some(l1) => LockAt(ts, h, l1, i)
    decreases j
  {
    if j > 0 {
      var u := HolderOf(ts, h, l).value;
      ChainFrom(ts, h, ts[u].waitingFor.value, j - 1, t, i);
    }
  }

  /** After the first holder was raised, first visits from the next lock are first visits of the old walk. */
  lemma FirstReachedShift(ts: Threads, h: Holders, p: int, l: Lid, l1: Lid, t0: Tid, t: Tid, k: nat)
    requires HolderOf(ts, h, l) == Some(t0) && Raisable(ts[t0], p) && ts[t0].waitingFor == Some(l1) && t != t0
    ensures FirstReached(ts[t0 := Raise(ts[t0], p, l)], h, p, l1, t, k) <==> FirstReached(ts, h, p, l, t, k + 1)
  {
    var ts1 := ts[t0 := Raise(ts[t0], p, l)];
    forall j: nat
      ensures HolderAt(ts1, h, l1, j) == HolderAt(ts, h, l, j + 1)
      ensures HolderAt(ts, h, l, 0) == Some(t0)
    {
      ChainUnchanged(ts, h, l1, t0, Raise(ts[t0], p, l), j);
    }
    if FirstReached(ts1, h, p, l1, t, k) {
      forall j: nat | j <= k + 1
        ensures HolderAt(ts, h, l, j).Some? && HolderAt(ts, h, l, j).value in ts &&
                Raisable(ts[HolderAt(ts, h, l, j).value], p)
        ensures j < k + 1 ==> HolderAt(ts, h, l, j) != Some(t)
      {
        if j > 0 {
          assert HolderAt(ts1, h, l1, j - 1) == HolderAt(ts, h, l, j);
        }
      }
    }
    if FirstReached(ts, h, p, l, t, k + 1) {
      forall j: nat | j <= k
        ensures HolderAt(ts1, h, l1, j).Some? && HolderAt(ts1, h, l1, j).value in ts1 &&
                Raisable(ts1[HolderAt(ts1, h, l1, j).value], p)
        ensures j < k ==> HolderAt(ts1, h, l1, j) != Some(t)
      {
        if HolderAt(ts, h, l, j + 1) == Some(t0) {
          Revisit(ts, h, l, t0, t, j + 1, k + 1);
          assert false;
        }
      }
    }
  }

  /** If the chain comes back to its first holder at `j`, then every later holder was met before. */
  lemma Revisit(ts: Threads, h: Holders, l: Lid, t0: Tid, t: Tid, j: nat, k: nat)
    requires HolderOf(ts, h, l) == Some(t0) && 0 < j <= k && t != t0
    requires HolderAt(ts, h, l, j) == Some(t0) && HolderAt(ts, h, l, k) == Some(t)
    ensures 0 < k - j < k && HolderAt(ts, h, l, k - j) == Some(t)
  {
    if j < k {
      ChainFrom(ts, h, l, j, t0, k - j - 1);
      ChainFrom(ts, h, l, 0, t0, k - j - 1);
    }
  }

  /** The walk changes `t` exactly when it is reached, once, through the lock at its first visit. */
  lemma {:induction false} DonateExact(ts: Threads, h: Holders, p: int, l: Lid, t: Tid)
    requires t in ts
    ensures forall k: nat :: FirstReached(ts, h, p, l, t, k) ==>
              Donate(ts, h, p, l)[t] == Raise(ts[t], p, LockAt(ts, h, l, k).value)
    ensures (forall k: nat :: !FirstReached(ts, h, p, l, t, k)) ==> Donate(ts, h, p, l)[t] == ts[t]
    decreases Below(ts, p)
  {
    match HolderOf(ts, h, l)
    case None =>
      forall k: nat ensures !FirstReached(ts, h, p, l, t, k) { assert HolderAt(ts, h, l, 0) == None; }
    case Some(t0) =>
      assert HolderAt(ts, h, l, 0) == Some(t0);
      if !Raisable(ts[t0], p) {
        forall k: nat ensures !FirstReached(ts, h, p, l, t, k) { }
      } else {
        DonateExactStep(ts, h, p, l, t, t0);
      }
  }

  lemma DonateExactStep(ts: Threads, h: Holders, p: int, l: Lid, t: Tid, t0: Tid)
    requires t in ts && HolderOf(ts, h, l) == Some(t0) && Raisable(ts[t0], p)
    ensures forall k: nat :: FirstReached(ts, h, p, l, t, k) ==>
              Donate(ts, h, p, l)[t] == Raise(ts[t], p, LockAt(ts, h, l, k).value)
    ensures (forall k: nat :: !FirstReached(ts, h, p, l, t, k)) ==> Donate(ts, h, p, l)[t] == ts[t]
    decreases Below(ts, p), 0
  {
    var ts1 := ts[t0 := Raise(ts[t0], p, l)];
    assert Below(ts1, p) == Below(ts, p) - {t0} && t0 in Below(ts, p);
    assert HolderAt(ts, h, l, 0) == Some(t0);
    if t == t0 {
      assert FirstReached(ts, h, p, l, t, 0);
      if ts[t0].waitingFor.Some? {
        var l1 := ts[t0].waitingFor.value;
        DonateExact(ts1, h, p, l1, t);
        forall k: nat ensures !FirstReached(ts1, h, p, l1, t, k) { }
      }
    } else if ts[t0].waitingFor.None? {
      forall k: nat ensures !FirstReached(ts, h, p, l, t, k) {
        if k > 0 { assert LockAt(ts, h, l, k) == None; }
      }
    } else {
      var l1 := ts[t0].waitingFor.value;
      DonateExact(ts1, h, p, l1, t);
      forall k: nat
        ensures FirstReached(ts1, h, p, l1, t, k) <==> FirstReached(ts, h, p, l, t, k + 1)
        ensures LockAt(ts1, h, l1, k) == LockAt(ts, h, l, k + 1)
      {
        FirstReachedShift(ts, h, p, l, l1, t0, t, k);
        ChainUnchanged(ts, h, l1, t0, Raise(ts[t0], p, l), k);
      }
      assert !FirstReached(ts, h, p, l, t, 0);
      forall k: nat | FirstReached(ts, h, p, l, t, k)
        ensures Donate(ts, h, p, l)[t] == Raise(ts[t], p, LockAt(ts, h, l, k).value)
      {
        assert FirstReached(ts1, h, p, l1, t, k - 1);
      }
      if forall k: nat :: !FirstReached(ts, h, p, l, t, k) {
        forall k: nat ensures !FirstReached(ts1, h, p, l1, t, k) {
          assert !FirstReached(ts, h, p, l, t, k + 1);
        }
      }
    }
  }

  // ---- consequences --------------------------------------------------------------

  /** Among the visits to `t` on an open stretch there is a first one. */
  lemma {:induction false} FirstVisit(ts: Threads, h: Holders, p: int, l: Lid, t: Tid, k: nat) returns (f: nat)
    requires HolderAt(ts, h, l, k) == Some(t) && Open(ts, h, p, l, k)
    ensures f <= k && FirstReached(ts, h, p, l, t, f)
    decreases k
  {
    if j: nat :| j < k && HolderAt(ts, h, l, j) == Some(t) {
      f := FirstVisit(ts, h, p, l, t, j);
    } else {
      f := k;
    }
  }

  /**
   A thread's priority only rises, only to the donor's, and only below the nesting limit. The
   first donation saves the original priority; each further lock counts one level.
   */
  lemma OnlyRaises(ts: Threads, h: Holders, p: int, l: Lid, t: Tid)
    requires t in ts
    ensures var r := Donate(ts, h, p, l)[t];
            r == ts[t] || (r.priority == p > ts[t].priority && r.waitingFor == ts[t].waitingFor &&
                           r.nestedLevel - ts[t].nestedLevel == |r.lockList| - |ts[t].lockList| <= 1 &&
                           r.nestedLevel <= MAX_NESTED_LEVEL && ts[t].lockList <= r.lockList &&
                           r.origPriority == if ts[t].nestedLevel == 0 then ts[t].priority else ts[t].origPriority)
  {
    DonateExact(ts, h, p, l, t);
    if k: nat :| FirstReached(ts, h, p, l, t, k) {
      assert Raisable(ts[t], p);
    }
  }

  /**
   The whole record of a thread that the walk first reaches at step `k`: the donor's priority,
   the original one saved if no donation was in force, and the lock listed and counted as a
   level unless it was listed before.
   */
  lemma ReachedRecord(ts: Threads, h: Holders, p: int, l: Lid, t: Tid, k: nat)
    requires t in ts && FirstReached(ts, h, p, l, t, k)
    ensures LockAt(ts, h, l, k).Some?
    ensures var r, m := Donate(ts, h, p, l)[t], LockAt(ts, h, l, k).value;
            && r.priority == p && r.waitingFor == ts[t].waitingFor
            && (ts[t].nestedLevel == 0 ==> r.origPriority == ts[t].priority)
            && (ts[t].nestedLevel != 0 ==> r.origPriority == ts[t].origPriority)
            && (m !in ts[t].lockList ==> r.lockList == ts[t].lockList + [m] && r.nestedLevel == ts[t].nestedLevel + 1)
            && (m in ts[t].lockList ==> r.lockList == ts[t].lockList && r.nestedLevel == ts[t].nestedLevel)
  {
    DonateExact(ts, h, p, l, t);
  }

  /** A thread that the walk does not reach keeps its record. */
  lemma UnreachedRecord(ts: Threads, h: Holders, p: int, l: Lid, t: Tid)
    requires t in ts && forall k: nat :: !FirstReached(ts, h, p, l, t, k)
    ensures Donate(ts, h, p, l)[t] == ts[t]
  {
    DonateExact(ts, h, p, l, t);
  }

  /** However many donors come after the first, the priority that was saved is the original one. */
  lemma OriginalKept(ts: Threads, h: Holders, p: int, l: Lid, p2: int, l2: Lid, t: Tid)
    requires t in ts && ts[t].nestedLevel == 0 && ts[t].lockList == [] && Donate(ts, h, p, l)[t] != ts[t]
    ensures Donate(ts, h, p, l)[t].nestedLevel > 0
    ensures Donate(Donate(ts, h, p, l), h, p2, l2)[t].origPriority == ts[t].priority
  {
    var ts1 := Donate(ts, h, p, l);
    if k: nat :| FirstReached(ts, h, p, l, t, k) {
      ReachedRecord(ts, h, p, l, t, k);
    } else {
      UnreachedRecord(ts, h, p, l, t);
    }
    OnlyRaises(ts1, h, p2, l2, t);
  }

  /** Some visit of the chain to thread `t` has nothing in its way. */
  ghost predicate Reachable(ts: Threads, h: Holders, p: int, l: Lid, t: Tid) {
    exists k: nat :: HolderAt(ts, h, l, k) == Some(t) && Open(ts, h, p, l, k)
  }

  /** A thread ends at least as high as the donor exactly when it already was or is reachable. */
  lemma CoveredIff(ts: Threads, h: Holders, p: int, l: Lid, t: Tid)
    requires t in ts
    ensures Donate(ts, h, p, l)[t].priority >= p <==> ts[t].priority >= p || Reachable(ts, h, p, l, t)
  {
    DonateExact(ts, h, p, l, t);
    OnlyRaises(ts, h, p, l, t);
    if Reachable(ts, h, p, l, t) {
      var k: nat :| HolderAt(ts, h, l, k) == Some(t) && Open(ts, h, p, l, k);
      var f := FirstVisit(ts, h, p, l, t, k);
    }
  }

  /**
   On a chain whose priorities never fall downstream and whose holders are all below the
   nesting limit, every holder ends at least as high as the donor.
   */
  lemma MonotoneChainCovered(ts: Threads, h: Holders, p: int, l: Lid, k: nat)
    requires forall j: nat :: j <= k ==> HolderAt(ts, h, l, j).Some? && HolderAt(ts, h, l, j).value in ts
    requires forall j: nat :: j <= k ==> ts[HolderAt(ts, h, l, j).value].nestedLevel < MAX_NESTED_LEVEL
    requires forall i: nat, j: nat :: i <= j <= k ==>
               ts[HolderAt(ts, h, l, i).value].priority <= ts[HolderAt(ts, h, l, j).value].priority
    ensures Donate(ts, h, p, l)[HolderAt(ts, h, l, k).value].priority >= p
  {
    var t := HolderAt(ts, h, l, k).value;
    CoveredIff(ts, h, p, l, t);
    if ts[t].priority < p {
      assert Open(ts, h, p, l, k);
    }
  }
}
