/**
 Semaphores, locks and Mesa condition variables as a state machine.

 Each transition is one stretch of code that runs with interrupts disabled, or one plain
 assignment between two such stretches; a timer interrupt may fall between any two
 transitions. The API functions are program-counter graphs over these transitions:

   sema_down     SemaDown
   lock_acquire  AcqDown -> AcqSet
   lock_release  RelClear -> RelUp
   cond_wait     WaitEnq -> WaitClear -> WaitUp -> WaitDown -> AcqDown -> AcqSet
   cond_signal   SigPop -> SigUp, and cond_broadcast repeats it

 History fields (`retest`, `ticket`, `signals`, `owners`, `enqueued`, `popped`) record what
 has happened and never influence a transition.
 */
module Synch {
  import opened Options
  import opened Sets

  type Tid = nat
  type Lid = nat

  /** A semaphore of its own, the one inside a lock, or the one on a waiter's stack in `cond_wait`. */
  datatype Sema = Plain(id: nat, init: nat) | OfLock(l: Lid) | OfWaiter(t: Tid)

  /** A condition variable, with the one lock it is associated with. */
  datatype Cond = Cond(id: nat, lock: Lid)

  datatype PC =
    | Out
    | SemaDown(id: nat, init: nat)
    | AcqDown(l: Lid, inWait: bool)
    | AcqSet(l: Lid, inWait: bool)
    | RelClear(l: Lid)
    | RelUp(l: Lid)
    | WaitEnq(c: Cond)
    | WaitClear(c: Cond)
    | WaitUp(c: Cond)
    | WaitDown(c: Cond)
    | SigPop(c: Cond, all: bool, upto: nat)
    | SigUp(c: Cond, all: bool, upto: nat, target: Tid)

  datatype Status = Unborn | Running | Ready | Blocked | Dying

  datatype Thread = Thread(
    status: Status,
    pc: PC,
    retest: bool,   // unblocked by sema_up, `while (sema->value == 0)` not yet re-evaluated
    ticket: nat,    // position among all waits ever queued on its condition
    signals: nat)   // signals popped for the current cond_wait

  datatype State = State(
    threads: map<Tid, Thread>,
    running: Option<Tid>,
    ready: seq<Tid>,
    value: map<Sema, nat>,
    waiters: map<Sema, seq<Tid>>,
    holder: map<Lid, Tid>,
    owners: map<Lid, set<Tid>>,
    condq: map<Cond, seq<Tid>>,
    enqueued: map<Cond, nat>,
    popped: map<Cond, nat>)

  // ---- reading the state ---------------------------------------------------------

  function InitialValue(s: Sema): nat {
    match s
    case Plain(_, init) => init
    case OfLock(_) => 1
    case OfWaiter(_) => 0
  }

  /** Thread `t`'s record; identifiers not yet given to a thread read as `Unborn`. */
  function Th(st: State, t: Tid): Thread {
    if t in st.threads then st.threads[t] else Thread(Unborn, Out, false, 0, 0)
  }

  function Value(st: State, s: Sema): nat {
    if s in st.value then st.value[s] else InitialValue(s)
  }

  function Waiters(st: State, s: Sema): seq<Tid> {
    if s in st.waiters then st.waiters[s] else []
  }

  function Holder(st: State, l: Lid): Option<Tid> {
    if l in st.holder then Some(st.holder[l]) else None
  }

  function Owners(st: State, l: Lid): set<Tid> {
    if l in st.owners then st.owners[l] else {}
  }

  function CondQ(st: State, c: Cond): seq<Tid> {
    if c in st.condq then st.condq[c] else []
  }

  function Enqueued(st: State, c: Cond): nat {
    if c in st.enqueued then st.enqueued[c] else 0
  }

  function Popped(st: State, c: Cond): nat {
    if c in st.popped then st.popped[c] else 0
  }

  /** The semaphore whose `sema_down` loop a thread at `pc` is in. */
  function DownOf(pc: PC, t: Tid): Option<Sema> {
    match pc
    case SemaDown(id, init) => Some(Plain(id, init))
    case AcqDown(l, _) => Some(OfLock(l))
    case WaitDown(_) => Some(OfWaiter(t))
    case _ => None
  }

  // ---- pieces of transitions ---------------------------------------------------------

  function SetThread(st: State, t: Tid, th: Thread): State {
    st.(threads := st.threads[t := th])
  }

  function Goto(st: State, t: Tid, pc: PC): State {
    SetThread(st, t, Th(st, t).(pc := pc))
  }

  /** `schedule`: the front of the ready list runs next, or the idle thread if there is none. */
  function Schedule(st: State): State {
    if st.ready == [] then st.(running := None) else
    var n := st.ready[0];
    SetThread(st, n, Th(st, n).(status := Running)).(running := Some(n), ready := st.ready[1..])
  }

  /** `thread_yield`, forced by the timer. */
  function Yield(st: State): State {
    if st.running.None? then Schedule(st) else
    var t := st.running.value;
    Schedule(SetThread(st, t, Th(st, t).(status := Ready)).(ready := st.ready + [t]))
  }

  /** `list_push_back (&sema->waiters, ...)` and the status change of `thread_block`. */
  function Enlist(st: State, t: Tid, s: Sema): State {
    SetThread(st, t, Th(st, t).(retest := false, status := Blocked)).(waiters := st.waiters[s := Waiters(st, s) + [t]])
  }

  /** One evaluation of sema_down's loop test: take a unit and go to `next`, or queue up and block. */
  function TestDown(st: State, t: Tid, s: Sema, next: PC): State {
    if Value(st, s) == 0 then Schedule(Enlist(st, t, s)) else
    SetThread(st, t, Th(st, t).(retest := false, pc := next)).(value := st.value[s := Value(st, s) - 1])
  }

  /** `list_pop_front (&sema->waiters)` and `thread_unblock`. */
  function Wake(st: State, s: Sema): State
    requires Waiters(st, s) != []
  {
    var w := Waiters(st, s)[0];
    SetThread(st, w, Th(st, w).(status := Ready, retest := true)).(
      waiters := st.waiters[s := Waiters(st, s)[1..]],
      ready := st.ready + [w])
  }

  /** `sema_up`: wake the first waiter, if any, and add a unit. */
  function Up(st: State, s: Sema): State {
    var st1 := if Waiters(st, s) == [] then st else Wake(st, s);
    st1.(value := st1.value[s := Value(st, s) + 1])
  }

  // ---- transitions -----------------------------------------------------------------------

  datatype Call =
    | CallDown(id: nat, init: nat)
    | CallTryDown(id: nat, init: nat)
    | CallUp(id: nat, init: nat)
    | CallAcquire(l: Lid)
    | CallTryAcquire(l: Lid)
    | CallRelease(l: Lid)
    | CallWait(c: Cond)
    | CallSignal(c: Cond)
    | CallBroadcast(c: Cond)

  datatype Event =
    | Enter(call: Call)                   // the running thread calls an API function
    | Run                                 // it executes its next transition
    | Timer                               // it is preempted
    | InterruptUp(id: nat, init: nat)     // an interrupt handler calls sema_up
    | InterruptTry(id: nat, init: nat)    // or sema_try_down
    | Spawn(t: Tid)
    | Exit

  /** The kernel's own assertions, plus the API's rule that a thread is inside one call at a time. */
  predicate Enabled(st: State, e: Event) {
    match e
    case Enter(call) =>
      && st.running.Some? && Th(st, st.running.value).pc == Out
      && (match call
          case CallAcquire(l) => Holder(st, l) != st.running
          case CallTryAcquire(l) => Holder(st, l) != st.running
          case CallRelease(l) => Holder(st, l) == st.running
          case CallWait(c) => Holder(st, c.lock) == st.running
          case CallSignal(c) => Holder(st, c.lock) == st.running
          case CallBroadcast(c) => Holder(st, c.lock) == st.running
          case _ => true)
    case Run => st.running.Some? && Th(st, st.running.value).pc != Out
    case Timer => true
    case InterruptUp(_, _) => true
    case InterruptTry(_, _) => true
    case Spawn(t) => t !in st.threads
    case Exit => st.running.Some? && Th(st, st.running.value).pc == Out
  }

  function EnterCall(st: State, t: Tid, call: Call): State {
    match call
    case CallDown(id, init) => Goto(st, t, SemaDown(id, init))
    case CallTryDown(id, init) => TryDown(st, t, Plain(id, init), Out)
    case CallUp(id, init) => Up(st, Plain(id, init))
    case CallAcquire(l) => Goto(st, t, AcqDown(l, false))
    case CallTryAcquire(l) => Own(TryDown(st, t, OfLock(l), AcqSet(l, false)), t, l, Value(st, OfLock(l)) > 0)
    case CallRelease(l) => Goto(st, t, RelClear(l))
    case CallWait(c) => Goto(st, t, WaitEnq(c))
    case CallSignal(c) => Goto(st, t, SigPop(c, false, Enqueued(st, c)))
    case CallBroadcast(c) => Goto(st, t, SigPop(c, true, Enqueued(st, c)))
  }

  /** `sema_try_down`: take a unit, or change nothing. */
  function TakeUnit(st: State, s: Sema): State {
    if Value(st, s) == 0 then st else st.(value := st.value[s := Value(st, s) - 1])
  }

  /** A thread that got the unit goes to `next`. */
  function TryDown(st: State, t: Tid, s: Sema, next: PC): State {
    if Value(st, s) == 0 then st else Goto(TakeUnit(st, s), t, next)
  }

  /** Records that `t` took lock `l`'s unit. */
  function Own(st: State, t: Tid, l: Lid, took: bool): State {
    if took then st.(owners := st.owners[l := Owners(st, l) + {t}]) else st
  }

  function Disown(st: State, t: Tid, l: Lid): State {
    st.(owners := st.owners[l := Owners(st, l) - {t}])
  }

  /** `sema_init (&waiter.semaphore, 0)` and `list_push_back (&cond->waiters, &waiter.elem)`. */
  function EnqueueWaiter(st: State, t: Tid, c: Cond): State {
    SetThread(st, t, Th(st, t).(pc := WaitClear(c), ticket := Enqueued(st, c), signals := 0)).(
      value := st.value[OfWaiter(t) := 0],
      waiters := st.waiters[OfWaiter(t) := []],
      condq := st.condq[c := CondQ(st, c) + [t]],
      enqueued := st.enqueued[c := Enqueued(st, c) + 1])
  }

  /** `list_pop_front (&cond->waiters)`. */
  function PopWaiter(st: State, t: Tid, c: Cond, all: bool, upto: nat): State
    requires CondQ(st, c) != []
  {
    var w := CondQ(st, c)[0];
    var st1 := SetThread(st, w, Th(st, w).(signals := Th(st, w).signals + 1)).(
      condq := st.condq[c := CondQ(st, c)[1..]],
      popped := st.popped[c := Popped(st, c) + 1]);
    Goto(st1, t, SigUp(c, all, upto, w))
  }

  /** The running thread's next transition, by program counter. */
  function RunStep(st: State, t: Tid): State {
    match Th(st, t).pc
    case Out => st
    case SemaDown(id, init) => TestDown(st, t, Plain(id, init), Out)
    case AcqDown(l, w) => Own(TestDown(st, t, OfLock(l), AcqSet(l, w)), t, l, Value(st, OfLock(l)) > 0)
    case AcqSet(l, w) => Goto(st, t, Out).(holder := st.holder[l := t])
    case RelClear(l) => Goto(st, t, RelUp(l)).(holder := st.holder - {l})
    case RelUp(l) => Disown(Up(Goto(st, t, Out), OfLock(l)), t, l)
    case WaitEnq(c) => EnqueueWaiter(st, t, c)
    case WaitClear(c) => Goto(st, t, WaitUp(c)).(holder := st.holder - {c.lock})
    case WaitUp(c) => Disown(Up(Goto(st, t, WaitDown(c)), OfLock(c.lock)), t, c.lock)
    case WaitDown(c) => TestDown(st, t, OfWaiter(t), AcqDown(c.lock, true))
    case SigPop(c, all, upto) =>
      if CondQ(st, c) == [] then Goto(st, t, Out) else PopWaiter(st, t, c, all, upto)
    case SigUp(c, all, upto, w) =>
      Up(Goto(st, t, if all then SigPop(c, all, upto) else Out), OfWaiter(w))
  }

  function Next(st: State, e: Event): State
    requires Enabled(st, e)
  {
    match e
    case Enter(call) => EnterCall(st, st.running.value, call)
    case Run => RunStep(st, st.running.value)
    case Timer => Yield(st)
    case InterruptUp(id, init) => Up(st, Plain(id, init))
    case InterruptTry(id, init) => TakeUnit(st, Plain(id, init))
    case Spawn(t) => SetThread(st, t, Th(st, t).(status := Ready)).(ready := st.ready + [t])
    case Exit =>
      var t := st.running.value;
      Schedule(SetThread(st, t, Th(st, t).(status := Dying)))
  }

  const INITIAL := State(map[], None, [], map[], map[], map[], map[], map[], map[], map[])

  /** `tr` is a run: it starts in the initial state and each state follows from the one before by an enabled event. */
  predicate IsRun(tr: seq<State>, es: seq<Event>) {
    && |tr| == |es| + 1 && tr[0] == INITIAL
    && forall i :: 0 <= i < |es| ==> Enabled(tr[i], es[i]) && tr[i + 1] == Next(tr[i], es[i])
  }

  // ---- invariant A: where a thread's list element is ------------------------------------

  ghost predicate NoDup(q: seq<Tid>) {
    forall i, j :: 0 <= i < j < |q| ==> q[i] != q[j]
  }

  lemma PopNoDup(q: seq<Tid>)
    requires NoDup(q) && q != []
    ensures NoDup(q[1..]) && (forall t :: t in q[1..] <==> t in q && t != q[0])
  {
  }

  lemma PushNoDup(q: seq<Tid>, t: Tid)
    requires NoDup(q) && t !in q
    ensures NoDup(q + [t]) && (forall u :: u in q + [t] <==> u in q || u == t)
  {
  }

  /** Blocked threads, and only they, are on the list of the semaphore they are downing, once. */
  ghost predicate QueueOk(st: State, s: Sema) {
    && NoDup(Waiters(st, s))
    && forall t :: t in Waiters(st, s) <==> Th(st, t).status == Blocked && DownOf(Th(st, t).pc, t) == Some(s)
  }

  ghost predicate ReadyOk(st: State) {
    && NoDup(st.ready)
    && forall t :: t in st.ready <==> Th(st, t).status == Ready
  }

  ghost predicate RunningOk(st: State) {
    forall t: Tid :: st.running == Some(t) <==> Th(st, t).status == Running
  }

  /** Each thread's single list element is where its status says. */
  ghost predicate Placed(st: State) {
    ReadyOk(st) && RunningOk(st) && forall s :: QueueOk(st, s)
  }

  lemma SchedulePlaced(st: State)
    requires ReadyOk(st) && forall s :: QueueOk(st, s)
    requires forall t :: Th(st, t).status != Running
    ensures Placed(Schedule(st))
  {
    var st' := Schedule(st);
    if st.ready != [] {
      PopNoDup(st.ready);
      assert st.ready[0] in st.ready;
    }
    forall s ensures QueueOk(st', s) {
      assert QueueOk(st, s);
    }
  }

  lemma WakePlaced(st: State, s: Sema)
    requires Placed(st) && Waiters(st, s) != []
    ensures Placed(Wake(st, s))
    ensures Th(st, Waiters(st, s)[0]).status == Blocked
  {
    var st' := Wake(st, s);
    var w := Waiters(st, s)[0];
    assert QueueOk(st, s);
    assert w in Waiters(st, s);
    PopNoDup(Waiters(st, s));
    PushNoDup(st.ready, w);
    forall s' ensures QueueOk(st', s') {
      assert QueueOk(st, s');
    }
  }

  lemma UpPlaced(st: State, s: Sema)
    requires Placed(st)
    ensures Placed(Up(st, s))
  {
    var st' := Up(st, s);
    if Waiters(st, s) != [] {
      WakePlaced(st, s);
      SamePlaces(Wake(st, s), st');
    } else {
      SamePlaces(st, st');
    }
  }

  /** Placement depends only on the lists and on each thread's status and, while blocked, its semaphore. */
  lemma SamePlaces(st: State, st': State)
    requires Placed(st) && st'.ready == st.ready && st'.running == st.running
    requires forall s :: Waiters(st', s) == Waiters(st, s)
    requires forall t :: Th(st', t).status == Th(st, t).status
    requires forall t :: Th(st, t).status == Blocked ==> DownOf(Th(st', t).pc, t) == DownOf(Th(st, t).pc, t)
    ensures Placed(st')
  {
    forall s ensures QueueOk(st', s) {
      assert QueueOk(st, s);
    }
  }

  lemma TestDownPlaced(st: State, t: Tid, s: Sema, next: PC)
    requires Placed(st) && st.running == Some(t) && DownOf(Th(st, t).pc, t) == Some(s)
    ensures Placed(TestDown(st, t, s, next))
  {
    if Value(st, s) == 0 {
      var st1 := Enlist(st, t, s);
      assert QueueOk(st, s);
      PushNoDup(Waiters(st, s), t);
      forall s' ensures QueueOk(st1, s') {
        assert QueueOk(st, s');
      }
      SchedulePlaced(st1);
    } else {
      SamePlaces(st, TestDown(st, t, s, next));
    }
  }

  lemma YieldPlaced(st: State)
    requires Placed(st)
    ensures Placed(Yield(st))
  {
    if st.running.None? {
      SchedulePlaced(st);
    } else {
      var t := st.running.value;
      var st1 := SetThread(st, t, Th(st, t).(status := Ready)).(ready := st.ready + [t]);
      PushNoDup(st.ready, t);
      forall s ensures QueueOk(st1, s) {
        assert QueueOk(st, s);
      }
      SchedulePlaced(st1);
    }
  }

  // ---- invariant B: no wake-up is lost -----------------------------------------------------

  /** The threads that `sema_up` unblocked from `s` and that have not yet re-evaluated the loop test. */
  function Retesting(st: State, s: Sema): set<Tid> {
    set t | t in st.threads && st.threads[t].retest && DownOf(st.threads[t].pc, t) == Some(s)
  }

  ghost predicate WakeOk(st: State, s: Sema) {
    Waiters(st, s) != [] ==> Value(st, s) <= |Retesting(st, s)|
  }

  /** A thread about to re-evaluate the loop test is in that loop, and not asleep. */
  predicate RetestFine(th: Thread, t: Tid) {
    th.retest ==> DownOf(th.pc, t).Some? && (th.status == Ready || th.status == Running)
  }

  ghost predicate RetestOk(st: State) {
    forall t: Tid :: RetestFine(Th(st, t), t)
  }

  /** While threads sleep on a semaphore, each of its units has a woken thread on the way to take it. */
  ghost predicate Wakeful(st: State) {
    && (forall s :: WakeOk(st, s))
    && RetestOk(st)
  }

  lemma RetestFrame(st: State, st': State)
    requires RetestOk(st)
    requires forall t: Tid :: RetestFine(Th(st, t), t) ==> RetestFine(Th(st', t), t)
    ensures RetestOk(st')
  {
  }

  lemma WakeOkMono(st: State, st': State, s: Sema)
    requires WakeOk(st, s)
    requires Waiters(st', s) != [] ==> Waiters(st, s) != [] && Value(st', s) <= Value(st, s)
    requires forall t :: Th(st, t).retest && DownOf(Th(st, t).pc, t) == Some(s) ==>
               Th(st', t).retest && DownOf(Th(st', t).pc, t) == Some(s)
    ensures WakeOk(st', s)
  {
    forall t | t in Retesting(st, s) ensures t in Retesting(st', s) {
      assert Th(st, t).retest;
    }
    SubsetCard(Retesting(st, s), Retesting(st', s));
  }

  lemma ScheduleWakeful(st: State)
    requires Wakeful(st) && ReadyOk(st)
    ensures Wakeful(Schedule(st))
  {
    var st' := Schedule(st);
    assert st.ready != [] ==> st.ready[0] in st.ready;
    RetestFrame(st, st');
    forall s ensures WakeOk(st', s) {
      assert WakeOk(st, s);
      WakeOkMono(st, st', s);
    }
  }

  lemma UpWakeful(st: State, s: Sema)
    requires Placed(st) && Wakeful(st)
    ensures Wakeful(Up(st, s))
  {
    var st' := Up(st, s);
    assert WakeOk(st, s) && QueueOk(st, s);
    RetestFrame(st, st');
    forall s' | s' != s ensures WakeOk(st', s') {
      assert WakeOk(st, s');
      WakeOkMono(st, st', s');
    }
    if Waiters(st, s) != [] {
      var w := Waiters(st, s)[0];
      assert w in Waiters(st, s);
      assert Th(st', w).retest && DownOf(Th(st', w).pc, w) == Some(s);
      forall t | t in Retesting(st, s) ensures t in Retesting(st', s) {
        assert Th(st, t).retest;
      }
      assert w in Retesting(st', s) && w !in Retesting(st, s);
      SubsetCard(Retesting(st, s) + {w}, Retesting(st', s));
    }
  }

  lemma TestDownWakeful(st: State, t: Tid, s: Sema, next: PC)
    requires Placed(st) && Wakeful(st) && st.running == Some(t) && DownOf(Th(st, t).pc, t) == Some(s)
    ensures Wakeful(TestDown(st, t, s, next))
  {
    if Value(st, s) == 0 {
      var st1 := Enlist(st, t, s);
      forall s' ensures WakeOk(st1, s') {
        assert WakeOk(st, s');
        if s' != s {
          WakeOkMono(st, st1, s');
        }
      }
      assert ReadyOk(st1);
      ScheduleWakeful(st1);
    } else {
      var st' := TestDown(st, t, s, next);
      RetestFrame(st, st');
      forall s' ensures WakeOk(st', s') {
        assert WakeOk(st, s');
        if s' != s {
          WakeOkMono(st, st', s');
        } else {
          forall u | u in Retesting(st, s) - {t} ensures u in Retesting(st', s) {
            assert Th(st, u).retest;
          }
          SubsetCard(Retesting(st, s) - {t}, Retesting(st', s));
        }
      }
    }
  }

  lemma YieldWakeful(st: State)
    requires Placed(st) && Wakeful(st)
    ensures Wakeful(Yield(st))
  {
    if st.running.None? {
      ScheduleWakeful(st);
    } else {
      var t := st.running.value;
      var st1 := SetThread(st, t, Th(st, t).(status := Ready)).(ready := st.ready + [t]);
      RetestFrame(st, st1);
      forall s ensures WakeOk(st1, s) {
        assert WakeOk(st, s);
        WakeOkMono(st, st1, s);
      }
      PushNoDup(st.ready, t);
      ScheduleWakeful(st1);
    }
  }

  /** Steps that move only the running thread, out of no `sema_down`, and wake or queue nobody. */
  lemma PlainMove(st: State, st': State, t: Tid)
    requires Placed(st) && Wakeful(st) && st.running == Some(t) && DownOf(Th(st, t).pc, t) == None
    requires st'.ready == st.ready && st'.running == st.running
    requires forall s :: Waiters(st', s) == Waiters(st, s) && (Value(st', s) <= Value(st, s) || Waiters(st, s) == [])
    requires forall u :: Th(st', u).status == Th(st, u).status && Th(st', u).retest == Th(st, u).retest
    requires forall u :: u != t ==> Th(st', u).pc == Th(st, u).pc
    ensures Placed(st') && Wakeful(st')
  {
    SamePlaces(st, st');
    forall s ensures WakeOk(st', s) {
      assert WakeOk(st, s);
      WakeOkMono(st, st', s);
    }
  }

  // ---- invariant C: locks -----------------------------------------------------------------

  /** Between taking (giving back) the unit of lock `l` and recording it in (after clearing) `holder`. */
  predicate Between(pc: PC, l: Lid) {
    match pc
    case AcqSet(m, _) => m == l
    case RelUp(m) => m == l
    case WaitUp(c) => c.lock == l
    case _ => false
  }

  /** The lock that a thread at `pc` is committed to holding. */
  function MustHold(pc: PC): Option<Lid> {
    match pc
    case RelClear(l) => Some(l)
    case WaitEnq(c) => Some(c.lock)
    case WaitClear(c) => Some(c.lock)
    case SigPop(c, _, _) => Some(c.lock)
    case SigUp(c, _, _, _) => Some(c.lock)
    case _ => None
  }

  /**
   One unit exists per lock: in the semaphore or with its only owner, whom `holder` names
   except at the `Between` points.
   */
  ghost predicate LockOk(st: State, l: Lid) {
    && Value(st, OfLock(l)) + |Owners(st, l)| == 1
    && (forall t :: Holder(st, l) == Some(t) ==> t in Owners(st, l) && !Between(Th(st, t).pc, l))
    && (forall t :: Between(Th(st, t).pc, l) ==> t in Owners(st, l) && Holder(st, l) == None)
    && (forall t :: t in Owners(st, l) ==> Holder(st, l) == Some(t) || Between(Th(st, t).pc, l))
    && (forall t: Tid :: MustHold(Th(st, t).pc) == Some(l) ==> Holder(st, l) == Some(t))
  }

  ghost predicate LocksOk(st: State) {
    forall l :: LockOk(st, l)
  }

  lemma OnlyOwner(st: State, l: Lid, t: Tid)
    requires LockOk(st, l) && t in Owners(st, l)
    ensures Owners(st, l) == {t} && Value(st, OfLock(l)) == 0
  {
    SubsetCard({t}, Owners(st, l));
    if u :| u in Owners(st, l) && u != t {
      SubsetCard({t, u}, Owners(st, l));
    }
  }

  /** Steps that leave every lock alone: at most thread `t` moves, between points with no unit in hand. */
  lemma LocksFrame(st: State, st': State, t: Tid)
    requires LocksOk(st) && st'.holder == st.holder && st'.owners == st.owners
    requires forall l :: Value(st', OfLock(l)) == Value(st, OfLock(l))
    requires forall u :: u != t ==> Th(st', u).pc == Th(st, u).pc
    requires Th(st', t).pc == Th(st, t).pc ||
             (forall l: Lid :: !Between(Th(st, t).pc, l) && !Between(Th(st', t).pc, l) &&
                          (MustHold(Th(st', t).pc) == Some(l) ==> Holder(st, l) == Some(t)))
    ensures LocksOk(st')
  {
    forall l ensures LockOk(st', l) {
      assert LockOk(st, l);
    }
  }

  lemma LockUntouched(st: State, st': State, t: Tid, m: Lid)
    requires LockOk(st, m) && Holder(st', m) == Holder(st, m) && Owners(st', m) == Owners(st, m)
    requires Value(st', OfLock(m)) == Value(st, OfLock(m))
    requires forall u: Tid :: u != t ==> Th(st', u).pc == Th(st, u).pc
    requires !Between(Th(st, t).pc, m) && !Between(Th(st', t).pc, m) && MustHold(Th(st', t).pc) != Some(m)
    ensures LockOk(st', m)
  {
  }

  /** Taking a free lock's unit. */
  lemma LocksTake(st: State, st': State, t: Tid, l: Lid, w: bool)
    requires LocksOk(st) && Value(st, OfLock(l)) > 0
    requires st'.holder == st.holder && st'.owners == st.owners[l := Owners(st, l) + {t}]
    requires forall m :: Value(st', OfLock(m)) == Value(st, OfLock(m)) - if m == l then 1 else 0
    requires forall u :: u != t ==> Th(st', u).pc == Th(st, u).pc
    requires (forall m :: !Between(Th(st, t).pc, m)) && Th(st', t).pc == AcqSet(l, w)
    ensures LocksOk(st')
  {
    assert LockOk(st, l);
    assert Owners(st, l) == {};
    assert Owners(st', l) == {t};
    forall m ensures LockOk(st', m) {
      assert LockOk(st, m);
      if m != l {
        LockUntouched(st, st', t, m);
      }
    }
  }

  /** Setting or clearing `holder` while owning the unit. */
  lemma LocksMark(st: State, st': State, t: Tid, l: Lid)
    requires LocksOk(st) && t in Owners(st, l) && st'.owners == st.owners
    requires forall m :: Value(st', OfLock(m)) == Value(st, OfLock(m))
    requires forall u :: u != t ==> Th(st', u).pc == Th(st, u).pc
    requires forall m :: m != l ==> Holder(st', m) == Holder(st, m)
    requires forall m :: m != l ==> !Between(Th(st, t).pc, m) && !Between(Th(st', t).pc, m)
    requires MustHold(Th(st', t).pc) == None
    requires if Between(Th(st', t).pc, l) then Holder(st', l) == None else Holder(st', l) == Some(t)
    ensures LocksOk(st')
  {
    assert LockOk(st, l);
    OnlyOwner(st, l, t);
    forall m ensures LockOk(st', m) {
      assert LockOk(st, m);
      if m != l {
        LockUntouched(st, st', t, m);
      }
    }
  }

  /** Giving the unit back. */
  lemma LocksGive(st: State, st': State, t: Tid, l: Lid)
    requires LocksOk(st) && Between(Th(st, t).pc, l)
    requires st'.holder == st.holder && st'.owners == st.owners[l := Owners(st, l) - {t}]
    requires forall m :: Value(st', OfLock(m)) == Value(st, OfLock(m)) + if m == l then 1 else 0
    requires forall u :: u != t ==> Th(st', u).pc == Th(st, u).pc
    requires MustHold(Th(st', t).pc) == None && forall m :: !Between(Th(st', t).pc, m)
    ensures LocksOk(st')
  {
    assert LockOk(st, l);
    OnlyOwner(st, l, t);
    forall m ensures LockOk(st', m) {
      assert LockOk(st, m);
      if m != l {
        LockUntouched(st, st', t, m);
      }
    }
  }

  // ---- invariant D: condition variables ------------------------------------------------------

  /** The condition a thread at `pc` has queued for and not yet returned from waiting on. */
  function Waiting(pc: PC): Option<Cond> {
    match pc
    case WaitClear(c) => Some(c)
    case WaitUp(c) => Some(c)
    case WaitDown(c) => Some(c)
    case _ => None
  }

  predicate Signalling(st: State, u: Tid, t: Tid) {
    Th(st, u).pc.SigUp? && Th(st, u).pc.target == t
  }

  /** The queue holds the waiters not yet signalled, in the order of their tickets, with no gap. */
  ghost predicate CondOk(st: State, c: Cond) {
    var q := CondQ(st, c);
    && NoDup(q)
    && (forall t :: t in q ==> Waiting(Th(st, t).pc) == Some(c))
    && (forall i :: 0 <= i < |q| ==> Th(st, q[i]).ticket == Popped(st, c) + i)
    && Popped(st, c) + |q| == Enqueued(st, c)
  }

  /** A waiter is queued, or its one signal is in flight, or the signal is stored in its semaphore. */
  ghost predicate WaiterOk(st: State, t: Tid) {
    && (Waiting(Th(st, t).pc).Some? ==>
         var c := Waiting(Th(st, t).pc).value;
         if t in CondQ(st, c) then
           Value(st, OfWaiter(t)) == 0 && Th(st, t).signals == 0 && forall u :: !Signalling(st, u, t)
         else
           Value(st, OfWaiter(t)) <= 1 && Th(st, t).signals == 1 &&
           (Value(st, OfWaiter(t)) == 0 <==> exists u :: Signalling(st, u, t)))
    && (Th(st, t).pc in {AcqDown(PcLock(Th(st, t).pc), true), AcqSet(PcLock(Th(st, t).pc), true)} ==>
        Th(st, t).signals == 1)
  }

  function PcLock(pc: PC): Lid {
    match pc
    case AcqDown(l, _) => l
    case AcqSet(l, _) => l
    case _ => 0
  }

  /** A signaller's target is still waiting on that condition, and nobody has queued since the call began. */
  ghost predicate SignallerOk(st: State, u: Tid) {
    match Th(st, u).pc
    case SigPop(c, _, upto) => Enqueued(st, c) == upto
    case SigUp(c, _, upto, w) => Enqueued(st, c) == upto && Waiting(Th(st, w).pc) == Some(c) && w !in CondQ(st, c)
    case _ => true
  }

  ghost predicate CondsOk(st: State) {
    && (forall c :: CondOk(st, c))
    && (forall t :: WaiterOk(st, t))
    && (forall u :: SignallerOk(st, u))
  }

  /** Steps in which thread `t` neither joins nor leaves a wait nor signals. */
  lemma CondsFrame(st: State, st': State, t: Tid)
    requires CondsOk(st) && st'.condq == st.condq && st'.enqueued == st.enqueued && st'.popped == st.popped
    requires forall u :: Value(st', OfWaiter(u)) == Value(st, OfWaiter(u))
    requires forall u :: Th(st', u).ticket == Th(st, u).ticket && Th(st', u).signals == Th(st, u).signals
    requires forall u :: u != t ==> Th(st', u).pc == Th(st, u).pc
    requires Th(st', t).pc == Th(st, t).pc ||
             (Waiting(Th(st', t).pc) == Waiting(Th(st, t).pc) && !Th(st, t).pc.SigUp? && !Th(st', t).pc.SigUp?)
    requires WaiterOk(st', t) && SignallerOk(st', t)
    ensures CondsOk(st')
  {
    forall u, v ensures Signalling(st', u, v) == Signalling(st, u, v) { }
    forall c ensures CondOk(st', c) {
      assert CondOk(st, c);
    }
    forall u ensures WaiterOk(st', u) && SignallerOk(st', u) {
      assert WaiterOk(st, u) && SignallerOk(st, u);
      if u != t && Waiting(Th(st, u).pc).Some? {
        if v :| Signalling(st, v, u) {
          assert Signalling(st', v, u);
        }
      }
    }
  }

  /** Two signallers of one waiter would both hold its condition's lock. */
  lemma OneSignaller(st: State, u: Tid, v: Tid, t: Tid)
    requires LocksOk(st) && CondsOk(st) && Signalling(st, u, t) && Signalling(st, v, t)
    ensures u == v
  {
    assert SignallerOk(st, u) && SignallerOk(st, v);
    assert LockOk(st, Th(st, u).pc.c.lock);
  }

  /** Everything but `t`'s program counter that the condition invariant reads, for threads. */
  ghost predicate OthersSame(st: State, st': State, t: Tid) {
    forall u: Tid :: u != t ==>
      Th(st', u).pc == Th(st, u).pc && Th(st', u).ticket == Th(st, u).ticket && Th(st', u).signals == Th(st, u).signals
  }

  lemma CondsEnqueue(st: State, t: Tid, c: Cond)
    requires LocksOk(st) && CondsOk(st) && Th(st, t).pc == WaitEnq(c)
    ensures CondsOk(EnqueueWaiter(st, t, c))
  {
    forall d ensures CondOk(EnqueueWaiter(st, t, c), d) {
      EnqueueQueue(st, t, c, d);
    }
    forall u ensures WaiterOk(EnqueueWaiter(st, t, c), u) && SignallerOk(EnqueueWaiter(st, t, c), u) {
      EnqueueWaiterOk(st, t, c, u);
      EnqueueSignaller(st, t, c, u);
    }
  }

  /** A queue none of whose members moved. */
  lemma QueueSame(st: State, st': State, d: Cond)
    requires CondOk(st, d) && CondQ(st', d) == CondQ(st, d)
    requires Popped(st', d) == Popped(st, d) && Enqueued(st', d) == Enqueued(st, d)
    requires forall u :: u in CondQ(st, d) ==>
               Waiting(Th(st', u).pc) == Waiting(Th(st, u).pc) && Th(st', u).ticket == Th(st, u).ticket
    ensures CondOk(st', d)
  {
  }

  lemma EnqueueQueue(st: State, t: Tid, c: Cond, d: Cond)
    requires CondsOk(st) && Th(st, t).pc == WaitEnq(c)
    ensures CondOk(EnqueueWaiter(st, t, c), d)
  {
    assert CondOk(st, d);
    assert t !in CondQ(st, d);
    if d == c {
      EnqueueOwn(st, t, c);
    } else {
      hide CondsOk;
      QueueSame(st, EnqueueWaiter(st, t, c), d);
    }
  }

  lemma EnqueueOwn(st: State, t: Tid, c: Cond)
    requires CondOk(st, c) && t !in CondQ(st, c) && Th(st, t).pc == WaitEnq(c)
    ensures CondOk(EnqueueWaiter(st, t, c), c)
  {
    var st' := EnqueueWaiter(st, t, c);
    var q, q' := CondQ(st, c), CondQ(st', c);
    PushNoDup(q, t);
    assert q' == q + [t];
    forall i | 0 <= i < |q'| ensures Th(st', q'[i]).ticket == Popped(st', c) + i {
      if i < |q| {
        assert q[i] in q;
        assert Th(st', q[i]) == Th(st, q[i]);
      }
    }
  }

  lemma EnqueueWaiterOk(st: State, t: Tid, c: Cond, u: Tid)
    requires CondsOk(st) && Th(st, t).pc == WaitEnq(c)
    ensures WaiterOk(EnqueueWaiter(st, t, c), u)
  {
    var st' := EnqueueWaiter(st, t, c);
    forall v ensures Signalling(st', v, u) == Signalling(st, v, u) { }
    assert WaiterOk(st, u);
    if u == t {
      assert t in CondQ(st', c);
      forall v ensures !Signalling(st', v, t) {
        assert SignallerOk(st, v);
      }
    } else {
      assert forall d :: u in CondQ(st', d) <==> u in CondQ(st, d);
      if v :| Signalling(st, v, u) {
        assert Signalling(st', v, u);
      }
    }
  }

  lemma EnqueueSignaller(st: State, t: Tid, c: Cond, u: Tid)
    requires LocksOk(st) && CondsOk(st) && Th(st, t).pc == WaitEnq(c)
    ensures SignallerOk(EnqueueWaiter(st, t, c), u)
  {
    assert SignallerOk(st, u) && LockOk(st, c.lock);
    if Th(st, u).pc.SigUp? {
      assert Waiting(Th(st, Th(st, u).pc.target).pc).Some?;
      assert Th(st, u).pc.target != t;
    }
  }

  lemma CondsPop(st: State, t: Tid, c: Cond, all: bool, upto: nat)
    requires CondsOk(st) && Th(st, t).pc == SigPop(c, all, upto) && CondQ(st, c) != []
    ensures CondsOk(PopWaiter(st, t, c, all, upto))
  {
    forall d ensures CondOk(PopWaiter(st, t, c, all, upto), d) {
      PopQueue(st, t, c, all, upto, d);
    }
    forall u ensures WaiterOk(PopWaiter(st, t, c, all, upto), u) && SignallerOk(PopWaiter(st, t, c, all, upto), u) {
      PopWaiterOk(st, t, c, all, upto, u);
      PopSignaller(st, t, c, all, upto, u);
    }
  }

  lemma PopView(st: State, t: Tid, c: Cond, all: bool, upto: nat)
    requires CondQ(st, c) != [] && CondQ(st, c)[0] != t
    ensures var st', w := PopWaiter(st, t, c, all, upto), CondQ(st, c)[0];
            && (forall u: Tid :: u != t && u != w ==> Th(st', u) == Th(st, u))
            && Th(st', w) == Th(st, w).(signals := Th(st, w).signals + 1)
            && Th(st', t) == Th(st, t).(pc := SigUp(c, all, upto, w))
  {
  }

  lemma PopQueue(st: State, t: Tid, c: Cond, all: bool, upto: nat, d: Cond)
    requires CondsOk(st) && Th(st, t).pc == SigPop(c, all, upto) && CondQ(st, c) != []
    ensures CondOk(PopWaiter(st, t, c, all, upto), d)
  {
    var st' := PopWaiter(st, t, c, all, upto);
    assert CondOk(st, d) && CondOk(st, c);
    assert t !in CondQ(st, d) && CondQ(st, c)[0] in CondQ(st, c);
    PopView(st, t, c, all, upto);
    if d == c {
      PopThisQueue(st, st', c);
    } else {
      QueueSame(st, st', d);
    }
  }

  lemma PopThisQueue(st: State, st': State, c: Cond)
    requires CondOk(st, c) && CondQ(st, c) != [] && CondQ(st', c) == CondQ(st, c)[1..]
    requires Popped(st', c) == Popped(st, c) + 1 && Enqueued(st', c) == Enqueued(st, c)
    requires forall u :: u in CondQ(st, c) ==> Th(st', u).pc == Th(st, u).pc && Th(st', u).ticket == Th(st, u).ticket
    ensures CondOk(st', c)
  {
    var q, q' := CondQ(st, c), CondQ(st', c);
    PopNoDup(q);
    forall i | 0 <= i < |q'| ensures Th(st', q'[i]).ticket == Popped(st', c) + i {
      assert q'[i] == q[i + 1] && q[i + 1] in q;
    }
  }

  lemma PopWaiterOk(st: State, t: Tid, c: Cond, all: bool, upto: nat, u: Tid)
    requires CondsOk(st) && Th(st, t).pc == SigPop(c, all, upto) && CondQ(st, c) != []
    ensures WaiterOk(PopWaiter(st, t, c, all, upto), u)
  {
    var st' := PopWaiter(st, t, c, all, upto);
    var w := CondQ(st, c)[0];
    assert CondOk(st, c) && w in CondQ(st, c);
    assert w != t;
    PopNoDup(CondQ(st, c));
    forall v ensures Signalling(st', v, u) <==> Signalling(st, v, u) || (v == t && u == w) { }
    assert WaiterOk(st, u);
    if u == w {
      assert Signalling(st', t, w);
    } else {
      assert forall d :: u in CondQ(st', d) <==> u in CondQ(st, d);
      if v :| Signalling(st, v, u) {
        assert Signalling(st', v, u);
      }
    }
  }

  lemma PopSignaller(st: State, t: Tid, c: Cond, all: bool, upto: nat, u: Tid)
    requires CondsOk(st) && Th(st, t).pc == SigPop(c, all, upto) && CondQ(st, c) != []
    ensures SignallerOk(PopWaiter(st, t, c, all, upto), u)
  {
    var st' := PopWaiter(st, t, c, all, upto);
    var w := CondQ(st, c)[0];
    assert CondOk(st, c) && w in CondQ(st, c);
    assert w != t && Th(st', w).pc == Th(st, w).pc;
    PopNoDup(CondQ(st, c));
    assert CondQ(st', c) == CondQ(st, c)[1..];
    assert SignallerOk(st, t);
    if u != t {
      assert SignallerOk(st, u) && Th(st', u).pc == Th(st, u).pc;
      if Th(st, u).pc.SigUp? {
        var x := Th(st, u).pc.target;
        assert x != t && Th(st', x).pc == Th(st, x).pc;
      }
    }
  }

  lemma CondsSigUp(st: State, st': State, t: Tid, c: Cond, all: bool, upto: nat, w: Tid)
    requires LocksOk(st) && CondsOk(st) && Th(st, t).pc == SigUp(c, all, upto, w)
    requires OthersSame(st, st', t) && Th(st', t).pc == if all then SigPop(c, all, upto) else Out
    requires st'.condq == st.condq && st'.enqueued == st.enqueued && st'.popped == st.popped
    requires forall u :: Value(st', OfWaiter(u)) == Value(st, OfWaiter(u)) + if u == w then 1 else 0
    ensures CondsOk(st')
  {
    assert SignallerOk(st, t) && Signalling(st, t, w);
    forall d ensures CondOk(st', d) {
      assert CondOk(st, d);
    }
    forall u ensures WaiterOk(st', u) && SignallerOk(st', u) {
      SigUpWaiter(st, st', t, c, all, upto, w, u);
      assert SignallerOk(st, u);
    }
  }

  lemma SigUpWaiter(st: State, st': State, t: Tid, c: Cond, all: bool, upto: nat, w: Tid, u: Tid)
    requires LocksOk(st) && CondsOk(st) && Th(st, t).pc == SigUp(c, all, upto, w)
    requires OthersSame(st, st', t) && Th(st', t).pc == if all then SigPop(c, all, upto) else Out
    requires st'.condq == st.condq && st'.enqueued == st.enqueued && st'.popped == st.popped
    requires forall u :: Value(st', OfWaiter(u)) == Value(st, OfWaiter(u)) + if u == w then 1 else 0
    ensures WaiterOk(st', u)
  {
    assert SignallerOk(st, t) && Signalling(st, t, w) && WaiterOk(st, u);
    forall v ensures Signalling(st', v, u) <==> Signalling(st, v, u) && v != t { }
    if u == w {
      forall v ensures !Signalling(st', v, w) {
        if Signalling(st, v, w) {
          OneSignaller(st, v, t, w);
        }
      }
    } else if v :| Signalling(st, v, u) {
      assert v != t;
      assert Signalling(st', v, u);
    }
  }

  lemma CondsWoken(st: State, st': State, t: Tid, c: Cond)
    requires CondsOk(st) && Th(st, t).pc == WaitDown(c) && Value(st, OfWaiter(t)) > 0
    requires OthersSame(st, st', t) && Th(st', t).pc == AcqDown(c.lock, true) && Th(st', t).signals == Th(st, t).signals
    requires st'.condq == st.condq && st'.enqueued == st.enqueued && st'.popped == st.popped
    requires forall u :: u != t ==> Value(st', OfWaiter(u)) == Value(st, OfWaiter(u))
    ensures CondsOk(st')
  {
    assert WaiterOk(st, t) && CondOk(st, c);
    assert t !in CondQ(st, c);
    forall d ensures CondOk(st', d) {
      assert CondOk(st, d);
      assert t !in CondQ(st, d);
    }
    forall u, v ensures Signalling(st', u, v) == Signalling(st, u, v) { }
    forall u ensures WaiterOk(st', u) && SignallerOk(st', u) {
      assert WaiterOk(st, u) && SignallerOk(st, u);
      assert !Signalling(st, u, t);
      if v :| Signalling(st, v, u) {
        assert Signalling(st', v, u);
      }
    }
  }

  // ---- every transition keeps the invariant --------------------------------------------------

  ghost predicate Inv(st: State) {
    Placed(st) && Wakeful(st) && LocksOk(st) && CondsOk(st)
  }

  /** What `sema_up` leaves alone. */
  lemma UpView(st: State, s: Sema)
    ensures var st' := Up(st, s);
            && st'.holder == st.holder && st'.owners == st.owners
            && st'.condq == st.condq && st'.enqueued == st.enqueued && st'.popped == st.popped
            && (forall u: Tid :: Th(st', u).pc == Th(st, u).pc && Th(st', u).ticket == Th(st, u).ticket &&
                                 Th(st', u).signals == Th(st, u).signals)
            && (forall s' :: Value(st', s') == Value(st, s') + if s' == s then 1 else 0)
  {
  }

  /** What a loop test of `sema_down` leaves alone. */
  lemma TestDownView(st: State, t: Tid, s: Sema, next: PC)
    ensures var st' := TestDown(st, t, s, next);
            && st'.holder == st.holder && st'.owners == st.owners
            && st'.condq == st.condq && st'.enqueued == st.enqueued && st'.popped == st.popped
            && OthersSame(st, st', t) && Th(st', t).ticket == Th(st, t).ticket &&
              Th(st', t).signals == Th(st, t).signals
            && Th(st', t).pc == (if Value(st, s) == 0 then Th(st, t).pc else next)
            && (forall s' :: Value(st', s') == Value(st, s') - if s' == s && Value(st, s) > 0 then 1 else 0)
  {
    if Value(st, s) == 0 {
      ScheduleView(Enlist(st, t, s));
    }
  }

  lemma ScheduleView(st: State)
    ensures var st' := Schedule(st);
            && st'.value == st.value && st'.waiters == st.waiters && st'.holder == st.holder && st'.owners == st.owners
            && st'.condq == st.condq && st'.enqueued == st.enqueued && st'.popped == st.popped
            && (forall u: Tid :: Th(st', u) == Th(st, u).(status := Th(st', u).status))
  {
    if st.ready != [] {
      var n := st.ready[0];
      var st' := Schedule(st);
      assert st'.threads == st.threads[n := Th(st, n).(status := Running)];
    }
  }

  lemma GotoKeeps(st: State, st': State, t: Tid, pc: PC)
    requires Inv(st) && st.running == Some(t) && st' == Goto(st, t, pc)
    requires DownOf(Th(st, t).pc, t) == None && Waiting(Th(st, t).pc) == None && Waiting(pc) == None
    requires !Th(st, t).pc.SigUp? && !pc.SigUp?
    requires forall l: Lid :: !Between(Th(st, t).pc, l) && !Between(pc, l) &&
                              (MustHold(pc) == Some(l) ==> Holder(st, l) == Some(t))
    requires WaiterOk(st', t) && SignallerOk(st', t)
    ensures Inv(st')
  {
    PlainMove(st, st', t);
    LocksFrame(st, st', t);
    CondsFrame(st, st', t);
  }

  lemma UpKeeps(st: State, s: Sema)
    requires Inv(st) && s.Plain?
    ensures Inv(Up(st, s))
  {
    UpPlaced(st, s);
    UpWakeful(st, s);
    UpView(st, s);
    LocksFrame(st, Up(st, s), 0);
    assert WaiterOk(st, 0) && SignallerOk(st, 0);
    SameConds(st, Up(st, s));
  }

  lemma SameConds(st: State, st': State)
    requires CondsOk(st) && st'.condq == st.condq && st'.enqueued == st.enqueued && st'.popped == st.popped
    requires forall u :: Value(st', OfWaiter(u)) == Value(st, OfWaiter(u))
    requires forall u: Tid :: Th(st', u).pc == Th(st, u).pc && Th(st', u).ticket == Th(st, u).ticket &&
                              Th(st', u).signals == Th(st, u).signals
    ensures CondsOk(st')
  {
    forall u, v ensures Signalling(st', u, v) == Signalling(st, u, v) { }
    forall c ensures CondOk(st', c) {
      assert CondOk(st, c);
    }
    forall u ensures WaiterOk(st', u) && SignallerOk(st', u) {
      assert WaiterOk(st, u) && SignallerOk(st, u);
      if v :| Signalling(st, v, u) {
        assert Signalling(st', v, u);
      }
    }
  }

  lemma TryDownKeeps(st: State, t: Tid, l: Lid)
    requires Inv(st) && st.running == Some(t) && Th(st, t).pc == Out && Value(st, OfLock(l)) > 0
    ensures Inv(Own(TryDown(st, t, OfLock(l), AcqSet(l, false)), t, l, true))
  {
    var st' := Own(TryDown(st, t, OfLock(l), AcqSet(l, false)), t, l, true);
    PlainMove(st, st', t);
    LocksTake(st, st', t, l, false);
    assert WaiterOk(st, t);
    CondsFrame(st, st', t);
  }

  lemma TakeUnitKeeps(st: State, s: Sema)
    requires Inv(st) && s.Plain?
    ensures Inv(TakeUnit(st, s))
  {
    hide Placed, Wakeful, LocksOk, CondsOk, TakeUnit;
    TakeUnitPlaced(st, s);
    TakeUnitWakeful(st, s);
    TakeUnitLocks(st, s);
    TakeUnitConds(st, s);
  }

  lemma TakeUnitPlaced(st: State, s: Sema)
    requires Placed(st) && s.Plain?
    ensures Placed(TakeUnit(st, s))
  {
    hide Placed, TakeUnit;
    TakeUnitView(st, s);
    SamePlaces(st, TakeUnit(st, s));
  }

  lemma TakeUnitWakeful(st: State, s: Sema)
    requires Wakeful(st) && s.Plain?
    ensures Wakeful(TakeUnit(st, s))
  {
    hide TakeUnit, WakeOk;
    TakeUnitView(st, s);
    RetestFrame(st, TakeUnit(st, s));
    forall s' ensures WakeOk(TakeUnit(st, s), s') {
      WakeOkMono(st, TakeUnit(st, s), s');
    }
  }

  lemma TakeUnitLocks(st: State, s: Sema)
    requires LocksOk(st) && s.Plain?
    ensures LocksOk(TakeUnit(st, s))
  {
    hide LocksOk, TakeUnit;
    TakeUnitView(st, s);
    LocksFrame(st, TakeUnit(st, s), 0);
  }

  lemma TakeUnitConds(st: State, s: Sema)
    requires CondsOk(st) && s.Plain?
    ensures CondsOk(TakeUnit(st, s))
  {
    hide CondsOk, TakeUnit;
    TakeUnitView(st, s);
    SameConds(st, TakeUnit(st, s));
  }

  lemma TakeUnitView(st: State, s: Sema)
    requires s.Plain?
    ensures var st' := TakeUnit(st, s);
            && st'.threads == st.threads && st'.ready == st.ready && st'.running == st.running &&
              st'.waiters == st.waiters
            && st'.holder == st.holder && st'.owners == st.owners
            && st'.condq == st.condq && st'.enqueued == st.enqueued && st'.popped == st.popped
            && (forall s': Sema :: Value(st', s') <= Value(st, s'))
            && (forall s': Sema :: !s'.Plain? ==> Value(st', s') == Value(st, s'))
  {
    forall s': Sema
      ensures Value(TakeUnit(st, s), s') == Value(st, s') - if s' == s && Value(st, s) > 0 then 1 else 0
    {
      TakenValue(st, s, s');
    }
    hide Value;
  }

  lemma TakenValue(st: State, s: Sema, s': Sema)
    ensures Value(TakeUnit(st, s), s') == Value(st, s') - if s' == s && Value(st, s) > 0 then 1 else 0
  {
    if Value(st, s) > 0 {
      var value := st.value[s := Value(st, s) - 1];
      assert TakeUnit(st, s).value == value;
      if s' != s {
        assert s' in value <==> s' in st.value;
      }
    }
  }

  lemma TryDownPlainKeeps(st: State, t: Tid, s: Sema)
    requires Inv(st) && st.running == Some(t) && Th(st, t).pc == Out && s.Plain?
    ensures Inv(TryDown(st, t, s, Out))
  {
    if Value(st, s) > 0 {
      var st' := TryDown(st, t, s, Out);
      assert Th(st', t) == Th(st, t);
      PlainMove(st, st', t);
      LocksFrame(st, st', t);
      SameConds(st, st');
    }
  }

  lemma EnterKeeps(st: State, t: Tid, call: Call)
    requires Inv(st) && Enabled(st, Enter(call)) && st.running == Some(t)
    ensures Inv(EnterCall(st, t, call))
  {
    var st' := EnterCall(st, t, call);
    assert WaiterOk(st, t) && SignallerOk(st, t);
    match call
    case CallTryDown(id, init) => TryDownPlainKeeps(st, t, Plain(id, init));
    case CallUp(id, init) => UpKeeps(st, Plain(id, init));
    case CallTryAcquire(l) =>
      if Value(st, OfLock(l)) > 0 {
        TryDownKeeps(st, t, l);
      }
    case _ => GotoKeeps(st, st', t, Th(st', t).pc);
  }

  lemma DownKeeps(st: State, t: Tid, s: Sema)
    requires Inv(st) && st.running == Some(t) && s.Plain? && Th(st, t).pc == SemaDown(s.id, s.init)
    ensures Inv(TestDown(st, t, s, Out))
  {
    var st' := TestDown(st, t, s, Out);
    TestDownPlaced(st, t, s, Out);
    TestDownWakeful(st, t, s, Out);
    TestDownView(st, t, s, Out);
    LocksFrame(st, st', t);
    assert WaiterOk(st, t) && SignallerOk(st, t);
    CondsFrame(st, st', t);
  }

  lemma AcquireKeeps(st: State, t: Tid, l: Lid, w: bool)
    requires Inv(st) && st.running == Some(t) && Th(st, t).pc == AcqDown(l, w)
    ensures Inv(RunStep(st, t))
  {
    hide Placed, Wakeful, LocksOk, TestDown;
    var s, next := OfLock(l), AcqSet(l, w);
    var st1 := TestDown(st, t, s, next);
    TestDownPlaced(st, t, s, next);
    TestDownWakeful(st, t, s, next);
    TestDownView(st, t, s, next);
    assert CondsOk(st1) by {
      assert WaiterOk(st, t) && SignallerOk(st, t);
      CondsFrame(st, st1, t);
    }
    if Value(st, s) == 0 {
      LocksFrame(st, st1, t);
    } else {
      AcquireTaken(st, st1, t, l, w);
    }
  }

  lemma AcquireTaken(st: State, st1: State, t: Tid, l: Lid, w: bool)
    requires LocksOk(st) && Th(st, t).pc == AcqDown(l, w) && Value(st, OfLock(l)) > 0
    requires Placed(st1) && Wakeful(st1) && CondsOk(st1)
    requires st1.holder == st.holder && st1.owners == st.owners && Th(st1, t).pc == AcqSet(l, w) &&
             OthersSame(st, st1, t)
    requires forall s' :: Value(st1, s') == Value(st, s') - if s' == OfLock(l) then 1 else 0
    ensures Inv(Own(st1, t, l, true))
  {
    var st' := Own(st1, t, l, true);
    OwnKeeps(st1, st');
    LocksTake(st, st', t, l, w);
  }

  /** Ownership is history: it matters to the lock invariant only. */
  lemma OwnKeeps(st: State, st': State)
    requires Placed(st) && Wakeful(st) && CondsOk(st) && st' == st.(owners := st'.owners)
    ensures Placed(st') && Wakeful(st') && CondsOk(st')
  {
    SamePlaces(st, st');
    SameWakeful(st, st');
    SameConds(st, st');
  }

  lemma SameWakeful(st: State, st': State)
    requires Wakeful(st) && st'.threads == st.threads
    requires forall s :: Waiters(st', s) == Waiters(st, s) && Value(st', s) == Value(st, s)
    ensures Wakeful(st')
  {
    RetestFrame(st, st');
    forall s ensures WakeOk(st', s) {
      assert WakeOk(st, s);
      WakeOkMono(st, st', s);
    }
  }

  lemma SetHolderKeeps(st: State, t: Tid, l: Lid, w: bool)
    requires Inv(st) && st.running == Some(t) && Th(st, t).pc == AcqSet(l, w)
    ensures Inv(RunStep(st, t))
  {
    var st' := RunStep(st, t);
    PlainMove(st, st', t);
    assert LockOk(st, l);
    LocksMark(st, st', t, l);
    assert WaiterOk(st, t) && SignallerOk(st, t);
    CondsFrame(st, st', t);
  }

  lemma ReleaseClearKeeps(st: State, t: Tid, l: Lid)
    requires Inv(st) && st.running == Some(t) && Th(st, t).pc == RelClear(l)
    ensures Inv(RunStep(st, t))
  {
    var st' := RunStep(st, t);
    PlainMove(st, st', t);
    assert LockOk(st, l);
    LocksMark(st, st', t, l);
    assert CondsOk(st') by {
      assert WaiterOk(st, t) && SignallerOk(st, t);
      CondsFrame(st, st', t);
    }
  }

  lemma WaitClearKeeps(st: State, t: Tid, c: Cond)
    requires Inv(st) && st.running == Some(t) && Th(st, t).pc == WaitClear(c)
    ensures Inv(RunStep(st, t))
  {
    var st' := RunStep(st, t);
    PlainMove(st, st', t);
    assert LockOk(st, c.lock);
    LocksMark(st, st', t, c.lock);
    assert CondsOk(st') by {
      assert WaiterOk(st, t) && SignallerOk(st, t);
      WaiterMoves(st, st', t);
      CondsFrame(st, st', t);
    }
  }

  /** A waiter that moves on within `cond_wait` is as well off as before. */
  lemma WaiterMoves(st: State, st': State, t: Tid)
    requires WaiterOk(st, t) && Waiting(Th(st, t).pc).Some? && Waiting(Th(st', t).pc) == Waiting(Th(st, t).pc)
    requires st'.condq == st.condq && Value(st', OfWaiter(t)) == Value(st, OfWaiter(t)) &&
             Th(st', t).signals == Th(st, t).signals
    requires forall u: Tid :: u != t ==> Th(st', u).pc == Th(st, u).pc
    ensures WaiterOk(st', t)
  {
    forall u ensures Signalling(st', u, t) == Signalling(st, u, t) { }
    if u :| Signalling(st, u, t) {
      assert Signalling(st', u, t);
    }
  }

  /** Moving the running thread and then calling `sema_up`: placement and wake-ups. */
  lemma MoveThenUp(st: State, t: Tid, next: PC, s: Sema)
    requires Placed(st) && Wakeful(st) && st.running == Some(t) && DownOf(Th(st, t).pc, t) == None
    ensures var st' := Up(Goto(st, t, next), s);
            && Placed(st') && Wakeful(st')
            && st'.holder == st.holder && st'.owners == st.owners
            && st'.condq == st.condq && st'.enqueued == st.enqueued && st'.popped == st.popped
            && OthersSame(st, st', t) && Th(st', t).ticket == Th(st, t).ticket &&
              Th(st', t).signals == Th(st, t).signals
            && Th(st', t).pc == next
            && (forall s' :: Value(st', s') == Value(st, s') + if s' == s then 1 else 0)
  {
    var st1 := Goto(st, t, next);
    PlainMove(st, st1, t);
    UpPlaced(st1, s);
    UpWakeful(st1, s);
    UpView(st1, s);
  }

  lemma GiveKeeps(st: State, t: Tid, l: Lid, next: PC)
    requires Inv(st) && st.running == Some(t) && Between(Th(st, t).pc, l)
    requires (Th(st, t).pc == RelUp(l) && next == Out) || (Th(st, t).pc.WaitUp? && next == WaitDown(Th(st, t).pc.c))
    ensures Inv(Disown(Up(Goto(st, t, next), OfLock(l)), t, l))
  {
    MoveThenUp(st, t, next, OfLock(l));
    var st2 := Up(Goto(st, t, next), OfLock(l));
    assert CondsOk(st2) by {
      assert WaiterOk(st, t) && SignallerOk(st, t);
      if Th(st, t).pc.WaitUp? {
        WaiterMoves(st, st2, t);
      }
      CondsFrame(st, st2, t);
    }
    GiveDisowned(st, st2, t, l);
  }

  lemma GiveDisowned(st: State, st2: State, t: Tid, l: Lid)
    requires LocksOk(st) && Between(Th(st, t).pc, l) && Placed(st2) && Wakeful(st2) && CondsOk(st2)
    requires st2.holder == st.holder && st2.owners == st.owners && OthersSame(st, st2, t)
    requires Th(st2, t).pc == Out || Th(st2, t).pc.WaitDown?
    requires forall s' :: Value(st2, s') == Value(st, s') + if s' == OfLock(l) then 1 else 0
    ensures Inv(Disown(st2, t, l))
  {
    OwnKeeps(st2, Disown(st2, t, l));
    LocksGive(st, Disown(st2, t, l), t, l);
  }

  lemma Front(q: seq<Tid>)
    ensures q != [] ==> q[0] in q
  {
  }

  lemma EnqueueKeeps(st: State, t: Tid, c: Cond)
    requires Inv(st) && st.running == Some(t) && Th(st, t).pc == WaitEnq(c)
    ensures Inv(RunStep(st, t))
  {
    var st' := RunStep(st, t);
    assert QueueOk(st, OfWaiter(t));
    Front(Waiters(st, OfWaiter(t)));
    PlainMove(st, st', t);
    assert LockOk(st, c.lock);
    LocksFrame(st, st', t);
    CondsEnqueue(st, t, c);
  }

  lemma WaitDownKeeps(st: State, t: Tid, c: Cond)
    requires Inv(st) && st.running == Some(t) && Th(st, t).pc == WaitDown(c)
    ensures Inv(RunStep(st, t))
  {
    var s, next := OfWaiter(t), AcqDown(c.lock, true);
    var st' := TestDown(st, t, s, next);
    TestDownPlaced(st, t, s, next);
    TestDownWakeful(st, t, s, next);
    TestDownView(st, t, s, next);
    LocksFrame(st, st', t);
    if Value(st, s) == 0 {
      SameConds(st, st');
    } else {
      CondsWoken(st, st', t, c);
    }
  }

  lemma PopKeeps(st: State, t: Tid, c: Cond, all: bool, upto: nat)
    requires Inv(st) && st.running == Some(t) && Th(st, t).pc == SigPop(c, all, upto)
    ensures Inv(RunStep(st, t))
  {
    if CondQ(st, c) == [] {
      assert WaiterOk(st, t) && SignallerOk(st, t);
      GotoKeeps(st, RunStep(st, t), t, Out);
    } else {
      assert CondsOk(RunStep(st, t)) by { CondsPop(st, t, c, all, upto); }
      PopPlaces(st, t, c, all, upto);
    }
  }

  lemma PopPlaces(st: State, t: Tid, c: Cond, all: bool, upto: nat)
    requires Inv(st) && st.running == Some(t) && Th(st, t).pc == SigPop(c, all, upto) && CondQ(st, c) != []
    ensures var st' := PopWaiter(st, t, c, all, upto); Placed(st') && Wakeful(st') && LocksOk(st')
  {
    var st' := PopWaiter(st, t, c, all, upto);
    assert LockOk(st, c.lock) && CondOk(st, c) && CondQ(st, c)[0] in CondQ(st, c);
    PopView(st, t, c, all, upto);
    PlainMove(st, st', t);
    LocksFrame(st, st', t);
  }

  lemma SignalKeeps(st: State, t: Tid, c: Cond, all: bool, upto: nat, w: Tid)
    requires Inv(st) && st.running == Some(t) && Th(st, t).pc == SigUp(c, all, upto, w)
    ensures Inv(RunStep(st, t))
  {
    var next := if all then SigPop(c, all, upto) else Out;
    MoveThenUp(st, t, next, OfWaiter(w));
    var st' := Up(Goto(st, t, next), OfWaiter(w));
    assert LocksOk(st') by {
      assert LockOk(st, c.lock);
      LocksFrame(st, st', t);
    }
    CondsSigUp(st, st', t, c, all, upto, w);
  }

  /** Every transition of the running thread keeps the invariant. */
  lemma RunKeeps(st: State, t: Tid)
    requires Inv(st) && st.running == Some(t)
    ensures Inv(RunStep(st, t))
  {
    match Th(st, t).pc
    case Out =>
    case SemaDown(id, init) => DownKeeps(st, t, Plain(id, init));
    case AcqDown(l, w) => AcquireKeeps(st, t, l, w);
    case AcqSet(l, w) => SetHolderKeeps(st, t, l, w);
    case RelClear(l) => ReleaseClearKeeps(st, t, l);
    case RelUp(l) => GiveKeeps(st, t, l, Out);
    case WaitEnq(c) => EnqueueKeeps(st, t, c);
    case WaitClear(c) => WaitClearKeeps(st, t, c);
    case WaitUp(c) => GiveKeeps(st, t, c.lock, WaitDown(c));
    case WaitDown(c) => WaitDownKeeps(st, t, c);
    case SigPop(c, all, upto) => PopKeeps(st, t, c, all, upto);
    case SigUp(c, all, upto, w) => SignalKeeps(st, t, c, all, upto, w);
  }

  /** Scheduling changes nobody's program counter. */
  lemma StatusOnly(st: State, st': State)
    requires LocksOk(st) && CondsOk(st) && st'.value == st.value && st'.holder == st.holder && st'.owners == st.owners
    requires st'.condq == st.condq && st'.enqueued == st.enqueued && st'.popped == st.popped
    requires forall u: Tid :: Th(st', u).pc == Th(st, u).pc && Th(st', u).ticket == Th(st, u).ticket &&
                              Th(st', u).signals == Th(st, u).signals
    ensures LocksOk(st') && CondsOk(st')
  {
    LocksFrame(st, st', 0);
    SameConds(st, st');
  }

  lemma YieldKeeps(st: State)
    requires Inv(st)
    ensures Inv(Yield(st))
  {
    YieldPlaced(st);
    YieldWakeful(st);
    YieldView(st);
    StatusOnly(st, Yield(st));
  }

  lemma YieldView(st: State)
    ensures var st' := Yield(st);
            && st'.value == st.value && st'.holder == st.holder && st'.owners == st.owners
            && st'.condq == st.condq && st'.enqueued == st.enqueued && st'.popped == st.popped
            && (forall u: Tid :: Th(st', u) == Th(st, u).(status := Th(st', u).status))
  {
    if st.running.None? {
      ScheduleView(st);
    } else {
      var t := st.running.value;
      var st1 := SetThread(st, t, Th(st, t).(status := Ready)).(ready := st.ready + [t]);
      assert forall u: Tid :: Th(st1, u) == Th(st, u).(status := Th(st1, u).status);
      ScheduleView(st1);
    }
  }

  lemma ExitKeeps(st: State, t: Tid)
    requires Inv(st) && st.running == Some(t) && Th(st, t).pc == Out
    ensures Inv(Schedule(SetThread(st, t, Th(st, t).(status := Dying))))
  {
    var st1 := SetThread(st, t, Th(st, t).(status := Dying));
    assert ReadyOk(st1);
    forall s ensures QueueOk(st1, s) {
      assert QueueOk(st, s);
    }
    SchedulePlaced(st1);
    assert Wakeful(st1) by {
      RetestFrame(st, st1);
      forall s ensures WakeOk(st1, s) {
        assert WakeOk(st, s);
        WakeOkMono(st, st1, s);
      }
    }
    ScheduleWakeful(st1);
    StatusOnly(st, st1);
    ScheduleView(st1);
    StatusOnly(st1, Schedule(st1));
  }

  lemma SpawnKeeps(st: State, t: Tid)
    requires Inv(st) && t !in st.threads
    ensures Inv(SetThread(st, t, Th(st, t).(status := Ready)).(ready := st.ready + [t]))
  {
    var st' := SetThread(st, t, Th(st, t).(status := Ready)).(ready := st.ready + [t]);
    PushNoDup(st.ready, t);
    forall s ensures QueueOk(st', s) {
      assert QueueOk(st, s);
    }
    assert Wakeful(st') by {
      RetestFrame(st, st');
      forall s ensures WakeOk(st', s) {
        assert WakeOk(st, s);
        WakeOkMono(st, st', s);
      }
    }
    StatusOnly(st, st');
  }

  lemma NextKeeps(st: State, e: Event)
    requires Inv(st) && Enabled(st, e)
    ensures Inv(Next(st, e))
  {
    match e
    case Enter(call) => EnterKeeps(st, st.running.value, call);
    case Run => RunKeeps(st, st.running.value);
    case Timer => YieldKeeps(st);
    case InterruptUp(id, init) => UpKeeps(st, Plain(id, init));
    case InterruptTry(id, init) => TakeUnitKeeps(st, Plain(id, init));
    case Spawn(t) => SpawnKeeps(st, t);
    case Exit => ExitKeeps(st, st.running.value);
  }

  // ---- what holds over every run ------------------------------------------------------------

  lemma {:induction false} RunsKeepInv(tr: seq<State>, es: seq<Event>, i: nat)
    requires IsRun(tr, es) && i < |tr|
    ensures Inv(tr[i])
  {
    if i > 0 {
      RunsKeepInv(tr, es, i - 1);
      NextKeeps(tr[i - 1], es[i - 1]);
    }
  }

  /**
   A lock has at most one owner; `holder`, when set, is that owner; and the semaphore holds the
   unit exactly when there is none.
   */
  lemma MutualExclusion(tr: seq<State>, es: seq<Event>, i: nat, l: Lid)
    requires IsRun(tr, es) && i < |tr|
    ensures Value(tr[i], OfLock(l)) + |Owners(tr[i], l)| == 1
    ensures forall t, u :: t in Owners(tr[i], l) && u in Owners(tr[i], l) ==> t == u
    ensures forall t: Tid :: Holder(tr[i], l) == Some(t) ==> Owners(tr[i], l) == {t}
    ensures forall t :: t in Owners(tr[i], l) && Th(tr[i], t).pc == Out ==> Holder(tr[i], l) == Some(t)
  {
    RunsKeepInv(tr, es, i);
    assert LockOk(tr[i], l);
    forall t | t in Owners(tr[i], l) ensures Owners(tr[i], l) == {t} {
      OnlyOwner(tr[i], l, t);
    }
  }

  /** If threads sleep on a semaphore that has a unit, some woken, runnable thread is about to test it. */
  lemma NoLostWakeup(tr: seq<State>, es: seq<Event>, i: nat, s: Sema) returns (t: Tid)
    requires IsRun(tr, es) && i < |tr|
    requires Waiters(tr[i], s) != [] && Value(tr[i], s) > 0
    ensures Value(tr[i], s) <= |Retesting(tr[i], s)|
    ensures DownOf(Th(tr[i], t).pc, t) == Some(s) && Th(tr[i], t).retest && Th(tr[i], t).status in {Ready, Running}
  {
    RunsKeepInv(tr, es, i);
    assert WakeOk(tr[i], s);
    assert Retesting(tr[i], s) != {};
    t :| t in Retesting(tr[i], s);
    assert RetestFine(Th(tr[i], t), t);
  }

  /**
   A thread's list element is never on two lists, nor twice on one, and `sema_up` only ever
   unblocks a blocked thread.
   */
  lemma ElementOnOneList(tr: seq<State>, es: seq<Event>, i: nat, t: Tid)
    requires IsRun(tr, es) && i < |tr|
    ensures t in tr[i].ready ==> forall s :: t !in Waiters(tr[i], s)
    ensures forall s, s' :: t in Waiters(tr[i], s) && t in Waiters(tr[i], s') ==> s == s'
    ensures NoDup(tr[i].ready) && forall s :: NoDup(Waiters(tr[i], s))
    ensures forall s :: t in Waiters(tr[i], s) ==> Th(tr[i], t).status == Blocked
  {
    RunsKeepInv(tr, es, i);
    forall s
      ensures NoDup(Waiters(tr[i], s))
      ensures t in Waiters(tr[i], s) ==> Th(tr[i], t).status == Blocked && DownOf(Th(tr[i], t).pc, t) == Some(s)
    {
      assert QueueOk(tr[i], s);
    }
  }

  /**
   A thread gets past its waiter semaphore only after exactly one signal was popped for its
   own queue entry, and when `cond_wait` returns it is the lock's holder.
   */
  lemma WaitReturns(tr: seq<State>, es: seq<Event>, i: nat, t: Tid, l: Lid)
    requires IsRun(tr, es) && i < |es| && Th(tr[i], t).pc == AcqSet(l, true) && Th(tr[i + 1], t).pc == Out
    ensures Holder(tr[i + 1], l) == Some(t) && Owners(tr[i + 1], l) == {t} && Th(tr[i + 1], t).signals == 1
  {
    RunsKeepInv(tr, es, i);
    RunsKeepInv(tr, es, i + 1);
    assert LockOk(tr[i], l) && LockOk(tr[i + 1], l) && WaiterOk(tr[i], t);
    OnlyPcStep(tr[i], es[i], t);
    assert Holder(tr[i + 1], l) == Some(t);
    OnlyOwner(tr[i + 1], l, t);
  }

  /** Only its own transitions move a thread's program counter. */
  lemma OnlyPcStep(st: State, e: Event, t: Tid)
    requires Inv(st) && Enabled(st, e) && Th(st, t).pc != Out && Th(Next(st, e), t).pc != Th(st, t).pc
    ensures e == Run && st.running == Some(t)
  {
    hide Inv, Up, Yield, Schedule, EnterCall, RunStep;
    match e
    case Enter(call) => EnterOthersPc(st, st.running.value, call, t);
    case Run =>
      if st.running.value != t {
        RunOthersPc(st, st.running.value, t);
      }
    case Timer => YieldView(st);
    case InterruptUp(id, init) => UpView(st, Plain(id, init));
    case InterruptTry(_, _) =>
    case Spawn(_) =>
    case Exit => ScheduleView(SetThread(st, st.running.value, Th(st, st.running.value).(status := Dying)));
  }

  lemma EnterOthersPc(st: State, u: Tid, call: Call, t: Tid)
    requires u != t || call.CallUp?
    ensures Th(EnterCall(st, u, call), t).pc == Th(st, t).pc
  {
    if call.CallUp? {
      UpView(st, Plain(call.id, call.init));
    }
  }

  lemma RunOthersPc(st: State, u: Tid, t: Tid)
    requires u != t
    ensures Th(RunStep(st, u), t).pc == Th(st, t).pc
  {
    var pc := Th(st, u).pc;
    if DownOf(pc, u).Some? {
      RunOthersDown(st, u, t);
    } else if pc.RelUp? || pc.WaitUp? || pc.SigUp? {
      RunOthersUp(st, u, t);
    } else if pc.SigPop? {
      RunOthersPop(st, u, t);
    } else {
      AssignThreads(st, u);
    }
  }

  lemma RunOthersPop(st: State, u: Tid, t: Tid)
    requires u != t && Th(st, u).pc.SigPop?
    ensures Th(RunStep(st, u), t).pc == Th(st, t).pc
  {
    PopOthersPc(st, u, Th(st, u).pc.c, Th(st, u).pc.all, Th(st, u).pc.upto, t);
  }

  lemma AssignThreads(st: State, u: Tid)
    requires match Th(st, u).pc
             case AcqSet(_, _) => true case RelClear(_) => true case WaitEnq(_) => true case WaitClear(_) => true
             case Out => true
             case _ => false
    ensures forall t: Tid :: t != u ==> Th(RunStep(st, u), t) == Th(st, t)
  {
    match Th(st, u).pc
    case AcqSet(l, w) => assert RunStep(st, u).threads == st.threads[u := Th(st, u).(pc := Out)];
    case RelClear(l) => assert RunStep(st, u).threads == st.threads[u := Th(st, u).(pc := RelUp(l))];
    case WaitClear(c) => assert RunStep(st, u).threads == st.threads[u := Th(st, u).(pc := WaitUp(c))];
    case WaitEnq(c) => assert RunStep(st, u).threads ==
        st.threads[u := Th(st, u).(pc := WaitClear(c), ticket := Enqueued(st, c), signals := 0)];
    case Out =>
  }

  lemma RunOthersDown(st: State, u: Tid, t: Tid)
    requires u != t && DownOf(Th(st, u).pc, u).Some?
    ensures Th(RunStep(st, u), t).pc == Th(st, t).pc
  {
    match Th(st, u).pc
    case SemaDown(id, init) => DownOthersPc(st, u, Plain(id, init), Out, t);
    case AcqDown(l, w) => DownOthersPc(st, u, OfLock(l), AcqSet(l, w), t);
    case WaitDown(c) => DownOthersPc(st, u, OfWaiter(u), AcqDown(c.lock, true), t);
  }

  lemma RunOthersUp(st: State, u: Tid, t: Tid)
    requires u != t && (Th(st, u).pc.RelUp? || Th(st, u).pc.WaitUp? || Th(st, u).pc.SigUp?)
    ensures Th(RunStep(st, u), t).pc == Th(st, t).pc
  {
    match Th(st, u).pc
    case RelUp(l) => MoveUpOthersPc(st, u, Out, OfLock(l), t);
    case WaitUp(c) => MoveUpOthersPc(st, u, WaitDown(c), OfLock(c.lock), t);
    case SigUp(c, all, upto, w) => MoveUpOthersPc(st, u, if all then SigPop(c, all, upto) else Out, OfWaiter(w), t);
  }

  lemma DownOthersPc(st: State, u: Tid, s: Sema, next: PC, t: Tid)
    requires u != t
    ensures Th(TestDown(st, u, s, next), t).pc == Th(st, t).pc
  {
    TestDownView(st, u, s, next);
  }

  lemma MoveUpOthersPc(st: State, u: Tid, next: PC, s: Sema, t: Tid)
    requires u != t
    ensures Th(Up(Goto(st, u, next), s), t).pc == Th(st, t).pc
  {
    UpView(Goto(st, u, next), s);
  }

  lemma PopOthersPc(st: State, u: Tid, c: Cond, all: bool, upto: nat, t: Tid)
    requires u != t
    ensures CondQ(st, c) != [] ==> Th(PopWaiter(st, u, c, all, upto), t).pc == Th(st, t).pc
  {
  }

  /**
   A signal popped for a waiter is never lost: until the waiter takes it, it is either in
   the hands of the one signaller or stored in the waiter's semaphore, also if it arrives
   before the waiter's `sema_down`. A waiter's stack semaphore is signalled only while it exists.
   */
  lemma SignalIsKept(tr: seq<State>, es: seq<Event>, i: nat, t: Tid)
    requires IsRun(tr, es) && i < |tr|
    ensures Waiting(Th(tr[i], t).pc).Some? && Th(tr[i], t).signals > 0 ==>
              Value(tr[i], OfWaiter(t)) == 1 || exists u :: Signalling(tr[i], u, t)
    ensures Waiting(Th(tr[i], t).pc).Some? && Th(tr[i], t).signals == 0 ==> Value(tr[i], OfWaiter(t)) == 0
    ensures forall u :: Signalling(tr[i], u, t) ==> Waiting(Th(tr[i], t).pc) == Some(Th(tr[i], u).pc.c)
  {
    RunsKeepInv(tr, es, i);
    assert WaiterOk(tr[i], t);
    forall u | Signalling(tr[i], u, t) ensures Waiting(Th(tr[i], t).pc) == Some(Th(tr[i], u).pc.c) {
      assert SignallerOk(tr[i], u);
    }
  }

  /**
   The n-th signal on a condition goes to the n-th waiter: the front of the queue always holds
   the ticket equal to the number popped.
   */
  lemma SignalsAreFifo(tr: seq<State>, es: seq<Event>, i: nat, c: Cond, k: nat)
    requires IsRun(tr, es) && i < |tr| && k < |CondQ(tr[i], c)|
    ensures Th(tr[i], CondQ(tr[i], c)[k]).ticket == Popped(tr[i], c) + k
    ensures Popped(tr[i], c) + |CondQ(tr[i], c)| == Enqueued(tr[i], c)
  {
    RunsKeepInv(tr, es, i);
    assert CondOk(tr[i], c);
  }

  /** The call of thread `t` that began at step `i` is still going on after step `k`. */
  ghost predicate InCall(tr: seq<State>, i: nat, k: nat, t: Tid) {
    i < k < |tr| && forall j :: i < j <= k ==> Th(tr[j], t).pc != Out
  }

  /** In the loop of a broadcast on `c` that began when `upto` waits had been queued. */
  predicate Broadcasting(pc: PC, c: Cond, upto: nat) {
    match pc
    case SigPop(d, all, n) => d == c && all && n == upto
    case SigUp(d, all, n, _) => d == c && all && n == upto
    case _ => false
  }

  lemma BroadcastPop(st: State, t: Tid, c: Cond, upto: nat)
    requires CondsOk(st) && Th(st, t).pc == SigPop(c, true, upto)
    ensures var st' := RunStep(st, t);
            if CondQ(st, c) == [] then
              Th(st', t).pc == Out && st'.condq == st.condq && st'.popped == st.popped && st'.enqueued == st.enqueued
            else
              Th(st', t).pc == SigUp(c, true, upto, CondQ(st, c)[0])
  {
    if CondQ(st, c) != [] {
      assert CondOk(st, c) && CondQ(st, c)[0] in CondQ(st, c);
      PopView(st, t, c, true, upto);
    }
  }

  lemma BroadcastUp(st: State, t: Tid, c: Cond, upto: nat, w: Tid)
    requires Th(st, t).pc == SigUp(c, true, upto, w)
    ensures Th(RunStep(st, t), t).pc == SigPop(c, true, upto)
  {
    UpView(Goto(st, t, SigPop(c, true, upto)), OfWaiter(w));
  }

  /**
   Throughout a broadcast the thread stays in its loop, whatever else happens, until it returns
   with the queue empty.
   */
  lemma BroadcastNext(st: State, e: Event, t: Tid, c: Cond, upto: nat)
    requires Inv(st) && Enabled(st, e) && Broadcasting(Th(st, t).pc, c, upto)
    ensures var st' := Next(st, e);
            Broadcasting(Th(st', t).pc, c, upto) ||
            (Th(st', t).pc == Out && CondQ(st, c) == [] && st'.condq == st.condq && st'.popped == st.popped &&
              st'.enqueued == st.enqueued)
  {
    if Th(Next(st, e), t).pc != Th(st, t).pc {
      OnlyPcStep(st, e, t);
      if Th(st, t).pc.SigPop? {
        BroadcastPop(st, t, c, upto);
      } else {
        BroadcastUp(st, t, c, upto, Th(st, t).pc.target);
      }
    }
  }

  lemma {:induction false} BroadcastDuring(tr: seq<State>, es: seq<Event>, i: nat, k: nat, t: Tid, c: Cond)
    requires IsRun(tr, es) && i < |es| && es[i] == Enter(CallBroadcast(c)) && tr[i].running == Some(t)
    requires InCall(tr, i, k, t)
    ensures Broadcasting(Th(tr[k], t).pc, c, Enqueued(tr[i], c))
    decreases k
  {
    if k > i + 1 {
      BroadcastDuring(tr, es, i, k - 1, t, c);
      RunsKeepInv(tr, es, k - 1);
      BroadcastNext(tr[k - 1], es[k - 1], t, c, Enqueued(tr[i], c));
    } else {
      BroadcastStart(tr[i], t, c);
    }
  }

  lemma BroadcastStart(st: State, t: Tid, c: Cond)
    requires st.running == Some(t) && Enabled(st, Enter(CallBroadcast(c)))
    ensures Broadcasting(Th(Next(st, Enter(CallBroadcast(c))), t).pc, c, Enqueued(st, c))
  {
  }

  /** While a thread signals or broadcasts on `c`, nobody else can touch the queue: that takes the lock it holds. */
  lemma QueueStill(st: State, e: Event, t: Tid, c: Cond)
    requires Inv(st) && Enabled(st, e) && MustHold(Th(st, t).pc) == Some(c.lock) && !(e == Run && st.running == Some(t))
    ensures CondQ(Next(st, e), c) == CondQ(st, c)
  {
    hide Placed, Wakeful, CondsOk, Up, Yield, Schedule, RunStep, EnterCall;
    match e
    case Enter(call) => EnterQueue(st, st.running.value, call);
    case Run =>
      assert LockOk(st, c.lock);
      RunQueue(st, st.running.value, c);
    case Timer => YieldView(st);
    case InterruptUp(id, init) => UpView(st, Plain(id, init));
    case InterruptTry(_, _) =>
    case Spawn(_) =>
    case Exit => ScheduleView(SetThread(st, st.running.value, Th(st, st.running.value).(status := Dying)));
  }

  lemma EnterQueue(st: State, u: Tid, call: Call)
    ensures EnterCall(st, u, call).condq == st.condq
  {
    hide Up;
    if call.CallUp? { UpView(st, Plain(call.id, call.init)); }
  }

  /** Only a thread committed to holding the condition's lock changes its queue. */
  lemma RunQueue(st: State, u: Tid, c: Cond)
    requires MustHold(Th(st, u).pc) != Some(c.lock)
    ensures CondQ(RunStep(st, u), c) == CondQ(st, c)
  {
    hide RunStep;
    var pc := Th(st, u).pc;
    if DownOf(pc, u).Some? {
      RunQueueDown(st, u, c);
    } else if pc.RelUp? || pc.WaitUp? || pc.SigUp? {
      RunQueueUp(st, u, c);
    } else if pc.SigPop? {
      RunQueuePop(st, u, c);
    } else {
      RunQueueAssign(st, u, c);
    }
  }

  lemma RunQueuePop(st: State, u: Tid, c: Cond)
    requires Th(st, u).pc.SigPop? && Th(st, u).pc.c != c
    ensures CondQ(RunStep(st, u), c) == CondQ(st, c)
  {
    hide PopWaiter, CondQ;
    match Th(st, u).pc
    case SigPop(d, all, upto) => PopOtherQueue(st, u, d, all, upto, c);
  }

  lemma PopOtherQueue(st: State, u: Tid, d: Cond, all: bool, upto: nat, c: Cond)
    requires d != c
    ensures CondQ(st, d) != [] ==> CondQ(PopWaiter(st, u, d, all, upto), c) == CondQ(st, c)
    ensures forall pc :: CondQ(Goto(st, u, pc), c) == CondQ(st, c)
  {
  }

  lemma RunQueueAssign(st: State, u: Tid, c: Cond)
    requires match Th(st, u).pc
             case AcqSet(_, _) => true case RelClear(_) => true case WaitClear(_) => true case Out => true
             case WaitEnq(d) => d != c
             case _ => false
    ensures CondQ(RunStep(st, u), c) == CondQ(st, c)
  {
    hide Th, Up, TestDown, PopWaiter;
  }

  lemma RunQueueDown(st: State, u: Tid, c: Cond)
    requires DownOf(Th(st, u).pc, u).Some?
    ensures CondQ(RunStep(st, u), c) == CondQ(st, c)
  {
    hide TestDown;
    match Th(st, u).pc
    case SemaDown(id, init) => DownQueue(st, u, Plain(id, init), Out);
    case AcqDown(l, w) => DownQueue(st, u, OfLock(l), AcqSet(l, w));
    case WaitDown(d) => DownQueue(st, u, OfWaiter(u), AcqDown(d.lock, true));
  }

  lemma RunQueueUp(st: State, u: Tid, c: Cond)
    requires Th(st, u).pc.RelUp? || Th(st, u).pc.WaitUp? || Th(st, u).pc.SigUp?
    ensures CondQ(RunStep(st, u), c) == CondQ(st, c)
  {
    hide Up;
    match Th(st, u).pc
    case RelUp(l) => UpQueue(st, u, Out, OfLock(l));
    case WaitUp(d) => UpQueue(st, u, WaitDown(d), OfLock(d.lock));
    case SigUp(d, all, upto, w) => UpQueue(st, u, if all then SigPop(d, all, upto) else Out, OfWaiter(w));
  }

  lemma DownQueue(st: State, u: Tid, s: Sema, next: PC)
    ensures TestDown(st, u, s, next).condq == st.condq
  {
    TestDownView(st, u, s, next);
  }

  lemma UpQueue(st: State, u: Tid, next: PC, s: Sema)
    ensures Up(Goto(st, u, next), s).condq == st.condq
  {
    UpView(Goto(st, u, next), s);
  }

  /**
   The threads that `t` has called `sema_up` for in cond_signal or cond_broadcast, in the steps
   from `i` to before `k`.
   */
  function Signals(tr: seq<State>, es: seq<Event>, t: Tid, i: nat, k: nat): seq<Tid>
    requires k <= |es| < |tr|
    decreases k
  {
    if k <= i then [] else
    Signals(tr, es, t, i, k - 1) +
    (if es[k - 1] == Run && tr[k - 1].running == Some(t) &&
      Th(tr[k - 1], t).pc.SigUp? then [Th(tr[k - 1], t).pc.target] else [])
  }

  /** The thread that was taken off the queue and is about to be signalled, if any. */
  function InHand(pc: PC): seq<Tid> {
    if pc.SigUp? then [pc.target] else []
  }

  /** What has been signalled, what is about to be and what is still queued make up the queue at the call. */
  lemma {:induction false} BroadcastAccounts(tr: seq<State>, es: seq<Event>, i: nat, k: nat, t: Tid, c: Cond)
    requires IsRun(tr, es) && i < |es| && es[i] == Enter(CallBroadcast(c)) && tr[i].running == Some(t)
    requires InCall(tr, i, k, t)
    ensures Signals(tr, es, t, i, k) + InHand(Th(tr[k], t).pc) + CondQ(tr[k], c) == CondQ(tr[i], c)
    decreases k
  {
    hide Inv, CondQ, InHand, Broadcasting, Signals, InCall, Enqueued, Th, Next, Enabled;
    StillIn(tr, i, k, t);
    if k > i + 1 {
      BroadcastAccounts(tr, es, i, k - 1, t, c);
      BroadcastDuring(tr, es, i, k - 1, t, c);
      RunsKeepInv(tr, es, k - 1);
      AccountsStep(tr, es, i, k - 1, t, c, Enqueued(tr[i], c));
    } else {
      AccountsStart(tr, es, i, t, c);
    }
  }

  lemma StillIn(tr: seq<State>, i: nat, k: nat, t: Tid)
    requires InCall(tr, i, k, t)
    ensures i < k < |tr| && Th(tr[k], t).pc != Out && (k > i + 1 ==> InCall(tr, i, k - 1, t))
  {
  }

  lemma AccountsStart(tr: seq<State>, es: seq<Event>, i: nat, t: Tid, c: Cond)
    requires IsRun(tr, es) && i < |es| && es[i] == Enter(CallBroadcast(c)) && tr[i].running == Some(t)
    ensures Signals(tr, es, t, i, i + 1) + InHand(Th(tr[i + 1], t).pc) + CondQ(tr[i + 1], c) == CondQ(tr[i], c)
  {
    assert Signals(tr, es, t, i, i) == [];
    assert [] + [] + CondQ(tr[i], c) == CondQ(tr[i], c);
  }

  /** One step of the broadcast, or of anybody else, moves at most one thread along. */
  lemma AccountsStep(tr: seq<State>, es: seq<Event>, i: nat, k: nat, t: Tid, c: Cond, upto: nat)
    requires IsRun(tr, es) && i < k < |es| && Inv(tr[k]) && Broadcasting(Th(tr[k], t).pc, c, upto) &&
             Th(tr[k + 1], t).pc != Out
    ensures Signals(tr, es, t, i, k + 1) + InHand(Th(tr[k + 1], t).pc) + CondQ(tr[k + 1], c) ==
            Signals(tr, es, t, i, k) + InHand(Th(tr[k], t).pc) + CondQ(tr[k], c)
  {
    hide Placed, Wakeful, LocksOk, Up, Yield, Schedule, PopWaiter;
    var st, e := tr[k], es[k];
    var done := Signals(tr, es, t, i, k);
    if e == Run && st.running == Some(t) {
      if Th(st, t).pc.SigPop? {
        BroadcastPop(st, t, c, upto);
        PoppedFront(st, t, c, upto);
        assert done + [] + CondQ(st, c) == done + [CondQ(st, c)[0]] + CondQ(st, c)[1..];
      } else {
        var w := Th(st, t).pc.target;
        BroadcastUp(st, t, c, upto, w);
        UpView(Goto(st, t, SigPop(c, true, upto)), OfWaiter(w));
        assert done + [w] + CondQ(st, c) == (done + [w]) + [] + CondQ(st, c);
      }
    } else {
      QueueStill(st, e, t, c);
      if Th(tr[k + 1], t).pc != Th(st, t).pc {
        OnlyPcStep(st, e, t);
        assert false;
      }
      assert done + [] == done;
    }
  }

  lemma PoppedFront(st: State, t: Tid, c: Cond, upto: nat)
    requires Th(st, t).pc == SigPop(c, true, upto) && CondQ(st, c) != []
    ensures CondQ(RunStep(st, t), c) == CondQ(st, c)[1..]
  {
  }

  /**
   A broadcast, from call to return, calls `sema_up` for exactly the threads that were queued
   when it was called, each once and in the order of the queue, which it leaves empty.
   */
  lemma BroadcastIsExact(tr: seq<State>, es: seq<Event>, i: nat, k: nat, t: Tid, c: Cond)
    requires IsRun(tr, es) && i < k < |es| && es[i] == Enter(CallBroadcast(c)) && tr[i].running == Some(t)
    requires InCall(tr, i, k, t) && Th(tr[k + 1], t).pc == Out
    ensures Signals(tr, es, t, i, k + 1) == CondQ(tr[i], c) && NoDup(CondQ(tr[i], c))
    ensures Popped(tr[k + 1], c) == Enqueued(tr[i], c) == Enqueued(tr[k + 1], c)
    ensures CondQ(tr[k + 1], c) == []
  {
    hide Inv, Broadcasting, InCall, Next, Enabled, CondQ, Popped, Enqueued, Th, Signals, NoDup;
    BroadcastDuring(tr, es, i, k, t, c);
    BroadcastAccounts(tr, es, i, k, t, c);
    RunsKeepInv(tr, es, i);
    RunsKeepInv(tr, es, k);
    QueueNoDup(tr[i], c);
    Returns(tr[k], es[k], t, c, Enqueued(tr[i], c));
    LastSignal(tr, es, t, i, k);
    assert Signals(tr, es, t, i, k) + [] + [] == Signals(tr, es, t, i, k);
  }

  lemma QueueNoDup(st: State, c: Cond)
    requires Inv(st)
    ensures NoDup(CondQ(st, c))
  {
    assert CondOk(st, c);
  }

  lemma LastSignal(tr: seq<State>, es: seq<Event>, t: Tid, i: nat, k: nat)
    requires i < k < |es| < |tr| && !Th(tr[k], t).pc.SigUp?
    ensures Signals(tr, es, t, i, k + 1) == Signals(tr, es, t, i, k)
  {
  }

  /** It is from the loop test that a broadcast returns, with the queue empty. */
  lemma Returns(st: State, e: Event, t: Tid, c: Cond, upto: nat)
    requires Inv(st) && Enabled(st, e) && Broadcasting(Th(st, t).pc, c, upto) && Th(Next(st, e), t).pc == Out
    ensures Th(st, t).pc == SigPop(c, true, upto) && CondQ(st, c) == CondQ(Next(st, e), c) == []
    ensures Popped(Next(st, e), c) == upto == Enqueued(Next(st, e), c)
  {
    hide Placed, Wakeful, LocksOk;
    OnlyPcStep(st, e, t);
    BroadcastNext(st, e, t, c, upto);
    assert SignallerOk(st, t) && CondOk(st, c);
    if Th(st, t).pc.SigUp? {
      BroadcastUp(st, t, c, upto, Th(st, t).pc.target);
    }
  }
}
