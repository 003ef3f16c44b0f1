/**
 What the calls of the synchronisation primitives achieve, from the call to its return, in
 whatever else happens meanwhile: the units that semaphores gain and lose, who is woken and
 who goes to sleep, which calls give and take which units, and the order of the ready list.
 */
module SynchCalls {
  import opened Options
  import opened Synch

  // ---- units ---------------------------------------------------------------------------------------

  /** A `sema_up` or a successful `sema_down` or `sema_try_down`. */
  datatype Act = Give(s: Sema) | Take(s: Sema)

  /** What a thread that goes from `pc` to `pc'` by its own transition has done. */
  function MoveAct(pc: PC, pc': PC, t: Tid): seq<Act> {
    match pc
    case RelUp(l) => [Give(OfLock(l))]
    case WaitUp(c) => [Give(OfLock(c.lock))]
    case SigUp(_, _, _, w) => [Give(OfWaiter(w))]
    case _ => if DownOf(pc, t).Some? && pc' != pc then [Take(DownOf(pc, t).value)] else []
  }

  /** What thread `t` does in the step from `st` to `st'`. */
  function ActOf(st: State, e: Event, st': State, t: Tid): seq<Act> {
    if st.running != Some(t) then [] else
    match e
    case Run => MoveAct(Th(st, t).pc, Th(st', t).pc, t)
    case Enter(CallUp(id, init)) => [Give(Plain(id, init))]
    case Enter(CallTryDown(id, init)) => if Value(st, Plain(id, init)) > 0 then [Take(Plain(id, init))] else []
    case Enter(CallTryAcquire(l)) => if Value(st, OfLock(l)) > 0 then [Take(OfLock(l))] else []
    case _ => []
  }

  /** The step gives `s` a unit, or takes one, by a thread or by an interrupt handler. */
  predicate Gives(st: State, e: Event, st': State, s: Sema) {
    || (st.running.Some? && Give(s) in ActOf(st, e, st', st.running.value))
    || (s.Plain? && e == InterruptUp(s.id, s.init))
  }

  predicate Takes(st: State, e: Event, st': State, s: Sema) {
    || (st.running.Some? && Take(s) in ActOf(st, e, st', st.running.value))
    || (s.Plain? && e == InterruptTry(s.id, s.init) && Value(st, s) > 0)
  }

  /** `sema_init` of the semaphore on a waiter's stack. */
  predicate Renews(st: State, e: Event, s: Sema) {
    s.OfWaiter? && e == Run && st.running == Some(s.t) && Th(st, s.t).pc.WaitEnq?
  }

  /** Every step changes a semaphore's value by exactly the units it gives and takes. */
  lemma UnitStep(st: State, e: Event, s: Sema)
    requires Enabled(st, e)
    ensures var st' := Next(st, e);
            Value(st', s) == if Renews(st, e, s) then 0
                             else Value(st, s) + (if Gives(st, e, st', s) then 1
                                 else 0) - (if Takes(st, e, st', s) then 1 else 0)
  {
    hide Up, Yield, Schedule, EnterCall, RunStep, TakeUnit, MoveAct;
    match e
    case Enter(call) => EnterUnits(st, st.running.value, call, s);
    case Run => RunUnits(st, st.running.value, s);
    case Timer => YieldView(st);
    case InterruptUp(id, init) => UpView(st, Plain(id, init));
    case InterruptTry(id, init) => TakenValue(st, Plain(id, init), s);
    case Spawn(_) =>
    case Exit => ScheduleView(SetThread(st, st.running.value, Th(st, st.running.value).(status := Dying)));
  }

  lemma EnterUnits(st: State, t: Tid, call: Call, s: Sema)
    requires st.running == Some(t)
    ensures var acts := ActOf(st, Enter(call), EnterCall(st, t, call), t);
            Value(EnterCall(st, t, call), s) ==
                Value(st, s) + (if Give(s) in acts then 1 else 0) - (if Take(s) in acts then 1 else 0)
  {
    hide Up, TakeUnit;
    match call
    case CallUp(id, init) => UpView(st, Plain(id, init));
    case CallTryDown(id, init) => TakenValue(st, Plain(id, init), s);
    case CallTryAcquire(l) => TakenValue(st, OfLock(l), s);
    case _ =>
  }

  lemma RunUnits(st: State, t: Tid, s: Sema)
    requires st.running == Some(t)
    ensures var st' := RunStep(st, t);
            var acts := MoveAct(Th(st, t).pc, Th(st', t).pc, t);
            Value(st', s) == if Th(st, t).pc.WaitEnq? && s == OfWaiter(t) then 0
                             else Value(st, s) + (if Give(s) in acts then 1 else 0) - (if Take(s) in acts then 1 else 0)
  {
    hide RunStep, Value;
    var pc := Th(st, t).pc;
    if DownOf(pc, t).Some? {
      DownUnits(st, t, s);
    } else if pc.RelUp? || pc.WaitUp? || pc.SigUp? {
      UpUnits(st, t, s);
    } else if pc.SigPop? {
      PopUnits(st, t, s);
    } else {
      AssignUnits(st, t, s);
    }
  }

  lemma DownUnits(st: State, t: Tid, s: Sema)
    requires DownOf(Th(st, t).pc, t).Some?
    ensures var st', d := RunStep(st, t), DownOf(Th(st, t).pc, t).value;
            && Value(st', s) == Value(st, s) - (if s == d && Value(st, d) > 0 then 1 else 0)
            && (Th(st', t).pc != Th(st, t).pc <==> Value(st, d) > 0)
  {
    hide TestDown, Value;
    match Th(st, t).pc
    case SemaDown(id, init) => TestDownView(st, t, Plain(id, init), Out);
    case AcqDown(l, w) =>
      TestDownView(st, t, OfLock(l), AcqSet(l, w));
      OwnView(TestDown(st, t, OfLock(l), AcqSet(l, w)), t, l, Value(st, OfLock(l)) > 0, s);
    case WaitDown(c) => TestDownView(st, t, OfWaiter(t), AcqDown(c.lock, true));
  }

  lemma OwnView(st: State, t: Tid, l: Lid, took: bool, s: Sema)
    ensures Own(st, t, l, took).threads == Disown(st, t, l).threads == st.threads
    ensures Value(Own(st, t, l, took), s) == Value(Disown(st, t, l), s) == Value(st, s)
  {
  }

  lemma UpUnits(st: State, t: Tid, s: Sema)
    requires Th(st, t).pc.RelUp? || Th(st, t).pc.WaitUp? || Th(st, t).pc.SigUp?
    ensures Value(RunStep(st, t), s) ==
              Value(st, s) + (if Give(s) in MoveAct(Th(st, t).pc, Th(RunStep(st, t), t).pc, t) then 1 else 0)
  {
    hide Up, Value;
    match Th(st, t).pc
    case RelUp(l) =>
      MovedUp(st, t, Out, OfLock(l), s);
      OwnView(Up(Goto(st, t, Out), OfLock(l)), t, l, true, s);
    case WaitUp(c) =>
      MovedUp(st, t, WaitDown(c), OfLock(c.lock), s);
      OwnView(Up(Goto(st, t, WaitDown(c)), OfLock(c.lock)), t, c.lock, true, s);
    case SigUp(c, all, upto, w) => MovedUp(st, t, if all then SigPop(c, all, upto) else Out, OfWaiter(w), s);
  }

  lemma MovedUp(st: State, t: Tid, next: PC, d: Sema, s: Sema)
    ensures Value(Up(Goto(st, t, next), d), s) == Value(st, s) + if s == d then 1 else 0
  {
    hide Up;
    UpView(Goto(st, t, next), d);
  }

  lemma PopUnits(st: State, t: Tid, s: Sema)
    requires Th(st, t).pc.SigPop?
    ensures Value(RunStep(st, t), s) == Value(st, s)
  {
    hide PopWaiter;
    match Th(st, t).pc
    case SigPop(c, all, upto) => PoppedValue(st, t, c, all, upto, s);
  }

  lemma PoppedValue(st: State, t: Tid, c: Cond, all: bool, upto: nat, s: Sema)
    ensures CondQ(st, c) != [] ==> Value(PopWaiter(st, t, c, all, upto), s) == Value(st, s)
    ensures forall pc :: Value(Goto(st, t, pc), s) == Value(st, s)
  {
  }

  lemma AssignUnits(st: State, t: Tid, s: Sema)
    requires match Th(st, t).pc
             case AcqSet(_, _) => true case RelClear(_) => true case WaitEnq(_) => true case WaitClear(_) => true
             case Out => true
             case _ => false
    ensures Value(RunStep(st, t), s) == if Th(st, t).pc.WaitEnq? && s == OfWaiter(t) then 0 else Value(st, s)
  {
    hide Up, TestDown, PopWaiter;
  }

  /** How many of the first `i` steps gave `s` a unit, and how many took one. */
  function GivenBy(tr: seq<State>, es: seq<Event>, s: Sema, i: nat): nat
    requires i <= |es| < |tr|
  {
    if i == 0 then 0 else GivenBy(tr, es, s, i - 1) + if Gives(tr[i - 1], es[i - 1], tr[i], s) then 1 else 0
  }

  function TakenBy(tr: seq<State>, es: seq<Event>, s: Sema, i: nat): nat
    requires i <= |es| < |tr|
  {
    if i == 0 then 0 else TakenBy(tr, es, s, i - 1) + if Takes(tr[i - 1], es[i - 1], tr[i], s) then 1 else 0
  }

  /**
   Units are conserved over every run: a semaphore's value is its initial value, plus every
   `sema_up`, minus every `sema_down` that returned and every `sema_try_down` that succeeded.
   A lock's semaphore starts at 1.
   */
  lemma {:induction false} UnitsConserved(tr: seq<State>, es: seq<Event>, s: Sema, i: nat)
    requires IsRun(tr, es) && i < |tr| && !s.OfWaiter?
    ensures Value(tr[i], s) + TakenBy(tr, es, s, i) == (if s.Plain? then s.init else 1) + GivenBy(tr, es, s, i)
  {
    hide Next, Enabled, Gives, Takes;
    if i > 0 {
      UnitsConserved(tr, es, s, i - 1);
      UnitStep(tr[i - 1], es[i - 1], s);
    }
  }

  // ---- waking and sleeping -------------------------------------------------------------------------

  /** Where `sema_down` goes when it has its unit. */
  function DownNext(pc: PC): PC {
    match pc
    case AcqDown(l, w) => AcqSet(l, w)
    case WaitDown(c) => AcqDown(c.lock, true)
    case _ => Out
  }

  /**
   The loop test of `sema_down`: with a unit the thread goes on, still running; without one it
   goes to sleep at the end of the semaphore's list, to test again once it is woken.
   */
  lemma DownStep(st: State, t: Tid, s: Sema)
    requires Inv(st) && Enabled(st, Run) && st.running == Some(t) && DownOf(Th(st, t).pc, t) == Some(s)
    ensures var st' := Next(st, Run);
            if Value(st, s) > 0 then
              Th(st', t).pc == DownNext(Th(st, t).pc) && Th(st', t).status == Running &&
                Waiters(st', s) == Waiters(st, s)
            else
              Th(st', t).pc == Th(st, t).pc && Th(st', t).status == Blocked && Waiters(st', s) == Waiters(st, s) + [t]
  {
    hide Wakeful, LocksOk, CondsOk;
    assert t !in st.ready;
    var pc := Th(st, t).pc;
    var next := DownNext(pc);
    TestDownEffect(st, t, s, next);
    assert pc.AcqDown? || pc.SemaDown? || pc.WaitDown?;
  }

  lemma TestDownEffect(st: State, t: Tid, s: Sema, next: PC)
    requires ReadyOk(st) && t !in st.ready && Th(st, t).status == Running && next != Th(st, t).pc
    ensures var st' := TestDown(st, t, s, next);
            if Value(st, s) > 0 then
              Th(st', t).pc == next && Th(st', t).status == Running && Waiters(st', s) == Waiters(st, s)
            else
              Th(st', t).pc == Th(st, t).pc && Th(st', t).status == Blocked && Waiters(st', s) == Waiters(st, s) + [t]
  {
    if Value(st, s) == 0 && st.ready != [] {
      assert st.ready[0] in st.ready;
    }
  }

  /**
   Whoever gives a unit to a semaphore with sleepers wakes the first of them, and nobody else;
   without sleepers nobody.
   */
  lemma GiveWakes(st: State, e: Event, s: Sema)
    requires Inv(st) && Enabled(st, e) && Gives(st, e, Next(st, e), s)
    ensures var st', q := Next(st, e), Waiters(st, s);
            if q == [] then st'.ready == st.ready && Waiters(st', s) == []
            else st'.ready == st.ready + [q[0]] && Waiters(st', s) == q[1..] && Th(st', q[0]).status == Ready
  {
    hide Wakeful, LocksOk, CondsOk, Up, Yield, Schedule;
    match e
    case Enter(call) =>
      assert call.CallUp?;
      UpEffect(st, Plain(call.id, call.init));
    case Run => RunGives(st, st.running.value, s);
    case InterruptUp(id, init) => UpEffect(st, Plain(id, init));
    case _ =>
  }

  lemma RunGives(st: State, t: Tid, s: Sema)
    requires Inv(st) && st.running == Some(t) && Give(s) in MoveAct(Th(st, t).pc, Th(RunStep(st, t), t).pc, t)
    ensures var st', q := RunStep(st, t), Waiters(st, s);
            if q == [] then st'.ready == st.ready && Waiters(st', s) == []
            else st'.ready == st.ready + [q[0]] && Waiters(st', s) == q[1..] && Th(st', q[0]).status == Ready
  {
    hide Inv, Up, TestDown, PopWaiter, EnqueueWaiter;
    match Th(st, t).pc
    case RelUp(l) =>
      UpEffect(Goto(st, t, Out), OfLock(l));
      SameLists(st, t, Out, s);
    case WaitUp(c) =>
      UpEffect(Goto(st, t, WaitDown(c)), OfLock(c.lock));
      SameLists(st, t, WaitDown(c), s);
    case SigUp(c, all, upto, w) =>
      UpEffect(Goto(st, t, if all then SigPop(c, all, upto) else Out), OfWaiter(w));
      SameLists(st, t, if all then SigPop(c, all, upto) else Out, s);
    case _ =>
  }

  lemma SameLists(st: State, t: Tid, pc: PC, s: Sema)
    ensures Goto(st, t, pc).ready == st.ready && Waiters(Goto(st, t, pc), s) == Waiters(st, s)
  {
  }

  lemma UpEffect(st: State, s: Sema)
    ensures var st', q := Up(st, s), Waiters(st, s);
            if q == [] then st'.ready == st.ready && Waiters(st', s) == []
            else st'.ready == st.ready + [q[0]] && Waiters(st', s) == q[1..] && Th(st', q[0]).status == Ready
  {
  }

  // ---- the ready list ------------------------------------------------------------------------------

  /** The step puts the running thread to sleep. */
  predicate Sleeps(st: State, e: Event) {
    e == Run && st.running.Some? && var t := st.running.value;
    DownOf(Th(st, t).pc, t).Some? && Value(st, DownOf(Th(st, t).pc, t).value) == 0
  }

  /** Another thread gets the processor: on a timer interrupt, an exit, or when the running one goes to sleep. */
  predicate Switches(st: State, e: Event) {
    e == Timer || e == Exit || Sleeps(st, e)
  }

  /**
   The ready list is a queue: threads join it at the back, when woken, created or preempted, and
   the one that runs next is always its front.
   */
  lemma ReadyIsQueue(st: State, e: Event)
    requires Inv(st) && Enabled(st, e)
    ensures var st' := Next(st, e);
            if Switches(st, e) then
              var q := st.ready + (if e == Timer && st.running.Some? then [st.running.value] else []);
              if q == [] then st'.running == None && st'.ready == []
              else st'.running == Some(q[0]) && st'.ready == q[1..]
            else
              st'.running == st.running && st.ready <= st'.ready && |st'.ready| <= |st.ready| + 1
  {
    hide Inv, Up, TestDown, RunStep, EnterCall, TakeUnit;
    match e
    case Enter(call) => EnterReady(st, st.running.value, call);
    case Run =>
      if Sleeps(st, e) {
        SleepReady(st, st.running.value);
      } else {
        RunReady(st, st.running.value);
      }
    case InterruptUp(id, init) => UpReady(st, 0, Out, Plain(id, init));
    case InterruptTry(id, init) => TryReady(st, 0, Plain(id, init), Out);
    case _ =>
  }

  /** The running thread goes on, and at most one thread joins the ready list. */
  predicate Stays(st: State, st': State) {
    st'.running == st.running && st.ready <= st'.ready && |st'.ready| <= |st.ready| + 1
  }

  /** The front of the ready list runs. */
  predicate Switched(st: State, st': State) {
    if st.ready == [] then st'.running == None && st'.ready == []
    else st'.running == Some(st.ready[0]) && st'.ready == st.ready[1..]
  }

  lemma UpReady(st: State, t: Tid, next: PC, s: Sema)
    ensures Stays(st, Up(st, s)) && Stays(st, Up(Goto(st, t, next), s))
  {
  }

  lemma EnterReady(st: State, t: Tid, call: Call)
    ensures Stays(st, EnterCall(st, t, call))
  {
    hide Up, TryDown, Own;
    match call
    case CallUp(id, init) => UpReady(st, t, Out, Plain(id, init));
    case CallTryDown(id, init) => TryReady(st, t, Plain(id, init), Out);
    case CallTryAcquire(l) =>
      TryReady(st, t, OfLock(l), AcqSet(l, false));
      OwnReady(st, TryDown(st, t, OfLock(l), AcqSet(l, false)), t, l, Value(st, OfLock(l)) > 0);
    case _ =>
  }

  lemma TryReady(st: State, t: Tid, s: Sema, next: PC)
    ensures Stays(st, TakeUnit(st, s)) && Stays(st, TryDown(st, t, s, next))
  {
    if Value(st, s) > 0 {
      var st' := TakeUnit(st, s);
      assert st'.ready == st.ready && st'.running == st.running;
      assert Goto(st', t, next).ready == st'.ready && Goto(st', t, next).running == st'.running;
    }
  }

  lemma OwnReady(st: State, st': State, t: Tid, l: Lid, took: bool)
    ensures Stays(st, Own(st', t, l, took)) == Stays(st, Disown(st', t, l)) == Stays(st, st')
    ensures Switched(st, Own(st', t, l, took)) == Switched(st, st')
  {
  }

  lemma DownReady(st: State, t: Tid, s: Sema, next: PC)
    ensures var st' := TestDown(st, t, s, next); if Value(st, s) == 0 then Switched(st, st') else Stays(st, st')
  {
  }

  lemma SleepReady(st: State, t: Tid)
    requires DownOf(Th(st, t).pc, t).Some? && Value(st, DownOf(Th(st, t).pc, t).value) == 0
    ensures Switched(st, RunStep(st, t))
  {
    hide TestDown, Own, Value, Switched;
    match Th(st, t).pc
    case SemaDown(id, init) => DownReady(st, t, Plain(id, init), Out);
    case AcqDown(l, w) =>
      DownReady(st, t, OfLock(l), AcqSet(l, w));
      OwnReady(st, TestDown(st, t, OfLock(l), AcqSet(l, w)), t, l, Value(st, OfLock(l)) > 0);
    case WaitDown(c) => DownReady(st, t, OfWaiter(t), AcqDown(c.lock, true));
  }

  lemma RunReady(st: State, t: Tid)
    requires DownOf(Th(st, t).pc, t).Some? ==> Value(st, DownOf(Th(st, t).pc, t).value) > 0
    ensures Stays(st, RunStep(st, t))
  {
    hide RunStep, Value, Stays;
    var pc := Th(st, t).pc;
    if DownOf(pc, t).Some? {
      TakeReady(st, t);
    } else if pc.RelUp? || pc.WaitUp? || pc.SigUp? {
      GiveReady(st, t);
    } else if pc.SigPop? {
      PopReady(st, t);
    } else {
      AssignReady(st, t);
    }
  }

  lemma TakeReady(st: State, t: Tid)
    requires DownOf(Th(st, t).pc, t).Some? && Value(st, DownOf(Th(st, t).pc, t).value) > 0
    ensures Stays(st, RunStep(st, t))
  {
    hide TestDown, Own, Value, Stays;
    match Th(st, t).pc
    case SemaDown(id, init) => DownReady(st, t, Plain(id, init), Out);
    case AcqDown(l, w) =>
      DownReady(st, t, OfLock(l), AcqSet(l, w));
      OwnReady(st, TestDown(st, t, OfLock(l), AcqSet(l, w)), t, l, Value(st, OfLock(l)) > 0);
    case WaitDown(c) => DownReady(st, t, OfWaiter(t), AcqDown(c.lock, true));
  }

  lemma GiveReady(st: State, t: Tid)
    requires Th(st, t).pc.RelUp? || Th(st, t).pc.WaitUp? || Th(st, t).pc.SigUp?
    ensures Stays(st, RunStep(st, t))
  {
    hide Up, Disown, Stays;
    match Th(st, t).pc
    case RelUp(l) =>
      UpReady(st, t, Out, OfLock(l));
      OwnReady(st, Up(Goto(st, t, Out), OfLock(l)), t, l, true);
    case WaitUp(c) =>
      UpReady(st, t, WaitDown(c), OfLock(c.lock));
      OwnReady(st, Up(Goto(st, t, WaitDown(c)), OfLock(c.lock)), t, c.lock, true);
    case SigUp(c, all, upto, w) => UpReady(st, t, if all then SigPop(c, all, upto) else Out, OfWaiter(w));
  }

  lemma PopReady(st: State, t: Tid)
    requires Th(st, t).pc.SigPop?
    ensures Stays(st, RunStep(st, t))
  {
    hide PopWaiter, Stays;
    match Th(st, t).pc
    case SigPop(c, all, upto) => PoppedReady(st, t, c, all, upto);
  }

  lemma PoppedReady(st: State, t: Tid, c: Cond, all: bool, upto: nat)
    ensures CondQ(st, c) != [] ==> Stays(st, PopWaiter(st, t, c, all, upto))
    ensures Stays(st, Goto(st, t, Out))
  {
  }

  lemma AssignReady(st: State, t: Tid)
    requires match Th(st, t).pc
             case AcqSet(_, _) => true case RelClear(_) => true case WaitEnq(_) => true case WaitClear(_) => true
             case Out => true
             case _ => false
    ensures Stays(st, RunStep(st, t))
  {
    hide Up, TestDown, PopWaiter;
  }

  /** A new thread waits at the back of the list, outside any call. */
  lemma SpawnWaits(st: State, t: Tid)
    requires t !in st.threads
    ensures var st' := Next(st, Spawn(t));
            st'.ready == st.ready + [t] && Th(st', t).status == Ready && Th(st', t).pc == Out
  {
  }

  /** One that exits is on no list and does not run. */
  lemma ExitIsLast(st: State, t: Tid)
    requires Inv(st) && Enabled(st, Exit) && st.running == Some(t)
    ensures var st' := Next(st, Exit);
            Th(st', t).status == Dying && t !in st'.ready && st'.running != Some(t)
  {
    hide Wakeful, LocksOk, CondsOk, Schedule;
    assert t !in st.ready;
    ScheduleSkips(SetThread(st, t, Th(st, t).(status := Dying)), t);
  }

  lemma ScheduleSkips(st: State, t: Tid)
    requires t !in st.ready && st.running == Some(t)
    ensures var st' := Schedule(st); Th(st', t) == Th(st, t) && t !in st'.ready && st'.running != Some(t)
  {
    if st.ready != [] {
      assert st.ready[0] in st.ready && forall u :: u in st.ready[1..] ==> u in st.ready;
    }
  }

  /** So no ready thread is ever overtaken: each step leaves it where it is in the list, or one nearer, or running. */
  lemma NeverOvertaken(tr: seq<State>, es: seq<Event>, i: nat, k: nat)
    requires IsRun(tr, es) && i < |es| && k < |tr[i].ready|
    ensures var t, st' := tr[i].ready[k], tr[i + 1];
            || (k < |st'.ready| && st'.ready[k] == t && !Switches(tr[i], es[i]))
            || (Switches(tr[i], es[i]) && k == 0 && st'.running == Some(t))
            || (Switches(tr[i], es[i]) && 0 < k <= |st'.ready| && st'.ready[k - 1] == t)
  {
    hide Inv, Next, Enabled, Switches;
    RunsKeepInv(tr, es, i);
    ReadyIsQueue(tr[i], es[i]);
  }

  // ---- whole calls ---------------------------------------------------------------------------------

  /** Everything that thread `t` does with units in the steps from `i` to before `k`. */
  function Acts(tr: seq<State>, es: seq<Event>, t: Tid, i: nat, k: nat): seq<Act>
    requires k <= |es| < |tr|
    decreases k
  {
    if k <= i then [] else Acts(tr, es, t, i, k - 1) + ActOf(tr[k - 1], es[k - 1], tr[k], t)
  }

  function GiveAll(ws: seq<Tid>): seq<Act> {
    if ws == [] then [] else [Give(OfWaiter(ws[0]))] + GiveAll(ws[1..])
  }

  /** What a call by thread `t` from state `st` does in all, from its start to its return. */
  function Duty(call: Call, st: State, t: Tid): seq<Act> {
    match call
    case CallDown(id, init) => [Take(Plain(id, init))]
    case CallTryDown(id, init) => if Value(st, Plain(id, init)) > 0 then [Take(Plain(id, init))] else []
    case CallUp(id, init) => [Give(Plain(id, init))]
    case CallAcquire(l) => [Take(OfLock(l))]
    case CallTryAcquire(l) => if Value(st, OfLock(l)) > 0 then [Take(OfLock(l))] else []
    case CallRelease(l) => [Give(OfLock(l))]
    case CallWait(c) => [Give(OfLock(c.lock)), Take(OfWaiter(t)), Take(OfLock(c.lock))]
    case CallSignal(c) => if CondQ(st, c) == [] then [] else [Give(OfWaiter(CondQ(st, c)[0]))]
    case CallBroadcast(c) => GiveAll(CondQ(st, c))
  }

  /**
   How far a call has come when its thread is at `pc` and has done `acts`; `q` is the
   condition's queue now, `q0` at the call.
   */
  ghost predicate Along(call: Call, t: Tid, pc: PC, acts: seq<Act>, q: seq<Tid>, q0: seq<Tid>) {
    match call
    case CallDown(id, init) => pc == SemaDown(id, init) && acts == []
    case CallTryDown(_, _) => false
    case CallUp(_, _) => false
    case CallAcquire(l) => (pc == AcqDown(l, false) && acts == []) ||
      (pc == AcqSet(l, false) && acts == [Take(OfLock(l))])
    case CallTryAcquire(l) => pc == AcqSet(l, false) && acts == [Take(OfLock(l))]
    case CallRelease(l) => (pc == RelClear(l) || pc == RelUp(l)) && acts == []
    case CallWait(c) =>
      || ((pc == WaitEnq(c) || pc == WaitClear(c) || pc == WaitUp(c)) && acts == [])
      || (pc == WaitDown(c) && acts == [Give(OfLock(c.lock))])
      || (pc == AcqDown(c.lock, true) && acts == [Give(OfLock(c.lock)), Take(OfWaiter(t))])
      || (pc == AcqSet(c.lock, true) && acts == [Give(OfLock(c.lock)), Take(OfWaiter(t)), Take(OfLock(c.lock))])
    case CallSignal(c) =>
      || (pc.SigPop? && pc.c == c && !pc.all && acts == [] && q == q0)
      || (pc.SigUp? && pc.c == c && !pc.all && acts == [] && q0 != [] && pc.target == q0[0] && q == q0[1..])
    case CallBroadcast(c) =>
      || (pc.SigPop? && pc.c == c && pc.all && acts + GiveAll(q) == GiveAll(q0))
      || (pc.SigUp? && pc.c == c && pc.all && acts + GiveAll([pc.target] + q) == GiveAll(q0))
  }

  /** The condition that a call is about, if it is about one. */
  function CondOf(call: Call): Cond {
    match call
    case CallWait(c) => c
    case CallSignal(c) => c
    case CallBroadcast(c) => c
    case _ => Cond(0, 0)
  }

  /** A call that has come this far is still in its own code, and if it signals or broadcasts, it holds the lock. */
  lemma AlongMeans(call: Call, t: Tid, pc: PC, acts: seq<Act>, q: seq<Tid>, q0: seq<Tid>)
    requires Along(call, t, pc, acts, q, q0)
    ensures pc != Out
    ensures call.CallSignal? || call.CallBroadcast? ==> MustHold(pc) == Some(call.c.lock)
  {
  }

  /** The first step of a call that does not return at once. */
  lemma CallStart(st: State, t: Tid, call: Call)
    requires Inv(st) && Enabled(st, Enter(call)) && st.running == Some(t)
    ensures var st' := Next(st, Enter(call));
            var acts, q := ActOf(st, Enter(call), st', t), CondQ(st, CondOf(call));
            if Th(st', t).pc == Out then acts == Duty(call, st, t)
            else Along(call, t, Th(st', t).pc, acts, CondQ(st', CondOf(call)), q)
  {
    hide Inv, Up;
    EnterQueue(st, t, call);
    match call
    case CallUp(id, init) => UpView(st, Plain(id, init));
    case CallBroadcast(c) => assert [] + GiveAll(CondQ(st, c)) == GiveAll(CondQ(st, c));
    case _ =>
  }

  /** A step in which another thread or the timer acts leaves the call where it is. */
  lemma OthersStep(st: State, e: Event, t: Tid, call: Call, acts: seq<Act>, q0: seq<Tid>)
    requires Inv(st) && Enabled(st, e) && Along(call, t, Th(st, t).pc, acts, CondQ(st, CondOf(call)), q0)
    requires !(e == Run && st.running == Some(t))
    ensures var st' := Next(st, e);
            Th(st', t).pc == Th(st, t).pc && ActOf(st, e, st', t) == [] &&
            Along(call, t, Th(st', t).pc, acts + ActOf(st, e, st', t), CondQ(st', CondOf(call)), q0)
  {
    hide Inv, Next, Along, CondQ, Waiting;
    AlongMeans(call, t, Th(st, t).pc, acts, CondQ(st, CondOf(call)), q0);
    if Th(Next(st, e), t).pc != Th(st, t).pc {
      OnlyPcStep(st, e, t);
      assert false;
    }
    if call.CallSignal? || call.CallBroadcast? {
      QueueStill(st, e, t, CondOf(call));
    }
    assert acts + [] == acts;
    AlongSame(call, t, Th(st, t).pc, acts, CondQ(st, CondOf(call)), CondQ(Next(st, e), CondOf(call)), q0);
  }

  lemma AlongSame(call: Call, t: Tid, pc: PC, acts: seq<Act>, q: seq<Tid>, q': seq<Tid>, q0: seq<Tid>)
    requires Along(call, t, pc, acts, q, q0) && (call.CallSignal? || call.CallBroadcast? ==> q' == q)
    ensures Along(call, t, pc, acts, q', q0)
  {
  }

  /** Where its own transition takes a thread. */
  function PcAfter(st: State, t: Tid): PC {
    match Th(st, t).pc
    case Out => Out
    case AcqSet(_, _) => Out
    case RelClear(l) => RelUp(l)
    case RelUp(_) => Out
    case WaitEnq(c) => WaitClear(c)
    case WaitClear(c) => WaitUp(c)
    case WaitUp(c) => WaitDown(c)
    case SigPop(c, all, upto) => if CondQ(st, c) == [] then Out else SigUp(c, all, upto, CondQ(st, c)[0])
    case SigUp(c, all, upto, _) => if all then SigPop(c, all, upto) else Out
    case pc => if Value(st, DownOf(pc, t).value) > 0 then DownNext(pc) else pc
  }

  lemma StepPc(st: State, t: Tid)
    requires Inv(st) && Enabled(st, Run) && st.running == Some(t)
    ensures Th(Next(st, Run), t).pc == PcAfter(st, t)
  {
    hide Placed, Wakeful, LocksOk, RunStep;
    var pc := Th(st, t).pc;
    if DownOf(pc, t).Some? {
      DownStep(st, t, DownOf(pc, t).value);
    } else if pc.RelUp? || pc.WaitUp? || pc.SigUp? {
      GivePc(st, t);
    } else if pc.SigPop? {
      assert CondOk(st, pc.c);
      PopPc(st, t);
    } else {
      AssignPc(st, t);
    }
  }

  lemma GivePc(st: State, t: Tid)
    requires Th(st, t).pc.RelUp? || Th(st, t).pc.WaitUp? || Th(st, t).pc.SigUp?
    ensures Th(RunStep(st, t), t).pc == PcAfter(st, t)
  {
    hide Up, Disown;
    match Th(st, t).pc
    case RelUp(l) =>
      MovedPc(st, t, Out, OfLock(l));
      OwnView(Up(Goto(st, t, Out), OfLock(l)), t, l, true, OfLock(l));
    case WaitUp(c) =>
      MovedPc(st, t, WaitDown(c), OfLock(c.lock));
      OwnView(Up(Goto(st, t, WaitDown(c)), OfLock(c.lock)), t, c.lock, true, OfLock(c.lock));
    case SigUp(c, all, upto, w) => MovedPc(st, t, if all then SigPop(c, all, upto) else Out, OfWaiter(w));
  }

  lemma MovedPc(st: State, t: Tid, next: PC, s: Sema)
    ensures Th(Up(Goto(st, t, next), s), t).pc == next
  {
    hide Up;
    UpView(Goto(st, t, next), s);
    assert Th(Goto(st, t, next), t).pc == next;
  }

  lemma PopPc(st: State, t: Tid)
    requires Th(st, t).pc.SigPop? && CondOk(st, Th(st, t).pc.c)
    ensures Th(RunStep(st, t), t).pc == PcAfter(st, t)
  {
    hide PopWaiter;
    match Th(st, t).pc
    case SigPop(c, all, upto) =>
      if CondQ(st, c) != [] {
        assert CondQ(st, c)[0] in CondQ(st, c);
        PopView(st, t, c, all, upto);
      }
  }

  lemma AssignPc(st: State, t: Tid)
    requires match Th(st, t).pc
             case AcqSet(_, _) => true case RelClear(_) => true case WaitEnq(_) => true case WaitClear(_) => true
             case Out => true
             case _ => false
    ensures Th(RunStep(st, t), t).pc == PcAfter(st, t)
  {
    hide Up, TestDown, PopWaiter;
  }

  /** What its own transition does to the queue of the condition that it signals. */
  lemma StepQueue(st: State, t: Tid, c: Cond)
    requires Th(st, t).pc.SigPop? || Th(st, t).pc.SigUp?
    requires Th(st, t).pc.c == c
    ensures CondQ(RunStep(st, t), c) == if Th(st, t).pc.SigPop? &&
            CondQ(st, c) != [] then CondQ(st, c)[1..] else CondQ(st, c)
  {
    hide Up, PopWaiter;
    match Th(st, t).pc
    case SigPop(d, all, upto) => PoppedQueue(st, t, d, all, upto);
    case SigUp(d, all, upto, w) => UpQueue(st, t, if all then SigPop(d, all, upto) else Out, OfWaiter(w));
  }

  lemma PoppedQueue(st: State, t: Tid, c: Cond, all: bool, upto: nat)
    ensures CondQ(st, c) != [] ==> CondQ(PopWaiter(st, t, c, all, upto), c) == CondQ(st, c)[1..]
    ensures CondQ(Goto(st, t, Out), c) == CondQ(st, c)
  {
  }

  /** What a call that did not return at once does in all. */
  function Owed(call: Call, t: Tid, q0: seq<Tid>): seq<Act> {
    match call
    case CallDown(id, init) => [Take(Plain(id, init))]
    case CallAcquire(l) => [Take(OfLock(l))]
    case CallTryAcquire(l) => [Take(OfLock(l))]
    case CallRelease(l) => [Give(OfLock(l))]
    case CallWait(c) => [Give(OfLock(c.lock)), Take(OfWaiter(t)), Take(OfLock(c.lock))]
    case CallSignal(c) => if q0 == [] then [] else [Give(OfWaiter(q0[0]))]
    case CallBroadcast(c) => GiveAll(q0)
    case _ => []
  }

  /** The queue that a call leaves to its successors: a signal takes its front, a broadcast all of it. */
  function QueueLeft(call: Call, q0: seq<Tid>): seq<Tid> {
    if call.CallBroadcast? || q0 == [] then [] else q0[1..]
  }

  /** A transition of its own takes the call on, or to its end with everything done. */
  lemma OwnStep(st: State, t: Tid, call: Call, acts: seq<Act>, q0: seq<Tid>)
    requires Inv(st) && Enabled(st, Run) && st.running == Some(t)
    requires Along(call, t, Th(st, t).pc, acts, CondQ(st, CondOf(call)), q0)
    ensures var st' := Next(st, Run);
            var acts', q' := acts + ActOf(st, Run, st', t), CondQ(st', CondOf(call));
            if Th(st', t).pc == Out then
              acts' == Owed(call, t, q0) && (call.CallSignal? || call.CallBroadcast? ==> q' == QueueLeft(call, q0))
            else Along(call, t, Th(st', t).pc, acts', q', q0)
  {
    hide Inv, RunStep;
    StepPc(st, t);
    var pc := Th(st, t).pc;
    if call.CallSignal? || call.CallBroadcast? {
      StepQueue(st, t, CondOf(call));
      SignalStep(call, t, pc, PcAfter(st, t), acts, CondQ(st, CondOf(call)), CondQ(RunStep(st, t), CondOf(call)), q0);
    } else {
      PlainStep(call, t, pc, PcAfter(st, t), acts, CondQ(st, CondOf(call)), CondQ(RunStep(st, t), CondOf(call)), q0);
    }
  }

  /** The same for the program counters alone: calls that signal. */
  lemma SignalStep(call: Call, t: Tid, pc: PC, pc': PC, acts: seq<Act>, q: seq<Tid>, q': seq<Tid>, q0: seq<Tid>)
    requires (call.CallSignal? || call.CallBroadcast?) && Along(call, t, pc, acts, q, q0)
    requires pc.SigPop? ==> pc' == (if q == [] then Out else SigUp(pc.c, pc.all, pc.upto, q[0])) &&
                            q' == if q == [] then q else q[1..]
    requires pc.SigUp? ==> pc' == (if pc.all then SigPop(pc.c, pc.all, pc.upto) else Out) && q' == q
    ensures var acts' := acts + MoveAct(pc, pc', t);
            if pc' == Out then acts' == Owed(call, t, q0) && q' == QueueLeft(call, q0)
            else Along(call, t, pc', acts', q', q0)
  {
    if pc.SigPop? {
      assert acts + [] == acts;
      if q != [] {
        assert [q[0]] + q[1..] == q;
      }
    } else {
      assert ([pc.target] + q)[1..] == q;
      assert acts + GiveAll([pc.target] + q) == acts + [Give(OfWaiter(pc.target))] + GiveAll(q);
    }
  }

  /** The others. */
  lemma PlainStep(call: Call, t: Tid, pc: PC, pc': PC, acts: seq<Act>, q: seq<Tid>, q': seq<Tid>, q0: seq<Tid>)
    requires !call.CallSignal? && !call.CallBroadcast? && Along(call, t, pc, acts, q, q0)
    requires match pc
             case AcqSet(_, _) => pc' == Out
             case RelClear(l) => pc' == RelUp(l)
             case RelUp(_) => pc' == Out
             case WaitEnq(c) => pc' == WaitClear(c)
             case WaitClear(c) => pc' == WaitUp(c)
             case WaitUp(c) => pc' == WaitDown(c)
             case _ => pc' == pc || pc' == DownNext(pc)
    ensures var acts' := acts + MoveAct(pc, pc', t);
            if pc' == Out then acts' == Owed(call, t, q0) else Along(call, t, pc', acts', q', q0)
  {
  }

  lemma {:induction false} CallProgress(tr: seq<State>, es: seq<Event>, i: nat, k: nat, t: Tid, call: Call)
    requires IsRun(tr, es) && i < |es| && es[i] == Enter(call) && tr[i].running == Some(t) && InCall(tr, i, k, t)
    ensures Along(call, t, Th(tr[k], t).pc, Acts(tr, es, t, i, k), CondQ(tr[k], CondOf(call)),
              CondQ(tr[i], CondOf(call)))
    decreases k
  {
    hide Inv, Along, Next, InCall, ActOf, Enabled, CondQ, Th;
    StillIn(tr, i, k, t);
    if k == i + 1 {
      RunsKeepInv(tr, es, i);
      CallStart(tr[i], t, call);
      ActsOne(tr, es, t, i);
    } else {
      CallProgress(tr, es, i, k - 1, t, call);
      RunsKeepInv(tr, es, k - 1);
      if es[k - 1] == Run && tr[k - 1].running == Some(t) {
        OwnStep(tr[k - 1], t, call, Acts(tr, es, t, i, k - 1), CondQ(tr[i], CondOf(call)));
      } else {
        OthersStep(tr[k - 1], es[k - 1], t, call, Acts(tr, es, t, i, k - 1), CondQ(tr[i], CondOf(call)));
      }
    }
  }

  lemma ActsOne(tr: seq<State>, es: seq<Event>, t: Tid, i: nat)
    requires i < |es| < |tr|
    ensures Acts(tr, es, t, i, i + 1) == ActOf(tr[i], es[i], tr[i + 1], t)
  {
    assert Acts(tr, es, t, i, i) == [];
  }

  /** The call of thread `t` that began at step `i` returns at step `k`. */
  ghost predicate Returned(tr: seq<State>, i: nat, k: nat, t: Tid) {
    i <= k && k + 1 < |tr| && (i < k ==> InCall(tr, i, k, t)) && Th(tr[k + 1], t).pc == Out
  }

  /**
   Every call, whatever happens meanwhile, does from its start to its return exactly what it is
   there for. `sema_down` takes one unit, `sema_up` gives one. `lock_acquire` takes the lock's and
   `lock_release` gives it back. `cond_wait` gives the lock's unit, takes its waiter's and takes the
   lock's again. `cond_signal` gives one to the first waiter's semaphore and takes the waiter off
   the queue, `cond_broadcast` does that for all that were queued at the call, in their order.
   */
  lemma CallDoesItsDuty(tr: seq<State>, es: seq<Event>, i: nat, k: nat, t: Tid, call: Call)
    requires IsRun(tr, es) && i < |es| && es[i] == Enter(call) && tr[i].running == Some(t) && Returned(tr, i, k, t)
    ensures Acts(tr, es, t, i, k + 1) == Duty(call, tr[i], t)
    ensures call.CallSignal? ==>
              CondQ(tr[k + 1], call.c) == if CondQ(tr[i], call.c) == [] then [] else CondQ(tr[i], call.c)[1..]
    ensures call.CallBroadcast? ==> CondQ(tr[k + 1], call.c) == []
  {
    hide Inv, Along, Next, InCall, ActOf, Enabled, CondQ, Th;
    RunsKeepInv(tr, es, i);
    CallStart(tr[i], t, call);
    if k == i {
      ActsOne(tr, es, t, i);
      NotAtOnce(tr[i], t, call);
    } else {
      StillIn(tr, i, k, t);
      FirstIn(tr, i, k, t);
      DutyOwed(tr[i], t, call);
      CallProgress(tr, es, i, k, t, call);
      RunsKeepInv(tr, es, k);
      var acts, q0 := Acts(tr, es, t, i, k), CondQ(tr[i], CondOf(call));
      if es[k] == Run && tr[k].running == Some(t) {
        OwnStep(tr[k], t, call, acts, q0);
      } else {
        OthersStep(tr[k], es[k], t, call, acts, q0);
        assert false;
      }
    }
  }

  lemma FirstIn(tr: seq<State>, i: nat, k: nat, t: Tid)
    requires InCall(tr, i, k, t)
    ensures Th(tr[i + 1], t).pc != Out
  {
  }

  /** Signals and broadcasts never return at once. */
  lemma NotAtOnce(st: State, t: Tid, call: Call)
    requires Enabled(st, Enter(call)) && st.running == Some(t)
    ensures call.CallSignal? || call.CallBroadcast? ==> Th(Next(st, Enter(call)), t).pc != Out
  {
    hide Up;
  }

  lemma DutyOwed(st: State, t: Tid, call: Call)
    requires Enabled(st, Enter(call)) && st.running == Some(t) && Th(Next(st, Enter(call)), t).pc != Out
    ensures Duty(call, st, t) == Owed(call, t, CondQ(st, CondOf(call)))
  {
    hide Up;
    if call.CallUp? { UpView(st, Plain(call.id, call.init)); }
  }

  /**
   A returned `lock_acquire` or `cond_wait` leaves the thread as the lock's holder, a returned
   `lock_release` nobody.
   */
  lemma HolderAtReturn(tr: seq<State>, es: seq<Event>, i: nat, k: nat, t: Tid, call: Call)
    requires IsRun(tr, es) && i < |es| && es[i] == Enter(call) && tr[i].running == Some(t) && Returned(tr, i, k, t) &&
             i < k
    ensures call.CallAcquire? || call.CallTryAcquire? ==> Holder(tr[k + 1], call.l) == Some(t)
    ensures call.CallWait? ==> Holder(tr[k + 1], call.c.lock) == Some(t)
    ensures call.CallRelease? ==> Holder(tr[k + 1], call.l) == None
  {
    hide Inv, Next, InCall, ActOf, Enabled, CondQ, Acts;
    StillIn(tr, i, k, t);
    CallProgress(tr, es, i, k, t, call);
    RunsKeepInv(tr, es, k);
    OnlyPcStep(tr[k], es[k], t);
    StepPc(tr[k], t);
    HolderStep(tr[k], t);
  }

  lemma HolderStep(st: State, t: Tid)
    requires Inv(st) && Enabled(st, Run) && st.running == Some(t)
    ensures Th(st, t).pc.AcqSet? ==> Holder(Next(st, Run), Th(st, t).pc.l) == Some(t)
    ensures Th(st, t).pc.RelUp? ==> Holder(Next(st, Run), Th(st, t).pc.l) == None
  {
    hide Placed, Wakeful, CondsOk, Up, TestDown;
    match Th(st, t).pc
    case RelUp(l) =>
      assert LockOk(st, l);
      UpView(Goto(st, t, Out), OfLock(l));
    case _ =>
  }
}
