/** The mutex protocol over whole runs: what holds in every reachable state, and in which order tasks are served. */
module MutexRuns {
  import opened Wrappers
  import opened ReadyQueue
  import opened MutexProtocol
  import opened MutexSafety

  /** Nothing is locked yet and the ready queue is in order. */
  ghost predicate Initial<T, M>(s: Sys<T, M>) {
    && Shape(s) && QueueOk(s) && SlicesOk(s) && s.prio == s.orig
    && (forall t :: t in s.role ==> s.role[t].Free?)
    && (forall m :: m in s.locks ==> !s.locks[m].locked && s.locks[m].waiters == [])
  }

  ghost predicate Step<T, M>(s: Sys<T, M>, e: Event<T, M>, s': Sys<T, M>) {
    Shape(s) && Enabled(s, e) && s' == Next(s, e)
  }

  /** Each state follows from the one before by an event. */
  ghost predicate Steps<T, M>(states: seq<Sys<T, M>>, events: seq<Event<T, M>>) {
    && |states| == |events| + 1
    && forall i :: 0 <= i < |events| ==> StepAt(states, events, i)
  }

  ghost predicate StepAt<T, M>(states: seq<Sys<T, M>>, events: seq<Event<T, M>>, i: nat)
    requires i < |events| && i + 1 < |states|
  {
    Step(states[i], events[i], states[i + 1])
  }

  ghost predicate Run<T, M>(states: seq<Sys<T, M>>, events: seq<Event<T, M>>) {
    Steps(states, events) && Initial(states[0])
  }

  lemma {:induction false} StepKeeps<T, M>(s: Sys<T, M>, e: Event<T, M>, s': Sys<T, M>)
    requires Inv(s) && Step(s, e, s')
    ensures Inv(s')
  {
    StepInv(s, e);
  }

  lemma {:induction false} RunStep<T, M>(states: seq<Sys<T, M>>, events: seq<Event<T, M>>, k: nat)
    requires Run(states, events) && 0 < k < |states| && Inv(states[k - 1])
    ensures Inv(states[k])
  {
    assert StepAt(states, events, k - 1);
    StepKeeps(states[k - 1], events[k - 1], states[k]);
  }

  lemma {:induction false} RunInv<T, M>(states: seq<Sys<T, M>>, events: seq<Event<T, M>>, k: nat)
    requires Run(states, events) && k < |states|
    ensures Inv(states[k])
  {
    if k == 0 {
      InitialInv(states[0]);
    } else {
      RunInv(states, events, k - 1);
      RunStep(states, events, k);
    }
  }

  lemma {:induction false} InitialInv<T, M>(s: Sys<T, M>)
    requires Initial(s)
    ensures Inv(s)
  {
    forall t | t in s.prio ensures TaskOk(s, t) { assert s.role[t].Free?; }
  }

  // ------------------------------------------------------------- priority inheritance

  ghost predicate Owns<T, M>(s: Sys<T, M>, t: T, m: M) {
    m in s.locks && s.locks[m].locked && s.locks[m].owner == Some(t)
  }

  /**
   In every reachable state an owner has the most urgent of its own priority and those of
   its waiters, and all others have their own.
   */
  lemma {:induction false} PriorityInheritance<T, M>(states: seq<Sys<T, M>>, events: seq<Event<T, M>>, k: nat, t: T)
    requires Run(states, events) && k < |states| && t in states[k].prio
    ensures var s := states[k]; Shape(s)
    ensures var s := states[k]; forall m :: m in s.locks && Owns(s, t, m) ==> s.prio[t] == Best(s.orig[t], s.locks[m].waiters, s.prio)
    ensures var s := states[k]; (forall m :: m in s.locks ==> !Owns(s, t, m)) ==> s.prio[t] == s.orig[t]
  {
    RunInv(states, events, k);
    var s := states[k];
    assert TaskOk(s, t);
    forall m | m in s.locks && Owns(s, t, m) ensures s.prio[t] == Best(s.orig[t], s.locks[m].waiters, s.prio) {
      assert LockOk(s, m);
    }
    if s.role[t].Granted? || s.role[t].Holds? {
      assert Owns(s, t, s.role[t].mutex);
    }
  }

  /** No task less urgent than a waiter is queued ahead of the owner it waits for. */
  lemma {:induction false} NoInversion<T, M>(states: seq<Sys<T, M>>, events: seq<Event<T, M>>, k: nat, m: M, w: T, i: nat, j: nat)
    requires Run(states, events) && k < |states|
    requires var s := states[k]; m in s.locks && s.locks[m].locked && w in s.locks[m].waiters
    requires var s := states[k]; i < j < |s.ready| && s.locks[m].owner == Some(s.ready[j])
    ensures var s := states[k]; w in s.prio && s.ready[i] in s.prio && s.prio[s.ready[i]] <= s.prio[w]
  {
    RunInv(states, events, k);
    var s := states[k];
    var o := s.ready[j];
    assert o in s.ready && s.ready[i] in s.ready;
    PriorityInheritance(states, events, k, o);
    assert Owns(s, o, m);
  }

  /** Whoever is dispatched is a most urgent task among those that can run. */
  lemma {:induction false} MostUrgentRuns<T, M>(states: seq<Sys<T, M>>, events: seq<Event<T, M>>, k: nat, t: T)
    requires Run(states, events) && k < |states| && t in states[k].status && states[k].status[t] != Suspended
    ensures var s := states[k]; Shape(s) && s.ready != [] && t in s.ready && s.prio[s.ready[0]] <= s.prio[t]
    ensures Dispatch(states[k]).running == states[k].ready[0]
  {
    RunInv(states, events, k);
  }

  // ------------------------------------------------------------- mutual exclusion

  /** Tasks wait only at locked mutexes, asleep, once, and neither own a mutex nor wait at another. */
  lemma {:induction false} WaitersSleep<T, M>(states: seq<Sys<T, M>>, events: seq<Event<T, M>>, k: nat, m: M, t: T)
    requires Run(states, events) && k < |states|
    requires m in states[k].locks && t in states[k].locks[m].waiters
    ensures var s := states[k]; s.locks[m].locked && s.locks[m].owner != Some(t)
    ensures var s := states[k]; t in s.status && s.status[t] == Suspended && t !in s.ready
    ensures var s := states[k]; NoRepeats(s.locks[m].waiters)
    ensures var s := states[k]; forall n :: n in s.locks && n != m ==> t !in s.locks[n].waiters && !Owns(s, t, n)
  {
    RunInv(states, events, k);
    var s := states[k];
    assert LockOk(s, m) && TaskOk(s, t);
    forall n | n in s.locks && n != m ensures t !in s.locks[n].waiters && !Owns(s, t, n) {
      assert LockOk(s, n);
    }
  }

  lemma {:induction false} OneMutexEach<T, M>(states: seq<Sys<T, M>>, events: seq<Event<T, M>>, k: nat, m: M, n: M, t: T)
    requires Run(states, events) && k < |states| && Owns(states[k], t, m) && Owns(states[k], t, n)
    ensures m == n
  {
    RunInv(states, events, k);
    assert LockOk(states[k], m) && LockOk(states[k], n);
  }

  /** A call that had to wait reports success exactly when its task owns the mutex. */
  lemma {:induction false} ReturnsOkIffOwner<T, M>(states: seq<Sys<T, M>>, events: seq<Event<T, M>>, k: nat)
    requires Run(states, events) && k < |events| && events[k] == DoReturn
    ensures var s := states[k]; Shape(s) && (s.role[s.running].Granted? || s.role[s.running].Expired?)
    ensures var s := states[k]; Outcome(s) == OsOk <==> Owns(s, s.running, s.role[s.running].mutex)
    ensures Outcome(states[k]) == OsOk || Outcome(states[k]) == Timeout
    ensures var s := states[k]; Outcome(s) == Timeout ==> s.role[s.running].Expired?
  {
    RunInv(states, events, k);
    var s := states[k];
    assert StepAt(states, events, k);
    assert TaskOk(s, s.running);
  }

  // ------------------------------------------------------------- order of service

  /** Every call that had to wait at a mutex draws a ticket. */
  datatype Fate = Queued | Served | Lapsed
  datatype Ticket<T> = Ticket(task: T, fate: Fate)

  function Pending<T>(log: seq<Ticket<T>>): (r: seq<T>) {
    if log == [] then []
    else if log[0].fate == Queued then [log[0].task] + Pending(log[1..])
    else Pending(log[1..])
  }

  function Settle<T(==)>(log: seq<Ticket<T>>, t: T, fate: Fate): seq<Ticket<T>> {
    if log == [] then []
    else if log[0] == Ticket(t, Queued) then [Ticket(t, fate)] + log[1..]
    else [log[0]] + Settle(log[1..], t, fate)
  }

  /** The tickets drawn at `m` by the first `k` events, from the calls, the hand-overs and the timeouts alone. */
  ghost function Tickets<T, M>(states: seq<Sys<T, M>>, events: seq<Event<T, M>>, m: M, k: nat): seq<Ticket<T>>
    requires k <= |events| < |states| && forall i :: 0 <= i < |states| ==> m in states[i].locks
  {
    if k == 0 then [] else Drawn(Tickets(states, events, m, k - 1), states[k - 1], events[k - 1], states[k], m)
  }

  ghost function Drawn<T, M>(log: seq<Ticket<T>>, s: Sys<T, M>, e: Event<T, M>, s': Sys<T, M>, m: M): seq<Ticket<T>>
    requires m in s.locks && m in s'.locks
  {
    match e
    case DoLock(n, timeout) =>
      if n == m && s.locks[m].locked && timeout != 0 then log + [Ticket(s.running, Queued)] else log
    case DoUnlock(n) =>
      if n == m && Owns(s, s.running, m) && s'.locks[m].locked && s'.locks[m].owner.Some?
      then Settle(log, s'.locks[m].owner.value, Served) else log
    case DoExpire(t) =>
      if t in s.role && s.role[t].Waits? && s.role[t].mutex == m then Settle(log, t, Lapsed) else log
    case _ => log
  }

  /** Nobody is served before one who came earlier and still waits. */
  ghost predicate InTurn<T>(log: seq<Ticket<T>>) {
    forall i, j :: 0 <= i < j < |log| && log[j].fate == Served ==> log[i].fate != Queued
  }

  lemma {:induction false} PendingAppend<T>(log: seq<Ticket<T>>, t: T)
    ensures Pending(log + [Ticket(t, Queued)]) == Pending(log) + [t]
  {
    if log == [] {
      assert log + [Ticket(t, Queued)] == [Ticket(t, Queued)];
    } else {
      assert (log + [Ticket(t, Queued)])[1..] == log[1..] + [Ticket(t, Queued)];
      PendingAppend(log[1..], t);
    }
  }

  lemma {:induction false} RemovePast<T>(x: T, s: seq<T>, t: T)
    requires x != t
    ensures Remove([x] + s, t) == [x] + Remove(s, t)
  {
    assert ([x] + s)[1..] == s;
  }

  lemma {:induction false} SettlePending<T>(log: seq<Ticket<T>>, t: T, fate: Fate)
    requires fate != Queued
    ensures Pending(Settle(log, t, fate)) == Remove(Pending(log), t)
  {
    if log != [] {
      var log' := Settle(log, t, fate);
      if log[0] == Ticket(t, Queued) {
        assert log'[1..] == log[1..];
      } else {
        SettlePending(log[1..], t, fate);
        assert log'[1..] == Settle(log[1..], t, fate) && log'[0] == log[0];
        if log[0].fate == Queued { RemovePast(log[0].task, Pending(log[1..]), t); }
      }
    }
  }

  /** Settling changes one ticket at most, a queued one of that task. */
  lemma {:induction false} SettleAt<T>(log: seq<Ticket<T>>, t: T, fate: Fate)
    ensures |Settle(log, t, fate)| == |log|
    ensures forall i :: 0 <= i < |log| ==>
      Settle(log, t, fate)[i] == log[i] || (log[i] == Ticket(t, Queued) && Settle(log, t, fate)[i] == Ticket(t, fate))
  {
    if log != [] && log[0] != Ticket(t, Queued) { SettleAt(log[1..], t, fate); }
  }

  /** Serving the first in the queue keeps the order. */
  lemma {:induction false} ServeInTurn<T>(log: seq<Ticket<T>>)
    requires InTurn(log) && Pending(log) != []
    ensures InTurn(Settle(log, Pending(log)[0], Served))
  {
    var t := Pending(log)[0];
    var log' := Settle(log, t, Served);
    SettleAt(log, t, Served);
    if log[0].fate != Queued {
      assert forall i, j :: 0 <= i < j < |log[1..]| ==> log[1..][i] == log[i + 1] && log[1..][j] == log[j + 1];
      assert Pending(log) == Pending(log[1..]);
      ServeInTurn(log[1..]);
      assert log'[1..] == Settle(log[1..], t, Served);
      forall i, j | 0 <= i < j < |log'| && log'[j].fate == Served ensures log'[i].fate != Queued {
        if i > 0 { assert log'[1..][i - 1] == log'[i] && log'[1..][j - 1] == log'[j]; }
      }
    } else {
      assert log' == [Ticket(t, Served)] + log[1..];
      assert forall j :: 1 <= j < |log| ==> log[j].fate != Served;
    }
  }

  lemma {:induction false} LapseInTurn<T>(log: seq<Ticket<T>>, t: T)
    requires InTurn(log)
    ensures InTurn(Settle(log, t, Lapsed))
  {
    SettleAt(log, t, Lapsed);
  }

  lemma {:induction false} AppendInTurn<T>(log: seq<Ticket<T>>, t: T)
    requires InTurn(log)
    ensures InTurn(log + [Ticket(t, Queued)])
  {
  }

  /** Only calls, hand-overs and timeouts at `m` change who waits there. */
  lemma {:induction false} SchedulingKeepsLocks<T, M>(s: Sys<T, M>, e: Event<T, M>)
    requires Shape(s) && Enabled(s, e) && !e.DoLock? && !e.DoUnlock? && !e.DoExpire?
    ensures Next(s, e).locks == s.locks
  {
  }

  lemma {:induction false} LockQueue<T, M>(s: Sys<T, M>, n: M, timeout: int, m: M)
    requires Shape(s) && n in s.locks && m in s.locks
    ensures m in LockCall(s, n, timeout).0.locks
    ensures LockCall(s, n, timeout).0.locks[m].waiters ==
      s.locks[m].waiters + if n == m && s.locks[m].locked && timeout != 0 then [s.running] else []
  {
  }

  lemma {:induction false} UnlockElsewhere<T, M>(s: Sys<T, M>, n: M, m: M)
    requires Shape(s) && n in s.locks && m in s.locks
    ensures m in UnlockCall(s, n).0.locks
    ensures n != m || !Owns(s, s.running, m) ==> UnlockCall(s, n).0.locks[m].waiters == s.locks[m].waiters
  {
  }

  lemma {:induction false} SameLocks<T, M>(s: Sys<T, M>, e: Event<T, M>, m: M)
    requires Shape(s) && Enabled(s, e) && m in s.locks
    ensures m in Next(s, e).locks
  {
    match e
    case DoLock(n, timeout) => LockQueue(s, n, timeout, m);
    case DoUnlock(n) => UnlockElsewhere(s, n, m);
    case DoExpire(t) =>
    case _ => SchedulingKeepsLocks(s, e);
  }

  lemma {:induction false} UnlockQueue<T, M>(s: Sys<T, M>, m: M)
    requires Shape(s) && m in s.locks && Owns(s, s.running, m)
    ensures var (l, l') := (s.locks[m], UnlockCall(s, m).0.locks[m]);
      if l.waiters == [] then !l'.locked && l'.waiters == []
      else l'.locked && l'.owner == Some(l.waiters[0]) && l'.waiters == l.waiters[1..]
  {
  }

  lemma {:induction false} ExpireWaiters<T, M>(s: Sys<T, M>, t: T, m: M)
    requires Inv(s) && Enabled(s, DoExpire(t)) && m in s.locks
    ensures ExpireCall(s, t).locks[m].waiters ==
      if s.role[t].mutex == m then Remove(s.locks[m].waiters, t) else s.locks[m].waiters
  {
    assert TaskOk(s, t);
  }

  lemma {:induction false} UnlockDrawn<T, M>(log: seq<Ticket<T>>, s: Sys<T, M>, s': Sys<T, M>, m: M)
    requires Shape(s) && m in s.locks && Owns(s, s.running, m) && s' == UnlockCall(s, m).0 && m in s'.locks
    requires InTurn(log) && Pending(log) == s.locks[m].waiters
    ensures InTurn(Drawn(log, s, DoUnlock(m), s', m)) && Pending(Drawn(log, s, DoUnlock(m), s', m)) == s'.locks[m].waiters
  {
    UnlockQueue(s, m);
    var ws := s.locks[m].waiters;
    if ws != [] {
      ServeInTurn(log);
      SettlePending(log, ws[0], Served);
    }
  }

  /** Each step keeps the tickets in turn, and the queue holds those not yet settled. */
  lemma {:induction false} DrawnInTurn<T, M>(log: seq<Ticket<T>>, s: Sys<T, M>, e: Event<T, M>, s': Sys<T, M>, m: M)
    requires Inv(s) && Step(s, e, s') && m in s.locks && m in s'.locks
    requires InTurn(log) && Pending(log) == s.locks[m].waiters
    ensures InTurn(Drawn(log, s, e, s', m)) && Pending(Drawn(log, s, e, s', m)) == s'.locks[m].waiters
  {
    match e
    case DoLock(n, timeout) =>
      LockQueue(s, n, timeout, m);
      AppendInTurn(log, s.running);
      PendingAppend(log, s.running);
    case DoUnlock(n) =>
      UnlockElsewhere(s, n, m);
      if n == m && Owns(s, s.running, m) { UnlockDrawn(log, s, s', m); }
    case DoExpire(t) =>
      ExpireWaiters(s, t, m);
      LapseInTurn(log, t);
      SettlePending(log, t, Lapsed);
    case _ => SchedulingKeepsLocks(s, e);
  }

  lemma {:induction false} StepLocks<T, M>(s: Sys<T, M>, e: Event<T, M>, s': Sys<T, M>, m: M)
    requires Step(s, e, s') && m in s.locks
    ensures m in s'.locks
  {
    SameLocks(s, e, m);
  }

  lemma {:induction false} RunLocks<T, M>(states: seq<Sys<T, M>>, events: seq<Event<T, M>>, m: M, k: nat)
    requires Steps(states, events) && m in states[0].locks && k < |states|
    ensures m in states[k].locks
  {
    if k > 0 {
      RunLocks(states, events, m, k - 1);
      assert StepAt(states, events, k - 1);
      StepLocks(states[k - 1], events[k - 1], states[k], m);
    }
  }

  lemma {:induction false} StepDrawn<T, M>(states: seq<Sys<T, M>>, events: seq<Event<T, M>>, m: M, k: nat, log: seq<Ticket<T>>)
    requires k < |events| && k + 1 < |states| && StepAt(states, events, k) && Inv(states[k]) && m in states[k].locks && m in states[k + 1].locks
    requires InTurn(log) && Pending(log) == states[k].locks[m].waiters
    ensures var log' := Drawn(log, states[k], events[k], states[k + 1], m);
      InTurn(log') && Pending(log') == states[k + 1].locks[m].waiters
  {
    DrawnInTurn(log, states[k], events[k], states[k + 1], m);
  }

  lemma {:induction false} NextDrawn<T, M>(states: seq<Sys<T, M>>, events: seq<Event<T, M>>, m: M, k: nat, log: seq<Ticket<T>>)
    requires Run(states, events) && k < |events| && m in states[k].locks && m in states[k + 1].locks
    requires InTurn(log) && Pending(log) == states[k].locks[m].waiters
    ensures var log' := Drawn(log, states[k], events[k], states[k + 1], m);
      InTurn(log') && Pending(log') == states[k + 1].locks[m].waiters
  {
    RunInv(states, events, k);
    StepDrawn(states, events, m, k, log);
  }

  lemma {:induction false} TicketsInTurn<T, M>(states: seq<Sys<T, M>>, events: seq<Event<T, M>>, m: M, k: nat)
    requires Run(states, events) && (forall i :: 0 <= i < |states| ==> m in states[i].locks) && k < |states|
    ensures InTurn(Tickets(states, events, m, k)) && Pending(Tickets(states, events, m, k)) == states[k].locks[m].waiters
  {
    if k > 0 {
      TicketsInTurn(states, events, m, k - 1);
      NextDrawn(states, events, m, k - 1, Tickets(states, events, m, k - 1));
    }
  }

  /** In every run, ownership passes in the order of arrival, passing over those whose time ran out. */
  lemma {:induction false} ServedInTurn<T, M>(states: seq<Sys<T, M>>, events: seq<Event<T, M>>, m: M, k: nat)
    requires Run(states, events) && m in states[0].locks && k < |states|
    ensures forall i :: 0 <= i < |states| ==> m in states[i].locks
    ensures InTurn(Tickets(states, events, m, k)) && Pending(Tickets(states, events, m, k)) == states[k].locks[m].waiters
  {
    forall i | 0 <= i < |states| ensures m in states[i].locks { RunLocks(states, events, m, i); }
    TicketsInTurn(states, events, m, k);
  }
}
