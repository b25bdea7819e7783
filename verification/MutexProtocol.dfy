/**
 Mutexes with priority inheritance (kernel/rx_mutex.c) over the scheduler
 (kernel/rx_sched.c, kernel/rx_task.c) as a transition system.  A state is a value;
 each kernel operation is one step, since it runs with interrupts off.
 */
module MutexProtocol {
  import opened Wrappers
  import opened ReadyQueue

  datatype Status = Suspended | Ready | Running

  /** `owner` keeps its last value when the mutex is unlocked, as the code leaves it. */
  datatype Lock<T> = Lock(locked: bool, owner: Option<T>, waiters: seq<T>)

  /**
   Where a task stands with its mutex: queued inside rx_mutex_lock, made owner but not yet
   returned from the call, owner, or woken by the timeout and not yet returned.
   */
  datatype Role<M> = Free | Waits(mutex: M, timed: bool) | Granted(mutex: M, timed: bool) | Holds(mutex: M) | Expired(mutex: M)

  datatype Code = OsOk | OsErr | Timeout | Unavailable

  datatype Sys<T, M> = Sys(
    prio: map<T, int>,        // current priorities, 0 most urgent
    orig: map<T, int>,        // priorities at creation
    status: map<T, Status>,
    role: map<T, Role<M>>,
    slice: map<T, int>,       // time slices, 0 for none
    ticks: map<T, int>,       // what is left of the slice
    ready: seq<T>,            // includes the running task
    running: T,
    locks: map<M, Lock<T>>,
    idle: T,
    timer: T)                 // the thread that runs the timeout handlers

  // ------------------------------------------------------------- the steps

  /** Every table speaks of the same tasks, and the mutexes of no others. */
  ghost predicate Shape<T, M>(s: Sys<T, M>) {
    && s.orig.Keys == s.prio.Keys && s.status.Keys == s.prio.Keys && s.role.Keys == s.prio.Keys
    && s.slice.Keys == s.prio.Keys && s.ticks.Keys == s.prio.Keys
    && s.running in s.prio && s.idle in s.prio && s.timer in s.prio
    && (forall t :: t in s.ready ==> t in s.prio)
    && (forall m :: m in s.locks ==> LockShape(s.locks[m], s.prio))
  }

  ghost predicate LockShape<T>(l: Lock<T>, prio: map<T, int>) {
    && (l.locked ==> l.owner.Some? && l.owner.value in prio)
    && (forall t :: t in l.waiters ==> t in prio)
  }

  /** The most urgent of `p` and the priorities of the waiting tasks. */
  function Best<T>(p: int, ws: seq<T>, prio: map<T, int>): (r: int)
    requires forall t :: t in ws ==> t in prio
    ensures r <= p && forall t :: t in ws ==> r <= prio[t]
    ensures r == p || exists t :: t in ws && r == prio[t]
    decreases |ws|
  {
    if ws == [] then p
    else
      var q := if prio[ws[0]] < p then prio[ws[0]] else p;
      var r := Best(q, ws[1..], prio);
      assert forall t :: t in ws ==> t == ws[0] || t in ws[1..];
      assert forall t :: t in ws[1..] ==> t in ws;
      r
  }

  function Requeue<T(==)>(ready: seq<T>, t: T, prio: map<T, int>): (r: seq<T>)
    requires t in prio
    ensures r != [] && forall x :: x in r ==> x == t || x in ready
  {
    Insert(Remove(ready, t), t, prio)
  }

  /** The head of the ready queue gets the processor, and a new slice if it has used up its own. */
  function Dispatch<T, M>(s: Sys<T, M>): (r: Sys<T, M>)
    requires Shape(s)
    ensures Shape(r) && r.locks == s.locks
  {
    if s.ready == [] then s
    else
      var t := s.ready[0];
      var ticks := if s.slice[t] != 0 && s.ticks[t] == 0 then s.ticks[t := s.slice[t]] else s.ticks;
      s.(running := t, status := s.status[t := Running], ticks := ticks)
  }

  /** A free mutex is taken by the running task. */
  function Take<T, M>(s: Sys<T, M>, m: M): (r: Sys<T, M>)
    requires Shape(s) && m in s.locks
    ensures Shape(r)
  {
    s.(locks := s.locks[m := s.locks[m].(locked := true, owner := Some(s.running))],
       role := s.role[s.running := Holds(m)])
  }

  /** The running task queues up at a locked mutex and lends its priority to the owner. */
  function Park<T(==), M>(s: Sys<T, M>, m: M, timed: bool): (r: Sys<T, M>)
    requires Shape(s) && m in s.locks && s.locks[m].locked
    ensures Shape(r)
  {
    var t, l := s.running, s.locks[m];
    var o := l.owner.value;
    var lends := s.prio[o] > s.prio[t];
    var prio := if lends then s.prio[o := s.prio[t]] else s.prio;
    var rest := Remove(s.ready, t);
    s.(prio := prio, ready := if lends && s.status[o] == Ready then Requeue(rest, o, prio) else rest,
       status := s.status[t := Suspended], role := s.role[t := Waits(m, timed)],
       locks := s.locks[m := l.(waiters := l.waiters + [t])])
  }

  /** The running task falls back to its own priority and gives the mutex up. */
  function Restore<T(==), M>(s: Sys<T, M>, m: M): (r: Sys<T, M>)
    requires Shape(s) && m in s.locks
    ensures Shape(r)
  {
    var t := s.running;
    var prio := s.prio[t := s.orig[t]];
    s.(prio := prio, ready := if s.prio[t] != s.orig[t] then Requeue(s.ready, t, prio) else s.ready,
       role := s.role[t := Free], locks := s.locks[m := s.locks[m].(locked := false)])
  }

  /** The first waiting task becomes the owner and inherits from those behind it. */
  function Grant<T, M>(s: Sys<T, M>, m: M): (r: Sys<T, M>)
    requires Shape(s) && m in s.locks && s.locks[m].waiters != []
    ensures Shape(r)
  {
    var o, rest := s.locks[m].waiters[0], s.locks[m].waiters[1..];
    assert o in s.locks[m].waiters && forall x :: x in rest ==> x in s.locks[m].waiters;
    var prio := s.prio[o := Best(s.prio[o], rest, s.prio)];
    s.(prio := prio, ready := Insert(s.ready, o, prio), status := s.status[o := Ready],
       role := s.role[o := Granted(m, s.role[o].Waits? && s.role[o].timed)],
       locks := s.locks[m := Lock(true, Some(o), rest)])
  }

  function Unlock<T(==), M>(s: Sys<T, M>, m: M): (r: Sys<T, M>)
    requires Shape(s) && m in s.locks
    ensures Shape(r)
  {
    var u := Restore(s, m);
    if s.locks[m].waiters == [] then u else Grant(u, m)
  }

  /** The timeout of `t`: it leaves the queue at `m`, and the owner may lose an inherited priority. */
  function Expire<T(==), M>(s: Sys<T, M>, m: M, t: T): (r: Sys<T, M>)
    requires Shape(s) && m in s.locks && s.locks[m].locked && t in s.prio
    ensures Shape(r)
  {
    var l := s.locks[m];
    var o, rest := l.owner.value, Remove(l.waiters, t);
    var prio := if s.prio[o] == s.prio[t] then s.prio[o := Best(s.orig[o], rest, s.prio)] else s.prio;
    var ready := if s.status[o] == Ready then Requeue(s.ready, o, prio) else s.ready;
    s.(prio := prio, ready := Insert(ready, t, prio), status := s.status[t := Ready],
       role := s.role[t := Expired(m)], locks := s.locks[m := l.(waiters := rest)])
  }

  /** What a call that had to wait returns once its task runs again. */
  function Outcome<T(==), M(==)>(s: Sys<T, M>): (r: Code)
    requires Shape(s)
  {
    match s.role[s.running]
    case Granted(m, timed) =>
      if !timed || (m in s.locks && s.locks[m].owner == Some(s.running)) then OsOk else Timeout
    case Expired(m) =>
      if m in s.locks && s.locks[m].owner == Some(s.running) then OsOk else Timeout
    case _ => OsOk
  }

  function Return<T, M>(s: Sys<T, M>): (r: Sys<T, M>)
    requires Shape(s)
    ensures Shape(r)
  {
    var t := s.running;
    match s.role[t]
    case Granted(m, _) => s.(role := s.role[t := Holds(m)])
    case Expired(_) => s.(role := s.role[t := Free])
    case _ => s
  }

  /** An interrupt that finds a reschedule pending. */
  function Preempt<T, M>(s: Sys<T, M>): (r: Sys<T, M>)
    requires Shape(s)
    ensures Shape(r) && r.locks == s.locks
  {
    Dispatch(s.(status := s.status[s.running := Ready]))
  }

  function Suspend<T(==), M>(s: Sys<T, M>, t: T): (r: Sys<T, M>)
    requires Shape(s) && t in s.prio
    ensures Shape(r)
  {
    s.(ready := Remove(s.ready, t), status := s.status[t := Suspended])
  }

  function Resume<T, M>(s: Sys<T, M>, t: T): (r: Sys<T, M>)
    requires Shape(s) && t in s.prio
    ensures Shape(r)
  {
    s.(ready := Insert(s.ready, t, s.prio), status := s.status[t := Ready])
  }

  /** The running task has used up its slice and goes behind its equals. */
  function Used<T(==), M>(s: Sys<T, M>): (r: Sys<T, M>)
    requires Shape(s)
    ensures Shape(r)
  {
    s.(ticks := s.ticks[s.running := 0], ready := Requeue(s.ready, s.running, s.prio))
  }

  /** The timer interrupt's part in time slicing. */
  function Tick<T(==), M>(s: Sys<T, M>): (r: Sys<T, M>)
    requires Shape(s)
    ensures Shape(r) && r.locks == s.locks
  {
    var t := s.running;
    if s.slice[t] <= 0 then s
    else if s.ticks[t] != 1 then s.(ticks := s.ticks[t := s.ticks[t] - 1])
    else Preempt(Used(s))
  }

  // ------------------------------------------------------------- runs

  datatype Event<T, M> =
    | DoLock(m: M, timeout: int)
    | DoUnlock(m: M)
    | DoReturn
    | DoExpire(t: T)
    | DoPreempt
    | DoTick
    | DoSuspend(t: T)
    | DoResume(t: T)

  /** The ordinary tasks: the idle task and the timer thread lock nothing and never wait. */
  predicate Worker<T(==), M>(s: Sys<T, M>, t: T) {
    t in s.prio && t != s.idle && t != s.timer
  }

  /**
   When a step can occur.  Tasks use one mutex at a time and never lock their own again;
   timeouts are handled by the timer thread; a queued task is woken by its mutex alone.
   */
  predicate Enabled<T(==), M(==)>(s: Sys<T, M>, e: Event<T, M>) {
    s.running in s.role && s.running in s.status &&
    match e
    case DoLock(m, _) => m in s.locks && Worker(s, s.running) && s.role[s.running].Free?
    case DoUnlock(m) => m in s.locks && (s.role[s.running].Free? || s.role[s.running].Holds?)
    case DoReturn => s.role[s.running].Granted? || s.role[s.running].Expired?
    case DoExpire(t) => t in s.role && s.role[t].Waits? && s.role[t].timed && s.running == s.timer
    case DoPreempt => true
    case DoTick => true
    case DoSuspend(t) => t in s.status && t != s.idle && s.status[t] != Suspended
    case DoResume(t) => t in s.status && t in s.role && s.status[t] == Suspended && !s.role[t].Waits?
  }

  /** rx_mutex_lock up to the point where it returns or the caller sleeps. */
  function LockCall<T(==), M>(s: Sys<T, M>, m: M, timeout: int): (r: (Sys<T, M>, Option<Code>))
    requires Shape(s) && m in s.locks
    ensures Shape(r.0)
  {
    if !s.locks[m].locked then (Take(s, m), Some(OsOk))
    else if timeout == 0 then (s, Some(Unavailable))
    else
      (Dispatch(Park(s, m, timeout > 0)), None)
  }

  function UnlockCall<T(==), M>(s: Sys<T, M>, m: M): (r: (Sys<T, M>, Code))
    requires Shape(s) && m in s.locks
    ensures Shape(r.0)
  {
    if !s.locks[m].locked then (s, OsOk)
    else if s.locks[m].owner != Some(s.running) then (s, OsErr)
    else (Unlock(s, m), OsOk)
  }

  function SuspendCall<T(==), M>(s: Sys<T, M>, t: T): (r: Sys<T, M>)
    requires Shape(s) && t in s.prio
    ensures Shape(r)
  {
    if t == s.running then Dispatch(Suspend(s, t)) else Suspend(s, t)
  }

  /** rx_mutex's timeout handler: a task that has become owner is left alone. */
  function ExpireCall<T(==), M>(s: Sys<T, M>, t: T): (r: Sys<T, M>)
    requires Shape(s) && t in s.prio
    ensures Shape(r)
  {
    if s.role[t].Waits? && s.role[t].mutex in s.locks && s.locks[s.role[t].mutex].locked
       && s.locks[s.role[t].mutex].owner != Some(t)
    then Expire(s, s.role[t].mutex, t)
    else s
  }

  function Next<T(==), M(==)>(s: Sys<T, M>, e: Event<T, M>): (r: Sys<T, M>)
    requires Shape(s) && Enabled(s, e)
    ensures Shape(r)
  {
    match e
    case DoLock(m, timeout) => LockCall(s, m, timeout).0
    case DoUnlock(m) => UnlockCall(s, m).0
    case DoReturn => Return(s)
    case DoExpire(t) => ExpireCall(s, t)
    case DoPreempt => Preempt(s)
    case DoTick => Tick(s)
    case DoSuspend(t) => SuspendCall(s, t)
    case DoResume(t) => Resume(s, t)
  }
}
