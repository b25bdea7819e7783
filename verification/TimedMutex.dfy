/**
 Mutexes with the timers that their timed calls start and stop (kernel/rx_mutex.c with
 kernel/rx_timer.c).
 */
module TimedMutex {
  import opened Wrappers
  import opened Words
  import opened ReadyQueue
  import opened Chains
  import opened MutexProtocol
  import opened MutexSafety
  import opened Kernel
  import opened TimerQueue
  import opened Timers

  /** The timer on the stack of a task that waits at a mutex, or any other timer. */
  datatype Alarm<T, A> = Wait(task: T) | Other(id: A)

  ghost predicate TimedWait<M>(r: Role<M>) {
    r.Waits? && r.timed
  }

  // ------------------------------------------------------------- roles after each call

  lemma {:induction false} LockRole<T, M>(s: Sys<T, M>, m: M, timeout: int)
    requires Shape(s) && m in s.locks
    ensures LockCall(s, m, timeout).0.role ==
      if !s.locks[m].locked then s.role[s.running := Holds(m)]
      else if timeout == 0 then s.role else s.role[s.running := Waits(m, timeout > 0)]
  {
  }

  /** The task that unlocking `m` wakes. */
  ghost function Woken<T, M>(s: Sys<T, M>, m: M): Option<T>
    requires m in s.locks
  {
    var l := s.locks[m];
    if l.locked && l.owner == Some(s.running) && l.waiters != [] then Some(l.waiters[0]) else None
  }

  lemma {:induction false} WokenWaits<T, M>(s: Sys<T, M>, m: M)
    requires Inv(s) && m in s.locks && Woken(s, m).Some?
    ensures var o := Woken(s, m).value; o in s.role && s.role[o].Waits? && o != s.running && s.running in s.role && !s.role[s.running].Waits?
  {
    var l := s.locks[m];
    assert LockOk(s, m) && l.waiters[0] in l.waiters;
  }

  lemma {:induction false} UnlockRole<T, M>(s: Sys<T, M>, m: M)
    requires Shape(s) && m in s.locks
    ensures UnlockCall(s, m).0.role ==
      if !s.locks[m].locked || s.locks[m].owner != Some(s.running) then s.role
      else if s.locks[m].waiters == [] then s.role[s.running := Free]
      else var o := s.locks[m].waiters[0];
        s.role[s.running := Free][o := UnlockCall(s, m).0.role[o]]
    ensures Woken(s, m).Some? ==> var o := Woken(s, m).value; o in UnlockCall(s, m).0.role && UnlockCall(s, m).0.role[o].Granted?
  {
    var l := s.locks[m];
    if l.waiters != [] { assert l.waiters[0] in l.waiters; }
  }

  lemma {:induction false} ExpireRole<T, M>(s: Sys<T, M>, t: T)
    requires Inv(s) && t in s.role && s.role[t].Waits?
    ensures ExpireCall(s, t).role == s.role[t := Expired(s.role[t].mutex)]
  {
    assert TaskOk(s, t);
  }

  // ------------------------------------------------------------- timers and waiting tasks

  /** The timer of `t` is set exactly if `t` waits with a timeout. */
  ghost predicate Set<T, M, A>(t: T, r: Role<M>, w: Wheel<Alarm<T, A>>, alarmed: set<T>, wants: map<T, M>) {
    && (Wait(t) in w.active <==> TimedWait(r)) && (Wait(t) in w.enabled <==> TimedWait(r)) && (t in alarmed <==> TimedWait(r))
    && (r.Waits? ==> t in wants && wants[t] == r.mutex)
  }

  ghost predicate AllSet<T, M, A>(role: map<T, Role<M>>, w: Wheel<Alarm<T, A>>, alarmed: set<T>, wants: map<T, M>) {
    forall t :: t in role ==> Set(t, role[t], w, alarmed, wants)
  }

  lemma {:induction false} SetArmed<T, M, A>(role: map<T, Role<M>>, w: Wheel<Alarm<T, A>>, alarmed: set<T>, wants: map<T, M>, t: T, m: M, e: int)
    requires AllSet(role, w, alarmed, wants) && Fit(w) && t in role && role[t].Free?
    ensures AllSet(role[t := Waits(m, true)], Armed(w, Wait(t), e), alarmed + {t}, wants[t := m])
  {
    ArmedFit(w, Wait(t), e);
  }

  /** A task that does not wait with a timeout, before and after. */
  lemma {:induction false} SetOther<T, M, A>(role: map<T, Role<M>>, w: Wheel<Alarm<T, A>>, alarmed: set<T>, wants: map<T, M>, t: T, r: Role<M>)
    requires AllSet(role, w, alarmed, wants) && t in role && !TimedWait(role[t]) && !TimedWait(r)
    requires r.Waits? ==> t in wants && wants[t] == r.mutex
    ensures AllSet(role[t := r], w, alarmed, wants)
  {
  }

  lemma {:induction false} SetStopped<T, M, A>(role: map<T, Role<M>>, w: Wheel<Alarm<T, A>>, alarmed: set<T>, wants: map<T, M>, t: T, r: Role<M>,
                                               w': Wheel<Alarm<T, A>>)
    requires AllSet(role, w, alarmed, wants) && Fit(w) && t in role && !r.Waits?
    requires w'.active == Remove(w.active, Wait(t)) && w'.enabled == w.enabled - {Wait(t)}
    ensures AllSet(role[t := r], w', alarmed - {t}, wants)
  {
    RemoveFacts(w.active, Wait(t));
  }

  // ------------------------------------------------------------- the kernel and its timers

  class TimedKernel<T(==), M(==), A(==)> {
    const kernel: RtKernel<T, M>
    const timers: ActiveTimers<Alarm<T, A>>
    var wants: map<T, M>                // the mutex a task waits for
    var alarmed: set<T>                 // the tasks with a timer

    lemma {:induction false} Separate()
      ensures (kernel as object) != this && (kernel as object) != timers && (timers as object) != this
    {
    }

    ghost predicate Valid()
      reads this, kernel, timers
    {
      kernel.Valid() && timers.Valid() && AllSet(kernel.role, timers.View(), alarmed, wants)
    }

    constructor (kernel: RtKernel<T, M>, timers: ActiveTimers<Alarm<T, A>>)
      requires kernel.Valid() && timers.Valid() && timers.active == [] && timers.enabled == {}
      requires forall t :: t in kernel.role ==> kernel.role[t].Free?
      ensures Valid() && this.kernel == kernel && this.timers == timers
    {
      this.kernel, this.timers, wants, alarmed := kernel, timers, map[], {};
    }

    /** The timer of `t`, which is about to wait at `m`. */
    method SetTimer(t: T, m: M, timeout: int, jiffies: int, ghost role: map<T, Role<M>>)
      requires timers.Valid() && AllSet(role, timers.View(), alarmed, wants) && t in role && role[t].Free?
      modifies this, timers
      ensures timers.Valid() && timers.View() == if timeout > 0
        then Armed(old(timers.View()), Wait(t), (timeout + jiffies) % W32) else old(timers.View())
      ensures AllSet(role[t := Waits(m, timeout > 0)], timers.View(), alarmed, wants)
    {
      wants := wants[t := m];
      if timeout > 0 {
        SetArmed(role, timers.View(), alarmed, old(wants), t, m, (timeout + jiffies) % W32);
        timers.Add(Wait(t), timeout, jiffies);
        alarmed := alarmed + {t};
      } else {
        SetOther(role, timers.View(), alarmed, wants, t, Waits(m, false));
      }
    }

    /** What the calling task `t` has to set before it takes `m` or waits for it. */
    method Prepare(t: T, m: M, locked: bool, timeout: int, jiffies: int, ghost role: map<T, Role<M>>)
      requires timers.Valid() && AllSet(role, timers.View(), alarmed, wants) && t in role && role[t].Free?
      modifies this, timers
      ensures timers.Valid() && timers.View() == if locked && timeout > 0
        then Armed(old(timers.View()), Wait(t), (timeout + jiffies) % W32) else old(timers.View())
      ensures AllSet(if !locked then role[t := Holds(m)] else if timeout == 0 then role else role[t := Waits(m, timeout > 0)],
                     timers.View(), alarmed, wants)
    {
      if !locked {
        SetOther(role, timers.View(), alarmed, wants, t, Holds(m));
      } else if timeout != 0 {
        SetTimer(t, m, timeout, jiffies, role);
      }
    }

    lemma {:induction false} LockFacts(m: M, timeout: int)
      requires kernel.Valid() && Enabled(kernel.Abs(), DoLock(m, timeout))
      ensures m in kernel.mutex && kernel.running in kernel.role && kernel.role[kernel.running].Free?
      ensures var (t, locked, s') := (kernel.running, kernel.mutex[m].locked, LockCall(kernel.Abs(), m, timeout));
        && s'.0.role == (if !locked then kernel.role[t := Holds(m)]
                         else if timeout == 0 then kernel.role else kernel.role[t := Waits(m, timeout > 0)])
        && (s'.1 == None <==> locked && timeout != 0)
    {
      kernel.LockFields(m);
      LockRole(kernel.Abs(), m, timeout);
    }

    /** rx_mutex_lock with __rx_mutex_timeout. */
    method Lock(m: M, timeout: int, jiffies: int) returns (r: Option<Code>)
      requires Valid() && Enabled(kernel.Abs(), DoLock(m, timeout))
      modifies this, kernel, timers
      ensures Valid() && (kernel.Abs(), r) == LockCall(old(kernel.Abs()), m, timeout)
      ensures timers.View() == if r == None && timeout > 0
        then Armed(old(timers.View()), Wait(old(kernel.running)), (timeout + jiffies) % W32) else old(timers.View())
    {
      Separate();
      LockFacts(m, timeout);
      Prepare(kernel.running, m, kernel.mutex[m].locked, timeout, jiffies, kernel.role);
      r := kernel.MutexLock(m, timeout);
    }

    /** `if (t->timer)`: stops the timer of `t` if it has one. */
    method StopFor(t: T) returns (fault: bool)
      requires timers.Valid() && (t in alarmed <==> Wait(t) in timers.active) && (t in alarmed <==> Wait(t) in timers.enabled)
      modifies this, timers
      ensures fault <==> t in old(alarmed) && LastNotFirst(old(timers.active), Wait(t))
      ensures !fault ==> timers.Valid() && timers.expiry == old(timers.expiry) && timers.active == Remove(old(timers.active), Wait(t))
      ensures !fault ==> timers.enabled == old(timers.enabled) - {Wait(t)} && alarmed == old(alarmed) - {t} && wants == old(wants)
    {
      fault := false;
      if t in alarmed {
        fault := timers.StopTimer(Wait(t));
        if !fault { alarmed := alarmed - {t}; }
      } else {
        RemoveAbsent(timers.active, Wait(t));
      }
    }

    /** Stops the timer of a task that is woken, whose role becomes `r`. */
    method StopWoken(woken: Option<T>, ghost role: map<T, Role<M>>, ghost r: Role<M>) returns (fault: bool)
      requires timers.Valid() && AllSet(role, timers.View(), alarmed, wants) && (woken.Some? ==> woken.value in role && !r.Waits?)
      modifies this, timers
      ensures fault <==> woken.Some? && TimedWait(role[woken.value]) && LastNotFirst(old(timers.active), Wait(woken.value))
      ensures !fault ==> timers.Valid() && timers.expiry == old(timers.expiry)
      ensures !fault ==> timers.active == if woken.Some? then Remove(old(timers.active), Wait(woken.value)) else old(timers.active)
      ensures !fault ==> timers.enabled == old(timers.enabled) - if woken.Some? then {Wait(woken.value)} else {}
      ensures !fault ==> AllSet(if woken.Some? then role[woken.value := r] else role, timers.View(), alarmed, wants)
    {
      ghost var w := timers.View();
      fault := false;
      if woken.Some? {
        assert Set(woken.value, role[woken.value], w, alarmed, wants);
        fault := StopFor(woken.value);
        if !fault { SetStopped(role, w, old(alarmed), wants, woken.value, r, timers.View()); }
      }
    }

    /**
     rx_mutex_unlock with the timer it stops.  `fault` stands for the access through a null
     link in rx_stop_timer; nothing is promised about the state then.
     */
    method Unlock(m: M) returns (code: Code, fault: bool)
      requires Valid() && Enabled(kernel.Abs(), DoUnlock(m))
      modifies this, kernel, timers
      ensures fault <==> Faults(old(kernel.Abs()), old(timers.active), m)
      ensures !fault ==> Valid() && (kernel.Abs(), code) == UnlockCall(old(kernel.Abs()), m)
      ensures !fault ==> timers.expiry == old(timers.expiry) && timers.active == Stopped(old(kernel.Abs()), old(timers.active), m)
      ensures !fault ==> timers.enabled == old(timers.enabled) - if Woken(old(kernel.Abs()), m).Some? then {Wait(Woken(old(kernel.Abs()), m).value)} else {}
    {
      Separate();
      kernel.LockFields(m);
      var owns := kernel.mutex[m].locked && kernel.mutex[m].owner == Some(kernel.running);
      ghost var role, r := UnlockSet(kernel.Abs(), m, timers.View(), alarmed, wants);
      code := OsErr;
      fault := StopWoken(if owns then kernel.mutex[m].task else None, role, r);
      if !fault { code := kernel.MutexUnlock(m); }
    }

    /** The first timer, of a waiting task, leaves the list. */
    method PopWait(t: T, jiffies: int)
      requires timers.Valid() && timers.head == Some(Wait(t))
      modifies timers
      ensures timers.Valid() && old(timers.active) != [] && timers.active == old(timers.active)[1..] == Remove(old(timers.active), Wait(t))
      ensures timers.enabled == old(timers.enabled) - {Wait(t)} && timers.expiry == old(timers.expiry)
    {
      ghost var q := timers.active;
      RemoveAt(q, 0);
      assert q[..0] + q[1..] == q[1..];
      var x := timers.PopHead(Setup(map[], map[Wait(t) := []], jiffies));
    }

    method TakeTimer(t: T, jiffies: int, ghost role: map<T, Role<M>>, ghost r: Role<M>)
      requires timers.Valid() && timers.head == Some(Wait(t)) && AllSet(role, timers.View(), alarmed, wants) && t in role && !r.Waits?
      modifies timers, this`alarmed
      ensures timers.Valid() && old(timers.active) != [] && timers.active == old(timers.active)[1..]
      ensures timers.enabled == old(timers.enabled) - {Wait(t)} && timers.expiry == old(timers.expiry)
      ensures AllSet(role[t := r], timers.View(), alarmed, wants)
    {
      ghost var w := timers.View();
      PopWait(t, jiffies);
      SetStopped(role, w, alarmed, wants, t, r, timers.View());
      alarmed := alarmed - {t};
    }

    /** The timer thread finds the timer of a waiting task first in the list. */
    method FireWait(jiffies: int)
      requires Valid() && kernel.running == kernel.timer
      requires timers.head.Some? && timers.head.value.Wait? && timers.head.value.task in kernel.role
      modifies this, kernel, timers
      ensures Valid() && old(timers.active) != [] && timers.active == old(timers.active)[1..]
      ensures timers.enabled == old(timers.enabled - {timers.head.value}) && timers.expiry == old(timers.expiry)
      ensures var t := old(timers.head).value.task;
        Enabled(old(kernel.Abs()), DoExpire(t)) && kernel.Abs() == ExpireCall(old(kernel.Abs()), t)
    {
      Separate();
      ghost var s, w := kernel.Abs(), timers.View();
      var t := timers.head.value.task;
      HeadWaits(s, w, t, alarmed, wants);
      ExpireRole(s, t);
      TakeTimer(t, jiffies, s.role, Expired(s.role[t].mutex));
      kernel.MutexHandler(wants[t], t);
    }
  }

  // ------------------------------------------------------------- what the calls do to the pairing

  /** The roles with the running task released, and the new role of the woken task. */
  lemma {:induction false} UnlockSet<T, M, A>(s: Sys<T, M>, m: M, w: Wheel<Alarm<T, A>>, alarmed: set<T>, wants: map<T, M>)
    returns (role: map<T, Role<M>>, r: Role<M>)
    requires Inv(s) && m in s.locks && AllSet(s.role, w, alarmed, wants)
    ensures AllSet(role, w, alarmed, wants)
    ensures var o := Woken(s, m); o.Some? ==> o.value in role && o.value in s.role && role[o.value] == s.role[o.value] && !r.Waits?
    ensures UnlockCall(s, m).0.role == if Woken(s, m).Some? then role[Woken(s, m).value := r] else role
  {
    role, r := s.role, Free;
    UnlockRole(s, m);
    if s.locks[m].locked && s.locks[m].owner == Some(s.running) {
      OwnerNotTimed(s, m);
      SetOther(s.role, w, alarmed, wants, s.running, Free);
      role := s.role[s.running := Free];
      if s.locks[m].waiters != [] {
        WokenWaits(s, m);
        r := UnlockCall(s, m).0.role[s.locks[m].waiters[0]];
      }
    }
  }

  lemma {:induction false} HeadWaits<T, M, A>(s: Sys<T, M>, w: Wheel<Alarm<T, A>>, t: T, alarmed: set<T>, wants: map<T, M>)
    requires Shape(s) && AllSet(s.role, w, alarmed, wants) && w.active != [] && w.active[0] == Wait(t) && t in s.role
    ensures TimedWait(s.role[t]) && t in wants && wants[t] == s.role[t].mutex
    ensures s.running == s.timer ==> Enabled(s, DoExpire(t))
  {
    assert w.active[0] in w.active && Set(t, s.role[t], w, alarmed, wants);
  }

  predicate LastNotFirst<N(==)>(active: seq<N>, p: N) {
    |active| > 1 && active[|active| - 1] == p
  }

  /** Unlocking `m` wakes a task whose timer is last but not first in the list. */
  ghost predicate Faults<T, M, A>(s: Sys<T, M>, active: seq<Alarm<T, A>>, m: M) {
    && m in s.locks && Woken(s, m).Some? && Woken(s, m).value in s.role && TimedWait(s.role[Woken(s, m).value])
    && LastNotFirst(active, Wait(Woken(s, m).value))
  }

  ghost function Stopped<T, M, A>(s: Sys<T, M>, active: seq<Alarm<T, A>>, m: M): seq<Alarm<T, A>> {
    if m in s.locks && Woken(s, m).Some? then Remove(active, Wait(Woken(s, m).value)) else active
  }

  lemma {:induction false} OwnerNotTimed<T, M>(s: Sys<T, M>, m: M)
    requires Inv(s) && m in s.locks && s.locks[m].locked && s.locks[m].owner == Some(s.running)
    ensures s.running in s.role && !s.role[s.running].Waits?
  {
    assert LockOk(s, m);
  }
}
