/** What every step of the mutex protocol keeps, and what holds in every reachable state. */
module MutexSafety {
  import opened Wrappers
  import opened ReadyQueue
  import opened MutexProtocol

  // ------------------------------------------------------------- the invariant

  /** The ready queue holds exactly the tasks that can run, in order of urgency. */
  ghost predicate Lined<T>(ready: seq<T>, prio: map<T, int>, status: map<T, Status>) {
    && NoRepeats(ready) && Sorted(ready, prio)
    && (forall t :: t in ready ==> t in status && status[t] != Suspended)
    && (forall t :: t in status && status[t] != Suspended ==> t in ready)
  }

  /** One of the tasks that can run does. */
  ghost predicate QueueOk<T, M>(s: Sys<T, M>)
    requires Shape(s)
  {
    && Lined(s.ready, s.prio, s.status)
    && (forall t :: t in s.prio ==> (s.status[t] == Running <==> t == s.running))
    && s.status[s.idle] != Suspended
  }

  /** A running task with a time slice has some of it left. */
  ghost predicate SlicesOk<T, M>(s: Sys<T, M>)
    requires Shape(s)
  {
    && (forall t :: t in s.prio ==> 0 <= s.slice[t] && 0 <= s.ticks[t])
    && (s.slice[s.running] > 0 ==> s.ticks[s.running] > 0)
  }

  ghost predicate Owning<M>(r: Role<M>, m: M) {
    (r.Granted? || r.Holds?) && r.mutex == m
  }

  /** Tasks queue only at locked mutexes, at most once, and an owner is no waiter. */
  ghost predicate LockOk<T, M>(s: Sys<T, M>, m: M)
    requires Shape(s) && m in s.locks
  {
    var l := s.locks[m];
    && (l.locked ==> Owning(s.role[l.owner.value], m))
    && (!l.locked ==> l.waiters == [])
    && NoRepeats(l.waiters)
    && (forall t :: t in l.waiters ==> s.role[t].Waits? && s.role[t].mutex == m)
  }

  /** An owner has inherited the most urgent waiting priority; everyone else has its own. */
  ghost predicate TaskOk<T, M>(s: Sys<T, M>, t: T)
    requires Shape(s) && t in s.prio
  {
    match s.role[t]
    case Free => s.prio[t] == s.orig[t]
    case Waits(m, _) =>
      && m in s.locks && s.locks[m].locked && t in s.locks[m].waiters && s.locks[m].owner != Some(t)
      && s.status[t] == Suspended && s.prio[t] == s.orig[t]
    case Expired(m) => m in s.locks && s.locks[m].owner != Some(t) && s.prio[t] == s.orig[t]
    case Granted(m, _) => m in s.locks && OwnerOk(s, m, t)
    case Holds(m) => m in s.locks && OwnerOk(s, m, t)
  }

  ghost predicate OwnerOk<T, M>(s: Sys<T, M>, m: M, t: T)
    requires Shape(s) && m in s.locks && t in s.prio
  {
    s.locks[m].locked && s.locks[m].owner == Some(t) && s.prio[t] == Best(s.orig[t], s.locks[m].waiters, s.prio)
  }

  ghost predicate RolesOk<T, M>(s: Sys<T, M>)
    requires Shape(s)
  {
    && (forall m :: m in s.locks ==> LockOk(s, m))
    && (forall t :: t in s.prio ==> TaskOk(s, t))
    && s.role[s.idle].Free? && s.role[s.timer].Free?
  }

  ghost predicate Inv<T, M>(s: Sys<T, M>) {
    Shape(s) && QueueOk(s) && SlicesOk(s) && RolesOk(s)
  }

  // ------------------------------------------------------------- the most urgent waiter

  lemma {:induction false} BestFrame<T>(p: int, ws: seq<T>, prio: map<T, int>, prio': map<T, int>)
    requires forall t :: t in ws ==> t in prio && t in prio' && prio'[t] == prio[t]
    ensures Best(p, ws, prio') == Best(p, ws, prio)
  {
  }

  lemma {:induction false} BestAppend<T>(p: int, ws: seq<T>, t: T, prio: map<T, int>)
    requires t in prio && forall x :: x in ws ==> x in prio
    ensures Best(p, ws + [t], prio) == if prio[t] < Best(p, ws, prio) then prio[t] else Best(p, ws, prio)
  {
    assert t in ws + [t] && forall x :: x in ws ==> x in ws + [t];
  }

  /** If the owner's priority is not the one `t` lent, the owner keeps it when `t` leaves. */
  lemma {:induction false} BestWithout<T>(p: int, ws: seq<T>, t: T, prio: map<T, int>)
    requires t in ws && forall x :: x in ws ==> x in prio
    requires Best(p, ws, prio) != prio[t]
    ensures (forall x :: x in Remove(ws, t) ==> x in prio) && Best(p, Remove(ws, t), prio) == Best(p, ws, prio)
  {
    RemoveKeeps(ws, t);
  }

  // ------------------------------------------------------------- what a step leaves alone

  ghost predicate Local<M>(r: Role<M>, m: M) {
    r.Free? || r.mutex == m
  }

  /** The step concerns mutex `m` and the tasks `a` and `b` only. */
  ghost predicate Frame<T, M>(s: Sys<T, M>, s': Sys<T, M>, m: M, a: T, b: T) {
    && Shape(s) && Shape(s') && s'.prio.Keys == s.prio.Keys && s'.orig == s.orig
    && s'.locks.Keys == s.locks.Keys && s'.idle == s.idle && s'.timer == s.timer
    && m in s.locks && a in s.prio && b in s.prio
    && (forall n :: n in s.locks && n != m ==> s'.locks[n] == s.locks[n])
    && (forall x :: x in s.prio && x != a && x != b ==> Untouched(s, s', x))
    && Local(s.role[a], m) && Local(s.role[b], m)
  }

  ghost predicate Untouched<T, M>(s: Sys<T, M>, s': Sys<T, M>, x: T)
    requires Shape(s) && Shape(s') && x in s.prio && s'.prio.Keys == s.prio.Keys
  {
    && s'.prio[x] == s.prio[x] && s'.role[x] == s.role[x]
    && (s.status[x] == Suspended && s.role[x].Waits? ==> s'.status[x] == Suspended)
  }

  /** The queue at `m` loses none but `a` and `b`, and ownership stays between them. */
  ghost predicate Between<T>(l: Lock<T>, l': Lock<T>, a: T, b: T) {
    && (l.locked ==> l.owner == Some(a) || l.owner == Some(b))
    && (l'.owner == l.owner || l'.owner == Some(a) || l'.owner == Some(b))
    && (forall x :: x in l.waiters && x != a && x != b ==> l'.locked && x in l'.waiters)
  }

  lemma {:induction false} FrameLock<T, M>(s: Sys<T, M>, s': Sys<T, M>, m: M, a: T, b: T, n: M)
    requires Frame(s, s', m, a, b) && n in s.locks && n != m && LockOk(s, n)
    ensures LockOk(s', n)
  {
  }

  lemma {:induction false} FrameTask<T, M>(s: Sys<T, M>, s': Sys<T, M>, m: M, a: T, b: T, x: T)
    requires Frame(s, s', m, a, b) && x in s.prio && x != a && x != b && TaskOk(s, x)
    requires !Local(s.role[x], m) && s.role[x].mutex in s.locks && LockOk(s, s.role[x].mutex)
    ensures TaskOk(s', x)
  {
    assert Untouched(s, s', x);
    var n := s.role[x].mutex;
    if s.role[x].Granted? || s.role[x].Holds? {
      var ws := s.locks[n].waiters;
      forall w | w in ws ensures s'.prio[w] == s.prio[w] {
        assert Untouched(s, s', w);
      }
      BestFrame(s.orig[x], ws, s.prio, s'.prio);
    }
  }

  lemma {:induction false} FrameNear<T, M>(s: Sys<T, M>, s': Sys<T, M>, m: M, a: T, b: T, x: T)
    requires Frame(s, s', m, a, b) && x in s.prio && x != a && x != b && TaskOk(s, x)
    requires Local(s.role[x], m) && Between(s.locks[m], s'.locks[m], a, b)
    ensures TaskOk(s', x)
  {
    assert Untouched(s, s', x);
  }

  /** So a step keeps the invariant if it does at `m`, `a` and `b`. */
  lemma {:induction false} FrameRoles<T, M>(s: Sys<T, M>, s': Sys<T, M>, m: M, a: T, b: T)
    requires Frame(s, s', m, a, b) && Between(s.locks[m], s'.locks[m], a, b) && RolesOk(s)
    requires LockOk(s', m) && TaskOk(s', a) && TaskOk(s', b)
    requires s'.role[s.idle].Free? && s'.role[s.timer].Free?
    ensures RolesOk(s')
  {
    forall n | n in s'.locks ensures LockOk(s', n) {
      if n != m { FrameLock(s, s', m, a, b, n); }
    }
    forall x | x in s'.prio ensures TaskOk(s', x) {
      if x != a && x != b {
        assert TaskOk(s, x);
        if Local(s.role[x], m) {
          FrameNear(s, s', m, a, b, x);
        } else {
          FrameTask(s, s', m, a, b, x);
        }
      }
    }
  }

  // ------------------------------------------------------------- the ready queue

  lemma {:induction false} LinedRemove<T>(ready: seq<T>, prio: map<T, int>, status: map<T, Status>, t: T)
    requires Lined(ready, prio, status)
    ensures Lined(Remove(ready, t), prio, status[t := Suspended])
  {
    RemoveFacts(ready, t);
    RemoveSorted(ready, t, prio);
  }

  lemma {:induction false} LinedInsert<T>(ready: seq<T>, prio: map<T, int>, status: map<T, Status>, t: T)
    requires Lined(ready, prio, status) && t in prio && t !in ready
    ensures Lined(Insert(ready, t, prio), prio, status[t := Ready])
  {
    InsertFacts(ready, t, prio);
    InsertSorted(ready, t, prio);
  }

  /** Changing a queued task's priority and queueing it anew keeps the queue in order. */
  lemma {:induction false} LinedRequeue<T>(ready: seq<T>, prio: map<T, int>, status: map<T, Status>, t: T, p: int)
    requires Lined(ready, prio, status) && t in ready
    ensures Lined(Requeue(ready, t, prio[t := p]), prio[t := p], status)
  {
    var rest, prio' := Remove(ready, t), prio[t := p];
    RemoveFacts(ready, t);
    RemoveSorted(ready, t, prio);
    SortedFrame(rest, prio, prio');
    InsertFacts(rest, t, prio');
    InsertSorted(rest, t, prio');
  }

  lemma {:induction false} LinedPrio<T>(ready: seq<T>, prio: map<T, int>, status: map<T, Status>, t: T, p: int)
    requires Lined(ready, prio, status) && (t in ready ==> t in prio && prio[t] == p)
    ensures Lined(ready, prio[t := p], status)
  {
    SortedFrame(ready, prio, prio[t := p]);
  }

  lemma {:induction false} LinedStatus<T>(ready: seq<T>, prio: map<T, int>, status: map<T, Status>, t: T, u: Status)
    requires Lined(ready, prio, status) && t in ready && u != Suspended
    ensures Lined(ready, prio, status[t := u])
  {
  }

  /** The head of an orderly queue takes over from nobody. */
  lemma {:induction false} DispatchQueue<T, M>(s: Sys<T, M>)
    requires Shape(s) && Lined(s.ready, s.prio, s.status) && s.status[s.idle] != Suspended
    requires forall t :: t in s.prio ==> s.status[t] != Running
    ensures QueueOk(Dispatch(s))
  {
    assert s.idle in s.ready && s.ready[0] in s.ready;
    LinedStatus(s.ready, s.prio, s.status, s.ready[0], Running);
  }

  /** A task of new priority, moved in the queue if it is there. */
  lemma {:induction false} LinedMoved<T>(ready: seq<T>, prio: map<T, int>, status: map<T, Status>, t: T, p: int)
    requires Lined(ready, prio, status) && t in prio
    ensures var ready' := if t in ready then Requeue(ready, t, prio[t := p]) else ready;
      Lined(ready', prio[t := p], status)
  {
    if t in ready {
      LinedRequeue(ready, prio, status, t, p);
    } else {
      LinedPrio(ready, prio, status, t, p);
    }
  }

  lemma {:induction false} ParkLined<T, M>(s: Sys<T, M>, m: M, timed: bool)
    requires Shape(s) && m in s.locks && s.locks[m].locked && s.locks[m].owner.value != s.running
    requires Lined(s.ready, s.prio, s.status)
    requires var o := s.locks[m].owner.value; s.status[o] != Running
    ensures var s' := Park(s, m, timed); Lined(s'.ready, s'.prio, s'.status)
  {
    var t, o := s.running, s.locks[m].owner.value;
    var rest, status := Remove(s.ready, t), s.status[t := Suspended];
    LinedRemove(s.ready, s.prio, s.status, t);
    assert o in rest <==> s.status[o] == Ready;
    if s.prio[o] > s.prio[t] {
      LinedMoved(rest, s.prio, status, o, s.prio[t]);
    }
  }

  lemma {:induction false} ParkQueue<T, M>(s: Sys<T, M>, m: M, timed: bool)
    requires Shape(s) && QueueOk(s) && m in s.locks && s.locks[m].locked
    requires s.locks[m].owner.value != s.running && s.running != s.idle
    ensures QueueOk(Dispatch(Park(s, m, timed)))
  {
    ParkLined(s, m, timed);
    DispatchQueue(Park(s, m, timed));
  }

  lemma {:induction false} RestoreQueue<T, M>(s: Sys<T, M>, m: M)
    requires Shape(s) && QueueOk(s) && m in s.locks
    ensures QueueOk(Restore(s, m))
  {
    var t := s.running;
    assert t in s.ready;
    if s.prio[t] != s.orig[t] {
      LinedRequeue(s.ready, s.prio, s.status, t, s.orig[t]);
    } else {
      LinedPrio(s.ready, s.prio, s.status, t, s.orig[t]);
    }
  }

  lemma {:induction false} GrantQueue<T, M>(s: Sys<T, M>, m: M)
    requires Shape(s) && QueueOk(s) && m in s.locks && s.locks[m].waiters != []
    requires s.locks[m].waiters[0] in s.status && s.status[s.locks[m].waiters[0]] == Suspended
    ensures QueueOk(Grant(s, m))
  {
    var s' := Grant(s, m);
    var o := s.locks[m].waiters[0];
    LinedPrio(s.ready, s.prio, s.status, o, s'.prio[o]);
    LinedInsert(s.ready, s'.prio, s.status, o);
  }

  lemma {:induction false} LinedExpired<T>(ready: seq<T>, prio: map<T, int>, status: map<T, Status>, o: T, p: int, t: T)
    requires Lined(ready, prio, status) && o in prio && t in prio && t != o
    requires o in status && t in status && status[o] != Running && status[t] == Suspended
    ensures var prio' := prio[o := p];
      var ready' := if status[o] == Ready then Requeue(ready, o, prio') else ready;
      Lined(Insert(ready', t, prio'), prio', status[t := Ready])
  {
    var prio' := prio[o := p];
    var ready' := if status[o] == Ready then Requeue(ready, o, prio') else ready;
    assert o in ready <==> status[o] == Ready;
    LinedMoved(ready, prio, status, o, p);
    LinedInsert(ready', prio', status, t);
  }

  /** The priority that the owner has when `t` has left the queue at `m`. */
  ghost function Fallen<T, M>(s: Sys<T, M>, m: M, t: T): int
    requires Shape(s) && m in s.locks && s.locks[m].locked && t in s.prio
  {
    var o := s.locks[m].owner.value;
    if s.prio[o] == s.prio[t] then Best(s.orig[o], Remove(s.locks[m].waiters, t), s.prio) else s.prio[o]
  }

  /** What the ready queue and the priorities are then. */
  ghost predicate Lapsed<T, M>(s: Sys<T, M>, s': Sys<T, M>, o: T, p: int, t: T)
    requires Shape(s) && o in s.prio && t in s.prio
  {
    var prio := s.prio[o := p];
    && s'.prio == prio && s'.status == s.status[t := Ready] && s'.running == s.running && s'.idle == s.idle
    && s'.ready == Insert(if s.status[o] == Ready then Requeue(s.ready, o, prio) else s.ready, t, prio)
  }

  lemma {:induction false} ExpireLapsed<T, M>(s: Sys<T, M>, m: M, t: T)
    requires Shape(s) && m in s.locks && s.locks[m].locked && t in s.prio
    ensures Lapsed(s, Expire(s, m, t), s.locks[m].owner.value, Fallen(s, m, t), t)
  {
    Unwritten(s.prio, s.locks[m].owner.value);
  }

  lemma {:induction false} LapsedQueue<T, M>(s: Sys<T, M>, s': Sys<T, M>, o: T, p: int, t: T)
    requires Shape(s) && Shape(s') && QueueOk(s) && o in s.prio && t in s.prio && Lapsed(s, s', o, p, t)
    requires o != s.running && s.status[t] == Suspended && t != o
    ensures QueueOk(s')
  {
    LinedExpired(s.ready, s.prio, s.status, o, p, t);
  }

  lemma {:induction false} ExpireQueue<T, M>(s: Sys<T, M>, m: M, t: T)
    requires Shape(s) && QueueOk(s) && m in s.locks && s.locks[m].locked && s.locks[m].owner.value != s.running
    requires t in s.prio && s.status[t] == Suspended && t != s.locks[m].owner.value
    ensures QueueOk(Expire(s, m, t))
  {
    ExpireLapsed(s, m, t);
    LapsedQueue(s, Expire(s, m, t), s.locks[m].owner.value, Fallen(s, m, t), t);
  }

  lemma {:induction false} PreemptQueue<T, M>(s: Sys<T, M>)
    requires Shape(s) && QueueOk(s)
    ensures QueueOk(Preempt(s))
  {
    assert s.running in s.ready;
    LinedStatus(s.ready, s.prio, s.status, s.running, Ready);
    DispatchQueue(s.(status := s.status[s.running := Ready]));
  }

  lemma {:induction false} SuspendQueue<T, M>(s: Sys<T, M>, t: T)
    requires Shape(s) && QueueOk(s) && t in s.prio && t != s.idle
    ensures QueueOk(SuspendCall(s, t))
  {
    LinedRemove(s.ready, s.prio, s.status, t);
    if t == s.running {
      DispatchQueue(Suspend(s, t));
    }
  }

  lemma {:induction false} ResumeQueue<T, M>(s: Sys<T, M>, t: T)
    requires Shape(s) && QueueOk(s) && t in s.prio && s.status[t] == Suspended
    ensures QueueOk(Resume(s, t))
  {
    LinedInsert(s.ready, s.prio, s.status, t);
  }

  // ------------------------------------------------------------- roles and priorities

  lemma {:induction false} TakeRoles<T, M>(s: Sys<T, M>, m: M)
    requires Shape(s) && RolesOk(s) && m in s.locks && !s.locks[m].locked && Worker(s, s.running) && s.role[s.running].Free?
    ensures RolesOk(Take(s, m))
  {
    assert LockOk(s, m) && TaskOk(s, s.running);
    FrameRoles(s, Take(s, m), m, s.running, s.running);
  }

  lemma {:induction false} AcquiredRoles<T, M>(s: Sys<T, M>)
    requires Shape(s) && RolesOk(s) && s.role[s.running].Granted?
    ensures RolesOk(Return(s))
  {
    var t, m := s.running, s.role[s.running].mutex;
    assert TaskOk(s, t) && LockOk(s, m);
    FrameRoles(s, Return(s), m, t, t);
  }

  /** Whoever owns the mutex that the timed-out task waited for. */
  ghost function OwnerOr<T, M>(s: Sys<T, M>, m: M, t: T): T
    requires Shape(s) && m in s.locks
  {
    if s.locks[m].locked then s.locks[m].owner.value else t
  }

  lemma {:induction false} TimedOutFrame<T, M>(s: Sys<T, M>, m: M)
    requires Shape(s) && m in s.locks && s.role[s.running] == Expired(m) && LockOk(s, m)
    ensures var (s', t) := (Return(s), s.running); var o := OwnerOr(s, m, t);
      Frame(s, s', m, t, o) && Between(s.locks[m], s'.locks[m], t, o)
  {
  }

  lemma {:induction false} TimedOutNear<T, M>(s: Sys<T, M>, m: M)
    requires Shape(s) && m in s.locks && s.role[s.running] == Expired(m) && LockOk(s, m) && TaskOk(s, s.running)
    requires var o := OwnerOr(s, m, s.running); o in s.prio && TaskOk(s, o)
    ensures var (s', t) := (Return(s), s.running); var o := OwnerOr(s, m, t);
      LockOk(s', m) && TaskOk(s', t) && TaskOk(s', o)
  {
  }

  lemma {:induction false} TimedOutRoles<T, M>(s: Sys<T, M>)
    requires Shape(s) && RolesOk(s) && s.role[s.running].Expired?
    ensures RolesOk(Return(s))
  {
    var t, m := s.running, s.role[s.running].mutex;
    assert TaskOk(s, t) && LockOk(s, m);
    assert TaskOk(s, OwnerOr(s, m, t));
    TimedOutFrame(s, m);
    TimedOutNear(s, m);
    FrameRoles(s, Return(s), m, t, OwnerOr(s, m, t));
  }

  lemma {:induction false} ParkWaiters<T, M>(s: Sys<T, M>, m: M, timed: bool)
    requires Shape(s) && m in s.locks && s.locks[m].locked && s.role[s.running].Free? && LockOk(s, m)
    ensures LockOk(Park(s, m, timed), m)
  {
    var ws := s.locks[m].waiters;
    assert s.running !in ws;
    assert forall i :: 0 <= i < |ws| ==> ws[i] in ws;
  }

  lemma {:induction false} ParkOwner<T, M>(s: Sys<T, M>, m: M, timed: bool)
    requires Shape(s) && m in s.locks && s.locks[m].locked && LockOk(s, m) && s.role[s.running].Free?
    requires OwnerOk(s, m, s.locks[m].owner.value)
    ensures var (s', o) := (Park(s, m, timed), s.locks[m].owner.value);
      TaskOk(s', o)
  {
    var t, o, s' := s.running, s.locks[m].owner.value, Park(s, m, timed);
    var ws := s.locks[m].waiters;
    BestFrame(s.orig[o], ws, s.prio, s'.prio);
    BestAppend(s.orig[o], ws, t, s'.prio);
  }

  lemma {:induction false} ParkNear<T, M>(s: Sys<T, M>, m: M, timed: bool)
    requires Shape(s) && m in s.locks && s.locks[m].locked && s.role[s.running].Free?
    requires LockOk(s, m) && TaskOk(s, s.running) && TaskOk(s, s.locks[m].owner.value)
    ensures var (s', o) := (Park(s, m, timed), s.locks[m].owner.value);
      LockOk(s', m) && TaskOk(s', s.running) && TaskOk(s', o)
  {
    ParkWaiters(s, m, timed);
    ParkOwner(s, m, timed);
    assert s.running in s.locks[m].waiters + [s.running];
  }

  lemma {:induction false} ParkFrame<T, M>(s: Sys<T, M>, m: M, timed: bool)
    requires Shape(s) && m in s.locks && s.locks[m].locked && s.role[s.running].Free?
    requires Owning(s.role[s.locks[m].owner.value], m)
    ensures var (s', o) := (Park(s, m, timed), s.locks[m].owner.value);
      Frame(s, s', m, s.running, o) && Between(s.locks[m], s'.locks[m], s.running, o)
  {
  }

  lemma {:induction false} ParkRoles<T, M>(s: Sys<T, M>, m: M, timed: bool)
    requires Shape(s) && RolesOk(s) && m in s.locks && s.locks[m].locked && Worker(s, s.running) && s.role[s.running].Free?
    ensures RolesOk(Park(s, m, timed))
  {
    var o := s.locks[m].owner.value;
    assert LockOk(s, m) && TaskOk(s, s.running) && TaskOk(s, o);
    ParkNear(s, m, timed);
    ParkFrame(s, m, timed);
    FrameRoles(s, Park(s, m, timed), m, s.running, o);
  }

  lemma {:induction false} FreedRoles<T, M>(s: Sys<T, M>, m: M)
    requires Shape(s) && RolesOk(s) && m in s.locks && s.locks[m].locked && s.locks[m].owner == Some(s.running)
    requires s.locks[m].waiters == []
    ensures RolesOk(Restore(s, m))
  {
    assert LockOk(s, m) && TaskOk(s, s.running);
    FrameRoles(s, Restore(s, m), m, s.running, s.running);
  }

  /** The priorities after the running task has handed over to `o`. */
  ghost predicate HandedPrio<T, M>(s: Sys<T, M>, prio: map<T, int>, o: T, rest: seq<T>)
    requires Shape(s) && o in s.prio
  {
    && prio.Keys == s.prio.Keys && prio[s.running] == s.orig[s.running]
    && (forall x :: x in s.prio && x != s.running && x != o ==> prio[x] == s.prio[x])
    && (forall x :: x in rest ==> x in s.prio && x != o && x != s.running)
    && prio[o] == Best(s.prio[o], rest, prio)
  }

  /** What handing `m` over to `o` changes, but for the ready queue. */
  ghost predicate Handed<T, M>(s: Sys<T, M>, s': Sys<T, M>, m: M, o: T)
    requires Shape(s) && m in s.locks && s.locks[m].waiters != [] && o in s.prio
  {
    var t, rest := s.running, s.locks[m].waiters[1..];
    && s'.orig == s.orig && s'.idle == s.idle && s'.timer == s.timer
    && HandedPrio(s, s'.prio, o, rest)
    && s'.status == s.status[o := Ready]
    && s'.role == s.role[t := Free][o := Granted(m, s.role[o].Waits? && s.role[o].timed)]
    && s'.locks == s.locks[m := Lock(true, Some(o), rest)]
  }

  lemma {:induction false} HandPrio<T, M>(s: Sys<T, M>, prio: map<T, int>, o: T, rest: seq<T>)
    requires Shape(s) && o in s.prio && o != s.running && prio == s.prio[s.running := s.orig[s.running]]
    requires forall x :: x in rest ==> x in s.prio && x != o && x != s.running
    ensures HandedPrio(s, prio[o := Best(s.prio[o], rest, prio)], o, rest)
  {
    BestFrame(s.prio[o], rest, prio, prio[o := Best(s.prio[o], rest, prio)]);
  }

  lemma {:induction false} HeadApart<T>(ws: seq<T>)
    requires NoRepeats(ws) && ws != []
    ensures forall x :: x in ws[1..] ==> x in ws && x != ws[0]
  {
    assert forall i :: 0 <= i < |ws[1..]| ==> ws[1..][i] == ws[i + 1];
  }

  lemma {:induction false} UnlockPrio<T, M>(s: Sys<T, M>, m: M)
    requires Shape(s) && m in s.locks && s.locks[m].waiters != [] && NoRepeats(s.locks[m].waiters)
    requires s.running !in s.locks[m].waiters
    ensures s.locks[m].waiters[0] in s.prio && HandedPrio(s, Unlock(s, m).prio, s.locks[m].waiters[0], s.locks[m].waiters[1..])
  {
    var ws, u := s.locks[m].waiters, Restore(s, m);
    assert ws[0] in ws;
    HeadApart(ws);
    HandPrio(s, u.prio, ws[0], ws[1..]);
    assert u.locks[m].waiters == ws && Grant(u, m).prio == u.prio[ws[0] := Best(s.prio[ws[0]], ws[1..], u.prio)];
  }

  lemma {:induction false} UnlockHands<T, M>(s: Sys<T, M>, m: M)
    requires Shape(s) && m in s.locks && s.locks[m].waiters != [] && NoRepeats(s.locks[m].waiters)
    requires s.running !in s.locks[m].waiters
    ensures s.locks[m].waiters[0] in s.prio && Handed(s, Unlock(s, m), m, s.locks[m].waiters[0])
  {
    UnlockPrio(s, m);
    var ws := s.locks[m].waiters;
    assert ws[0] in ws;
    Overwrite(s.locks, m, s.locks[m].(locked := false), Lock(true, Some(ws[0]), ws[1..]));
  }

  lemma {:induction false} HandedNear<T, M>(s: Sys<T, M>, s': Sys<T, M>, m: M)
    requires Shape(s) && Shape(s') && m in s.locks && s.locks[m].owner == Some(s.running) && s.locks[m].waiters != []
    requires s.locks[m].locked && LockOk(s, m) && s.locks[m].waiters[0] in s.prio && TaskOk(s, s.locks[m].waiters[0])
    requires s.locks[m].waiters[0] in s.locks[m].waiters && Handed(s, s', m, s.locks[m].waiters[0])
    ensures LockOk(s', m) && TaskOk(s', s.running) && TaskOk(s', s.locks[m].waiters[0])
  {
    var ws := s.locks[m].waiters;
    assert forall x :: x in ws[1..] ==> x in ws;
  }

  lemma {:induction false} HandedFrame<T, M>(s: Sys<T, M>, s': Sys<T, M>, m: M, o: T)
    requires Shape(s) && Shape(s') && m in s.locks && s.locks[m].waiters != [] && o in s.prio && Handed(s, s', m, o)
    requires Local(s.role[s.running], m) && Local(s.role[o], m)
    ensures Frame(s, s', m, s.running, o)
  {
  }

  lemma {:induction false} HandedBetween<T, M>(s: Sys<T, M>, s': Sys<T, M>, m: M)
    requires Shape(s) && m in s.locks && s.locks[m].owner == Some(s.running) && s.locks[m].waiters != []
    requires m in s'.locks && s'.locks[m] == Lock(true, Some(s.locks[m].waiters[0]), s.locks[m].waiters[1..])
    ensures Between(s.locks[m], s'.locks[m], s.running, s.locks[m].waiters[0])
  {
    var ws := s.locks[m].waiters;
    assert forall x :: x in ws && x != ws[0] ==> x in ws[1..];
  }

  lemma {:induction false} UnlockRoles<T, M>(s: Sys<T, M>, m: M)
    requires Shape(s) && RolesOk(s) && m in s.locks && s.locks[m].locked && s.locks[m].owner == Some(s.running)
    ensures RolesOk(Unlock(s, m))
  {
    var ws := s.locks[m].waiters;
    if ws == [] {
      FreedRoles(s, m);
    } else {
      assert LockOk(s, m) && ws[0] in ws && TaskOk(s, ws[0]);
      UnlockHands(s, m);
      HandedNear(s, Unlock(s, m), m);
      HandedFrame(s, Unlock(s, m), m, ws[0]);
      HandedBetween(s, Unlock(s, m), m);
      FrameRoles(s, Unlock(s, m), m, s.running, ws[0]);
    }
  }

  lemma {:induction false} ExpireNear<T, M>(s: Sys<T, M>, m: M, t: T)
    requires Shape(s) && m in s.locks && s.locks[m].locked && t in s.prio && s.role[t].Waits? && s.role[t].mutex == m
    requires LockOk(s, m) && TaskOk(s, t) && TaskOk(s, s.locks[m].owner.value)
    ensures var (s', o) := (Expire(s, m, t), s.locks[m].owner.value);
      LockOk(s', m) && TaskOk(s', t) && TaskOk(s', o)
  {
    var o, s', ws := s.locks[m].owner.value, Expire(s, m, t), s.locks[m].waiters;
    RemoveFacts(ws, t);
    if s.prio[o] != s.prio[t] {
      BestWithout(s.orig[o], ws, t, s.prio);
    }
    BestFrame(s.orig[o], Remove(ws, t), s.prio, s'.prio);
  }

  lemma {:induction false} ExpireFrame<T, M>(s: Sys<T, M>, m: M, t: T)
    requires Shape(s) && m in s.locks && s.locks[m].locked && t in s.prio && s.role[t].Waits? && s.role[t].mutex == m
    requires Owning(s.role[s.locks[m].owner.value], m)
    ensures var (s', o) := (Expire(s, m, t), s.locks[m].owner.value);
      Frame(s, s', m, t, o) && Between(s.locks[m], s'.locks[m], t, o)
  {
    RemoveKeeps(s.locks[m].waiters, t);
  }

  lemma {:induction false} ExpireRoles<T, M>(s: Sys<T, M>, m: M, t: T)
    requires Shape(s) && RolesOk(s) && t in s.prio && s.role[t].Waits? && s.role[t].mutex == m
    requires m in s.locks && s.locks[m].locked
    ensures RolesOk(Expire(s, m, t))
  {
    var o := s.locks[m].owner.value;
    assert LockOk(s, m) && TaskOk(s, t) && TaskOk(s, o);
    ExpireNear(s, m, t);
    ExpireFrame(s, m, t);
    FrameRoles(s, Expire(s, m, t), m, t, o);
  }

  /** Who runs and who is asleep matters only to the tasks that wait. */
  lemma {:induction false} StatusRoles<T, M>(s: Sys<T, M>, s': Sys<T, M>)
    requires Shape(s) && Shape(s') && RolesOk(s)
    requires s'.prio == s.prio && s'.orig == s.orig && s'.role == s.role && s'.locks == s.locks
    requires s'.idle == s.idle && s'.timer == s.timer
    requires forall t :: t in s.prio && s.role[t].Waits? ==> s'.status[t] == s.status[t]
    ensures RolesOk(s')
  {
    forall m | m in s'.locks ensures LockOk(s', m) { assert LockOk(s, m); }
    forall t | t in s'.prio ensures TaskOk(s', t) { assert TaskOk(s, t); }
  }

  // ------------------------------------------------------------- every step

  lemma {:induction false} DispatchSlices<T, M>(s: Sys<T, M>)
    requires Shape(s) && s.idle in s.ready && forall t :: t in s.prio ==> 0 <= s.slice[t] && 0 <= s.ticks[t]
    ensures SlicesOk(Dispatch(s))
  {
    assert s.ready[0] in s.ready;
  }

  lemma {:induction false} DispatchRoles<T, M>(s: Sys<T, M>)
    requires Shape(s) && RolesOk(s) && Lined(s.ready, s.prio, s.status)
    ensures RolesOk(Dispatch(s))
  {
    if s.ready != [] {
      assert s.ready[0] in s.ready;
      assert TaskOk(s, s.ready[0]);
      StatusRoles(s, Dispatch(s));
    }
  }

  lemma {:induction false} BlockInv<T, M>(s: Sys<T, M>, m: M, timed: bool)
    requires Inv(s) && m in s.locks && s.locks[m].locked && Worker(s, s.running) && s.role[s.running].Free?
    ensures Inv(Dispatch(Park(s, m, timed)))
  {
    assert LockOk(s, m);
    ParkRoles(s, m, timed);
    ParkQueue(s, m, timed);
    ParkLined(s, m, timed);
    DispatchRoles(Park(s, m, timed));
    DispatchSlices(Park(s, m, timed));
  }

  lemma {:induction false} LockInv<T, M>(s: Sys<T, M>, m: M, timeout: int)
    requires Inv(s) && Enabled(s, DoLock(m, timeout))
    ensures Inv(LockCall(s, m, timeout).0)
  {
    if !s.locks[m].locked {
      TakeRoles(s, m);
    } else if timeout != 0 {
      BlockInv(s, m, timeout > 0);
    }
  }

  lemma {:induction false} UnlockInv<T, M>(s: Sys<T, M>, m: M)
    requires Inv(s) && m in s.locks
    ensures Inv(UnlockCall(s, m).0)
  {
    if s.locks[m].locked && s.locks[m].owner == Some(s.running) {
      UnlockRoles(s, m);
      RestoreQueue(s, m);
      var ws := s.locks[m].waiters;
      if ws != [] {
        assert LockOk(s, m) && ws[0] in ws && TaskOk(s, ws[0]);
        GrantQueue(Restore(s, m), m);
      }
    }
  }

  lemma {:induction false} ExpireInv<T, M>(s: Sys<T, M>, t: T)
    requires Inv(s) && Enabled(s, DoExpire(t))
    ensures Inv(ExpireCall(s, t))
  {
    var m := s.role[t].mutex;
    assert TaskOk(s, t) && LockOk(s, m);
    ExpireRoles(s, m, t);
    ExpireQueue(s, m, t);
  }

  lemma {:induction false} ReturnInv<T, M>(s: Sys<T, M>)
    requires Inv(s) && Enabled(s, DoReturn)
    ensures Inv(Return(s))
  {
    if s.role[s.running].Granted? {
      AcquiredRoles(s);
    } else {
      TimedOutRoles(s);
    }
  }

  /** Only the queue, the processor and the slices change, and no waiting task is queued. */
  ghost predicate Rescheduled<T, M>(s: Sys<T, M>, s': Sys<T, M>) {
    && Shape(s) && Shape(s')
    && s'.prio == s.prio && s'.orig == s.orig && s'.role == s.role && s'.locks == s.locks
    && s'.idle == s.idle && s'.timer == s.timer
    && (forall x :: x in s'.ready ==> x in s.ready || !s.role[x].Waits?)
  }

  lemma {:induction false} SchedInv<T, M>(s: Sys<T, M>, s': Sys<T, M>)
    requires Inv(s) && Rescheduled(s, s') && QueueOk(s') && SlicesOk(s')
    ensures Inv(s')
  {
    forall t | t in s.prio && s.role[t].Waits? ensures s'.status[t] == s.status[t] {
      assert TaskOk(s, t);
    }
    StatusRoles(s, s');
  }

  lemma {:induction false} PreemptKeeps<T, M>(s: Sys<T, M>)
    requires Shape(s) && s.idle in s.ready && forall t :: t in s.prio ==> 0 <= s.slice[t] && 0 <= s.ticks[t]
    ensures Rescheduled(s, Preempt(s)) && SlicesOk(Preempt(s))
  {
    DispatchSlices(s.(status := s.status[s.running := Ready]));
  }

  lemma {:induction false} PreemptInv<T, M>(s: Sys<T, M>)
    requires Inv(s)
    ensures Inv(Preempt(s))
  {
    PreemptQueue(s);
    PreemptKeeps(s);
    SchedInv(s, Preempt(s));
  }

  lemma {:induction false} UsedKeeps<T, M>(s: Sys<T, M>)
    requires Shape(s) && QueueOk(s) && SlicesOk(s)
    ensures Rescheduled(s, Used(s)) && QueueOk(Used(s))
    ensures forall t :: t in s.prio ==> 0 <= Used(s).slice[t] && 0 <= Used(s).ticks[t]
  {
    assert s.running in s.ready;
    Unwritten(s.prio, s.running);
    LinedRequeue(s.ready, s.prio, s.status, s.running, s.prio[s.running]);
  }

  lemma {:induction false} TurnInv<T, M>(s: Sys<T, M>)
    requires Inv(s)
    ensures Inv(Preempt(Used(s)))
  {
    UsedKeeps(s);
    PreemptQueue(Used(s));
    PreemptKeeps(Used(s));
    SchedInv(s, Preempt(Used(s)));
  }

  lemma {:induction false} CountInv<T, M>(s: Sys<T, M>, k: int)
    requires Inv(s) && k > 0
    ensures Inv(s.(ticks := s.ticks[s.running := k]))
  {
    SchedInv(s, s.(ticks := s.ticks[s.running := k]));
  }

  lemma {:induction false} TickInv<T, M>(s: Sys<T, M>)
    requires Inv(s)
    ensures Inv(Tick(s))
  {
    if s.slice[s.running] > 0 {
      if s.ticks[s.running] == 1 { TurnInv(s); } else { CountInv(s, s.ticks[s.running] - 1); }
    }
  }

  lemma {:induction false} SuspendSlices<T, M>(s: Sys<T, M>, t: T)
    requires Shape(s) && SlicesOk(s) && t in s.prio && t != s.idle && s.idle in s.ready
    ensures SlicesOk(SuspendCall(s, t)) && Rescheduled(s, SuspendCall(s, t))
  {
    RemoveKeeps(s.ready, t);
    if t == s.running { DispatchSlices(Suspend(s, t)); }
  }

  lemma {:induction false} SuspendInv<T, M>(s: Sys<T, M>, t: T)
    requires Inv(s) && Enabled(s, DoSuspend(t))
    ensures Inv(SuspendCall(s, t))
  {
    SuspendQueue(s, t);
    SuspendSlices(s, t);
    SchedInv(s, SuspendCall(s, t));
  }

  lemma {:induction false} ResumeInv<T, M>(s: Sys<T, M>, t: T)
    requires Inv(s) && Enabled(s, DoResume(t))
    ensures Inv(Resume(s, t))
  {
    ResumeQueue(s, t);
    SchedInv(s, Resume(s, t));
  }

  lemma {:induction false} StepInv<T, M>(s: Sys<T, M>, e: Event<T, M>)
    requires Inv(s) && Enabled(s, e)
    ensures Inv(Next(s, e))
  {
    match e
    case DoLock(m, timeout) => LockInv(s, m, timeout);
    case DoUnlock(m) => UnlockInv(s, m);
    case DoReturn => ReturnInv(s);
    case DoExpire(t) => ExpireInv(s, t);
    case DoPreempt => PreemptInv(s);
    case DoTick => TickInv(s);
    case DoSuspend(t) => SuspendInv(s, t);
    case DoResume(t) => ResumeInv(s, t);
  }
}
