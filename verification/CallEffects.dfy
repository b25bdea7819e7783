/**
 What each kernel call does, said of the states before and after it.  Queues are described by
 who stands where, and whatever is not mentioned stays as it was.
 */
module CallEffects {
  import opened Wrappers
  import opened ReadyQueue
  import opened MutexProtocol
  import opened MutexSafety
  import opened MutexRuns

  // ------------------------------------------------------------- queues

  /** `t` stands behind all that are at least as urgent, and the others keep their order. */
  ghost predicate JoinsAt<T>(q: seq<T>, q': seq<T>, t: T, prio: map<T, int>, k: nat) {
    && k <= |q| && t in prio && Known(q, prio) && q' == q[..k] + [t] + q[k..]
    && (forall i :: 0 <= i < k ==> prio[q[i]] <= prio[t])
    && (forall i :: k <= i < |q| ==> prio[t] < prio[q[i]])
  }

  ghost predicate Joins<T>(q: seq<T>, q': seq<T>, t: T, prio: map<T, int>) {
    exists k: nat :: JoinsAt(q, q', t, prio, k)
  }

  /** All but `t`, in their order. */
  function Others<T(==)>(q: seq<T>, t: T): seq<T> {
    if q == [] then [] else if q[0] == t then Others(q[1..], t) else [q[0]] + Others(q[1..], t)
  }

  ghost predicate Leaves<T>(q: seq<T>, q': seq<T>, t: T) {
    t in q && q' == Others(q, t)
  }

  /** `t` has gone behind those at least as urgent. */
  ghost predicate Moves<T>(q: seq<T>, q': seq<T>, t: T, prio: map<T, int>) {
    t in q && Joins(Others(q, t), q', t, prio)
  }

  lemma {:induction false} InsertJoins<T>(q: seq<T>, t: T, prio: map<T, int>)
    requires t in prio && Sorted(q, prio)
    ensures Joins(q, Insert(q, t, prio), t, prio)
  {
    var k := Place(q, prio[t], prio);
    assert JoinsAt(q, Insert(q, t, prio), t, prio, k);
  }

  lemma {:induction false} OthersAbsent<T>(q: seq<T>, t: T)
    requires t !in q
    ensures Others(q, t) == q
  {
    if q != [] { OthersAbsent(q[1..], t); }
  }

  lemma {:induction false} RemoveOthers<T>(q: seq<T>, t: T)
    requires NoRepeats(q)
    ensures Remove(q, t) == Others(q, t)
  {
    if q != [] {
      if q[0] == t {
        assert forall i :: 0 <= i < |q[1..]| ==> q[1..][i] == q[i + 1];
        OthersAbsent(q[1..], t);
      } else {
        RemoveOthers(q[1..], t);
      }
    }
  }

  lemma {:induction false} OthersAppend<T>(a: seq<T>, b: seq<T>, t: T)
    ensures Others(a + b, t) == Others(a, t) + Others(b, t)
  {
    if a == [] {
      assert a + b == b;
    } else {
      assert (a + b)[1..] == a[1..] + b;
      OthersAppend(a[1..], b, t);
    }
  }

  lemma {:induction false} PutOthers<T>(a: seq<T>, t: T, b: seq<T>)
    requires t !in a && t !in b
    ensures Others(a + [t] + b, t) == a + b
  {
    OthersAppend(a + [t], b, t);
    OthersAppend(a, [t], t);
    OthersAbsent(a, t);
    OthersAbsent(b, t);
    assert Others([t], t) == [];
  }

  lemma {:induction false} InsertOthers<T>(q: seq<T>, t: T, prio: map<T, int>)
    requires t !in q && t in prio
    ensures Others(Insert(q, t, prio), t) == q
  {
    var k := Place(q, prio[t], prio);
    PutOthers(q[..k], t, q[k..]);
    assert q == q[..k] + q[k..];
  }

  lemma {:induction false} RequeueMoves<T>(q: seq<T>, t: T, prio: map<T, int>)
    requires NoRepeats(q) && t in q && t in prio && Sorted(Remove(q, t), prio)
    ensures Moves(q, Requeue(q, t, prio), t, prio)
  {
    RemoveOthers(q, t);
    InsertJoins(Remove(q, t), t, prio);
  }

  lemma {:induction false} JoinsEarlier<T>(q: seq<T>, a: seq<T>, b: seq<T>, t: T, prio: map<T, int>, j: nat, k: nat)
    requires JoinsAt(q, a, t, prio, j) && JoinsAt(q, b, t, prio, k)
    ensures k <= j
  {
    assert j == |q| || prio[t] < prio[q[j]];
  }

  lemma {:induction false} JoinsOnce<T>(q: seq<T>, a: seq<T>, b: seq<T>, t: T, prio: map<T, int>)
    requires Joins(q, a, t, prio) && Joins(q, b, t, prio)
    ensures a == b
  {
    var j: nat :| JoinsAt(q, a, t, prio, j);
    var k: nat :| JoinsAt(q, b, t, prio, k);
    if j < k { JoinsEarlier(q, a, b, t, prio, j, k); }
    if k < j { JoinsEarlier(q, b, a, t, prio, k, j); }
  }

  // ------------------------------------------------------------- tables

  /** `g` is `f` except, perhaps, at `ks`. */
  ghost predicate Only<K, V>(f: map<K, V>, g: map<K, V>, ks: set<K>) {
    g.Keys == f.Keys && forall k :: k in f && k !in ks ==> g[k] == f[k]
  }

  /** What no call changes. */
  ghost predicate Fixed<T, M>(s: Sys<T, M>, s': Sys<T, M>) {
    Shape(s) && Shape(s') && s'.orig == s.orig && s'.slice == s.slice && s'.idle == s.idle && s'.timer == s.timer
  }

  /** The processor and the time slices stay as they were. */
  ghost predicate Quiet<T, M>(s: Sys<T, M>, s': Sys<T, M>) {
    Fixed(s, s') && s'.running == s.running && s'.ticks == s.ticks
  }

  /** Priorities, roles and mutexes stay as they were. */
  ghost predicate Unasked<T, M>(s: Sys<T, M>, s': Sys<T, M>) {
    Fixed(s, s') && s'.prio == s.prio && s'.role == s.role && s'.locks == s.locks
  }

  /** What is left of a slice when its task gets the processor. */
  function Allowance<T>(slice: map<T, int>, ticks: map<T, int>, t: T): int
    requires t in slice && t in ticks
  {
    if ticks[t] == 0 then slice[t] else ticks[t]
  }

  /** The first of the queue runs, with a new slice if the old one is used up; `t` ran before. */
  ghost predicate Switches<T, M>(s: Sys<T, M>, s': Sys<T, M>, t: T, status: Status) {
    && Fixed(s, s') && s'.ready != [] && s'.running == s'.ready[0]
    && Started(s.status, s'.status, s'.running, t, status) && Supplied(s.slice, s.ticks, s'.ticks, s'.running)
  }

  ghost predicate Started<T>(status: map<T, Status>, status': map<T, Status>, h: T, t: T, left: Status) {
    && t in status && h in status && Only(status, status', {t, h})
    && status'[h] == Running && (h != t ==> status'[t] == left)
  }

  ghost predicate Supplied<T>(slice: map<T, int>, ticks: map<T, int>, ticks': map<T, int>, h: T) {
    h in slice && h in ticks && Only(ticks, ticks', {h}) && ticks'[h] == Allowance(slice, ticks, h)
  }

  // ------------------------------------------------------------- the calls

  ghost predicate Locks<T, M>(s: Sys<T, M>, m: M, timeout: int, s': Sys<T, M>) {
    && m in s.locks
    && if !s.locks[m].locked then TakesLock(s, m, s') else if timeout == 0 then s' == s else WaitsAt(s, m, timeout > 0, s')
  }

  ghost predicate TakesLock<T, M>(s: Sys<T, M>, m: M, s': Sys<T, M>) {
    && Quiet(s, s') && s'.prio == s.prio && s'.status == s.status && s'.ready == s.ready
    && Only(s.role, s'.role, {s.running}) && s'.role[s.running] == Holds(m)
    && Only(s.locks, s'.locks, {m}) && m in s.locks && s'.locks[m] == Lock(true, Some(s.running), s.locks[m].waiters)
  }

  /** The caller sleeps behind the other waiters, and the owner is as urgent as it. */
  ghost predicate WaitsAt<T, M>(s: Sys<T, M>, m: M, timed: bool, s': Sys<T, M>) {
    && m in s.locks && s.locks[m].locked && Switches(s, s', s.running, Suspended)
    && var (t, l, o) := (s.running, s.locks[m], s.locks[m].owner.value);
      && Only(s.role, s'.role, {t}) && s'.role[t] == Waits(m, timed)
      && Only(s.locks, s'.locks, {m}) && s'.locks[m] == Lock(true, Some(o), l.waiters + [t])
      && Only(s.prio, s'.prio, {o}) && s'.prio[o] == (if s.prio[t] < s.prio[o] then s.prio[t] else s.prio[o])
      && t in s.ready && Urged(Others(s.ready, t), s'.ready, o, s, s'.prio)
  }

  /** A task that can run and whose priority has changed goes behind its new equals. */
  ghost predicate Urged<T, M>(q: seq<T>, q': seq<T>, o: T, s: Sys<T, M>, prio: map<T, int>)
    requires Shape(s) && o in s.prio && o in prio
  {
    if prio[o] != s.prio[o] && s.status[o] != Suspended then Moves(q, q', o, prio) else q' == q
  }

  ghost predicate Unlocks<T, M>(s: Sys<T, M>, m: M, s': Sys<T, M>) {
    && m in s.locks
    && if !Owns(s, s.running, m) then s' == s
       else if s.locks[m].waiters == [] then GivesUp(s, m, s') else HandsOver(s, m, s')
  }

  ghost predicate GivesUp<T, M>(s: Sys<T, M>, m: M, s': Sys<T, M>) {
    && Quiet(s, s') && s'.status == s.status
    && var t := s.running;
      && Only(s.role, s'.role, {t}) && s'.role[t] == Free
      && Only(s.prio, s'.prio, {t}) && s'.prio[t] == s.orig[t] && Urged(s.ready, s'.ready, t, s, s'.prio)
      && Only(s.locks, s'.locks, {m}) && m in s.locks && s'.locks[m] == Lock(false, Some(t), [])
  }

  /** The first waiter becomes the owner and as urgent as the most urgent of the others. */
  ghost predicate HandsOver<T, M>(s: Sys<T, M>, m: M, s': Sys<T, M>) {
    && Quiet(s, s') && m in s.locks && s.locks[m].waiters != [] && s.locks[m].waiters[0] in s.prio
    && (forall x :: x in s.locks[m].waiters[1..] ==> x in s.prio)
    && var (t, o, rest) := (s.running, s.locks[m].waiters[0], s.locks[m].waiters[1..]);
      && Only(s.role, s'.role, {t, o}) && s'.role[t] == Free && s'.role[o] == Granted(m, s.role[o].Waits? && s.role[o].timed)
      && Only(s.status, s'.status, {o}) && s'.status[o] == Ready
      && Only(s.prio, s'.prio, {t, o}) && s'.prio[t] == s.orig[t] && s'.prio[o] == Best(s.orig[o], rest, s.prio)
      && Only(s.locks, s'.locks, {m}) && s'.locks[m] == Lock(true, Some(o), rest)
      && Urged(s.ready, Others(s'.ready, o), t, s, s'.prio) && Joins(Others(s'.ready, o), s'.ready, o, s'.prio)
  }

  /** The waiter whose time is up leaves, and the owner is as urgent as the most urgent of the others. */
  ghost predicate Expires<T, M>(s: Sys<T, M>, t: T, s': Sys<T, M>) {
    && Quiet(s, s') && t in s.prio && s.role[t].Waits? && s.role[t].mutex in s.locks && s.locks[s.role[t].mutex].locked
    && var m := s.role[t].mutex;
    && var (l, o) := (s.locks[m], s.locks[m].owner.value);
      && Only(s.role, s'.role, {t}) && s'.role[t] == Expired(m)
      && Only(s.status, s'.status, {t}) && s'.status[t] == Ready
      && Only(s.locks, s'.locks, {m}) && s'.locks[m].locked && s'.locks[m].owner == Some(o)
      && Leaves(l.waiters, s'.locks[m].waiters, t) && (forall x :: x in s'.locks[m].waiters ==> x in s.prio)
      && Only(s.prio, s'.prio, {o}) && s'.prio[o] == Best(s.orig[o], s'.locks[m].waiters, s.prio)
      && Roused(s.ready, Others(s'.ready, t), o, s, s'.prio) && Joins(Others(s'.ready, t), s'.ready, t, s'.prio)
  }

  /** The owner, if it is ready to run, goes behind its equals in any case. */
  ghost predicate Roused<T, M>(q: seq<T>, q': seq<T>, o: T, s: Sys<T, M>, prio: map<T, int>)
    requires Shape(s) && o in s.prio
  {
    if s.status[o] == Ready then Moves(q, q', o, prio) else q' == q
  }

  /** The call that waited comes back, as owner or not. */
  ghost predicate Returns<T, M>(s: Sys<T, M>, s': Sys<T, M>) {
    && Quiet(s, s') && s'.prio == s.prio && s'.status == s.status && s'.ready == s.ready && s'.locks == s.locks
    && var t := s.running;
      && Only(s.role, s'.role, {t}) && !s.role[t].Free?
      && s'.role[t] == if Owns(s, t, s.role[t].mutex) then Holds(s.role[t].mutex) else Free
  }

  ghost predicate Preempts<T, M>(s: Sys<T, M>, s': Sys<T, M>) {
    Unasked(s, s') && s'.ready == s.ready && Switches(s, s', s.running, Ready)
  }

  /** The running task loses a tick of its slice; with the last one it goes behind its equals. */
  ghost predicate Ticks<T, M>(s: Sys<T, M>, s': Sys<T, M>) {
    && Unasked(s, s')
    && var t := s.running;
      if s.slice[t] == 0 then s' == s
      else if s.ticks[t] > 1 then
        && s'.running == t && s'.status == s.status && s'.ready == s.ready
        && Only(s.ticks, s'.ticks, {t}) && s'.ticks[t] == s.ticks[t] - 1
      else Moves(s.ready, s'.ready, t, s.prio) && Switches(s.(ticks := s.ticks[t := 0]), s', t, Ready)
  }

  /** `t` does not run any more until it is resumed. */
  ghost predicate Suspends<T, M>(s: Sys<T, M>, t: T, s': Sys<T, M>) {
    && Unasked(s, s') && Leaves(s.ready, s'.ready, t)
    && if t == s.running then Switches(s, s', t, Suspended)
       else s'.running == s.running && s'.ticks == s.ticks && Only(s.status, s'.status, {t}) && t in s.status && s'.status[t] == Suspended
  }

  ghost predicate Resumes<T, M>(s: Sys<T, M>, t: T, s': Sys<T, M>) {
    && Unasked(s, s') && s'.running == s.running && s'.ticks == s.ticks
    && Joins(s.ready, s'.ready, t, s.prio) && Only(s.status, s'.status, {t}) && t in s.status && s'.status[t] == Ready
  }

  ghost predicate Effect<T, M>(s: Sys<T, M>, e: Event<T, M>, s': Sys<T, M>) {
    match e
    case DoLock(m, timeout) => Locks(s, m, timeout, s')
    case DoUnlock(m) => Unlocks(s, m, s')
    case DoReturn => Returns(s, s')
    case DoExpire(t) => Expires(s, t, s')
    case DoPreempt => Preempts(s, s')
    case DoTick => Ticks(s, s')
    case DoSuspend(t) => Suspends(s, t, s')
    case DoResume(t) => Resumes(s, t, s')
  }

  // ------------------------------------------------------------- the steps have these effects

  /** A state in which the first of the queue is dispatched. */
  ghost predicate Dispatched<T, M>(u: Sys<T, M>, s': Sys<T, M>) {
    && u.ready != [] && s'.running == u.ready[0] && s'.running in u.status && s'.status == u.status[s'.running := Running]
    && Supplied(u.slice, u.ticks, s'.ticks, s'.running)
    && s'.prio == u.prio && s'.role == u.role && s'.locks == u.locks && s'.ready == u.ready
    && s'.orig == u.orig && s'.slice == u.slice && s'.idle == u.idle && s'.timer == u.timer
  }

  lemma {:induction false} DispatchIs<T, M>(u: Sys<T, M>)
    requires Shape(u) && u.ready != []
    ensures Dispatched(u, Dispatch(u))
  {
    assert u.ready[0] in u.ready;
  }

  lemma {:induction false} DispatchSwitches<T, M>(s: Sys<T, M>, u: Sys<T, M>, s': Sys<T, M>, t: T, status: Status)
    requires Dispatched(u, s') && Fixed(s, s') && t in s.status
    requires Only(s.status, u.status, {t}) && u.status[t] == status && u.ticks == s.ticks
    ensures Switches(s, s', t, status)
  {
  }

  lemma {:induction false} RunningQueued<T, M>(s: Sys<T, M>)
    requires Inv(s)
    ensures s.running in s.ready && s.idle in s.ready
  {
    assert s.status[s.running] == Running;
  }

  /** A task whose priority changes goes to its new place in a queue that is in order otherwise. */
  lemma {:induction false} Repositioned<T>(q: seq<T>, o: T, prio: map<T, int>, prio': map<T, int>)
    requires NoRepeats(q) && Sorted(q, prio) && o in q && Only(prio, prio', {o}) && o in prio
    ensures Moves(q, Requeue(q, o, prio'), o, prio')
  {
    RemoveFacts(q, o);
    RemoveSorted(q, o, prio);
    SortedFrame(Remove(q, o), prio, prio');
    RequeueMoves(q, o, prio');
  }

  lemma {:induction false} OwnerApart<T, M>(s: Sys<T, M>, m: M)
    requires Inv(s) && m in s.locks && s.locks[m].locked && s.role[s.running].Free?
    ensures s.locks[m].owner.value != s.running && s.locks[m].owner.value in s.prio
  {
    assert LockOk(s, m);
  }

  lemma {:induction false} ParkQueue<T, M>(s: Sys<T, M>, m: M, timed: bool)
    requires Inv(s) && m in s.locks && s.locks[m].locked && s.role[s.running].Free? && s.running != s.idle
    ensures var u := Park(s, m, timed);
      s.running in s.ready && u.ready != [] && Urged(Others(s.ready, s.running), u.ready, s.locks[m].owner.value, s, u.prio)
  {
    var t, o, u := s.running, s.locks[m].owner.value, Park(s, m, timed);
    OwnerApart(s, m);
    RunningQueued(s);
    RemoveOthers(s.ready, t);
    RemoveFacts(s.ready, t);
    RemoveSorted(s.ready, t, s.prio);
    if s.prio[o] > s.prio[t] && s.status[o] == Ready {
      Repositioned(Remove(s.ready, t), o, s.prio, u.prio);
    }
  }

  lemma {:induction false} ParkTables<T, M>(s: Sys<T, M>, m: M, timed: bool)
    requires Shape(s) && m in s.locks && s.locks[m].locked
    ensures var (u, t, l, o) := (Park(s, m, timed), s.running, s.locks[m], s.locks[m].owner.value);
      && Fixed(s, u) && Only(s.status, u.status, {t}) && u.status[t] == Suspended && u.ticks == s.ticks
      && Only(s.role, u.role, {t}) && u.role[t] == Waits(m, timed)
      && Only(s.locks, u.locks, {m}) && u.locks[m] == Lock(true, Some(o), l.waiters + [t])
      && Only(s.prio, u.prio, {o}) && u.prio[o] == (if s.prio[t] < s.prio[o] then s.prio[t] else s.prio[o])
  {
  }

  lemma {:induction false} WaitEffect<T, M>(s: Sys<T, M>, m: M, timed: bool, u: Sys<T, M>, s': Sys<T, M>)
    requires Inv(s) && m in s.locks && s.locks[m].locked && s.role[s.running].Free? && s.running != s.idle
    requires u == Park(s, m, timed) && Dispatched(u, s') && Shape(s')
    ensures WaitsAt(s, m, timed, s')
  {
    ParkTables(s, m, timed);
    ParkQueue(s, m, timed);
    DispatchSwitches(s, u, s', s.running, Suspended);
  }

  lemma {:induction false} TakeEffect<T, M>(s: Sys<T, M>, m: M)
    requires Shape(s) && m in s.locks
    ensures TakesLock(s, m, Take(s, m))
  {
  }

  lemma {:induction false} LockEffect<T, M>(s: Sys<T, M>, m: M, timeout: int)
    requires Inv(s) && Enabled(s, DoLock(m, timeout))
    ensures Locks(s, m, timeout, LockCall(s, m, timeout).0)
  {
    TakeEffect(s, m);
    if s.locks[m].locked && timeout != 0 {
      var u := Park(s, m, timeout > 0);
      ParkQueue(s, m, timeout > 0);
      DispatchIs(u);
      WaitEffect(s, m, timeout > 0, u, Dispatch(u));
    }
  }

  lemma {:induction false} RestoreQueue<T, M>(s: Sys<T, M>, m: M)
    requires Inv(s) && m in s.locks
    ensures var u := Restore(s, m);
      && Urged(s.ready, u.ready, s.running, s, u.prio) && Lined(u.ready, u.prio, s.status)
  {
    var t, u := s.running, Restore(s, m);
    RunningQueued(s);
    if s.prio[t] != s.orig[t] {
      Repositioned(s.ready, t, s.prio, u.prio);
      RemoveFacts(s.ready, t);
      RemoveSorted(s.ready, t, s.prio);
      SortedFrame(Remove(s.ready, t), s.prio, u.prio);
      InsertFacts(Remove(s.ready, t), t, u.prio);
      InsertSorted(Remove(s.ready, t), t, u.prio);
    } else {
      assert u.prio == s.prio;
    }
  }

  lemma {:induction false} RestoreTables<T, M>(s: Sys<T, M>, m: M)
    requires Shape(s) && m in s.locks
    ensures var (u, t) := (Restore(s, m), s.running);
      && Quiet(s, u) && u.status == s.status && Only(s.role, u.role, {t}) && u.role[t] == Free
      && Only(s.prio, u.prio, {t}) && u.prio[t] == s.orig[t]
      && Only(s.locks, u.locks, {m}) && u.locks[m] == s.locks[m].(locked := false)
  {
  }

  lemma {:induction false} GrantTables<T, M>(u: Sys<T, M>, m: M)
    requires Shape(u) && m in u.locks && u.locks[m].waiters != []
    ensures var (v, o, rest) := (Grant(u, m), u.locks[m].waiters[0], u.locks[m].waiters[1..]);
      && o in u.prio && (forall x :: x in rest ==> x in u.prio)
      && Quiet(u, v) && Only(u.role, v.role, {o}) && v.role[o] == Granted(m, u.role[o].Waits? && u.role[o].timed)
      && Only(u.status, v.status, {o}) && v.status[o] == Ready
      && Only(u.prio, v.prio, {o}) && v.prio[o] == Best(u.prio[o], rest, u.prio)
      && Only(u.locks, v.locks, {m}) && v.locks[m] == Lock(true, Some(o), rest)
      && v.ready == Insert(u.ready, o, v.prio)
  {
    var o := u.locks[m].waiters[0];
    assert o in u.locks[m].waiters && forall x :: x in u.locks[m].waiters[1..] ==> x in u.locks[m].waiters;
  }

  /** The waiters are others than the owner, and none of them is queued to run. */
  lemma {:induction false} WaiterFacts<T, M>(s: Sys<T, M>, m: M, x: T)
    requires Inv(s) && Owns(s, s.running, m) && x in s.locks[m].waiters
    ensures x in s.prio && x != s.running && x !in s.ready && s.prio[x] == s.orig[x]
  {
    assert LockOk(s, m) && TaskOk(s, x);
  }

  lemma {:induction false} GrantQueue<T, M>(s: Sys<T, M>, m: M, u: Sys<T, M>, v: Sys<T, M>, o: T)
    requires Inv(s) && Owns(s, s.running, m) && s.locks[m].waiters != [] && o == s.locks[m].waiters[0]
    requires u == Restore(s, m) && Only(u.prio, v.prio, {o}) && o in u.prio && v.ready == Insert(u.ready, o, v.prio)
    ensures Others(v.ready, o) == u.ready && Joins(u.ready, v.ready, o, v.prio)
    ensures Urged(s.ready, u.ready, s.running, s, v.prio)
  {
    RestoreQueue(s, m);
    WaiterFacts(s, m, o);
    InsertOthers(u.ready, o, v.prio);
    SortedFrame(u.ready, u.prio, v.prio);
    InsertJoins(u.ready, o, v.prio);
    MovesFrame(s.ready, u.ready, s.running, u.prio, v.prio);
  }

  lemma {:induction false} MovesFrame<T>(q: seq<T>, q': seq<T>, t: T, prio: map<T, int>, prio': map<T, int>)
    requires forall x :: x in q' && x in prio ==> x in prio' && prio'[x] == prio[x]
    ensures Moves(q, q', t, prio) ==> Moves(q, q', t, prio')
  {
    if Moves(q, q', t, prio) {
      var r := Others(q, t);
      var k: nat :| JoinsAt(r, q', t, prio, k);
      assert forall i :: 0 <= i < |r| ==> r[i] == q'[if i < k then i else i + 1];
      assert q'[k] == t;
      assert JoinsAt(r, q', t, prio', k);
    }
  }

  lemma {:induction false} HandOverEffect<T, M>(s: Sys<T, M>, m: M, u: Sys<T, M>, v: Sys<T, M>)
    requires Inv(s) && Owns(s, s.running, m) && s.locks[m].waiters != []
    requires u == Restore(s, m) && v == Grant(u, m)
    ensures HandsOver(s, m, v)
  {
    var o, rest := s.locks[m].waiters[0], s.locks[m].waiters[1..];
    RestoreTables(s, m);
    GrantTables(u, m);
    WaiterFacts(s, m, o);
    forall x | x in rest ensures x in s.prio && x in u.prio && u.prio[x] == s.prio[x] { WaiterFacts(s, m, x); }
    BestFrame(s.prio[o], rest, s.prio, u.prio);
    GrantQueue(s, m, u, v, o);
  }

  lemma {:induction false} UnlockEffect<T, M>(s: Sys<T, M>, m: M)
    requires Inv(s) && m in s.locks
    ensures Unlocks(s, m, UnlockCall(s, m).0)
  {
    if Owns(s, s.running, m) {
      var u := Restore(s, m);
      if s.locks[m].waiters == [] {
        RestoreTables(s, m);
        RestoreQueue(s, m);
      } else {
        HandOverEffect(s, m, u, Grant(u, m));
      }
    }
  }

  lemma {:induction false} ExpireFacts<T, M>(s: Sys<T, M>, t: T)
    requires Inv(s) && Enabled(s, DoExpire(t))
    ensures var m := s.role[t].mutex;
      && m in s.locks && s.locks[m].locked && s.locks[m].owner != Some(t) && t in s.locks[m].waiters && NoRepeats(s.locks[m].waiters)
      && t !in s.ready && s.locks[m].owner.value in s.prio && s.locks[m].owner.value != s.running
  {
    assert TaskOk(s, t);
    assert LockOk(s, s.role[t].mutex);
  }

  /** Whether it is looked at or not, the owner's priority afterwards is the most urgent there is. */
  lemma {:induction false} OwnerAfter<T, M>(s: Sys<T, M>, t: T, m: M, o: T)
    requires Inv(s) && m in s.locks && s.locks[m].locked && s.locks[m].owner == Some(o) && t in s.locks[m].waiters
    ensures (forall x :: x in Remove(s.locks[m].waiters, t) ==> x in s.prio) && o in s.prio
    ensures s.prio[o] == s.prio[t] || s.prio[o] == Best(s.orig[o], Remove(s.locks[m].waiters, t), s.prio)
  {
    assert LockOk(s, m) && TaskOk(s, o);
    if s.prio[o] != s.prio[t] { BestWithout(s.orig[o], s.locks[m].waiters, t, s.prio); }
  }

  lemma {:induction false} ExpireTables<T, M>(s: Sys<T, M>, t: T, m: M, o: T)
    requires Shape(s) && m in s.locks && s.locks[m].locked && t in s.prio && s.locks[m].owner == Some(o)
    ensures var s' := Expire(s, m, t);
      && Quiet(s, s') && Only(s.role, s'.role, {t}) && s'.role[t] == Expired(m) && Only(s.status, s'.status, {t}) && s'.status[t] == Ready
      && Only(s.locks, s'.locks, {m}) && s'.locks[m] == Lock(true, Some(o), Remove(s.locks[m].waiters, t))
  {
  }

  lemma {:induction false} ExpirePrio<T, M>(s: Sys<T, M>, t: T, m: M, o: T)
    requires Inv(s) && m in s.locks && s.locks[m].locked && s.locks[m].owner == Some(o) && t in s.locks[m].waiters
    ensures var (prio, rest) := (Expire(s, m, t).prio, Remove(s.locks[m].waiters, t));
      && (forall x :: x in rest ==> x in s.prio) && o in s.prio
      && Only(s.prio, prio, {o}) && prio[o] == Best(s.orig[o], rest, s.prio)
  {
    OwnerAfter(s, t, m, o);
  }

  lemma {:induction false} ExpiredQueue<T, M>(s: Sys<T, M>, t: T, o: T, prio: map<T, int>, ready: seq<T>)
    requires Inv(s) && t in s.prio && o in s.prio && o != s.running && o != t && t !in s.ready && Only(s.prio, prio, {o})
    requires ready == if s.status[o] == Ready then Requeue(s.ready, o, prio) else s.ready
    ensures Roused(s.ready, ready, o, s, prio) && Sorted(ready, prio) && t !in ready
  {
    if s.status[o] == Ready {
      Repositioned(s.ready, o, s.prio, prio);
      RemoveSorted(s.ready, o, s.prio);
      RemoveFacts(s.ready, o);
      SortedFrame(Remove(s.ready, o), s.prio, prio);
      InsertSorted(Remove(s.ready, o), o, prio);
    } else {
      SortedFrame(s.ready, s.prio, prio);
    }
  }

  lemma {:induction false} ExpireQueues<T, M>(s: Sys<T, M>, t: T, o: T, s': Sys<T, M>)
    requires Inv(s) && Enabled(s, DoExpire(t)) && s.role[t].mutex in s.locks && s.locks[s.role[t].mutex].owner == Some(o)
    requires s.locks[s.role[t].mutex].locked && s' == Expire(s, s.role[t].mutex, t) && Only(s.prio, s'.prio, {o}) && o in s.prio
    ensures Roused(s.ready, Others(s'.ready, t), o, s, s'.prio) && Joins(Others(s'.ready, t), s'.ready, t, s'.prio)
  {
    ExpireFacts(s, t);
    var ready := if s.status[o] == Ready then Requeue(s.ready, o, s'.prio) else s.ready;
    assert s'.ready == Insert(ready, t, s'.prio);
    ExpiredQueue(s, t, o, s'.prio, ready);
    InsertOthers(ready, t, s'.prio);
    InsertJoins(ready, t, s'.prio);
  }

  lemma {:induction false} ExpireEffect<T, M>(s: Sys<T, M>, t: T)
    requires Inv(s) && Enabled(s, DoExpire(t))
    ensures Expires(s, t, ExpireCall(s, t))
  {
    ExpireFacts(s, t);
    var m := s.role[t].mutex;
    var o := s.locks[m].owner.value;
    ExpireTables(s, t, m, o);
    ExpirePrio(s, t, m, o);
    RemoveOthers(s.locks[m].waiters, t);
    ExpireQueues(s, t, o, Expire(s, m, t));
  }

  lemma {:induction false} ReturnRole<T, M>(s: Sys<T, M>, r: Role<M>)
    requires Inv(s) && r == s.role[s.running] && (r.Granted? || r.Expired?)
    ensures Return(s) == s.(role := s.role[s.running := if r.Granted? then Holds(r.mutex) else Free])
    ensures Owns(s, s.running, r.mutex) <==> r.Granted?
  {
    assert TaskOk(s, s.running);
  }

  lemma {:induction false} ReturnEffect<T, M>(s: Sys<T, M>)
    requires Inv(s) && Enabled(s, DoReturn)
    ensures Returns(s, Return(s))
  {
    ReturnRole(s, s.role[s.running]);
  }

  lemma {:induction false} PreemptEffect<T, M>(s: Sys<T, M>)
    requires Inv(s)
    ensures Preempts(s, Preempt(s))
  {
    RunningQueued(s);
    var u := s.(status := s.status[s.running := Ready]);
    DispatchIs(u);
    DispatchSwitches(s, u, Dispatch(u), s.running, Ready);
  }

  lemma {:induction false} TickIs<T, M>(s: Sys<T, M>, v: Sys<T, M>, u: Sys<T, M>)
    requires Shape(s) && s.slice[s.running] > 0 && s.ticks[s.running] == 1 && v == s.(ticks := s.ticks[s.running := 0])
    requires u == v.(ready := Requeue(s.ready, s.running, s.prio), status := s.status[s.running := Ready])
    ensures Shape(v) && Shape(u) && u.ready != [] && Tick(s) == Dispatch(u) && Shape(Tick(s))
  {
  }

  lemma {:induction false} UsedSwitches<T, M>(s: Sys<T, M>, v: Sys<T, M>, u: Sys<T, M>, s': Sys<T, M>)
    requires Shape(s) && Shape(v) && v == s.(ticks := s.ticks[s.running := 0]) && Dispatched(u, s') && Shape(s')
    requires u == v.(ready := Requeue(s.ready, s.running, s.prio), status := s.status[s.running := Ready])
    ensures Switches(v, s', s.running, Ready) && Unasked(s, s')
  {
    DispatchSwitches(v, u, s', s.running, Ready);
  }

  lemma {:induction false} UsedEffect<T, M>(s: Sys<T, M>)
    requires Inv(s) && s.slice[s.running] > 0 && s.ticks[s.running] == 1
    ensures Ticks(s, Tick(s))
  {
    var t, v := s.running, s.(ticks := s.ticks[s.running := 0]);
    RunningQueued(s);
    Repositioned(s.ready, t, s.prio, s.prio);
    var u := v.(ready := Requeue(s.ready, t, s.prio), status := s.status[t := Ready]);
    TickIs(s, v, u);
    DispatchIs(u);
    UsedSwitches(s, v, u, Tick(s));
  }

  lemma {:induction false} TickEffect<T, M>(s: Sys<T, M>)
    requires Inv(s)
    ensures Ticks(s, Tick(s))
  {
    if s.slice[s.running] > 0 && s.ticks[s.running] == 1 { UsedEffect(s); }
  }

  lemma {:induction false} SuspendEffect<T, M>(s: Sys<T, M>, t: T)
    requires Inv(s) && Enabled(s, DoSuspend(t))
    ensures Suspends(s, t, SuspendCall(s, t))
  {
    RemoveOthers(s.ready, t);
    if t == s.running {
      var u := Suspend(s, t);
      RunningQueued(s);
      RemoveFacts(s.ready, t);
      DispatchIs(u);
      DispatchSwitches(s, u, Dispatch(u), t, Suspended);
    }
  }

  lemma {:induction false} ResumeEffect<T, M>(s: Sys<T, M>, t: T)
    requires Inv(s) && Enabled(s, DoResume(t))
    ensures Resumes(s, t, Resume(s, t))
  {
    InsertJoins(s.ready, t, s.prio);
  }

  /** Every step has the effect of its call. */
  lemma {:induction false} StepEffect<T, M>(s: Sys<T, M>, e: Event<T, M>)
    requires Inv(s) && Enabled(s, e)
    ensures Effect(s, e, Next(s, e))
  {
    match e
    case DoLock(m, timeout) => LockEffect(s, m, timeout);
    case DoUnlock(m) => UnlockEffect(s, m);
    case DoReturn => ReturnEffect(s);
    case DoExpire(t) => ExpireEffect(s, t);
    case DoPreempt => PreemptEffect(s);
    case DoTick => TickEffect(s);
    case DoSuspend(t) => SuspendEffect(s, t);
    case DoResume(t) => ResumeEffect(s, t);
  }

  lemma {:induction false} RunEffect<T, M>(states: seq<Sys<T, M>>, events: seq<Event<T, M>>, k: nat)
    requires Run(states, events) && k < |events|
    ensures Effect(states[k], events[k], states[k + 1])
  {
    RunInv(states, events, k);
    assert StepAt(states, events, k);
    StepEffect(states[k], events[k]);
  }

  // ------------------------------------------------------------- and no others

  lemma {:induction false} TableOnce<K, V>(f: map<K, V>, a: map<K, V>, b: map<K, V>, k: K)
    requires Only(f, a, {k}) && Only(f, b, {k}) && k in f && a[k] == b[k]
    ensures a == b
  {
  }

  lemma {:induction false} TableTwice<K, V>(f: map<K, V>, a: map<K, V>, b: map<K, V>, j: K, k: K)
    requires Only(f, a, {j, k}) && Only(f, b, {j, k}) && j in f && k in f && a[j] == b[j] && a[k] == b[k]
    ensures a == b
  {
  }

  lemma {:induction false} StartedOnce<T>(status: map<T, Status>, a: map<T, Status>, b: map<T, Status>, h: T, t: T, left: Status)
    requires Started(status, a, h, t, left) && Started(status, b, h, t, left)
    ensures a == b
  {
    TableTwice(status, a, b, t, h);
  }

  /** Who runs, and with how much of its slice, depends on the queue alone. */
  lemma {:induction false} SwitchOnce<T, M>(s: Sys<T, M>, a: Sys<T, M>, b: Sys<T, M>, t: T, status: Status)
    requires Switches(s, a, t, status) && Switches(s, b, t, status) && a.ready == b.ready
    ensures a.running == b.running && a.status == b.status && a.ticks == b.ticks
  {
    StartedOnce(s.status, a.status, b.status, a.running, t, status);
    TableOnce(s.ticks, a.ticks, b.ticks, a.running);
  }

  lemma {:induction false} UrgedOnce<T, M>(q: seq<T>, a: seq<T>, b: seq<T>, o: T, s: Sys<T, M>, prio: map<T, int>)
    requires Shape(s) && o in s.prio && o in prio && Urged(q, a, o, s, prio) && Urged(q, b, o, s, prio)
    ensures a == b
  {
    if a != b { JoinsOnce(Others(q, o), a, b, o, prio); }
  }

  lemma {:induction false} SameSys<T, M>(a: Sys<T, M>, b: Sys<T, M>)
    requires a.orig == b.orig && a.slice == b.slice && a.idle == b.idle && a.timer == b.timer && a.running == b.running
    requires a.prio == b.prio && a.status == b.status && a.role == b.role && a.ticks == b.ticks && a.ready == b.ready && a.locks == b.locks
    ensures a == b
  {
  }

  lemma {:induction false} WaitsOnce<T, M>(s: Sys<T, M>, m: M, timed: bool, a: Sys<T, M>, b: Sys<T, M>)
    requires WaitsAt(s, m, timed, a) && WaitsAt(s, m, timed, b)
    ensures a == b
  {
    var t, o := s.running, s.locks[m].owner.value;
    TableOnce(s.role, a.role, b.role, t);
    TableOnce(s.locks, a.locks, b.locks, m);
    TableOnce(s.prio, a.prio, b.prio, o);
    UrgedOnce(Others(s.ready, t), a.ready, b.ready, o, s, a.prio);
    SwitchOnce(s, a, b, t, Suspended);
    SameSys(a, b);
  }

  lemma {:induction false} TakesOnce<T, M>(s: Sys<T, M>, m: M, a: Sys<T, M>, b: Sys<T, M>)
    requires TakesLock(s, m, a) && TakesLock(s, m, b)
    ensures a == b
  {
    TableOnce(s.role, a.role, b.role, s.running);
    TableOnce(s.locks, a.locks, b.locks, m);
    SameSys(a, b);
  }

  lemma {:induction false} LocksOnce<T, M>(s: Sys<T, M>, m: M, timeout: int, a: Sys<T, M>, b: Sys<T, M>)
    requires Locks(s, m, timeout, a) && Locks(s, m, timeout, b)
    ensures a == b
  {
    if !s.locks[m].locked {
      TakesOnce(s, m, a, b);
    } else if timeout != 0 {
      WaitsOnce(s, m, timeout > 0, a, b);
    }
  }

  lemma {:induction false} UnlocksOnce<T, M>(s: Sys<T, M>, m: M, a: Sys<T, M>, b: Sys<T, M>)
    requires Unlocks(s, m, a) && Unlocks(s, m, b)
    ensures a == b
  {
    if Owns(s, s.running, m) {
      if s.locks[m].waiters == [] { GivesUpOnce(s, m, a, b); } else { HandsOverOnce(s, m, a, b); }
    }
  }

  lemma {:induction false} GivesUpOnce<T, M>(s: Sys<T, M>, m: M, a: Sys<T, M>, b: Sys<T, M>)
    requires GivesUp(s, m, a) && GivesUp(s, m, b)
    ensures a == b
  {
    var t := s.running;
    TableOnce(s.locks, a.locks, b.locks, m);
    TableOnce(s.role, a.role, b.role, t);
    TableOnce(s.prio, a.prio, b.prio, t);
    UrgedOnce(s.ready, a.ready, b.ready, t, s, a.prio);
    SameSys(a, b);
  }

  lemma {:induction false} HandsOverTables<T, M>(s: Sys<T, M>, m: M, a: Sys<T, M>, b: Sys<T, M>)
    requires HandsOver(s, m, a) && HandsOver(s, m, b)
    ensures a.locks == b.locks && a.role == b.role && a.status == b.status && a.prio == b.prio
  {
    var t, o := s.running, s.locks[m].waiters[0];
    TableOnce(s.locks, a.locks, b.locks, m);
    TableTwice(s.role, a.role, b.role, t, o);
    TableOnce(s.status, a.status, b.status, o);
    TableTwice(s.prio, a.prio, b.prio, t, o);
  }

  lemma {:induction false} HandsOverOnce<T, M>(s: Sys<T, M>, m: M, a: Sys<T, M>, b: Sys<T, M>)
    requires HandsOver(s, m, a) && HandsOver(s, m, b)
    ensures a == b
  {
    var t, o := s.running, s.locks[m].waiters[0];
    HandsOverTables(s, m, a, b);
    UrgedOnce(s.ready, Others(a.ready, o), Others(b.ready, o), t, s, a.prio);
    JoinsOnce(Others(a.ready, o), a.ready, b.ready, o, a.prio);
    SameSys(a, b);
  }

  lemma {:induction false} ExpiresOnce<T, M>(s: Sys<T, M>, t: T, a: Sys<T, M>, b: Sys<T, M>)
    requires Expires(s, t, a) && Expires(s, t, b)
    ensures a == b
  {
    var m := s.role[t].mutex;
    var o := s.locks[m].owner.value;
    TableOnce(s.role, a.role, b.role, t);
    TableOnce(s.status, a.status, b.status, t);
    TableOnce(s.locks, a.locks, b.locks, m);
    TableOnce(s.prio, a.prio, b.prio, o);
    if s.status[o] == Ready { JoinsOnce(Others(s.ready, o), Others(a.ready, t), Others(b.ready, t), o, a.prio); }
    JoinsOnce(Others(a.ready, t), a.ready, b.ready, t, a.prio);
    SameSys(a, b);
  }

  lemma {:induction false} TicksOnce<T, M>(s: Sys<T, M>, a: Sys<T, M>, b: Sys<T, M>)
    requires Ticks(s, a) && Ticks(s, b)
    ensures a == b
  {
    var t := s.running;
    if s.slice[t] != 0 {
      if s.ticks[t] > 1 {
        TableOnce(s.ticks, a.ticks, b.ticks, t);
      } else {
        JoinsOnce(Others(s.ready, t), a.ready, b.ready, t, s.prio);
        SwitchOnce(s.(ticks := s.ticks[t := 0]), a, b, t, Ready);
      }
      SameSys(a, b);
    }
  }

  lemma {:induction false} SuspendsOnce<T, M>(s: Sys<T, M>, t: T, a: Sys<T, M>, b: Sys<T, M>)
    requires Suspends(s, t, a) && Suspends(s, t, b)
    ensures a == b
  {
    if t == s.running { SwitchOnce(s, a, b, t, Suspended); } else { TableOnce(s.status, a.status, b.status, t); }
    SameSys(a, b);
  }

  lemma {:induction false} ResumesOnce<T, M>(s: Sys<T, M>, t: T, a: Sys<T, M>, b: Sys<T, M>)
    requires Resumes(s, t, a) && Resumes(s, t, b)
    ensures a == b
  {
    JoinsOnce(s.ready, a.ready, b.ready, t, s.prio);
    TableOnce(s.status, a.status, b.status, t);
    SameSys(a, b);
  }

  lemma {:induction false} ReturnsOnce<T, M>(s: Sys<T, M>, a: Sys<T, M>, b: Sys<T, M>)
    requires Returns(s, a) && Returns(s, b)
    ensures a == b
  {
    TableOnce(s.role, a.role, b.role, s.running);
    SameSys(a, b);
  }

  lemma {:induction false} PreemptsOnce<T, M>(s: Sys<T, M>, a: Sys<T, M>, b: Sys<T, M>)
    requires Preempts(s, a) && Preempts(s, b)
    ensures a == b
  {
    SwitchOnce(s, a, b, s.running, Ready);
    SameSys(a, b);
  }

  lemma {:induction false} MutexEffectOnce<T, M>(s: Sys<T, M>, e: Event<T, M>, a: Sys<T, M>, b: Sys<T, M>)
    requires Effect(s, e, a) && Effect(s, e, b) && (e.DoLock? || e.DoUnlock? || e.DoExpire?)
    ensures a == b
  {
    match e
    case DoLock(m, timeout) => LocksOnce(s, m, timeout, a, b);
    case DoUnlock(m) => UnlocksOnce(s, m, a, b);
    case DoExpire(t) => ExpiresOnce(s, t, a, b);
  }

  lemma {:induction false} SchedulingEffectOnce<T, M>(s: Sys<T, M>, e: Event<T, M>, a: Sys<T, M>, b: Sys<T, M>)
    requires Effect(s, e, a) && Effect(s, e, b) && (e.DoReturn? || e.DoPreempt? || e.DoTick? || e.DoSuspend? || e.DoResume?)
    ensures a == b
  {
    match e
    case DoReturn => ReturnsOnce(s, a, b);
    case DoPreempt => PreemptsOnce(s, a, b);
    case DoTick => TicksOnce(s, a, b);
    case DoSuspend(t) => SuspendsOnce(s, t, a, b);
    case DoResume(t) => ResumesOnce(s, t, a, b);
  }

  /** The effect says all: it holds of the next state and of no other. */
  lemma {:induction false} EffectOnce<T, M>(s: Sys<T, M>, e: Event<T, M>, a: Sys<T, M>, b: Sys<T, M>)
    requires Effect(s, e, a) && Effect(s, e, b)
    ensures a == b
  {
    if e.DoLock? || e.DoUnlock? || e.DoExpire? { MutexEffectOnce(s, e, a, b); } else { SchedulingEffectOnce(s, e, a, b); }
  }

  lemma {:induction false} StepIffEffect<T, M>(s: Sys<T, M>, e: Event<T, M>, s': Sys<T, M>)
    requires Inv(s) && Enabled(s, e)
    ensures Step(s, e, s') <==> Effect(s, e, s')
  {
    StepEffect(s, e);
    if Effect(s, e, s') { EffectOnce(s, e, s', Next(s, e)); }
  }

  // ------------------------------------------------------------- what the callers see

  /**
   rx_mutex_lock returns OS_OK exactly if the caller now owns the mutex, E_OS_UNAVAIL exactly if the
   mutex was locked and the caller would not wait, and does not return yet exactly if it now waits.
   */
  ghost predicate LockAnswered<T, M>(s: Sys<T, M>, m: M, timeout: int, s': Sys<T, M>, r: Option<Code>) {
    && m in s.locks && m in s'.locks
    && (r == Some(OsOk) <==> Owns(s', s.running, m))
    && (r == Some(Unavailable) <==> s.locks[m].locked && timeout == 0) && (r == Some(Unavailable) ==> s' == s)
    && (r == None <==> s.running in s'.locks[m].waiters)
  }

  lemma {:induction false} LockCases<T, M>(s: Sys<T, M>, m: M, timeout: int, s': Sys<T, M>, r: Option<Code>)
    requires Inv(s) && Enabled(s, DoLock(m, timeout)) && (s', r) == LockCall(s, m, timeout)
    ensures !s.locks[m].locked ==> r == Some(OsOk) && TakesLock(s, m, s')
    ensures s.locks[m].locked && timeout == 0 ==> r == Some(Unavailable) && s' == s
    ensures s.locks[m].locked && timeout != 0 ==> r == None && WaitsAt(s, m, timeout > 0, s')
  {
    LockEffect(s, m, timeout);
  }

  lemma {:induction false} TakenOwner<T, M>(s: Sys<T, M>, m: M, s': Sys<T, M>)
    requires Inv(s) && m in s.locks && !s.locks[m].locked && TakesLock(s, m, s')
    ensures m in s'.locks && Owns(s', s.running, m) && s'.locks[m].waiters == []
  {
    assert LockOk(s, m);
  }

  lemma {:induction false} LockedOthers<T, M>(s: Sys<T, M>, m: M)
    requires Inv(s) && m in s.locks && s.locks[m].locked && s.role[s.running].Free?
    ensures !Owns(s, s.running, m) && s.running !in s.locks[m].waiters
  {
    assert LockOk(s, m);
  }

  lemma {:induction false} LockAnswers<T, M>(s: Sys<T, M>, m: M, timeout: int, s': Sys<T, M>, r: Option<Code>)
    requires Inv(s) && Enabled(s, DoLock(m, timeout)) && (s', r) == LockCall(s, m, timeout)
    ensures LockAnswered(s, m, timeout, s', r)
  {
    LockCases(s, m, timeout, s', r);
    if s.locks[m].locked { LockedOthers(s, m); } else { TakenOwner(s, m, s'); }
  }

  lemma {:induction false} LockAnswersInRuns<T, M>(states: seq<Sys<T, M>>, events: seq<Event<T, M>>, k: nat, m: M, timeout: int)
    requires Run(states, events) && k < |events| && events[k] == DoLock(m, timeout)
    ensures Shape(states[k]) && m in states[k].locks
    ensures LockAnswered(states[k], m, timeout, states[k + 1], LockCall(states[k], m, timeout).1)
  {
    RunInv(states, events, k);
    assert StepAt(states, events, k);
    LockAnswers(states[k], m, timeout, states[k + 1], LockCall(states[k], m, timeout).1);
  }

  /**
   rx_mutex_unlock returns OS_ERR exactly if another task owns the mutex, and then nothing happens;
   an owner gives it up, to the first that waits if there is one.
   */
  ghost predicate UnlockAnswered<T, M>(s: Sys<T, M>, m: M, s': Sys<T, M>, r: Code) {
    && m in s.locks && m in s'.locks
    && (r == OsErr <==> s.locks[m].locked && !Owns(s, s.running, m)) && (r == OsOk || r == OsErr)
    && if !Owns(s, s.running, m) then s' == s
       else if s.locks[m].waiters == [] then !s'.locks[m].locked
       else Owns(s', s.locks[m].waiters[0], m) && !Owns(s', s.running, m)
  }

  lemma {:induction false} UnlockAnswers<T, M>(s: Sys<T, M>, m: M, s': Sys<T, M>, r: Code)
    requires Inv(s) && m in s.locks && (s', r) == UnlockCall(s, m)
    ensures UnlockAnswered(s, m, s', r)
  {
    UnlockEffect(s, m);
    if Owns(s, s.running, m) && s.locks[m].waiters != [] { WaiterFacts(s, m, s.locks[m].waiters[0]); }
  }

  lemma {:induction false} UnlockAnswersInRuns<T, M>(states: seq<Sys<T, M>>, events: seq<Event<T, M>>, k: nat, m: M)
    requires Run(states, events) && k < |events| && events[k] == DoUnlock(m)
    ensures Shape(states[k]) && m in states[k].locks
    ensures UnlockAnswered(states[k], m, states[k + 1], UnlockCall(states[k], m).1)
  {
    RunInv(states, events, k);
    assert StepAt(states, events, k);
    UnlockAnswers(states[k], m, states[k + 1], UnlockCall(states[k], m).1);
  }

  lemma {:induction false} OthersMembers<T>(q: seq<T>, t: T)
    ensures forall x :: x in Others(q, t) <==> x in q && x != t
  {
    if q != [] { OthersMembers(q[1..], t); }
  }

  /**
   A suspended task is out of the ready queue; the others keep their order, priorities and roles, and
   if it ran, the first of them runs now.
   */
  lemma {:induction false} SuspendedOut<T, M>(states: seq<Sys<T, M>>, events: seq<Event<T, M>>, k: nat, t: T)
    requires Run(states, events) && k < |events| && events[k] == DoSuspend(t)
    ensures var (s, s') := (states[k], states[k + 1]);
      && t in s'.status && s'.status[t] == Suspended && t !in s'.ready && s'.ready == Others(s.ready, t)
      && s'.prio == s.prio && s'.role == s.role && s'.locks == s.locks
      && s'.running == (if t == s.running && s'.ready != [] then s'.ready[0] else s.running) && s'.running != t
  {
    RunInv(states, events, k);
    RunEffect(states, events, k);
    OthersMembers(states[k].ready, t);
    var s' := states[k + 1];
    if t == states[k].running { assert s'.ready[0] in s'.ready; }
  }

  /** A resumed task is queued behind all that are at least as urgent, and nothing else happens. */
  lemma {:induction false} ResumedBehind<T, M>(states: seq<Sys<T, M>>, events: seq<Event<T, M>>, k: nat, t: T)
    requires Run(states, events) && k < |events| && events[k] == DoResume(t)
    ensures var (s, s') := (states[k], states[k + 1]);
      && t in s.status && s' == s.(ready := s'.ready, status := s.status[t := Ready]) && Joins(s.ready, s'.ready, t, s.prio)
  {
    RunEffect(states, events, k);
    var s, s' := states[k], states[k + 1];
    assert s'.status == s.status[t := Ready];
  }
}
