/**
 The kernel's own form of the scheduler and the mutexes (kernel/rx_task.c,
 kernel/rx_sched.c, kernel/rx_mutex.c).  The fields of the task and mutex structures are
 kept as tables over the tasks and mutexes.  One link field, `next`, serves the
 ready queue and the queues of all mutexes.  Every call is proved to be its step of the
 mutex protocol.
 */
module Kernel {
  import opened Wrappers
  import opened ReadyQueue
  import opened Chains
  import opened MutexProtocol
  import opened MutexSafety
  import MutexRuns

  /** A mutex as the kernel stores it; `task` heads its queue. */
  datatype Cell<T> = Cell(locked: bool, owner: Option<T>, task: Option<T>)

  /** Where the walk stops is where the task belongs. */
  lemma {:induction false} PlaceIs<T>(q: seq<T>, t: T, k: nat, prio: map<T, int>)
    requires k <= |q| && t in prio && Sorted(q, prio)
    requires forall i :: 0 <= i < k ==> prio[q[i]] <= prio[t]
    requires k < |q| ==> prio[t] < prio[q[k]]
    ensures q[..k] + [t] + q[k..] == Insert(q, t, prio)
  {
    assert Place(q, prio[t], prio) == k;
  }

  ghost function BestFrom<T>(p: int, q: seq<T>, k: nat, prio: map<T, int>): int
    requires k <= |q| && forall x :: x in q ==> x in prio
  {
    Best(p, q[k..], prio)
  }

  lemma {:induction false} BestStep<T>(p: int, q: seq<T>, k: nat, prio: map<T, int>)
    requires k < |q| && (forall x :: x in q ==> x in prio) && q[k] in q
    ensures BestFrom(p, q, k, prio) == BestFrom(if p > prio[q[k]] then prio[q[k]] else p, q, k + 1, prio)
  {
    assert q[k..][1..] == q[k + 1..];
  }

  // ------------------------------------------------------------- the kernel

  /** No task is in two queues. */
  ghost predicate Apart<T, M>(ready: seq<T>, waiting: map<M, seq<T>>) {
    && (forall m, t :: m in waiting && t in waiting[m] ==> t !in ready)
    && (forall m, n, t :: m in waiting && n in waiting && t in waiting[m] && t in waiting[n] ==> m == n)
  }

  ghost function LocksOf<T, M>(mutex: map<M, Cell<T>>, waiting: map<M, seq<T>>): (r: map<M, Lock<T>>) {
    map m | m in mutex && m in waiting :: Lock(mutex[m].locked, mutex[m].owner, waiting[m])
  }

  lemma {:induction false} LocksUpdate<T, M>(mutex: map<M, Cell<T>>, waiting: map<M, seq<T>>, m: M, c: Cell<T>, q: seq<T>)
    requires m in mutex && m in waiting
    ensures LocksOf(mutex[m := c], waiting[m := q]) == LocksOf(mutex, waiting)[m := Lock(c.locked, c.owner, q)]
  {
  }

  /** What the invariant says about a task that has to wait, and about the owner it waits for. */
  lemma {:induction false} WaitFacts<T, M>(s: Sys<T, M>, m: M, o: T)
    requires Inv(s) && m in s.locks && s.locks[m].locked && s.locks[m].owner == Some(o)
    requires s.role[s.running].Free? && s.running != s.idle
    ensures o in s.prio && o != s.running && s.running in s.ready && Sorted(s.ready, s.prio)
    ensures (s.status[o] == Ready <==> o in s.ready) && s.idle in s.ready
  {
    assert LockOk(s, m);
  }

  lemma {:induction false} RunningFacts<T, M>(s: Sys<T, M>)
    requires Inv(s)
    ensures s.running in s.ready && Sorted(s.ready, s.prio) && s.status[s.running] != Suspended
  {
  }

  lemma {:induction false} ParkedFacts<T, M>(s: Sys<T, M>, m: M, timed: bool)
    requires Inv(s) && m in s.locks && s.locks[m].locked && s.role[s.running].Free? && s.running != s.idle
    ensures var s' := MutexProtocol.Park(s, m, timed); s'.running !in s'.ready && s'.ready != []
  {
    WaitFacts(s, m, s.locks[m].owner.value);
    ParkLined(s, m, timed);
    assert s.idle in MutexProtocol.Park(s, m, timed).ready;
  }

  /** What is left in the queue when `t` is taken out. */
  lemma {:induction false} Without<T>(ready: seq<T>, t: T, o: T, idle: T, prio: map<T, int>)
    requires NoRepeats(ready) && Sorted(ready, prio) && o != t && idle in ready && idle != t
    ensures Sorted(Remove(ready, t), prio) && (o in Remove(ready, t) <==> o in ready) && Remove(ready, t) != []
  {
    RemoveSorted(ready, t, prio);
    RemoveFacts(ready, t);
    assert idle in Remove(ready, t);
  }

  /** The state that a kernel starts in. */
  lemma {:induction false} StartInitial<T, M>(prio: map<T, int>, slice: map<T, int>, idle: T, timer: T, mutexes: set<M>, s: Sys<T, M>)
    requires idle in prio && timer in prio && slice.Keys == prio.Keys && forall t :: t in slice ==> slice[t] >= 0
    requires s.prio == prio && s.orig == prio && s.slice == slice && s.ticks == slice && s.ready == [idle]
    requires s.running == idle && s.idle == idle && s.timer == timer
    requires s.status == (map t | t in prio :: if t == idle then Running else Suspended) && s.role == map t | t in prio :: Free
    requires s.locks == LocksOf(map m | m in mutexes :: Cell(false, None, None), map m | m in mutexes :: [])
    ensures MutexRuns.Initial(s)
  {
    assert forall m :: m in s.locks ==> s.locks[m] == Lock(false, None, []);
  }

  lemma {:induction false} QueueKnown<T, M>(s: Sys<T, M>, m: M)
    requires Shape(s) && m in s.locks && s.locks[m].waiters != []
    ensures s.locks[m].waiters[0] in s.prio && forall x :: x in s.locks[m].waiters[1..] ==> x in s.prio
  {
    var q := s.locks[m].waiters;
    assert q[0] in q && forall x :: x in q[1..] ==> x in q;
  }

  lemma {:induction false} GrantIs<T, M>(s: Sys<T, M>, s': Sys<T, M>, m: M, o: T, rest: seq<T>)
    requires Shape(s) && m in s.locks && s.locks[m].waiters != [] && o == s.locks[m].waiters[0] && rest == s.locks[m].waiters[1..]
    requires o in s.prio && (forall x :: x in rest ==> x in s.prio)
    requires s'.prio == s.prio[o := Best(s.prio[o], rest, s.prio)]
    requires s' == s.(prio := s'.prio, ready := Insert(s.ready, o, s'.prio), status := s.status[o := Ready],
                      role := s.role[o := Granted(m, s.role[o].Waits? && s.role[o].timed)],
                      locks := s.locks[m := Lock(true, Some(o), rest)])
    ensures s' == Grant(s, m)
  {
  }

  lemma {:induction false} ExpireIs<T, M>(s: Sys<T, M>, s': Sys<T, M>, m: M, o: T, t: T, rest: seq<T>)
    requires Shape(s) && m in s.locks && s.locks[m].locked && s.locks[m].owner == Some(o) && o in s.prio && t in s.prio
    requires rest == Remove(s.locks[m].waiters, t) && forall x :: x in rest ==> x in s.prio
    requires s'.prio == if s.prio[o] == s.prio[t] then s.prio[o := Best(s.orig[o], rest, s.prio)] else s.prio
    requires var ready := if s.status[o] == Ready then Requeue(s.ready, o, s'.prio) else s.ready;
      s' == s.(prio := s'.prio, ready := Insert(ready, t, s'.prio), status := s.status[t := Ready],
               role := s.role[t := Expired(m)], locks := s.locks[m := Lock(true, Some(o), rest)])
    ensures s' == MutexProtocol.Expire(s, m, t)
  {
  }

  lemma {:induction false} ExpireFacts<T, M>(s: Sys<T, M>, m: M, o: T, t: T)
    requires Inv(s) && t in s.role && s.role[t].Waits? && s.role[t].mutex == m && s.running == s.timer
    requires m in s.locks && s.locks[m].owner == Some(o)
    ensures s.locks[m].locked && t in s.locks[m].waiters && o in s.prio && o != t && o !in s.locks[m].waiters
    ensures Sorted(s.ready, s.prio) && s.status[t] == Suspended && (s.status[o] == Ready <==> o in s.ready)
  {
    assert TaskOk(s, t) && LockOk(s, m);
  }

  class RtKernel<T(==), M(==)> {
    var prio: map<T, int>
    var status: map<T, Status>
    var ticks: map<T, int>
    var next: map<T, Option<T>>
    const orig: map<T, int>
    const slice: map<T, int>
    var head: Option<T>                 // of the ready queue
    var running: T
    var mutex: map<M, Cell<T>>
    const idle: T
    const timer: T
    ghost var ready: seq<T>
    ghost var waiting: map<M, seq<T>>
    ghost var role: map<T, Role<M>>

    /** The idle task runs, every other task is asleep and no mutex is locked. */
    constructor (prio: map<T, int>, slice: map<T, int>, idle: T, timer: T, mutexes: set<M>)
      requires idle in prio && timer in prio && slice.Keys == prio.Keys && forall t :: t in slice ==> slice[t] >= 0
      ensures Valid() && MutexRuns.Initial(Abs())
      ensures this.prio == prio && this.slice == slice && ready == [idle] && mutex.Keys == mutexes
    {
      this.prio, orig, this.slice, ticks := prio, prio, slice, slice;
      status := map t | t in prio :: if t == idle then Running else Suspended;
      next := map t | t in prio :: None;
      mutex := map m | m in mutexes :: Cell(false, None, None);
      head, running, this.idle, this.timer := Some(idle), idle, idle, timer;
      ready, waiting, role := [idle], map m | m in mutexes :: [], map t | t in prio :: Free;
      new;
      StartInitial(prio, slice, idle, timer, mutexes, Abs());
      MutexRuns.InitialInv(Abs());
    }

    ghost predicate Links()
      reads this`next, this`head, this`ready, this`mutex, this`waiting
    {
      && Linked(next, head, ready) && mutex.Keys == waiting.Keys && Apart(ready, waiting)
      && forall m :: m in mutex ==> Linked(next, mutex[m].task, waiting[m])
    }

    ghost predicate Nowhere(t: T)
      reads this`ready, this`waiting
    {
      t !in ready && forall m :: m in waiting ==> t !in waiting[m]
    }

    /** Links `t` in between two neighbours of the ready queue. */
    method LinkAt(prev: Option<T>, t: T, after: Option<T>, ghost k: nat)
      requires Linked(next, head, ready) && t !in ready && k <= |ready|
      requires prev == (if k == 0 then None else Some(ready[k - 1])) && after == At(ready, k)
      modifies this`head, this`ready, this`next
      ensures Linked(next, head, ready) && ready == old(ready[..k] + [t] + ready[k..])
      ensures forall x :: x in old(next) && x !in old(ready) && x != t ==> x in next && next[x] == old(next)[x]
    {
      LinkedPut(next, head, ready, t, k);
      assert k > 0 ==> ready[k - 1] in ready;
      next := next[t := after];
      if prev == None { head := Some(t); } else { next := next[prev.value := Some(t)]; }
      ready := ready[..k] + [t] + ready[k..];
    }

    /** __rx_add_to_ready_q: behind the last task that is at least as urgent. */
    method Add(t: T) returns (code: Code)
      requires Linked(next, head, ready) && t in prio && t in status && t !in ready && Sorted(ready, prio)
      modifies this`head, this`ready, this`next
      ensures Linked(next, head, ready)
      ensures code == if status[t] == Suspended then OsErr else OsOk
      ensures ready == if status[t] == Suspended then old(ready) else Insert(old(ready), t, prio)
      ensures forall x :: x in old(next) && x !in old(ready) && x != t ==> x in next && next[x] == old(next)[x]
    {
      if status[t] == Suspended { return OsErr; }
      code := OsOk;
      var start, prev := head, None;
      ghost var k := 0;
      while start != None
        invariant 0 <= k <= |ready| && start == At(ready, k) && prev == (if k == 0 then None else Some(ready[k - 1]))
        invariant forall i :: 0 <= i < k ==> prio[ready[i]] <= prio[t]
        decreases |ready| - k
      {
        assert ready[k] in ready && next[ready[k]] == At(ready, k + 1);
        var after := next[start.value];
        if prio[start.value] >= prio[t] {
          if prio[start.value] == prio[t] {
            if after == None || prio[after.value] != prio[t] {
              prev, start, k := start, after, k + 1;
              break;
            }
          } else {
            break;
          }
        }
        prev, start, k := start, after, k + 1;
      }
      PlaceIs(ready, t, k, prio);
      LinkAt(prev, t, start, k);
    }

    /** __rx_remove_from_ready_q: if the task is not there, the link of the last task is cleared once more. */
    method Remove(t: T)
      requires Linked(next, head, ready) && ready != []
      modifies this`head, this`ready, this`next
      ensures Linked(next, head, ready) && ready == ReadyQueue.Remove(old(ready), t) && t in next && next[t] == None
      ensures forall x :: x in old(next) && x !in old(ready) && x != t ==> x in next && next[x] == old(next)[x]
    {
      ghost var q := ready;
      var start, prev := head, None;
      ghost var k := 0;
      while start != None && start != Some(t)
        invariant 0 <= k <= |q| && start == At(q, k) && prev == (if k == 0 then None else Some(q[k - 1]))
        invariant t !in q[..k]
        decreases |q| - k
      {
        assert q[k] in q && next[q[k]] == At(q, k + 1);
        prev, start, k := start, next[start.value], k + 1;
      }
      assert k > 0 ==> q[k - 1] in q && next[q[k - 1]] == start;
      if start == None {
        next := next[prev.value := None];
        next := next[t := None];
        RemoveAbsent(q, t);
        LinkedFrame(old(next), next, head, q);
      } else {
        assert q[k] in q && next[q[k]] == At(q, k + 1);
        if start == head { head := next[t]; } else { next := next[prev.value := next[t]]; }
        next := next[t := None];
        ready := q[..k] + q[k + 1..];
        RemoveAt(q, k);
        LinkedCut(old(next), next, old(head), q, k);
      }
    }

    ghost predicate Queued(m: M)
      reads this`next, this`mutex, this`waiting
    {
      m in mutex && m in waiting && Linked(next, mutex[m].task, waiting[m])
    }

    /** A task with no successor joins the end of a mutex's queue. */
    method Append(m: M, t: T)
      requires Queued(m) && t !in waiting[m] && t in next && next[t] == None
      modifies this`next, this`mutex, this`waiting
      ensures Queued(m) && waiting == old(waiting)[m := old(waiting)[m] + [t]]
      ensures mutex == old(mutex)[m := old(mutex)[m].(task := mutex[m].task)]
      ensures forall x :: x in old(next) && x !in old(waiting)[m] ==> x in next && next[x] == old(next)[x]
    {
      ghost var q := waiting[m];
      LinkedPut(next, mutex[m].task, q, t, |q|);
      assert q[..|q|] + [t] + q[|q|..] == q + [t];
      assert next[t := None] == next;
      if mutex[m].task == None {
        mutex := mutex[m := mutex[m].(task := Some(t))];
      } else {
        var x := mutex[m].task.value;
        ghost var k := 0;
        assert q[0] in q && next[q[0]] == At(q, 1);
        while next[x] != None
          invariant 0 <= k < |q| && x == q[k] && x in next && next[x] == At(q, k + 1)
          decreases |q| - k
        {
          assert q[k + 1] in q && next[q[k + 1]] == At(q, k + 2);
          x, k := next[x].value, k + 1;
        }
        next := next[x := Some(t)];
      }
      waiting := waiting[m := q + [t]];
    }

    /** A task whose time has run out leaves a mutex's queue; its own link is left as it is. */
    method Leave(m: M, t: T)
      requires Queued(m) && t in waiting[m]
      modifies this`next, this`mutex, this`waiting
      ensures Queued(m) && waiting == old(waiting)[m := ReadyQueue.Remove(old(waiting)[m], t)]
      ensures mutex == old(mutex)[m := old(mutex)[m].(task := mutex[m].task)]
      ensures forall x :: x in old(next) && x !in old(waiting)[m] ==> x in next && next[x] == old(next)[x]
    {
      ghost var q := waiting[m];
      ghost var k := 0;
      var t1, t2 := mutex[m].task, mutex[m].task;
      if t1 == Some(t) {
        assert q[0] in q && next[q[0]] == At(q, 1);
        mutex := mutex[m := mutex[m].(task := next[t])];
      } else {
        while t1 != Some(t)
          invariant 0 <= k < |q| && t1 == Some(q[k]) && t !in q[..k] && t2 == Some(q[if k == 0 then 0 else k - 1])
          decreases |q| - k
        {
          assert q[k] in q && next[q[k]] == At(q, k + 1);
          t2 := t1;
          t1, k := next[t1.value], k + 1;
        }
        assert q[k - 1] in q && q[k] in q && next[q[k]] == At(q, k + 1);
        next := next[t2.value := next[t]];
      }
      waiting := waiting[m := q[..k] + q[k + 1..]];
      RemoveAt(q, k);
      LinkedCut(old(next), next, old(mutex)[m].task, q, k);
    }

    /** The owner takes over the most urgent priority in the queue, if it is more urgent than its own. */
    method Inherit(o: T, m: M)
      requires Queued(m) && o in prio && o !in waiting[m] && forall x :: x in waiting[m] ==> x in prio
      modifies this`prio
      ensures prio == old(prio)[o := Best(old(prio)[o], waiting[m], old(prio))]
    {
      ghost var q, p, b := waiting[m], prio, prio[o];
      var t := mutex[m].task;
      ghost var k := 0;
      assert prio == p[o := b] && q[0..] == q;
      while t != None
        invariant 0 <= k <= |q| && t == At(q, k) && prio == p[o := b]
        invariant Best(p[o], q, p) == BestFrom(b, q, k, p)
        decreases |q| - k
      {
        assert q[k] in q && next[q[k]] == At(q, k + 1);
        BestStep(b, q, k, p);
        assert prio[o] == b && prio[q[k]] == p[q[k]];
        if prio[o] > prio[t.value] {
          Overwrite(p, o, b, prio[t.value]);
          prio := prio[o := prio[t.value]];
          b := prio[o];
        }
        t, k := next[t.value], k + 1;
      }
      assert q[|q|..] == [];
    }

    // ----------------------------------------------------------- one link field for all queues

    method TakeOut(t: T)
      requires Links() && t in ready
      modifies this`head, this`ready, this`next
      ensures Links() && ready == ReadyQueue.Remove(old(ready), t) && Nowhere(t) && t in next && next[t] == None
    {
      RemoveFacts(ready, t);
      Remove(t);
      forall m | m in mutex ensures Linked(next, mutex[m].task, waiting[m]) {
        LinkedFrame(old(next), next, mutex[m].task, waiting[m]);
      }
    }

    /** A task that is in no queue joins the ready queue. */
    method Wake(t: T)
      requires Links() && t in prio && t in status && Nowhere(t) && status[t] != Suspended && Sorted(ready, prio)
      modifies this`head, this`ready, this`next
      ensures Links() && ready == Insert(old(ready), t, prio)
    {
      InsertFacts(ready, t, prio);
      var _ := Add(t);
      forall m | m in mutex ensures Linked(next, mutex[m].task, waiting[m]) {
        LinkedFrame(old(next), next, mutex[m].task, waiting[m]);
      }
    }

    /** A queued task whose priority was `p` is moved to where its priority puts it now. */
    method Reposition(t: T, ghost p: map<T, int>)
      requires Links() && t in ready && t in prio && t in status && status[t] != Suspended
      requires Sorted(ready, p) && prio == p[t := prio[t]]
      modifies this`head, this`ready, this`next
      ensures Links() && ready == Requeue(old(ready), t, prio) && Sorted(ready, prio)
    {
      RemoveFacts(ready, t);
      RemoveSorted(ready, t, p);
      SortedFrame(ReadyQueue.Remove(ready, t), p, prio);
      InsertSorted(ReadyQueue.Remove(ready, t), t, prio);
      TakeOut(t);
      Wake(t);
    }

    method Join(m: M, t: T)
      requires Links() && m in mutex && Nowhere(t) && t in next && next[t] == None
      modifies this`next, this`mutex, this`waiting
      ensures Links() && waiting == old(waiting)[m := old(waiting)[m] + [t]]
      ensures mutex == old(mutex)[m := old(mutex)[m].(task := mutex[m].task)]
    {
      Append(m, t);
      LinkedFrame(old(next), next, head, ready);
      forall n | n in mutex ensures Linked(next, mutex[n].task, waiting[n]) {
        if n != m { LinkedFrame(old(next), next, mutex[n].task, waiting[n]); }
      }
    }

    /** A task whose time has run out is in no queue any more. */
    method Expel(m: M, t: T)
      requires Links() && m in mutex && t in waiting[m]
      modifies this`next, this`mutex, this`waiting
      ensures Links() && waiting == old(waiting)[m := ReadyQueue.Remove(old(waiting)[m], t)] && Nowhere(t)
      ensures mutex == old(mutex)[m := old(mutex)[m].(task := mutex[m].task)]
    {
      RemoveFacts(waiting[m], t);
      Leave(m, t);
      LinkedFrame(old(next), next, head, ready);
      forall n | n in mutex ensures Linked(next, mutex[n].task, waiting[n]) {
        if n != m { LinkedFrame(old(next), next, mutex[n].task, waiting[n]); }
      }
    }

    /** The first waiting task leaves the queue. */
    method Pop(m: M) returns (t: T)
      requires Links() && m in mutex && mutex[m].task != None
      modifies this`mutex, this`waiting
      ensures old(waiting)[m] != [] && t == old(waiting)[m][0]
      ensures Links() && waiting == old(waiting)[m := old(waiting)[m][1..]] && Nowhere(t)
      ensures mutex == old(mutex)[m := old(mutex)[m].(task := mutex[m].task)]
    {
      ghost var q := waiting[m];
      t := mutex[m].task.value;
      assert q[0] in q && next[q[0]] == At(q, 1);
      CutFacts(q, 0);
      LinkedCut(next, next, mutex[m].task, q, 0);
      assert q[..0] + q[0 + 1..] == q[1..];
      mutex := mutex[m := mutex[m].(task := next[t])];
      waiting := waiting[m := q[1..]];
    }

    /** Removing a task that sleeps at the end of a mutex's queue, once more, changes nothing. */
    method RemoveAgain(m: M, t: T)
      requires Links() && m in mutex && ready != [] && waiting[m] != [] && t == waiting[m][|waiting[m]| - 1]
      modifies this`head, this`ready, this`next
      ensures Links() && ready == old(ready)
    {
      assert t in waiting[m] && next[t] == None;
      RemoveAbsent(ready, t);
      Remove(t);
      forall n | n in mutex ensures Linked(next, mutex[n].task, waiting[n]) {
        LinkedFrame(old(next), next, mutex[n].task, waiting[n]);
      }
    }

    // ----------------------------------------------------------- the calls

    /** The protocol's view of the tables. */
    ghost function Abs(): Sys<T, M>
      reads this
    {
      Sys(prio, orig, status, role, slice, ticks, ready, running, LocksOf(mutex, waiting), idle, timer)
    }

    ghost predicate Valid()
      reads this
    {
      Links() && Inv(Abs())
    }

    lemma {:induction false} LockFields(m: M)
      requires Links() && (m in mutex || m in Abs().locks)
      ensures m in mutex && m in Abs().locks && Abs().locks[m] == Lock(mutex[m].locked, mutex[m].owner, waiting[m])
      ensures mutex[m].task == At(waiting[m], 0)
    {
    }

    /** rx_sched and __rx_switch_to, called by a task that has left the ready queue. */
    method Sched()
      requires Links() && Shape(Abs()) && ready != [] && running !in ready
      modifies this`running, this`status, this`ticks
      ensures Links() && Abs() == Dispatch(old(Abs()))
    {
      if Some(running) != head {
        assert ready[0] in ready;
        running := head.value;
        status := status[running := Running];
        if slice[running] != 0 && ticks[running] == 0 { ticks := ticks[running := slice[running]]; }
      }
    }

    /** The running task goes to sleep at the end of a mutex's queue. */
    method Doze(m: M)
      requires Links() && m in mutex && running in ready
      modifies this`head, this`ready, this`next, this`mutex, this`waiting, this`status
      ensures Links() && ready == ReadyQueue.Remove(old(ready), running) && status == old(status)[running := Suspended]
      ensures waiting == old(waiting)[m := old(waiting)[m] + [running]] && mutex.Keys == old(mutex.Keys)
      ensures LocksOf(mutex, waiting) == LocksOf(old(mutex), old(waiting))[m := Lock(old(mutex)[m].locked, old(mutex)[m].owner, old(waiting)[m] + [running])]
    {
      status := status[running := Suspended];
      TakeOut(running);
      Join(m, running);
      LocksUpdate(old(mutex), old(waiting), m, mutex[m], waiting[m]);
    }

    /** The owner inherits a more urgent priority. */
    method Lend(o: T, p: int)
      requires Links() && o in prio && o in status && Sorted(ready, prio) && (status[o] == Ready <==> o in ready)
      modifies this`head, this`ready, this`next, this`prio
      ensures Links() && prio == if old(prio)[o] > p then old(prio)[o := p] else old(prio)
      ensures ready == if old(prio)[o] > p && status[o] == Ready then Requeue(old(ready), o, prio) else old(ready)
    {
      if prio[o] > p {
        prio := prio[o := p];
        if status[o] == Ready { Reposition(o, old(prio)); }
      }
    }

    /** With a timeout the task is removed from the ready queue a second time. */
    method SuspendTimed(m: M, t: T, timeout: int)
      requires Links() && m in mutex && ready != [] && waiting[m] != [] && t == waiting[m][|waiting[m]| - 1]
      modifies this`head, this`ready, this`next
      ensures Links() && ready == old(ready)
    {
      if timeout > 0 { RemoveAgain(m, t); }
    }

    method LendFor(m: M, t: T, o: T, p: int, timeout: int)
      requires Links() && o in prio && o in status && Sorted(ready, prio) && (status[o] == Ready <==> o in ready)
      requires m in mutex && ready != [] && waiting[m] != [] && t == waiting[m][|waiting[m]| - 1]
      modifies this`head, this`ready, this`next, this`prio
      ensures Links() && prio == if old(prio)[o] > p then old(prio)[o := p] else old(prio)
      ensures ready == if old(prio)[o] > p && status[o] == Ready then Requeue(old(ready), o, prio) else old(ready)
    {
      Lend(o, p);
      SuspendTimed(m, t, timeout);
    }

    /** The running task goes to sleep and its priority is lent to the owner. */
    method FallAsleep(m: M, o: T, p: int, timeout: int)
      requires Links() && m in mutex && running in ready && running in prio && p == prio[running] && Sorted(ready, prio)
      requires o in prio && o in status && o != running && (status[o] == Ready <==> o in ready)
      requires idle in ready && idle != running
      modifies this`head, this`ready, this`next, this`mutex, this`waiting, this`status, this`prio
      ensures Links() && status == old(status)[running := Suspended]
      ensures LocksOf(mutex, waiting) == LocksOf(old(mutex), old(waiting))[m := Lock(old(mutex)[m].locked, old(mutex)[m].owner, old(waiting)[m] + [running])]
      ensures prio == if old(prio)[o] > p then old(prio)[o := p] else old(prio)
      ensures var rest := ReadyQueue.Remove(old(ready), running);
        ready == if old(prio)[o] > p && status[o] == Ready then Requeue(rest, o, prio) else rest
    {
      Without(ready, running, o, idle, prio);
      Doze(m);
      LendFor(m, running, o, p, timeout);
    }

    /** The running task goes to sleep, for a time or until it is woken. */
    method SleepFor(m: M, o: T, p: int, timeout: int)
      requires Links() && m in mutex && running in ready && running in prio && p == prio[running] && Sorted(ready, prio)
      requires o in prio && o in status && o != running && (status[o] == Ready <==> o in ready)
      requires idle in ready && idle != running
      modifies this`head, this`ready, this`next, this`mutex, this`waiting, this`status, this`prio, this`role
      ensures Links() && status == old(status)[running := Suspended] && role == old(role)[running := Waits(m, timeout > 0)]
      ensures LocksOf(mutex, waiting) == LocksOf(old(mutex), old(waiting))[m := Lock(old(mutex)[m].locked, old(mutex)[m].owner, old(waiting)[m] + [running])]
      ensures prio == if old(prio)[o] > p then old(prio)[o := p] else old(prio)
      ensures var rest := ReadyQueue.Remove(old(ready), running);
        ready == if old(prio)[o] > p && status[o] == Ready then Requeue(rest, o, prio) else rest
    {
      FallAsleep(m, o, p, timeout);
      role := role[running := Waits(m, timeout > 0)];
    }

    /** The part of rx_mutex_lock that puts the caller to sleep. */
    method Park(m: M, o: T, timeout: int)
      requires Links() && Shape(Abs()) && m in mutex && mutex[m].locked && mutex[m].owner == Some(o)
      requires o in prio && o != running && running in ready && Sorted(ready, prio) && (status[o] == Ready <==> o in ready) && idle in ready && idle != running
      modifies this`head, this`ready, this`next, this`mutex, this`waiting, this`status, this`prio, this`role
      ensures Links() && Abs() == MutexProtocol.Park(old(Abs()), m, timeout > 0)
    {
      assert Abs().locks[m] == Lock(true, Some(o), waiting[m]);
      SleepFor(m, o, prio[running], timeout);
    }

    method Take(m: M)
      requires Links() && Shape(Abs()) && m in mutex
      modifies this`mutex, this`role
      ensures Links() && Abs() == MutexProtocol.Take(old(Abs()), m)
    {
      var c := mutex[m].(locked := true, owner := Some(running));
      assert waiting[m := waiting[m]] == waiting;
      LocksUpdate(mutex, waiting, m, c, waiting[m]);
      mutex := mutex[m := c];
      role := role[running := Holds(m)];
    }

    method Block(m: M, timeout: int)
      requires Links() && Inv(Abs()) && m in mutex && mutex[m].locked && role[running].Free? && running != idle
      modifies this
      ensures Links() && Abs() == Dispatch(MutexProtocol.Park(old(Abs()), m, timeout > 0))
    {
      ghost var s := Abs();
      assert s.locks[m] == Lock(true, mutex[m].owner, waiting[m]);
      WaitFacts(s, m, mutex[m].owner.value);
      ParkedFacts(s, m, timeout > 0);
      Park(m, mutex[m].owner.value, timeout);
      Sched();
    }

    /** rx_mutex_lock, up to its return or the caller's sleep. */
    method MutexLock(m: M, timeout: int) returns (r: Option<Code>)
      requires Valid() && Enabled(Abs(), DoLock(m, timeout))
      modifies this
      ensures Valid() && (Abs(), r) == LockCall(old(Abs()), m, timeout)
    {
      LockInv(Abs(), m, timeout);
      assert Abs().locks[m] == Lock(mutex[m].locked, mutex[m].owner, waiting[m]);
      if !mutex[m].locked {
        Take(m);
        r := Some(OsOk);
      } else if timeout == 0 {
        r := Some(Unavailable);
      } else {
        Block(m, timeout);
        r := None;
      }
    }

    /** Writes a mutex's lock and owner. */
    method Store(m: M, locked: bool, owner: Option<T>)
      requires Links() && m in mutex
      modifies this`mutex
      ensures Links() && mutex == old(mutex)[m := Cell(locked, owner, old(mutex)[m].task)]
      ensures LocksOf(mutex, waiting) == LocksOf(old(mutex), waiting)[m := Lock(locked, owner, waiting[m])]
    {
      var c := mutex[m].(locked := locked, owner := owner);
      assert waiting[m := waiting[m]] == waiting;
      LocksUpdate(mutex, waiting, m, c, waiting[m]);
      mutex := mutex[m := c];
    }

    /** The running task is put back to its own priority. */
    method FallBack()
      requires Links() && running in prio && running in orig && running in status && status[running] != Suspended
      requires running in ready && Sorted(ready, prio)
      modifies this`head, this`ready, this`next, this`prio
      ensures Links() && prio == old(prio)[running := orig[running]]
      ensures ready == if old(prio)[running] != orig[running] then Requeue(old(ready), running, prio) else old(ready)
    {
      if prio[running] != orig[running] {
        prio := prio[running := orig[running]];
        Reposition(running, old(prio));
      } else {
        assert prio == prio[running := orig[running]];
      }
    }

    method GiveUp(m: M)
      requires Links() && m in mutex && running in prio && running in orig && running in status && status[running] != Suspended
      requires running in ready && Sorted(ready, prio)
      modifies this`head, this`ready, this`next, this`mutex, this`prio, this`role
      ensures Links() && prio == old(prio)[running := orig[running]] && role == old(role)[running := Free]
      ensures ready == if old(prio)[running] != orig[running] then Requeue(old(ready), running, prio) else old(ready)
      ensures LocksOf(mutex, waiting) == LocksOf(old(mutex), waiting)[m := Lock(false, old(mutex)[m].owner, waiting[m])]
      ensures mutex == old(mutex)[m := old(mutex)[m].(locked := false)]
    {
      Store(m, false, mutex[m].owner);
      FallBack();
      role := role[running := Free];
    }

    /** The part of rx_mutex_unlock that frees the mutex and puts the caller back to its own priority. */
    method Restore(m: M)
      requires Links() && Shape(Abs()) && m in mutex && running in ready && Sorted(ready, prio) && status[running] != Suspended
      modifies this`head, this`ready, this`next, this`mutex, this`prio, this`role
      ensures Links() && Abs() == MutexProtocol.Restore(old(Abs()), m)
      ensures mutex == old(mutex)[m := old(mutex)[m].(locked := false)]
    {
      GiveUp(m);
    }

    /** The first waiting task leaves the queue and becomes the owner. */
    method Crown(m: M) returns (t: T)
      requires Links() && m in mutex && mutex[m].task != None
      modifies this`mutex, this`waiting
      ensures old(waiting)[m] != [] && t == old(waiting)[m][0]
      ensures Links() && waiting == old(waiting)[m := old(waiting)[m][1..]] && Nowhere(t) && mutex.Keys == old(mutex.Keys)
      ensures LocksOf(mutex, waiting) == LocksOf(old(mutex), old(waiting))[m := Lock(true, Some(t), waiting[m])]
    {
      t := Pop(m);
      LocksUpdate(old(mutex), old(waiting), m, mutex[m], waiting[m]);
      Overwrite(LocksOf(old(mutex), old(waiting)), m, Lock(mutex[m].locked, mutex[m].owner, waiting[m]), Lock(true, Some(t), waiting[m]));
      Store(m, true, Some(t));
    }

    /** A new owner inherits from the queue and becomes ready. */
    method Arise(t: T, m: M)
      requires Links() && m in mutex && Nowhere(t) && t in prio && Sorted(ready, prio) && forall x :: x in waiting[m] ==> x in prio
      modifies this`head, this`ready, this`next, this`status, this`prio
      ensures Links() && status == old(status)[t := Ready]
      ensures prio == old(prio)[t := Best(old(prio)[t], waiting[m], old(prio))]
      ensures ready == Insert(old(ready), t, prio)
    {
      Inherit(t, m);
      status := status[t := Ready];
      SortedFrame(ready, old(prio), prio);
      Wake(t);
    }

    method HandOn(m: M, ghost rest: seq<T>) returns (t: T)
      requires Links() && m in mutex && waiting[m] != [] && rest == waiting[m][1..] && Sorted(ready, prio)
      requires waiting[m][0] in prio && forall x :: x in rest ==> x in prio
      modifies this`head, this`ready, this`next, this`mutex, this`waiting, this`status, this`prio
      ensures t == old(waiting)[m][0] && Links() && status == old(status)[t := Ready]
      ensures LocksOf(mutex, waiting) == LocksOf(old(mutex), old(waiting))[m := Lock(true, Some(t), rest)]
      ensures prio == old(prio)[t := Best(old(prio)[t], rest, old(prio))]
      ensures ready == Insert(old(ready), t, prio)
    {
      t := Crown(m);
      Arise(t, m);
    }

    method HandRole(m: M, ghost rest: seq<T>) returns (t: T)
      requires Links() && m in mutex && waiting[m] != [] && rest == waiting[m][1..] && Sorted(ready, prio) && waiting[m][0] in role
      requires waiting[m][0] in prio && forall x :: x in rest ==> x in prio
      modifies this`head, this`ready, this`next, this`mutex, this`waiting, this`status, this`prio, this`role
      ensures t == old(waiting)[m][0] && Links() && status == old(status)[t := Ready]
      ensures LocksOf(mutex, waiting) == LocksOf(old(mutex), old(waiting))[m := Lock(true, Some(t), rest)]
      ensures prio == old(prio)[t := Best(old(prio)[t], rest, old(prio))]
      ensures ready == Insert(old(ready), t, prio)
      ensures role == old(role)[t := Granted(m, old(role)[t].Waits? && old(role)[t].timed)]
    {
      t := HandOn(m, rest);
      role := role[t := Granted(m, role[t].Waits? && role[t].timed)];
    }

    /** The part of rx_mutex_unlock that hands the mutex on. */
    method Promote(m: M)
      requires Links() && Shape(Abs()) && m in mutex && waiting[m] != [] && Sorted(ready, prio)
      modifies this`head, this`ready, this`next, this`mutex, this`waiting, this`status, this`prio, this`role
      ensures Links() && Abs() == Grant(old(Abs()), m)
    {
      LockFields(m);
      QueueKnown(Abs(), m);
      var t := HandRole(m, waiting[m][1..]);
      GrantIs(old(Abs()), Abs(), m, t, old(waiting)[m][1..]);
    }

    method Unlock(m: M)
      requires Links() && Inv(Abs()) && m in mutex && mutex[m].owner == Some(running) && mutex[m].locked
      modifies this
      ensures Links() && Abs() == MutexProtocol.Unlock(old(Abs()), m)
    {
      ghost var s := Abs();
      assert s.locks[m] == Lock(true, Some(running), waiting[m]);
      RestoreQueue(s, m);
      Restore(m);
      if mutex[m].task != None {
        Promote(m);
      }
    }

    /** rx_mutex_unlock. */
    method MutexUnlock(m: M) returns (code: Code)
      requires Valid() && Enabled(Abs(), DoUnlock(m))
      modifies this
      ensures Valid() && (Abs(), code) == UnlockCall(old(Abs()), m)
    {
      UnlockInv(Abs(), m);
      assert Abs().locks[m] == Lock(mutex[m].locked, mutex[m].owner, waiting[m]);
      code := OsOk;
      if mutex[m].locked {
        if mutex[m].owner != Some(running) { return OsErr; }
        Unlock(m);
      }
    }

    /** The owner loses the priority `p` it may have got from a task that has left the queue. */
    method Recompute(m: M, o: T, p: int)
      requires Queued(m) && o in prio && o in orig && o !in waiting[m] && forall x :: x in waiting[m] ==> x in prio
      modifies this`prio
      ensures prio == if old(prio)[o] == p then old(prio)[o := Best(orig[o], waiting[m], old(prio))] else old(prio)
      ensures prio == old(prio)[o := prio[o]]
    {
      if prio[o] == p {
        prio := prio[o := orig[o]];
        BestFrame(orig[o], waiting[m], old(prio), prio);
        Overwrite(old(prio), o, orig[o], Best(orig[o], waiting[m], old(prio)));
        Inherit(o, m);
      }
    }

    method Relapse(m: M, o: T, p: int)
      requires Links() && m in mutex && o in prio && o in orig && o in status && o !in waiting[m] && Sorted(ready, prio)
      requires (forall x :: x in waiting[m] ==> x in prio) && (status[o] == Ready <==> o in ready)
      modifies this`head, this`ready, this`next, this`prio
      ensures Links() && prio == if old(prio)[o] == p then old(prio)[o := Best(orig[o], waiting[m], old(prio))] else old(prio)
      ensures ready == (if status[o] == Ready then Requeue(old(ready), o, prio) else old(ready)) && Sorted(ready, prio)
    {
      Recompute(m, o, p);
      if status[o] == Ready {
        Reposition(o, old(prio));
      } else {
        SortedFrame(ready, old(prio), prio);
      }
    }

    method Evict(m: M, t: T)
      requires Links() && m in mutex && t in waiting[m]
      modifies this`next, this`mutex, this`waiting
      ensures Links() && m in mutex && waiting == old(waiting)[m := ReadyQueue.Remove(old(waiting)[m], t)] && Nowhere(t)
      ensures LocksOf(mutex, waiting) == LocksOf(old(mutex), old(waiting))[m := Lock(old(mutex)[m].locked, old(mutex)[m].owner, waiting[m])]
    {
      Expel(m, t);
      LocksUpdate(old(mutex), old(waiting), m, mutex[m], waiting[m]);
    }

    method Withdraw(m: M, o: T, t: T, p: int, ghost rest: seq<T>)
      requires Links() && m in mutex && t in waiting[m] && rest == ReadyQueue.Remove(waiting[m], t) && Sorted(ready, prio)
      requires o in prio && o in orig && o in status && o != t && o !in rest && (status[o] == Ready <==> o in ready)
      requires forall x :: x in rest ==> x in prio
      modifies this`head, this`ready, this`next, this`mutex, this`waiting, this`prio
      ensures Links() && Nowhere(t) && Sorted(ready, prio)
      ensures LocksOf(mutex, waiting) == LocksOf(old(mutex), old(waiting))[m := Lock(old(mutex)[m].locked, old(mutex)[m].owner, rest)]
      ensures prio == if old(prio)[o] == p then old(prio)[o := Best(orig[o], rest, old(prio))] else old(prio)
      ensures ready == if status[o] == Ready then Requeue(old(ready), o, prio) else old(ready)
    {
      Evict(m, t);
      Relapse(m, o, p);
    }

    /** The task whose time has run out leaves the queue and is made ready. */
    method TimeOut(m: M, o: T, t: T, p: int, ghost rest: seq<T>)
      requires Links() && m in mutex && t in waiting[m] && rest == ReadyQueue.Remove(waiting[m], t) && Sorted(ready, prio)
      requires t in prio && o in prio && o in orig && o in status && o != t && o !in rest && (status[o] == Ready <==> o in ready)
      requires forall x :: x in rest ==> x in prio
      modifies this`head, this`ready, this`next, this`mutex, this`waiting, this`status, this`prio, this`role
      ensures Links() && status == old(status)[t := Ready] && role == old(role)[t := Expired(m)]
      ensures LocksOf(mutex, waiting) == LocksOf(old(mutex), old(waiting))[m := Lock(old(mutex)[m].locked, old(mutex)[m].owner, rest)]
      ensures prio == if old(prio)[o] == p then old(prio)[o := Best(orig[o], rest, old(prio))] else old(prio)
      ensures var ready' := if old(status)[o] == Ready then Requeue(old(ready), o, prio) else old(ready);
        ready == Insert(ready', t, prio)
    {
      Withdraw(m, o, t, p, rest);
      status, role := status[t := Ready], role[t := Expired(m)];
      Wake(t);
    }

    method Expire(m: M, o: T, t: T)
      requires Links() && Shape(Abs()) && m in mutex && mutex[m].locked && mutex[m].owner == Some(o) && t in waiting[m]
      requires Sorted(ready, prio) && t in prio && o in prio && o != t && o !in waiting[m] && (status[o] == Ready <==> o in ready)
      modifies this`head, this`ready, this`next, this`mutex, this`waiting, this`status, this`prio, this`role
      ensures Links() && Abs() == MutexProtocol.Expire(old(Abs()), m, t)
    {
      LockFields(m);
      TimeOut(m, o, t, prio[t], ReadyQueue.Remove(waiting[m], t));
      ExpireIs(old(Abs()), Abs(), m, o, t, ReadyQueue.Remove(old(waiting)[m], t));
    }

    /** __rx_mutex_handler for a task that waits at `m`. */
    method MutexHandler(m: M, t: T)
      requires Valid() && Enabled(Abs(), DoExpire(t)) && role[t].mutex == m
      modifies this
      ensures Valid() && Abs() == ExpireCall(old(Abs()), t)
    {
      ghost var s := Abs();
      ExpireInv(s, t);
      assert TaskOk(s, t);
      assert s.locks[m] == Lock(mutex[m].locked, mutex[m].owner, waiting[m]);
      if mutex[m].owner == Some(t) { return; }
      ExpireFacts(s, m, mutex[m].owner.value, t);
      Expire(m, mutex[m].owner.value, t);
    }

    /** The end of rx_mutex_lock for a caller that had to wait at `m`. */
    method Resumed(m: M, timed: bool) returns (code: Code)
      requires Shape(Abs()) && Links() && m in mutex
      requires role[running] == Granted(m, timed) || (timed && role[running] == Expired(m))
      modifies this`role
      ensures Links() && Abs() == Return(old(Abs())) && code == Outcome(old(Abs()))
    {
      assert Abs().locks[m] == Lock(mutex[m].locked, mutex[m].owner, waiting[m]);
      code := if !timed || mutex[m].owner == Some(running) then OsOk else Timeout;
      role := role[running := if role[running].Granted? then Holds(m) else Free];
    }

    /** The interrupt's exit when a reschedule is pending. */
    method Switch()
      requires Links() && Shape(Abs()) && ready != []
      modifies this`running, this`status, this`ticks
      ensures Links() && Abs() == MutexProtocol.Preempt(old(Abs()))
    {
      assert ready[0] in ready;
      status := status[running := Ready];
      running := head.value;
      status := status[running := Running];
      if slice[running] != 0 && ticks[running] == 0 { ticks := ticks[running := slice[running]]; }
    }

    method Preempt()
      requires Valid()
      modifies this
      ensures Valid() && Abs() == MutexProtocol.Preempt(old(Abs()))
    {
      PreemptInv(Abs());
      assert idle in ready;
      Switch();
    }

    /** The running task goes behind its equals. */
    method SliceEnd()
      requires Links() && Shape(Abs()) && running in ready && Sorted(ready, prio) && status[running] != Suspended
      modifies this`head, this`ready, this`next, this`ticks
      ensures Links() && Abs() == Used(old(Abs())) && ready != []
    {
      assert prio == prio[running := prio[running]];
      ticks := ticks[running := 0];
      Reposition(running, prio);
    }

    method NextTurn()
      requires Links() && Shape(Abs()) && running in ready && Sorted(ready, prio) && status[running] != Suspended
      modifies this`head, this`ready, this`next, this`ticks, this`running, this`status
      ensures Links() && Abs() == MutexProtocol.Preempt(Used(old(Abs())))
    {
      SliceEnd();
      Switch();
    }

    method SliceTick()
      requires Links() && Shape(Abs()) && running in ready && Sorted(ready, prio) && status[running] != Suspended
      modifies this`head, this`ready, this`next, this`ticks, this`running, this`status
      ensures Links() && Abs() == MutexProtocol.Tick(old(Abs()))
    {
      if slice[running] > 0 {
        if ticks[running] == 1 {
          NextTurn();
        } else {
          ticks := ticks[running := ticks[running] - 1];
        }
      }
    }

    /** The timer interrupt's part in time slicing. */
    method Tick()
      requires Valid()
      modifies this
      ensures Valid() && Abs() == MutexProtocol.Tick(old(Abs()))
    {
      TickInv(Abs());
      RunningFacts(Abs());
      SliceTick();
    }

    method TakeAway(t: T)
      requires Links() && Shape(Abs()) && t in prio && t in ready
      modifies this`head, this`ready, this`next, this`status
      ensures Links() && Abs() == Suspend(old(Abs()), t)
    {
      TakeOut(t);
      status := status[t := Suspended];
    }

    /** rx_suspend_task: no argument stands for the caller, and a task that is not READY is left alone. */
    method SuspendTask(who: Option<T>)
      requires Links() && Shape(Abs()) && idle in ready && who != Some(idle)
      requires if who == None then running in ready && running != idle
               else who.value in prio && (status[who.value] == Ready ==> who.value in ready && who.value != running)
      modifies this`head, this`ready, this`next, this`status, this`running, this`ticks
      ensures Links()
      ensures Abs() == if who == None then SuspendCall(old(Abs()), old(running))
                       else if old(status)[who.value] == Ready then SuspendCall(old(Abs()), who.value) else old(Abs())
    {
      if who == None {
        RemoveFacts(ready, running);
        TakeAway(running);
        Sched();
      } else if status[who.value] == Ready {
        TakeAway(who.value);
      }
    }

    /** rx_resume_task, for a task that does not wait at a mutex. */
    method ResumeTask(t: T) returns (code: Code)
      requires Links() && Shape(Abs()) && t in prio && Sorted(ready, prio) && (status[t] == Suspended ==> Nowhere(t))
      modifies this`head, this`ready, this`next, this`status
      ensures code == if old(status)[t] == Suspended then OsOk else OsErr
      ensures Links() && Abs() == if code == OsOk then Resume(old(Abs()), t) else old(Abs())
    {
      if status[t] != Suspended { return OsErr; }
      status := status[t := Ready];
      Wake(t);
      code := OsOk;
    }
  }
}
