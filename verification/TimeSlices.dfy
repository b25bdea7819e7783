/** What becomes of a task's time slice in a run (kernel/rx_timer.c, kernel/rx_sched.c). */
module TimeSlices {
  import opened ReadyQueue
  import opened MutexProtocol
  import opened MutexSafety
  import opened MutexRuns
  import opened CallEffects

  /** A tick of the slice of `t` is used up. */
  ghost predicate Spends<T, M>(s: Sys<T, M>, e: Event<T, M>, t: T) {
    e == DoTick && t == s.running && t in s.slice && s.slice[t] > 0
  }

  ghost predicate Member<T, M>(s: Sys<T, M>, t: T) {
    t in s.prio && t in s.slice && t in s.ticks
  }

  /**
   Only ticks during which the task runs use up its slice, and the last one ends its turn; a new slice
   comes only when the old one is used up and the task gets the processor.
   */
  ghost predicate SliceStep<T, M>(s: Sys<T, M>, e: Event<T, M>, s': Sys<T, M>, t: T) {
    && Member(s, t) && Member(s', t) && s'.slice == s.slice
    && if !Spends(s, e, t) then s'.ticks[t] == s.ticks[t] || Refilled(s, s', t, s.ticks[t])
       else if s.ticks[t] > 1 then s'.ticks[t] == s.ticks[t] - 1 && s'.running == t && s'.ready == s.ready
       else TurnOver(s, s', t)
  }

  ghost predicate Refilled<T, M>(s: Sys<T, M>, s': Sys<T, M>, t: T, left: int)
    requires t in s.slice && t in s'.ticks
  {
    left == 0 && s'.running == t && s'.ticks[t] == s.slice[t]
  }

  /** The task goes behind its equals; it runs on only if there are none. */
  ghost predicate TurnOver<T, M>(s: Sys<T, M>, s': Sys<T, M>, t: T)
    requires t in s.slice && t in s.ticks && t in s'.ticks
  {
    && s.ticks[t] == 1 && Moves(s.ready, s'.ready, t, s.prio) && s'.ready != [] && s'.running == s'.ready[0]
    && (s'.ticks[t] == 0 || Refilled(s, s', t, 0)) && (s'.running == t ==> Refilled(s, s', t, 0))
  }

  lemma {:induction false} Members<T, M>(s: Sys<T, M>, s': Sys<T, M>, t: T)
    requires Fixed(s, s') && t in s.prio
    ensures Member(s, t) && Member(s', t) && s'.slice == s.slice
  {
  }

  lemma {:induction false} SuppliedSlice<T, M>(s: Sys<T, M>, e: Event<T, M>, s': Sys<T, M>, t: T)
    requires Member(s, t) && Member(s', t) && s'.slice == s.slice && !e.DoTick?
    requires s'.ticks == s.ticks || Supplied(s.slice, s.ticks, s'.ticks, s'.running)
    ensures SliceStep(s, e, s', t)
  {
  }

  lemma {:induction false} SwitchSlice<T, M>(s: Sys<T, M>, e: Event<T, M>, s': Sys<T, M>, u: T, status: Status, t: T)
    requires Switches(s, s', u, status) && t in s.prio && !e.DoTick?
    ensures SliceStep(s, e, s', t)
  {
    Members(s, s', t);
    SuppliedSlice(s, e, s', t);
  }

  lemma {:induction false} QuietSlice<T, M>(s: Sys<T, M>, e: Event<T, M>, s': Sys<T, M>, t: T)
    requires Fixed(s, s') && s'.ticks == s.ticks && t in s.prio && !e.DoTick?
    ensures SliceStep(s, e, s', t)
  {
    Members(s, s', t);
    SuppliedSlice(s, e, s', t);
  }

  lemma {:induction false} LastTick<T, M>(s: Sys<T, M>, s': Sys<T, M>, t: T)
    requires Shape(s) && Ticks(s, s') && t in s.prio && s.slice[s.running] > 0 && s.ticks[s.running] == 1
    ensures SliceStep(s, DoTick, s', t)
  {
    Members(s, s', t);
  }

  lemma {:induction false} TickSlice<T, M>(s: Sys<T, M>, s': Sys<T, M>, t: T)
    requires Shape(s) && SlicesOk(s) && Ticks(s, s') && t in s.prio
    ensures SliceStep(s, DoTick, s', t)
  {
    if s.slice[s.running] > 0 && s.ticks[s.running] == 1 { LastTick(s, s', t); } else { Members(s, s', t); }
  }

  lemma {:induction false} LockSlice<T, M>(s: Sys<T, M>, m: M, timeout: int, s': Sys<T, M>, t: T)
    requires Shape(s) && Locks(s, m, timeout, s') && t in s.prio
    ensures SliceStep(s, DoLock(m, timeout), s', t)
  {
    var e: Event<T, M> := DoLock(m, timeout);
    if s.locks[m].locked && timeout != 0 { SwitchSlice(s, e, s', s.running, Suspended, t); } else { QuietSlice(s, e, s', t); }
  }

  lemma {:induction false} UnlockSlice<T, M>(s: Sys<T, M>, m: M, s': Sys<T, M>, t: T)
    requires Shape(s) && Unlocks(s, m, s') && t in s.prio
    ensures SliceStep(s, DoUnlock(m), s', t)
  {
    QuietSlice(s, DoUnlock(m), s', t);
  }

  lemma {:induction false} SuspendSlice<T, M>(s: Sys<T, M>, u: T, s': Sys<T, M>, t: T)
    requires Suspends(s, u, s') && t in s.prio
    ensures SliceStep(s, DoSuspend(u), s', t)
  {
    if u == s.running { SwitchSlice(s, DoSuspend(u), s', u, Suspended, t); } else { QuietSlice(s, DoSuspend(u), s', t); }
  }

  lemma {:induction false} StepSlice<T, M>(s: Sys<T, M>, e: Event<T, M>, s': Sys<T, M>, t: T)
    requires Shape(s) && SlicesOk(s) && Effect(s, e, s') && t in s.prio
    ensures SliceStep(s, e, s', t)
  {
    match e
    case DoLock(m, timeout) => LockSlice(s, m, timeout, s', t);
    case DoUnlock(m) => UnlockSlice(s, m, s', t);
    case DoReturn => QuietSlice(s, e, s', t);
    case DoExpire(_) => QuietSlice(s, e, s', t);
    case DoPreempt => SwitchSlice(s, e, s', s.running, Ready, t);
    case DoTick => TickSlice(s, s', t);
    case DoSuspend(u) => SuspendSlice(s, u, s', t);
    case DoResume(_) => QuietSlice(s, e, s', t);
  }

  lemma {:induction false} RunSlice<T, M>(states: seq<Sys<T, M>>, events: seq<Event<T, M>>, t: T, k: nat)
    requires Run(states, events) && k < |events| && t in states[k].prio
    ensures SliceStep(states[k], events[k], states[k + 1], t)
  {
    RunInv(states, events, k);
    RunEffect(states, events, k);
    StepSlice(states[k], events[k], states[k + 1], t);
  }

  // ------------------------------------------------------------- over a run

  lemma {:induction false} SlicesFixed<T, M>(states: seq<Sys<T, M>>, events: seq<Event<T, M>>, t: T, k: nat)
    requires Run(states, events) && k < |states| && t in states[0].prio
    ensures Member(states[k], t) && states[k].slice == states[0].slice
  {
    if k > 0 {
      SlicesFixed(states, events, t, k - 1);
      RunSlice(states, events, t, k - 1);
    }
  }

  /** How many ticks `t` uses up between the states numbered `i` and `k`. */
  ghost function Spent<T, M>(states: seq<Sys<T, M>>, events: seq<Event<T, M>>, t: T, i: nat, k: nat): nat
    requires k <= |events| < |states|
  {
    if k <= i then 0
    else Spent(states, events, t, i, k - 1) + if Spends(states[k - 1], events[k - 1], t) then 1 else 0
  }

  lemma {:induction false} RestStep<T, M>(s: Sys<T, M>, e: Event<T, M>, s': Sys<T, M>, t: T, rest: int)
    requires SliceStep(s, e, s', t) && s.ticks[t] == rest > (if Spends(s, e, t) then 1 else 0)
    ensures s'.ticks[t] == rest - if Spends(s, e, t) then 1 else 0
  {
  }

  /** Whatever happens in between, a task loses nothing of its slice but the ticks it runs. */
  lemma {:induction false} KeepsRest<T, M>(states: seq<Sys<T, M>>, events: seq<Event<T, M>>, t: T, i: nat, k: nat)
    requires Run(states, events) && i <= k < |states| && t in states[0].prio
    requires t in states[i].ticks && Spent(states, events, t, i, k) < states[i].ticks[t]
    ensures t in states[k].ticks && states[k].ticks[t] == states[i].ticks[t] - Spent(states, events, t, i, k)
    decreases k
  {
    if i < k {
      KeepsRest(states, events, t, i, k - 1);
      SlicesFixed(states, events, t, k - 1);
      RunSlice(states, events, t, k - 1);
      RestStep(states[k - 1], events[k - 1], states[k], t, states[k - 1].ticks[t]);
    }
  }

  lemma {:induction false} LastStep<T, M>(s: Sys<T, M>, e: Event<T, M>, s': Sys<T, M>, t: T)
    requires SliceStep(s, e, s', t) && Spends(s, e, t)
    ensures if s.ticks[t] > 1 then s'.running == t && s'.ready == s.ready else TurnOver(s, s', t)
  {
  }

  /** So its turn goes on with every such tick but the last, and ends with that one. */
  lemma {:induction false} TurnLasts<T, M>(states: seq<Sys<T, M>>, events: seq<Event<T, M>>, t: T, i: nat, k: nat)
    requires Run(states, events) && i <= k < |events| && t in states[0].prio && t in states[i].ticks
    requires Spends(states[k], events[k], t) && Spent(states, events, t, i, k) < states[i].ticks[t]
    ensures Member(states[k], t) && Member(states[k + 1], t)
    ensures if Spent(states, events, t, i, k) + 1 < states[i].ticks[t]
      then states[k + 1].running == t && states[k + 1].ready == states[k].ready else TurnOver(states[k], states[k + 1], t)
  {
    SlicesFixed(states, events, t, k);
    SlicesFixed(states, events, t, k + 1);
    KeepsRest(states, events, t, i, k);
    RunSlice(states, events, t, k);
    LastStep(states[k], events[k], states[k + 1], t);
  }

  lemma {:induction false} ConservedStep<T, M>(s: Sys<T, M>, e: Event<T, M>, s': Sys<T, M>, t: T, n: nat) returns (n': nat)
    requires SliceStep(s, e, s', t)
    ensures (if Spends(s, e, t) then 1 else 0) + s'.ticks[t] - s.ticks[t] == n' * s.slice[t] - n * s.slice[t]
  {
    n' := n;
    if s'.ticks[t] != s.ticks[t] - if Spends(s, e, t) then 1 else 0 {
      n' := n + 1;
      assert n' * s.slice[t] == n * s.slice[t] + s.slice[t];
    }
  }

  /** Ticks used and ticks left add up to those there were at first and whole slices. */
  lemma {:induction false} SlicesConserved<T, M>(states: seq<Sys<T, M>>, events: seq<Event<T, M>>, t: T, i: nat, k: nat) returns (n: nat)
    requires Run(states, events) && i <= k < |states| && t in states[0].prio
    ensures Member(states[i], t) && Member(states[k], t)
    ensures Spent(states, events, t, i, k) + states[k].ticks[t] == states[i].ticks[t] + n * states[i].slice[t]
    decreases k
  {
    SlicesFixed(states, events, t, i);
    SlicesFixed(states, events, t, k);
    n := 0;
    if i < k {
      var n' := SlicesConserved(states, events, t, i, k - 1);
      SlicesFixed(states, events, t, k - 1);
      RunSlice(states, events, t, k - 1);
      n := ConservedStep(states[k - 1], events[k - 1], states[k], t, n');
    }
  }
}
