/** Time slicing among the most urgent tasks (kernel/rx_timer.c, kernel/rx_sched.c). */
module RoundRobin {
  import opened Wrappers
  import opened ReadyQueue
  import opened CallEffects
  import MutexProtocol
  import MutexSafety
  import MutexRuns

  /** What the tick looks at: the queue, who runs, and the slices. */
  datatype Cpu<T> = Cpu(prio: map<T, int>, slice: map<T, int>, ticks: map<T, int>, ready: seq<T>, running: T)

  ghost predicate Fit<T>(c: Cpu<T>) {
    && c.slice.Keys == c.prio.Keys && c.ticks.Keys == c.prio.Keys && c.running in c.prio
    && (forall t :: t in c.ready ==> t in c.prio)
  }

  function Tick<T(==)>(c: Cpu<T>): (r: Cpu<T>)
    requires Fit(c)
    ensures Fit(r) && r.prio == c.prio && r.slice == c.slice
  {
    var t := c.running;
    if c.slice[t] <= 0 then c
    else if c.ticks[t] != 1 then c.(ticks := c.ticks[t := c.ticks[t] - 1])
    else Switch(Spent(c))
  }

  /** The running task has used up its slice and goes behind its equals. */
  function Spent<T(==)>(c: Cpu<T>): (r: Cpu<T>)
    requires Fit(c)
    ensures Fit(r) && r.prio == c.prio && r.slice == c.slice
  {
    c.(ticks := c.ticks[c.running := 0], ready := MutexProtocol.Requeue(c.ready, c.running, c.prio))
  }

  /** The head of the queue runs, with a new slice if it has used up its own. */
  function Switch<T>(c: Cpu<T>): (r: Cpu<T>)
    requires Fit(c)
    ensures Fit(r) && r.prio == c.prio && r.slice == c.slice
  {
    if c.ready == [] then c
    else
      var t := c.ready[0];
      var ticks := if c.slice[t] != 0 && c.ticks[t] == 0 then c.ticks[t := c.slice[t]] else c.ticks;
      c.(running := t, ticks := ticks)
  }

  ghost function View<T, M>(s: MutexProtocol.Sys<T, M>): (c: Cpu<T>)
    ensures MutexProtocol.Shape(s) ==> Fit(c)
  {
    Cpu(s.prio, s.slice, s.ticks, s.ready, s.running)
  }

  lemma {:induction false} PreemptView<T, M>(s: MutexProtocol.Sys<T, M>)
    requires MutexProtocol.Shape(s)
    ensures View(MutexProtocol.Preempt(s)) == Switch(View(s))
  {
  }

  lemma {:induction false} UsedView<T, M>(s: MutexProtocol.Sys<T, M>)
    requires MutexProtocol.Shape(s)
    ensures View(MutexProtocol.Used(s)) == Spent(View(s))
  {
  }

  /** The tick of the whole system seen from the processor. */
  lemma {:induction false} TickView<T, M>(s: MutexProtocol.Sys<T, M>)
    requires MutexProtocol.Shape(s)
    ensures View(MutexProtocol.Tick(s)) == Tick(View(s))
  {
    var t := s.running;
    if s.slice[t] > 0 && s.ticks[t] == 1 {
      UsedView(s);
      PreemptView(MutexProtocol.Used(s));
    }
  }

  /** Ticks until the running task has used up its slice, the last one included. */
  function Turn<T(==)>(c: Cpu<T>): (r: Cpu<T>)
    requires Fit(c)
    ensures Fit(r) && r.prio == c.prio && r.slice == c.slice
    decreases c.ticks[c.running]
  {
    if c.slice[c.running] <= 0 || c.ticks[c.running] <= 1 then Tick(c) else Turn(Tick(c))
  }

  /** `cs[i]` is the state after `i` turns. */
  ghost predicate Turns<T>(cs: seq<Cpu<T>>) {
    && (forall i :: 0 <= i < |cs| ==> Fit(cs[i]))
    && (forall i :: 0 <= i < |cs| - 1 ==> TurnAt(cs, i))
  }

  ghost predicate TurnAt<T>(cs: seq<Cpu<T>>, i: nat)
    requires i + 1 < |cs| && Fit(cs[i])
  {
    cs[i + 1] == Turn(cs[i])
  }

  /** The most urgent tasks `top`, the first of which runs, and the less urgent `rest`. */
  ghost predicate Level<T>(c: Cpu<T>, top: seq<T>, rest: seq<T>) {
    && Fit(c) && c.ready == top + rest && top != [] && c.running == top[0]
    && c.ticks[c.running] > 0
    && (forall t :: t in top ==> t in c.prio && c.slice[t] > 0 && c.ticks[t] >= 0 && c.prio[t] == c.prio[c.running])
    && (forall t :: t in rest ==> t in c.prio && c.prio[t] > c.prio[c.running])
  }

  /** How long a task runs at its turn: for what is left of its slice, or for a new one. */
  function Share<T>(c: Cpu<T>, t: T): (n: int) {
    if t in c.slice && t in c.ticks then Allowance(c.slice, c.ticks, t) else 0
  }

  function Rotate<T>(top: seq<T>): seq<T>
    requires top != []
  {
    top[1..] + [top[0]]
  }

  // ------------------------------------------------------------- one turn

  lemma {:induction false} BehindEquals<T>(a: seq<T>, t: T, b: seq<T>, prio: map<T, int>)
    requires t in prio && (forall x :: x in a ==> x in prio && prio[x] <= prio[t])
    requires forall x :: x in b ==> x in prio && prio[x] > prio[t]
    ensures Insert(a + b, t, prio) == a + [t] + b
  {
    var s, k := a + b, Place(a + b, prio[t], prio);
    assert forall i :: 0 <= i < |a| ==> s[i] == a[i] && a[i] in a;
    assert forall i :: 0 <= i < |b| ==> s[|a| + i] == b[i] && b[i] in b;
    assert k >= |a|;
    assert |b| > 0 ==> prio[s[|a|]] > prio[t];
    assert s[..k] == a && s[k..] == b;
  }

  lemma {:induction false} RequeueRotates<T>(top: seq<T>, rest: seq<T>, prio: map<T, int>)
    requires top != [] && top[0] in prio && (forall x :: x in top ==> x in prio && prio[x] == prio[top[0]])
    requires forall x :: x in rest ==> x in prio && prio[x] > prio[top[0]]
    ensures MutexProtocol.Requeue(top + rest, top[0], prio) == Rotate(top) + rest
  {
    assert (top + rest)[0] == top[0] && (top + rest)[1..] == top[1..] + rest;
    assert forall x :: x in top[1..] ==> x in top;
    BehindEquals(top[1..], top[0], rest, prio);
  }

  lemma {:induction false} RotateMembers<T>(top: seq<T>)
    requires top != []
    ensures forall x :: x in Rotate(top) <==> x in top
  {
    assert top == [top[0]] + top[1..];
  }

  lemma {:induction false} SpentAnyway<T>(c: Cpu<T>, k: int)
    requires Fit(c)
    ensures Spent(c.(ticks := c.ticks[c.running := k])) == Spent(c)
  {
    assert c.ticks[c.running := k][c.running := 0] == c.ticks[c.running := 0];
  }

  /** At the end of the turn the task goes behind its equals and the next one runs. */
  lemma {:induction false} TurnEnds<T>(c: Cpu<T>)
    requires Fit(c) && c.slice[c.running] > 0 && c.ticks[c.running] > 0
    ensures Turn(c) == Switch(Spent(c))
    decreases c.ticks[c.running]
  {
    if c.ticks[c.running] > 1 {
      TurnEnds(Tick(c));
      SpentAnyway(c, c.ticks[c.running] - 1);
    }
  }

  lemma {:induction false} SwitchLevel<T>(c: Cpu<T>, u: Cpu<T>, top: seq<T>, rest: seq<T>)
    requires Level(c, top, rest) && u == c.(ticks := c.ticks[top[0] := 0], ready := Rotate(top) + rest) && Fit(u)
    ensures Level(Switch(u), Rotate(top), rest)
  {
    RotateMembers(top);
    assert Rotate(top)[0] in Rotate(top) && top[0] in top;
  }

  lemma {:induction false} SpentLevel<T>(c: Cpu<T>, top: seq<T>, rest: seq<T>)
    requires Level(c, top, rest)
    ensures Level(Switch(Spent(c)), Rotate(top), rest)
  {
    RequeueRotates(top, rest, c.prio);
    SwitchLevel(c, Spent(c), top, rest);
  }

  /** The task whose turn is over has a new slice before it, and the others what they had. */
  lemma {:induction false} SpentShare<T>(c: Cpu<T>, t: T)
    requires Fit(c) && t in c.prio
    ensures Share(Switch(Spent(c)), t) == if t == c.running then c.slice[t] else Share(c, t)
  {
    SwitchShare(Spent(c), t);
  }

  lemma {:induction false} SwitchShare<T>(c: Cpu<T>, t: T)
    requires Fit(c) && t in c.prio
    ensures Share(Switch(c), t) == Share(c, t)
  {
  }

  // ------------------------------------------------------------- a whole round

  /** The first `i` tasks of `top` have gone to the back. */
  function Around<T>(top: seq<T>, i: nat): seq<T>
    requires i <= |top|
  {
    top[i..] + top[..i]
  }

  lemma {:induction false} AroundNext<T>(top: seq<T>, i: nat)
    requires i < |top|
    ensures Around(top, i)[0] == top[i] && Rotate(Around(top, i)) == Around(top, i + 1)
  {
    assert top[..i + 1] == top[..i] + [top[i]];
  }

  /** After the turns of the first `i` tasks: these have new slices before them, the others what they had. */
  ghost predicate Cycled<T>(c: Cpu<T>, c': Cpu<T>, top: seq<T>, rest: seq<T>, i: nat) {
    && i <= |top| && Fit(c) && Level(c', Around(top, i), rest) && c'.slice == c.slice
    && (forall j :: 0 <= j < |top| ==> SharedAt(c, c', top, i, j))
  }

  ghost predicate SharedAt<T>(c: Cpu<T>, c': Cpu<T>, top: seq<T>, i: nat, j: nat)
    requires j < |top|
  {
    top[j] in c.slice && Share(c', top[j]) == if j < i then c.slice[top[j]] else Share(c, top[j])
  }

  lemma {:induction false} CycledNone<T>(c: Cpu<T>, top: seq<T>, rest: seq<T>)
    requires Level(c, top, rest)
    ensures Cycled(c, c, top, rest, 0)
  {
    assert Around(top, 0) == top;
    forall j | 0 <= j < |top| ensures SharedAt(c, c, top, 0, j) { assert top[j] in top; }
  }

  lemma {:induction false} CycledRuns<T>(c: Cpu<T>, c': Cpu<T>, top: seq<T>, rest: seq<T>, i: nat)
    requires Cycled(c, c', top, rest, i) && i < |top|
    ensures c'.running == top[i] && c'.slice[top[i]] > 0 && c'.ticks[top[i]] == Share(c, top[i]) > 0
  {
    AroundNext(top, i);
    assert Around(top, i)[0] in Around(top, i) && SharedAt(c, c', top, i, i);
  }

  lemma {:induction false} CycledShares<T>(c: Cpu<T>, c': Cpu<T>, top: seq<T>, rest: seq<T>, i: nat, j: nat)
    requires Cycled(c, c', top, rest, i) && i < |top| && j < |top| && NoRepeats(top)
    ensures SharedAt(c, Switch(Spent(c')), top, i + 1, j)
  {
    CycledRuns(c, c', top, rest, i);
    assert SharedAt(c, c', top, i, j);
    SpentShare(c', top[j]);
  }

  lemma {:induction false} CycledOn<T>(c: Cpu<T>, c1: Cpu<T>, c2: Cpu<T>, top: seq<T>, rest: seq<T>, i: nat)
    requires Cycled(c, c1, top, rest, i) && i < |top| && c2 == Switch(Spent(c1)) && NoRepeats(top)
    ensures Cycled(c, c2, top, rest, i + 1)
  {
    AroundNext(top, i);
    SpentLevel(c1, Around(top, i), rest);
    var k := i + 1;
    forall j | 0 <= j < |top| ensures SharedAt(c, c2, top, k, j) {
      CycledShares(c, c1, top, rest, i, j);
    }
  }

  lemma {:induction false} TurnCycles<T>(c: Cpu<T>, c1: Cpu<T>, c2: Cpu<T>, top: seq<T>, rest: seq<T>, i: nat)
    requires Cycled(c, c1, top, rest, i) && i < |top| && c2 == Turn(c1) && NoRepeats(top)
    ensures Cycled(c, c2, top, rest, i + 1)
  {
    CycledRuns(c, c1, top, rest, i);
    TurnEnds(c1);
    CycledOn(c, c1, c2, top, rest, i);
  }

  lemma {:induction false} NextTurn<T>(cs: seq<Cpu<T>>, c: Cpu<T>, top: seq<T>, rest: seq<T>, i: nat)
    requires Turns(cs) && i + 1 < |cs| && i < |top| && NoRepeats(top) && Cycled(c, cs[i], top, rest, i)
    ensures Cycled(c, cs[i + 1], top, rest, i + 1)
  {
    assert TurnAt(cs, i);
    TurnCycles(c, cs[i], cs[i + 1], top, rest, i);
  }

  /** After `i` turns the queue has moved round by `i`. */
  lemma {:induction false} AfterTurns<T>(cs: seq<Cpu<T>>, c: Cpu<T>, top: seq<T>, rest: seq<T>, i: nat)
    requires Turns(cs) && i < |cs| && i <= |top| && c == cs[0] && Cycled(c, c, top, rest, 0) && NoRepeats(top)
    ensures Cycled(c, cs[i], top, rest, i)
    decreases i
  {
    if i > 0 {
      AfterTurns(cs, c, top, rest, i - 1);
      NextTurn(cs, c, top, rest, i - 1);
    }
  }

  /**
   As many turns as there are most urgent tasks let each of them run once, for what was left of its
   slice or for a new one, and restore the order; then each has a whole slice before it.
   */
  lemma {:induction false} FullRound<T>(cs: seq<Cpu<T>>, top: seq<T>, rest: seq<T>)
    requires Turns(cs) && |cs| == |top| + 1 && Level(cs[0], top, rest) && NoRepeats(top)
    ensures forall i :: 0 <= i < |top| ==>
      cs[i].running == top[i] && top[i] in cs[i].ticks && cs[i].ticks[top[i]] == Share(cs[0], top[i])
    ensures cs[|top|].ready == cs[0].ready && cs[|top|].running == cs[0].running
    ensures forall i :: 0 <= i < |top| ==> top[i] in cs[0].slice && Share(cs[|top|], top[i]) == cs[0].slice[top[i]]
  {
    CycledNone(cs[0], top, rest);
    forall i | 0 <= i < |top|
      ensures cs[i].running == top[i] && top[i] in cs[i].ticks && cs[i].ticks[top[i]] == Share(cs[0], top[i])
    {
      AfterTurns(cs, cs[0], top, rest, i);
      CycledRuns(cs[0], cs[i], top, rest, i);
    }
    AfterTurns(cs, cs[0], top, rest, |top|);
    assert Around(top, |top|) == top;
    forall i | 0 <= i < |top| ensures top[i] in cs[0].slice && Share(cs[|top|], top[i]) == cs[0].slice[top[i]] {
      assert SharedAt(cs[0], cs[|top|], top, |top|, i);
    }
  }

  lemma {:induction false} Tail<T>(ready: seq<T>, prio: map<T, int>, k: nat, p: int)
    requires Sorted(ready, prio) && k <= |ready| && (k < |ready| ==> prio[ready[k]] > p)
    ensures forall t :: t in ready[k..] ==> t in prio && prio[t] > p
  {
  }

  /** Where that applies: the head of the queue runs, and the `k` tasks as urgent as it have slices. */
  lemma {:induction false} LevelOf<T, M>(s: MutexProtocol.Sys<T, M>, k: nat)
    requires MutexProtocol.Shape(s) && Sorted(s.ready, s.prio) && NoRepeats(s.ready) && MutexSafety.SlicesOk(s)
    requires 0 < k <= |s.ready| && s.running == s.ready[0]
    requires forall t :: t in s.ready[..k] ==> t in s.prio && s.slice[t] > 0 && s.prio[t] == s.prio[s.running]
    requires k < |s.ready| ==> s.ready[k] in s.prio && s.prio[s.ready[k]] > s.prio[s.running]
    ensures Level(View(s), s.ready[..k], s.ready[k..]) && NoRepeats(s.ready[..k])
  {
    assert s.ready == s.ready[..k] + s.ready[k..] && s.ready[0] == s.ready[..k][0] && s.ready[0] in s.ready[..k];
    Tail(s.ready, s.prio, k, s.prio[s.running]);
  }

  // ------------------------------------------------------------- tick by tick

  /** `cs[j]` is the state after `j` ticks. */
  ghost predicate Ticked<T>(cs: seq<Cpu<T>>) {
    && (forall j :: 0 <= j < |cs| ==> Fit(cs[j]))
    && (forall j :: 0 <= j < |cs| - 1 ==> TickAt(cs, j))
  }

  ghost predicate TickAt<T>(cs: seq<Cpu<T>>, j: nat)
    requires j + 1 < |cs| && Fit(cs[j])
  {
    cs[j + 1] == Tick(cs[j])
  }

  /** As many ticks as the running task has left are its turn. */
  lemma {:induction false} TurnOfTicks<T>(cs: seq<Cpu<T>>, k: nat, n: nat)
    requires Ticked(cs) && 0 < n && k + n < |cs|
    requires cs[k].slice[cs[k].running] > 0 && cs[k].ticks[cs[k].running] == n
    ensures cs[k + n] == Turn(cs[k])
    decreases n
  {
    assert TickAt(cs, k);
    if n > 1 { TurnOfTicks(cs, k + 1, n - 1); }
  }

  /** Until then it runs. */
  lemma {:induction false} RunsMeanwhile<T>(cs: seq<Cpu<T>>, k: nat, d: nat)
    requires Ticked(cs) && k + d < |cs| && cs[k].slice[cs[k].running] > 0 && d < cs[k].ticks[cs[k].running]
    ensures var c := cs[k + d]; c.running == cs[k].running && c.ticks[c.running] == cs[k].ticks[cs[k].running] - d
    decreases d
  {
    if d > 0 {
      assert TickAt(cs, k);
      RunsMeanwhile(cs, k + 1, d - 1);
    }
  }

  /** When the turn of each task begins, and when the last one ends. */
  ghost predicate Timetable<T>(c: Cpu<T>, top: seq<T>, at: seq<int>) {
    |at| == |top| + 1 && at[0] == 0 && forall i :: 0 <= i < |top| ==> Entry(c, top, at, i)
  }

  ghost predicate Entry<T>(c: Cpu<T>, top: seq<T>, at: seq<int>, i: nat)
    requires i < |top| && i + 1 < |at|
  {
    at[i + 1] == at[i] + Share(c, top[i])
  }

  function Times<T>(c: Cpu<T>, top: seq<T>): (at: seq<int>)
    ensures |at| == |top| + 1
  {
    if top == [] then [0]
    else
      var at := Times(c, top[..|top| - 1]);
      at + [at[|top| - 1] + Share(c, top[|top| - 1])]
  }

  lemma {:induction false} TimesTimetable<T>(c: Cpu<T>, top: seq<T>)
    ensures Timetable(c, top, Times(c, top))
    decreases |top|
  {
    if top != [] {
      var n := |top| - 1;
      var early, at := Times(c, top[..n]), Times(c, top);
      TimesTimetable(c, top[..n]);
      forall i | 0 <= i < |top| ensures Entry(c, top, at, i) {
        if i < n { assert Entry(c, top[..n], early, i); }
      }
    }
  }

  lemma {:induction false} SharePositive<T>(c: Cpu<T>, top: seq<T>, rest: seq<T>, i: nat)
    requires Level(c, top, rest) && i < |top|
    ensures Share(c, top[i]) > 0
  {
    assert top[i] in top;
  }

  lemma {:induction false} Later<T>(c: Cpu<T>, top: seq<T>, rest: seq<T>, at: seq<int>, i: nat, j: nat)
    requires Level(c, top, rest) && Timetable(c, top, at) && i < j <= |top|
    ensures 0 <= at[i] && at[i] + Share(c, top[i]) <= at[j]
    decreases i + j
  {
    assert Entry(c, top, at, j - 1);
    SharePositive(c, top, rest, i);
    SharePositive(c, top, rest, j - 1);
    if i < j - 1 {
      Later(c, top, rest, at, i, j - 1);
    } else if i > 0 {
      Later(c, top, rest, at, i - 1, i);
    }
  }

  lemma {:induction false} OneTurn<T>(cs: seq<Cpu<T>>, c: Cpu<T>, j: nat, k: nat, top: seq<T>, rest: seq<T>, i: nat)
    requires Ticked(cs) && i < |top| && NoRepeats(top) && k == j + Share(c, top[i]) && j < k < |cs|
    requires Cycled(c, cs[j], top, rest, i)
    ensures Cycled(c, cs[k], top, rest, i + 1)
  {
    CycledRuns(c, cs[j], top, rest, i);
    TurnOfTicks(cs, j, k - j);
    TurnCycles(c, cs[j], cs[k], top, rest, i);
  }

  /** The timetable is within the time considered, and every turn takes some of it. */
  ghost predicate Within(at: seq<int>, n: int) {
    (forall i :: 0 <= i < |at| ==> 0 <= at[i] < n) && (forall i, j :: 0 <= i < j < |at| ==> at[i] < at[j])
  }

  lemma {:induction false} TimesWithin<T>(c: Cpu<T>, top: seq<T>, rest: seq<T>, at: seq<int>, n: int)
    requires Level(c, top, rest) && Timetable(c, top, at) && at[|top|] < n
    ensures Within(at, n)
  {
    forall i, j | 0 <= i < j < |at| ensures 0 <= at[i] < at[j] {
      Later(c, top, rest, at, i, j);
      SharePositive(c, top, rest, i);
    }
    assert at[0] < at[|top|];
  }

  lemma {:induction false} NextEntry<T>(cs: seq<Cpu<T>>, c: Cpu<T>, top: seq<T>, rest: seq<T>, at: seq<int>, i: nat)
    requires Ticked(cs) && NoRepeats(top) && i < |top| && Timetable(c, top, at) && Within(at, |cs|)
    requires Cycled(c, cs[at[i]], top, rest, i)
    ensures Cycled(c, cs[at[i + 1]], top, rest, i + 1)
  {
    assert Entry(c, top, at, i);
    OneTurn(cs, c, at[i], at[i + 1], top, rest, i);
  }

  /** The state after the turns of the first `i` tasks. */
  lemma {:induction false} RoundPart<T>(cs: seq<Cpu<T>>, c: Cpu<T>, top: seq<T>, rest: seq<T>, at: seq<int>, i: nat)
    requires Ticked(cs) && cs != [] && c == cs[0] && Cycled(c, c, top, rest, 0) && NoRepeats(top) && i <= |top|
    requires Timetable(c, top, at) && Within(at, |cs|)
    ensures Cycled(c, cs[at[i]], top, rest, i)
    decreases i
  {
    if i > 0 {
      RoundPart(cs, c, top, rest, at, i - 1);
      NextEntry(cs, c, top, rest, at, i - 1);
    }
  }

  lemma {:induction false} RoundEnds<T>(cs: seq<Cpu<T>>, c: Cpu<T>, top: seq<T>, rest: seq<T>, at: seq<int>)
    requires Ticked(cs) && cs != [] && c == cs[0] && Level(c, top, rest) && NoRepeats(top)
    requires Timetable(c, top, at) && Within(at, |cs|)
    ensures cs[at[|top|]].ready == c.ready && cs[at[|top|]].running == c.running
  {
    CycledNone(c, top, rest);
    RoundPart(cs, c, top, rest, at, |top|);
    assert Around(top, |top|) == top;
  }

  // ------------------------------------------------------------- in runs of the whole system

  ghost predicate TickStep<T, M>(s: MutexProtocol.Sys<T, M>, s': MutexProtocol.Sys<T, M>) {
    MutexProtocol.Shape(s) && MutexProtocol.Shape(s') && View(s') == Tick(View(s))
  }

  lemma {:induction false} TickOfRun<T, M>(s: MutexProtocol.Sys<T, M>, s': MutexProtocol.Sys<T, M>)
    requires MutexRuns.Step(s, MutexProtocol.DoTick, s')
    ensures TickStep(s, s')
  {
    TickView(s);
  }

  ghost predicate Sees<T, M>(s: MutexProtocol.Sys<T, M>, c: Cpu<T>) {
    MutexProtocol.Shape(s) && c == View(s)
  }

  /** A stretch of ticks. */
  ghost predicate Stretch<T, M>(part: seq<MutexProtocol.Sys<T, M>>) {
    && part != [] && MutexProtocol.Shape(part[0])
    && (forall j :: 0 <= j < |part| - 1 ==> StepAt(part, j))
  }

  ghost predicate StepAt<T, M>(part: seq<MutexProtocol.Sys<T, M>>, j: nat)
    requires j + 1 < |part|
  {
    TickStep(part[j], part[j + 1])
  }

  lemma {:induction false} Shaped<T, M>(part: seq<MutexProtocol.Sys<T, M>>, j: nat)
    requires Stretch(part) && j < |part|
    ensures MutexProtocol.Shape(part[j])
  {
    if j > 0 { assert StepAt(part, j - 1); }
  }

  lemma {:induction false} TickSeen<T, M>(s: MutexProtocol.Sys<T, M>, s': MutexProtocol.Sys<T, M>, c: Cpu<T>, c': Cpu<T>)
    requires TickStep(s, s') && c == View(s) && c' == View(s')
    ensures Fit(c) && c' == Tick(c)
  {
  }

  /** What the processor sees of it. */
  lemma {:induction false} Views<T, M>(part: seq<MutexProtocol.Sys<T, M>>) returns (cs: seq<Cpu<T>>)
    requires Stretch(part)
    ensures |cs| == |part| && Ticked(cs) && forall j :: 0 <= j < |cs| ==> Sees(part[j], cs[j])
  {
    cs := seq(|part|, j requires 0 <= j < |part| => View(part[j]));
    forall j | 0 <= j < |part| ensures Sees(part[j], cs[j]) && Fit(cs[j]) { Shaped(part, j); }
    forall j | 0 <= j < |cs| - 1 ensures TickAt(cs, j) {
      assert StepAt(part, j);
      TickSeen(part[j], part[j + 1], cs[j], cs[j + 1]);
    }
  }

  lemma {:induction false} StretchOfRun<T, M>(states: seq<MutexProtocol.Sys<T, M>>, events: seq<MutexProtocol.Event<T, M>>)
    requires MutexRuns.Steps(states, events) && MutexProtocol.Shape(states[0]) && forall j :: 0 <= j < |events| ==> events[j] == MutexProtocol.DoTick
    ensures Stretch(states)
  {
    forall j | 0 <= j < |states| - 1 ensures StepAt(states, j) {
      assert events[j] == MutexProtocol.DoTick && MutexRuns.StepAt(states, events, j);
      TickOfRun(states[j], states[j + 1]);
    }
  }

  /** From the state numbered `j` on `t` runs for `n` ticks, and then its slice is used up. */
  ghost predicate HasTurn<T, M>(part: seq<MutexProtocol.Sys<T, M>>, t: T, j: int, n: int) {
    0 <= j && forall d :: 0 <= d < n ==> Runs(part, t, j, n, d)
  }

  ghost predicate Runs<T, M>(part: seq<MutexProtocol.Sys<T, M>>, t: T, j: nat, n: int, d: nat) {
    j + d < |part| && MutexProtocol.Shape(part[j + d]) && part[j + d].running == t && part[j + d].ticks[t] == n - d
  }

  lemma {:induction false} RunsOn<T, M>(part: seq<MutexProtocol.Sys<T, M>>, cs: seq<Cpu<T>>, t: T, j: nat, n: int)
    requires |cs| == |part| && Ticked(cs) && (forall i :: 0 <= i < |cs| ==> Sees(part[i], cs[i]))
    requires j + n < |cs| && 0 < n && cs[j].running == t && cs[j].slice[t] > 0 && cs[j].ticks[t] == n
    ensures HasTurn(part, t, j, n)
  {
    forall d | 0 <= d < n ensures Runs(part, t, j, n, d) {
      RunsMeanwhile(cs, j, d);
      assert Sees(part[j + d], cs[j + d]);
    }
  }

  /** The task numbered `i` has its turn as in the timetable. */
  ghost predicate TurnOf<T, M>(part: seq<MutexProtocol.Sys<T, M>>, c: Cpu<T>, top: seq<T>, at: seq<int>, i: nat)
    requires i < |top| && i < |at|
  {
    HasTurn(part, top[i], at[i], Share(c, top[i]))
  }

  lemma {:induction false} TurnSeen<T, M>(part: seq<MutexProtocol.Sys<T, M>>, cs: seq<Cpu<T>>, c: Cpu<T>, top: seq<T>, rest: seq<T>, at: seq<int>, i: nat)
    requires |cs| == |part| && Ticked(cs) && (forall j :: 0 <= j < |cs| ==> Sees(part[j], cs[j])) && cs != [] && c == cs[0]
    requires Level(c, top, rest) && NoRepeats(top) && i < |top| && Timetable(c, top, at) && Within(at, |cs|)
    ensures TurnOf(part, c, top, at, i)
  {
    CycledNone(c, top, rest);
    RoundPart(cs, c, top, rest, at, i);
    CycledRuns(c, cs[at[i]], top, rest, i);
    assert Entry(c, top, at, i);
    RunsOn(part, cs, top[i], at[i], Share(c, top[i]));
  }

  /** The turns in a stretch of ticks. */
  lemma {:induction false} RoundOfStretch<T, M>(part: seq<MutexProtocol.Sys<T, M>>, top: seq<T>, rest: seq<T>, at: seq<int>)
    requires Stretch(part) && Level(View(part[0]), top, rest) && NoRepeats(top)
    requires Timetable(View(part[0]), top, at) && |part| == at[|top|] + 1
    ensures forall i :: 0 <= i < |top| ==> TurnOf(part, View(part[0]), top, at, i)
    ensures part[|part| - 1].ready == part[0].ready && part[|part| - 1].running == part[0].running
  {
    var cs := Views(part);
    assert Sees(part[0], cs[0]) && Sees(part[|part| - 1], cs[|part| - 1]);
    TimesWithin(cs[0], top, rest, at, |cs|);
    forall i | 0 <= i < |top| ensures TurnOf(part, View(part[0]), top, at, i) { TurnSeen(part, cs, cs[0], top, rest, at, i); }
    RoundEnds(cs, cs[0], top, rest, at);
  }

  /** Part of a run is made of steps. */
  lemma {:induction false} PartOfRun<T, M>(states: seq<MutexProtocol.Sys<T, M>>, events: seq<MutexProtocol.Event<T, M>>, k: nat, n: nat)
    requires MutexRuns.Steps(states, events) && k + n <= |events|
    ensures MutexRuns.Steps(states[k..k + n + 1], events[k..k + n])
  {
    var part, ticks := states[k..k + n + 1], events[k..k + n];
    forall i | 0 <= i < |ticks| ensures MutexRuns.StepAt(part, ticks, i) {
      assert MutexRuns.StepAt(states, events, k + i);
      assert ticks[i] == events[k + i] && part[i] == states[k + i] && part[i + 1] == states[k + i + 1];
    }
  }

  /**
   When in some part of a run with the tasks `top` as urgent as the running one only ticks occur, each of
   them runs in turn for what was left of its slice or for a new one, and then the queue is as before.
   */
  lemma {:induction false} RoundOfRun<T, M>(part: seq<MutexProtocol.Sys<T, M>>, ticks: seq<MutexProtocol.Event<T, M>>, top: seq<T>, rest: seq<T>, at: seq<int>)
    requires MutexRuns.Steps(part, ticks) && MutexProtocol.Shape(part[0]) && forall j :: 0 <= j < |ticks| ==> ticks[j] == MutexProtocol.DoTick
    requires Level(View(part[0]), top, rest) && NoRepeats(top) && Timetable(View(part[0]), top, at) && |ticks| == at[|top|]
    ensures forall i :: 0 <= i < |top| ==> TurnOf(part, View(part[0]), top, at, i)
    ensures part[|ticks|].ready == part[0].ready && part[|ticks|].running == part[0].running
  {
    StretchOfRun(part, ticks);
    RoundOfStretch(part, top, rest, at);
  }
}
