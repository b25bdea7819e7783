/**
 The doubly linked list of active timers (kernel/rx_timer.c).  The fields of the timer
 structures are kept as tables over the timers.
 */
module Timers {
  import opened Wrappers
  import opened Words
  import opened ReadyQueue
  import opened Chains
  import opened TimerQueue
  import opened TimerEnding

  class ActiveTimers<N(==)> {
    var expiry: map<N, int>
    var next: map<N, Option<N>>
    var prev: map<N, Option<N>>
    var enabled: set<N>
    var head: Option<N>
    ghost var active: seq<N>

    constructor ()
      ensures Valid() && active == [] && enabled == {}
    {
      expiry, next, prev, enabled, head, active := map[], map[], map[], {}, None, [];
    }

    /** Following `next` and following `prev` are inverse to each other. */
    ghost predicate Links()
      reads this`next, this`prev, this`head, this`active
    {
      Linked(next, head, active) && BackLinked(prev, active)
    }

    ghost function View(): Wheel<N>
      reads this`active, this`expiry, this`enabled
    {
      Wheel(active, expiry, enabled)
    }

    /**
     A timer without a handler keeps its flag when it goes off; as it was first in the list
     then, nothing was linked before it.
     */
    ghost predicate Gone()
      reads this`enabled, this`active, this`prev
    {
      forall p :: p in enabled && p !in active ==> p in prev && prev[p] == None
    }

    ghost predicate Valid()
      reads this
    {
      Links() && Fit(View()) && Gone()
    }

    /** Links `p` in between two neighbours. */
    method LinkAt(p: N, before: Option<N>, after: Option<N>, ghost k: nat)
      requires Links() && p !in active && k <= |active| && before == Behind(active, k) && after == At(active, k)
      modifies this`next, this`prev, this`head, this`active
      ensures Links() && active == old(active[..k] + [p] + active[k..])
      ensures forall x :: x in old(prev) && x !in old(active) && x != p ==> x in prev && prev[x] == old(prev)[x]
    {
      LinkedPut(next, head, active, p, k);
      BackPut(prev, active, p, k);
      next := next[p := after];
      if before == None { head := Some(p); } else { next := next[before.value := Some(p)]; }
      prev := prev[p := before];
      if after != None {
        assert active[k] in active;
        prev := prev[after.value := Some(p)];
      }
      active := active[..k] + [p] + active[k..];
    }

    /** Walks to the first timer that does not expire before `e`, or else to the last. */
    method Walk(e: int) returns (start: N, ghost k: nat)
      requires Links() && Fit(View()) && head != None
      ensures k < |active| && start == active[k] && start in expiry && start in prev && prev[start] == Behind(active, k)
      ensures (forall i :: 0 <= i < k ==> active[i] in expiry && expiry[active[i]] < e) && (expiry[start] >= e || k + 1 == |active|)
    {
      start, k := head.value, 0;
      assert active[0] in active && next[active[0]] == At(active, 1);
      while expiry[start] < e && next[start] != None
        invariant 0 <= k < |active| && start == active[k] && start in expiry && start in next && next[start] == At(active, k + 1)
        invariant forall i :: 0 <= i < k ==> expiry[active[i]] < e
        decreases |active| - k
      {
        assert active[k + 1] in active && next[active[k + 1]] == At(active, k + 2);
        start, k := next[start].value, k + 1;
      }
      assert active[k] in active && prev[active[k]] == Behind(active, k);
    }

    /** Finds the place of a timer that expires at `e` and links it in there. */
    method Insert(p: N, e: int)
      requires Links() && Fit(View()) && p !in active
      modifies this`next, this`prev, this`head, this`active
      ensures Links() && active == Armed(old(View()), p, e).active
      ensures forall x :: x in old(prev) && x !in old(active) && x != p ==> x in prev && prev[x] == old(prev)[x]
    {
      if head == None {
        LinkAt(p, None, None, 0);
      } else {
        var start, k := Walk(e);
        if expiry[start] >= e {
          EarlierIs(active, e, expiry, k);
          LinkAt(p, prev[start], Some(start), k);
        } else {
          EarlierIs(active, e, expiry, k + 1);
          LinkAt(p, Some(start), None, k + 1);
        }
      }
    }

    /** __rx_add_to_active_timer_list. */
    method Add(p: N, delay: int, jiffies: int)
      requires Valid() && p !in active
      modifies this
      ensures Valid() && View() == Armed(old(View()), p, (delay + jiffies) % W32)
    {
      var e := (delay + jiffies) % W32;
      ArmedFit(View(), p, e);
      Insert(p, e);
      expiry, enabled := expiry[p := e], enabled + {p};
    }

    /** The first timer leaves the list. */
    method CutFirst(p: N)
      requires Links() && active != [] && head == Some(p)
      modifies this`next, this`prev, this`head, this`active
      ensures Links() && active == old(active)[1..]
      ensures forall x :: x in old(prev) && x !in active ==> x in prev && prev[x] == old(prev)[x]
    {
      ghost var q := active;
      assert next[q[0]] == At(q, 1);
      BackCut(prev, q, 0);
      head := next[p];
      if next[p] != None { prev := prev[next[p].value := None]; }
      active := q[..0] + q[1..];
      LinkedCut(old(next), next, old(head), q, 0);
      assert 1 < |q| ==> active[0] == q[1];
    }

    /** Another timer leaves it, unless it is the last. */
    method CutInner(p: N, ghost k: nat) returns (fault: bool)
      requires Links() && 0 < k < |active| && active[k] == p && p in prev && p in next && prev[p] == Some(active[k - 1])
      modifies this`next, this`prev, this`active
      ensures fault <==> k + 1 == |old(active)|
      ensures !fault ==> Links() && active == old(active[..k] + active[k + 1..])
      ensures !fault ==> forall x :: x in old(prev) && x !in active ==> x in prev && prev[x] == old(prev)[x]
    {
      ghost var q := active;
      assert next[q[k]] == At(q, k + 1);
      BackCut(prev, q, k);
      fault := false;
      next := next[prev[p].value := next[p]];
      if next[p] == None { return true; }
      prev := prev[next[p].value := prev[p]];
      active := q[..k] + q[k + 1..];
      LinkedCut(old(next), next, head, q, k);
      assert active[k] == q[k + 1];
    }

    /**
     __rx_remove_from_timer_list.  `fault` stands for the access through a null link that the
     code makes for a timer that is last but not first in the list, or no longer in it.
     */
    method Remove(p: N) returns (fault: bool)
      requires Links() && (active == [] || p in active || (p in prev && prev[p] == None))
      modifies this`next, this`prev, this`head, this`active
      ensures fault <==> Breaks(old(active), p)
      ensures !fault ==> Links() && active == ReadyQueue.Remove(old(active), p)
      ensures !fault ==> forall x :: x in old(prev) && x !in active ==> x in prev && prev[x] == old(prev)[x]
    {
      fault := false;
      if head == None { return; }
      ghost var q, k := active, 0;
      if p in active {
        k :| 0 <= k < |q| && q[k] == p;
        assert next[q[k]] == At(q, k + 1) && prev[q[k]] == Behind(q, k);
        RemoveAt(q, k);
      }
      if head == Some(p) {
        CutFirst(p);
      } else {
        if prev[p] == None { return true; }
        fault := CutInner(p, k);
      }
    }

    /** rx_start_timer. */
    method StartTimer(p: N, c: Setup<N>)
      requires Valid() && p in c.delay
      modifies this
      ensures Valid() && View() == Start(old(View()), p, c)
    {
      if p !in enabled { Add(p, c.delay[p], c.now); }
    }

    /** rx_stop_timer, with the fault of Remove. */
    method StopTimer(p: N) returns (fault: bool)
      requires Valid()
      modifies this
      ensures fault <==> p in old(enabled) && Breaks(old(active), p)
      ensures !fault ==> Valid() && expiry == old(expiry) && active == ReadyQueue.Remove(old(active), p) && enabled == old(enabled) - {p}
    {
      fault := false;
      RemoveFacts(active, p);
      RemoveSorted(active, p, expiry);
      if p in enabled {
        fault := Remove(p);
        if !fault { enabled := enabled - {p}; }
      } else {
        RemoveAbsent(active, p);
      }
    }

    /** The handler of a timer starts the timers `ps`. */
    method RunHandler(ps: seq<N>, c: Setup<N>)
      requires Valid() && forall p :: p in ps ==> p in c.delay
      modifies this
      ensures Valid() && View() == StartAll(old(View()), ps, c)
    {
      var i := 0;
      while i < |ps|
        invariant 0 <= i <= |ps| && Valid() && StartAll(View(), ps[i..], c) == StartAll(old(View()), ps, c)
      {
        assert ps[i..][1..] == ps[i + 1..] && ps[i] in ps;
        StartTimer(ps[i], c);
        i := i + 1;
      }
    }

    /** The first timer leaves the list, and its flag is cleared if it has a handler. */
    method PopHead(c: Setup<N>) returns (x: N)
      requires Valid() && head != None
      modifies this
      ensures Valid() && old(active) != [] && x == old(active)[0] && View() == Popped(old(View()), c)
    {
      x := head.value;
      HeadOut(active, expiry);
      assert prev[active[0]] == Behind(active, 0);
      var _ := Remove(x);
      if x in c.script { enabled := enabled - {x}; }
    }

    /** The first timer goes off. */
    method FireHead(c: Setup<N>) returns (x: N)
      requires Valid() && head != None && forall y, p :: y in c.script && p in c.script[y] ==> p in c.delay
      modifies this
      ensures Valid() && old(active) != [] && x == old(active)[0] && View() == Fire(old(View()), c)
    {
      FireIs(View(), c);
      x := PopHead(c);
      if x in c.script { RunHandler(c.script[x], c); }
    }

    /**
     The expiry pass of the timer thread.  It ends if and only if chains of immediate restarts are
     bounded, which is what it asks for.
     */
    method ExpiryPass(c: Setup<N>) returns (fired: seq<N>)
      requires Valid() && Bounded(View(), c) && forall y, p :: y in c.script && p in c.script[y] ==> p in c.delay
      modifies this
      ensures Valid() && View() == Pass(old(View()), |fired|, c) && Now(View(), c) == []
      ensures forall i :: 0 <= i < |fired| ==> Goes(old(View()), i, c, fired[i])
      ensures 0 <= c.now && Future(c) ==> fired == Now(old(View()), c)
    {
      ghost var w, k := View(), |c.script| + 1;
      fired := [];
      while head != None && expiry[head.value] <= c.now
        invariant Valid() && Going(w, fired, View(), c, k)
        decreases Left(w, View(), c, k)
      {
        GoOn(w, fired, View(), c, k);
        var x := FireHead(c);
        fired := fired + [x];
      }
      NoMore(View(), c);
      if 0 <= c.now && Future(c) { FiredDue(w, fired, c); }
    }
  }

  lemma {:induction false} HeadOut<N>(s: seq<N>, expiry: map<N, int>)
    requires NoRepeats(s) && Sorted(s, expiry) && s != []
    ensures NoRepeats(s[1..]) && Sorted(s[1..], expiry) && s[0] in s && ReadyQueue.Remove(s, s[0]) == s[1..] && !Breaks(s, s[0])
    ensures forall x :: x in s[1..] ==> x in s && x != s[0]
  {
    TailFit(s, expiry);
  }

  /** Removing `p` from the list goes through a null link: it is last but not first, or not there. */
  predicate Breaks<N(==)>(active: seq<N>, p: N) {
    active != [] && (p !in active || (|active| > 1 && p == active[|active| - 1]))
  }
}
