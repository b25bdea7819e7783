/**
 The ready queue of kernel/rx_task.c as a value: a sequence of tasks ordered by
 priority (0 is the most urgent), first come first served among equals.
 */
module ReadyQueue {
  import opened Wrappers

  ghost predicate Known<T>(s: seq<T>, prio: map<T, int>) {
    forall i :: 0 <= i < |s| ==> s[i] in prio
  }

  ghost predicate Sorted<T>(s: seq<T>, prio: map<T, int>) {
    Known(s, prio) && forall i, j :: 0 <= i < j < |s| ==> prio[s[i]] <= prio[s[j]]
  }

  /** Where a task of priority `p` goes: before the first less urgent task. */
  function Place<T>(s: seq<T>, p: int, prio: map<T, int>): (k: nat)
    ensures k <= |s|
    ensures forall i :: 0 <= i < k ==> s[i] in prio && prio[s[i]] <= p
    ensures k < |s| ==> s[k] !in prio || p < prio[s[k]]
  {
    if s == [] || s[0] !in prio || p < prio[s[0]] then 0 else 1 + Place(s[1..], p, prio)
  }

  function Insert<T>(s: seq<T>, t: T, prio: map<T, int>): (r: seq<T>)
    requires t in prio
    ensures |r| == |s| + 1 && forall x :: x in r ==> x == t || x in s
  {
    var k := Place(s, prio[t], prio);
    s[..k] + [t] + s[k..]
  }

  function Remove<T(==)>(s: seq<T>, t: T): (r: seq<T>)
    ensures forall x :: x in r ==> x in s
  {
    if s == [] then [] else if s[0] == t then s[1..] else [s[0]] + Remove(s[1..], t)
  }

  // ------------------------------------------------------------- removal

  lemma {:induction false} RemoveAbsent<T>(s: seq<T>, t: T)
    requires t !in s
    ensures Remove(s, t) == s
  {
    if s != [] { RemoveAbsent(s[1..], t); }
  }

  lemma {:induction false} RemoveKeeps<T>(s: seq<T>, t: T)
    ensures forall x :: x in s && x != t ==> x in Remove(s, t)
  {
    if s != [] && s[0] != t { RemoveKeeps(s[1..], t); }
  }

  lemma {:induction false} RemoveAt<T>(s: seq<T>, k: nat)
    requires NoRepeats(s) && k < |s|
    ensures Remove(s, s[k]) == s[..k] + s[k + 1..]
  {
    if k > 0 {
      assert s[1..][k - 1] == s[k];
      RemoveAt(s[1..], k - 1);
      assert s[..k] + s[k + 1..] == [s[0]] + (s[1..][..k - 1] + s[1..][k..]);
    }
  }

  lemma {:induction false} CutFacts<T>(s: seq<T>, k: nat)
    requires NoRepeats(s) && k < |s|
    ensures var r := s[..k] + s[k + 1..];
      && NoRepeats(r) && (forall x :: x in r <==> x in s && x != s[k])
  {
    var r := s[..k] + s[k + 1..];
    assert forall i :: 0 <= i < |r| ==> r[i] == if i < k then s[i] else s[i + 1];
    forall x ensures x in r <==> x in s && x != s[k] {
      if x in s && x != s[k] {
        var i :| 0 <= i < |s| && s[i] == x;
        assert r[if i < k then i else i - 1] == x;
      }
    }
  }

  lemma {:induction false} CutSorted<T>(s: seq<T>, k: nat, prio: map<T, int>)
    requires Sorted(s, prio) && k < |s|
    ensures Sorted(s[..k] + s[k + 1..], prio)
  {
    var r := s[..k] + s[k + 1..];
    assert forall i :: 0 <= i < |r| ==> r[i] == if i < k then s[i] else s[i + 1];
  }

  /** What removal keeps: the order, the absence of repetitions, and all other members. */
  lemma {:induction false} RemoveFacts<T>(s: seq<T>, t: T)
    requires NoRepeats(s)
    ensures NoRepeats(Remove(s, t)) && forall x :: x in Remove(s, t) <==> x in s && x != t
  {
    if t in s {
      var k :| 0 <= k < |s| && s[k] == t;
      RemoveAt(s, k);
      CutFacts(s, k);
    } else {
      RemoveAbsent(s, t);
    }
  }

  lemma {:induction false} RemoveSorted<T>(s: seq<T>, t: T, prio: map<T, int>)
    requires NoRepeats(s) && Sorted(s, prio)
    ensures Sorted(Remove(s, t), prio)
  {
    if t in s {
      var k :| 0 <= k < |s| && s[k] == t;
      RemoveAt(s, k);
      CutSorted(s, k, prio);
    } else {
      RemoveAbsent(s, t);
    }
  }

  // ------------------------------------------------------------- insertion

  lemma {:induction false} PutFacts<T>(s: seq<T>, t: T, k: nat)
    requires t !in s && NoRepeats(s) && k <= |s|
    ensures var r := s[..k] + [t] + s[k..];
      NoRepeats(r) && forall x :: x in r <==> x in s || x == t
  {
    var r := s[..k] + [t] + s[k..];
    assert forall i :: 0 <= i < |r| ==> r[i] == if i < k then s[i] else if i == k then t else s[i - 1];
    forall x ensures x in r <==> x in s || x == t {
      if x in s {
        var i :| 0 <= i < |s| && s[i] == x;
        assert r[if i < k then i else i + 1] == x;
      }
      if x == t { assert r[k] == x; }
    }
  }

  lemma {:induction false} InsertFacts<T>(s: seq<T>, t: T, prio: map<T, int>)
    requires t in prio && t !in s && NoRepeats(s)
    ensures NoRepeats(Insert(s, t, prio)) && forall x :: x in Insert(s, t, prio) <==> x in s || x == t
  {
    PutFacts(s, t, Place(s, prio[t], prio));
  }

  lemma {:induction false} InsertSorted<T>(s: seq<T>, t: T, prio: map<T, int>)
    requires t in prio && Sorted(s, prio)
    ensures Sorted(Insert(s, t, prio), prio)
  {
    var k := Place(s, prio[t], prio);
    var r := Insert(s, t, prio);
    assert forall i :: 0 <= i < |r| ==> r[i] == if i < k then s[i] else if i == k then t else s[i - 1];
    assert forall i :: k <= i < |s| ==> prio[t] < prio[s[i]];
  }

  /** A member whose priority does not matter to the order leaves the order of the others. */
  lemma {:induction false} SortedFrame<T>(s: seq<T>, prio: map<T, int>, prio': map<T, int>)
    requires Sorted(s, prio) && forall x :: x in s ==> x in prio' && x in prio && prio'[x] == prio[x]
    ensures Sorted(s, prio')
  {
  }

  // ------------------------------------------------------------- the stable order

  /** More urgent, or equally urgent and queued earlier. */
  predicate Ahead<T>(x: T, y: T, prio: map<T, int>, arrival: map<T, int>) {
    && x in prio && y in prio && x in arrival && y in arrival
    && (prio[x] < prio[y] || (prio[x] == prio[y] && arrival[x] < arrival[y]))
  }

  ghost predicate Ordered<T>(s: seq<T>, prio: map<T, int>, arrival: map<T, int>) {
    forall i, j :: 0 <= i < j < |s| ==> Ahead(s[i], s[j], prio, arrival)
  }

  /** A task queued now goes behind its equals, so the queue stays in the order of arrival. */
  lemma {:induction false} InsertOrdered<T>(s: seq<T>, t: T, prio: map<T, int>, arrival: map<T, int>)
    requires t in prio && t in arrival && Known(s, prio) && Ordered(s, prio, arrival)
    requires forall x :: x in s ==> x in arrival && arrival[x] < arrival[t]
    ensures Ordered(Insert(s, t, prio), prio, arrival)
  {
    var k := Place(s, prio[t], prio);
    var r := Insert(s, t, prio);
    assert forall i :: 0 <= i < |r| ==> r[i] == if i < k then s[i] else if i == k then t else s[i - 1];
    forall i | k <= i < |s| ensures prio[t] < prio[s[i]] {
      if i > k { assert Ahead(s[k], s[i], prio, arrival); }
    }
  }

  lemma {:induction false} CutOrdered<T>(s: seq<T>, k: nat, prio: map<T, int>, arrival: map<T, int>)
    requires Ordered(s, prio, arrival) && k < |s|
    ensures Ordered(s[..k] + s[k + 1..], prio, arrival)
  {
    var r := s[..k] + s[k + 1..];
    assert forall i :: 0 <= i < |r| ==> r[i] == if i < k then s[i] else s[i + 1];
  }

  lemma {:induction false} RemoveOrdered<T>(s: seq<T>, t: T, prio: map<T, int>, arrival: map<T, int>)
    requires NoRepeats(s) && Ordered(s, prio, arrival)
    ensures Ordered(Remove(s, t), prio, arrival)
  {
    if t in s {
      var k :| 0 <= k < |s| && s[k] == t;
      RemoveAt(s, k);
      CutOrdered(s, k, prio, arrival);
    } else {
      RemoveAbsent(s, t);
    }
  }

  /** There is only one such order of a given set of tasks. */
  lemma {:induction false} OrderedUnique<T>(s: seq<T>, s': seq<T>, prio: map<T, int>, arrival: map<T, int>)
    requires Ordered(s, prio, arrival) && Ordered(s', prio, arrival)
    requires forall x :: x in s <==> x in s'
    ensures s == s'
  {
    assert s' != [] ==> s'[0] in s;
    if s != [] {
      assert s[0] in s';
      var i :| 0 <= i < |s'| && s'[i] == s[0];
      assert s'[0] in s;
      var j :| 0 <= j < |s| && s[j] == s'[0];
      assert i == 0;
      forall x ensures x in s[1..] <==> x in s'[1..] {
        if x in s[1..] { TailMember(s, s', x, prio, arrival); }
        if x in s'[1..] { TailMember(s', s, x, prio, arrival); }
      }
      OrderedUnique(s[1..], s'[1..], prio, arrival);
    }
  }

  lemma {:induction false} TailMember<T>(s: seq<T>, s': seq<T>, x: T, prio: map<T, int>, arrival: map<T, int>)
    requires s != [] && s' != [] && s[0] == s'[0] && Ordered(s, prio, arrival) && x in s[1..]
    requires forall y :: y in s ==> y in s'
    ensures x in s'[1..]
  {
    var i :| 0 <= i < |s[1..]| && s[1..][i] == x;
    assert s[i + 1] == x && Ahead(s[0], s[i + 1], prio, arrival);
    assert x in s';
    var j :| 0 <= j < |s'| && s'[j] == x;
    assert s'[1..][j - 1] == x;
  }
}
