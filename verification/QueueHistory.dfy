/** The ready queue after any history of queueing and dequeueing (kernel/rx_task.c). */
module QueueHistory {
  import opened Wrappers
  import opened ReadyQueue

  /** A task is queued at a priority, anew if it is there already, or taken out. */
  datatype Op<T> = Put(task: T, prio: int) | Drop(task: T)

  datatype Book<T> = Book(ready: seq<T>, prio: map<T, int>, arrival: map<T, int>)

  function Play<T(==)>(ops: seq<Op<T>>): (b: Book<T>) {
    if ops == [] then Book([], map[], map[])
    else
      var n := |ops| - 1;
      var b := Play(ops[..n]);
      match ops[n]
      case Put(t, p) =>
        var prio := b.prio[t := p];
        Book(Insert(Remove(b.ready, t), t, prio), prio, b.arrival[t := n])
      case Drop(t) => b.(ready := Remove(b.ready, t))
  }

  /** When `x` was last queued, or -1 if it has not been or was taken out since. */
  function Latest<T(==)>(ops: seq<Op<T>>, x: T): (r: int)
    ensures -1 <= r < |ops|
    ensures r >= 0 ==> ops[r].Put? && ops[r].task == x
  {
    if ops == [] then -1
    else
      var n := |ops| - 1;
      if ops[n].task != x then Latest(ops[..n], x)
      else if ops[n].Put? then n else -1
  }

  ghost predicate Faithful<T>(ops: seq<Op<T>>, b: Book<T>, x: T) {
    && (x in b.ready <==> Latest(ops, x) >= 0)
    && (x in b.ready ==> x in b.prio && x in b.arrival && b.arrival[x] == Latest(ops, x) && b.prio[x] == ops[Latest(ops, x)].prio)
  }

  ghost predicate InOrder<T>(b: Book<T>, n: int) {
    && NoRepeats(b.ready) && Known(b.ready, b.prio) && Ordered(b.ready, b.prio, b.arrival)
    && (forall x :: x in b.ready ==> x in b.arrival && b.arrival[x] < n)
  }

  lemma {:induction false} OrderedFrame<T>(s: seq<T>, b: Book<T>, t: T, p: int, n: int)
    requires Ordered(s, b.prio, b.arrival) && t !in s
    ensures Ordered(s, b.prio[t := p], b.arrival[t := n])
  {
    forall i, j | 0 <= i < j < |s| ensures Ahead(s[i], s[j], b.prio[t := p], b.arrival[t := n]) {
      assert Ahead(s[i], s[j], b.prio, b.arrival) && s[i] in s && s[j] in s;
    }
  }

  lemma {:induction false} PutInOrder<T>(b: Book<T>, t: T, p: int, n: int)
    requires InOrder(b, n)
    ensures var prio := b.prio[t := p]; InOrder(Book(Insert(Remove(b.ready, t), t, prio), prio, b.arrival[t := n]), n + 1)
  {
    var rest, prio, arrival := Remove(b.ready, t), b.prio[t := p], b.arrival[t := n];
    RemoveFacts(b.ready, t);
    RemoveOrdered(b.ready, t, b.prio, b.arrival);
    OrderedFrame(rest, b, t, p, n);
    assert forall i :: 0 <= i < |rest| ==> rest[i] in rest;
    InsertFacts(rest, t, prio);
    InsertOrdered(rest, t, prio, arrival);
  }

  /** After any history the queue is in the order of urgency and, among equals, of arrival. */
  lemma {:induction false} PlayInOrder<T>(ops: seq<Op<T>>)
    ensures InOrder(Play(ops), |ops|)
  {
    if ops != [] {
      var n := |ops| - 1;
      var b := Play(ops[..n]);
      PlayInOrder(ops[..n]);
      match ops[n]
      case Put(t, p) => PutInOrder(b, t, p, n);
      case Drop(t) =>
        RemoveFacts(b.ready, t);
        RemoveOrdered(b.ready, t, b.prio, b.arrival);
        assert forall i :: 0 <= i < |Remove(b.ready, t)| ==> Remove(b.ready, t)[i] in b.ready;
    }
  }

  /** It holds exactly the tasks queued and not taken out since, each at its latest priority. */
  lemma {:induction false} PlayFaithful<T>(ops: seq<Op<T>>, x: T)
    ensures Faithful(ops, Play(ops), x)
  {
    if ops != [] {
      var n := |ops| - 1;
      var b, t := Play(ops[..n]), ops[n].task;
      PlayFaithful(ops[..n], x);
      PlayInOrder(ops[..n]);
      RemoveFacts(b.ready, t);
      if ops[n].Put? { InsertFacts(Remove(b.ready, t), t, b.prio[t := ops[n].prio]); }
    }
  }

  /** So the queue is determined by which tasks are in it, when they came and how urgent they are. */
  lemma {:induction false} QueueDetermined<T>(ops: seq<Op<T>>, s: seq<T>)
    requires Ordered(s, Play(ops).prio, Play(ops).arrival)
    requires forall x :: x in s <==> Latest(ops, x) >= 0
    ensures s == Play(ops).ready
  {
    var b := Play(ops);
    PlayInOrder(ops);
    forall x ensures x in s <==> x in b.ready { PlayFaithful(ops, x); }
    OrderedUnique(s, b.ready, b.prio, b.arrival);
  }
}
