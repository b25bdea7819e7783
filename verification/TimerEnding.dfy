/**
 When the expiry pass of kernel/rx_timer.c ends: handlers may start timers that are due at
 once, and the pass goes on with them.
 */
module TimerEnding {
  import opened Wrappers
  import opened Words
  import opened ReadyQueue
  import opened TimerQueue

  // ------------------------------------------------------------- immediate restarts

  /** Starting `y` now makes it due now. */
  predicate Instant<N>(c: Setup<N>, y: N) {
    y in c.delay && (c.delay[y] + c.now) % W32 <= c.now
  }

  /** `y` can be started in the course of the pass: it is not enabled, or goes off first. */
  predicate Open<N(==)>(w: Wheel<N>, c: Setup<N>, y: N) {
    y !in w.enabled || y in Now(w, c)
  }

  /** In the pass over `w`, the handler of `x` can make `y` due. */
  predicate Edge<N(==)>(w: Wheel<N>, c: Setup<N>, x: N, y: N) {
    x in c.script && y in c.script[x] && Instant(c, y) && Open(w, c, y)
  }

  /** A chain of immediate restarts that begins with a due timer and comes back to one of its timers. */
  ghost predicate Loop<N>(w: Wheel<N>, c: Setup<N>, p: seq<N>) {
    p != [] && p[0] in Now(w, c) && Chain(w, c, p) && !NoRepeats(p)
  }

  ghost predicate Chain<N>(w: Wheel<N>, c: Setup<N>, p: seq<N>) {
    forall i :: 0 < i < |p| ==> Edge(w, c, p[i - 1], p[i])
  }

  /** There is a chain of `k` immediate restarts from `x` on. */
  predicate Lasts<N(==)>(w: Wheel<N>, c: Setup<N>, x: N, k: nat)
    decreases k
  {
    k == 0 || (x in c.script && exists y :: y in c.script[x] && Edge(w, c, x, y) && Lasts(w, c, y, k - 1))
  }

  /** No due timer begins a chain of more restarts than there are handlers. */
  predicate Bounded<N(==)>(w: Wheel<N>, c: Setup<N>) {
    forall x :: x in Now(w, c) ==> !Lasts(w, c, x, |c.script| + 1)
  }

  // ------------------------------------------------------------- what is due and what may become so

  lemma {:induction false} NowIs<N>(w: Wheel<N>, c: Setup<N>, y: N)
    requires Fit(w)
    ensures y in Now(w, c) <==> y in w.active && y in w.expiry && w.expiry[y] <= c.now
  {
    DueExactly(w.active, w.expiry, c.now);
    if y in w.active {
      var i :| 0 <= i < |w.active| && w.active[i] == y;
      assert w.active[i] in w.expiry;
    }
  }

  /** What holds of every state `w` of the pass over `w0`. */
  ghost predicate Reached<N>(w0: Wheel<N>, w: Wheel<N>, c: Setup<N>) {
    && Fit(w)
    && (forall y :: y in Now(w, c) ==> Open(w0, c, y))
    && (forall y :: y in w0.enabled && !Open(w0, c, y) ==> y in w.enabled)
    && (forall y :: y in w.enabled && y in c.script && Instant(c, y) && Open(w0, c, y) ==> y in Now(w, c))
  }

  lemma {:induction false} ArmedNow<N>(w: Wheel<N>, p: N, e: int, c: Setup<N>, y: N)
    requires Fit(w) && p !in w.active
    ensures Fit(Armed(w, p, e))
    ensures y in Now(Armed(w, p, e), c) <==> y in Now(w, c) || (y == p && e <= c.now)
  {
    ArmedFit(w, p, e);
    NowIs(w, c, y);
    NowIs(Armed(w, p, e), c, y);
  }

  lemma {:induction false} StartNow<N>(w: Wheel<N>, p: N, c: Setup<N>, y: N)
    requires Fit(w)
    ensures Fit(Start(w, p, c))
    ensures y in Now(Start(w, p, c), c) <==> y in Now(w, c) || (y == p && p !in w.enabled && Instant(c, p))
  {
    if p !in w.enabled && p in c.delay {
      var e := (c.delay[p] + c.now) % W32;
      assert Start(w, p, c) == Armed(w, p, e) && (Instant(c, p) <==> e <= c.now);
      ArmedNow(w, p, e, c, y);
    }
  }

  lemma {:induction false} StartReached<N>(w0: Wheel<N>, w: Wheel<N>, p: N, c: Setup<N>)
    requires Reached(w0, w, c)
    ensures Reached(w0, Start(w, p, c), c)
    ensures forall y :: y in Now(w, c) ==> y in Now(Start(w, p, c), c)
  {
    var w' := Start(w, p, c);
    forall y ensures y in Now(w', c) <==> y in Now(w, c) || (y == p && p !in w.enabled && Instant(c, p)) {
      StartNow(w, p, c, y);
    }
    StartNow(w, p, c, p);
  }

  lemma {:induction false} StartAllReached<N>(w0: Wheel<N>, w: Wheel<N>, ps: seq<N>, c: Setup<N>)
    requires Reached(w0, w, c)
    ensures Reached(w0, StartAll(w, ps, c), c)
    ensures forall y :: y in Now(w, c) ==> y in Now(StartAll(w, ps, c), c)
    ensures forall y :: y in Now(StartAll(w, ps, c), c) ==> y in Now(w, c) || (y in ps && Instant(c, y))
    ensures forall y :: y in ps && y in c.script && Instant(c, y) && Open(w0, c, y) ==> y in Now(StartAll(w, ps, c), c)
    decreases |ps|
  {
    if ps != [] {
      var p, w' := ps[0], Start(w, ps[0], c);
      StartReached(w0, w, p, c);
      StartAllReached(w0, w', ps[1..], c);
      forall y | y in Now(w', c) ensures y in Now(w, c) || (y == p && Instant(c, p)) { StartNow(w, p, c, y); }
      StartNow(w, p, c, p);
      assert forall y :: y in ps <==> y == p || y in ps[1..];
    }
  }

  /** The state before the handler of the first timer runs. */
  function Popped<N(==)>(w: Wheel<N>, c: Setup<N>): Wheel<N>
    requires w.active != []
  {
    var x := w.active[0];
    w.(active := w.active[1..], enabled := if x in c.script then w.enabled - {x} else w.enabled)
  }

  lemma {:induction false} PoppedReached<N>(w0: Wheel<N>, w: Wheel<N>, c: Setup<N>)
    requires Reached(w0, w, c) && Now(w, c) != []
    ensures w.active != [] && Now(w, c)[0] == w.active[0] && Now(Popped(w, c), c) == Now(w, c)[1..]
    ensures Reached(w0, Popped(w, c), c)
  {
    DropHead(w, c.now);
    var x, d := w.active[0], Now(w, c);
    assert d == [x] + d[1..] && x in d;
  }

  function Restarts<N>(x: N, c: Setup<N>): seq<N> {
    if x in c.script then c.script[x] else []
  }

  lemma {:induction false} FireIs<N>(w: Wheel<N>, c: Setup<N>)
    requires w.active != []
    ensures Fire(w, c) == StartAll(Popped(w, c), Restarts(w.active[0], c), c)
  {
  }

  /** Firing the first due timer: the others stay due, and its immediate restarts become due. */
  lemma {:induction false} FireReached<N>(w0: Wheel<N>, w: Wheel<N>, c: Setup<N>)
    requires Reached(w0, w, c) && Now(w, c) != []
    ensures w.active != [] && w.active[0] in Now(w, c) && Reached(w0, Fire(w, c), c)
    ensures forall y :: y in Now(w, c) && y != w.active[0] ==> y in Now(Fire(w, c), c)
    ensures forall y :: y in Now(Fire(w, c), c) ==> y in Now(w, c) || Edge(w0, c, w.active[0], y)
    ensures forall y :: y in c.script && Edge(w0, c, w.active[0], y) ==> y in Now(Fire(w, c), c)
  {
    PoppedReached(w0, w, c);
    FireIs(w, c);
    var x, d := w.active[0], Now(w, c);
    assert d == [x] + d[1..];
    StartAllReached(w0, Popped(w, c), Restarts(x, c), c);
  }

  lemma {:induction false} PassReached<N>(w: Wheel<N>, n: nat, c: Setup<N>)
    requires Fit(w)
    ensures Reached(w, Pass(w, n, c), c)
  {
    if n > 0 {
      PassReached(w, n - 1, c);
      if Now(Pass(w, n - 1, c), c) != [] { FireReached(w, Pass(w, n - 1, c), c); }
    }
  }

  // ------------------------------------------------------------- chains that go on

  lemma {:induction false} StillDue<N>(w: Wheel<N>, i: nat, y: N, c: Setup<N>)
    requires Fit(w) && y in Now(Pass(w, i, c), c)
    ensures Pass(w, i, c).active != [] && (Pass(w, i, c).active[0] != y ==> y in Now(Pass(w, i + 1, c), c))
  {
    PassReached(w, i, c);
    FireReached(w, Pass(w, i, c), c);
  }

  /** A due timer goes off before the pass ends. */
  lemma {:induction false} GoesOff<N>(w: Wheel<N>, i: nat, y: N, n: nat, c: Setup<N>) returns (j: nat)
    requires Fit(w) && i <= n && y in Now(Pass(w, i, c), c) && Now(Pass(w, n, c), c) == []
    ensures i <= j < n && Now(Pass(w, j, c), c) != [] && Pass(w, j, c).active != [] && Pass(w, j, c).active[0] == y
    decreases n - i
  {
    StillDue(w, i, y, c);
    if Pass(w, i, c).active[0] == y {
      j := i;
    } else {
      j := GoesOff(w, i + 1, y, n, c);
    }
  }

  lemma {:induction false} Follows<N>(w: Wheel<N>, j: nat, x: N, y: N, c: Setup<N>)
    requires Fit(w) && Now(Pass(w, j, c), c) != [] && Pass(w, j, c).active != [] && Pass(w, j, c).active[0] == x
    requires Edge(w, c, x, y) && y in c.script
    ensures y in Now(Pass(w, j + 1, c), c)
  {
    PassReached(w, j, c);
    FireReached(w, Pass(w, j, c), c);
  }

  /** So a pass cannot end before a chain of restarts from a due timer has gone through. */
  lemma {:induction false} NotBefore<N>(w: Wheel<N>, i: nat, x: N, k: nat, n: nat, c: Setup<N>)
    requires Fit(w) && i <= n && Now(Pass(w, n, c), c) == []
    requires x in Now(Pass(w, i, c), c) && Lasts(w, c, x, k)
    ensures n >= i + k
    decreases k
  {
    var j := GoesOff(w, i, x, n, c);
    if k > 1 {
      var y :| y in c.script[x] && Edge(w, c, x, y) && Lasts(w, c, y, k - 1);
      Follows(w, j, x, y, c);
      NotBefore(w, j + 1, y, k - 1, n, c);
    }
  }

  // ------------------------------------------------------------- chains that come to an end

  /** Bounds how many timers go off on account of `x`, following at most `k` restarts in a row. */
  ghost function Weight<N>(w: Wheel<N>, c: Setup<N>, x: N, k: nat): nat
    decreases k, 0
  {
    if k == 0 then 0 else 1 + Sum(w, c, Restarts(x, c), k - 1)
  }

  ghost function Sum<N>(w: Wheel<N>, c: Setup<N>, ps: seq<N>, k: nat): nat
    decreases k, |ps|
  {
    if ps == [] then 0
    else (if Instant(c, ps[0]) && Open(w, c, ps[0]) then Weight(w, c, ps[0], k) else 0) + Sum(w, c, ps[1..], k)
  }

  ghost function Total<N>(w: Wheel<N>, c: Setup<N>, s: seq<N>, k: nat): nat {
    if s == [] then 0 else Weight(w, c, s[0], k) + Total(w, c, s[1..], k)
  }

  lemma {:induction false} LastsLess<N>(w: Wheel<N>, c: Setup<N>, x: N, k: nat)
    requires Lasts(w, c, x, k + 1)
    ensures Lasts(w, c, x, k)
    decreases k
  {
    if k > 0 {
      var y :| y in c.script[x] && Edge(w, c, x, y) && Lasts(w, c, y, k);
      LastsLess(w, c, y, k - 1);
    }
  }

  /** Where chains are shorter than `k`, following more of them makes no difference. */
  lemma {:induction false} WeightStable<N>(w: Wheel<N>, c: Setup<N>, x: N, k: nat)
    requires !Lasts(w, c, x, k)
    ensures Weight(w, c, x, k + 1) == Weight(w, c, x, k)
    decreases k, 0
  {
    assert forall y :: y in Restarts(x, c) && Edge(w, c, x, y) ==> !Lasts(w, c, y, k - 1);
    SumStable(w, c, Restarts(x, c), k - 1);
  }

  lemma {:induction false} SumStable<N>(w: Wheel<N>, c: Setup<N>, ps: seq<N>, k: nat)
    requires forall y :: y in ps && Instant(c, y) && Open(w, c, y) ==> !Lasts(w, c, y, k)
    ensures Sum(w, c, ps, k + 1) == Sum(w, c, ps, k)
    decreases k, |ps|
  {
    if ps != [] {
      assert ps[0] in ps && forall y :: y in ps[1..] ==> y in ps;
      SumStable(w, c, ps[1..], k);
      if Instant(c, ps[0]) && Open(w, c, ps[0]) { WeightStable(w, c, ps[0], k); }
    }
  }

  lemma {:induction false} TotalInsert<N>(w: Wheel<N>, c: Setup<N>, s: seq<N>, p: N, i: nat, k: nat)
    requires i <= |s|
    ensures Total(w, c, s[..i] + [p] + s[i..], k) == Total(w, c, s, k) + Weight(w, c, p, k)
    decreases i
  {
    var r := s[..i] + [p] + s[i..];
    if i == 0 {
      assert r[1..] == s;
    } else {
      assert r[1..] == s[1..][..i - 1] + [p] + s[1..][i - 1..];
      TotalInsert(w, c, s[1..], p, i - 1, k);
    }
  }

  lemma {:induction false} EarlierMono<N>(s: seq<N>, e: int, e': int, expiry: map<N, int>)
    requires e <= e'
    ensures Earlier(s, e, expiry) <= Earlier(s, e', expiry)
  {
    if s != [] && s[0] in expiry && expiry[s[0]] < e { EarlierMono(s[1..], e, e', expiry); }
  }

  lemma {:induction false} EarlierFrame<N>(s: seq<N>, e: int, expiry: map<N, int>, p: N, v: int)
    requires p !in s
    ensures Earlier(s, e, expiry[p := v]) == Earlier(s, e, expiry)
  {
    if s != [] { EarlierFrame(s[1..], e, expiry, p, v); }
  }

  /** A timer put among those that expire before `e'` is one more of them. */
  lemma {:induction false} EarlierPut<N>(s: seq<N>, p: N, i: nat, e: int, e': int, expiry: map<N, int>)
    requires p !in s && e < e' && i <= |s| && forall j :: 0 <= j < i ==> s[j] in expiry && expiry[s[j]] < e'
    ensures Earlier(s[..i] + [p] + s[i..], e', expiry[p := e]) == Earlier(s, e', expiry) + 1
    decreases i
  {
    var r := s[..i] + [p] + s[i..];
    if i == 0 {
      assert r[0] == p && r[1..] == s;
      EarlierFrame(s, e', expiry, p, e);
    } else {
      assert r[0] == s[0] && r[1..] == s[1..][..i - 1] + [p] + s[1..][i - 1..];
      assert forall j :: 0 <= j < i - 1 ==> s[1..][j] == s[j + 1];
      EarlierPut(s[1..], p, i - 1, e, e', expiry);
    }
  }

  lemma {:induction false} PutInFront<N>(s: seq<N>, p: N, i: nat, d: nat)
    requires i <= d <= |s|
    ensures (s[..i] + [p] + s[i..])[..d + 1] == s[..d][..i] + [p] + s[..d][i..]
  {
  }

  lemma {:induction false} ArmedNowIs<N>(w: Wheel<N>, p: N, e: int, c: Setup<N>) returns (i: nat)
    requires Fit(w) && p !in w.active && e <= c.now
    ensures i <= |Now(w, c)| && Now(Armed(w, p, e), c) == Now(w, c)[..i] + [p] + Now(w, c)[i..]
  {
    i := Earlier(w.active, e, w.expiry);
    var d := Earlier(w.active, c.now + 1, w.expiry);
    EarlierMono(w.active, e, c.now + 1, w.expiry);
    EarlierPut(w.active, p, i, e, c.now + 1, w.expiry);
    PutInFront(w.active, p, i, d);
  }

  lemma {:induction false} ArmedTotal<N>(w0: Wheel<N>, w: Wheel<N>, p: N, e: int, c: Setup<N>, k: nat)
    requires Fit(w) && p !in w.active && e <= c.now
    ensures Total(w0, c, Now(Armed(w, p, e), c), k) == Total(w0, c, Now(w, c), k) + Weight(w0, c, p, k)
  {
    var i := ArmedNowIs(w, p, e, c);
    TotalInsert(w0, c, Now(w, c), p, i, k);
  }

  lemma {:induction false} StartTotal<N>(w0: Wheel<N>, w: Wheel<N>, p: N, c: Setup<N>, k: nat)
    requires Reached(w0, w, c)
    ensures Total(w0, c, Now(Start(w, p, c), c), k) <=
      Total(w0, c, Now(w, c), k) + if Instant(c, p) && Open(w0, c, p) then Weight(w0, c, p, k) else 0
  {
    if p !in w.enabled && p in c.delay {
      var e := (c.delay[p] + c.now) % W32;
      assert Start(w, p, c) == Armed(w, p, e);
      if e <= c.now {
        assert Instant(c, p) && Open(w0, c, p);
        ArmedTotal(w0, w, p, e, c, k);
      } else {
        ArmedDue(w, p, e, c.now);
      }
    }
  }

  lemma {:induction false} StartAllTotal<N>(w0: Wheel<N>, w: Wheel<N>, ps: seq<N>, c: Setup<N>, k: nat)
    requires Reached(w0, w, c)
    ensures Total(w0, c, Now(StartAll(w, ps, c), c), k) <= Total(w0, c, Now(w, c), k) + Sum(w0, c, ps, k)
    decreases |ps|
  {
    if ps != [] {
      StartTotal(w0, w, ps[0], c, k);
      StartReached(w0, w, ps[0], c);
      StartAllTotal(w0, Start(w, ps[0], c), ps[1..], c, k);
    }
  }

  lemma {:induction false} WeightSplit<N>(w: Wheel<N>, c: Setup<N>, x: N, k: nat)
    requires !Lasts(w, c, x, k)
    ensures Weight(w, c, x, k) == 1 + Sum(w, c, Restarts(x, c), k)
  {
    assert forall y :: y in Restarts(x, c) && Edge(w, c, x, y) ==> !Lasts(w, c, y, k - 1);
    SumStable(w, c, Restarts(x, c), k - 1);
  }

  /** Every round of the pass brings the end nearer. */
  lemma {:induction false} FireTotal<N>(w0: Wheel<N>, w: Wheel<N>, c: Setup<N>, k: nat)
    requires Reached(w0, w, c) && Now(w, c) != [] && forall x :: x in Now(w, c) ==> !Lasts(w0, c, x, k)
    ensures Total(w0, c, Now(Fire(w, c), c), k) < Total(w0, c, Now(w, c), k)
  {
    PoppedReached(w0, w, c);
    FireIs(w, c);
    var x := w.active[0];
    StartAllTotal(w0, Popped(w, c), Restarts(x, c), c, k);
    assert x in Now(w, c) && Now(w, c)[1..] == Now(Popped(w, c), c);
    WeightSplit(w0, c, x, k);
  }

  lemma {:induction false} FireShort<N>(w0: Wheel<N>, w: Wheel<N>, c: Setup<N>, k: nat)
    requires Reached(w0, w, c) && Now(w, c) != [] && forall x :: x in Now(w, c) ==> !Lasts(w0, c, x, k)
    ensures forall x :: x in Now(Fire(w, c), c) ==> !Lasts(w0, c, x, k)
  {
    FireReached(w0, w, c);
    var x := w.active[0];
    forall y | y in Now(Fire(w, c), c) ensures !Lasts(w0, c, y, k) {
      if Edge(w0, c, x, y) {
        assert !Lasts(w0, c, y, k - 1);
        if Lasts(w0, c, y, k) { LastsLess(w0, c, y, k - 1); }
      }
    }
  }

  lemma {:induction false} EndsFrom<N>(w: Wheel<N>, i: nat, c: Setup<N>, k: nat) returns (n: nat)
    requires Fit(w) && forall x :: x in Now(Pass(w, i, c), c) ==> !Lasts(w, c, x, k)
    ensures n >= i && Now(Pass(w, n, c), c) == []
    decreases Total(w, c, Now(Pass(w, i, c), c), k)
  {
    var u := Pass(w, i, c);
    if Now(u, c) == [] { return i; }
    PassReached(w, i, c);
    FireTotal(w, u, c, k);
    FireShort(w, u, c, k);
    n := EndsFrom(w, i + 1, c, k);
  }

  // ------------------------------------------------------------- loops

  lemma {:induction false} OnLoop<N>(w: Wheel<N>, c: Setup<N>, p: seq<N>, i: nat, j: nat, t: nat, k: nat)
    requires Chain(w, c, p) && i < j < |p| && p[i] == p[j] && t <= j
    ensures Lasts(w, c, p[t], k)
    decreases k
  {
    if k > 0 {
      var t' := if t == j then i else t;
      OnLoop(w, c, p, i, j, t' + 1, k - 1);
      assert Edge(w, c, p[t' + 1 - 1], p[t' + 1]);
    }
  }

  lemma {:induction false} LongChain<N>(w: Wheel<N>, c: Setup<N>, x: N, k: nat) returns (p: seq<N>)
    requires Lasts(w, c, x, k)
    ensures |p| == k + 1 && p[0] == x && Chain(w, c, p)
    decreases k
  {
    if k == 0 {
      p := [x];
    } else {
      var y :| y in c.script[x] && Edge(w, c, x, y) && Lasts(w, c, y, k - 1);
      var q := LongChain(w, c, y, k - 1);
      p := [x] + q;
      forall i | 0 < i < |p| ensures Edge(w, c, p[i - 1], p[i]) {
        if i > 1 { assert Edge(w, c, q[i - 1 - 1], q[i - 1]); }
      }
    }
  }

  lemma {:induction false} Pigeonhole<N>(p: seq<N>, s: set<N>)
    requires NoRepeats(p) && forall x :: x in p ==> x in s
    ensures |p| <= |s|
    decreases |p|
  {
    if p != [] {
      var rest := p[1..];
      assert p[0] in s;
      forall x | x in rest ensures x in s - {p[0]} {
        var i :| 0 <= i < |rest| && rest[i] == x;
        assert p[i + 1] == x && x in p;
      }
      assert forall i, j :: 0 <= i < j < |rest| ==> rest[i] == p[i + 1] && rest[j] == p[j + 1];
      Pigeonhole(rest, s - {p[0]});
    }
  }

  lemma {:induction false} ChainSources<N>(w: Wheel<N>, c: Setup<N>, p: seq<N>)
    requires Chain(w, c, p) && |p| == |c.script| + 2
    ensures !NoRepeats(p)
  {
    var q := p[..|p| - 1];
    forall x | x in q ensures x in c.script.Keys {
      var i :| 0 <= i < |q| && q[i] == x;
      assert Edge(w, c, p[i + 1 - 1], p[i + 1]);
    }
    if NoRepeats(p) {
      assert forall i :: 0 <= i < |q| ==> q[i] == p[i];
      Pigeonhole(q, c.script.Keys);
    }
  }

  /** Chains are bounded exactly when none comes back to one of its timers. */
  lemma {:induction false} BoundedIffNoLoop<N>(w: Wheel<N>, c: Setup<N>)
    ensures Bounded(w, c) <==> !exists p :: Loop(w, c, p)
  {
    if p :| Loop(w, c, p) {
      var i, j :| 0 <= i < j < |p| && p[i] == p[j];
      OnLoop(w, c, p, i, j, 0, |c.script| + 1);
    }
    if !Bounded(w, c) {
      var x :| x in Now(w, c) && Lasts(w, c, x, |c.script| + 1);
      var p := LongChain(w, c, x, |c.script| + 1);
      ChainSources(w, c, p);
      assert Loop(w, c, p);
    }
  }

  /**
   The pass ends if and only if no chain of immediate restarts from a due timer comes back to
   one of its timers.
   */
  lemma {:induction false} EndsIffNoLoop<N>(w: Wheel<N>, c: Setup<N>)
    requires Fit(w)
    ensures (exists n: nat :: Now(Pass(w, n, c), c) == []) <==> !exists p :: Loop(w, c, p)
  {
    BoundedIffNoLoop(w, c);
    if Bounded(w, c) {
      var n := EndsFrom(w, 0, c, |c.script| + 1);
    }
    if n: nat :| Now(Pass(w, n, c), c) == [] {
      if p :| Loop(w, c, p) {
        var i, j :| 0 <= i < j < |p| && p[i] == p[j];
        OnLoop(w, c, p, i, j, 0, n + 1);
        NotBefore(w, 0, p[0], n + 1, n, c);
      }
    }
  }

  /** If handlers start timers for later only, there are no immediate restarts at all. */
  lemma {:induction false} FutureBounded<N>(w: Wheel<N>, c: Setup<N>)
    requires Future(c) && 0 <= c.now
    ensures Bounded(w, c)
  {
    forall x, y | x in c.script && y in c.script[x] && y in c.delay ensures !Edge(w, c, x, y) {
      InTime(c.delay[y] + c.now);
    }
  }

  /** A handler that starts its own timer again without delay makes a loop. */
  lemma {:induction false} OwnRestartLoops<N>(w: Wheel<N>, c: Setup<N>, x: N)
    requires x in Now(w, c) && 0 <= c.now < W32 && x in c.script && x in c.script[x] && x in c.delay && c.delay[x] == 0
    ensures Loop(w, c, [x, x])
  {
    InTime(c.now);
    var p := [x, x];
    assert p[0] == p[1];
  }

  // ------------------------------------------------------------- the loop of the pass

  /** In round `i` of the pass `x` is due and goes off. */
  ghost predicate Goes<N>(w: Wheel<N>, i: nat, c: Setup<N>, x: N) {
    var u := Pass(w, i, c);
    Now(u, c) != [] && u.active != [] && u.active[0] == x
  }

  ghost predicate Short<N>(w: Wheel<N>, i: nat, c: Setup<N>, k: nat) {
    forall x :: x in Now(Pass(w, i, c), c) ==> !Lasts(w, c, x, k)
  }

  /** The pass over `w` has come to `u`, `fired` having gone off. */
  ghost predicate Going<N>(w: Wheel<N>, fired: seq<N>, u: Wheel<N>, c: Setup<N>, k: nat) {
    && Fit(w) && u == Pass(w, |fired|, c) && Short(w, |fired|, c, k)
    && (forall i :: 0 <= i < |fired| ==> Goes(w, i, c, fired[i]))
  }

  ghost function Left<N>(w: Wheel<N>, u: Wheel<N>, c: Setup<N>, k: nat): nat {
    Total(w, c, Now(u, c), k)
  }

  lemma {:induction false} NextGoes<N>(w: Wheel<N>, i: nat, c: Setup<N>, k: nat)
    requires Fit(w) && Short(w, i, c, k)
    requires var u := Pass(w, i, c); u.active != [] && u.active[0] in u.expiry && u.expiry[u.active[0]] <= c.now
    ensures Goes(w, i, c, Pass(w, i, c).active[0]) && Short(w, i + 1, c, k)
    ensures Pass(w, i + 1, c) == Fire(Pass(w, i, c), c)
    ensures Left(w, Pass(w, i + 1, c), c, k) < Left(w, Pass(w, i, c), c, k)
  {
    var u := Pass(w, i, c);
    assert Earlier(u.active, c.now + 1, u.expiry) > 0;
    PassReached(w, i, c);
    FireTotal(w, u, c, k);
    FireShort(w, u, c, k);
  }

  lemma {:induction false} GoOn<N>(w: Wheel<N>, fired: seq<N>, u: Wheel<N>, c: Setup<N>, k: nat)
    requires Going(w, fired, u, c, k) && u.active != [] && u.active[0] in u.expiry && u.expiry[u.active[0]] <= c.now
    ensures Going(w, fired + [u.active[0]], Fire(u, c), c, k) && Left(w, Fire(u, c), c, k) < Left(w, u, c, k)
  {
    NextGoes(w, |fired|, c, k);
  }

  lemma {:induction false} NoMore<N>(w: Wheel<N>, c: Setup<N>)
    requires w.active == [] || (w.active[0] in w.expiry && w.expiry[w.active[0]] > c.now)
    ensures Now(w, c) == []
  {
  }

  /** With timers started for later only, those that go off are those due at the start. */
  lemma {:induction false} FiredDue<N>(w: Wheel<N>, fired: seq<N>, c: Setup<N>)
    requires Fit(w) && 0 <= c.now && Future(c) && Now(Pass(w, |fired|, c), c) == []
    requires forall i :: 0 <= i < |fired| ==> Goes(w, i, c, fired[i])
    ensures fired == Now(w, c)
  {
    var d := Now(w, c);
    PassFiresDue(w, c);
    assert |d| < |fired| ==> Goes(w, |d|, c, fired[|d|]);
    PassDue(w, |d|, c);
    if |fired| < |d| { PassDue(w, |fired|, c); }
    forall i | 0 <= i < |d| ensures fired[i] == d[i] { assert Goes(w, i, c, fired[i]); }
  }
}
