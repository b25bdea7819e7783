/** The active timers and the expiry pass of kernel/rx_timer.c, on values. */
module TimerQueue {
  import opened Wrappers
  import opened Words
  import opened ReadyQueue

  /** `active` in order of expiry; `enabled` are the timers whose flag is set. */
  datatype Wheel<N> = Wheel(active: seq<N>, expiry: map<N, int>, enabled: set<N>)

  /** What does not change during a pass: delays, the time, and which timers each handler starts. */
  datatype Setup<N> = Setup(delay: map<N, int>, script: map<N, seq<N>>, now: int)

  ghost predicate Fit<N>(w: Wheel<N>) {
    NoRepeats(w.active) && Sorted(w.active, w.expiry) && forall x :: x in w.active ==> x in w.enabled
  }

  /** Where a timer of expiry `e` goes: before the first that does not expire earlier. */
  function Earlier<N>(s: seq<N>, e: int, expiry: map<N, int>): (k: nat)
    ensures k <= |s|
    ensures forall i :: 0 <= i < k ==> s[i] in expiry && expiry[s[i]] < e
    ensures k < |s| ==> s[k] !in expiry || e <= expiry[s[k]]
  {
    if s == [] || s[0] !in expiry || e <= expiry[s[0]] then 0 else 1 + Earlier(s[1..], e, expiry)
  }

  /** The timer expires after its delay, in 32-bit time. */
  function Armed<N>(w: Wheel<N>, p: N, e: int): Wheel<N> {
    var k := Earlier(w.active, e, w.expiry);
    Wheel(w.active[..k] + [p] + w.active[k..], w.expiry[p := e], w.enabled + {p})
  }

  function Start<N(==)>(w: Wheel<N>, p: N, c: Setup<N>): Wheel<N> {
    if p in w.enabled || p !in c.delay then w else Armed(w, p, (c.delay[p] + c.now) % W32)
  }

  function StartAll<N(==)>(w: Wheel<N>, ps: seq<N>, c: Setup<N>): Wheel<N>
    decreases |ps|
  {
    if ps == [] then w else StartAll(Start(w, ps[0], c), ps[1..], c)
  }

  /** The first timer goes off: it leaves the list and its handler, if it has one, runs. */
  function Fire<N(==)>(w: Wheel<N>, c: Setup<N>): Wheel<N> {
    if w.active == [] then w
    else
      var x := w.active[0];
      if x in c.script then StartAll(w.(active := w.active[1..], enabled := w.enabled - {x}), c.script[x], c)
      else w.(active := w.active[1..])
  }

  /** The timers at the front that expire by `tick`. */
  function Due<N>(s: seq<N>, expiry: map<N, int>, tick: int): (r: seq<N>)
    ensures r <= s
  {
    s[..Earlier(s, tick + 1, expiry)]
  }

  /** Those that are due now. */
  function Now<N>(w: Wheel<N>, c: Setup<N>): seq<N> {
    Due(w.active, w.expiry, c.now)
  }

  /** The pass after `n` rounds of its loop, or where it has stopped before. */
  function Pass<N(==)>(w: Wheel<N>, n: nat, c: Setup<N>): Wheel<N> {
    if n == 0 then w
    else
      var u := Pass(w, n - 1, c);
      if Now(u, c) == [] then u else Fire(u, c)
  }

  /** Handlers start timers only for later, and the clock does not run over. */
  ghost predicate Future<N>(c: Setup<N>) {
    forall x, y :: x in c.script && y in c.script[x] && y in c.delay ==> 0 < c.delay[y] && c.delay[y] + c.now < W32
  }

  // ------------------------------------------------------------- insertion

  /** In a list in order of expiry these are all that expire by then, in that order. */
  lemma {:induction false} DueExactly<N>(s: seq<N>, expiry: map<N, int>, tick: int)
    requires Sorted(s, expiry)
    ensures Sorted(Due(s, expiry, tick), expiry)
    ensures forall x :: x in Due(s, expiry, tick) ==> expiry[x] <= tick
    ensures forall x :: x in s && x !in Due(s, expiry, tick) ==> expiry[x] > tick
  {
    var k := Earlier(s, tick + 1, expiry);
    forall x | x in s && x !in s[..k] ensures expiry[x] > tick {
      var i :| 0 <= i < |s| && s[i] == x;
      assert i >= k;
    }
  }

  lemma {:induction false} EarlierIs<N>(s: seq<N>, e: int, expiry: map<N, int>, k: nat)
    requires Sorted(s, expiry) && k <= |s|
    requires (forall i :: 0 <= i < k ==> expiry[s[i]] < e) && (k < |s| ==> e <= expiry[s[k]])
    ensures Earlier(s, e, expiry) == k
  {
  }

  lemma {:induction false} PutSorted<N>(s: seq<N>, p: N, k: nat, e: int, expiry: map<N, int>)
    requires Sorted(s, expiry) && p !in s && k <= |s|
    requires (forall i :: 0 <= i < k ==> expiry[s[i]] <= e) && (forall i :: k <= i < |s| ==> e <= expiry[s[i]])
    ensures Sorted(s[..k] + [p] + s[k..], expiry[p := e])
  {
    var r := s[..k] + [p] + s[k..];
    assert forall i :: 0 <= i < |r| ==> r[i] == if i < k then s[i] else if i == k then p else s[i - 1];
    assert forall i :: 0 <= i < |s| ==> s[i] in s;
  }

  lemma {:induction false} ArmedFit<N>(w: Wheel<N>, p: N, e: int)
    requires Fit(w) && p !in w.active
    ensures Fit(Armed(w, p, e)) && forall x :: x in Armed(w, p, e).active <==> x in w.active || x == p
  {
    var k := Earlier(w.active, e, w.expiry);
    PutFacts(w.active, p, k);
    PutSorted(w.active, p, k, e, w.expiry);
  }

  /** A timer that expires later does not change which are due. */
  lemma {:induction false} ArmedDue<N>(w: Wheel<N>, p: N, e: int, tick: int)
    requires Fit(w) && p !in w.active && e > tick
    ensures Due(Armed(w, p, e).active, Armed(w, p, e).expiry, tick) == Due(w.active, w.expiry, tick)
  {
    var s, r, expiry := w.active, Armed(w, p, e).active, w.expiry[p := e];
    var k, d := Earlier(s, e, w.expiry), Earlier(s, tick + 1, w.expiry);
    PutSorted(s, p, k, e, w.expiry);
    assert d <= k;
    assert r[..d] == s[..d];
    forall i | 0 <= i < d ensures expiry[r[i]] < tick + 1 {
      assert r[i] == s[i] && s[i] in s;
    }
    if d < k { assert r[d] == s[d] && s[d] in s; }
    EarlierIs(r, tick + 1, expiry, d);
  }

  // ------------------------------------------------------------- when a started timer is due

  lemma {:induction false} ArmedDueAt<N>(w: Wheel<N>, p: N, e: int, tick: int)
    requires Fit(w) && p !in w.active
    ensures p in Due(Armed(w, p, e).active, Armed(w, p, e).expiry, tick) <==> e <= tick
  {
    var w' := Armed(w, p, e);
    ArmedFit(w, p, e);
    DueExactly(w'.active, w'.expiry, tick);
  }

  /** A timer that was not enabled is active and goes off when its delay has passed in 32-bit time; no other is changed. */
  lemma {:induction false} Started<N>(w: Wheel<N>, p: N, c: Setup<N>, tick: int)
    requires Fit(w) && p !in w.enabled && p in c.delay
    ensures var w' := Start(w, p, c);
      && p in w'.active && w'.enabled == w.enabled + {p}
      && (p in Due(w'.active, w'.expiry, tick) <==> (c.delay[p] + c.now) % W32 <= tick)
      && (forall x :: x != p ==> (x in w'.active <==> x in w.active) && (x in w'.expiry <==> x in w.expiry))
      && (forall x :: x != p && x in w.expiry ==> w'.expiry[x] == w.expiry[x])
  {
    var e := (c.delay[p] + c.now) % W32;
    ArmedFit(w, p, e);
    ArmedDueAt(w, p, e, tick);
  }

  /** `p` goes off at the first tick at which its delay has passed. */
  ghost predicate OnTime<N>(w: Wheel<N>, p: N, c: Setup<N>, tick: int) {
    p in c.delay && (p in Due(w.active, w.expiry, tick) <==> c.now + c.delay[p] <= tick)
  }

  lemma {:induction false} ClockTime(sum: int) returns (e: int)
    requires 0 <= sum < 2 * W32
    ensures e == sum % W32 && e == if sum < W32 then sum else sum - W32
  {
    e := sum % W32;
  }

  lemma {:induction false} DueAt<N>(w: Wheel<N>, p: N, c: Setup<N>, tick: int, e: int)
    requires Fit(w) && p !in w.enabled && p in c.delay && e == (c.delay[p] + c.now) % W32
    ensures p in Due(Start(w, p, c).active, Start(w, p, c).expiry, tick) <==> e <= tick
  {
    Started(w, p, c, tick);
  }

  lemma {:induction false} OnTimeAt<N>(w: Wheel<N>, p: N, c: Setup<N>, tick: int)
    requires Fit(w) && p !in w.enabled && p in c.delay && 0 <= c.now < W32 && 0 <= c.delay[p] < W32 && c.now <= tick < W32
    ensures OnTime(Start(w, p, c), p, c, tick) <==> c.now + c.delay[p] < W32
  {
    var e := ClockTime(c.delay[p] + c.now);
    DueAt(w, p, c, tick, e);
  }

  /** That is so if and only if the clock does not run over meanwhile. */
  lemma {:induction false} OnTimeIffNoOverflow<N>(w: Wheel<N>, p: N, c: Setup<N>)
    requires Fit(w) && p !in w.enabled && p in c.delay && 0 <= c.now < W32 && 0 <= c.delay[p] < W32
    ensures (forall tick :: c.now <= tick < W32 ==> OnTime(Start(w, p, c), p, c, tick)) <==> c.now + c.delay[p] < W32
  {
    if c.now + c.delay[p] < W32 {
      forall tick | c.now <= tick < W32 ensures OnTime(Start(w, p, c), p, c, tick) { OnTimeAt(w, p, c, tick); }
    } else {
      OnTimeAt(w, p, c, c.now);
    }
  }

  /** `x` is as it was. */
  ghost predicate Same<N>(w: Wheel<N>, w': Wheel<N>, x: N) {
    && (x in w'.active <==> x in w.active) && (x in w'.enabled <==> x in w.enabled) && (x in w'.expiry <==> x in w.expiry)
    && (x in w.expiry ==> w'.expiry[x] == w.expiry[x])
  }

  lemma {:induction false} ArmedSame<N>(w: Wheel<N>, p: N, e: int, x: N)
    requires Fit(w) && p !in w.active
    ensures Fit(Armed(w, p, e)) && (x != p ==> Same(w, Armed(w, p, e), x))
  {
    ArmedFit(w, p, e);
  }

  lemma {:induction false} StartSame<N>(w: Wheel<N>, p: N, c: Setup<N>, x: N)
    requires Fit(w)
    ensures Fit(Start(w, p, c)) && (x != p || p in w.enabled || p !in c.delay ==> Same(w, Start(w, p, c), x))
  {
    if p in w.enabled || p !in c.delay {
      assert Start(w, p, c) == w;
    } else {
      var e := (c.delay[p] + c.now) % W32;
      assert Start(w, p, c) == Armed(w, p, e);
      ArmedSame(w, p, e, x);
    }
  }

  /** Timers that are running already are not changed by starting others or themselves. */
  lemma {:induction false} StartAllSame<N>(w: Wheel<N>, ps: seq<N>, c: Setup<N>, x: N)
    requires Fit(w) && (x in w.enabled || x !in ps || x !in c.delay)
    ensures Fit(StartAll(w, ps, c)) && Same(w, StartAll(w, ps, c), x)
    decreases |ps|
  {
    if ps != [] {
      StartSame(w, ps[0], c, x);
      assert forall y :: y in ps[1..] ==> y in ps;
      StartAllSame(Start(w, ps[0], c), ps[1..], c, x);
    }
  }

  /** `p` is active and goes off when its delay has passed. */
  ghost predicate Ticking<N>(w: Wheel<N>, p: N, c: Setup<N>) {
    p in c.delay && p in w.active && p in w.enabled && p in w.expiry && w.expiry[p] == (c.delay[p] + c.now) % W32
  }

  /** Every one of the timers that a handler starts is set, unless it is running already. */
  lemma {:induction false} StartAllSets<N>(w: Wheel<N>, ps: seq<N>, c: Setup<N>, p: N)
    requires Fit(w) && p in ps && p in c.delay && p !in w.enabled
    ensures Ticking(StartAll(w, ps, c), p, c)
    decreases |ps|
  {
    StartSame(w, ps[0], c, p);
    if ps[0] == p {
      Started(w, p, c, 0);
      StartAllSame(Start(w, p, c), ps[1..], c, p);
    } else {
      StartAllSets(Start(w, ps[0], c), ps[1..], c, p);
    }
  }

  /**
   What becomes of a timer `p` when the first one, `x`, goes off: `x` leaves the list, and its flag is cleared if it
   has a handler; `p` is set if that handler starts it and it is not running; otherwise it is as it was.
   */
  lemma {:induction false} FireEffect<N>(w: Wheel<N>, c: Setup<N>, x: N, p: N)
    requires Fit(w) && w.active != [] && x == w.active[0]
    ensures x in c.script && p in c.script[x] && p in c.delay && (p == x || p !in w.enabled) ==> Ticking(Fire(w, c), p, c)
    ensures p != x && !(x in c.script && p in c.script[x] && p in c.delay && p !in w.enabled) ==> Same(w, Fire(w, c), p)
    ensures p == x && !(x in c.script && x in c.script[x] && x in c.delay) ==>
      p !in Fire(w, c).active && (p in Fire(w, c).enabled <==> x !in c.script)
  {
    TailFit(w.active, w.expiry);
    assert w.active == [x] + w.active[1..];
    if x in c.script {
      var u := w.(active := w.active[1..], enabled := w.enabled - {x});
      if p in c.script[x] && p in c.delay && p !in u.enabled {
        StartAllSets(u, c.script[x], c, p);
      } else {
        StartAllSame(u, c.script[x], c, p);
      }
    }
  }

  // ------------------------------------------------------------- the pass

  /** Handlers leave alone what is due and what is running already. */
  ghost predicate Untouched<N>(w: Wheel<N>, w': Wheel<N>, tick: int) {
    && Fit(w') && Due(w'.active, w'.expiry, tick) == Due(w.active, w.expiry, tick)
    && (forall x :: x in w.active ==> x in w'.active && x in w.expiry && x in w'.expiry && w'.expiry[x] == w.expiry[x])
  }

  lemma {:induction false} ArmedUntouched<N>(w: Wheel<N>, p: N, e: int, tick: int)
    requires Fit(w) && p !in w.active && e > tick
    ensures Untouched(w, Armed(w, p, e), tick)
  {
    ArmedFit(w, p, e);
    ArmedDue(w, p, e, tick);
    assert forall i :: 0 <= i < |w.active| ==> w.active[i] in w.expiry;
  }

  lemma {:induction false} InTime(e: int)
    requires 0 <= e < W32
    ensures e % W32 == e
  {
  }

  lemma {:induction false} StartUntouched<N>(w: Wheel<N>, p: N, c: Setup<N>)
    requires Fit(w) && (p in c.delay ==> 0 < c.delay[p] && c.delay[p] + c.now < W32) && 0 <= c.now
    ensures Untouched(w, Start(w, p, c), c.now)
  {
    if p !in w.enabled && p in c.delay {
      var e := c.delay[p] + c.now;
      InTime(e);
      assert Start(w, p, c) == Armed(w, p, e);
      ArmedUntouched(w, p, e, c.now);
    }
  }

  lemma {:induction false} StartAllUntouched<N>(w: Wheel<N>, ps: seq<N>, c: Setup<N>)
    requires Fit(w) && 0 <= c.now && forall p :: p in ps && p in c.delay ==> 0 < c.delay[p] && c.delay[p] + c.now < W32
    ensures Untouched(w, StartAll(w, ps, c), c.now)
    decreases |ps|
  {
    if ps != [] {
      StartUntouched(w, ps[0], c);
      assert forall p :: p in ps[1..] ==> p in ps;
      StartAllUntouched(Start(w, ps[0], c), ps[1..], c);
    }
  }

  lemma {:induction false} TailDue<N>(s: seq<N>, expiry: map<N, int>, tick: int)
    requires Due(s, expiry, tick) != []
    ensures s != [] && Due(s, expiry, tick)[0] == s[0] && Due(s[1..], expiry, tick) == Due(s, expiry, tick)[1..]
  {
    assert Earlier(s, tick + 1, expiry) == 1 + Earlier(s[1..], tick + 1, expiry);
  }

  lemma {:induction false} TailFit<N>(s: seq<N>, expiry: map<N, int>)
    requires NoRepeats(s) && Sorted(s, expiry) && s != []
    ensures NoRepeats(s[1..]) && Sorted(s[1..], expiry) && forall x :: x in s[1..] ==> x in s && x != s[0]
  {
    assert forall i :: 0 <= i < |s[1..]| ==> s[1..][i] == s[i + 1];
  }

  lemma {:induction false} DropHead<N>(w: Wheel<N>, tick: int)
    requires Fit(w) && Due(w.active, w.expiry, tick) != []
    ensures w.active != [] && Due(w.active, w.expiry, tick)[0] == w.active[0]
    ensures var w' := w.(active := w.active[1..], enabled := w.enabled - {w.active[0]});
      Fit(w') && Due(w'.active, w'.expiry, tick) == Due(w.active, w.expiry, tick)[1..]
    ensures Fit(w.(active := w.active[1..]))
  {
    TailDue(w.active, w.expiry, tick);
    TailFit(w.active, w.expiry);
  }

  /** Firing the first due timer leaves exactly the others due. */
  lemma {:induction false} FireDue<N>(w: Wheel<N>, c: Setup<N>)
    requires Fit(w) && Future(c) && 0 <= c.now && Due(w.active, w.expiry, c.now) != []
    ensures Fit(Fire(w, c)) && Due(Fire(w, c).active, Fire(w, c).expiry, c.now) == Due(w.active, w.expiry, c.now)[1..]
    ensures forall x :: x in w.active && x != w.active[0] ==> x in Fire(w, c).active && x in w.expiry && x in Fire(w, c).expiry && Fire(w, c).expiry[x] == w.expiry[x]
  {
    DropHead(w, c.now);
    var x := w.active[0];
    if x in c.script {
      StartAllUntouched(w.(active := w.active[1..], enabled := w.enabled - {x}), c.script[x], c);
    }
  }

  /** The state of the pass after `n` timers have gone off. */
  lemma {:induction false} PassDue<N>(w: Wheel<N>, n: nat, c: Setup<N>)
    requires Fit(w) && Future(c) && 0 <= c.now && n <= |Due(w.active, w.expiry, c.now)|
    ensures Fit(Pass(w, n, c)) && Due(Pass(w, n, c).active, Pass(w, n, c).expiry, c.now) == Due(w.active, w.expiry, c.now)[n..]
  {
    if n > 0 {
      PassDue(w, n - 1, c);
      FireDue(Pass(w, n - 1, c), c);
    }
  }

  lemma {:induction false} PassKeeps<N>(w: Wheel<N>, n: nat, c: Setup<N>, x: N)
    requires Fit(w) && Future(c) && 0 <= c.now && n <= |Due(w.active, w.expiry, c.now)|
    requires x in w.active && x !in Due(w.active, w.expiry, c.now)
    ensures var w' := Pass(w, n, c); x in w'.active && x in w.expiry && x in w'.expiry && w'.expiry[x] == w.expiry[x]
  {
    if n > 0 {
      PassKeeps(w, n - 1, c, x);
      PassDue(w, n - 1, c);
      var u, d := Pass(w, n - 1, c), Due(w.active, w.expiry, c.now);
      assert Due(u.active, u.expiry, c.now)[0] == d[n - 1] && d[n - 1] in d;
      FireDue(u, c);
      TailDue(u.active, u.expiry, c.now);
    }
  }

  /**
   If handlers start timers for later only, a pass fires exactly the timers due, in their order,
   and then none is due; the others stay as they were.
   */
  lemma {:induction false} PassFiresDue<N>(w: Wheel<N>, c: Setup<N>)
    requires Fit(w) && Future(c) && 0 <= c.now
    ensures var d := Due(w.active, w.expiry, c.now); forall i :: 0 <= i < |d| ==> Pass(w, i, c).active != [] && Pass(w, i, c).active[0] == d[i]
    ensures var w' := Pass(w, |Due(w.active, w.expiry, c.now)|, c); Fit(w') && forall x :: x in w'.active ==> x in w'.expiry && w'.expiry[x] > c.now
  {
    var d := Due(w.active, w.expiry, c.now);
    forall i | 0 <= i < |d| ensures Pass(w, i, c).active != [] && Pass(w, i, c).active[0] == d[i] {
      PassDue(w, i, c);
      TailDue(Pass(w, i, c).active, Pass(w, i, c).expiry, c.now);
    }
    PassDue(w, |d|, c);
    var w' := Pass(w, |d|, c);
    DueExactly(w'.active, w'.expiry, c.now);
  }
}
