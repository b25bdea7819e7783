/**
 Augmented trees: every node carries a value that is a function of the node and of
 its children's values.  Rebalancing makes some of these values stale; the lemmas
 here say that they all lie on, or next to, the one path that rb_augment_path walks.
 */
module RbAugment {
  import opened Wrappers
  import opened RbShape
  import Ins = RbInsert
  import Del = RbErase

  type Combine<!K> = (K, Option<int>, Option<int>) -> int

  function Value<K>(t: Tree<K>, v: map<K, int>): Option<int> {
    if t.Node? && t.key in v then Some(v[t.key]) else None
  }

  /** Every value in `t` is what `f` computes from the values of the children. */
  predicate Fresh<K>(t: Tree<K>, v: map<K, int>, f: Combine<K>) {
    match t
    case Nil => true
    case Node(l, k, _, r) => k in v && v[k] == f(k, Value(l, v), Value(r, v)) && Fresh(l, v, f) && Fresh(r, v, f)
  }

  /** At most the value at the root of `t` is stale. */
  predicate Near<K>(t: Tree<K>, v: map<K, int>, f: Combine<K>) {
    t.Node? ==> Fresh(t.left, v, f) && Fresh(t.right, v, f)
  }

  /** All subtrees next to the path from the hole to the root are fresh. */
  predicate FreshCtx<K>(c: Ctx<K>, v: map<K, int>, f: Combine<K>) {
    c.Top? || (Fresh(Sibling(c), v, f) && FreshCtx(c.up, v, f))
  }

  /** The same, except that their own roots may be stale. */
  predicate NearCtx<K>(c: Ctx<K>, v: map<K, int>, f: Combine<K>) {
    c.Top? || (Near(Sibling(c), v, f) && NearCtx(c.up, v, f))
  }

  /** Stale values lie on the path from `x` to the root or are roots of subtrees next to it. */
  predicate Repairable<K(==)>(t: Tree<K>, x: K, v: map<K, int>, f: Combine<K>) {
    t.Node? && (
      || (t.key == x && Near(t, v, f))
      || (Repairable(t.left, x, v, f) && Near(t.right, v, f))
      || (Repairable(t.right, x, v, f) && Near(t.left, v, f)))
  }

  lemma {:induction false} FreshUnplug<K>(c: Ctx<K>, t: Tree<K>, v: map<K, int>, f: Combine<K>)
    requires Fresh(Plug(c, t), v, f)
    ensures Fresh(t, v, f) && FreshCtx(c, v, f)
  {
    if !c.Top? {
      FreshUnplug(c.up, Close(c, t), v, f);
    }
  }

  lemma {:induction false} FreshNear<K>(c: Ctx<K>, v: map<K, int>, f: Combine<K>)
    requires FreshCtx(c, v, f)
    ensures NearCtx(c, v, f)
  {
    if !c.Top? {
      FreshNear(c.up, v, f);
    }
  }

  lemma {:induction false} RepairablePlug<K>(c: Ctx<K>, t: Tree<K>, x: K, v: map<K, int>, f: Combine<K>)
    requires Repairable(t, x, v, f) && NearCtx(c, v, f)
    ensures Repairable(Plug(c, t), x, v, f)
  {
    if !c.Top? {
      RepairablePlug(c.up, Close(c, t), x, v, f);
    }
  }

  // ------------------------------------------------------------- insertion

  /** `n` is a leaf of `t`, and the subtrees next to the path to it are fresh. */
  predicate Grown<K(==)>(t: Tree<K>, n: K, v: map<K, int>, f: Combine<K>) {
    t.Node? && (
      || (t.key == n && t.left.Nil? && t.right.Nil?)
      || (Grown(t.left, n, v, f) && Fresh(t.right, v, f))
      || (Grown(t.right, n, v, f) && Fresh(t.left, v, f)))
  }

  /** Ready for rb_augment_insert, which starts at a child of `n` if it has one. */
  predicate Inserted<K(==)>(t: Tree<K>, n: K, v: map<K, int>, f: Combine<K>) {
    t.Node? && (
      || (t.key == n && Near(t.left, v, f) && Near(t.right, v, f))
      || (Inserted(t.left, n, v, f) && Near(t.right, v, f))
      || (Inserted(t.right, n, v, f) && Near(t.left, v, f)))
  }

  lemma {:induction false} GrownInserted<K>(t: Tree<K>, n: K, v: map<K, int>, f: Combine<K>)
    requires Grown(t, n, v, f)
    ensures Inserted(t, n, v, f)
  {
    if Grown(t.left, n, v, f) {
      GrownInserted(t.left, n, v, f);
    }
    if Grown(t.right, n, v, f) {
      GrownInserted(t.right, n, v, f);
    }
  }

  lemma {:induction false} InsertedPlug<K>(c: Ctx<K>, t: Tree<K>, n: K, v: map<K, int>, f: Combine<K>)
    requires Inserted(t, n, v, f) && NearCtx(c, v, f)
    ensures Inserted(Plug(c, t), n, v, f)
  {
    if !c.Top? {
      InsertedPlug(c.up, Close(c, t), n, v, f);
    }
  }

  lemma {:induction false} LiftInserted<K>(c: Ctx<K>, t: Tree<K>, n: K, v: map<K, int>, f: Combine<K>)
    requires !c.Top? && !c.up.Top? && Grown(t, n, v, f) && FreshCtx(c, v, f)
    ensures Inserted(Ins.Lifted(c, t), n, v, f)
  {
    GrownInserted(t, n, v, f);
    var r := Ins.Lifted(c, t);
    var b, u := Sibling(c), Sibling(c.up);
    assert Fresh(b, v, f) && Fresh(u, v, f);
    if c.InLeft? == c.up.InLeft? {
      if c.InLeft? {
        assert r.left == t && r.right.left == b && r.right.right == u;
      } else {
        assert r.right == t && r.left.left == u && r.left.right == b;
      }
    } else {
      assert r.key == t.key && r.left.right == t.left && r.right.left == t.right;
      assert if c.up.InLeft? then r.left.left == b && r.right.right == u else r.left.left == u && r.right.right == b;
      if Grown(t.left, n, v, f) && Fresh(t.right, v, f) {
        GrownInserted(t.left, n, v, f);
        assert Inserted(r.left, n, v, f);
      } else if Grown(t.right, n, v, f) && Fresh(t.left, v, f) {
        GrownInserted(t.right, n, v, f);
        assert Inserted(r.right, n, v, f);
      }
    }
  }

  lemma {:induction false} RecolorGrown<K>(c: Ctx<K>, t: Tree<K>, n: K, v: map<K, int>, f: Combine<K>)
    requires !c.Top? && !c.up.Top? && Sibling(c.up).Node? && Grown(t, n, v, f) && FreshCtx(c, v, f)
    ensures Grown(Ins.Recolored(c.up, Close(c, t)), n, v, f) && FreshCtx(c.up.up, v, f)
  {
    var p := Close(c, t);
    assert Fresh(Sibling(c), v, f) && FreshCtx(c.up, v, f);
    assert Grown(p.(color := Black), n, v, f);
    assert Fresh(Sibling(c.up).(color := Black), v, f);
  }

  /** Although insertion may rotate twice, only values on or next to the new node's path go stale. */
  lemma {:induction false} FixedInserted<K>(c: Ctx<K>, t: Tree<K>, n: K, v: map<K, int>, f: Combine<K>)
    requires Ins.Pending(c, t) && Grown(t, n, v, f) && FreshCtx(c, v, f)
    ensures Inserted(Ins.Fixed(c, t), n, v, f)
    decreases Depth(c)
  {
    GrownInserted(t, n, v, f);
    FreshNear(c, v, f);
    if c.Top? {
    } else if c.color.Black? {
      InsertedPlug(c, t, n, v, f);
    } else {
      Ins.FixedStep(c, t);
      Ins.StepPending(c, t);
      var (c', t') := Ins.Step(c, t);
      if IsRed(Sibling(c.up)) {
        RecolorGrown(c, t, n, v, f);
        FixedInserted(c', t', n, v, f);
      } else {
        LiftInserted(c, t, n, v, f);
        FreshNear(c.up.up, v, f);
        InsertedPlug(c.up.up, Ins.Lifted(c, t), n, v, f);
      }
    }
  }

  // ------------------------------------------------------------- removal

  /** `x` is the root of the subtree in focus or, if that is empty, the node above it. */
  predicate Gap<K(==)>(c: Ctx<K>, t: Tree<K>, x: K, v: map<K, int>, f: Combine<K>) {
    FreshCtx(c, v, f) && if t.Nil? then !c.Top? && c.key == x else Repairable(t, x, v, f)
  }

  lemma {:induction false} GapStraightened<K>(c: Ctx<K>, t: Tree<K>, x: K, v: map<K, int>, f: Combine<K>)
    requires Gap(c, t, x, v, f) && !c.Top? && Sibling(c).Node?
    ensures Gap(Del.Straightened(c, t), t, x, v, f)
  {
  }

  lemma {:induction false} GapDemoted<K>(c: Ctx<K>, t: Tree<K>, x: K, v: map<K, int>, f: Combine<K>)
    requires Gap(c, t, x, v, f) && !c.Top?
    ensures Gap(c.up, Del.Demoted(c, t), x, v, f)
  {
  }

  lemma {:induction false} OuterRedNear<K>(c: Ctx<K>, v: map<K, int>, f: Combine<K>)
    requires !c.Top? && Sibling(c).Node? && !Del.BlackNephews(c) && Fresh(Sibling(c), v, f)
    ensures var w := Del.OuterRed(c);
      if c.InLeft? then Fresh(w.left, v, f) && Near(w.right, v, f) else Fresh(w.right, v, f) && Near(w.left, v, f)
  {
    var w := Sibling(c);
    assert Fresh(w.left, v, f) && Fresh(w.right, v, f);
    assert Near(w.left, v, f) && Near(w.right, v, f);
  }

  lemma {:induction false} GapSettled<K>(c: Ctx<K>, t: Tree<K>, x: K, v: map<K, int>, f: Combine<K>)
    requires Gap(c, t, x, v, f) && !c.Top? && Sibling(c).Node? && !Del.BlackNephews(c)
    ensures Repairable(Del.Settled(c, t), x, v, f)
  {
    var w, q := Del.OuterRed(c), Del.Settled(c, t);
    OuterRedNear(c, v, f);
    if c.InLeft? {
      assert q.left == Node(t, c.key, Black, w.left);
      assert Repairable(q.left, x, v, f) && Near(q.right, v, f);
    } else {
      assert q.right == Node(w.right, c.key, Black, t);
      assert Repairable(q.right, x, v, f) && Near(q.left, v, f);
    }
  }

  lemma {:induction false} GapPlug<K>(c: Ctx<K>, t: Tree<K>, x: K, v: map<K, int>, f: Combine<K>)
    requires Gap(c, t, x, v, f)
    ensures Repairable(Plug(c, t), x, v, f)
  {
    FreshNear(c, v, f);
    if t.Nil? {
      RepairablePlug(c.up, Close(c, t), x, v, f);
    } else {
      RepairablePlug(c, t, x, v, f);
    }
  }

  lemma {:induction false} RefilledRepairable<K>(c: Ctx<K>, t: Tree<K>, x: K, v: map<K, int>, f: Combine<K>)
    requires Del.Short(c, t) && Gap(c, t, x, v, f)
    ensures Repairable(Del.Refilled(c, t), x, v, f)
    decreases if IsRed(t) then 0 else Depth(c) + 1
  {
    if IsRed(t) || c.Top? {
      GapPlug(c, Painted(t, Black), x, v, f);
    } else {
      Del.StraightenedShort(c, t);
      var d := Del.Straightened(c, t);
      GapStraightened(c, t, x, v, f);
      if Del.BlackNephews(d) {
        Del.DemotedShort(d, t);
        GapDemoted(d, t, x, v, f);
        RefilledRepairable(d.up, Del.Demoted(d, t), x, v, f);
      } else {
        GapSettled(d, t, x, v, f);
        FreshNear(d.up, v, f);
        RepairablePlug(d.up, Del.Settled(d, t), x, v, f);
      }
    }
  }

  lemma {:induction false} LeftmostFresh<K>(c: Ctx<K>, t: Tree<K>, v: map<K, int>, f: Combine<K>)
    requires t.Node? && Fresh(t, v, f) && FreshCtx(c, v, f)
    ensures FreshCtx(Leftmost(c, t).0, v, f) && Fresh(Leftmost(c, t).1, v, f)
    decreases t
  {
    if t.left.Node? {
      LeftmostFresh(IntoLeft(c, t), t.left, v, f);
    }
  }

  /** The node that rb_augment_erase_begin picks, if the tree does not become empty. */
  ghost function Deepest<K>(c: Ctx<K>, s: Tree<K>): Option<K>
    requires s.Node?
  {
    var (d, u, _) := Del.Detached(c, s);
    if u.Node? then Some(u.key) else if d.Top? then None else Some(d.key)
  }

  /** After rb_erase, only values on or next to the path from that node can be stale. */
  lemma {:induction false} RemovedRepairable<K>(c: Ctx<K>, s: Tree<K>, v: map<K, int>, f: Combine<K>)
    requires s.Node? && RedBlack(Plug(c, s)) && Fresh(Plug(c, s), v, f)
    ensures Deepest(c, s).Some? ==> Repairable(Del.Removed(c, s), Deepest(c, s).value, v, f)
    ensures Deepest(c, s).None? ==> Del.Removed(c, s).Nil?
  {
    FreshUnplug(c, s, v, f);
    Del.DetachedShort(c, s);
    var (d, u, col) := Del.Detached(c, s);
    if s.left.Node? && s.right.Node? {
      LeftmostFresh(InRight(s.left, Del.Successor(s).key, s.color, c), s.right, v, f);
      Del.LeftmostSame(InRight(s.left, Del.Successor(s).key, s.color, c), Top, s.right);
    }
    assert FreshCtx(d, v, f) && Fresh(u, v, f);
    if Deepest(c, s).Some? {
      var x := Deepest(c, s).value;
      assert Gap(d, u, x, v, f);
      if col.Black? {
        RefilledRepairable(d, u, x, v, f);
      } else {
        GapPlug(d, u, x, v, f);
      }
    }
  }

  // ------------------------------------------------------------- values that change

  lemma {:induction false} FreshFrame<K>(t: Tree<K>, v: map<K, int>, v': map<K, int>, f: Combine<K>)
    requires Fresh(t, v, f) && forall k :: k in Keys(t) && k in v ==> k in v' && v'[k] == v[k]
    ensures Fresh(t, v', f)
  {
    match t
    case Nil =>
    case Node(l, _, _, r) =>
      FreshFrame(l, v, v', f);
      FreshFrame(r, v, v', f);
      assert Value(l, v) == Value(l, v') && Value(r, v) == Value(r, v') by {
        assert l.Node? ==> l.key in Keys(l);
        assert r.Node? ==> r.key in Keys(r);
      }
  }

  lemma {:induction false} NearCtxFrame<K>(c: Ctx<K>, v: map<K, int>, v': map<K, int>, f: Combine<K>)
    requires NearCtx(c, v, f) && forall k :: k in CtxKeys(c) && k in v ==> k in v' && v'[k] == v[k]
    ensures NearCtx(c, v', f)
  {
    if !c.Top? {
      var r := Sibling(c);
      if r.Node? {
        FreshFrame(r.left, v, v', f);
        FreshFrame(r.right, v, v', f);
      }
      NearCtxFrame(c.up, v, v', f);
    }
  }

  /** Recomputing the root of a nearly fresh subtree makes it fresh. */
  lemma {:induction false} Recomputed<K>(t: Tree<K>, v: map<K, int>, v': map<K, int>, f: Combine<K>)
    requires t.Node? && Distinct(t) && Near(t, v, f)
    requires v' == v[t.key := f(t.key, Value(t.left, v), Value(t.right, v))]
    ensures Fresh(t, v', f)
  {
    FreshFrame(t.left, v, v', f);
    FreshFrame(t.right, v, v', f);
    assert Value(t.left, v) == Value(t.left, v') && Value(t.right, v) == Value(t.right, v') by {
      assert t.left.Node? ==> t.left.key in Keys(t.left);
      assert t.right.Node? ==> t.right.key in Keys(t.right);
    }
  }

  lemma {:induction false} RepairableFrom<K>(c: Ctx<K>, t: Tree<K>, x: K, v: map<K, int>, f: Combine<K>)
    requires Distinct(t) && Repairable(t, x, v, f) && NearCtx(c, v, f)
    ensures x in Keys(t)
    ensures var (d, u) := LocateFrom(c, t, x); Near(u, v, f) && NearCtx(d, v, f)
    decreases t
  {
    if t.key == x && Near(t, v, f) {
    } else if Repairable(t.left, x, v, f) && Near(t.right, v, f) {
      RepairableFrom(IntoLeft(c, t), t.left, x, v, f);
    } else {
      RepairableFrom(IntoRight(c, t), t.right, x, v, f);
    }
  }

  lemma {:induction false} InsertedFrom<K>(c: Ctx<K>, t: Tree<K>, x: K, v: map<K, int>, f: Combine<K>)
    requires Distinct(t) && Inserted(t, x, v, f) && NearCtx(c, v, f)
    ensures x in Keys(t)
    ensures var (d, u) := LocateFrom(c, t, x); Near(u.left, v, f) && Near(u.right, v, f) && NearCtx(d, v, f)
    decreases t
  {
    if t.key == x && Near(t.left, v, f) && Near(t.right, v, f) {
    } else if Inserted(t.left, x, v, f) && Near(t.right, v, f) {
      InsertedFrom(IntoLeft(c, t), t.left, x, v, f);
    } else {
      InsertedFrom(IntoRight(c, t), t.right, x, v, f);
    }
  }
}
