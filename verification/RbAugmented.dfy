/**
 The rb_augment_* operations on linked nodes.  The callback that recomputes one
 node's value is any function of the node and of its children's values.
 */
module RbAugmented {
  import opened Wrappers
  import opened RbShape
  import opened RbMemory
  import opened RbTree
  import opened RbAugment
  import Ins = RbInsert
  import Del = RbErase

  ghost function Values(s: set<RbNode>): (v: map<RbNode, int>)
    reads s
    ensures v.Keys == s
  {
    map k | k in s :: k.aug
  }

  /** Every node's augmented value is what `f` says. */
  ghost predicate Augmented(root: RbRoot, f: Combine<RbNode>)
    reads root, Keys(root.tree)
  {
    Fresh(root.tree, Values(Keys(root.tree)), f)
  }

  function AugOf(n: RbNode?): Option<int>
    reads n
  {
    if n == null then None else Some(n.aug)
  }

  /** The callback, applied to `n`, which is in focus at the root of `t`. */
  method Recompute(root: RbRoot, n: RbNode, f: Combine<RbNode>,
                   ghost s: set<RbNode>, ghost c: Ctx<RbNode>, ghost t: Tree<RbNode>)
    requires root.On(s, c, n, t)
    modifies n`aug
    ensures t.Node? && t.key == n && Distinct(t) && n in s && Snap(s) == old(Snap(s))
    ensures Values(s) == old(Values(s))[n := f(n, Value(t.left, old(Values(s))), Value(t.right, old(Values(s))))]
  {
    ghost var v := Values(s);
    Down(Snap(s), root.node, c, n, t);
    Surroundings(Snap(s), root.node, IntoLeft(c, t), n.left, t.left);
    Surroundings(Snap(s), root.node, IntoRight(c, t), n.right, t.right);
    RepDistinct(Snap(s), n, Above(c), t);
    assert AugOf(n.left) == Value(t.left, v) && AugOf(n.right) == Value(t.right, v);
    n.aug := f(n, AugOf(n.left), AugOf(n.right));
    assert Values(s) == v[n := n.aug];
    assert Snap(s) == old(Snap(s));
  }

  /** Walks from `n0` to the root, recomputing every node on the way and its sibling. */
  method AugmentPath(root: RbRoot, n0: RbNode, f: Combine<RbNode>,
                     ghost c0: Ctx<RbNode>, ghost t0: Tree<RbNode>)
    requires root.On(Keys(root.tree), c0, n0, t0) && Plug(c0, t0) == root.tree
    requires var v := Values(Keys(root.tree)); Near(t0, v, f) && NearCtx(c0, v, f)
    modifies Keys(root.tree)`aug
    ensures Augmented(root, f) && Snap(Keys(root.tree)) == old(Snap(Keys(root.tree)))
  {
    ghost var s, c, t := Keys(root.tree), c0, t0;
    var n: RbNode := n0;
    while true
      invariant root.On(s, c, n, t) && Plug(c, t) == root.tree
      invariant Near(t, Values(s), f) && NearCtx(c, Values(s), f) && Snap(s) == old(Snap(s))
      decreases c
    {
      var parent := AugmentStep(root, n, f, s, c, t);
      if parent == null {
        return;
      }
      Up(Snap(s), root.node, c, n, t);
      c, t := c.up, Close(c, t);
      n := parent;
    }
  }

  method AugmentStep(root: RbRoot, n: RbNode, f: Combine<RbNode>,
                     ghost s: set<RbNode>, ghost c: Ctx<RbNode>, ghost t: Tree<RbNode>) returns (parent: RbNode?)
    requires root.On(s, c, n, t) && Near(t, Values(s), f) && NearCtx(c, Values(s), f)
    modifies s`aug
    ensures parent == Above(c) && Snap(s) == old(Snap(s))
    ensures if parent == null then Fresh(t, Values(s), f)
            else Near(Close(c, t), Values(s), f) && NearCtx(c.up, Values(s), f)
  {
    ghost var m, v := Snap(s), Values(s);
    Surroundings(m, root.node, c, n, t);
    Recompute(root, n, f, s, c, t);
    Recomputed(t, v, Values(s), f);
    NearCtxFrame(c, v, Values(s), f);
    parent := n.parent;
    if parent == null {
      return;
    }
    AugmentSibling(root, n, parent, f, s, c, t);
  }

  method AugmentSibling(root: RbRoot, n: RbNode, parent: RbNode, f: Combine<RbNode>,
                        ghost s: set<RbNode>, ghost c: Ctx<RbNode>, ghost t: Tree<RbNode>)
    requires root.On(s, c, n, t) && Fresh(t, Values(s), f) && NearCtx(c, Values(s), f) && parent == Above(c)
    modifies s`aug
    ensures Near(Close(c, t), Values(s), f) && NearCtx(c.up, Values(s), f) && Snap(s) == old(Snap(s))
  {
    ghost var m, v := Snap(s), Values(s);
    Surroundings(m, root.node, c, n, t);
    Sideways(m, root.node, c, n, t);
    ghost var d, r := Beside(c, t), Sibling(c);
    Surroundings(m, root.node, d, if c.InLeft? then parent.right else parent.left, r);
    if n == parent.left && parent.right != null {
      Recompute(root, parent.right, f, s, d, r);
      Recomputed(r, v, Values(s), f);
    } else if parent.left != null {
      ghost var (d', r') := if c.InLeft? then (c, t) else (d, r);   // an only child is recomputed once more
      Recompute(root, parent.left, f, s, d', r');
      Recomputed(r', v, Values(s), f);
    }
    if c.InRight? || r.Node? {
      FreshFrame(t, v, Values(s), f);
    }
    NearCtxFrame(c.up, v, Values(s), f);
  }

  // ------------------------------------------------------------- insertion

  /** To be called after `n` has been linked and the tree rebalanced. */
  method AugmentInsert(root: RbRoot, n: RbNode, f: Combine<RbNode>)
    requires root.Linked() && Inserted(root.tree, n, Values(Keys(root.tree)), f)
    modifies Keys(root.tree)`aug
    ensures Augmented(root, f) && root.Linked()
  {
    ghost var s := Keys(root.tree);
    ghost var m, v := Snap(s), Values(s);
    RepDistinct(m, root.node, null, root.tree);
    InsertedFrom(Top, root.tree, n, v, f);
    ghost var (c, t) := Locate(root.tree, n);
    ghost var n' := Focus(m, root.node, c, t);
    Surroundings(m, root.node, c, n', t);
    Down(m, root.node, c, n, t);
    Surroundings(m, root.node, IntoLeft(c, t), n.left, t.left);
    Surroundings(m, root.node, IntoRight(c, t), n.right, t.right);
    if n.left != null {
      AugmentPath(root, n.left, f, IntoLeft(c, t), t.left);
    } else if n.right != null {
      AugmentPath(root, n.right, f, IntoRight(c, t), t.right);
    } else {
      AugmentPath(root, n, f, c, t);
    }
  }

  method Rebalance(root: RbRoot, n: RbNode, f: Combine<RbNode>)
    requires root.Linked() && Ready(root.tree, n)
    requires var (c, t) := Locate(root.tree, n); Inserted(Ins.Fixed(c, t), n, Values(Keys(root.tree)), f)
    modifies root, Keys(root.tree)
    ensures root.Valid() && Augmented(root, f)
    ensures Keys(root.tree) == old(Keys(root.tree)) && Inorder(root.tree) == old(Inorder(root.tree))
  {
    ghost var t, v := root.tree, Values(Keys(root.tree));
    root.InsertColor(n);
    SameKeys(t, root.tree);
    assert Values(Keys(t)) == v;
    AugmentInsert(root, n, f);
  }

  method LinkAugmented(root: RbRoot, n: RbNode, parent: RbNode?, onLeft: bool, ghost f: Combine<RbNode>)
    requires root.Valid() && Augmented(root, f) && n !in Keys(root.tree)
    requires if parent == null then root.node == null
             else parent in Keys(root.tree) && null == if onLeft then parent.left else parent.right
    modifies root, n, Keys(root.tree)
    ensures root.Linked() && Ready(root.tree, n) && Keys(root.tree) == old(Keys(root.tree)) + {n}
    ensures Inorder(root.tree) == Placed(old(root.tree), n, parent, onLeft)
    ensures var (c, t) := Locate(root.tree, n); Inserted(Ins.Fixed(c, t), n, Values(Keys(root.tree)), f)
  {
    ghost var t0, v0 := root.tree, Values(Keys(root.tree));
    root.LinkNode(n, parent, onLeft);
    ghost var t1 := root.tree;
    LinkedGrown(t0, t1, Slot(t0, parent, onLeft), n, v0, Values(Keys(t1)), f);
  }

  /** Link, rebalance, recompute: an augmented red-black tree stays one. */
  method InsertAugmented(root: RbRoot, n: RbNode, parent: RbNode?, onLeft: bool, f: Combine<RbNode>)
    requires root.Valid() && Augmented(root, f) && n !in Keys(root.tree)
    requires if parent == null then root.node == null
             else parent in Keys(root.tree) && null == if onLeft then parent.left else parent.right
    modifies root, n, Keys(root.tree)
    ensures root.Valid() && Augmented(root, f)
    ensures Keys(root.tree) == old(Keys(root.tree)) + {n}
    ensures Inorder(root.tree) == Placed(old(root.tree), n, parent, onLeft)
  {
    LinkAugmented(root, n, parent, onLeft, f);
    Rebalance(root, n, f);
  }

  /** Hanging a leaf into a fresh tree leaves everything next to its path fresh. */
  lemma {:induction false} LinkedGrown(t0: Tree<RbNode>, t1: Tree<RbNode>, c: Ctx<RbNode>, n: RbNode,
                                       v0: map<RbNode, int>, v: map<RbNode, int>, f: Combine<RbNode>)
    requires t0 == Plug(c, Nil) && t1 == Plug(c, Node(Nil, n, Red, Nil)) && Ready(t1, n) && n !in Keys(t0)
    requires Fresh(t0, v0, f) && forall k :: k in Keys(t0) && k in v0 ==> k in v && v[k] == v0[k]
    requires Distinct(t1)
    ensures var (d, u) := Locate(t1, n); Inserted(Ins.Fixed(d, u), n, v, f)
  {
    var leaf := Node(Nil, n, Red, Nil);
    PlugKeys(c, Nil);
    PlugKeys(c, leaf);
    LocatePlugged(c, leaf, n);
    FreshFrame(t0, v0, v, f);
    FreshUnplug(c, Nil, v, f);
    FixedInserted(c, leaf, n, v, f);
  }

  // ------------------------------------------------------------- removal

  /** Before `n` is removed: the deepest node from which values will have to be recomputed. */
  method AugmentEraseBegin(root: RbRoot, n: RbNode) returns (deepest: RbNode?)
    requires root.Linked() && n in Keys(root.tree)
    ensures var (c, t) := Locate(root.tree, n);
      deepest == match Deepest(c, t) case None => null case Some(x) => x
  {
    ghost var s, m := Keys(root.tree), Snap(Keys(root.tree));
    ghost var (c, t) := Locate(root.tree, n);
    ghost var n' := Focus(m, root.node, c, t);
    Surroundings(m, root.node, c, n', t);
    Down(m, root.node, c, n, t);
    Surroundings(m, root.node, IntoLeft(c, t), n.left, t.left);
    Surroundings(m, root.node, IntoRight(c, t), n.right, t.right);
    if n.right == null && n.left == null {
      deepest := n.parent;
    } else if n.right == null {
      deepest := n.left;
    } else if n.left == null {
      deepest := n.right;
    } else {
      deepest := DeepestInner(root, n, s, c, t);
    }
  }

  method DeepestInner(root: RbRoot, n: RbNode, ghost s: set<RbNode>, ghost c: Ctx<RbNode>, ghost t: Tree<RbNode>)
    returns (deepest: RbNode?)
    requires root.Linked() && n in Keys(root.tree) && (c, t) == Locate(root.tree, n) && s == Keys(root.tree)
    requires root.On(s, c, n, t) && t.left.Node? && t.right.Node?
    ensures Deepest(c, t).Some? && deepest == Deepest(c, t).value
  {
    ghost var m := Snap(s);
    ghost var d, u := Leftmost(IntoRight(c, t), t.right).0, Leftmost(IntoRight(c, t), t.right).1;
    ghost var y := Focus(m, root.node, d, u);
    Surroundings(m, root.node, d, y, u);
    SuccessorReady(m, root.node, c, t, y);
    LeftmostOrder(IntoRight(c, t), t.right);
    NotOwnParent(m, root.node, root.tree, n);
    deepest := root.Next(n);
    assert deepest == y;
    Down(m, root.node, d, y, u);
    Surroundings(m, root.node, IntoRight(d, u), deepest.right, u.right);
    DetachedAbove(c, t);
    Del.LeftmostSame(IntoRight(c, t), Top, t.right);
    if deepest.right != null {
      deepest := deepest.right;
    } else if deepest.parent != n {
      deepest := deepest.parent;
    }
  }

  /** After the removal. */
  method AugmentEraseEnd(root: RbRoot, deepest: RbNode?, f: Combine<RbNode>)
    requires root.Linked()
    requires if deepest == null then root.tree.Nil? else Repairable(root.tree, deepest, Values(Keys(root.tree)), f)
    modifies Keys(root.tree)`aug
    ensures Augmented(root, f) && root.Linked()
  {
    if deepest != null {
      ghost var s := Keys(root.tree);
      ghost var m := Snap(s);
      RepDistinct(m, root.node, null, root.tree);
      RepairableFrom(Top, root.tree, deepest, Values(s), f);
      ghost var (c, t) := Locate(root.tree, deepest);
      ghost var n' := Focus(m, root.node, c, t);
      Surroundings(m, root.node, c, n', t);
      AugmentPath(root, deepest, f, c, t);
    }
  }

  /** Begin, erase, end: an augmented red-black tree stays one. */
  method EraseAugmented(root: RbRoot, n: RbNode, f: Combine<RbNode>)
    requires root.Valid() && Augmented(root, f) && n in Keys(root.tree)
    modifies root, Keys(root.tree)
    ensures root.Valid() && Augmented(root, f)
    ensures Inorder(old(root.tree)) == Front(old(root.tree), n) + [n] + Back(old(root.tree), n)
    ensures Inorder(root.tree) == Front(old(root.tree), n) + Back(old(root.tree), n)
  {
    ghost var t0 := root.tree;
    ghost var s0 := Keys(t0);
    ghost var v0 := Values(s0);
    ghost var (c, t) := Locate(t0, n);
    var deepest := AugmentEraseBegin(root, n);
    root.Erase(n);
    RemovedRepairable(c, t, v0, f);
    ghost var s := Keys(root.tree);
    if deepest != null {
      RepairableFrame(root.tree, deepest, v0, Values(s), f);
    }
    AugmentEraseEnd(root, deepest, f);
  }

  lemma {:induction false} RepairableFrame<K>(t: Tree<K>, x: K, v: map<K, int>, v': map<K, int>, f: Combine<K>)
    requires Repairable(t, x, v, f) && forall k :: k in Keys(t) && k in v ==> k in v' && v'[k] == v[k]
    ensures Repairable(t, x, v', f)
  {
    if Near(t.left, v, f) { NearFrame(t.left, v, v', f); }
    if Near(t.right, v, f) { NearFrame(t.right, v, v', f); }
    if Near(t, v, f) { NearFrame(t, v, v', f); }
    if Repairable(t.left, x, v, f) { RepairableFrame(t.left, x, v, v', f); }
    if Repairable(t.right, x, v, f) { RepairableFrame(t.right, x, v, v', f); }
  }

  lemma {:induction false} NearFrame<K>(t: Tree<K>, v: map<K, int>, v': map<K, int>, f: Combine<K>)
    requires Near(t, v, f) && forall k :: k in Keys(t) && k in v ==> k in v' && v'[k] == v[k]
    ensures Near(t, v', f)
  {
    if t.Node? {
      FreshFrame(t.left, v, v', f);
      FreshFrame(t.right, v, v', f);
    }
  }
}
