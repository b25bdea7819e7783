/**
 Removal as a function on trees: what rb_erase and __rb_erase_color do to the tree,
 and why the outcome is a red-black tree that has lost exactly one key.
 */
module RbErase {
  import opened Wrappers
  import opened RbShape

  // ------------------------------------------------------------- the double-black loop

  /** The subtree in focus is one black node short of what its context expects; a red
      root only has to be balanced once it is painted black. */
  predicate Short<K>(c: Ctx<K>, t: Tree<K>) {
    && Open(c, BlackHeight(t) + 1)
    && if IsRed(t) then Balanced(Painted(t, Black), BlackHeight(t) + 1) else Balanced(t, BlackHeight(t))
  }

  /** Red sibling: it turns black, the parent red, and the sibling rotates above the
      parent, which gives the focus a black sibling. */
  function Straightened<K>(c: Ctx<K>, t: Tree<K>): (r: Ctx<K>)
    requires !c.Top? && Sibling(c).Node?
    ensures !r.Top? && r.key == c.key && r.InLeft? == c.InLeft?
  {
    if !IsRed(Sibling(c)) then
      c
    else if c.InLeft? then
      var q := RotatedLeft(Node(t, c.key, Red, Painted(c.right, Black)));
      IntoLeft(IntoLeft(c.up, q), q.left)
    else
      var q := RotatedRight(Node(Painted(c.left, Black), c.key, Red, t));
      IntoRight(IntoRight(c.up, q), q.right)
  }

  predicate BlackNephews<K>(c: Ctx<K>)
    requires !c.Top?
  {
    var w := Sibling(c);
    w.Node? && !IsRed(w.left) && !IsRed(w.right)
  }

  /** Black sibling with black children: it turns red, and the shortage moves to the parent. */
  function Demoted<K>(c: Ctx<K>, t: Tree<K>): (r: Tree<K>)
    requires !c.Top?
  {
    if c.InLeft? then Node(t, c.key, c.color, Painted(c.right, Red))
    else Node(Painted(c.left, Red), c.key, c.color, t)
  }

  /** The sibling, rotated if necessary so that its outer child is red. */
  function OuterRed<K>(c: Ctx<K>): (r: Tree<K>)
    requires !c.Top? && Sibling(c).Node? && !BlackNephews(c)
    ensures r.Node? && Inorder(r) == Inorder(Sibling(c))
    ensures if c.InLeft? then r.right.Node? else r.left.Node?
  {
    var w := Sibling(c);
    if c.InLeft? then
      if !IsRed(w.right) then RotatedRight(Node(Painted(w.left, Black), w.key, Red, w.right)) else w
    else
      if !IsRed(w.left) then RotatedLeft(Node(w.left, w.key, Red, Painted(w.right, Black))) else w
  }

  /** Black sibling with a red child: one or two rotations supply the missing black node. */
  function Settled<K>(c: Ctx<K>, t: Tree<K>): (r: Tree<K>)
    requires !c.Top? && Sibling(c).Node? && !BlackNephews(c)
    ensures r.Node? && Inorder(r) == Inorder(Close(c, t))
  {
    var w := OuterRed(c);
    if c.InLeft? then
      var w' := Node(w.left, w.key, c.color, Painted(w.right, Black));
      assert Inorder(w') == Inorder(c.right);
      RotatedLeft(Node(t, c.key, Black, w'))
    else
      var w' := Node(Painted(w.left, Black), w.key, c.color, w.right);
      assert Inorder(w') == Inorder(c.left);
      RotatedRight(Node(w', c.key, Black, t))
  }

  lemma {:induction false} ShortSibling<K>(c: Ctx<K>, t: Tree<K>)
    requires Short(c, t) && !c.Top?
    ensures Sibling(c).Node? && Balanced(Sibling(c), BlackHeight(t) + 1)
    ensures c.color.Red? ==> !IsRed(Sibling(c))
    ensures Open(c.up, BlackHeight(t) + (if c.color.Black? then 2 else 1))
  {
  }

  lemma {:induction false} StraightenedOrder<K>(c: Ctx<K>, t: Tree<K>)
    requires !c.Top? && Sibling(c).Node?
    ensures Inorder(Plug(Straightened(c, t), t)) == Inorder(Plug(c, t))
  {
    if IsRed(Sibling(c)) {
      var d := Straightened(c, t);
      SameOrder(c.up, Close(c, t), Close(d.up, Close(d, t)));
    }
  }

  lemma {:induction false} StraightenedShort<K>(c: Ctx<K>, t: Tree<K>)
    requires Short(c, t) && !c.Top? && !IsRed(t)
    ensures Sibling(c).Node?
    ensures var d := Straightened(c, t);
      && Short(d, t) && Sibling(d).Node? && !IsRed(Sibling(d))
      && (IsRed(Sibling(c)) ==> d.color.Red?)
      && (!IsRed(Sibling(c)) ==> d == c)
  {
    ShortSibling(c, t);
    if IsRed(Sibling(c)) {
      var h := BlackHeight(t);
      var w := Sibling(c);
      assert Balanced(w.left, h + 1) && Balanced(w.right, h + 1) && Open(c.up, h + 2);
    }
  }

  lemma {:induction false} DemotedShort<K>(c: Ctx<K>, t: Tree<K>)
    requires Short(c, t) && !c.Top? && !IsRed(t) && !IsRed(Sibling(c)) && BlackNephews(c)
    ensures Short(c.up, Demoted(c, t)) && Inorder(Plug(c.up, Demoted(c, t))) == Inorder(Plug(c, t))
  {
    ShortSibling(c, t);
    var h := BlackHeight(t);
    var w := Sibling(c);
    assert Balanced(Painted(w, Red), h);
    assert Balanced(Painted(Demoted(c, t), Black), h + 1);
    BlackHeightUnique(Painted(Demoted(c, t), Black), h + 1);
    SameOrder(c.up, Close(c, t), Demoted(c, t));
  }

  lemma {:induction false} OuterRedBalanced<K>(c: Ctx<K>, h: nat)
    requires !c.Top? && Sibling(c).Node? && !IsRed(Sibling(c)) && !BlackNephews(c)
    requires Balanced(Sibling(c), h + 1)
    ensures var w := OuterRed(c); Balanced(w, h + 1) && !IsRed(w)
    ensures if c.InLeft? then IsRed(OuterRed(c).right) else IsRed(OuterRed(c).left)
  {
  }

  lemma {:induction false} SettledBalanced<K>(c: Ctx<K>, t: Tree<K>)
    requires Short(c, t) && !c.Top? && !IsRed(t) && Sibling(c).Node? && !IsRed(Sibling(c)) && !BlackNephews(c)
    ensures RedBlack(Plug(c.up, Settled(c, t))) && Inorder(Plug(c.up, Settled(c, t))) == Inorder(Plug(c, t))
  {
    ShortSibling(c, t);
    var h := BlackHeight(t);
    var h' := if c.color.Black? then h + 2 else h + 1;
    OuterRedBalanced(c, h);
    var w := OuterRed(c);
    var outer := if c.InLeft? then w.right else w.left;
    assert Balanced(Painted(outer, Black), h + 1);
    assert Balanced(Settled(c, t), h');
    PlugRedBlack(c.up, Settled(c, t), h');
    SameOrder(c.up, Close(c, t), Settled(c, t));
  }

  /** The tree that __rb_erase_color leaves behind. */
  ghost function Refilled<K>(c: Ctx<K>, t: Tree<K>): (r: Tree<K>)
    requires Short(c, t)
    ensures RedBlack(r) && Inorder(r) == Inorder(Plug(c, t))
    decreases if IsRed(t) then 0 else Depth(c) + 1
  {
    if IsRed(t) || c.Top? then
      RefilledEnd(c, t);
      Plug(c, Painted(t, Black))
    else
      StraightenedShort(c, t);
      StraightenedOrder(c, t);
      var d := Straightened(c, t);
      if BlackNephews(d) then
        DemotedShort(d, t);
        Refilled(d.up, Demoted(d, t))
      else
        SettledBalanced(d, t);
        Plug(d.up, Settled(d, t))
  }

  /** Where one iteration leads to; a settled shortage leaves the whole tree in focus. */
  function Step<K>(c: Ctx<K>, t: Tree<K>): (r: (Ctx<K>, Tree<K>))
    requires !c.Top? && Sibling(c).Node? && Sibling(Straightened(c, t)).Node?
  {
    var d := Straightened(c, t);
    if BlackNephews(d) then (d.up, Demoted(d, t)) else (Top, Plug(d.up, Settled(d, t)))
  }

  lemma {:induction false} StepRefilled<K>(c: Ctx<K>, t: Tree<K>)
    requires Short(c, t) && !c.Top? && !IsRed(t)
    ensures Sibling(c).Node? && Sibling(Straightened(c, t)).Node?
    ensures var (c', t') := Step(c, t);
      && Short(c', t') && Refilled(c', t') == Refilled(c, t)
      && (c'.Top? || IsRed(t') || Depth(c') < Depth(c))
  {
    StraightenedShort(c, t);
    var d := Straightened(c, t);
    if BlackNephews(d) {
      DemotedShort(d, t);
    } else {
      SettledBalanced(d, t);
    }
  }

  lemma {:induction false} RefilledEnd<K>(c: Ctx<K>, t: Tree<K>)
    requires Short(c, t) && (IsRed(t) || c.Top?)
    ensures RedBlack(Plug(c, Painted(t, Black))) && Inorder(Plug(c, Painted(t, Black))) == Inorder(Plug(c, t))
  {
    SameOrder(c, t, Painted(t, Black));
    if IsRed(t) {
      PlugRedBlack(c, Painted(t, Black), BlackHeight(t) + 1);
    }
  }

  // ------------------------------------------------------------- taking a node out

  lemma {:induction false} PaintedBalanced<K>(t: Tree<K>, h: nat)
    requires Balanced(t, h) && IsRed(t)
    ensures Balanced(Painted(t, Black), h + 1)
  {
  }

  lemma {:induction false} LeftmostSame<K>(c: Ctx<K>, c': Ctx<K>, t: Tree<K>)
    requires t.Node?
    ensures Leftmost(c, t).1 == Leftmost(c', t).1
    decreases t
  {
    if t.left.Node? {
      LeftmostSame(IntoLeft(c, t), IntoLeft(c', t), t.left);
    }
  }

  function WithoutMin<K>(t: Tree<K>): Tree<K>
    requires t.Node?
  {
    if t.left.Nil? then t.right else t.(left := WithoutMin(t.left))
  }

  lemma {:induction false} LeftmostRemoved<K>(c: Ctx<K>, t: Tree<K>)
    requires t.Node?
    ensures var (d, u) := Leftmost(c, t); Plug(d, u.right) == Plug(c, WithoutMin(t))
    decreases t
  {
    if t.left.Node? {
      LeftmostRemoved(IntoLeft(c, t), t.left);
    }
  }

  lemma {:induction false} LeftmostKeys<K>(c: Ctx<K>, t: Tree<K>)
    requires t.Node?
    ensures var (d, u) := Leftmost(c, t);
      && CtxKeys(c) <= CtxKeys(d) && Keys(u) <= Keys(t)
      && (t.left.Node? ==> t.key in CtxKeys(d))
    decreases t
  {
    if t.left.Node? {
      LeftmostKeys(IntoLeft(c, t), t.left);
    }
  }

  /** The way down ends in a left turn, unless it is empty. */
  lemma {:induction false} LeftmostTurn<K>(c: Ctx<K>, t: Tree<K>)
    requires t.Node?
    ensures if t.left.Nil? then Leftmost(c, t) == (c, t)
            else Leftmost(c, t).0.InLeft? && Leftmost(c, t).0.key in Keys(t)
    decreases t
  {
    if t.left.Node? {
      LeftmostTurn(IntoLeft(c, t), t.left);
    }
  }

  function Successor<K>(s: Tree<K>): Tree<K>
    requires s.Node? && s.right.Node?
  {
    Leftmost(Top, s.right).1
  }

  /** Takes the root out of `s`, which sits in `c`.  Its place is taken by its only
      child, or by its successor, whose own place is taken by its right child.  The
      result is the place where a node has disappeared, with the subtree now there,
      and the colour that has disappeared with it. */
  function Detached<K>(c: Ctx<K>, s: Tree<K>): (r: (Ctx<K>, Tree<K>, Color))
    requires s.Node?
  {
    if s.left.Nil? then (c, s.right, s.color)
    else if s.right.Nil? then (c, s.left, s.color)
    else
      var y := Successor(s);
      (Leftmost(InRight(s.left, y.key, s.color, c), s.right).0, y.right, y.color)
  }

  lemma {:induction false} DetachedOrder<K>(c: Ctx<K>, s: Tree<K>)
    requires s.Node?
    ensures var (d, u, _) := Detached(c, s);
      Inorder(Plug(d, u)) == (Before(c) + Inorder(s.left)) + (Inorder(s.right) + After(c))
  {
    var (d, u, _) := Detached(c, s);
    PlugInorder(d, u);
    if s.left.Node? && s.right.Node? {
      var y := Successor(s);
      var base := InRight(s.left, y.key, s.color, c);
      LeftmostOrder(base, s.right);
      LeftmostSame(base, Top, s.right);
      assert Inorder(s.right) + After(c) == [y.key] + Inorder(u) + After(d);
      Regroup(Before(c), Inorder(s.left), [y.key], Inorder(u), After(d));
    }
  }

  lemma {:induction false} OnlyChildBalanced<K>(s: Tree<K>, u: Tree<K>, h: nat)
    requires s.Node? && Balanced(s, h)
    requires (s.left.Nil? && u == s.right) || (s.right.Nil? && u == s.left)
    ensures if s.color.Black? then h > 0 && Balanced(u, h - 1) else Balanced(u, h) && !IsRed(u)
  {
  }

  lemma {:induction false} OnlyChildShort<K>(c: Ctx<K>, s: Tree<K>, u: Tree<K>)
    requires s.Node? && RedBlack(Plug(c, s))
    requires (s.left.Nil? && u == s.right) || (s.right.Nil? && u == s.left)
    ensures if s.color.Black? then Short(c, u) else RedBlack(Plug(c, u))
  {
    UnplugRedBlack(c, s);
    var h := BlackHeight(s);
    OnlyChildBalanced(s, u, h);
    if s.color.Black? {
      BlackHeightUnique(u, h - 1);
      if IsRed(u) { PaintedBalanced(u, h - 1); }
    } else {
      PlugRedBlack(c, u, h);
    }
  }

  lemma {:induction false} DetachedShort<K>(c: Ctx<K>, s: Tree<K>)
    requires s.Node? && RedBlack(Plug(c, s))
    ensures var (d, u, col) := Detached(c, s);
      if col.Black? then Short(d, u) else RedBlack(Plug(d, u))
  {
    if s.left.Node? && s.right.Node? {
      var y := Successor(s);
      var s' := s.(key := y.key);
      UnplugRedBlack(c, s);
      assert Balanced(s', BlackHeight(s));
      PlugRedBlack(c, s', BlackHeight(s));
      LeftmostSame(IntoRight(c, s'), Top, s.right);
      OnlyChildShort(Leftmost(IntoRight(c, s'), s.right).0, y, y.right);
    } else {
      OnlyChildShort(c, s, Detached(c, s).1);
    }
  }

  /** The tree that rb_erase leaves behind when it takes out the root of `s`. */
  ghost function Removed<K>(c: Ctx<K>, s: Tree<K>): (r: Tree<K>)
    requires s.Node? && RedBlack(Plug(c, s))
    ensures RedBlack(r)
    ensures Inorder(r) == (Before(c) + Inorder(s.left)) + (Inorder(s.right) + After(c))
  {
    DetachedShort(c, s);
    DetachedOrder(c, s);
    var (d, u, col) := Detached(c, s);
    if col.Black? then Refilled(d, u) else Plug(d, u)
  }

  ghost function Erased<K>(t: Tree<K>, k: K): (r: Tree<K>)
    requires RedBlack(t) && k in Keys(t)
    ensures RedBlack(r)
    ensures Inorder(t) == Front(t, k) + [k] + Back(t, k)
    ensures Inorder(r) == Front(t, k) + Back(t, k)
  {
    var (c, s) := Locate(t, k);
    PlugInorder(c, s);
    Regroup(Before(c), Inorder(s.left), [k], Inorder(s.right), After(c));
    Removed(c, s)
  }

  lemma {:induction false} SetWithout<T>(a: seq<T>, x: T, b: seq<T>)
    requires NoRepeats(a + [x] + b)
    ensures x !in a && x !in b
    ensures (set y | y in a + b) == (set y | y in a + [x] + b) - {x}
  {
    var s := a + [x] + b;
    assert s[|a|] == x;
    assert forall i :: 0 <= i < |a| ==> a[i] == s[i];
    assert forall i :: 0 <= i < |b| ==> b[i] == s[|a| + 1 + i];
  }

  lemma {:induction false} ErasedKeys<K>(t: Tree<K>, k: K)
    requires RedBlack(t) && k in Keys(t) && Distinct(t)
    ensures Keys(Erased(t, k)) == Keys(t) - {k}
  {
    InorderKeys(t);
    InorderKeys(Erased(t, k));
    DistinctNoRepeats(t);
    SetWithout(Front(t, k), k, Back(t, k));
  }
}
