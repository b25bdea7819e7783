/**
 Insertion fix-up as a function on trees: what rb_insert_color does to the tree,
 one loop iteration at a time, and why the outcome is a red-black tree.
 */
module RbInsert {
  import opened RbShape

  /** One iteration, entered with a red parent that has a parent of its own. */
  function Step<K>(c: Ctx<K>, t: Tree<K>): (r: (Ctx<K>, Tree<K>))
    requires !c.Top? && !c.up.Top? && t.Node?
  {
    var g, p := c.up, Close(c, t);
    if IsRed(Sibling(g)) then
      (g.up, Recolored(g, p))
    else if g.InLeft? then
      var r := Lifted(c, t);
      (IntoLeft(g.up, r), r.left)
    else
      var r := Lifted(c, t);
      (IntoRight(g.up, r), r.right)
  }

  /** Red uncle: parent and uncle turn black, the grandparent red. */
  function Recolored<K>(g: Ctx<K>, p: Tree<K>): (r: Tree<K>)
    requires !g.Top? && p.Node? && Sibling(g).Node?
    ensures r.Node?
  {
    var u := Sibling(g).(color := Black);
    if g.InLeft? then Node(p.(color := Black), g.key, Red, u) else Node(u, g.key, Red, p.(color := Black))
  }

  /** Black uncle: the parent (or, for an inner child, the node) takes the grandparent's place. */
  function Lifted<K>(c: Ctx<K>, t: Tree<K>): (r: Tree<K>)
    requires !c.Top? && !c.up.Top? && t.Node?
    ensures r.Node? && r.left.Node? && r.right.Node?
  {
    var g, p := c.up, Close(c, t);
    if g.InLeft? then
      RotatedRight(Node(Outer(c, t), g.key, Red, g.right))
    else
      RotatedLeft(Node(g.left, g.key, Red, Outer(c, t)))
  }

  /** The parent's subtree after the first rotation, if one is needed, painted black. */
  function Outer<K>(c: Ctx<K>, t: Tree<K>): (r: Tree<K>)
    requires !c.Top? && !c.up.Top? && t.Node?
    ensures r.Node? && r.color.Black? && Inorder(r) == Inorder(Close(c, t))
    ensures if c.up.InLeft? then r.left.Node? else r.right.Node?
  {
    var p := Close(c, t);
    if c.up.InLeft? then
      (if c.InRight? then RotatedLeft(p) else p).(color := Black)
    else
      (if c.InLeft? then RotatedRight(p) else p).(color := Black)
  }

  /** `t` is a red subtree that is balanced and sits in an open context: the only
      thing that can be wrong is a red parent, or being the root. */
  predicate Pending<K>(c: Ctx<K>, t: Tree<K>) {
    IsRed(t) && Balanced(t, BlackHeight(t)) && Open(c, BlackHeight(t))
  }

  lemma {:induction false} StepOrder<K>(c: Ctx<K>, t: Tree<K>)
    requires !c.Top? && !c.up.Top? && t.Node?
    ensures var (c', t') := Step(c, t); Inorder(Plug(c', t')) == Inorder(Plug(c, t))
  {
    var g, p := c.up, Close(c, t);
    var q := Close(g, p);
    if IsRed(Sibling(g)) {
      SameOrder(g.up, Recolored(g, p), q);
    } else {
      SameOrder(g.up, Lifted(c, t), q);
    }
  }

  /** What a red parent with an open context above it looks like. */
  lemma {:induction false} RedParent<K>(c: Ctx<K>, h: nat)
    requires Open(c, h) && !c.Top? && c.color.Red?
    ensures !c.up.Top? && c.up.color.Black? && Open(c.up, h) && Open(c.up.up, h + 1)
    ensures Balanced(Sibling(c), h) && !IsRed(Sibling(c)) && Balanced(Sibling(c.up), h)
  {
  }

  lemma {:induction false} RecolorPending<K>(c: Ctx<K>, t: Tree<K>, h: nat)
    requires IsRed(t) && Balanced(t, h) && Open(c, h) && !c.Top? && c.color.Red?
    requires !c.up.Top? && IsRed(Sibling(c.up))
    ensures Balanced(Recolored(c.up, Close(c, t)), h + 1)
  {
    RedParent(c, h);
    assert Balanced(Sibling(c.up).(color := Black), h + 1);
    var p := Close(c, t);
    assert Balanced(p.(color := Black), h + 1);
  }

  lemma {:induction false} LiftPending<K>(c: Ctx<K>, t: Tree<K>, h: nat)
    requires IsRed(t) && Balanced(t, h) && Open(c, h) && !c.Top? && c.color.Red?
    requires !c.up.Top? && !IsRed(Sibling(c.up))
    ensures var r := Lifted(c, t); r.color.Black? && IsRed(r.left) && IsRed(r.right)
    ensures var r := Lifted(c, t); Balanced(r.left, h) && Balanced(r.right, h)
  {
    RedParent(c, h);
  }

  /** An iteration keeps the trouble confined to one red node, closer to the root;
      after a rotation there is no trouble left. */
  lemma {:induction false} StepPending<K>(c: Ctx<K>, t: Tree<K>)
    requires Pending(c, t) && !c.Top? && c.color.Red?
    ensures !c.up.Top? && c.up.color.Black?
    ensures var (c', t') := Step(c, t);
      && Pending(c', t') && Depth(c') < Depth(c)
      && (if IsRed(Sibling(c.up)) then Depth(c') == Depth(c) - 2 else BlackAbove(c'))
  {
    var h := BlackHeight(t);
    RedParent(c, h);
    if IsRed(Sibling(c.up)) {
      RecolorPending(c, t, h);
      BlackHeightUnique(Recolored(c.up, Close(c, t)), h + 1);
    } else {
      LiftPending(c, t, h);
      BlackHeightUnique(Step(c, t).1, h);
    }
  }

  /** The tree that rb_insert_color leaves behind. */
  ghost function Fixed<K>(c: Ctx<K>, t: Tree<K>): (r: Tree<K>)
    requires Pending(c, t)
    ensures RedBlack(r) && Inorder(r) == Inorder(Plug(c, t))
    decreases Depth(c)
  {
    if c.Top? then
      Painted(t, Black)
    else if c.color.Black? then
      PlugRedBlack(c, t, BlackHeight(t));
      Plug(c, t)
    else
      StepPending(c, t);
      StepOrder(c, t);
      var (c', t') := Step(c, t);
      Fixed(c', t')
  }

  lemma {:induction false} FixedStep<K>(c: Ctx<K>, t: Tree<K>)
    requires Pending(c, t) && !c.Top? && c.color.Red?
    ensures !c.up.Top?
    ensures var (c', t') := Step(c, t);
      Pending(c', t') && Depth(c') < Depth(c) && Fixed(c', t') == Fixed(c, t)
  {
    StepPending(c, t);
  }

  lemma {:induction false} FixedEnd<K>(c: Ctx<K>, t: Tree<K>)
    requires Pending(c, t) && (!c.Top? ==> c.color.Black?)
    ensures Plug(c, t).Node? && Fixed(c, t) == Plug(c, t).(color := Black)
  {
    PlugKeys(c, t);
  }
}
