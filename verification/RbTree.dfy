/**
 The intrusive red-black tree of lib/rbtree.c: linked nodes with parent pointers,
 changed in place.  The ghost field `tree` of a root is the value of type
 `RbShape.Tree` that the linked nodes currently spell out.
 */
module RbTree {
  import opened RbShape
  import opened RbMemory
  import Ins = RbInsert
  import Del = RbErase

  class RbRoot {
    var node: RbNode?
    ghost var tree: Tree<RbNode>

    ghost predicate Linked()
      reads this, Keys(tree)
    {
      Rep(Snap(Keys(tree)), node, null, tree)
    }

    ghost predicate Valid()
      reads this, Keys(tree)
    {
      Linked() && RedBlack(tree)
    }

    /** Among the nodes `s`, `n` is in focus at the root of `t` inside `c`. */
    ghost predicate On(s: set<RbNode>, c: Ctx<RbNode>, n: RbNode?, t: Tree<RbNode>)
      reads this, s
    {
      At(Snap(s), node, c, n, t)
    }

    // ----------------------------------------------------- primitive steps

    method SetColor(n: RbNode, col: Color, ghost s: set<RbNode>, ghost c: Ctx<RbNode>, ghost t: Tree<RbNode>)
      requires On(s, c, n, t)
      modifies n`color
      ensures t.Node? && On(s, c, n, t.(color := col))
    {
      ghost var m := Snap(s);
      Down(m, node, c, n, t);
      n.color := col;
      assert Snap(s) == m[n := m[n].(color := col)];
      Repainted(m, Snap(s), node, c, n, t, col);
    }

    method TurnLeft(n: RbNode, ghost s: set<RbNode>)
      requires TurnsLeft(Snap(s), n)
      modifies this`node, s`left, s`right, s`parent
      ensures TurnedLeft(old(Snap(s)), Snap(s), old(node), node, n)
    {
      var right := n.right;
      var parent := n.parent;
      n.right := right.left;
      if n.right != null {
        right.left.parent := n;
      }
      right.left := n;
      right.parent := parent;
      if parent != null {
        if n == parent.left {
          parent.left := right;
        } else {
          parent.right := right;
        }
      } else {
        node := right;
      }
      n.parent := right;
    }

    method TurnRight(n: RbNode, ghost s: set<RbNode>)
      requires TurnsLeft(FlipMem(Snap(s)), n)
      modifies this`node, s`left, s`right, s`parent
      ensures TurnedLeft(old(FlipMem(Snap(s))), FlipMem(Snap(s)), old(node), node, n)
    {
      var left := n.left;
      var parent := n.parent;
      n.left := left.right;
      if n.left != null {
        left.right.parent := n;
      }
      left.right := n;
      left.parent := parent;
      if parent != null {
        if n == parent.right {
          parent.right := left;
        } else {
          parent.left := left;
        }
      } else {
        node := left;
      }
      n.parent := left;
    }

    method RotateLeft(n: RbNode, ghost s: set<RbNode>, ghost c: Ctx<RbNode>, ghost t: Tree<RbNode>)
      requires On(s, c, n, t) && t.Node? && t.right.Node?
      modifies this`node, s`left, s`right, s`parent
      ensures On(s, c, t.right.key, RotatedLeft(t))
    {
      ghost var m, root := Snap(s), node;
      Down(m, root, c, n, t);
      RotationReady(m, root, c, t);
      TurnLeft(n, s);
      LeftRotation(m, Snap(s), root, node, c, t);
    }

    method RotateRight(n: RbNode, ghost s: set<RbNode>, ghost c: Ctx<RbNode>, ghost t: Tree<RbNode>)
      requires On(s, c, n, t) && t.Node? && t.left.Node?
      modifies this`node, s`left, s`right, s`parent
      ensures On(s, c, t.left.key, RotatedRight(t))
    {
      ghost var m, root := Snap(s), node;
      Down(m, root, c, n, t);
      RightReady(m, root, c, t);
      TurnRight(n, s);
      RightRotation(m, Snap(s), root, node, c, t);
    }

    // ----------------------------------------------------- insertion

    method RecolorUncle(n: RbNode, parent: RbNode, gparent: RbNode, uncle: RbNode,
                        ghost s: set<RbNode>, ghost c: Ctx<RbNode>, ghost t: Tree<RbNode>)
      requires On(s, c, n, t) && !c.Top? && !c.up.Top? && IsRed(Sibling(c.up))
      requires parent == c.key && gparent == c.up.key && uncle == Sibling(c.up).key
      modifies s`color
      ensures t.Node? && On(s, c.up.up, gparent, Ins.Recolored(c.up, Close(c, t)))
    {
      ghost var g, p := c.up, Close(c, t);
      Up(Snap(s), node, c, n, t);
      Sideways(Snap(s), node, g, parent, p);
      SetColor(uncle, Black, s, Beside(g, p), Sibling(g));
      g := Beside(Beside(g, p), Sibling(g).(color := Black));
      Sideways(Snap(s), node, Beside(c.up, p), uncle, Sibling(c.up).(color := Black));
      SetColor(parent, Black, s, g, p);
      p := p.(color := Black);
      Up(Snap(s), node, g, parent, p);
      SetColor(gparent, Red, s, g.up, Close(g, p));
    }

    method LiftLeft(n: RbNode, parent: RbNode, gparent: RbNode,
                    ghost s: set<RbNode>, ghost c: Ctx<RbNode>, ghost t: Tree<RbNode>) returns (n': RbNode)
      requires On(s, c, n, t) && t.Node? && !c.Top? && c.up.InLeft? && !IsRed(Sibling(c.up))
      requires parent == c.key && gparent == c.up.key
      modifies this`node, s`left, s`right, s`parent, s`color
      ensures var (c', t') := Ins.Step(c, t); On(s, c', n', t')
    {
      ghost var g, p := c.up, Close(c, t);
      Surroundings(Snap(s), node, c, n, t);
      Up(Snap(s), node, c, n, t);
      var parent' := parent;
      n' := n;
      if parent.right == n {
        RotateLeft(parent, s, g, p);
        p := RotatedLeft(p);
        parent', n' := n, parent;
      }
      SetColor(parent', Black, s, g, p);
      p := p.(color := Black);
      Up(Snap(s), node, g, parent', p);
      SetColor(gparent, Red, s, g.up, Close(g, p));
      ghost var q := Close(g, p).(color := Red);
      RotateRight(gparent, s, g.up, q);
      Down(Snap(s), node, g.up, parent', RotatedRight(q));
    }

    method LiftRight(n: RbNode, parent: RbNode, gparent: RbNode,
                    ghost s: set<RbNode>, ghost c: Ctx<RbNode>, ghost t: Tree<RbNode>) returns (n': RbNode)
      requires On(s, c, n, t) && t.Node? && !c.Top? && c.up.InRight? && !IsRed(Sibling(c.up))
      requires parent == c.key && gparent == c.up.key
      modifies this`node, s`left, s`right, s`parent, s`color
      ensures var (c', t') := Ins.Step(c, t); On(s, c', n', t')
    {
      ghost var g, p := c.up, Close(c, t);
      Surroundings(Snap(s), node, c, n, t);
      Up(Snap(s), node, c, n, t);
      var parent' := parent;
      n' := n;
      if parent.left == n {
        RotateRight(parent, s, g, p);
        p := RotatedRight(p);
        parent', n' := n, parent;
      }
      SetColor(parent', Black, s, g, p);
      p := p.(color := Black);
      Up(Snap(s), node, g, parent', p);
      SetColor(gparent, Red, s, g.up, Close(g, p));
      ghost var q := Close(g, p).(color := Red);
      RotateLeft(gparent, s, g.up, q);
      Down(Snap(s), node, g.up, parent', RotatedLeft(q));
    }

    /** One iteration of the insertion loop. */
    method InsertStep(n: RbNode, parent: RbNode, ghost s: set<RbNode>, ghost c: Ctx<RbNode>, ghost t: Tree<RbNode>)
      returns (n': RbNode)
      requires On(s, c, n, t) && Ins.Pending(c, t) && !c.Top? && c.color.Red? && parent == c.key
      modifies this`node, s`left, s`right, s`parent, s`color
      ensures !c.up.Top? && On(s, Ins.Step(c, t).0, n', Ins.Step(c, t).1)
    {
      Ins.StepPending(c, t);
      ghost var p := Close(c, t);
      Up(Snap(s), node, c, n, t);
      Surroundings(Snap(s), node, c.up, parent, p);
      Sideways(Snap(s), node, c.up, parent, p);
      var gparent := parent.parent;
      var uncle := if parent == gparent.left then gparent.right else gparent.left;
      Surroundings(Snap(s), node, Beside(c.up, p), uncle, Sibling(c.up));
      if uncle != null && uncle.color.Red? {
        RecolorUncle(n, parent, gparent, uncle, s, c, t);
        n' := gparent;
      } else if parent == gparent.left {
        n' := LiftLeft(n, parent, gparent, s, c, t);
      } else {
        n' := LiftRight(n, parent, gparent, s, c, t);
      }
    }

    /** Rebalances after `LinkNode` has hung the red leaf `n0` into the tree. */
    method InsertColor(n0: RbNode)
      requires Linked() && Ready(tree, n0)
      modifies this, Keys(tree)`left, Keys(tree)`right, Keys(tree)`parent, Keys(tree)`color
      ensures Valid()
      ensures tree == Ins.Fixed(Locate(old(tree), n0).0, Locate(old(tree), n0).1)
      ensures Inorder(tree) == Inorder(old(tree))
    {
      ghost var s := Keys(tree);
      ghost var c, t := Locate(tree, n0).0, Locate(tree, n0).1;
      ghost var goal := Ins.Fixed(c, t);
      ghost var n1 := Focus(Snap(s), node, c, t);
      Surroundings(Snap(s), node, c, n1, t);
      var n := n0;
      var parent := n.parent;
      while parent != null && parent.color.Red?
        invariant On(s, c, n, t) && Ins.Pending(c, t) && Ins.Fixed(c, t) == goal
        invariant tree == old(tree)
        invariant parent == Above(c) && (parent != null ==> parent in s && parent.color == c.color)
        decreases Depth(c)
      {
        Ins.FixedStep(c, t);
        n := InsertStep(n, parent, s, c, t);
        c, t := Ins.Step(c, t).0, Ins.Step(c, t).1;
        Surroundings(Snap(s), node, c, n, t);
        parent := n.parent;
      }
      FinishInsert(n, s, c, t);
    }

    /** The last statement of rb_insert_color: the root becomes black. */
    method FinishInsert(ghost n: RbNode, ghost s: set<RbNode>, ghost c: Ctx<RbNode>, ghost t: Tree<RbNode>)
      requires On(s, c, n, t) && Ins.Pending(c, t) && (!c.Top? ==> c.color.Black?)
      requires Inorder(Ins.Fixed(c, t)) == Inorder(tree) && s == Keys(tree)
      modifies this, s`color
      ensures tree == Ins.Fixed(c, t) && Linked()
    {
      Unfocus(Snap(s), node, c, n, t);
      Ins.FixedEnd(c, t);
      SameKeys(tree, Ins.Fixed(c, t));
      SetColor(node, Black, s, Top, Plug(c, t));
      tree := Ins.Fixed(c, t);
    }

    // ----------------------------------------------------- removal: the double-black loop

    /** Red sibling on the right. */
    method StraightenLeft(ghost n: RbNode?, parent: RbNode, other: RbNode,
                          ghost s: set<RbNode>, ghost c: Ctx<RbNode>, ghost t: Tree<RbNode>)
      requires On(s, c, n, t) && c.InLeft? && IsRed(Sibling(c)) && parent == c.key && other == Sibling(c).key
      modifies this`node, s`left, s`right, s`parent, s`color
      ensures On(s, Del.Straightened(c, t), n, t)
    {
      ghost var w := Painted(Sibling(c), Black);
      Sideways(Snap(s), node, c, n, t);
      SetColor(other, Black, s, Beside(c, t), Sibling(c));
      Up(Snap(s), node, Beside(c, t), other, w);
      ghost var q := Close(Beside(c, t), w);
      SetColor(parent, Red, s, c.up, q);
      q := q.(color := Red);
      RotateLeft(parent, s, c.up, q);
      q := RotatedLeft(q);
      Down(Snap(s), node, c.up, other, q);
      Down(Snap(s), node, IntoLeft(c.up, q), parent, q.left);
      Surroundings(Snap(s), node, IntoLeft(IntoLeft(c.up, q), q.left), parent.left, t);
      Surroundings(old(Snap(s)), old(node), c, n, t);
    }

    /** Black sibling on the right whose outer child is not red: turn its inner child outwards. */
    method TurnOutLeft(ghost n: RbNode?, other: RbNode,
                       ghost s: set<RbNode>, ghost c: Ctx<RbNode>, ghost t: Tree<RbNode>)
      requires On(s, c, n, t) && c.InLeft? && Sibling(c).Node? && other == Sibling(c).key
      requires !Del.BlackNephews(c) && !IsRed(Sibling(c).right)
      modifies this`node, s`left, s`right, s`parent, s`color
      ensures On(s, Beside(c, t), Del.OuterRed(c).key, Del.OuterRed(c))
    {
      ghost var cw, w := Beside(c, t), Sibling(c);
      Sideways(Snap(s), node, c, n, t);
      Down(Snap(s), node, cw, other, w);
      Surroundings(Snap(s), node, IntoLeft(cw, w), other.left, w.left);
      SetColor(other.left, Black, s, IntoLeft(cw, w), w.left);
      Up(Snap(s), node, IntoLeft(cw, w), other.left, w.left.(color := Black));
      w := w.(left := w.left.(color := Black));
      SetColor(other, Red, s, cw, w);
      RotateRight(other, s, cw, w.(color := Red));
    }

    /** Black sibling on the right whose outer child is red. */
    method SettleLeft(parent: RbNode, other: RbNode,
                      ghost s: set<RbNode>, ghost c: Ctx<RbNode>, ghost t: Tree<RbNode>, ghost w0: Tree<RbNode>)
      requires c.InLeft? && On(s, Beside(c, t), other, w0) && w0.Node? && w0.right.Node? && parent == c.key
      modifies this`node, s`left, s`right, s`parent, s`color
      ensures On(s, c.up, other, RotatedLeft(Node(t, c.key, Black,
                Node(w0.left, w0.key, c.color, Painted(w0.right, Black)))))
    {
      ghost var cw, w := Beside(c, t), w0;
      Surroundings(Snap(s), node, cw, other, w);
      SetColor(other, parent.color, s, cw, w);
      w := w.(color := c.color);
      Up(Snap(s), node, cw, other, w);
      ghost var q := Close(cw, w);
      SetColor(parent, Black, s, c.up, q);
      q := q.(color := Black);
      Down(Snap(s), node, c.up, parent, q);
      cw := IntoRight(c.up, q);
      Down(Snap(s), node, cw, other, w);
      Surroundings(Snap(s), node, IntoRight(cw, w), other.right, w.right);
      SetColor(other.right, Black, s, IntoRight(cw, w), w.right);
      w := w.(right := w.right.(color := Black));
      Up(Snap(s), node, IntoRight(cw, w), other.right, w.right);
      Up(Snap(s), node, cw, other, w);
      RotateLeft(parent, s, c.up, Close(cw, w));
    }

    /** Red sibling on the left. */
    method StraightenRight(ghost n: RbNode?, parent: RbNode, other: RbNode,
                          ghost s: set<RbNode>, ghost c: Ctx<RbNode>, ghost t: Tree<RbNode>)
      requires On(s, c, n, t) && c.InRight? && IsRed(Sibling(c)) && parent == c.key && other == Sibling(c).key
      modifies this`node, s`left, s`right, s`parent, s`color
      ensures On(s, Del.Straightened(c, t), n, t)
    {
      ghost var w := Painted(Sibling(c), Black);
      Sideways(Snap(s), node, c, n, t);
      SetColor(other, Black, s, Beside(c, t), Sibling(c));
      Up(Snap(s), node, Beside(c, t), other, w);
      ghost var q := Close(Beside(c, t), w);
      SetColor(parent, Red, s, c.up, q);
      q := q.(color := Red);
      RotateRight(parent, s, c.up, q);
      q := RotatedRight(q);
      Down(Snap(s), node, c.up, other, q);
      Down(Snap(s), node, IntoRight(c.up, q), parent, q.right);
      Surroundings(Snap(s), node, IntoRight(IntoRight(c.up, q), q.right), parent.right, t);
      Surroundings(old(Snap(s)), old(node), c, n, t);
    }

    /** Black sibling on the left whose outer child is not red: turn its inner child outwards. */
    method TurnOutRight(ghost n: RbNode?, other: RbNode,
                       ghost s: set<RbNode>, ghost c: Ctx<RbNode>, ghost t: Tree<RbNode>)
      requires On(s, c, n, t) && c.InRight? && Sibling(c).Node? && other == Sibling(c).key
      requires !Del.BlackNephews(c) && !IsRed(Sibling(c).left)
      modifies this`node, s`left, s`right, s`parent, s`color
      ensures On(s, Beside(c, t), Del.OuterRed(c).key, Del.OuterRed(c))
    {
      ghost var cw, w := Beside(c, t), Sibling(c);
      Sideways(Snap(s), node, c, n, t);
      Down(Snap(s), node, cw, other, w);
      Surroundings(Snap(s), node, IntoRight(cw, w), other.right, w.right);
      SetColor(other.right, Black, s, IntoRight(cw, w), w.right);
      Up(Snap(s), node, IntoRight(cw, w), other.right, w.right.(color := Black));
      w := w.(right := w.right.(color := Black));
      SetColor(other, Red, s, cw, w);
      RotateLeft(other, s, cw, w.(color := Red));
    }

    /** Black sibling on the left whose outer child is red. */
    method SettleRight(parent: RbNode, other: RbNode,
                      ghost s: set<RbNode>, ghost c: Ctx<RbNode>, ghost t: Tree<RbNode>, ghost w0: Tree<RbNode>)
      requires c.InRight? && On(s, Beside(c, t), other, w0) && w0.Node? && w0.left.Node? && parent == c.key
      modifies this`node, s`left, s`right, s`parent, s`color
      ensures On(s, c.up, other, RotatedRight(Node(Node(Painted(w0.left, Black), w0.key, c.color, w0.right),
                c.key, Black, t)))
    {
      ghost var cw, w := Beside(c, t), w0;
      Surroundings(Snap(s), node, cw, other, w);
      SetColor(other, parent.color, s, cw, w);
      w := w.(color := c.color);
      Up(Snap(s), node, cw, other, w);
      ghost var q := Close(cw, w);
      SetColor(parent, Black, s, c.up, q);
      q := q.(color := Black);
      Down(Snap(s), node, c.up, parent, q);
      cw := IntoLeft(c.up, q);
      Down(Snap(s), node, cw, other, w);
      Surroundings(Snap(s), node, IntoLeft(cw, w), other.left, w.left);
      SetColor(other.left, Black, s, IntoLeft(cw, w), w.left);
      w := w.(left := w.left.(color := Black));
      Up(Snap(s), node, IntoLeft(cw, w), other.left, w.left);
      Up(Snap(s), node, cw, other, w);
      RotateRight(parent, s, c.up, Close(cw, w));
    }

    /** Black sibling with a red child. */
    method SettleFullyLeft(ghost n: RbNode?, parent: RbNode, other: RbNode,
                         ghost s: set<RbNode>, ghost c: Ctx<RbNode>, ghost t: Tree<RbNode>)
      requires On(s, c, n, t) && c.InLeft? && Sibling(c).Node? && parent == c.key && other == Sibling(c).key
      requires !Del.BlackNephews(c)
      modifies this`node, s`left, s`right, s`parent, s`color
      ensures On(s, c.up, Del.Settled(c, t).key, Del.Settled(c, t))
    {
      ghost var cw, w := Beside(c, t), Sibling(c);
      Sideways(Snap(s), node, c, n, t);
      Down(Snap(s), node, cw, other, w);
      Surroundings(Snap(s), node, IntoRight(cw, w), other.right, w.right);
      var other' := other;
      if other.right == null || other.right.color.Black? {
        TurnOutLeft(n, other, s, c, t);
        Surroundings(Snap(s), node, cw, Del.OuterRed(c).key, Del.OuterRed(c));
        other' := parent.right;
      }
      SettleLeft(parent, other', s, c, t, Del.OuterRed(c));
    }

    /** The sibling on the right is black: it turns red, or the shortage is settled. */
    method BalanceLeft(ghost n: RbNode?, parent: RbNode,
                       ghost s: set<RbNode>, ghost c: Ctx<RbNode>, ghost t: Tree<RbNode>) returns (settled: bool)
      requires On(s, c, n, t) && c.InLeft? && Sibling(c).Node? && parent == c.key
      modifies this`node, s`left, s`right, s`parent, s`color
      ensures Advanced(s, c, t, settled)
    {
      Sideways(Snap(s), node, c, n, t);
      var other := parent.right;
      ghost var cw, w := Beside(c, t), Sibling(c);
      Down(Snap(s), node, cw, other, w);
      Surroundings(Snap(s), node, IntoLeft(cw, w), other.left, w.left);
      Surroundings(Snap(s), node, IntoRight(cw, w), other.right, w.right);
      if (other.left == null || other.left.color.Black?) && (other.right == null || other.right.color.Black?) {
        SetColor(other, Red, s, cw, w);
        Up(Snap(s), node, cw, other, w.(color := Red));
        settled := false;
      } else {
        SettleFullyLeft(n, parent, other, s, c, t);
        settled := true;
      }
    }

    /** One iteration of the double-black loop, with the short side on the left. */
    method EraseStepLeft(ghost n: RbNode?, parent: RbNode,
                         ghost s: set<RbNode>, ghost c: Ctx<RbNode>, ghost t: Tree<RbNode>) returns (settled: bool)
      requires On(s, c, n, t) && c.InLeft? && Sibling(c).Node? && parent == c.key
      requires Sibling(Del.Straightened(c, t)).Node?
      modifies this`node, s`left, s`right, s`parent, s`color
      ensures Advanced(s, Del.Straightened(c, t), t, settled)
    {
      Sideways(Snap(s), node, c, n, t);
      var other := parent.right;
      Surroundings(Snap(s), node, Beside(c, t), other, Sibling(c));
      if other.color.Red? {
        StraightenLeft(n, parent, other, s, c, t);
      }
      settled := BalanceLeft(n, parent, s, Del.Straightened(c, t), t);
    }

    /** Black sibling with a red child. */
    method SettleFullyRight(ghost n: RbNode?, parent: RbNode, other: RbNode,
                         ghost s: set<RbNode>, ghost c: Ctx<RbNode>, ghost t: Tree<RbNode>)
      requires On(s, c, n, t) && c.InRight? && Sibling(c).Node? && parent == c.key && other == Sibling(c).key
      requires !Del.BlackNephews(c)
      modifies this`node, s`left, s`right, s`parent, s`color
      ensures On(s, c.up, Del.Settled(c, t).key, Del.Settled(c, t))
    {
      ghost var cw, w := Beside(c, t), Sibling(c);
      Sideways(Snap(s), node, c, n, t);
      Down(Snap(s), node, cw, other, w);
      Surroundings(Snap(s), node, IntoLeft(cw, w), other.left, w.left);
      var other' := other;
      if other.left == null || other.left.color.Black? {
        TurnOutRight(n, other, s, c, t);
        Surroundings(Snap(s), node, cw, Del.OuterRed(c).key, Del.OuterRed(c));
        other' := parent.left;
      }
      SettleRight(parent, other', s, c, t, Del.OuterRed(c));
    }

    /** The sibling on the left is black: it turns red, or the shortage is settled. */
    method BalanceRight(ghost n: RbNode?, parent: RbNode,
                       ghost s: set<RbNode>, ghost c: Ctx<RbNode>, ghost t: Tree<RbNode>) returns (settled: bool)
      requires On(s, c, n, t) && c.InRight? && Sibling(c).Node? && parent == c.key
      modifies this`node, s`left, s`right, s`parent, s`color
      ensures Advanced(s, c, t, settled)
    {
      Sideways(Snap(s), node, c, n, t);
      var other := parent.left;
      ghost var cw, w := Beside(c, t), Sibling(c);
      Down(Snap(s), node, cw, other, w);
      Surroundings(Snap(s), node, IntoRight(cw, w), other.right, w.right);
      Surroundings(Snap(s), node, IntoLeft(cw, w), other.left, w.left);
      if (other.left == null || other.left.color.Black?) && (other.right == null || other.right.color.Black?) {
        SetColor(other, Red, s, cw, w);
        Up(Snap(s), node, cw, other, w.(color := Red));
        settled := false;
      } else {
        SettleFullyRight(n, parent, other, s, c, t);
        settled := true;
      }
    }

    /** One iteration of the double-black loop, with the short side on the right. */
    method EraseStepRight(ghost n: RbNode?, parent: RbNode,
                         ghost s: set<RbNode>, ghost c: Ctx<RbNode>, ghost t: Tree<RbNode>) returns (settled: bool)
      requires On(s, c, n, t) && c.InRight? && Sibling(c).Node? && parent == c.key
      requires Sibling(Del.Straightened(c, t)).Node?
      modifies this`node, s`left, s`right, s`parent, s`color
      ensures Advanced(s, Del.Straightened(c, t), t, settled)
    {
      Sideways(Snap(s), node, c, n, t);
      var other := parent.left;
      Surroundings(Snap(s), node, Beside(c, t), other, Sibling(c));
      if other.color.Red? {
        StraightenRight(n, parent, other, s, c, t);
      }
      settled := BalanceRight(n, parent, s, Del.Straightened(c, t), t);
    }

    /** The outcome of an iteration whose focus has a black sibling. */
    ghost predicate Advanced(s: set<RbNode>, c: Ctx<RbNode>, t: Tree<RbNode>, settled: bool)
      requires !c.Top? && Sibling(c).Node?
      reads this, s
    {
      && settled == !Del.BlackNephews(c)
      && if settled then On(s, c.up, Del.Settled(c, t).key, Del.Settled(c, t))
         else On(s, c.up, c.key, Del.Demoted(c, t))
    }

    /** One iteration of the double-black loop. */
    method EraseStep(n: RbNode?, parent: RbNode,
                     ghost s: set<RbNode>, ghost c: Ctx<RbNode>, ghost t: Tree<RbNode>) returns (settled: bool)
      requires On(s, c, n, t) && !c.Top? && Sibling(c).Node? && parent == c.key
      requires Sibling(Del.Straightened(c, t)).Node?
      modifies this`node, s`left, s`right, s`parent, s`color
      ensures var (c', t') := Del.Step(c, t);
        On(s, c', if settled then node else parent, t') && (settled ==> c'.Top?)
    {
      ghost var d := Del.Straightened(c, t);
      Sides(Snap(s), node, c, n, t);
      if parent.left == n {
        settled := EraseStepLeft(n, parent, s, c, t);
      } else {
        settled := EraseStepRight(n, parent, s, c, t);
      }
      if settled {
        Unfocus(Snap(s), node, d.up, Del.Settled(d, t).key, Del.Settled(d, t));
      }
    }

    /** Restores the black height of a place that has lost a black node. */
    method EraseColor(n0: RbNode?, parent0: RbNode?,
                      ghost s: set<RbNode>, ghost c0: Ctx<RbNode>, ghost t0: Tree<RbNode>)
      requires On(s, c0, n0, t0) && Del.Short(c0, t0) && parent0 == Above(c0)
      modifies this`node, s`left, s`right, s`parent, s`color
      ensures Rep(Snap(s), node, null, Del.Refilled(c0, t0))
    {
      ghost var c, t := c0, t0;
      var n, parent := n0, parent0;
      while (n == null || n.color.Black?) && n != node
        invariant On(s, c, n, t) && Del.Short(c, t) && Del.Refilled(c, t) == Del.Refilled(c0, t0)
        invariant parent == Above(c)
        decreases if IsRed(t) then 0 else Depth(c) + 1
      {
        Surroundings(Snap(s), node, c, n, t);
        Del.StepRefilled(c, t);
        var settled := EraseStep(n, parent, s, c, t);
        c, t := Del.Step(c, t).0, Del.Step(c, t).1;
        if settled {
          n := node;
          break;
        }
        n := parent;
        Surroundings(Snap(s), node, c, n, t);
        parent := n.parent;
      }
      FinishErase(n, s, c, t);
    }

    /** The last statement of __rb_erase_color. */
    method FinishErase(n: RbNode?, ghost s: set<RbNode>, ghost c: Ctx<RbNode>, ghost t: Tree<RbNode>)
      requires On(s, c, n, t) && Del.Short(c, t)
      requires (n == null || n.color.Black?) ==> n == node
      modifies s`color
      ensures Rep(Snap(s), node, null, Del.Refilled(c, t))
    {
      Surroundings(Snap(s), node, c, n, t);
      if !c.Top? {
        RootAbove(Snap(s), node, c, n);
      }
      if n != null {
        SetColor(n, Black, s, c, t);
      }
      Unfocus(Snap(s), node, c, n, Painted(t, Black));
    }

    // ----------------------------------------------------- removal: taking the node out

    method BypassNode(n: RbNode, child: RbNode?, ghost s: set<RbNode>)
      requires n in s && child != n && (child != null ==> child in s)
      requires n.parent != null ==> && n.parent in s && n.parent != n && n.parent != child
                                    && (n.parent.left == n) != (n.parent.right == n)
      modifies this`node, s`left, s`right, s`parent
      ensures Bypassed(old(Snap(s)), Snap(s), old(node), node, n, child)
    {
      var parent := n.parent;
      if child != null {
        child.parent := parent;
      }
      if parent != null {
        if parent.left == n {
          parent.left := child;
        } else {
          parent.right := child;
        }
      } else {
        node := child;
      }
    }

    /** `y`, the successor of `z`, leaves its place to its right child and takes the place of `z`. */
    method TakePlace(z: RbNode, y: RbNode, ghost s: set<RbNode>) returns (parent: RbNode)
      requires CanReplace(Snap(s), z, y)
      modifies this`node, s`left, s`right, s`parent, s`color
      ensures parent == if old(y.parent) == z then y else old(y.parent)
      ensures TookPlace(old(Snap(s)), Snap(s), old(node), node, z, y)
    {
      if z.parent != null {
        if z.parent.left == z {
          z.parent.left := y;
        } else {
          z.parent.right := y;
        }
      } else {
        node := y;
      }
      var child := y.right;
      parent := y.parent;
      if parent == z {
        parent := y;
      } else {
        if child != null {
          child.parent := parent;
        }
        parent.left := child;
        y.right := z.right;
        z.right.parent := y;
      }
      y.parent, y.color := z.parent, z.color;
      y.left := z.left;
      z.left.parent := y;
    }

    /** The loop that follows left links as far as they go. */
    method GoLeft(n: RbNode, ghost s: set<RbNode>, ghost c: Ctx<RbNode>, ghost t: Tree<RbNode>) returns (y: RbNode)
      requires On(s, c, n, t)
      ensures t.Node? && On(s, Leftmost(c, t).0, y, Leftmost(c, t).1)
    {
      Surroundings(Snap(s), node, c, n, t);
      ghost var d, u := c, t;
      y := n;
      while y.left != null
        invariant On(s, d, y, u) && u.Node? && y in s && Leftmost(d, u) == Leftmost(c, t)
        decreases u
      {
        Down(Snap(s), node, d, y, u);
        y := y.left;
        d, u := IntoLeft(d, u), u.left;
        Surroundings(Snap(s), node, d, y, u);
      }
      Down(Snap(s), node, d, y, u);
      Surroundings(Snap(s), node, IntoLeft(d, u), y.left, u.left);
    }

    /** The two-children case of rb_erase. */
    method DetachInner(n: RbNode, ghost s: set<RbNode>, ghost c: Ctx<RbNode>, ghost t: Tree<RbNode>)
      returns (child: RbNode?, parent: RbNode?, color: Color)
      requires On(s, c, n, t) && t.Node? && t.left.Node? && t.right.Node?
      modifies this`node, s`left, s`right, s`parent, s`color
      ensures var (d, u, col) := Del.Detached(c, t); On(s, d, child, u) && parent == Above(d) && color == col
    {
      ghost var m, root := Snap(s), node;
      Down(m, root, c, n, t);
      Surroundings(m, root, IntoRight(c, t), n.right, t.right);
      var y := GoLeft(n.right, s, IntoRight(c, t), t.right);
      SuccessorReady(m, root, c, t, y);
      child, color := y.right, y.color;
      parent := TakePlace(n, y, s);
      SuccessorSpliced(m, Snap(s), root, node, c, t, y);
      DetachedAbove(c, t);
    }

    /** The case of at most one child. */
    method DetachOuter(n: RbNode, ghost s: set<RbNode>, ghost c: Ctx<RbNode>, ghost t: Tree<RbNode>)
      returns (child: RbNode?, parent: RbNode?, color: Color)
      requires On(s, c, n, t) && t.Node? && (t.left.Nil? || t.right.Nil?)
      modifies this`node, s`left, s`right, s`parent, s`color
      ensures var (d, u, col) := Del.Detached(c, t); On(s, d, child, u) && parent == Above(d) && color == col
    {
      ghost var m, root := Snap(s), node;
      Down(m, root, c, n, t);
      Surroundings(m, root, c, n, t);
      Surroundings(m, root, IntoLeft(c, t), n.left, t.left);
      Surroundings(m, root, IntoRight(c, t), n.right, t.right);
      child := if n.left == null then n.right else n.left;
      parent, color := n.parent, n.color;
      BypassNode(n, child, s);
      Bypass(m, Snap(s), root, node, c, t, child, if t.left.Nil? then t.right else t.left);
    }

    method EraseAt(n: RbNode, ghost s: set<RbNode>, ghost c: Ctx<RbNode>, ghost t: Tree<RbNode>)
      requires On(s, c, n, t) && t.Node? && RedBlack(Plug(c, t))
      modifies this`node, s`left, s`right, s`parent, s`color
      ensures Rep(Snap(s), node, null, Del.Removed(c, t))
    {
      Down(Snap(s), node, c, n, t);
      Surroundings(Snap(s), node, IntoLeft(c, t), n.left, t.left);
      Surroundings(Snap(s), node, IntoRight(c, t), n.right, t.right);
      Del.DetachedShort(c, t);
      var child, parent, color;
      if n.left != null && n.right != null {
        child, parent, color := DetachInner(n, s, c, t);
      } else {
        child, parent, color := DetachOuter(n, s, c, t);
      }
      ghost var (d, u, _) := Del.Detached(c, t);
      if color.Black? {
        EraseColor(child, parent, s, d, u);
      } else {
        Unfocus(Snap(s), node, d, child, u);
      }
    }

    method EraseLocated(n: RbNode)
      requires Valid() && n in Keys(tree)
      modifies this`node, Keys(tree)`left, Keys(tree)`right, Keys(tree)`parent, Keys(tree)`color
      ensures var r := Del.Erased(tree, n); Rep(Snap(Keys(r)), node, null, r)
    {
      ghost var s := Keys(tree);
      ghost var (c, t) := Locate(tree, n);
      ghost var n' := Focus(Snap(s), node, c, t);
      Surroundings(Snap(s), node, c, n', t);
      EraseAt(n, s, c, t);
      ghost var r := Del.Removed(c, t);
      RepFrame(Snap(s), Snap(Keys(r)), node, null, r);
    }

    /** Takes `n` out of the tree. */
    method Erase(n: RbNode)
      requires Valid() && n in Keys(tree)
      modifies this, Keys(tree)`left, Keys(tree)`right, Keys(tree)`parent, Keys(tree)`color
      ensures Valid() && tree == Del.Erased(old(tree), n) && Keys(tree) == old(Keys(tree)) - {n}
      ensures Inorder(old(tree)) == Front(old(tree), n) + [n] + Back(old(tree), n)
      ensures Inorder(tree) == Front(old(tree), n) + Back(old(tree), n)
    {
      RepDistinct(Snap(Keys(tree)), node, null, tree);
      Del.ErasedKeys(tree, n);
      EraseLocated(n);
      tree := Del.Erased(tree, n);
    }

    // ----------------------------------------------------- linking a new leaf

    constructor ()
      ensures Valid() && tree == Nil
    {
      node := null;
      tree := Nil;
    }

    /** The writes of rb_link_node, where `*rb_link` is a child slot of `parent` or the root link. */
    method SetLink(n: RbNode, parent: RbNode?, onLeft: bool, ghost s: set<RbNode>, ghost c: Ctx<RbNode>)
      requires RepCtx(Snap(s), node, c, null) && parent == Above(c) && n !in s
      requires parent != null ==> onLeft == c.InLeft?
      modifies this`node, n`parent, n`color, n`left, n`right, s`left, s`right
      ensures RepCtx(Snap(s + {n}), node, c, n)
      ensures Snap(s + {n})[n] == Cell(parent, Red, null, null)
    {
      ghost var m, root := Snap(s), node;
      n.parent, n.color := parent, Red;
      n.left, n.right := null, null;
      if parent == null {
        node := n;
      } else if onLeft {
        parent.left := n;
      } else {
        parent.right := n;
      }
      ReroutedCtx(m, Snap(s + {n}), root, node, c, null, n);
    }

    /** Hangs `n` as a red leaf into an empty child slot of `parent`, or into the empty tree. */
    method LinkNode(n: RbNode, parent: RbNode?, onLeft: bool)
      requires Valid() && n !in Keys(tree)
      requires if parent == null then node == null
               else parent in Keys(tree) && null == if onLeft then parent.left else parent.right
      modifies this, n`parent, n`color, n`left, n`right, Keys(tree)`left, Keys(tree)`right
      ensures Linked() && Ready(tree, n) && Keys(tree) == old(Keys(tree)) + {n}
      ensures var c := Slot(old(tree), parent, onLeft);
        old(tree) == Plug(c, Nil) && tree == Plug(c, Node(Nil, n, Red, Nil)) && Distinct(tree)
      ensures Inorder(tree) == Placed(old(tree), n, parent, onLeft)
    {
      ghost var s, c := Keys(tree), Slot(tree, parent, onLeft);
      SlotEmpty(Snap(s), node, tree, parent, onLeft);
      SetLink(n, parent, onLeft, s, c);
      LinkedLeaf(Snap(s + {n}), node, c, n, tree);
      LinkedOrder(tree, parent, onLeft, n);
      tree := Plug(c, Node(Nil, n, Red, Nil));
    }

    // ----------------------------------------------------- walking in order

    method First() returns (n: RbNode?)
      requires Linked()
      ensures n == if tree.Nil? then null else Inorder(tree)[0]
    {
      n := node;
      if n == null {
        return;
      }
      EndKeys(tree);
      n := GoLeft(n, Keys(tree), Top, tree);
      Surroundings(Snap(Keys(tree)), node, Leftmost(Top, tree).0, n, Leftmost(Top, tree).1);
    }

    method Last() returns (n: RbNode?)
      requires Linked()
      ensures n == if tree.Nil? then null else Inorder(tree)[|Inorder(tree)| - 1]
    {
      n := node;
      if n == null {
        return;
      }
      EndKeys(tree);
      n := GoRight(n, Keys(tree), Top, tree);
      Surroundings(Snap(Keys(tree)), node, Rightmost(Top, tree).0, n, Rightmost(Top, tree).1);
    }

    method GoRight(n: RbNode, ghost s: set<RbNode>, ghost c: Ctx<RbNode>, ghost t: Tree<RbNode>) returns (y: RbNode)
      requires On(s, c, n, t)
      ensures t.Node? && On(s, Rightmost(c, t).0, y, Rightmost(c, t).1)
    {
      Surroundings(Snap(s), node, c, n, t);
      ghost var d, u := c, t;
      y := n;
      while y.right != null
        invariant On(s, d, y, u) && u.Node? && y in s && Rightmost(d, u) == Rightmost(c, t)
        decreases u
      {
        Down(Snap(s), node, d, y, u);
        y := y.right;
        d, u := IntoRight(d, u), u.right;
        Surroundings(Snap(s), node, d, y, u);
      }
      Down(Snap(s), node, d, y, u);
      Surroundings(Snap(s), node, IntoRight(d, u), y.right, u.right);
    }

    /** The node after `n`; null after the last one, and for a node that is its own parent. */
    method Next(n: RbNode) returns (r: RbNode?)
      requires n.parent == n || (Linked() && n in Keys(tree))
      ensures n.parent == n ==> r == null
      ensures n.parent != n ==> r == if Back(tree, n) == [] then null else Back(tree, n)[0]
    {
      if n.parent == n {
        return null;
      }
      ghost var s, m := Keys(tree), Snap(Keys(tree));
      ghost var (c, t) := Locate(tree, n);
      ghost var n' := Focus(m, node, c, t);
      Surroundings(m, node, c, n', t);
      Down(m, node, c, n, t);
      if n.right != null {
        Surroundings(m, node, IntoRight(c, t), n.right, t.right);
        LeftmostOrder(IntoRight(c, t), t.right);
        r := GoLeft(n.right, s, IntoRight(c, t), t.right);
        Surroundings(m, node, Leftmost(IntoRight(c, t), t.right).0, r, Leftmost(IntoRight(c, t), t.right).1);
      } else {
        Surroundings(m, node, IntoRight(c, t), n.right, t.right);
        r := GoUpFromRight(n, s, c, t);
      }
    }

    method GoUpFromRight(n: RbNode, ghost s: set<RbNode>, ghost c: Ctx<RbNode>, ghost t: Tree<RbNode>)
      returns (parent: RbNode?)
      requires On(s, c, n, t)
      ensures parent == if After(c) == [] then null else After(c)[0]
    {
      var x: RbNode := n;
      ghost var d, u := c, t;
      Surroundings(Snap(s), node, d, x, u);
      parent := x.parent;
      while parent != null && x == parent.right
        invariant On(s, d, x, u) && After(d) == After(c) && parent == Above(d) && (parent != null ==> parent in s)
        decreases d
      {
        Surroundings(Snap(s), node, d, x, u);
        Up(Snap(s), node, d, x, u);
        d, u, x := d.up, Close(d, u), parent;
        Surroundings(Snap(s), node, d, x, u);
        parent := x.parent;
      }
      Surroundings(Snap(s), node, d, x, u);
    }

    method GoUpFromLeft(n: RbNode, ghost s: set<RbNode>, ghost c: Ctx<RbNode>, ghost t: Tree<RbNode>)
      returns (parent: RbNode?)
      requires On(s, c, n, t)
      ensures parent == if Before(c) == [] then null else Before(c)[|Before(c)| - 1]
    {
      var x: RbNode := n;
      ghost var d, u := c, t;
      Surroundings(Snap(s), node, d, x, u);
      parent := x.parent;
      while parent != null && x == parent.left
        invariant On(s, d, x, u) && Before(d) == Before(c) && parent == Above(d) && (parent != null ==> parent in s)
        decreases d
      {
        Surroundings(Snap(s), node, d, x, u);
        Up(Snap(s), node, d, x, u);
        d, u, x := d.up, Close(d, u), parent;
        Surroundings(Snap(s), node, d, x, u);
        parent := x.parent;
      }
      Surroundings(Snap(s), node, d, x, u);
    }

    /** The node before `n`; null before the first one, and for a node that is its own parent. */
    method Prev(n: RbNode) returns (r: RbNode?)
      requires n.parent == n || (Linked() && n in Keys(tree))
      ensures n.parent == n ==> r == null
      ensures n.parent != n ==> r == if Front(tree, n) == [] then null else Front(tree, n)[|Front(tree, n)| - 1]
    {
      if n.parent == n {
        return null;
      }
      ghost var s, m := Keys(tree), Snap(Keys(tree));
      ghost var (c, t) := Locate(tree, n);
      ghost var n' := Focus(m, node, c, t);
      Surroundings(m, node, c, n', t);
      Down(m, node, c, n, t);
      if n.left != null {
        Surroundings(m, node, IntoLeft(c, t), n.left, t.left);
        RightmostOrder(IntoLeft(c, t), t.left);
        r := GoRight(n.left, s, IntoLeft(c, t), t.left);
        Surroundings(m, node, Rightmost(IntoLeft(c, t), t.left).0, r, Rightmost(IntoLeft(c, t), t.left).1);
      } else {
        Surroundings(m, node, IntoLeft(c, t), n.left, t.left);
        r := GoUpFromLeft(n, s, c, t);
      }
    }

    /** One step forward and one back. */
    method NextThenPrev(n: RbNode) returns (next: RbNode?, back: RbNode?)
      requires Linked() && n in Keys(tree)
      ensures next == null <==> n == Inorder(tree)[|Inorder(tree)| - 1]
      ensures next != null ==> back == n
    {
      RepDistinct(Snap(Keys(tree)), node, null, tree);
      NotOwnParent(Snap(Keys(tree)), node, tree, n);
      LastHasNoBack(tree, n);
      back := null;
      next := Next(n);
      if next != null {
        Neighbours(tree, n, next);
        NotOwnParent(Snap(Keys(tree)), node, tree, next);
        back := Prev(next);
      }
    }

    /** The iteration that rbtree.h offers: from First, by Next, until null. */
    method Traverse() returns (visited: seq<RbNode>)
      requires Linked()
      ensures visited == Inorder(tree)
    {
      ghost var order := Inorder(tree);
      RepDistinct(Snap(Keys(tree)), node, null, tree);
      if tree.Node? { EndKeys(tree); }
      visited := [];
      var n := First();
      while n != null
        invariant |visited| <= |order| && visited == order[..|visited|]
        invariant n == if |visited| == |order| then null else order[|visited|]
        decreases |order| - |visited|
      {
        Position(tree, |visited|);
        NotOwnParent(Snap(Keys(tree)), node, tree, n);
        var r := Next(n);
        visited := visited + [n];
        n := r;
      }
    }

    /** The same backwards: from Last, by Prev, until null. */
    method TraverseBack() returns (visited: seq<RbNode>)
      requires Linked()
      ensures |visited| == |Inorder(tree)|
      ensures forall i :: 0 <= i < |visited| ==> visited[i] == Inorder(tree)[|visited| - 1 - i]
    {
      ghost var order := Inorder(tree);
      RepDistinct(Snap(Keys(tree)), node, null, tree);
      if tree.Node? { EndKeys(tree); }
      visited := [];
      var n := Last();
      while n != null
        invariant |visited| <= |order|
        invariant forall i :: 0 <= i < |visited| ==> visited[i] == order[|order| - 1 - i]
        invariant n == if |visited| == |order| then null else order[|order| - 1 - |visited|]
        decreases |order| - |visited|
      {
        Position(tree, |order| - 1 - |visited|);
        NotOwnParent(Snap(Keys(tree)), node, tree, n);
        var r := Prev(n);
        visited := visited + [n];
        n := r;
      }
    }
  }

  /** `n` is a red leaf, and the tree is a red-black tree apart from the colour of `n`. */
  ghost predicate Ready(t: Tree<RbNode>, n: RbNode) {
    n in Keys(t) &&
    var (c, s) := Locate(t, n);
    s == Node(Nil, n, Red, Nil) && Ins.Pending(c, s)
  }

  /** What the focus on a node with two children, and on its successor, says about pointers. */
  lemma {:induction false} SuccessorReady(m: Mem, root: RbNode?, c: Ctx<RbNode>, t: Tree<RbNode>, y: RbNode)
    requires t.Node? && t.left.Node? && t.right.Node? && At(m, root, c, t.key, t)
    requires var (d, u) := Leftmost(IntoRight(c, t), t.right); At(m, root, d, y, u)
    ensures CanReplace(m, t.key, y)
    ensures y == Del.Successor(t).key && y in Keys(t.right) && m[y].color == Del.Successor(t).color
    ensures if t.right.left.Nil? then m[y].parent == t.key
            else m[y].parent == Above(Leftmost(IntoRight(c, t), t.right).0) != t.key
  {
    var z := t.key;
    var (d, u) := Leftmost(IntoRight(c, t), t.right);
    Del.LeftmostKeys(IntoRight(c, t), t.right);
    Del.LeftmostTurn(IntoRight(c, t), t.right);
    Del.LeftmostSame(IntoRight(c, t), Top, t.right);
    Down(m, root, c, z, t);
    Surroundings(m, root, c, z, t);
    Surroundings(m, root, IntoLeft(c, t), m[z].left, t.left);
    Surroundings(m, root, IntoRight(c, t), m[z].right, t.right);
    Surroundings(m, root, d, y, u);
    Down(m, root, d, y, u);
    Surroundings(m, root, IntoLeft(d, u), m[y].left, u.left);
    Surroundings(m, root, IntoRight(d, u), m[y].right, u.right);
  }

  /** The pointer writes of the two-children case spell out what `Detached` computes. */
  lemma {:induction false} SuccessorSpliced(m: Mem, m': Mem, root: RbNode?, root': RbNode?,
                                            c: Ctx<RbNode>, t: Tree<RbNode>, y: RbNode)
    requires t.Node? && t.left.Node? && t.right.Node? && At(m, root, c, t.key, t)
    requires var (d, u) := Leftmost(IntoRight(c, t), t.right); At(m, root, d, y, u)
    requires CanReplace(m, t.key, y) && TookPlace(m, m', root, root', t.key, y)
    ensures var (d, u, _) := Del.Detached(c, t); At(m', root', d, m[y].right, u)
  {
    var z := t.key;
    var (d, u) := Leftmost(IntoRight(c, t), t.right);
    SuccessorReady(m, root, c, t, y);
    TookPlaceReplaced(m, m', root, root', z, y);
    var m1 := Unhooked(m, z, y);
    Bypass(m, m1, root, root, d, u, m[y].right, u.right);
    Unfocus(m1, root, d, m[y].right, u.right);
    Del.LeftmostRemoved(IntoRight(c, t), t.right);
    var t1 := t.(right := Del.WithoutMin(t.right));
    var z1 := Focus(m1, root, c, t1);
    SuccessorGone(m, root, c, t, y);
    Replace(m1, m', root, root', c, t1, y);
    var t2 := t1.(key := y);
    Unfocus(m', root', c, y, t2);
    Del.LeftmostSame(IntoRight(c, t), Top, t.right);
    Del.LeftmostSame(IntoRight(c, t2), Top, t.right);
    Del.LeftmostRemoved(IntoRight(c, t2), t.right);
    var d' := Leftmost(IntoRight(c, t2), t.right).0;
    var n := Focus(m', root', d', u.right);
    Surroundings(m', root', d', n, u.right);
    Down(m, root, d, y, u);
    Surroundings(m, root, IntoRight(d, u), m[y].right, u.right);
  }

  lemma {:induction false} SuccessorGone(m: Mem, root: RbNode?, c: Ctx<RbNode>, t: Tree<RbNode>, y: RbNode)
    requires t.Node? && t.left.Node? && t.right.Node? && At(m, root, c, t.key, t)
    requires var (d, u) := Leftmost(IntoRight(c, t), t.right); At(m, root, d, y, u)
    ensures y !in CtxKeys(c) && y !in Keys(t.(right := Del.WithoutMin(t.right)))
  {
    var (d, u) := Leftmost(IntoRight(c, t), t.right);
    Surroundings(m, root, d, y, u);
    Down(m, root, d, y, u);
    Del.LeftmostKeys(IntoRight(c, t), t.right);
    Del.LeftmostRemoved(IntoRight(c, t), t.right);
    PlugKeys(d, u.right);
    PlugKeys(IntoRight(c, t), Del.WithoutMin(t.right));
  }

  lemma {:induction false} DetachedAbove(c: Ctx<RbNode>, t: Tree<RbNode>)
    requires t.Node? && t.left.Node? && t.right.Node?
    ensures var (d, u) := Leftmost(IntoRight(c, t), t.right);
      var d' := Del.Detached(c, t).0;
      if t.right.left.Nil? then Above(d) == t.key && Above(d') == Del.Successor(t).key else Above(d') == Above(d)
  {
    var base := InRight(t.left, Del.Successor(t).key, t.color, c);
    LeftmostAbove(IntoRight(c, t), base, t.right);
  }

  lemma {:induction false} LeftmostAbove(c: Ctx<RbNode>, c': Ctx<RbNode>, t: Tree<RbNode>)
    requires t.Node?
    ensures t.left.Node? ==> Above(Leftmost(c, t).0) == Above(Leftmost(c', t).0)
    decreases t
  {
    if t.left.Node? {
      LeftmostAbove(IntoLeft(c, t), IntoLeft(c', t), t.left);
    }
  }

  /** The empty place that a caller of `LinkNode` has found. */
  ghost function Slot(t: Tree<RbNode>, parent: RbNode?, onLeft: bool): Ctx<RbNode>
    requires parent != null ==> parent in Keys(t)
  {
    if parent == null then Top
    else if onLeft then IntoLeft(Locate(t, parent).0, Locate(t, parent).1)
    else IntoRight(Locate(t, parent).0, Locate(t, parent).1)
  }

  /** The order once `n` stands immediately before, or after, `parent`. */
  ghost function Placed(t: Tree<RbNode>, n: RbNode, parent: RbNode?, onLeft: bool): seq<RbNode>
    requires parent != null ==> parent in Keys(t)
  {
    if parent == null then [n]
    else if onLeft then Front(t, parent) + [n] + [parent] + Back(t, parent)
    else Front(t, parent) + [parent] + [n] + Back(t, parent)
  }

  predicate SideEmpty<K>(t: Tree<K>, onLeft: bool) {
    t.Node? && if onLeft then t.left.Nil? else t.right.Nil?
  }

  lemma {:induction false} SlotEmpty(m: Mem, root: RbNode?, t: Tree<RbNode>, parent: RbNode?, onLeft: bool)
    requires Rep(m, root, null, t)
    requires if parent == null then root == null
             else parent in Keys(t) && parent in m && null == if onLeft then m[parent].left else m[parent].right
    ensures Plug(Slot(t, parent, onLeft), Nil) == t
    ensures At(m, root, Slot(t, parent, onLeft), null, Nil)
    ensures Above(Slot(t, parent, onLeft)) == parent
    ensures parent != null ==> SideEmpty(Locate(t, parent).1, onLeft)
  {
    if parent != null {
      var (c, s) := Locate(t, parent);
      var n := Focus(m, root, c, s);
      Surroundings(m, root, c, n, s);
      Down(m, root, c, n, s);
      Surroundings(m, root, IntoLeft(c, s), m[n].left, s.left);
      Surroundings(m, root, IntoRight(c, s), m[n].right, s.right);
    }
  }

  /** A red leaf in an empty place of a red-black tree leaves only colours to repair. */
  lemma {:induction false} LinkedLeaf(m': Mem, root': RbNode?, c: Ctx<RbNode>, n: RbNode, t: Tree<RbNode>)
    requires t == Plug(c, Nil) && RedBlack(t) && n !in Keys(t)
    requires RepCtx(m', root', c, n) && n in m' && m'[n] == Cell(Above(c), Red, null, null)
    ensures Rep(m', root', null, Plug(c, Node(Nil, n, Red, Nil)))
    ensures Ready(Plug(c, Node(Nil, n, Red, Nil)), n)
    ensures Keys(Plug(c, Node(Nil, n, Red, Nil))) == Keys(t) + {n} && Distinct(Plug(c, Node(Nil, n, Red, Nil)))
  {
    var s := Node(Nil, n, Red, Nil);
    PlugKeys(c, Nil);
    PlugKeys(c, s);
    Unfocus(m', root', c, n, s);
    RepDistinct(m', root', null, Plug(c, s));
    LocatePlugged(c, s, n);
    UnplugRedBlack(c, Nil);
  }

  lemma {:induction false} LinkedOrder(t: Tree<RbNode>, parent: RbNode?, onLeft: bool, n: RbNode)
    requires parent != null ==> parent in Keys(t)
    requires parent != null ==> SideEmpty(Locate(t, parent).1, onLeft)
    ensures Inorder(Plug(Slot(t, parent, onLeft), Node(Nil, n, Red, Nil))) == Placed(t, n, parent, onLeft)
  {
    var c := Slot(t, parent, onLeft);
    PlugInorder(c, Node(Nil, n, Red, Nil));
    assert Inorder(Node(Nil, n, Red, Nil)) == [n];
    if parent != null && onLeft {
      var (d, s) := Locate(t, parent);
      Reassociate(Before(d) + [n], [parent], Inorder(s.right), After(d));
      assert Before(d) + [] == Before(d);
    }
  }

  lemma {:induction false} NotOwnParent(m: Mem, root: RbNode?, t: Tree<RbNode>, n: RbNode)
    requires Rep(m, root, null, t) && n in Keys(t)
    ensures n in m && m[n].parent != n
  {
    var (c, s) := Locate(t, n);
    var n' := Focus(m, root, c, s);
    Surroundings(m, root, c, n', s);
  }
}
