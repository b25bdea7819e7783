/**
 Linked red-black nodes, and what it means for their fields to spell out a tree
 with one subtree in focus.  Field contents are captured as maps, so that the
 effect of a few pointer writes is a statement about two maps.
 */
module RbMemory {
  import opened RbShape

  class RbNode {
    var parent: RbNode?
    var color: Color
    var left: RbNode?
    var right: RbNode?
    var aug: int   // the augmented value of the enclosing object

    /** An unlinked node: its own parent, as rb_init_node leaves it. */
    constructor ()
      ensures parent == this && color == Red && left == null && right == null
    {
      parent, color, left, right, aug := this, Red, null, null, 0;
    }
  }

  datatype Cell = Cell(parent: RbNode?, color: Color, left: RbNode?, right: RbNode?)

  type Mem = map<RbNode, Cell>

  ghost function Snap(s: set<RbNode>): (m: Mem)
    reads s
    ensures m.Keys == s
  {
    map k | k in s :: Cell(k.parent, k.color, k.left, k.right)
  }

  /** In `m`, `n` (with parent link `p`) is the root of linked nodes that spell out `t`. */
  ghost predicate Rep(m: Mem, n: RbNode?, p: RbNode?, t: Tree<RbNode>)
    decreases t
  {
    match t
    case Nil => n == null
    case Node(l, k, col, r) =>
      && n == k && k in m && m[k].parent == p && m[k].color == col
      && k !in Keys(l) && k !in Keys(r) && Keys(l) !! Keys(r)
      && Rep(m, m[k].left, k, l) && Rep(m, m[k].right, k, r)
  }

  /** The node whose child the hole of `c` is, or null at the root. */
  ghost function Above(c: Ctx<RbNode>): RbNode? {
    if c.Top? then null else c.key
  }

  /** In `m`, with root link `root`, the nodes of `c` are linked as `c` says, with
      `hole` in the place of the hole. */
  ghost predicate RepCtx(m: Mem, root: RbNode?, c: Ctx<RbNode>, hole: RbNode?) {
    match c
    case Top => root == hole
    case InLeft(up, k, col, r) =>
      && k in m && m[k].left == hole && m[k].color == col && m[k].parent == Above(up)
      && k !in Keys(r) && k !in CtxKeys(up) && Keys(r) !! CtxKeys(up)
      && Rep(m, m[k].right, k, r) && RepCtx(m, root, up, k)
    case InRight(l, k, col, up) =>
      && k in m && m[k].right == hole && m[k].color == col && m[k].parent == Above(up)
      && k !in Keys(l) && k !in CtxKeys(up) && Keys(l) !! CtxKeys(up)
      && Rep(m, m[k].left, k, l) && RepCtx(m, root, up, k)
  }

  /** `m` spells out `Plug(c, t)`, with `n` at the root of `t`. */
  ghost predicate At(m: Mem, root: RbNode?, c: Ctx<RbNode>, n: RbNode?, t: Tree<RbNode>) {
    CtxKeys(c) !! Keys(t) && RepCtx(m, root, c, n) && Rep(m, n, Above(c), t)
  }

  // ------------------------------------------------------------- frames

  ghost predicate Agree(m: Mem, m': Mem, s: set<RbNode>) {
    forall k :: k in s && k in m ==> k in m' && m'[k] == m[k]
  }

  ghost function Spot(c: Ctx<RbNode>): set<RbNode> {
    if c.Top? then {} else {c.key}
  }

  ghost function Tip(t: Tree<RbNode>): set<RbNode> {
    if t.Nil? then {} else {t.key}
  }

  lemma {:induction false} RepFrame(m: Mem, m': Mem, n: RbNode?, p: RbNode?, t: Tree<RbNode>)
    requires Rep(m, n, p, t) && Agree(m, m', Keys(t))
    ensures Rep(m', n, p, t)
    decreases t
  {
    match t
    case Nil =>
    case Node(l, k, _, r) =>
      RepFrame(m, m', m[k].left, k, l);
      RepFrame(m, m', m[k].right, k, r);
  }

  lemma {:induction false} RepCtxFrame(m: Mem, m': Mem, root: RbNode?, c: Ctx<RbNode>, hole: RbNode?)
    requires RepCtx(m, root, c, hole) && Agree(m, m', CtxKeys(c))
    ensures RepCtx(m', root, c, hole)
  {
    match c
    case Top =>
    case InLeft(up, k, _, r) =>
      RepFrame(m, m', m[k].right, k, r);
      RepCtxFrame(m, m', root, up, k);
    case InRight(l, k, _, up) =>
      RepFrame(m, m', m[k].left, k, l);
      RepCtxFrame(m, m', root, up, k);
  }

  /** Only the parent link and the colour of the topmost node have changed. */
  lemma {:induction false} Retopped(m: Mem, m': Mem, n: RbNode, q: RbNode?, p: RbNode?, col: Color, t: Tree<RbNode>)
    requires t.Node? && Rep(m, n, q, t) && Agree(m, m', Keys(t) - {n})
    requires n in m' && m'[n] == m[n].(parent := p, color := col)
    ensures Rep(m', n, p, t.(color := col))
  {
    RepFrame(m, m', m[n].left, n, t.left);
    RepFrame(m, m', m[n].right, n, t.right);
  }

  /** Only the link that leads into the hole of `c` has changed; it now leads to `n`. */
  ghost predicate Rerouted(m: Mem, m': Mem, root: RbNode?, root': RbNode?, c: Ctx<RbNode>, n: RbNode?) {
    match c
    case Top => root' == n
    case InLeft(_, k, _, _) => root' == root && k in m && k in m' && m'[k] == m[k].(left := n)
    case InRight(_, k, _, _) => root' == root && k in m && k in m' && m'[k] == m[k].(right := n)
  }

  lemma {:induction false} ReroutedCtx(m: Mem, m': Mem, root: RbNode?, root': RbNode?, c: Ctx<RbNode>, n: RbNode?, n': RbNode?)
    requires RepCtx(m, root, c, n) && Rerouted(m, m', root, root', c, n')
    requires Agree(m, m', CtxKeys(c) - Spot(c))
    ensures RepCtx(m', root', c, n')
  {
    match c
    case Top =>
    case InLeft(up, k, _, r) =>
      RepFrame(m, m', m[k].right, k, r);
      RepCtxFrame(m, m', root, up, k);
    case InRight(l, k, _, up) =>
      RepFrame(m, m', m[k].left, k, l);
      RepCtxFrame(m, m', root, up, k);
  }

  // ------------------------------------------------------------- moving the focus

  lemma {:induction false} Up(m: Mem, root: RbNode?, c: Ctx<RbNode>, n: RbNode?, t: Tree<RbNode>)
    requires At(m, root, c, n, t) && !c.Top?
    ensures At(m, root, c.up, c.key, Close(c, t))
  {
  }

  lemma {:induction false} Down(m: Mem, root: RbNode?, c: Ctx<RbNode>, n: RbNode, t: Tree<RbNode>)
    requires At(m, root, c, n, t)
    ensures t.Node? && n == t.key && n in m && m[n].color == t.color && m[n].parent == Above(c)
    ensures At(m, root, IntoLeft(c, t), m[n].left, t.left)
    ensures At(m, root, IntoRight(c, t), m[n].right, t.right)
  {
  }

  lemma {:induction false} Sideways(m: Mem, root: RbNode?, c: Ctx<RbNode>, n: RbNode?, t: Tree<RbNode>)
    requires At(m, root, c, n, t) && !c.Top?
    ensures c.key in m
    ensures At(m, root, Beside(c, t), if c.InLeft? then m[c.key].right else m[c.key].left, Sibling(c))
  {
  }

  lemma {:induction false} Unfocus(m: Mem, root: RbNode?, c: Ctx<RbNode>, n: RbNode?, t: Tree<RbNode>)
    requires At(m, root, c, n, t)
    ensures Rep(m, root, null, Plug(c, t))
  {
    if !c.Top? {
      Up(m, root, c, n, t);
      Unfocus(m, root, c.up, c.key, Close(c, t));
    }
  }

  lemma {:induction false} Focus(m: Mem, root: RbNode?, c: Ctx<RbNode>, t: Tree<RbNode>) returns (n: RbNode?)
    requires Rep(m, root, null, Plug(c, t))
    ensures At(m, root, c, n, t)
  {
    if c.Top? {
      n := root;
    } else {
      var k := Focus(m, root, c.up, Close(c, t));
      Down(m, root, c.up, k, Close(c, t));
      n := if c.InLeft? then m[k].left else m[k].right;
    }
  }

  /** What a node in focus says about its surroundings. */
  lemma {:induction false} Surroundings(m: Mem, root: RbNode?, c: Ctx<RbNode>, n: RbNode?, t: Tree<RbNode>)
    requires At(m, root, c, n, t)
    ensures if t.Nil? then n == null else n == t.key && n in m && m[n].parent == Above(c) && m[n].color == t.color
    ensures !c.Top? ==> c.key in m && c.key != n && m[c.key].parent == Above(c.up) && m[c.key].color == c.color
    ensures c.Top? ==> root == n
    ensures c.InLeft? ==> m[c.key].left == n && (n != null ==> m[c.key].right != n)
    ensures c.InRight? ==> m[c.key].right == n && (n != null ==> m[c.key].left != n)
  {
    if !c.Top? {
      Up(m, root, c, n, t);
    }
  }

  /** The code tells the sides apart by comparing child links. */
  lemma {:induction false} Sides(m: Mem, root: RbNode?, c: Ctx<RbNode>, n: RbNode?, t: Tree<RbNode>)
    requires At(m, root, c, n, t) && !c.Top? && Sibling(c).Node?
    ensures c.key in m && (m[c.key].left == n <==> c.InLeft?)
  {
    Sideways(m, root, c, n, t);
    Surroundings(m, root, Beside(c, t), if c.InLeft? then m[c.key].right else m[c.key].left, Sibling(c));
  }

  lemma {:induction false} RootAbove(m: Mem, root: RbNode?, c: Ctx<RbNode>, n: RbNode?)
    requires RepCtx(m, root, c, n) && !c.Top?
    ensures root != null && root in CtxKeys(c)
  {
    if !c.up.Top? {
      RootAbove(m, root, c.up, c.key);
    }
  }

  // ------------------------------------------------------------- painting

  lemma {:induction false} Repainted(m: Mem, m': Mem, root: RbNode?, c: Ctx<RbNode>, n: RbNode, t: Tree<RbNode>, col: Color)
    requires At(m, root, c, n, t)
    requires n in m && m' == m[n := m[n].(color := col)]
    ensures t.Node? && At(m', root, c, n, t.(color := col))
  {
    Retopped(m, m', n, Above(c), Above(c), col, t);
    RepCtxFrame(m, m', root, c, n);
  }

  // ------------------------------------------------------------- rotating left

  /** The pointers that a left rotation at `n` follows lead to distinct nodes of `m`. */
  ghost predicate TurnsLeft(m: Mem, n: RbNode) {
    n in m && m[n].right != null && m[n].right in m && m[n].right != n &&
    var y, p := m[n].right, m[n].parent;
    var b := m[y].left;
    && (b != null ==> b in m && b != n && b != y)
    && (p != null ==> p in m && p != n && p != y && p != b && (m[p].left == n) != (m[p].right == n))
  }

  /** The cells after a left rotation at `n`. */
  ghost predicate TurnedLeft(m: Mem, m': Mem, root: RbNode?, root': RbNode?, n: RbNode)
    requires TurnsLeft(m, n)
  {
    var y, p := m[n].right, m[n].parent;
    var b := m[y].left;
    && m'.Keys == m.Keys
    && m'[n] == m[n].(right := b, parent := y)
    && m'[y] == m[y].(left := n, parent := p)
    && (b != null ==> m'[b] == m[b].(parent := n))
    && (if p == null then root' == y else
        root' == root && m'[p] == if m[p].left == n then m[p].(left := y) else m[p].(right := y))
    && forall k :: k in m && k != n && k != y && k != b && k != p ==> m'[k] == m[k]
  }

  /** What the focus says about the nodes that a left rotation touches. */
  lemma {:induction false} RotationReady(m: Mem, root: RbNode?, c: Ctx<RbNode>, t: Tree<RbNode>)
    requires t.Node? && t.right.Node? && At(m, root, c, t.key, t)
    ensures var (x, y, b) := (t.key, t.right.key, t.right.left);
      && TurnsLeft(m, x) && m[x].right == y && m[x].parent == Above(c)
      && m[x].color == t.color && m[y].color == t.right.color
      && Rep(m, m[x].left, x, t.left) && Rep(m, m[y].left, y, b) && Rep(m, m[y].right, y, t.right.right)
      && (if b.Nil? then m[y].left == null else m[y].left == b.key && b.key in Keys(b))
  {
    Down(m, root, c, t.key, t);
    Down(m, root, IntoRight(c, t), t.right.key, t.right);
    Surroundings(m, root, c, t.key, t);
    Surroundings(m, root, IntoLeft(IntoRight(c, t), t.right), m[t.right.key].left, t.right.left);
  }

  lemma {:induction false} RotationApart(m: Mem, root: RbNode?, c: Ctx<RbNode>, t: Tree<RbNode>)
    requires t.Node? && t.right.Node? && At(m, root, c, t.key, t)
    ensures var (x, y, b, d) := (t.key, t.right.key, t.right.left, t.right.right);
      && x !in Keys(t.left) && x !in Keys(b) && Keys(t.left) !! Keys(b)
      && (var l := Keys(t.left) + {x} + Keys(b); y !in l && y !in Keys(d) && l !! Keys(d))
      && (var fixed := {x, y} + Spot(c) + Tip(b);
          Keys(t.left) !! fixed && Keys(d) !! fixed && (Keys(b) - Tip(b)) !! fixed)
  {
    Down(m, root, c, t.key, t);
  }

  lemma {:induction false} LeftRotationBelow(m: Mem, m': Mem, root: RbNode?, root': RbNode?, c: Ctx<RbNode>, t: Tree<RbNode>)
    requires t.Node? && t.right.Node? && At(m, root, c, t.key, t)
    requires TurnsLeft(m, t.key) && TurnedLeft(m, m', root, root', t.key)
    ensures Rep(m', t.right.key, Above(c), RotatedLeft(t))
  {
    var x, y, b := t.key, t.right.key, t.right.left;
    RotationReady(m, root, c, t);
    RotationApart(m, root, c, t);
    RepFrame(m, m', m[x].left, x, t.left);
    RepFrame(m, m', m[y].right, y, t.right.right);
    if b.Node? { Retopped(m, m', b.key, y, x, b.color, b); }
    assert Rep(m', x, y, Node(t.left, x, t.color, b));
  }

  lemma {:induction false} LeftRotation(m: Mem, m': Mem, root: RbNode?, root': RbNode?, c: Ctx<RbNode>, t: Tree<RbNode>)
    requires t.Node? && t.right.Node? && At(m, root, c, t.key, t)
    requires TurnsLeft(m, t.key) && TurnedLeft(m, m', root, root', t.key)
    ensures At(m', root', c, t.right.key, RotatedLeft(t))
  {
    LeftRotationBelow(m, m', root, root', c, t);
    RotationReady(m, root, c, t);
    Surroundings(m, root, c, t.key, t);
    ReroutedCtx(m, m', root, root', c, t.key, t.right.key);
  }

  // ------------------------------------------------------------- rotating right, by symmetry

  ghost function FlipMem(m: Mem): (r: Mem)
    ensures r.Keys == m.Keys
  {
    map k | k in m :: Cell(m[k].parent, m[k].color, m[k].right, m[k].left)
  }

  lemma {:induction false} FlipRep(m: Mem, n: RbNode?, p: RbNode?, t: Tree<RbNode>)
    requires Rep(m, n, p, t)
    ensures Rep(FlipMem(m), n, p, Flip(t))
    decreases t
  {
    match t
    case Nil =>
    case Node(l, k, _, r) =>
      FlipRep(m, m[k].left, k, l);
      FlipRep(m, m[k].right, k, r);
  }

  lemma {:induction false} FlipRepCtx(m: Mem, root: RbNode?, c: Ctx<RbNode>, hole: RbNode?)
    requires RepCtx(m, root, c, hole)
    ensures RepCtx(FlipMem(m), root, FlipCtx(c), hole)
  {
    match c
    case Top =>
    case InLeft(up, k, _, r) => FlipRep(m, m[k].right, k, r); FlipRepCtx(m, root, up, k);
    case InRight(l, k, _, up) => FlipRep(m, m[k].left, k, l); FlipRepCtx(m, root, up, k);
  }

  lemma {:induction false} FlipAt(m: Mem, root: RbNode?, c: Ctx<RbNode>, n: RbNode?, t: Tree<RbNode>)
    requires At(m, root, c, n, t)
    ensures At(FlipMem(m), root, FlipCtx(c), n, Flip(t))
  {
    FlipRep(m, n, Above(c), t);
    FlipRepCtx(m, root, c, n);
  }

  lemma {:induction false} FlipRotation<K>(t: Tree<K>)
    requires t.Node? && t.left.Node?
    ensures Flip(t).Node? && Flip(t).key == t.key && Flip(t).right.Node? && Flip(t).right.key == t.left.key
    ensures Flip(RotatedLeft(Flip(t))) == RotatedRight(t)
  {
    FlipFlip(t.left.left);
    FlipFlip(t.left.right);
    FlipFlip(t.right);
  }

  lemma {:induction false} RightReady(m: Mem, root: RbNode?, c: Ctx<RbNode>, t: Tree<RbNode>)
    requires t.Node? && t.left.Node? && At(m, root, c, t.key, t)
    ensures TurnsLeft(FlipMem(m), t.key)
  {
    FlipRotation(t);
    FlipAt(m, root, c, t.key, t);
    RotationReady(FlipMem(m), root, FlipCtx(c), Flip(t));
  }

  lemma {:induction false} RightRotation(m: Mem, m': Mem, root: RbNode?, root': RbNode?, c: Ctx<RbNode>, t: Tree<RbNode>)
    requires t.Node? && t.left.Node? && At(m, root, c, t.key, t)
    requires TurnsLeft(FlipMem(m), t.key) && TurnedLeft(FlipMem(m), FlipMem(m'), root, root', t.key)
    ensures At(m', root', c, t.left.key, RotatedRight(t))
  {
    FlipRotation(t);
    FlipAt(m, root, c, t.key, t);
    LeftRotation(FlipMem(m), FlipMem(m'), root, root', FlipCtx(c), Flip(t));
    FlipAt(FlipMem(m'), root', FlipCtx(c), t.left.key, RotatedLeft(Flip(t)));
    FlipFlipCtx(c);
    assert FlipMem(FlipMem(m')) == m';
  }

  // ------------------------------------------------------------- taking a node out

  /** A node with at most one child is bypassed: the link to it leads to that child. */
  ghost predicate Bypassed(m: Mem, m': Mem, root: RbNode?, root': RbNode?, n: RbNode, child: RbNode?) {
    && n in m && m'.Keys == m.Keys
    && var p := m[n].parent;
    && (child != null ==> child in m && m'[child] == m[child].(parent := p))
    && (if p == null then root' == child else
        && p in m && root' == root
        && m'[p] == if m[p].left == n then m[p].(left := child) else m[p].(right := child))
    && forall k :: k in m && k != n && k != child && k != p ==> m'[k] == m[k]
  }

  lemma {:induction false} Bypass(m: Mem, m': Mem, root: RbNode?, root': RbNode?,
                                  c: Ctx<RbNode>, t: Tree<RbNode>, child: RbNode?, u: Tree<RbNode>)
    requires t.Node? && At(m, root, c, t.key, t) && Bypassed(m, m', root, root', t.key, child)
    requires (t.left.Nil? && u == t.right && child == m[t.key].right) || (t.right.Nil? && u == t.left && child == m[t.key].left)
    ensures At(m', root', c, child, u)
  {
    Down(m, root, c, t.key, t);
    Surroundings(m, root, c, t.key, t);
    var cu := if u == t.left && t.right.Nil? then IntoLeft(c, t) else IntoRight(c, t);
    Surroundings(m, root, cu, child, u);
    if u.Node? {
      assert child in Keys(u);
      Retopped(m, m', child, t.key, Above(c), u.color, u);
    }
    ReroutedCtx(m, m', root, root', c, t.key, child);
  }

  /** `y` takes the place, the links and the colour of `z`. */
  ghost predicate Replaced(m: Mem, m': Mem, root: RbNode?, root': RbNode?, z: RbNode, y: RbNode) {
    && z in m && y in m && m'.Keys == m.Keys
    && var l, r, p := m[z].left, m[z].right, m[z].parent;
    && m'[y] == m[z]
    && (l != null ==> l in m && m'[l] == m[l].(parent := y))
    && (r != null ==> r in m && m'[r] == m[r].(parent := y))
    && (if p == null then root' == y else
        && p in m && root' == root
        && m'[p] == if m[p].left == z then m[p].(left := y) else m[p].(right := y))
    && forall k :: k in m && k != z && k != y && k != l && k != r && k != p ==> m'[k] == m[k]
  }

  lemma {:induction false} ReparentTip(m: Mem, m': Mem, n: RbNode?, q: RbNode?, p: RbNode?, t: Tree<RbNode>)
    requires Rep(m, n, q, t) && Agree(m, m', Keys(t) - Tip(t))
    requires n != null ==> n in m && n in m' && m'[n] == m[n].(parent := p)
    ensures Rep(m', n, p, t)
  {
    if t.Node? {
      Retopped(m, m', t.key, q, p, t.color, t);
    }
  }

  lemma {:induction false} Replace(m: Mem, m': Mem, root: RbNode?, root': RbNode?,
                                   c: Ctx<RbNode>, t: Tree<RbNode>, y: RbNode)
    requires t.Node? && At(m, root, c, t.key, t) && Replaced(m, m', root, root', t.key, y)
    requires y !in CtxKeys(c) && y !in Keys(t)
    ensures At(m', root', c, y, t.(key := y))
  {
    var z := t.key;
    Down(m, root, c, z, t);
    Surroundings(m, root, c, z, t);
    Surroundings(m, root, IntoLeft(c, t), m[z].left, t.left);
    Surroundings(m, root, IntoRight(c, t), m[z].right, t.right);
    ReparentTip(m, m', m[z].left, z, y, t.left);
    ReparentTip(m, m', m[z].right, z, y, t.right);
    ReroutedCtx(m, m', root, root', c, z, y);
  }

  /** The cells once `y` is bypassed, before it takes the place of `z`. */
  ghost function Unhooked(m: Mem, z: RbNode, y: RbNode): Mem
    requires y in m && m[y].parent != null && m[y].parent in m
  {
    var child, p := m[y].right, m[y].parent;
    var m1 := if child == null || child !in m then m else m[child := m[child].(parent := p)];
    m1[p := if p == z then m1[p].(right := child) else m1[p].(left := child)]
  }

  /** The pointers that rb_erase follows when the successor `y` takes the place of `z`. */
  ghost predicate CanReplace(m: Mem, z: RbNode, y: RbNode) {
    && z in m && y in m && z != y && m[y].left == null
    && m[z].left != null && m[z].right != null && m[y].parent != null
    && var l, r, q, child, p := m[z].left, m[z].right, m[z].parent, m[y].right, m[y].parent;
    && l in m && r in m && p in m
    && l != z && l != y && l != r && l != p && l != child && r != z && p != y
    && (child != null ==> child in m && child != z && child != y && child != p && child != r)
    && (q != null ==> && q in m && q != z && q != y && q != l && q != r && q != child && q != p
                      && (m[q].left == z) != (m[q].right == z))
    && (p == z <==> r == y)
    && (if p == z then child != null ==> m[child].parent == y else m[p].left == y)
  }

  /** The cells that rb_erase leaves behind in that case. */
  ghost predicate TookPlace(m: Mem, m': Mem, root: RbNode?, root': RbNode?, z: RbNode, y: RbNode)
    requires CanReplace(m, z, y)
  {
    var l, r, q, child, p := m[z].left, m[z].right, m[z].parent, m[y].right, m[y].parent;
    && m'.Keys == m.Keys
    && m'[y] == m[z].(right := if p == z then child else r)
    && m'[l] == m[l].(parent := y)
    && (p != z ==> if p == r then m'[p] == m[p].(left := child, parent := y)
                   else m'[p] == m[p].(left := child) && m'[r] == m[r].(parent := y))
    && (child != null ==> m'[child] == if p == z then m[child] else m[child].(parent := p))
    && (if q == null then root' == y else
        root' == root && m'[q] == if m[q].left == z then m[q].(left := y) else m[q].(right := y))
    && forall k :: k in m && k != z && k != y && k != l && k != r && k != q && k != child && k != p ==> m'[k] == m[k]
  }

  lemma {:induction false} TookPlaceReplaced(m: Mem, m': Mem, root: RbNode?, root': RbNode?, z: RbNode, y: RbNode)
    requires CanReplace(m, z, y) && TookPlace(m, m', root, root', z, y)
    ensures Replaced(Unhooked(m, z, y), m', root, root', z, y)
    ensures Bypassed(m, Unhooked(m, z, y), root, root, y, m[y].right)
  {
  }

  lemma {:induction false} RepDistinct(m: Mem, n: RbNode?, p: RbNode?, t: Tree<RbNode>)
    requires Rep(m, n, p, t)
    ensures Distinct(t)
    decreases t
  {
    match t
    case Nil =>
    case Node(l, k, _, r) =>
      RepDistinct(m, m[k].left, k, l);
      RepDistinct(m, m[k].right, k, r);
  }
}
