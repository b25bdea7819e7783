/**
 The shape of a red-black tree as a value: trees, one-hole contexts, in-order
 sequences, and the balance invariants that lib/rbtree.c maintains.  Nothing here
 touches the heap; `RbTree` relates these values to linked nodes.
 */
module RbShape {
  import opened Wrappers
  import opened Powers

  datatype Color = Red | Black

  datatype Tree<K> = Nil | Node(left: Tree<K>, key: K, color: Color, right: Tree<K>)

  /** A tree with one subtree missing, seen from the hole upwards. */
  datatype Ctx<K> =
    | Top
    | InLeft(up: Ctx<K>, key: K, color: Color, right: Tree<K>)   // the hole is the left child of key
    | InRight(left: Tree<K>, key: K, color: Color, up: Ctx<K>)   // the hole is the right child of key

  function Inorder<K>(t: Tree<K>): seq<K> {
    match t
    case Nil => []
    case Node(l, k, _, r) => Inorder(l) + [k] + Inorder(r)
  }

  ghost function Keys<K>(t: Tree<K>): set<K> {
    match t
    case Nil => {}
    case Node(l, k, _, r) => Keys(l) + {k} + Keys(r)
  }

  /** The keys that precede, and follow, whatever is put into the hole. */
  function Before<K>(c: Ctx<K>): seq<K> {
    match c
    case Top => []
    case InLeft(up, _, _, _) => Before(up)
    case InRight(l, k, _, up) => Before(up) + Inorder(l) + [k]
  }

  function After<K>(c: Ctx<K>): seq<K> {
    match c
    case Top => []
    case InLeft(up, k, _, r) => [k] + Inorder(r) + After(up)
    case InRight(_, _, _, up) => After(up)
  }

  ghost function CtxKeys<K>(c: Ctx<K>): set<K> {
    match c
    case Top => {}
    case InLeft(up, k, _, r) => CtxKeys(up) + {k} + Keys(r)
    case InRight(l, k, _, up) => CtxKeys(up) + {k} + Keys(l)
  }

  function Plug<K>(c: Ctx<K>, t: Tree<K>): Tree<K> {
    match c
    case Top => t
    case InLeft(up, k, col, r) => Plug(up, Node(t, k, col, r))
    case InRight(l, k, col, up) => Plug(up, Node(l, k, col, t))
  }

  function Depth<K>(c: Ctx<K>): nat {
    match c
    case Top => 0
    case InLeft(up, _, _, _) => 1 + Depth(up)
    case InRight(_, _, _, up) => 1 + Depth(up)
  }

  /** No key occurs twice. */
  ghost predicate Distinct<K>(t: Tree<K>) {
    match t
    case Nil => true
    case Node(l, k, _, r) =>
      k !in Keys(l) && k !in Keys(r) && Keys(l) !! Keys(r) && Distinct(l) && Distinct(r)
  }

  predicate IsRed<K>(t: Tree<K>) {
    t.Node? && t.color.Red?
  }

  /** `t` has no red node with a red child, and every path from its root to a
      missing child passes exactly `h` black nodes. */
  predicate Balanced<K>(t: Tree<K>, h: nat) {
    match t
    case Nil => h == 0
    case Node(l, _, Red, r) => !IsRed(l) && !IsRed(r) && Balanced(l, h) && Balanced(r, h)
    case Node(l, _, Black, r) => h > 0 && Balanced(l, h - 1) && Balanced(r, h - 1)
  }

  function BlackHeight<K>(t: Tree<K>): nat {
    match t
    case Nil => 0
    case Node(l, _, Red, _) => BlackHeight(l)
    case Node(l, _, Black, _) => BlackHeight(l) + 1
  }

  predicate RedBlack<K>(t: Tree<K>) {
    !IsRed(t) && Balanced(t, BlackHeight(t))
  }

  /** The context is balanced provided the hole gets black height `h`; nothing is
      said yet about the colour of what goes into the hole. */
  predicate Open<K>(c: Ctx<K>, h: nat) {
    match c
    case Top => true
    case InLeft(up, _, col, r) => Balanced(r, h) && Joint(up, col, r) && Open(up, Grow(col, h))
    case InRight(l, _, col, up) => Balanced(l, h) && Joint(up, col, l) && Open(up, Grow(col, h))
  }

  /** A red node on the path has a black parent and a black (or missing) other child. */
  predicate Joint<K>(up: Ctx<K>, col: Color, other: Tree<K>) {
    col.Red? ==> !IsRed(other) && BlackAbove(up)
  }

  predicate BlackAbove<K>(c: Ctx<K>) {
    !c.Top? && c.color.Black?
  }

  function Grow(col: Color, h: nat): nat {
    if col.Black? then h + 1 else h
  }

  // ------------------------------------------------------------- plugging

  lemma {:induction false} Regroup<T>(a: seq<T>, b: seq<T>, c: seq<T>, d: seq<T>, e: seq<T>)
    ensures a + (b + c + d) + e == a + b + (c + d + e) == (a + b + c) + d + e
    ensures a + b + (c + d + e) == a + (b + (c + (d + e)))
  {
  }

  lemma {:induction false} PlugInorder<K>(c: Ctx<K>, t: Tree<K>)
    ensures Inorder(Plug(c, t)) == Before(c) + Inorder(t) + After(c)
  {
    match c
    case Top =>
    case InLeft(up, k, col, r) =>
      PlugInorder(up, Node(t, k, col, r));
      Regroup(Before(up), Inorder(t), [k], Inorder(r), After(up));
    case InRight(l, k, col, up) =>
      PlugInorder(up, Node(l, k, col, t));
      Regroup(Before(up), Inorder(l), [k], Inorder(t), After(up));
  }

  lemma {:induction false} SameOrder<K>(c: Ctx<K>, t: Tree<K>, t': Tree<K>)
    requires Inorder(t) == Inorder(t')
    ensures Inorder(Plug(c, t)) == Inorder(Plug(c, t'))
  {
    PlugInorder(c, t);
    PlugInorder(c, t');
  }

  lemma {:induction false} PlugKeys<K>(c: Ctx<K>, t: Tree<K>)
    ensures Keys(Plug(c, t)) == CtxKeys(c) + Keys(t)
  {
    match c
    case Top =>
    case InLeft(up, k, col, r) => PlugKeys(up, Node(t, k, col, r));
    case InRight(l, k, col, up) => PlugKeys(up, Node(l, k, col, t));
  }

  lemma {:induction false} BlackHeightUnique<K>(t: Tree<K>, h: nat)
    requires Balanced(t, h)
    ensures h == BlackHeight(t)
  {
    match t
    case Nil =>
    case Node(l, _, Red, _) => BlackHeightUnique(l, h);
    case Node(l, _, Black, _) => BlackHeightUnique(l, h - 1);
  }

  /** A balanced subtree whose root colour suits the hole completes the context. */
  lemma {:induction false} PlugRedBlack<K>(c: Ctx<K>, t: Tree<K>, h: nat)
    requires Balanced(t, h) && Open(c, h)
    requires IsRed(t) ==> BlackAbove(c)
    ensures RedBlack(Plug(c, t))
  {
    match c
    case Top => BlackHeightUnique(t, h);
    case InLeft(up, k, col, r) => PlugRedBlack(up, Node(t, k, col, r), Grow(col, h));
    case InRight(l, k, col, up) => PlugRedBlack(up, Node(l, k, col, t), Grow(col, h));
  }

  /** Conversely, every subtree of a red-black tree is balanced and sits in an open context. */
  lemma {:induction false} UnplugRedBlack<K>(c: Ctx<K>, t: Tree<K>)
    requires RedBlack(Plug(c, t))
    ensures Balanced(t, BlackHeight(t)) && Open(c, BlackHeight(t))
    ensures IsRed(t) ==> BlackAbove(c)
  {
    match c
    case Top =>
    case InLeft(up, k, col, r) =>
      UnplugRedBlack(up, Node(t, k, col, r));
    case InRight(l, k, col, up) =>
      UnplugRedBlack(up, Node(l, k, col, t));
      BlackHeightUnique(t, BlackHeight(l));
  }

  // ------------------------------------------------------------- one step up or down

  /** The subtree one level above the hole, once the hole is filled with `t`. */
  function Close<K>(c: Ctx<K>, t: Tree<K>): (r: Tree<K>)
    requires !c.Top?
    ensures Plug(c.up, r) == Plug(c, t)
    ensures r.Node? && r.key == c.key && r.color == c.color
  {
    match c
    case InLeft(_, k, col, r) => Node(t, k, col, r)
    case InRight(l, k, col, _) => Node(l, k, col, t)
  }

  /** The subtree next to the hole. */
  function Sibling<K>(c: Ctx<K>): Tree<K>
    requires !c.Top?
  {
    if c.InLeft? then c.right else c.left
  }

  /** The context around the sibling, once the hole of `c` is filled with `t`. */
  function Beside<K>(c: Ctx<K>, t: Tree<K>): (r: Ctx<K>)
    requires !c.Top?
    ensures Plug(r, Sibling(c)) == Plug(c, t)
    ensures !r.Top? && r.key == c.key && r.up == c.up && r.color == c.color && Sibling(r) == t
  {
    match c
    case InLeft(up, k, col, _) => InRight(t, k, col, up)
    case InRight(_, k, col, up) => InLeft(up, k, col, t)
  }

  function Painted<K>(t: Tree<K>, col: Color): (r: Tree<K>)
    ensures Inorder(r) == Inorder(t) && r.Node? == t.Node?
  {
    if t.Nil? then Nil else t.(color := col)
  }

  function IntoLeft<K>(c: Ctx<K>, t: Tree<K>): (r: Ctx<K>)
    requires t.Node?
    ensures Plug(r, t.left) == Plug(c, t)
  {
    InLeft(c, t.key, t.color, t.right)
  }

  function IntoRight<K>(c: Ctx<K>, t: Tree<K>): (r: Ctx<K>)
    requires t.Node?
    ensures Plug(r, t.right) == Plug(c, t)
  {
    InRight(t.left, t.key, t.color, c)
  }

  // ------------------------------------------------------------- rotations and mirror images

  function RotatedLeft<K>(t: Tree<K>): (r: Tree<K>)
    requires t.Node? && t.right.Node?
    ensures Inorder(r) == Inorder(t)
  {
    var Node(b, y, yc, d) := t.right;
    Regroup(Inorder(t.left), [t.key], Inorder(b), [y], Inorder(d));
    Node(Node(t.left, t.key, t.color, b), y, yc, d)
  }

  function RotatedRight<K>(t: Tree<K>): (r: Tree<K>)
    requires t.Node? && t.left.Node?
    ensures Inorder(r) == Inorder(t)
  {
    var Node(a, x, xc, b) := t.left;
    Regroup(Inorder(a), [x], Inorder(b), [t.key], Inorder(t.right));
    Node(a, x, xc, Node(b, t.key, t.color, t.right))
  }

  function Flip<K>(t: Tree<K>): (r: Tree<K>)
    ensures Keys(r) == Keys(t) && r.Nil? == t.Nil?
  {
    match t
    case Nil => Nil
    case Node(l, k, col, r) => Node(Flip(r), k, col, Flip(l))
  }

  function FlipCtx<K>(c: Ctx<K>): (r: Ctx<K>)
    ensures CtxKeys(r) == CtxKeys(c)
  {
    match c
    case Top => Top
    case InLeft(up, k, col, r) => InRight(Flip(r), k, col, FlipCtx(up))
    case InRight(l, k, col, up) => InLeft(FlipCtx(up), k, col, Flip(l))
  }

  lemma {:induction false} FlipFlip<K>(t: Tree<K>)
    ensures Flip(Flip(t)) == t
  {
    match t
    case Nil =>
    case Node(l, _, _, r) => FlipFlip(l); FlipFlip(r);
  }

  lemma {:induction false} FlipFlipCtx<K>(c: Ctx<K>)
    ensures FlipCtx(FlipCtx(c)) == c
  {
    match c
    case Top =>
    case InLeft(up, _, _, r) => FlipFlip(r); FlipFlipCtx(up);
    case InRight(l, _, _, up) => FlipFlip(l); FlipFlipCtx(up);
  }

  // ------------------------------------------------------------- locating a key

  /** The context and subtree at which `k` sits, starting from `t` inside `c`. */
  ghost function LocateFrom<K>(c: Ctx<K>, t: Tree<K>, k: K): (r: (Ctx<K>, Tree<K>))
    requires k in Keys(t)
    ensures Plug(r.0, r.1) == Plug(c, t)
    ensures r.1.Node? && r.1.key == k
    decreases t
  {
    if k == t.key then (c, t)
    else if k in Keys(t.left) then LocateFrom(InLeft(c, t.key, t.color, t.right), t.left, k)
    else LocateFrom(InRight(t.left, t.key, t.color, c), t.right, k)
  }

  ghost function Locate<K>(t: Tree<K>, k: K): (r: (Ctx<K>, Tree<K>))
    requires k in Keys(t)
    ensures Plug(r.0, r.1) == t
    ensures r.1.Node? && r.1.key == k
  {
    LocateFrom(Top, t, k)
  }

  /** In a tree without repeated keys there is only one way to reach a key. */
  lemma {:induction false} LocatePlugged<K>(c: Ctx<K>, t: Tree<K>, k: K)
    requires t.Node? && t.key == k && Distinct(Plug(c, t))
    ensures k in Keys(Plug(c, t)) && Locate(Plug(c, t), k) == (c, t)
  {
    PlugKeys(c, t);
    LocatePluggedFrom(c, t, k);
  }

  lemma {:induction false} DistinctPlug<K>(c: Ctx<K>, t: Tree<K>)
    requires Distinct(Plug(c, t))
    ensures Distinct(t) && CtxKeys(c) !! Keys(t)
  {
    match c
    case Top =>
    case InLeft(up, k, col, r) => DistinctPlug(up, Node(t, k, col, r));
    case InRight(l, k, col, up) => DistinctPlug(up, Node(l, k, col, t));
  }

  lemma {:induction false} LocatePluggedFrom<K>(c: Ctx<K>, t: Tree<K>, k: K)
    requires Distinct(Plug(c, t)) && k in Keys(t) && k in Keys(Plug(c, t))
    ensures Locate(Plug(c, t), k) == LocateFrom(c, t, k)
  {
    DistinctPlug(c, t);
    match c
    case Top =>
    case InLeft(up, k', col, r) =>
      LocatePluggedFrom(up, Node(t, k', col, r), k);
    case InRight(l, k', col, up) =>
      LocatePluggedFrom(up, Node(l, k', col, t), k);
      DistinctPlug(up, Node(l, k', col, t));
  }

  lemma {:induction false} InorderKeys<K>(t: Tree<K>)
    ensures Keys(t) == set k | k in Inorder(t)
  {
    match t
    case Nil =>
    case Node(l, _, _, r) => InorderKeys(l); InorderKeys(r);
  }

  lemma {:induction false} SameKeys<K>(t: Tree<K>, t': Tree<K>)
    requires Inorder(t) == Inorder(t')
    ensures Keys(t) == Keys(t')
  {
    InorderKeys(t);
    InorderKeys(t');
  }

  // ------------------------------------------------------------- order of keys

  /** What precedes and what follows `k` in order. */
  ghost function Front<K>(t: Tree<K>, k: K): seq<K>
    requires k in Keys(t)
  {
    var (c, s) := Locate(t, k);
    Before(c) + Inorder(s.left)
  }

  ghost function Back<K>(t: Tree<K>, k: K): seq<K>
    requires k in Keys(t)
  {
    var (c, s) := Locate(t, k);
    Inorder(s.right) + After(c)
  }

  lemma {:induction false} FrontBack<K>(t: Tree<K>, k: K)
    requires k in Keys(t)
    ensures Inorder(t) == Front(t, k) + [k] + Back(t, k)
  {
    var (c, s) := Locate(t, k);
    PlugInorder(c, s);
    Regroup(Before(c), Inorder(s.left), [k], Inorder(s.right), After(c));
  }

  lemma {:induction false} Reassociate<T>(a: seq<T>, b: seq<T>, c: seq<T>, d: seq<T>)
    ensures (a + b + c) + d == a + (b + c + d)
  {
  }

  /** Goes left from `t` as far as possible. */
  function Leftmost<K>(c: Ctx<K>, t: Tree<K>): (r: (Ctx<K>, Tree<K>))
    requires t.Node?
    ensures r.1.Node? && r.1.left.Nil? && Plug(r.0, r.1) == Plug(c, t)
    decreases t
  {
    if t.left.Nil? then (c, t) else Leftmost(IntoLeft(c, t), t.left)
  }

  lemma {:induction false} LeftmostOrder<K>(c: Ctx<K>, t: Tree<K>)
    requires t.Node?
    ensures var (d, u) := Leftmost(c, t);
      && Before(d) == Before(c)
      && Inorder(t) + After(c) == [u.key] + Inorder(u.right) + After(d)
    decreases t
  {
    if t.left.Node? {
      LeftmostOrder(IntoLeft(c, t), t.left);
      Reassociate(Inorder(t.left), [t.key], Inorder(t.right), After(c));
    }
  }

  function Rightmost<K>(c: Ctx<K>, t: Tree<K>): (r: (Ctx<K>, Tree<K>))
    requires t.Node?
    ensures r.1.Node? && r.1.right.Nil? && Plug(r.0, r.1) == Plug(c, t)
    decreases t
  {
    if t.right.Nil? then (c, t) else Rightmost(IntoRight(c, t), t.right)
  }

  lemma {:induction false} RightmostOrder<K>(c: Ctx<K>, t: Tree<K>)
    requires t.Node?
    ensures var (d, u) := Rightmost(c, t);
      && After(d) == After(c)
      && Before(c) + Inorder(t) == Before(d) + Inorder(u.left) + [u.key]
    decreases t
  {
    if t.right.Node? {
      RightmostOrder(IntoRight(c, t), t.right);
      Reassociate(Before(c), Inorder(t.left), [t.key], Inorder(t.right));
    } else {
      assert Inorder(t) == Inorder(t.left) + [t.key];
      Reassociate(Before(c), Inorder(t.left), [t.key], []);
    }
  }

  lemma {:induction false} DistinctNoRepeats<K>(t: Tree<K>)
    requires Distinct(t)
    ensures NoRepeats(Inorder(t))
  {
    match t
    case Nil =>
    case Node(l, k, _, r) =>
      DistinctNoRepeats(l);
      DistinctNoRepeats(r);
      InorderKeys(l);
      InorderKeys(r);
      assert forall i :: 0 <= i < |Inorder(l)| ==> Inorder(l)[i] in Keys(l);
      assert forall i :: 0 <= i < |Inorder(r)| ==> Inorder(r)[i] in Keys(r);
  }

  lemma {:induction false} SplitUnique<T>(a: seq<T>, x: T, b: seq<T>, a': seq<T>, b': seq<T>)
    requires a + [x] + b == a' + [x] + b' && NoRepeats(a + [x] + b)
    ensures a == a' && b == b'
  {
    var s := a + [x] + b;
    assert s[|a|] == x && s[|a'|] == x;
    assert |a| == |a'|;
    assert a == s[..|a|] == a';
    assert b == s[|a| + 1..] == b';
  }

  /** The key at position `i` has what precedes it in front and what follows it behind. */
  lemma {:induction false} Position<K>(t: Tree<K>, i: nat)
    requires Distinct(t) && i < |Inorder(t)|
    ensures var k := Inorder(t)[i];
      k in Keys(t) && Front(t, k) == Inorder(t)[..i] && Back(t, k) == Inorder(t)[i + 1..]
  {
    var k := Inorder(t)[i];
    InorderKeys(t);
    FrontBack(t, k);
    DistinctNoRepeats(t);
    assert Inorder(t) == Inorder(t)[..i] + [k] + Inorder(t)[i + 1..];
    SplitUnique(Front(t, k), k, Back(t, k), Inorder(t)[..i], Inorder(t)[i + 1..]);
  }

  lemma {:induction false} EndKeys<K>(t: Tree<K>)
    requires t.Node?
    ensures Inorder(t) != []
    ensures Leftmost(Top, t).1.key == Inorder(t)[0]
    ensures Rightmost(Top, t).1.key == Inorder(t)[|Inorder(t)| - 1]
  {
    LeftmostOrder(Top, t);
    RightmostOrder(Top, t);
    assert Inorder(t) + After(Top) == Inorder(t) == Before(Top) + Inorder(t);
  }

  /** Neighbours in order agree on where they stand, so walking forward and back returns. */
  lemma {:induction false} Neighbours<K>(t: Tree<K>, x: K, y: K)
    requires Distinct(t) && x in Keys(t) && Back(t, x) != [] && y == Back(t, x)[0]
    ensures y in Keys(t) && Back(t, y) == Back(t, x)[1..] && Front(t, y) == Front(t, x) + [x]
  {
    FrontBack(t, x);
    InorderKeys(t);
    assert y in Back(t, x);
    FrontBack(t, y);
    DistinctNoRepeats(t);
    assert Inorder(t) == (Front(t, x) + [x]) + [y] + Back(t, x)[1..];
    SplitUnique(Front(t, y), y, Back(t, y), Front(t, x) + [x], Back(t, x)[1..]);
  }

  lemma {:induction false} LastHasNoBack<K>(t: Tree<K>, x: K)
    requires Distinct(t) && x in Keys(t)
    ensures Inorder(t) != [] && (Back(t, x) == [] <==> x == Inorder(t)[|Inorder(t)| - 1])
  {
    FrontBack(t, x);
    DistinctNoRepeats(t);
    var i := |Front(t, x)|;
    assert Inorder(t)[i] == x;
  }

  // ------------------------------------------------------------- height

  function Size<K>(t: Tree<K>): nat {
    match t
    case Nil => 0
    case Node(l, _, _, r) => Size(l) + 1 + Size(r)
  }

  function Height<K>(t: Tree<K>): nat {
    match t
    case Nil => 0
    case Node(l, _, _, r) => 1 + if Height(l) < Height(r) then Height(r) else Height(l)
  }

  lemma {:induction false} BalancedBounds<K>(t: Tree<K>, h: nat)
    requires Balanced(t, h)
    ensures Height(t) <= 2 * h + (if IsRed(t) then 1 else 0)
    ensures Pow2(h) <= Size(t) + 1
  {
    match t
    case Nil =>
    case Node(l, _, Red, r) => BalancedBounds(l, h); BalancedBounds(r, h);
    case Node(l, _, Black, r) => BalancedBounds(l, h - 1); BalancedBounds(r, h - 1);
  }

  lemma {:induction false} SquareMono(a: nat, b: nat)
    requires a <= b
    ensures a * a <= b * b
  {
    assert a * a <= b * a <= b * b;
  }

  /** A red-black tree of n nodes has height at most 2*log2(n + 1). */
  lemma {:induction false} HeightLogarithmic<K>(t: Tree<K>)
    requires RedBlack(t)
    ensures Pow2(Height(t)) <= (|Inorder(t)| + 1) * (|Inorder(t)| + 1)
  {
    SizeInorder(t);
    var h := BlackHeight(t);
    BalancedBounds(t, h);
    Pow2Mono(Height(t), h + h);
    Pow2Add(h, h);
    SquareMono(Pow2(h), Size(t) + 1);
  }

  lemma {:induction false} SizeInorder<K>(t: Tree<K>)
    ensures Size(t) == |Inorder(t)|
  {
    match t
    case Nil =>
    case Node(l, _, _, r) => SizeInorder(l); SizeInorder(r);
  }
}
