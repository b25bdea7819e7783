/** Sequences of calls on a red-black tree. */
module RbRuns {
  import opened RbShape
  import opened RbMemory
  import opened RbTree
  import opened Powers

  /** rb_link_node with rb_insert_color, or rb_erase. */
  datatype Call = Insert(node: RbNode, parent: RbNode?, onLeft: bool) | Erase(node: RbNode)

  /** A new node is hung into an empty slot; a node of the tree is erased. */
  predicate Allowed(root: RbRoot, members: set<RbNode>, c: Call)
    reads root, members
  {
    match c
    case Erase(n) => n in members
    case Insert(n, parent, onLeft) =>
      n !in members &&
      if parent == null then root.node == null
      else parent in members && null == if onLeft then parent.left else parent.right
  }

  method Perform(root: RbRoot, ghost members: set<RbNode>, c: Call)
    requires root.Valid() && Keys(root.tree) == members && Allowed(root, members, c)
    modifies root, members, c.node
    ensures root.Valid() && Keys(root.tree) == if c.Insert? then members + {c.node} else members - {c.node}
    ensures c.Insert? ==> Inorder(root.tree) == Placed(old(root.tree), c.node, c.parent, c.onLeft)
    ensures c.Erase? ==> Inorder(root.tree) == Front(old(root.tree), c.node) + Back(old(root.tree), c.node)
  {
    match c
    case Erase(n) => root.Erase(n);
    case Insert(n, parent, onLeft) =>
      root.LinkNode(n, parent, onLeft);
      ghost var t := root.tree;
      root.InsertColor(n);
      SameKeys(t, root.tree);
  }

  ghost function Nodes(calls: seq<Call>): set<RbNode> {
    set c | c in calls :: c.node
  }

  /**
   Any sequence of calls from the empty tree, those that are not allowed in their place being
   left out, ends with a valid tree of logarithmic height.
   */
  method Replay(root: RbRoot, calls: seq<Call>) returns (members: set<RbNode>)
    requires root.Valid() && root.tree == Nil
    modifies root, Nodes(calls)
    ensures root.Valid() && Keys(root.tree) == members
    ensures Pow2(Height(root.tree)) <= (|Inorder(root.tree)| + 1) * (|Inorder(root.tree)| + 1)
  {
    members := {};
    var i := 0;
    while i < |calls|
      invariant 0 <= i <= |calls| && root.Valid() && Keys(root.tree) == members && members <= Nodes(calls)
    {
      var c := calls[i];
      assert c in calls && c.node in Nodes(calls);
      if Allowed(root, members, c) {
        Perform(root, members, c);
        members := if c.Insert? then members + {c.node} else members - {c.node};
      }
      i := i + 1;
    }
    HeightLogarithmic(root.tree);
  }
}
