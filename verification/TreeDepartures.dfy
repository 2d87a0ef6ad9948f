/** Trees on which the erasure as written goes wrong, built by insertions. */
module TreeDepartures {
  import opened Moduli
  import opened RbShape
  import opened RbTrees

  /** A red-black tree of three nodes: a root over two leaves. */
  lemma ThreeNodes(t: Tree)
    requires NoRedRed(t) && Balanced(t) && ColorOf(t) == Black && |Inorder(t)| == 3
    ensures t.Bin? && t.left.Bin? && t.right.Bin?
    ensures t.left.left.Leaf? && t.left.right.Leaf? && t.right.left.Leaf? && t.right.right.Leaf?
  {
    Sizes(t);
    Sizes(t.left);
    Sizes(t.right);
  }

  /** A red-black tree of four nodes: one of the root's children is a black node without children. */
  lemma FourNodes(t: Tree)
    requires NoRedRed(t) && Balanced(t) && ColorOf(t) == Black && |Inorder(t)| == 4
    ensures t.Bin? && t.left.Bin? && t.right.Bin?
    ensures Lone(t.left) || Lone(t.right)
  {
    Sizes(t);
    Sizes(t.left);
    Sizes(t.right);
    if |Inorder(t.left)| == 1 {
      Sizes(t.right.left);
      Sizes(t.right.right);
    } else {
      Sizes(t.left.left);
      Sizes(t.left.right);
    }
  }

  predicate Lone(t: Tree) {
    t.Bin? && t.color == Black && t.left.Leaf? && t.right.Leaf?
  }

  /** With a child missing, the other one is a red leaf at most. */
  lemma Sizes(t: Tree)
    requires NoRedRed(t) && Balanced(t)
    ensures |Inorder(t)| == 0 <==> t.Leaf?
    ensures t.Bin? ==> |Inorder(t)| == |Inorder(t.left)| + 1 + |Inorder(t.right)|
    ensures t.Bin? && (t.left.Leaf? || t.right.Leaf?) ==>
              |Inorder(t)| <= 2 && BlackHeight(t) == if t.color == Black then 1 else 0
  {
    if t.Bin? && t.left.Leaf? && t.right.Bin? {
      assert t.right.color == Red;
      assert t.right.left.Leaf? && t.right.right.Leaf?;
    } else if t.Bin? && t.right.Leaf? && t.left.Bin? {
      assert t.left.color == Red;
      assert t.left.left.Leaf? && t.left.right.Leaf?;
    }
  }

  lemma Grandchildren(t: Tree)
    requires Linked(t, null) && Sep(t) && t.Bin? && t.left.Bin? && t.right.Bin?
    ensures var l, r := t.node.rbLeft, t.node.rbRight;
            && l == t.left.node && r == t.right.node && l != t.node && r != t.node && {t.node, l, r} <= Nodes(t)
            && l.rbLeft == Root(t.left.left) && l.rbRight == Root(t.left.right) && l.rbColor == t.left.color
            && r.rbLeft == Root(t.right.left) && r.rbRight == Root(t.right.right) && r.rbColor == t.right.color
  {
  }

  /** A tree of new nodes with the given keys, built by insertions alone. */
  method Grow(keys: seq<int>) returns (t: RbTree)
    ensures fresh(t) && fresh(Nodes(t.tree)) && t.RedBlack() && |Inorder(t.tree)| == |keys|
    ensures Height(t.tree) <= 2 * BlackHeight(t.tree) && Pow2(BlackHeight(t.tree)) <= |keys| + 1
  {
    t := new RbTree();
    for i := 0 to |keys|
      invariant fresh(t) && fresh(Nodes(t.tree)) && t.RedBlack() && |Inorder(t.tree)| == i
    {
      assert allocated(t.tree) && allocated(Nodes(t.tree));
      ghost var s := Inorder(t.tree);
      var n := new RbNode(keys[i]);
      ghost var p := PlaceSplits(s, n);
      t.doInsert(n);
    }
    HeightBound(t.tree);
  }

  /** Three insertions make a root with two children. */
  method ThreeInserts() returns (t: RbTree, n: RbNode)
    ensures fresh(t) && fresh(Nodes(t.tree)) && t.RedBlack() && n in Nodes(t.tree) && !t.AtMostOneChild(n)
    ensures n == t.root && n.rbRight != null && n.rbRight.rbLeft == null
  {
    t := Grow([1, 2, 3]);
    ThreeNodes(t.tree);
    Grandchildren(t.tree);
    n := t.root;
  }

  /** Erasing it runs to its end and leaves links that represent no tree of the other two. */
  method EraseBreaks() returns (t: RbTree, n: RbNode, end: Erasure)
    ensures end.Complete? && n in Nodes(t.tree) && forall u :: !t.Represents(u, Nodes(t.tree) - {n})
  {
    t, n := ThreeInserts();
    end := t.doErase(n);
  }

  /** Four insertions make a black node, not the root, without children. */
  method FourInserts() returns (t: RbTree, n: RbNode)
    ensures fresh(t) && fresh(Nodes(t.tree)) && t.RedBlack() && n in Nodes(t.tree) && t.AtMostOneChild(n)
    ensures n.rbColor == Black && n != t.root
  {
    t := Grow([1, 2, 3, 4]);
    FourNodes(t.tree);
    Grandchildren(t.tree);
    n := t.root.rbLeft;
    if n.rbLeft != null || n.rbRight != null {
      n := t.root.rbRight;
    }
  }

  /** Erasing it loses equal black heights. */
  method EraseUnbalances() returns (t: RbTree)
    ensures t.Valid() && !t.RedBlack()
  {
    var n: RbNode;
    t, n := FourInserts();
    var end := t.doErase(n);
  }
}
