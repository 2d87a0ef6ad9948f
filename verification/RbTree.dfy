/** The intrusive red-black tree: the pointer code of RbTree, proved against the trees and paths of
    RbShape. The ghost field `tree` is what the links represent. */
module RbTrees {
  import opened Moduli
  import opened RbShape

  // ----- rotations, on trees and on links -----

  ghost function RotatedLeft(t: Tree): Tree
    requires t.Bin? && t.right.Bin?
  {
    Bin(Bin(t.left, t.node, t.color, t.right.left), t.right.node, t.right.color, t.right.right)
  }

  ghost function RotatedRight(t: Tree): Tree
    requires t.Bin? && t.left.Bin?
  {
    Bin(t.left.left, t.left.node, t.left.color, Bin(t.left.right, t.node, t.color, t.right))
  }

  /** The parts a rotation touches one by one do not overlap. */
  lemma ApartLeft(z: Spot)
    requires z.sub.Bin? && z.sub.right.Bin? && Sep(z.sub) && SepPath(z.path, Nodes(z.sub))
    ensures
      var t, p := z.sub, z.path;
      var x, y := t.node, t.right.node;
      var a, b, c := Nodes(t.left), Nodes(t.right.left), Nodes(t.right.right);
      && x != y && a !! b !! c !! {x, y} && PathNodes(p) !! Nodes(t)
      && Nodes(t) == a + b + c + {x, y} == Nodes(RotatedLeft(t))
    ensures
      var p := z.path;
      !p.Top? ==> p.node in PathNodes(p) && p.node !in Nodes(Side(p)) + PathNodes(p.up)
    ensures Sep(z.sub.right.left) && Sep(RotatedLeft(z.sub))
  {
    SepPathDisjoint(z.path, Nodes(z.sub));
    assert Sep(z.sub.right) && Sep(z.sub.right.left);
  }

  /** The nodes whose links a left rotation rewrites, and how they stand before it. */
  lemma CastLeft(z: Spot)
    requires z.sub.Bin? && z.sub.right.Bin? && Sep(z.sub) && SepPath(z.path, Nodes(z.sub))
    requires Linked(z.sub, Head(z.path)) && LinkedPath(z.path, z.sub.node)
    ensures
      var x, y, b, h := z.sub.node, z.sub.right.node, Root(z.sub.right.left), Head(z.path);
      && x != y && b != x && b != y && h != x && h != y && (b == h ==> b == null)
      && x in Around(z) && y in Around(z) && (b != null ==> b in Around(z)) && (h != null ==> h in Around(z))
      && x.rbRight == y && y.rbLeft == b && x.rbParent == h && (b != null ==> b.rbParent == y)
      && (h != null ==> (h.rbLeft == x <==> z.path.GoLeft?) && (h.rbRight == x <==> z.path.GoRight?))
  {
    ApartLeft(z);
    assert Linked(z.sub.right, z.sub.node) && Linked(z.sub.right.left, z.sub.right.node);
  }

  /** The links a left rotation leaves behind, node by node. */
  twostate predicate TurnedLeft(z: Spot)
    requires z.sub.Bin? && z.sub.right.Bin?
    reads Around(z)
  {
    TurnedLeftIn(Around(z), z)
  }

  twostate predicate TurnedLeftIn(s: set<RbNode>, z: Spot)
    requires z.sub.Bin? && z.sub.right.Bin?
    reads s
  {
    var p, x, y, b := z.path, z.sub.node, z.sub.right.node, Root(z.sub.right.left);
    forall n :: n in s ==>
      && n.rbLeft == (if n == y then x else if p.GoLeft? && n == p.node then y else old(n.rbLeft))
      && n.rbRight == (if n == x then b else if p.GoRight? && n == p.node then y else old(n.rbRight))
      && n.rbParent == (if n == x then y else if n == y then Head(p) else if n == b then x else old(n.rbParent))
      && n.rbColor == old(n.rbColor)
  }

  twostate lemma TurnedLeftPath(z: Spot)
    requires z.sub.Bin? && z.sub.right.Bin? && Sep(z.sub) && SepPath(z.path, Nodes(z.sub))
    requires old(LinkedPath(z.path, z.sub.node))
    requires TurnedLeft(z)
    ensures LinkedPath(z.path, z.sub.right.node)
  {
    ApartLeft(z);
    PathRefilled(z.path);
  }

  twostate lemma TurnedLeftLinked(z: Spot)
    requires z.sub.Bin? && z.sub.right.Bin? && Sep(z.sub) && SepPath(z.path, Nodes(z.sub))
    requires old(Linked(z.sub, Head(z.path)))
    requires TurnedLeft(z)
    ensures Linked(RotatedLeft(z.sub), Head(z.path))
  {
    ApartLeft(z);
    assert old(Linked(z.sub.right, z.sub.node) && Linked(z.sub.right.left, z.sub.right.node)
        && Linked(z.sub.right.right, z.sub.right.node));
    LinkedKept(z.sub.left);
    LinkedKept(z.sub.right.right);
    LinkedMoved(z.sub.right.left);
  }

  /** The parts a rotation touches one by one do not overlap. */
  lemma ApartRight(z: Spot)
    requires z.sub.Bin? && z.sub.left.Bin? && Sep(z.sub) && SepPath(z.path, Nodes(z.sub))
    ensures
      var t, p := z.sub, z.path;
      var x, y := t.node, t.left.node;
      var a, b, c := Nodes(t.right), Nodes(t.left.right), Nodes(t.left.left);
      && x != y && a !! b !! c !! {x, y} && PathNodes(p) !! Nodes(t)
      && Nodes(t) == a + b + c + {x, y} == Nodes(RotatedRight(t))
    ensures
      var p := z.path;
      !p.Top? ==> p.node in PathNodes(p) && p.node !in Nodes(Side(p)) + PathNodes(p.up)
    ensures Sep(z.sub.left.right) && Sep(RotatedRight(z.sub))
  {
    SepPathDisjoint(z.path, Nodes(z.sub));
    assert Sep(z.sub.left) && Sep(z.sub.left.right);
  }

  /** The nodes whose links a right rotation rewrites, and how they stand before it. */
  lemma CastRight(z: Spot)
    requires z.sub.Bin? && z.sub.left.Bin? && Sep(z.sub) && SepPath(z.path, Nodes(z.sub))
    requires Linked(z.sub, Head(z.path)) && LinkedPath(z.path, z.sub.node)
    ensures
      var x, y, b, h := z.sub.node, z.sub.left.node, Root(z.sub.left.right), Head(z.path);
      && x != y && b != x && b != y && h != x && h != y && (b == h ==> b == null)
      && x in Around(z) && y in Around(z) && (b != null ==> b in Around(z)) && (h != null ==> h in Around(z))
      && x.rbLeft == y && y.rbRight == b && x.rbParent == h && (b != null ==> b.rbParent == y)
      && (h != null ==> (h.rbRight == x <==> z.path.GoRight?) && (h.rbLeft == x <==> z.path.GoLeft?))
  {
    ApartRight(z);
    assert Linked(z.sub.left, z.sub.node) && Linked(z.sub.left.right, z.sub.left.node);
  }

  /** The links a right rotation leaves behind, node by node. */
  twostate predicate TurnedRight(z: Spot)
    requires z.sub.Bin? && z.sub.left.Bin?
    reads Around(z)
  {
    TurnedRightIn(Around(z), z)
  }

  twostate predicate TurnedRightIn(s: set<RbNode>, z: Spot)
    requires z.sub.Bin? && z.sub.left.Bin?
    reads s
  {
    var p, x, y, b := z.path, z.sub.node, z.sub.left.node, Root(z.sub.left.right);
    forall n :: n in s ==>
      && n.rbRight == (if n == y then x else if p.GoRight? && n == p.node then y else old(n.rbRight))
      && n.rbLeft == (if n == x then b else if p.GoLeft? && n == p.node then y else old(n.rbLeft))
      && n.rbParent == (if n == x then y else if n == y then Head(p) else if n == b then x else old(n.rbParent))
      && n.rbColor == old(n.rbColor)
  }

  twostate lemma TurnedRightPath(z: Spot)
    requires z.sub.Bin? && z.sub.left.Bin? && Sep(z.sub) && SepPath(z.path, Nodes(z.sub))
    requires old(LinkedPath(z.path, z.sub.node))
    requires TurnedRight(z)
    ensures LinkedPath(z.path, z.sub.left.node)
  {
    ApartRight(z);
    PathRefilled(z.path);
  }

  twostate lemma TurnedRightLinked(z: Spot)
    requires z.sub.Bin? && z.sub.left.Bin? && Sep(z.sub) && SepPath(z.path, Nodes(z.sub))
    requires old(Linked(z.sub, Head(z.path)))
    requires TurnedRight(z)
    ensures Linked(RotatedRight(z.sub), Head(z.path))
  {
    ApartRight(z);
    assert old(Linked(z.sub.left, z.sub.node) && Linked(z.sub.left.left, z.sub.left.node)
        && Linked(z.sub.left.right, z.sub.left.node));
    LinkedKept(z.sub.right);
    LinkedKept(z.sub.left.left);
    LinkedMoved(z.sub.left.right);
  }

  // ----- the repair loop, on trees -----

  /** At most one red-red edge, and only between the place and its parent; the root above is black. */
  ghost predicate Repairable(z: Spot) {
    && z.sub.Bin? && NoRedRed(z.sub) && PathNoRedRed(z.path, Black)
    && (!z.path.Top? ==> TopColor(z.path, Black) == Black)
  }

  /** Red grandparent over two black children. */
  ghost function Recoloured(t: Tree): Tree
    requires t.Bin? && t.left.Bin? && t.right.Bin?
  {
    Bin(Painted(t.left, Black), t.node, Red, Painted(t.right, Black))
  }

  /** The last step of a rotation: the old and the new top exchange colours. */
  ghost function SwappedRight(t: Tree): Tree
    requires t.Bin? && t.right.Bin?
  {
    Bin(t.left, t.node, t.right.color, Painted(t.right, t.color))
  }

  ghost function SwappedLeft(t: Tree): Tree
    requires t.Bin? && t.left.Bin?
  {
    Bin(Painted(t.left, t.color), t.node, t.left.color, t.right)
  }

  /** The repair may start its next round at `next`: two levels up, at most one red-red edge, and
      no difference in order, nodes or black heights. */
  ghost predicate Steps(z: Spot, next: Spot) {
    && Repairable(next) && next.path < z.path
    && Interchangeable(Whole(z), Whole(next)) && Around(next) == Around(z)
  }

  /** While a round has work to do, there is a black grandparent. */
  ghost predicate HasWork(z: Spot) {
    Repairable(z) && z.sub.color == Red && !z.path.Top? && z.path.color == Red
  }

  lemma GrandParent(z: Spot)
    requires HasWork(z)
    ensures !z.path.up.Top? && z.path.up.color == Black
    ensures Whole(Lift(Lift(z))) == Whole(z) && Around(Lift(Lift(z))) == Around(z)
    ensures PathNoRedRed(z.path.up.up, Black) && NoRedRed(Side(z.path)) && NoRedRed(Side(z.path.up))
    ensures ColorOf(Side(z.path)) == Black
    ensures !z.path.up.up.Top? ==> TopColor(z.path.up.up, Black) == Black
  {
    assert PathNoRedRed(z.path.up, Red) && TopColor(z.path.up, Red) == Black;
    assert PathNoRedRed(z.path.up.up, z.path.up.color);
    var y := Lift(z);
    assert Whole(y) == Whole(z) && Around(y) == Around(z) && Lift(y).path == z.path.up.up;
  }

  lemma RoundEnds(z: Spot, next: Spot)
    requires HasWork(z) && Repairable(next)
    requires !z.path.up.Top? && next.path == z.path.up.up
    requires Interchangeable(Lift(Lift(z)).sub, next.sub)
    ensures Steps(z, next)
  {
    GrandParent(z);
    InterchangeablePlug(next.path, Lift(Lift(z)).sub, next.sub);
  }

  lemma Repainting(t: Tree, c: Color)
    requires t.Bin?
    ensures Inorder(Painted(t, c)) == Inorder(t) && Nodes(Painted(t, c)) == Nodes(t)
    ensures Balanced(Painted(t, c)) <==> Balanced(t)
    ensures t.color == Red && c == Black ==> BlackHeight(Painted(t, c)) == BlackHeight(t) + 1
    ensures NoRedRed(t) && c == Black ==> NoRedRed(Painted(t, c))
  {
  }

  lemma Recolouring(t: Tree)
    requires t.Bin? && t.left.Bin? && t.right.Bin?
    requires t.color == Black && t.left.color == Red && t.right.color == Red
    ensures Interchangeable(t, Recoloured(t))
  {
    Repainting(t.left, Black);
    Repainting(t.right, Black);
  }

  lemma RecolourSteps(z: Spot)
    requires HasWork(z) && !z.path.up.Top?
    requires ColorOf(Side(z.path.up)) == Red
    ensures Lift(Lift(z)).sub.left.Bin? && Lift(Lift(z)).sub.right.Bin?
    ensures Steps(z, Spot(z.path.up.up, Recoloured(Lift(Lift(z)).sub)))
  {
    GrandParent(z);
    var p, t := Lift(z).sub, Lift(Lift(z)).sub;
    Recolouring(t);
    Repainting(Side(z.path.up), Black);
    assert NoRedRed(Painted(p, Black));
    assert Recoloured(t) ==
           if z.path.up.GoLeft? then Bin(Painted(p, Black), t.node, Red, Painted(z.path.up.right, Black))
           else Bin(Painted(z.path.up.left, Black), t.node, Red, Painted(p, Black));
    RoundEnds(z, Spot(z.path.up.up, Recoloured(t)));
  }

  lemma OuterRightSteps(z: Spot)
    requires HasWork(z) && z.path.GoLeft? && z.path.up.GoLeft?
    requires ColorOf(Side(z.path.up)) == Black
    ensures Steps(z, Spot(z.path.up.up, SwappedRight(RotatedRight(Lift(Lift(z)).sub))))
  {
    GrandParent(z);
    var t := Lift(Lift(z)).sub;
    var u := SwappedRight(RotatedRight(t));
    Reassociate(Inorder(z.sub), [z.path.node], Inorder(z.path.right), [t.node], Inorder(t.right));
    assert Inorder(t) == Inorder(u);
    RoundEnds(z, Spot(z.path.up.up, u));
  }

  lemma OuterLeftSteps(z: Spot)
    requires HasWork(z) && z.path.GoRight? && z.path.up.GoRight?
    requires ColorOf(Side(z.path.up)) == Black
    ensures Steps(z, Spot(z.path.up.up, SwappedLeft(RotatedLeft(Lift(Lift(z)).sub))))
  {
    GrandParent(z);
    var t := Lift(Lift(z)).sub;
    var u := SwappedLeft(RotatedLeft(t));
    Reassociate(Inorder(t.left), [t.node], Inorder(z.path.left), [z.path.node], Inorder(z.sub));
    assert Inorder(t) == Inorder(u);
    RoundEnds(z, Spot(z.path.up.up, u));
  }

  ghost function InnerLeft(t: Tree): Tree
    requires t.Bin? && t.left.Bin? && t.left.right.Bin?
  {
    Bin(RotatedLeft(t.left), t.node, t.color, t.right)
  }

  ghost function InnerRight(t: Tree): Tree
    requires t.Bin? && t.right.Bin? && t.right.left.Bin?
  {
    Bin(t.left, t.node, t.color, RotatedRight(t.right))
  }

  /** Two red nodes in a row exchange places without a trace in order or black heights. */
  lemma RedTurnsLeft(t: Tree)
    requires t.Bin? && t.color == Red && t.right.Bin? && t.right.color == Red
    ensures Interchangeable(t, RotatedLeft(t))
  {
    assert Inorder(t) == Inorder(RotatedLeft(t));
  }

  lemma InnerRightSteps(z: Spot)
    requires HasWork(z) && z.path.GoRight? && z.path.up.GoLeft?
    requires ColorOf(Side(z.path.up)) == Black
    ensures Steps(z, Spot(z.path.up.up, SwappedRight(RotatedRight(InnerLeft(Lift(Lift(z)).sub)))))
  {
    GrandParent(z);
    var turned := Spot(GoLeft(z.path.up, z.sub.node, Red, z.sub.right), Bin(z.path.left, z.path.node, Red, z.sub.left));
    RedTurnsLeft(Lift(z).sub);
    InterchangeablePlug(z.path.up, Lift(z).sub, RotatedLeft(Lift(z).sub));
    assert Lift(turned) == Spot(z.path.up, RotatedLeft(Lift(z).sub));
    assert Whole(turned) == Plug(z.path.up, RotatedLeft(Lift(z).sub)) && Whole(z) == Plug(z.path.up, Lift(z).sub);
    OuterRightSteps(turned);
    assert Around(turned) == Around(z);
  }

  /** Two red nodes in a row exchange places without a trace in order or black heights. */
  lemma RedTurnsRight(t: Tree)
    requires t.Bin? && t.color == Red && t.left.Bin? && t.left.color == Red
    ensures Interchangeable(t, RotatedRight(t))
  {
    assert Inorder(t) == Inorder(RotatedRight(t));
  }

  lemma InnerLeftSteps(z: Spot)
    requires HasWork(z) && z.path.GoLeft? && z.path.up.GoRight?
    requires ColorOf(Side(z.path.up)) == Black
    ensures Steps(z, Spot(z.path.up.up, SwappedLeft(RotatedLeft(InnerRight(Lift(Lift(z)).sub)))))
  {
    GrandParent(z);
    var turned := Spot(GoRight(z.path.up, z.sub.node, Red, z.sub.left),
        Bin(z.sub.right, z.path.node, Red, z.path.right));
    RedTurnsRight(Lift(z).sub);
    InterchangeablePlug(z.path.up, Lift(z).sub, RotatedRight(Lift(z).sub));
    assert Lift(turned) == Spot(z.path.up, RotatedRight(Lift(z).sub));
    assert Whole(turned) == Plug(z.path.up, RotatedRight(Lift(z).sub)) && Whole(z) == Plug(z.path.up, Lift(z).sub);
    OuterLeftSteps(turned);
    assert Around(turned) == Around(z);
  }

  /** When the place is the root, or black, or under a black parent, no red-red edge is left. */
  lemma RepairEnds(z: Spot)
    requires Repairable(z)
    requires z.path.Top? || z.sub.color == Black || z.path.color == Black
    ensures Whole(z).Bin? && NoRedRed(Painted(Whole(z), Black))
    ensures Inorder(Painted(Whole(z), Black)) == Inorder(Whole(z)) && Nodes(Painted(Whole(z), Black)) == Around(z)
    ensures Balanced(Painted(Whole(z), Black)) <==> Balanced(Whole(z))
  {
    NodesPlug(z.path, z.sub);
    if z.path.Top? {
      assert NoRedRed(z.sub);
    } else {
      PathRootInside(z.path, z.sub.node);
      NoRedRedPlug(z.path, z.sub);
    }
  }

  /** Painting changes no membership. */
  lemma SameMembers(t: Tree)
    requires t.Bin?
    ensures t.right.Bin? ==> Nodes(SwappedRight(t)) == Nodes(t) && (Sep(t) ==> Sep(SwappedRight(t)))
    ensures t.left.Bin? ==> Nodes(SwappedLeft(t)) == Nodes(t) && (Sep(t) ==> Sep(SwappedLeft(t)))
    ensures t.left.Bin? && t.right.Bin? ==> Nodes(Recoloured(t)) == Nodes(t) && (Sep(t) ==> Sep(Recoloured(t)))
  {
    assert Sep(t) ==> Sep(t.left) && Sep(t.right);
  }

  // ----- the repair's colour changes, on links -----

  twostate predicate SameShapeIn(s: set<RbNode>)
    reads s
  {
    forall n :: n in s ==>
      n.rbLeft == old(n.rbLeft) && n.rbRight == old(n.rbRight) && n.rbParent == old(n.rbParent)
  }

  twostate predicate ColoursIn(s: set<RbNode>, t: Tree, c: Color, l: Color, r: Color)
    requires t.Bin?
    reads s
  {
    forall n :: n in s ==>
      n.rbColor == (if n == t.node then c else if n == Root(t.left) then l else if n == Root(t.right) then r
                    else old(n.rbColor))
  }

  /** The path above, where no colour changes. */
  twostate lemma PathStays(z: Spot)
    requires z.sub.Bin? && SepPath(z.path, Nodes(z.sub)) && old(LinkedPath(z.path, z.sub.node))
    requires SameShapeIn(Around(z)) && forall n :: n in Around(z) && n !in Nodes(z.sub) ==> n.rbColor == old(n.rbColor)
    ensures LinkedPath(z.path, z.sub.node)
  {
    hide Linked;
    SepPathDisjoint(z.path, Nodes(z.sub));
    LinkedPathKept(z.path);
  }

  twostate lemma RecolouredLinked(z: Spot)
    requires z.sub.Bin? && z.sub.left.Bin? && z.sub.right.Bin? && Sep(z.sub)
    requires old(Linked(z.sub, Head(z.path)))
    requires SameShapeIn(Around(z)) && ColoursIn(Around(z), z.sub, Red, Black, Black)
    ensures Linked(Recoloured(z.sub), Head(z.path))
  {
    hide PathNodes;
    assert old(Linked(z.sub.left, z.sub.node) && Linked(z.sub.right, z.sub.node));
    assert Sep(z.sub.left) && Sep(z.sub.right);
    LinkedMoved(z.sub.left);
    LinkedMoved(z.sub.right);
  }

  twostate lemma SwappedRightLinked(z: Spot)
    requires z.sub.Bin? && z.sub.right.Bin? && Sep(z.sub)
    requires old(Linked(z.sub, Head(z.path)))
    requires SameShapeIn(Around(z)) && ColoursIn(Around(z), z.sub, z.sub.right.color, ColorOf(z.sub.left), z.sub.color)
    ensures Linked(SwappedRight(z.sub), Head(z.path))
  {
    hide PathNodes;
    assert old(Linked(z.sub.left, z.sub.node) && Linked(z.sub.right, z.sub.node));
    assert Sep(z.sub.left) && Sep(z.sub.right);
    LinkedKept(z.sub.left);
    LinkedMoved(z.sub.right);
  }

  twostate lemma SwappedLeftLinked(z: Spot)
    requires z.sub.Bin? && z.sub.left.Bin? && Sep(z.sub)
    requires old(Linked(z.sub, Head(z.path)))
    requires SameShapeIn(Around(z)) && ColoursIn(Around(z), z.sub, z.sub.left.color, z.sub.color, ColorOf(z.sub.right))
    ensures Linked(SwappedLeft(z.sub), Head(z.path))
  {
    hide PathNodes;
    assert old(Linked(z.sub.left, z.sub.node) && Linked(z.sub.right, z.sub.node));
    assert Sep(z.sub.left) && Sep(z.sub.right);
    LinkedKept(z.sub.right);
    LinkedMoved(z.sub.left);
  }

  /** The child of a node that has at most one. */
  ghost function OnlyChild(t: Tree): Tree
    requires t.Bin?
  {
    if t.left.Bin? then t.left else t.right
  }

  /** The links that taking out a node with at most one child leaves behind, node by node. */
  twostate predicate OneChildOut(z: Spot)
    requires z.sub.Bin?
    reads Around(z)
  {
    OneChildOutIn(Around(z), z)
  }

  twostate predicate OneChildOutIn(s: set<RbNode>, z: Spot)
    requires z.sub.Bin?
    reads s
  {
    var r, h := Root(OnlyChild(z.sub)), Head(z.path);
    forall n :: n in s && n != z.sub.node ==>
      && n.rbColor == old(n.rbColor) && n.rbParent == (if n == r then h else old(n.rbParent))
      && n.rbLeft == (if n == h && z.path.GoLeft? then r else old(n.rbLeft))
      && n.rbRight == (if n == h && z.path.GoRight? then r else old(n.rbRight))
  }

  twostate lemma OneChildOutLinked(z: Spot)
    requires z.sub.Bin? && (z.sub.left.Leaf? || z.sub.right.Leaf?) && Sep(z.sub) && SepPath(z.path, Nodes(z.sub))
    requires old(Linked(z.sub, Head(z.path)) && LinkedPath(z.path, z.sub.node))
    requires OneChildOut(z)
    ensures Linked(OnlyChild(z.sub), Head(z.path)) && LinkedPath(z.path, Root(OnlyChild(z.sub)))
  {
    var c := OnlyChild(z.sub);
    SepPathDisjoint(z.path, Nodes(z.sub));
    assert old(Linked(c, z.sub.node)) && Nodes(c) <= Nodes(z.sub) && z.sub.node !in Nodes(c);
    LinkedMoved(c);
    PathRefilled(z.path);
  }

  /** How far an erase gets: to its end, to a dereference of null, or to a round of the repair on links that
      represent no tree. */
  datatype Erasure = Complete | NullDeref | Repairing

  class RbTree {
    var root: RbNode?
    ghost var tree: Tree

    /** The links below and above one place in the tree are those of `z`. */
    ghost predicate At(z: Spot)
      reads this`root, Around(z)
    {
      && root == PathRoot(z.path, Root(z.sub))
      && Linked(z.sub, Head(z.path)) && LinkedPath(z.path, Root(z.sub))
      && Sep(z.sub) && SepPath(z.path, Nodes(z.sub))
    }

    /** What insert and erase keep: mutual links, order, no red-red edge, black root. */
    ghost predicate Valid()
      reads this, Nodes(tree)
    {
      && At(Spot(Top, tree))
      && Sorted(Inorder(tree)) && NoRedRed(tree) && ColorOf(tree) == Black
      && forall n :: n in Nodes(tree) ==> n.rbTree == this
    }

    constructor ()
      ensures Valid() && tree == Leaf && root == null
    {
      root, tree := null, Leaf;
    }

    lemma AtPlug(z: Spot)
      ensures At(z) <==> At(Spot(Top, Plug(z.path, z.sub)))
    {
      LinkedPlug(z.path, z.sub);
      SepPlug(z.path, z.sub);
      NodesPlug(z.path, z.sub);
    }

    /** What At says, its parts under their names. */
    lemma AtParts(z: Spot)
      requires At(z) && z.sub.Bin?
      ensures Linked(z.sub, Head(z.path)) && LinkedPath(z.path, z.sub.node)
      ensures Sep(z.sub) && SepPath(z.path, Nodes(z.sub)) && root == PathRoot(z.path, z.sub.node)
      ensures (root == z.sub.node <==> z.path.Top?) && z.sub.node.rbParent == Head(z.path)
    {
      AtRoot(z);
    }

    /** Another tree of the same nodes in the place of z.sub. */
    lemma AtReplaced(z: Spot, t: Tree)
      requires z.sub.Bin? && t.Bin? && Linked(t, Head(z.path)) && LinkedPath(z.path, t.node)
      requires Sep(t) && SepPath(z.path, Nodes(z.sub)) && Nodes(t) == Nodes(z.sub)
      requires root == if z.path.Top? then t.node else PathRoot(z.path, z.sub.node)
      ensures At(z.(sub := t))
    {
    }

    method rotateLeft(node: RbNode, ghost z: Spot)
      requires z.sub.Bin? && z.sub.node == node && z.sub.right.Bin?
      requires At(z)
      modifies this`root, Around(z)`rbLeft,
               Around(z)`rbRight, Around(z)`rbParent
      ensures At(z.(sub := RotatedLeft(z.sub)))
    {
      hide At, Linked, LinkedPath, Sep, SepPath, Nodes, PathNodes, PathRoot;
      AtParts(z);
      CastLeft(z);
      var rightChild := node.rbRight;
      node.rbRight := rightChild.rbLeft;
      if rightChild.rbLeft != null {
        rightChild.rbLeft.rbParent := node;
      }
      rightChild.rbParent := node.rbParent;
      if node.rbParent == null {
        root := rightChild;
      } else if node == node.rbParent.rbLeft {
        node.rbParent.rbLeft := rightChild;
      } else {
        node.rbParent.rbRight := rightChild;
      }
      rightChild.rbLeft := node;
      node.rbParent := rightChild;
      assert TurnedLeft(z);
      TurnedLeftLinked(z);
      TurnedLeftPath(z);
      ApartLeft(z);
      AtReplaced(z, RotatedLeft(z.sub));
    }

    method rotateRight(node: RbNode, ghost z: Spot)
      requires z.sub.Bin? && z.sub.node == node && z.sub.left.Bin?
      requires At(z)
      modifies this`root, Around(z)`rbLeft,
               Around(z)`rbRight, Around(z)`rbParent
      ensures At(z.(sub := RotatedRight(z.sub)))
    {
      hide At, Linked, LinkedPath, Sep, SepPath, Nodes, PathNodes, PathRoot;
      AtParts(z);
      CastRight(z);
      var leftChild := node.rbLeft;
      node.rbLeft := leftChild.rbRight;
      if leftChild.rbRight != null {
        leftChild.rbRight.rbParent := node;
      }
      leftChild.rbParent := node.rbParent;
      if node.rbParent == null {
        root := leftChild;
      } else if node == node.rbParent.rbRight {
        node.rbParent.rbRight := leftChild;
      } else {
        node.rbParent.rbLeft := leftChild;
      }
      leftChild.rbRight := node;
      node.rbParent := leftChild;
      assert TurnedRight(z);
      TurnedRightLinked(z);
      TurnedRightPath(z);
      ApartRight(z);
      AtReplaced(z, RotatedRight(z.sub));
    }

    // ----- repair -----

    lemma AtLift(z: Spot)
      requires !z.path.Top?
      ensures Whole(Lift(z)) == Whole(z) && Around(Lift(z)) == Around(z)
      ensures At(z) <==> At(Lift(z))
    {
      AtPlug(z);
      AtPlug(Lift(z));
    }

    /** rbtree.hpp:112-115 and 129-132: the red uncle lets the grandparent take the red over. */
    method recolour(parent: RbNode, grandParent: RbNode, uncle: RbNode, ghost g: Spot)
      requires At(g) && g.sub.Bin? && g.sub.left.Bin? && g.sub.right.Bin? && g.sub.node == grandParent
      requires || (parent == g.sub.left.node && uncle == g.sub.right.node)
               || (uncle == g.sub.left.node && parent == g.sub.right.node)
      modifies Around(g)`rbColor
      ensures At(g.(sub := Recoloured(g.sub)))
    {
      grandParent.rbColor := Red;
      parent.rbColor := Black;
      uncle.rbColor := Black;
      RecolouredLinked(g);
      PathStays(g);
      SameMembers(g.sub);
    }

    method swapRight(parent: RbNode, grandParent: RbNode, ghost g: Spot)
      requires At(g) && g.sub.Bin? && g.sub.node == parent && g.sub.right.Bin? && g.sub.right.node == grandParent
      modifies Around(g)`rbColor
      ensures At(g.(sub := SwappedRight(g.sub)))
    {
      assert parent in Around(g) && grandParent in Around(g) && parent != grandParent;
      assert Linked(g.sub.left, parent) && Linked(g.sub.right, parent);
      parent.rbColor, grandParent.rbColor := grandParent.rbColor, parent.rbColor;
      SwappedRightLinked(g);
      PathStays(g);
      SameMembers(g.sub);
    }

    /** rbtree.hpp:122-123: rotate the grandparent down and exchange the two colours. */
    method turnRight(parent: RbNode, grandParent: RbNode, ghost g: Spot)
      requires At(g) && g.sub.Bin? && g.sub.node == grandParent && g.sub.left.Bin? && g.sub.left.node == parent
      modifies this`root, Around(g)`rbLeft, Around(g)`rbRight, Around(g)`rbParent, Around(g)`rbColor
      ensures At(g.(sub := SwappedRight(RotatedRight(g.sub))))
    {
      ApartRight(g);
      rotateRight(grandParent, g);
      swapRight(parent, grandParent, g.(sub := RotatedRight(g.sub)));
    }

    method swapLeft(parent: RbNode, grandParent: RbNode, ghost g: Spot)
      requires At(g) && g.sub.Bin? && g.sub.node == parent && g.sub.left.Bin? && g.sub.left.node == grandParent
      modifies Around(g)`rbColor
      ensures At(g.(sub := SwappedLeft(g.sub)))
    {
      assert parent in Around(g) && grandParent in Around(g) && parent != grandParent;
      assert Linked(g.sub.left, parent) && Linked(g.sub.right, parent);
      parent.rbColor, grandParent.rbColor := grandParent.rbColor, parent.rbColor;
      SwappedLeftLinked(g);
      PathStays(g);
      SameMembers(g.sub);
    }

    /** rbtree.hpp:139-140: rotate the grandparent down and exchange the two colours. */
    method turnLeft(parent: RbNode, grandParent: RbNode, ghost g: Spot)
      requires At(g) && g.sub.Bin? && g.sub.node == grandParent && g.sub.right.Bin? && g.sub.right.node == parent
      modifies this`root, Around(g)`rbLeft, Around(g)`rbRight, Around(g)`rbParent, Around(g)`rbColor
      ensures At(g.(sub := SwappedLeft(RotatedLeft(g.sub))))
    {
      ApartLeft(g);
      rotateLeft(grandParent, g);
      swapLeft(parent, grandParent, g.(sub := RotatedLeft(g.sub)));
    }

    /** The inner rotation of a zig-zag, seen from the grandparent. */
    method innerLeft(parent: RbNode, ghost z: Spot)
      requires HasWork(z) && At(Lift(z)) && z.path.GoRight? && z.path.up.GoLeft? && parent == z.path.node
      modifies this`root, Around(z)`rbLeft, Around(z)`rbRight, Around(z)`rbParent
      ensures At(Lift(Lift(z)).(sub := InnerLeft(Lift(Lift(z)).sub))) && parent.rbParent == z.sub.node
      ensures Around(Lift(Lift(z)).(sub := InnerLeft(Lift(Lift(z)).sub))) == Around(z)
    {
      ApartLeft(Lift(z));
      rotateLeft(parent, Lift(z));
      ghost var y := Lift(z).(sub := RotatedLeft(Lift(z).sub));
      AtLift(y);
      assert Linked(y.sub.left, y.sub.node);
      GrandParent(z);
      assert Around(y) == Around(z);
    }

    /** The black-uncle branch when the parent is a left child (rbtree.hpp:117-124). */
    method liftLeft(node0: RbNode, parent0: RbNode, grandParent: RbNode, ghost z: Spot)
        returns (node: RbNode, ghost next: Spot)
      requires At(z) && HasWork(z) && z.path.up.GoLeft? && ColorOf(Side(z.path.up)) == Black
      requires node0 == z.sub.node && parent0 == z.path.node && grandParent == z.path.up.node
      modifies this`root, Around(z)`rbLeft, Around(z)`rbRight, Around(z)`rbParent, Around(z)`rbColor
      ensures At(next) && Steps(z, next) && next.sub.node == node
    {
      var parent := parent0;
      node := node0;
      GrandParent(z);
      GrandParentLinks(z);
      AtLift(z);
      ghost var g := Lift(Lift(z));
      if node == parent.rbRight {
        InnerRightSteps(z);
        innerLeft(parent, z);
        g := Spot(g.path, InnerLeft(g.sub));
        node := parent;
        parent := node.rbParent;
      } else {
        OuterRightSteps(z);
        AtLift(Lift(z));
      }
      assert Around(g) == Around(z);
      turnRight(parent, grandParent, g);
      node := parent;
      next := Spot(g.path, SwappedRight(RotatedRight(g.sub)));
    }

    /** One round of the loop when the parent is a left child (rbtree.hpp:110-125). */
    method roundLeft(node0: RbNode, parent: RbNode, grandParent: RbNode, ghost z: Spot)
        returns (node: RbNode, ghost next: Spot)
      requires At(z) && HasWork(z) && z.path.up.GoLeft?
      requires node0 == z.sub.node && parent == z.path.node && grandParent == z.path.up.node
      modifies this`root, Around(z)`rbLeft, Around(z)`rbRight, Around(z)`rbParent, Around(z)`rbColor
      ensures At(next) && Steps(z, next) && next.sub.node == node
    {
      GrandParent(z);
      GrandParentLinks(z);
      var uncle := grandParent.rbRight;
      if uncle != null && uncle.rbColor == Red {
        RecolourSteps(z);
        AtLift(z);
        AtLift(Lift(z));
        ghost var g := Lift(Lift(z));
        assert At(g) && Around(g) == Around(z);
        recolour(parent, grandParent, uncle, g);
        node := grandParent;
        next := Spot(z.path.up.up, Recoloured(g.sub));
      } else {
        node, next := liftLeft(node0, parent, grandParent, z);
      }
    }

    /** The inner rotation of a zig-zag, seen from the grandparent. */
    method innerRight(parent: RbNode, ghost z: Spot)
      requires HasWork(z) && At(Lift(z)) && z.path.GoLeft? && z.path.up.GoRight? && parent == z.path.node
      modifies this`root, Around(z)`rbLeft, Around(z)`rbRight, Around(z)`rbParent
      ensures At(Lift(Lift(z)).(sub := InnerRight(Lift(Lift(z)).sub))) && parent.rbParent == z.sub.node
      ensures Around(Lift(Lift(z)).(sub := InnerRight(Lift(Lift(z)).sub))) == Around(z)
    {
      ApartRight(Lift(z));
      rotateRight(parent, Lift(z));
      ghost var y := Lift(z).(sub := RotatedRight(Lift(z).sub));
      AtLift(y);
      assert Linked(y.sub.right, y.sub.node);
      GrandParent(z);
      assert Around(y) == Around(z);
    }

    /** The black-uncle branch when the parent is a right child (rbtree.hpp:134-141). */
    method liftRight(node0: RbNode, parent0: RbNode, grandParent: RbNode, ghost z: Spot)
        returns (node: RbNode, ghost next: Spot)
      requires At(z) && HasWork(z) && z.path.up.GoRight? && ColorOf(Side(z.path.up)) == Black
      requires node0 == z.sub.node && parent0 == z.path.node && grandParent == z.path.up.node
      modifies this`root, Around(z)`rbLeft, Around(z)`rbRight, Around(z)`rbParent, Around(z)`rbColor
      ensures At(next) && Steps(z, next) && next.sub.node == node
    {
      var parent := parent0;
      node := node0;
      GrandParent(z);
      GrandParentLinks(z);
      AtLift(z);
      ghost var g := Lift(Lift(z));
      if node == parent.rbLeft {
        InnerLeftSteps(z);
        innerRight(parent, z);
        g := Spot(g.path, InnerRight(g.sub));
        node := parent;
        parent := node.rbParent;
      } else {
        OuterLeftSteps(z);
        AtLift(Lift(z));
      }
      assert Around(g) == Around(z);
      turnLeft(parent, grandParent, g);
      node := parent;
      next := Spot(g.path, SwappedLeft(RotatedLeft(g.sub)));
    }

    /** One round of the loop when the parent is a right child (rbtree.hpp:127-142). */
    method roundRight(node0: RbNode, parent: RbNode, grandParent: RbNode, ghost z: Spot)
        returns (node: RbNode, ghost next: Spot)
      requires At(z) && HasWork(z) && z.path.up.GoRight?
      requires node0 == z.sub.node && parent == z.path.node && grandParent == z.path.up.node
      modifies this`root, Around(z)`rbLeft, Around(z)`rbRight, Around(z)`rbParent, Around(z)`rbColor
      ensures At(next) && Steps(z, next) && next.sub.node == node
    {
      GrandParent(z);
      GrandParentLinks(z);
      var uncle := grandParent.rbLeft;
      if uncle != null && uncle.rbColor == Red {
        RecolourSteps(z);
        AtLift(z);
        AtLift(Lift(z));
        ghost var g := Lift(Lift(z));
        assert At(g) && Around(g) == Around(z);
        recolour(parent, grandParent, uncle, g);
        node := grandParent;
        next := Spot(z.path.up.up, Recoloured(g.sub));
      } else {
        node, next := liftRight(node0, parent, grandParent, z);
      }
    }

    method fixViolation(start: RbNode, ghost z0: Spot)
      requires At(z0) && Repairable(z0) && z0.sub.node == start
      modifies this`root, this`tree, Around(z0)`rbLeft, Around(z0)`rbRight, Around(z0)`rbParent, Around(z0)`rbColor
      ensures At(Spot(Top, tree))
      ensures Inorder(tree) == Inorder(Whole(z0)) && Nodes(tree) == Around(z0)
      ensures NoRedRed(tree) && ColorOf(tree) == Black
      ensures Balanced(tree) <==> Balanced(Whole(z0))
    {
      var node := start;
      ghost var z := z0;
      AtRoot(z);
      while node != root && node.rbColor != Black && node.rbParent.rbColor == Red
        invariant At(z) && Repairable(z) && z.sub.node == node && (node == root <==> z.path.Top?)
        invariant Interchangeable(Whole(z0), Whole(z)) && Around(z) == Around(z0)
        decreases z.path
      {
        var parent := node.rbParent;
        var grandParent := parent.rbParent;
        GrandParentLinks(z);
        if parent == grandParent.rbLeft {
          node, z := roundLeft(node, parent, grandParent, z);
        } else {
          node, z := roundRight(node, parent, grandParent, z);
        }
        AtRoot(z);
      }
      blackenRoot(z);
    }

    lemma AtRoot(z: Spot)
      requires At(z) && z.sub.Bin?
      ensures z.sub.node == root <==> z.path.Top?
    {
      if !z.path.Top? {
        PathRootInside(z.path, z.sub.node);
        SepPathDisjoint(z.path, Nodes(z.sub));
        assert z.sub.node in Nodes(z.sub);
      }
    }

    lemma GrandParentLinks(z: Spot)
      requires At(z) && HasWork(z)
      ensures !z.path.up.Top? && z.path.node.rbParent == z.path.up.node
      ensures z.path.up.node.rbLeft == z.path.node <==> z.path.up.GoLeft?
      ensures z.path.node.rbLeft == z.sub.node <==> z.path.GoLeft?
      ensures z.path.node.rbRight == z.sub.node <==> z.path.GoRight?
      ensures
        var uncle := if z.path.up.GoLeft? then z.path.up.node.rbRight else z.path.up.node.rbLeft;
        uncle == Root(Side(z.path.up)) && (uncle != null ==> uncle.rbColor == ColorOf(Side(z.path.up)))
    {
      GrandParent(z);
      assert LinkedPath(z.path.up, z.path.node);
      assert Linked(Side(z.path.up), z.path.up.node);
      SepPathDisjoint(z.path, Nodes(z.sub));
      assert z.sub.node in Nodes(z.sub);
    }

    /** The last line of fixViolation, rbtree.hpp:145. */
    method blackenRoot(ghost z: Spot)
      requires At(z) && Repairable(z)
      requires z.path.Top? || z.sub.color == Black || z.path.color == Black
      modifies this`root, this`tree, Around(z)`rbColor
      ensures At(Spot(Top, tree))
      ensures Inorder(tree) == Inorder(Whole(z)) && Nodes(tree) == Around(z)
      ensures NoRedRed(tree) && ColorOf(tree) == Black
      ensures Balanced(tree) <==> Balanced(Whole(z))
    {
      RepairEnds(z);
      AtPlug(z);
      ghost var t := Whole(z);
      NodesPlug(z.path, z.sub);
      label repaired:
      root.rbColor := Black;
      tree := Painted(t, Black);
      LinkedMoved@repaired(t);
    }

    // ----- insert -----

    /** A valid tree that also has equal black heights. */
    ghost predicate RedBlack()
      reads this, Nodes(tree)
    {
      Valid() && Balanced(tree)
    }

    method doInsert(node: RbNode)
      requires Valid() && node !in Nodes(tree)
      modifies this, node, Nodes(tree)
      ensures Valid()
      ensures Inorder(tree) == Place(old(Inorder(tree)), node) && Nodes(tree) == old(Nodes(tree)) + {node}
      ensures RedBlack() <==> old(RedBlack())
      ensures RedBlack() ==>
                Height(tree) <= 2 * BlackHeight(tree) && Pow2(BlackHeight(tree)) <= |Inorder(tree)| + 1
    {
      assert allocated(tree) && allocated(Nodes(tree));
      ghost var members := Nodes(tree) + {node};
      node.rbLeft := null;
      node.rbRight := null;
      node.rbTree := this;
      node.rbColor := Red;
      link(node);
      assert forall n :: n in members ==> n.rbTree == this;
      if Balanced(tree) {
        HeightBound(tree);
      }
    }

    /** rbtree.hpp:153-171: search, hang the node in, repair. */
    method link(node: RbNode)
      requires Valid() && node !in Nodes(tree)
      requires node.rbLeft == null && node.rbRight == null && node.rbColor == Red
      modifies this`root, this`tree, (Nodes(tree) + {node})`rbLeft, (Nodes(tree) + {node})`rbRight,
               (Nodes(tree) + {node})`rbParent, (Nodes(tree) + {node})`rbColor
      ensures At(Spot(Top, tree)) && NoRedRed(tree) && ColorOf(tree) == Black && Sorted(Inorder(tree))
      ensures Inorder(tree) == Place(old(Inorder(tree)), node) && Nodes(tree) == old(Nodes(tree)) + {node}
      ensures Balanced(tree) <==> Balanced(old(tree))
    {
      ghost var was := tree;
      var parent, p := descend(node);
      InsertShape(p, node);
      hook(node, parent, p);
      ghost var z := Spot(p, Bin(Leaf, node, Red, Leaf));
      assert Around(z) == Nodes(was) + {node};
      fixViolation(node, z);
      PlaceSorted(Inorder(was), node);
    }

    /** rbtree.hpp:153-162: the search for the insertion point. */
    method descend(node: RbNode) returns (parent: RbNode?, ghost p: Path)
      requires Valid()
      ensures At(Spot(p, Leaf)) && Plug(p, Leaf) == tree && PathNodes(p) == Nodes(tree) && parent == Head(p)
      ensures !p.Top? ==> (p.GoLeft? <==> node.key < p.node.key)
      ensures forall x :: x in Before(p) ==> x.key <= node.key
      ensures forall x :: x in After(p) ==> node.key < x.key
    {
      parent := null;
      var current := root;
      ghost var z := Spot(Top, tree);
      while current != null
        invariant At(z) && Whole(z) == tree && current == Root(z.sub) && parent == Head(z.path)
        invariant !z.path.Top? ==> (z.path.GoLeft? <==> node.key < z.path.node.key)
        invariant forall x :: x in Before(z.path) ==> x.key <= node.key
        invariant forall x :: x in After(z.path) ==> node.key < x.key
        decreases z.sub
      {
        parent := current;
        ghost var above := z;
        InorderPlug(z.path, z.sub);
        SortedAround(Before(z.path), Inorder(z.sub.left), current, Inorder(z.sub.right), After(z.path));
        if node.key < current.key {
          current := current.rbLeft;
          z := Spot(GoLeft(z.path, z.sub.node, z.sub.color, z.sub.right), z.sub.left);
        } else {
          current := current.rbRight;
          z := Spot(GoRight(z.path, z.sub.node, z.sub.color, z.sub.left), z.sub.right);
        }
        assert Lift(z) == above;
        AtLift(z);
      }
      assert z.sub == Leaf;
      NodesPlug(z.path, z.sub);
      p := z.path;
    }

    /** rbtree.hpp:163-170: hang the node into the hole. */
    method hook(node: RbNode, parent: RbNode?, ghost p: Path)
      requires At(Spot(p, Leaf)) && parent == Head(p) && node !in PathNodes(p)
      requires !p.Top? ==> (p.GoLeft? <==> node.key < p.node.key)
      requires node.rbLeft == null && node.rbRight == null && node.rbColor == Red
      modifies this`root, node`rbParent, PathNodes(p)`rbLeft, PathNodes(p)`rbRight
      ensures At(Spot(p, Bin(Leaf, node, Red, Leaf)))
    {
      SepPathDisjoint(p, {});
      node.rbParent := parent;
      if parent == null {
        root := node;
      } else if node.key < parent.key {
        parent.rbLeft := node;
      } else {
        parent.rbRight := node;
      }
      PathRefilled(p);
      SepInsert(p, {}, node);
      assert Nodes(Bin(Leaf, node, Red, Leaf)) == {} + {node};
    }

    /** Filling the hole at the end of a search path with a red leaf. */
    lemma InsertShape(p: Path, node: RbNode)
      requires NoRedRed(Plug(p, Leaf)) && ColorOf(Plug(p, Leaf)) == Black
      requires forall x :: x in Before(p) ==> x.key <= node.key
      requires forall x :: x in After(p) ==> node.key < x.key
      ensures Repairable(Spot(p, Bin(Leaf, node, Red, Leaf)))
      ensures Inorder(Plug(p, Bin(Leaf, node, Red, Leaf))) == Place(Inorder(Plug(p, Leaf)), node)
      ensures Balanced(Plug(p, Bin(Leaf, node, Red, Leaf))) <==> Balanced(Plug(p, Leaf))
    {
      var leaf := Bin(Leaf, node, Red, Leaf);
      InorderPlug(p, Leaf);
      InorderPlug(p, leaf);
      assert Before(p) + [] + After(p) == Before(p) + After(p);
      assert Inorder(leaf) == [node];
      PlaceBetween(Before(p), After(p), node);
      NoRedRedPlug(p, Leaf);
      if Balanced(Plug(p, Leaf)) {
        BalancedPlug(p, Leaf, leaf);
      } else if Balanced(Plug(p, leaf)) {
        BalancedPlug(p, leaf, Leaf);
      }
    }

    lemma {:induction false} SepInsert(p: Path, inside: set<RbNode>, n: RbNode)
      requires SepPath(p, inside) && n !in PathNodes(p)
      ensures SepPath(p, inside + {n})
      decreases p
    {
      if !p.Top? {
        var more := inside + {p.node} + Nodes(Side(p));
        SepInsert(p.up, more, n);
        assert more + {n} == inside + {n} + {p.node} + Nodes(Side(p));
      }
    }

    // ----- erase -----

    /** The links represent exactly `t`, and `t` holds exactly the nodes of `s`. */
    ghost predicate Represents(t: Tree, s: set<RbNode>)
      reads this`root, Nodes(t)
    {
      At(Spot(Top, t)) && Nodes(t) == s
    }

    /** The next node in order after one that has a right child. */
    ghost function Successor(z: Spot): RbNode
      requires z.sub.Bin? && z.sub.right.Bin?
    {
      Inorder(z.sub.right)[0]
    }

    ghost predicate Follows(s: seq<RbNode>, a: RbNode, b: RbNode) {
      exists i :: 0 <= i < |s| - 1 && s[i] == a && s[i + 1] == b
    }

    lemma SuccessorFollows(z: Spot)
      requires z.sub.Bin? && z.sub.right.Bin?
      ensures Follows(Inorder(Whole(z)), z.sub.node, Successor(z)) && Successor(z) in Nodes(z.sub.right)
    {
      InorderPlug(z.path, z.sub);
      var before := Before(z.path) + Inorder(z.sub.left);
      var all := Before(z.path) + Inorder(z.sub) + After(z.path);
      Regroup(Before(z.path), Inorder(z.sub.left), [z.sub.node], Inorder(z.sub.right), After(z.path));
      assert all == before + [z.sub.node] + (Inorder(z.sub.right) + After(z.path));
      assert all[|before|] == z.sub.node && all[|before| + 1] == Successor(z);
      InorderNodes(z.sub.right, Successor(z));
    }

    ghost predicate AtMostOneChild(n: RbNode)
      reads n
    {
      n.rbLeft == null || n.rbRight == null
    }

    /** rbtree.hpp:176-218, on every node of the tree: the links are rewritten so that `current` is out, and
        the colour and the argument for the repair come back. Dereferencing the null parent of a root with
        two children (rbtree.hpp:186) is reported as `crash`. The links represent the remaining nodes
        exactly when `current` had at most one child. */
    method unlink(current: RbNode, ghost z: Spot) returns (color: Color, fix: RbNode?, crash: bool)
      requires At(Spot(Top, tree)) && Whole(z) == tree && z.sub.Bin? && z.sub.node == current
      modifies this`root, Nodes(tree)`rbLeft, Nodes(tree)`rbRight, Nodes(tree)`rbParent
      ensures crash <==> !old(AtMostOneChild(current)) && old(root == current && current.rbRight.rbLeft != null)
      ensures old(AtMostOneChild(current)) ==>
                var child := OnlyChild(z.sub);
                && (z.sub.left.Leaf? || z.sub.right.Leaf?)
                && At(Spot(z.path, child)) && color == z.sub.color
                && fix == if child.Bin? then child.node else Head(z.path)
      ensures !old(AtMostOneChild(current)) && !crash ==>
                forall t :: !Represents(t, old(Nodes(tree)) - {current})
    {
      AtPlug(z);
      NodesPlug(z.path, z.sub);
      crash := false;
      if current.rbLeft != null && current.rbRight != null {
        color, fix, crash := unlinkTwo(current, z);
        if !crash { BrokenRepresentsNone(old(Nodes(tree)) - {current}); }
      } else {
        color := current.rbColor;
        fix := unlinkOne(current, z);
      }
    }

    /** The at-most-one-child path: rbtree.hpp:204-218. */
    method unlinkOne(current: RbNode, ghost z: Spot) returns (fix: RbNode?)
      requires At(z) && z.sub.Bin? && z.sub.node == current && AtMostOneChild(current)
      modifies this`root, Around(z)`rbLeft, Around(z)`rbRight, Around(z)`rbParent
      ensures z.sub.left.Leaf? || z.sub.right.Leaf?
      ensures
        var child := OnlyChild(z.sub);
        At(Spot(z.path, child)) && fix == if child.Bin? then child.node else Head(z.path)
    {
      hide At, Linked, LinkedPath, Sep, SepPath, Nodes, PathNodes, PathRoot;
      OneChildCast(z);
      var node := current;
      var child := if node.rbLeft != null then node.rbLeft else node.rbRight;
      if child != null {
        child.rbParent := node.rbParent;
      }
      if node == root {
        root := child;
      } else if node.rbParent.rbLeft == node {
        node.rbParent.rbLeft := child;
      } else {
        node.rbParent.rbRight := child;
      }
      assert OneChildOut(z);
      OneChildOutLinked(z);
      AtAfter(z);
      fix := if child != null then child else node.rbParent;
    }

    /** Who is who around a node with at most one child. */
    lemma OneChildCast(z: Spot)
      requires At(z) && z.sub.Bin? && AtMostOneChild(z.sub.node)
      ensures z.sub.left.Leaf? || z.sub.right.Leaf?
      ensures Linked(z.sub, Head(z.path)) && LinkedPath(z.path, z.sub.node)
      ensures Sep(z.sub) && SepPath(z.path, Nodes(z.sub))
      ensures root == PathRoot(z.path, z.sub.node) && (z.sub.node == root <==> z.path.Top?)
      ensures
        var node, r, h := z.sub.node, Root(OnlyChild(z.sub)), Head(z.path);
        && node in Around(z) && r == (if node.rbLeft != null then node.rbLeft else node.rbRight) && node.rbParent == h
        && (r != null ==> r in Around(z) && r != node && r != h)
        && (h != null ==> h in Around(z) && h != node && (h.rbLeft == node <==> z.path.GoLeft?))
    {
      AtRoot(z);
      SepPathDisjoint(z.path, Nodes(z.sub));
    }

    lemma AtAfter(z: Spot)
      requires z.sub.Bin? && (z.sub.left.Leaf? || z.sub.right.Leaf?) && Sep(z.sub) && SepPath(z.path, Nodes(z.sub))
      requires Linked(OnlyChild(z.sub), Head(z.path)) && LinkedPath(z.path, Root(OnlyChild(z.sub)))
      requires root == if z.path.Top? then Root(OnlyChild(z.sub)) else PathRoot(z.path, z.sub.node)
      ensures At(Spot(z.path, OnlyChild(z.sub)))
    {
      SepPathSmaller(z.path, Nodes(z.sub), Nodes(OnlyChild(z.sub)));
    }

    lemma {:induction false} SepPathSmaller(p: Path, inside: set<RbNode>, less: set<RbNode>)
      requires SepPath(p, inside) && less <= inside
      ensures SepPath(p, less)
      decreases p
    {
      if !p.Top? {
        SepPathSmaller(p.up, inside + {p.node} + Nodes(Side(p)), less + {p.node} + Nodes(Side(p)));
      }
    }

    /** Who is who around a node with two children, and that they are different nodes. */
    lemma TwoChildCast(current: RbNode, z: Spot, replace: RbNode)
      requires At(z) && At(Spot(Top, tree)) && Whole(z) == tree && z.sub.Bin? && z.sub.node == current
      requires Nodes(tree) == Around(z) && current.rbLeft != null && current.rbRight != null
      requires replace in Nodes(z.sub.right) && replace != current
      requires replace.rbParent != null && replace.rbParent != replace
      requires (replace == current.rbRight && replace.rbParent == current) || replace.rbParent in Nodes(z.sub.right)
      ensures z.sub.right.Bin? && replace != root && (replace == current.rbRight <==> replace.rbParent == current)
      ensures current in Nodes(tree) && {current.rbLeft, current.rbRight, replace, replace.rbParent} <= Nodes(tree)
      ensures current.rbLeft !in {current, current.rbRight, replace, replace.rbParent, replace.rbRight}
      ensures current.rbRight != current && (replace.rbParent != current ==> replace.rbRight != current.rbRight)
      ensures replace.rbRight != null ==> replace.rbRight in Nodes(tree) && replace.rbRight !in {current, replace}
      ensures root in Nodes(tree) && root !in {current.rbRight, replace.rbRight}
      ensures root == current <==> current.rbParent == null
      ensures current.rbParent != null ==>
                && current.rbParent in Nodes(tree)
                && current.rbParent !in {current, current.rbLeft, current.rbRight, replace, replace.rbParent,
                      replace.rbRight}
    {
      LinksInside(tree, null, current);
      LinksInside(tree, null, replace);
      SepPathDisjoint(z.path, Nodes(z.sub));
      LinksInside(z.sub.right, current, replace);
      AtRoot(z);
      assert current.rbLeft in Nodes(z.sub.left) && current.rbRight in Nodes(z.sub.right);
      assert replace.rbRight != null ==> replace.rbRight in Nodes(z.sub.right);
      assert current.rbParent != null ==> current.rbParent in PathNodes(z.path);
    }

    /** The two-child path: rbtree.hpp:180-218 as they stand. */
    method unlinkTwo(current: RbNode, ghost z: Spot) returns (color: Color, fix: RbNode?, crash: bool)
      requires At(z) && At(Spot(Top, tree)) && Whole(z) == tree && z.sub.Bin? && z.sub.node == current
      requires Nodes(tree) == Around(z)
      requires current.rbLeft != null && current.rbRight != null
      modifies this`root, Nodes(tree)`rbLeft, Nodes(tree)`rbRight, Nodes(tree)`rbParent
      ensures old(current.rbRight) != null && (crash <==> old(root == current && current.rbRight.rbLeft != null))
      ensures z.sub.right.Bin? && Successor(z) in old(Nodes(tree)) && color == old(Successor(z).rbColor)
      ensures old(root) != null && old(Successor(z).rbParent) != null
      ensures Successor(z) == old(current.rbRight) <==> old(current.rbRight.rbLeft) == null
      ensures !crash ==>
                && Broken(old(Nodes(tree)) - {current}) && (root != null ==> root in old(Nodes(tree)))
                && (root == fix <==> old(root) == current && old(Successor(z).rbRight) != null)
                && root == if old(root) == current then old(Successor(z).rbRight) else old(root)
      ensures !crash ==>
                var s := Successor(z);
                if s != old(current.rbRight) then fix == old(current.rbRight) && fix.rbParent == old(s.rbParent)
                else if old(s.rbRight) != null then fix == old(s.rbRight) && fix.rbParent == current
                else fix == current && fix.rbParent == old(current.rbParent)
    {
      hide At, Linked, LinkedPath, Sep, SepPath, Nodes, PathNodes, Plug, Inorder;
      ghost var rest := Nodes(tree) - {current};
      ghost var top := root;
      var replace := findReplace(current, z);
      TwoChildCast(current, z, replace);
      assert replace.rbColor == old(replace.rbColor) && replace.rbRight == old(replace.rbRight);
      ghost var left, right, q, r := current.rbLeft, current.rbRight, replace.rbParent, replace.rbRight;
      color, fix, crash := replace.rbColor, null, false;
      if current != replace.rbParent {
        if current.rbParent == null {
          crash := true;
          return;
        }
        current.rbParent.rbLeft := replace.rbRight;
        replace.rbRight := current.rbRight;
        current.rbRight.rbParent := replace;
      } else {
        replace.rbParent := current;
      }
      if current == root {
        root := replace;
      } else if current.rbParent.rbLeft == current {
        current.rbParent.rbLeft := replace;
      } else {
        current.rbParent.rbRight := replace;
      }
      replace.rbLeft := current.rbLeft;
      current.rbLeft.rbParent := replace;
      var node := replace;
      var child := node.rbRight;
      if child != null {
        child.rbParent := node.rbParent;
      }
      if node == root {
        root := child;
      } else if node.rbParent.rbLeft == node {
        node.rbParent.rbLeft := child;
      } else {
        node.rbParent.rbRight := child;
      }
      fix := if child != null then child else node.rbParent;
      if q != current {
        assert replace.rbRight == right && right.rbParent == q && q != replace;
      } else if top == current {
        assert root == r && (r != null ==> r.rbParent == current);
      } else {
        assert replace.rbParent == current;
      }
      if q == current && top == current {
        assert r == null ==> left in rest;
        assert r != null ==> r in rest && r.rbParent !in rest;
      } else if q == current {
        assert replace in rest && replace.rbParent !in rest;
      } else {
        assert replace in rest && replace.rbRight.rbParent != replace;
      }
    }

    /** What the links of a tree of `rest` never show: no root, a node under a parent that is not in the tree, or
        a right child that names another parent. */
    ghost predicate Broken(rest: set<RbNode>)
      reads this`root, rest`rbParent, rest`rbRight
    {
      || (root == null && rest != {})
      || (exists n :: n in rest && n.rbParent != null && n.rbParent !in rest)
      || (exists n :: n in rest && n.rbRight != null && n.rbRight in rest && n.rbRight.rbParent != n)
    }

    lemma BrokenRepresentsNone(rest: set<RbNode>)
      requires Broken(rest)
      ensures forall t :: !Represents(t, rest)
    {
      forall t | Represents(t, rest)
        ensures false
      {
        if n :| n in rest && n.rbParent != null && n.rbParent !in rest {
          LinksInside(t, null, n);
        } else if n :| n in rest && n.rbRight != null && n.rbRight in rest && n.rbRight.rbParent != n {
          LinksInside(t, null, n);
        }
      }
    }

    /** rbtree.hpp:181-184: the leftmost node of the right subtree. */
    method findReplace(current: RbNode, ghost z: Spot) returns (replace: RbNode)
      requires At(z) && At(Spot(Top, tree)) && z.sub.Bin? && z.sub.node == current && current.rbRight != null
      ensures At(z) && At(Spot(Top, tree))
      ensures replace == current.rbRight <==> current.rbRight.rbLeft == null
      ensures replace in Nodes(z.sub.right) && replace.rbLeft == null && replace != current && replace == Successor(z)
      ensures
        || (replace == current.rbRight && replace.rbParent == current)
        || (replace.rbParent != null && replace.rbParent in Nodes(z.sub.right) && replace.rbParent.rbLeft == replace
            && replace.rbParent != replace)
    {
      assert Linked(z.sub.right, current);
      replace := current.rbRight;
      ghost var t := z.sub.right;
      while replace.rbLeft != null
        invariant t.Bin? && t.node == replace && Linked(t, replace.rbParent) && Sep(t) && Nodes(t) <= Nodes(z.sub.right)
        invariant Inorder(t) <= Inorder(z.sub.right)
        invariant current.rbRight.rbLeft == null ==> replace == current.rbRight
        invariant
          || (replace == current.rbRight && replace.rbParent == current)
          || (replace.rbParent != null && replace.rbParent in Nodes(z.sub.right) && replace.rbParent.rbLeft == replace
              && replace.rbParent != replace)
        decreases t
      {
        replace := replace.rbLeft;
        t := t.left;
      }
      assert Inorder(t)[0] == replace;
      assert current !in Nodes(z.sub.right) && current.rbRight.rbParent == current;
    }

    lemma BlackOverRed(z: Spot)
      requires At(z) && z.sub.Bin? && NoRedRed(Whole(z))
      ensures root == z.sub.node <==> z.sub.node.rbParent == null
      ensures z.sub.node.rbParent != null && z.sub.node.rbColor == Red ==> z.sub.node.rbParent.rbColor == Black
    {
      AtRoot(z);
      NoRedRedPlug(z.path, z.sub);
    }

    /** After a two-child erase of `current`, whose successor is `s`, the repair has at least one round to run: a
        black node was taken, and the one it starts at is red under a red parent. */
    ghost predicate RepairGoesOn(current: RbNode, s: RbNode)
      reads this`root, current, current.rbRight, s, s.rbRight, s.rbParent
    {
      && s.rbColor == Black && current.rbRight != null
      && if current.rbRight.rbLeft == null
         then root != current && current.rbColor == Red && s.rbRight != null && s.rbRight.rbColor == Red
         else current.rbRight.rbColor == Red && s.rbParent != null && s.rbParent.rbColor == Red
    }

    /** The two-child path of doErase, rbtree.hpp:179-221, up to the first round of the repair's loop, if it comes
        to one. */
    method eraseTwo(current: RbNode, ghost z: Spot) returns (end: Erasure)
      requires At(z) && At(Spot(Top, tree)) && Whole(z) == tree && z.sub.Bin? && z.sub.node == current
      requires Nodes(tree) == Around(z) && NoRedRed(tree) && !AtMostOneChild(current) && z.sub.right.Bin?
      modifies this`root, Nodes(tree)`rbLeft, Nodes(tree)`rbRight, Nodes(tree)`rbParent, Nodes(tree)`rbColor
      ensures end.NullDeref? <==> old(root == current && current.rbRight.rbLeft != null)
      ensures !end.NullDeref? ==> (end.Repairing? <==> old(RepairGoesOn(current, Successor(z))))
      ensures !end.NullDeref? ==> forall t :: !Represents(t, old(Nodes(tree)) - {current})
    {
      hide At, Linked, LinkedPath, Sep, SepPath, Nodes, PathNodes, Plug, Inorder, NoRedRed;
      ghost var rest := Nodes(tree) - {current};
      BlackOverRed(z);
      var color, fix, crash := unlinkTwo(current, z);
      if crash {
        return NullDeref;
      }
      ghost var s := Successor(z);
      assert color == old(s.rbColor);
      end := Complete;
      if color == Black && root != null {
        if fix != root && fix.rbColor != Black && fix.rbParent.rbColor == Red {
          end := Repairing;
        } else {
          root.rbColor := Black;
        }
      }
      BrokenRepresentsNone(rest);
    }

    /** doErase. For a node with at most one child, order, links and colours come out right; equal black heights
        survive exactly when the erased node was red or the root. For one with two, it dereferences null or
        leaves links that represent no tree of the other nodes, and these are final unless the repair,
        running on them, goes on. */
    method doErase(current: RbNode) returns (end: Erasure)
      requires Valid() && current in Nodes(tree)
      modifies this, Nodes(tree)
      ensures old(AtMostOneChild(current)) ==>
                && end.Complete? && Valid() && current.rbTree == null
                && Inorder(tree) == Without(old(Inorder(tree)), current)
                && Nodes(tree) == old(Nodes(tree)) - {current}
                && (old(RedBlack()) ==> (RedBlack() <==> old(current.rbColor == Red || root == current)))
      ensures old(!AtMostOneChild(current)) ==>
                && (end.NullDeref? <==> old(root == current && current.rbRight.rbLeft != null))
                && (!end.NullDeref? ==> forall t :: !Represents(t, old(Nodes(tree)) - {current}))
                && tree == old(tree)
      ensures old(!AtMostOneChild(current)) && !end.NullDeref? ==>
                exists s :: old(allocated(s)) && Follows(old(Inorder(tree)), current, s)
                            && (end.Repairing? <==> old(RepairGoesOn(current, s)))
    {
      assert allocated(tree) && allocated(Nodes(tree));
      ghost var members := Nodes(tree) - {current};
      current.rbTree := null;
      LinkedKept(tree);
      if current.rbLeft != null && current.rbRight != null {
        end := exciseTwo(current);
      } else {
        excise(current);
        end := Complete;
        assert forall n :: n in members ==> n.rbTree == this;
      }
    }

    method exciseTwo(current: RbNode) returns (end: Erasure)
      requires At(Spot(Top, tree)) && NoRedRed(tree) && current in Nodes(tree) && !AtMostOneChild(current)
      modifies this`root, Nodes(tree)`rbLeft, Nodes(tree)`rbRight, Nodes(tree)`rbParent, Nodes(tree)`rbColor
      ensures end.NullDeref? <==> old(root == current && current.rbRight.rbLeft != null)
      ensures !end.NullDeref? ==> forall t :: !Represents(t, old(Nodes(tree)) - {current})
      ensures !end.NullDeref? ==>
                exists s :: old(allocated(s)) && Follows(old(Inorder(tree)), current, s)
                            && (end.Repairing? <==> old(RepairGoesOn(current, s)))
    {
      ghost var p, sub := Locate(tree, current);
      ghost var z := Spot(p, sub);
      AtPlug(z);
      NodesPlug(p, sub);
      SuccessorFollows(z);
      end := eraseTwo(current, z);
    }

    /** The whole of doErase but for clearing rbTree, rbtree.hpp:176-221. */
    method excise(current: RbNode)
      requires At(Spot(Top, tree)) && Sorted(Inorder(tree)) && NoRedRed(tree) && ColorOf(tree) == Black
      requires current in Nodes(tree) && AtMostOneChild(current)
      modifies this`root, this`tree, Nodes(tree)`rbLeft, Nodes(tree)`rbRight, Nodes(tree)`rbParent, Nodes(tree)`rbColor
      ensures At(Spot(Top, tree)) && Sorted(Inorder(tree)) && NoRedRed(tree) && ColorOf(tree) == Black
      ensures Inorder(tree) == Without(old(Inorder(tree)), current) && Nodes(tree) == old(Nodes(tree)) - {current}
      ensures Balanced(old(tree)) ==> (Balanced(tree) <==> old(current.rbColor == Red || root == current))
    {
      hide Inorder, Sorted, NoRedRed, Balanced, Without, Repairable;
      var color, fix;
      ghost var place;
      color, fix, place := takeOut(current);
      if color == Black && root != null {
        fixViolation(fix, place);
      } else {
        tree := Whole(place);
      }
    }

    /** rbtree.hpp:176-218 for a node with at most one child: what is left, and where the repair is to start. */
    method takeOut(current: RbNode) returns (color: Color, fix: RbNode?, ghost place: Spot)
      requires At(Spot(Top, tree)) && Sorted(Inorder(tree)) && NoRedRed(tree) && ColorOf(tree) == Black
      requires current in Nodes(tree) && AtMostOneChild(current)
      modifies this`root, Nodes(tree)`rbLeft, Nodes(tree)`rbRight, Nodes(tree)`rbParent
      ensures At(place) && At(Spot(Top, Whole(place)))
                && Around(place) == Nodes(Whole(place)) == old(Nodes(tree)) - {current}
      ensures Inorder(Whole(place)) == Without(old(Inorder(tree)), current) && Sorted(Inorder(Whole(place)))
      ensures color == old(current.rbColor)
      ensures color == Red || root == null ==> NoRedRed(Whole(place)) && ColorOf(Whole(place)) == Black
      ensures color == Black && root != null ==> Repairable(place) && place.sub.node == fix
      ensures Balanced(old(tree)) ==> (Balanced(Whole(place)) <==> color == Red || old(root == current))
    {
      ghost var p, sub := Locate(tree, current);
      ghost var z := Spot(p, sub);
      AtPlug(z);
      AtRoot(z);
      NodesPlug(p, sub);
      ghost var c := if sub.left.Bin? then sub.left else sub.right;
      var crash;
      color, fix, crash := unlink(current, z);
      place := PlaceAfter(z, c);
      AtPlug(Spot(p, c));
      AtPlug(place);
      NodesPlug(place.path, place.sub);
    }

    /** The place of the repair once a node has been replaced by its child `c`: the child, or else the parent. */
    lemma PlaceAfter(z: Spot, c: Tree) returns (place: Spot)
      requires z.sub.Bin? && Sep(Whole(z)) && Sorted(Inorder(Whole(z))) && NoRedRed(Whole(z))
                && ColorOf(Whole(z)) == Black
      requires (z.sub.left.Leaf? && c == z.sub.right) || (z.sub.right.Leaf? && c == z.sub.left)
      ensures place == if c.Leaf? && !z.path.Top? then Lift(Spot(z.path, c)) else Spot(z.path, c)
      ensures Whole(place) == Plug(z.path, c)
      ensures Inorder(Whole(place)) == Without(Inorder(Whole(z)), z.sub.node) && Sorted(Inorder(Whole(place)))
      ensures Nodes(Whole(place)) == Nodes(Whole(z)) - {z.sub.node}
      ensures z.sub.color == Red || Whole(place).Leaf? ==> NoRedRed(Whole(place)) && ColorOf(Whole(place)) == Black
      ensures z.sub.color == Black && Whole(place).Bin? ==> Repairable(place)
      ensures Balanced(Whole(z)) ==> (Balanced(Whole(place)) <==> z.sub.color == Red || z.path.Top?)
    {
      hide Inorder, Sorted, Balanced, Without, Repairable, Sep;
      EraseOrder(z, c);
      EraseColours(z, c);
      place := if c.Leaf? && !z.path.Top? then Lift(Spot(z.path, c)) else Spot(z.path, c);
      NodesPlug(z.path, c);
    }

    lemma Regroup<T>(a: seq<T>, l: seq<T>, n: seq<T>, r: seq<T>, c: seq<T>)
      ensures a + (l + n + r) + c == (a + l) + n + (r + c)
      ensures a + (l + r) + c == (a + l) + (r + c)
    {
    }

    /** Replacing a node with at most one child by that child: what is left, and in which order. */
    lemma EraseOrder(z: Spot, c: Tree)
      requires z.sub.Bin? && Sep(Whole(z)) && Sorted(Inorder(Whole(z)))
      requires (z.sub.left.Leaf? && c == z.sub.right) || (z.sub.right.Leaf? && c == z.sub.left)
      ensures Inorder(Plug(z.path, c)) == Without(Inorder(Whole(z)), z.sub.node) && Sorted(Inorder(Plug(z.path, c)))
      ensures Nodes(Plug(z.path, c)) == Nodes(Whole(z)) - {z.sub.node}
    {
      var p, n := z.path, z.sub.node;
      InorderPlug(p, z.sub);
      InorderPlug(p, c);
      SepPlug(p, z.sub);
      SepPathDisjoint(p, Nodes(z.sub));
      var l, r := Inorder(z.sub.left), Inorder(z.sub.right);
      var a, b := Before(p) + l, r + After(p);
      assert n !in a by {
        if n in Before(p) { BeforeNodes(p, n); }
        InorderNodes(z.sub.left, n);
      }
      Regroup(Before(p), l, [n], r, After(p));
      assert Inorder(c) == l + r;
      WithoutMiddle(a, n, b);
      SortedWithout(a, n, b);
      NodesPlug(p, z.sub);
      NodesPlug(p, c);
    }

    /** The colours after it: fit for the repair, which has nothing to do if the node was red. */
    lemma EraseColours(z: Spot, c: Tree)
      requires z.sub.Bin? && NoRedRed(Whole(z)) && ColorOf(Whole(z)) == Black
      requires (z.sub.left.Leaf? && c == z.sub.right) || (z.sub.right.Leaf? && c == z.sub.left)
      ensures z.sub.color == Red ==> NoRedRed(Plug(z.path, c)) && ColorOf(Plug(z.path, c)) == Black
      ensures z.sub.color == Black && Plug(z.path, c).Bin? ==>
                Repairable(if c.Bin? then Spot(z.path, c) else Lift(Spot(z.path, c)))
      ensures Balanced(Whole(z)) ==> (Balanced(Plug(z.path, c)) <==> z.sub.color == Red || z.path.Top?)
    {
      var p := z.path;
      NoRedRedPlug(p, z.sub);
      NoRedRedPlug(p, c);
      if Balanced(Whole(z)) {
        PlugBalanced(p, z.sub);
        BalancedPlug(p, z.sub, c);
      }
    }

    // ----- reading -----

    method getFront() returns (current: RbNode)
      requires Valid() && root != null
      ensures Valid()
      ensures Inorder(tree) != [] && current == Inorder(tree)[0] && current in Nodes(tree) && AtMostOneChild(current)
    {
      current := root;
      ghost var t := tree;
      while current.rbLeft != null
        invariant t.Bin? && t.node == current && Linked(t, current.rbParent)
        invariant Inorder(t) <= Inorder(tree)
        decreases t
      {
        current := current.rbLeft;
        t := t.left;
      }
      assert Inorder(t)[0] == current;
      InorderNodes(tree, current);
    }

    predicate empty()
      requires Valid()
      reads this, Nodes(tree)
      ensures empty() <==> Inorder(tree) == []
    {
      root == null
    }

    lemma InorderAfter(visited: seq<RbNode>, t: Tree)
      ensures t.Leaf? ==> visited == visited + Inorder(t)
      ensures t.Bin? ==> visited + Inorder(t.left) + [t.node] + Inorder(t.right) == visited + Inorder(t)
    {
      if t.Bin? {
        Appended(visited, Inorder(t.left), [t.node], Inorder(t.right));
      }
    }

    lemma Appended<T>(a: seq<T>, l: seq<T>, n: seq<T>, r: seq<T>)
      ensures a + l + n + r == a + (l + n + r)
    {
    }

    /** The visitor of traverseInorder appends to `visited`. */
    method doTraverseInorder(node: RbNode?, visited: seq<RbNode>, ghost t: Tree, ghost parent: RbNode?)
        returns (all: seq<RbNode>)
      requires Linked(t, parent) && node == Root(t)
      ensures all == visited + Inorder(t) && Linked(t, parent)
      decreases t
    {
      hide Inorder;
      InorderAfter(visited, t);
      if node == null {
        return visited;
      }
      assert allocated(t.right) && allocated(Nodes(t.right)) && allocated(t) && allocated(Nodes(t));
      all := doTraverseInorder(node.rbLeft, visited, t.left, node);
      all := all + [node];
      all := doTraverseInorder(node.rbRight, all, t.right, node);
    }
  }
}
