/** The mathematical side of the intrusive red-black tree: trees whose labels are the heap nodes
    themselves, paths (one-hole contexts) from a subtree back up to the root, and the predicates that
    tie both to the rbLeft/rbRight/rbParent/rbColor fields in the heap. */
module RbShape {
  import opened Moduli

  datatype Color = Red | Black

  /** RbNode. `key` stands for the part of the value the comparator looks at; the timer tree compares
      mExpires, which is written once, before the node is enqueued. */
  class RbNode {
    const key: int
    var rbLeft: RbNode?
    var rbRight: RbNode?
    var rbParent: RbNode?
    var rbTree: object?
    var rbColor: Color

    constructor (key: int)
      ensures this.key == key && rbTree == null
      ensures rbLeft == null && rbRight == null && rbParent == null && rbColor == Red
    {
      this.key := key;
      rbLeft, rbRight, rbParent, rbTree, rbColor := null, null, null, null, Red;
    }
  }

  datatype Tree = Leaf | Bin(left: Tree, node: RbNode, color: Color, right: Tree)

  /** The way from a hole back to the root: the innermost step first. */
  datatype Path =
    | Top
    | GoLeft(up: Path, node: RbNode, color: Color, right: Tree)
    | GoRight(up: Path, node: RbNode, color: Color, left: Tree)

  /** A place in a tree: the path above and the subtree below. */
  datatype Spot = Spot(path: Path, sub: Tree)

  // ----- contents -----

  ghost function Root(t: Tree): RbNode? {
    if t.Leaf? then null else t.node
  }

  ghost function Nodes(t: Tree): set<RbNode> {
    if t.Leaf? then {} else Nodes(t.left) + {t.node} + Nodes(t.right)
  }

  ghost function Inorder(t: Tree): seq<RbNode> {
    if t.Leaf? then [] else Inorder(t.left) + [t.node] + Inorder(t.right)
  }

  ghost function Head(p: Path): RbNode? {
    if p.Top? then null else p.node
  }

  ghost function Side(p: Path): Tree
    requires !p.Top?
  {
    if p.GoLeft? then p.right else p.left
  }

  ghost function PathNodes(p: Path): set<RbNode> {
    if p.Top? then {} else {p.node} + Nodes(Side(p)) + PathNodes(p.up)
  }

  ghost function Around(z: Spot): set<RbNode> {
    Nodes(z.sub) + PathNodes(z.path)
  }

  /** The root of the whole tree, when `hole` is what sits in the path's hole. */
  ghost function PathRoot(p: Path, hole: RbNode?): RbNode? {
    if p.Top? then hole else PathRoot(p.up, p.node)
  }

  ghost function Plug(p: Path, t: Tree): Tree {
    match p
    case Top => t
    case GoLeft(up, n, c, r) => Plug(up, Bin(t, n, c, r))
    case GoRight(up, n, c, l) => Plug(up, Bin(l, n, c, t))
  }

  ghost function Whole(z: Spot): Tree {
    Plug(z.path, z.sub)
  }

  /** The same place seen from one level further up. */
  ghost function Lift(z: Spot): Spot
    requires !z.path.Top?
  {
    match z.path
    case GoLeft(up, n, c, r) => Spot(up, Bin(z.sub, n, c, r))
    case GoRight(up, n, c, l) => Spot(up, Bin(l, n, c, z.sub))
  }

  ghost function Before(p: Path): seq<RbNode> {
    match p
    case Top => []
    case GoLeft(up, _, _, _) => Before(up)
    case GoRight(up, n, _, l) => Before(up) + Inorder(l) + [n]
  }

  ghost function After(p: Path): seq<RbNode> {
    match p
    case Top => []
    case GoLeft(up, n, _, r) => [n] + Inorder(r) + After(up)
    case GoRight(up, _, _, _) => After(up)
  }

  lemma {:induction false} InorderPlug(p: Path, t: Tree)
    ensures Inorder(Plug(p, t)) == Before(p) + Inorder(t) + After(p)
    decreases p
  {
    match p
    case Top =>
    case GoLeft(up, n, c, r) =>
      var u := Bin(t, n, c, r);
      InorderPlug(up, u);
      Reassociate(Before(up), Inorder(t), [n], Inorder(r), After(up));
    case GoRight(up, n, c, l) =>
      var u := Bin(l, n, c, t);
      InorderPlug(up, u);
      Reassociate(Before(up), Inorder(l), [n], Inorder(t), After(up));
  }

  lemma Reassociate<T>(a: seq<T>, b: seq<T>, c: seq<T>, d: seq<T>, e: seq<T>)
    ensures a + (b + c + d) + e == a + b + (c + d + e)
    ensures a + (b + c + d) + e == (a + b + c) + d + e
  {
  }

  lemma {:induction false} NodesPlug(p: Path, t: Tree)
    ensures Nodes(Plug(p, t)) == PathNodes(p) + Nodes(t)
    ensures Root(Plug(p, t)) == PathRoot(p, Root(t))
    decreases p
  {
    match p
    case Top =>
    case GoLeft(up, n, c, r) => NodesPlug(up, Bin(t, n, c, r));
    case GoRight(up, n, c, l) => NodesPlug(up, Bin(l, n, c, t));
  }

  lemma {:induction false} InorderNodes(t: Tree, n: RbNode)
    ensures n in Inorder(t) <==> n in Nodes(t)
  {
    if t.Bin? {
      InorderNodes(t.left, n);
      InorderNodes(t.right, n);
    }
  }

  // ----- no node twice -----

  ghost predicate Sep(t: Tree) {
    t.Bin? ==>
      && t.node !in Nodes(t.left) && t.node !in Nodes(t.right)
      && Nodes(t.left) !! Nodes(t.right)
      && Sep(t.left) && Sep(t.right)
  }

  /** The path repeats no node, and none of `inside`. */
  ghost predicate SepPath(p: Path, inside: set<RbNode>) {
    !p.Top? ==>
      && p.node !in inside && p.node !in Nodes(Side(p)) && Nodes(Side(p)) !! inside && Sep(Side(p))
      && SepPath(p.up, inside + {p.node} + Nodes(Side(p)))
  }

  lemma {:induction false} SepPlug(p: Path, t: Tree)
    ensures Sep(Plug(p, t)) <==> Sep(t) && SepPath(p, Nodes(t))
    decreases p
  {
    match p
    case Top =>
    case GoLeft(up, n, c, r) =>
      SepPlug(up, Bin(t, n, c, r));
      assert Nodes(Bin(t, n, c, r)) == Nodes(t) + {n} + Nodes(r);
    case GoRight(up, n, c, l) =>
      SepPlug(up, Bin(l, n, c, t));
      assert Nodes(Bin(l, n, c, t)) == Nodes(t) + {n} + Nodes(l);
  }

  lemma {:induction false} SepPathDisjoint(p: Path, inside: set<RbNode>)
    requires SepPath(p, inside)
    ensures PathNodes(p) !! inside
    ensures !p.Top? ==> p.node !in PathNodes(p.up) && Nodes(Side(p)) !! PathNodes(p.up)
    decreases p
  {
    if !p.Top? {
      SepPathDisjoint(p.up, inside + {p.node} + Nodes(Side(p)));
    }
  }

  lemma {:induction false} PathRootInside(p: Path, hole: RbNode?)
    requires !p.Top?
    ensures PathRoot(p, hole) != null && PathRoot(p, hole) in PathNodes(p)
    decreases p
  {
    if !p.up.Top? {
      PathRootInside(p.up, p.node);
    }
  }

  // ----- the heap represents a tree or a path -----

  ghost predicate Linked(t: Tree, parent: RbNode?)
    reads Nodes(t)
  {
    t.Bin? ==>
      && t.node.rbParent == parent && t.node.rbColor == t.color
      && t.node.rbLeft == Root(t.left) && t.node.rbRight == Root(t.right)
      && Linked(t.left, t.node) && Linked(t.right, t.node)
  }

  ghost predicate LinkedPath(p: Path, hole: RbNode?)
    reads PathNodes(p)
  {
    !p.Top? ==>
      && p.node.rbParent == Head(p.up) && p.node.rbColor == p.color
      && p.node.rbLeft == (if p.GoLeft? then hole else Root(p.left))
      && p.node.rbRight == (if p.GoRight? then hole else Root(p.right))
      && Linked(Side(p), p.node) && LinkedPath(p.up, p.node)
  }

  lemma {:induction false} BeforeNodes(p: Path, n: RbNode)
    requires n in Before(p) || n in After(p)
    ensures n in PathNodes(p)
    decreases p
  {
    if !p.Top? {
      InorderNodes(Side(p), n);
      if n in Before(p.up) || n in After(p.up) {
        BeforeNodes(p.up, n);
      }
    }
  }

  /** Links stay inside the tree and agree with each other. */
  lemma {:induction false} LinksInside(t: Tree, parent: RbNode?, n: RbNode)
    requires Linked(t, parent) && n in Nodes(t)
    ensures n.rbLeft != null ==> n.rbLeft in Nodes(t) && n.rbLeft.rbParent == n
    ensures n.rbRight != null ==> n.rbRight in Nodes(t) && n.rbRight.rbParent == n
    ensures n == t.node ==> n.rbParent == parent
    ensures n != t.node ==> n.rbParent != null && n.rbParent in Nodes(t)
    ensures n != t.node ==> n == n.rbParent.rbLeft || n == n.rbParent.rbRight
  {
    if n in Nodes(t.left) {
      LinksInside(t.left, t.node, n);
    }
    if n in Nodes(t.right) {
      LinksInside(t.right, t.node, n);
    }
  }

  lemma {:induction false} LinkedPlug(p: Path, t: Tree)
    ensures Linked(Plug(p, t), null) <==> Linked(t, Head(p)) && LinkedPath(p, Root(t))
    decreases p
  {
    match p
    case Top =>
    case GoLeft(up, n, c, r) =>
      LinkedPlug(up, Bin(t, n, c, r));
    case GoRight(up, n, c, l) =>
      LinkedPlug(up, Bin(l, n, c, t));
  }

  /** Every node of a tree is reached by some path. */
  lemma {:induction false} Locate(t: Tree, n: RbNode) returns (p: Path, sub: Tree)
    requires n in Nodes(t)
    ensures Plug(p, sub) == t && sub.Bin? && sub.node == n
  {
    p, sub := LocateFrom(Top, t, n);
  }

  lemma {:induction false} LocateFrom(q: Path, t: Tree, n: RbNode) returns (p: Path, sub: Tree)
    requires n in Nodes(t)
    ensures Plug(p, sub) == Plug(q, t) && sub.Bin? && sub.node == n
    decreases t
  {
    if n == t.node {
      return q, t;
    } else if n in Nodes(t.left) {
      p, sub := LocateFrom(GoLeft(q, t.node, t.color, t.right), t.left, n);
    } else {
      p, sub := LocateFrom(GoRight(q, t.node, t.color, t.left), t.right, n);
    }
  }

  // ----- order -----

  ghost predicate Sorted(s: seq<RbNode>) {
    forall i, j :: 0 <= i < j < |s| ==> s[i].key <= s[j].key
  }

  /** Where an insertion puts `n`: behind every element it does not precede. */
  ghost function Place(s: seq<RbNode>, n: RbNode): seq<RbNode> {
    if s == [] || n.key < s[0].key then [n] + s else [s[0]] + Place(s[1..], n)
  }

  lemma {:induction false} PlaceBetween(lo: seq<RbNode>, hi: seq<RbNode>, n: RbNode)
    requires forall x :: x in lo ==> x.key <= n.key
    requires forall x :: x in hi ==> n.key < x.key
    ensures Place(lo + hi, n) == lo + [n] + hi
  {
    if lo == [] {
      assert lo + hi == hi;
      if hi != [] { assert hi[0] in hi; }
    } else {
      assert lo[0] in lo;
      assert (lo + hi)[1..] == lo[1..] + hi;
      PlaceBetween(lo[1..], hi, n);
    }
  }

  /** On a sorted sequence, Place splits at exactly one point: everything before it does not come
      after `n`, everything behind it does, and nothing else moves. */
  lemma {:induction false} PlaceSplits(s: seq<RbNode>, n: RbNode) returns (i: nat)
    requires Sorted(s)
    ensures i <= |s| && Place(s, n) == s[..i] + [n] + s[i..]
    ensures forall k :: 0 <= k < i ==> s[k].key <= n.key
    ensures forall k :: i <= k < |s| ==> n.key < s[k].key
  {
    if s == [] || n.key < s[0].key {
      i := 0;
    } else {
      var j := PlaceSplits(s[1..], n);
      i := j + 1;
      assert s[..i] == [s[0]] + s[1..][..j] && s[i..] == s[1..][j..];
      assert forall k :: 1 <= k < |s| ==> s[k] == s[1..][k - 1];
      assert Place(s, n) == s[..i] + [n] + s[i..];
    }
  }

  lemma SortedAround(a: seq<RbNode>, l: seq<RbNode>, n: RbNode, r: seq<RbNode>, c: seq<RbNode>)
    requires Sorted(a + (l + [n] + r) + c)
    ensures forall x :: x in a + l ==> x.key <= n.key
    ensures forall x :: x in r + c ==> n.key <= x.key
  {
    var s := a + (l + [n] + r) + c;
    var k := |a| + |l|;
    assert s[k] == n;
    assert s[..k] == a + l && s[k + 1..] == r + c;
  }

  /** What an erasure leaves: everything but `n`, in the same order. */
  ghost function Without(s: seq<RbNode>, n: RbNode): seq<RbNode> {
    if s == [] then [] else if s[0] == n then s[1..] else [s[0]] + Without(s[1..], n)
  }

  lemma {:induction false} WithoutMiddle(a: seq<RbNode>, n: RbNode, b: seq<RbNode>)
    requires n !in a
    ensures Without(a + [n] + b, n) == a + b
  {
    if a == [] {
      assert a + [n] + b == [n] + b && a + b == b;
    } else {
      assert (a + [n] + b)[1..] == a[1..] + [n] + b;
      WithoutMiddle(a[1..], n, b);
      assert a + b == [a[0]] + (a[1..] + b);
    }
  }

  lemma SortedWithout(a: seq<RbNode>, n: RbNode, b: seq<RbNode>)
    requires Sorted(a + [n] + b)
    ensures Sorted(a + b)
  {
    var s, t := a + [n] + b, a + b;
    forall i, j | 0 <= i < j < |t|
      ensures t[i].key <= t[j].key
    {
      var i', j' := if i < |a| then i else i + 1, if j < |a| then j else j + 1;
      assert t[i] == s[i'] && t[j] == s[j'];
    }
  }

  lemma PlaceSorted(s: seq<RbNode>, n: RbNode)
    requires Sorted(s)
    ensures Sorted(Place(s, n))
  {
    var i := PlaceSplits(s, n);
  }

  // ----- colours -----

  ghost function ColorOf(t: Tree): Color {
    if t.Leaf? then Black else t.color
  }

  ghost predicate NoRedRed(t: Tree) {
    t.Bin? ==>
      && (t.color == Red ==> ColorOf(t.left) == Black && ColorOf(t.right) == Black)
      && NoRedRed(t.left) && NoRedRed(t.right)
  }

  /** No red-red edge on the path or beside it, when the hole holds a node of colour `hole`. */
  ghost predicate PathNoRedRed(p: Path, hole: Color) {
    !p.Top? ==>
      && (p.color == Red ==> hole == Black && ColorOf(Side(p)) == Black)
      && NoRedRed(Side(p)) && PathNoRedRed(p.up, p.color)
  }

  ghost function TopColor(p: Path, hole: Color): Color {
    if p.Top? then hole else TopColor(p.up, p.color)
  }

  lemma {:induction false} NoRedRedPlug(p: Path, t: Tree)
    ensures NoRedRed(Plug(p, t)) <==> NoRedRed(t) && PathNoRedRed(p, ColorOf(t))
    ensures ColorOf(Plug(p, t)) == TopColor(p, ColorOf(t))
    decreases p
  {
    match p
    case Top =>
    case GoLeft(up, n, c, r) => NoRedRedPlug(up, Bin(t, n, c, r));
    case GoRight(up, n, c, l) => NoRedRedPlug(up, Bin(l, n, c, t));
  }

  /** Black nodes on the leftmost path; on a balanced tree, on every path. */
  ghost function BlackHeight(t: Tree): nat {
    if t.Leaf? then 0 else BlackHeight(t.left) + if t.color == Black then 1 else 0
  }

  ghost predicate Balanced(t: Tree) {
    t.Bin? ==> BlackHeight(t.left) == BlackHeight(t.right) && Balanced(t.left) && Balanced(t.right)
  }

  /** Two subtrees that no context can tell apart, as far as order and black heights go. */
  ghost predicate Interchangeable(t: Tree, u: Tree) {
    && Inorder(t) == Inorder(u) && Nodes(t) == Nodes(u)
    && BlackHeight(t) == BlackHeight(u) && (Balanced(t) <==> Balanced(u))
  }

  lemma {:induction false} InterchangeablePlug(p: Path, t: Tree, u: Tree)
    requires Interchangeable(t, u)
    ensures Interchangeable(Plug(p, t), Plug(p, u))
    decreases p
  {
    match p
    case Top =>
    case GoLeft(up, n, c, r) => InterchangeablePlug(up, Bin(t, n, c, r), Bin(u, n, c, r));
    case GoRight(up, n, c, l) => InterchangeablePlug(up, Bin(l, n, c, t), Bin(l, n, c, u));
  }

  /** In a balanced context, a balanced subtree fits exactly when its black height does. */
  lemma {:induction false} BalancedPlug(p: Path, t: Tree, u: Tree)
    requires Balanced(Plug(p, t)) && Balanced(u)
    ensures Balanced(Plug(p, u)) <==> p.Top? || BlackHeight(u) == BlackHeight(t)
    ensures Balanced(t)
    decreases p
  {
    match p
    case Top =>
    case GoLeft(up, n, c, r) =>
      PlugBalanced(up, Bin(t, n, c, r));
      if BlackHeight(u) == BlackHeight(t) {
        BalancedPlug(up, Bin(t, n, c, r), Bin(u, n, c, r));
      } else if Balanced(Plug(up, Bin(u, n, c, r))) {
        PlugBalanced(up, Bin(u, n, c, r));
      }
    case GoRight(up, n, c, l) =>
      PlugBalanced(up, Bin(l, n, c, t));
      if BlackHeight(u) == BlackHeight(t) {
        BalancedPlug(up, Bin(l, n, c, t), Bin(l, n, c, u));
      } else if Balanced(Plug(up, Bin(l, n, c, u))) {
        PlugBalanced(up, Bin(l, n, c, u));
      }
  }

  lemma {:induction false} PlugBalanced(p: Path, t: Tree)
    requires Balanced(Plug(p, t))
    ensures Balanced(t)
    decreases p
  {
    match p
    case Top =>
    case GoLeft(up, n, c, r) => PlugBalanced(up, Bin(t, n, c, r));
    case GoRight(up, n, c, l) => PlugBalanced(up, Bin(l, n, c, t));
  }

  // ----- height -----

  ghost function Max(a: nat, b: nat): nat { if a < b then b else a }

  ghost function Height(t: Tree): nat {
    if t.Leaf? then 0 else 1 + Max(Height(t.left), Height(t.right))
  }

  /** height <= 2 * log2(n + 1): with b the black height, the height is at most 2b and 2^b <= n + 1. */
  lemma {:induction false} HeightBound(t: Tree)
    requires NoRedRed(t) && Balanced(t) && ColorOf(t) == Black
    ensures Height(t) <= 2 * BlackHeight(t)
    ensures Pow2(BlackHeight(t)) <= |Inorder(t)| + 1
  {
    HeightBelow(t);
    SizeAbove(t);
  }

  lemma {:induction false} HeightBelow(t: Tree)
    requires NoRedRed(t) && Balanced(t)
    ensures Height(t) <= 2 * BlackHeight(t) + if ColorOf(t) == Red then 1 else 0
  {
    if t.Bin? {
      HeightBelow(t.left);
      HeightBelow(t.right);
    }
  }

  lemma {:induction false} SizeAbove(t: Tree)
    requires Balanced(t)
    ensures Pow2(BlackHeight(t)) <= |Inorder(t)| + 1
  {
    if t.Bin? {
      SizeAbove(t.left);
      SizeAbove(t.right);
    }
  }

  // ----- links that survive an update elsewhere -----

  ghost function HoleOf(p: Path): RbNode?
    requires !p.Top?
    reads p.node
  {
    if p.GoLeft? then p.node.rbLeft else p.node.rbRight
  }

  twostate predicate SameLinks(s: set<RbNode>)
    reads s
  {
    forall n :: n in s ==>
      && n.rbLeft == old(n.rbLeft) && n.rbRight == old(n.rbRight)
      && n.rbParent == old(n.rbParent) && n.rbColor == old(n.rbColor)
  }

  twostate lemma {:induction false} LinkedKept(t: Tree)
    requires t.Bin? ==> old(Linked(t, t.node.rbParent))
    requires SameLinks(Nodes(t))
    ensures t.Bin? ==> Linked(t, t.node.rbParent)
    decreases t
  {
    if t.Bin? {
      LinkedKept(t.left);
      LinkedKept(t.right);
    }
  }

  twostate lemma {:induction false} LinkedPathKept(p: Path)
    requires !p.Top? ==> old(LinkedPath(p, HoleOf(p)))
    requires SameLinks(PathNodes(p))
    ensures !p.Top? ==> LinkedPath(p, HoleOf(p))
    decreases p
  {
    if !p.Top? {
      LinkedKept(Side(p));
      LinkedPathKept(p.up);
    }
  }

  ghost function Painted(t: Tree, c: Color): Tree
    requires t.Bin?
  {
    t.(color := c)
  }

  /** A subtree moved under a new parent or repainted at its root: nothing below changes. */
  twostate lemma LinkedMoved(t: Tree)
    requires t.Bin? ==> old(Linked(t, t.node.rbParent))
    requires Sep(t)
    requires t.Bin? ==>
               && SameLinks(Nodes(t.left)) && SameLinks(Nodes(t.right))
               && t.node.rbLeft == old(t.node.rbLeft) && t.node.rbRight == old(t.node.rbRight)
    ensures t.Bin? ==> Linked(Painted(t, t.node.rbColor), t.node.rbParent)
  {
    if t.Bin? {
      LinkedKept(t.left);
      LinkedKept(t.right);
    }
  }

  /** A path whose hole is refilled: only the innermost node's link to the hole changes. */
  twostate lemma PathRefilled(p: Path)
    requires !p.Top? ==> old(LinkedPath(p, HoleOf(p)))
    requires !p.Top? ==> p.node !in Nodes(Side(p)) + PathNodes(p.up)
    requires !p.Top? ==>
               && SameLinks(Nodes(Side(p))) && SameLinks(PathNodes(p.up))
               && (p.GoRight? ==> p.node.rbLeft == old(p.node.rbLeft))
               && (p.GoLeft? ==> p.node.rbRight == old(p.node.rbRight))
               && p.node.rbParent == old(p.node.rbParent) && p.node.rbColor == old(p.node.rbColor)
    ensures !p.Top? ==> LinkedPath(p, HoleOf(p))
  {
    if !p.Top? {
      LinkedKept(Side(p));
      LinkedPathKept(p.up);
    }
  }
}
