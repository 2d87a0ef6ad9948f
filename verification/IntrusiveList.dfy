/** The circular intrusive list: ListHead and the self-unlinking of its nodes. The ghost field `nodes`
    is the list from begin to end. */
module IntrusiveLists {

  class ListNode {
    var listNext: ListNode?
    var listPrev: ListNode?

    constructor ()
      ensures listNext == null && listPrev == null
    {
      listNext, listPrev := null, null;
    }
  }

  ghost predicate Distinct(s: seq<ListNode>) {
    forall i, j :: 0 <= i < j < |s| ==> s[i] != s[j]
  }

  ghost function Succ(i: nat, n: nat): (j: nat)
    requires i < n
    ensures j < n
  {
    if i + 1 == n then 0 else i + 1
  }

  ghost function Pred(i: nat, n: nat): (j: nat)
    requires i < n
    ensures j < n
  {
    if i == 0 then n - 1 else i - 1
  }

  /** next and prev run around the cycle `c` in opposite directions. */
  ghost predicate Ring(c: seq<ListNode>)
    reads c
  {
    && Distinct(c)
    && (forall i {:trigger c[i].listNext} :: 0 <= i < |c| ==> c[i].listNext == c[Succ(i, |c|)])
    && (forall i {:trigger c[i].listPrev} :: 0 <= i < |c| ==> c[i].listPrev == c[Pred(i, |c|)])
  }

  ghost function Inserted(s: seq<ListNode>, i: nat, n: ListNode): seq<ListNode>
    requires i <= |s|
  {
    s[..i] + [n] + s[i..]
  }

  /** Where the elements are after an insertion. */
  lemma InsertedAt(s: seq<ListNode>, i: nat, n: ListNode, k: nat)
    requires i <= |s| && k <= |s|
    ensures |Inserted(s, i, n)| == |s| + 1
    ensures Inserted(s, i, n)[k] == if k < i then s[k] else if k == i then n else s[k - 1]
  {
  }

  lemma InsertedDistinct(s: seq<ListNode>, i: nat, n: ListNode)
    requires i <= |s| && Distinct(s) && n !in s
    ensures Distinct(Inserted(s, i, n)) && |Inserted(s, i, n)| == |s| + 1
  {
    hide Inserted;
    var d := Inserted(s, i, n);
    InsertedAt(s, i, n, 0);
    forall a, b | 0 <= a < b < |d|
      ensures d[a] != d[b]
    {
      InsertedAt(s, i, n, a);
      InsertedAt(s, i, n, b);
    }
  }

  ghost function Removed(s: seq<ListNode>, i: nat): seq<ListNode>
    requires i < |s|
  {
    s[..i] + s[i + 1..]
  }

  lemma RemovedAt(s: seq<ListNode>, i: nat, k: nat)
    requires i < |s| && k < |s| - 1
    ensures |Removed(s, i)| == |s| - 1 && Removed(s, i)[k] == if k < i then s[k] else s[k + 1]
  {
  }

  lemma RemovedDistinct(s: seq<ListNode>, i: nat)
    requires i < |s| && Distinct(s)
    ensures Distinct(Removed(s, i)) && |Removed(s, i)| == |s| - 1
  {
    var d := Removed(s, i);
    forall a, b | 0 <= a < b < |d|
      ensures d[a] != d[b]
    {
      RemovedAt(s, i, a);
      RemovedAt(s, i, b);
    }
  }

  lemma ConsRemoved(r: ListNode, s: seq<ListNode>, i: nat)
    requires i < |s|
    ensures [r] + Removed(s, i) == Removed([r] + s, i + 1)
  {
  }

  lemma ConsInserted(r: ListNode, s: seq<ListNode>, i: nat, n: ListNode)
    requires i <= |s|
    ensures [r] + Inserted(s, i, n) == Inserted([r] + s, i + 1, n)
  {
  }

  lemma InsertedFront(r: ListNode, s: seq<ListNode>, n: ListNode)
    ensures [r] + ([n] + s) == Inserted([r] + s, 1, n)
  {
  }

  lemma RemovedFront(r: ListNode, s: seq<ListNode>)
    requires s != []
    ensures [r] + s[1..] == Removed([r] + s, 1)
  {
  }

  lemma RemovedBack(r: ListNode, s: seq<ListNode>)
    requires s != []
    ensures [r] + s[..|s| - 1] == Removed([r] + s, |s|)
  {
  }

  lemma RingDistinct(c: seq<ListNode>)
    requires Ring(c)
    ensures Distinct(c)
  {
  }

  /** An element of a longer cycle differs from its neighbours. */
  lemma Apart(c: seq<ListNode>, i: nat)
    requires Distinct(c) && i < |c| && |c| > 1
    ensures c[Succ(i, |c|)] != c[i] && c[Pred(i, |c|)] != c[i]
  {
  }

  lemma RootAlone(c: seq<ListNode>)
    requires Distinct(c) && c != []
    ensures c[Succ(0, |c|)] == c[0] <==> |c| == 1
    ensures c[Pred(0, |c|)] == c[0] <==> |c| == 1
  {
  }

  /** A place in a cycle: its i-th element, and a node that goes in behind it or is that element. */
  datatype Place = Place(c: seq<ListNode>, i: nat, node: ListNode)

  lemma RingAt(c: seq<ListNode>, i: nat)
    requires Ring(c) && i < |c|
    ensures c[i].listNext == c[Succ(i, |c|)] && c[i].listPrev == c[Pred(i, |c|)]
    ensures c[Succ(i, |c|)].listPrev == c[i] && c[Pred(i, |c|)].listNext == c[i]
  {
    assert Pred(Succ(i, |c|), |c|) == i && Succ(Pred(i, |c|), |c|) == i;
  }

  /** `node` sits between the i-th element of the cycle and the next one; all other links are as before. */
  ghost predicate SplicedIn(c: seq<ListNode>, i: nat, node: ListNode)
    requires i < |c|
    reads c, node
  {
    && node.listPrev == c[i] && node.listNext == c[Succ(i, |c|)]
    && (forall k {:trigger c[k].listNext} :: 0 <= k < |c| ==> c[k].listNext == if k == i then node else c[Succ(k, |c|)])
    && (forall k {:trigger c[k].listPrev} :: 0 <= k < |c| ==>
          c[k].listPrev == if k == Succ(i, |c|) then node else c[Pred(k, |c|)])
  }

  /** Only the four links of an insertion have been written. */
  twostate predicate HookedIn(z: Place)
    requires z.i < |z.c|
    reads z.c, z.node
  {
    var p, q := z.c[z.i], z.c[Succ(z.i, |z.c|)];
    && z.node.listPrev == p && z.node.listNext == q
    && (forall n {:trigger n.listNext} :: n in z.c ==> n.listNext == if n == p then z.node else old(n.listNext))
    && (forall n {:trigger n.listPrev} :: n in z.c ==> n.listPrev == if n == q then z.node else old(n.listPrev))
  }

  twostate lemma HookedInSpliced(z: Place)
    requires z.i < |z.c| && old(Ring(z.c)) && HookedIn(z)
    ensures SplicedIn(z.c, z.i, z.node)
  {
    hide Distinct, Succ, Pred;
    var c, j := z.c, Succ(z.i, |z.c|);
    forall k | 0 <= k < |c|
      ensures c[k].listNext == if k == z.i then z.node else c[Succ(k, |c|)]
      ensures c[k].listPrev == if k == j then z.node else c[Pred(k, |c|)]
    {
      SameElement(c, k, z.i);
      SameElement(c, k, j);
      assert c[k] in c && old(c[k].listNext) == c[Succ(k, |c|)] && old(c[k].listPrev) == c[Pred(k, |c|)];
    }
  }

  /** The neighbours of the i-th element of the cycle point past it; all other links are as before. */
  ghost predicate SplicedOut(c: seq<ListNode>, i: nat)
    requires 0 < i < |c|
    reads c
  {
    && c[i].listNext == null && c[i].listPrev == null
    && (forall k {:trigger c[k].listNext} :: 0 <= k < |c| && k != i ==>
          c[k].listNext == c[if k + 1 == i then Succ(i, |c|) else Succ(k, |c|)])
    && (forall k {:trigger c[k].listPrev} :: 0 <= k < |c| && k != i ==>
          c[k].listPrev == c[if k == Succ(i, |c|) then i - 1 else Pred(k, |c|)])
  }

  /** Only the four links of a removal have been written. */
  twostate predicate CutOut(z: Place)
    requires z.i < |z.c|
    reads z.c
  {
    var n0, p, q := z.c[z.i], z.c[Pred(z.i, |z.c|)], z.c[Succ(z.i, |z.c|)];
    && n0.listNext == null && n0.listPrev == null
    && (forall n {:trigger n.listNext} :: n in z.c && n != n0 ==> n.listNext == if n == p then q else old(n.listNext))
    && (forall n {:trigger n.listPrev} :: n in z.c && n != n0 ==> n.listPrev == if n == q then p else old(n.listPrev))
  }

  twostate lemma CutOutSpliced(z: Place)
    requires 0 < z.i < |z.c| && old(Ring(z.c)) && CutOut(z)
    ensures SplicedOut(z.c, z.i)
  {
    hide SplicedOut;
    var c, i := z.c, z.i;
    forall k {:trigger c[k].listNext} | 0 <= k < |c| && k != i
      ensures c[k].listNext == c[if k + 1 == i then Succ(i, |c|) else Succ(k, |c|)]
    {
      assert c[k] in c && old(c[k].listNext) == c[Succ(k, |c|)];
      assert c[k] == c[Pred(i, |c|)] <==> k + 1 == i;
    }
    forall k {:trigger c[k].listPrev} | 0 <= k < |c| && k != i
      ensures c[k].listPrev == c[if k == Succ(i, |c|) then i - 1 else Pred(k, |c|)]
    {
      assert c[k] in c && old(c[k].listPrev) == c[Pred(k, |c|)];
      assert c[k] == c[Succ(i, |c|)] <==> k == Succ(i, |c|);
    }
    IsSplicedOut(c, i);
  }

  lemma IsSplicedOut(c: seq<ListNode>, i: nat)
    requires 0 < i < |c| && c[i].listNext == null && c[i].listPrev == null
    requires forall k {:trigger c[k].listNext} :: 0 <= k < |c| && k != i ==>
               c[k].listNext == c[if k + 1 == i then Succ(i, |c|) else Succ(k, |c|)]
    requires forall k {:trigger c[k].listPrev} :: 0 <= k < |c| && k != i ==>
               c[k].listPrev == c[if k == Succ(i, |c|) then i - 1 else Pred(k, |c|)]
    ensures SplicedOut(c, i)
  {
  }

  lemma SameElement(c: seq<ListNode>, j: nat, k: nat)
    requires Distinct(c) && j < |c| && k < |c|
    ensures c[j] == c[k] <==> j == k
  {
  }

  class ListHead {
    const root: ListNode
    ghost var nodes: seq<ListNode>

    ghost predicate Valid()
      reads this, root, nodes
    {
      Ring([root] + nodes)
    }

    constructor ()
      ensures Valid() && nodes == [] && fresh(root)
    {
      root := new ListNode();
      nodes := [];
      new;
      root.listNext, root.listPrev := root, root;
    }

    lemma InsertedRing(c: seq<ListNode>, i: nat, node: ListNode)
      requires i < |c| && Distinct(c) && node !in c && SplicedIn(c, i, node)
      ensures Ring(Inserted(c, i + 1, node))
    {
      hide Inserted, SplicedIn, Succ, Pred;
      var d := Inserted(c, i + 1, node);
      InsertedDistinct(c, i + 1, node);
      forall k | 0 <= k < |d|
        ensures d[k].listNext == d[Succ(k, |d|)] && d[k].listPrev == d[Pred(k, |d|)]
      {
        InsertedLinks(c, i, node, k);
      }
    }

    /** The links of the new cycle, element by element. */
    lemma InsertedLinks(c: seq<ListNode>, i: nat, node: ListNode, k: nat)
      requires i < |c| && SplicedIn(c, i, node) && k <= |c|
      ensures var d := Inserted(c, i + 1, node);
              |d| == |c| + 1 && d[k].listNext == d[Succ(k, |d|)] && d[k].listPrev == d[Pred(k, |d|)]
    {
      hide Inserted;
      var d, n := Inserted(c, i + 1, node), |c| + 1;
      InsertedAt(c, i + 1, node, k);
      InsertedAt(c, i + 1, node, Succ(k, n));
      InsertedAt(c, i + 1, node, Pred(k, n));
      if k != i + 1 {
        var o := if k <= i then k else k - 1;
        assert d[k] == c[o];
        assert c[o].listNext == if o == i then node else c[Succ(o, |c|)];
        assert c[o].listPrev == if o == Succ(i, |c|) then node else c[Pred(o, |c|)];
      }
    }

    lemma AppendedRing(c: seq<ListNode>, node: ListNode)
      requires c != [] && Distinct(c) && node !in c && SplicedIn(c, |c| - 1, node)
      ensures Ring(c + [node])
    {
      InsertedRing(c, |c| - 1, node);
      assert Inserted(c, |c|, node) == c + [node];
    }

    method doInsertAfter(pivot: ListNode, node: ListNode, ghost i: nat)
      requires Valid() && i <= |nodes| && pivot == ([root] + nodes)[i]
      requires node != root && node !in nodes
      modifies this`nodes, root, nodes, node
      ensures Valid() && nodes == Inserted(old(nodes), i, node)
    {
      hide Ring, SplicedIn, Inserted, Distinct;
      ghost var c := [root] + nodes;
      ghost var z := Place(c, i, node);
      RingAt(c, i);
      RingDistinct(c);
      assert node !in c;
      node.listNext := pivot.listNext;
      node.listPrev := pivot;
      pivot.listNext := node;
      node.listNext.listPrev := node;
      assert HookedIn(z);
      HookedInSpliced(z);
      InsertedRing(c, i, node);
      nodes := Inserted(nodes, i, node);
      ConsInserted(root, old(nodes), i, node);
    }

    /** The pivot is the element behind the i-th of the cycle; the root itself stands for the end. */
    method doInsertBefore(pivot: ListNode, node: ListNode, ghost i: nat)
      requires Valid() && i <= |nodes| && pivot == ([root] + nodes)[Succ(i, |nodes| + 1)]
      requires node != root && node !in nodes
      modifies this`nodes, root, nodes, node
      ensures Valid() && nodes == Inserted(old(nodes), i, node)
    {
      hide Ring, SplicedIn, Inserted, Distinct;
      ghost var c := [root] + nodes;
      ghost var z := Place(c, i, node);
      RingAt(c, i);
      RingDistinct(c);
      assert node !in c && pivot == c[Succ(i, |c|)];
      node.listNext := pivot;
      node.listPrev := pivot.listPrev;
      pivot.listPrev := node;
      node.listPrev.listNext := node;
      assert HookedIn(z);
      HookedInSpliced(z);
      InsertedRing(c, i, node);
      nodes := Inserted(nodes, i, node);
      ConsInserted(root, old(nodes), i, node);
    }

    method doPushFront(node: ListNode)
      requires Valid() && node != root && node !in nodes
      modifies this`nodes, root, nodes, node
      ensures Valid() && nodes == [node] + old(nodes)
    {
      hide Ring, SplicedIn, Inserted, Distinct;
      ghost var c := [root] + nodes;
      ghost var z := Place(c, 0, node);
      RingAt(c, 0);
      RingDistinct(c);
      assert node !in c && c[0] == root;
      node.listNext := root.listNext;
      node.listPrev := root;
      root.listNext := node;
      node.listNext.listPrev := node;
      assert HookedIn(z);
      HookedInSpliced(z);
      InsertedRing(c, 0, node);
      nodes := [node] + nodes;
      InsertedFront(root, old(nodes), node);
    }

    method doPushBack(node: ListNode)
      requires Valid() && node != root && node !in nodes
      modifies this`nodes, root, nodes, node
      ensures Valid() && nodes == old(nodes) + [node]
    {
      hide Ring, SplicedIn, Inserted, Distinct;
      ghost var c := [root] + nodes;
      ghost var z := Place(c, |nodes|, node);
      RingAt(c, |nodes|);
      RingDistinct(c);
      assert node !in c && c[0] == root && Succ(|nodes|, |c|) == 0;
      node.listNext := root;
      node.listPrev := root.listPrev;
      root.listPrev := node;
      node.listPrev.listNext := node;
      assert HookedIn(z);
      HookedInSpliced(z);
      AppendedRing(c, node);
      nodes := nodes + [node];
      assert [root] + nodes == c + [node];
    }

    lemma RemovedRing(c: seq<ListNode>, i: nat)
      requires 0 < i < |c| && Distinct(c) && SplicedOut(c, i)
      ensures Ring(Removed(c, i))
    {
      hide Removed, SplicedOut, Succ, Pred;
      var d := Removed(c, i);
      RemovedDistinct(c, i);
      forall k | 0 <= k < |d|
        ensures d[k].listNext == d[Succ(k, |d|)] && d[k].listPrev == d[Pred(k, |d|)]
      {
        RemovedLinks(c, i, k);
      }
    }

    lemma RemovedLinks(c: seq<ListNode>, i: nat, k: nat)
      requires 0 < i < |c| && SplicedOut(c, i) && k < |c| - 1
      ensures var d := Removed(c, i);
              |d| == |c| - 1 && d[k].listNext == d[Succ(k, |d|)] && d[k].listPrev == d[Pred(k, |d|)]
    {
      hide Removed;
      var d, n := Removed(c, i), |c| - 1;
      RemovedAt(c, i, k);
      RemovedAt(c, i, Succ(k, n));
      RemovedAt(c, i, Pred(k, n));
      var o := if k < i then k else k + 1;
      assert d[k] == c[o];
      assert c[o].listNext == c[if o + 1 == i then Succ(i, |c|) else Succ(o, |c|)];
      assert c[o].listPrev == c[if o == Succ(i, |c|) then i - 1 else Pred(o, |c|)];
    }

    method doErase(node: ListNode) returns (ghost i: nat)
      requires Valid() && node in nodes
      modifies this`nodes, root, nodes
      ensures Valid() && i < |old(nodes)| && old(nodes)[i] == node && nodes == Removed(old(nodes), i)
      ensures node.listNext == null && node.listPrev == null
    {
      hide Ring, SplicedOut, Removed, Distinct;
      i :| 0 <= i < |nodes| && nodes[i] == node;
      ghost var c := [root] + nodes;
      ghost var z := Place(c, i + 1, node);
      assert c[i + 1] == node;
      RingAt(c, i + 1);
      RingDistinct(c);
      Apart(c, i + 1);
      node.listNext.listPrev := node.listPrev;
      node.listPrev.listNext := node.listNext;
      node.listNext := null;
      node.listPrev := null;
      assert CutOut(z);
      CutOutSpliced(z);
      RemovedRing(c, i + 1);
      ConsRemoved(root, nodes, i);
      nodes := Removed(nodes, i);
    }

    /** erase_from_parent, which the node's destructor runs: a no-op on a node that is in no list. */
    method eraseFromParent(node: ListNode) returns (ghost i: nat)
      requires Valid() && node != root && (node in nodes || node.listNext == null)
      modifies this`nodes, root, nodes, node
      ensures Valid() && node.listNext == null
      ensures old(node.listNext) == null ==>
                nodes == old(nodes) && unchanged(root) && unchanged(nodes) && unchanged(node)
      ensures old(node.listNext) != null ==>
                i < |old(nodes)| && old(nodes)[i] == node && nodes == Removed(old(nodes), i)
    {
      hide Ring, Removed;
      i := 0;
      if node.listNext != null {
        i := unhook(node);
      }
    }

    /** Its body for a node that is in a list. */
    method unhook(node: ListNode) returns (ghost i: nat)
      requires Valid() && node in nodes
      modifies this`nodes, root, nodes
      ensures Valid() && i < |old(nodes)| && old(nodes)[i] == node && nodes == Removed(old(nodes), i)
      ensures node.listNext == null && node.listPrev == null
    {
      hide Ring, SplicedOut, Removed, Distinct;
      i :| 0 <= i < |nodes| && nodes[i] == node;
      ghost var c := [root] + nodes;
      ghost var z := Place(c, i + 1, node);
      assert c[i + 1] == node;
      RingAt(c, i + 1);
      RingDistinct(c);
      Apart(c, i + 1);
      var prev, next := node.listPrev, node.listNext;
      prev.listNext := next;
      next.listPrev := prev;
      node.listPrev := null;
      node.listNext := null;
      assert CutOut(z);
      CutOutSpliced(z);
      RemovedRing(c, i + 1);
      ConsRemoved(root, nodes, i);
      nodes := Removed(nodes, i);
    }

    method doPopFront() returns (node: ListNode?)
      requires Valid()
      modifies this`nodes, root, nodes
      ensures Valid()
      ensures old(nodes) == [] ==> node == null && nodes == []
      ensures old(nodes) != [] ==>
                node == old(nodes)[0] && nodes == old(nodes)[1..] && node.listNext == null && node.listPrev == null
    {
      hide Ring, SplicedOut, Removed, Distinct;
      ghost var c := [root] + nodes;
      assert c[0] == root;
      RingAt(c, 0);
      RingDistinct(c);
      node := root.listNext;
      RootAlone(c);
      if node != root {
        ghost var z := Place(c, 1, node);
        assert c[1] == node;
        RingAt(c, 1);
        Apart(c, 1);
        node.listNext.listPrev := root;
        root.listNext := node.listNext;
        node.listNext := null;
        node.listPrev := null;
        assert CutOut(z);
        CutOutSpliced(z);
        RemovedRing(c, 1);
        RemovedFront(root, nodes);
        nodes := nodes[1..];
      } else {
        node := null;
      }
    }

    method doPopBack() returns (node: ListNode?)
      requires Valid()
      modifies this`nodes, root, nodes
      ensures Valid()
      ensures old(nodes) == [] ==> node == null && nodes == []
      ensures old(nodes) != [] ==>
                node == old(nodes)[|old(nodes)| - 1] && nodes == old(nodes)[..|old(nodes)| - 1]
                    && node.listNext == null && node.listPrev == null
    {
      hide Ring, SplicedOut, Removed, Distinct;
      ghost var c := [root] + nodes;
      assert c[0] == root;
      RingAt(c, 0);
      RingDistinct(c);
      node := root.listPrev;
      RootAlone(c);
      if node != root {
        ghost var last := |nodes|;
        ghost var z := Place(c, last, node);
        assert c[last] == node;
        RingAt(c, last);
        Apart(c, last);
        node.listNext.listPrev := node.listPrev;
        node.listPrev.listNext := node.listNext;
        node.listNext := null;
        node.listPrev := null;
        assert CutOut(z);
        CutOutSpliced(z);
        RemovedRing(c, last);
        RemovedBack(root, nodes);
        nodes := nodes[..last - 1];
      } else {
        node := null;
      }
    }

    /** doEmpty as written: no list has a null root link, so the answer is always no. */
    predicate doEmpty()
      requires Valid()
      reads this, root, nodes
      ensures !doEmpty()
    {
      assert ([root] + nodes)[0] == root;
      root.listNext == null
    }

    method doClear()
      requires Valid()
      modifies this`nodes, root, nodes
      ensures Valid() && nodes == []
      ensures forall n :: n in old(nodes) ==> n.listNext == null && n.listPrev == null
    {
      ghost var c, k := [root] + nodes, 1;
      assert c[0] == root && Distinct(c);
      var cur := root.listNext;
      while cur != root
        invariant nodes == old(nodes) && 1 <= k <= |c| && cur == c[if k == |c| then 0 else k]
        invariant forall j {:trigger c[j].listNext} :: k <= j < |c| ==> c[j].listNext == c[Succ(j, |c|)]
        invariant forall j {:trigger c[j].listNext} {:trigger c[j].listPrev} :: 1 <= j < k ==>
                    c[j].listNext == null && c[j].listPrev == null
        decreases |c| - k
      {
        assert cur == c[k];
        var next := cur.listNext;
        cur.listNext := null;
        cur.listPrev := null;
        cur := next;
        k := k + 1;
      }
      root.listNext := root;
      root.listPrev := root;
      assert forall j :: 0 <= j < |nodes| ==> nodes[j] == c[j + 1];
      nodes := [];
    }

    /** Iterating from begin to end visits exactly the list. */
    method walk() returns (visited: seq<ListNode>)
      requires Valid()
      ensures visited == nodes
    {
      visited := [];
      ghost var c := [root] + nodes;
      assert c[0] == root;
      var cur := root.listNext;
      while cur != root
        invariant |visited| <= |nodes| && visited == nodes[..|visited|]
        invariant cur == c[if |visited| == |nodes| then 0 else |visited| + 1]
        decreases |nodes| - |visited|
      {
        ghost var k := |visited|;
        assert c[k + 1] == nodes[k];
        visited := visited + [cur];
        cur := cur.listNext;
      }
    }
  }
}
