/** The tree of cancel sources. A source holds the cancellers registered with it: nested sources, and
    callbacks, each of which may itself cancel further sources when it is invoked. */
module Cancellation {

  datatype Canceller = Child(source: CancelSource) | Callback(callback: CancelCallback)

  class CancelCallback {
    /** How often the callback has been invoked. */
    var runs: nat
    /** The sources it cancels when invoked, in order. */
    const reenters: seq<CancelSource>

    constructor (reenters: seq<CancelSource>)
      ensures runs == 0 && this.reenters == reenters
    {
      runs, this.reenters := 0, reenters;
    }
  }

  /** CancelSourceImpl. */
  class CancelSource {
    var mCanceled: bool
    var mCancellers: seq<Canceller>

    constructor ()
      ensures !mCanceled && mCancellers == []
    {
      mCanceled, mCancellers := false, [];
    }

    method doRegister(canceller: Canceller)
      modifies this`mCancellers
      ensures mCancellers == [canceller] + old(mCancellers)
    {
      mCancellers := [canceller] + mCancellers;
    }
  }

  // ----- a world of sources and callbacks, at one moment -----

  datatype Snap = Snap(canceled: set<CancelSource>, lists: map<CancelSource, seq<Canceller>>,
      runs: map<CancelCallback, nat>)

  ghost function World(us: set<CancelSource>, ks: set<CancelCallback>): Snap
    reads us, ks
  {
    Snap(set s | s in us && s.mCanceled, map s | s in us :: s.mCancellers, map k | k in ks :: k.runs)
  }

  lemma WorldParts(us: set<CancelSource>, ks: set<CancelCallback>)
    ensures World(us, ks).lists.Keys == us && World(us, ks).runs.Keys == ks
    ensures forall s :: s in us ==> (s in World(us, ks).canceled <==> s.mCanceled)
  {
  }

  /** How many sources are not cancelled yet: what every cancellation makes smaller. */
  ghost function Live(a: Snap): nat {
    |a.lists.Keys - a.canceled|
  }

  lemma LiveFalls(a: Snap, b: Snap)
    requires SameWorld(a, b)
    ensures Live(b) <= Live(a)
    ensures a.canceled != b.canceled ==> Live(b) < Live(a)
  {
    var x, y := a.lists.Keys - a.canceled, b.lists.Keys - b.canceled;
    assert x == y + (b.canceled - a.canceled);
    assert y !! (b.canceled - a.canceled);
  }

  ghost predicate Known(a: Snap, c: Canceller) {
    match c
    case Child(s) => s in a.lists
    case Callback(k) => k in a.runs && forall r :: r in k.reenters ==> r in a.lists
  }

  /** Everything registered belongs to the world, and no callback is registered twice. */
  ghost predicate WellFormed(a: Snap) {
    && a.canceled <= a.lists.Keys
    && (forall s, i :: s in a.lists && 0 <= i < |a.lists[s]| ==> Known(a, a.lists[s][i]))
    && (forall s, i, t, j :: s in a.lists && t in a.lists && 0 <= i < |a.lists[s]| && 0 <= j < |a.lists[t]| ==>
          a.lists[s][i].Callback? && a.lists[s][i] == a.lists[t][j] ==> s == t && i == j)
  }

  /** What a canceller is for has happened: its source, or every source its callback cancels, is marked. */
  ghost predicate Hits(b: Snap, c: Canceller) {
    match c
    case Child(s) => s in b.canceled
    case Callback(k) => forall r :: r in k.reenters ==> r in b.canceled
  }

  /** One of the sources in `from` had the callback registered. */
  ghost predicate Owned(a: Snap, from: set<CancelSource>, k: CancelCallback) {
    exists s :: s in from && s in a.lists && Callback(k) in a.lists[s]
  }

  ghost predicate SameWorld(a: Snap, b: Snap) {
    && b.lists.Keys == a.lists.Keys && b.runs.Keys == a.runs.Keys
    && a.canceled <= b.canceled <= b.lists.Keys
  }

  /** The whole effect of a cancellation: marks are only added; every newly marked source has had all its
      cancellers served and its list cleared; every callback of a newly marked source has run once more,
      and no other. */
  ghost predicate Cancels(a: Snap, b: Snap) {
    var fresh' := b.canceled - a.canceled;
    && SameWorld(a, b)
    && (forall s :: s in a.lists ==> b.lists[s] == if s in fresh' then [] else a.lists[s])
    && (forall s, i :: s in fresh' && 0 <= i < |a.lists[s]| ==> Hits(b, a.lists[s][i]))
    && (forall k :: k in a.runs ==> b.runs[k] == a.runs[k] + if Owned(a, fresh', k) then 1 else 0)
  }

  /** The effect so far, while the loop of `s` has served `i` cancellers and started `r` of them. */
  ghost predicate Partly(a: Snap, b: Snap, s: CancelSource, i: nat, r: nat) {
    var others := b.canceled - a.canceled - {s};
    && SameWorld(a, b)
    && s in b.canceled && s !in a.canceled && i <= r <= |a.lists[s]|
    && (forall t :: t in a.lists ==> b.lists[t] == if t in others then [] else a.lists[t])
    && (forall t, j :: t in others && 0 <= j < |a.lists[t]| ==> Hits(b, a.lists[t][j]))
    && (forall j :: 0 <= j < i ==> Hits(b, a.lists[s][j]))
    && (forall k :: k in a.runs ==>
          b.runs[k] == a.runs[k] + if Owned(a, others, k) || Callback(k) in a.lists[s][..r] then 1 else 0)
  }

  lemma PartlyStarts(a: Snap, b: Snap, s: CancelSource)
    requires WellFormed(a) && s in a.lists && s !in a.canceled && b == a.(canceled := a.canceled + {s})
    ensures Partly(a, b, s, 0, 0)
  {
    assert b.canceled - a.canceled - {s} == {};
  }

  /** A callback of the sources marked first or of those marked later, and never of both. */
  lemma OwnedSplits(a: Snap, b: Snap, before: set<CancelSource>, more: set<CancelSource>, k: CancelCallback)
    requires WellFormed(a) && a.lists.Keys == b.lists.Keys && before !! more
    requires forall t :: t in more && t in a.lists ==> b.lists[t] == a.lists[t]
    ensures Owned(a, before + more, k) <==> Owned(a, before, k) || Owned(b, more, k)
    ensures !(Owned(a, before, k) && Owned(b, more, k))
  {
    if Owned(b, more, k) {
      var t :| t in more && t in b.lists && Callback(k) in b.lists[t];
      OwnedOnce(a, before, t, k);
      assert t in before + more && Callback(k) in a.lists[t];
    }
    if Owned(a, before, k) {
      var t :| t in before && t in a.lists && Callback(k) in a.lists[t];
      assert t in before + more;
    }
    if Owned(a, before + more, k) {
      var t :| t in before + more && t in a.lists && Callback(k) in a.lists[t];
      assert t in before || (t in more && Callback(k) in b.lists[t]);
    }
  }

  /** A complete cancellation in the middle of the loop. */
  lemma PartlyExtends(a: Snap, b: Snap, c: Snap, s: CancelSource, i: nat, r: nat)
    requires WellFormed(a) && Partly(a, b, s, i, r) && Cancels(b, c)
    ensures Partly(a, c, s, i, r)
  {
    var before, more, others := b.canceled - a.canceled - {s}, c.canceled - b.canceled, c.canceled - a.canceled - {s};
    assert others == before + more;
    forall k | k in a.runs
      ensures c.runs[k] == a.runs[k] + if Owned(a, others, k) || Callback(k) in a.lists[s][..r] then 1 else 0
    {
      OwnedSplits(a, b, before, more, k);
      if Callback(k) in a.lists[s][..r] {
        OwnedOnce(a, others, s, k);
      }
    }
    forall t, j | t in others && 0 <= j < |a.lists[t]|
      ensures Hits(c, a.lists[t][j])
    {
      assert t in before ==> Hits(b, a.lists[t][j]);
      assert t in more ==> b.lists[t] == a.lists[t];
    }
    forall j | 0 <= j < i
      ensures Hits(c, a.lists[s][j])
    {
      assert Hits(b, a.lists[s][j]);
    }
  }

  lemma OwnedOnce(a: Snap, from: set<CancelSource>, t: CancelSource, k: CancelCallback)
    requires WellFormed(a) && t in a.lists && Callback(k) in a.lists[t] && t !in from
    ensures !Owned(a, from, k)
  {
    var j :| 0 <= j < |a.lists[t]| && a.lists[t][j] == Callback(k);
    forall s | s in from && s in a.lists
      ensures Callback(k) !in a.lists[s]
    {
      assert forall i :: 0 <= i < |a.lists[s]| ==> a.lists[s][i] != a.lists[t][j];
    }
  }

  /** The next canceller's callback has not run on behalf of any source marked so far. */
  lemma NotRunYet(a: Snap, s: CancelSource, others: set<CancelSource>, i: nat, k: CancelCallback)
    requires WellFormed(a) && s in a.lists && i < |a.lists[s]| && a.lists[s][i] == Callback(k) && s !in others
    ensures k in a.runs && !Owned(a, others, k) && Callback(k) !in a.lists[s][..i]
    ensures forall q :: Callback(q) in a.lists[s][..i + 1] <==> Callback(q) in a.lists[s][..i] || q == k
  {
    var l := a.lists[s];
    assert Known(a, l[i]);
    OwnedOnce(a, others, s, k);
    assert l[..i + 1] == l[..i] + [l[i]];
    assert forall j :: 0 <= j < i ==> l[j] != l[i];
  }

  /** Invoking it. */
  lemma PartlyRuns(a: Snap, b: Snap, c: Snap, s: CancelSource, i: nat, k: CancelCallback)
    requires WellFormed(a) && Partly(a, b, s, i, i) && i < |a.lists[s]| && a.lists[s][i] == Callback(k)
    requires c == b.(runs := b.runs[k := b.runs[k] + 1])
    ensures Partly(a, c, s, i, i + 1)
  {
    hide WellFormed, Owned, Known;
    NotRunYet(a, s, b.canceled - a.canceled - {s}, i, k);
    assert c.canceled - a.canceled - {s} == b.canceled - a.canceled - {s};
  }

  lemma PartlyServes(a: Snap, b: Snap, s: CancelSource, i: nat, r: nat)
    requires Partly(a, b, s, i, r) && i < |a.lists[s]| && Hits(b, a.lists[s][i])
    requires r == i + 1 || (r == i && a.lists[s][i].Child?)
    ensures Partly(a, b, s, i + 1, i + 1)
  {
    var l := a.lists[s];
    assert l[..i + 1] == l[..i] + [l[i]];
  }

  lemma PartlyEnds(a: Snap, b: Snap, c: Snap, s: CancelSource)
    requires s in a.lists && Partly(a, b, s, |a.lists[s]|, |a.lists[s]|) && c == b.(lists := b.lists[s := []])
    ensures Cancels(a, c)
  {
    var others, fresh' := b.canceled - a.canceled - {s}, c.canceled - a.canceled;
    assert fresh' == others + {s} && a.lists[s][..|a.lists[s]|] == a.lists[s];
    forall k
      ensures Owned(a, fresh', k) <==> Owned(a, others, k) || Callback(k) in a.lists[s]
    {
    }
  }

  lemma CancelsNothing(a: Snap)
    requires WellFormed(a)
    ensures Cancels(a, a)
  {
    assert a.canceled - a.canceled == {};
  }

  lemma CancelsTwice(a: Snap, b: Snap, c: Snap)
    requires WellFormed(a) && Cancels(a, b) && Cancels(b, c)
    ensures Cancels(a, c)
  {
    var before, more, all := b.canceled - a.canceled, c.canceled - b.canceled, c.canceled - a.canceled;
    assert all == before + more;
    forall k | k in a.runs
      ensures c.runs[k] == a.runs[k] + if Owned(a, all, k) then 1 else 0
    {
      OwnedSplits(a, b, before, more, k);
    }
    forall s, i | s in all && 0 <= i < |a.lists[s]|
      ensures Hits(c, a.lists[s][i])
    {
      assert s in before ==> Hits(b, a.lists[s][i]);
      assert s in more ==> b.lists[s] == a.lists[s];
    }
  }

  lemma CancelsMarks(a: Snap, b: Snap)
    requires Cancels(a, b)
    ensures SameWorld(a, b)
  {
  }

  lemma PartlyMarks(a: Snap, b: Snap, s: CancelSource, i: nat, r: nat)
    requires WellFormed(a) && Partly(a, b, s, i, r)
    ensures SameWorld(a, b) && s in b.canceled && b.lists[s] == a.lists[s]
  {
  }

  /** Marking a source registers nothing. */
  lemma MarkKeepsForm(a: Snap, s: CancelSource)
    requires WellFormed(a) && s in a.lists
    ensures WellFormed(a.(canceled := a.canceled + {s}))
  {
    var b := a.(canceled := a.canceled + {s});
    forall t, i | t in b.lists && 0 <= i < |b.lists[t]|
      ensures Known(b, b.lists[t][i])
    {
      assert Known(a, a.lists[t][i]);
    }
  }

  lemma RunKeepsForm(a: Snap, k: CancelCallback)
    requires WellFormed(a) && k in a.runs
    ensures WellFormed(a.(runs := a.runs[k := a.runs[k] + 1]))
  {
    var b := a.(runs := a.runs[k := a.runs[k] + 1]);
    forall t, i | t in b.lists && 0 <= i < |b.lists[t]|
      ensures Known(b, b.lists[t][i])
    {
      assert Known(a, a.lists[t][i]);
    }
  }

  lemma CancelsKeepsForm(a: Snap, b: Snap)
    requires WellFormed(a) && Cancels(a, b)
    ensures WellFormed(b)
  {
    forall s, i | s in b.lists && 0 <= i < |b.lists[s]|
      ensures Known(b, b.lists[s][i])
    {
      assert Known(a, a.lists[s][i]);
    }
  }

  // ----- what a cancellation reaches -----

  /** Serving `u` leads to cancelling `t`: `t` is registered with `u`, or a callback registered there
      cancels it. */
  ghost predicate Leads(a: Snap, u: CancelSource, t: CancelSource)
    requires u in a.lists
  {
    Child(t) in a.lists[u] || exists k :: k in a.runs && Callback(k) in a.lists[u] && t in k.reenters
  }

  /** A route of `n` such steps from `s` to `t`, every source on it uncancelled. */
  ghost predicate Route(a: Snap, s: CancelSource, t: CancelSource, n: nat)
    decreases n
  {
    && t in a.lists && t !in a.canceled
    && if n == 0 then s == t else exists u :: u in a.lists && Route(a, s, u, n - 1) && Leads(a, u, t)
  }

  ghost predicate Reached(a: Snap, s: CancelSource, t: CancelSource) {
    exists n: nat :: Route(a, s, t, n)
  }

  /** Whatever is newly marked is reached from one of the sources in `from`. */
  ghost predicate Confined(a: Snap, b: Snap, from: seq<CancelSource>) {
    forall t :: t in b.canceled && t !in a.canceled ==> exists r :: r in from && Reached(a, r, t)
  }

  /** Later marks and cleared lists take routes away and add none. */
  ghost predicate Later(a: Snap, b: Snap) {
    && b.lists.Keys == a.lists.Keys && b.runs.Keys == a.runs.Keys && a.canceled <= b.canceled
    && forall u :: u in a.lists ==> b.lists[u] == a.lists[u] || b.lists[u] == []
  }

  lemma {:induction false} RouteStarts(a: Snap, s: CancelSource, t: CancelSource, n: nat)
    requires Route(a, s, t, n)
    ensures s in a.lists && s !in a.canceled
    decreases n
  {
    if n > 0 {
      var u :| u in a.lists && Route(a, s, u, n - 1) && Leads(a, u, t);
      RouteStarts(a, s, u, n - 1);
    }
  }

  lemma {:induction false} RoutesJoin(a: Snap, s: CancelSource, u: CancelSource, t: CancelSource, m: nat, n: nat)
    requires Route(a, s, u, m) && Route(a, u, t, n)
    ensures Route(a, s, t, m + n)
    decreases n
  {
    if n > 0 {
      var v :| v in a.lists && Route(a, u, v, n - 1) && Leads(a, v, t);
      RoutesJoin(a, s, u, v, m, n - 1);
      assert m + n != 0 && m + n - 1 == m + (n - 1);
    }
  }

  lemma {:induction false} RouteEarlier(a: Snap, b: Snap, s: CancelSource, t: CancelSource, n: nat)
    requires Later(a, b) && Route(b, s, t, n)
    ensures Route(a, s, t, n)
    decreases n
  {
    if n > 0 {
      var u :| u in b.lists && Route(b, s, u, n - 1) && Leads(b, u, t);
      RouteEarlier(a, b, s, u, n - 1);
      assert Leads(a, u, t);
    }
  }

  lemma PartlyLater(a: Snap, b: Snap, s: CancelSource, i: nat, r: nat)
    requires s in a.lists && Partly(a, b, s, i, r)
    ensures Later(a, b)
  {
  }

  lemma CancelsLater(a: Snap, b: Snap)
    requires Cancels(a, b)
    ensures Later(a, b)
  {
  }

  /** A second cancellation from one of the same sources stays confined to what they reached at first. */
  lemma ConfinedAlong(a: Snap, b: Snap, c: Snap, from: seq<CancelSource>, more: seq<CancelSource>)
    requires Later(a, b) && Confined(a, b, from) && Confined(b, c, more) && forall r :: r in more ==> r in from
    ensures Confined(a, c, from)
  {
    forall t | t in c.canceled && t !in a.canceled
      ensures exists r :: r in from && Reached(a, r, t)
    {
      if t !in b.canceled {
        var r :| r in more && Reached(b, r, t);
        var n: nat :| Route(b, r, t, n);
        RouteEarlier(a, b, r, t, n);
      }
    }
  }

  /** A cancellation that a canceller of `s` causes is confined to what `s` reaches. */
  lemma ConfinedBeneath(a: Snap, b: Snap, c: Snap, s: CancelSource, more: seq<CancelSource>)
    requires Later(a, b) && Confined(a, b, [s]) && Confined(b, c, more)
    requires s in a.lists && s !in a.canceled && forall r :: r in more ==> Leads(a, s, r)
    ensures Confined(a, c, [s])
  {
    forall t | t in c.canceled && t !in a.canceled
      ensures Reached(a, s, t)
    {
      if t in b.canceled {
        var r :| r in [s] && Reached(a, r, t);
      } else {
        var r :| r in more && Reached(b, r, t);
        var n: nat :| Route(b, r, t, n);
        RouteEarlier(a, b, r, t, n);
        RouteStarts(a, r, t, n);
        assert Route(a, s, s, 0) && Route(a, s, r, 1);
        RoutesJoin(a, s, r, t, 1, n);
      }
    }
    assert s in [s];
  }

  /** Every source on a route from a newly marked one is marked and its list cleared, and every callback
      registered with it has run exactly once more. */
  lemma {:induction false} ReachesBeneath(a: Snap, b: Snap, s: CancelSource, t: CancelSource, n: nat)
    requires WellFormed(a) && Cancels(a, b) && s in b.canceled && Route(a, s, t, n)
    ensures t in b.canceled && b.lists[t] == []
    ensures forall k :: Callback(k) in a.lists[t] ==> k in a.runs && b.runs[k] == a.runs[k] + 1
    decreases n
  {
    hide Cancels, WellFormed, Leads;
    CancelsMarks(a, b);
    if n > 0 {
      var u :| u in a.lists && Route(a, s, u, n - 1) && Leads(a, u, t);
      ReachesBeneath(a, b, s, u, n - 1);
      LeadsHits(a, b, u, t);
    }
    ServedOnce(a, b, t);
  }

  lemma ServedOnce(a: Snap, b: Snap, t: CancelSource)
    requires WellFormed(a) && Cancels(a, b) && t in a.lists && t in b.canceled && t !in a.canceled
    ensures b.lists[t] == []
    ensures forall k :: Callback(k) in a.lists[t] ==> k in a.runs && b.runs[k] == a.runs[k] + 1
  {
    forall k | Callback(k) in a.lists[t]
      ensures k in a.runs && b.runs[k] == a.runs[k] + 1
    {
      var i :| 0 <= i < |a.lists[t]| && a.lists[t][i] == Callback(k);
      assert Known(a, a.lists[t][i]);
      assert Owned(a, b.canceled - a.canceled, k);
    }
  }

  lemma LeadsHits(a: Snap, b: Snap, u: CancelSource, t: CancelSource)
    requires Cancels(a, b) && u in a.lists && u in b.canceled && u !in a.canceled && Leads(a, u, t)
    ensures t in b.canceled
  {
    if Child(t) in a.lists[u] {
      var i :| 0 <= i < |a.lists[u]| && a.lists[u][i] == Child(t);
      assert Hits(b, a.lists[u][i]);
    } else {
      var k :| k in a.runs && Callback(k) in a.lists[u] && t in k.reenters;
      var i :| 0 <= i < |a.lists[u]| && a.lists[u][i] == Callback(k);
      assert Hits(b, a.lists[u][i]);
    }
  }

  /** What exactly a cancellation of `s` marks: the sources with a route from `s`, and no others. */
  lemma MarksExactly(a: Snap, b: Snap, s: CancelSource, t: CancelSource)
    requires WellFormed(a) && Cancels(a, b) && Confined(a, b, [s]) && s in b.canceled
    ensures t in b.canceled <==> t in a.canceled || Reached(a, s, t)
  {
    if t in b.canceled && t !in a.canceled {
      var r :| r in [s] && Reached(a, r, t);
    }
    if Reached(a, s, t) {
      var n: nat :| Route(a, s, t, n);
      ReachesBeneath(a, b, s, t, n);
    }
  }

  // ----- sources registered beneath, cancelled or not -----

  /** `t` is registered beneath `s`, `n` levels down. */
  ghost predicate Beneath(a: Snap, s: CancelSource, t: CancelSource, n: nat)
    decreases n
  {
    && t in a.lists
    && if n == 0 then s == t else exists u :: u in a.lists && Beneath(a, s, u, n - 1) && Child(t) in a.lists[u]
  }

  ghost predicate MarkedBeneath(a: Snap, b: Snap, s: CancelSource) {
    forall t, n: nat :: t in a.lists && Beneath(a, s, t, n) ==> t in b.canceled
  }

  ghost predicate OpenBeneath(a: Snap, s: CancelSource) {
    forall t, n: nat :: t in a.lists && Beneath(a, s, t, n) ==> t in a.canceled || Reached(a, s, t)
  }

  /** Cancelling marks every source registered beneath, at any depth, exactly when each of those not yet
      cancelled has a route of uncancelled ones from `s`. */
  lemma BeneathExactly(a: Snap, b: Snap, s: CancelSource)
    requires WellFormed(a) && Cancels(a, b) && Confined(a, b, [s]) && s in b.canceled
    ensures MarkedBeneath(a, b, s) <==> OpenBeneath(a, s)
  {
    hide Cancels, WellFormed, Reached, Confined;
    forall t | t in a.lists
      ensures t in b.canceled <==> t in a.canceled || Reached(a, s, t)
    {
      MarksExactly(a, b, s, t);
    }
  }

  /** In particular when no cancelled source has an uncancelled one registered with it. */
  lemma NoneLate(a: Snap, b: Snap, s: CancelSource)
    requires WellFormed(a) && Cancels(a, b) && s in b.canceled
    requires forall p, t :: p in a.canceled && Child(t) in a.lists[p] ==> t in a.canceled
    ensures MarkedBeneath(a, b, s)
  {
    forall t, n: nat | t in a.lists && Beneath(a, s, t, n)
      ensures t in b.canceled
    {
      NoneLateAt(a, b, s, t, n);
    }
  }

  lemma {:induction false} NoneLateAt(a: Snap, b: Snap, s: CancelSource, t: CancelSource, n: nat)
    requires WellFormed(a) && Cancels(a, b) && s in b.canceled && Beneath(a, s, t, n)
    requires forall p, t :: p in a.canceled && Child(t) in a.lists[p] ==> t in a.canceled
    ensures t in b.canceled
    decreases n
  {
    hide Cancels, WellFormed;
    CancelsMarks(a, b);
    if n > 0 {
      var u :| u in a.lists && Beneath(a, s, u, n - 1) && Child(t) in a.lists[u];
      NoneLateAt(a, b, s, u, n - 1);
      if u !in a.canceled {
        LeadsHits(a, b, u, t);
      }
    }
  }

  // ----- the code -----

  /** CancelSourceImpl::doCancel. */
  method DoCancel(s: CancelSource, ghost us: set<CancelSource>, ghost ks: set<CancelCallback>)
    requires s in us && WellFormed(World(us, ks))
    modifies us, ks
    ensures Cancels(old(World(us, ks)), World(us, ks)) && WellFormed(World(us, ks)) && s.mCanceled
    ensures old(s.mCanceled) ==> World(us, ks) == old(World(us, ks))
    ensures Confined(old(World(us, ks)), World(us, ks), [s])
    ensures forall t :: t in us ==> (t.mCanceled <==> old(t.mCanceled) || Reached(old(World(us, ks)), s, t))
    decreases Live(World(us, ks)), 0
  {
    hide Cancels, Partly, WellFormed, Live, Route, Reached, Confined, Later;
    ghost var a := World(us, ks);
    if s.mCanceled {
      CancelsNothing(a);
      ConfinedNothing(a, [s]);
      MarkedNow(a, s, us, ks);
      return;
    }
    s.mCanceled := true;
    ghost var b := World(us, ks);
    assert b.lists == a.lists && b.runs == a.runs && b.canceled == a.canceled + {s};
    PartlyStarts(a, b, s);
    MarkKeepsForm(a, s);
    LiveFalls(a, b);
    ConfinedMark(a, s);
    var tasks := s.mCancellers;
    for i := 0 to |tasks|
      invariant Partly(a, World(us, ks), s, i, i) && WellFormed(World(us, ks)) && Live(World(us, ks)) < Live(a)
      invariant Confined(a, World(us, ks), [s])
    {
      b := World(us, ks);
      Serve(a, tasks[i], s, i, us, ks);
      LiveFalls(b, World(us, ks));
    }
    b := World(us, ks);
    PartlyMarks(a, b, s, |tasks|, |tasks|);
    s.mCancellers := [];
    ghost var c := World(us, ks);
    assert c.lists == b.lists[s := []] && c.runs == b.runs && c.canceled == b.canceled;
    PartlyEnds(a, b, c, s);
    CancelsKeepsForm(a, c);
    ConfinedSame(a, b, c, [s]);
    MarkedNow(a, s, us, ks);
  }

  /** The lists and the callbacks after it: those of the newly marked sources are cleared and have run. */
  lemma ServedNow(a: Snap, us: set<CancelSource>, ks: set<CancelCallback>)
    requires Cancels(a, World(us, ks))
    ensures a.lists.Keys == us && a.runs.Keys == ks
    ensures forall t :: t in us ==> t.mCancellers == if t.mCanceled && t !in a.canceled then [] else a.lists[t]
    ensures forall k :: k in ks ==>
              k.runs == a.runs[k] +
                        if exists t :: t in us && t.mCanceled && t !in a.canceled && Callback(k) in a.lists[t]
                        then 1 else 0
  {
    var b := World(us, ks);
    assert forall t :: t in us ==> b.lists[t] == t.mCancellers;
    forall k | k in ks
      ensures k.runs == a.runs[k] +
                        if exists t :: t in us && t.mCanceled && t !in a.canceled && Callback(k) in a.lists[t]
                        then 1 else 0
    {
      assert b.runs[k] == k.runs;
      if t :| t in us && t.mCanceled && t !in a.canceled && Callback(k) in a.lists[t] {
        assert t in b.canceled - a.canceled;
      }
    }
  }

  lemma ConfinedNothing(a: Snap, from: seq<CancelSource>)
    ensures Confined(a, a, from)
  {
  }

  lemma ConfinedSame(a: Snap, b: Snap, c: Snap, from: seq<CancelSource>)
    requires Confined(a, b, from) && c.canceled == b.canceled
    ensures Confined(a, c, from)
  {
  }

  lemma ConfinedMark(a: Snap, s: CancelSource)
    requires s in a.lists && s !in a.canceled
    ensures Confined(a, a.(canceled := a.canceled + {s}), [s])
  {
    assert Route(a, s, s, 0) && s in [s];
  }

  lemma MarkedNow(a: Snap, s: CancelSource, us: set<CancelSource>, ks: set<CancelCallback>)
    requires WellFormed(a) && Cancels(a, World(us, ks)) && Confined(a, World(us, ks), [s]) && s in us && s.mCanceled
    ensures forall t :: t in us ==> (t.mCanceled <==> t in a.canceled || Reached(a, s, t))
  {
    hide Cancels, Reached, Confined, WellFormed;
    var b := World(us, ks);
    forall t | t in us
      ensures t.mCanceled <==> t in a.canceled || Reached(a, s, t)
    {
      MarksExactly(a, b, s, t);
    }
  }

  /** One round of the loop over the cancellers: CancelSource::doCancel or CancelCallback::doCancel. */
  method Serve(ghost a: Snap, task: Canceller, ghost s: CancelSource, ghost i: nat, ghost us: set<CancelSource>,
      ghost ks: set<CancelCallback>)
    requires WellFormed(World(us, ks)) && WellFormed(a) && s in a.lists && i < |a.lists[s]| && a.lists[s][i] == task
    requires Partly(a, World(us, ks), s, i, i) && Confined(a, World(us, ks), [s])
    modifies us, ks
    ensures Partly(a, World(us, ks), s, i + 1, i + 1) && WellFormed(World(us, ks)) && Confined(a, World(us, ks), [s])
    ensures SameWorld(old(World(us, ks)), World(us, ks))
    decreases Live(World(us, ks)), 2
  {
    hide Cancels, Partly, WellFormed, Live, World, Route, Reached, Confined, Later;
    ghost var b := World(us, ks);
    TaskKnown(a, b, s, i);
    WorldParts(us, ks);
    match task {
      case Child(c) =>
        DoCancel(c, us, ks);
        WorldParts(us, ks);
        ghost var d := World(us, ks);
        ServesChild(a, b, d, s, i, c);
      case Callback(k) =>
        ghost var run := Invoke(k, us, ks);
        WorldParts(us, ks);
        ghost var d := World(us, ks);
        assert forall r :: r in k.reenters ==> r in d.canceled;
        ServesCallback(a, b, run, d, s, i, k);
    }
  }

  lemma ServesChild(a: Snap, b: Snap, d: Snap, s: CancelSource, i: nat, c: CancelSource)
    requires WellFormed(a) && WellFormed(b) && s in a.lists && i < |a.lists[s]| && a.lists[s][i] == Child(c)
    requires Partly(a, b, s, i, i) && Cancels(b, d) && c in d.canceled
    requires Confined(a, b, [s]) && Confined(b, d, [c])
    ensures Partly(a, d, s, i + 1, i + 1) && SameWorld(b, d) && Confined(a, d, [s])
  {
    hide Partly, WellFormed, Confined, Later;
    PartlyLater(a, b, s, i, i);
    PartlyUnmarked(a, b, s, i, i);
    ConfinedBeneath(a, b, d, s, [c]);
    CancelsMarks(b, d);
    PartlyExtends(a, b, d, s, i, i);
    PartlyServes(a, d, s, i, i);
  }

  lemma ServesCallback(a: Snap, b: Snap, run: Snap, d: Snap, s: CancelSource, i: nat, k: CancelCallback)
    requires WellFormed(a) && WellFormed(b) && s in a.lists && i < |a.lists[s]| && a.lists[s][i] == Callback(k)
    requires Partly(a, b, s, i, i) && k in b.runs && run == b.(runs := b.runs[k := b.runs[k] + 1]) && Cancels(run, d)
    requires forall r :: r in k.reenters ==> r in d.canceled
    requires k in a.runs && Confined(a, b, [s]) && Confined(run, d, k.reenters)
    ensures Partly(a, d, s, i + 1, i + 1) && SameWorld(b, d) && Confined(a, d, [s])
  {
    hide Partly, WellFormed, Confined, Later;
    PartlyLater(a, b, s, i, i);
    PartlyUnmarked(a, b, s, i, i);
    RunLater(a, b, run);
    ConfinedSame(a, b, run, [s]);
    assert forall r :: r in k.reenters ==> Leads(a, s, r);
    ConfinedBeneath(a, run, d, s, k.reenters);
    CancelsMarks(run, d);
    PartlyRuns(a, b, run, s, i, k);
    PartlyExtends(a, run, d, s, i, i + 1);
    PartlyServes(a, d, s, i, i + 1);
  }

  lemma RunLater(a: Snap, b: Snap, run: Snap)
    requires Later(a, b) && run.lists == b.lists && run.canceled == b.canceled && run.runs.Keys == b.runs.Keys
    ensures Later(a, run)
  {
  }

  lemma PartlyUnmarked(a: Snap, b: Snap, s: CancelSource, i: nat, r: nat)
    requires s in a.lists && Partly(a, b, s, i, r)
    ensures s !in a.canceled
  {
  }

  lemma TaskKnown(a: Snap, b: Snap, s: CancelSource, i: nat)
    requires WellFormed(a) && Partly(a, b, s, i, i) && s in a.lists && i < |a.lists[s]|
    ensures Known(a, a.lists[s][i]) && Known(b, a.lists[s][i])
  {
    assert Known(a, a.lists[s][i]);
  }

  /** The callback runs, and cancels what it cancels; `run` is the world after the count and before that. */
  method Invoke(k: CancelCallback, ghost us: set<CancelSource>, ghost ks: set<CancelCallback>) returns (ghost run: Snap)
    requires k in ks && WellFormed(World(us, ks)) && forall r :: r in k.reenters ==> r in us
    modifies us, ks
    ensures var before := old(World(us, ks)); run == before.(runs := before.runs[k := before.runs[k] + 1])
    ensures Cancels(run, World(us, ks)) && WellFormed(World(us, ks))
    ensures forall r :: r in k.reenters ==> r.mCanceled
    ensures Confined(run, World(us, ks), k.reenters)
    decreases Live(World(us, ks)), 1
  {
    hide Cancels, Partly, WellFormed, Live, Route, Reached, Confined, Later;
    ghost var before := World(us, ks);
    k.runs := k.runs + 1;
    run := World(us, ks);
    assert run.lists == before.lists && run.canceled == before.canceled
        && run.runs == before.runs[k := before.runs[k] + 1];
    RunKeepsForm(before, k);
    CancelsNothing(run);
    ConfinedNothing(run, k.reenters);
    LiveFalls(before, run);
    for j := 0 to |k.reenters|
      invariant Cancels(run, World(us, ks)) && WellFormed(World(us, ks)) && Live(World(us, ks)) <= Live(before)
      invariant Confined(run, World(us, ks), k.reenters)
      invariant forall l :: 0 <= l < j ==> k.reenters[l] in World(us, ks).canceled
    {
      ghost var b := World(us, ks);
      DoCancel(k.reenters[j], us, ks);
      CancelsMarks(b, World(us, ks));
      LiveFalls(b, World(us, ks));
      CancelsLater(run, b);
      ConfinedAlong(run, b, World(us, ks), k.reenters, [k.reenters[j]]);
      CancelsTwice(run, b, World(us, ks));
    }
    assert forall r :: r in k.reenters ==> r in World(us, ks).canceled;
  }

  // ----- a source that no cancellation reaches -----

  /** doRegister does not look at mCanceled, so a source registered with one that is cancelled already
      lies beneath the root and is never marked: `g` holds `p`, `p` is cancelled, `c` is registered with
      `p`, and then `g` is cancelled. */
  method LateRegistration() returns (g: CancelSource, p: CancelSource, c: CancelSource, ghost a: Snap, ghost b: Snap)
    ensures fresh({g, p, c})
    ensures Beneath(a, g, c, 2) && g !in a.canceled && c !in a.canceled
    ensures Cancels(a, b) && g in b.canceled && c !in b.canceled && !MarkedBeneath(a, b, g)
    ensures g.mCanceled && p.mCanceled && !c.mCanceled
  {
    hide Cancels, WellFormed, Route, Reached, Confined, Beneath, MarkedBeneath;
    g := new CancelSource();
    p := new CancelSource();
    c := new CancelSource();
    ghost var us := {g, p, c};
    g.doRegister(Child(p));
    ghost var w := Family(g, p, c, {}, []);
    FamilyNow(g, p, c, {}, []);
    FamilyForm(g, p, c, {}, []);
    OnlyItself(w, p);
    DoCancel(p, us, {});
    CancelsLists(w, World(us, {}), g);
    CancelsLists(w, World(us, {}), p);
    CancelsLists(w, World(us, {}), c);
    p.doRegister(Child(c));
    a := Family(g, p, c, {p}, [Child(c)]);
    FamilyNow(g, p, c, {p}, [Child(c)]);
    FamilyForm(g, p, c, {p}, [Child(c)]);
    NoRoute(a, g, c);
    DoCancel(g, us, {});
    b := World(us, {});
    GrandChild(a, b, g, p, c);
  }

  ghost function Family(g: CancelSource, p: CancelSource, c: CancelSource, marks: set<CancelSource>,
      late: seq<Canceller>): Snap {
    Snap(marks, map[g := [Child(p)], p := late, c := []], map[])
  }

  lemma FamilyNow(g: CancelSource, p: CancelSource, c: CancelSource, marks: set<CancelSource>, late: seq<Canceller>)
    requires g != p && g != c && p != c
    requires g.mCancellers == [Child(p)] && p.mCancellers == late && c.mCancellers == []
    requires (set s | s in {g, p, c} && s.mCanceled) == marks
    ensures World({g, p, c}, {}) == Family(g, p, c, marks, late)
  {
    var w, f := World({g, p, c}, {}), Family(g, p, c, marks, late);
    assert w.canceled == f.canceled && w.lists == f.lists && w.runs == f.runs;
  }

  lemma FamilyForm(g: CancelSource, p: CancelSource, c: CancelSource, marks: set<CancelSource>, late: seq<Canceller>)
    requires g != p && g != c && p != c && marks <= {p} && (late == [] || late == [Child(c)])
    ensures WellFormed(Family(g, p, c, marks, late))
  {
  }

  lemma CancelsLists(a: Snap, b: Snap, s: CancelSource)
    requires Cancels(a, b) && s in a.lists
    ensures s in b.lists && b.lists[s] == if s in b.canceled && s !in a.canceled then [] else a.lists[s]
  {
  }

  lemma GrandChild(a: Snap, b: Snap, g: CancelSource, p: CancelSource, c: CancelSource)
    requires g != p && g != c && p != c && a == Family(g, p, c, {p}, [Child(c)]) && c !in b.canceled
    ensures Beneath(a, g, c, 2) && !MarkedBeneath(a, b, g)
  {
    assert Beneath(a, g, g, 0) && Beneath(a, g, p, 1) && Beneath(a, g, c, 2);
  }

  /** A source that leads nowhere reaches only itself. */
  lemma OnlyItself(a: Snap, s: CancelSource)
    requires s in a.lists && a.lists[s] == []
    ensures forall t :: Reached(a, s, t) ==> t == s
  {
    forall t, n: nat | Route(a, s, t, n)
      ensures t == s
    {
      OnlyItselfAt(a, s, t, n);
    }
  }

  lemma {:induction false} OnlyItselfAt(a: Snap, s: CancelSource, t: CancelSource, n: nat)
    requires s in a.lists && a.lists[s] == [] && Route(a, s, t, n)
    ensures t == s
    decreases n
  {
    if n > 0 {
      var u :| u in a.lists && Route(a, s, u, n - 1) && Leads(a, u, t);
      OnlyItselfAt(a, s, u, n - 1);
    }
  }

  /** Only cancelled sources lead to `t`. */
  lemma NoRoute(a: Snap, s: CancelSource, t: CancelSource)
    requires s != t && forall u :: u in a.lists && Leads(a, u, t) ==> u in a.canceled
    ensures !Reached(a, s, t)
  {
    forall n: nat
      ensures !Route(a, s, t, n)
    {
      if n > 0 {
        forall u | u in a.lists && Route(a, s, u, n - 1)
          ensures !Leads(a, u, t)
        {
        }
      }
    }
  }
}
