/** The timer loop: GenericIOContext::runDuration over the red-black tree of timers. The world outside
    is a script: `clock[i]` is what the i-th look at the clock reads, `spawn[i]` what the i-th resumed
    coroutine does to the timers before it suspends again: enqueue new ones and cancel others. */
module Timers {
  import opened RbShape
  import opened RbTrees

  /** Cancel is TimerNode::doCancel. */
  datatype Op = Enqueue(timer: RbNode) | Cancel(timer: RbNode)

  /** std::nullopt, the gap to the least expiry, or a script that ends while timers are still due. Broken
      stands for a coroutine that, after `d` of its operations, cancels a pending timer with two children. */
  datatype Outcome = Nothing | After(gap: int) | ScriptEnds | Broken(d: nat)

  /** The timers pending in their order, those cancelled while they were pending, and those whose mCancelled
      flag is set. */
  datatype Context = Context(pending: seq<RbNode>, cancelled: seq<RbNode>, flags: set<RbNode>)

  datatype Run = Run(now: Context, resumed: seq<RbNode>, outcome: Outcome)

  ghost function Apply(c: Context, op: Op): Context {
    match op
    case Enqueue(n) => c.(pending := Place(c.pending, n))
    case Cancel(n) =>
      Context(Without(c.pending, n), c.cancelled + if n in c.pending then [n] else [], c.flags + {n})
  }

  ghost function ApplyAll(c: Context, ops: seq<Op>): Context {
    if ops == [] then c else Apply(ApplyAll(c, ops[..|ops| - 1]), ops[|ops| - 1])
  }

  /** Taking the first timer out to resume it. */
  ghost function Fire(c: Context): Context
    requires c.pending != []
  {
    Context(c.pending[1..], c.cancelled, c.flags - {c.pending[0]})
  }

  /** The loop on the sorted sequence of pending timers. */
  ghost function Runs(c: Context, clock: seq<int>, spawn: seq<seq<Op>>): Run
    requires |clock| == |spawn|
    decreases |clock|
  {
    if c.pending == [] then Run(c, [], Nothing)
    else if clock == [] then Run(c, [], ScriptEnds)
    else if c.pending[0].key <= clock[0] then
      var r := Runs(ApplyAll(Fire(c), spawn[0]), clock[1..], spawn[1..]);
      r.(resumed := [c.pending[0]] + r.resumed)
    else Run(c, [], After(c.pending[0].key - clock[0]))
  }

  /** What the loop finds when it takes its next look, after the coroutines have done all of `spawn`. */
  ghost function Rounds(c: Context, spawn: seq<seq<Op>>): Context
    decreases |spawn|
  {
    if spawn == [] || c.pending == [] then c else Rounds(ApplyAll(Fire(c), spawn[0]), spawn[1..])
  }

  // ----- what the script enqueues -----

  ghost function Enqueued(ops: seq<Op>): seq<RbNode> {
    if ops == [] then []
    else
      var op := ops[|ops| - 1];
      Enqueued(ops[..|ops| - 1]) + if op.Enqueue? then [op.timer] else []
  }

  ghost function Flat(spawn: seq<seq<Op>>): seq<RbNode> {
    if spawn == [] then [] else Enqueued(spawn[0]) + Flat(spawn[1..])
  }

  lemma {:induction false} EnqueuedPrefix(ops: seq<Op>, k: nat)
    requires k <= |ops|
    ensures Enqueued(ops[..k]) <= Enqueued(ops)
    decreases |ops|
  {
    if k == |ops| {
      assert ops[..k] == ops;
    } else {
      EnqueuedPrefix(ops[..|ops| - 1], k);
      assert ops[..|ops| - 1][..k] == ops[..k];
    }
  }

  // ----- insertion order -----

  ghost predicate NoDup(s: seq<RbNode>) {
    forall i, j :: 0 <= i < j < |s| ==> s[i] != s[j]
  }

  /** The position of a timer in the log of insertions. */
  ghost function Born(log: seq<RbNode>, n: RbNode): nat
    requires n in log
  {
    if log[0] == n then 0 else 1 + Born(log[1..], n)
  }

  lemma {:induction false} BornAppend(log: seq<RbNode>, more: seq<RbNode>, n: RbNode)
    requires n in log + more
    ensures n in log ==> Born(log + more, n) == Born(log, n) < |log|
    ensures n !in log ==> Born(log + more, n) >= |log|
  {
    if log == [] {
    } else {
      assert (log + more)[1..] == log[1..] + more;
      if log[0] != n {
        BornAppend(log[1..], more, n);
      }
    }
  }

  /** `a` is due before `b`: an earlier expiry, or the same expiry and inserted earlier. */
  ghost predicate Sooner(log: seq<RbNode>, a: RbNode, b: RbNode) {
    a in log && b in log && (a.key < b.key || (a.key == b.key && Born(log, a) < Born(log, b)))
  }

  ghost predicate Stable(s: seq<RbNode>, log: seq<RbNode>) {
    && (forall x :: x in s ==> x in log)
    && forall i, j :: 0 <= i < j < |s| ==> Sooner(log, s[i], s[j])
  }

  lemma StableSorted(s: seq<RbNode>, log: seq<RbNode>)
    requires Stable(s, log)
    ensures Sorted(s)
  {
    forall i, j | 0 <= i < j < |s|
      ensures s[i].key <= s[j].key
    {
      assert Sooner(log, s[i], s[j]);
    }
  }

  lemma PlaceStable(s: seq<RbNode>, log: seq<RbNode>, n: RbNode)
    requires Stable(s, log) && n !in log
    ensures Stable(Place(s, n), log + [n])
  {
    StableSorted(s, log);
    var i := PlaceSplits(s, n);
    var t, more := Place(s, n), log + [n];
    forall a, b | 0 <= a < b < |t|
      ensures Sooner(more, t[a], t[b])
    {
      var a', b' := if a < i then a else a - 1, if b < i then b else b - 1;
      assert a != i ==> t[a] == s[a'];
      assert b != i ==> t[b] == s[b'];
      BornAppend(log, [n], t[a]);
      BornAppend(log, [n], t[b]);
      if a != i && b != i {
        assert Sooner(log, s[a'], s[b']);
      }
    }
  }

  lemma {:induction false} WithoutStable(s: seq<RbNode>, log: seq<RbNode>, n: RbNode)
    requires Stable(s, log)
    ensures Stable(Without(s, n), log)
  {
    if n in s {
      var i := FirstPlace(s, n);
      var t := Without(s, n);
      forall a, b | 0 <= a < b < |t|
        ensures Sooner(log, t[a], t[b])
      {
        assert Sooner(log, s[if a < i then a else a + 1], s[if b < i then b else b + 1]);
      }
      forall x | x in t
        ensures x in log
      {
        assert x in s;
      }
    } else {
      WithoutNothing(s, n);
    }
  }

  lemma {:induction false} FirstPlace(s: seq<RbNode>, n: RbNode) returns (i: nat)
    requires n in s
    ensures i < |s| && s[i] == n && Without(s, n) == s[..i] + s[i + 1..]
  {
    if s[0] == n {
      i := 0;
    } else {
      var j := FirstPlace(s[1..], n);
      i := j + 1;
      assert s[..i] == [s[0]] + s[1..][..j] && s[i + 1..] == s[1..][j + 1..];
    }
  }

  lemma {:induction false} WithoutNothing(s: seq<RbNode>, n: RbNode)
    requires n !in s
    ensures Without(s, n) == s
  {
    if s != [] {
      WithoutNothing(s[1..], n);
    }
  }

  lemma {:induction false} ApplyAllStable(c: Context, log: seq<RbNode>, ops: seq<Op>)
    requires Stable(c.pending, log) && NoDup(log + Enqueued(ops))
    ensures Stable(ApplyAll(c, ops).pending, log + Enqueued(ops))
    decreases |ops|
  {
    if ops == [] {
      assert log + Enqueued(ops) == log;
    } else {
      var front, op := ops[..|ops| - 1], ops[|ops| - 1];
      var before := log + Enqueued(front);
      if op.Enqueue? {
        assert log + Enqueued(ops) == before + [op.timer];
        NoDupPrefix(before, [op.timer]);
        LastIsNew(before, op.timer);
        ApplyAllStable(c, log, front);
        PlaceStable(ApplyAll(c, front).pending, before, op.timer);
      } else {
        assert log + Enqueued(ops) == before;
        ApplyAllStable(c, log, front);
        WithoutStable(ApplyAll(c, front).pending, before, op.timer);
      }
    }
  }

  lemma LastIsNew(s: seq<RbNode>, n: RbNode)
    requires NoDup(s + [n])
    ensures n !in s
  {
    assert forall i :: 0 <= i < |s| ==> (s + [n])[i] == s[i];
    assert (s + [n])[|s|] == n;
  }

  lemma StableTail(s: seq<RbNode>, log: seq<RbNode>)
    requires Stable(s, log) && s != []
    ensures Stable(s[1..], log)
  {
    forall i, j | 0 <= i < j < |s[1..]|
      ensures Sooner(log, s[1..][i], s[1..][j])
    {
      assert Sooner(log, s[i + 1], s[j + 1]);
    }
  }

  lemma NoDupPrefix(a: seq<RbNode>, b: seq<RbNode>)
    requires NoDup(a + b)
    ensures NoDup(a)
  {
    assert forall i :: 0 <= i < |a| ==> (a + b)[i] == a[i];
  }

  // ----- the guarantees -----

  /** The k-th coroutine resumed was, at that moment, due by that look at the clock, and the first of
      everything pending: least expiry, ties in insertion order, whatever timers had been enqueued and
      cancelled meanwhile. */
  lemma {:induction false} ResumesEarliest(c: Context, log: seq<RbNode>, clock: seq<int>, spawn: seq<seq<Op>>, k: nat)
    requires |clock| == |spawn| && Stable(c.pending, log) && NoDup(log + Flat(spawn))
    requires k < |Runs(c, clock, spawn).resumed|
    ensures k < |clock|
    ensures
      var first, all := Runs(c, clock, spawn).resumed[k], Rounds(c, spawn[..k]).pending;
      && first in all && first.key <= clock[k]
      && forall x :: x in all && x != first ==> Sooner(log + Flat(spawn[..k]), first, x)
    decreases k
  {
    if k == 0 {
      assert Flat(spawn[..0]) == [] && log + [] == log;
    } else {
      var next, later := ApplyAll(Fire(c), spawn[0]), log + Enqueued(spawn[0]);
      RoundStable(c, log, spawn);
      ResumesEarliest(next, later, clock[1..], spawn[1..], k - 1);
      assert spawn[1..][..k - 1] == spawn[..k][1..] && spawn[..k][0] == spawn[0];
      assert later + Flat(spawn[1..][..k - 1]) == log + Flat(spawn[..k]);
    }
  }

  /** One round keeps the pending timers in order. */
  lemma RoundStable(c: Context, log: seq<RbNode>, spawn: seq<seq<Op>>)
    requires spawn != [] && c.pending != [] && Stable(c.pending, log) && NoDup(log + Flat(spawn))
    ensures var later := log + Enqueued(spawn[0]);
            Stable(ApplyAll(Fire(c), spawn[0]).pending, later) && NoDup(later + Flat(spawn[1..]))
  {
    var later := log + Enqueued(spawn[0]);
    StableTail(c.pending, log);
    assert log + Flat(spawn) == later + Flat(spawn[1..]);
    NoDupPrefix(later, Flat(spawn[1..]));
    ApplyAllStable(Fire(c), log, spawn[0]);
  }

  /** All timers the context knows about, pending or cancelled. */
  ghost function Held(c: Context): multiset<RbNode> {
    multiset(c.pending) + multiset(c.cancelled)
  }

  /** Nothing is lost: every timer pending at the start or enqueued on the way is resumed, cancelled or
      still pending. */
  lemma {:induction false} NothingLost(c: Context, clock: seq<int>, spawn: seq<seq<Op>>)
    requires |clock| == |spawn|
    ensures
      var r := Runs(c, clock, spawn);
      && |r.resumed| <= |clock|
      && multiset(r.resumed) + Held(r.now) == Held(c) + multiset(Flat(spawn[..|r.resumed|]))
    decreases |clock|
  {
    var r := Runs(c, clock, spawn);
    if c.pending != [] && clock != [] && c.pending[0].key <= clock[0] {
      var next := ApplyAll(Fire(c), spawn[0]);
      var rest := Runs(next, clock[1..], spawn[1..]);
      NothingLost(next, clock[1..], spawn[1..]);
      ApplyAllHolds(Fire(c), spawn[0]);
      FireHolds(c);
      var k := |rest.resumed|;
      FlatHead(spawn, k);
      assert r == Run(rest.now, [c.pending[0]] + rest.resumed, rest.outcome) && |r.resumed| == k + 1;
      assert multiset(r.resumed) == multiset{c.pending[0]} + multiset(rest.resumed);
      Balance(c.pending[0], Held(Fire(c)), multiset(Enqueued(spawn[0])), multiset(Flat(spawn[1..][..k])), Held(next),
              multiset(rest.resumed), Held(rest.now));
    } else {
      assert r.resumed == [] && r.now == c;
      assert spawn[..|r.resumed|] == [];
      assert multiset(Flat(spawn[..|r.resumed|])) == multiset{};
    }
  }

  lemma Balance(n: RbNode, others: multiset<RbNode>, born: multiset<RbNode>, later: multiset<RbNode>,
                next: multiset<RbNode>, resumed: multiset<RbNode>, left: multiset<RbNode>)
    requires next == others + born && resumed + left == next + later
    ensures (multiset{n} + resumed) + left == (multiset{n} + others) + (born + later)
  {
    assert (multiset{n} + resumed) + left == multiset{n} + (others + born + later);
  }

  lemma FireHolds(c: Context)
    requires c.pending != []
    ensures Held(c) == multiset{c.pending[0]} + Held(Fire(c))
  {
    assert c.pending == [c.pending[0]] + c.pending[1..];
  }

  lemma FlatHead(spawn: seq<seq<Op>>, k: nat)
    requires k < |spawn|
    ensures multiset(Flat(spawn[..k + 1])) == multiset(Enqueued(spawn[0])) + multiset(Flat(spawn[1..][..k]))
  {
    assert spawn[..k + 1][1..] == spawn[1..][..k];
    assert Flat(spawn[..k + 1]) == Enqueued(spawn[0]) + Flat(spawn[1..][..k]);
  }

  lemma {:induction false} PlaceContents(s: seq<RbNode>, n: RbNode)
    ensures multiset(Place(s, n)) == multiset(s) + multiset{n}
  {
    if s == [] || n.key < s[0].key {
      assert Place(s, n) == [n] + s;
    } else {
      PlaceContents(s[1..], n);
      assert s == [s[0]] + s[1..];
    }
  }

  lemma WithoutContents(s: seq<RbNode>, n: RbNode)
    ensures multiset(s) == multiset(Without(s, n)) + if n in s then multiset{n} else multiset{}
  {
    if n in s {
      var i := FirstPlace(s, n);
      assert s == s[..i] + [n] + s[i + 1..];
    } else {
      WithoutNothing(s, n);
    }
  }

  lemma ApplyHolds(c: Context, op: Op)
    ensures Held(Apply(c, op)) == Held(c) + if op.Enqueue? then multiset{op.timer} else multiset{}
  {
    match op
    case Enqueue(n) => PlaceContents(c.pending, n);
    case Cancel(n) =>
      WithoutContents(c.pending, n);
      assert multiset(c.cancelled + if n in c.pending then [n] else []) ==
             multiset(c.cancelled) + if n in c.pending then multiset{n} else multiset{};
  }

  lemma {:induction false} ApplyAllHolds(c: Context, ops: seq<Op>)
    ensures Held(ApplyAll(c, ops)) == Held(c) + multiset(Enqueued(ops))
    decreases |ops|
  {
    if ops != [] {
      var front := ops[..|ops| - 1];
      ApplyAllHolds(c, front);
      ApplyHolds(ApplyAll(c, front), ops[|ops| - 1]);
    }
  }

  /** What the return value means: nothing pending, or a positive gap from the last look at the clock to
      the least expiry still pending. */
  lemma {:induction false} OutcomeMeans(c: Context, log: seq<RbNode>, clock: seq<int>, spawn: seq<seq<Op>>)
    requires |clock| == |spawn| && Stable(c.pending, log) && NoDup(log + Flat(spawn))
    ensures
      var r := Runs(c, clock, spawn);
      && (r.outcome.Nothing? <==> r.now.pending == []) && !r.outcome.Broken?
      && (r.outcome.ScriptEnds? ==> |r.resumed| == |clock|)
      && (r.outcome.After? ==>
            && |r.resumed| < |clock| && r.outcome.gap > 0 && r.now.pending != []
            && r.now.pending[0].key == clock[|r.resumed|] + r.outcome.gap
            && forall x :: x in r.now.pending ==> clock[|r.resumed|] + r.outcome.gap <= x.key)
    decreases |clock|
  {
    StableSorted(c.pending, log);
    if c.pending != [] && clock != [] && c.pending[0].key <= clock[0] {
      RoundStable(c, log, spawn);
      OutcomeMeans(ApplyAll(Fire(c), spawn[0]), log + Enqueued(spawn[0]), clock[1..], spawn[1..]);
    }
  }

  lemma {:induction false} ApplyAllFlags(c: Context, ops: seq<Op>)
    ensures forall n :: n in ApplyAll(c, ops).flags <==> n in c.flags || Cancel(n) in ops
    decreases |ops|
  {
    if ops != [] {
      var front := ops[..|ops| - 1];
      ApplyAllFlags(c, front);
      assert ops == front + [ops[|ops| - 1]];
    }
  }

  /** Some resumed coroutine has cancelled the timer, which has not been resumed since. */
  ghost predicate CancelledSince(resumed: seq<RbNode>, spawn: seq<seq<Op>>, n: RbNode)
    requires |resumed| <= |spawn|
  {
    exists k :: 0 <= k < |resumed| && Cancel(n) in spawn[k] && n !in resumed[k + 1..]
  }

  lemma SinceHead(first: RbNode, resumed: seq<RbNode>, spawn: seq<seq<Op>>, n: RbNode)
    requires |resumed| < |spawn|
    ensures CancelledSince([first] + resumed, spawn, n) <==>
            (Cancel(n) in spawn[0] && n !in resumed) || CancelledSince(resumed, spawn[1..], n)
  {
    var all := [first] + resumed;
    assert forall k :: 0 <= k <= |resumed| ==> all[k + 1..] == resumed[k..];
    assert resumed[0..] == resumed;
    if k :| 0 <= k < |resumed| && Cancel(n) in spawn[1..][k] && n !in resumed[k + 1..] {
      assert Cancel(n) in spawn[k + 1] && n !in all[k + 1 + 1..];
    }
    if k :| 0 <= k < |all| && Cancel(n) in spawn[k] && n !in all[k + 1..] {
      assert k > 0 ==> Cancel(n) in spawn[1..][k - 1] && n !in resumed[k - 1 + 1..];
    }
    assert Cancel(n) in spawn[0] && n !in resumed ==> Cancel(n) in spawn[0] && n !in all[0 + 1..];
  }

  /** After a run a timer is flagged exactly if it was flagged before or cancelled on the way, and has not been
      resumed since: so a coroutine finds its flag set exactly if it was cancelled after its last wait. */
  lemma {:induction false} FlagsExactly(c: Context, clock: seq<int>, spawn: seq<seq<Op>>, n: RbNode)
    requires |clock| == |spawn|
    ensures
      var r := Runs(c, clock, spawn);
      && |r.resumed| <= |spawn|
      && (n in r.now.flags <==> (n in c.flags && n !in r.resumed) || CancelledSince(r.resumed, spawn, n))
    decreases |clock|
  {
    if c.pending != [] && clock != [] && c.pending[0].key <= clock[0] {
      var next := ApplyAll(Fire(c), spawn[0]);
      FlagsExactly(next, clock[1..], spawn[1..], n);
      ApplyAllFlags(Fire(c), spawn[0]);
      SinceHead(c.pending[0], Runs(next, clock[1..], spawn[1..]).resumed, spawn, n);
      RunsOnce(c, clock, spawn);
    }
  }

  lemma GoneFromStable(s: seq<RbNode>, log: seq<RbNode>, n: RbNode)
    requires Stable(s, log)
    ensures n !in Without(s, n)
  {
    if n in s {
      var i := FirstPlace(s, n);
      forall j | 0 <= j < |s| && j != i
        ensures s[j] != n
      {
        assert Sooner(log, s[if i < j then i else j], s[if i < j then j else i]);
      }
    } else {
      WithoutNothing(s, n);
    }
  }

  lemma StaysOut(c: Context, op: Op, n: RbNode)
    requires n !in c.pending && op != Enqueue(n)
    ensures n !in Apply(c, op).pending
  {
    if op.Enqueue? {
      PlaceContents(c.pending, op.timer);
      assert n in Apply(c, op).pending ==> n in multiset(Apply(c, op).pending);
    } else {
      WithoutContents(c.pending, op.timer);
      assert n in Apply(c, op).pending ==> n in multiset(Apply(c, op).pending);
      assert n !in multiset(c.pending);
    }
  }

  /** A cancelled timer is out of the tree, and stays out until it is enqueued again. */
  lemma {:induction false} CancelTakesOut(c: Context, log: seq<RbNode>, ops: seq<Op>, i: nat, n: RbNode)
    requires Stable(c.pending, log) && NoDup(log + Enqueued(ops))
    requires i < |ops| && ops[i] == Cancel(n) && Enqueue(n) !in ops[i + 1..]
    ensures n !in ApplyAll(c, ops).pending
    decreases |ops|
  {
    var front, op := ops[..|ops| - 1], ops[|ops| - 1];
    EnqueuedPrefix(ops, |ops| - 1);
    var rest := Enqueued(ops)[|Enqueued(front)|..];
    assert log + Enqueued(ops) == log + Enqueued(front) + rest;
    NoDupPrefix(log + Enqueued(front), rest);
    if i == |ops| - 1 {
      ApplyAllStable(c, log, front);
      GoneFromStable(ApplyAll(c, front).pending, log + Enqueued(front), n);
    } else {
      assert ops[i + 1..] == front[i + 1..] + [op];
      CancelTakesOut(c, log, front, i, n);
      StaysOut(ApplyAll(c, front), op, n);
    }
  }

  lemma {:induction false} AllStayOut(c: Context, ops: seq<Op>, n: RbNode)
    requires n !in c.pending && Enqueue(n) !in ops
    ensures n !in ApplyAll(c, ops).pending
    decreases |ops|
  {
    if ops != [] {
      var front := ops[..|ops| - 1];
      assert ops == front + [ops[|ops| - 1]];
      AllStayOut(c, front, n);
      StaysOut(ApplyAll(c, front), ops[|ops| - 1], n);
    }
  }

  /** A timer that is not pending and that nobody enqueues is not resumed. */
  lemma {:induction false} NeverResumed(c: Context, clock: seq<int>, spawn: seq<seq<Op>>, n: RbNode)
    requires |clock| == |spawn| && n !in c.pending && forall ops :: ops in spawn ==> Enqueue(n) !in ops
    ensures n !in Runs(c, clock, spawn).resumed && n !in Runs(c, clock, spawn).now.pending
    decreases |clock|
  {
    if c.pending != [] && clock != [] && c.pending[0].key <= clock[0] {
      assert spawn[0] in spawn && forall ops :: ops in spawn[1..] ==> ops in spawn;
      AllStayOut(Fire(c), spawn[0], n);
      NeverResumed(ApplyAll(Fire(c), spawn[0]), clock[1..], spawn[1..], n);
      RunsOnce(c, clock, spawn);
    }
  }

  /** A timer that a resumed coroutine cancels, and that nobody enqueues again, is not resumed any more. */
  lemma {:induction false} CancelledNotResumed(c: Context, log: seq<RbNode>, clock: seq<int>, spawn: seq<seq<Op>>,
      k: nat, i: nat, n: RbNode)
    requires |clock| == |spawn| && Stable(c.pending, log) && NoDup(log + Flat(spawn))
    requires k < |Runs(c, clock, spawn).resumed| && k < |spawn| && i < |spawn[k]| && spawn[k][i] == Cancel(n)
    requires Enqueue(n) !in spawn[k][i + 1..] && forall ops :: ops in spawn[k + 1..] ==> Enqueue(n) !in ops
    ensures n !in Runs(c, clock, spawn).resumed[k + 1..] && n !in Runs(c, clock, spawn).now.pending
    decreases k
  {
    var next, later := ApplyAll(Fire(c), spawn[0]), log + Enqueued(spawn[0]);
    RoundStable(c, log, spawn);
    RunsOnce(c, clock, spawn);
    var rest := Runs(next, clock[1..], spawn[1..]).resumed;
    assert ([c.pending[0]] + rest)[k + 1..] == rest[k..];
    if k == 0 {
      StableTail(c.pending, log);
      assert log + Flat(spawn) == later + Flat(spawn[1..]);
      NoDupPrefix(later, Flat(spawn[1..]));
      CancelTakesOut(Fire(c), log, spawn[0], i, n);
      NeverResumed(next, clock[1..], spawn[1..], n);
    } else {
      assert spawn[1..][k - 1] == spawn[k] && spawn[1..][k..] == spawn[k + 1..];
      CancelledNotResumed(next, later, clock[1..], spawn[1..], k - 1, i, n);
    }
  }

  // ----- the loop itself -----

  ghost function Members(s: seq<RbNode>): set<RbNode> {
    set n | n in s
  }

  lemma FlatStep(spawn: seq<seq<Op>>, i: nat)
    requires i < |spawn| && NoDup(Flat(spawn[i..]))
    ensures NoDup(Enqueued(spawn[i])) && NoDup(Flat(spawn[i + 1..]))
    ensures Members(Enqueued(spawn[i])) !! Members(Flat(spawn[i + 1..]))
    ensures Members(Flat(spawn[i..])) == Members(Enqueued(spawn[i])) + Members(Flat(spawn[i + 1..]))
  {
    var a, b := Enqueued(spawn[i]), Flat(spawn[i + 1..]);
    assert spawn[i..][0] == spawn[i] && spawn[i..][1..] == spawn[i + 1..];
    assert Flat(spawn[i..]) == a + b;
    NoDupPrefix(a, b);
    assert forall k :: 0 <= k < |b| ==> (a + b)[|a| + k] == b[k];
    forall k, l | 0 <= k < |a| && 0 <= l < |b|
      ensures a[k] != b[l]
    {
      assert (a + b)[k] == a[k] && (a + b)[|a| + l] == b[l];
    }
  }

  ghost predicate Continues(whole: Run, done: seq<RbNode>, rest: Run) {
    whole == Run(rest.now, done + rest.resumed, rest.outcome)
  }

  lemma RunsOnce(c: Context, clock: seq<int>, spawn: seq<seq<Op>>)
    requires |clock| == |spawn| > 0 && c.pending != [] && c.pending[0].key <= clock[0]
    ensures var q := Runs(ApplyAll(Fire(c), spawn[0]), clock[1..], spawn[1..]);
            Runs(c, clock, spawn) == Run(q.now, [c.pending[0]] + q.resumed, q.outcome)
  {
    hide ApplyAll;
  }

  /** One round of Runs, with what came out earlier in front. */
  lemma RunsStep(c: Context, clock: seq<int>, spawn: seq<seq<Op>>, i: nat, done: seq<RbNode>)
    requires |clock| == |spawn| && i < |clock| && c.pending != [] && c.pending[0].key <= clock[i]
    ensures
      var r := Runs(c, clock[i..], spawn[i..]);
      var q := Runs(ApplyAll(Fire(c), spawn[i]), clock[i + 1..], spawn[i + 1..]);
      Continues(Run(r.now, done + r.resumed, r.outcome), done + [c.pending[0]], q)
  {
    hide ApplyAll, Runs;
    assert clock[i..][1..] == clock[i + 1..] && spawn[i..][1..] == spawn[i + 1..];
    var q := Runs(ApplyAll(Fire(c), spawn[i]), clock[i + 1..], spawn[i + 1..]);
    RunsOnce(c, clock[i..], spawn[i..]);
    assert done + ([c.pending[0]] + q.resumed) == done + [c.pending[0]] + q.resumed;
  }

  /** The rounds in which Runs stops. */
  lemma RunsStops(c: Context, clock: seq<int>, spawn: seq<seq<Op>>, i: nat)
    requires |clock| == |spawn| && i <= |clock|
    ensures
      var r := Runs(c, clock[i..], spawn[i..]);
      && (c.pending == [] ==> r == Run(c, [], Nothing))
      && (c.pending != [] && i == |clock| ==> r == Run(c, [], ScriptEnds))
      && (c.pending != [] && i < |clock| && clock[i] < c.pending[0].key ==>
            r == Run(c, [], After(c.pending[0].key - clock[i])))
  {
  }

  /** A round that follows the first `i`. */
  lemma {:induction false} RoundsNext(c: Context, spawn: seq<seq<Op>>, i: nat)
    requires i < |spawn| && Rounds(c, spawn[..i]).pending != []
    ensures Rounds(c, spawn[..i + 1]) == ApplyAll(Fire(Rounds(c, spawn[..i])), spawn[i])
    decreases i
  {
    if i > 0 && c.pending != [] {
      assert spawn[..i + 1][1..] == spawn[1..][..i] && spawn[..i][1..] == spawn[1..][..i - 1];
      RoundsNext(ApplyAll(Fire(c), spawn[0]), spawn[1..], i - 1);
    } else if i == 0 {
      assert spawn[..0] == [] && spawn[..1][1..] == [];
    }
  }

  /** The script up to the d-th operation of the coroutine that is the i-th to be resumed. */
  ghost function Until(spawn: seq<seq<Op>>, i: nat, d: nat): seq<seq<Op>>
    requires i < |spawn| && d <= |spawn[i]|
  {
    spawn[..i] + [spawn[i][..d]]
  }

  /** A run whose script is cut short inside round `i` is the same up to there. */
  lemma {:induction false} RunsUntil(c: Context, clock: seq<int>, spawn: seq<seq<Op>>, i: nat, d: nat)
    requires |clock| == |spawn| && i < |spawn| && d <= |spawn[i]| && i < |Runs(c, clock, spawn).resumed|
    ensures Rounds(c, spawn[..i]).pending != []
    ensures
      var now := ApplyAll(Fire(Rounds(c, spawn[..i])), spawn[i][..d]);
      Runs(c, clock[..i + 1], Until(spawn, i, d)) ==
      Run(now, Runs(c, clock, spawn).resumed[..i + 1], if now.pending == [] then Nothing else ScriptEnds)
    decreases i
  {
    var cut := Until(spawn, i, d);
    if i == 0 {
      assert spawn[..0] == [] && cut == [spawn[0][..d]] && cut[1..] == [] && clock[..1][1..] == [];
    } else {
      var next := ApplyAll(Fire(c), spawn[0]);
      assert spawn[..i][1..] == spawn[1..][..i - 1] && clock[..i + 1][1..] == clock[1..][..i];
      assert cut[0] == spawn[0] && cut[1..] == Until(spawn[1..], i - 1, d);
      RunsUntil(next, clock[1..], spawn[1..], i - 1, d);
      var rest := Runs(next, clock[1..], spawn[1..]).resumed;
      assert ([c.pending[0]] + rest)[..i + 1] == [c.pending[0]] + rest[..i];
    }
  }

  class GenericIOContext {
    const mTimers: RbTree
    /** The timers whose mCancelled flag is set. */
    var mCancelled: set<RbNode>
    ghost var cancelled: seq<RbNode>

    ghost function Now(): Context
      reads this, mTimers
    {
      Context(Inorder(mTimers.tree), cancelled, mCancelled)
    }

    /** Of the timers in `mine`, exactly the pending ones have an owner. */
    ghost predicate Valid(mine: set<RbNode>)
      reads this, mTimers, Nodes(mTimers.tree), mine
    {
      && mTimers.Valid() && Nodes(mTimers.tree) <= mine
      && forall n :: n in mine && n !in Nodes(mTimers.tree) ==> n.rbTree == null
    }

    /** A pending timer that has two children is to be cancelled. */
    ghost predicate Stuck(op: Op)
      reads this, mTimers, Nodes(mTimers.tree)
    {
      op.Cancel? && op.timer in Nodes(mTimers.tree) && op.timer.rbLeft != null && op.timer.rbRight != null
    }

    constructor ()
      ensures Valid({}) && Now() == Context([], [], {}) && fresh(mTimers)
    {
      mTimers := new RbTree();
      mCancelled, cancelled := {}, [];
    }

    method enqueueTimerNode(promise: RbNode, ghost mine: set<RbNode>)
      requires Valid(mine) && promise in mine && promise !in Nodes(mTimers.tree)
      modifies mTimers, mine
      ensures Valid(mine) && Now() == Apply(old(Now()), Enqueue(promise))
      ensures Nodes(mTimers.tree) == old(Nodes(mTimers.tree)) + {promise}
    {
      mTimers.doInsert(promise);
    }

    /** TimerNode::doCancel: set the flag, and leave the tree if still in it. */
    method doCancel(promise: RbNode, ghost mine: set<RbNode>)
      requires Valid(mine) && promise in mine && !Stuck(Cancel(promise))
      modifies this, mTimers, mine
      ensures Valid(mine) && Now() == Apply(old(Now()), Cancel(promise))
      ensures mCancelled == old(mCancelled) + {promise}
      ensures Nodes(mTimers.tree) == old(Nodes(mTimers.tree)) - {promise}
    {
      InorderNodes(mTimers.tree, promise);
      mCancelled := mCancelled + {promise};
      if promise.rbTree != null {
        cancelled := cancelled + [promise];
        var end := mTimers.doErase(promise);
      } else {
        WithoutNothing(Inorder(mTimers.tree), promise);
        assert cancelled + [] == cancelled;
      }
    }

    /** What the resumed coroutine does to the timers before it suspends again, up to a cancellation that
        the tree would not survive. */
    method resume(ops: seq<Op>, ghost mine: set<RbNode>) returns (d: nat)
      requires Valid(mine) && forall op :: op in ops ==> op.timer in mine
      requires NoDup(Enqueued(ops)) && Nodes(mTimers.tree) !! Members(Enqueued(ops))
      modifies this, mTimers, mine
      ensures Valid(mine) && d <= |ops| && Now() == ApplyAll(old(Now()), ops[..d])
      ensures forall n :: n in mCancelled <==> n in old(mCancelled) || Cancel(n) in ops[..d]
      ensures d < |ops| ==> Stuck(ops[d])
      ensures Nodes(mTimers.tree) <= old(Nodes(mTimers.tree)) + Members(Enqueued(ops))
    {
      hide ApplyAll, Apply, Enqueued, NoDup;
      d := 0;
      ApplyNone(Now(), ops);
      while d < |ops|
        invariant d <= |ops| && Valid(mine) && Now() == ApplyAll(old(Now()), ops[..d])
        invariant Nodes(mTimers.tree) <= old(Nodes(mTimers.tree)) + Members(Enqueued(ops[..d]))
      {
        var op := ops[d];
        NextOp(ops, d);
        ApplyNext(old(Now()), ops, d);
        match op {
          case Enqueue(n) =>
            enqueueTimerNode(n, mine);
          case Cancel(n) =>
            if n.rbTree != null && n.rbLeft != null && n.rbRight != null {
              ApplyAllFlags(old(Now()), ops[..d]);
              return;
            }
            doCancel(n, mine);
        }
        d := d + 1;
      }
      ApplyAllFlags(old(Now()), ops[..d]);
      assert ops[..d] == ops;
    }

    lemma ApplyNone(c: Context, ops: seq<Op>)
      ensures ApplyAll(c, ops[..0]) == c && Enqueued(ops[..0]) == []
    {
    }

    lemma ApplyNext(c: Context, ops: seq<Op>, d: nat)
      requires d < |ops|
      ensures ApplyAll(c, ops[..d + 1]) == Apply(ApplyAll(c, ops[..d]), ops[d])
    {
      assert ops[..d + 1][..d] == ops[..d] && ops[..d + 1][d] == ops[d];
    }

    lemma NextOp(ops: seq<Op>, d: nat)
      requires d < |ops| && NoDup(Enqueued(ops))
      ensures ops[..d + 1][..d] == ops[..d] && ops[..d + 1][d] == ops[d]
      ensures Members(Enqueued(ops[..d])) <= Members(Enqueued(ops[..d + 1])) <= Members(Enqueued(ops))
      ensures ops[d].Enqueue? ==>
                && ops[d].timer in Members(Enqueued(ops[..d + 1])) && ops[d].timer !in Members(Enqueued(ops[..d]))
    {
      EnqueuedNext(ops, d);
      hide Enqueued, NoDup;
      EnqueuedPrefix(ops, d + 1);
      Within(Enqueued(ops[..d + 1]), Enqueued(ops));
      if ops[d].Enqueue? {
        NoDupPrefix(Enqueued(ops[..d + 1]), Enqueued(ops)[|Enqueued(ops[..d + 1])|..]);
        LastIsNew(Enqueued(ops[..d]), ops[d].timer);
      }
    }

    lemma EnqueuedNext(ops: seq<Op>, d: nat)
      requires d < |ops|
      ensures ops[..d + 1][..d] == ops[..d] && ops[..d + 1][d] == ops[d]
      ensures Enqueued(ops[..d + 1]) == Enqueued(ops[..d]) + if ops[d].Enqueue? then [ops[d].timer] else []
    {
      assert ops[..d + 1][..d] == ops[..d];
    }

    lemma Within(a: seq<RbNode>, b: seq<RbNode>)
      requires a <= b
      ensures Members(a) <= Members(b) && b == a + b[|a|..]
    {
      assert forall k :: 0 <= k < |a| ==> b[k] == a[k];
    }

    /** generic_io.cpp:17-20: take the front timer out and let its coroutine run. */
    method fire(promise: RbNode, ops: seq<Op>, ghost mine: set<RbNode>) returns (d: nat)
      requires Valid(mine) && Now().pending != [] && promise == Now().pending[0]
      requires promise in Nodes(mTimers.tree) && mTimers.AtMostOneChild(promise)
      requires NoDup(Enqueued(ops)) && Nodes(mTimers.tree) !! Members(Enqueued(ops))
      requires forall op :: op in ops ==> op.timer in mine
      modifies this, mTimers, mine
      ensures Valid(mine) && d <= |ops| && Now() == ApplyAll(Fire(old(Now())), ops[..d])
      ensures forall n :: n in mCancelled <==> (n in old(mCancelled) && n != promise) || Cancel(n) in ops[..d]
      ensures d < |ops| ==> Stuck(ops[d])
      ensures Nodes(mTimers.tree) <= old(Nodes(mTimers.tree)) + Members(Enqueued(ops))
    {
      mCancelled := mCancelled - {promise};
      var end := mTimers.doErase(promise);
      d := resume(ops, mine);
    }

    /** The loop, on any script whose timers are each enqueued once. It computes Runs, unless a coroutine
        cancels a pending timer with two children; then it has computed Runs up to that. */
    method runDuration(clock: seq<int>, spawn: seq<seq<Op>>, ghost mine: set<RbNode>)
        returns (outcome: Outcome, resumed: seq<RbNode>)
      requires Valid(mine) && |clock| == |spawn| && NoDup(Flat(spawn)) && Nodes(mTimers.tree) !! Members(Flat(spawn))
      requires forall ops, op :: ops in spawn && op in ops ==> op.timer in mine
      modifies this, mTimers, mine
      ensures Valid(mine)
      ensures !outcome.Broken? ==> Run(Now(), resumed, outcome) == Runs(old(Now()), clock, spawn)
      ensures outcome.Broken? ==>
                && 0 < |resumed| <= |spawn| && outcome.d < |spawn[|resumed| - 1]|
                      && Stuck(spawn[|resumed| - 1][outcome.d])
                && Run(Now(), resumed, ScriptEnds) ==
                   Runs(old(Now()), clock[..|resumed|], Until(spawn, |resumed| - 1, outcome.d))
    {
      hide Runs, NoDup, ApplyAll, Flat, Rounds, Enqueued, Until, Inorder, Nodes;
      resumed := [];
      var i := 0;
      ghost var start := Now();
      assert Rounds(start, spawn[..0]) == start by { RoundsNone(start, spawn); }
      while true
        invariant i <= |clock| && |resumed| == i
        invariant Valid(mine) && NoDup(Flat(spawn[i..])) && Nodes(mTimers.tree) !! Members(Flat(spawn[i..]))
        invariant Continues(Runs(start, clock, spawn), resumed, Runs(Now(), clock[i..], spawn[i..]))
        invariant Now() == Rounds(start, spawn[..i])
        decreases |clock| - i
      {
        ghost var c := Now();
        RunsStops(c, clock, spawn, i);
        if mTimers.empty() {
          return Nothing, resumed;
        }
        var promise := mTimers.getFront();
        if i == |clock| {
          return ScriptEnds, resumed;
        }
        var now := clock[i];
        if promise.key > now {
          return After(promise.key - now), resumed;
        }
        FlatStep(spawn, i);
        RunsStep(c, clock, spawn, i, resumed);
        RoundsNext(start, spawn, i);
        var d := fire(promise, spawn[i], mine);
        resumed := resumed + [promise];
        if d < |spawn[i]| {
          CutShort(start, clock, spawn, i, d, resumed,
              Runs(ApplyAll(Fire(c), spawn[i]), clock[i + 1..], spawn[i + 1..]));
          InorderNodes(mTimers.tree, spawn[i][d].timer);
          return Broken(d), resumed;
        }
        assert spawn[i][..d] == spawn[i];
        i := i + 1;
      }
    }

    lemma RoundsNone(c: Context, spawn: seq<seq<Op>>)
      ensures Rounds(c, spawn[..0]) == c
    {
    }

    lemma CutShort(start: Context, clock: seq<int>, spawn: seq<seq<Op>>, i: nat, d: nat, resumed: seq<RbNode>,
        rest: Run)
      requires |clock| == |spawn| && i < |spawn| && d <= |spawn[i]| && |resumed| == i + 1
      requires Continues(Runs(start, clock, spawn), resumed, rest)
      ensures Rounds(start, spawn[..i]).pending != []
      ensures
        var now := ApplyAll(Fire(Rounds(start, spawn[..i])), spawn[i][..d]);
        now.pending != [] ==> Runs(start, clock[..i + 1], Until(spawn, i, d)) == Run(now, resumed, ScriptEnds)
    {
      RunsUntil(start, clock, spawn, i, d);
      assert (resumed + rest.resumed)[..i + 1] == resumed;
    }
  }
}
