/** when_all: a control block counts the children that have not finished; the one that brings the count
    to zero resumes the parent. Children may finish while the parent is still starting their siblings. */
module WhenAlls {

  datatype Child<+T> = Idle | Running | Done(value: T)

  /** `looping` while await_suspend is still resuming children; `resumed` counts the parent's resumptions. */
  datatype State<+T> = State(children: seq<Child<T>>, count: int, looping: bool, resumed: nat)

  datatype Action<+T> = Start | EndLoop | Finish(i: nat, value: T)

  function Init<T>(n: nat): State<T> {
    State(seq(n, _ => Idle), n, true, 0)
  }

  function Unfinished<T>(children: seq<Child<T>>): nat {
    if children == [] then 0 else (if children[0].Done? then 0 else 1) + Unfinished(children[1..])
  }

  /** The children the loop has resumed are those before position k. */
  predicate StartedUpTo<T>(children: seq<Child<T>>, k: nat) {
    k <= |children| && forall i :: 0 <= i < |children| ==> (children[i].Idle? <==> k <= i)
  }

  /** One step: the loop resumes the next child but never the last; it ends by transferring to the last
      one, or straight back to the parent when there is none; a running child finishes, at any time. */
  ghost predicate Step<T>(s: State<T>, a: Action<T>, s': State<T>) {
    var n := |s.children|;
    match a
    case Start =>
      && s.looping
      && exists k: nat :: StartedUpTo(s.children, k) && k + 1 < n && s' == s.(children := s.children[k := Running])
    case EndLoop =>
      && s.looping
      && if n == 0 then s' == s.(looping := false, resumed := s.resumed + 1)
         else StartedUpTo(s.children, n - 1) && s' == s.(children := s.children[n - 1 := Running], looping := false)
    case Finish(i, v) =>
      && i < n && s.children[i].Running?
      && s' == s.(children := s.children[i := Done(v)], count := s.count - 1,
                  resumed := s.resumed + if s.count - 1 == 0 then 1 else 0)
  }

  ghost predicate Inv<T>(s: State<T>) {
    && s.count == Unfinished(s.children)
    && (s.looping ==>
          s.resumed == 0 && exists k: nat :: StartedUpTo(s.children, k) && (s.children == [] || k < |s.children|))
    && (!s.looping ==> s.resumed == (if s.count == 0 then 1 else 0) && StartedUpTo(s.children, |s.children|))
  }

  lemma {:induction false} UnfinishedUpdate<T>(c: seq<Child<T>>, i: nat, x: Child<T>)
    requires i < |c|
    ensures Unfinished(c[i := x]) == Unfinished(c) - (if c[i].Done? then 0 else 1) + (if x.Done? then 0 else 1)
  {
    if i > 0 {
      UnfinishedUpdate(c[1..], i - 1, x);
      assert c[i := x][1..] == c[1..][i - 1 := x];
    } else {
      assert c[i := x][1..] == c[1..];
    }
  }

  lemma {:induction false} UnfinishedZero<T>(c: seq<Child<T>>)
    ensures Unfinished(c) == 0 <==> forall i :: 0 <= i < |c| ==> c[i].Done?
  {
    if c != [] {
      UnfinishedZero(c[1..]);
      assert forall i :: 1 <= i < |c| ==> c[i] == c[1..][i - 1];
    }
  }

  lemma {:induction false} UnfinishedInit<T>(n: nat)
    ensures Unfinished(Init<T>(n).children) == n
  {
    if n > 0 {
      UnfinishedInit<T>(n - 1);
      assert Init<T>(n).children[1..] == Init<T>(n - 1).children;
    }
  }

  lemma InitInv<T>(n: nat)
    ensures Inv(Init<T>(n))
  {
    UnfinishedInit<T>(n);
    assert StartedUpTo(Init<T>(n).children, 0);
  }

  lemma StepKeepsInv<T>(s: State<T>, a: Action<T>, s': State<T>)
    requires Inv(s) && Step(s, a, s')
    ensures Inv(s')
  {
    var n := |s.children|;
    match a
    case Start =>
      var k: nat :| StartedUpTo(s.children, k) && k + 1 < n && s' == s.(children := s.children[k := Running]);
      UnfinishedUpdate(s.children, k, Running);
      assert StartedUpTo(s'.children, k + 1);
    case EndLoop =>
      if n > 0 {
        UnfinishedUpdate(s.children, n - 1, Running);
        UnfinishedZero(s'.children);
        assert !s'.children[n - 1].Done?;
      }
    case Finish(i, v) =>
      UnfinishedUpdate(s.children, i, Done(v));
      UnfinishedZero(s'.children);
      if s.looping {
        var k: nat :| StartedUpTo(s.children, k) && (s.children == [] || k < n);
        assert StartedUpTo(s'.children, k);
        assert !s'.children[k].Done?;
      }
  }

  // ----- whole runs -----

  ghost predicate IsRun<T>(states: seq<State<T>>, actions: seq<Action<T>>) {
    |states| == |actions| + 1 && forall i :: 0 <= i < |actions| ==> Step(states[i], actions[i], states[i + 1])
  }

  /** In every run: the counter is the number of unfinished children; the parent is resumed at most once,
      never while the start loop is running, and only when every child has finished; and once the loop is
      over and every child has finished, it has been resumed. */
  lemma {:induction false} WhenAllRuns<T>(n: nat, states: seq<State<T>>, actions: seq<Action<T>>, k: nat)
    requires IsRun(states, actions) && states[0] == Init(n) && k < |states|
    ensures states[k].count == Unfinished(states[k].children) && |states[k].children| == n
    ensures states[k].resumed <= 1
    ensures states[k].resumed == 1 <==> !states[k].looping && forall i :: 0 <= i < n ==> states[k].children[i].Done?
  {
    RunKeepsInv(n, states, actions, k);
    UnfinishedZero(states[k].children);
  }

  lemma {:induction false} RunKeepsInv<T>(n: nat, states: seq<State<T>>, actions: seq<Action<T>>, k: nat)
    requires IsRun(states, actions) && states[0] == Init(n) && k < |states|
    ensures Inv(states[k]) && |states[k].children| == n
  {
    if k > 0 {
      RunKeepsInv(n, states, actions, k - 1);
      assert Step(states[k - 1], actions[k - 1], states[k]);
      StepKeepsInv(states[k - 1], actions[k - 1], states[k]);
      assert |states[k].children| == |states[k - 1].children|;
    } else {
      InitInv<T>(n);
    }
  }

  /** Result i is the value child i finished with, from then on. */
  lemma {:induction false} ResultComesFromChild<T>(states: seq<State<T>>, actions: seq<Action<T>>, j: nat, k: nat,
      i: nat, v: T)
    requires IsRun(states, actions) && j < k < |states| && actions[j] == Finish(i, v)
    ensures i < |states[k].children| && states[k].children[i] == Done(v)
  {
    assert Step(states[k - 1], actions[k - 1], states[k]);
    if j + 1 < k {
      ResultComesFromChild(states, actions, j, k - 1, i, v);
    }
  }

  // ----- the code -----

  class WhenAllCtlBlock<T> {
    var mCount: int
    var children: seq<Child<T>>
    var looping: bool
    /** How often mPrevious has been resumed. */
    var resumed: nat

    ghost function Abs(): State<T>
      reads this
    {
      State(children, mCount, looping, resumed)
    }

    constructor (n: nat)
      ensures Abs() == Init(n)
    {
      children, mCount, looping, resumed := seq(n, _ => Idle), n, true, 0;
    }

    /** The end of whenAllHelper: store the result, count down, and return to the parent at zero. */
    method finish(i: nat, value: T)
      requires i < |children| && children[i].Running?
      modifies this
      ensures Step(old(Abs()), Finish(i, value), Abs())
      ensures old(Inv(Abs())) ==> Inv(Abs())
      ensures children == old(children)[i := Done(value)] && mCount == old(mCount) - 1 && looping == old(looping)
      ensures resumed == old(resumed) + if mCount == 0 then 1 else 0
    {
      children := children[i := Done(value)];
      mCount := mCount - 1;
      if mCount == 0 {
        resumed := resumed + 1;
      }
      if old(Inv(Abs())) { StepKeepsInv(old(Abs()), Finish(i, value), Abs()); }
    }

    /** Resuming a child runs whatever completions that brings about, its own or an earlier sibling's;
        entries of `done` that are not running at their turn are passed over. Each child that was running ends
        with the value of its first entry, and the others are left alone. */
    method resume(i: nat, done: seq<(nat, T)>)
      requires looping && Inv(Abs()) && StartedUpTo(children, i) && i + 1 < |children|
      modifies this
      ensures looping && Inv(Abs()) && StartedUpTo(children, i + 1) && |children| == old(|children|)
      ensures forall c :: 0 <= c < |children| ==>
                children[c] == if c <= i && !old(children[c]).Done? then Ends(c, done) else old(children)[c]
    {
      ghost var s := Abs();
      children := children[i := Running];
      assert Step(s, Start, Abs());
      StepKeepsInv(s, Start, Abs());
      for j := 0 to |done|
        invariant looping && Inv(Abs()) && StartedUpTo(children, i + 1) && |children| == old(|children|)
        invariant forall c :: 0 <= c < |children| ==>
                    children[c] == if c <= i && !old(children[c]).Done? then Ends(c, done[..j]) else old(children)[c]
      {
        var (c, v) := done[j];
        EndsNext(done, j);
        if c < |children| && children[c].Running? {
          finish(c, v);
        }
      }
      assert done[..|done|] == done;
    }

    /** A running child after some completions: done with the first value meant for it, if there is one. */
    static function Ends(c: nat, done: seq<(nat, T)>): (r: Child<T>)
      ensures !r.Idle?
    {
      if done == [] then Running
      else if done[0].0 == c then Done(done[0].1)
      else Ends(c, done[1..])
    }

    static lemma EndsNext(done: seq<(nat, T)>, j: nat)
      requires j < |done|
      ensures forall c: nat ::
                Ends(c, done[..j + 1]) ==
                if Ends(c, done[..j]).Done? || done[j].0 != c then Ends(c, done[..j]) else Done(done[j].1)
    {
      forall c: nat
        ensures Ends(c, done[..j + 1]) ==
                if Ends(c, done[..j]).Done? || done[j].0 != c then Ends(c, done[..j]) else Done(done[j].1)
      {
        assert done[..j + 1] == done[..j] + [done[j]];
        EndsJoin(c, done[..j], [done[j]]);
        EndsOne(c, done[j]);
      }
    }

    static lemma EndsOne(c: nat, d: (nat, T))
      ensures Ends(c, [d]) == if d.0 == c then Done(d.1) else Running
    {
      assert [d][1..] == [];
    }

    static lemma {:induction false} EndsJoin(c: nat, a: seq<(nat, T)>, b: seq<(nat, T)>)
      ensures Ends(c, a + b) == if Ends(c, a).Done? then Ends(c, a) else Ends(c, b)
    {
      if a == [] {
        assert a + b == b;
      } else {
        assert (a + b)[1..] == a[1..] + b;
        EndsJoin(c, a[1..], b);
      }
    }

    /** What happens to a child that the loop has started by the end of round `k`: it ends with the first value
        meant for it from its own round on. */
    static function EndsFrom(c: nat, done: seq<seq<(nat, T)>>, k: nat): Child<T>
      requires k <= |done|
    {
      if k <= c then Idle
      else if EndsFrom(c, done, k - 1).Done? then EndsFrom(c, done, k - 1)
      else Ends(c, done[k - 1])
    }

    /** await_suspend, whatever completes while the children are being resumed: when it hands over to the
        last child, or back to the parent if there are none, no sibling has resumed the parent, and those
        that have ended have ended with their own values. */
    method await_suspend(done: seq<seq<(nat, T)>>) returns (toParent: bool)
      requires Abs() == Init(|children|) && |done| == |children|
      modifies this
      ensures Inv(Abs()) && !looping && |children| == old(|children|)
      ensures toParent <==> children == []
      ensures resumed == if toParent then 1 else 0
      ensures !toParent ==> children[|children| - 1].Running?
      ensures forall c :: 0 <= c < |children| - 1 ==> children[c] == EndsFrom(c, done, |children| - 1)
    {
      InitInv<T>(|children|);
      if |children| == 0 {
        looping, resumed := false, resumed + 1;
        return true;
      }
      assert StartedUpTo(children, 0);
      for i := 0 to |children| - 1
        invariant looping && Inv(Abs()) && StartedUpTo(children, i) && |children| == old(|children|)
        invariant forall c :: 0 <= c < |children| ==> children[c] == EndsFrom(c, done, i)
      {
        resume(i, done[i]);
      }
      ghost var s := Abs();
      children := children[|children| - 1 := Running];
      looping := false;
      assert Step(s, EndLoop, Abs());
      StepKeepsInv(s, EndLoop, Abs());
      UnfinishedZero(children);
      return false;
    }
  }
}
