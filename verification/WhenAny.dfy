/** The variadic when_any: every child of a when_all awaits its own task; when that ends it looks at the
    shared cancel source, and if nobody has cancelled it, cancels it and, once the cancellation has run
    its course, stores the result. */
module WhenAnys {
  import opened Options
  import W = WhenAlls

  /** Inside its own cancel() call, with the task's value in hand. */
  datatype Phase<+V> = Awaiting | Cancelling(value: V)

  /** `when_all` is the group of children; `result` and `stores` are the shared result and how often it has
      been stored; `ended` lists the tasks with their values in the order in which they ended; `outer` says
      that the caller's own source was cancelled before any task had ended. */
  datatype State<+V> = State(when_all: W.State<()>, phases: seq<Phase<V>>, canceled: bool,
                             result: Option<(nat, V)>, stores: nat, ended: seq<(nat, V)>, outer: bool)

  datatype Action<+V> =
    | Start
    | EndLoop
    | TaskEnds(i: nat, value: V)
    | CancelReturns(i: nat)
    | OuterCancel

  function Init<V>(n: nat): State<V> {
    State(W.Init(n), seq(n, _ => Awaiting), false, None, 0, [], false)
  }

  predicate Runs<V>(s: State<V>, i: nat) {
    i < |s.when_all.children| && i < |s.phases| && s.when_all.children[i].Running?
  }

  ghost predicate Step<V>(s: State<V>, a: Action<V>, s': State<V>) {
    match a
    case Start => W.Step(s.when_all, W.Start, s'.when_all) && s' == s.(when_all := s'.when_all)
    case EndLoop => W.Step(s.when_all, W.EndLoop, s'.when_all) && s' == s.(when_all := s'.when_all)
    case TaskEnds(i, v) =>
      && Runs(s, i) && s.phases[i].Awaiting?
      && if s.canceled then
           // co_return: the child leaves without storing anything
           && W.Step(s.when_all, W.Finish(i, ()), s'.when_all)
           && s' == s.(when_all := s'.when_all, ended := s.ended + [(i, v)])
         else
           s' == s.(canceled := true, phases := s.phases[i := Cancelling(v)], ended := s.ended + [(i, v)])
    case CancelReturns(i) =>
      && Runs(s, i) && s.phases[i].Cancelling?
      && W.Step(s.when_all, W.Finish(i, ()), s'.when_all)
      && s' == s.(when_all := s'.when_all, phases := s.phases[i := Awaiting],
                  result := Some((i, s.phases[i].value)), stores := s.stores + 1)
    case OuterCancel =>
      s' == s.(canceled := true, outer := s.outer || s.ended == [])
  }

  /** The first task to end, unless the caller was cancelled before. */
  function Winner<V>(s: State<V>): Option<(nat, V)> {
    if s.ended == [] || s.outer then None else Some(s.ended[0])
  }

  ghost predicate HasEnded<V>(ended: seq<(nat, V)>, i: nat) {
    exists j :: 0 <= j < |ended| && ended[j].0 == i
  }

  ghost predicate Inv<V>(s: State<V>) {
    && W.Inv(s.when_all) && |s.phases| == |s.when_all.children|
    && (s.canceled <==> s.ended != [] || s.outer)
    && (Winner(s).None? ==> s.result.None? && s.stores == 0 && forall i :: 0 <= i < |s.phases| ==>
          s.phases[i].Awaiting?)
    && (Winner(s).Some? ==>
          var (w, v) := Winner(s).value;
          && w < |s.phases| && (forall i :: 0 <= i < |s.phases| && i != w ==> s.phases[i].Awaiting?)
          && if s.phases[w].Cancelling? then s.phases[w].value == v && s.result.None? && s.stores == 0 && Runs(s, w)
             else s.result == Some((w, v)) && s.stores == 1)
    && (forall i :: 0 <= i < |s.phases| && s.when_all.children[i].Done? ==> HasEnded(s.ended, i))
    // a child whose task has ended is inside its cancel(), or has ended with it
    && (forall j :: 0 <= j < |s.ended| ==>
          var i := s.ended[j].0;
          i < |s.phases| && if s.phases[i].Cancelling? then Runs(s, i) else s.when_all.children[i].Done?)
  }

  lemma StepKeepsInv<V>(s: State<V>, a: Action<V>, s': State<V>)
    requires Inv(s) && Step(s, a, s')
    ensures Inv(s')
  {
    match a
    case Start =>
      W.StepKeepsInv(s.when_all, W.Start, s'.when_all);
      GroupMoves(s, W.Start, s');
    case EndLoop =>
      W.StepKeepsInv(s.when_all, W.EndLoop, s'.when_all);
      GroupMoves(s, W.EndLoop, s');
    case TaskEnds(i, v) =>
      TaskEndKeepsInv(s, i, v, s');
    case CancelReturns(i) =>
      W.StepKeepsInv(s.when_all, W.Finish(i, ()), s'.when_all);
    case OuterCancel =>
  }

  /** Starting children ends none and stops none. */
  lemma GroupMoves<V>(s: State<V>, a: W.Action<()>, s': State<V>)
    requires Inv(s) && (a.Start? || a.EndLoop?) && W.Step(s.when_all, a, s'.when_all) && W.Inv(s'.when_all)
    requires s' == s.(when_all := s'.when_all)
    ensures Inv(s')
  {
    var c, c' := s.when_all.children, s'.when_all.children;
    assert |c'| == |c| && forall i :: 0 <= i < |c| ==>
        (c[i].Running? ==> c'[i].Running?) && (c'[i].Done? ==> c[i].Done?);
    hide W.Step, W.Inv;
    if Winner(s).Some? {
      var w := Winner(s).value.0;
      assert Winner(s') == Winner(s) && (Runs(s, w) ==> Runs(s', w));
    }
  }

  lemma TaskEndKeepsInv<V>(s: State<V>, i: nat, v: V, s': State<V>)
    requires Inv(s) && Step(s, TaskEnds(i, v), s')
    ensures Inv(s')
  {
    if s.canceled {
      W.StepKeepsInv(s.when_all, W.Finish(i, ()), s'.when_all);
    }
    hide W.Inv;
    assert s'.ended[|s.ended|].0 == i;
    assert forall j :: 0 <= j < |s.ended| ==> s'.ended[j] == s.ended[j];
  }

  /** The child inside its cancel() is the first whose task ended, and nothing is stored yet. */
  lemma OneCancels<V>(s: State<V>, i: nat)
    requires Inv(s) && i < |s.phases| && s.phases[i].Cancelling?
    ensures s.stores == 0 && s.ended != [] && s.ended[0] == (i, s.phases[i].value)
  {
    hide W.Inv;
    assert Winner(s).Some?;
  }

  ghost predicate IsRun<V>(states: seq<State<V>>, actions: seq<Action<V>>) {
    |states| == |actions| + 1 && forall i :: 0 <= i < |actions| ==> Step(states[i], actions[i], states[i + 1])
  }

  /** The tasks that the first `k` actions ended, with their values. */
  function EndedBy<V>(actions: seq<Action<V>>, k: nat): seq<(nat, V)>
    requires k <= |actions|
  {
    if k == 0 then []
    else EndedBy(actions, k - 1) + if actions[k - 1].TaskEnds? then [(actions[k - 1].i, actions[k - 1].value)] else []
  }

  /** The caller's own source was cancelled before any task had ended. */
  ghost predicate CancelledFirst<V>(actions: seq<Action<V>>, k: nat)
    requires k <= |actions|
  {
    exists j :: 0 <= j < k && actions[j].OuterCancel? && EndedBy(actions, j) == []
  }

  lemma {:induction false} RunRecords<V>(n: nat, states: seq<State<V>>, actions: seq<Action<V>>, k: nat)
    requires IsRun(states, actions) && states[0] == Init(n) && k < |states|
    ensures states[k].ended == EndedBy(actions, k) && (states[k].outer <==> CancelledFirst(actions, k))
  {
    if k > 0 {
      RunRecords(n, states, actions, k - 1);
      assert Step(states[k - 1], actions[k - 1], states[k]);
    }
  }

  /** In every run with at least one child, whatever the order in which tasks end and cancellations return:
      at most one child ever stores a result; the caller has resumed iff it has left the loop that starts the
      children and all of them have ended, which they have once their tasks have and no cancel() is under way;
      and then the result is that of the first task to end, stored exactly
      once, if and only if the caller was not cancelled before any task had ended (otherwise there is none). */
  lemma {:induction false} WhenAnyRuns<V>(n: nat, states: seq<State<V>>, actions: seq<Action<V>>, k: nat)
    requires n > 0 && IsRun(states, actions) && states[0] == Init(n) && k < |states|
    ensures states[k].stores <= 1 && |states[k].when_all.children| == |states[k].phases| == n
    ensures states[k].ended == EndedBy(actions, k) && (states[k].outer <==> CancelledFirst(actions, k))
    ensures states[k].when_all.resumed <= 1
    ensures states[k].when_all.resumed == 1 <==>
              !states[k].when_all.looping && forall i :: 0 <= i < n ==> states[k].when_all.children[i].Done?
    ensures && !states[k].when_all.looping
            && (forall i :: 0 <= i < n ==> states[k].phases[i].Awaiting?)
            && (forall i :: 0 <= i < n ==> HasEnded(states[k].ended, i)) ==>
              states[k].when_all.resumed == 1
    ensures states[k].when_all.resumed == 1 ==>
              && (!states[k].outer ==>
                    states[k].ended != [] && states[k].result == Some(states[k].ended[0]) && states[k].stores == 1)
              && (states[k].outer ==> states[k].result == None && states[k].stores == 0)
  {
    RunKeepsInv(n, states, actions, k);
    RunRecords(n, states, actions, k);
    var s := states[k];
    W.UnfinishedZero(s.when_all.children);
    forall i | 0 <= i < n && s.phases[i].Awaiting? && HasEnded(s.ended, i)
      ensures s.when_all.children[i].Done?
    {
      var j :| 0 <= j < |s.ended| && s.ended[j].0 == i;
    }
    if s.when_all.resumed == 1 {
      assert s.when_all.children[0].Done?;
    }
  }

  lemma {:induction false} RunKeepsInv<V>(n: nat, states: seq<State<V>>, actions: seq<Action<V>>, k: nat)
    requires IsRun(states, actions) && states[0] == Init(n) && k < |states|
    ensures Inv(states[k]) && |states[k].phases| == n
  {
    if k > 0 {
      RunKeepsInv(n, states, actions, k - 1);
      assert Step(states[k - 1], actions[k - 1], states[k]);
      StepKeepsInv(states[k - 1], actions[k - 1], states[k]);
    } else {
      W.InitInv<()>(n);
    }
  }

  // ----- the code -----

  class WhenAny<V> {
    const group: W.WhenAllCtlBlock<()>
    var phases: seq<Phase<V>>
    var canceled: bool
    var result: Option<(nat, V)>
    ghost var stores: nat
    ghost var ended: seq<(nat, V)>
    ghost var outer: bool

    ghost function Abs(): State<V>
      reads this, group
    {
      State(group.Abs(), phases, canceled, result, stores, ended, outer)
    }

    /** Whatever is stored is the first task's result, and the counter of the group is right. */
    ghost predicate Valid()
      reads this, group
    {
      Inv(Abs())
    }

    constructor (n: nat)
      ensures Valid() && Abs() == Init(n) && fresh(group)
    {
      group := new W.WhenAllCtlBlock<()>(n);
      phases, canceled, result := seq(n, _ => Awaiting), false, None;
      stores, ended, outer := 0, [], false;
      W.InitInv<()>(n);
    }

    /** The child after its task: leave if the source is cancelled, otherwise call cancel() on it. */
    method taskEnds(i: nat, value: V)
      requires Valid() && Runs(Abs(), i) && phases[i].Awaiting?
      modifies this, group
      ensures Valid() && Step(old(Abs()), TaskEnds(i, value), Abs())
      ensures canceled && ended == old(ended) + [(i, value)] && result == old(result) && stores == old(stores)
      ensures old(canceled) ==> phases == old(phases) && group.children == old(group.children)[i := W.Done(())]
      ensures !old(canceled) ==>
                phases == old(phases)[i := Cancelling(value)] && group.children == old(group.children)
    {
      ended := ended + [(i, value)];
      if canceled {
        group.finish(i, ());
        StepKeepsInv(old(Abs()), TaskEnds(i, value), Abs());
        return;
      }
      canceled := true;
      phases := phases[i := Cancelling(value)];
      StepKeepsInv(old(Abs()), TaskEnds(i, value), Abs());
    }

    /** The winner after its cancel() has returned: store the result and end. */
    method cancelReturns(i: nat)
      requires Valid() && Runs(Abs(), i) && phases[i].Cancelling?
      modifies this, group
      ensures Valid() && Step(old(Abs()), CancelReturns(i), Abs())
      ensures stores == 1 && ended != [] && result == Some(ended[0]) && ended == old(ended) && canceled == old(canceled)
      ensures phases == old(phases)[i := Awaiting] && group.children == old(group.children)[i := W.Done(())]
    {
      OneCancels(Abs(), i);
      result := Some((i, phases[i].value));
      stores := stores + 1;
      phases := phases[i := Awaiting];
      group.finish(i, ());
      StepKeepsInv(old(Abs()), CancelReturns(i), Abs());
    }

    /** The caller's own source is cancelled, and with it the one registered beneath it. */
    method outerCancel()
      requires Valid()
      modifies this
      ensures Valid() && Step(old(Abs()), OuterCancel, Abs())
      ensures canceled && ended == old(ended) && phases == old(phases) && result == old(result)
    {
      canceled := true;
      outer := outer || ended == [];
    }
  }
}
