/** BasicMutex as a state machine over its atomic operations: the exchange on the futex word, the
    kernel's compare-and-block, the store of false, and the notify that follows it. Any number of tasks
    interleave at these points. */
module MutexProtocol {

  type TaskId = nat

  /** Losing saw the word taken and is on its way into the futex wait; Unlocking has stored false but not
      yet notified; Woken will exchange again. */
  datatype Phase = Losing | Blocked | Woken | Holding | Unlocking

  datatype State = State(word: bool, tasks: map<TaskId, Phase>)

  datatype Action =
    | Exchange(t: TaskId)
    | TryLock(t: TaskId)
    | Submit(t: TaskId)
    | Store(t: TaskId)
    | Notify(t: TaskId)

  predicate In(s: State, t: TaskId, p: Phase) {
    t in s.tasks && s.tasks[t] == p
  }

  function Put(s: State, t: TaskId, p: Phase): State {
    s.(tasks := s.tasks[t := p])
  }

  ghost predicate Step(s: State, a: Action, s': State) {
    match a
    case Exchange(t) =>
      && (t !in s.tasks || s.tasks[t].Woken?)
      && s' == Put(s.(word := true), t, if s.word then Losing else Holding)
    case TryLock(t) =>
      && t !in s.tasks
      && s' == if s.word then s else Put(s.(word := true), t, Holding)
    case Submit(t) =>
      && In(s, t, Losing)
      && s' == Put(s, t, if s.word then Blocked else Woken)
    case Store(t) =>
      && In(s, t, Holding)
      && s' == Put(s.(word := false), t, Unlocking)
    case Notify(t) =>
      && In(s, t, Unlocking)
      && var rest := s.(tasks := s.tasks - {t});
         || (s' == rest && forall w :: !In(rest, w, Blocked))
         || (exists w :: In(rest, w, Blocked) && s' == Put(rest, w, Woken))
  }

  const Init := State(false, map[])

  ghost predicate Inv(s: State) {
    && (forall t, u :: In(s, t, Holding) && In(s, u, Holding) ==> t == u)
    && (s.word <==> exists t :: In(s, t, Holding))
    && (!s.word && (exists t :: In(s, t, Blocked)) ==> exists u :: In(s, u, Unlocking) || In(s, u, Woken))
  }

  lemma StepKeepsInv(s: State, a: Action, s': State)
    requires Inv(s) && Step(s, a, s')
    ensures Inv(s')
  {
    match a
    case Exchange(t) => OneMoves(s, t, s');
    case TryLock(t) => OneMoves(s, t, s');
    case Submit(t) => OneMoves(s, t, s');
    case Store(t) => OneMoves(s, t, s');
    case Notify(t) =>
      var rest := s.(tasks := s.tasks - {t});
      assert forall u, p :: In(rest, u, p) <==> u != t && In(s, u, p);
      if w :| In(rest, w, Blocked) && s' == Put(rest, w, Woken) {
        assert forall u, p :: u != w ==> (In(s', u, p) <==> In(rest, u, p));
        assert In(s', w, Woken);
      }
      HolderStays(s, t, s');
  }

  lemma HolderStays(s: State, t: TaskId, s': State)
    requires Inv(s) && Step(s, Notify(t), s')
    ensures s.word ==> exists h :: In(s', h, Holding)
  {
    if s.word {
      var h :| In(s, h, Holding);
      assert In(s', h, Holding);
    }
  }

  /** Every step but the notify moves one task and leaves the others where they are. */
  lemma OneMoves(s: State, t: TaskId, s': State)
    requires Inv(s)
    requires Step(s, Exchange(t), s') || Step(s, TryLock(t), s') || Step(s, Submit(t), s') || Step(s, Store(t), s')
    ensures Inv(s')
  {
    assert forall u, p :: u != t ==> (In(s', u, p) <==> In(s, u, p));
    assert t in s'.tasks ==> In(s', t, s'.tasks[t]);
    if s.word {
      var h :| In(s, h, Holding);
      assert h != t ==> In(s', h, Holding);
    }
  }

  /** A notify ends the unlock of its task and wakes one blocked task if there is one, and only that one. */
  lemma NotifyWakes(s: State, t: TaskId, s': State)
    requires Step(s, Notify(t), s')
    ensures t !in s'.tasks && s'.word == s.word && s'.tasks.Keys == s.tasks.Keys - {t}
    ensures (exists w :: In(s, w, Blocked)) ==>
              exists w :: In(s, w, Blocked) && In(s', w, Woken)
                          && forall u :: u in s'.tasks && u != w ==> s'.tasks[u] == s.tasks[u]
    ensures !(exists w :: In(s, w, Blocked)) ==> forall u :: u in s'.tasks ==> s'.tasks[u] == s.tasks[u]
  {
    var rest := s.(tasks := s.tasks - {t});
    assert forall u :: In(rest, u, Blocked) <==> In(s, u, Blocked);
    if w :| In(rest, w, Blocked) && s' == Put(rest, w, Woken) {
      assert In(s, w, Blocked) && In(s', w, Woken);
    }
  }

  // ----- whole runs -----

  ghost predicate IsRun(states: seq<State>, actions: seq<Action>) {
    |states| == |actions| + 1 && forall i :: 0 <= i < |actions| ==> Step(states[i], actions[i], states[i + 1])
  }

  /** Nobody is about to do anything but the task that holds the mutex. */
  predicate AtRest(s: State) {
    forall t :: t in s.tasks ==> s.tasks[t] in {Blocked, Holding}
  }

  /** Mutual exclusion and no lost wake-up, in every interleaving: at most one task holds the mutex, and
      while the word is free and somebody is blocked, some unlocker has still to notify or some woken
      task has still to retry. A state in which nobody can move has no task blocked on a free mutex. */
  lemma {:induction false} MutexRuns(states: seq<State>, actions: seq<Action>, k: nat)
    requires IsRun(states, actions) && states[0] == Init && k < |states|
    ensures forall t, u :: In(states[k], t, Holding) && In(states[k], u, Holding) ==> t == u
    ensures states[k].word <==> exists t :: In(states[k], t, Holding)
    ensures !states[k].word && (exists t :: In(states[k], t, Blocked)) ==>
              exists u :: In(states[k], u, Unlocking) || In(states[k], u, Woken)
    ensures states[k].tasks != map[] && AtRest(states[k]) ==>
              exists t :: In(states[k], t, Holding)
  {
    RunKeepsInv(states, actions, k);
    var s := states[k];
    if AtRest(s) && s.tasks != map[] {
      var t :| t in s.tasks;
      assert In(s, t, Blocked) || In(s, t, Holding);
    }
  }

  lemma {:induction false} RunKeepsInv(states: seq<State>, actions: seq<Action>, k: nat)
    requires IsRun(states, actions) && states[0] == Init && k < |states|
    ensures Inv(states[k])
  {
    if k > 0 {
      RunKeepsInv(states, actions, k - 1);
      assert Step(states[k - 1], actions[k - 1], states[k]);
      StepKeepsInv(states[k - 1], actions[k - 1], states[k]);
    }
  }
}

/** CallOnce on top of the mutex: a task looks at mCalled, locks, looks again, and is granted the section
    only if mCalled is still false. */
module CallOnceProtocol {
  import M = MutexProtocol

  type TaskId = M.TaskId

  /** Inside holds a true Locked; `ready` says that it has called set_ready. Leaving holds the mutex but
      will return an empty Locked. */
  datatype Pc = Locking | Inside(ready: bool) | Leaving

  /** `grants` counts the true Locked handed out; `disciplined` is false once a granted task released
      the section without set_ready. */
  datatype State = State(m: M.State, called: bool, pcs: map<TaskId, Pc>, grants: nat, disciplined: bool)

  datatype Action =
    | Enter(t: TaskId)
    | Mutex(t: TaskId, a: M.Action)
    | Check(t: TaskId)
    | SetReady(t: TaskId)
    | Release(t: TaskId)

  predicate At(s: State, t: TaskId, p: Pc) {
    t in s.pcs && s.pcs[t] == p
  }

  ghost predicate Step(s: State, a: Action, s': State) {
    match a
    case Enter(t) =>
      && t !in s.pcs && t !in s.m.tasks
      && s' == if s.called then s else s.(pcs := s.pcs[t := Locking])
    case Mutex(t, act) =>
      && (act == M.Notify(t) || (At(s, t, Locking) && (act == M.Exchange(t) || act == M.Submit(t))))
      && M.Step(s.m, act, s'.m) && s' == s.(m := s'.m)
    case Check(t) =>
      && At(s, t, Locking) && M.In(s.m, t, M.Holding)
      && s' == if s.called then s.(pcs := s.pcs[t := Leaving])
               else s.(pcs := s.pcs[t := Inside(false)], grants := s.grants + 1)
    case SetReady(t) =>
      && t in s.pcs && s.pcs[t].Inside?
      && s' == s.(called := true, pcs := s.pcs[t := Inside(true)])
    case Release(t) =>
      && t in s.pcs && !s.pcs[t].Locking?
      && M.Step(s.m, M.Store(t), s'.m)
      && s' == s.(m := s'.m, pcs := s.pcs - {t}, disciplined := s.disciplined && s.pcs[t] != Inside(false))
  }

  const Init := State(M.Init, false, map[], 0, true)

  ghost predicate Inv(s: State) {
    && M.Inv(s.m)
    && (forall t :: t in s.pcs && !s.pcs[t].Locking? ==> M.In(s.m, t, M.Holding))
    && (s.called ==> forall t :: !At(s, t, Inside(false)))
    && (s.disciplined ==> s.grants <= 1)
    && (s.disciplined && !s.called && s.grants == 1 ==> exists t :: At(s, t, Inside(false)))
  }

  lemma StepKeepsInv(s: State, a: Action, s': State)
    requires Inv(s) && Step(s, a, s')
    ensures Inv(s')
  {
    match a
    case Enter(t) =>
      assert forall u, p :: u != t ==> (At(s', u, p) <==> At(s, u, p));
      if u :| At(s, u, Inside(false)) { assert At(s', u, Inside(false)); }
    case Mutex(t, act) =>
      M.StepKeepsInv(s.m, act, s'.m);
      assert forall u, p :: At(s', u, p) <==> At(s, u, p);
      if u :| At(s, u, Inside(false)) { assert At(s', u, Inside(false)); }
    case Check(t) =>
      assert forall u, p :: u != t ==> (At(s', u, p) <==> At(s, u, p));
      if !s.called { assert At(s', t, Inside(false)); }
      assert forall u :: At(s, u, Inside(false)) ==> M.In(s.m, u, M.Holding);
    case SetReady(t) =>
      assert forall u, p :: u != t ==> (At(s', u, p) <==> At(s, u, p));
    case Release(t) =>
      M.StepKeepsInv(s.m, M.Store(t), s'.m);
      assert forall u, p :: u != t ==> (At(s', u, p) <==> At(s, u, p));
      assert forall u :: At(s, u, Inside(false)) ==> M.In(s.m, u, M.Holding) && u == t;
  }

  ghost predicate IsRun(states: seq<State>, actions: seq<Action>) {
    |states| == |actions| + 1 && forall i :: 0 <= i < |actions| ==> Step(states[i], actions[i], states[i + 1])
  }

  /** Action `j` granted its task the section. */
  predicate Grants(states: seq<State>, actions: seq<Action>, j: nat)
    requires |states| == |actions| + 1 && j < |actions|
  {
    actions[j].Check? && actions[j].t in states[j + 1].pcs && states[j + 1].pcs[actions[j].t].Inside?
  }

  function Granted(states: seq<State>, actions: seq<Action>, k: nat): nat
    requires |states| == |actions| + 1 && k <= |actions|
  {
    if k == 0 then 0 else Granted(states, actions, k - 1) + if Grants(states, actions, k - 1) then 1 else 0
  }

  /** No task leaves the section before somebody has called set_ready. */
  ghost predicate Disciplined(states: seq<State>, actions: seq<Action>, k: nat)
    requires |states| == |actions| + 1 && k <= |actions|
  {
    forall j :: 0 <= j < k && Leaves(states[j], actions[j]) ==> exists i :: 0 <= i < j && actions[i].SetReady?
  }

  predicate Leaves(s: State, a: Action) {
    a.Release? && a.t in s.pcs && s.pcs[a.t].Inside?
  }

  /** In every run: sections never overlap; once a task has called set_ready the flag is set and nobody is granted
      a section, however long the run goes on; and if no task leaves its section before set_ready has been
      called, at most one task is ever granted one. */
  lemma {:induction false} CallOnceRuns(states: seq<State>, actions: seq<Action>, k: nat)
    requires IsRun(states, actions) && states[0] == Init && k < |states|
    ensures forall t, u :: t in states[k].pcs && u in states[k].pcs ==>
              states[k].pcs[t].Inside? && states[k].pcs[u].Inside? ==> t == u
    ensures forall j :: 0 <= j < k && actions[j].SetReady? ==>
              && states[k].called && Granted(states, actions, k) == Granted(states, actions, j)
              && forall i :: j < i < k ==> !Grants(states, actions, i)
    ensures Disciplined(states, actions, k) ==> Granted(states, actions, k) <= 1
    ensures forall j :: 0 <= j <= k && states[j].called ==> states[k].called
  {
    RunKeepsInv(states, actions, k);
    GrantsCounted(states, actions, k);
    forall j | 0 <= j < k && actions[j].SetReady?
      ensures states[k].called && Granted(states, actions, k) == Granted(states, actions, j)
      ensures forall i :: j < i < k ==> !Grants(states, actions, i)
    {
      assert Step(states[j], actions[j], states[j + 1]);
      CalledForGood(states, actions, j + 1, k);
      GrantsCounted(states, actions, j);
      forall i | j < i < k
        ensures !Grants(states, actions, i)
      {
        CalledForGood(states, actions, j + 1, i);
        assert Step(states[i], actions[i], states[i + 1]);
      }
    }
    forall j | 0 <= j <= k && states[j].called
      ensures states[k].called
    {
      CalledForGood(states, actions, j, k);
    }
    if Disciplined(states, actions, k) {
      DisciplineKept(states, actions, k);
    }
  }

  lemma {:induction false} GrantsCounted(states: seq<State>, actions: seq<Action>, k: nat)
    requires IsRun(states, actions) && states[0] == Init && k < |states|
    ensures states[k].grants == Granted(states, actions, k)
  {
    if k > 0 {
      GrantsCounted(states, actions, k - 1);
      assert Step(states[k - 1], actions[k - 1], states[k]);
    }
  }

  lemma {:induction false} DisciplineKept(states: seq<State>, actions: seq<Action>, k: nat)
    requires IsRun(states, actions) && states[0] == Init && k < |states| && Disciplined(states, actions, k)
    ensures states[k].disciplined
  {
    if k > 0 {
      DisciplineKept(states, actions, k - 1);
      RunKeepsInv(states, actions, k - 1);
      assert Step(states[k - 1], actions[k - 1], states[k]);
      if Leaves(states[k - 1], actions[k - 1]) {
        var i :| 0 <= i < k - 1 && actions[i].SetReady?;
        assert Step(states[i], actions[i], states[i + 1]);
        CalledForGood(states, actions, i + 1, k - 1);
        assert !At(states[k - 1], actions[k - 1].t, Inside(false));
      }
    }
  }

  lemma {:induction false} CalledForGood(states: seq<State>, actions: seq<Action>, j: nat, k: nat)
    requires IsRun(states, actions) && j <= k < |states| && states[j].called
    ensures states[k].called && states[k].grants == states[j].grants
    decreases k
  {
    if j < k {
      CalledForGood(states, actions, j, k - 1);
      assert Step(states[k - 1], actions[k - 1], states[k]);
    }
  }

  lemma {:induction false} RunKeepsInv(states: seq<State>, actions: seq<Action>, k: nat)
    requires IsRun(states, actions) && states[0] == Init && k < |states|
    ensures Inv(states[k])
  {
    if k > 0 {
      RunKeepsInv(states, actions, k - 1);
      assert Step(states[k - 1], actions[k - 1], states[k]);
      StepKeepsInv(states[k - 1], actions[k - 1], states[k]);
    }
  }
}
