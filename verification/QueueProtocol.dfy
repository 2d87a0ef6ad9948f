/** The waiting protocol of Queue over ConditionVariable, as a state machine. One event loop runs the
    tasks; each action below runs without interruption. A futex wait is first prepared (the snapshot of
    the futex word is taken), later submitted (the kernel blocks the task iff the word still equals the
    snapshot), and once the task is ready it resumes and retries. */
module QueueProtocol {
  import opened FutexWaits

  const WORD: nat := 0x1_0000_0000

  /** Tasks that are not in `tasks` are not inside push or pop. `total` counts the notifies. */
  datatype State<V> = State(cap: nat, items: seq<V>, total: nat, tasks: map<TaskId, Phase>, pushed: seq<V>,
      popped: seq<V>)

  datatype Action<V> =
    | Push(t: TaskId, v: V)
    | Pop(t: TaskId)
    | Submit(t: TaskId)
    | Recheck(t: TaskId)

  function Word(total: nat): nat { total % WORD }

  /** A task may make an attempt when it enters the call, or when it is ready with the right mask and
      the word no longer equals its snapshot (the exit test of ConditionVariable::wait). */
  predicate MayAttempt<V>(s: State<V>, t: TaskId, mask: Mask) {
    t in s.tasks ==> IsReady(s.tasks, t, mask) && Word(s.total) != s.tasks[t].snap
  }

  function Wait<V>(s: State<V>, t: TaskId, mask: Mask): State<V> {
    s.(tasks := s.tasks[t := Prepared(mask, Word(s.total), s.total)])
  }

  ghost predicate Step<V>(s: State<V>, a: Action<V>, s': State<V>) {
    match a
    case Push(t, v) =>
      && MayAttempt(s, t, NonFull)
      && if |s.items| < s.cap then
           && s' == s.(items := s.items + [v], total := s.total + 1, tasks := s'.tasks, pushed := s.pushed + [v])
           && NotifyOne(s.tasks - {t}, s'.tasks, NonEmpty)
         else s' == Wait(s, t, NonFull)
    case Pop(t) =>
      && MayAttempt(s, t, NonEmpty)
      && if s.items != [] then
           && s' == s.(items := s.items[1..], total := s.total + 1, tasks := s'.tasks,
                 popped := s.popped + [s.items[0]])
           && NotifyOne(s.tasks - {t}, s'.tasks, NonFull)
         else s' == Wait(s, t, NonEmpty)
    case Submit(t) =>
      && t in s.tasks && s.tasks[t].Prepared?
      && var p := s.tasks[t];
         s' == s.(tasks := s.tasks[t := if Word(s.total) == p.snap then Blocked(p.mask, p.snap, p.stamp)
                                        else Ready(p.mask, p.snap, p.stamp)])
    case Recheck(t) =>
      && t in s.tasks && s.tasks[t].Ready? && Word(s.total) == s.tasks[t].snap
      && s' == s.(tasks := s.tasks[t := Prepared(s.tasks[t].mask, s.tasks[t].snap, s.tasks[t].stamp)])
  }

  function Init<V>(cap: nat): State<V> {
    State(cap, [], 0, map[], [], [])
  }

  /** A positive multiple of 2^32 notifies have come since the snapshot of t's wait, and so the word looks as if
      there had been none. */
  predicate Overtaken<V>(s: State<V>, t: TaskId) {
    t in s.tasks && s.tasks[t].stamp < s.total && Word(s.total) == Word(s.tasks[t].stamp)
  }

  /** The action compares no snapshot at such a moment: the kernel no snapshot submitted to it, the exit test
      none of a task that runs again. (An attempt has passed the exit test, with a word that differed.) */
  predicate Timely<V>(s: State<V>, a: Action<V>) {
    a.Submit? || a.Recheck? ==> !Overtaken(s, a.t)
  }

  // ----- the invariant -----

  function Room<V>(s: State<V>, mask: Mask): int {
    match mask
    case NonFull => s.cap - |s.items|
    case NonEmpty => |s.items|
  }

  /** A blocked task never has more room before it than tasks already woken for that room. */
  predicate Covered<V>(s: State<V>, mask: Mask) {
    Room(s, mask) <= |ReadyTasks(s.tasks, mask)|
  }

  ghost predicate InOrder<V>(s: State<V>) {
    |s.items| <= s.cap && s.popped + s.items == s.pushed
  }

  /** What is known of one task inside a call. */
  predicate TaskInv<V>(s: State<V>, p: Phase) {
    && p.stamp <= s.total && p.snap == Word(p.stamp)
    // a snapshot that is still current was taken when there was no room, and there is none now
    && (p.Prepared? && p.stamp == s.total ==> Room(s, p.mask) == 0)
    && (p.Ready? ==> p.stamp < s.total)
    && (p.Blocked? ==> Covered(s, p.mask))
  }

  ghost predicate Inv<V>(s: State<V>) {
    InOrder(s) && forall t :: t in s.tasks ==> TaskInv(s, s.tasks[t])
  }

  lemma StepKeepsInv<V>(s: State<V>, a: Action<V>, s': State<V>)
    requires Inv(s) && Step(s, a, s') && Timely(s, a)
    ensures Inv(s')
  {
    match a
    case Push(t, v) =>
      AttemptKeepsInv(s, t, NonFull, s', NonEmpty, |s.items| < s.cap);
    case Pop(t) =>
      AttemptKeepsInv(s, t, NonEmpty, s', NonFull, s.items != []);
    case Submit(t) =>
      SubmitKeepsInv(s, t, s');
    case Recheck(t) =>
      // a ready task has been notified since its snapshot, so it fails the exit test only when overtaken
      assert false;
  }

  lemma SubmitKeepsInv<V>(s: State<V>, t: TaskId, s': State<V>)
    requires Inv(s) && Step(s, Submit(t), s') && !Overtaken(s, t)
    ensures Inv(s')
  {
    var p := s.tasks[t];
    assert TaskInv(s, p);
    OneTaskKeepsInv(s, t, s'.tasks[t], s');
  }

  /** One task moves on, and no task that was ready stops being so, unless its side has no room. */
  lemma OneTaskKeepsInv<V>(s: State<V>, t: TaskId, p: Phase, s': State<V>)
    requires Inv(s) && s' == s.(tasks := s.tasks[t := p])
    requires t in s.tasks && s.tasks[t].Ready? ==> s.tasks[t].mask == p.mask && (p.Ready? || Room(s, p.mask) == 0)
    requires p.Blocked? ==> Room(s, p.mask) == 0
    requires TaskInv(s, p) || (p.Blocked? && p.stamp <= s.total && p.snap == Word(p.stamp))
    ensures Inv(s')
  {
    forall m
      ensures Room(s, m) == 0 || |ReadyTasks(s'.tasks, m)| >= |ReadyTasks(s.tasks, m)|
    {
      ReadyWithout(s.tasks, t, m);
      ReadyUpdate(s.tasks, t, p, m);
    }
    forall u | u in s'.tasks
      ensures TaskInv(s', s'.tasks[u])
    {
      if u != t {
        assert TaskInv(s, s.tasks[u]);
      }
    }
  }

  /** The one argument behind push and pop: an attempt either finds no room and prepares to wait, or
      uses one unit of its own room, makes one unit for the other side, and wakes one task there. */
  lemma AttemptKeepsInv<V>(s: State<V>, t: TaskId, mask: Mask, s': State<V>, other: Mask, success: bool)
    requires Inv(s) && MayAttempt(s, t, mask) && mask != other
    requires success <==> Room(s, mask) > 0
    requires !success ==> s' == Wait(s, t, mask)
    requires success ==>
               && s'.cap == s.cap && s'.total == s.total + 1 && NotifyOne(s.tasks - {t}, s'.tasks, other)
               && |s'.items| <= s'.cap && s'.popped + s'.items == s'.pushed
               && Room(s', mask) == Room(s, mask) - 1 && Room(s', other) == Room(s, other) + 1
    ensures Inv(s')
  {
    if success {
      SuccessKeepsInv(s, t, mask, s', other);
    } else {
      assert t in s.tasks ==> TaskInv(s, s.tasks[t]);
      OneTaskKeepsInv(s, t, s'.tasks[t], s');
    }
  }

  lemma SuccessKeepsInv<V>(s: State<V>, t: TaskId, mask: Mask, s': State<V>, other: Mask)
    requires Inv(s) && MayAttempt(s, t, mask) && mask != other
    requires s'.cap == s.cap && s'.total == s.total + 1 && NotifyOne(s.tasks - {t}, s'.tasks, other)
    requires |s'.items| <= s'.cap && s'.popped + s'.items == s'.pushed
    requires Room(s', mask) == Room(s, mask) - 1 && Room(s', other) == Room(s, other) + 1
    ensures Inv(s')
  {
    forall u | u in s'.tasks
      ensures TaskInv(s', s'.tasks[u])
    {
      SuccessKeepsTask(s, t, mask, s', other, u);
    }
  }

  lemma SuccessKeepsTask<V>(s: State<V>, t: TaskId, mask: Mask, s': State<V>, other: Mask, u: TaskId)
    requires Inv(s) && MayAttempt(s, t, mask) && mask != other && u in s'.tasks
    requires s'.cap == s.cap && s'.total == s.total + 1 && NotifyOne(s.tasks - {t}, s'.tasks, other)
    requires Room(s', mask) == Room(s, mask) - 1 && Room(s', other) == Room(s, other) + 1
    ensures TaskInv(s', s'.tasks[u])
  {
    NotifyReady(s.tasks - {t}, s'.tasks, other);
    assert u in s.tasks && TaskInv(s, s.tasks[u]);
    if s'.tasks[u].Blocked? {
      assert s'.tasks[u] == s.tasks[u];
      ReadyWithout(s.tasks, t, mask);
      ReadyWithout(s.tasks, t, other);
      assert s'.tasks[u].mask == other ==> IsBlocked(s.tasks - {t}, u, other);
    }
  }

  // ----- whole runs -----

  ghost predicate IsRun<V>(states: seq<State<V>>, actions: seq<Action<V>>) {
    |states| == |actions| + 1 && forall i :: 0 <= i < |actions| ==> Step(states[i], actions[i], states[i + 1])
  }

  /** Nobody is about to do anything: every task inside a call is blocked in the kernel. */
  predicate AtRest<V>(s: State<V>) {
    forall t :: t in s.tasks ==> s.tasks[t].Blocked?
  }

  /** The values of the first `k` actions that pushed one: those that found room. */
  function Accepted<V>(states: seq<State<V>>, actions: seq<Action<V>>, k: nat): seq<V>
    requires k <= |actions| < |states|
  {
    if k == 0 then []
    else
      var s, a := states[k - 1], actions[k - 1];
      Accepted(states, actions, k - 1) + if a.Push? && |s.items| < s.cap then [a.v] else []
  }

  /** How many of them popped one: those that found the queue non-empty. */
  function Taken<V>(states: seq<State<V>>, actions: seq<Action<V>>, k: nat): nat
    requires k <= |actions| < |states|
  {
    if k == 0 then 0
    else Taken(states, actions, k - 1) + if actions[k - 1].Pop? && states[k - 1].items != [] then 1 else 0
  }

  lemma {:induction false} RunCounts<V>(cap: nat, states: seq<State<V>>, actions: seq<Action<V>>, k: nat)
    requires IsRun(states, actions) && states[0] == Init(cap) && k < |states|
    ensures states[k].pushed == Accepted(states, actions, k) && |states[k].popped| == Taken(states, actions, k)
  {
    hide MayAttempt, NotifyOne, Word;
    if k > 0 {
      RunCounts(cap, states, actions, k - 1);
      assert Step(states[k - 1], actions[k - 1], states[k]);
    }
  }

  /** In every run from an empty queue in which no snapshot is compared a positive multiple of 2^32 notifies after
      it was taken: the values pushed are those of the pushes that found room, they leave in that order, the queue never
      overfills, a blocked task never has more room than tasks already woken for it, and so a run that
      has come to rest has no blocked task that could proceed. */
  lemma {:induction false} QueueRuns<V>(cap: nat, states: seq<State<V>>, actions: seq<Action<V>>, k: nat)
    requires IsRun(states, actions) && states[0] == Init(cap) && k < |states|
    requires forall i :: 0 <= i < k ==> Timely(states[i], actions[i])
    ensures states[k].pushed == Accepted(states, actions, k) && |states[k].popped| == Taken(states, actions, k)
    ensures states[k].popped <= states[k].pushed && states[k].pushed == states[k].popped + states[k].items
    ensures |states[k].items| <= cap
    ensures forall t :: t in states[k].tasks && states[k].tasks[t].Blocked? ==>
                          Covered(states[k], states[k].tasks[t].mask)
    ensures AtRest(states[k]) ==> forall t :: t in states[k].tasks ==> Room(states[k], states[k].tasks[t].mask) == 0
  {
    RunKeepsInv(cap, states, actions, k);
    RunCounts(cap, states, actions, k);
    assert forall t :: t in states[k].tasks ==> TaskInv(states[k], states[k].tasks[t]);
    if AtRest(states[k]) {
      assert ReadyTasks(states[k].tasks, NonFull) == {} && ReadyTasks(states[k].tasks, NonEmpty) == {};
    }
  }

  lemma {:induction false} RunKeepsInv<V>(cap: nat, states: seq<State<V>>, actions: seq<Action<V>>, k: nat)
    requires IsRun(states, actions) && states[0] == Init(cap) && k < |states|
    requires forall i :: 0 <= i < k ==> Timely(states[i], actions[i])
    ensures Inv(states[k]) && states[k].cap == cap
  {
    if k > 0 {
      RunKeepsInv(cap, states, actions, k - 1);
      assert Step(states[k - 1], actions[k - 1], states[k]);
      StepKeepsInv(states[k - 1], actions[k - 1], states[k]);
    }
  }

  // ----- why such a comparison must not happen -----

  ghost predicate Reaches(s: State<int>, s': State<int>, n: nat)
    decreases n
  {
    if n == 0 then s == s' else exists m :: Next(s, m) && Reaches(m, s', n - 1)
  }

  ghost predicate Next(s: State<int>, s': State<int>) {
    exists a :: Step(s, a, s')
  }

  lemma ReachesStep(s: State<int>, a: Action<int>, m: State<int>, s': State<int>, n: nat)
    requires Step(s, a, m) && Reaches(m, s', n)
    ensures Reaches(s, s', n + 1)
  {
    assert Next(s, m);
  }

  lemma {:induction false} ReachesJoin(s: State<int>, m: State<int>, s': State<int>, i: nat, j: nat)
    requires Reaches(s, m, i) && Reaches(m, s', j)
    ensures Reaches(s, s', i + j)
    decreases i
  {
    hide Next;
    if i > 0 {
      var q :| Next(s, q) && Reaches(q, m, i - 1);
      ReachesJoin(q, m, s', i - 1, j);
      assert i + j != 0 && i + j - 1 == i - 1 + j;
    }
  }

  /** `k` rounds of push and pop by task 0, on an empty queue whose only waiting task is the producer 1. */
  function Rounds(s: State<int>, k: nat): State<int>
    decreases k
  {
    if k == 0 then s
    else Rounds(Round(s), k - 1)
  }

  function Round(s: State<int>): State<int> {
    s.(total := s.total + 2, pushed := s.pushed + [7], popped := s.popped + [7])
  }

  lemma RoundHappens(s: State<int>, s': State<int>, n: nat)
    requires s.items == [] && s.cap > 0 && 0 !in s.tasks && forall w :: w in s.tasks ==> !s.tasks[w].Blocked?
    requires Reaches(Round(s), s', n)
    ensures Reaches(s, s', n + 2)
  {
    hide Reaches;
    var m := s.(items := [7], total := s.total + 1, pushed := s.pushed + [7]);
    assert s.tasks - {0} == s.tasks;
    assert m.items[1..] == [];
    ReachesStep(m, Pop(0), Round(s), s', n);
    ReachesStep(s, Push(0, 7), m, s', n + 1);
  }

  lemma {:induction false} RoundsHappen(s: State<int>, k: nat)
    requires s.items == [] && s.cap > 0 && 0 !in s.tasks && forall w :: w in s.tasks ==> !s.tasks[w].Blocked?
    ensures Reaches(s, Rounds(s, k), 2 * k)
    ensures var e := Rounds(s, k); e.items == [] && e.tasks == s.tasks && e.total == s.total + 2 * k && e.cap == s.cap
    decreases k
  {
    hide Reaches;
    if k == 0 {
      ReachesNone(s);
    } else {
      RoundsHappen(Round(s), k - 1);
      RoundHappens(s, Rounds(s, k), 2 * (k - 1));
    }
  }

  lemma ReachesNone(s: State<int>)
    ensures Reaches(s, s, 0)
  {
  }

  /** Two pushes fill a queue of two, producer 1 prepares to wait, and two pops empty the queue. */
  function Emptied(): State<int> {
    State(2, [], 4, map[1 := Prepared(NonFull, 2, 2)], [7, 7], [7, 7])
  }

  lemma EmptiedHappens()
    ensures Reaches(Init<int>(2), Emptied(), 5)
  {
    var none: map<TaskId, Phase> := map[];
    var waits := map[1 := Prepared(NonFull, 2, 2)];
    var s0 := Init<int>(2);
    var s1 := State(2, [7], 1, none, [7], []);
    var s2 := State(2, [7, 7], 2, none, [7, 7], []);
    var s3 := State(2, [7, 7], 2, waits, [7, 7], []);
    var s4 := State(2, [7], 3, waits, [7, 7], [7]);
    var s5 := Emptied();
    assert none - {0} == none && waits - {0} == waits && none[1 := Prepared(NonFull, 2, 2)] == waits;
    assert s3.items[1..] == [7] && s4.items[1..] == [];
    assert Reaches(s5, s5, 0);
    ReachesStep(s4, Pop(0), s5, s5, 0);
    ReachesStep(s3, Pop(0), s4, s5, 1);
    ReachesStep(s2, Push(1, 7), s3, s5, 2);
    ReachesStep(s1, Push(0, 7), s2, s5, 3);
    ReachesStep(s0, Push(0, 7), s1, s5, 4);
  }

  /** With exactly 2^32 notifies between snapshot and submission, a producer blocks on an empty queue
      and nobody is left to wake it: the theorem's assumption cannot be dropped. */
  lemma WrapStrands()
    ensures exists n: nat, s: State<int> ::
              Reaches(Init<int>(2), s, n) && AtRest(s) && 1 in s.tasks && s.tasks[1].mask == NonFull
                  && Room(s, NonFull) == 2
  {
    var k := 0x7FFF_FFFF;
    EmptiedHappens();
    RoundsHappen(Emptied(), k);
    var s := LastSubmission(Rounds(Emptied(), k));
    ReachesJoin(Emptied(), Rounds(Emptied(), k), s, 2 * k, 1);
    ReachesJoin(Init<int>(2), Emptied(), s, 5, 2 * k + 1);
  }

  lemma LastSubmission(s: State<int>) returns (s': State<int>)
    requires s.items == [] && s.cap == 2 && s.total == 2 + WORD && s.tasks == map[1 := Prepared(NonFull, 2, 2)]
    ensures Reaches(s, s', 1)
    ensures AtRest(s') && 1 in s'.tasks && s'.tasks[1].mask == NonFull && Room(s', NonFull) == 2
  {
    s' := s.(tasks := map[1 := Blocked(NonFull, 2, 2)]);
    assert s.tasks[1 := Blocked(NonFull, 2, 2)] == s'.tasks;
    assert Word(s.total) == 2;
    assert Reaches(s', s', 0);
    ReachesStep(s, Submit(1), s', s', 0);
  }
}
