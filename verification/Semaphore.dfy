/** The semaphore's compare-exchange loops, with any number of threads interleaving at every load and
    every compare-exchange, and with spurious failures. The loop continues after a success and ends with
    the first failure. */
module SemaphoreCas {

  type TaskId = nat

  datatype Kind = Acquire | Release

  /** Inside the loop: the local variable `count`, and how many of its compare-exchanges have succeeded. */
  datatype Call = Call(kind: Kind, count: nat, wins: nat)

  /** `taken` and `given` add up the successes of all acquire and release calls, finished or not. */
  datatype State = State(max: nat, counter: nat, calls: map<TaskId, Call>, taken: nat, given: nat)

  datatype Action = Begin(t: TaskId, kind: Kind) | Reload(t: TaskId) | Exchange(t: TaskId, spurious: bool)

  function Limit(s: State, kind: Kind): nat {
    if kind.Acquire? then 0 else s.max
  }

  ghost predicate Step(s: State, a: Action, s': State) {
    match a
    case Begin(t, kind) =>
      t !in s.calls && s' == s.(calls := s.calls[t := Call(kind, s.counter, 0)])
    case Reload(t) =>
      // at the limit the task waits; whenever it runs again it loads the counter anew
      && t in s.calls && s.calls[t].count == Limit(s, s.calls[t].kind)
      && s' == s.(calls := s.calls[t := s.calls[t].(count := s.counter)])
    case Exchange(t, spurious) =>
      && t in s.calls && s.calls[t].count != Limit(s, s.calls[t].kind)
      && var c := s.calls[t];
         if s.counter != c.count || spurious then s' == s.(calls := s.calls - {t})
         else if c.kind.Acquire? then
           s' == s.(counter := c.count - 1, calls := s.calls[t := c.(wins := c.wins + 1)], taken := s.taken + 1)
         else
           s' == s.(counter := c.count + 1, calls := s.calls[t := c.(wins := c.wins + 1)], given := s.given + 1)
  }

  ghost predicate IsRun(states: seq<State>, actions: seq<Action>) {
    |states| == |actions| + 1 && forall i :: 0 <= i < |actions| ==> Step(states[i], actions[i], states[i + 1])
  }

  /** The counter stays within its bounds in every interleaving, and moves by exactly the successes. A call
      that waits has had none. */
  lemma {:induction false} CounterBounded(initial: nat, max: nat, states: seq<State>, actions: seq<Action>, k: nat)
    requires initial <= max && IsRun(states, actions) && states[0] == State(max, initial, map[], 0, 0) && k < |states|
    ensures states[k].max == max && 0 <= states[k].counter <= max
    ensures states[k].counter + states[k].taken == initial + states[k].given
    ensures forall t :: t in states[k].calls ==>
              && states[k].calls[t].count <= max
              && (states[k].calls[t].count == Limit(states[k], states[k].calls[t].kind) ==>
                    states[k].calls[t].wins == 0)
  {
    if k > 0 {
      CounterBounded(initial, max, states, actions, k - 1);
      assert Step(states[k - 1], actions[k - 1], states[k]);
    }
  }

  /** Task t loads the counter for the last time with action `b`, makes its first exchange with action `f` and
      its last with action `e`; in between no exchange of another call succeeds. */
  ghost predicate Alone(states: seq<State>, actions: seq<Action>, t: TaskId, b: nat, f: nat, e: nat)
    requires |states| == |actions| + 1
  {
    && b < f <= e < |actions|
    && (actions[b].Begin? || actions[b].Reload?) && actions[b].t == t
    && (forall i :: b < i <= e ==> t in states[i].calls && actions[i] != Reload(t)) && t !in states[e + 1].calls
    && (forall i :: b < i < f ==> actions[i].t != t) && actions[f].Exchange? && actions[f].t == t
    && (forall i :: b < i < e && actions[i].t != t ==> states[i + 1].counter == states[i].counter)
  }

  function Unit(kind: Kind): int {
    if kind.Acquire? then -1 else 1
  }

  /** A call that no other call's success disturbs moves the counter by exactly one, unless its first exchange
      fails spuriously, and then not at all. */
  lemma AloneTakesOne(initial: nat, max: nat, states: seq<State>, actions: seq<Action>, t: TaskId, b: nat, f: nat,
                      e: nat)
    requires initial <= max && IsRun(states, actions) && states[0] == State(max, initial, map[], 0, 0)
    requires Alone(states, actions, t, b, f, e)
    ensures states[e].calls[t].wins <= 1 && (states[e].calls[t].wins == 1 <==> !actions[f].spurious)
    ensures states[e + 1].counter - states[b + 1].counter == Unit(states[e].calls[t].kind) * states[e].calls[t].wins
  {
    CounterBounded(initial, max, states, actions, b);
    assert Step(states[b], actions[b], states[b + 1]);
    AloneUpTo(states, actions, t, b, f, e, e);
    assert Step(states[e], actions[e], states[e + 1]);
  }

  lemma {:induction false} AloneUpTo(states: seq<State>, actions: seq<Action>, t: TaskId, b: nat, f: nat, e: nat,
                                     i: nat)
    requires IsRun(states, actions) && Alone(states, actions, t, b, f, e) && b < i <= e
    requires states[b + 1].calls[t].count == states[b + 1].counter && states[b + 1].calls[t].wins == 0
    ensures var c := states[b + 1].calls[t];
            if i <= f then states[i].calls[t] == c && states[i].counter == c.count
            else !actions[f].spurious && states[i].calls[t] == c.(wins := 1)
                 && states[i].counter == c.count + Unit(c.kind)
    decreases i
  {
    if i > b + 1 {
      AloneUpTo(states, actions, t, b, f, e, i - 1);
      assert Step(states[i - 1], actions[i - 1], states[i]);
    }
  }

  /** Either condition is needed. A spurious failure of the first exchange makes an acquire return
      empty-handed. */
  lemma AcquireEmptyHanded()
    ensures exists states: seq<State> ::
              && IsRun(states, [Begin(0, Acquire), Exchange(0, true)]) && states[0] == State(2, 1, map[], 0, 0)
              && states[2].calls == map[] && states[2].counter == 1 && states[2].taken == 0
  {
    var s0 := State(2, 1, map[], 0, 0);
    var s1 := State(2, 1, map[0 := Call(Acquire, 1, 0)], 0, 0);
    assert s1.calls - {0} == s0.calls;
    assert Step(s0, Begin(0, Acquire), s1);
    assert Step(s1, Exchange(0, true), s0);
    assert IsRun([s0, s1, s0], [Begin(0, Acquire), Exchange(0, true)]);
  }

  /** And if a release restores the counter between two exchanges of one acquire, that acquire takes
      two units. */
  lemma AcquireTwice()
    ensures exists states: seq<State> ::
              && IsRun(states, [Begin(0, Acquire), Exchange(0, false), Begin(1, Release), Exchange(1, false),
                    Exchange(0, false)])
              && states[0] == State(2, 1, map[], 0, 0) && 0 in states[5].calls
                    && states[5].calls[0] == Call(Acquire, 1, 2)
  {
    var s0 := State(2, 1, map[], 0, 0);
    var s1 := State(2, 1, map[0 := Call(Acquire, 1, 0)], 0, 0);
    var s2 := State(2, 0, map[0 := Call(Acquire, 1, 1)], 1, 0);
    var s3 := State(2, 0, map[0 := Call(Acquire, 1, 1), 1 := Call(Release, 0, 0)], 1, 0);
    var s4 := State(2, 1, map[0 := Call(Acquire, 1, 1), 1 := Call(Release, 0, 1)], 1, 1);
    var s5 := State(2, 0, map[0 := Call(Acquire, 1, 2), 1 := Call(Release, 0, 1)], 2, 1);
    assert Step(s0, Begin(0, Acquire), s1);
    assert Step(s1, Exchange(0, false), s2);
    assert Step(s2, Begin(1, Release), s3);
    assert Step(s3, Exchange(1, false), s4);
    assert Step(s4, Exchange(0, false), s5);
    assert IsRun([s0, s1, s2, s3, s4, s5],
        [Begin(0, Acquire), Exchange(0, false), Begin(1, Release), Exchange(1, false), Exchange(0, false)]);
  }
}

/** The semaphore on one event loop: each call runs without interruption from its start, or from its
    wakening, to its next wait or its end. */
module SemaphoreProtocol {
  import opened FutexWaits

  /** `acquired` and `released` count the calls that have returned; `lost` counts, for each side, those of
      them whose first compare-exchange failed spuriously. */
  datatype State = State(max: nat, counter: nat, tasks: map<TaskId, Phase>, acquired: nat, released: nat,
      lost: map<Mask, nat>)

  const NoneLost: map<Mask, nat> := map[NonEmpty := 0, NonFull := 0]

  function Init(max: nat, initial: nat): State {
    State(max, initial, map[], 0, 0, NoneLost)
  }

  /** `spurious` says that the first compare-exchange of this stretch fails without cause. */
  datatype Action =
    | Acquire(t: TaskId, spurious: bool)
    | Release(t: TaskId, spurious: bool)
    | Submit(t: TaskId)

  /** What the waiters of a mask wait for: units to take, or room to give one back. */
  function Units(s: State, mask: Mask): int {
    match mask
    case NonEmpty => s.counter
    case NonFull => s.max - s.counter
  }

  predicate MayAttempt(s: State, t: TaskId, mask: Mask) {
    t in s.tasks ==> IsReady(s.tasks, t, mask)
  }

  /** The calls of that side that returned without having moved the counter. */
  function Lost(s: State, mask: Mask): nat {
    if mask in s.lost then s.lost[mask] else 0
  }

  function Losing(s: State, mask: Mask, spurious: bool): map<Mask, nat> {
    s.lost[mask := Lost(s, mask) + if spurious then 1 else 0]
  }

  function Wait(s: State, t: TaskId, mask: Mask): State {
    s.(tasks := s.tasks[t := Prepared(mask, s.counter, 0)])
  }

  ghost predicate Step(s: State, a: Action, s': State) {
    match a
    case Acquire(t, spurious) =>
      && MayAttempt(s, t, NonEmpty)
      && if s.counter == 0 then s' == Wait(s, t, NonEmpty) else
           && s' == s.(counter := if spurious then s.counter else s.counter - 1, acquired := s.acquired + 1,
                      lost := Losing(s, NonEmpty, spurious), tasks := s'.tasks)
           && NotifyOne(s.tasks - {t}, s'.tasks, NonFull)
    case Release(t, spurious) =>
      && MayAttempt(s, t, NonFull)
      && if s.counter == s.max then s' == Wait(s, t, NonFull) else
           && s' == s.(counter := if spurious then s.counter else s.counter + 1, released := s.released + 1,
                      lost := Losing(s, NonFull, spurious), tasks := s'.tasks)
           && NotifyOne(s.tasks - {t}, s'.tasks, NonEmpty)
    case Submit(t) =>
      && t in s.tasks && s.tasks[t].Prepared?
      && var p := s.tasks[t];
         s' == s.(tasks := s.tasks[t := if s.counter == p.snap then Blocked(p.mask, p.snap, p.stamp)
                                        else Ready(p.mask, p.snap, p.stamp)])
  }

  ghost predicate Inv(s: State) {
    && s.counter <= s.max
    // a wait expects the value at which its call found nothing to do
    && (forall t :: t in s.tasks ==> s.tasks[t].snap == if s.tasks[t].mask.NonEmpty? then 0 else s.max)
    // a blocked task has no more units before it than tasks woken for them, but for those lost on the way
    && (forall t :: t in s.tasks && s.tasks[t].Blocked? ==> Covered(s, s.tasks[t].mask))
  }

  predicate Covered(s: State, mask: Mask) {
    Units(s, mask) <= |ReadyTasks(s.tasks, mask)| + Lost(s, mask)
  }

  lemma StepKeepsInv(s: State, a: Action, s': State)
    requires Inv(s) && Step(s, a, s')
    ensures Inv(s')
  {
    match a
    case Acquire(t, spurious) => AttemptKeepsInv(s, t, NonEmpty, s', NonFull, spurious);
    case Release(t, spurious) => AttemptKeepsInv(s, t, NonFull, s', NonEmpty, spurious);
    case Submit(t) => WaitKeepsInv(s, t, s'.tasks[t], s');
  }

  lemma WaitKeepsInv(s: State, t: TaskId, p: Phase, s': State)
    requires Inv(s) && s' == s.(tasks := s.tasks[t := p]) && p.snap == if p.mask.NonEmpty? then 0 else s.max
    requires p.Ready? || (t in s.tasks ==> !s.tasks[t].Ready?) || Units(s, p.mask) == 0
    requires t in s.tasks ==> s.tasks[t].mask == p.mask
    requires p.Blocked? ==> s.counter == p.snap
    ensures Inv(s')
  {
    forall m
      ensures m != p.mask || p.Ready? || (t in s.tasks ==> !s.tasks[t].Ready?) ==>
                |ReadyTasks(s'.tasks, m)| >= |ReadyTasks(s.tasks, m)|
    {
      ReadyWithout(s.tasks, t, m);
      ReadyUpdate(s.tasks, t, p, m);
    }
  }

  lemma AttemptKeepsInv(s: State, t: TaskId, mask: Mask, s': State, other: Mask, spurious: bool)
    requires Inv(s) && mask != other && MayAttempt(s, t, mask)
    requires Units(s, mask) == 0 ==> s' == Wait(s, t, mask)
    requires Units(s, mask) != 0 ==>
               && s'.max == s.max && s'.lost == Losing(s, mask, spurious)
               && s'.counter == s.counter + (if spurious then 0 else if mask.NonEmpty? then -1 else 1)
               && NotifyOne(s.tasks - {t}, s'.tasks, other)
    ensures Inv(s')
  {
    if Units(s, mask) == 0 {
      WaitKeepsInv(s, t, s'.tasks[t], s');
    } else {
      ReadyWithout(s.tasks, t, mask);
      ReadyWithout(s.tasks, t, other);
      NotifyReady(s.tasks - {t}, s'.tasks, other);
      forall u | u in s'.tasks && s'.tasks[u].Blocked?
        ensures Covered(s', s'.tasks[u].mask)
      {
        assert u in s.tasks && s.tasks[u] == s'.tasks[u];
        assert s'.tasks[u].mask == other ==> IsBlocked(s.tasks - {t}, u, other);
      }
    }
  }

  ghost predicate IsRun(states: seq<State>, actions: seq<Action>) {
    |states| == |actions| + 1 && forall i :: 0 <= i < |actions| ==> Step(states[i], actions[i], states[i + 1])
  }

  predicate AtRest(s: State) {
    forall t :: t in s.tasks ==> s.tasks[t].Blocked?
  }

  /** In every run, spurious failures included: the counter stays in bounds and is what the finished calls
      make it, less those that lost their exchange; it is initial + released - acquired iff as many were
      lost on either side; and a run that has come to rest leaves a task blocked beside at most as many
      units as its own side has lost, so beside none if nothing failed spuriously. */
  lemma {:induction false} SemaphoreRuns(initial: nat, max: nat, states: seq<State>, actions: seq<Action>, k: nat)
    requires initial <= max && IsRun(states, actions) && states[0] == Init(max, initial) && k < |states|
    ensures states[k].max == max && states[k].counter <= max
    ensures var s := states[k];
            && s.counter == initial + (s.released - Lost(s, NonFull)) - (s.acquired - Lost(s, NonEmpty))
            && (s.counter == initial + s.released - s.acquired <==> Lost(s, NonFull) == Lost(s, NonEmpty))
    ensures forall t :: t in states[k].tasks && states[k].tasks[t].Blocked? ==>
              Covered(states[k], states[k].tasks[t].mask)
    ensures AtRest(states[k]) ==>
              forall t :: t in states[k].tasks ==>
                  Units(states[k], states[k].tasks[t].mask) <= Lost(states[k], states[k].tasks[t].mask)
    ensures NoneSpurious(actions, k) ==> Lost(states[k], NonEmpty) == Lost(states[k], NonFull) == 0
    ensures states[k].acquired == Returned(states, actions, NonEmpty, k)
    ensures states[k].released == Returned(states, actions, NonFull, k)
  {
    RunKeepsInv(initial, max, states, actions, k);
    RunCounts(initial, max, states, actions, k);
    if AtRest(states[k]) {
      assert ReadyTasks(states[k].tasks, NonFull) == {} && ReadyTasks(states[k].tasks, NonEmpty) == {};
    }
  }

  /** How many of the first `k` actions brought a call of that side to its end: those that found a unit, or
      room for one. */
  function Returned(states: seq<State>, actions: seq<Action>, mask: Mask, k: nat): nat
    requires k <= |actions| < |states|
  {
    if k == 0 then 0
    else
      var ends := Units(states[k - 1], mask) != 0
                  && if mask.NonEmpty? then actions[k - 1].Acquire? else actions[k - 1].Release?;
      Returned(states, actions, mask, k - 1) + if ends then 1 else 0
  }

  lemma {:induction false} RunCounts(initial: nat, max: nat, states: seq<State>, actions: seq<Action>, k: nat)
    requires IsRun(states, actions) && states[0] == Init(max, initial) && k < |states|
    ensures states[k].acquired == Returned(states, actions, NonEmpty, k)
    ensures states[k].released == Returned(states, actions, NonFull, k)
  {
    hide MayAttempt, NotifyOne, Losing;
    if k > 0 {
      RunCounts(initial, max, states, actions, k - 1);
      assert Step(states[k - 1], actions[k - 1], states[k]);
    }
  }

  predicate NoneSpurious(actions: seq<Action>, k: nat) {
    forall i :: 0 <= i < k && i < |actions| ==> actions[i].Submit? || !actions[i].spurious
  }

  lemma {:induction false} RunKeepsInv(initial: nat, max: nat, states: seq<State>, actions: seq<Action>, k: nat)
    requires initial <= max && IsRun(states, actions) && states[0] == Init(max, initial) && k < |states|
    ensures Inv(states[k]) && states[k].max == max
    ensures states[k].counter ==
            initial + (states[k].released - Lost(states[k], NonFull)) - (states[k].acquired - Lost(states[k], NonEmpty))
    ensures NoneSpurious(actions, k) ==> Lost(states[k], NonEmpty) == Lost(states[k], NonFull) == 0
  {
    if k > 0 {
      RunKeepsInv(initial, max, states, actions, k - 1);
      assert Step(states[k - 1], actions[k - 1], states[k]);
      StepKeepsInv(states[k - 1], actions[k - 1], states[k]);
      assert NoneSpurious(actions, k) ==> actions[k - 1].Submit? || !actions[k - 1].spurious;
    }
  }

  /** Two acquires of a semaphore without a unit block, a release wakes the first, and that one loses its
      exchange. */
  function Strand(i: nat): State {
    var none: map<TaskId, Phase> := map[];
    var p, b := Prepared(NonEmpty, 0, 0), Blocked(NonEmpty, 0, 0);
    match i
    case 0 => State(1, 0, none, 0, 0, NoneLost)
    case 1 => State(1, 0, map[0 := p], 0, 0, NoneLost)
    case 2 => State(1, 0, map[0 := b], 0, 0, NoneLost)
    case 3 => State(1, 0, map[0 := b, 1 := p], 0, 0, NoneLost)
    case 4 => State(1, 0, map[0 := b, 1 := b], 0, 0, NoneLost)
    case 5 => State(1, 1, map[0 := Ready(NonEmpty, 0, 0), 1 := b], 0, 1, NoneLost)
    case _ => State(1, 1, map[1 := b], 1, 1, map[NonEmpty := 1, NonFull := 0])
  }

  lemma BothBlock()
    ensures Step(Strand(0), Acquire(0, false), Strand(1)) && Step(Strand(1), Submit(0), Strand(2))
    ensures Step(Strand(2), Acquire(1, false), Strand(3)) && Step(Strand(3), Submit(1), Strand(4))
  {
  }

  lemma FirstWakes()
    ensures Step(Strand(4), Release(2, false), Strand(5))
  {
    assert Strand(4).tasks - {2} == Strand(4).tasks;
    assert Waker(Strand(4).tasks, Strand(5).tasks, 0, NonEmpty);
  }

  lemma FirstLoses()
    ensures Step(Strand(5), Acquire(0, true), Strand(6))
  {
    assert Strand(5).tasks - {0} == Strand(6).tasks;
  }

  /** One spurious failure is enough to strand a task: the woken acquire returns without the unit it was
      woken for, and the other acquire stays blocked beside it. */
  lemma SpuriousStrands()
    ensures exists states: seq<State> ::
              && IsRun(states, [Acquire(0, false), Submit(0), Acquire(1, false), Submit(1), Release(2, false),
                    Acquire(0, true)])
              && states[0] == Init(1, 0)
              && AtRest(states[6]) && 1 in states[6].tasks && states[6].tasks[1].mask == NonEmpty
                    && states[6].counter == 1
  {
    hide Step;
    BothBlock();
    FirstWakes();
    FirstLoses();
    assert IsRun([Strand(0), Strand(1), Strand(2), Strand(3), Strand(4), Strand(5), Strand(6)],
                 [Acquire(0, false), Submit(0), Acquire(1, false), Submit(1), Release(2, false), Acquire(0, true)]);
  }
}

/** Semaphore as an object on one event loop. Each method is proved to be a step of SemaphoreProtocol. */
module Semaphores {
  import opened FutexWaits
  import opened SemaphoreProtocol

  class Semaphore {
    var mCounter: nat
    const mMaxCount: nat
    var waits: map<TaskId, Phase>
    ghost var acquired: nat
    ghost var released: nat
    ghost var lost: map<Mask, nat>

    ghost function Abs(): State
      reads this
    {
      State(mMaxCount, mCounter, waits, acquired, released, lost)
    }

    ghost predicate Valid()
      reads this
    {
      Inv(Abs())
    }

    constructor (maxCount: nat, initialCount: nat)
      ensures Abs() == Init(maxCount, initialCount) && (initialCount <= maxCount ==> Valid())
    {
      mCounter, mMaxCount, waits, acquired, released, lost := initialCount, maxCount, map[], 0, 0, NoneLost;
    }

    /** The do-while loop of acquire, up to its next wait or its end: as written, it goes round again
        after a success. With nobody else running, the second exchange finds the counter moved and ends it. */
    method acquire(t: TaskId, spurious: bool) returns (done: bool)
      requires MayAttempt(Abs(), t, NonEmpty)
      modifies this
      ensures Step(old(Abs()), Acquire(t, spurious), Abs()) && (old(Valid()) ==> Valid())
      ensures done <==> old(mCounter) > 0
      ensures mCounter == old(mCounter) - (if done && !spurious then 1 else 0)
      ensures acquired == old(acquired) + (if done then 1 else 0) && released == old(released)
      ensures done ==> NotifyOne(old(waits) - {t}, waits, NonFull)
      ensures !done ==> waits == old(waits)[t := Prepared(NonEmpty, 0, 0)]
    {
      var count, again, first := mCounter, true, true;
      while again
        invariant waits == old(waits) && acquired == old(acquired) && released == old(released) && lost == old(lost)
        invariant first ==> again && count == mCounter == old(mCounter)
        invariant !first ==> mCounter == (if spurious then old(mCounter) else old(mCounter) - 1) && old(mCounter) > 0
        invariant !first && again ==> !spurious && count == old(mCounter)
        decreases again, first
      {
        if count == 0 {
          waits := waits[t := Prepared(NonEmpty, count, 0)];
          if old(Valid()) { StepKeepsInv(old(Abs()), Acquire(t, spurious), Abs()); }
          return false;
        }
        if mCounter == count && !(first && spurious) {
          mCounter := count - 1;
        } else {
          count, again := mCounter, false;
        }
        first := false;
      }
      acquired := acquired + 1;
      lost := Losing(old(Abs()), NonEmpty, spurious);
      waits := futex_notify(waits - {t}, NonFull);
      if old(Valid()) { StepKeepsInv(old(Abs()), Acquire(t, spurious), Abs()); }
      return true;
    }

    method release(t: TaskId, spurious: bool) returns (done: bool)
      requires MayAttempt(Abs(), t, NonFull)
      modifies this
      ensures Step(old(Abs()), Release(t, spurious), Abs()) && (old(Valid()) ==> Valid())
      ensures done <==> old(mCounter) != mMaxCount
      ensures mCounter == old(mCounter) + if done && !spurious then 1 else 0
      ensures released == old(released) + (if done then 1 else 0) && acquired == old(acquired)
      ensures done ==> NotifyOne(old(waits) - {t}, waits, NonEmpty)
      ensures !done ==> waits == old(waits)[t := Prepared(NonFull, mMaxCount, 0)]
    {
      var count, again, first := mCounter, true, true;
      while again
        invariant waits == old(waits) && acquired == old(acquired) && released == old(released) && lost == old(lost)
        invariant first ==> again && count == mCounter == old(mCounter)
        invariant !first ==> mCounter == (if spurious then old(mCounter) else old(mCounter) + 1)
        invariant !first ==> old(mCounter) != mMaxCount
        invariant !first && again ==> !spurious && count == old(mCounter)
        decreases again, first
      {
        if count == mMaxCount {
          waits := waits[t := Prepared(NonFull, count, 0)];
          if old(Valid()) { StepKeepsInv(old(Abs()), Release(t, spurious), Abs()); }
          return false;
        }
        if mCounter == count && !(first && spurious) {
          mCounter := count + 1;
        } else {
          count, again := mCounter, false;
        }
        first := false;
      }
      released := released + 1;
      lost := Losing(old(Abs()), NonFull, spurious);
      waits := futex_notify(waits - {t}, NonEmpty);
      if old(Valid()) { StepKeepsInv(old(Abs()), Release(t, spurious), Abs()); }
      return true;
    }

    /** The kernel receives the prepared wait. */
    method submit(t: TaskId)
      requires t in waits && waits[t].Prepared?
      modifies this`waits
      ensures Step(old(Abs()), Submit(t), Abs()) && (old(Valid()) ==> Valid())
      ensures var p := old(waits[t]);
              waits == old(waits)[t := if mCounter == p.snap then Blocked(p.mask, p.snap, p.stamp)
                                      else Ready(p.mask, p.snap, p.stamp)]
    {
      var p := waits[t];
      waits := waits[t := if mCounter == p.snap then Blocked(p.mask, p.snap, p.stamp)
          else Ready(p.mask, p.snap, p.stamp)];
      if old(Valid()) { StepKeepsInv(old(Abs()), Submit(t), Abs()); }
    }
  }
}
