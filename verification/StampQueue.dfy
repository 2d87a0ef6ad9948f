/** The packed stamp of ConcurrentRingQueue: two cursors modulo 2^Shift in one word. Shifts and masks by
    2^Shift are written as division, remainder and multiplication. */
module Stamps {
  import opened Moduli

  /** std::bit_width. */
  function BitWidth(n: nat): nat {
    if n == 0 then 0 else 1 + BitWidth(n / 2)
  }

  /** kSize. */
  function Size(capacity: nat): (m: nat)
    ensures m > 0
  {
    Pow2(BitWidth(capacity))
  }

  /** The cursors have room for the capacity, and waste less than half of it. */
  lemma {:induction false} SizeFits(capacity: nat)
    ensures capacity < Size(capacity)
    ensures capacity > 0 ==> Size(capacity) <= 2 * capacity
  {
    if capacity > 0 {
      SizeFits(capacity / 2);
    }
  }

  /** The width of the integer type chosen for the stamp. */
  function StampBits(shift: nat): nat {
    if shift <= 4 then 8 else if shift <= 8 then 16 else if shift <= 16 then 32 else 64
  }

  /** Two cursors fit into the stamp exactly for the capacities that the static assertion admits. */
  lemma StampFits(capacity: nat)
    ensures Size(capacity) * Size(capacity) <= Pow2(StampBits(BitWidth(capacity))) <==> BitWidth(capacity) <= 32
  {
    var k := BitWidth(capacity);
    var bits := StampBits(k);
    Pow2Adds(k, k);
    if k + k < bits {
      Pow2Grows(k + k, bits);
    } else if bits < k + k {
      Pow2Grows(bits, k + k);
    }
  }

  function OffsetRead(m: nat, s: nat): nat
    requires m > 0
  {
    s / m
  }

  function OffsetWrite(m: nat, s: nat): nat
    requires m > 0
  {
    s % m
  }

  predicate CanRead(m: nat, s: nat)
    requires m > 0
  {
    OffsetRead(m, s) != OffsetWrite(m, s)
  }

  predicate CanWrite(m: nat, capacity: nat, s: nat)
    requires capacity < m
  {
    OffsetRead(m, s) % m != (OffsetWrite(m, s) + (m - capacity)) % m
  }

  function AdvectRead(m: nat, s: nat): nat
    requires m > 0
  {
    (s / m + 1) % m * m + s % m
  }

  function AdvectWrite(m: nat, s: nat): nat
    requires m > 0
  {
    (s % m + 1) % m + s / m % m * m
  }

  function Pack(m: nat, r: nat, w: nat): nat {
    r * m + w
  }

  predicate InRange(m: nat, s: nat)
    requires m > 0
  {
    OffsetRead(m, s) < m
  }

  /** How many elements lie between the cursors. */
  function Occupancy(m: nat, s: nat): nat
    requires m > 0
  {
    (OffsetWrite(m, s) - OffsetRead(m, s)) % m
  }

  /** A stamp is two independent cursors: each one is read back, and each advance moves one of them by one
      modulo 2^Shift and leaves the other alone. */
  lemma StampPacks(m: nat, r: nat, w: nat)
    requires r < m && w < m
    ensures var s := Pack(m, r, w);
            && OffsetRead(m, s) == r && OffsetWrite(m, s) == w && s < m * m
            && AdvectRead(m, s) == Pack(m, (r + 1) % m, w)
            && AdvectWrite(m, s) == Pack(m, r, (w + 1) % m)
  {
    DivModOf(m, r, w);
    ModNear(r, m);
    PackBounded(m, r, w);
  }

  lemma PackBounded(m: nat, r: nat, w: nat)
    requires r < m && w < m
    ensures Pack(m, r, w) < m * m
  {
    assert r * m <= (m - 1) * m;
  }

  /** And every stamp in range is the packing of its two cursors. */
  lemma StampUnpacks(m: nat, s: nat)
    requires m > 0 && InRange(m, s)
    ensures s == Pack(m, OffsetRead(m, s), OffsetWrite(m, s))
  {
  }

  /** The two tests are exact: there is something to read iff the occupancy is not 0, and room to write iff
      it is not the capacity. */
  lemma TestsExact(m: nat, capacity: nat, s: nat)
    requires 0 < capacity < m && InRange(m, s)
    ensures CanRead(m, s) <==> Occupancy(m, s) > 0
    ensures CanWrite(m, capacity, s) <==> Occupancy(m, s) != capacity
  {
    var r, w := OffsetRead(m, s), OffsetWrite(m, s);
    ModNear(r, m);
    ModNear(w - r, m);
    ModNear(w + (m - capacity), m);
  }

  lemma AdvanceRead(m: nat, s: nat)
    requires m > 1 && InRange(m, s)
    ensures InRange(m, AdvectRead(m, s))
    ensures OffsetRead(m, AdvectRead(m, s)) == (OffsetRead(m, s) + 1) % m
    ensures OffsetWrite(m, AdvectRead(m, s)) == OffsetWrite(m, s)
    ensures Occupancy(m, s) > 0 ==> Occupancy(m, AdvectRead(m, s)) == Occupancy(m, s) - 1
  {
    var r, w := OffsetRead(m, s), OffsetWrite(m, s);
    StampUnpacks(m, s);
    StampPacks(m, r, w);
    StampPacks(m, (r + 1) % m, w);
    ModNear(r + 1, m);
    ModNear(w - r, m);
    ModNear(w - (r + 1) % m, m);
  }

  lemma AdvanceWrite(m: nat, s: nat)
    requires m > 1 && InRange(m, s)
    ensures InRange(m, AdvectWrite(m, s))
    ensures OffsetRead(m, AdvectWrite(m, s)) == OffsetRead(m, s)
    ensures OffsetWrite(m, AdvectWrite(m, s)) == (OffsetWrite(m, s) + 1) % m
    ensures Occupancy(m, s) < m - 1 ==> Occupancy(m, AdvectWrite(m, s)) == Occupancy(m, s) + 1
  {
    var r, w := OffsetRead(m, s), OffsetWrite(m, s);
    StampUnpacks(m, s);
    StampPacks(m, r, w);
    StampPacks(m, r, (w + 1) % m);
    ModNear(w + 1, m);
    ModNear(w - r, m);
    ModNear((w + 1) % m - r, m);
  }
}

/** The compare-exchange loops of push and pop, with any number of threads interleaving at every load and
    every exchange, and with spurious failures. pop retries after a failure; push, as written, goes round
    again after a success and leaves its loop at the first failure. */
module StampRuns {
  import opened Moduli
  import opened Stamps

  type ThreadId = nat

  datatype Kind = Push | Pop

  /** Inside the loop: the local variable `s`, and how many of its exchanges have succeeded. */
  datatype Call = Call(kind: Kind, s: nat, wins: nat)

  /** `put` and `got` count the exchanges that succeeded. `done` says of each push that has returned true how
      many of its exchanges did. */
  datatype State = State(capacity: nat, stamp: nat, calls: map<ThreadId, Call>, put: nat, got: nat, done: seq<nat>)

  function Init(capacity: nat): State {
    State(capacity, 0, map[], 0, 0, [])
  }

  datatype Action = Begin(t: ThreadId, kind: Kind) | Exchange(t: ThreadId, spurious: bool)

  predicate May(capacity: nat, kind: Kind, s: nat) {
    SizeFits(capacity);
    if kind.Push? then CanWrite(Size(capacity), capacity, s) else CanRead(Size(capacity), s)
  }

  /** After the test of the loop: stay in it, or return. */
  function Onward(calls: map<ThreadId, Call>, capacity: nat, t: ThreadId, c: Call): map<ThreadId, Call> {
    if May(capacity, c.kind, c.s) then calls[t := c] else calls - {t}
  }

  ghost predicate Step(s: State, a: Action, s': State) {
    match a
    case Begin(t, kind) =>
      t !in s.calls && s' == s.(calls := Onward(s.calls, s.capacity, t, Call(kind, s.stamp, 0)))
    case Exchange(t, spurious) =>
      && t in s.calls
      && var c := s.calls[t];
         var success := s.stamp == c.s && !spurious;
         match c.kind
         case Push =>
           if success then
             s' == s.(stamp := AdvectWrite(Size(s.capacity), c.s), put := s.put + 1,
                      calls := Onward(s.calls, s.capacity, t, c.(wins := c.wins + 1)))
           else s' == s.(calls := s.calls - {t}, done := s.done + [c.wins])
         case Pop =>
           if success then
             s' == s.(stamp := AdvectRead(Size(s.capacity), c.s), got := s.got + 1, calls := s.calls - {t})
           else s' == s.(calls := Onward(s.calls, s.capacity, t, c.(s := s.stamp)))
  }

  ghost predicate Inv(s: State) {
    var m := Size(s.capacity);
    && InRange(m, s.stamp)
    && Occupancy(m, s.stamp) <= s.capacity
    && s.put == s.got + Occupancy(m, s.stamp)
    // nobody is about to exchange a stamp that it has not tested
    && (forall t :: t in s.calls ==> May(s.capacity, s.calls[t].kind, s.calls[t].s))
    && (forall t :: t in s.calls && s.calls[t].kind.Pop? ==> s.calls[t].wins == 0)
    && s.put == Sum(s.done) + Open(s.calls)
  }

  function Sum(counts: seq<nat>): nat {
    if counts == [] then 0 else Sum(counts[..|counts| - 1]) + counts[|counts| - 1]
  }

  /** The successes of the calls that are still in their loops. */
  ghost function Open(calls: map<ThreadId, Call>): nat {
    if calls == map[] then 0 else var t :| t in calls; calls[t].wins + Open(calls - {t})
  }

  lemma {:induction false} OpenWithout(calls: map<ThreadId, Call>, t: ThreadId)
    requires t in calls
    ensures Open(calls) == calls[t].wins + Open(calls - {t})
    decreases calls
  {
    var u :| u in calls && Open(calls) == calls[u].wins + Open(calls - {u});
    if u != t {
      OpenWithout(calls - {u}, t);
      OpenWithout(calls - {t}, u);
      assert calls - {u} - {t} == calls - {t} - {u};
    }
  }

  lemma OpenUpdate(calls: map<ThreadId, Call>, t: ThreadId, c: Call)
    ensures Open(calls[t := c]) == c.wins + Open(calls - {t})
  {
    OpenWithout(calls[t := c], t);
    assert calls[t := c] - {t} == calls - {t};
  }

  lemma StepKeepsInv(s: State, a: Action, s': State)
    requires s.capacity > 0 && Inv(s) && Step(s, a, s')
    ensures Inv(s') && s'.capacity == s.capacity
  {
    var m := Size(s.capacity);
    SizeFits(s.capacity);
    TestsExact(m, s.capacity, s.stamp);
    AdvanceRead(m, s.stamp);
    AdvanceWrite(m, s.stamp);
    StepKeepsCount(s, a, s');
  }

  /** When a call begins and ends: a push is turned away iff the queue is full, a pop iff it is empty; a pop goes
      on until it has taken something or finds nothing to take, and a push, once in its loop, returns true. */
  lemma CallsEnd(s: State, a: Action, s': State)
    requires s.capacity > 0 && Inv(s) && Step(s, a, s')
    ensures var n := Occupancy(Size(s.capacity), s.stamp);
            && (a.Begin? ==> (a.t in s'.calls <==> if a.kind.Push? then n < s.capacity else n > 0))
            && (a.Exchange? && s.calls[a.t].kind.Pop? ==>
                  && s'.got <= s.got + 1
                  && (a.t !in s'.calls <==> s'.got == s.got + 1 || n == 0))
            && (a.Exchange? && s.calls[a.t].kind.Push? ==>
                  if a.t in s'.calls then s'.put == s.put + 1
                  else s'.put == s.put && s'.done == s.done + [s.calls[a.t].wins])
  {
    SizeFits(s.capacity);
    TestsExact(Size(s.capacity), s.capacity, s.stamp);
  }

  lemma StepKeepsCount(s: State, a: Action, s': State)
    requires s.capacity > 0 && Inv(s) && Step(s, a, s')
    ensures s'.put == Sum(s'.done) + Open(s'.calls)
  {
    hide CanRead, CanWrite, AdvectRead, AdvectWrite, Occupancy, Open;
    var t := a.t;
    if t in s.calls {
      OpenWithout(s.calls, t);
      assert s'.done == s.done || s'.done == s.done + [s.calls[t].wins];
    } else {
      assert s.calls - {t} == s.calls;
    }
    if t in s'.calls {
      OpenUpdate(s.calls, t, s'.calls[t]);
    }
  }

  ghost predicate IsRun(states: seq<State>, actions: seq<Action>) {
    |states| == |actions| + 1 && forall i :: 0 <= i < |actions| ==> Step(states[i], actions[i], states[i + 1])
  }

  /** In every interleaving the occupancy stays between 0 and the capacity, and is exactly the successful
      writes less the successful reads; and those writes are the ones of the pushes that returned true and of
      those still in their loops. */
  lemma {:induction false} StampRuns(capacity: nat, states: seq<State>, actions: seq<Action>, k: nat)
    requires capacity > 0 && IsRun(states, actions) && states[0] == Init(capacity) && k < |states|
    ensures InRange(Size(capacity), states[k].stamp)
    ensures Occupancy(Size(capacity), states[k].stamp) == states[k].put - states[k].got <= capacity
    ensures states[k].put == Sum(states[k].done) + Open(states[k].calls)
  {
    RunKeepsInv(capacity, states, actions, k);
  }

  lemma {:induction false} RunKeepsInv(capacity: nat, states: seq<State>, actions: seq<Action>, k: nat)
    requires capacity > 0 && IsRun(states, actions) && states[0] == Init(capacity) && k < |states|
    ensures Inv(states[k]) && states[k].capacity == capacity
  {
    if k == 0 {
      DivModOf(Size(capacity), 0, 0);
    } else {
      RunKeepsInv(capacity, states, actions, k - 1);
      assert Step(states[k - 1], actions[k - 1], states[k]);
      StepKeepsInv(states[k - 1], actions[k - 1], states[k]);
    }
  }

  /** Thread t starts a push with action `b` and makes its first exchange with action `f` and its last with
      action `e`; in between no exchange of another call succeeds. */
  ghost predicate Alone(states: seq<State>, actions: seq<Action>, t: ThreadId, b: nat, f: nat, e: nat)
    requires |states| == |actions| + 1
  {
    && b < f <= e < |actions|
    && actions[b] == Begin(t, Push) && (forall i :: b < i <= e ==> t in states[i].calls) && t !in states[e + 1].calls
    && (forall i :: b < i < f ==> actions[i].t != t) && actions[f].Exchange? && actions[f].t == t
    && (forall i :: b < i < e && actions[i].t != t ==>
          states[i + 1].put == states[i].put && states[i + 1].got == states[i].got)
  }

  /** A push that passes its test and that no other call's success disturbs returns true; it has then added
      one to the occupancy, unless its first exchange failed spuriously, and then it has added nothing. */
  lemma AloneAddsOne(capacity: nat, states: seq<State>, actions: seq<Action>, t: ThreadId, b: nat, f: nat, e: nat)
    requires capacity > 0 && IsRun(states, actions) && states[0] == Init(capacity)
    requires Alone(states, actions, t, b, f, e)
    ensures states[e + 1].done == states[e].done + [if actions[f].spurious then 0 else 1]
    ensures var m := Size(capacity);
            Occupancy(m, states[e + 1].stamp) ==
            Occupancy(m, states[b].stamp) + if actions[f].spurious then 0 else 1
  {
    assert Step(states[b], actions[b], states[b + 1]);
    AloneUpTo(capacity, states, actions, t, b, f, e, e);
    RunKeepsInv(capacity, states, actions, b);
    RunKeepsInv(capacity, states, actions, e);
    RunKeepsInv(capacity, states, actions, e + 1);
    assert Step(states[e], actions[e], states[e + 1]);
  }

  lemma {:induction false} AloneUpTo(capacity: nat, states: seq<State>, actions: seq<Action>, t: ThreadId, b: nat,
                                     f: nat, e: nat, i: nat)
    requires capacity > 0 && IsRun(states, actions) && states[0] == Init(capacity)
    requires Alone(states, actions, t, b, f, e) && b < i <= e
    ensures var c := Call(Push, states[b].stamp, 0);
            && states[i].got == states[b].got
            && if i <= f then states[i].calls[t] == c && states[i].stamp == c.s && states[i].put == states[b].put
               else !actions[f].spurious && states[i].calls[t] == c.(wins := 1)
                    && states[i].put == states[b].put + 1
                    && states[i].stamp == AdvectWrite(Size(capacity), c.s) != c.s
    decreases i
  {
    hide Step, Inv, Alone;
    AloneAt(states, actions, t, b, f, e, i - 1);
    RunKeepsInv(capacity, states, actions, i - 1);
    if i == b + 1 {
      PushBegins(states[b], t, states[i]);
    } else {
      AloneUpTo(capacity, states, actions, t, b, f, e, i - 1);
      if actions[i - 1].t == t {
        PushGoesOn(states[i - 1], actions[i - 1], states[i]);
      } else {
        OtherMoves(states[i - 1], actions[i - 1], states[i], t);
      }
    }
  }

  /** What Alone says of one moment. */
  lemma AloneAt(states: seq<State>, actions: seq<Action>, t: ThreadId, b: nat, f: nat, e: nat, i: nat)
    requires IsRun(states, actions) && Alone(states, actions, t, b, f, e) && b <= i < e
    ensures b < f <= e < |actions| && actions[b] == Begin(t, Push) && actions[f].Exchange? && actions[f].t == t
    ensures t in states[i + 1].calls
    ensures Step(states[i], actions[i], states[i + 1])
    ensures b < i < f ==> actions[i].t != t
    ensures b < i ==> t in states[i].calls
    ensures b < i && actions[i].t != t ==> states[i + 1].put == states[i].put && states[i + 1].got == states[i].got
  {
  }

  lemma PushBegins(s: State, t: ThreadId, s': State)
    requires Step(s, Begin(t, Push), s') && t in s'.calls
    ensures s' == s.(calls := s.calls[t := Call(Push, s.stamp, 0)])
  {
  }

  /** A push stays in its loop only by a success, and the stamp it holds is then out of date. */
  lemma PushGoesOn(s: State, a: Action, s': State)
    requires s.capacity > 0 && Inv(s) && Step(s, a, s') && a.t in s.calls && s.calls[a.t].kind.Push? && a.t in s'.calls
    ensures a.Exchange? && !a.spurious && s.stamp == s.calls[a.t].s && s'.got == s.got && s'.put == s.put + 1
    ensures s'.calls[a.t] == s.calls[a.t].(wins := s.calls[a.t].wins + 1)
    ensures s'.stamp == AdvectWrite(Size(s.capacity), s.stamp) != s.stamp
  {
    var m := Size(s.capacity);
    SizeFits(s.capacity);
    TestsExact(m, s.capacity, s.stamp);
    AdvanceWrite(m, s.stamp);
  }

  lemma OtherMoves(s: State, a: Action, s': State, t: ThreadId)
    requires Step(s, a, s') && a.t != t && t in s.calls && s'.put == s.put && s'.got == s.got
    ensures t in s'.calls && s'.calls[t] == s.calls[t] && s'.stamp == s.stamp
  {
    hide CanRead, CanWrite, AdvectRead, AdvectWrite;
  }
}

/** ConcurrentRingQueue itself, its calls running one at a time. */
module StampQueues {
  import opened Moduli
  import opened Options
  import opened Stamps

  class ConcurrentRingQueue<T(0)> {
    const capacity: nat
    const kSize: nat
    const mHead: array<T>
    var mStamp: nat
    /** What the pops deliver, first to last: to begin with, only what the first slot holds initially. */
    ghost var line: seq<T>
    /** The number of pops that returned a value. */
    ghost var taken: nat

    ghost predicate Valid()
      reads this, mHead
    {
      && 0 < capacity < kSize == mHead.Length
      && InRange(kSize, mStamp)
      && taken < |line| <= taken + capacity + 1
      && OffsetRead(kSize, mStamp) == taken % kSize
      && OffsetWrite(kSize, mStamp) == (|line| - 1) % kSize
      && Occupancy(kSize, mStamp) == |line| - 1 - taken
      && (forall j {:trigger line[j]} :: taken <= j < |line| ==> mHead[j % kSize] == line[j])
    }

    constructor (capacity: nat)
      requires capacity > 0
      ensures Valid() && this.capacity == capacity && |line| == 1 && taken == 0
    {
      SizeFits(capacity);
      this.capacity := capacity;
      kSize := Size(capacity);
      var data := new T[Size(capacity)];
      mHead := data;
      mStamp := 0;
      line, taken := [data[0]], 0;
      new;
      DivModOf(kSize, 0, 0);
    }

    /** `spurious` says that the first exchange fails without cause. As written, a successful exchange sends
        the loop round again, the second exchange fails and loads the advanced stamp, and the value is stored
        at the new write cursor, behind all others. After a spurious failure it is stored at the old one,
        in place of the value that was put there before. */
    method push(value: T, spurious: bool) returns (ok: bool)
      requires Valid()
      modifies this`mStamp, this`line, mHead
      ensures Valid()
      ensures ok <==> |old(line)| - 1 < taken + capacity
      ensures !ok ==> line == old(line)
      ensures ok ==> line == (if spurious then old(line)[..|old(line)| - 1] else old(line)) + [value]
      ensures ok ==> Occupancy(kSize, mStamp) == Occupancy(kSize, old(mStamp)) + if spurious then 0 else 1
    {
      hide CanWrite, AdvectWrite, Occupancy, OffsetRead, OffsetWrite, InRange;
      TestsExact(kSize, capacity, mStamp);
      AdvanceWrite(kSize, mStamp);
      var s := mStamp;
      if !CanWrite(kSize, capacity, s) {
        return false;
      }
      var again, first := true, true;
      while again
        invariant first ==> again && s == mStamp == old(mStamp)
        invariant !first && again ==> !spurious && s == old(mStamp) && mStamp == AdvectWrite(kSize, s)
        invariant !again ==> s == mStamp == if spurious then old(mStamp) else AdvectWrite(kSize, old(mStamp))
        modifies this`mStamp
        decreases again, first
      {
        if mStamp == s && !(first && spurious) {
          mStamp := AdvectWrite(kSize, s);
          if !CanWrite(kSize, capacity, s) {
            return false;
          }
        } else {
          s, again := mStamp, false;
        }
        first := false;
      }
      if spurious {
        line := line[..|line| - 1];
      } else {
        NextSlot(|line| - 1);
      }
      mHead[OffsetWrite(kSize, s)] := value;
      line := line + [value];
      forall j {:trigger line[j]} | taken <= j < |line| - 1
        ensures j % kSize != (|line| - 1) % kSize
      {
        SlotsDiffer(j, |line| - 1);
      }
      return true;
    }

    /** `failures` is how often the exchange fails without cause. Each pop delivers the next value of the line,
        so every pushed value comes late by one: the first pop returns what the first slot held initially. */
    method pop(failures: nat) returns (value: Option<T>)
      requires Valid()
      modifies this`mStamp, this`taken
      ensures Valid()
      ensures value.Some? <==> old(taken) < |line| - 1
      ensures taken == if value.Some? then old(taken) + 1 else old(taken)
      ensures value.Some? ==> value.value == line[old(taken)]
    {
      hide CanRead, AdvectRead, Occupancy, OffsetRead, OffsetWrite, InRange;
      TestsExact(kSize, capacity, mStamp);
      AdvanceRead(kSize, mStamp);
      var s := mStamp;
      if !CanRead(kSize, s) {
        return None;
      }
      var left := failures;
      while left > 0
        invariant s == mStamp
      {
        s, left := mStamp, left - 1;
        if !CanRead(kSize, s) {
          return None;
        }
      }
      mStamp := AdvectRead(kSize, s);
      NextSlot(taken);
      taken := taken + 1;
      return Some(mHead[OffsetRead(kSize, s)]);
    }

    lemma NextSlot(n: nat)
      requires kSize > 0
      ensures (n % kSize + 1) % kSize == (n + 1) % kSize
    {
      var q, r := n / kSize, n % kSize;
      ModNear(r + 1, kSize);
      if r + 1 < kSize {
        NextOf(q, r + 1, n + 1);
      } else {
        NextOf(q + 1, 0, n + 1);
      }
    }

    lemma NextOf(q: nat, r: nat, n: nat)
      requires r < kSize && n == q * kSize + r
      ensures n % kSize == r
    {
      DivModOf(kSize, q, r);
    }

    lemma SlotsDiffer(i: nat, j: nat)
      requires i < j < i + kSize
      ensures i % kSize != j % kSize
    {
      Spaced(i / kSize, j / kSize, kSize);
    }
  }
}
