/** ConditionVariable and Queue as objects whose methods are the stretches of code between two
    suspensions. Every method is proved to be a step of QueueProtocol's machine. */
module Queues {
  import opened FutexWaits
  import opened Options
  import opened RingQueues
  import opened QueueProtocol

  class ConditionVariable {
    var mFutex: nat
    /** The kernel's and the loop's view of the tasks inside wait(mask). */
    var waits: map<TaskId, Phase>
    /** Notifies so far; the code only keeps it modulo 2^32, in mFutex. */
    var total: nat

    ghost predicate Valid()
      reads this
    {
      mFutex == Word(total)
    }

    constructor ()
      ensures Valid() && total == 0 && waits == map[]
    {
      mFutex, waits, total := 0, map[], 0;
    }

    /** wait(mask), up to its first suspension. */
    method wait(t: TaskId, mask: Mask)
      requires Valid()
      modifies this`waits
      ensures waits == old(waits)[t := Prepared(mask, Word(total), total)]
    {
      waits := waits[t := Prepared(mask, mFutex, total)];
    }

    /** The kernel receives the prepared wait: it blocks iff the word still equals the snapshot. */
    method submit(t: TaskId)
      requires Valid() && t in waits && waits[t].Prepared?
      modifies this`waits
      ensures waits == old(waits)[t := var p := old(waits[t]);
                                       if Word(total) == p.snap then Blocked(p.mask, p.snap, p.stamp)
                                       else Ready(p.mask, p.snap, p.stamp)]
    {
      var p := waits[t];
      if mFutex == p.snap {
        waits := waits[t := Blocked(p.mask, p.snap, p.stamp)];
      } else {
        waits := waits[t := Ready(p.mask, p.snap, p.stamp)];
      }
    }

    /** The exit test of wait(mask) once the task runs again: leave, or prepare the same wait anew. */
    method recheck(t: TaskId) returns (leave: bool)
      requires Valid() && t in waits && waits[t].Ready?
      modifies this`waits
      ensures leave <==> Word(total) != old(waits[t]).snap
      ensures waits == if leave then old(waits) else
                         old(waits)[t := var p := old(waits[t]); Prepared(p.mask, p.snap, p.stamp)]
    {
      var p := waits[t];
      leave := mFutex != p.snap;
      if !leave {
        waits := waits[t := Prepared(p.mask, p.snap, p.stamp)];
      }
    }

    method notify_one(mask: Mask)
      requires Valid()
      modifies this
      ensures Valid() && total == old(total) + 1 && NotifyOne(old(waits), waits, mask)
    {
      mFutex := (mFutex + 1) % WORD;
      total := total + 1;
      waits := futex_notify(waits, mask);
    }

    /** notify_all(mask): every matching blocked task becomes ready. */
    method notify_all(mask: Mask)
      requires Valid()
      modifies this
      ensures Valid() && total == old(total) + 1 && waits.Keys == old(waits).Keys
      ensures forall w :: w in waits ==>
                waits[w] == if IsBlocked(old(waits), w, mask) then Ready(mask, old(waits)[w].snap, old(waits)[w].stamp)
                            else old(waits)[w]
    {
      mFutex := (mFutex + 1) % WORD;
      total := total + 1;
      waits := map w | w in waits ::
        if IsBlocked(waits, w, mask) then Ready(mask, waits[w].snap, waits[w].stamp) else waits[w];
    }
  }

  class Queue<V(0)> {
    const mQueue: RingQueue<V>
    const mReady: ConditionVariable
    ghost var pushed: seq<V>
    ghost var popped: seq<V>

    ghost predicate Valid()
      reads this, mQueue, mQueue.mHead, mReady
    {
      mQueue.Valid() && mReady.Valid()
    }

    ghost function Abs(): State<V>
      requires Valid()
      reads this, mQueue, mQueue.mHead, mReady
    {
      State(mQueue.maxSize, mQueue.contents, mReady.total, mReady.waits, pushed, popped)
    }

    /** The values in the queue are those pushed and not yet popped, and no wake-up is lost. */
    ghost predicate Safe()
      requires Valid()
      reads this, mQueue, mQueue.mHead, mReady
    {
      Inv(Abs())
    }

    constructor (size: nat)
      ensures Valid() && Abs() == Init(size) && Safe()
    {
      mQueue := new RingQueue<V>(size);
      mReady := new ConditionVariable();
      pushed, popped := [], [];
    }

    /** One pass of push's loop: store the value and notify, or wait for room. */
    method push(t: TaskId, value: V) returns (done: bool)
      requires Valid() && MayAttempt(Abs(), t, NonFull)
      modifies this, mQueue, mQueue.mHead, mReady
      ensures Valid() && Step(old(Abs()), Push(t, value), Abs())
      ensures old(Safe()) ==> Safe()
      ensures done <==> |old(mQueue.contents)| < mQueue.maxSize
      ensures popped == old(popped)
      ensures done ==>
                && mQueue.contents == old(mQueue.contents) + [value] && pushed == old(pushed) + [value]
                && mReady.total == old(mReady.total) + 1
                && NotifyOne(old(mReady.waits) - {t}, mReady.waits, NonEmpty)
      ensures !done ==>
                && mQueue.contents == old(mQueue.contents) && pushed == old(pushed)
                && mReady.total == old(mReady.total)
                && mReady.waits == old(mReady.waits)[t := Prepared(NonFull, Word(mReady.total), mReady.total)]
    {
      hide Step, Inv, MayAttempt, NotifyOne, Enclosed;
      done := mQueue.push(value);
      if done {
        mReady.waits := mReady.waits - {t};
        pushed := pushed + [value];
        mReady.notify_one(NonEmpty);
      } else {
        mReady.wait(t, NonFull);
      }
      IsPush(old(Abs()), t, value, Abs());
      if old(Safe()) { StepKeepsInv(old(Abs()), Push(t, value), Abs()); }
    }

    /** One pass of pop's loop: take the oldest value and notify, or wait for one. */
    method pop(t: TaskId) returns (value: Option<V>)
      requires Valid() && MayAttempt(Abs(), t, NonEmpty)
      modifies this, mQueue, mQueue.mHead, mReady
      ensures Valid() && Step(old(Abs()), Pop(t), Abs())
      ensures old(Safe()) ==> Safe()
      ensures value.Some? <==> old(mQueue.contents) != []
      ensures pushed == old(pushed)
      ensures value.Some? ==>
                && value.value == old(mQueue.contents)[0] && mQueue.contents == old(mQueue.contents)[1..]
                && popped == old(popped) + [value.value] && mReady.total == old(mReady.total) + 1
                && NotifyOne(old(mReady.waits) - {t}, mReady.waits, NonFull)
      ensures value.None? ==>
                && mQueue.contents == [] && popped == old(popped) && mReady.total == old(mReady.total)
                && mReady.waits == old(mReady.waits)[t := Prepared(NonEmpty, Word(mReady.total), mReady.total)]
    {
      hide Step, Inv, MayAttempt, NotifyOne, Enclosed;
      value := mQueue.pop();
      if value.Some? {
        mReady.waits := mReady.waits - {t};
        popped := popped + [value.value];
        mReady.notify_one(NonFull);
      } else {
        mReady.wait(t, NonEmpty);
      }
      IsPop(old(Abs()), t, Abs());
      if old(Safe()) { StepKeepsInv(old(Abs()), Pop(t), Abs()); }
    }

    lemma IsPush(s: State<V>, t: TaskId, v: V, s': State<V>)
      requires MayAttempt(s, t, NonFull)
      requires |s.items| < s.cap ==>
                 && s' == State(s.cap, s.items + [v], s.total + 1, s'.tasks, s.pushed + [v], s.popped)
                 && NotifyOne(s.tasks - {t}, s'.tasks, NonEmpty)
      requires |s.items| >= s.cap ==> s' == Wait(s, t, NonFull)
      ensures Step(s, Push(t, v), s')
    {
    }

    lemma IsPop(s: State<V>, t: TaskId, s': State<V>)
      requires MayAttempt(s, t, NonEmpty)
      requires s.items != [] ==>
                 && s' == State(s.cap, s.items[1..], s.total + 1, s'.tasks, s.pushed, s.popped + [s.items[0]])
                 && NotifyOne(s.tasks - {t}, s'.tasks, NonFull)
      requires s.items == [] ==> s' == Wait(s, t, NonEmpty)
      ensures Step(s, Pop(t), s')
    {
    }

    method submit(t: TaskId)
      requires Valid() && t in mReady.waits && mReady.waits[t].Prepared?
      modifies mReady`waits
      ensures Valid() && Step(old(Abs()), Submit(t), Abs())
      ensures old(Safe() && !Overtaken(Abs(), t)) ==> Safe()
      ensures var p := old(mReady.waits[t]);
              mReady.waits == old(mReady.waits)[t := if Word(mReady.total) == p.snap
                                                    then Blocked(p.mask, p.snap, p.stamp)
                                                    else Ready(p.mask, p.snap, p.stamp)]
    {
      mReady.submit(t);
      if old(Safe() && !Overtaken(Abs(), t)) { StepKeepsInv(old(Abs()), Submit(t), Abs()); }
    }

    /** A ready task runs: either it may attempt again, or it is back in the wait. */
    method resume(t: TaskId) returns (attempt: bool)
      requires Valid() && t in mReady.waits && mReady.waits[t].Ready?
      modifies mReady`waits
      ensures Valid()
      ensures attempt ==> Abs() == old(Abs()) && MayAttempt(Abs(), t, mReady.waits[t].mask)
      ensures !attempt ==> Step(old(Abs()), Recheck(t), Abs())
      ensures attempt <==> Word(mReady.total) != old(mReady.waits[t]).snap
      ensures !attempt ==> t in mReady.waits && mReady.waits[t].Prepared?
      ensures old(Safe()) ==> (attempt <==> !old(Overtaken(Abs(), t)))
    {
      attempt := mReady.recheck(t);
      assert old(Safe()) ==> old(TaskInv(Abs(), mReady.waits[t]));
    }
  }
}
