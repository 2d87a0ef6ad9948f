/** BasicMutex, the Locked handle and CallOnce as objects; every method of BasicMutex is a step of
    MutexProtocol, every method of CallOnce one of CallOnceProtocol. */
module Mutexes {
  import opened MutexProtocol
  import C = CallOnceProtocol

  /** The store and the notify of one unlock, with nothing in between. */
  ghost predicate Unlocks(before: State, t: TaskId, after: State) {
    exists m :: Step(before, Store(t), m) && Step(m, Notify(t), after)
  }

  class BasicMutex {
    var mFutex: bool
    /** Where each task inside lock or unlock, or holding the mutex, stands. */
    var tasks: map<TaskId, Phase>

    ghost function Abs(): State
      reads this
    {
      State(mFutex, tasks)
    }

    /** At most one task holds the mutex, and no wake-up is lost. */
    ghost predicate Valid()
      reads this
    {
      Inv(Abs())
    }

    ghost predicate OnlyHolder(t: TaskId)
      reads this
    {
      forall u :: In(Abs(), u, Holding) <==> u == t
    }

    constructor ()
      ensures Valid() && Abs() == Init
    {
      mFutex, tasks := false, map[];
    }

    method try_lock(t: TaskId) returns (ok: bool)
      requires Valid() && t !in tasks
      modifies this
      ensures Valid() && Step(old(Abs()), TryLock(t), Abs()) && (ok <==> In(Abs(), t, Holding))
      ensures ok <==> forall u :: !old(In(Abs(), u, Holding))
      ensures ok ==> OnlyHolder(t)
      ensures mFutex && tasks == if ok then old(tasks)[t := Holding] else old(tasks)
    {
      var before := mFutex;
      mFutex := true;
      ok := !before;
      if ok {
        tasks := tasks[t := Holding];
      }
      StepKeepsInv(old(Abs()), TryLock(t), Abs());
    }

    /** One pass of lock's loop, up to the suspension in futex_wait. */
    method lock(t: TaskId) returns (held: bool)
      requires Valid() && (t !in tasks || tasks[t].Woken?)
      modifies this
      ensures Valid() && Step(old(Abs()), Exchange(t), Abs()) && (held <==> In(Abs(), t, Holding))
      ensures held <==> forall u :: !old(In(Abs(), u, Holding))
      ensures held ==> OnlyHolder(t)
      ensures mFutex && tasks == old(tasks)[t := if held then Holding else Losing]
    {
      var before := mFutex;
      mFutex := true;
      held := !before;
      tasks := tasks[t := if held then Holding else Losing];
      StepKeepsInv(old(Abs()), Exchange(t), Abs());
    }

    /** The kernel receives the wait of a task that lost the exchange. */
    method submit(t: TaskId)
      requires Valid() && In(Abs(), t, Losing)
      modifies this
      ensures Valid() && Step(old(Abs()), Submit(t), Abs())
      ensures mFutex == old(mFutex) && tasks == old(tasks)[t := if mFutex then Blocked else Woken]
    {
      tasks := tasks[t := if mFutex then Blocked else Woken];
      StepKeepsInv(old(Abs()), Submit(t), Abs());
    }

    method store(t: TaskId)
      requires Valid() && In(Abs(), t, Holding)
      modifies this
      ensures Valid() && Step(old(Abs()), Store(t), Abs())
      ensures forall u :: !In(Abs(), u, Holding)
      ensures !mFutex && tasks == old(tasks)[t := Unlocking]
    {
      mFutex := false;
      tasks := tasks[t := Unlocking];
      StepKeepsInv(old(Abs()), Store(t), Abs());
    }

    /** The notify wakes one of the blocked tasks, any one, if there is one. */
    method notify(t: TaskId)
      requires Valid() && In(Abs(), t, Unlocking)
      modifies this
      ensures Valid() && Step(old(Abs()), Notify(t), Abs())
      ensures mFutex == old(mFutex) && t !in tasks
      ensures (exists w :: w in old(tasks) && old(tasks)[w] == Blocked) ==>
                exists w :: w in old(tasks) && old(tasks)[w] == Blocked && tasks == (old(tasks) - {t})[w := Woken]
      ensures (forall w :: w in old(tasks) ==> old(tasks)[w] != Blocked) ==> tasks == old(tasks) - {t}
    {
      tasks := tasks - {t};
      ghost var rest := Abs();
      if w :| w in tasks && tasks[w] == Blocked {
        assert In(rest, w, Blocked);
        tasks := tasks[w := Woken];
        assert Abs() == Put(rest, w, Woken);
      }
      StepKeepsInv(old(Abs()), Notify(t), Abs());
    }

    /** unlock(), when no other thread gets in between its two operations. */
    method unlock(t: TaskId)
      requires Valid() && In(Abs(), t, Holding)
      modifies this
      ensures Valid() && Unlocks(old(Abs()), t, Abs())
      ensures !mFutex && t !in tasks
      ensures (exists w :: w in old(tasks) && old(tasks)[w] == Blocked) ==>
                exists w :: w in old(tasks) && old(tasks)[w] == Blocked && tasks == (old(tasks) - {t})[w := Woken]
      ensures (forall w :: w in old(tasks) ==> old(tasks)[w] != Blocked) ==> tasks == old(tasks) - {t}
    {
      store(t);
      ghost var m := Abs();
      notify(t);
      assert Step(old(Abs()), Store(t), m) && Step(m, Notify(t), Abs());
      assert m.tasks - {t} == old(tasks) - {t};
      assert forall w :: w in m.tasks && m.tasks[w] == Blocked <==> w in old(tasks) && old(tasks)[w] == Blocked;
    }
  }

  /** The handle of MutexImpl: empty, or responsible for exactly one unlock. */
  class Locked {
    var mImpl: BasicMutex?
    var task: TaskId

    ghost predicate Owns()
      reads this, mImpl
    {
      mImpl != null ==> mImpl.Valid() && In(mImpl.Abs(), task, Holding)
    }

    constructor (impl: BasicMutex?, task: TaskId)
      requires impl != null ==> impl.Valid() && In(impl.Abs(), task, Holding)
      ensures Owns() && mImpl == impl && this.task == task
    {
      mImpl, this.task := impl, task;
    }

    /** A second call finds the handle empty and does nothing. */
    method unlock()
      requires Owns()
      modifies this`mImpl, mImpl
      ensures mImpl == null
      ensures old(mImpl) != null ==> old(mImpl).Valid() && Unlocks(old(mImpl.Abs()), task, old(mImpl).Abs())
      ensures old(mImpl) != null ==> !old(mImpl).mFutex && task !in old(mImpl).tasks
    {
      if mImpl != null {
        mImpl.unlock(task);
        mImpl := null;
      }
    }

    /** Move assignment exchanges the two handles, so no unlock is lost or doubled. */
    method moveFrom(that: Locked)
      requires Owns() && that.Owns()
      modifies this, that
      ensures Owns() && that.Owns()
      ensures mImpl == old(that.mImpl) && task == old(that.task) && that.mImpl == old(mImpl) && that.task == old(task)
    {
      mImpl, that.mImpl := that.mImpl, mImpl;
      task, that.task := that.task, task;
    }
  }

  class CallOnce {
    var mCalled: bool
    const mMutex: BasicMutex
    /** Where each task inside call_once, or holding the handle it got, stands. */
    var pcs: map<TaskId, C.Pc>
    ghost var grants: nat
    ghost var disciplined: bool

    ghost function Abs(): C.State
      reads this, mMutex
    {
      C.State(mMutex.Abs(), mCalled, pcs, grants, disciplined)
    }

    /** No two tasks are inside the section, and nobody is granted it once it has been declared ready. */
    ghost predicate Valid()
      reads this, mMutex
    {
      C.Inv(Abs())
    }

    constructor ()
      ensures Valid() && Abs() == C.Init && fresh(mMutex)
    {
      mCalled, pcs, grants, disciplined := false, map[], 0, true;
      mMutex := new BasicMutex();
    }

    /** The first look at mCalled: return an empty handle, or go on to lock. */
    method call_once(t: TaskId) returns (goOn: bool)
      requires Valid() && t !in pcs && t !in mMutex.tasks
      modifies this
      ensures Valid() && C.Step(old(Abs()), C.Enter(t), Abs()) && (goOn <==> !old(mCalled))
      ensures mCalled == old(mCalled) && pcs == if goOn then old(pcs)[t := C.Locking] else old(pcs)
    {
      goOn := !mCalled;
      if goOn {
        pcs := pcs[t := C.Locking];
      }
      C.StepKeepsInv(old(Abs()), C.Enter(t), Abs());
    }

    method lock(t: TaskId) returns (held: bool)
      requires Valid() && C.At(Abs(), t, C.Locking) && (t !in mMutex.tasks || mMutex.tasks[t].Woken?)
      modifies mMutex
      ensures Valid() && C.Step(old(Abs()), C.Mutex(t, Exchange(t)), Abs()) && (held <==> In(mMutex.Abs(), t, Holding))
      ensures mMutex.mFutex && mMutex.tasks == old(mMutex.tasks)[t := if held then Holding else Losing]
    {
      held := mMutex.lock(t);
      C.StepKeepsInv(old(Abs()), C.Mutex(t, Exchange(t)), Abs());
    }

    method submit(t: TaskId)
      requires Valid() && C.At(Abs(), t, C.Locking) && In(mMutex.Abs(), t, Losing)
      modifies mMutex
      ensures Valid() && C.Step(old(Abs()), C.Mutex(t, Submit(t)), Abs())
      ensures mMutex.mFutex == old(mMutex.mFutex)
      ensures mMutex.tasks == old(mMutex.tasks)[t := if mMutex.mFutex then Blocked else Woken]
    {
      mMutex.submit(t);
      C.StepKeepsInv(old(Abs()), C.Mutex(t, Submit(t)), Abs());
    }

    /** The second look, with the mutex held. */
    method grant(t: TaskId) returns (granted: bool)
      requires Valid() && C.At(Abs(), t, C.Locking) && In(mMutex.Abs(), t, Holding)
      modifies this
      ensures Valid() && C.Step(old(Abs()), C.Check(t), Abs()) && (granted <==> !old(mCalled))
      ensures granted ==> forall u :: u in pcs && pcs[u].Inside? <==> u == t
      ensures mCalled == old(mCalled) && pcs == old(pcs)[t := if granted then C.Inside(false) else C.Leaving]
    {
      granted := !mCalled;
      if granted {
        pcs := pcs[t := C.Inside(false)];
        grants := grants + 1;
      } else {
        pcs := pcs[t := C.Leaving];
      }
      C.StepKeepsInv(old(Abs()), C.Check(t), Abs());
    }

    method set_ready(t: TaskId)
      requires Valid() && t in pcs && pcs[t].Inside?
      modifies this
      ensures Valid() && C.Step(old(Abs()), C.SetReady(t), Abs())
      ensures mCalled && pcs == old(pcs)[t := C.Inside(true)]
    {
      mCalled := true;
      pcs := pcs[t := C.Inside(true)];
      C.StepKeepsInv(old(Abs()), C.SetReady(t), Abs());
    }

    /** The handle's destructor, up to the notify. */
    method release(t: TaskId)
      requires Valid() && t in pcs && !pcs[t].Locking?
      modifies this, mMutex
      ensures Valid() && C.Step(old(Abs()), C.Release(t), Abs())
      ensures mCalled == old(mCalled) && pcs == old(pcs) - {t}
      ensures !mMutex.mFutex && mMutex.tasks == old(mMutex.tasks)[t := Unlocking]
      ensures forall u :: !In(mMutex.Abs(), u, Holding)
    {
      disciplined := disciplined && pcs[t] != C.Inside(false);
      pcs := pcs - {t};
      mMutex.store(t);
      C.StepKeepsInv(old(Abs()), C.Release(t), Abs());
    }

    method notify(t: TaskId)
      requires Valid() && In(mMutex.Abs(), t, Unlocking)
      modifies mMutex
      ensures Valid() && C.Step(old(Abs()), C.Mutex(t, Notify(t)), Abs())
      ensures mMutex.mFutex == old(mMutex.mFutex) && t !in mMutex.tasks
      ensures (exists w :: w in old(mMutex.tasks) && old(mMutex.tasks)[w] == Blocked) ==>
                exists w :: w in old(mMutex.tasks) && old(mMutex.tasks)[w] == Blocked
                            && mMutex.tasks == (old(mMutex.tasks) - {t})[w := Woken]
      ensures (forall w :: w in old(mMutex.tasks) ==> old(mMutex.tasks)[w] != Blocked) ==>
                mMutex.tasks == old(mMutex.tasks) - {t}
    {
      mMutex.notify(t);
      C.StepKeepsInv(old(Abs()), C.Mutex(t, Notify(t)), Abs());
    }
  }
}
