/** The kernel's side of a futex wait, as far as one event loop sees it: tasks that prepare, block and are
    made ready again, and the effect of waking one of them. Shared by the queue and the semaphore. */
module FutexWaits {

  type TaskId = nat

  /** kNonEmptyMask waits for something to pop, kNonFullMask for room to push. The semaphore's kAcquireMask
      and kReleaseMask are the same two: a unit to take, and room to give one back. */
  datatype Mask = NonEmpty | NonFull

  /** `snap` is the value of the word that the wait expects; `stamp` is the number of notifies there had been
      when it was read. */
  datatype Phase =
    | Prepared(mask: Mask, snap: nat, stamp: nat)
    | Blocked(mask: Mask, snap: nat, stamp: nat)
    | Ready(mask: Mask, snap: nat, stamp: nat)

  predicate IsReady(tasks: map<TaskId, Phase>, t: TaskId, mask: Mask) {
    t in tasks && tasks[t].Ready? && tasks[t].mask == mask
  }

  predicate IsBlocked(tasks: map<TaskId, Phase>, t: TaskId, mask: Mask) {
    t in tasks && tasks[t].Blocked? && tasks[t].mask == mask
  }

  ghost predicate Waker(tasks: map<TaskId, Phase>, tasks': map<TaskId, Phase>, w: TaskId, mask: Mask) {
    IsBlocked(tasks, w, mask) && tasks' == tasks[w := Ready(mask, tasks[w].snap, tasks[w].stamp)]
  }

  /** futex_notify(1, mask): one matching blocked task becomes ready, any one; none if there is none. */
  ghost predicate NotifyOne(tasks: map<TaskId, Phase>, tasks': map<TaskId, Phase>, mask: Mask) {
    || (exists w :: Waker(tasks, tasks', w, mask))
    || (tasks' == tasks && forall w :: !IsBlocked(tasks, w, mask))
  }

  function ReadyTasks(tasks: map<TaskId, Phase>, mask: Mask): set<TaskId> {
    set t | t in tasks && IsReady(tasks, t, mask)
  }

  lemma ReadyWithout(tasks: map<TaskId, Phase>, t: TaskId, mask: Mask)
    ensures |ReadyTasks(tasks - {t}, mask)| == |ReadyTasks(tasks, mask)| - if IsReady(tasks, t, mask) then 1 else 0
  {
    assert ReadyTasks(tasks - {t}, mask) == ReadyTasks(tasks, mask) - {t};
  }

  lemma ReadyUpdate(tasks: map<TaskId, Phase>, t: TaskId, p: Phase, mask: Mask)
    ensures |ReadyTasks(tasks[t := p], mask)| ==
            |ReadyTasks(tasks - {t}, mask)| + if p.Ready? && p.mask == mask then 1 else 0
  {
    var rest, now := tasks - {t}, tasks[t := p];
    var extra := if p.Ready? && p.mask == mask then {t} else {};
    assert t !in ReadyTasks(rest, mask) && now[t] == p;
    forall u
      ensures u in ReadyTasks(now, mask) <==> u in ReadyTasks(rest, mask) || u in extra
    {
      if u != t {
        assert u in now <==> u in rest;
        assert u in now ==> now[u] == rest[u];
      }
    }
    assert ReadyTasks(now, mask) == ReadyTasks(rest, mask) + extra;
  }

  lemma NotifyReady(tasks: map<TaskId, Phase>, tasks': map<TaskId, Phase>, mask: Mask)
    requires NotifyOne(tasks, tasks', mask)
    ensures forall u :: u in tasks' ==>
              && u in tasks
              && (|| tasks'[u] == tasks[u]
                  || (IsBlocked(tasks, u, mask) && tasks'[u] == Ready(mask, tasks[u].snap, tasks[u].stamp)))
    ensures forall m :: |ReadyTasks(tasks', m)| >= |ReadyTasks(tasks, m)|
    ensures (exists u :: IsBlocked(tasks, u, mask)) ==> |ReadyTasks(tasks', mask)| == |ReadyTasks(tasks, mask)| + 1
  {
    if w :| Waker(tasks, tasks', w, mask) {
      forall m
        ensures |ReadyTasks(tasks', m)| == |ReadyTasks(tasks, m)| + if m == mask then 1 else 0
      {
        ReadyUpdate(tasks, w, tasks'[w], m);
        ReadyWithout(tasks, w, m);
      }
    }
  }

  /** futex_notify(1, mask): wakes some matching blocked task, if there is one. */
  method futex_notify(tasks: map<TaskId, Phase>, mask: Mask) returns (tasks': map<TaskId, Phase>)
    ensures NotifyOne(tasks, tasks', mask)
  {
    tasks' := tasks;
    if w :| w in tasks && IsBlocked(tasks, w, mask) {
      tasks' := tasks[w := Ready(mask, tasks[w].snap, tasks[w].stamp)];
      assert Waker(tasks, tasks', w, mask);
    }
  }
}
