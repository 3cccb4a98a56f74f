/**
  kernel/scheduler.c as a step system: where every task is, and what each atomic section of the kernel does.
  Priorities are fixed: the boost of k_mutex_lock is treated in module BootAndBoost.
*/
module SchedModel {
  import opened LinkedList
  import opened TaskLinks

  const LEVELS: nat := 8
  const SLICE: nat := 10

  datatype State = Ready | Running | Blocked | Sleeping | Dead

  /** The scheduling fields of a task. stamp orders the tasks by when they last started to wait. */
  datatype Info = Info(state: State, prio: nat, wake: nat, slice: nat, stamp: nat)

  /** The lists a task can be on: the ready queue of a priority, the sleep queue, the waiters of an object. */
  datatype Place = Run(prio: nat) | Sleep | Wait(obj: nat)

  /**
    info and lists describe all tasks; where names the object a blocked task waits on. cur is the current task,
    now the tick count, clock the next stamp. Objects in mutexes keep their waiters by priority, all others in
    order of arrival.
  */
  datatype Sys = Sys(info: map<nat, Info>, lists: map<Place, seq<nat>>, where: map<nat, nat>, cur: nat, now: nat,
                     clock: nat, idle: nat, mutexes: set<nat>)

  function At(lists: map<Place, seq<nat>>, q: Place): seq<nat> {
    if q in lists then lists[q] else []
  }

  // ---------- every task is in exactly one place ----------

  /** By its state, task t belongs on list q. */
  predicate Homed(s: Sys, q: Place, t: nat) {
    && t in s.info && s.info[t].prio < LEVELS
    && match q
       case Run(p) => s.info[t].state.Ready? && s.info[t].prio == p
       case Sleep => s.info[t].state.Sleeping?
       case Wait(o) => s.info[t].state.Blocked? && t in s.where && s.where[t] == o
  }

  /** Task t is where its state says. */
  predicate Placed(s: Sys, t: nat)
    requires t in s.info
  {
    match s.info[t].state
    case Ready => t in At(s.lists, Run(s.info[t].prio))
    case Running => t == s.cur
    case Blocked => t in s.where && t in At(s.lists, Wait(s.where[t]))
    case Sleeping => t in At(s.lists, Sleep)
    case Dead => true
  }

  ghost predicate Lists(s: Sys) {
    && (forall q, t {:trigger Homed(s, q, t)} | t in At(s.lists, q) :: Homed(s, q, t))
    && (forall q {:trigger Distinct(At(s.lists, q))} :: Distinct(At(s.lists, q)))
  }

  /** Every task but x is in its place; x is on no list. */
  ghost predicate PartitionBut(s: Sys, x: nat) {
    && Lists(s)
    && (forall t {:trigger Placed(s, t)} | t in s.info && t != x :: Placed(s, t))
    && (forall q :: x !in At(s.lists, q))
    && s.cur in s.info && 0 !in s.info && forall t | t in s.info :: s.info[t].prio < LEVELS
  }

  /**
    Each ready task is in the queue of its priority, each sleeping or blocked one on its list, no task on two
    lists.
  */
  ghost predicate Partition(s: Sys) {
    PartitionBut(s, 0)
  }

  lemma OnePlace(s: Sys, q: Place, r: Place, t: nat)
    requires Lists(s) && t in At(s.lists, q) && t in At(s.lists, r)
    ensures q == r
  {
    assert Homed(s, q, t) && Homed(s, r, t);
  }

  /** A task whose state belongs to no list is on no list. */
  lemma Nowhere(s: Sys, t: nat)
    requires Lists(s) && t in s.info && (s.info[t].state.Running? || s.info[t].state.Dead?)
    ensures forall q :: t !in At(s.lists, q)
  {
    forall q ensures t !in At(s.lists, q) {
      assert !Homed(s, q, t);
    }
  }

  /** Task t enters list q at position k. */
  function Entered(s: Sys, q: Place, k: nat, t: nat): Sys
    requires k <= |At(s.lists, q)|
  {
    s.(lists := s.lists[q := Insert(At(s.lists, q), k, t)])
  }

  /** Position k leaves list q. */
  function Left(s: Sys, q: Place, k: nat): Sys
    requires k < |At(s.lists, q)|
  {
    s.(lists := s.lists[q := Without(At(s.lists, q), k)])
  }

  lemma EnteredPartition(s: Sys, q: Place, k: nat, t: nat)
    requires PartitionBut(s, t) && k <= |At(s.lists, q)| && Homed(s, q, t)
    ensures Partition(Entered(s, q, k, t))
  {
    var s' := Entered(s, q, k, t);
    InsertMembers(At(s.lists, q), k, t);
    forall r, a | a in At(s'.lists, r) ensures Homed(s', r, a) {
      if a != t {
        assert a in At(s.lists, r);
        assert Homed(s, r, a);
      } else {
        assert r == q;
      }
    }
    forall r ensures Distinct(At(s'.lists, r)) {
      assert Distinct(At(s.lists, r));
    }
    forall a | a in s'.info ensures Placed(s', a) {
      if a != t {
        assert Placed(s, a);
        StaysOn(s, s', q, a);
      }
    }
    forall r ensures 0 !in At(s'.lists, r) {
      assert !Homed(s', r, 0);
    }
  }

  /** A task that keeps all its lists stays placed. */
  lemma StaysOn(s: Sys, s': Sys, q: Place, a: nat)
    requires a in s.info && a in s'.info && s.info[a] == s'.info[a] && s.cur == s'.cur && Placed(s, a)
    requires a in s.where ==> a in s'.where && s'.where[a] == s.where[a]
    requires forall r | a in At(s.lists, r) :: a in At(s'.lists, r)
    ensures Placed(s', a)
  {
  }

  lemma LeftPartition(s: Sys, q: Place, k: nat, v: Info)
    requires Partition(s) && k < |At(s.lists, q)| && v.prio < LEVELS
    ensures var t := At(s.lists, q)[k]; PartitionBut(Left(s, q, k).(info := s.info[t := v]), t)
  {
    var t := At(s.lists, q)[k];
    var s' := Left(s, q, k).(info := s.info[t := v]);
    assert Distinct(At(s.lists, q));
    WithoutMembers(At(s.lists, q), k);
    assert t in At(s.lists, q) && Homed(s, q, t);
    forall r, a | a in At(s'.lists, r) ensures a != t && Homed(s', r, a) {
      assert a in At(s.lists, r) && Homed(s, r, a);
      if a == t {
        OnePlace(s, q, r, t);
      }
    }
    forall r ensures Distinct(At(s'.lists, r)) {
      assert Distinct(At(s.lists, r));
    }
    forall a | a in s'.info && a != t ensures Placed(s', a) {
      assert Placed(s, a);
      StaysOn(s, s', q, a);
    }
  }

  /** What concerns a task on no list alone may change. */
  lemma SingledFrame(s: Sys, s': Sys, t: nat)
    requires PartitionBut(s, t) && t != 0 && t in s'.info && s'.info[t].prio < LEVELS
    requires s'.lists == s.lists && s'.cur == s.cur && s'.info.Keys == s.info.Keys + {t}
    requires forall a | a in s.info && a != t :: s'.info[a] == s.info[a]
    requires forall a | a in s.where && a != t :: a in s'.where && s'.where[a] == s.where[a]
    ensures PartitionBut(s', t)
  {
    forall r, a | a in At(s'.lists, r) ensures Homed(s', r, a) {
      assert Homed(s, r, a);
    }
    forall r ensures Distinct(At(s'.lists, r)) {
      assert Distinct(At(s.lists, r));
    }
    forall a | a in s'.info && a != t ensures Placed(s', a) {
      assert Placed(s, a);
    }
  }

  /** The fields of a task on no list may change. */
  lemma ChangedPartition(s: Sys, t: nat, v: Info)
    requires PartitionBut(s, t) && v.prio < LEVELS && t != 0
    ensures PartitionBut(s.(info := s.info[t := v]), t)
  {
    SingledFrame(s, s.(info := s.info[t := v]), t);
  }

  /** A running task is on no list and so can be singled out. */
  lemma SingleOut(s: Sys, t: nat)
    requires Partition(s) && t in s.info && (s.info[t].state.Running? || s.info[t].state.Dead?)
    ensures PartitionBut(s, t)
  {
    Nowhere(s, t);
  }

  // ---------- yield ----------

  function Enqueue(s: Sys, t: nat): Sys
    requires t in s.info
  {
    var s1 := s.(info := s.info[t := s.info[t].(state := Ready)]);
    Entered(s1, Run(s.info[t].prio), |At(s.lists, Run(s.info[t].prio))|, t)
  }

  /** prio_highest: the highest priority below n with a ready task, or -1. */
  function Top(lists: map<Place, seq<nat>>, n: nat): (p: int)
    ensures -1 <= p < n
    ensures p >= 0 ==> At(lists, Run(p)) != []
    ensures forall r: nat | p < r < n :: At(lists, Run(r)) == []
  {
    if n == 0 then -1 else if At(lists, Run(n - 1)) != [] then n - 1 else Top(lists, n - 1)
  }

  /** The head of the highest ready queue becomes the current task. */
  function Dispatch(s: Sys): Sys
    requires Top(s.lists, LEVELS) >= 0 && At(s.lists, Run(Top(s.lists, LEVELS)))[0] in s.info
  {
    var p := Top(s.lists, LEVELS);
    var t := At(s.lists, Run(p))[0];
    Left(s, Run(p), 0).(info := s.info[t := s.info[t].(state := Running, slice := SLICE)], cur := t)
  }

  function Requeued(s: Sys): Sys
    requires s.cur in s.info
  {
    if s.info[s.cur].state.Running? then Enqueue(s, s.cur) else s
  }

  /** sched_yield_from_isr */
  function Yield(s: Sys): Sys
    requires CanYield(s)
  {
    Dispatch(Requeued(s))
  }

  predicate CanYield(s: Sys) {
    && s.cur in s.info
    && Top(Requeued(s).lists, LEVELS) >= 0
    && At(Requeued(s).lists, Run(Top(Requeued(s).lists, LEVELS)))[0] in Requeued(s).info
  }

  lemma EnqueuePartition(s: Sys, t: nat)
    requires PartitionBut(s, t) && t in s.info
    ensures Partition(Enqueue(s, t))
  {
    var v := s.info[t].(state := Ready);
    ChangedPartition(s, t, v);
    var s1 := s.(info := s.info[t := v]);
    EnteredPartition(s1, Run(v.prio), |At(s.lists, Run(v.prio))|, t);
  }

  lemma RequeuedPartition(s: Sys)
    requires Partition(s)
    ensures Partition(Requeued(s)) && Requeued(s).cur == s.cur && Requeued(s).info.Keys == s.info.Keys
    ensures !Requeued(s).info[s.cur].state.Running?
  {
    if s.info[s.cur].state.Running? {
      SingleOut(s, s.cur);
      EnqueuePartition(s, s.cur);
    }
  }

  /** No task is running and some task is ready: dispatching one keeps every task in its place. */
  lemma DispatchPartition(s: Sys)
    requires Partition(s) && !s.info[s.cur].state.Running? && Top(s.lists, LEVELS) >= 0
    ensures At(s.lists, Run(Top(s.lists, LEVELS)))[0] in s.info
    ensures Partition(Dispatch(s)) && Dispatch(s).cur in s.info && Dispatch(s).info[Dispatch(s).cur].state.Running?
  {
    var p := Top(s.lists, LEVELS);
    var q := Run(p);
    var t := At(s.lists, q)[0];
    assert Homed(s, q, t);
    var v := s.info[t].(state := Running, slice := SLICE);
    LeftPartition(s, q, 0, v);
    var s1 := Left(s, q, 0).(info := s.info[t := v]);
    var s' := Dispatch(s);
    forall r, a | a in At(s'.lists, r) ensures Homed(s', r, a) {
      assert Homed(s1, r, a);
    }
    forall r ensures Distinct(At(s'.lists, r)) {
      assert Distinct(At(s1.lists, r));
    }
    forall a | a in s'.info ensures Placed(s', a) {
      if a != t {
        assert Placed(s1, a) && Placed(s, a);
      }
    }
  }

  /** The idle task never waits: it runs or is ready at the lowest priority. */
  predicate IdleOk(s: Sys) {
    && s.idle in s.info && s.info[s.idle].prio == 0
    && (s.info[s.idle].state.Ready? || (s.info[s.idle].state.Running? && s.cur == s.idle))
  }

  lemma TopAtLeast(lists: map<Place, seq<nat>>, n: nat, p: nat)
    requires p < n && At(lists, Run(p)) != []
    ensures Top(lists, n) >= p
  {
  }

  /** With an idle task there is always a task to dispatch. */
  lemma YieldPossible(s: Sys)
    requires Partition(s) && IdleOk(s)
    ensures CanYield(s)
  {
    RequeuedPartition(s);
    var s1 := Requeued(s);
    assert Placed(s1, s.idle);
    TopAtLeast(s1.lists, LEVELS, 0);
    DispatchPartition(s1);
  }

  lemma YieldPartition(s: Sys)
    requires Partition(s) && IdleOk(s)
    ensures CanYield(s) && Partition(Yield(s)) && IdleOk(Yield(s))
    ensures Yield(s).info[Yield(s).cur].state.Running?
  {
    YieldPossible(s);
    RequeuedPartition(s);
    DispatchPartition(Requeued(s));
  }

  // ---------- waiting ----------

  /** The walk that looks for the place of t on list q goes past task x. */
  predicate Passes(s: Sys, q: Place, x: nat, t: nat)
    requires x in s.info && t in s.info
  {
    match q
    case Run(p) => true
    case Sleep => s.info[x].wake <= s.info[t].wake
    case Wait(o) => o in s.mutexes ==> s.info[x].prio >= s.info[t].prio
  }

  /** Where the walk stops: the first task it does not go past. */
  function Pos(s: Sys, q: Place, t: nat, k: nat): (r: nat)
    requires k <= |At(s.lists, q)| && t in s.info && forall x | x in At(s.lists, q) :: x in s.info
    ensures k <= r <= |At(s.lists, q)|
    ensures forall j | k <= j < r :: Passes(s, q, At(s.lists, q)[j], t)
    ensures r < |At(s.lists, q)| ==> !Passes(s, q, At(s.lists, q)[r], t)
    decreases |At(s.lists, q)| - k
  {
    if k < |At(s.lists, q)| && Passes(s, q, At(s.lists, q)[k], t) then Pos(s, q, t, k + 1) else k
  }

  /** The current task gets fields v and, for the waiters of an object, the object's name. */
  function Marked(s: Sys, q: Place, v: Info): Sys {
    s.(info := s.info[s.cur := v], clock := s.clock + 1, where := if q.Wait? then s.where[s.cur := q.obj] else s.where)
  }

  /** The current task, with fields v, enters list q where the walk stops. */
  function Waiting(s: Sys, q: Place, v: Info): Sys
    requires s.cur in s.info && forall x | x in At(s.lists, q) :: x in s.info
  {
    Entered(Marked(s, q, v), q, Pos(Marked(s, q, v), q, s.cur, 0), s.cur)
  }

  /** The masked part of task_sleep_ticks for n ticks. */
  function SleepStart(s: Sys, n: nat): Sys
    requires s.cur in s.info && forall x | x in At(s.lists, Sleep) :: x in s.info
  {
    Waiting(s, Sleep, s.info[s.cur].(state := Sleeping, wake := s.now + n, stamp := s.clock))
  }

  /** The masked part of k_mutex_lock and k_sem_take that blocks the current task on object o. */
  function BlockStart(s: Sys, o: nat): Sys
    requires s.cur in s.info && forall x | x in At(s.lists, Wait(o)) :: x in s.info
  {
    Waiting(s, Wait(o), s.info[s.cur].(state := Blocked, stamp := s.clock))
  }

  /** task_exit_hook before its yield. */
  function ExitStart(s: Sys): Sys
    requires s.cur in s.info
  {
    s.(info := s.info[s.cur := s.info[s.cur].(state := Dead)])
  }

  /** Control block t is no task's, or that of a dead task whose stack nobody runs on. */
  predicate Unused(s: Sys, t: nat) {
    t !in s.info || (s.info[t].state.Dead? && t != s.cur)
  }

  /** task_create on an unused control block. */
  function Create(s: Sys, t: nat, prio: nat): Sys {
    var s1 := s.(info := s.info[t := Info(Ready, prio, 0, SLICE, 0)]);
    Entered(s1, Run(prio), |At(s.lists, Run(prio))|, t)
  }

  /** The head of list q becomes ready, at the end of the queue of its priority. */
  function Released(s: Sys, q: Place): Sys
    requires At(s.lists, q) != [] && At(s.lists, q)[0] in s.info
  {
    Enqueue(Left(s, q, 0), At(s.lists, q)[0])
  }

  /** k_mutex_unlock and k_sem_give wake the first waiter of o, if any. */
  function Wake(s: Sys, o: nat): Sys
    requires forall x | x in At(s.lists, Wait(o)) :: x in s.info
  {
    if At(s.lists, Wait(o)) == [] then s else Released(s, Wait(o))
  }

  lemma ListedIn(s: Sys, q: Place)
    requires Lists(s)
    ensures forall x | x in At(s.lists, q) :: x in s.info
  {
    forall x | x in At(s.lists, q) ensures x in s.info {
      assert Homed(s, q, x);
    }
  }

  lemma MarkedSingled(s: Sys, q: Place, v: Info)
    requires Partition(s) && s.info[s.cur].state.Running? && v.prio == s.info[s.cur].prio
    ensures PartitionBut(Marked(s, q, v), s.cur)
  {
    SingleOut(s, s.cur);
    SingledFrame(s, Marked(s, q, v), s.cur);
  }

  lemma WaitingPartition(s: Sys, q: Place, v: Info)
    requires Partition(s) && s.info[s.cur].state.Running? && v.prio == s.info[s.cur].prio
    requires (q.Sleep? && v.state.Sleeping?) || (q.Wait? && v.state.Blocked?)
    ensures forall x | x in At(s.lists, q) :: x in s.info
    ensures Partition(Waiting(s, q, v))
  {
    ListedIn(s, q);
    MarkedSingled(s, q, v);
    EnteredPartition(Marked(s, q, v), q, Pos(Marked(s, q, v), q, s.cur, 0), s.cur);
  }

  lemma ExitPartition(s: Sys)
    requires Partition(s) && s.info[s.cur].state.Running?
    ensures Partition(ExitStart(s))
  {
    SingleOut(s, s.cur);
    ChangedPartition(s, s.cur, s.info[s.cur].(state := Dead));
    var s' := ExitStart(s);
    assert Placed(s', s.cur);
    forall q ensures 0 !in At(s'.lists, q) {
      assert !Homed(s', q, 0);
    }
  }

  lemma UnusedNowhere(s: Sys, t: nat)
    requires Lists(s) && Unused(s, t)
    ensures forall q :: t !in At(s.lists, q)
  {
    forall q ensures t !in At(s.lists, q) {
      assert !Homed(s, q, t);
    }
  }

  lemma CreatePartition(s: Sys, t: nat, prio: nat)
    requires Partition(s) && Unused(s, t) && t != 0 && prio < LEVELS
    ensures Partition(Create(s, t, prio))
  {
    var s1 := s.(info := s.info[t := Info(Ready, prio, 0, SLICE, 0)]);
    UnusedNowhere(s, t);
    SingledFrame(s, s1, t);
    EnteredPartition(s1, Run(prio), |At(s.lists, Run(prio))|, t);
  }

  lemma ReleasedPartition(s: Sys, q: Place)
    requires Partition(s) && At(s.lists, q) != [] && !q.Run?
    ensures At(s.lists, q)[0] in s.info && Partition(Released(s, q))
  {
    var t := At(s.lists, q)[0];
    assert Homed(s, q, t);
    LeftPartition(s, q, 0, s.info[t]);
    assert s.info[t := s.info[t]] == s.info;
    EnqueuePartition(Left(s, q, 0), t);
  }

  // ---------- tick ----------

  /** The wake-up loop of sched_tick_isr: sleepers whose time has come leave from the head of the queue. */
  function WakeSleepers(s: Sys): Sys
    requires Partition(s)
    decreases |At(s.lists, Sleep)|
  {
    if At(s.lists, Sleep) == [] then s
    else
      ReleasedPartition(s, Sleep);
      if s.info[At(s.lists, Sleep)[0]].wake > s.now then s else WakeSleepers(Released(s, Sleep))
  }

  lemma {:induction false} WokenPartition(s: Sys)
    requires Partition(s)
    ensures Partition(WakeSleepers(s)) && WakeSleepers(s).cur == s.cur && WakeSleepers(s).info.Keys == s.info.Keys
    ensures IdleOk(s) ==> IdleOk(WakeSleepers(s))
    decreases |At(s.lists, Sleep)|
  {
    if At(s.lists, Sleep) == [] {
    } else {
      var t := At(s.lists, Sleep)[0];
      ReleasedPartition(s, Sleep);
      assert Homed(s, Sleep, t);
      if s.info[t].wake <= s.now {
        WokenPartition(Released(s, Sleep));
      }
    }
  }

  /** The slice of the current task runs down. */
  function Spent(s: Sys): Sys
    requires s.cur in s.info
  {
    s.(info := s.info[s.cur := s.info[s.cur].(slice := if s.info[s.cur].slice > 0 then s.info[s.cur].slice - 1 else 0)])
  }

  predicate Preempts(s: Sys)
    requires s.cur in s.info
  {
    s.info[s.cur].slice == 0 || Top(s.lists, LEVELS) > s.info[s.cur].prio
  }

  /** sched_tick_isr before its yield, without its timers: time moves on, sleepers wake, the current task is charged. */
  function Charged(s: Sys): Sys
    requires Partition(s)
  {
    PartitionFrame(s, s.(now := s.now + 1));
    WokenPartition(s.(now := s.now + 1));
    Spent(WakeSleepers(s.(now := s.now + 1)))
  }

  lemma ChargedPartition(s: Sys)
    requires Partition(s)
    ensures Partition(Charged(s)) && (IdleOk(s) ==> IdleOk(Charged(s)))
  {
    var s1 := s.(now := s.now + 1);
    PartitionFrame(s, s1);
    WokenPartition(s1);
    PartitionFrame(WakeSleepers(s1), Charged(s));
  }

  /** sched_tick_isr: a yield follows when the slice is over or a higher task is ready. */
  function Tick(s: Sys): Sys
    requires Partition(s) && IdleOk(s)
  {
    ChargedPartition(s);
    YieldPossible(Charged(s));
    if Preempts(Charged(s)) then Yield(Charged(s)) else Charged(s)
  }

  /** Only states, priorities, lists and the current task decide the partition. */
  lemma PartitionFrame(s: Sys, s': Sys)
    requires Partition(s) && s'.lists == s.lists && s'.where == s.where && s'.cur == s.cur &&
             s'.info.Keys == s.info.Keys
    requires forall t | t in s.info :: s'.info[t].state == s.info[t].state && s'.info[t].prio == s.info[t].prio
    ensures Partition(s')
  {
    forall r, a | a in At(s'.lists, r) ensures Homed(s', r, a) {
      assert Homed(s, r, a);
    }
    forall r ensures Distinct(At(s'.lists, r)) {
      assert Distinct(At(s.lists, r));
    }
    forall a | a in s'.info ensures Placed(s', a) {
      assert Placed(s, a);
    }
  }
}
