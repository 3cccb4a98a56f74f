/**
  The scheduler of kernel/scheduler.c from kernel_init on. Task control blocks are known by their addresses
  (0 is NULL): info holds their scheduling fields, link their next and prev fields, which all lists share.
*/
module Scheduler {
  import opened BitWord
  import opened LinkedList
  import opened SchedMem
  import opened SchedModel
  import opened SchedRuns
  import opened TaskLinks

  datatype Error = None | Inval

  class Kernel {
    var info: map<nat, Info>
    var link: map<nat, Link>
    const runQueue: array<nat>
    var sleepQueue: nat
    var waitHead: map<nat, nat>
    var bitmap: bits
    var current: nat
    var tickCount: nat
    var switches: nat
    const idle: nat
    const mutexes: set<nat>
    ghost var lists: map<Place, seq<nat>>
    ghost var where: map<nat, nat>
    var clock: nat           // numbers the waits; nothing in the C code corresponds to it and no branch reads it

    ghost function View(): Sys
      reads this
    {
      Sys(info, lists, where, current, tickCount, clock, idle, mutexes)
    }

    ghost function Memory(): Mem
      reads this, runQueue
    {
      Mem(link, runQueue[..], sleepQueue, waitHead, bitmap)
    }

    /** The links spell out the lists and every task has links. */
    ghost predicate Spelled()
      reads this, runQueue
    {
      Spell(Memory(), lists) && forall t | t in info :: t in link
    }

    ghost predicate Valid()
      reads this, runQueue
    {
      Spelled() && Inv(View())
    }

    /** The kernel after kernel_init: task_create queued the idle task, which is also the current one. */
    constructor (idleTask: nat, mutexObjects: set<nat>)
      requires idleTask != 0
      ensures Valid() && View() == Initial(idleTask, mutexObjects) && fresh(runQueue)
    {
      info, link := map[], map[];
      runQueue := new nat[LEVELS](_ => 0);
      sleepQueue, waitHead, bitmap := 0, map[], ZERO;
      current, tickCount, switches, clock := idleTask, 0, 0, 1;
      idle, mutexes := idleTask, mutexObjects;
      lists, where := map[], map[];
      new;
      forall q ensures ListLinked(Memory(), lists, q) {
      }
      assert View() == Empty(idle, mutexes);
      AddTask(idle, 0);
      InitialIs(idle, mutexes);
      InitialInv(idle, mutexes);
    }

    /** kernel_start, and the first half of the first yield, which queues the idle task a second time. */
    method StartIdle()
      requires Spelled() && current in info && info[current].state.Ready? && info[current].prio == 0
      requires At(lists, Run(0)) == [current]
      modifies this`info, this`link, this`bitmap, runQueue
      ensures View() == old(View()) && Memory() == old(Memory())
    {
      ghost var m, s := Memory(), View();
      AloneAgain(m, lists, current);
      info := info[current := info[current].(state := Running)];
      info := info[current := info[current].(state := Ready)];
      Enqueue(current);
      assert info == s.info;
    }

    /** Queueing a task a second time changes nothing when it is alone in its queue. */
    static lemma AloneAgain(m: Mem, lists: map<Place, seq<nat>>, t: nat)
      requires Spell(m, lists) && At(lists, Run(0)) == [t]
      ensures t in m.link && m.rq[0] == t && m.link[t].prev == t && RqEnqueue(m, t, 0) == m
    {
      assert ListLinked(m, lists, Run(0));
      assert RingAt(m.link, [t], 0);
      assert Enqueued(m.link, t, t) == m.link;
    }

    /** From kernel_start to the end of the first yield, for an idle task that is alone in its queue. */
    method Boot()
      requires Valid() && current == idle && info[idle].state.Ready? && At(lists, Run(0)) == [idle]
      modifies this`info, this`link, this`bitmap, this`lists, this`current, this`switches, runQueue
      ensures CanYield(old(View())) && View() == SchedModel.Yield(old(View())) && Valid()
    {
      StartIdle();
      Yield();
    }

    /** rq_enqueue */
    method Enqueue(t: nat)
      requires t in info && info[t].prio < LEVELS == runQueue.Length
      requires var h := runQueue[info[t].prio]; h != 0 ==> h in link && link[h].prev in link
      modifies this`link, this`bitmap, runQueue
      ensures Memory() == RqEnqueue(old(Memory()), t, info[t].prio)
    {
      var p := info[t].prio;
      if runQueue[p] == 0 {
        link := link[t := Link(t, t)];
        runQueue[p] := t;
      } else {
        var h := runQueue[p];
        var tail := link[h].prev;
        link := link[tail := link[tail].(next := t)];
        link := link[t := Link(h, tail)];
        link := link[h := link[h].(prev := t)];
      }
      bitmap := Set(bitmap, p);
    }

    /** rq_remove */
    method Remove(t: nat)
      requires t in info && info[t].prio < LEVELS == runQueue.Length
      requires t in link && link[t].next in link && link[t].prev in link
      modifies this`link, this`bitmap, runQueue
      ensures Memory() == RqRemove(old(Memory()), t, info[t].prio)
    {
      var p := info[t].prio;
      if link[t].next == t {
        runQueue[p] := 0;
        bitmap := Clear(bitmap, p);
      } else {
        var nxt, prv := link[t].next, link[t].prev;
        link := link[prv := link[prv].(next := nxt)];
        link := link[nxt := link[nxt].(prev := prv)];
        if runQueue[p] == t {
          runQueue[p] := nxt;
        }
      }
      link := link[t := Link(0, 0)];
    }

    /** Task t, which is on no list, becomes ready. */
    method MakeReady(t: nat)
      requires Spelled() && Lists(View()) && t in info && t != 0 && info[t].prio < LEVELS &&
               forall q :: t !in At(lists, q)
      modifies this`info, this`link, this`bitmap, this`lists, runQueue
      ensures Spelled() && View() == SchedModel.Enqueue(old(View()), t)
    {
      ghost var s, m := View(), Memory();
      RqEnqueueLinked(m, s, t, info[t].prio);
      info := info[t := info[t].(state := Ready)];
      Enqueue(t);
      lists := lists[Run(info[t].prio) := Insert(At(lists, Run(info[t].prio)), |At(lists, Run(info[t].prio))|, t)];
      LinksGrow(m.link, link, t, m.rq[info[t].prio]);
    }

    static lemma LinksGrow(l: map<nat, Link>, l': map<nat, Link>, t: nat, head: nat)
      requires head != 0 ==> head in l && l[head].prev in l
      requires l' == Enqueued(l, t, head)
      ensures l.Keys <= l'.Keys && t in l'
    {
    }

    /** A current task that is still running goes back to the ready tasks. */
    method Requeue()
      requires Spelled() && Partition(View())
      modifies this`info, this`link, this`bitmap, this`lists, runQueue
      ensures Spelled() && View() == Requeued(old(View()))
    {
      if info[current].state.Running? {
        SingleOut(View(), current);
        MakeReady(current);
      }
    }

    /** The head of the highest ready queue becomes current. */
    method Dispatch()
      requires Spelled() && Lists(View()) && Top(lists, LEVELS) >= 0
      requires Homed(View(), Run(Top(lists, LEVELS)), At(lists, Run(Top(lists, LEVELS)))[0])
      modifies this`info, this`link, this`bitmap, this`lists, this`current, this`switches, runQueue
      ensures Spelled() && View() == SchedModel.Dispatch(old(View()))
    {
      HighestIsTop(bitmap, lists);
      var next;
      if IsZero(bitmap) {
        next := idle;
      } else {
        var p := Highest(bitmap);
        next := runQueue[p];
        TakeHead(p);
      }
      info := info[next := info[next].(state := Running, slice := SLICE)];
      if next != current {
        current := next;
        switches := switches + 1;
      }
    }

    /** sched_yield_from_isr */
    method Yield()
      requires Spelled() && Core(View())
      modifies this`info, this`link, this`bitmap, this`lists, this`current, this`switches, runQueue
      ensures CanYield(old(View())) && View() == SchedModel.Yield(old(View())) && Valid()
    {
      ghost var s := View();
      YieldReady(s);
      Requeue();
      Dispatch();
      YieldDone(s);
    }

    static lemma YieldReady(s: Sys)
      requires Core(s)
      ensures CanYield(s) && Lists(Requeued(s))
      ensures var s1 := Requeued(s); Homed(s1, Run(Top(s1.lists, LEVELS)), At(s1.lists, Run(Top(s1.lists, LEVELS)))[0])
    {
      YieldPartition(s);
      RequeuedPartition(s);
      var s1 := Requeued(s);
      assert Homed(s1, Run(Top(s1.lists, LEVELS)), At(s1.lists, Run(Top(s1.lists, LEVELS)))[0]);
    }

    static lemma YieldDone(s: Sys)
      requires Core(s)
      ensures CanYield(s) && Inv(SchedModel.Yield(s))
    {
      YieldInv(s);
      YieldPicksHighest(s);
    }

    /** The head of ready queue p leaves it. */
    method TakeHead(p: nat)
      requires Spelled() && Lists(View()) && p < LEVELS && At(lists, Run(p)) != []
      requires Homed(View(), Run(p), At(lists, Run(p))[0])
      modifies this`link, this`bitmap, this`lists, runQueue
      ensures Spelled() && View() == Left(old(View()), Run(p), 0) && old(runQueue[p]) == old(At(lists, Run(p)))[0]
    {
      ghost var s, m := View(), Memory();
      RqRemoveLinked(m, s, p, 0);
      assert ListLinked(m, lists, Run(p));
      Remove(runQueue[p]);
      lists := lists[Run(p) := Without(At(lists, Run(p)), 0)];
    }

    // ---------- waiting ----------

    /** The walk stopped where Pos says. */
    static lemma PosIs(s: Sys, q: Place, t: nat, j: nat, k: nat)
      requires j <= k <= |At(s.lists, q)| && t in s.info && forall x | x in At(s.lists, q) :: x in s.info
      requires forall i | j <= i < k :: Passes(s, q, At(s.lists, q)[i], t)
      requires k < |At(s.lists, q)| ==> !Passes(s, q, At(s.lists, q)[k], t)
      ensures Pos(s, q, t, j) == k
      decreases k - j
    {
      if j < k {
        PosIs(s, q, t, j + 1, k);
      }
    }

    /** What a walk along list q knows: it is at entry k, behind entry before. */
    ghost predicate WalkAt(q: Place, t: nat, k: nat, before: nat, at: nat)
      requires t in info && forall x | x in At(lists, q) :: x in info
      reads this
    {
      && k <= |At(lists, q)| && before == Prev(At(lists, q), k) &&
         at == (if k < |At(lists, q)| then At(lists, q)[k] else 0)
      && forall j | 0 <= j < k :: Passes(View(), q, At(lists, q)[j], t)
    }

    /** The walk of sleep_enqueue: past everyone who wakes no later than t. */
    method SleepWalk(t: nat) returns (before: nat, at: nat, ghost k: nat)
      requires Spelled() && t in info && forall x | x in At(lists, Sleep) :: x in info
      ensures WalkAt(Sleep, t, k, before, at) && k == Pos(View(), Sleep, t, 0)
    {
      ghost var m, list := Memory(), At(lists, Sleep);
      HeadIs(m, lists, Sleep);
      before, at, k := 0, sleepQueue, 0;
      while at != 0 && info[at].wake <= info[t].wake
        invariant WalkAt(Sleep, t, k, before, at) && (at == 0 <==> k == |list|)
        decreases |list| - k
      {
        Further(m, lists, Sleep, k);
        before, at, k := at, link[at].next, k + 1;
      }
      PosIs(View(), Sleep, t, 0, k);
    }

    /** The walk of k_mutex_lock: past every waiter of at least the priority of t. */
    method PriorityWalk(o: nat, t: nat) returns (before: nat, at: nat, ghost k: nat)
      requires Spelled() && t in info && o in mutexes && forall x | x in At(lists, Wait(o)) :: x in info
      ensures WalkAt(Wait(o), t, k, before, at) && k == Pos(View(), Wait(o), t, 0)
    {
      ghost var m, list := Memory(), At(lists, Wait(o));
      HeadIs(m, lists, Wait(o));
      before, at, k := 0, if o in waitHead then waitHead[o] else 0, 0;
      while at != 0 && info[at].prio >= info[t].prio
        invariant WalkAt(Wait(o), t, k, before, at) && (at == 0 <==> k == |list|)
        decreases |list| - k
      {
        Further(m, lists, Wait(o), k);
        before, at, k := at, link[at].next, k + 1;
      }
      PosIs(View(), Wait(o), t, 0, k);
    }

    /** The walk of k_sem_take: to the end. */
    method FifoWalk(o: nat, t: nat) returns (before: nat, at: nat, ghost k: nat)
      requires Spelled() && t in info && o !in mutexes && forall x | x in At(lists, Wait(o)) :: x in info
      ensures WalkAt(Wait(o), t, k, before, at) && k == Pos(View(), Wait(o), t, 0) == |At(lists, Wait(o))| && at == 0
    {
      ghost var m, list := Memory(), At(lists, Wait(o));
      HeadIs(m, lists, Wait(o));
      before, at, k := 0, if o in waitHead then waitHead[o] else 0, 0;
      while at != 0
        invariant WalkAt(Wait(o), t, k, before, at) && (at == 0 <==> k == |list|)
        decreases |list| - k
      {
        Further(m, lists, Wait(o), k);
        before, at, k := at, link[at].next, k + 1;
      }
      PosIs(View(), Wait(o), t, 0, k);
    }

    static lemma Further(m: Mem, lists: map<Place, seq<nat>>, q: Place, k: nat)
      requires Spell(m, lists) && !q.Run? && k < |At(lists, q)|
      ensures var list := At(lists, q);
        && list[k] in m.link && list[k] != 0 && m.link[list[k]].next == (if k + 1 < |list| then list[k + 1] else 0)
        && (k + 1 < |list| ==> list[k + 1] != 0)
    {
      EntryOfList(m, lists, q, k);
      if k + 1 < |At(lists, q)| {
        EntryOfList(m, lists, q, k + 1);
      }
    }

    /** Task t is linked in where the walk along list q stopped. s is the state before the fields of t changed. */
    method LinkIn(q: Place, t: nat, before: nat, at: nat, ghost k: nat, ghost s: Sys)
      requires Spelled() && s.lists == lists && Lists(s) && !q.Run? && t in link && t != 0 &&
               forall r :: t !in At(lists, r)
      requires k <= |At(lists, q)| && before == Prev(At(lists, q), k) &&
               at == (if k < |At(lists, q)| then At(lists, q)[k] else 0)
      modifies this`link, this`sleepQueue, this`waitHead, this`lists
      ensures Spelled() && View() == Entered(old(View()), q, k, t)
    {
      ghost var m := Memory();
      PutInLinked(m, s, q, k, t);
      HeadPrev(m, lists, q, k);
      link := link[t := link[t].(next := at)];
      if before != 0 {
        link := link[before := link[before].(next := t)];
      } else if q.Sleep? {
        sleepQueue := t;
      } else {
        waitHead := waitHead[q.obj := t];
      }
      lists := lists[q := Insert(At(lists, q), k, t)];
    }

    static lemma HeadPrev(m: Mem, lists: map<Place, seq<nat>>, q: Place, k: nat)
      requires Spell(m, lists) && !q.Run? && k <= |At(lists, q)|
      ensures Prev(At(lists, q), k) == 0 <==> k == 0
    {
      if k > 0 {
        EntryOfList(m, lists, q, k - 1);
      }
    }

    /** task_sleep_ticks up to its yield, for n > 0. */
    method SleepStart(n: nat)
      requires Valid() && Enabled(View(), SleepStep(n))
      modifies this`info, this`link, this`sleepQueue, this`waitHead, this`lists, this`clock
      ensures Valid() && View() == SchedRuns.Next(old(View()), SleepStep(n))
    {
      ghost var s := View();
      WaitReady(s, Sleep);
      SleepMasked(n);
      StepInv(s, SleepStep(n));
    }

    method SleepMasked(n: nat)
      requires Spelled() && Lists(View()) && current in info && current != 0 && forall r :: current !in At(lists, r)
      requires forall x | x in At(lists, Sleep) :: x in info
      modifies this`info, this`link, this`sleepQueue, this`waitHead, this`lists, this`clock
      ensures Spelled() && View() == SchedModel.SleepStart(old(View()), n)
    {
      ghost var s := View();
      info := info[current := info[current].(state := Sleeping, wake := tickCount + n, stamp := clock)];
      clock := clock + 1;
      var before, at;
      ghost var k;
      before, at, k := SleepWalk(current);
      LinkIn(Sleep, current, before, at, k, s);
    }

    static lemma WaitReady(s: Sys, q: Place)
      requires Partition(s) && s.info[s.cur].state.Running?
      ensures s.cur != 0 && (forall x | x in At(s.lists, q) :: x in s.info) && forall r :: s.cur !in At(s.lists, r)
    {
      ListedIn(s, q);
      Nowhere(s, s.cur);
    }

    /** The masked block of k_mutex_lock (o a mutex) and of k_sem_take. */
    method BlockStart(o: nat)
      requires Valid() && Enabled(View(), BlockStep(o))
      modifies this`info, this`link, this`sleepQueue, this`waitHead, this`lists, this`where, this`clock
      ensures Valid() && View() == SchedRuns.Next(old(View()), BlockStep(o))
    {
      ghost var s := View();
      WaitReady(s, Wait(o));
      BlockMasked(o);
      StepInv(s, BlockStep(o));
    }

    method BlockMasked(o: nat)
      requires Spelled() && Lists(View()) && current in info && current != 0 && forall r :: current !in At(lists, r)
      requires forall x | x in At(lists, Wait(o)) :: x in info
      modifies this`info, this`link, this`sleepQueue, this`waitHead, this`lists, this`where, this`clock
      ensures Spelled() && View() == SchedModel.BlockStart(old(View()), o)
    {
      ghost var s := View();
      info := info[current := info[current].(state := Blocked, stamp := clock)];
      where := where[current := o];
      clock := clock + 1;
      var before, at;
      ghost var k;
      before, at, k := WaitWalk(o, current);
      LinkIn(Wait(o), current, before, at, k, s);
    }

    /** The walk of the blocking call, which depends on what o is. */
    method WaitWalk(o: nat, t: nat) returns (before: nat, at: nat, ghost k: nat)
      requires Spelled() && t in info && forall x | x in At(lists, Wait(o)) :: x in info
      ensures WalkAt(Wait(o), t, k, before, at) && k == Pos(View(), Wait(o), t, 0)
    {
      if o in mutexes {
        before, at, k := PriorityWalk(o, t);
      } else {
        before, at, k := FifoWalk(o, t);
      }
    }

    // ---------- waking ----------

    /** The head of a waiting list leaves it and becomes ready; rest is what it linked to. */
    method ReleaseHead(q: Place, t: nat)
      requires Spelled() && Partition(View()) && !q.Run? && At(lists, q) != [] && t == HeadOf(Memory(), q)
      modifies this`info, this`link, this`bitmap, this`sleepQueue, this`waitHead, this`lists, runQueue
      ensures old(At(lists, q)[0] in info) && Spelled() && View() == Released(old(View()), q)
    {
      ghost var s, m := View(), Memory();
      HeadIs(m, lists, q);
      EntryOfList(m, lists, q, 0);
      PoppedLinked(m, s, q, if q.Sleep? then m.link[t].(next := 0) else m.link[t]);
      LeftReady(s, q);
      var nxt := link[t].next;
      if q.Sleep? {
        link := link[t := link[t].(next := 0)];
        sleepQueue := nxt;
      } else {
        waitHead := waitHead[q.obj := nxt];
        link := link[t := link[t]];
      }
      lists := lists[q := Without(At(lists, q), 0)];
      MakeReady(t);
    }

    static lemma LeftReady(s: Sys, q: Place)
      requires Partition(s) && At(s.lists, q) != [] && !q.Run?
      ensures var t, s1 := At(s.lists, q)[0], Left(s, q, 0);
        && t in s.info && t != 0 && s.info[t].prio < LEVELS && Lists(s1) && forall r :: t !in At(s1.lists, r)
    {
      var t := At(s.lists, q)[0];
      assert Homed(s, q, t);
      LeftPartition(s, q, 0, s.info[t]);
      assert s.info[t := s.info[t]] == s.info;
    }

    /** The wake-up of k_mutex_unlock and k_sem_give: the first waiter of o, if any. */
    method WakeFirst(o: nat)
      requires Valid() && Enabled(View(), WakeStep(o))
      modifies this`info, this`link, this`bitmap, this`sleepQueue, this`waitHead, this`lists, runQueue
      ensures Valid() && View() == SchedRuns.Next(old(View()), WakeStep(o))
    {
      StepInv(View(), WakeStep(o));
      HeadIs(Memory(), lists, Wait(o));
      if o in waitHead && waitHead[o] != 0 {
        ReleaseHead(Wait(o), waitHead[o]);
      }
    }

    /** The wake-up loop of sched_tick_isr. */
    method WakeDue()
      requires Spelled() && Partition(View())
      modifies this`info, this`link, this`bitmap, this`sleepQueue, this`waitHead, this`lists, runQueue
      ensures Spelled() && View() == WakeSleepers(old(View()))
    {
      ghost var s := View();
      HeadIs(Memory(), lists, Sleep);
      SleepersIn(View());
      while sleepQueue != 0 && info[sleepQueue].wake <= tickCount
        invariant Spelled() && Partition(View()) && WakeSleepers(View()) == WakeSleepers(s)
        invariant sleepQueue == Head(At(lists, Sleep)) && (sleepQueue == 0 <==> At(lists, Sleep) == [])
        invariant sleepQueue != 0 ==> sleepQueue in info
        invariant tickCount == s.now
        decreases |At(lists, Sleep)|
      {
        ReleasedPartition(View(), Sleep);
        ReleasedFacts(View(), Sleep);
        ReleaseHead(Sleep, sleepQueue);
        HeadIs(Memory(), lists, Sleep);
        SleepersIn(View());
      }
    }

    static lemma SleepersIn(s: Sys)
      requires Partition(s)
      ensures At(s.lists, Sleep) != [] ==> At(s.lists, Sleep)[0] in s.info
    {
      ListedIn(s, Sleep);
    }

    // ---------- ticks and tasks ----------

    /** sched_tick_isr up to its decision to yield. */
    method Charge()
      requires Spelled() && Partition(View())
      modifies this`info, this`link, this`bitmap, this`sleepQueue, this`waitHead, this`lists, this`tickCount, runQueue
      ensures Spelled() && View() == Charged(old(View()))
    {
      ghost var s := View();
      TickReady(s);
      tickCount := tickCount + 1;
      WakeDue();
      Spend();
    }

    /** The slice of the current task runs down. */
    method Spend()
      requires Spelled() && current in info
      modifies this`info
      ensures Spelled() && View() == Spent(old(View()))
    {
      if info[current].slice > 0 {
        info := info[current := info[current].(slice := info[current].slice - 1)];
      } else {
        assert info == info[current := info[current].(slice := 0)];
      }
    }

    /** sched_tick_isr, without its timers (module Timers). */
    method Tick()
      requires Valid()
      modifies this`info, this`link, this`bitmap, this`sleepQueue, this`waitHead, this`lists, this`current,
               this`switches, this`tickCount, runQueue
      ensures Valid() && View() == SchedRuns.Next(old(View()), TickStep)
    {
      ghost var s := View();
      ChargedCore(s);
      StepInv(s, TickStep);
      Charge();
      HighestIsTop(bitmap, lists);
      var preempt := info[current].slice == 0;
      if !preempt && !IsZero(bitmap) {
        preempt := Highest(bitmap) > info[current].prio;
      }
      if preempt {
        Yield();
      }
    }

    static lemma TickReady(s: Sys)
      requires Partition(s)
      ensures Partition(s.(now := s.now + 1))
      ensures var w := WakeSleepers(s.(now := s.now + 1));
        && w.cur in w.info && w.cur == s.cur
        && (w.info[w.cur].slice == 0 ==> Spent(w) == w)
    {
      PartitionFrame(s, s.(now := s.now + 1));
      WokenPartition(s.(now := s.now + 1));
      var w := WakeSleepers(s.(now := s.now + 1));
      assert w.info[w.cur].slice == 0 ==> w.info[w.cur := w.info[w.cur].(slice := 0)] == w.info;
    }

    /** task_create: argsOk says that the pointers and the stack size are acceptable; t may have been a dead task's. */
    method TaskCreate(t: nat, prio: nat, argsOk: bool) returns (e: Error)
      requires Valid() && (t != 0 && argsOk && prio < LEVELS ==> Unused(View(), t))
      modifies this`info, this`link, this`bitmap, this`lists, runQueue
      ensures Valid()
      ensures e == Inval <==> t == 0 || !argsOk || prio >= 8
      ensures e == Inval ==> View() == old(View()) && Memory() == old(Memory())
      ensures e == None ==> View() == SchedRuns.Next(old(View()), CreateStep(t, prio))
    {
      if t == 0 || !argsOk || prio >= LEVELS {
        return Inval;
      }
      StepInv(View(), CreateStep(t, prio));
      AddTask(t, prio);
      return None;
    }

    method AddTask(t: nat, prio: nat)
      requires Spelled() && Lists(View()) && Unused(View(), t) && t != 0 && prio < LEVELS
      modifies this`info, this`link, this`bitmap, this`lists, runQueue
      ensures Spelled() && View() == Create(old(View()), t, prio)
    {
      ghost var s, m := View(), Memory();
      UnusedNowhere(s, t);
      RqEnqueueLinked(m, s, t, prio);
      info := info[t := Info(Ready, prio, 0, SLICE, 0)];
      Enqueue(t);
      LinksGrow(m.link, link, t, m.rq[prio]);
      lists := lists[Run(prio) := Insert(At(lists, Run(prio)), |At(lists, Run(prio))|, t)];
    }

    /** task_exit_hook up to its yield. */
    method ExitStart()
      requires Valid() && Enabled(View(), ExitStep)
      modifies this`info
      ensures Valid() && View() == SchedRuns.Next(old(View()), ExitStep)
    {
      StepInv(View(), ExitStep);
      info := info[current := info[current].(state := Dead)];
    }

    /** task_sleep_ticks with no tick between its two halves. */
    method TaskSleep(n: nat)
      requires Valid() && (n > 0 ==> Enabled(View(), SleepStep(n)))
      modifies this, runQueue
      ensures Valid()
      ensures n == 0 ==> View() == SchedRuns.Next(old(View()), YieldStep)
      ensures n > 0 ==>
        && Inv(SchedRuns.Next(old(View()), SleepStep(n)))
        && View() == SchedRuns.Next(SchedRuns.Next(old(View()), SleepStep(n)), YieldStep)
    {
      if n > 0 {
        SleepStart(n);
      }
      Yield();
    }
  }
}
