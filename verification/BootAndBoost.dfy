/**
  Two places where kernel/scheduler.c does not keep every task in its place: the priority boost of a mutex owner, and
  the idle task at boot.
*/
module BootAndBoost {
  import opened LinkedList
  import M = Mutex
  import opened SchedMem
  import opened SchedModel
  import opened SchedRuns
  import opened TaskLinks

  // ---------- the boost of k_mutex_lock ----------

  /** k_mutex_lock raises the priority of the owner t to p and leaves it where it is. */
  function Boosted(s: Sys, t: nat, p: nat): Sys
    requires t in s.info
  {
    s.(info := s.info[t := s.info[t].(prio := p)])
  }

  /** The boost keeps every task in its place exactly when the owner is not ready. */
  lemma BoostKeepsPartitionIff(s: Sys, t: nat, p: nat)
    requires Partition(s) && t in s.info && s.info[t].prio < p < LEVELS
    ensures Partition(Boosted(s, t, p)) <==> !s.info[t].state.Ready?
  {
    var s' := Boosted(s, t, p);
    assert Placed(s, t);
    if s.info[t].state.Ready? {
      assert !Homed(s', Run(s.info[t].prio), t);
    } else {
      forall q, a | a in At(s'.lists, q) ensures Homed(s', q, a) {
        assert Homed(s, q, a);
      }
      forall q ensures Distinct(At(s'.lists, q)) {
        assert Distinct(At(s.lists, q));
      }
      forall a | a in s'.info ensures Placed(s', a) {
        assert Placed(s, a);
      }
    }
  }

  /** On the mutex that t waits for, a task in front of t does not go before priority p. */
  predicate OutOfTurn(s: Sys, t: nat, p: nat)
    requires t in s.info
  {
    && s.info[t].state.Blocked? && t in s.where && s.where[t] in s.mutexes
    && var list := At(s.lists, Wait(s.where[t]));
       exists i, j | 0 <= i < j < |list| :: list[j] == t && list[i] in s.info &&
         (s.info[list[i]].prio < p || (s.info[list[i]].prio == p && s.info[list[i]].stamp >= s.info[t].stamp))
  }

  /**
    The boost keeps every task in its place and every waiting list in order exactly when the owner is not ready and
    does not wait for a mutex itself behind a task that it now goes before.
  */
  lemma BoostKeepsOrderIff(s: Sys, t: nat, p: nat)
    requires Partition(s) && Ordered(s) && t in s.info && s.info[t].prio < p < LEVELS
    ensures Partition(Boosted(s, t, p)) && Ordered(Boosted(s, t, p)) <==>
            !s.info[t].state.Ready? && !OutOfTurn(s, t, p)
  {
    BoostKeepsPartitionIff(s, t, p);
    if OutOfTurn(s, t, p) {
      BoostBreaksOrder(s, t, p);
    } else if !s.info[t].state.Ready? {
      forall q ensures Sorted(Boosted(s, t, p), q, At(s.lists, q)) {
        BoostKeepsSorted(s, t, p, q);
      }
    }
  }

  lemma BoostBreaksOrder(s: Sys, t: nat, p: nat)
    requires t in s.info && OutOfTurn(s, t, p)
    ensures !Ordered(Boosted(s, t, p))
  {
    var s', q := Boosted(s, t, p), Wait(s.where[t]);
    var list := At(s'.lists, q);
    var i, j :| 0 <= i < j < |list| && list[j] == t && list[i] in s.info &&
      (s.info[list[i]].prio < p || (s.info[list[i]].prio == p && s.info[list[i]].stamp >= s.info[t].stamp));
    assert !Earlier(s', q, list[i], list[j]);
    assert !Sorted(s', q, list);
  }

  lemma BoostKeepsSorted(s: Sys, t: nat, p: nat, q: Place)
    requires Partition(s) && Ordered(s) && t in s.info && s.info[t].prio < p && !OutOfTurn(s, t, p)
    ensures Sorted(Boosted(s, t, p), q, At(s.lists, q))
  {
    var s', list := Boosted(s, t, p), At(s.lists, q);
    assert Sorted(s, q, list);
    forall i, j | 0 <= i < j < |list| ensures Earlier(s', q, list[i], list[j]) {
      assert Earlier(s, q, list[i], list[j]);
      assert Homed(s, q, list[j]);
      assert list[j] == t && q.Wait? && q.obj in s.mutexes ==> list[i] != t by {
        assert Distinct(At(s.lists, q));
      }
    }
  }

  /**
    When the boosted task at the head of queue p is dispatched, rq_remove edits the queue of its raised priority r. Some
    lists fit the memory then exactly when the priority was not raised.
  */
  lemma BoostMisremovesIff(m: Mem, s: Sys, p: nat, r: nat)
    requires Spell(m, s.lists) && Lists(s) && p < LEVELS && r < LEVELS && At(s.lists, Run(p)) != []
    ensures var t := At(s.lists, Run(p))[0]; t in m.link && m.link[t].next in m.link && m.link[t].prev in m.link
    ensures (exists ls :: Spell(RqRemove(m, At(s.lists, Run(p))[0], r), ls)) <==> r == p
  {
    var list := At(s.lists, Run(p));
    assert ListLinked(m, s.lists, Run(p));
    RingNeighbours(m.link, m.rq[p], list, 0);
    var m' := RqRemove(m, list[0], r);
    if r == p {
      RqRemoveLinked(m, s, p, 0);
    } else {
      forall ls ensures !Spell(m', ls) {
        if Spell(m', ls) {
          StillHead(m', ls, p, list[0]);
          assert false;
        }
      }
    }
  }

  /** The head of a queue has links. */
  lemma StillHead(m: Mem, ls: map<Place, seq<nat>>, p: nat, t: nat)
    requires Spell(m, ls) && p < LEVELS && m.rq[p] == t && t != 0
    ensures t in m.link && m.link[t] != Link(0, 0)
  {
    assert ListLinked(m, ls, Run(p));
    RingTail(m.link, t, At(ls, Run(p)));
    assert RingAt(m.link, At(ls, Run(p)), |At(ls, Run(p))| - 1);
  }

  /** Boosting by way of remove, boost and enqueue keeps every task in its place. */
  lemma BoostByRequeue(s: Sys, t: nat, k: nat, p: nat)
    requires Partition(s) && t in s.info && s.info[t].state.Ready? && p < LEVELS
    requires k < |At(s.lists, Run(s.info[t].prio))| && At(s.lists, Run(s.info[t].prio))[k] == t
    ensures Partition(Enqueue(Boosted(Left(s, Run(s.info[t].prio), k), t, p), t))
  {
    LeftPartition(s, Run(s.info[t].prio), k, s.info[t].(prio := p));
    EnqueuePartition(Boosted(Left(s, Run(s.info[t].prio), k), t, p), t);
  }

  /** k_mutex_unlock gives the running task its own priority back: everything stays in place and in order. */
  lemma RestoreKeepsInv(s: Sys, p: nat)
    requires Inv(s) && s.info[s.cur].state.Running? && p < LEVELS && (s.cur == s.idle ==> p == 0)
    ensures Inv(Boosted(s, s.cur, p))
  {
    var t, s' := s.cur, Boosted(s, s.cur, p);
    SingleOut(s, t);
    ChangedPartition(s, t, s.info[t].(prio := p));
    assert Placed(s', t);
    Nowhere(s, t);
    forall q ensures 0 !in At(s'.lists, q) {
      assert !Homed(s', q, 0);
    }
    forall q ensures Sorted(s', q, At(s'.lists, q)) {
      assert Sorted(s, q, At(s.lists, q));
      SortedFrame(s, s', q, At(s.lists, q));
    }
  }

  // ---------- whom k_mutex_lock boosts ----------

  /** The current task's swap failed and the owner has a lower priority: the code raises it. */
  predicate Boosts(m: M.Mutex) {
    && m.sys.cur in m.sys.info && m.lock.owner in m.sys.info && M.PhaseOf(m.lock, m.sys.cur).Failed?
    && m.lock.owner != 0 && m.sys.info[m.lock.owner].prio < m.sys.info[m.sys.cur].prio
  }

  /** The boost that the code makes keeps places and orders exactly when the owner is neither ready nor out of turn. */
  lemma OwnerBoostIff(m: M.Mutex)
    requires M.MutexInv(m) && Boosts(m)
    ensures var s, t, p := m.sys, m.lock.owner, m.sys.info[m.sys.cur].prio;
      t != s.cur && (Partition(Boosted(s, t, p)) && Ordered(Boosted(s, t, p)) <==>
                     !s.info[t].state.Ready? && !OutOfTurn(s, t, p))
  {
    assert M.PhaseOf(m.lock, m.lock.owner).Holder?;
    BoostKeepsOrderIff(m.sys, m.lock.owner, m.sys.info[m.sys.cur].prio);
  }

  /** Task t is ready, alone in its queue, and every other task has a lower priority. */
  predicate Leads(s: Sys, t: nat) {
    && t in s.info && s.info[t].state.Ready? && At(s.lists, Run(s.info[t].prio)) == [t]
    && forall x | x in s.info && x != t :: s.info[x].prio < s.info[t].prio
  }

  lemma RequeuedLeads(s: Sys, t: nat)
    requires Partition(s) && Leads(s, t) && s.cur != t
    ensures Leads(Requeued(s), t)
  {
    RequeuedPartition(s);
  }

  lemma PriosListed(s: Sys)
    requires Lists(s)
    ensures forall p, a {:trigger a in At(s.lists, Run(p))} | a in At(s.lists, Run(p)) ::
      a in s.info && s.info[a].prio == p
  {
    forall p, a | a in At(s.lists, Run(p)) ensures a in s.info && s.info[a].prio == p {
      assert Homed(s, Run(p), a);
    }
  }

  lemma LeaderOnTop(s: Sys, t: nat)
    requires Partition(s) && Leads(s, t)
    ensures Top(s.lists, LEVELS) == s.info[t].prio
  {
    PriosListed(s);
    var top := Top(s.lists, LEVELS);
    assert Placed(s, t);
    TopAtLeast(s.lists, LEVELS, s.info[t].prio);
    assert At(s.lists, Run(top))[0] in At(s.lists, Run(top));
  }

  /** The next yield gives t the CPU; a task that was running is ready then. */
  lemma LeaderRuns(s: Sys, t: nat)
    requires Core(s) && Leads(s, t) && s.cur != t
    ensures CanYield(s) && Yield(s).cur == t && Yield(s).info.Keys == s.info.Keys && Yield(s).info[t].state.Running?
    ensures forall x | x in s.info :: Yield(s).info[x].prio == s.info[x].prio
    ensures s.info[s.cur].state.Running? ==> Yield(s).info[s.cur].state.Ready?
  {
    YieldPossible(s);
    RequeuedPartition(s);
    RequeuedLeads(s, t);
    LeaderOnTop(Requeued(s), t);
  }

  lemma CreatedLeads(s: Sys, t: nat, p: nat)
    requires Partition(s) && t !in s.info && forall x | x in s.info :: s.info[x].prio < p
    ensures Leads(Create(s, t, p), t)
  {
    PriosListed(s);
    EmptyOrMember(At(s.lists, Run(p)));
  }

  lemma EmptyOrMember(list: seq<nat>)
    ensures list == [] || exists a :: a in list
  {
    if list != [] {
      assert list[0] in list;
    }
  }

  /** A new task of higher priority than every other one has the CPU after the next yield. */
  lemma CreatedRuns(s: Sys, t: nat, p: nat) returns (c: Sys, b: Sys)
    requires Inv(s) && t !in s.info && t != 0 && p < LEVELS && forall x | x in s.info :: s.info[x].prio < p
    ensures Inv(c) && c == SchedRuns.Next(s, CreateStep(t, p)) && b == SchedRuns.Next(c, YieldStep) && c.cur == s.cur
    ensures b.cur == t && b.info.Keys == s.info.Keys + {t} && b.info[t].state.Running? && b.info[t].prio == p
    ensures forall x | x in s.info :: b.info[x].prio == s.info[x].prio
    ensures s.info[s.cur].state.Running? ==> b.info[s.cur].state.Ready?
  {
    c := Create(s, t, p);
    StepInv(s, CreateStep(t, p));
    CreatedLeads(s, t, p);
    LeaderRuns(c, t);
    b := Yield(c);
  }

  /** A new task of higher priority takes the CPU. */
  lemma Preempted(m: M.Mutex, t: nat, p: nat) returns (m2: M.Mutex)
    requires M.Reached(m) && t !in m.sys.info && t != 0 && p < LEVELS && m.sys.cur in m.sys.info
    requires forall x | x in m.sys.info :: m.sys.info[x].prio < p
    requires M.PhaseOf(m.lock, m.sys.cur).Outside? || M.PhaseOf(m.lock, m.sys.cur).Holder?
    ensures M.Reached(m2) && m2.lock == m.lock && m2.sys.cur == t && m2.sys.info.Keys == m.sys.info.Keys + {t}
    ensures m2.sys.info[t].state.Running? && m2.sys.info[t].prio == p
    ensures forall x | x in m.sys.info :: m2.sys.info[x].prio == m.sys.info[x].prio
    ensures m.sys.info[m.sys.cur].state.Running? ==> m2.sys.info[m.sys.cur].state.Ready?
  {
    M.ReachedInv(m);
    var c, b := CreatedRuns(m.sys, t, p);
    var m1 := M.MutexNext(m, M.Other(CreateStep(t, p)));
    M.ReachedStep(m, M.Other(CreateStep(t, p)), m1);
    M.ReachedInv(m1);
    m2 := M.MutexNext(m1, M.Other(YieldStep));
    M.ReachedStep(m1, M.Other(YieldStep), m2);
  }

  /** The running task tries for the lock. */
  lemma Tried(m: M.Mutex, t: nat) returns (m1: M.Mutex)
    requires M.Reached(m) && t == m.sys.cur && t != 0 && t in m.sys.info && m.sys.info[t].state.Running?
    requires M.PhaseOf(m.lock, t).Outside?
    ensures M.Reached(m1) && m1.sys == m.sys && m1.lock == M.LockNext(m.lock, M.Swap(t))
  {
    M.ReachedInv(m);
    m1 := M.MutexNext(m, M.By(M.Swap(t)));
    M.ReachedStep(m, M.By(M.Swap(t)), m1);
  }

  /** The running task writes itself into the lock it took. */
  lemma Owned(m: M.Mutex, t: nat) returns (m1: M.Mutex)
    requires M.Reached(m) && t == m.sys.cur && t != 0 && t in m.sys.info && m.sys.info[t].state.Running?
    requires M.PhaseOf(m.lock, t).Acquired?
    ensures M.Reached(m1) && m1.sys == m.sys && m1.lock == M.LockNext(m.lock, M.WriteOwner(t))
  {
    M.ReachedInv(m);
    m1 := M.MutexNext(m, M.By(M.WriteOwner(t)));
    M.ReachedStep(m, M.By(M.WriteOwner(t)), m1);
  }

  /** After kernel_init with idle task 1 and k_mutex_init of mutex 9. */
  lemma FirstState() returns (m: M.Mutex)
    ensures M.Reached(m) && m.lock == M.FREE && m.sys.cur == 1 && m.sys.info.Keys == {1} && m.sys.info[1].prio == 0
  {
    InitialInv(1, {9});
    m := M.Mutex(Initial(1, {9}), 9, M.FREE);
    var ms, ss: seq<M.MutexStep> := [m], [];
    assert M.IsMutexRun(ms, ss) && ms[|ss|] == m;
  }

  lemma FreeForTwo() returns (m: M.Mutex)
    ensures M.Reached(m) && m.lock == M.FREE && m.sys.cur == 2 && m.sys.info.Keys == {1, 2}
    ensures m.sys.info[2].state.Running? && m.sys.info[1].prio == 0 && m.sys.info[2].prio == 1
  {
    m := FirstState();
    m := Preempted(m, 2, 1);
  }

  /** Task 2, of priority 1, holds the mutex. */
  lemma HeldByTwo() returns (m: M.Mutex)
    ensures M.Reached(m) && m.lock.locked && m.lock.owner == 2 && M.PhaseOf(m.lock, 2).Holder?
    ensures M.PhaseOf(m.lock, 3).Outside?
    ensures m.sys.cur == 2 && m.sys.info.Keys == {1, 2} && m.sys.info[2].state.Running?
    ensures m.sys.info[1].prio == 0 && m.sys.info[2].prio == 1
  {
    m := FreeForTwo();
    m := Tried(m, 2);
    m := Owned(m, 2);
  }

  lemma ReadyBoostBreaks(m: M.Mutex)
    requires M.Reached(m) && Boosts(m) && m.sys.info[m.lock.owner].state.Ready?
    ensures !Partition(Boosted(m.sys, m.lock.owner, m.sys.info[m.sys.cur].prio))
  {
    M.ReachedInv(m);
    assert Placed(m.sys, m.sys.cur);
    BoostKeepsPartitionIff(m.sys, m.lock.owner, m.sys.info[m.sys.cur].prio);
  }

  /** A boost that breaks the queues is reached: the holder is preempted by a task that then tries for the mutex. */
  lemma ReadyOwnerBoosted()
    ensures exists m ::
      M.Reached(m) && Boosts(m) && m.sys.info[m.lock.owner].state.Ready? &&
      !Partition(Boosted(m.sys, m.lock.owner, m.sys.info[m.sys.cur].prio))
  {
    var m := HeldByTwo();
    m := Preempted(m, 3, 2);
    m := Tried(m, 3);
    assert Boosts(m);
    ReadyBoostBreaks(m);
  }

  // ---------- boot ----------

  /**
    At boot the idle task is queued by task_create and also made the current, running task. The first yield queues it
    a second time. The ring of queue 0 survives exactly when the idle task is alone in it.
  */
  lemma FirstYieldIff(link: map<nat, Link>, idle: nat, list: seq<nat>)
    requires Ring(link, idle, list) && list != []
    ensures idle in link && link[idle].prev in link
    ensures Ring(Enqueued(link, idle, idle), idle, list) <==> list == [idle]
  {
    RingTail(link, idle, list);
    assert RingAt(link, list, 0);
    var link' := Enqueued(link, idle, idle);
    if |list| == 1 {
      assert list == [idle];
      assert RingAt(link', list, 0);
    } else {
      assert list[0] != list[|list| - 1] && list[1] != list[0];
      assert !RingAt(link', list, 0);
    }
  }

  /** Whatever lists the memory spells afterwards, idle is alone in queue 0: other tasks queued there are lost. */
  lemma FirstYieldLosesTasks(m: Mem, lists: map<Place, seq<nat>>, idle: nat)
    requires Spell(m, lists) && At(lists, Run(0)) != [] && idle == At(lists, Run(0))[0]
    ensures m.rq[0] == idle && idle != 0 && idle in m.link && m.link[idle].prev in m.link
    ensures forall ls | Spell(RqEnqueue(m, idle, 0), ls) :: At(ls, Run(0)) == [idle]
  {
    assert ListLinked(m, lists, Run(0));
    RingTail(m.link, idle, At(lists, Run(0)));
    var m' := RqEnqueue(m, idle, 0);
    assert m'.link[idle].next == idle;
    forall ls | Spell(m', ls) ensures At(ls, Run(0)) == [idle] {
      assert ListLinked(m', ls, Run(0));
      assert RingAt(m'.link, At(ls, Run(0)), 0);
    }
  }
}
