/**
  k_mutex_lock and k_mutex_unlock of kernel/scheduler.c on one mutex: the compare-and-swap, the write of the owner, the
  masked block and the unlock are separate steps. First the lock alone, under any scheduling whatever; then the lock
  together with the scheduler, with fixed priorities: the boost is treated in module BootAndBoost.
*/
module Mutex {
  import opened SchedModel
  import opened SchedRuns

  /**
    Outside the calls; the swap failed; the swap succeeded but the owner is not written yet; owner; blocked or
    woken to retry.
  */
  datatype Phase = Outside | Failed | Acquired | Holder | Waiting

  /** The fields locked and owner (0 for NULL), and every task's phase. */
  datatype Lock = Lock(locked: bool, owner: nat, phase: map<nat, Phase>)

  function PhaseOf(l: Lock, t: nat): Phase {
    if t in l.phase then l.phase[t] else Outside
  }

  /** t is between acquire and release. */
  predicate IsInside(l: Lock, t: nat) {
    PhaseOf(l, t).Acquired? || PhaseOf(l, t).Holder?
  }

  // ---------- the lock under any scheduling ----------

  datatype LockStep =
    | Swap(t: nat)        // the compare-and-swap
    | WriteOwner(t: nat)  // m->owner = current task
    | GiveUp(t: nat)      // return BUSY or TIMEOUT
    | Block(t: nat)       // the masked section that queues the task
    | Unlock(t: nat)      // k_mutex_unlock up to its yield

  predicate LockEnabled(l: Lock, s: LockStep) {
    && s.t != 0
    && match s
       case Swap(t) => PhaseOf(l, t).Outside? || PhaseOf(l, t).Waiting?
       case WriteOwner(t) => PhaseOf(l, t).Acquired?
       case GiveUp(t) => PhaseOf(l, t).Failed?
       case Block(t) => PhaseOf(l, t).Failed?
       case Unlock(t) => PhaseOf(l, t).Outside? || PhaseOf(l, t).Holder?
  }

  function Moved(l: Lock, t: nat, p: Phase): Lock {
    l.(phase := l.phase[t := p])
  }

  function LockNext(l: Lock, s: LockStep): Lock {
    match s
    case Swap(t) => if !l.locked then Moved(l, t, Acquired).(locked := true) else Moved(l, t, Failed)
    case WriteOwner(t) => Moved(l, t, Holder).(owner := t)
    case GiveUp(t) => Moved(l, t, Outside)
    case Block(t) => Moved(l, t, Waiting)
    case Unlock(t) => if l.owner != t then l else Moved(l, t, Outside).(owner := 0, locked := false)
  }

  /** At most one task is inside, and one is exactly while locked is set; the owner is the task that wrote itself. */
  ghost predicate Exclusive(l: Lock) {
    && (l.locked <==> exists t :: IsInside(l, t))
    && (forall t, u | IsInside(l, t) && IsInside(l, u) :: t == u)
    && (forall t {:trigger PhaseOf(l, t)} :: PhaseOf(l, t).Holder? <==> t == l.owner && t != 0)
  }

  /** A task that is not inside may change its phase as long as it stays outside. */
  lemma OutsideMoves(l: Lock, t: nat, p: Phase)
    requires Exclusive(l) && !IsInside(l, t) && !p.Acquired? && !p.Holder?
    ensures Exclusive(Moved(l, t, p))
  {
    var l' := Moved(l, t, p);
    forall u ensures IsInside(l', u) <==> IsInside(l, u) {
    }
    if l.locked {
      var u :| IsInside(l, u);
      assert IsInside(l', u);
    }
    forall u ensures PhaseOf(l', u).Holder? <==> u == l'.owner && u != 0 {
      assert PhaseOf(l, u).Holder? <==> u == l.owner && u != 0;
    }
  }

  lemma SwapExclusive(l: Lock, t: nat)
    requires Exclusive(l) && LockEnabled(l, Swap(t)) && !l.locked
    ensures Exclusive(LockNext(l, Swap(t)))
  {
    var l' := LockNext(l, Swap(t));
    assert IsInside(l', t);
    forall u, v | IsInside(l', u) && IsInside(l', v) ensures u == v {
      assert u != t ==> IsInside(l, u);
      assert v != t ==> IsInside(l, v);
    }
    forall u ensures PhaseOf(l', u).Holder? <==> u == l'.owner && u != 0 {
      assert PhaseOf(l, u).Holder? ==> IsInside(l, u);
      assert PhaseOf(l, u).Holder? <==> u == l.owner && u != 0;
    }
  }

  lemma WriteOwnerExclusive(l: Lock, t: nat)
    requires Exclusive(l) && LockEnabled(l, WriteOwner(t))
    ensures Exclusive(LockNext(l, WriteOwner(t)))
  {
    var l' := LockNext(l, WriteOwner(t));
    assert IsInside(l, t) && IsInside(l', t);
    forall u, v | IsInside(l', u) && IsInside(l', v) ensures u == v {
      assert IsInside(l, u) && IsInside(l, v);
    }
    forall u ensures PhaseOf(l', u).Holder? <==> u == l'.owner && u != 0 {
      assert PhaseOf(l, u).Holder? ==> IsInside(l, u);
    }
  }

  /** After the unlock of the owner nobody is inside. */
  lemma UnlockEmpties(l: Lock, t: nat)
    requires Exclusive(l) && LockEnabled(l, Unlock(t)) && l.owner == t
    ensures Exclusive(LockNext(l, Unlock(t))) && forall u :: !IsInside(LockNext(l, Unlock(t)), u)
  {
    var l' := LockNext(l, Unlock(t));
    assert PhaseOf(l, t).Holder? && IsInside(l, t);
    forall u ensures !IsInside(l', u) && !PhaseOf(l', u).Holder? {
      assert u != t ==> (IsInside(l', u) <==> IsInside(l, u));
    }
  }

  lemma LockStepInv(l: Lock, s: LockStep)
    requires Exclusive(l) && LockEnabled(l, s)
    ensures Exclusive(LockNext(l, s))
  {
    match s
    case Swap(t) =>
      if l.locked {
        assert PhaseOf(l, t).Outside? || PhaseOf(l, t).Waiting?;
        OutsideMoves(l, t, Failed);
      } else {
        SwapExclusive(l, t);
      }
    case WriteOwner(t) => WriteOwnerExclusive(l, t);
    case GiveUp(t) => OutsideMoves(l, t, Outside);
    case Block(t) => OutsideMoves(l, t, Waiting);
    case Unlock(t) =>
      if l.owner == t {
        UnlockEmpties(l, t);
      }
  }

  /** Every task can go on, also one that was woken; one whose swap failed may leave or block. */
  lemma CanGoOn(l: Lock, t: nat)
    requires t != 0
    ensures exists s: LockStep :: s.t == t && LockEnabled(l, s)
    ensures PhaseOf(l, t).Failed? ==> LockEnabled(l, GiveUp(t)) && LockEnabled(l, Block(t))
    ensures PhaseOf(l, t).Outside? ==> LockEnabled(l, Swap(t)) && LockEnabled(l, Unlock(t))
  {
    match PhaseOf(l, t)
    case Acquired => assert LockEnabled(l, WriteOwner(t)) && WriteOwner(t).t == t;
    case Failed => assert LockEnabled(l, Block(t)) && Block(t).t == t;
    case Holder => assert LockEnabled(l, Unlock(t)) && Unlock(t).t == t;
    case _ => assert LockEnabled(l, Swap(t)) && Swap(t).t == t;
  }

  /** The swap takes the lock exactly when it is free, and nobody else notices. */
  lemma SwapTakesIff(l: Lock, t: nat)
    requires LockEnabled(l, Swap(t))
    ensures var l' := LockNext(l, Swap(t));
      && (PhaseOf(l', t).Acquired? <==> !l.locked) && (PhaseOf(l', t).Failed? <==> l.locked)
      && l'.locked && l'.owner == l.owner && forall u | u != t :: PhaseOf(l', u) == PhaseOf(l, u)
  {
  }

  /** A task that finds the lock free, takes it and gives it back leaves it free, and owns it in between. */
  lemma LockThenUnlock(l: Lock, t: nat)
    requires Exclusive(l) && !l.locked && LockEnabled(l, Swap(t))
    ensures var l1 := LockNext(l, Swap(t));
      && LockEnabled(l1, WriteOwner(t))
      && var l2 := LockNext(l1, WriteOwner(t));
      && l2.locked && l2.owner == t && LockEnabled(l2, Unlock(t))
      && var l3 := LockNext(l2, Unlock(t));
      && !l3.locked && l3.owner == 0 && PhaseOf(l3, t).Outside?
      && forall u | u != t :: PhaseOf(l3, u) == PhaseOf(l, u)
  {
  }

  /** A call that gives up is over and leaves the lock alone. */
  lemma GiveUpLeaves(l: Lock, t: nat)
    requires LockEnabled(l, GiveUp(t))
    ensures var l' := LockNext(l, GiveUp(t));
      && PhaseOf(l', t).Outside? && l'.locked == l.locked && l'.owner == l.owner
      && forall u | u != t :: PhaseOf(l', u) == PhaseOf(l, u)
  {
  }

  /** k_mutex_init */
  const FREE: Lock := Lock(false, 0, map[])

  /** A run of the lock: any task may make a step at any time, whatever the scheduler and the boost do. */
  ghost predicate IsLockRun(ls: seq<Lock>, ss: seq<LockStep>) {
    && |ls| == |ss| + 1 && ls[0] == FREE
    && forall i {:trigger ss[i]} | 0 <= i < |ss| :: LockEnabled(ls[i], ss[i]) && ls[i + 1] == LockNext(ls[i], ss[i])
  }

  /** In every state of every interleaving: locked is set iff exactly one task is between acquire and release. */
  lemma {:induction false} MutualExclusion(ls: seq<Lock>, ss: seq<LockStep>, i: nat)
    requires IsLockRun(ls, ss) && i < |ls|
    ensures Exclusive(ls[i])
    ensures ls[i].locked <==> exists t :: IsInside(ls[i], t) && forall u | IsInside(ls[i], u) :: u == t
    decreases i
  {
    if i == 0 {
      assert Exclusive(FREE);
    } else {
      var j := i - 1;
      MutualExclusion(ls, ss, j);
      assert LockEnabled(ls[j], ss[j]);
      LockStepInv(ls[j], ss[j]);
    }
    var l := ls[i];
    if l.locked {
      var t :| IsInside(l, t);
      assert forall u | IsInside(l, u) :: u == t;
    }
  }

  // ---------- the lock and the scheduler ----------

  /** The scheduler and the mutex at address obj. */
  datatype Mutex = Mutex(sys: Sys, obj: nat, lock: Lock)

  datatype MutexStep = By(s: LockStep) | Other(e: Step)

  /** Mutex steps are made by the current task while it runs; a task inside a call does nothing else. */
  predicate MutexEnabled(m: Mutex, s: MutexStep) {
    match s
    case By(ls) =>
      && ls.t == m.sys.cur && ls.t in m.sys.info && m.sys.info[ls.t].state.Running? && LockEnabled(m.lock, ls)
      && (ls.Block? ==> Enabled(m.sys, BlockStep(m.obj)))
    case Other(e) =>
      && Enabled(m.sys, e) && e != BlockStep(m.obj) && e != WakeStep(m.obj)
      && (e.TickStep? || e.YieldStep? || e.WakeStep? || PhaseOf(m.lock, m.sys.cur).Outside? ||
          PhaseOf(m.lock, m.sys.cur).Holder?)
  }

  /** What a step of the lock does to the scheduler. */
  ghost function SysNext(m: Mutex, s: LockStep): Sys
    requires Inv(m.sys) && MutexEnabled(m, By(s))
  {
    match s
    case Block(t) => Next(m.sys, BlockStep(m.obj))
    case Unlock(t) => if m.lock.owner != t then m.sys else Next(m.sys, WakeStep(m.obj))
    case _ => m.sys
  }

  ghost function MutexNext(m: Mutex, s: MutexStep): Mutex
    requires Inv(m.sys) && MutexEnabled(m, s)
  {
    match s
    case By(ls) => m.(sys := SysNext(m, ls), lock := LockNext(m.lock, ls))
    case Other(e) => m.(sys := Next(m.sys, e))
  }

  /** Whoever is queued on the mutex is in the call, and only existing tasks have phases. */
  ghost predicate Queued(m: Mutex) {
    && (forall t | t in At(m.sys.lists, Wait(m.obj)) :: PhaseOf(m.lock, t).Waiting?)
    && (forall t | t in m.lock.phase :: t in m.sys.info)
  }

  ghost predicate MutexInv(m: Mutex) {
    Inv(m.sys) && m.obj in m.sys.mutexes && Exclusive(m.lock) && Queued(m)
  }

  /** The running task is on no list. */
  lemma Nobody(m: Mutex)
    requires Inv(m.sys) && m.sys.info[m.sys.cur].state.Running?
    ensures forall q :: m.sys.cur !in At(m.sys.lists, q)
  {
    Nowhere(m.sys, m.sys.cur);
  }

  lemma BlockInv(m: Mutex, t: nat)
    requires MutexInv(m) && MutexEnabled(m, By(Block(t)))
    ensures MutexInv(MutexNext(m, By(Block(t))))
  {
    var m' := MutexNext(m, By(Block(t)));
    StepInv(m.sys, BlockStep(m.obj));
    LockStepInv(m.lock, Block(t));
    ListedIn(m.sys, Wait(m.obj));
    var list := At(m.sys.lists, Wait(m.obj));
    forall x | x in At(m'.sys.lists, Wait(m.obj)) ensures PhaseOf(m'.lock, x).Waiting? {
      if x != t {
        assert x in list;
      }
    }
  }

  lemma UnlockInv(m: Mutex, t: nat)
    requires MutexInv(m) && MutexEnabled(m, By(Unlock(t)))
    ensures MutexInv(MutexNext(m, By(Unlock(t))))
  {
    var m' := MutexNext(m, By(Unlock(t)));
    Nobody(m);
    LockStepInv(m.lock, Unlock(t));
    if m.lock.owner == t {
      StepInv(m.sys, WakeStep(m.obj));
      WokenQueue(m.sys, m.obj);
      forall x | x in At(m'.sys.lists, Wait(m.obj)) ensures PhaseOf(m'.lock, x).Waiting? {
        assert x in At(m.sys.lists, Wait(m.obj));
      }
    }
  }

  /** The waiters after a wake-up are those before without the first, which is ready. */
  lemma WokenQueue(s: Sys, o: nat)
    requires Inv(s) && Enabled(s, WakeStep(o))
    ensures var s' := Next(s, WakeStep(o));
      && s'.info.Keys == s.info.Keys
      && (At(s.lists, Wait(o)) == [] ==> s' == s)
      && (At(s.lists, Wait(o)) != [] ==>
          && At(s'.lists, Wait(o)) == At(s.lists, Wait(o))[1..]
          && At(s.lists, Wait(o))[0] in s'.info && s'.info[At(s.lists, Wait(o))[0]].state.Ready?)
  {
    ListedIn(s, Wait(o));
    if At(s.lists, Wait(o)) != [] {
      ReleasedFacts(s, Wait(o));
    }
  }

  /** Steps that do not concern the mutex leave its waiters alone. */
  lemma OtherQueue(s: Sys, e: Step, o: nat)
    requires Inv(s) && Enabled(s, e) && e != BlockStep(o) && e != WakeStep(o)
    ensures At(Next(s, e).lists, Wait(o)) == At(s.lists, Wait(o)) && s.info.Keys <= Next(s, e).info.Keys
    ensures Next(s, e).mutexes == s.mutexes
  {
    match e
    case TickStep => TickKeeps(s, o);
    case YieldStep => YieldKeeps(s, o);
    case WakeStep(x) =>
      ListedIn(s, Wait(x));
      if At(s.lists, Wait(x)) != [] {
        ReleasedFacts(s, Wait(x));
      }
    case _ =>
      ListedIn(s, Sleep);
  }

  lemma TickKeeps(s: Sys, o: nat)
    requires Inv(s)
    ensures At(Tick(s).lists, Wait(o)) == At(s.lists, Wait(o)) && Tick(s).info.Keys == s.info.Keys
    ensures Tick(s).mutexes == s.mutexes
  {
    ChargedCore(s);
    ChargedKeeps(s, o);
    YieldKeeps(Charged(s), o);
  }

  lemma ChargedKeeps(s: Sys, o: nat)
    requires Inv(s)
    ensures var c := Charged(s);
      At(c.lists, Wait(o)) == At(s.lists, Wait(o)) && c.info.Keys == s.info.Keys && c.mutexes == s.mutexes
  {
    var s1 := s.(now := s.now + 1);
    PartitionFrame(s, s1);
    OrderedRuns(s, s1);
    Woken(s1);
    WokenPartition(s1);
  }

  lemma YieldKeeps(s: Sys, o: nat)
    requires Core(s)
    ensures CanYield(s) && At(Yield(s).lists, Wait(o)) == At(s.lists, Wait(o)) && Yield(s).info.Keys == s.info.Keys
    ensures Yield(s).mutexes == s.mutexes
  {
    YieldPartition(s);
    RequeuedPartition(s);
  }

  lemma MutexStepInv(m: Mutex, s: MutexStep)
    requires MutexInv(m) && MutexEnabled(m, s)
    ensures MutexInv(MutexNext(m, s))
  {
    match s
    case Other(e) =>
      StepInv(m.sys, e);
      OtherQueue(m.sys, e, m.obj);
    case By(Block(t)) => BlockInv(m, t);
    case By(Unlock(t)) => UnlockInv(m, t);
    case By(ls) =>
      Nobody(m);
      LockStepInv(m.lock, ls);
  }

  // ---------- runs ----------

  ghost predicate Follows(a: Mutex, s: MutexStep, b: Mutex) {
    MutexInv(a) ==> MutexEnabled(a, s) && b == MutexNext(a, s)
  }

  /** A run from a scheduler in order and a mutex just initialised. */
  ghost predicate IsMutexRun(ms: seq<Mutex>, ss: seq<MutexStep>) {
    && |ms| == |ss| + 1
    && Inv(ms[0].sys) && ms[0].obj in ms[0].sys.mutexes && At(ms[0].sys.lists, Wait(ms[0].obj)) == []
    && ms[0].lock == FREE
    && forall i {:trigger ss[i]} | 0 <= i < |ss| :: Follows(ms[i], ss[i], ms[i + 1])
  }

  /** In every state of a run the lock, the scheduler and the queue of waiters are in order. */
  lemma {:induction false} MutexRunInv(ms: seq<Mutex>, ss: seq<MutexStep>, i: nat)
    requires IsMutexRun(ms, ss) && i < |ms|
    ensures MutexInv(ms[i])
    decreases i
  {
    if i == 0 {
      assert Exclusive(FREE);
    } else {
      var j := i - 1;
      MutexRunInv(ms, ss, j);
      assert Follows(ms[j], ss[j], ms[j + 1]);
      MutexStepInv(ms[j], ss[j]);
    }
  }

  /** Some run ends in m. */
  ghost predicate Reached(m: Mutex) {
    exists ms, ss {:trigger IsMutexRun(ms, ss)} :: IsMutexRun(ms, ss) && ms[|ss|] == m
  }

  lemma ReachedInv(m: Mutex)
    requires Reached(m)
    ensures MutexInv(m)
  {
    var ms, ss :| IsMutexRun(ms, ss) && ms[|ss|] == m;
    MutexRunInv(ms, ss, |ss|);
  }

  lemma ReachedStep(m: Mutex, s: MutexStep, m': Mutex)
    requires Reached(m) && Follows(m, s, m')
    ensures Reached(m')
  {
    var ms, ss :| IsMutexRun(ms, ss) && ms[|ss|] == m;
    var ms', ss' := ms + [m'], ss + [s];
    forall i | 0 <= i < |ss'| ensures Follows(ms'[i], ss'[i], ms'[i + 1]) {
      if i < |ss| {
        assert ms'[i] == ms[i] && ms'[i + 1] == ms[i + 1] && ss'[i] == ss[i];
        assert Follows(ms[i], ss[i], ms[i + 1]);
      } else {
        assert ms'[i] == m && ms'[i + 1] == m' && ss'[i] == s;
      }
    }
    assert ms'[0] == ms[0] && ms'[|ss'|] == m';
    assert IsMutexRun(ms', ss');
  }

  // ---------- nobody sleeps beside a free lock ----------

  /** t was woken and will try the swap again. */
  predicate Pending(m: Mutex, t: nat) {
    PhaseOf(m.lock, t).Waiting? && t !in At(m.sys.lists, Wait(m.obj))
  }

  /** Tasks wait only while the lock is taken or another task is going to try for it. */
  ghost predicate NoLost(m: Mutex) {
    At(m.sys.lists, Wait(m.obj)) != [] ==> m.lock.locked || exists t :: Pending(m, t)
  }

  /** A task goes to sleep although the lock is free and nobody is going to try for it. */
  ghost predicate SleepsBesideFree(m: Mutex, s: MutexStep) {
    s.By? && s.s.Block? && !m.lock.locked && !exists t :: Pending(m, t)
  }

  /** A step that leaves the queue and who is pending alone, and does not free the lock. */
  lemma NoLostFrame(m: Mutex, m': Mutex)
    requires NoLost(m) && At(m'.sys.lists, Wait(m'.obj)) == At(m.sys.lists, Wait(m.obj))
    requires m.lock.locked ==> m'.lock.locked
    requires forall t | Pending(m, t) :: Pending(m', t) || m'.lock.locked
    ensures NoLost(m')
  {
    if !m.lock.locked && !m'.lock.locked && At(m.sys.lists, Wait(m.obj)) != [] {
      var t :| Pending(m, t);
      assert Pending(m', t);
    }
  }

  lemma BlockNoLostIff(m: Mutex, t: nat)
    requires MutexInv(m) && MutexEnabled(m, By(Block(t)))
    ensures NoLost(MutexNext(m, By(Block(t)))) <==> m.lock.locked || exists u :: Pending(m, u)
  {
    var m' := MutexNext(m, By(Block(t)));
    ListedIn(m.sys, Wait(m.obj));
    var list, list' := At(m.sys.lists, Wait(m.obj)), At(m'.sys.lists, Wait(m.obj));
    assert t in list' && forall u :: u in list' <==> u in list || u == t;
    forall u ensures Pending(m', u) <==> Pending(m, u) {
    }
  }

  lemma UnlockNoLost(m: Mutex, t: nat)
    requires MutexInv(m) && MutexEnabled(m, By(Unlock(t))) && m.lock.owner == t
    ensures NoLost(MutexNext(m, By(Unlock(t))))
  {
    var m', list := MutexNext(m, By(Unlock(t))), At(m.sys.lists, Wait(m.obj));
    WokenQueue(m.sys, m.obj);
    Nobody(m);
    if list != [] {
      assert LinkedList.Distinct(list);
      assert list[0] in list && list[0] !in list[1..];
      assert Pending(m', list[0]);
    }
  }

  lemma NoLostStepIff(m: Mutex, s: MutexStep)
    requires MutexInv(m) && MutexEnabled(m, s) && NoLost(m)
    ensures NoLost(MutexNext(m, s)) <==> !SleepsBesideFree(m, s)
  {
    match s
    case Other(e) =>
      OtherQueue(m.sys, e, m.obj);
      NoLostFrame(m, MutexNext(m, s));
    case By(Block(t)) => BlockNoLostIff(m, t);
    case By(Unlock(t)) =>
      if m.lock.owner == t {
        UnlockNoLost(m, t);
      }
    case By(WriteOwner(t)) =>
      assert IsInside(m.lock, t);
      NoLostFrame(m, MutexNext(m, s));
    case By(ls) => NoLostFrame(m, MutexNext(m, s));
  }

  lemma {:induction false} StaysNoLost(ms: seq<Mutex>, ss: seq<MutexStep>, i: nat)
    requires IsMutexRun(ms, ss) && i < |ms|
    requires forall j | 0 <= j < |ss| :: !SleepsBesideFree(ms[j], ss[j])
    ensures NoLost(ms[i])
    decreases i
  {
    if i == 0 {
      assert At(ms[0].sys.lists, Wait(ms[0].obj)) == [];
    } else {
      var j := i - 1;
      StaysNoLost(ms, ss, j);
      MutexRunInv(ms, ss, j);
      assert Follows(ms[j], ss[j], ms[j + 1]) && !SleepsBesideFree(ms[j], ss[j]);
      NoLostStepIff(ms[j], ss[j]);
    }
  }

  /**
    In a run no task ever waits while the lock is free and nobody is going to try for it, exactly when none goes to
    sleep then: between its failed swap and its masked section an unlock may have come.
  */
  lemma NoLostIff(ms: seq<Mutex>, ss: seq<MutexStep>)
    requires IsMutexRun(ms, ss)
    ensures (forall i | 0 <= i < |ms| :: NoLost(ms[i])) <==>
            (forall i | 0 <= i < |ss| :: !SleepsBesideFree(ms[i], ss[i]))
  {
    if forall i | 0 <= i < |ms| :: NoLost(ms[i]) {
      forall i | 0 <= i < |ss| ensures !SleepsBesideFree(ms[i], ss[i]) {
        MutexRunInv(ms, ss, i);
        assert NoLost(ms[i]) && NoLost(ms[i + 1]) && Follows(ms[i], ss[i], ms[i + 1]);
        NoLostStepIff(ms[i], ss[i]);
      }
    }
    if forall i | 0 <= i < |ss| :: !SleepsBesideFree(ms[i], ss[i]) {
      forall i | 0 <= i < |ms| ensures NoLost(ms[i]) {
        StaysNoLost(ms, ss, i);
      }
    }
  }

  /** An unlock by anyone but the holder changes nothing; that of the holder leaves nobody inside. */
  lemma OnlyHolderUnlocks(l: Lock, t: nat)
    requires Exclusive(l) && LockEnabled(l, Unlock(t))
    ensures !PhaseOf(l, t).Holder? ==> LockNext(l, Unlock(t)) == l
    ensures PhaseOf(l, t).Holder? ==>
      !LockNext(l, Unlock(t)).locked && forall u :: !IsInside(LockNext(l, Unlock(t)), u)
  {
    assert PhaseOf(l, t).Holder? <==> t == l.owner && t != 0;
    if l.owner == t {
      UnlockEmpties(l, t);
    }
  }

  /** The holder's unlock readies the waiter of highest priority, and among those the one that came first. */
  lemma UnlockReadiesFirst(m: Mutex, x: nat)
    requires MutexInv(m) && MutexEnabled(m, By(Unlock(m.sys.cur))) && PhaseOf(m.lock, m.sys.cur).Holder?
    requires x in At(m.sys.lists, Wait(m.obj))
    ensures var h, s, m' := At(m.sys.lists, Wait(m.obj))[0], m.sys, MutexNext(m, By(Unlock(m.sys.cur)));
      && h in s.info && x in s.info && h in m'.sys.info && m'.sys.info[h].state.Ready?
      && (x == h || s.info[h].prio > s.info[x].prio || (s.info[h].prio == s.info[x].prio &&
         s.info[h].stamp < s.info[x].stamp))
      && (x != h ==> x in At(m'.sys.lists, Wait(m.obj)))
  {
    assert PhaseOf(m.lock, m.sys.cur).Holder? <==> m.sys.cur == m.lock.owner && m.sys.cur != 0;
    WokenQueue(m.sys, m.obj);
    ListedIn(m.sys, Wait(m.obj));
    var list := At(m.sys.lists, Wait(m.obj));
    assert Sorted(m.sys, Wait(m.obj), list);
    var k :| 0 <= k < |list| && list[k] == x;
    if k > 0 {
      assert Earlier(m.sys, Wait(m.obj), list[0], list[k]);
      assert list[1..][k - 1] == x;
    }
  }
}
