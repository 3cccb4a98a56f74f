/** Exact wake-up times and bounded waiting for the CPU, over every run of the scheduler. */
module SchedTheorems {
  import opened SchedModel
  import opened SchedRuns

  // ---------- sleeping ----------

  predicate SleepsTo(s: Sys, x: nat, w: nat) {
    x in s.info && s.info[x].state.Sleeping? && s.info[x].wake == w
  }

  predicate IsUp(s: Sys, x: nat) {
    x in s.info && (s.info[x].state.Ready? || s.info[x].state.Running?)
  }

  /** A yield leaves sleepers asleep and whoever is up, up. */
  lemma YieldSleeper(s: Sys, x: nat)
    requires Core(s) && x in s.info
    ensures CanYield(s) && (IsUp(s, x) ==> IsUp(Yield(s), x)) && Yield(s).now == s.now
    ensures s.info[x].state.Sleeping? ==> SleepsTo(Yield(s), x, s.info[x].wake)
  {
    YieldPartition(s);
    RequeuedPartition(s);
    var s1 := Requeued(s);
    assert Homed(s1, Run(Top(s1.lists, LEVELS)), Yield(s).cur);
  }

  lemma ChargedSleeper(s: Sys, x: nat)
    requires Inv(s) && x in s.info && s.info[x].state.Sleeping?
    ensures s.info[x].wake == s.now + 1 ==> IsUp(Charged(s), x)
    ensures s.info[x].wake > s.now + 1 ==> SleepsTo(Charged(s), x, s.info[x].wake)
  {
    var s1 := s.(now := s.now + 1);
    PartitionFrame(s, s1);
    OrderedRuns(s, s1);
    Woken(s1);
    assert WokenInfo(s1, WakeSleepers(s1), x);
  }

  /** One step: a sleeper gets up exactly when a tick brings its time. */
  lemma SleeperStep(s: Sys, e: Step, x: nat)
    requires Inv(s) && Enabled(s, e) && x in s.info && s.info[x].state.Sleeping?
    ensures Next(s, e).now == if e.TickStep? then s.now + 1 else s.now
    ensures if e.TickStep? &&
            s.info[x].wake == s.now + 1 then IsUp(Next(s, e), x) else SleepsTo(Next(s, e), x, s.info[x].wake)
  {
    match e
    case TickStep =>
      assert x in At(s.lists, Sleep) by {
        assert Placed(s, x);
      }
      ChargedSleeper(s, x);
      ChargedClock(s);
      ChargedCore(s);
      YieldSleeper(Charged(s), x);
    case YieldStep => YieldSleeper(s, x);
    case WakeStep(o) =>
      ListedIn(s, Wait(o));
      if At(s.lists, Wait(o)) != [] {
        assert Homed(s, Wait(o), At(s.lists, Wait(o))[0]);
      }
    case _ =>
  }

  /** In every run, a task that sleeps until w sleeps in each state before w and is up in the first state at w. */
  lemma {:induction false} SleepIsExact(ss: seq<Sys>, es: seq<Step>, i: nat, j: nat, x: nat, w: nat)
    requires IsRun(ss, es) && i <= j < |ss| && SleepsTo(ss[i], x, w) && ss[j].now < w
    ensures SleepsTo(ss[j], x, w)
    ensures j + 1 < |ss| && ss[j + 1].now == w ==> IsUp(ss[j + 1], x)
    decreases j
  {
    if i == j {
    } else {
      var k := j - 1;
      RunInv(ss, es, k);
      assert StepOk(ss[k], es[k], ss[k + 1]);
      TimeMoves(ss[k], es[k]);
      SleepIsExact(ss, es, i, k, x, w);
      SleeperStep(ss[k], es[k], x);
    }
    if j + 1 < |ss| {
      RunInv(ss, es, j);
      assert StepOk(ss[j], es[j], ss[j + 1]);
      SleeperStep(ss[j], es[j], x);
    }
  }

  lemma ChargedClock(s: Sys)
    requires Inv(s)
    ensures Charged(s).now == s.now + 1
  {
    var s1 := s.(now := s.now + 1);
    PartitionFrame(s, s1);
    OrderedRuns(s, s1);
    Woken(s1);
  }

  lemma TimeMoves(s: Sys, e: Step)
    requires Inv(s) && Enabled(s, e)
    ensures Next(s, e).now == if e.TickStep? then s.now + 1 else s.now
  {
    if e.TickStep? {
      ChargedCore(s);
      ChargedClock(s);
      YieldPossible(Charged(s));
    } else if e.YieldStep? {
      YieldPossible(s);
    }
  }

  lemma SleepsFor(s: Sys, n: nat)
    requires Inv(s) && Enabled(s, SleepStep(n))
    ensures SleepsTo(Next(s, SleepStep(n)), s.cur, s.now + n) && Next(s, SleepStep(n)).now < s.now + n
  {
  }

  /** In every run, task_sleep_ticks(n) called at tick t sleeps until tick t + n and is up in the first state there. */
  lemma SleepCallIsExact(ss: seq<Sys>, es: seq<Step>, i: nat, j: nat, n: nat)
    requires IsRun(ss, es) && i < j < |ss| && es[i] == SleepStep(n) && ss[j].now < ss[i].now + n
    ensures SleepsTo(ss[j], ss[i].cur, ss[i].now + n)
    ensures j + 1 < |ss| && ss[j + 1].now == ss[i].now + n ==> IsUp(ss[j + 1], ss[i].cur)
  {
    RunInv(ss, es, i);
    assert StepOk(ss[i], es[i], ss[i + 1]);
    SleepsFor(ss[i], n);
    SleepIsExact(ss, es, i + 1, j, ss[i].cur, ss[i].now + n);
  }

  /**
    Sleepers that wake together join their ready queue by wake-up time and, for equal times, in the order of their
    calls.
  */
  lemma {:induction false} DueSorted(s: Sys, list: seq<nat>, now: nat, p: nat)
    requires Sorted(s, Sleep, list) && forall x | x in list :: x in s.info
    ensures Sorted(s, Sleep, Due(s.info, list, now, p))
    ensures forall x | x in Due(s.info, list, now, p) :: x in list
    decreases |list|
  {
    if list != [] && s.info[list[0]].wake <= now {
      var rest := list[1..];
      assert forall x | x in rest :: x in list;
      forall i, j | 0 <= i < j < |rest| ensures Earlier(s, Sleep, rest[i], rest[j]) {
        assert Earlier(s, Sleep, list[i + 1], list[j + 1]);
      }
      DueSorted(s, rest, now, p);
      var d, due := Due(s.info, rest, now, p), Due(s.info, list, now, p);
      forall i, j | 0 <= i < j < |due| ensures Earlier(s, Sleep, due[i], due[j]) {
        if due != d {
          if i > 0 {
            assert Earlier(s, Sleep, d[i - 1], d[j - 1]);
          } else {
            assert due[j] == d[j - 1] && d[j - 1] in d && d[j - 1] in rest;
            var k :| 0 <= k < |rest| && rest[k] == d[j - 1];
            assert Earlier(s, Sleep, list[0], list[k + 1]);
          }
        } else {
          assert Earlier(s, Sleep, d[i], d[j]);
        }
      }
    }
  }

  // ---------- waiting for the CPU ----------

  /** The position of t. */
  function Index(list: seq<nat>, t: nat): (k: nat)
    requires t in list
    ensures k < |list| && list[k] == t && t !in list[..k]
  {
    if list[0] == t then 0 else 1 + Index(list[1..], t)
  }

  lemma {:induction false} IndexOfPrefix(list: seq<nat>, more: seq<nat>, t: nat)
    requires t in list
    ensures Index(list + more, t) == Index(list, t)
    decreases |list|
  {
    if list[0] == t {
    } else {
      assert (list + more)[1..] == list[1..] + more;
      IndexOfPrefix(list[1..], more, t);
    }
  }

  predicate Waits(s: Sys, t: nat, p: nat) {
    t in s.info && s.info[t].state.Ready? && s.info[t].prio == p && t in At(s.lists, Run(p))
  }

  /**
    The most ticks t can still wait: the rest of the current slice, or the next tick when a lower task runs, and
    full slices for the tasks ahead.
  */
  function Patience(s: Sys, t: nat, p: nat): nat
    requires Waits(s, t, p) && s.cur in s.info
  {
    (if s.info[s.cur].prio == p then s.info[s.cur].slice else 1) + SLICE * Index(At(s.lists, Run(p)), t)
  }

  /** A yield dispatches t or moves it one place ahead. */
  lemma YieldAdvances(s: Sys, t: nat, p: nat)
    requires Core(s) && Waits(s, t, p) && CanYield(s)
    requires var b := Yield(s); b.cur in b.info && b.info[b.cur].prio <= p
    ensures var b := Yield(s);
      && t in b.info
      && (b.info[t].state.Running?
          || (Waits(b, t, p) && Index(At(s.lists, Run(p)), t) > 0
              && Patience(b, t, p) == SLICE * Index(At(s.lists, Run(p)), t)))
  {
    var more := YieldQueue(s, t, p);
    var list, b := At(s.lists, Run(p)), Yield(s);
    IndexOfPrefix(list, more, t);
    assert t != b.cur ==> Index(list + more, t) == 1 + Index((list + more)[1..], t);
  }

  /** A yield that dispatches no task above p takes the head of ready queue p, behind which the old task may queue. */
  lemma YieldQueue(s: Sys, t: nat, p: nat) returns (more: seq<nat>)
    requires Core(s) && Waits(s, t, p) && CanYield(s)
    requires var b := Yield(s); b.cur in b.info && b.info[b.cur].prio <= p
    ensures var b, list := Yield(s), At(s.lists, Run(p)) + more;
      && b.cur == list[0] && b.info[b.cur].prio == p && b.info[b.cur].slice == SLICE
      && At(b.lists, Run(p)) == list[1..] && b.cur in b.info && b.info[b.cur].state.Running?
      && t in b.info && (t != b.cur ==> b.info[t] == s.info[t])
  {
    YieldPartition(s);
    more := RequeuedWaits(s, t, p);
    DispatchesHead(Requeued(s), t, p);
  }

  /** The old task may queue behind t. */
  lemma RequeuedWaits(s: Sys, t: nat, p: nat) returns (more: seq<nat>)
    requires Partition(s) && Waits(s, t, p)
    ensures Partition(Requeued(s)) && Waits(Requeued(s), t, p) && Requeued(s).info[t] == s.info[t]
    ensures At(Requeued(s).lists, Run(p)) == At(s.lists, Run(p)) + more
  {
    RequeuedPartition(s);
    more := if At(s.lists, Run(p)) == At(Requeued(s).lists, Run(p)) then [] else [s.cur];
    assert At(Requeued(s).lists, Run(p)) == At(s.lists, Run(p)) + more;
  }

  lemma DispatchesHead(s: Sys, t: nat, p: nat)
    requires Partition(s) && Waits(s, t, p) && Top(s.lists, LEVELS) >= 0
    requires At(s.lists, Run(Top(s.lists, LEVELS)))[0] in s.info
    requires s.info[At(s.lists, Run(Top(s.lists, LEVELS)))[0]].prio <= p
    ensures var b, list := Dispatch(s), At(s.lists, Run(p));
      && b.cur == list[0] && b.cur in b.info && b.info[b.cur] == s.info[b.cur].(state := Running, slice := SLICE)
      && b.info[b.cur].prio == p && At(b.lists, Run(p)) == list[1..]
      && t in b.info && (t != b.cur ==> b.info[t] == s.info[t])
  {
    var top := Top(s.lists, LEVELS);
    assert Homed(s, Run(p), t) && Homed(s, Run(top), At(s.lists, Run(top))[0]);
    TopAtLeast(s.lists, LEVELS, p);
    assert top == p;
  }

  /** The wake-up loop leaves a waiting task where it is. */
  lemma WokenWaits(s: Sys, t: nat, p: nat)
    requires Partition(s) && Ordered(s) && Waits(s, t, p)
    ensures var w := WakeSleepers(s);
      && Waits(w, t, p) && Index(At(w.lists, Run(p)), t) == Index(At(s.lists, Run(p)), t)
      && w.cur == s.cur && s.cur in w.info && w.info[s.cur].prio == s.info[s.cur].prio
  {
    Woken(s);
    var w := WakeSleepers(s);
    assert WokenInfo(s, w, t) && WokenInfo(s, w, s.cur) && WokenQueue(s, w, p);
    IndexOfPrefix(At(s.lists, Run(p)), Due(s.info, At(s.lists, Sleep), s.now, p), t);
  }

  lemma ChargedWaits(s: Sys, t: nat, p: nat)
    requires Inv(s) && Waits(s, t, p)
    ensures Waits(Charged(s), t, p)
    ensures Index(At(Charged(s).lists, Run(p)), t) == Index(At(s.lists, Run(p)), t)
    ensures s.cur in Charged(s).info && Charged(s).info[s.cur].prio == s.info[s.cur].prio
  {
    var s1 := s.(now := s.now + 1);
    PartitionFrame(s, s1);
    OrderedRuns(s, s1);
    WokenWaits(s1, t, p);
  }

  /** A tick that does not dispatch t costs it one tick of patience. */
  lemma TickAdvances(s: Sys, t: nat, p: nat)
    requires Inv(s) && Waits(s, t, p) && s.info[s.cur].prio <= p
    requires var b := Tick(s); b.cur in b.info && b.info[b.cur].prio <= p
    ensures var b := Tick(s);
      && t in b.info
      && (b.info[t].state.Running? || (Waits(b, t, p) && Patience(b, t, p) + 1 <= Patience(s, t, p)))
  {
    ChargedWaits(s, t, p);
    ChargedCore(s);
    var c := Charged(s);
    YieldPossible(c);
    if Preempts(c) {
      YieldAdvances(c, t, p);
    } else {
      assert Homed(c, Run(p), t);
      TopAtLeast(c.lists, LEVELS, p);
    }
  }

  /** t keeps its place when tasks join its queue behind it and the current task stays. */
  lemma KeepsPlace(s: Sys, b: Sys, t: nat, p: nat, more: seq<nat>)
    requires Waits(s, t, p) && s.cur in s.info && b.cur == s.cur && b.cur in b.info && t in b.info &&
             b.info[t] == s.info[t]
    requires b.info[b.cur].slice == s.info[s.cur].slice && b.info[b.cur].prio == s.info[s.cur].prio
    requires At(b.lists, Run(p)) == At(s.lists, Run(p)) + more
    ensures Waits(b, t, p) && Patience(b, t, p) == Patience(s, t, p)
  {
    IndexOfPrefix(At(s.lists, Run(p)), more, t);
  }

  /** The other steps of a running task leave a waiting task where it is. */
  lemma OtherStepWaits(s: Sys, e: Step, t: nat, p: nat)
    requires Inv(s) && Enabled(s, e) && Waits(s, t, p) && !e.TickStep? && !e.YieldStep?
    ensures var b := Next(s, e); (b.cur == s.cur && b.cur in b.info && Waits(b, t, p) &&
            Patience(b, t, p) == Patience(s, t, p))
  {
    match e
    case WakeStep(o) => WakeWaits(s, o, t, p);
    case CreateStep(x, q) => KeepsPlace(s, Create(s, x, q), t, p, if q == p then [x] else []);
    case SleepStep(n) =>
      ListedIn(s, Sleep);
      KeepsPlace(s, SleepStart(s, n), t, p, []);
    case BlockStep(o) =>
      ListedIn(s, Wait(o));
      KeepsPlace(s, BlockStart(s, o), t, p, []);
    case ExitStep => KeepsPlace(s, ExitStart(s), t, p, []);
  }

  lemma WakeWaits(s: Sys, o: nat, t: nat, p: nat)
    requires Inv(s) && Enabled(s, WakeStep(o)) && Waits(s, t, p)
    ensures var b := Next(s, WakeStep(o)); (b.cur == s.cur && b.cur in b.info && Waits(b, t, p) &&
            Patience(b, t, p) == Patience(s, t, p))
  {
    ListedIn(s, Wait(o));
    if At(s.lists, Wait(o)) != [] {
      var h := At(s.lists, Wait(o))[0];
      assert Homed(s, Wait(o), h);
      ReleasedFacts(s, Wait(o));
      KeepsPlace(s, Released(s, Wait(o)), t, p, if s.info[h].prio == p then [h] else []);
    } else {
      KeepsPlace(s, s, t, p, []);
    }
  }

  lemma StepAdvances(s: Sys, e: Step, t: nat, p: nat)
    requires Inv(s) && Enabled(s, e) && Waits(s, t, p) && s.info[s.cur].prio <= p
    requires var b := Next(s, e); b.cur in b.info && b.info[b.cur].prio <= p
    ensures var b := Next(s, e);
      && t in b.info
      && (b.info[t].state.Running?
          || (Waits(b, t, p) && Patience(b, t, p) + (if e.TickStep? then 1 else 0) <= Patience(s, t, p)))
  {
    if e.TickStep? {
      TickAdvances(s, t, p);
    } else if e.YieldStep? {
      YieldPossible(s);
      YieldAdvances(s, t, p);
    } else {
      OtherStepWaits(s, e, t, p);
    }
  }

  function Ticks(es: seq<Step>): nat {
    if es == [] then 0 else (if es[0].TickStep? then 1 else 0) + Ticks(es[1..])
  }

  /** Nobody above p has the CPU, and t does not have it either. */
  predicate Denied(s: Sys, t: nat, p: nat) {
    s.cur in s.info && s.info[s.cur].prio <= p && !(t in s.info && s.info[t].state.Running?)
  }

  lemma {:induction false} PatienceBounds(ss: seq<Sys>, es: seq<Step>, t: nat, p: nat)
    requires IsRun(ss, es) && Waits(ss[0], t, p) && forall i | 0 <= i < |ss| :: Denied(ss[i], t, p)
    ensures Ticks(es) < Patience(ss[0], t, p)
    decreases |es|
  {
    assert Denied(ss[0], t, p);
    if es == [] {
    } else {
      assert StepOk(ss[0], es[0], ss[1]) && Denied(ss[1], t, p);
      StepInv(ss[0], es[0]);
      StepAdvances(ss[0], es[0], t, p);
      var ss', es' := ss[1..], es[1..];
      forall i | 0 <= i < |es'| ensures StepOk(ss'[i], es'[i], ss'[i + 1]) {
        var j := i + 1;
        assert StepOk(ss[j], es[j], ss[j + 1]);
      }
      PatienceBounds(ss', es', t, p);
    }
  }

  /**
    A ready task with k tasks ahead of it in its queue runs within 10 (k + 1) ticks of any run in which no task of
    higher priority has the CPU.
  */
  lemma RunsInTime(ss: seq<Sys>, es: seq<Step>, t: nat, p: nat)
    requires IsRun(ss, es) && Waits(ss[0], t, p)
    requires forall s | s in ss :: s.cur in s.info && s.info[s.cur].prio <= p
    requires Ticks(es) >= SLICE * (Index(At(ss[0].lists, Run(p)), t) + 1)
    ensures exists i :: 0 <= i < |ss| && t in ss[i].info && ss[i].info[t].state.Running?
  {
    assert ss[0] in ss;
    if forall i | 0 <= i < |ss| :: !(t in ss[i].info && ss[i].info[t].state.Running?) {
      forall i | 0 <= i < |ss| ensures Denied(ss[i], t, p) {
        assert ss[i] in ss;
      }
      PatienceBounds(ss, es, t, p);
      assert false;
    }
  }

  // ---------- keeping the CPU ----------

  /** A task of higher priority than the current one is ready or wakes at the next tick. */
  predicate Outranked(s: Sys) {
    && s.cur in s.info
    && exists x | x in s.info ::
         s.info[x].prio > s.info[s.cur].prio &&
         (s.info[x].state.Ready? || (s.info[x].state.Sleeping? && s.info[x].wake <= s.now + 1))
  }

  lemma OutrankedIsTop(s: Sys)
    requires Inv(s)
    ensures Charged(s).cur == s.cur && s.cur in Charged(s).info && Charged(s).info[s.cur].prio == s.info[s.cur].prio
    ensures Top(Charged(s).lists, LEVELS) > s.info[s.cur].prio <==> Outranked(s)
  {
    ChargedCore(s);
    ChargedStates(s);
    assert ChargedState(s, Charged(s), s.cur);
    TopAboveIff(Charged(s), s.info[s.cur].prio);
    if Outranked(s) {
      var x :| x in s.info && s.info[x].prio > s.info[s.cur].prio &&
        (s.info[x].state.Ready? || (s.info[x].state.Sleeping? && s.info[x].wake <= s.now + 1));
      assert ChargedState(s, Charged(s), x);
    }
    if exists x | x in Charged(s).info :: ReadyAbove(Charged(s), x, s.info[s.cur].prio) {
      var x :| x in Charged(s).info && ReadyAbove(Charged(s), x, s.info[s.cur].prio);
      assert ChargedState(s, Charged(s), x);
    }
  }

  predicate ReadyAbove(s: Sys, x: nat, p: nat) {
    x in s.info && s.info[x].state.Ready? && s.info[x].prio > p
  }

  lemma TopAboveIff(s: Sys, p: nat)
    requires Partition(s)
    ensures Top(s.lists, LEVELS) > p <==> exists x | x in s.info :: ReadyAbove(s, x, p)
  {
    var top := Top(s.lists, LEVELS);
    if x :| x in s.info && ReadyAbove(s, x, p) {
      assert Placed(s, x);
      TopAtLeast(s.lists, LEVELS, s.info[x].prio);
    }
    if top > p {
      assert Homed(s, Run(top), At(s.lists, Run(top))[0]);
      assert ReadyAbove(s, At(s.lists, Run(top))[0], p);
    }
  }

  /** What a tick without its yield makes of task x. */
  predicate ChargedState(s: Sys, c: Sys, x: nat) {
    && x in s.info && x in c.info && c.info[x].prio == s.info[x].prio
    && c.info[x].state == if s.info[x].state.Sleeping? && s.info[x].wake <= s.now + 1 then Ready else s.info[x].state
  }

  lemma WokenStates(s: Sys)
    requires Partition(s) && Ordered(s)
    ensures WakeSleepers(s).info.Keys == s.info.Keys && WakeSleepers(s).cur == s.cur && WokenTasks(s, WakeSleepers(s))
  {
    Woken(s);
    WokenPartition(s);
  }

  lemma ChargedStates(s: Sys)
    requires Inv(s)
    ensures Charged(s).info.Keys == s.info.Keys && Charged(s).cur == s.cur
    ensures forall x {:trigger ChargedState(s, Charged(s), x)} | x in s.info :: ChargedState(s, Charged(s), x)
  {
    var s1 := s.(now := s.now + 1);
    PartitionFrame(s, s1);
    OrderedRuns(s, s1);
    WokenStates(s1);
    forall x | x in s.info ensures ChargedState(s, Charged(s), x) {
      assert WokenInfo(s1, WakeSleepers(s1), x);
    }
  }

  /**
    A tick takes the CPU from a running task exactly when its slice was down to 1 or a higher task is ready or wakes;
    a full slice then starts. Otherwise the task goes on with one tick less.
  */
  lemma TickPreemptsIff(s: Sys)
    requires Inv(s) && s.info[s.cur].state.Running?
    ensures Tick(s).cur in Tick(s).info
    ensures Tick(s).info[Tick(s).cur].slice == 10 <==> s.info[s.cur].slice == 1 || Outranked(s)
    ensures s.info[s.cur].slice == 1 || Outranked(s) ==> CanYield(Charged(s)) && Tick(s) == Yield(Charged(s))
    ensures !(s.info[s.cur].slice == 1 || Outranked(s)) ==>
      Tick(s).cur == s.cur && Tick(s).info[s.cur] == s.info[s.cur].(slice := s.info[s.cur].slice - 1)
  {
    ChargedCore(s);
    OutrankedIsTop(s);
    ChargedRunner(s);
    YieldPicksHighest(Charged(s));
  }

  lemma ChargedRunner(s: Sys)
    requires Inv(s) && s.info[s.cur].state.Running?
    ensures s.cur in Charged(s).info && Charged(s).info[s.cur] == s.info[s.cur].(slice := s.info[s.cur].slice - 1)
  {
    var s1 := s.(now := s.now + 1);
    PartitionFrame(s, s1);
    OrderedRuns(s, s1);
    Woken(s1);
    assert WokenInfo(s1, WakeSleepers(s1), s.cur);
  }

  /** Steps that the current task does not give up the CPU in. */
  predicate Passive(e: Step) {
    e.TickStep? || e.WakeStep? || e.CreateStep?
  }

  lemma PassiveStep(s: Sys, e: Step)
    requires Inv(s) && Enabled(s, e) && s.info[s.cur].state.Running? && (e.WakeStep? || e.CreateStep?)
    ensures Next(s, e).cur == s.cur && s.cur in Next(s, e).info && Next(s, e).info[s.cur] == s.info[s.cur]
  {
    if e.WakeStep? {
      var q := Wait(e.woken);
      ListedIn(s, q);
      if At(s.lists, q) != [] {
        assert Homed(s, q, At(s.lists, q)[0]);
        ReleasedFacts(s, q);
      }
    }
  }

  lemma {:induction false} TicksAppend(es: seq<Step>, e: Step)
    ensures Ticks(es + [e]) == Ticks(es) + if e.TickStep? then 1 else 0
    decreases |es|
  {
    if es == [] {
      assert es + [e] == [e] && [e][1..] == [];
    } else {
      assert (es + [e])[1..] == es[1..] + [e];
      TicksAppend(es[1..], e);
    }
  }

  /**
    A task that was given the CPU with a full slice and does not give it up keeps it for ten ticks, unless a higher
    task is ready or wakes at one of them.
  */
  lemma {:induction false} KeepsCpu(ss: seq<Sys>, es: seq<Step>, i: nat)
    requires IsRun(ss, es) && i < |ss| && ss[0].info[ss[0].cur].state.Running? && ss[0].info[ss[0].cur].slice == 10
    requires forall k {:trigger Passive(es[k])} | 0 <= k < i ::
      Passive(es[k]) && (es[k].TickStep? ==> !Outranked(ss[k]))
    requires Ticks(es[..i]) < 10
    ensures ss[i].cur == ss[0].cur && ss[0].cur in ss[i].info && ss[i].info[ss[0].cur].state.Running?
    ensures ss[i].info[ss[0].cur].slice == 10 - Ticks(es[..i])
    decreases i
  {
    if i == 0 {
      assert es[..0] == [];
    } else {
      var j := i - 1;
      assert es[..i] == es[..j] + [es[j]];
      TicksAppend(es[..j], es[j]);
      KeepsCpu(ss, es, j);
      RunInv(ss, es, j);
      assert StepOk(ss[j], es[j], ss[j + 1]) && Passive(es[j]);
      if es[j].TickStep? {
        TickPreemptsIff(ss[j]);
      } else {
        PassiveStep(ss[j], es[j]);
      }
    }
  }

  /** The tenth tick ends the slice: the CPU is given away, with a full slice. */
  lemma SliceEnds(ss: seq<Sys>, es: seq<Step>, i: nat)
    requires IsRun(ss, es) && i < |es| && ss[0].info[ss[0].cur].state.Running? && ss[0].info[ss[0].cur].slice == 10
    requires forall k {:trigger Passive(es[k])} | 0 <= k < i ::
      Passive(es[k]) && (es[k].TickStep? ==> !Outranked(ss[k]))
    requires Ticks(es[..i]) == 9 && es[i].TickStep?
    ensures Inv(ss[i])
    ensures CanYield(Charged(ss[i])) && ss[i + 1] == Yield(Charged(ss[i]))
    ensures ss[i + 1].cur in ss[i + 1].info && ss[i + 1].info[ss[i + 1].cur].slice == 10
  {
    KeepsCpu(ss, es, i);
    RunInv(ss, es, i);
    assert StepOk(ss[i], es[i], ss[i + 1]);
    TickPreemptsIff(ss[i]);
  }

  // ---------- the end of a task ----------

  predicate IsDead(s: Sys, t: nat) {
    t in s.info && s.info[t].state.Dead?
  }

  lemma YieldDead(s: Sys, t: nat)
    requires Core(s) && IsDead(s, t)
    ensures CanYield(s) && IsDead(Yield(s), t) && Yield(s).cur != t
  {
    YieldPartition(s);
    RequeuedPartition(s);
    var s1 := Requeued(s);
    assert Homed(s1, Run(Top(s1.lists, LEVELS)), Yield(s).cur);
  }

  lemma DeadStep(s: Sys, e: Step, t: nat)
    requires Inv(s) && Enabled(s, e) && IsDead(s, t) && !(e.CreateStep? && e.task == t)
    ensures IsDead(Next(s, e), t) && (s.cur != t || e.YieldStep? ==> Next(s, e).cur != t)
  {
    match e
    case TickStep =>
      ChargedStates(s);
      assert ChargedState(s, Charged(s), t);
      ChargedCore(s);
      YieldDead(Charged(s), t);
    case YieldStep => YieldDead(s, t);
    case WakeStep(o) =>
      ListedIn(s, Wait(o));
      if At(s.lists, Wait(o)) != [] {
        assert Homed(s, Wait(o), At(s.lists, Wait(o))[0]);
        ReleasedFacts(s, Wait(o));
      }
    case _ =>
  }

  /**
    In every run a task that exits is dead from then on, and once it has yielded it never has the CPU again, until its
    control block is given to a new task.
  */
  lemma {:induction false} ExitIsFinal(ss: seq<Sys>, es: seq<Step>, i: nat, j: nat, t: nat)
    requires IsRun(ss, es) && i < j < |ss| && es[i].ExitStep? && ss[i].cur == t
    requires forall k | i < k < j :: !(es[k].CreateStep? && es[k].task == t)
    ensures IsDead(ss[j], t)
    ensures (exists k | i < k < j :: es[k].YieldStep?) ==> ss[j].cur != t
    decreases j
  {
    var k := j - 1;
    RunInv(ss, es, k);
    assert StepOk(ss[k], es[k], ss[k + 1]);
    if k == i {
    } else {
      ExitIsFinal(ss, es, i, k, t);
      DeadStep(ss[k], es[k], t);
    }
  }
}
