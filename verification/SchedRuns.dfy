/**
  What holds over whole runs of the scheduler: order of waiting, exact wake-up times, and bounded waiting for the
  CPU.
*/
module SchedRuns {
  import opened LinkedList
  import opened SchedModel
  import opened TaskLinks

  // ---------- the order of the waiting lists ----------

  /** x goes before y on list q. */
  predicate Earlier(s: Sys, q: Place, x: nat, y: nat) {
    && x in s.info && y in s.info
    && var a, b := s.info[x], s.info[y];
       match q
       case Run(p) => true
       case Sleep => a.wake < b.wake || (a.wake == b.wake && a.stamp < b.stamp)
       case Wait(o) =>
         if o in s.mutexes then a.prio > b.prio || (a.prio == b.prio && a.stamp < b.stamp) else a.stamp < b.stamp
  }

  ghost predicate Sorted(s: Sys, q: Place, list: seq<nat>) {
    forall i, j {:trigger Earlier(s, q, list[i], list[j])} | 0 <= i < j < |list| :: Earlier(s, q, list[i], list[j])
  }

  /**
    Sleepers by wake-up time, waiters of a mutex by priority, other waiters by arrival; equals in the order in which
    they came.
  */
  ghost predicate Ordered(s: Sys) {
    forall q {:trigger Sorted(s, q, At(s.lists, q))} :: Sorted(s, q, At(s.lists, q))
  }

  /** No stamp has been given out yet that is not below the clock. */
  predicate Clocked(s: Sys) {
    forall t | t in s.info :: s.info[t].stamp < s.clock
  }

  /** Nobody sleeps past the wake-up time. */
  ghost predicate Awaited(s: Sys) {
    forall t | t in At(s.lists, Sleep) :: t in s.info && s.info[t].wake > s.now
  }

  ghost predicate Core(s: Sys) {
    Partition(s) && IdleOk(s) && Ordered(s) && Clocked(s) && Awaited(s)
  }

  ghost predicate Inv(s: Sys) {
    Core(s) && 1 <= s.info[s.cur].slice <= SLICE
  }

  /** The system after kernel_init: the idle task is current and ready, alone in its queue. */
  function Initial(idle: nat, mutexes: set<nat>): Sys {
    Sys(map[idle := Info(Ready, 0, 0, SLICE, 0)], map[Run(0) := [idle]], map[], idle, 0, 1, idle, mutexes)
  }

  /** The system before the idle task is created. */
  function Empty(idle: nat, mutexes: set<nat>): Sys {
    Sys(map[], map[], map[], idle, 0, 1, idle, mutexes)
  }

  lemma InitialIs(idle: nat, mutexes: set<nat>)
    ensures Create(Empty(idle, mutexes), idle, 0) == Initial(idle, mutexes)
  {
    assert Insert([], 0, idle) == [idle];
  }

  lemma InitialInv(idle: nat, mutexes: set<nat>)
    requires idle != 0
    ensures Inv(Initial(idle, mutexes))
  {
    var s := Initial(idle, mutexes);
    assert At(s.lists, Run(0)) == [idle];
    assert Placed(s, idle);
  }

  predicate SameKeys(a: Info, b: Info) {
    a.wake == b.wake && a.prio == b.prio && a.stamp == b.stamp
  }

  lemma SortedFrame(s: Sys, s': Sys, q: Place, list: seq<nat>)
    requires Sorted(s, q, list) && s'.mutexes == s.mutexes
    requires forall t | t in list :: t in s.info ==> t in s'.info && SameKeys(s.info[t], s'.info[t])
    ensures Sorted(s', q, list)
  {
    forall i, j | 0 <= i < j < |list| ensures Earlier(s', q, list[i], list[j]) {
      assert Earlier(s, q, list[i], list[j]);
      assert list[i] in list && list[j] in list;
    }
  }

  lemma SortedWithout(s: Sys, q: Place, list: seq<nat>, k: nat)
    requires Sorted(s, q, list) && k < |list|
    ensures Sorted(s, q, Without(list, k))
  {
  }

  /** A task that comes last of all and enters where the walk stops keeps the list sorted. */
  lemma SortedInsert(s: Sys, q: Place, list: seq<nat>, t: nat, k: nat)
    requires Sorted(s, q, list) && t in s.info && k <= |list|
    requires forall x | x in list :: x in s.info && s.info[x].stamp < s.info[t].stamp
    requires forall j | 0 <= j < k :: Passes(s, q, list[j], t)
    requires k < |list| ==> !Passes(s, q, list[k], t)
    ensures Sorted(s, q, Insert(list, k, t))
  {
    var r := Insert(list, k, t);
    forall i, j | 0 <= i < j < |r| ensures Earlier(s, q, r[i], r[j]) {
      if i != k && j != k {
        assert Earlier(s, q, list[if i < k then i else i - 1], list[if j < k then j else j - 1]);
      } else if j == k {
        assert list[i] in list && Passes(s, q, list[i], t);
      } else {
        assert list[k] in list && list[j - 1] in list;
        assert j - 1 > k ==> Earlier(s, q, list[k], list[j - 1]);
      }
    }
  }

  // ---------- the steps ----------

  /** The atomic sections of the kernel. */
  datatype Step =
    | TickStep
    | YieldStep
    | SleepStep(ticks: nat)
    | BlockStep(obj: nat)
    | WakeStep(woken: nat)
    | CreateStep(task: nat, prio: nat)
    | ExitStep

  /**
    Ticks and wake-ups come at any time, any current task may yield, and tasks are created even before one runs; only
    a running task does anything else, and idle never waits.
  */
  predicate Enabled(s: Sys, e: Step) {
    match e
    case TickStep => true
    case YieldStep => true
    case WakeStep(o) => true
    case CreateStep(t, p) => Unused(s, t) && t != 0 && p < LEVELS
    case SleepStep(n) => s.cur in s.info && s.info[s.cur].state.Running? && s.cur != s.idle && n > 0
    case _ => s.cur in s.info && s.info[s.cur].state.Running? && s.cur != s.idle
  }

  ghost function Next(s: Sys, e: Step): Sys
    requires Inv(s) && Enabled(s, e)
  {
    YieldPossible(s);
    ListedIn(s, Sleep);
    match e
    case TickStep => Tick(s)
    case YieldStep => Yield(s)
    case SleepStep(n) => SleepStart(s, n)
    case BlockStep(o) => ListedIn(s, Wait(o)); BlockStart(s, o)
    case WakeStep(o) => ListedIn(s, Wait(o)); Wake(s, o)
    case CreateStep(t, p) => Create(s, t, p)
    case ExitStep => ExitStart(s)
  }

  // ---------- every step keeps the invariant ----------

  /** A task enters or leaves a ready queue; the waiting lists and their tasks' keys stay. */
  lemma OrderedRuns(s: Sys, s': Sys)
    requires Ordered(s) && s'.mutexes == s.mutexes && s.info.Keys <= s'.info.Keys
    requires forall t | t in s.info :: SameKeys(s.info[t], s'.info[t])
    requires forall q: Place | !q.Run? :: At(s'.lists, q) == At(s.lists, q)
    requires Lists(s')
    ensures Ordered(s')
  {
    forall q ensures Sorted(s', q, At(s'.lists, q)) {
      if q.Run? {
        var list := At(s'.lists, q);
        forall i, j | 0 <= i < j < |list| ensures Earlier(s', q, list[i], list[j]) {
          assert Homed(s', q, list[i]) && Homed(s', q, list[j]);
        }
      } else {
        assert Sorted(s, q, At(s.lists, q));
        SortedFrame(s, s', q, At(s.lists, q));
      }
    }
  }

  lemma YieldInv(s: Sys)
    requires Core(s)
    ensures CanYield(s) && Inv(Yield(s))
  {
    YieldPartition(s);
    OrderedRuns(s, Yield(s));
  }

  lemma WaitingInv(s: Sys, q: Place, v: Info)
    requires Inv(s) && s.info[s.cur].state.Running? && s.cur != s.idle
    requires v.prio == s.info[s.cur].prio && v.slice == s.info[s.cur].slice && v.stamp == s.clock
    requires (q.Sleep? && v.state.Sleeping? && v.wake > s.now) || (q.Wait? && v.state.Blocked?)
    ensures forall x | x in At(s.lists, q) :: x in s.info
    ensures Inv(Waiting(s, q, v))
  {
    WaitingPartition(s, q, v);
    var t, s' := s.cur, Waiting(s, q, v);
    var s1 := Marked(s, q, v);
    Nowhere(s, t);
    forall r ensures Sorted(s', r, At(s'.lists, r)) {
      assert Sorted(s, r, At(s.lists, r));
      ListedIn(s, r);
      SortedFrame(s, s1, r, At(s.lists, r));
      if r == q {
        SortedInsert(s1, q, At(s.lists, q), t, Pos(s1, q, t, 0));
      }
      SortedFrame(s1, s', r, At(s'.lists, r));
    }
    forall x | x in At(s'.lists, Sleep) ensures x in s'.info && s'.info[x].wake > s'.now {
      if x != t {
        assert x in At(s.lists, Sleep);
      }
    }
  }

  lemma ReleasedInv(s: Sys, q: Place)
    requires Inv(s) && At(s.lists, q) != [] && !q.Run?
    ensures At(s.lists, q)[0] in s.info && Inv(Released(s, q))
  {
    ReleasedPartition(s, q);
    var s' := Released(s, q);
    assert Homed(s, q, At(s.lists, q)[0]);
    ReleasedOrdered(s, q);
  }

  lemma ReleasedOrdered(s: Sys, q: Place)
    requires Partition(s) && Ordered(s) && At(s.lists, q) != [] && !q.Run? && At(s.lists, q)[0] in s.info
    ensures Ordered(Released(s, q))
  {
    var s1 := Left(s, q, 0);
    ReleasedPartition(s, q);
    forall r ensures Sorted(s1, r, At(s1.lists, r)) {
      assert Sorted(s, r, At(s.lists, r));
      if r == q {
        SortedWithout(s, q, At(s.lists, q), 0);
      }
      SortedFrame(s, s1, r, At(s1.lists, r));
    }
    OrderedRuns(s1, Released(s, q));
  }

  /** The tasks of priority p among the sleepers whose time has come, in the order of the queue. */
  function Due(info: map<nat, Info>, list: seq<nat>, now: nat, p: nat): seq<nat>
    requires forall x | x in list :: x in info
  {
    if list == [] || info[list[0]].wake > now then []
    else (if info[list[0]].prio == p then [list[0]] else []) + Due(info, list[1..], now, p)
  }

  /** Due looks at wake-up times and priorities only. */
  lemma {:induction false} DueFrame(info: map<nat, Info>, info': map<nat, Info>, list: seq<nat>, now: nat, p: nat)
    requires forall x | x in list :: x in info && x in info' && SameKeys(info[x], info'[x])
    ensures Due(info', list, now, p) == Due(info, list, now, p)
    decreases |list|
  {
    if list == [] {
    } else {
      assert list[0] in list;
      assert forall x | x in list[1..] :: x in list;
      DueFrame(info, info', list[1..], now, p);
    }
  }

  /** What the wake-up loop does to one task. */
  predicate WokenInfo(s: Sys, s': Sys, t: nat)
    requires t in s.info
  {
    && t in s'.info
    && s'.info[t] == if s.info[t].state.Sleeping? &&
       s.info[t].wake <= s.now then s.info[t].(state := Ready) else s.info[t]
  }

  lemma ReleasedFacts(s: Sys, q: Place)
    requires Partition(s) && At(s.lists, q) != [] && !q.Run?
    ensures At(s.lists, q)[0] in s.info
    ensures var t, s' := At(s.lists, q)[0], Released(s, q);
      && At(s'.lists, q) == At(s.lists, q)[1..]
      && At(s'.lists, Run(s.info[t].prio)) == At(s.lists, Run(s.info[t].prio)) + [t]
      && (forall r | r != q && r != Run(s.info[t].prio) :: At(s'.lists, r) == At(s.lists, r))
      && s'.info == s.info[t := s.info[t].(state := Ready)]
  {
    assert Homed(s, q, At(s.lists, q)[0]);
  }

  ghost predicate WokenTasks(s: Sys, w: Sys) {
    forall t | t in s.info :: WokenInfo(s, w, t)
  }

  /** Ready queue p of w is that of s with the due sleepers behind. */
  ghost predicate WokenQueue(s: Sys, w: Sys, p: nat)
    requires forall x | x in At(s.lists, Sleep) :: x in s.info
  {
    At(w.lists, Run(p)) == At(s.lists, Run(p)) + Due(s.info, At(s.lists, Sleep), s.now, p)
  }

  ghost predicate SameRest(s: Sys, w: Sys) {
    && (forall o :: At(w.lists, Wait(o)) == At(s.lists, Wait(o)))
    && w.cur == s.cur && w.now == s.now && w.mutexes == s.mutexes && w.clock == s.clock && w.idle == s.idle &&
       w.where == s.where
  }

  /**
    The wake-up loop on a sorted queue readies exactly the sleepers whose time has come; each ready queue gets its
    share behind the tasks it had, in the order of the sleep queue; nothing else moves.
  */
  lemma {:induction false} Woken(s: Sys)
    requires Partition(s) && Ordered(s)
    ensures forall x | x in At(s.lists, Sleep) :: x in s.info
    ensures WokenTasks(s, WakeSleepers(s)) && SameRest(s, WakeSleepers(s)) && Ordered(WakeSleepers(s))
    ensures forall p {:trigger WokenQueue(s, WakeSleepers(s), p)} :: WokenQueue(s, WakeSleepers(s), p)
    decreases |At(s.lists, Sleep)|
  {
    ListedIn(s, Sleep);
    var list := At(s.lists, Sleep);
    if list == [] || s.info[list[0]].wake > s.now {
      forall t | t in s.info ensures WokenInfo(s, s, t) {
        assert Placed(s, t);
        if s.info[t].state.Sleeping? {
          LaterThanHead(s, t);
        }
      }
    } else {
      ReleasedPartition(s, Sleep);
      ReleasedOrdered(s, Sleep);
      var s1 := Released(s, Sleep);
      ReleasedFacts(s, Sleep);
      Woken(s1);
      var w := WakeSleepers(s1);
      WokenHead(s, s1, w);
      forall p ensures WokenQueue(s, w, p) {
        assert WokenQueue(s1, w, p);
        WokenHeadQueue(s, s1, w, p);
      }
    }
  }

  lemma LaterThanHead(s: Sys, t: nat)
    requires Ordered(s) && t in At(s.lists, Sleep) && t in s.info && At(s.lists, Sleep)[0] in s.info
    ensures s.info[t].wake >= s.info[At(s.lists, Sleep)[0]].wake
  {
    var list := At(s.lists, Sleep);
    var k :| 0 <= k < |list| && list[k] == t;
    assert Sorted(s, Sleep, list);
    assert k > 0 ==> Earlier(s, Sleep, list[0], list[k]);
  }

  lemma WokenHead(s: Sys, s1: Sys, w: Sys)
    requires Partition(s) && At(s.lists, Sleep) != [] && At(s.lists, Sleep)[0] in s.info
    requires s1 == Released(s, Sleep) && s.info[At(s.lists, Sleep)[0]].wake <= s.now
    requires WokenTasks(s1, w) && SameRest(s1, w)
    ensures WokenTasks(s, w) && SameRest(s, w)
  {
    ReleasedFacts(s, Sleep);
    assert Homed(s, Sleep, At(s.lists, Sleep)[0]);
    forall t | t in s.info ensures WokenInfo(s, w, t) {
      assert WokenInfo(s1, w, t);
    }
    assert forall o :: At(s1.lists, Wait(o)) == At(s.lists, Wait(o));
  }

  lemma WokenHeadQueue(s: Sys, s1: Sys, w: Sys, p: nat)
    requires At(s.lists, Sleep) != [] && forall x | x in At(s.lists, Sleep) :: x in s.info
    requires s.info[At(s.lists, Sleep)[0]].wake <= s.now == s1.now && At(s1.lists, Sleep) == At(s.lists, Sleep)[1..]
    requires var h := At(s.lists, Sleep)[0];
      && At(s1.lists, Run(p)) == At(s.lists, Run(p)) + (if s.info[h].prio == p then [h] else [])
      && s1.info == s.info[h := s.info[h].(state := Ready)]
    requires forall x | x in At(s1.lists, Sleep) :: x in s1.info
    requires WokenQueue(s1, w, p)
    ensures WokenQueue(s, w, p)
  {
    var list := At(s.lists, Sleep);
    assert forall x | x in list[1..] :: x in list;
    DueFrame(s.info, s1.info, list[1..], s.now, p);
  }

  lemma SpentCore(s: Sys)
    requires Core(s)
    ensures Core(Spent(s))
  {
    var s' := Spent(s);
    PartitionFrame(s, s');
    OrderedRuns(s, s');
  }

  lemma WokenCore(s: Sys)
    requires Partition(s) && IdleOk(s) && Ordered(s) && Clocked(s)
    ensures var w := WakeSleepers(s); Core(w) && w.cur == s.cur && w.info[s.cur].slice == s.info[s.cur].slice
  {
    WokenPartition(s);
    Woken(s);
    var w := WakeSleepers(s);
    forall t | t in w.info ensures w.info[t].stamp < w.clock {
      assert WokenInfo(s, w, t);
    }
    forall x | x in At(w.lists, Sleep) ensures x in w.info && w.info[x].wake > w.now {
      assert Homed(w, Sleep, x) && WokenInfo(s, w, x);
    }
    assert WokenInfo(s, w, s.cur);
  }

  lemma ChargedCore(s: Sys)
    requires Inv(s)
    ensures Core(Charged(s)) && Charged(s).cur == s.cur && Charged(s).info[s.cur].slice == s.info[s.cur].slice - 1
  {
    var s1 := s.(now := s.now + 1);
    PartitionFrame(s, s1);
    OrderedRuns(s, s1);
    WokenCore(s1);
    SpentCore(WakeSleepers(s1));
  }

  lemma TickInv(s: Sys)
    requires Inv(s)
    ensures Inv(Tick(s))
  {
    ChargedCore(s);
    YieldInv(Charged(s));
  }

  lemma CreateInv(s: Sys, t: nat, prio: nat)
    requires Inv(s) && Unused(s, t) && t != 0 && prio < LEVELS
    ensures Inv(Create(s, t, prio))
  {
    CreatePartition(s, t, prio);
    UnusedNowhere(s, t);
    var s1, s' := s.(info := s.info[t := Info(Ready, prio, 0, SLICE, 0)]), Create(s, t, prio);
    forall q ensures Sorted(s1, q, At(s1.lists, q)) {
      assert Sorted(s, q, At(s.lists, q));
      SortedFrame(s, s1, q, At(s.lists, q));
    }
    OrderedRuns(s1, s');
    assert 0 <= s.info[s.cur].stamp < s.clock;
  }

  lemma ExitInv(s: Sys)
    requires Inv(s) && s.info[s.cur].state.Running? && s.cur != s.idle
    ensures Inv(ExitStart(s))
  {
    ExitPartition(s);
    OrderedRuns(s, ExitStart(s));
  }

  /** The partition, the order of every waiting list and the rest of the invariant survive every step. */
  lemma StepInv(s: Sys, e: Step)
    requires Inv(s) && Enabled(s, e)
    ensures Inv(Next(s, e))
  {
    match e
    case TickStep => TickInv(s);
    case YieldStep => YieldInv(s);
    case SleepStep(n) => WaitingInv(s, Sleep, s.info[s.cur].(state := Sleeping, wake := s.now + n, stamp := s.clock));
    case BlockStep(o) => WaitingInv(s, Wait(o), s.info[s.cur].(state := Blocked, stamp := s.clock));
    case WakeStep(o) =>
      ListedIn(s, Wait(o));
      if At(s.lists, Wait(o)) != [] {
        ReleasedInv(s, Wait(o));
      }
    case CreateStep(t, p) => CreateInv(s, t, p);
    case ExitStep => ExitInv(s);
  }

  // ---------- runs ----------

  ghost predicate StepOk(a: Sys, e: Step, b: Sys) {
    Inv(a) ==> Enabled(a, e) && b == Next(a, e)
  }

  /** ss are the states of a run from an initial state that meets the invariant, es its steps. */
  ghost predicate IsRun(ss: seq<Sys>, es: seq<Step>) {
    && |ss| == |es| + 1 && Inv(ss[0])
    && forall i {:trigger es[i]} | 0 <= i < |es| :: StepOk(ss[i], es[i], ss[i + 1])
  }

  lemma {:induction false} RunInv(ss: seq<Sys>, es: seq<Step>, i: nat)
    requires IsRun(ss, es) && i < |ss|
    ensures Inv(ss[i])
    decreases i
  {
    if i == 0 {
    } else {
      RunInv(ss, es, i - 1);
      var j := i - 1;
      assert StepOk(ss[j], es[j], ss[j + 1]);
      StepInv(ss[j], es[j]);
    }
  }

  // ---------- the dispatched task has the highest priority ----------

  predicate NoneHigher(s: Sys, p: nat) {
    forall t | t in s.info && s.info[t].state.Ready? :: s.info[t].prio <= p
  }

  lemma BelowTop(s: Sys, p: int)
    requires Partition(s) && Top(s.lists, LEVELS) <= p
    ensures forall t | t in s.info && s.info[t].state.Ready? :: s.info[t].prio <= p
  {
    forall t | t in s.info && s.info[t].state.Ready? ensures s.info[t].prio <= p {
      assert Placed(s, t);
      TopAtLeast(s.lists, LEVELS, s.info[t].prio);
    }
  }

  /** After a yield the current task is running, with a full slice, and no ready task has a higher priority. */
  lemma YieldPicksHighest(s: Sys)
    requires Core(s)
    ensures CanYield(s) && var s' := Yield(s);
      && s'.cur in s'.info && s'.info[s'.cur].state.Running? && s'.info[s'.cur].slice == SLICE
      && NoneHigher(s', s'.info[s'.cur].prio)
  {
    YieldPartition(s);
    RequeuedPartition(s);
    var s1, s' := Requeued(s), Yield(s);
    var p := Top(s1.lists, LEVELS);
    BelowTop(s1, p);
    assert Homed(s1, Run(p), s'.cur);
    forall t | t in s'.info && s'.info[t].state.Ready? ensures s'.info[t].prio <= p {
      assert t in s1.info && s1.info[t].state.Ready?;
    }
  }

  /** After a tick no ready task has a higher priority than the current one. */
  lemma TickLeavesHighest(s: Sys)
    requires Inv(s)
    ensures var s' := Tick(s); s'.cur in s'.info && NoneHigher(s', s'.info[s'.cur].prio)
  {
    ChargedCore(s);
    var c := Charged(s);
    if Preempts(c) {
      YieldPicksHighest(c);
    } else {
      BelowTop(c, c.info[c.cur].prio);
    }
  }
}
