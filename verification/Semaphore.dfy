/** k_sem_take and k_sem_give of kernel/scheduler.c under every interleaving of their atomic pieces. */
module Semaphore {
  /** Where a task is in k_sem_take: outside; the count was read; the attempt failed; blocked; about to retry. */
  datatype Phase = Outside | Loaded(c: int) | Failed | Asleep | Woken

  /**
    count and max_count, the tasks blocked on the semaphore in their order, and every task's phase. The other fields
    are the ledger: the initial count, the gives so far, the takes that succeeded, the gives dropped at the maximum
    and the gives that woke a waiter instead of leaving a permit.
  */
  datatype Sem = Sem(count: int, max: int, waiters: seq<nat>, phase: map<nat, Phase>,
                     init: int, gives: nat, takes: nat, dropped: nat, spent: nat)

  function PhaseOf(s: Sem, t: nat): Phase {
    if t in s.phase then s.phase[t] else Outside
  }

  /** k_sem_init */
  function Init(init: int, max: int): Sem {
    Sem(init, max, [], map[], init, 0, 0, 0, 0)
  }

  datatype Step =
    | Load(t: nat)      // atomic_load of the count
    | Attempt(t: nat)   // the test and, for a positive count, the compare-and-swap
    | GiveUp(t: nat)    // return BUSY or TIMEOUT
    | Block(t: nat)     // the masked section that queues the task
    | Give(t: nat)      // k_sem_give, masked as a whole; t is the giver

  predicate Enabled(s: Sem, e: Step) {
    match e
    case Load(t) => PhaseOf(s, t).Outside? || PhaseOf(s, t).Woken?
    case Attempt(t) => PhaseOf(s, t).Loaded?
    case GiveUp(t) => PhaseOf(s, t).Failed?
    case Block(t) => PhaseOf(s, t).Failed?
    case Give(t) => PhaseOf(s, t).Outside?
  }

  /** The compare-and-swap of task t succeeds. */
  predicate Succeeds(s: Sem, t: nat) {
    PhaseOf(s, t).Loaded? && PhaseOf(s, t).c > 0 && s.count == PhaseOf(s, t).c
  }

  function Next(s: Sem, e: Step): Sem
    requires Enabled(s, e)
  {
    match e
    case Load(t) => s.(phase := s.phase[t := Loaded(s.count)])
    case Attempt(t) =>
      if Succeeds(s, t)
      then s.(count := PhaseOf(s, t).c - 1, takes := s.takes + 1, phase := s.phase[t := Outside])
      else s.(phase := s.phase[t := Failed])
    case GiveUp(t) => s.(phase := s.phase[t := Outside])
    case Block(t) => s.(phase := s.phase[t := Asleep], waiters := s.waiters + [t])
    case Give(t) =>
      if s.waiters != []
      then s.(gives := s.gives + 1, spent := s.spent + 1, waiters := s.waiters[1..],
          phase := s.phase[s.waiters[0] := Woken])
      else if s.count < s.max then s.(gives := s.gives + 1, count := s.count + 1)
      else s.(gives := s.gives + 1, dropped := s.dropped + 1)
  }

  ghost predicate Inv(s: Sem) {
    && 0 <= s.count <= s.max
    && s.init + s.gives == s.count + s.takes + s.dropped + s.spent
    && (forall i, j | 0 <= i < j < |s.waiters| :: s.waiters[i] != s.waiters[j])
    && forall t :: t in s.waiters <==> PhaseOf(s, t).Asleep?
  }

  lemma StepInv(s: Sem, e: Step)
    requires Inv(s) && Enabled(s, e)
    ensures Inv(Next(s, e))
  {
    match e
    case Block(t) => BlockInv(s, t);
    case Give(t) =>
      if s.waiters != [] {
        GiveInv(s, t);
      }
    case _ =>
      var s' := Next(s, e);
      forall x ensures x in s'.waiters <==> PhaseOf(s', x).Asleep? {
        assert x in s.waiters <==> PhaseOf(s, x).Asleep?;
      }
  }

  lemma BlockInv(s: Sem, t: nat)
    requires Inv(s) && Enabled(s, Block(t))
    ensures Inv(Next(s, Block(t)))
  {
    var s' := Next(s, Block(t));
    forall x ensures x in s'.waiters <==> PhaseOf(s', x).Asleep? {
      assert x in s'.waiters <==> x in s.waiters || x == t;
      assert x in s.waiters <==> PhaseOf(s, x).Asleep?;
    }
  }

  lemma GiveInv(s: Sem, t: nat)
    requires Inv(s) && Enabled(s, Give(t)) && s.waiters != []
    ensures Inv(Next(s, Give(t)))
  {
    var s', h, rest := Next(s, Give(t)), s.waiters[0], s.waiters[1..];
    forall k | 0 <= k < |rest| ensures rest[k] != h {
      assert rest[k] == s.waiters[k + 1];
    }
    assert s.waiters == [h] + rest;
    forall x ensures x in rest <==> PhaseOf(s', x).Asleep? {
      assert x in s.waiters <==> x == h || x in rest;
      assert x in s.waiters <==> PhaseOf(s, x).Asleep?;
    }
  }

  // ---------- runs ----------

  ghost predicate IsRun(ss: seq<Sem>, es: seq<Step>) {
    |ss| == |es| + 1 && forall i {:trigger es[i]} | 0 <= i < |es| :: (Enabled(ss[i], es[i]) &&
        ss[i + 1] == Next(ss[i], es[i]))
  }

  /**
    The ledger over every interleaving: the count stays between 0 and the maximum, every give is accounted for, and
    so the takes never exceed the initial permits and the gives.
  */
  lemma {:induction false} Ledger(ss: seq<Sem>, es: seq<Step>, i: nat, init: int, max: int)
    requires IsRun(ss, es) && i < |ss| && 0 <= init <= max && ss[0] == Init(init, max)
    ensures Inv(ss[i]) && ss[i].init == init && ss[i].max == max
    ensures init + ss[i].gives == ss[i].count + ss[i].takes + ss[i].dropped + ss[i].spent
    ensures ss[i].takes <= init + ss[i].gives
    decreases i
  {
    if i == 0 {
    } else {
      var j := i - 1;
      Ledger(ss, es, j, init, max);
      assert Enabled(ss[j], es[j]);
      StepInv(ss[j], es[j]);
    }
  }

  /** Every task that is not asleep can go on; one whose attempt failed may leave or block. */
  lemma CanGoOn(s: Sem, t: nat)
    ensures !PhaseOf(s, t).Asleep? ==> exists e: Step :: e.t == t && Enabled(s, e)
    ensures PhaseOf(s, t).Failed? ==> Enabled(s, GiveUp(t)) && Enabled(s, Block(t))
    ensures PhaseOf(s, t).Outside? ==> Enabled(s, Load(t)) && Enabled(s, Give(t))
    ensures PhaseOf(s, t).Asleep? ==> forall e: Step | e.t == t :: !Enabled(s, e)
  {
    match PhaseOf(s, t)
    case Loaded(_) => assert Enabled(s, Attempt(t)) && Attempt(t).t == t;
    case Failed => assert Enabled(s, Block(t)) && Block(t).t == t;
    case Asleep =>
    case _ => assert Enabled(s, Load(t)) && Load(t).t == t;
  }

  // ---------- where the gives go ----------

  /** A give is dropped exactly at the maximum with nobody waiting, and no other step drops anything. */
  lemma DropsIff(s: Sem, e: Step)
    requires Enabled(s, e)
    ensures Next(s, e).dropped == s.dropped + if e.Give? && s.waiters == [] && s.count >= s.max then 1 else 0
  {
  }

  /** Below the maximum with nobody waiting, a give leaves one permit more and moves nobody. */
  lemma GiveRaises(s: Sem, t: nat)
    requires Enabled(s, Give(t)) && s.waiters == [] && s.count < s.max
    ensures Next(s, Give(t)) == s.(count := s.count + 1, gives := s.gives + 1)
  {
  }

  /** A give with tasks waiting wakes the first of them and leaves the count alone. */
  lemma GiveWakes(s: Sem, t: nat)
    requires Enabled(s, Give(t)) && s.waiters != []
    ensures var s', w := Next(s, Give(t)), s.waiters[0];
      && s'.count == s.count && s'.takes == s.takes && s'.dropped == s.dropped && s'.waiters == s.waiters[1..]
      && PhaseOf(s', w).Woken? && forall x | x != w :: PhaseOf(s', x) == PhaseOf(s, x)
  {
  }

  /** A call that gives up is over, and nothing but its task's phase has changed. */
  lemma GiveUpLeaves(s: Sem, t: nat)
    requires Enabled(s, GiveUp(t))
    ensures PhaseOf(Next(s, GiveUp(t)), t).Outside? && Next(s, GiveUp(t)).(phase := s.phase) == s
    ensures forall x | x != t :: PhaseOf(Next(s, GiveUp(t)), x) == PhaseOf(s, x)
  {
  }

  /** Steps other than takes that succeed and tasks that go to sleep. */
  predicate NoTake(s: Sem, e: Step) {
    !e.Block? && !(e.Attempt? && Succeeds(s, e.t))
  }

  function Gives(es: seq<Step>): nat {
    if es == [] then 0 else (if es[0].Give? then 1 else 0) + Gives(es[1..])
  }

  function Least(a: int, b: int): int { if a < b then a else b }

  lemma {:induction false} GivesAppend(es: seq<Step>, e: Step)
    ensures Gives(es + [e]) == Gives(es) + if e.Give? then 1 else 0
    decreases |es|
  {
    if es == [] {
      assert es + [e] == [e] && [e][1..] == [];
    } else {
      assert (es + [e])[1..] == es[1..] + [e];
      GivesAppend(es[1..], e);
    }
  }

  /** With nobody waiting and no take, k gives bring the count from c to c + k, or to the maximum. */
  lemma {:induction false} GivesAddUp(ss: seq<Sem>, es: seq<Step>, i: nat)
    requires IsRun(ss, es) && Inv(ss[0]) && ss[0].waiters == [] && i < |ss|
    requires forall k {:trigger NoTake(ss[k], es[k])} | 0 <= k < i :: NoTake(ss[k], es[k])
    ensures ss[i].waiters == [] && ss[i].max == ss[0].max
    ensures ss[i].count == Least(ss[0].max, ss[0].count + Gives(es[..i]))
    decreases i
  {
    if i == 0 {
      assert es[..0] == [];
    } else {
      var j := i - 1;
      assert es[..i] == es[..j] + [es[j]];
      GivesAppend(es[..j], es[j]);
      GivesAddUp(ss, es, j);
      assert Enabled(ss[j], es[j]) && NoTake(ss[j], es[j]);
      NoTakeStep(ss[j], es[j]);
    }
  }

  lemma NoTakeStep(s: Sem, e: Step)
    requires Enabled(s, e) && NoTake(s, e) && s.waiters == [] && s.count <= s.max
    ensures Next(s, e).waiters == [] && Next(s, e).max == s.max
    ensures Next(s, e).count == Least(s.max, s.count + if e.Give? then 1 else 0)
  {
  }

  // ---------- nobody sleeps beside a free permit ----------

  predicate NoLost(s: Sem) {
    s.waiters != [] ==> s.count == 0
  }

  /** A task goes to sleep although a permit is free: the masked section queues it without testing the count again. */
  predicate SleepsBesidePermit(s: Sem, e: Step) {
    e.Block? && s.count > 0
  }

  lemma NoLostStepIff(s: Sem, e: Step)
    requires Inv(s) && Enabled(s, e) && NoLost(s)
    ensures NoLost(Next(s, e)) <==> !SleepsBesidePermit(s, e)
  {
    match e
    case Block(t) => assert Next(s, e).waiters == s.waiters + [t];
    case Attempt(t) => assert Next(s, e).waiters == s.waiters && Next(s, e).count <= s.count;
    case _ =>
  }

  /** In a run nobody ever sleeps beside a free permit exactly when no task goes to sleep with the count above 0. */
  lemma NoLostIff(ss: seq<Sem>, es: seq<Step>, init: int, max: int)
    requires IsRun(ss, es) && 0 <= init <= max && ss[0] == Init(init, max)
    ensures (forall i | 0 <= i < |ss| :: NoLost(ss[i])) <==>
            (forall i | 0 <= i < |es| :: !SleepsBesidePermit(ss[i], es[i]))
  {
    if forall i | 0 <= i < |ss| :: NoLost(ss[i]) {
      forall i | 0 <= i < |es| ensures !SleepsBesidePermit(ss[i], es[i]) {
        Ledger(ss, es, i, init, max);
        assert NoLost(ss[i]) && NoLost(ss[i + 1]);
        NoLostStepIff(ss[i], es[i]);
      }
    }
    if forall i | 0 <= i < |es| :: !SleepsBesidePermit(ss[i], es[i]) {
      forall i | 0 <= i < |ss| ensures NoLost(ss[i]) {
        StaysNoLost(ss, es, i, init, max);
      }
    }
  }

  lemma {:induction false} StaysNoLost(ss: seq<Sem>, es: seq<Step>, i: nat, init: int, max: int)
    requires IsRun(ss, es) && i < |ss| && 0 <= init <= max && ss[0] == Init(init, max)
    requires forall j | 0 <= j < |es| :: !SleepsBesidePermit(ss[j], es[j])
    ensures NoLost(ss[i])
    decreases i
  {
    if i == 0 {
      assert ss[0].waiters == [];
    } else {
      var j := i - 1;
      StaysNoLost(ss, es, j, init, max);
      Ledger(ss, es, j, init, max);
      assert Enabled(ss[j], es[j]) && !SleepsBesidePermit(ss[j], es[j]);
      NoLostStepIff(ss[j], es[j]);
    }
  }

  /** There is such a run: task 1 reads the count 0, task 2 gives, task 1 fails and blocks beside the free permit. */
  lemma LostWakeup()
    ensures exists ss: seq<Sem>, es: seq<Step> :: (IsRun(ss, es) && ss[0] == Init(0, 1) && ss[|es|].count > 0 &&
            PhaseOf(ss[|es|], 1).Asleep?)
  {
    var es := [Load(1), Give(2), Attempt(1), Block(1)];
    var s0 := Init(0, 1);
    var s1 := Next(s0, es[0]);
    var s2 := Next(s1, es[1]);
    var s3 := Next(s2, es[2]);
    var s4 := Next(s3, es[3]);
    var ss := [s0, s1, s2, s3, s4];
    assert IsRun(ss, es);
    assert ss[|es|].count > 0 && PhaseOf(ss[|es|], 1).Asleep?;
  }

  /** The state after t's give woke the first waiter, which read the count and made its attempt. */
  function Retried(s: Sem, t: nat): Sem
    requires Inv(s) && s.waiters != [] && Enabled(s, Give(t))
  {
    var w := s.waiters[0];
    Next(Next(Next(s, Give(t)), Load(w)), Attempt(w))
  }

  /**
    A give to the first waiter w serves a take exactly when a permit was free beside the waiters. Otherwise w reads 0,
    fails and can only leave or block again behind the others; the give is gone.
  */
  lemma WokenTakesIff(s: Sem, t: nat)
    requires Inv(s) && s.waiters != [] && Enabled(s, Give(t))
    ensures var s', w := Retried(s, t), s.waiters[0];
      && s'.gives == s.gives + 1 && s'.waiters == s.waiters[1..]
      && (s'.takes == s.takes + 1 <==> s.count > 0) && (PhaseOf(s', w).Outside? <==> s.count > 0)
      && (s.count == 0 ==> s'.takes == s.takes && s'.count == 0 && Enabled(s', Block(w)) &&
                           Next(s', Block(w)).waiters == s.waiters[1..] + [w])
  {
    var w := s.waiters[0];
    var s1 := Next(s, Give(t));
    assert PhaseOf(s1, w).Woken? && PhaseOf(Next(s1, Load(w)), w) == Loaded(s.count);
  }
}
