/**
  k_msgq_send and k_msgq_recv of kernel/scheduler.c under every interleaving of many senders and receivers: the steps
  of both semaphores, the masked copies and the gives.
*/
module MessageQueue {
  import opened MessageRing
  import Sem = Semaphore

  /**
    Where a task is: in the take of not_full, holding a permit for space, owing a give of not_empty; and the same for
    a receiver with the semaphores exchanged.
  */
  datatype Phase = Idle | Sending | HoldsSpace | OwesItem | Receiving | HoldsItem | OwesSpace

  /** The queue: two semaphores and the ring; the item each sender carries; all items copied in and out so far. */
  datatype Queue<T> = Queue(notFull: Sem.Sem, notEmpty: Sem.Sem, slots: seq<T>, head: nat, tail: nat, count: nat,
                            phase: map<nat, Phase>, item: map<nat, T>, sent: seq<T>, received: seq<T>)

  function PhaseOf(phase: map<nat, Phase>, t: nat): Phase {
    if t in phase then phase[t] else Idle
  }

  /** k_msgq_init */
  function Init<T>(slots: seq<T>): Queue<T> {
    Queue(Sem.Init(|slots|, |slots|), Sem.Init(0, |slots|), slots, 0, 0, 0, map[], map[], [], [])
  }

  datatype Step<T> =
    | BeginSend(t: nat, x: T)
    | SpaceStep(e: Sem.Step)    // a step of the take of not_full
    | CopyIn(t: nat)            // the masked copy of send
    | GiveItem(t: nat)          // the give of not_empty
    | BeginRecv(t: nat)
    | ItemStep(e: Sem.Step)     // a step of the take of not_empty
    | CopyOut(t: nat)           // the masked copy of recv
    | GiveSpace(t: nat)         // the give of not_full

  predicate Enabled<T>(q: Queue<T>, s: Step<T>) {
    match s
    case BeginSend(t, x) => PhaseOf(q.phase, t).Idle?
    case BeginRecv(t) => PhaseOf(q.phase, t).Idle?
    case SpaceStep(e) => !e.Give? && PhaseOf(q.phase, e.t).Sending? && Sem.Enabled(q.notFull, e)
    case ItemStep(e) => !e.Give? && PhaseOf(q.phase, e.t).Receiving? && Sem.Enabled(q.notEmpty, e)
    case CopyIn(t) => PhaseOf(q.phase, t).HoldsSpace? && t in q.item
    case CopyOut(t) => PhaseOf(q.phase, t).HoldsItem?
    case GiveItem(t) => PhaseOf(q.phase, t).OwesItem? && Sem.Enabled(q.notEmpty, Sem.Give(t))
    case GiveSpace(t) => PhaseOf(q.phase, t).OwesSpace? && Sem.Enabled(q.notFull, Sem.Give(t))
  }

  /** How a step of a take moves its task: on to the copy, out of the call, or not at all. */
  function AfterTake(phase: map<nat, Phase>, s: Sem.Sem, e: Sem.Step, holds: Phase): map<nat, Phase> {
    if e.Attempt? && Sem.Succeeds(s, e.t) then phase[e.t := holds]
    else if e.GiveUp? then phase[e.t := Idle]
    else phase
  }

  function Next<T>(q: Queue<T>, s: Step<T>): Queue<T>
    requires Enabled(q, s) && (s.CopyIn? ==> q.tail < |q.slots|)
    requires s.CopyOut? ==> q.head < |q.slots| && q.count > 0
  {
    match s
    case BeginSend(t, x) => q.(phase := q.phase[t := Sending], item := q.item[t := x])
    case BeginRecv(t) => q.(phase := q.phase[t := Receiving])
    case SpaceStep(e) => q.(notFull := Sem.Next(q.notFull, e), phase := AfterTake(q.phase, q.notFull, e, HoldsSpace))
    case ItemStep(e) => q.(notEmpty := Sem.Next(q.notEmpty, e), phase := AfterTake(q.phase, q.notEmpty, e, HoldsItem))
    case CopyIn(t) =>
      q.(slots := q.slots[q.tail := q.item[t]], tail := (q.tail + 1) % |q.slots|, count := q.count + 1,
         phase := q.phase[t := OwesItem], sent := q.sent + [q.item[t]])
    case CopyOut(t) =>
      q.(head := (q.head + 1) % |q.slots|, count := q.count - 1,
         phase := q.phase[t := OwesSpace], received := q.received + [q.slots[q.head]])
    case GiveItem(t) => q.(notEmpty := Sem.Next(q.notEmpty, Sem.Give(t)), phase := q.phase[t := Idle])
    case GiveSpace(t) => q.(notFull := Sem.Next(q.notFull, Sem.Give(t)), phase := q.phase[t := Idle])
  }

  // ---------- counting ----------

  function Members(phase: map<nat, Phase>, p: Phase): set<nat> {
    set t | t in phase && phase[t] == p
  }

  function Count(phase: map<nat, Phase>, p: Phase): nat {
    |Members(phase, p)|
  }

  function One(b: bool): int { if b then 1 else 0 }

  lemma MembersMoved(phase: map<nat, Phase>, t: nat, to: Phase, p: Phase)
    ensures Members(phase[t := to], p) == if to == p then Members(phase, p) + {t} else Members(phase, p) - {t}
  {
  }

  /** One task moves from one phase to another. */
  lemma CountMoved(phase: map<nat, Phase>, t: nat, to: Phase, p: Phase)
    requires !p.Idle?
    ensures Count(phase[t := to], p) == Count(phase, p) + One(to == p) - One(PhaseOf(phase, t) == p)
  {
    var m := Members(phase, p);
    MembersMoved(phase, t, to, p);
    if to == p {
      assert |m + {t}| == |m| + One(t !in m);
    } else {
      assert |m - {t}| == |m| - One(t in m);
    }
  }

  lemma AllMoved(phase: map<nat, Phase>, t: nat, to: Phase)
    ensures forall p: Phase {:trigger Count(phase[t := to], p)} | !p.Idle? ::
      Count(phase[t := to], p) == Count(phase, p) + One(to == p) - One(PhaseOf(phase, t) == p)
  {
    forall p: Phase | !p.Idle?
      ensures Count(phase[t := to], p) == Count(phase, p) + One(to == p) - One(PhaseOf(phase, t) == p)
    {
      CountMoved(phase, t, to, p);
    }
  }

  // ---------- the invariant ----------

  /** Takes and gives of both semaphores against the items that moved and the tasks under way. */
  predicate Accounts(notFull: Sem.Sem, notEmpty: Sem.Sem, phase: map<nat, Phase>, sent: nat, received: nat) {
    && notFull.takes == Count(phase, HoldsSpace) + sent && notFull.gives == received - Count(phase, OwesSpace)
    && notEmpty.takes == Count(phase, HoldsItem) + received && notEmpty.gives == sent - Count(phase, OwesItem)
  }

  /** Only tasks in phase p are in the hands of semaphore s. */
  ghost predicate InHands(s: Sem.Sem, phase: map<nat, Phase>, p: Phase) {
    forall t {:trigger PhaseOf(phase, t)} {:trigger Sem.PhaseOf(s, t)} :: Sem.PhaseOf(s, t).Outside? ||
           PhaseOf(phase, t) == p
  }

  predicate Carries<T>(phase: map<nat, Phase>, item: map<nat, T>) {
    forall t | t in phase && (phase[t].Sending? || phase[t].HoldsSpace?) :: t in item
  }

  ghost predicate Inv<T>(q: Queue<T>) {
    && Sem.Inv(q.notFull) && Sem.Inv(q.notEmpty)
    && q.notFull.init == |q.slots| && q.notEmpty.init == 0
    && Accounts(q.notFull, q.notEmpty, q.phase, |q.sent|, |q.received|)
    && InHands(q.notFull, q.phase, Sending) && InHands(q.notEmpty, q.phase, Receiving) && Carries(q.phase, q.item)
    && RingOk(q.slots, q.head, q.tail, q.count)
    && q.received + Contents(q.slots, q.head, q.count) == q.sent
  }

  function Lost(s: Sem.Sem): nat { s.dropped + s.spent }

  /**
    The permits for space: those free, those held, the items stored, the gives still owed and the gives lost on
    waiters add up to the capacity. The permits for items likewise add up to the items stored.
  */
  lemma Permits<T>(q: Queue<T>)
    requires Inv(q)
    ensures q.notFull.count + Count(q.phase, HoldsSpace) + q.count + Count(q.phase,
            OwesSpace) + Lost(q.notFull) == |q.slots|
    ensures q.notEmpty.count + Count(q.phase, HoldsItem) + Count(q.phase, OwesItem) + Lost(q.notEmpty) == q.count
  {
  }

  lemma Holder(phase: map<nat, Phase>, t: nat, p: Phase)
    requires t in phase && phase[t] == p
    ensures Count(phase, p) >= 1
  {
    assert t in Members(phase, p);
    if Members(phase, p) == {} {
      assert false;
    }
  }

  /** No copy overwrites an unread slot, and no copy reads an empty one. */
  lemma CopiesAreSafe<T>(q: Queue<T>, s: Step<T>)
    requires Inv(q) && Enabled(q, s)
    ensures s.CopyIn? ==> q.count < |q.slots| && q.tail < |q.slots|
    ensures s.CopyOut? ==> q.count > 0 && q.head < |q.slots|
  {
    Permits(q);
    if s.CopyIn? {
      Holder(q.phase, s.t, HoldsSpace);
    } else if s.CopyOut? {
      Holder(q.phase, s.t, HoldsItem);
    }
  }

  // ---------- every step keeps the invariant ----------

  /** A step of a take keeps the semaphore's hands on tasks in the take only. */
  lemma TakeHands(s: Sem.Sem, phase: map<nat, Phase>, e: Sem.Step, holds: Phase, taking: Phase)
    requires Sem.Enabled(s, e) && !e.Give? && PhaseOf(phase, e.t) == taking && InHands(s, phase, taking)
    ensures InHands(Sem.Next(s, e), AfterTake(phase, s, e, holds), taking)
  {
    var s', phase' := Sem.Next(s, e), AfterTake(phase, s, e, holds);
    forall t ensures Sem.PhaseOf(s', t).Outside? || PhaseOf(phase', t) == taking {
      assert Sem.PhaseOf(s, t).Outside? || PhaseOf(phase, t) == taking;
    }
  }

  /** A task outside the take may change its phase. */
  lemma MovedHands(s: Sem.Sem, phase: map<nat, Phase>, t: nat, to: Phase, p: Phase)
    requires InHands(s, phase, p) && PhaseOf(phase, t) != p
    ensures InHands(s, phase[t := to], p)
  {
  }

  /** A give hands out nothing: the woken task was in the take before. */
  lemma GiveHands(s: Sem.Sem, phase: map<nat, Phase>, t: nat, p: Phase)
    requires Sem.Inv(s) && Sem.Enabled(s, Sem.Give(t)) && InHands(s, phase, p)
    ensures InHands(Sem.Next(s, Sem.Give(t)), phase, p)
  {
  }

  lemma SpaceInv<T>(q: Queue<T>, e: Sem.Step)
    requires Inv(q) && Enabled(q, SpaceStep(e))
    ensures Inv(Next(q, SpaceStep(e)))
  {
    Sem.StepInv(q.notFull, e);
    AllMoved(q.phase, e.t, HoldsSpace);
    AllMoved(q.phase, e.t, Idle);
    TakeHands(q.notFull, q.phase, e, HoldsSpace, Sending);
    MovedHands(q.notEmpty, q.phase, e.t, HoldsSpace, Receiving);
    MovedHands(q.notEmpty, q.phase, e.t, Idle, Receiving);
  }

  lemma ItemInv<T>(q: Queue<T>, e: Sem.Step)
    requires Inv(q) && Enabled(q, ItemStep(e))
    ensures Inv(Next(q, ItemStep(e)))
  {
    Sem.StepInv(q.notEmpty, e);
    AllMoved(q.phase, e.t, HoldsItem);
    AllMoved(q.phase, e.t, Idle);
    TakeHands(q.notEmpty, q.phase, e, HoldsItem, Receiving);
    MovedHands(q.notFull, q.phase, e.t, HoldsItem, Sending);
    MovedHands(q.notFull, q.phase, e.t, Idle, Sending);
  }

  lemma BothHands<T>(q: Queue<T>, t: nat, to: Phase)
    requires Inv(q) && !PhaseOf(q.phase, t).Sending? && !PhaseOf(q.phase, t).Receiving?
    ensures InHands(q.notFull, q.phase[t := to], Sending) && InHands(q.notEmpty, q.phase[t := to], Receiving)
  {
  }

  lemma CopyInInv<T>(q: Queue<T>, t: nat)
    requires Inv(q) && Enabled(q, CopyIn(t)) && q.count < |q.slots| && q.tail < |q.slots|
    ensures Inv(Next(q, CopyIn(t)))
  {
    AllMoved(q.phase, t, OwesItem);
    PutContents(q.slots, q.head, q.tail, q.count, q.item[t]);
    BothHands(q, t, OwesItem);
  }

  lemma CopyOutInv<T>(q: Queue<T>, t: nat)
    requires Inv(q) && Enabled(q, CopyOut(t)) && q.count > 0 && q.head < |q.slots|
    ensures Inv(Next(q, CopyOut(t)))
  {
    AllMoved(q.phase, t, OwesSpace);
    TakeContents(q.slots, q.head, q.tail, q.count);
    var q' := Next(q, CopyOut(t));
    assert q'.received + Contents(q'.slots, q'.head, q'.count) == q.received + Contents(q.slots, q.head, q.count);
    BothHands(q, t, OwesSpace);
  }

  lemma GiveItemInv<T>(q: Queue<T>, t: nat)
    requires Inv(q) && Enabled(q, GiveItem(t))
    ensures Inv(Next(q, GiveItem(t)))
  {
    AllMoved(q.phase, t, Idle);
    BothHands(q, t, Idle);
    Sem.StepInv(q.notEmpty, Sem.Give(t));
    GiveHands(q.notEmpty, q.phase[t := Idle], t, Receiving);
  }

  lemma GiveSpaceInv<T>(q: Queue<T>, t: nat)
    requires Inv(q) && Enabled(q, GiveSpace(t))
    ensures Inv(Next(q, GiveSpace(t)))
  {
    AllMoved(q.phase, t, Idle);
    BothHands(q, t, Idle);
    Sem.StepInv(q.notFull, Sem.Give(t));
    GiveHands(q.notFull, q.phase[t := Idle], t, Sending);
  }

  lemma BeginInv<T>(q: Queue<T>, s: Step<T>)
    requires Inv(q) && Enabled(q, s) && (s.BeginSend? || s.BeginRecv?)
    ensures Inv(Next(q, s))
  {
    AllMoved(q.phase, s.t, Sending);
    AllMoved(q.phase, s.t, Receiving);
    BothHands(q, s.t, Sending);
    BothHands(q, s.t, Receiving);
  }

  lemma StepInv<T>(q: Queue<T>, s: Step<T>)
    requires Inv(q) && Enabled(q, s)
    ensures s.CopyIn? ==> q.tail < |q.slots|
    ensures s.CopyOut? ==> q.head < |q.slots| && q.count > 0
    ensures Inv(Next(q, s))
  {
    CopiesAreSafe(q, s);
    match s
    case SpaceStep(e) => SpaceInv(q, e);
    case ItemStep(e) => ItemInv(q, e);
    case CopyIn(t) => CopyInInv(q, t);
    case CopyOut(t) => CopyOutInv(q, t);
    case GiveItem(t) => GiveItemInv(q, t);
    case GiveSpace(t) => GiveSpaceInv(q, t);
    case BeginSend(t, x) => BeginInv(q, s);
    case BeginRecv(t) => BeginInv(q, s);
  }

  lemma InitInv<T>(slots: seq<T>)
    ensures Inv(Init(slots))
  {
    SemInit(|slots|, |slots|);
    SemInit(0, |slots|);
    EmptyCounts();
  }

  lemma SemInit(init: nat, max: nat)
    requires init <= max
    ensures Sem.Inv(Sem.Init(init, max)) && forall t :: Sem.PhaseOf(Sem.Init(init, max), t).Outside?
  {
  }

  lemma EmptyCounts()
    ensures forall p: Phase {:trigger Count(map[], p)} :: Count(map[], p) == 0
  {
  }

  // ---------- runs ----------

  ghost predicate Follows<T(!new)>(a: Queue<T>, s: Step<T>, b: Queue<T>) {
    && Enabled(a, s) && (s.CopyIn? ==> a.tail < |a.slots|) && (s.CopyOut? ==> a.head < |a.slots| && a.count > 0)
    && b == Next(a, s)
  }

  ghost predicate IsRun<T(!new)>(qs: seq<Queue<T>>, ss: seq<Step<T>>) {
    |qs| == |ss| + 1 && forall i {:trigger ss[i]} | 0 <= i < |ss| :: Follows(qs[i], ss[i], qs[i + 1])
  }

  /**
    Under every interleaving, in every state of a run: the permits add up, and the items received so far followed by
    the items stored are the items sent so far, in order. So receivers get what was sent, in the order of the copies.
  */
  lemma {:induction false} QueueIsFifo<T(!new)>(qs: seq<Queue<T>>, ss: seq<Step<T>>, slots: seq<T>, i: nat)
    requires IsRun(qs, ss) && qs[0] == Init(slots) && i < |qs|
    ensures Inv(qs[i]) && |qs[i].slots| == |slots|
    ensures qs[i].received + Contents(qs[i].slots, qs[i].head, qs[i].count) == qs[i].sent
    ensures qs[i].received <= qs[i].sent && |qs[i].sent| - |qs[i].received| <= |slots|
    decreases i
  {
    if i == 0 {
      InitInv(slots);
    } else {
      var j := i - 1;
      QueueIsFifo(qs, ss, slots, j);
      assert Follows(qs[j], ss[j], qs[j + 1]);
      StepInv(qs[j], ss[j]);
    }
    var q := qs[i];
    assert q.sent[..|q.received|] == q.received;
  }

  /**
    In every state that a run reaches, an enabled copy finds its slot: the guard that Follows repeats is never
    what stops it.
  */
  lemma CopiesNeverStuck<T(!new)>(qs: seq<Queue<T>>, ss: seq<Step<T>>, slots: seq<T>, i: nat, s: Step<T>)
    requires IsRun(qs, ss) && qs[0] == Init(slots) && i < |qs| && Enabled(qs[i], s)
    ensures s.CopyIn? ==> qs[i].tail < |slots| && qs[i].count < |slots|
    ensures s.CopyOut? ==> qs[i].head < |slots| && qs[i].count > 0
  {
    QueueIsFifo(qs, ss, slots, i);
    CopiesAreSafe(qs[i], s);
  }

  /** A call can always take its next step unless its task is asleep; nobody else can begin one. */
  lemma CallGoesOn<T(!new)>(q: Queue<T>, t: nat, x: T)
    requires Inv(q)
    ensures PhaseOf(q.phase, t).Idle? <==> Enabled(q, BeginSend(t, x))
    ensures PhaseOf(q.phase, t).Idle? <==> Enabled(q, BeginRecv(t))
    ensures PhaseOf(q.phase, t).HoldsSpace? <==> Enabled(q, CopyIn(t))
    ensures PhaseOf(q.phase, t).HoldsItem? <==> Enabled(q, CopyOut(t))
    ensures PhaseOf(q.phase, t).OwesItem? <==> Enabled(q, GiveItem(t))
    ensures PhaseOf(q.phase, t).OwesSpace? <==> Enabled(q, GiveSpace(t))
    ensures PhaseOf(q.phase, t).Sending? && !Sem.PhaseOf(q.notFull, t).Asleep? ==>
      exists e: Sem.Step :: e.t == t && Enabled(q, SpaceStep(e))
    ensures PhaseOf(q.phase, t).Receiving? && !Sem.PhaseOf(q.notEmpty, t).Asleep? ==>
      exists e: Sem.Step :: e.t == t && Enabled(q, ItemStep(e))
  {
    assert Sem.PhaseOf(q.notFull, t).Outside? || PhaseOf(q.phase, t).Sending?;
    assert Sem.PhaseOf(q.notEmpty, t).Outside? || PhaseOf(q.phase, t).Receiving?;
    if PhaseOf(q.phase, t).Sending? && !Sem.PhaseOf(q.notFull, t).Asleep? {
      var e := TakeGoesOn(q.notFull, t);
      assert Enabled(q, SpaceStep(e));
    }
    if PhaseOf(q.phase, t).Receiving? && !Sem.PhaseOf(q.notEmpty, t).Asleep? {
      var e := TakeGoesOn(q.notEmpty, t);
      assert Enabled(q, ItemStep(e));
    }
  }

  lemma TakeGoesOn(s: Sem.Sem, t: nat) returns (e: Sem.Step)
    requires !Sem.PhaseOf(s, t).Asleep?
    ensures e.t == t && !e.Give? && Sem.Enabled(s, e)
  {
    match Sem.PhaseOf(s, t)
    case Loaded(_) => e := Sem.Attempt(t);
    case Failed => e := Sem.Block(t);
    case Outside => e := Sem.Load(t);
    case Woken => e := Sem.Load(t);
  }

  // ---------- no give is dropped ----------

  /** Both semaphores go up to the capacity, and no give was dropped there. */
  predicate Whole<T>(q: Queue<T>) {
    && q.notFull.max == q.notEmpty.max == |q.slots|
    && q.notFull.dropped == q.notEmpty.dropped == 0
  }

  /** A task that owes a give leaves its semaphore below the capacity. */
  lemma StepWhole<T(!new)>(q: Queue<T>, s: Step<T>, q': Queue<T>)
    requires Inv(q) && Whole(q) && Follows(q, s, q')
    ensures Whole(q')
  {
    Permits(q);
    match s
    case SpaceStep(e) => Sem.DropsIff(q.notFull, e);
    case ItemStep(e) => Sem.DropsIff(q.notEmpty, e);
    case GiveItem(t) =>
      Holder(q.phase, t, OwesItem);
      Sem.DropsIff(q.notEmpty, Sem.Give(t));
    case GiveSpace(t) =>
      Holder(q.phase, t, OwesSpace);
      Sem.DropsIff(q.notFull, Sem.Give(t));
    case _ =>
  }

  /** In every state of every run no give was dropped: permits are lost on waiters only. */
  lemma {:induction false} NothingDropped<T(!new)>(qs: seq<Queue<T>>, ss: seq<Step<T>>, slots: seq<T>, i: nat)
    requires IsRun(qs, ss) && qs[0] == Init(slots) && i < |qs|
    ensures Inv(qs[i]) && Whole(qs[i]) && |qs[i].slots| == |slots|
    ensures var q := qs[i];
      && q.notFull.count + Count(q.phase, HoldsSpace) + q.count + Count(q.phase, OwesSpace) + q.notFull.spent == |slots|
      && q.notEmpty.count + Count(q.phase, HoldsItem) + Count(q.phase, OwesItem) + q.notEmpty.spent == q.count
    decreases i
  {
    QueueIsFifo(qs, ss, slots, i);
    if i == 0 {
    } else {
      var j := i - 1;
      NothingDropped(qs, ss, slots, j);
      assert Follows(qs[j], ss[j], qs[j + 1]);
      StepWhole(qs[j], ss[j], qs[j + 1]);
    }
    Permits(qs[i]);
  }

  // ---------- what one call does ----------

  /** The steps of k_msgq_send by task t when nothing comes in between and a permit is free. */
  function SendSteps<T>(t: nat, x: T): seq<Step<T>> {
    [BeginSend(t, x), SpaceStep(Sem.Load(t)), SpaceStep(Sem.Attempt(t)), CopyIn(t), GiveItem(t)]
  }

  /** The steps of k_msgq_recv by task t when nothing comes in between and a permit is free. */
  function RecvSteps<T>(t: nat): seq<Step<T>> {
    [BeginRecv(t), ItemStep(Sem.Load(t)), ItemStep(Sem.Attempt(t)), CopyOut(t), GiveSpace(t)]
  }

  /** The take of not_full, with a permit free. */
  lemma TakesSpace<T(!new)>(q: Queue<T>, t: nat, x: T) returns (q1: Queue<T>, q2: Queue<T>, q3: Queue<T>)
    requires Inv(q) && PhaseOf(q.phase, t).Idle? && q.notFull.count > 0
    ensures Follows(q, BeginSend(t, x), q1) && Follows(q1, SpaceStep(Sem.Load(t)), q2)
    ensures Follows(q2, SpaceStep(Sem.Attempt(t)), q3) && Inv(q3)
    ensures q3 == q.(notFull := q3.notFull, phase := q3.phase, item := q.item[t := x])
    ensures PhaseOf(q3.phase, t).HoldsSpace? && forall u | u != t :: PhaseOf(q3.phase, u) == PhaseOf(q.phase, u)
    ensures q3.notFull.waiters == q.notFull.waiters && q3.notFull.max == q.notFull.max
    ensures q3.notFull.dropped == q.notFull.dropped
  {
    q1 := Next(q, BeginSend(t, x));
    StepInv(q, BeginSend(t, x));
    assert Sem.PhaseOf(q.notFull, t).Outside? by {
      assert PhaseOf(q.phase, t).Idle?;
    }
    q2, q3 := LoadsSpace(q1, t);
  }

  lemma LoadsSpace<T(!new)>(q: Queue<T>, t: nat) returns (q1: Queue<T>, q2: Queue<T>)
    requires Inv(q) && PhaseOf(q.phase, t).Sending? && Sem.PhaseOf(q.notFull, t).Outside? && q.notFull.count > 0
    ensures Follows(q, SpaceStep(Sem.Load(t)), q1) && Follows(q1, SpaceStep(Sem.Attempt(t)), q2) && Inv(q2)
    ensures q2 == q.(notFull := q2.notFull, phase := q.phase[t := HoldsSpace])
    ensures q2.notFull.waiters == q.notFull.waiters && q2.notFull.max == q.notFull.max
    ensures q2.notFull.dropped == q.notFull.dropped
  {
    q1 := Next(q, SpaceStep(Sem.Load(t)));
    StepInv(q, SpaceStep(Sem.Load(t)));
    q2 := Next(q1, SpaceStep(Sem.Attempt(t)));
    StepInv(q1, SpaceStep(Sem.Attempt(t)));
  }

  lemma StepSound<T(!new)>(q: Queue<T>, s: Step<T>) returns (q': Queue<T>)
    requires Inv(q) && Whole(q) && Enabled(q, s)
    ensures Follows(q, s, q') && Inv(q') && Whole(q')
  {
    StepInv(q, s);
    q' := Next(q, s);
    StepWhole(q, s, q');
  }

  /** The copy and the give of a send, with no receiver waiting. */
  lemma PutsItem<T(!new)>(q: Queue<T>, t: nat, x: T) returns (q1: Queue<T>, q2: Queue<T>)
    requires Inv(q) && Whole(q) && PhaseOf(q.phase, t).HoldsSpace? && t in q.item && q.item[t] == x
    requires q.notEmpty.waiters == []
    ensures Follows(q, CopyIn(t), q1) && Follows(q1, GiveItem(t), q2) && Inv(q2) && Whole(q2)
    ensures q2.sent == q.sent + [x] && q2.received == q.received && q2.count == q.count + 1
    ensures q2.notFull == q.notFull && q2.notEmpty.waiters == [] && q2.notEmpty.count == q.notEmpty.count + 1
    ensures PhaseOf(q2.phase, t).Idle? && forall u | u != t :: PhaseOf(q2.phase, u) == PhaseOf(q.phase, u)
  {
    q1 := StepSound(q, CopyIn(t));
    GivesItem(q1, t);
    q2 := StepSound(q1, GiveItem(t));
  }

  lemma GivesItem<T(!new)>(q: Queue<T>, t: nat)
    requires Inv(q) && Whole(q) && PhaseOf(q.phase, t).OwesItem? && q.notEmpty.waiters == []
    ensures Enabled(q, GiveItem(t))
    ensures var e' := Next(q, GiveItem(t)).notEmpty; e'.count == q.notEmpty.count + 1 && e'.waiters == []
  {
    Permits(q);
    Holder(q.phase, t, OwesItem);
    assert Sem.PhaseOf(q.notEmpty, t).Outside? by {
      assert PhaseOf(q.phase, t).OwesItem?;
    }
    Sem.GiveRaises(q.notEmpty, t);
  }

  /** With space free and no receiver waiting, a send appends its item and leaves a permit for it. */
  lemma SendPasses<T(!new)>(q: Queue<T>, t: nat, x: T) returns (qs: seq<Queue<T>>, q': Queue<T>)
    requires Inv(q) && Whole(q) && PhaseOf(q.phase, t).Idle? && q.notFull.count > 0 && q.notEmpty.waiters == []
    ensures IsRun(qs, SendSteps(t, x)) && qs[0] == q && qs[5] == q' && Inv(q') && Whole(q')
    ensures q'.sent == q.sent + [x] && q'.received == q.received && q'.count == q.count + 1
    ensures q'.notEmpty.count == q.notEmpty.count + 1 && q'.notEmpty.waiters == []
    ensures q'.notFull.waiters == q.notFull.waiters && (forall u :: PhaseOf(q'.phase, u) == PhaseOf(q.phase, u))
  {
    var q1, q2, q3 := TakesSpace(q, t, x);
    var q4;
    q4, q' := PutsItem(q3, t, x);
    qs := [q, q1, q2, q3, q4, q'];
    FiveSteps(q, BeginSend(t, x), q1, SpaceStep(Sem.Load(t)), q2, SpaceStep(Sem.Attempt(t)), q3, CopyIn(t), q4,
              GiveItem(t), q');
    forall u ensures PhaseOf(q'.phase, u) == PhaseOf(q.phase, u) {
      assert PhaseOf(q3.phase, u) == PhaseOf(q.phase, u) || u == t;
    }
  }

  lemma FiveSteps<T(!new)>(q: Queue<T>, s0: Step<T>, q1: Queue<T>, s1: Step<T>, q2: Queue<T>, s2: Step<T>,
                           q3: Queue<T>, s3: Step<T>, q4: Queue<T>, s4: Step<T>, q5: Queue<T>)
    requires Follows(q, s0, q1) && Follows(q1, s1, q2) && Follows(q2, s2, q3) && Follows(q3, s3, q4)
    requires Follows(q4, s4, q5)
    ensures IsRun([q, q1, q2, q3, q4, q5], [s0, s1, s2, s3, s4])
  {
  }

  /** The take of not_empty, with a permit free. */
  lemma TakesItem<T(!new)>(q: Queue<T>, t: nat) returns (q1: Queue<T>, q2: Queue<T>, q3: Queue<T>)
    requires Inv(q) && PhaseOf(q.phase, t).Idle? && q.notEmpty.count > 0
    ensures Follows(q, BeginRecv(t), q1) && Follows(q1, ItemStep(Sem.Load(t)), q2)
    ensures Follows(q2, ItemStep(Sem.Attempt(t)), q3) && Inv(q3)
    ensures q3 == q.(notEmpty := q3.notEmpty, phase := q3.phase) && PhaseOf(q3.phase, t).HoldsItem?
    ensures q3.notEmpty.max == q.notEmpty.max && q3.notEmpty.dropped == q.notEmpty.dropped
  {
    q1 := Next(q, BeginRecv(t));
    StepInv(q, BeginRecv(t));
    assert Sem.PhaseOf(q.notEmpty, t).Outside? by {
      assert PhaseOf(q.phase, t).Idle?;
    }
    q2, q3 := LoadsItem(q1, t);
  }

  lemma LoadsItem<T(!new)>(q: Queue<T>, t: nat) returns (q1: Queue<T>, q2: Queue<T>)
    requires Inv(q) && PhaseOf(q.phase, t).Receiving? && Sem.PhaseOf(q.notEmpty, t).Outside? && q.notEmpty.count > 0
    ensures Follows(q, ItemStep(Sem.Load(t)), q1) && Follows(q1, ItemStep(Sem.Attempt(t)), q2) && Inv(q2)
    ensures q2 == q.(notEmpty := q2.notEmpty, phase := q.phase[t := HoldsItem])
    ensures q2.notEmpty.max == q.notEmpty.max && q2.notEmpty.dropped == q.notEmpty.dropped
  {
    q1 := Next(q, ItemStep(Sem.Load(t)));
    StepInv(q, ItemStep(Sem.Load(t)));
    q2 := Next(q1, ItemStep(Sem.Attempt(t)));
    StepInv(q1, ItemStep(Sem.Attempt(t)));
  }

  /** The copy and the give of a receive, with no sender waiting; x is the oldest item. */
  lemma GetsItem<T(!new)>(q: Queue<T>, t: nat) returns (q1: Queue<T>, q2: Queue<T>, x: T)
    requires Inv(q) && Whole(q) && PhaseOf(q.phase, t).HoldsItem? && q.notFull.waiters == []
    ensures Follows(q, CopyOut(t), q1) && Follows(q1, GiveSpace(t), q2) && Inv(q2) && Whole(q2)
    ensures q.count > 0 && |Contents(q.slots, q.head, q.count)| == q.count && x == Contents(q.slots, q.head, q.count)[0]
    ensures q2.received == q.received + [x] && q2.sent == q.sent
    ensures q2.count == q.count - 1 && q2.notFull.count == q.notFull.count + 1
  {
    CopiesAreSafe(q, CopyOut(t));
    TakeContents(q.slots, q.head, q.tail, q.count);
    x := q.slots[q.head];
    q1 := StepSound(q, CopyOut(t));
    GivesSpace(q1, t);
    q2 := StepSound(q1, GiveSpace(t));
  }

  lemma GivesSpace<T(!new)>(q: Queue<T>, t: nat)
    requires Inv(q) && Whole(q) && PhaseOf(q.phase, t).OwesSpace? && q.notFull.waiters == []
    ensures Enabled(q, GiveSpace(t)) && Next(q, GiveSpace(t)).notFull.count == q.notFull.count + 1
  {
    Permits(q);
    Holder(q.phase, t, OwesSpace);
    assert Sem.PhaseOf(q.notFull, t).Outside? by {
      assert PhaseOf(q.phase, t).OwesSpace?;
    }
    Sem.GiveRaises(q.notFull, t);
  }

  /** With an item's permit free and no sender waiting, a receive takes the oldest item, x. */
  lemma RecvPasses<T(!new)>(q: Queue<T>, t: nat) returns (qs: seq<Queue<T>>, q': Queue<T>, x: T)
    requires Inv(q) && Whole(q) && PhaseOf(q.phase, t).Idle? && q.notEmpty.count > 0 && q.notFull.waiters == []
    ensures IsRun(qs, RecvSteps(t)) && qs[0] == q && qs[5] == q' && Inv(q') && Whole(q')
    ensures q.count > 0 && |Contents(q.slots, q.head, q.count)| == q.count && x == Contents(q.slots, q.head, q.count)[0]
    ensures q'.received == q.received + [x] && q'.sent == q.sent
    ensures q'.count == q.count - 1 && q'.notFull.count == q.notFull.count + 1
  {
    var q1, q2, q3 := TakesItem(q, t);
    var q4;
    q4, q', x := GetsItem(q3, t);
    qs := [q, q1, q2, q3, q4, q'];
    FiveSteps(q, BeginRecv(t), q1, ItemStep(Sem.Load(t)), q2, ItemStep(Sem.Attempt(t)), q3, CopyOut(t), q4,
              GiveSpace(t), q');
  }

  /**
    With space free and nobody waiting, a send and then a receive: the oldest item comes out, the new one when there was
    none.
  */
  lemma SendThenReceive<T(!new)>(q: Queue<T>, t: nat, x: T, u: nat) returns (qs: seq<Queue<T>>, rs: seq<Queue<T>>)
    requires Inv(q) && Whole(q) && PhaseOf(q.phase, t).Idle? && PhaseOf(q.phase, u).Idle?
    requires q.notFull.count > 0 && q.notFull.waiters == [] && q.notEmpty.waiters == []
    ensures IsRun(qs, SendSteps(t, x)) && qs[0] == q && IsRun(rs, RecvSteps(u)) && rs[0] == qs[5]
    ensures rs[5].sent == q.sent + [x]
    ensures rs[5].received == q.received + [(Contents(q.slots, q.head, q.count) + [x])[0]]
  {
    var q1, q2, y;
    qs, q1 := SendPasses(q, t, x);
    rs, q2, y := RecvPasses(q1, u);
    var before, after := Contents(q.slots, q.head, q.count), Contents(q1.slots, q1.head, q1.count);
    assert q.received + after == q.sent + [x] == q.received + (before + [x]);
    assert after == (q.received + after)[|q.received|..] == before + [x];
  }

  /** What a task copies in is what its call of k_msgq_send was given. */
  lemma {:induction false} CarriesItsItem<T(!new)>(qs: seq<Queue<T>>, ss: seq<Step<T>>, i: nat, j: nat, t: nat, x: T)
    requires IsRun(qs, ss) && i < j < |qs| && ss[i] == BeginSend(t, x)
    requires forall k | i < k < j :: !(ss[k].BeginSend? && ss[k].t == t)
    ensures t in qs[j].item && qs[j].item[t] == x
    ensures j < |ss| && ss[j] == CopyIn(t) ==> qs[j + 1].sent == qs[j].sent + [x]
    decreases j
  {
    var k := j - 1;
    assert Follows(qs[k], ss[k], qs[k + 1]);
    if k == i {
    } else {
      CarriesItsItem(qs, ss, i, k, t, x);
    }
    if j < |ss| {
      assert Follows(qs[j], ss[j], qs[j + 1]);
    }
  }

  /** A call that times out leaves the queue as it was and is over. */
  lemma TimeoutLeaves<T>(q: Queue<T>, s: Step<T>)
    requires Enabled(q, s) && (s.SpaceStep? || s.ItemStep?) && s.e.GiveUp?
    ensures PhaseOf(Next(q, s).phase, s.e.t).Idle?
    ensures forall u | u != s.e.t :: PhaseOf(Next(q, s).phase, u) == PhaseOf(q.phase, u)
    ensures var q' := Next(q, s);
      && q'.slots == q.slots && q'.head == q.head && q'.tail == q.tail && q'.count == q.count
      && q'.sent == q.sent && q'.received == q.received
      && q'.notFull.count == q.notFull.count && q'.notEmpty.count == q.notEmpty.count
      && q'.notFull.waiters == q.notFull.waiters && q'.notEmpty.waiters == q.notEmpty.waiters
  {
  }

  // ---------- nobody sleeps beside a free permit ----------

  predicate NoLost<T>(q: Queue<T>) {
    Sem.NoLost(q.notFull) && Sem.NoLost(q.notEmpty)
  }

  /** A sender or a receiver goes to sleep although its semaphore has a permit. */
  predicate SleepsBesidePermit<T>(q: Queue<T>, s: Step<T>) {
    match s
    case SpaceStep(e) => Sem.SleepsBesidePermit(q.notFull, e)
    case ItemStep(e) => Sem.SleepsBesidePermit(q.notEmpty, e)
    case _ => false
  }

  lemma NoLostStepIff<T(!new)>(q: Queue<T>, s: Step<T>, q': Queue<T>)
    requires Inv(q) && Follows(q, s, q') && NoLost(q)
    ensures NoLost(q') <==> !SleepsBesidePermit(q, s)
  {
    match s
    case SpaceStep(e) => Sem.NoLostStepIff(q.notFull, e);
    case ItemStep(e) => Sem.NoLostStepIff(q.notEmpty, e);
    case GiveItem(t) => Sem.NoLostStepIff(q.notEmpty, Sem.Give(t));
    case GiveSpace(t) => Sem.NoLostStepIff(q.notFull, Sem.Give(t));
    case _ =>
  }

  /** In a run nobody ever sleeps beside a free permit exactly when nobody goes to sleep with one free. */
  lemma NoLostIff<T(!new)>(qs: seq<Queue<T>>, ss: seq<Step<T>>, slots: seq<T>)
    requires IsRun(qs, ss) && qs[0] == Init(slots)
    ensures (forall i | 0 <= i < |qs| :: NoLost(qs[i])) <==>
            (forall i | 0 <= i < |ss| :: !SleepsBesidePermit(qs[i], ss[i]))
  {
    if forall i | 0 <= i < |qs| :: NoLost(qs[i]) {
      forall i | 0 <= i < |ss| ensures !SleepsBesidePermit(qs[i], ss[i]) {
        QueueIsFifo(qs, ss, slots, i);
        assert NoLost(qs[i]) && NoLost(qs[i + 1]) && Follows(qs[i], ss[i], qs[i + 1]);
        NoLostStepIff(qs[i], ss[i], qs[i + 1]);
      }
    }
    if forall i | 0 <= i < |ss| :: !SleepsBesidePermit(qs[i], ss[i]) {
      forall i | 0 <= i < |qs| ensures NoLost(qs[i]) {
        StaysNoLost(qs, ss, slots, i);
      }
    }
  }

  lemma {:induction false} StaysNoLost<T(!new)>(qs: seq<Queue<T>>, ss: seq<Step<T>>, slots: seq<T>, i: nat)
    requires IsRun(qs, ss) && qs[0] == Init(slots) && i < |qs|
    requires forall j | 0 <= j < |ss| :: !SleepsBesidePermit(qs[j], ss[j])
    ensures NoLost(qs[i])
    decreases i
  {
    if i == 0 {
      assert qs[0].notFull.waiters == [] && qs[0].notEmpty.waiters == [];
    } else {
      var j := i - 1;
      StaysNoLost(qs, ss, slots, j);
      QueueIsFifo(qs, ss, slots, j);
      assert Follows(qs[j], ss[j], qs[j + 1]) && !SleepsBesidePermit(qs[j], ss[j]);
      NoLostStepIff(qs[j], ss[j], qs[j + 1]);
    }
  }

  /** Task t gives an item, the first waiting receiver w wakes, reads the count of not_empty and makes its attempt. */
  function Retried<T>(q: Queue<T>, t: nat, w: nat): Queue<T>
    requires Sem.Inv(q.notEmpty) && Enabled(q, GiveItem(t)) && q.notEmpty.waiters != [] && w == q.notEmpty.waiters[0]
    requires InHands(q.notEmpty, q.phase, Receiving)
  {
    var q1 := Next(q, GiveItem(t));
    assert w in q.notEmpty.waiters && PhaseOf(q.phase, w).Receiving?;
    Next(Next(q1, ItemStep(Sem.Load(w))), ItemStep(Sem.Attempt(w)))
  }

  /**
    What a send does for the first waiting receiver w: w gets an item exactly when not_empty had a permit free beside
    its waiters. Otherwise w fails with the item in the queue, and can only leave or block again behind the others.
  */
  lemma WokenReceivesIff<T>(q: Queue<T>, t: nat, w: nat)
    requires Inv(q) && Enabled(q, GiveItem(t)) && q.notEmpty.waiters != [] && w == q.notEmpty.waiters[0]
    ensures q.count >= 1
    ensures var q' := Retried(q, t, w);
      && q'.count == q.count && q'.received == q.received
      && (PhaseOf(q'.phase, w).HoldsItem? <==> q.notEmpty.count > 0)
    ensures q.notEmpty.count == 0 ==> Enabled(Retried(q, t, w), ItemStep(Sem.Block(w)))
    ensures q.notEmpty.count == 0 ==>
      var q' := Next(Retried(q, t, w), ItemStep(Sem.Block(w)));
      q'.notEmpty.waiters == q.notEmpty.waiters[1..] + [w] && q'.notEmpty.count == 0 && q'.count == q.count
  {
    Permits(q);
    Holder(q.phase, t, OwesItem);
    assert w in q.notEmpty.waiters && PhaseOf(q.phase, w).Receiving?;
    Sem.WokenTakesIff(q.notEmpty, t);
  }

  /** Task t gives space, the first waiting sender w wakes, reads the count of not_full and makes its attempt. */
  function SendRetried<T>(q: Queue<T>, t: nat, w: nat): Queue<T>
    requires Sem.Inv(q.notFull) && Enabled(q, GiveSpace(t)) && q.notFull.waiters != [] && w == q.notFull.waiters[0]
    requires InHands(q.notFull, q.phase, Sending)
  {
    var q1 := Next(q, GiveSpace(t));
    assert w in q.notFull.waiters && PhaseOf(q.phase, w).Sending?;
    Next(Next(q1, SpaceStep(Sem.Load(w))), SpaceStep(Sem.Attempt(w)))
  }

  /**
    What a receive does for the first waiting sender w: w gets a slot exactly when not_full had a permit free beside
    its waiters. Otherwise w fails with room in the queue, and can only leave or block again behind the others.
  */
  lemma WokenSendsIff<T>(q: Queue<T>, t: nat, w: nat)
    requires Inv(q) && Enabled(q, GiveSpace(t)) && q.notFull.waiters != [] && w == q.notFull.waiters[0]
    ensures q.count < |q.slots|
    ensures var q' := SendRetried(q, t, w);
      && q'.count == q.count && q'.sent == q.sent
      && (PhaseOf(q'.phase, w).HoldsSpace? <==> q.notFull.count > 0)
    ensures q.notFull.count == 0 ==> Enabled(SendRetried(q, t, w), SpaceStep(Sem.Block(w)))
    ensures q.notFull.count == 0 ==>
      var q' := Next(SendRetried(q, t, w), SpaceStep(Sem.Block(w)));
      q'.notFull.waiters == q.notFull.waiters[1..] + [w] && q'.notFull.count == 0 && q'.count == q.count
  {
    Permits(q);
    Holder(q.phase, t, OwesSpace);
    assert w in q.notFull.waiters && PhaseOf(q.phase, w).Sending?;
    Sem.WokenTakesIff(q.notFull, t);
  }
}
