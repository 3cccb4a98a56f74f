/** k_timer_start and the timer loop of sched_tick_isr in kernel/scheduler.c. Callbacks do not touch the timer list. */
module Timers {
  import opened LinkedList
  import opened Multiplication
  import opened TaskLinks

  datatype Timer = Timer(expire: nat, period: nat, active: bool)

  /** All timers, those started in list order, and the tick count. */
  datatype Clock = Clock(timers: map<nat, Timer>, list: seq<nat>, now: nat)

  ghost predicate Ok(c: Clock) {
    Distinct(c.list) && forall t | t in c.list :: t in c.timers
  }

  // ---------- what a tick does ----------

  predicate IsDue(t: Timer, now: nat) {
    t.active && now >= t.expire
  }

  function Rearmed(t: Timer, now: nat): Timer {
    if !IsDue(t, now) then t
    else if t.period > 0 then t.(expire := now + t.period)
    else t.(active := false)
  }

  /** The timers whose callbacks run, in list order. */
  function FiredOf(timers: map<nat, Timer>, list: seq<nat>, now: nat): seq<nat>
    requires forall t | t in list :: t in timers
  {
    if list == [] then []
    else (if IsDue(timers[list[0]], now) then [list[0]] else []) + FiredOf(timers, list[1..], now)
  }

  lemma {:induction false} FiredMember(timers: map<nat, Timer>, list: seq<nat>, now: nat, t: nat)
    requires forall x | x in list :: x in timers
    ensures t in FiredOf(timers, list, now) <==> t in list && IsDue(timers[t], now)
    decreases |list|
  {
    if list == [] {
    } else {
      assert list == [list[0]] + list[1..];
      assert forall x | x in list[1..] :: x in list;
      FiredMember(timers, list[1..], now, t);
    }
  }

  function AllRearmed(timers: map<nat, Timer>, list: seq<nat>, now: nat): map<nat, Timer> {
    map t | t in timers :: if t in list then Rearmed(timers[t], now) else timers[t]
  }

  function Ticked(c: Clock): Clock {
    Clock(AllRearmed(c.timers, c.list, c.now + 1), c.list, c.now + 1)
  }

  // ---------- what a start does ----------

  function At(list: seq<nat>, k: nat): nat {
    if k < |list| then list[k] else 0
  }

  /** Where the walk stops: at the first timer that expires later. */
  function Pos(timers: map<nat, Timer>, list: seq<nat>, expire: nat, k: nat): (r: nat)
    requires k <= |list| && forall t | t in list :: t in timers
    ensures k <= r <= |list|
    decreases |list| - k
  {
    if k < |list| && timers[list[k]].expire <= expire then Pos(timers, list, expire, k + 1) else k
  }

  /** Position k is behind every timer up to the first that expires later. */
  predicate Behind(timers: map<nat, Timer>, list: seq<nat>, expire: nat, k: int) {
    && 0 <= k <= |list| && (forall t | t in list :: t in timers)
    && (forall j | 0 <= j < k :: timers[list[j]].expire <= expire)
    && (k < |list| ==> timers[list[k]].expire > expire)
  }

  function Started(c: Clock, t: nat, ms: nat, periodic: bool): Clock
    requires forall x | x in c.list :: x in c.timers
  {
    var timers := c.timers[t := Timer(c.now + ms, if periodic then ms else 0, true)];
    Clock(timers, Insert(c.list, Pos(timers, c.list, c.now + ms, 0), t), c.now)
  }

  lemma {:induction false} PosStops(timers: map<nat, Timer>, list: seq<nat>, expire: nat, k: nat)
    requires k <= |list| && forall t | t in list :: t in timers
    ensures var r := Pos(timers, list, expire, k);
      && (forall j | k <= j < r :: timers[list[j]].expire <= expire)
      && (r < |list| ==> timers[list[r]].expire > expire)
    decreases |list| - k
  {
    if k == |list| || timers[list[k]].expire > expire {
    } else {
      PosStops(timers, list, expire, k + 1);
    }
  }

  /** The new timer stands behind every timer up to the first that expires later. */
  lemma StartedList(c: Clock, t: nat, ms: nat, periodic: bool)
    requires Ok(c) && t !in c.list
    ensures var s := Started(c, t, ms, periodic);
      exists k :: Behind(s.timers, c.list, c.now + ms, k) && s.list == c.list[..k] + [t] + c.list[k..]
  {
    var s := Started(c, t, ms, periodic);
    PosStops(s.timers, c.list, c.now + ms, 0);
    assert Behind(s.timers, c.list, c.now + ms, Pos(s.timers, c.list, c.now + ms, 0));
  }

  lemma StartedOk(c: Clock, t: nat, ms: nat, periodic: bool)
    requires Ok(c) && t !in c.list
    ensures Ok(Started(c, t, ms, periodic)) && t in Started(c, t, ms, periodic).list
    ensures forall x | x in c.list :: x in Started(c, t, ms, periodic).list
  {
  }

  // ---------- runs ----------

  datatype Op = TickOp | StartOp(timer: nat, ms: nat, periodic: bool)

  ghost predicate Follows(a: Clock, op: Op, b: Clock) {
    && Ok(a)
    && match op
       case TickOp => b == Ticked(a)
       case StartOp(t, ms, periodic) => t !in a.list && b == Started(a, t, ms, periodic)
  }

  /** A run: ticks, and starts of timers that were not started before. */
  ghost predicate IsRun(cs: seq<Clock>, ops: seq<Op>) {
    |cs| == |ops| + 1 && forall i {:trigger ops[i]} | 0 <= i < |ops| :: Follows(cs[i], ops[i], cs[i + 1])
  }

  /** The tick that a run's step makes runs the callback of t. */
  predicate FiresNext(c: Clock, t: nat)
    requires t in c.timers
  {
    t in c.list && IsDue(c.timers[t], c.now + 1)
  }

  /**
    The ticks at which a timer started at tick s fires: every ms ticks, or once. A start with 0 fires at the next
    tick, once.
  */
  predicate FireTime(s: nat, ms: nat, periodic: bool, n: nat) {
    n > s && if periodic && ms > 0 then (n - s) % ms == 0 else n == s + (if ms > 0 then ms else 1)
  }

  /** The state of timer t, started at tick s. */
  predicate Armed(c: Clock, t: nat, s: nat, ms: nat, periodic: bool) {
    && t in c.timers && t in c.list && c.now >= s
    && if periodic && ms > 0
       then c.timers[t] == Timer(s + Next(c.now - s, ms), ms, true)
       else if c.now < s + (if ms > 0 then ms else 1) then c.timers[t] == Timer(s + ms, 0, true)
       else !c.timers[t].active
  }

  /** The least multiple of p above n. */
  function Next(n: nat, p: nat): nat
    requires p > 0
  {
    (n / p + 1) * p
  }

  lemma NextStep(n: nat, p: nat)
    requires p > 0
    ensures Next(n, p) > n
    ensures if (n + 1) % p == 0 then Next(n, p) == n + 1 && Next(n + 1, p) == n + 1 + p else (Next(n, p) > n + 1 &&
            Next(n + 1, p) == Next(n, p))
  {
    var q, r := n / p, n % p;
    Distributes(q, p);
    assert n == q * p + r;
    if r + 1 < p {
      Quotient(n + 1, p, q, r + 1);
      assert Next(n + 1, p) == (q + 1) * p;
    } else {
      Distributes(q + 1, p);
      Quotient(n + 1, p, q + 1, 0);
      assert Next(n + 1, p) == (q + 1 + 1) * p;
    }
  }

  lemma Distributes(q: nat, p: nat)
    ensures (q + 1) * p == q * p + p
  {
  }

  lemma Quotient(n: nat, p: nat, q: nat, r: nat)
    requires p > 0 && r < p && n == q * p + r
    ensures n / p == q && n % p == r
  {
    var q', r' := n / p, n % p;
    assert n == q' * p + r' && (q' + 1) * p == q' * p + p && (q + 1) * p == q * p + p;
    if q' < q {
      MulLe(q' + 1, q, p);
      assert false;
    }
    if q < q' {
      MulLe(q + 1, q', p);
      assert false;
    }
  }

  lemma PeriodicTick(a: Clock, t: nat, s: nat, ms: nat)
    requires Armed(a, t, s, ms, true) && ms > 0
    ensures Armed(Ticked(a), t, s, ms, true) && (FiresNext(a, t) <==> FireTime(s, ms, true, a.now + 1))
  {
    var n := a.now - s;
    NextStep(n, ms);
    assert Ticked(a).timers[t] == Rearmed(a.timers[t], a.now + 1);
    assert a.now + 1 - s == n + 1;
  }

  lemma OnceTick(a: Clock, t: nat, s: nat, ms: nat, periodic: bool)
    requires Armed(a, t, s, ms, periodic) && !(periodic && ms > 0)
    ensures Armed(Ticked(a), t, s, ms, periodic) && (FiresNext(a, t) <==> FireTime(s, ms, periodic, a.now + 1))
  {
    assert Ticked(a).timers[t] == Rearmed(a.timers[t], a.now + 1);
  }

  /** Whether the next tick fires the timer is decided by how it was started. */
  lemma ArmedFires(a: Clock, t: nat, s: nat, ms: nat, periodic: bool)
    requires Armed(a, t, s, ms, periodic)
    ensures Armed(Ticked(a), t, s, ms, periodic) && (FiresNext(a, t) <==> FireTime(s, ms, periodic, a.now + 1))
  {
    if periodic && ms > 0 {
      PeriodicTick(a, t, s, ms);
    } else {
      OnceTick(a, t, s, ms, periodic);
    }
  }

  lemma ArmedStep(a: Clock, op: Op, b: Clock, t: nat, s: nat, ms: nat, periodic: bool)
    requires Follows(a, op, b) && Armed(a, t, s, ms, periodic)
    ensures Armed(b, t, s, ms, periodic)
  {
    match op
    case TickOp => ArmedFires(a, t, s, ms, periodic);
    case StartOp(x, n, again) =>
      StartedOk(a, x, n, again);
      ArmedFrame(a, b, t, s, ms, periodic);
  }

  lemma ArmedFrame(a: Clock, b: Clock, t: nat, s: nat, ms: nat, periodic: bool)
    requires Armed(a, t, s, ms, periodic) && t in b.timers && t in b.list && b.timers[t] == a.timers[t] &&
             b.now == a.now
    ensures Armed(b, t, s, ms, periodic)
  {
  }

  lemma {:induction false} StaysArmed(cs: seq<Clock>, ops: seq<Op>, c: Clock, t: nat, ms: nat, periodic: bool, i: nat)
    requires IsRun(cs, ops) && Ok(c) && t !in c.list && cs[0] == Started(c, t, ms, periodic) && i < |cs|
    ensures Armed(cs[i], t, c.now, ms, periodic)
    decreases i
  {
    if i == 0 {
      StartedOk(c, t, ms, periodic);
      if periodic && ms > 0 {
        Quotient(0, ms, 0, 0);
      }
    } else {
      var j := i - 1;
      StaysArmed(cs, ops, c, t, ms, periodic, j);
      assert Follows(cs[j], ops[j], cs[j + 1]);
      ArmedStep(cs[j], ops[j], cs[j + 1], t, c.now, ms, periodic);
    }
  }

  /**
    In every run, a timer started at tick s runs its callback at the ticks s + ms, s + 2 ms, ... when periodic, and at
    s + ms only when not: at each tick of the run it fires exactly when it should.
  */
  lemma FiresExactly(cs: seq<Clock>, ops: seq<Op>, c: Clock, t: nat, ms: nat, periodic: bool, i: nat)
    requires IsRun(cs, ops) && Ok(c) && t !in c.list && cs[0] == Started(c, t, ms, periodic) && i < |ops|
    ensures t in cs[i].timers && (FiresNext(cs[i], t) <==> FireTime(c.now, ms, periodic, cs[i].now + 1))
  {
    StaysArmed(cs, ops, c, t, ms, periodic, i);
    ArmedFires(cs[i], t, c.now, ms, periodic);
  }

  // ---------- the code ----------

  datatype Event = Event(timer: nat, tick: nat)

  /** The callbacks of timers ts, run at tick n. */
  function Events(ts: seq<nat>, n: nat): seq<Event> {
    seq(|ts|, i requires 0 <= i < |ts| => Event(ts[i], n))
  }

  /** Some list that the links spell from head holds the timers of list and t. */
  ghost predicate Lists(link: map<nat, Link>, head: nat, list: seq<nat>, t: nat) {
    exists l {:trigger Chain(link, head, l)} :: Chain(link, head, l) && t in l && forall x | x in list :: x in l
  }

  ghost predicate LinkedAt(link: map<nat, Link>, list: seq<nat>, i: nat)
    requires i + 1 < |list|
  {
    list[i] in link && link[list[i]].next == list[i + 1] && list[i + 1] != 0
  }

  /** From position k of list to position m, each timer links to the next one. */
  ghost predicate Linked(link: map<nat, Link>, list: seq<nat>, k: nat, m: nat)
    requires k <= m < |list|
  {
    forall i: nat {:trigger LinkedAt(link, list, i)} | k <= i < m :: LinkedAt(link, list, i)
  }

  /** A list that meets linked timers holds them one after the other. */
  lemma {:induction false} Along(link: map<nat, Link>, head: nat, l: seq<nat>, p: nat, list: seq<nat>, k: nat, m: nat)
    requires Chain(link, head, l) && p < |l| && k <= m < |list| && l[p] == list[k] && Linked(link, list, k, m)
    ensures p + (m - k) < |l| && l[p + (m - k)] == list[m]
    decreases m - k
  {
    if k == m {
    } else {
      assert ChainAt(link, l, p) && LinkedAt(link, list, k);
      Along(link, head, l, p + 1, list, k + 1, m);
    }
  }

  /** A timer that links back to a list that leads to it is in no list. */
  lemma NoCycle(link: map<nat, Link>, head: nat, l: seq<nat>, list: seq<nat>, j: nat, k: nat)
    requires Chain(link, head, l) && k <= j < |list| && Linked(link, list, k, j)
    requires list[j] in link && list[j] != 0 && list[k] != 0 && link[list[j]].next == list[k]
    ensures list[j] !in l
  {
    if list[j] in l {
      var p :| 0 <= p < |l| && l[p] == list[j];
      assert ChainAt(link, l, p);
      Along(link, head, l, p + 1, list, k, j);
      assert false;
    }
  }

  /** A list that starts like list up to position j, and again meets list[j] from list[k - 1], lacks list[j + 1]. */
  lemma NoDetour(link: map<nat, Link>, head: nat, l: seq<nat>, list: seq<nat>, j: nat, k: nat)
    requires Chain(link, head, l) && j + 1 < k <= |list| && head == list[0] && Distinct(list)
    requires Linked(link, list, 0, j) && Linked(link, list, j + 1, k - 1)
    requires list[k - 1] in link && list[j] != 0 && link[list[k - 1]].next == list[j]
    ensures list[j + 1] !in l
  {
    if list[j + 1] in l {
      var q :| 0 <= q < |l| && l[q] == list[j + 1];
      Along(link, head, l, 0, list, 0, j);
      Along(link, head, l, q, list, j + 1, k - 1);
      assert ChainAt(link, l, q + (k - 1 - (j + 1)));
      assert q + (k - 1 - j) == j;
      Along(link, head, l, 0, list, 0, q);
      assert false;
    }
  }

  /** Started where the walk stopped at position k, a timer at position j leaves no list that holds all timers. */
  lemma RestartBreaks(link: map<nat, Link>, head: nat, list: seq<nat>, j: nat, k: nat)
    requires Chain(link, head, list) && j < |list| && k <= |list|
    requires list[j] in link && (Prev(list, k) != 0 ==> Prev(list, k) in link)
    ensures !Lists(PutBehind(link, list[j], Prev(list, k), At(list, k)), if k == 0 then list[j] else head, list,
                   list[j])
  {
    var t, head' := list[j], if k == 0 then list[j] else head;
    var link' := PutBehind(link, t, Prev(list, k), At(list, k));
    RestartLinks(link, head, list, j, k);
    assert j + 1 < |list| ==> list[j + 1] in list;
    if Lists(link', head', list, t) {
      var l :| Chain(link', head', l) && t in l && forall x | x in list :: x in l;
      if k <= j {
        NoCycle(link', head', l, list, j, k);
      } else if k == j + 1 {
        NoCycle(link', head', l, list, j, j);
      } else {
        NoDetour(link', head', l, list, j, k);
      }
    }
  }

  /** The links after a second start: a cycle when the walk stops early, a loop at t, or a way around its followers. */
  lemma RestartLinks(link: map<nat, Link>, head: nat, list: seq<nat>, j: nat, k: nat)
    requires Chain(link, head, list) && j < |list| && k <= |list|
    requires list[j] in link && (Prev(list, k) != 0 ==> Prev(list, k) in link)
    ensures var link' := PutBehind(link, list[j], Prev(list, k), At(list, k));
            && list[j] in link' && list[j] != 0
            && (k <= j ==> link'[list[j]].next == list[k] != 0 && Linked(link', list, k, j))
            && (k == j + 1 ==> link'[list[j]].next == list[j] && Linked(link', list, j, j))
            && (k > j + 1 ==> Linked(link', list, 0, j) && Linked(link', list, j + 1, k - 1) && list[k - 1] in link' &&
                              link'[list[k - 1]].next == list[j] && head == list[0])
  {
    var link' := PutBehind(link, list[j], Prev(list, k), At(list, k));
    assert ChainAt(link, list, j);
    assert k < |list| ==> ChainAt(link, list, k);
    if k > 0 {
      assert ChainAt(link, list, k - 1);
    }
    forall i: nat | i < |list| - 1 && i != j && i != k - 1 ensures LinkedAt(link', list, i) {
      assert ChainAt(link, list, i) && ChainAt(link, list, i + 1);
    }
  }

  /** Starting a timer leaves a list of all timers exactly when it was not listed yet, wherever the walk stops. */
  lemma StartKeepsListIff(link: map<nat, Link>, head: nat, list: seq<nat>, k: nat, t: nat)
    requires Chain(link, head, list) && k <= |list| && t in link && t != 0
    ensures Prev(list, k) != 0 ==> Prev(list, k) in link
    ensures Lists(PutBehind(link, t, Prev(list, k), At(list, k)), if k == 0 then t else head, list, t) <==>
            t !in list
  {
    if k > 0 {
      assert ChainAt(link, list, k - 1);
    }
    if t in list {
      var j :| 0 <= j < |list| && list[j] == t;
      RestartBreaks(link, head, list, j, k);
    } else {
      InsertChain(link, head, list, k, t);
      InsertMembers(list, k, t);
    }
  }

  class TimerList {
    var timers: map<nat, Timer>
    var link: map<nat, Link>     // a timer has a next field only; prev stays unused
    var head: nat
    var now: nat
    var log: seq<Event>          // the callbacks run so far
    ghost var list: seq<nat>

    ghost function View(): Clock
      reads this
    {
      Clock(timers, list, now)
    }

    ghost predicate Valid()
      reads this
    {
      Ok(View()) && Chain(link, head, list)
    }

    constructor ()
      ensures Valid() && View() == Clock(map[], [], 0) && log == []
    {
      timers, link, head, now, log, list := map[], map[], 0, 0, [], [];
    }

    static lemma PosIs(timers: map<nat, Timer>, list: seq<nat>, expire: nat, j: nat, k: nat)
      requires j <= k <= |list| && forall t | t in list :: t in timers
      requires forall i | j <= i < k :: timers[list[i]].expire <= expire
      requires k < |list| ==> timers[list[k]].expire > expire
      ensures Pos(timers, list, expire, j) == k
      decreases k - j
    {
      if j < k {
        PosIs(timers, list, expire, j + 1, k);
      }
    }

    static lemma EntryOf(link: map<nat, Link>, head: nat, list: seq<nat>, k: nat)
      requires Chain(link, head, list) && k < |list|
      ensures list[k] in link && list[k] != 0 && link[list[k]].next == (if k + 1 < |list| then list[k + 1] else 0)
      ensures k + 1 < |list| ==> list[k + 1] != 0
    {
      assert ChainAt(link, list, k);
      assert k + 1 < |list| ==> ChainAt(link, list, k + 1);
    }

    /**
      k_timer_start. The links spell all timers afterwards exactly when t was not listed before; the list is then the
      old one with t behind every timer that expires no later.
    */
    method Start(t: nat, ms: nat, periodic: bool)
      requires Valid() && t != 0
      modifies this
      ensures log == old(log) && now == old(now)
      ensures timers == old(timers)[t := Timer(now + ms, if periodic then ms else 0, true)]
      ensures Lists(link, head, old(list), t) <==> t !in old(list)
      ensures t !in old(list) ==> Valid() && View() == Started(old(View()), t, ms, periodic)
      ensures t !in old(list) ==>
        exists k :: Behind(timers, old(list), now + ms, k) && list == old(list)[..k] + [t] + old(list)[k..]
    {
      ghost var c := View();
      Place(t, ms, periodic);
      if t !in c.list {
        StartedList(c, t, ms, periodic);
      }
    }

    method Place(t: nat, ms: nat, periodic: bool)
      requires Valid() && t != 0
      modifies this
      ensures log == old(log) && now == old(now)
      ensures timers == old(timers)[t := Timer(now + ms, if periodic then ms else 0, true)]
      ensures Lists(link, head, old(list), t) <==> t !in old(list)
      ensures t !in old(list) ==> Valid() && View() == Started(old(View()), t, ms, periodic)
    {
      if t !in list {
        StartedOk(View(), t, ms, periodic);
      }
      timers := timers[t := Timer(now + ms, if periodic then ms else 0, true)];
      var before, at;
      ghost var k;
      before, at, k := Walk(now + ms);
      PutIn(t, before, at, k);
    }

    method PutIn(t: nat, before: nat, at: nat, ghost k: nat)
      requires Chain(link, head, list) && t != 0
      requires k <= |list| && before == Prev(list, k) && at == At(list, k)
      modifies this`link, this`head, this`list
      ensures Lists(link, head, old(list), t) <==> t !in old(list)
      ensures t !in old(list) ==> Chain(link, head, list) && list == Insert(old(list), k, t)
    {
      ghost var l0 := if t in link then link else link[t := Link(0, 0)];
      if t in list {
        MemberLinked(link, head, list, t);
      }
      ChainFrame(link, l0, head, list);
      StartKeepsListIff(l0, head, list, k, t);
      BeforeIs(link, head, list, k);
      link := link[t := Link(at, if t in link then link[t].prev else 0)];
      if before == 0 {
        head := t;
      } else {
        link := link[before := link[before].(next := t)];
      }
      assert link == PutBehind(l0, t, before, at);
      if t !in list {
        InsertChain(l0, old(head), list, k, t);
        list := Insert(list, k, t);
      }
    }

    static lemma MemberLinked(link: map<nat, Link>, head: nat, list: seq<nat>, t: nat)
      requires Chain(link, head, list) && t in list
      ensures t in link
    {
      var j :| 0 <= j < |list| && list[j] == t;
      assert ChainAt(link, list, j);
    }

    static lemma BeforeIs(link: map<nat, Link>, head: nat, list: seq<nat>, k: nat)
      requires Chain(link, head, list) && k <= |list|
      ensures Prev(list, k) == 0 <==> k == 0
      ensures Prev(list, k) != 0 ==> Prev(list, k) in link && Prev(list, k) in list
    {
      if k > 0 {
        EntryOf(link, head, list, k - 1);
      }
    }

    /** Past every timer that expires no later than expire. */
    method Walk(expire: nat) returns (before: nat, at: nat, ghost k: nat)
      requires Chain(link, head, list) && forall x | x in list :: x in timers
      ensures k == Pos(timers, list, expire, 0) && before == Prev(list, k) && at == At(list, k)
    {
      before, at, k := 0, head, 0;
      if list != [] {
        EntryOf(link, head, list, 0);
      }
      while at != 0 && timers[at].expire <= expire
        invariant k <= |list| && before == Prev(list, k) && at == (if k < |list| then list[k] else 0)
        invariant at == 0 <==> k == |list|
        invariant forall j | 0 <= j < k :: timers[list[j]].expire <= expire
        decreases |list| - k
      {
        EntryOf(link, head, list, k);
        before, at, k := at, link[at].next, k + 1;
      }
      PosIs(timers, list, expire, 0, k);
    }

    /** One timer of the loop: its callback runs when it is due, and it is armed again or switched off. */
    method Fire(t: nat)
      requires t in timers
      modifies this`timers, this`log
      ensures timers == old(timers)[t := Rearmed(old(timers)[t], now)]
      ensures log == old(log) + if IsDue(old(timers)[t], now) then [Event(t, now)] else []
    {
      if timers[t].active && now >= timers[t].expire {
        log := log + [Event(t, now)];
        if timers[t].period > 0 {
          timers := timers[t := timers[t].(expire := now + timers[t].period)];
        } else {
          timers := timers[t := timers[t].(active := false)];
        }
      }
    }

    static lemma RearmAppend(ts: map<nat, Timer>, list: seq<nat>, t: nat, now: nat)
      requires t in ts && t !in list
      ensures t in AllRearmed(ts, list, now) && AllRearmed(ts, list, now)[t] == ts[t]
      ensures AllRearmed(ts, list + [t], now) == AllRearmed(ts, list, now)[t := Rearmed(ts[t], now)]
    {
    }

    /** The loop of the tick has dealt with the first k timers of the list and is at timer at. */
    ghost predicate LoopAt(ts: map<nat, Timer>, log0: seq<Event>, k: nat, at: nat)
      reads this
    {
      && Chain(link, head, list) && (forall x | x in list :: x in ts)
      && k <= |list| && at == (if k < |list| then list[k] else 0) && (at == 0 <==> k == |list|)
      && timers == AllRearmed(ts, list[..k], now) && (forall x | x in list[..k] :: x in list)
      && log == log0 + Events(FiredOf(ts, list[..k], now), now)
    }

    method LoopStep(at: nat, ghost ts: map<nat, Timer>, ghost log0: seq<Event>, ghost k: nat) returns (nx: nat)
      requires LoopAt(ts, log0, k, at) && at != 0
      modifies this`timers, this`log
      ensures LoopAt(ts, log0, k + 1, nx)
    {
      EntryOf(link, head, list, k);
      nx := link[at].next;
      assert list[..k + 1] == list[..k] + [at] && at !in list[..k];
      RearmAppend(ts, list[..k], at, now);
      FiredAppend(ts, list[..k], at, now);
      EventsAppend(FiredOf(ts, list[..k], now), at, now);
      Fire(at);
    }

    /** The tick count moves on and the due timers run their callbacks. */
    method Tick()
      requires Valid()
      modifies this
      ensures Valid() && View() == Ticked(old(View()))
      ensures log == old(log) + Events(FiredOf(old(timers), old(list), old(now) + 1), old(now) + 1)
      ensures list == old(list)
      ensures forall t | t in old(timers) && t !in list :: t in timers && timers[t] == old(timers)[t]
    {
      now := now + 1;
      ghost var ts, log0, k := timers, log, 0;
      var at := head;
      if list != [] {
        EntryOf(link, head, list, 0);
      }
      while at != 0
        invariant LoopAt(ts, log0, k, at) && now == old(now) + 1 && list == old(list)
        decreases |list| - k
      {
        at := LoopStep(at, ts, log0, k);
        k := k + 1;
      }
      assert list[..k] == list;
    }

    static lemma {:induction false} FiredAppend(ts: map<nat, Timer>, list: seq<nat>, t: nat, now: nat)
      requires (forall x | x in list :: x in ts) && t in ts
      ensures forall x | x in list + [t] :: x in ts
      ensures FiredOf(ts, list + [t], now) == FiredOf(ts, list, now) + if IsDue(ts[t], now) then [t] else []
      decreases |list|
    {
      if list == [] {
        assert list + [t] == [t] && [t][1..] == [];
      } else {
        var rest := list[1..];
        assert (list + [t])[0] == list[0] && (list + [t])[1..] == rest + [t];
        TailMembers(list);
        FiredAppend(ts, rest, t, now);
        FiredFirst(ts, list, now);
        FiredFirst(ts, list + [t], now);
      }
    }

    static lemma TailMembers(list: seq<nat>)
      requires list != []
      ensures forall x | x in list[1..] :: x in list
    {
    }

    static lemma FiredFirst(ts: map<nat, Timer>, list: seq<nat>, now: nat)
      requires list != [] && forall x | x in list :: x in ts
      ensures (forall x | x in list[1..] :: x in ts) && list[0] in ts
      ensures FiredOf(ts, list, now) ==
              (if IsDue(ts[list[0]], now) then [list[0]] else []) + FiredOf(ts, list[1..], now)
    {
    }

    static lemma EventsAppend(fired: seq<nat>, t: nat, now: nat)
      ensures Events(fired + [t], now) == Events(fired, now) + [Event(t, now)]
      ensures Events(fired + [], now) == Events(fired, now)
    {
      assert fired + [] == fired;
    }
  }
}
