/** The kernel's queues in memory: list heads, links and the priority bitmap, and how they spell out the lists. */
module SchedMem {
  import opened BitWord
  import opened LinkedList
  import opened SchedModel
  import opened TaskLinks

  /** The link fields of all tasks, the heads of the ready queues, of the sleep queue and of every object's waiters. */
  datatype Mem = Mem(link: map<nat, Link>, rq: seq<nat>, sleep: nat, wait: map<nat, nat>, bitmap: bits)

  function WaitHead(m: Mem, o: nat): nat {
    if o in m.wait then m.wait[o] else 0
  }

  ghost predicate ListLinked(m: Mem, lists: map<Place, seq<nat>>, q: Place)
    requires |m.rq| == LEVELS
  {
    match q
    case Run(p) => if p < LEVELS then Ring(m.link, m.rq[p], At(lists, q)) else At(lists, q) == []
    case Sleep => Chain(m.link, m.sleep, At(lists, q))
    case Wait(o) => Chain(m.link, WaitHead(m, o), At(lists, q))
  }

  /** Bit p is set exactly when ready queue p has a task. */
  ghost predicate Bits(bitmap: bits, lists: map<Place, seq<nat>>) {
    && (forall p | 0 <= p < LEVELS :: bitmap[p] <==> At(lists, Run(p)) != [])
    && (forall p | LEVELS <= p < 32 :: !bitmap[p])
  }

  ghost predicate Spell(m: Mem, lists: map<Place, seq<nat>>) {
    && |m.rq| == LEVELS
    && (forall q {:trigger ListLinked(m, lists, q)} :: ListLinked(m, lists, q))
    && Bits(m.bitmap, lists)
  }

  lemma ListFrame(m: Mem, m': Mem, lists: map<Place, seq<nat>>, lists': map<Place, seq<nat>>, q: Place)
    requires |m.rq| == |m'.rq| == LEVELS && ListLinked(m, lists, q) && At(lists', q) == At(lists, q)
    requires match q
             case Run(p) => p < LEVELS ==> m'.rq[p] == m.rq[p]
             case Sleep => m'.sleep == m.sleep
             case Wait(o) => WaitHead(m', o) == WaitHead(m, o)
    requires forall a | a in At(lists, q) && a in m.link :: a in m'.link && m'.link[a] == m.link[a]
    ensures ListLinked(m', lists', q)
  {
    match q
    case Run(p) =>
      if p < LEVELS {
        RingFrame(m.link, m'.link, m.rq[p], At(lists, q));
      }
    case Sleep => ChainFrame(m.link, m'.link, m.sleep, At(lists, q));
    case Wait(o) => ChainFrame(m.link, m'.link, WaitHead(m, o), At(lists, q));
  }

  // ---------- ready queues ----------

  /** rq_enqueue of task t of priority p. */
  function RqEnqueue(m: Mem, t: nat, p: nat): Mem
    requires p < |m.rq| && p < 32 && (m.rq[p] != 0 ==> m.rq[p] in m.link && m.link[m.rq[p]].prev in m.link)
  {
    m.(link := Enqueued(m.link, t, m.rq[p]), rq := if m.rq[p] == 0
        then m.rq[p := t] else m.rq, bitmap := Set(m.bitmap, p))
  }

  lemma HeadLinked(m: Mem, lists: map<Place, seq<nat>>, p: nat)
    requires Spell(m, lists) && p < LEVELS
    ensures m.rq[p] != 0 ==> m.rq[p] in m.link && m.link[m.rq[p]].prev in m.link
    ensures m.rq[p] == 0 <==> At(lists, Run(p)) == []
  {
    assert ListLinked(m, lists, Run(p));
    if At(lists, Run(p)) != [] {
      RingTail(m.link, m.rq[p], At(lists, Run(p)));
    }
  }

  lemma RqEnqueueLinked(m: Mem, s: Sys, t: nat, p: nat)
    requires Spell(m, s.lists) && Lists(s) && p < LEVELS && t != 0 && forall q :: t !in At(s.lists, q)
    ensures m.rq[p] != 0 ==> m.rq[p] in m.link && m.link[m.rq[p]].prev in m.link
    ensures Spell(RqEnqueue(m, t, p), Entered(s, Run(p), |At(s.lists, Run(p))|, t).lists)
  {
    HeadLinked(m, s.lists, p);
    var list := At(s.lists, Run(p));
    var m', lists' := RqEnqueue(m, t, p), Entered(s, Run(p), |list|, t).lists;
    assert Insert(list, |list|, t) == list + [t];
    forall q ensures ListLinked(m', lists', q) {
      assert ListLinked(m, s.lists, q) && ListLinked(m, s.lists, Run(p));
      if q == Run(p) {
        EnqueueRing(m.link, m.rq[p], list, t);
      } else {
        forall a | a in At(s.lists, q) && a in m.link ensures a in m'.link && m'.link[a] == m.link[a] {
          if a in list {
            OnePlace(s, q, Run(p), a);
          }
          EnqueueFrame(m.link, m.rq[p], list, t, a);
        }
        ListFrame(m, m', s.lists, lists', q);
      }
    }
  }

  /** rq_remove of task t from the queue of priority p. */
  function RqRemove(m: Mem, t: nat, p: nat): Mem
    requires p < |m.rq| && p < 32 && t in m.link && m.link[t].next in m.link && m.link[t].prev in m.link
  {
    var alone := m.link[t].next == t;
    m.(link := Dequeued(m.link, t),
       rq := if alone then m.rq[p := 0] else if m.rq[p] == t then m.rq[p := m.link[t].next] else m.rq,
       bitmap := if alone then Clear(m.bitmap, p) else m.bitmap)
  }

  lemma RqRemoveLinked(m: Mem, s: Sys, p: nat, k: nat)
    requires Spell(m, s.lists) && Lists(s) && p < LEVELS && k < |At(s.lists, Run(p))|
    ensures var t := At(s.lists, Run(p))[k]; t in m.link && m.link[t].next in m.link && m.link[t].prev in m.link
    ensures Spell(RqRemove(m, At(s.lists, Run(p))[k], p), Left(s, Run(p), k).lists)
  {
    var list := At(s.lists, Run(p));
    var t := list[k];
    assert ListLinked(m, s.lists, Run(p));
    RingNeighbours(m.link, m.rq[p], list, k);
    assert k > 0 ==> list[0] != t;
    var m', lists' := RqRemove(m, t, p), Left(s, Run(p), k).lists;
    forall q ensures ListLinked(m', lists', q) {
      assert ListLinked(m, s.lists, q);
      if q == Run(p) {
        DequeueRing(m.link, m.rq[p], list, k);
      } else {
        forall a | a in At(s.lists, q) && a in m.link ensures a in m'.link && m'.link[a] == m.link[a] {
          if a in list {
            OnePlace(s, q, Run(p), a);
          }
          DequeueFrame(m.link, m.rq[p], list, k, a);
        }
        ListFrame(m, m', s.lists, lists', q);
      }
    }
  }

  /** prio_highest: the highest set bit is the highest priority with a ready task. */
  lemma HighestIsTop(bitmap: bits, lists: map<Place, seq<nat>>)
    requires Bits(bitmap, lists)
    ensures IsZero(bitmap) <==> Top(lists, LEVELS) == -1
    ensures !IsZero(bitmap) ==> Highest(bitmap) == Top(lists, LEVELS)
  {
  }

  // ---------- waiting lists ----------

  function SetHead(m: Mem, q: Place, v: nat): Mem {
    match q
    case Run(p) => m
    case Sleep => m.(sleep := v)
    case Wait(o) => m.(wait := m.wait[o := v])
  }

  function HeadOf(m: Mem, q: Place): nat {
    match q
    case Run(p) => 0
    case Sleep => m.sleep
    case Wait(o) => WaitHead(m, o)
  }

  /**
    Task t is linked in where a walk along waiting list q stopped: behind task before (0: at the head), in front
    of rest.
  */
  function PutIn(m: Mem, q: Place, t: nat, before: nat, rest: nat): Mem
    requires t in m.link && (before != 0 ==> before in m.link)
  {
    var m1 := m.(link := PutBehind(m.link, t, before, rest));
    if before == 0 then SetHead(m1, q, t) else m1
  }

  lemma PutInLinked(m: Mem, s: Sys, q: Place, k: nat, t: nat)
    requires Spell(m, s.lists) && Lists(s) && !q.Run? && k <= |At(s.lists, q)| && t in m.link && t != 0
    requires forall r :: t !in At(s.lists, r)
    ensures Prev(At(s.lists, q), k) != 0 ==> Prev(At(s.lists, q), k) in m.link
    ensures var list := At(s.lists, q);
      Spell(PutIn(m, q, t, Prev(list, k), if k < |list| then list[k] else 0), Entered(s, q, k, t).lists)
  {
    var list := At(s.lists, q);
    assert ListLinked(m, s.lists, q);
    InsertChain(m.link, HeadOf(m, q), list, k, t);
    assert k > 0 ==> ChainAt(m.link, list, k - 1);
    var rest := if k < |list| then list[k] else 0;
    var m', lists' := PutIn(m, q, t, Prev(list, k), rest), Entered(s, q, k, t).lists;
    forall r ensures ListLinked(m', lists', r) {
      assert ListLinked(m, s.lists, r);
      if r != q {
        PutInOther(m, s, q, k, t, r);
      }
    }
  }

  /** A task that enters list q leaves the links of every other list as they are. */
  lemma PutInOther(m: Mem, s: Sys, q: Place, k: nat, t: nat, r: Place)
    requires |m.rq| == LEVELS && ListLinked(m, s.lists, r) && Lists(s) && !q.Run? && r != q && t in m.link
    requires k <= |At(s.lists, q)| && t !in At(s.lists, r) && (k == 0 <==> Prev(At(s.lists, q), k) == 0)
    requires Prev(At(s.lists, q), k) != 0 ==> Prev(At(s.lists, q), k) in m.link
    ensures var list := At(s.lists, q);
      ListLinked(PutIn(m, q, t, Prev(list, k), if k < |list| then list[k] else 0), Entered(s, q, k, t).lists, r)
  {
    var list := At(s.lists, q);
    var rest := if k < |list| then list[k] else 0;
    var m' := PutIn(m, q, t, Prev(list, k), rest);
    forall a | a in At(s.lists, r) && a in m.link ensures a in m'.link && m'.link[a] == m.link[a] {
      if a in list {
        OnePlace(s, q, r, a);
      }
      InsertFrame(m.link, list, k, t, rest, a);
    }
    ListFrame(m, m', s.lists, Entered(s, q, k, t).lists, r);
  }

  lemma PoppedLinked(m: Mem, s: Sys, q: Place, l: Link)
    requires Spell(m, s.lists) && Lists(s) && !q.Run? && At(s.lists, q) != []
    ensures HeadOf(m, q) == At(s.lists, q)[0] && HeadOf(m, q) in m.link
    ensures Spell(SetHead(m, q, m.link[HeadOf(m, q)].next).(link := m.link[HeadOf(m, q) := l]), Left(s, q, 0).lists)
  {
    var list := At(s.lists, q);
    assert ListLinked(m, s.lists, q);
    PopChain(m.link, HeadOf(m, q), list);
    assert Without(list, 0) == list[1..];
    var h := HeadOf(m, q);
    var m', lists' := SetHead(m, q, m.link[h].next).(link := m.link[h := l]), Left(s, q, 0).lists;
    forall r ensures ListLinked(m', lists', r) {
      assert ListLinked(m, s.lists, r);
      if r == q {
        ChainFrame(m.link, m'.link, m.link[h].next, list[1..]);
      } else {
        assert h in At(s.lists, r) ==> r == q by {
          if h in At(s.lists, r) {
            OnePlace(s, q, r, h);
          }
        }
        ListFrame(m, m', s.lists, lists', r);
      }
    }
  }

  /** Links and heads do not depend on anything else. */
  lemma EntryOfList(m: Mem, lists: map<Place, seq<nat>>, q: Place, k: nat)
    requires Spell(m, lists) && !q.Run? && k < |At(lists, q)|
    ensures At(lists, q)[k] in m.link && At(lists, q)[k] != 0 &&
            m.link[At(lists, q)[k]].next == LinkedList.Next(At(lists, q), k)
  {
    assert ListLinked(m, lists, q);
    assert ChainAt(m.link, At(lists, q), k);
  }

  lemma HeadIs(m: Mem, lists: map<Place, seq<nat>>, q: Place)
    requires Spell(m, lists) && !q.Run?
    ensures HeadOf(m, q) == Head(At(lists, q)) && (HeadOf(m, q) == 0 <==> At(lists, q) == [])
  {
    assert ListLinked(m, lists, q);
    if At(lists, q) != [] {
      assert ChainAt(m.link, At(lists, q), 0);
    }
  }
}
