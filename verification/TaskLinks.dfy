/** The next and prev fields of the task control blocks: circular ready queues and singly linked waiting lists. */
module TaskLinks {
  import opened LinkedList

  datatype Link = Link(next: nat, prev: nat)

  function Insert(list: seq<nat>, k: nat, t: nat): (r: seq<nat>)
    requires k <= |list|
    ensures |r| == |list| + 1
    ensures forall j | 0 <= j < |r| :: r[j] == if j < k then list[j] else if j == k then t else list[j - 1]
  {
    list[..k] + [t] + list[k..]
  }

  lemma InsertMembers(list: seq<nat>, k: nat, t: nat)
    requires k <= |list| && Distinct(list) && t !in list
    ensures Distinct(Insert(list, k, t)) && forall a :: a in Insert(list, k, t) <==> a in list || a == t
  {
  }

  // ---------- rings ----------

  function After(list: seq<nat>, k: nat): nat
    requires k < |list|
  {
    if k + 1 < |list| then list[k + 1] else list[0]
  }

  function Before(list: seq<nat>, k: nat): nat
    requires k < |list|
  {
    if k > 0 then list[k - 1] else list[|list| - 1]
  }

  /** Task k of the ring links to the tasks before and after it. */
  ghost predicate RingAt(link: map<nat, Link>, list: seq<nat>, k: nat)
    requires k < |list|
  {
    list[k] in link && list[k] != 0 && link[list[k]].next == After(list, k) && link[list[k]].prev == Before(list, k)
  }

  ghost predicate Ring(link: map<nat, Link>, head: nat, list: seq<nat>) {
    && head == Head(list) && Distinct(list)
    && forall k {:trigger RingAt(link, list, k)} | 0 <= k < |list| :: RingAt(link, list, k)
  }

  lemma RingFrame(link: map<nat, Link>, link': map<nat, Link>, head: nat, list: seq<nat>)
    requires Ring(link, head, list) && forall a | a in list && a in link :: a in link' && link'[a] == link[a]
    ensures Ring(link', head, list)
  {
    forall k | 0 <= k < |list| ensures RingAt(link', list, k) {
      assert RingAt(link, list, k);
    }
  }

  /** The links after rq_enqueue put t behind the last task of the ring that starts at head. */
  function Enqueued(link: map<nat, Link>, t: nat, head: nat): map<nat, Link>
    requires head != 0 ==> head in link && link[head].prev in link
  {
    if head == 0 then link[t := Link(t, t)]
    else
      var tail := link[head].prev;
      var l1 := link[tail := link[tail].(next := t)];
      var l2 := l1[t := Link(head, tail)];
      l2[head := l2[head].(prev := t)]
  }

  lemma EnqueuedAt(link: map<nat, Link>, t: nat, head: nat, a: nat)
    requires head != 0 && head in link && link[head].prev in link && t != head && t != link[head].prev && a in link
    ensures a in Enqueued(link, t, head) && t in Enqueued(link, t, head)
    ensures Enqueued(link, t, head)[t] == Link(head, link[head].prev)
    ensures a != t ==> Enqueued(link, t, head)[a] ==
                       Link(if a == link[head].prev then t else link[a].next, if a == head then t else link[a].prev)
  {
  }

  lemma RingTail(link: map<nat, Link>, head: nat, list: seq<nat>)
    requires Ring(link, head, list) && list != []
    ensures head in link && link[head].prev == list[|list| - 1] && link[head].prev in link && head != 0
  {
    assert RingAt(link, list, 0) && RingAt(link, list, |list| - 1);
  }

  lemma EnqueueRing(link: map<nat, Link>, head: nat, list: seq<nat>, t: nat)
    requires Ring(link, head, list) && t != 0 && t !in list
    ensures head != 0 ==> head in link && link[head].prev in link
    ensures Ring(Enqueued(link, t, head), if head == 0 then t else head, list + [t])
  {
    if list != [] {
      RingTail(link, head, list);
    }
    var link', list' := Enqueued(link, t, head), list + [t];
    if list == [] {
      assert list' == [t];
      assert RingAt(link', list', 0);
    } else {
      forall k | 0 <= k < |list'| ensures RingAt(link', list', k) {
        if k < |list| {
          assert RingAt(link, list, k) && list[k] in list;
          EnqueuedAt(link, t, head, list[k]);
        } else {
          EnqueuedAt(link, t, head, head);
        }
      }
    }
  }

  /** Only t and tasks of the ring are relinked. */
  lemma EnqueueFrame(link: map<nat, Link>, head: nat, list: seq<nat>, t: nat, a: nat)
    requires Ring(link, head, list) && t !in list && a in link && a !in list && a != t
    requires head != 0 ==> head in link && link[head].prev in link
    ensures a in Enqueued(link, t, head) && Enqueued(link, t, head)[a] == link[a]
  {
    if list != [] {
      RingTail(link, head, list);
      assert list[|list| - 1] in list && list[0] in list;
    }
  }

  /** The links after rq_remove took t out. */
  function Dequeued(link: map<nat, Link>, t: nat): map<nat, Link>
    requires t in link && link[t].next in link && link[t].prev in link
  {
    var l1 := if link[t].next == t then link
              else
                var l := link[link[t].prev := link[link[t].prev].(next := link[t].next)];
                l[link[t].next := l[link[t].next].(prev := link[t].prev)];
    l1[t := Link(0, 0)]
  }

  lemma RingNeighbours(link: map<nat, Link>, head: nat, list: seq<nat>, k: nat)
    requires Ring(link, head, list) && k < |list|
    ensures list[k] in link && list[k] != 0 && link[list[k]].next == After(list, k) &&
            link[list[k]].prev == Before(list, k)
    ensures After(list, k) in link && Before(list, k) in link
    ensures After(list, k) == list[k] <==> |list| == 1
  {
    assert RingAt(link, list, k);
    assert RingAt(link, list, if k + 1 < |list| then k + 1 else 0);
    assert RingAt(link, list, if k > 0 then k - 1 else |list| - 1);
  }

  lemma DequeuedAt(link: map<nat, Link>, t: nat, a: nat)
    requires t in link && link[t].next in link && link[t].prev in link && a in link && a != t
    requires link[t].next == t <==> link[t].prev == t
    ensures a in Dequeued(link, t)
    ensures Dequeued(link, t)[a] ==
            Link(if a == link[t].prev then link[t].next else link[a].next, if a == link[t].next
                then link[t].prev else link[a].prev)
  {
  }

  lemma DequeueRing(link: map<nat, Link>, head: nat, list: seq<nat>, k: nat)
    requires Ring(link, head, list) && k < |list|
    ensures var t := list[k]; t in link && link[t].next in link && link[t].prev in link
    ensures Ring(Dequeued(link, list[k]), if |list| == 1 then 0 else if k == 0
            then link[list[k]].next else head, Without(list, k))
  {
    RingNeighbours(link, head, list, k);
    var t, list', link' := list[k], Without(list, k), Dequeued(link, list[k]);
    WithoutMembers(list, k);
    if |list| > 1 {
      assert Before(list, k) != t;
      forall j | 0 <= j < |list'| ensures RingAt(link', list', j) {
        var o := if j < k then j else j + 1;
        assert RingAt(link, list, o) && list[o] != list[k];
        DequeuedAt(link, t, list[o]);
        NeighbourAt(list, k, o);
      }
    }
  }

  /** In a list without repetition, position o is next to position k exactly when its task is. */
  lemma NeighbourAt(list: seq<nat>, k: nat, o: nat)
    requires Distinct(list) && k < |list| && o < |list| && o != k
    ensures list[o] == Before(list, k) <==> o == if k > 0 then k - 1 else |list| - 1
    ensures list[o] == After(list, k) <==> o == if k + 1 < |list| then k + 1 else 0
  {
  }

  lemma DequeueFrame(link: map<nat, Link>, head: nat, list: seq<nat>, k: nat, a: nat)
    requires Ring(link, head, list) && k < |list| && a in link && a !in list
    requires var t := list[k]; t in link && link[t].next in link && link[t].prev in link
    ensures a in Dequeued(link, list[k]) && Dequeued(link, list[k])[a] == link[a]
  {
    RingNeighbours(link, head, list, k);
    assert Before(list, k) in list && After(list, k) in list && list[k] in list;
  }

  // ---------- singly linked lists ----------

  ghost predicate ChainAt(link: map<nat, Link>, list: seq<nat>, k: nat)
    requires k < |list|
  {
    list[k] in link && list[k] != 0 && link[list[k]].next == Next(list, k)
  }

  ghost predicate Chain(link: map<nat, Link>, head: nat, list: seq<nat>) {
    && head == Head(list) && Distinct(list)
    && forall k {:trigger ChainAt(link, list, k)} | 0 <= k < |list| :: ChainAt(link, list, k)
  }

  lemma ChainFrame(link: map<nat, Link>, link': map<nat, Link>, head: nat, list: seq<nat>)
    requires Chain(link, head, list) && forall a | a in list && a in link :: a in link' && link'[a] == link[a]
    ensures Chain(link', head, list)
  {
    forall k | 0 <= k < |list| ensures ChainAt(link', list, k) {
      assert ChainAt(link, list, k);
    }
  }

  /** The links after t was put where a walk stopped: behind task before (0: at the head), in front of task rest. */
  function PutBehind(link: map<nat, Link>, t: nat, before: nat, rest: nat): map<nat, Link>
    requires t in link && (before != 0 ==> before in link)
  {
    var l := link[t := link[t].(next := rest)];
    if before == 0 then l else l[before := l[before].(next := t)]
  }

  lemma InsertChain(link: map<nat, Link>, head: nat, list: seq<nat>, k: nat, t: nat)
    requires Chain(link, head, list) && k <= |list| && t in link && t != 0 && t !in list
    ensures Prev(list, k) != 0 ==> Prev(list, k) in link
    ensures Chain(PutBehind(link, t, Prev(list, k), if k < |list| then list[k] else 0), if k == 0
            then t else head, Insert(list, k, t))
  {
    assert k > 0 ==> ChainAt(link, list, k - 1);
    var before, rest := Prev(list, k), if k < |list| then list[k] else 0;
    var link', list' := PutBehind(link, t, before, rest), Insert(list, k, t);
    InsertMembers(list, k, t);
    forall j | 0 <= j < |list'| ensures ChainAt(link', list', j) {
      if j != k {
        var o := if j < k then j else j - 1;
        assert ChainAt(link, list, o) && list[o] in list;
        assert k > 0 && o != k - 1 ==> list[o] != list[k - 1];
      }
    }
  }

  lemma InsertFrame(link: map<nat, Link>, list: seq<nat>, k: nat, t: nat, rest: nat, a: nat)
    requires t in link && k <= |list| && a in link && a !in list && a != t &&
             (Prev(list, k) != 0 ==> Prev(list, k) in link)
    ensures a in PutBehind(link, t, Prev(list, k), rest) && PutBehind(link, t, Prev(list, k), rest)[a] == link[a]
  {
  }

  lemma PopChain(link: map<nat, Link>, head: nat, list: seq<nat>)
    requires Chain(link, head, list) && list != []
    ensures head in link && head != 0 && head == list[0] && head !in list[1..] &&
            Chain(link, link[head].next, list[1..])
  {
    assert ChainAt(link, list, 0);
    var rest := list[1..];
    forall k | 0 <= k < |rest| ensures ChainAt(link, rest, k) {
      assert ChainAt(link, list, k + 1);
    }
  }
}
