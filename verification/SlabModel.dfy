/** The four slab caches of mm/allocator.c as a value: which objects exist, which are free, and where they lie. */
module SlabModel {
  import opened BlockHeader
  import opened HeapModel
  import opened LinkedList
  import opened Tiling

  const CACHES: nat := 4
  const PER_PAGE: nat := 32

  /** SS: the object size of each cache. */
  function Size(id: nat): (n: nat)
    requires id < CACHES
    ensures 32 <= n <= 256
  {
    if id == 0 then 256 else if id == 1 then 128 else if id == 2 then 64 else 32
  }

  /** The free objects link through nxt (0 for NULL); owner says which cache a page belongs to. */
  datatype Pool = Pool(nxt: map<nat, nat>, owner: map<nat, nat>, free: seq<nat>, cnt: seq<nat>,
                       lists: seq<seq<nat>>, live: seq<set<nat>>)

  // ---------- the free list of one cache ----------

  ghost predicate ObjLink(nxt: map<nat, nat>, list: seq<nat>, k: nat)
    requires k < |list|
  {
    list[k] in nxt && list[k] != 0 && nxt[list[k]] == Next(list, k)
  }

  ghost predicate Threaded(nxt: map<nat, nat>, head: nat, list: seq<nat>) {
    && head == Head(list)
    && Distinct(list)
    && forall k {:trigger ObjLink(nxt, list, k)} | 0 <= k < |list| :: ObjLink(nxt, list, k)
  }

  lemma PushThreaded(nxt: map<nat, nat>, head: nat, list: seq<nat>, o: nat)
    requires Threaded(nxt, head, list) && o != 0 && o !in list
    ensures Threaded(nxt[o := head], o, [o] + list)
  {
    var nxt', list' := nxt[o := head], [o] + list;
    forall k | 0 <= k < |list'| ensures ObjLink(nxt', list', k) {
      if k > 0 {
        assert ObjLink(nxt, list, k - 1);
      }
    }
  }

  lemma PopThreaded(nxt: map<nat, nat>, head: nat, list: seq<nat>)
    requires Threaded(nxt, head, list) && list != []
    ensures head in nxt && head == list[0] && head !in list[1..] && Threaded(nxt, nxt[head], list[1..])
  {
    assert ObjLink(nxt, list, 0);
    var rest := list[1..];
    forall k | 0 <= k < |rest| ensures ObjLink(nxt, rest, k) {
      assert ObjLink(nxt, list, k + 1);
    }
  }

  lemma ThreadedFrame(nxt: map<nat, nat>, nxt': map<nat, nat>, head: nat, list: seq<nat>)
    requires Threaded(nxt, head, list)
    requires forall a | a in list && a in nxt :: a in nxt' && nxt'[a] == nxt[a]
    ensures Threaded(nxt', head, list)
  {
    forall k | 0 <= k < |list| ensures ObjLink(nxt', list, k) {
      assert ObjLink(nxt, list, k);
    }
  }

  // ---------- objects and pages ----------

  function Obj(pg: nat, id: nat, j: nat): nat
    requires id < CACHES
  {
    pg + j * Size(id)
  }

  ghost predicate ObjAt(owner: map<nat, nat>, id: nat, o: nat, pg: nat, j: nat)
    requires id < CACHES
  {
    pg in owner && owner[pg] == id && j < PER_PAGE && o == Obj(pg, id, j)
  }

  ghost predicate IsObj(owner: map<nat, nat>, id: nat, o: nat)
    requires id < CACHES
  {
    exists pg: nat, j: nat :: ObjAt(owner, id, o, pg, j)
  }

  ghost predicate PageTile(ts: seq<Tile>, pg: nat, id: nat, t: Tile)
    requires id < CACHES
  {
    t in ts && t.kind.Live? && t.at + HDR == pg && HDR + PER_PAGE * Size(id) <= t.size
  }

  /** pg is the payload of a live heap block with room for a page of the cache. */
  ghost predicate IsPage(ts: seq<Tile>, pg: nat, id: nat)
    requires id < CACHES
  {
    exists t: Tile :: PageTile(ts, pg, id, t)
  }

  ghost predicate CacheOk(p: Pool, id: nat)
    requires id < CACHES && |p.free| == |p.cnt| == |p.lists| == |p.live| == CACHES
  {
    && Threaded(p.nxt, p.free[id], p.lists[id])
    && (forall o {:trigger IsObj(p.owner, id, o)} :: IsObj(p.owner, id, o) <==> o in p.lists[id] || o in p.live[id])
    && (forall o | o in p.lists[id] :: o !in p.live[id])
    && |p.lists[id]| + |p.live[id]| == p.cnt[id]
  }

  ghost predicate PagesOk(owner: map<nat, nat>, ts: seq<Tile>) {
    forall pg | pg in owner :: owner[pg] < CACHES && IsPage(ts, pg, owner[pg])
  }

  ghost predicate PoolOk(p: Pool, ts: seq<Tile>) {
    && |p.free| == |p.cnt| == |p.lists| == |p.live| == CACHES
    && PagesOk(p.owner, ts)
    && forall id {:trigger CacheOk(p, id)} | 0 <= id < CACHES :: CacheOk(p, id)
  }

  lemma ObjInPage(id: nat, pg: nat, j: nat)
    requires id < CACHES && j < PER_PAGE
    ensures pg <= Obj(pg, id, j) && Obj(pg, id, j) + Size(id) <= pg + PER_PAGE * Size(id)
  {
    assert (j + 1) * Size(id) <= PER_PAGE * Size(id);
  }

  lemma SamePageApart(id: nat, pg: nat, j: nat, k: nat)
    requires id < CACHES && j < k
    ensures Obj(pg, id, j) + Size(id) <= Obj(pg, id, k)
  {
    assert (j + 1) * Size(id) <= k * Size(id);
  }

  /** Pages of different address never overlap. */
  lemma PagesApart(ts: seq<Tile>, lo: nat, hi: nat, p1: nat, id1: nat, p2: nat, id2: nat)
    requires Tiles(ts, lo, hi) && id1 < CACHES && id2 < CACHES && IsPage(ts, p1, id1) && IsPage(ts, p2, id2) && p1 != p2
    ensures p1 + PER_PAGE * Size(id1) <= p2 || p2 + PER_PAGE * Size(id2) <= p1
  {
    var t1 :| PageTile(ts, p1, id1, t1);
    var t2 :| PageTile(ts, p2, id2, t2);
    var i :| 0 <= i < |ts| && ts[i] == t1;
    OthersClear(ts, i, lo, hi, t2);
  }

  /** Two objects, of any caches, are the same object of the same cache or share no byte. */
  lemma ObjectsApart(owner: map<nat, nat>, ts: seq<Tile>, lo: nat, hi: nat, id1: nat, o1: nat, id2: nat, o2: nat)
    requires Tiles(ts, lo, hi) && PagesOk(owner, ts) && id1 < CACHES && id2 < CACHES
    requires IsObj(owner, id1, o1) && IsObj(owner, id2, o2)
    ensures (id1 == id2 && o1 == o2) || o1 + Size(id1) <= o2 || o2 + Size(id2) <= o1
  {
    var p1: nat, j1: nat :| ObjAt(owner, id1, o1, p1, j1);
    var p2: nat, j2: nat :| ObjAt(owner, id2, o2, p2, j2);
    ObjInPage(id1, p1, j1);
    ObjInPage(id2, p2, j2);
    if p1 != p2 {
      PagesApart(ts, lo, hi, p1, id1, p2, id2);
    } else if j1 < j2 {
      SamePageApart(id1, p1, j1, j2);
    } else if j2 < j1 {
      SamePageApart(id1, p1, j2, j1);
    }
  }

  /** Every object lies in the payload of a live heap block. */
  lemma ObjectInBlock(owner: map<nat, nat>, ts: seq<Tile>, lo: nat, hi: nat, id: nat, o: nat) returns (i: nat)
    requires Tiles(ts, lo, hi) && PagesOk(owner, ts) && id < CACHES && IsObj(owner, id, o)
    ensures i < |ts| && ts[i].kind.Live? && ts[i].at + HDR <= o && o + Size(id) <= ts[i].at + ts[i].size
    ensures lo <= ts[i].at && ts[i].at + ts[i].size <= hi
  {
    var pg: nat, j: nat :| ObjAt(owner, id, o, pg, j);
    var t :| PageTile(ts, pg, id, t);
    i :| 0 <= i < |ts| && ts[i] == t;
    ObjInPage(id, pg, j);
    TileInside(ts, lo, hi, i);
  }

  // ---------- the operations ----------

  /** A free object heads the list again. */
  function Given(p: Pool, id: nat, o: nat): Pool
    requires id < CACHES && |p.free| == |p.lists| == |p.live| == CACHES
  {
    p.(nxt := p.nxt[o := p.free[id]], free := p.free[id := o],
       lists := p.lists[id := [o] + p.lists[id]], live := p.live[id := p.live[id] - {o}])
  }

  lemma GivenOk(p: Pool, ts: seq<Tile>, lo: nat, hi: nat, id: nat, o: nat)
    requires PoolOk(p, ts) && Tiles(ts, lo, hi) && id < CACHES && o in p.live[id]
    ensures PoolOk(Given(p, id, o), ts)
  {
    var p' := Given(p, id, o);
    assert CacheOk(p, id) && IsObj(p.owner, id, o);
    var b := ObjectInBlock(p.owner, ts, lo, hi, id, o);
    forall k | 0 <= k < CACHES ensures CacheOk(p', k) {
      assert CacheOk(p, k);
      if k == id {
        PushThreaded(p.nxt, p.free[id], p.lists[id], o);
      } else {
        NotInOther(p, ts, lo, hi, id, o, k);
        ThreadedFrame(p.nxt, p'.nxt, p.free[k], p.lists[k]);
      }
    }
  }

  lemma NotInOther(p: Pool, ts: seq<Tile>, lo: nat, hi: nat, id: nat, o: nat, k: nat)
    requires PoolOk(p, ts) && Tiles(ts, lo, hi) && id < CACHES && IsObj(p.owner, id, o) && k < CACHES && k != id
    ensures o !in p.lists[k]
  {
    assert CacheOk(p, k);
    if o in p.lists[k] {
      assert IsObj(p.owner, k, o);
      ObjectsApart(p.owner, ts, lo, hi, id, o, k, o);
      assert false;
    }
  }

  /** The head of the free list becomes live. */
  function Drawn(p: Pool, id: nat): Pool
    requires id < CACHES && |p.free| == |p.lists| == |p.live| == CACHES && p.lists[id] != [] && p.free[id] in p.nxt
  {
    p.(free := p.free[id := p.nxt[p.free[id]]], lists := p.lists[id := p.lists[id][1..]],
       live := p.live[id := p.live[id] + {p.free[id]}])
  }

  /** The object freed last is the next one handed out, and the pool is then as it was but for its link. */
  lemma GivenThenDrawn(p: Pool, id: nat, o: nat)
    requires id < CACHES && |p.free| == |p.lists| == |p.live| == CACHES && o in p.live[id]
    ensures Given(p, id, o).lists[id][0] == Given(p, id, o).free[id] == o
    ensures Drawn(Given(p, id, o), id) == p.(nxt := p.nxt[o := p.free[id]])
  {
    var q := Drawn(Given(p, id, o), id);
    assert q.live[id] == p.live[id] && q.live == p.live && q.free == p.free && q.lists == p.lists;
  }

  lemma DrawnOk(p: Pool, ts: seq<Tile>, id: nat)
    requires PoolOk(p, ts) && id < CACHES && p.lists[id] != []
    ensures p.free[id] in p.nxt && p.free[id] == p.lists[id][0] && p.free[id] !in p.live[id] &&
            IsObj(p.owner, id, p.free[id])
    ensures PoolOk(Drawn(p, id), ts)
  {
    assert CacheOk(p, id);
    var list := p.lists[id];
    PopThreaded(p.nxt, p.free[id], list);
    assert list == [list[0]] + list[1..];
    var p' := Drawn(p, id);
    forall k | 0 <= k < CACHES ensures CacheOk(p', k) {
      assert CacheOk(p, k);
    }
    assert IsObj(p.owner, id, list[0]);
  }

  /** The first j objects of a page in the order in which the page is threaded: last first. */
  function Objs(pg: nat, id: nat, j: nat): (s: seq<nat>)
    requires id < CACHES
    ensures |s| == j && forall k | 0 <= k < j :: s[k] == Obj(pg, id, j - 1 - k)
  {
    if j == 0 then [] else [Obj(pg, id, j - 1)] + Objs(pg, id, j - 1)
  }

  lemma ObjsMembers(pg: nat, id: nat, j: nat, o: nat)
    requires id < CACHES
    ensures o in Objs(pg, id, j) <==> exists k: nat :: k < j && o == Obj(pg, id, k)
  {
  }

  /** A page joins an exhausted cache: all its objects are free. */
  function Grown(p: Pool, id: nat, pg: nat, nxt: map<nat, nat>): Pool
    requires id < CACHES && |p.free| == |p.cnt| == |p.lists| == CACHES
  {
    p.(nxt := nxt, owner := p.owner[pg := id], free := p.free[id := Obj(pg, id, PER_PAGE - 1)],
       cnt := p.cnt[id := p.cnt[id] + PER_PAGE], lists := p.lists[id := Objs(pg, id, PER_PAGE)])
  }

  lemma OwnerGrown(owner: map<nat, nat>, id: nat, pg: nat, k: nat, o: nat)
    requires id < CACHES && k < CACHES && pg !in owner
    ensures IsObj(owner[pg := id], k, o) <==> IsObj(owner, k, o) || (k == id && o in Objs(pg, id, PER_PAGE))
  {
    ObjsMembers(pg, id, PER_PAGE, o);
    if IsObj(owner[pg := id], k, o) {
      var q: nat, j: nat :| ObjAt(owner[pg := id], k, o, q, j);
      if q != pg {
        assert ObjAt(owner, k, o, q, j);
      }
    }
    if IsObj(owner, k, o) {
      var q: nat, j: nat :| ObjAt(owner, k, o, q, j);
      assert ObjAt(owner[pg := id], k, o, q, j);
    }
    if k == id && o in Objs(pg, id, PER_PAGE) {
      var j: nat :| j < PER_PAGE && o == Obj(pg, id, j);
      assert ObjAt(owner[pg := id], k, o, pg, j);
    }
  }

  lemma GrownOk(p: Pool, ts: seq<Tile>, lo: nat, hi: nat, id: nat, pg: nat, nxt: map<nat, nat>)
    requires PoolOk(p, ts) && Tiles(ts, lo, hi) && id < CACHES && p.lists[id] == [] && pg !in p.owner &&
             IsPage(ts, pg, id)
    requires Threaded(nxt, Obj(pg, id, PER_PAGE - 1), Objs(pg, id, PER_PAGE))
    requires forall a | a in p.nxt && a !in Objs(pg, id, PER_PAGE) :: a in nxt && nxt[a] == p.nxt[a]
    ensures PoolOk(Grown(p, id, pg, nxt), ts)
  {
    var p' := Grown(p, id, pg, nxt);
    forall k | 0 <= k < CACHES ensures CacheOk(p', k) {
      assert CacheOk(p, k);
      forall o ensures IsObj(p'.owner, k, o) <==> IsObj(p.owner, k, o) || (k == id && o in Objs(pg, id, PER_PAGE)) {
        OwnerGrown(p.owner, id, pg, k, o);
      }
      if k == id {
        FreshObjects(p, ts, lo, hi, id, pg);
      } else {
        OtherListKept(p, ts, lo, hi, id, pg, nxt, k);
      }
    }
  }

  lemma OtherListKept(p: Pool, ts: seq<Tile>, lo: nat, hi: nat, id: nat, pg: nat, nxt: map<nat, nat>, k: nat)
    requires PoolOk(p, ts) && Tiles(ts, lo, hi) && id < CACHES && k < CACHES && pg !in p.owner && IsPage(ts, pg, id)
    requires forall a | a in p.nxt && a !in Objs(pg, id, PER_PAGE) :: a in nxt && nxt[a] == p.nxt[a]
    ensures Threaded(nxt, p.free[k], p.lists[k])
  {
    assert CacheOk(p, k);
    forall a | a in p.lists[k] ensures a !in Objs(pg, id, PER_PAGE) {
      assert IsObj(p.owner, k, a);
      if a in Objs(pg, id, PER_PAGE) {
        NewObject(p.owner, ts, lo, hi, id, pg, k, a);
      }
    }
    ThreadedFrame(p.nxt, nxt, p.free[k], p.lists[k]);
  }

  /** No object of a new page is live. */
  lemma FreshObjects(p: Pool, ts: seq<Tile>, lo: nat, hi: nat, id: nat, pg: nat)
    requires PoolOk(p, ts) && Tiles(ts, lo, hi) && id < CACHES && pg !in p.owner && IsPage(ts, pg, id)
    ensures forall o | o in Objs(pg, id, PER_PAGE) :: o !in p.live[id]
  {
    assert CacheOk(p, id);
    forall o | o in Objs(pg, id, PER_PAGE) ensures o !in p.live[id] {
      NewObject(p.owner, ts, lo, hi, id, pg, id, o);
    }
  }

  /** An object of a page outside owner is no object yet. */
  lemma NewObject(owner: map<nat, nat>, ts: seq<Tile>, lo: nat, hi: nat, id: nat, pg: nat, k: nat, o: nat)
    requires PagesOk(owner, ts) && Tiles(ts, lo, hi) && id < CACHES && k < CACHES && pg !in owner && IsPage(ts, pg, id)
    requires o in Objs(pg, id, PER_PAGE)
    ensures !IsObj(owner, k, o)
  {
    ObjsMembers(pg, id, PER_PAGE, o);
    var j: nat :| j < PER_PAGE && o == Obj(pg, id, j);
    ObjInPage(id, pg, j);
    forall q: nat, i: nat | ObjAt(owner, k, o, q, i) ensures false {
      ObjInPage(k, q, i);
      PagesApart(ts, lo, hi, pg, id, q, k);
      assert false;
    }
  }

  // ---------- the heap moves on under the caches ----------

  /** Live blocks stay live. */
  ghost predicate LiveStay(ts: seq<Tile>, ts': seq<Tile>) {
    forall t | t in ts && t.kind.Live? :: t in ts'
  }

  lemma PoolStays(p: Pool, ts: seq<Tile>, ts': seq<Tile>)
    requires PoolOk(p, ts) && LiveStay(ts, ts')
    ensures PoolOk(p, ts')
  {
    forall pg | pg in p.owner ensures IsPage(ts', pg, p.owner[pg]) {
      var t :| PageTile(ts, pg, p.owner[pg], t);
      assert PageTile(ts', pg, p.owner[pg], t);
    }
  }

  lemma CarveKeepsLive(ts: seq<Tile>, lo: nat, hi: nat, i: nat, n: nat)
    requires Tiles(ts, lo, hi) && i < |ts| && ts[i].kind.Free? && n <= ts[i].size
    ensures LiveStay(ts, Recut(ts, i, Carve(ts[i], n)))
    ensures Tile(ts[i].at, Carve(ts[i], n)[0].size, Live) in Recut(ts, i, Carve(ts[i], n))
  {
  }

  /** A block that was free is no page. */
  lemma FreeIsNoPage(p: Pool, ts: seq<Tile>, lo: nat, hi: nat, i: nat)
    requires PoolOk(p, ts) && Tiles(ts, lo, hi) && i < |ts| && ts[i].kind.Free?
    ensures ts[i].at + HDR !in p.owner
  {
    if ts[i].at + HDR in p.owner {
      var t :| PageTile(ts, ts[i].at + HDR, p.owner[ts[i].at + HDR], t);
      OthersClear(ts, i, lo, hi, t);
      TilesSplit(ts, i, lo, hi);
      assert false;
    }
  }

  // ---------- bytes ----------

  /** Address a is in a live object. */
  ghost predicate InLive(live: seq<set<nat>>, a: nat)
    requires |live| == CACHES
  {
    exists id: nat, o: nat {:trigger LiveAt(live, a, id, o)} :: LiveAt(live, a, id, o)
  }

  ghost predicate LiveAt(live: seq<set<nat>>, a: nat, id: nat, o: nat)
    requires |live| == CACHES
  {
    id < CACHES && o in live[id] && o <= a < o + Size(id)
  }

  /** Live objects are in no free heap block. */
  lemma LiveInNoFreeBlock(p: Pool, ts: seq<Tile>, lo: nat, hi: nat, a: nat)
    requires PoolOk(p, ts) && Tiles(ts, lo, hi) && InLive(p.live, a)
    ensures !InFree(ts, a)
  {
    var id: nat, o: nat :| LiveAt(p.live, a, id, o);
    assert CacheOk(p, id) && IsObj(p.owner, id, o);
    var i := ObjectInBlock(p.owner, ts, lo, hi, id, o);
    LiveNotFree(ts, lo, hi, i, a);
  }

  /** A free object shares no byte with a live one. */
  lemma FreeObjectClear(p: Pool, ts: seq<Tile>, lo: nat, hi: nat, id: nat, o: nat, a: nat)
    requires PoolOk(p, ts) && Tiles(ts, lo, hi) && id < CACHES && o in p.lists[id] && InLive(p.live, a)
    ensures !(o <= a < o + Size(id))
  {
    var k: nat, q: nat :| LiveAt(p.live, a, k, q);
    assert CacheOk(p, id) && CacheOk(p, k) && IsObj(p.owner, id, o) && IsObj(p.owner, k, q);
    ObjectsApart(p.owner, ts, lo, hi, id, o, k, q);
  }
}
