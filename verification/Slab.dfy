/** mm_slab_init, k_slab_alloc and k_slab_free of mm/allocator.c over the segregated-fit heap. */
module Slab {
  import opened BlockHeader
  import opened Heap
  import opened HeapModel
  import opened SegLists
  import opened SizeClass
  import opened SlabModel
  import opened Tiling

  /** The heap request for one page. */
  function PageBytes(id: nat): (n: nat)
    requires id < CACHES
    ensures n < WRAP && Rounded(n) == PER_PAGE * Size(id) + 16
  {
    PER_PAGE * Size(id)
  }

  // ---------- no page size is the lower bound of its class ----------

  /** The page request of each cache, sixteen bytes above a power of two, is not the lower bound of its class. */
  lemma PageIsNoBound(id: nat)
    requires id < CACHES
    ensures !IsLowerBound(Rounded(PageBytes(id)))
  {
    var n, f := Rounded(PageBytes(id)), 13 - id;
    Powers();
    assert n == Pow2(f) + 16;
    Log2Is(n, f);
    assert n % Step(n) == 16;
    BoundIffMultiple(n);
  }

  lemma SameClass(n: nat, f: nat)
    requires 3 <= f < MAX_FL && n == Pow2(f) && Pow2(f - 3) > 16
    ensures Slot(n) == Slot(n + 16)
  {
    FirstOfLevel(n, f);
    FirstOfLevel(n + 16, f);
  }

  lemma PageIsPower(id: nat)
    requires id < CACHES
    ensures PageBytes(id) == Pow2(13 - id) && Pow2(10 - id) > 16
  {
    Powers();
  }

  lemma Powers()
    ensures Pow2(7) == 128 && Pow2(8) == 256 && Pow2(9) == 512 && Pow2(10) == 1024
    ensures Pow2(11) == 2048 && Pow2(12) == 4096 && Pow2(13) == 8192
  {
    SmallPowers();
    NextPower(4);
    NextPower(5);
    NextPower(6);
    NextPower(7);
    NextPower(8);
    NextPower(9);
    NextPower(10);
    NextPower(11);
    NextPower(12);
  }

  /** A block of just the page's bytes, without the room for a header, is in the class of the page request. */
  lemma PageClass(id: nat)
    requires id < CACHES
    ensures Slot(PageBytes(id)) == Slot(Rounded(PageBytes(id))) && PageBytes(id) < Rounded(PageBytes(id))
    ensures Rounded(PageBytes(id) - HDR) == PageBytes(id)
  {
    PageIsPower(id);
    SameClass(PageBytes(id), 13 - id);
  }

  class Slabs {
    const heap: Tlsf
    const free: array<nat>
    const cnt: array<nat>
    var nxt: map<nat, nat>
    ghost var owner: map<nat, nat>
    ghost var lists: seq<seq<nat>>
    ghost var live: seq<set<nat>>

    ghost function Contents(): Pool
      reads this, free, cnt
    {
      Pool(nxt, owner, free[..], cnt[..], lists, live)
    }

    ghost predicate Shape() {
      && free.Length == cnt.Length == CACHES && free != cnt && free != heap.fl && cnt != heap.fl
      && free as object != heap.mem as object && cnt as object != heap.mem as object
      && free as object != heap.slbmp as object && cnt as object != heap.slbmp as object
      && heap.Shape()
    }

    ghost predicate Valid()
      reads this, free, cnt, heap, heap.fl, heap.slbmp
    {
      Shape() && heap.Valid() && PoolOk(Contents(), heap.tiles)
    }

    /** The caches before their first pages. */
    constructor (h: Tlsf)
      requires h.Valid()
      ensures Valid() && heap == h && fresh(free) && fresh(cnt)
      ensures owner == map[] && lists == seq(CACHES, _ => []) && live == seq(CACHES, _ => {})
      ensures free[..] == cnt[..] == seq(CACHES, _ => 0)
    {
      heap := h;
      free := new nat[CACHES](_ => 0);
      cnt := new nat[CACHES](_ => 0);
      nxt, owner := map[], map[];
      lists, live := seq(CACHES, _ => []), seq(CACHES, _ => {});
      new;
      forall id | 0 <= id < CACHES ensures CacheOk(Contents(), id) {
      }
    }

    /** o->nxt = v: the link is the second word of the object. */
    method SetNext(o: nat, v: nat)
      requires heap.mem.Length == heap.tot && heap.base <= o && o + 8 <= heap.base + heap.tot
      modifies this`nxt, heap.mem
      ensures nxt == old(nxt)[o := v]
      ensures forall a: nat | !(o <= a < o + 8) :: heap.Byte(a) == old(heap.Byte(a))
    {
      nxt := nxt[o := v];
      var k := o + 4 - heap.base;
      heap.mem[k], heap.mem[k + 1] := v % 256, v / 0x100 % 256;
      heap.mem[k + 2], heap.mem[k + 3] := v / 0x10000 % 256, v / 0x1000000 % 256;
    }

    /** The new page's objects are threaded one after the other onto the empty list. */
    method ThreadPage(id: nat, pg: nat)
      requires Shape() && id < CACHES && free[id] == 0 && 0 < pg
      requires heap.base <= pg && pg + PER_PAGE * Size(id) <= heap.base + heap.tot
      modifies this`nxt, free, heap.mem
      ensures free[..] == old(free[..])[id := Obj(pg, id, PER_PAGE - 1)]
      ensures Threaded(nxt, Obj(pg, id, PER_PAGE - 1), Objs(pg, id, PER_PAGE))
      ensures forall a | a in old(nxt) && a !in Objs(pg, id, PER_PAGE) :: a in nxt && nxt[a] == old(nxt)[a]
      ensures forall a: nat | !(pg <= a < pg + PER_PAGE * Size(id)) :: heap.Byte(a) == old(heap.Byte(a))
    {
      var j := 0;
      while j < PER_PAGE
        invariant j <= PER_PAGE
        invariant free[..] == old(free[..])[id := if j == 0 then 0 else Obj(pg, id, j - 1)]
        invariant Threaded(nxt, free[id], Objs(pg, id, j))
        invariant forall a | a in old(nxt) && a !in Objs(pg, id, j) :: a in nxt && nxt[a] == old(nxt)[a]
        invariant forall a: nat | !(pg <= a < pg + PER_PAGE * Size(id)) :: heap.Byte(a) == old(heap.Byte(a))
      {
        var o := pg + j * Size(id);
        ObjInPage(id, pg, j);
        NotYetThreaded(pg, id, j);
        PushThreaded(nxt, free[id], Objs(pg, id, j), o);
        SetNext(o, free[id]);
        free[id] := o;
        assert Objs(pg, id, j + 1) == [o] + Objs(pg, id, j);
        j := j + 1;
      }
    }

    static lemma NotYetThreaded(pg: nat, id: nat, j: nat)
      requires id < CACHES
      ensures Obj(pg, id, j) !in Objs(pg, id, j)
    {
      ObjsMembers(pg, id, j, Obj(pg, id, j));
      forall k: nat | k < j ensures Obj(pg, id, k) != Obj(pg, id, j) {
        SamePageApart(id, pg, k, j);
      }
    }

    /** The objects of the page join the cache. */
    method AddPage(id: nat, pg: nat)
      requires Shape() && id < CACHES && free[id] == 0 && 0 < pg && |lists| == CACHES
      requires heap.base <= pg && pg + PER_PAGE * Size(id) <= heap.base + heap.tot
      modifies this`nxt, this`owner, this`lists, free, cnt, heap.mem
      ensures Contents() == Grown(old(Contents()), id, pg, nxt)
      ensures Threaded(nxt, Obj(pg, id, PER_PAGE - 1), Objs(pg, id, PER_PAGE))
      ensures forall a | a in old(nxt) && a !in Objs(pg, id, PER_PAGE) :: a in nxt && nxt[a] == old(nxt)[a]
      ensures forall a: nat | !(pg <= a < pg + PER_PAGE * Size(id)) :: heap.Byte(a) == old(heap.Byte(a))
    {
      ThreadPage(id, pg);
      cnt[id] := cnt[id] + PER_PAGE;
      owner := owner[pg := id];
      lists := lists[id := Objs(pg, id, PER_PAGE)];
    }

    /** A cache without free objects asks the heap for a page. */
    method Grow(id: nat) returns (pg: nat, ghost i: nat)
      requires Valid() && id < CACHES && lists[id] == [] && Adequate(heap.Lists(), Rounded(PageBytes(id)))
      modifies this`nxt, this`owner, this`lists, free, cnt, heap, heap.fl, heap.slbmp, heap.mem
      ensures Valid()
      ensures pg == 0 <==> NoneFits(old(heap.lists), Rounded(PageBytes(id)))
      ensures pg == 0 ==> Contents() == old(Contents()) && heap.tiles == old(heap.tiles)
      ensures pg != 0 ==>
        && Served(old(heap.lists), old(heap.tiles), i, pg, Rounded(PageBytes(id)))
        && heap.tiles == Recut(old(heap.tiles), i, Carve(old(heap.tiles)[i], Rounded(PageBytes(id))))
        && pg !in old(owner) && IsPage(heap.tiles, pg, id) && Contents() == Grown(old(Contents()), id, pg, nxt)
      ensures forall a: nat | !InFree(old(heap.tiles), a) :: heap.Byte(a) == old(heap.Byte(a))
    {
      ghost var ts, p, n := heap.tiles, Contents(), Rounded(PageBytes(id));
      pg, i := heap.Malloc(PageBytes(id));
      if pg == 0 {
        return;
      }
      PageFits(p, ts, heap.tiles, heap.Lo(), heap.Hi(), id, i, n);
      AddPage(id, pg);
      GrownOk(p, heap.tiles, heap.Lo(), heap.Hi(), id, pg, nxt);
    }

    static lemma PageFits(p: Pool, ts: seq<Tile>, ts': seq<Tile>, lo: nat, hi: nat, id: nat, i: nat, n: nat)
      requires PoolOk(p, ts) && Tiles(ts, lo, hi) && id < CACHES && i < |ts| && ts[i].kind.Free?
      requires p.lists[id] == [] && n == PER_PAGE * Size(id) + 16 <= ts[i].size && ts' == Recut(ts, i, Carve(ts[i], n))
      ensures p.free[id] == 0 && PoolOk(p, ts') && ts[i].at + HDR !in p.owner && IsPage(ts', ts[i].at + HDR, id)
      ensures lo <= ts[i].at && ts[i].at + n <= hi
      ensures forall a: nat {:trigger InFree(ts, a)} | ts[i].at <= a < ts[i].at + n :: InFree(ts, a)
    {
      assert CacheOk(p, id);
      CarveKeepsLive(ts, lo, hi, i, n);
      PoolStays(p, ts, ts');
      FreeIsNoPage(p, ts, lo, hi, i);
      assert PageTile(ts', ts[i].at + HDR, id, Tile(ts[i].at, Carve(ts[i], n)[0].size, Live));
      TileInside(ts, lo, hi, i);
      forall a: nat | ts[i].at <= a < ts[i].at + n ensures InFree(ts, a) {
        assert ts[i] in ts && Inside(ts[i], a);
      }
    }

    /** memset(o, 0, n) */
    method Clear(o: nat, n: nat)
      requires heap.mem.Length == heap.tot && heap.base <= o && o + n <= heap.base + heap.tot
      modifies heap.mem
      ensures heap.Contents(o, n) == seq(n, _ => 0)
      ensures forall a: nat | !(o <= a < o + n) :: heap.Byte(a) == old(heap.Byte(a))
    {
      forall k | 0 <= k < n {
        heap.mem[o - heap.base + k] := 0;
      }
    }

    /** A live object holds the byte at its own address. */
    static lemma HoldsItself(live: seq<set<nat>>, o: nat)
      requires |live| == CACHES
      ensures forall k | 0 <= k < CACHES && o in live[k] :: InLive(live, o)
    {
      forall k | 0 <= k < CACHES && o in live[k] ensures InLive(live, o) {
        assert LiveAt(live, o, k, o);
      }
    }

    static lemma DrawReady(p: Pool, ts: seq<Tile>, lo: nat, hi: nat, id: nat)
      requires PoolOk(p, ts) && Tiles(ts, lo, hi) && id < CACHES
      ensures p.lists[id] == [] <==> p.free[id] == 0
      ensures p.lists[id] != [] ==>
        && var o := p.free[id];
        && o in p.nxt && o == p.lists[id][0] && lo <= o && o + Size(id) <= hi && PoolOk(Drawn(p, id), ts)
        && (forall k | 0 <= k < CACHES :: o !in p.live[k])
        && (forall a: nat {:trigger InLive(p.live, a)} | InLive(p.live, a) :: !(o <= a < o + Size(id)))
    {
      assert CacheOk(p, id);
      if p.lists[id] != [] {
        DrawnOk(p, ts, id);
        var o := p.free[id];
        var i := ObjectInBlock(p.owner, ts, lo, hi, id, o);
        forall a: nat | InLive(p.live, a) ensures !(o <= a < o + Size(id)) {
          FreeObjectClear(p, ts, lo, hi, id, o, a);
        }
        HoldsItself(p.live, o);
      }
    }

    /** k_slab_alloc once the cache has been given the chance to grow. */
    method Draw(id: nat) returns (o: nat)
      requires Valid() && id < CACHES
      modifies this`lists, this`live, free, heap.mem
      ensures Valid()
      ensures o == 0 <==> old(lists[id]) == []
      ensures o == 0 ==> Contents() == old(Contents()) && heap.mem[..] == old(heap.mem[..])
      ensures o != 0 ==>
        && o == old(lists[id])[0] && old(free[id] in nxt) && Contents() == Drawn(old(Contents()), id)
        && heap.Contents(o, Size(id)) == seq(Size(id), _ => 0)
        && forall k | 0 <= k < CACHES :: o !in old(live)[k]
      ensures forall a: nat | InLive(old(live), a) :: heap.Byte(a) == old(heap.Byte(a))
    {
      DrawReady(Contents(), heap.tiles, heap.Lo(), heap.Hi(), id);
      o := free[id];
      if o == 0 {
        return;
      }
      free[id] := nxt[o];
      lists := lists[id := lists[id][1..]];
      live := live[id := live[id] + {o}];
      Clear(o, Size(id));
    }

    /**
      k_slab_alloc: the head of the cache's free list, after a page from the heap when there is none. The object is
      zeroed, was not live in any cache, and no live object changes.
    */
    method Alloc(id: nat) returns (o: nat, ghost pg: nat)
      requires Valid()
      requires id < CACHES && lists[id] == [] ==> Adequate(heap.Lists(), Rounded(PageBytes(id)))
      modifies this, free, cnt, heap, heap.fl, heap.slbmp, heap.mem
      ensures Valid()
      ensures o == 0 <==> id >= CACHES || (old(lists[id]) == [] && NoneFits(old(heap.lists), Rounded(PageBytes(id))))
      ensures o == 0 ==> Contents() == old(Contents()) && heap.tiles == old(heap.tiles)
      ensures o != 0 ==>
        && heap.Contents(o, Size(id)) == seq(Size(id), _ => 0)
        && (forall k | 0 <= k < CACHES :: o !in old(live)[k])
      ensures o != 0 && old(lists[id]) != [] ==>
        && o == old(lists[id])[0] && old(free[id] in nxt) && Contents() == Drawn(old(Contents()), id)
        && heap.tiles == old(heap.tiles)
      ensures o != 0 && old(lists[id]) == [] ==>
        && pg !in old(owner) && IsPage(heap.tiles, pg, id) && o == Obj(pg, id, PER_PAGE - 1) && o in nxt
        && Contents() == Drawn(Grown(old(Contents()), id, pg, nxt), id)
      ensures forall a: nat | InLive(old(live), a) :: heap.Byte(a) == old(heap.Byte(a))
    {
      pg := 0;
      if id >= CACHES {
        return 0, pg;
      }
      DrawReady(Contents(), heap.tiles, heap.Lo(), heap.Hi(), id);
      if free[id] == 0 {
        ghost var i;
        var page;
        LiveBytes(Contents(), heap.tiles, heap.Lo(), heap.Hi());
        page, i := Grow(id);
        pg := page;
      }
      o := Draw(id);
    }

    static lemma LiveBytes(p: Pool, ts: seq<Tile>, lo: nat, hi: nat)
      requires PoolOk(p, ts) && Tiles(ts, lo, hi)
      ensures forall a: nat {:trigger InLive(p.live, a)} | InLive(p.live, a) :: !InFree(ts, a)
    {
      forall a: nat | InLive(p.live, a) ensures !InFree(ts, a) {
        LiveInNoFreeBlock(p, ts, lo, hi, a);
      }
    }

    static lemma GiveReady(p: Pool, ts: seq<Tile>, lo: nat, hi: nat, id: nat, o: nat)
      requires PoolOk(p, ts) && Tiles(ts, lo, hi) && id < CACHES && o in p.live[id]
      ensures lo <= o && o + Size(id) <= hi && PoolOk(Given(p, id, o), ts)
      ensures forall a: nat {:trigger InLive(Given(p, id, o).live, a)} | InLive(Given(p, id, o).live, a) ::
              !(o <= a < o + Size(id))
    {
      GivenOk(p, ts, lo, hi, id, o);
      assert CacheOk(p, id) && IsObj(p.owner, id, o);
      var i := ObjectInBlock(p.owner, ts, lo, hi, id, o);
      var p' := Given(p, id, o);
      assert p'.lists[id][0] == o;
      forall a: nat | InLive(p'.live, a) ensures !(o <= a < o + Size(id)) {
        FreeObjectClear(p', ts, lo, hi, id, o, a);
      }
    }

    /** k_slab_free: the object heads the free list of its cache; the objects still live do not change. */
    method Release(id: nat, o: nat)
      requires Valid() && (o != 0 && id < CACHES ==> o in live[id])
      modifies this`nxt, this`lists, this`live, free, heap.mem
      ensures Valid()
      ensures o == 0 || id >= CACHES ==> Contents() == old(Contents()) && heap.mem[..] == old(heap.mem[..])
      ensures o != 0 && id < CACHES ==>
        && Contents() == Given(old(Contents()), id, o)
        && forall a: nat | InLive(live, a) :: heap.Byte(a) == old(heap.Byte(a))
    {
      if o == 0 || id >= CACHES {
        return;
      }
      GiveReady(Contents(), heap.tiles, heap.Lo(), heap.Hi(), id, o);
      SetNext(o, free[id]);
      free[id] := o;
      lists := lists[id := [o] + lists[id]];
      live := live[id := live[id] - {o}];
    }

    /** What the pages of the caches from id on take from the heap. */
    static function Wanted(id: nat): nat
      decreases CACHES - id
    {
      if id >= CACHES then HDR + 16 else PER_PAGE * Size(id) + 16 + Wanted(id + 1)
    }

    static lemma GrowReady(g: Seg, ts: seq<Tile>, lo: nat, hi: nat, t: Tile, id: nat)
      requires HeapOk(g, ts, lo, hi) && OnlyFree(ts, t) && id < CACHES && Wanted(id) <= t.size
      ensures Adequate(g, Rounded(PageBytes(id))) && !NoneFits(g.lists, Rounded(PageBytes(id)))
    {
      OnlyFreeServes(g, ts, lo, hi, t, Rounded(PageBytes(id)));
    }

    static lemma Remains(ts: seq<Tile>, lo: nat, hi: nat, i: nat, t: Tile, id: nat, spare: nat) returns (u: Tile)
      requires Tiles(ts, lo, hi) && OnlyFree(ts, t) && id < CACHES && Wanted(id) + spare <= t.size && i < |ts| &&
               ts[i].kind.Free?
      ensures Rounded(PageBytes(id)) <= ts[i].size
      ensures OnlyFree(Recut(ts, i, Carve(ts[i], Rounded(PageBytes(id)))), u)
      ensures Wanted(id + 1) + spare <= u.size
    {
      assert ts[i] in ts;
      var n := Rounded(PageBytes(id));
      WantedRest(id + 1);
      OnlyFreeCarved(ts, lo, hi, i, n);
      u := Tile(ts[i].at + n, ts[i].size - n, Free);
    }

    static lemma WantedRest(id: nat)
      ensures Wanted(id) >= HDR + 16
      decreases CACHES - id
    {
      if id < CACHES {
        WantedRest(id + 1);
      }
    }

    /** The first page of a cache, while the heap's one free block t lasts. */
    method Prime(id: nat, ghost t: Tile, ghost spare: nat) returns (ghost u: Tile)
      requires Valid() && id < CACHES && lists[id] == [] && OnlyFree(heap.tiles, t) && Wanted(id) + spare <= t.size
      modifies this`nxt, this`owner, this`lists, free, cnt, heap, heap.fl, heap.slbmp, heap.mem
      ensures Valid() && OnlyFree(heap.tiles, u) && Wanted(id + 1) + spare <= u.size
      ensures cnt[..] == old(cnt[..])[id := old(cnt[id]) + PER_PAGE] && |lists[id]| == PER_PAGE
      ensures |lists| == CACHES && forall k | 0 <= k < CACHES && k != id :: lists[k] == old(lists)[k]
    {
      GrowReady(heap.Lists(), heap.tiles, heap.Lo(), heap.Hi(), t, id);
      ghost var ts, p, i := heap.tiles, Contents(), 0;
      var pg;
      pg, i := Grow(id);
      u := Remains(ts, heap.Lo(), heap.Hi(), i, t, id, spare);
      GrownLists(p, id, pg, nxt);
    }

    static lemma GrownLists(p: Pool, id: nat, pg: nat, nxt: map<nat, nat>)
      requires id < CACHES && |p.lists| == |p.free| == |p.cnt| == CACHES && p.lists[id] == []
      ensures var g := Grown(p, id, pg, nxt);
        && g.cnt == p.cnt[id := p.cnt[id] + PER_PAGE] && |g.lists| == CACHES && |g.lists[id]| == PER_PAGE
        && forall k | 0 <= k < CACHES && k != id :: g.lists[k] == p.lists[k]
    {
    }

    /**
      mm_slab_init on a heap whose one free block t is large enough: every cache starts with one page of free objects,
      and spare bytes stay in one free block u.
    */
    method Init(ghost t: Tile, ghost spare: nat) returns (ghost u: Tile)
      requires Valid() && lists == seq(CACHES, _ => []) && live == seq(CACHES, _ => {}) &&
               cnt[..] == seq(CACHES, _ => 0)
      requires OnlyFree(heap.tiles, t) && Wanted(0) + spare <= t.size
      modifies this, free, cnt, heap, heap.fl, heap.slbmp, heap.mem
      ensures Valid() && live == old(live)
      ensures forall id | 0 <= id < CACHES :: cnt[id] == |lists[id]| == PER_PAGE
      ensures OnlyFree(heap.tiles, u) && u.size >= HDR + 16 + spare
    {
      var id := 0;
      u := t;
      while id < CACHES
        invariant id <= CACHES && Valid() && live == old(live)
        invariant OnlyFree(heap.tiles, u) && Wanted(id) + spare <= u.size
        invariant forall k | 0 <= k < id :: cnt[k] == |lists[k]| == PER_PAGE
        invariant forall k | id <= k < CACHES :: cnt[k] == 0 && lists[k] == []
      {
        u := Prime(id, u, spare);
        id := id + 1;
      }
    }

    // ---------- a cache that is served too short a page ----------

    /** A caller allocates all free objects of a cache. */
    method UseUp(id: nat)
      requires Valid() && id < CACHES
      modifies this`lists, this`live, free, heap.mem
      ensures Valid() && lists[id] == []
    {
      while free[id] != 0
        invariant Valid()
        decreases |lists[id]|
      {
        DrawReady(Contents(), heap.tiles, heap.Lo(), heap.Hi(), id);
        var o := Draw(id);
      }
      DrawReady(Contents(), heap.tiles, heap.Lo(), heap.Hi(), id);
    }

    /**
      From mm_slab_init on a fresh heap with memory enough, a state is reached in which cache id is empty, the heap has
      room for a page, and find would answer the page request with too short a block: a caller allocates and frees a
      block of the size of the page without its header, and uses the cache up.
    */
    method ReachMisserved(id: nat, ghost t: Tile)
      requires Valid() && lists == seq(CACHES, _ => []) && live == seq(CACHES, _ => {}) &&
               cnt[..] == seq(CACHES, _ => 0)
      requires id < CACHES && OnlyFree(heap.tiles, t) && Wanted(0) + 2 * Rounded(PageBytes(id)) <= t.size
      modifies this, free, cnt, heap, heap.fl, heap.slbmp, heap.mem
      ensures Valid() && lists[id] == [] && HasRoom(heap.tiles, Rounded(PageBytes(id)))
      ensures !Adequate(heap.Lists(), Rounded(PageBytes(id)))
    {
      ghost var u := Init(t, 2 * Rounded(PageBytes(id)));
      PageClass(id);
      ghost var ts := heap.tiles;
      heap.MallocFree(PageBytes(id) - HDR, u);
      PoolStays(Contents(), ts, heap.tiles);
      UseUp(id);
    }
  }
}
