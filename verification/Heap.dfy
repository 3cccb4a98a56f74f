/** k_malloc, k_free and k_realloc of mm/allocator.c over the segregated lists. */
module Heap {
  import opened BitWord
  import opened BlockHeader
  import opened Bytes
  import opened HeapModel
  import opened LinkedList
  import opened SegLists
  import opened SizeClass
  import opened Tiling

  class Tlsf {
    const base: nat
    const tot: nat
    const mem: array<byte>      // the bytes from base on; headers are kept apart, in hdr
    const fl: array<nat>
    const slbmp: array<bits>
    var hdr: map<nat, Header>
    var flbmp: bits
    var used: nat
    var fre: nat
    ghost var lists: seq<seq<nat>>
    ghost var tiles: seq<Tile>

    ghost function Lists(): Seg
      reads this, fl, slbmp
    {
      Seg(hdr, fl[..], flbmp, slbmp[..], lists)
    }

    ghost predicate Shape() {
      && base % 16 == 0 && 16 <= base && 32 <= tot && tot % 16 == 0 && base + tot <= WRAP
      && mem.Length == tot && fl.Length == CLASSES && slbmp.Length == MAX_FL
      && fl as object != mem as object && fl as object != slbmp as object && mem as object != slbmp as object
    }

    /** The blocks lie between a header's length from either end of the heap. */
    function Lo(): nat { base + HDR }

    function Hi(): nat
      requires tot >= 32
    {
      base + tot - HDR
    }

    ghost predicate Valid()
      reads this, fl, slbmp
    {
      && Shape() && HeapOk(Lists(), tiles, Lo(), Hi())
      && used == Sum(tiles, Live) && fre == Sum(tiles, Free)
    }

    predicate InRegion(a: nat) {
      base <= a && a + 12 <= base + tot
    }

    /** The byte at address a; addresses outside the heap read as 0. */
    ghost function Byte(a: int): byte
      reads mem
    {
      if 0 <= a - base < mem.Length then mem[a - base] else 0
    }

    /** The c bytes from address a on. */
    ghost function Contents(a: int, c: int): seq<byte>
      reads mem
    {
      if 0 <= a - base && 0 <= c && a - base + c <= mem.Length then mem[a - base..a - base + c] else []
    }

    /** The bytes of live tile i are in no free block and not in any other tile x. */
    static lemma LiveClear(ts: seq<Tile>, lo: nat, hi: nat, i: nat, x: Tile, p: nat, c: nat)
      requires Tiles(ts, lo, hi) && i < |ts| && ts[i].kind.Live? && (x.size == 0 || (x in ts && x != ts[i]))
      requires ts[i].at <= p && p + c <= ts[i].at + ts[i].size
      ensures forall a: nat {:trigger InFree(ts, a)} | p <= a < p + c :: !InFree(ts, a) && !Inside(x, a)
    {
      forall a: nat | p <= a < p + c ensures !InFree(ts, a) && !Inside(x, a) {
        LiveNotFree(ts, lo, hi, i, a);
        if x in ts {
          OthersClear(ts, i, lo, hi, x);
        }
      }
    }

    /** mm_heap_init: one block over the heap goes through ins. */
    constructor (start: nat, bytes: nat)
      requires start % 16 == 0 && 0 < start && 32 <= bytes && bytes % 16 == 0 && start + bytes <= WRAP
      ensures Valid() && fresh(fl) && fresh(slbmp) && fresh(mem)
      ensures base == start && tot == bytes && tiles == [Tile(start + HDR, bytes - 2 * HDR, Free)]
    {
      base, tot := start, bytes;
      mem := new byte[bytes];
      fl := new nat[CLASSES](_ => 0);
      slbmp := new bits[MAX_FL](_ => ZERO);
      hdr := map[start + HDR := Header(bytes - 2 * HDR, 0, 0)];
      flbmp := ZERO;
      used, fre := 0, bytes - 2 * HDR;
      lists, tiles := seq(CLASSES, _ => []), [Tile(start + HDR, bytes - 2 * HDR, Live)];
      new;
      FirstBlock(base, tot);
      assert Lists() == Blank(Lo(), tot - 2 * HDR);
      FirstIns(tot - 2 * HDR);
    }

    /** The block over the whole heap, n bytes, goes into the list of its class. */
    method FirstIns(n: nat)
      requires Shape() && Lo() % 16 == 8 && n == tot - 2 * HDR && n % 16 == 0 && Lists() == Blank(Lo(), n)
      requires tiles == [Tile(Lo(), n, Live)] && used == 0 && fre == n
      modifies this`hdr, this`flbmp, this`lists, this`tiles, fl, slbmp, mem
      ensures Valid() && tiles == [Tile(Lo(), n, Free)]
    {
      FreshHeap(Lo(), n);
      Ins(Lo());
      tiles := [Tile(Lo(), n, Free)];
      assert tiles[1..] == [];
    }

    static lemma FirstBlock(start: nat, bytes: nat)
      requires start % 16 == 0 && bytes % 16 == 0 && bytes >= 32
      ensures (start + HDR) % 16 == 8 && (bytes - 2 * HDR) % 16 == 0
    {
    }

    // ---------- the lists ----------

    /** The prv field is the first word of a block's payload: writing it overwrites four payload bytes. */
    method SetPrv(x: nat, v: nat)
      requires mem.Length == tot && x in hdr && InRegion(x)
      modifies this`hdr, mem
      ensures hdr == old(hdr)[x := old(hdr)[x].(prv := v)]
      ensures forall a: nat | !Pocket(a, x) :: Byte(a) == old(Byte(a))
    {
      hdr := hdr[x := hdr[x].(prv := v)];
      var o := x + HDR - base;
      mem[o], mem[o + 1], mem[o + 2], mem[o + 3] := v % 256, v / 0x100 % 256, v / 0x10000 % 256, v / 0x1000000 % 256;
    }

    /** ins */
    method Ins(b: nat)
      requires Shape() && |lists| == CLASSES && b in hdr && b != 0 && Bsz(hdr[b].word) > 0 && InRegion(b)
      requires var h := fl[SlotOf(hdr, b)]; h != 0 ==> h in hdr && h != b && InRegion(h)
      modifies this`hdr, this`flbmp, this`lists, fl, slbmp, mem
      ensures Lists() == Inserted(old(Lists()), b)
      ensures forall a: nat | !Pocket(a, b) && !Pocket(a, old(fl[SlotOf(hdr, b)])) :: Byte(a) == old(Byte(a))
    {
      var c := Map(Bsz(hdr[b].word));
      var q := Index(c);
      var head := fl[q];
      hdr := hdr[b := hdr[b].(nxt := head)];
      SetPrv(b, 0);
      if head != 0 {
        SetPrv(head, b);
      }
      fl[q] := b;
      flbmp := Set(flbmp, c.f);
      slbmp[c.f] := Set(slbmp[c.f], c.s);
      hdr := hdr[b := hdr[b].(word := WithFree(hdr[b].word))];
      lists := Pushed(lists, q, b);
      assert hdr == InsHeaders(old(hdr), b, head);
    }

    /** What rem relies on: b is in its list between two other blocks or at an end. */
    static ghost predicate Unlinkable(g: Seg, b: nat, k: nat) {
      && Listed(g, b, k)
      && g.hdr[b].prv != b && g.hdr[b].nxt != b && (g.hdr[b].prv != 0 ==> g.hdr[b].prv != g.hdr[b].nxt)
      && (g.hdr[b].prv != 0 <==> k > 0)
      && (Without(g.lists[SlotOf(g.hdr, b)], k) == [] <==>
          (if k > 0 then g.fl[SlotOf(g.hdr, b)] else g.hdr[b].nxt) == 0)
    }

    static lemma ListedUnlinks(g: Seg, b: nat, k: nat)
      requires SegLists.Ok(g) && Listed(g, b, k)
      ensures Unlinkable(g, b, k)
    {
      RemChain(g, b, k);
      var list := Without(g.lists[SlotOf(g.hdr, b)], k);
      assert list != [] ==> EntryAt(RemHeaders(g.hdr, b), list, SlotOf(g.hdr, b), 0);
      NeighboursDiffer(g, b, k);
    }

    /** rem: b is entry k of its list. */
    method Rem(b: nat, ghost k: nat)
      requires Shape() && Unlinkable(Lists(), b, k) && (hdr[b].nxt != 0 ==> InRegion(hdr[b].nxt))
      modifies this`hdr, this`flbmp, this`lists, fl, slbmp, mem
      ensures Lists() == Removed(old(Lists()), b, k)
      ensures forall a: nat | !Pocket(a, old(hdr[b].nxt)) :: Byte(a) == old(Byte(a))
    {
      var c := Map(Bsz(hdr[b].word));
      var q := Index(c);
      var nxt, prv := hdr[b].nxt, hdr[b].prv;
      if prv != 0 {
        hdr := hdr[prv := hdr[prv].(nxt := nxt)];
      } else {
        fl[q] := nxt;
      }
      if nxt != 0 {
        SetPrv(nxt, prv);
      }
      lists := lists[q := Without(lists[q], k)];
      if fl[q] == 0 {
        slbmp[c.f] := Clear(slbmp[c.f], c.s);
        if IsZero(slbmp[c.f]) {
          flbmp := Clear(flbmp, c.f);
        }
      }
      hdr := hdr[b := hdr[b].(word := NoFree(hdr[b].word))];
      assert hdr == RemHeaders(old(hdr), b);
    }

    /** find: the head of the first list at or above the class of n that has a block; 0 when there is none. */
    method Find(n: nat) returns (b: nat, ghost q: nat)
      requires Shape() && SegLists.Ok(Lists()) && n > 0
      ensures b == 0 <==> NoneFits(lists, n)
      ensures b != 0 ==> Best(lists, n, q) && b == lists[q][0]
    {
      PickedIsBest(Lists(), n);
      PickedLevels(Lists(), n);
      q := if Picked(flbmp, slbmp[..], n) >= 0 then Picked(flbmp, slbmp[..], n) else 0;
      HeadIn(Lists(), q);
      b := Pick(n);
    }

    /** The bitmap lookups of find. */
    method Pick(n: nat) returns (b: nat)
      requires fl.Length == CLASSES && slbmp.Length == MAX_FL && n > 0 && Picked(flbmp, slbmp[..], n) < CLASSES
      requires var sm, fm := From(slbmp[Map(n).f], Map(n).s), From(flbmp, Map(n).f + 1);
        IsZero(sm) && !IsZero(fm) ==> Lowest(fm) < MAX_FL && !IsZero(slbmp[Lowest(fm)])
      ensures b == if Picked(flbmp, slbmp[..], n) >= 0 then fl[Picked(flbmp, slbmp[..], n)] else 0
    {
      var c := Map(n);
      var f, sm := c.f, From(slbmp[c.f], c.s);
      if IsZero(sm) {
        var fm := From(flbmp, f + 1);
        if IsZero(fm) {
          return 0;
        }
        f := Lowest(fm);
        sm := slbmp[f];
      }
      var s := Lowest(sm);
      b := fl[f * MAX_SL + s];
    }

    // ---------- malloc and free ----------

    static lemma HeadUnlinks(g: Seg, ts: seq<Tile>, lo: nat, hi: nat, i: nat)
      requires HeapOk(g, ts, lo, hi) && i < |ts| && ts[i].kind.Free? && ts[i].size > 0
      requires g.lists[Slot(ts[i].size)] != [] && g.lists[Slot(ts[i].size)][0] == ts[i].at
      ensures Unlinkable(g, ts[i].at, 0) && SlotOf(g.hdr, ts[i].at) == Slot(ts[i].size)
      ensures var nxt := g.hdr[ts[i].at].nxt; nxt != 0 ==> (lo <= nxt && nxt + 16 <= hi &&
              forall a | Pocket(a, nxt) :: InFree(ts, a))
      ensures HeapOk(Removed(g, ts[i].at, 0), Retyped(ts, i, Live), lo, hi)
      ensures Removed(g, ts[i].at, 0).lists == Popped(g.lists, Slot(ts[i].size))
      ensures ts[i].at in Removed(g, ts[i].at, 0).hdr && Bsz(Removed(g, ts[i].at, 0).hdr[ts[i].at].word) == ts[i].size
    {
      var b, q := ts[i].at, Slot(ts[i].size);
      EntryListed(g, q, 0);
      ListedUnlinks(g, b, 0);
      if g.hdr[b].nxt != 0 {
        ListedPocket(g, ts, lo, hi, q, g.hdr[b].nxt);
      }
      RemovedHeap(g, ts, lo, hi, i, 0);
      RecutTwice(ts, i, Tile(b, ts[i].size, Live), []);
      LiveInsertable(Removed(g, b, 0), Retyped(ts, i, Live), lo, hi, i);
      assert Without(g.lists[q], 0) == g.lists[q][1..];
    }

    /** rem of the head of a list, as malloc does it: the tile becomes live. */
    method Unlink(b: nat, ghost ts: seq<Tile>, ghost i: nat)
      requires Shape() && HeapOk(Lists(), ts, Lo(), Hi()) && i < |ts| && ts[i].kind.Free? && ts[i].size > 0 &&
               b == ts[i].at
      requires lists[Slot(ts[i].size)] != [] && lists[Slot(ts[i].size)][0] == b
      modifies this`hdr, this`flbmp, this`lists, fl, slbmp, mem
      ensures HeapOk(Lists(), Retyped(ts, i, Live), Lo(), Hi())
      ensures lists == Popped(old(lists), Slot(ts[i].size)) && b in hdr && Bsz(hdr[b].word) == ts[i].size
      ensures forall a: nat | !InFree(ts, a) :: Byte(a) == old(Byte(a))
    {
      HeadUnlinks(Lists(), ts, Lo(), Hi(), i);
      Rem(b, 0);
    }

    /** Live tile i can be cut at n: where its pieces lie and where the list head that the rest displaces lies. */
    static lemma SplitReady(g: Seg, ts: seq<Tile>, lo: nat, hi: nat, i: nat, n: nat)
      requires HeapOk(g, ts, lo, hi) && i < |ts| && ts[i].kind.Live? && 0 < n && n + 16 <= ts[i].size && n % 16 == 0
      ensures ts[i].at in g.hdr && Bsz(g.hdr[ts[i].at].word) == ts[i].size && Bsz(ts[i].size - n) == ts[i].size - n
      ensures lo <= ts[i].at && ts[i].at + n + 16 <= hi
      ensures var h := g.fl[Slot(ts[i].size - n)];
        h != 0 ==> h in g.hdr && h != ts[i].at && h != ts[i].at + n && lo <= h && h + 16 <= hi
      ensures forall a {:trigger InFree(ts, a)} | !InFree(ts, a) && !Inside(ts[i], a) ::
        !Pocket(a, ts[i].at + n) && (g.fl[Slot(ts[i].size - n)] != 0 ==> !Pocket(a, g.fl[Slot(ts[i].size - n)]))
    {
      var q := Slot(ts[i].size - n);
      LiveInsertable(g, ts, lo, hi, i);
      TileAtLeast(ts, lo, hi, i);
      assert ts[i] in ts;
      UnitCut(ts[i].at, ts[i].size, n);
      SizeBits(ts[i].size - n);
      var h := g.fl[q];
      HeadIn(g, q);
      if h != 0 {
        ListedPocket(g, ts, lo, hi, q, h);
        Unlisted(g, ts, lo, hi, i, q, ts[i].at);
        Unlisted(g, ts, lo, hi, i, q, ts[i].at + n);
      }
    }

    /** The memory after a split is a heap again. */
    static lemma SplitDone(g: Seg, g': Seg, ts: seq<Tile>, lo: nat, hi: nat, i: nat, n: nat)
      requires HeapOk(g, ts, lo, hi) && i < |ts| && ts[i].kind.Live? && 0 < n && n + 16 <= ts[i].size && n % 16 == 0
      requires var b, r := ts[i].at, ts[i].size - n;
        && b in g.hdr && Bsz(r) == r && (var h := g.fl[Slot(r)]; h != 0 ==> h in g.hdr && h != b && h != b + n)
        && g' == CutOff(g, b, n, r)
      ensures var b, r := ts[i].at, ts[i].size - n;
        && HeapOk(g', Recut(ts, i, [Tile(b, n, Live), Tile(b + n, r, Free)]), lo, hi)
        && g'.lists == Pushed(g.lists, Slot(r), b + n) && b in g'.hdr && Bsz(g'.hdr[b].word) == n
    {
      var b, r := ts[i].at, ts[i].size - n;
      CutOffFields(g, b, n, r);
      CutCommutes(g, b, n, r);
      SplitHeap(g, ts, lo, hi, i, n);
    }

    static lemma CutOffFields(g: Seg, b: nat, n: nat, r: nat)
      requires b in g.hdr && n > 0 && n % 16 == 0 && r > 0 && Bsz(r) == r
      requires |g.fl| == |g.lists| == CLASSES && |g.slbmp| == MAX_FL
      requires var h := g.fl[Slot(r)]; h != 0 ==> h in g.hdr
      ensures var g' := CutOff(g, b, n, r);
        g'.lists == Pushed(g.lists, Slot(r), b + n) && b in g'.hdr && Bsz(g'.hdr[b].word) == n
    {
      SizeBits(n);
    }

    /** The first n bytes of a live block stay with it, the rest becomes a free block. */
    method Split(b: nat, n: nat, ghost ts: seq<Tile>, ghost i: nat)
      requires Shape() && HeapOk(Lists(), ts, Lo(), Hi()) && i < |ts| && ts[i].kind.Live? && b == ts[i].at
      requires 0 < n && n + 16 <= ts[i].size && n % 16 == 0
      modifies this`hdr, this`flbmp, this`lists, fl, slbmp, mem
      ensures HeapOk(Lists(), Recut(ts, i, [Tile(b, n, Live), Tile(b + n, ts[i].size - n, Free)]), Lo(), Hi())
      ensures lists == Pushed(old(lists), Slot(ts[i].size - n), b + n) && b in hdr && Bsz(hdr[b].word) == n
      ensures forall a: nat | !InFree(ts, a) && !Inside(ts[i], a) :: Byte(a) == old(Byte(a))
    {
      ghost var g := Lists();
      SplitReady(g, ts, Lo(), Hi(), i, n);
      PutRest(b, n);
      SplitDone(g, Lists(), ts, Lo(), Hi(), i, n);
    }

    /** The headers and lists of a split. */
    method PutRest(b: nat, n: nat)
      requires Shape() && |lists| == CLASSES && b in hdr && n > 0 && n + 16 <= Bsz(hdr[b].word) && b != 0
      requires InRegion(b + n)
      requires var r := Bsz(hdr[b].word) - n;
        Bsz(r) == r && (var h := fl[Slot(r)]; h != 0 ==> h in hdr && h != b && h != b + n && InRegion(h))
      modifies this`hdr, this`flbmp, this`lists, fl, slbmp, mem
      ensures Lists() == CutOff(old(Lists()), b, n, old(Bsz(hdr[b].word) - n))
      ensures forall a: nat | !Pocket(a, b + n) &&
              !Pocket(a, old(fl[Slot(Bsz(hdr[b].word) - n)])) :: Byte(a) == old(Byte(a))
    {
      var r := Bsz(hdr[b].word) - n;
      var rb := b + n;
      hdr := hdr[rb := Header(r, 0, 0)];
      Ins(rb);
      hdr := hdr[b := hdr[b].(word := n)];
    }

    static lemma FreeReady(g: Seg, ts: seq<Tile>, lo: nat, hi: nat, i: nat)
      requires HeapOk(g, ts, lo, hi) && i < |ts| && ts[i].kind.Live?
      ensures var b := ts[i].at; b in g.hdr && b != 0 && Bsz(g.hdr[b].word) == ts[i].size > 0 && lo <= b && b + 16 <= hi
      ensures var h := g.fl[Slot(ts[i].size)];
        h != 0 ==> h in g.hdr && h != ts[i].at && lo <= h && h + 16 <= hi && forall a | Pocket(a, h) :: InFree(ts, a)
      ensures forall a | Pocket(a, ts[i].at) :: Inside(ts[i], a)
    {
      TileAtLeast(ts, lo, hi, i);
      var q := Slot(ts[i].size);
      LiveInsertable(g, ts, lo, hi, i);
      HeadIn(g, q);
      if g.fl[q] != 0 {
        ListedPocket(g, ts, lo, hi, q, g.fl[q]);
      }
    }

    /** The memory after ins of the block of tile i is a heap again. */
    static lemma FreeDone(g: Seg, g': Seg, ts: seq<Tile>, lo: nat, hi: nat, i: nat)
      requires HeapOk(g, ts, lo, hi) && i < |ts| && ts[i].kind.Live?
      requires var b := ts[i].at;
        && b in g.hdr && Bsz(g.hdr[b].word) == ts[i].size > 0
        && (var h := g.fl[Slot(ts[i].size)]; h != 0 ==> h in g.hdr)
        && g' == Inserted(g, b)
      ensures HeapOk(g', Retyped(ts, i, Free), lo, hi) && g'.lists == Pushed(g.lists, Slot(ts[i].size), ts[i].at)
    {
      InsertedHeap(g, ts, lo, hi, i);
    }

    /**
      k_free of a live block, tile i: it heads the list of its class, and nothing changes in the blocks that stay live.
      Blocks are not merged.
    */
    method Release(p: nat, ghost i: nat)
      requires Valid()
      requires p != 0 ==> i < |tiles| && tiles[i].kind.Live? && p == tiles[i].at + HDR
      modifies this`hdr, this`flbmp, this`used, this`fre, this`lists, this`tiles, fl, slbmp, mem
      ensures Valid()
      ensures p == 0 ==> (tiles == old(tiles) && Lists() == old(Lists()) && used == old(used) && fre == old(fre) &&
              mem[..] == old(mem[..]))
      ensures p != 0 ==>
        && tiles == Retyped(old(tiles), i, Free) && old(tiles[i].size) > 0
        && lists == Pushed(old(lists), Slot(old(tiles[i].size)), p - HDR)
        && used == old(used) - old(tiles[i].size) && fre == old(fre) + old(tiles[i].size)
        && forall a: nat | !InFree(old(tiles), a) && !Inside(old(tiles[i]), a) :: Byte(a) == old(Byte(a))
    {
      if p == 0 {
        return;
      }
      var b := p - HDR;
      ghost var g, ts := Lists(), tiles;
      FreeReady(g, ts, Lo(), Hi(), i);
      RetypedSums(ts, i, Free);
      used := used - Bsz(hdr[b].word);
      fre := fre + Bsz(hdr[b].word);
      Ins(b);
      FreeDone(g, Lists(), ts, Lo(), Hi(), i);
      tiles := Retyped(ts, i, Free);
    }

    /**
      k_malloc: NULL when no list at or above the class of the rounded size has a block. Otherwise the head of the
      first such list is carved: tile i, of class q.
    */
    method Malloc(sz: size_t) returns (p: nat, ghost i: nat)
      requires Valid() && (sz != 0 ==> Rounded(sz) != 0 && Adequate(Lists(), Rounded(sz)))
      modifies this`hdr, this`flbmp, this`used, this`fre, this`lists, this`tiles, fl, slbmp, mem
      ensures Valid()
      ensures p == 0 <==> sz == 0 || NoneFits(old(lists), Rounded(sz))
      ensures p == 0 ==> (tiles == old(tiles) && Lists() == old(Lists()) && used == old(used) && fre == old(fre) &&
              mem[..] == old(mem[..]))
      ensures p != 0 ==>
        && Served(old(lists), old(tiles), i, p, Rounded(sz))
        && tiles == Recut(old(tiles), i, Carve(old(tiles)[i], Rounded(sz)))
        && lists == CarvedLists(old(lists), old(tiles)[i], Rounded(sz))
        && used == old(used) + Carve(old(tiles)[i], Rounded(sz))[0].size
        && fre == old(fre) - Carve(old(tiles)[i], Rounded(sz))[0].size
      ensures forall a: nat | !InFree(old(tiles), a) :: Byte(a) == old(Byte(a))
    {
      if sz == 0 {
        return 0, 0;
      }
      RoundedCoversIff(sz);
      p, i := Serve(Rounded(sz));
    }

    /** k_malloc after rounding. */
    method Serve(n: nat) returns (p: nat, ghost i: nat)
      requires Valid() && n > 0 && n % 16 == 0 && Adequate(Lists(), n)
      modifies this`hdr, this`flbmp, this`used, this`fre, this`lists, this`tiles, fl, slbmp, mem
      ensures Valid()
      ensures p == 0 <==> NoneFits(old(lists), n)
      ensures p == 0 ==> (tiles == old(tiles) && Lists() == old(Lists()) && used == old(used) && fre == old(fre) &&
              mem[..] == old(mem[..]))
      ensures p != 0 ==>
        && Served(old(lists), old(tiles), i, p, n)
        && tiles == Recut(old(tiles), i, Carve(old(tiles)[i], n))
        && lists == CarvedLists(old(lists), old(tiles)[i], n)
        && used == old(used) + Carve(old(tiles)[i], n)[0].size
        && fre == old(fre) - Carve(old(tiles)[i], n)[0].size
      ensures forall a: nat | !InFree(old(tiles), a) :: Byte(a) == old(Byte(a))
    {
      ghost var q;
      var b;
      b, q := Find(n);
      if b == 0 {
        return 0, 0;
      }
      i := EntryTile(Lists(), tiles, Lo(), Hi(), q, 0);
      p := b + HDR;
      Grab(b, n, i);
    }

    static lemma RetypedReady(ts: seq<Tile>, lo: nat, hi: nat, i: nat, n: nat)
      requires Tiles(ts, lo, hi) && i < |ts| && ts[i].kind.Free? && 0 < n <= ts[i].size
      ensures forall a {:trigger InFree(ts, a)} | !InFree(ts, a) :: (!InFree(Retyped(ts, i, Live), a) &&
              !Inside(ts[i], a))
      ensures Retyped(ts, i, Live)[i] == Tile(ts[i].at, ts[i].size, Live)
      ensures n < ts[i].size ==> var mid := [Tile(ts[i].at, n, Live), Tile(ts[i].at + n, ts[i].size - n, Free)];
        Recut(Retyped(ts, i, Live), i, mid) == Recut(ts, i, mid)
    {
    }

    /** The block find picked is taken off its list and cut if enough is left. */
    method Take(b: nat, n: nat, ghost ts: seq<Tile>, ghost i: nat) returns (r: nat)
      requires Shape() && HeapOk(Lists(), ts, Lo(), Hi())
      requires 0 < n && n % 16 == 0 && i < |ts| && ts[i].kind.Free? && n <= ts[i].size && b == ts[i].at
      requires lists[Slot(ts[i].size)] != [] && lists[Slot(ts[i].size)][0] == b
      modifies this`hdr, this`flbmp, this`lists, fl, slbmp, mem
      ensures r == ts[i].size - n && HeapOk(Lists(), Recut(ts, i, Carve(ts[i], n)), Lo(), Hi())
      ensures lists == CarvedLists(old(lists), ts[i], n)
      ensures b in hdr && Bsz(hdr[b].word) == Carve(ts[i], n)[0].size
      ensures forall a: nat | !InFree(ts, a) :: Byte(a) == old(Byte(a))
    {
      RetypedReady(ts, Lo(), Hi(), i, n);
      Unlink(b, ts, i);
      r := Bsz(hdr[b].word) - n;
      if r >= HDR + 16 {
        Split(b, n, Retyped(ts, i, Live), i);
      }
    }

    /** The block is carved and booked. */
    method Grab(b: nat, n: nat, ghost i: nat)
      requires Valid() && 0 < n && n % 16 == 0 && i < |tiles| && tiles[i].kind.Free? && n <= tiles[i].size &&
               b == tiles[i].at
      requires lists[Slot(tiles[i].size)] != [] && lists[Slot(tiles[i].size)][0] == b
      modifies this`hdr, this`flbmp, this`used, this`fre, this`lists, this`tiles, fl, slbmp, mem
      ensures Valid()
      ensures tiles == Recut(old(tiles), i, Carve(old(tiles)[i], n)) &&
              lists == CarvedLists(old(lists), old(tiles)[i], n)
      ensures used == old(used) + Carve(old(tiles)[i], n)[0].size && fre == old(fre) - Carve(old(tiles)[i], n)[0].size
      ensures forall a: nat | !InFree(old(tiles), a) :: Byte(a) == old(Byte(a))
    {
      CarveSums(tiles, i, n);
      var r := Take(b, n, tiles, i);
      if r >= HDR + 16 {
        fre := fre - n;
      } else {
        fre := fre - Bsz(hdr[b].word);
      }
      used := used + Bsz(hdr[b].word);
      tiles := Recut(tiles, i, Carve(tiles[i], n));
    }

    /** k_malloc leaves the bytes of a live block alone. */
    method ServeOther(n: nat, ghost i: nat, ghost p: nat, ghost c: int) returns (r: nat, ghost j: nat)
      requires Valid() && n > 0 && n % 16 == 0 && Adequate(Lists(), n)
      requires i < |tiles| && tiles[i].kind.Live? && p == tiles[i].at + HDR && c <= tiles[i].size - HDR
      modifies this`hdr, this`flbmp, this`used, this`fre, this`lists, this`tiles, fl, slbmp, mem
      ensures Valid() && (r == 0 <==> NoneFits(old(lists), n))
      ensures r == 0 ==> tiles == old(tiles) && Lists() == old(Lists()) && mem[..] == old(mem[..])
      ensures r != 0 ==> (Served(old(lists), old(tiles), j, r, n) &&
              tiles == Recut(old(tiles), j, Carve(old(tiles)[j], n)))
      ensures Contents(p, c) == old(Contents(p, c))
      ensures forall a: nat | !InFree(old(tiles), a) :: Byte(a) == old(Byte(a))
    {
      if c >= 0 {
        LiveClear(tiles, Lo(), Hi(), i, Tile(0, 0, Free), p, c);
      }
      ghost var was := mem[..];
      r, j := Serve(n);
      SameContents(was, p, c);
    }

    /** Bytes that kept their values spell the same contents; was is the memory before. */
    ghost method SameContents(was: seq<byte>, p: int, c: int)
      requires |was| == mem.Length
      requires forall a: nat | p <= a < p + c && 0 <= a - base < mem.Length :: Byte(a) == was[a - base]
      ensures 0 <= p - base && 0 <= c && p - base + c <= mem.Length ==>
        mem[p - base..p - base + c] == was[p - base..p - base + c]
    {
      forall k | p - base <= k < p - base + c && 0 <= k < mem.Length ensures mem[k] == was[k] {
        assert Byte(base + k) == was[k];
      }
    }

    /** k_free leaves the bytes of another live block alone. */
    method ReleaseOther(p: nat, ghost i: nat, ghost j: nat, ghost r: nat, ghost c: nat)
      requires Valid() && i < |tiles| && tiles[i].kind.Live? && p == tiles[i].at + HDR
      requires j < |tiles| && tiles[j].kind.Live? && tiles[j] != tiles[i] && tiles[j].at <= r &&
               r + c <= tiles[j].at + tiles[j].size
      modifies this`hdr, this`flbmp, this`used, this`fre, this`lists, this`tiles, fl, slbmp, mem
      ensures Valid() && tiles == Retyped(old(tiles), i, Free)
      ensures Contents(r, c) == old(Contents(r, c))
      ensures forall a: nat | !InFree(old(tiles), a) && !Inside(old(tiles[i]), a) :: Byte(a) == old(Byte(a))
    {
      LiveClear(tiles, Lo(), Hi(), j, tiles[i], r, c);
      ghost var was := mem[..];
      Release(p, i);
      SameContents(was, r, c);
    }

    function Least(a: int, b: int): int { if a < b then a else b }

    /** memcpy between two blocks. */
    method CopyBytes(to: nat, from: nat, c: nat)
      requires mem.Length == tot && base <= to && to + c <= base + tot && base <= from && from + c <= base + tot
      modifies mem
      ensures Contents(to, c) == old(Contents(from, c))
      ensures forall a: nat | !(to <= a < to + c) :: Byte(a) == old(Byte(a))
    {
      forall k | 0 <= k < c {
        mem[to - base + k] := mem[from - base + k];
      }
    }

    /**
      k_realloc: NULL allocates, zero bytes frees. Otherwise nothing happens when no block is found, and else the
      common prefix of the contents moves to a new block and the old block, tile i, is freed.
    */
    method Realloc(p: nat, s: size_t, ghost i: nat) returns (r: nat, ghost j: nat)
      requires Valid()
      requires p != 0 ==> i < |tiles| && tiles[i].kind.Live? && p == tiles[i].at + HDR
      requires s != 0 ==> Rounded(s) >= s + HDR && Adequate(Lists(), Rounded(s))
      modifies this`hdr, this`flbmp, this`used, this`fre, this`lists, this`tiles, fl, slbmp, mem
      ensures Valid()
      ensures s == 0 ==> r == 0 && tiles == if p == 0 then old(tiles) else Retyped(old(tiles), i, Free)
      ensures s != 0 ==> (r == 0 <==> NoneFits(old(lists), Rounded(s)))
      ensures s != 0 && r == 0 ==> tiles == old(tiles) && Lists() == old(Lists()) && mem[..] == old(mem[..])
      ensures r != 0 ==> s != 0 && Served(old(lists), old(tiles), j, r, Rounded(s))
      ensures r != 0 && p == 0 ==> tiles == Recut(old(tiles), j, Carve(old(tiles)[j], Rounded(s)))
      ensures r != 0 && p != 0 ==>
        && tiles == ReallocTiles(old(tiles), i, j, Rounded(s))
        && Contents(r, Least(s, old(tiles)[i].size - HDR)) == old(Contents(p, Least(s, tiles[i].size - HDR)))
      ensures forall a: nat | !InFree(old(tiles), a) && !(p != 0 && Inside(old(tiles)[i], a)) :: Byte(a) == old(Byte(a))
    {
      j := 0;
      if p == 0 {
        r, j := Malloc(s);
      } else if s == 0 {
        Release(p, i);
        r := 0;
      } else {
        RoundedCoversIff(s);
        r, j := Resize(p, s, Rounded(s), i);
      }
    }

    /** k_realloc of a block to s bytes, n with the header and rounding. */
    method Resize(p: nat, s: nat, n: nat, ghost i: nat) returns (r: nat, ghost j: nat)
      requires Valid()
      requires i < |tiles| && tiles[i].kind.Live? && p == tiles[i].at + HDR
      requires s + HDR <= n && n % 16 == 0 && Adequate(Lists(), n)
      modifies this`hdr, this`flbmp, this`used, this`fre, this`lists, this`tiles, fl, slbmp, mem
      ensures Valid()
      ensures r == 0 <==> NoneFits(old(lists), n)
      ensures r == 0 ==> tiles == old(tiles) && Lists() == old(Lists()) && mem[..] == old(mem[..])
      ensures r != 0 ==> Served(old(lists), old(tiles), j, r, n) && tiles == ReallocTiles(old(tiles), i, j, n)
      ensures r != 0 ==>
        Contents(r, Least(s, old(tiles)[i].size - HDR)) == old(Contents(p, Least(s, tiles[i].size - HDR)))
      ensures forall a: nat | !InFree(old(tiles), a) && !Inside(old(tiles)[i], a) :: Byte(a) == old(Byte(a))
    {
      ghost var ts, c := tiles, Least(s, tiles[i].size - HDR);
      r, j := ServeOther(n, i, p, c);
      if r == 0 {
        return;
      }
      Move(p, r, s, ts, i, j, n);
    }

    /** After the new block was carved: copy, then free the old block. */
    method Move(p: nat, r: nat, s: nat, ghost ts: seq<Tile>, ghost i: nat, ghost j: nat, ghost n: nat)
      requires Valid() && Tiles(ts, Lo(), Hi()) && i < |ts| && j < |ts| && ts[i].kind.Live? && ts[j].kind.Free?
      requires n <= ts[j].size && s + HDR <= n && p == ts[i].at + HDR && r == ts[j].at + HDR
      requires tiles == Recut(ts, j, Carve(ts[j], n))
      modifies this`hdr, this`flbmp, this`used, this`fre, this`lists, this`tiles, fl, slbmp, mem
      ensures Valid() && tiles == ReallocTiles(ts, i, j, n)
      ensures Contents(r, Least(s, ts[i].size - HDR)) == old(Contents(p, Least(s, ts[i].size - HDR)))
      ensures forall a: nat | !InFree(ts, a) && !Inside(ts[i], a) :: Byte(a) == old(Byte(a))
    {
      ghost var i' := Moved(ts, i, j, n);
      MoveReady(ts, tiles, Lo(), Hi(), i, j, n);
      MoveClear(ts, tiles, Lo(), Hi(), j, n);
      LiveSize(Lists(), tiles, Lo(), Hi(), i');
      var c := Least(Bsz(hdr[p - HDR].word) - HDR, s);
      CopyBytes(r, p, c);
      ReleaseOther(p, i', j, r, c);
    }

    static lemma LiveSize(g: Seg, ts: seq<Tile>, lo: nat, hi: nat, i: nat)
      requires HeapOk(g, ts, lo, hi) && i < |ts| && ts[i].kind.Live?
      ensures ts[i].at in g.hdr && Bsz(g.hdr[ts[i].at].word) == ts[i].size
    {
      LiveInsertable(g, ts, lo, hi, i);
    }

    static lemma MovedThere(ts: seq<Tile>, ts': seq<Tile>, i: nat, j: nat, n: nat)
      requires i < |ts| && j < |ts| && ts[i].kind.Live? && ts[j].kind.Free? && n <= ts[j].size &&
               ts' == Recut(ts, j, Carve(ts[j], n))
      requires Units(ts')
      ensures Moved(ts, i, j, n) < |ts'| && ts'[Moved(ts, i, j, n)] == ts[i] && ts[i].at % 16 == 8 &&
              ts[i].size % 16 == 0
      ensures j < |ts'| && ts'[j].kind.Live? && ts'[j].at == ts[j].at && n <= ts'[j].size && ts[i] in ts'
    {
    }

    /** Where the old block and the new one lie after the new one was carved. */
    static lemma MoveReady(ts: seq<Tile>, ts': seq<Tile>, lo: nat, hi: nat, i: nat, j: nat, n: nat)
      requires Tiles(ts, lo, hi) && i < |ts| && j < |ts| && ts[i].kind.Live? && ts[j].kind.Free?
      requires n <= ts[j].size && ts' == Recut(ts, j, Carve(ts[j], n)) && Units(ts')
      ensures Moved(ts, i, j, n) < |ts'| && ts'[Moved(ts, i, j, n)] == ts[i]
      ensures j < |ts'| && ts'[j].kind.Live? && ts'[j].at == ts[j].at && n <= ts'[j].size && ts[i] in ts' &&
              ts[i].at != ts'[j].at
      ensures ts[i].size >= 16 && lo <= ts[i].at && ts[i].at + ts[i].size <= hi && lo <= ts[j].at &&
              ts[j].at + ts[j].size <= hi
    {
      MovedThere(ts, ts', i, j, n);
      TileInside(ts, lo, hi, i);
      TileInside(ts, lo, hi, j);
      assert ts[j] in ts;
      OthersClear(ts, i, lo, hi, ts[j]);
    }

    static lemma MoveClear(ts: seq<Tile>, ts': seq<Tile>, lo: nat, hi: nat, j: nat, n: nat)
      requires Tiles(ts, lo, hi) && j < |ts| && ts[j].kind.Free?
      requires n <= ts[j].size && ts' == Recut(ts, j, Carve(ts[j], n))
      ensures forall a {:trigger InFree(ts, a)} | !InFree(ts, a) :: !InFree(ts', a) && !Inside(ts[j], a)
    {
      assert ts[j] in ts;
      forall a | !InFree(ts, a) ensures !InFree(ts', a) && !Inside(ts[j], a) {
        CarvedFree(ts, lo, hi, j, n, a);
      }
    }

    // ---------- a caller that is served too short a block ----------

    /** What allocating n bytes of the one free block t and freeing them again leaves. */
    static lemma GivenBack(ts: seq<Tile>, lo: nat, hi: nat, i: nat, t: Tile, n: nat)
      requires Tiles(ts, lo, hi) && i < |ts| && OnlyFree(ts, t) && ts[i] == t && 0 < n && n + HDR + 16 <= t.size
      ensures var ts1 := Recut(ts, i, Carve(t, n));
        && i < |ts1| && ts1[i] == Tile(t.at, n, Live)
        && (forall u | u in ts && u.kind.Live? :: u in Retyped(ts1, i, Free))
        && Tile(t.at + n, t.size - n, Free) in Retyped(ts1, i, Free) && Retyped(ts1, i, Free)[i] == Tile(t.at, n, Free)
    {
      var c, ts1 := Carve(t, n), Recut(ts, i, Carve(t, n));
      assert ts1[i] == c[0] && ts1[i + 1] == c[1];
      var ts2 := Retyped(ts1, i, Free);
      assert ts2[i + 1] == c[1];
      forall u | u in ts && u.kind.Live? ensures u in ts2 {
        var k :| 0 <= k < |ts| && ts[k] == u;
        assert k != i && ts2[if k < i then k else k + 1] == u;
      }
    }

    /**
      A caller allocates s bytes of the one free block t and frees them: of the requests of that block's class exactly
      those that are no larger than it are served soundly from then on, whatever room the rest of t has.
    */
    method MallocFree(s: size_t, ghost t: Tile)
      requires Valid() && OnlyFree(tiles, t) && 0 < s < WRAP - 23 && Rounded(s) + HDR + 16 <= t.size
      modifies this`hdr, this`flbmp, this`used, this`fre, this`lists, this`tiles, fl, slbmp, mem
      ensures Valid() && HasRoom(tiles, t.size - Rounded(s))
      ensures forall n | n > 0 && Slot(n) == Slot(Rounded(s)) :: Adequate(Lists(), n) <==> n <= Rounded(s)
      ensures forall u | u in old(tiles) && u.kind.Live? :: u in tiles
    {
      RoundedCoversIff(s);
      OnlyFreeServes(Lists(), tiles, Lo(), Hi(), t, Rounded(s));
      ghost var ts := tiles;
      var p;
      ghost var i;
      p, i := Malloc(s);
      assert ts[i] in ts;
      GivenBack(ts, Lo(), Hi(), i, t, Rounded(s));
      Release(p, i);
      forall n | n > 0 && Slot(n) == Slot(Rounded(s)) ensures Adequate(Lists(), n) <==> n <= Rounded(s) {
        HeadServesIff(Lists(), tiles, Lo(), Hi(), i, n);
      }
    }

    /**
      From mm_heap_init on, with memory enough for both: for every request n that is not the lower bound of its class
      one k_malloc and one k_free lead to a heap that serves n too short a block while a free one of n bytes is there.
    */
    static method ReachMisserved(n: nat, start: nat, bytes: nat) returns (h: Tlsf)
      requires start % 16 == 0 && 0 < start && bytes % 16 == 0 && start + bytes <= WRAP
      requires n >= 16 && n % 16 == 0 && !IsLowerBound(n) && Lower(Slot(n)) + n + 2 * HDR <= bytes
      ensures fresh(h) && h.Valid() && HasRoom(h.tiles, n) && !Adequate(h.Lists(), n)
    {
      h := new Tlsf(start, bytes);
      ShortRequest(n);
      ghost var t := h.tiles[0];
      h.MallocFree(Lower(Slot(n)) - HDR, t);
    }

    /** The request whose block is the smallest of the class of n. */
    static lemma ShortRequest(n: nat)
      requires n >= 16 && n % 16 == 0 && !IsLowerBound(n) && n < WRAP - 2 * HDR
      ensures var m := Lower(Slot(n)); 16 <= m < n && n >= 32 && Rounded(m - HDR) == m && Slot(m) == Slot(n)
    {
      LowerIsUnit(n);
      RoundedUnit(Lower(Slot(n)));
    }

    static lemma RoundedUnit(m: nat)
      requires 16 <= m < WRAP - 2 * HDR && m % 16 == 0
      ensures Rounded(m - HDR) == m
    {
    }
  }
}
