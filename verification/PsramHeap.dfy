/** The first-fit PSRAM heap of mm/allocator.c: headers in the heap itself, one singly linked free list. */
module PsramHeap {
  import opened BlockHeader
  import opened LinkedList
  import opened Tiling

  const BASE: nat := 0x3C00_0000
  const SIZE: nat := 8 * 1024 * 1024
  const END: nat := BASE + SIZE

  /** sz with the free bit, and the next pointer (0 for NULL). */
  datatype Header = Header(word: nat, nxt: nat)

  /** ALIGN_UP(sz + BLK_HDR, 64) in 32-bit arithmetic. */
  function Rounded(sz: size_t): nat {
    (sz + HDR + 63) % WRAP / 64 * 64
  }

  /** The rounded size covers the request and its header exactly when the sum does not wrap. */
  lemma RoundedCoversIff(sz: size_t)
    ensures Rounded(sz) % 64 == 0
    ensures Rounded(sz) >= sz + HDR <==> sz < WRAP - 71
    ensures sz < WRAP - 71 ==> sz + HDR <= Rounded(sz) < sz + HDR + 64
    ensures Rounded(sz) == 0 <==> WRAP - 71 <= sz < WRAP - 7
  {
  }

  // ---------- the free list and the tiles ----------

  /** Entry k is a block that links to the next entry. */
  ghost predicate LinkAt(hdr: map<nat, Header>, list: seq<nat>, k: nat)
    requires k < |list|
  {
    list[k] in hdr && list[k] != 0 && hdr[list[k]].nxt == Next(list, k)
  }

  ghost predicate Linked(hdr: map<nat, Header>, free: nat, list: seq<nat>) {
    && free == Head(list)
    && Distinct(list)
    && forall k {:trigger LinkAt(hdr, list, k)} | 0 <= k < |list| :: LinkAt(hdr, list, k)
  }

  ghost predicate AllUnits(ts: seq<Tile>) {
    forall t | t in ts :: t.at % 64 == 0 && t.size % 64 == 0
  }

  ghost predicate Headed(hdr: map<nat, Header>, list: seq<nat>, t: Tile) {
    && (!t.kind.Lost? ==> t.at in hdr && Bsz(hdr[t.at].word) == t.size)
    && (t.kind.Free? ==> t.at in list)
  }

  ghost predicate Backed(hdr: map<nat, Header>, ts: seq<Tile>, a: nat) {
    a in hdr && Tile(a, Bsz(hdr[a].word), Free) in ts
  }

  /** Every live or free tile carries its header; the list holds exactly the free tiles. */
  ghost predicate Described(hdr: map<nat, Header>, list: seq<nat>, ts: seq<Tile>) {
    && (forall t {:trigger Headed(hdr, list, t)} | t in ts :: Headed(hdr, list, t))
    && (forall a {:trigger Backed(hdr, ts, a)} | a in list :: Backed(hdr, ts, a))
  }

  /**
    A free block of size bytes can give n bytes. A request whose rounding wrapped to 0 bytes finds every block large
    enough; only a block of one unit survives it.
  */
  predicate CanGive(size: nat, n: nat) {
    n <= size && n % 64 == 0 && (n > 0 || size == 64)
  }

  /**
    What allocating n bytes makes of a free tile: a remainder of one unit is too small to keep, and 0 bytes leave
    nothing to keep.
  */
  function Carve(t: Tile, n: nat): seq<Tile>
    requires n <= t.size
  {
    var r := t.size - n;
    if r >= HDR + 64 then [Tile(t.at, n, Live), Tile(t.at + n, r, Free)]
    else if n == 0 then [Tile(t.at, r, Lost)]
    else if r > 0 then [Tile(t.at, n, Live), Tile(t.at + n, r, Lost)]
    else [Tile(t.at, n, Live)]
  }

  /** The list after its entry k was taken for n bytes. */
  function Relink(list: seq<nat>, k: nat, size: nat, n: nat): seq<nat>
    requires k < |list| && n <= size
  {
    if size - n >= HDR + 64 then list[k := list[k] + n] else Without(list, k)
  }

  /** The link that led to the block: the head of the list, or the header of entry k - 1. */
  ghost predicate IsPrev(list: seq<nat>, k: nat, prev: nat) {
    k < |list| && prev == if k == 0 then 0 else list[k - 1]
  }

  function Relinked(hdr: map<nat, Header>, prev: nat, v: nat): map<nat, Header>
    requires prev != 0 ==> prev in hdr
  {
    if prev == 0 then hdr else hdr[prev := hdr[prev].(nxt := v)]
  }

  /** Headers after block b gave up n bytes and the rest, r bytes, took its place in the list. */
  function SplitHeaders(hdr: map<nat, Header>, prev: nat, b: nat, n: nat, r: nat): map<nat, Header>
    requires b in hdr && (prev != 0 ==> prev in hdr)
  {
    var h := Relinked(hdr[b + n := Header(WithFree(r), hdr[b].nxt)], prev, b + n);
    h[b := h[b].(word := n)]
  }

  /** Headers after block b left the list whole. */
  function WholeHeaders(hdr: map<nat, Header>, prev: nat, b: nat, n: nat): map<nat, Header>
    requires b in hdr && (prev != 0 ==> prev in hdr)
  {
    var h := Relinked(hdr, prev, hdr[b].nxt);
    h[b := h[b].(word := n)]
  }

  lemma SplitNxt(hdr: map<nat, Header>, prev: nat, b: nat, n: nat, r: nat, a: nat)
    requires b in hdr && (prev != 0 ==> prev in hdr) && a in hdr && a != 0 && a != b + n && n > 0
    ensures a in SplitHeaders(hdr, prev, b, n, r) && b + n in SplitHeaders(hdr, prev, b, n, r)
    ensures SplitHeaders(hdr, prev, b, n, r)[a].nxt == if a == prev then b + n else hdr[a].nxt
    ensures prev != b + n ==> SplitHeaders(hdr, prev, b, n, r)[b + n].nxt == hdr[b].nxt
  {
  }

  lemma SplitLinked(hdr: map<nat, Header>, free: nat, list: seq<nat>, k: nat, prev: nat, n: nat, r: nat)
    requires Linked(hdr, free, list) && IsPrev(list, k, prev) && n > 0 && list[k] + n !in list
    requires list[k] in hdr && (prev != 0 ==> prev in hdr)
    ensures Linked(SplitHeaders(hdr, prev, list[k], n, r), if k == 0 then list[k] + n else free, list[k := list[k] + n])
  {
    var list', hdr' := list[k := list[k] + n], SplitHeaders(hdr, prev, list[k], n, r);
    forall j | 0 <= j < |list'| ensures LinkAt(hdr', list', j) {
      assert LinkAt(hdr, list, j) && LinkAt(hdr, list, k);
      if j != k {
        SplitNxt(hdr, prev, list[k], n, r, list[j]);
        if j + 1 != k && prev != 0 {
          assert list[j] != list[k - 1];
        }
      } else {
        SplitNxt(hdr, prev, list[k], n, r, list[k]);
      }
    }
  }

  lemma WholeNxt(hdr: map<nat, Header>, prev: nat, b: nat, n: nat, a: nat)
    requires b in hdr && (prev != 0 ==> prev in hdr) && a in hdr && a != 0 && a != b
    ensures a in WholeHeaders(hdr, prev, b, n)
    ensures WholeHeaders(hdr, prev, b, n)[a].nxt == if a == prev then hdr[b].nxt else hdr[a].nxt
  {
  }

  lemma WholeLinked(hdr: map<nat, Header>, free: nat, list: seq<nat>, k: nat, prev: nat, n: nat)
    requires Linked(hdr, free, list) && IsPrev(list, k, prev) && list[k] in hdr && (prev != 0 ==> prev in hdr)
    ensures Linked(WholeHeaders(hdr, prev, list[k], n), if k == 0 then hdr[list[k]].nxt else free, Without(list, k))
  {
    var list', hdr' := Without(list, k), WholeHeaders(hdr, prev, list[k], n);
    WithoutMembers(list, k);
    forall j | 0 <= j < |list'| ensures LinkAt(hdr', list', j) {
      var o := if j < k then j else j + 1;
      assert LinkAt(hdr, list, o) && LinkAt(hdr, list, k) && list[o] != list[k];
      WholeNxt(hdr, prev, list[k], n, list[o]);
      if o + 1 != k && prev != 0 {
        assert list[o] != list[k - 1];
      }
    }
  }

  /** Recutting one tile: the headers of its pieces are right and no header outside it changed. */
  lemma RecutDescribed(hdr: map<nat, Header>, list: seq<nat>, ts: seq<Tile>, i: nat, mid: seq<Tile>,
                       hdr': map<nat, Header>, list': seq<nat>)
    requires Tiles(ts, BASE, END) && Described(hdr, list, ts) && i < |ts|
    requires forall t | t in mid :: Headed(hdr', list', t)
    requires forall a | a in hdr && !(ts[i].at <= a < ts[i].at + ts[i].size) :: a in hdr' && hdr'[a].word == hdr[a].word
    requires forall a | a in list && a != ts[i].at :: a in list'
    requires forall a | a in list' :: (a in list && a != ts[i].at) || Backed(hdr', mid, a)
    ensures Described(hdr', list', Recut(ts, i, mid))
  {
    var ts' := Recut(ts, i, mid);
    forall t | t in ts' ensures Headed(hdr', list', t) {
      RecutMembers(ts, i, mid, BASE, END, t);
      if t !in mid {
        assert Headed(hdr, list, t);
        OthersClear(ts, i, BASE, END, t);
        TilesSplit(ts, i, BASE, END);
      }
    }
    forall a | a in list' ensures Backed(hdr', ts', a) {
      if a in list && a != ts[i].at {
        assert Backed(hdr, ts, a);
        var t := Tile(a, Bsz(hdr[a].word), Free);
        OthersClear(ts, i, BASE, END, t);
        RecutMembers(ts, i, mid, BASE, END, t);
      } else {
        RecutMembers(ts, i, mid, BASE, END, Tile(a, Bsz(hdr'[a].word), Free));
      }
    }
  }

  lemma RecutUnits(ts: seq<Tile>, i: nat, mid: seq<Tile>)
    requires AllUnits(ts) && AllUnits(mid) && i < |ts|
    ensures AllUnits(Recut(ts, i, mid))
  {
  }

  lemma SplitWords(hdr: map<nat, Header>, prev: nat, b: nat, n: nat, r: nat, a: nat)
    requires b in hdr && (prev != 0 ==> prev in hdr) && n > 0
    ensures var h := SplitHeaders(hdr, prev, b, n, r);
      && (a in hdr ==> a in h && (a != b && a != b + n ==> h[a].word == hdr[a].word))
      && h[b].word == n && b + n in h && h[b + n].word == WithFree(r)
  {
  }

  lemma WholeWords(hdr: map<nat, Header>, prev: nat, b: nat, n: nat, a: nat)
    requires b in hdr && (prev != 0 ==> prev in hdr)
    ensures var h := WholeHeaders(hdr, prev, b, n);
      && (a in hdr ==> a in h && (a != b ==> h[a].word == hdr[a].word)) && h[b].word == n
  {
  }

  lemma ReplacedMembers(list: seq<nat>, k: nat, v: nat)
    requires k < |list| && Distinct(list)
    ensures forall a :: a in list[k := v] <==> (a in list && a != list[k]) || a == v
  {
    forall a ensures a in list[k := v] <==> (a in list && a != list[k]) || a == v {
      if a in list && a != list[k] {
        var j :| 0 <= j < |list| && list[j] == a;
        assert list[k := v][j] == a;
      }
      assert list[k := v][k] == v;
    }
  }

  /** No list entry lies strictly inside a tile. */
  lemma InsideUnlisted(hdr: map<nat, Header>, list: seq<nat>, ts: seq<Tile>, i: nat, a: nat)
    requires Tiles(ts, BASE, END) && Described(hdr, list, ts) && i < |ts| && ts[i].at < a < ts[i].at + ts[i].size
    ensures a !in list
  {
    if a in list {
      assert Backed(hdr, ts, a);
      OthersClear(ts, i, BASE, END, Tile(a, Bsz(hdr[a].word), Free));
      assert false;
    }
  }

  lemma Units(b: nat, size: nat, n: nat)
    requires b % 64 == 0 && size % 64 == 0 && n % 64 == 0 && n <= size
    ensures (b + n) % 64 == 0 && (size - n) % 64 == 0
    ensures Bsz(n) == n && Bsz(WithFree(size - n)) == size - n
  {
    MaskOf(n);
    MaskOf(size - n);
  }

  lemma MaskOf(n: nat)
    requires n % 64 == 0
    ensures Bsz(n) == n && Bsz(WithFree(n)) == n
  {
    var m := n / 64;
    assert n == 64 * m;
    Quads(16 * m, n);
    TwoOf(32 * m, n, 0);
  }

  lemma SplitDescribed(hdr: map<nat, Header>, list: seq<nat>, ts: seq<Tile>, i: nat, k: nat, prev: nat, n: nat)
    requires Tiles(ts, BASE, END) && Described(hdr, list, ts) && Distinct(list) && i < |ts| && ts[i].kind.Free?
    requires IsPrev(list, k, prev) && list[k] == ts[i].at && 0 < n && n + HDR + 64 <= ts[i].size
    requires Bsz(n) == n && Bsz(WithFree(ts[i].size - n)) == ts[i].size - n
    requires list[k] in hdr && (prev != 0 ==> prev in hdr)
    ensures Described(SplitHeaders(hdr, prev, list[k], n, ts[i].size - n), list[k := list[k] + n],
                      Recut(ts, i, Carve(ts[i], n)))
  {
    var b, r, mid := ts[i].at, ts[i].size - n, Carve(ts[i], n);
    var hdr' := SplitHeaders(hdr, prev, b, n, r);
    var list' := list[k := b + n];
    ReplacedMembers(list, k, b + n);
    SplitWords(hdr, prev, b, n, r, b);
    assert mid[1] == Tile(b + n, r, Free) && list'[k] == b + n;
    forall t | t in mid ensures Headed(hdr', list', t) {
      assert t == Tile(b, n, Live) || t == Tile(b + n, r, Free);
    }
    assert Backed(hdr', mid, b + n);
    forall a | a in hdr && !(b <= a < b + ts[i].size) ensures a in hdr' && hdr'[a].word == hdr[a].word {
      SplitWords(hdr, prev, b, n, r, a);
    }
    RecutDescribed(hdr, list, ts, i, mid, hdr', list');
  }

  lemma WholeDescribed(hdr: map<nat, Header>, list: seq<nat>, ts: seq<Tile>, i: nat, k: nat, prev: nat, n: nat)
    requires Tiles(ts, BASE, END) && Described(hdr, list, ts) && Distinct(list) && i < |ts| && ts[i].kind.Free?
    requires IsPrev(list, k, prev) && list[k] == ts[i].at && CanGive(ts[i].size, n) && ts[i].size < n + HDR + 64
    requires Bsz(n) == n
    requires list[k] in hdr && (prev != 0 ==> prev in hdr)
    ensures Described(WholeHeaders(hdr, prev, list[k], n), Without(list, k), Recut(ts, i, Carve(ts[i], n)))
  {
    var b, mid := ts[i].at, Carve(ts[i], n);
    var hdr' := WholeHeaders(hdr, prev, b, n);
    WholeWords(hdr, prev, b, n, b);
    WithoutMembers(list, k);
    forall t | t in mid ensures Headed(hdr', Without(list, k), t) {
      assert t == Tile(b, n, Live) || t.kind.Lost?;
    }
    forall a | a in hdr && !(b <= a < b + ts[i].size) ensures a in hdr' && hdr'[a].word == hdr[a].word {
      WholeWords(hdr, prev, b, n, a);
    }
    RecutDescribed(hdr, list, ts, i, mid, hdr', Without(list, k));
  }

  // ---------- the whole heap as a value ----------

  datatype Psram = Psram(hdr: map<nat, Header>, free: nat, used: nat, list: seq<nat>, tiles: seq<Tile>, lost: nat)

  ghost predicate Ok(h: Psram) {
    && Tiles(h.tiles, BASE, END) && AllUnits(h.tiles)
    && ListOk(h)
    && h.used == Sum(h.tiles, Live) && Sum(h.tiles, Lost) == 64 * h.lost
  }

  /** Entry k of the list and tile i are one free block, which can give n bytes. */
  ghost predicate Offers(h: Psram, i: nat, k: nat, prev: nat, n: nat) {
    && i < |h.tiles| && h.tiles[i].kind.Free? && IsPrev(h.list, k, prev) && h.list[k] == h.tiles[i].at
    && h.list[k] in h.hdr && (prev != 0 ==> prev in h.hdr) && (k > 0 ==> prev != 0)
    && h.tiles[i].size == Bsz(h.hdr[h.list[k]].word) && CanGive(h.tiles[i].size, n)
  }

  /** Headers after k_psram_alloc took n bytes of block b. */
  function CutHeaders(hdr: map<nat, Header>, prev: nat, b: nat, n: nat): map<nat, Header>
    requires b in hdr && (prev != 0 ==> prev in hdr) && n <= Bsz(hdr[b].word)
  {
    var r := Bsz(hdr[b].word) - n;
    if r >= HDR + 64 then SplitHeaders(hdr, prev, b, n, r) else WholeHeaders(hdr, prev, b, n)
  }

  /** The head of the list after that. */
  function CutHead(hdr: map<nat, Header>, free: nat, prev: nat, b: nat, n: nat): nat
    requires b in hdr && n <= Bsz(hdr[b].word)
  {
    if prev != 0 then free else if Bsz(hdr[b].word) - n >= HDR + 64 then b + n else hdr[b].nxt
  }

  function Taken(h: Psram, i: nat, k: nat, prev: nat, n: nat): Psram
    requires i < |h.tiles| && k < |h.list| && h.list[k] in h.hdr && (prev != 0 ==> prev in h.hdr)
    requires n <= h.tiles[i].size == Bsz(h.hdr[h.list[k]].word)
  {
    var b, t := h.list[k], h.tiles[i];
    Psram(CutHeaders(h.hdr, prev, b, n), CutHead(h.hdr, h.free, prev, b, n), h.used + n, Relink(h.list, k, t.size, n),
          Recut(h.tiles, i, Carve(t, n)), h.lost + if t.size - n == 64 then 1 else 0)
  }

  lemma CarveTiles(t: Tile, n: nat)
    requires CanGive(t.size, n) && t.size > 0 && t.size % 64 == 0 && t.kind.Free?
    ensures Tiles(Carve(t, n), t.at, t.at + t.size)
    ensures Sum(Carve(t, n), Live) == n && Sum(Carve(t, n), Lost) == if t.size == n + 64 then 64 else 0
    ensures Sum([t], Live) == 0 && Sum([t], Lost) == 0
  {
    var c := Carve(t, n);
    One(t);
    if |c| == 2 {
      One(c[1]);
      assert c[1..] == [c[1]];
    } else {
      One(c[0]);
      assert c == [c[0]];
    }
  }

  lemma One(t: Tile)
    ensures forall k :: Sum([t], k) == if t.kind == k then t.size else 0
    ensures t.size > 0 ==> Tiles([t], t.at, t.at + t.size)
  {
    assert [t][1..] == [];
  }

  lemma TakenOk(h: Psram, i: nat, k: nat, prev: nat, n: nat)
    requires Ok(h) && Offers(h, i, k, prev, n)
    ensures Ok(Taken(h, i, k, prev, n))
  {
    var t := h.tiles[i];
    TilesTaken(h.tiles, i, n);
    assert Bsz(n) == n && Bsz(WithFree(t.size - n)) == t.size - n by {
      assert t in h.tiles;
      Units(t.at, t.size, n);
    }
    if t.size - n >= HDR + 64 {
      TakenSplit(h, i, k, prev, n);
    } else {
      TakenWhole(h, i, k, prev, n);
    }
  }

  ghost predicate ListOk(h: Psram) {
    Linked(h.hdr, h.free, h.list) && Described(h.hdr, h.list, h.tiles)
  }

  lemma TakenSplit(h: Psram, i: nat, k: nat, prev: nat, n: nat)
    requires Tiles(h.tiles, BASE, END) && ListOk(h) && Offers(h, i, k, prev, n) && h.tiles[i].size - n >= HDR + 64
    requires Bsz(n) == n && Bsz(WithFree(h.tiles[i].size - n)) == h.tiles[i].size - n
    ensures ListOk(Taken(h, i, k, prev, n))
  {
    TakenSplitLinked(h, i, k, prev, n);
    SplitDescribed(h.hdr, h.list, h.tiles, i, k, prev, n);
  }

  lemma TakenSplitLinked(h: Psram, i: nat, k: nat, prev: nat, n: nat)
    requires Tiles(h.tiles, BASE, END) && ListOk(h) && Offers(h, i, k, prev, n) && h.tiles[i].size - n >= HDR + 64
    ensures var h' := Taken(h, i, k, prev, n); Linked(h'.hdr, h'.free, h'.list)
  {
    InsideUnlisted(h.hdr, h.list, h.tiles, i, h.list[k] + n);
    SplitLinked(h.hdr, h.free, h.list, k, prev, n, h.tiles[i].size - n);
  }

  lemma TakenWhole(h: Psram, i: nat, k: nat, prev: nat, n: nat)
    requires Tiles(h.tiles, BASE, END) && ListOk(h) && Offers(h, i, k, prev, n) && h.tiles[i].size - n < HDR + 64
    requires Bsz(n) == n
    ensures ListOk(Taken(h, i, k, prev, n))
  {
    var h' := Taken(h, i, k, prev, n);
    assert Linked(h'.hdr, h'.free, h'.list) by {
      WholeLinked(h.hdr, h.free, h.list, k, prev, n);
    }
    assert Described(h'.hdr, h'.list, h'.tiles) by {
      WholeDescribed(h.hdr, h.list, h.tiles, i, k, prev, n);
    }
  }

  lemma CarveUnits(t: Tile, n: nat)
    requires t.at % 64 == 0 && t.size % 64 == 0 && n % 64 == 0 && n <= t.size
    ensures AllUnits(Carve(t, n))
  {
    Units(t.at, t.size, n);
    var c := Carve(t, n);
    forall u | u in c ensures u.at % 64 == 0 && u.size % 64 == 0 {
      assert u == c[0] || u == c[|c| - 1];
    }
  }

  lemma TilesTaken(ts: seq<Tile>, i: nat, n: nat)
    requires Tiles(ts, BASE, END) && AllUnits(ts) && i < |ts| && ts[i].kind.Free?
    requires CanGive(ts[i].size, n)
    ensures var ts' := Recut(ts, i, Carve(ts[i], n));
      && Tiles(ts', BASE, END) && AllUnits(ts') && Sum(ts', Live) == Sum(ts, Live) + n
      && Sum(ts', Lost) == Sum(ts, Lost) + if ts[i].size == n + 64 then 64 else 0
  {
    var t := ts[i];
    assert t in ts;
    TilesSplit(ts, i, BASE, END);
    CarveUnits(t, n);
    CarveTiles(t, n);
    RecutUnits(ts, i, Carve(t, n));
    RecutTiles(ts, i, Carve(t, n), BASE, END);
    RecutSum(ts, i, Carve(t, n), Live);
    RecutSum(ts, i, Carve(t, n), Lost);
  }

  /** The tile a list entry stands for. */
  lemma EntryTile(h: Psram, k: nat) returns (i: nat)
    requires Ok(h) && k < |h.list|
    ensures i < |h.tiles| && h.tiles[i].at == h.list[k] && h.tiles[i].kind.Free?
    ensures h.list[k] in h.hdr && h.tiles[i].size == Bsz(h.hdr[h.list[k]].word)
    ensures forall t | t in h.tiles && t.at == h.list[k] :: t == h.tiles[i]
  {
    assert Backed(h.hdr, h.tiles, h.list[k]);
    i :| 0 <= i < |h.tiles| && h.tiles[i] == Tile(h.list[k], Bsz(h.hdr[h.list[k]].word), Free);
    TilesSplit(h.tiles, i, BASE, END);
    forall u | u in h.tiles && u.at == h.list[k] ensures u == h.tiles[i] {
      OthersClear(h.tiles, i, BASE, END, u);
    }
  }

  /** A list entry of at least n bytes can be taken. */
  lemma CanTake(h: Psram, i: nat, k: nat, prev: nat, n: nat)
    requires Ok(h) && i < |h.tiles| && IsPrev(h.list, k, prev) && h.tiles[i].kind.Free? && h.tiles[i].at == h.list[k]
    requires h.list[k] in h.hdr && h.tiles[i].size == Bsz(h.hdr[h.list[k]].word)
    requires CanGive(h.tiles[i].size, n)
    ensures Offers(h, i, k, prev, n) && Ok(Taken(h, i, k, prev, n))
  {
    if k > 0 {
      assert LinkAt(h.hdr, h.list, k - 1);
    }
    TakenOk(h, i, k, prev, n);
  }

  /** Live tile i becomes a free block at the head of the list. */
  function Freed(h: Psram, i: nat): Psram
    requires i < |h.tiles| && h.tiles[i].at in h.hdr && h.tiles[i].size <= h.used
  {
    var t := h.tiles[i];
    Psram(h.hdr[t.at := Header(WithFree(h.hdr[t.at].word), h.free)], t.at, h.used - t.size, [t.at] + h.list,
          Recut(h.tiles, i, [Tile(t.at, t.size, Free)]), h.lost)
  }

  lemma LiveHeader(h: Psram, i: nat)
    requires Ok(h) && i < |h.tiles| && h.tiles[i].kind.Live?
    ensures h.tiles[i].at in h.hdr && h.tiles[i].size == Bsz(h.hdr[h.tiles[i].at].word)
    ensures h.tiles[i].at !in h.list && h.tiles[i].size <= h.used
  {
    var t := h.tiles[i];
    assert t in h.tiles && Headed(h.hdr, h.list, t);
    TilesSplit(h.tiles, i, BASE, END);
    if t.at in h.list {
      assert Backed(h.hdr, h.tiles, t.at);
      OthersClear(h.tiles, i, BASE, END, Tile(t.at, Bsz(h.hdr[t.at].word), Free));
      assert false;
    }
    RecutSum(h.tiles, i, [], Live);
    One(t);
  }

  lemma FreedOk(h: Psram, i: nat)
    requires Ok(h) && i < |h.tiles| && h.tiles[i].kind.Live?
    ensures h.tiles[i].at in h.hdr && h.tiles[i].size <= h.used && Ok(Freed(h, i))
  {
    LiveHeader(h, i);
    TileInside(h.tiles, BASE, END, i);
    var t, h' := h.tiles[i], Freed(h, i);
    assert Linked(h'.hdr, h'.free, h'.list) by {
      FreedLinked(h, i);
    }
    assert Described(h'.hdr, h'.list, h'.tiles) by {
      FreedDescribed(h, i);
    }
    FreedTiles(h.tiles, i);
  }

  lemma FreedLinked(h: Psram, i: nat)
    requires Linked(h.hdr, h.free, h.list) && i < |h.tiles| && h.tiles[i].at in h.hdr && h.tiles[i].size <= h.used
    requires h.tiles[i].at !in h.list && h.tiles[i].at != 0
    ensures var h' := Freed(h, i); Linked(h'.hdr, h'.free, h'.list)
  {
    var h' := Freed(h, i);
    forall j | 0 <= j < |h'.list| ensures LinkAt(h'.hdr, h'.list, j) {
      if j > 0 {
        assert LinkAt(h.hdr, h.list, j - 1);
      }
    }
  }

  lemma FreedDescribed(h: Psram, i: nat)
    requires Tiles(h.tiles, BASE, END) && Described(h.hdr, h.list, h.tiles) && i < |h.tiles|
    requires h.tiles[i].at in h.hdr && h.tiles[i].size == Bsz(h.hdr[h.tiles[i].at].word) && h.tiles[i].size <= h.used
    ensures var h' := Freed(h, i); Described(h'.hdr, h'.list, h'.tiles)
  {
    var t, h' := h.tiles[i], Freed(h, i);
    var u := Tile(t.at, t.size, Free);
    BitKept(h.hdr[t.at].word);
    assert Headed(h'.hdr, h'.list, u) && Backed(h'.hdr, [u], t.at);
    assert [u][0] == u;
    TilesSplit(h.tiles, i, BASE, END);
    RecutDescribed(h.hdr, h.list, h.tiles, i, [u], h'.hdr, h'.list);
  }

  lemma FreedTiles(ts: seq<Tile>, i: nat)
    requires Tiles(ts, BASE, END) && AllUnits(ts) && i < |ts| && ts[i].kind.Live?
    ensures var ts' := Recut(ts, i, [Tile(ts[i].at, ts[i].size, Free)]);
      && Tiles(ts', BASE, END) && AllUnits(ts') && Sum(ts', Live) == Sum(ts, Live) - ts[i].size
      && Sum(ts', Lost) == Sum(ts, Lost)
  {
    var t, mid := ts[i], [Tile(ts[i].at, ts[i].size, Free)];
    assert t in ts;
    TilesSplit(ts, i, BASE, END);
    One(t);
    One(mid[0]);
    RecutUnits(ts, i, mid);
    RecutTiles(ts, i, mid, BASE, END);
    RecutSum(ts, i, mid, Live);
    RecutSum(ts, i, mid, Lost);
  }

  // ---------- a request that rounds to 0 ----------

  /** There is no first block, or it has one unit. */
  predicate FirstSurvives(h: Psram) {
    h.list == [] || (h.free in h.hdr && Bsz(h.hdr[h.free].word) == 64)
  }

  /** Some list and some tiling fit the memory. */
  ghost predicate Fits(hdr: map<nat, Header>, free: nat, used: nat) {
    exists list, ts, lost {:trigger Ok(Psram(hdr, free, used, list, ts, lost))} ::
      Ok(Psram(hdr, free, used, list, ts, lost))
  }

  /** Headers and list head after k_psram_alloc with 0 bytes: the first block, whatever its size, is taken. */
  function ZeroTaken(h: Psram): (map<nat, Header>, nat)
    requires h.list != [] ==> h.free in h.hdr
  {
    if h.list == [] then (h.hdr, h.free)
    else (CutHeaders(h.hdr, 0, h.free, 0), CutHead(h.hdr, h.free, 0, h.free, 0))
  }

  /** A block of two units or more is written back as its own remainder and then given size 0: nothing fits. */
  lemma ZeroSplitBreaks(h: Psram)
    requires Ok(h) && h.list != [] && h.free in h.hdr && Bsz(h.hdr[h.free].word) >= HDR + 64
    ensures !Fits(ZeroTaken(h).0, ZeroTaken(h).1, h.used)
  {
    var (hdr', b) := ZeroTaken(h);
    assert h.free == h.list[0] && LinkAt(h.hdr, h.list, 0);
    if list, ts, lost :| Ok(Psram(hdr', b, h.used, list, ts, lost)) {
      assert list[0] == b && Backed(hdr', ts, b);
      var i :| 0 <= i < |ts| && ts[i] == Tile(b, 0, Free);
      TilesSplit(ts, i, BASE, END);
      assert false;
    }
  }

  /**
    After a request that rounds to 0 some tiling fits the memory exactly when the list is empty or its first block has
    one unit.
  */
  lemma WrappedRequestIff(h: Psram)
    requires Ok(h)
    ensures h.list != [] ==> h.free in h.hdr
    ensures Fits(ZeroTaken(h).0, ZeroTaken(h).1, h.used) <==> FirstSurvives(h)
  {
    if h.list == [] {
      assert Ok(Psram(h.hdr, h.free, h.used, h.list, h.tiles, h.lost));
    } else {
      assert LinkAt(h.hdr, h.list, 0);
      var i := EntryTile(h, 0);
      assert h.tiles[i] in h.tiles;
      TilesSplit(h.tiles, i, BASE, END);
      if h.tiles[i].size == 64 {
        TakenOk(h, i, 0, 0, 0);
        var h' := Taken(h, i, 0, 0, 0);
        assert Ok(Psram(h'.hdr, h'.free, h.used, h'.list, h'.tiles, h'.lost));
      } else {
        AtLeastTwoUnits(h.tiles[i].size);
        ZeroSplitBreaks(h);
      }
    }
  }

  lemma ItselfFits(h: Psram)
    requires Ok(h)
    ensures Fits(h.hdr, h.free, h.used)
  {
    assert Ok(Psram(h.hdr, h.free, h.used, h.list, h.tiles, h.lost));
  }

  lemma ListedTile(h: Psram)
    requires Ok(h) && h.list != []
    ensures exists t :: t in h.tiles && t.kind.Free?
  {
    var i := EntryTile(h, 0);
    assert h.tiles[i] in h.tiles;
  }

  lemma AtLeastTwoUnits(n: nat)
    requires n > 0 && n % 64 == 0 && n != 64
    ensures n >= HDR + 64
  {
  }

  /** Blocks of distinct tiles share no byte, start on multiples of 64 and stay inside the region. */
  lemma BlocksApart(h: Psram, i: nat, j: nat)
    requires Ok(h) && i < j < |h.tiles|
    ensures BASE <= h.tiles[i].at && h.tiles[i].at + h.tiles[i].size <= h.tiles[j].at
    ensures h.tiles[j].at + h.tiles[j].size <= BASE + SIZE
    ensures h.tiles[i].at % 64 == 0 && h.tiles[i].size % 64 == 0 && h.tiles[i].size > 0
    ensures h.tiles[j].at % 64 == 0 && h.tiles[j].size % 64 == 0 && h.tiles[j].size > 0
  {
    TilesOrdered(h.tiles, BASE, END, i, j);
    TilesSplit(h.tiles, j, BASE, END);
    assert h.tiles[i] in h.tiles && h.tiles[j] in h.tiles;
  }

  // ---------- the code ----------

  class Heap {
    var hdr: map<nat, Header>
    var free: nat
    var used: nat
    ghost var list: seq<nat>
    ghost var tiles: seq<Tile>
    ghost var lost: nat       // allocations that left a remainder of exactly 64 bytes

    ghost function State(): Psram
      reads this
    {
      Psram(hdr, free, used, list, tiles, lost)
    }

    ghost predicate Valid()
      reads this
    {
      Ok(State())
    }

    /** mm_psram_init: one free block over the whole region. */
    constructor ()
      ensures Valid() && tiles == [Tile(BASE, SIZE, Free)] && lost == 0
    {
      hdr := map[BASE := Header(WithFree(SIZE), 0)];
      free, used, lost := BASE, 0, 0;
      list, tiles := [BASE], [Tile(BASE, SIZE, Free)];
      new;
      One(tiles[0]);
      assert Bsz(WithFree(SIZE)) == SIZE && BASE % 64 == 0 && SIZE % 64 == 0;
      assert Described(hdr, list, tiles) && AllUnits(tiles) && Linked(hdr, free, list);
      assert Ok(State());
    }

    method SetLink(prev: nat, v: nat)
      requires prev != 0 ==> prev in hdr
      modifies this`hdr, this`free
      ensures hdr == Relinked(old(hdr), prev, v) && free == if prev == 0 then v else old(free)
    {
      if prev == 0 {
        free := v;
      } else {
        hdr := hdr[prev := hdr[prev].(nxt := v)];
      }
    }

    /** Block b leaves the list, or its remainder takes its place. */
    method Take(b: nat, prev: nat, n: nat)
      requires b in hdr && (prev != 0 ==> prev in hdr) && n <= Bsz(hdr[b].word)
      modifies this`hdr, this`free, this`used
      ensures hdr == CutHeaders(old(hdr), prev, b, n) && used == old(used) + n
      ensures free == CutHead(old(hdr), old(free), prev, b, n)
    {
      var r := Bsz(hdr[b].word) - n;
      if r >= HDR + 64 {
        var rb := b + n;
        hdr := hdr[rb := Header(WithFree(r), hdr[b].nxt)];
        SetLink(prev, rb);
      } else {
        SetLink(prev, hdr[b].nxt);
      }
      hdr := hdr[b := hdr[b].(word := n)];
      used := used + n;
    }

    /** First fit: the first list entry of at least n bytes, and the link that leads to it. */
    method Search(n: nat) returns (b: nat, pp: nat, ghost i: nat, ghost k: nat)
      requires Valid() && n % 64 == 0
      ensures b == 0 <==> forall t | t in tiles && t.kind.Free? :: t.size < n
      ensures b != 0 ==> b in hdr && n <= Bsz(hdr[b].word) && (pp != 0 ==> pp in hdr)
      ensures b != 0 && n == 0 ==> b == free && list != [] && pp == 0
      ensures b != 0 && (n > 0 || FirstSurvives(State())) ==>
        Offers(State(), i, k, pp, n) && b == list[k] && Ok(Taken(State(), i, k, pp, n))
      ensures b != 0 ==> k < |list| && forall t | t in tiles && t.kind.Free? && t.at in list[..k] :: t.size < n
    {
      pp, b := 0, free;
      i, k := 0, 0;
      assert |list| > 0 ==> LinkAt(hdr, list, 0);
      while b != 0
        invariant k <= |list| && (b == 0 <==> k == |list|) && (k < |list| ==> b == list[k])
        invariant k < |list| ==> IsPrev(list, k, pp)
        invariant pp != 0 ==> pp in hdr
        invariant n == 0 ==> k == 0
        invariant forall t | t in tiles && t.kind.Free? && t.at in list[..k] :: t.size < n
        decreases |list| - k
      {
        i := EntryTile(State(), k);
        assert LinkAt(hdr, list, k) && (k + 1 < |list| ==> LinkAt(hdr, list, k + 1));
        assert tiles[i] in tiles;
        if Bsz(hdr[b].word) >= n {
          if n > 0 || FirstSurvives(State()) {
            CanTake(State(), i, k, pp, n);
          }
          return;
        }
        assert list[..k + 1] == list[..k] + [b];
        pp, b, k := b, hdr[b].nxt, k + 1;
      }
      assert list[..k] == list;
      forall t | t in tiles && t.kind.Free? ensures t.at in list {
        assert Headed(hdr, list, t);
      }
    }

    /**
      k_psram_alloc: the first block of the list that is large enough, or NULL when none is.
      i and k say which tile and which list entry was taken. The memory still describes a heap afterwards unless the
      request rounds to 0 and the first block of the list has more than one unit.
    */
    method Alloc(sz: size_t) returns (p: nat, ghost i: nat, ghost k: nat, ghost pp: nat)
      requires Valid()
      modifies this
      ensures Fits(hdr, free, used) <==> Rounded(sz) != 0 || FirstSurvives(old(State()))
      ensures p == 0 <==> forall t | t in old(tiles) && t.kind.Free? :: t.size < Rounded(sz)
      ensures p == 0 ==> State() == old(State())
      ensures p != 0 && (Rounded(sz) != 0 || FirstSurvives(old(State()))) ==>
        && Valid() && Offers(old(State()), i, k, pp, Rounded(sz)) && p == old(list)[k] + HDR
        && (forall t | t in old(tiles) && t.kind.Free? && t.at in old(list)[..k] :: t.size < Rounded(sz))
        && State() == Taken(old(State()), i, k, pp, Rounded(sz))
        && used == old(used) + Rounded(sz)
        && list == (if old(tiles)[i].size >= Rounded(sz) + 72 then old(list)[k := old(list)[k] + Rounded(sz)]
                    else old(list)[..k] + old(list)[k + 1..])
      ensures p != 0 && Rounded(sz) == 0 ==>
        (old(list) != [] ==> old(free) in old(hdr)) && (hdr, free) == ZeroTaken(old(State())) && used == old(used)
    {
      RoundedCoversIff(sz);
      var n := Rounded(sz);
      ghost var h := State();
      var b, prev;
      b, prev, i, k := Search(n);
      pp := prev;
      if b == 0 {
        NothingTaken(h);
        return 0, i, k, pp;
      }
      Take(b, prev, n);
      p := b + HDR;
      if n != 0 || FirstSurvives(h) {
        Book(h, i, k, prev, n);
        ItselfFits(State());
      } else {
        WrappedRequestIff(h);
      }
    }

    /** When no block is large enough the heap stays as it was, and for 0 bytes that means that no block is free. */
    static lemma NothingTaken(h: Psram)
      requires Ok(h)
      ensures Fits(h.hdr, h.free, h.used)
      ensures (forall t | t in h.tiles && t.kind.Free? :: false) ==> FirstSurvives(h)
    {
      ItselfFits(h);
      if h.list != [] {
        ListedTile(h);
      }
    }

    /** What list and tiles are after the block was taken from heap h. */
    ghost method Book(h: Psram, i: nat, k: nat, prev: nat, n: nat)
      requires Offers(h, i, k, prev, n) && list == h.list && tiles == h.tiles && lost == h.lost
      requires hdr == CutHeaders(h.hdr, prev, h.list[k], n) && used == h.used + n
      requires free == CutHead(h.hdr, h.free, prev, h.list[k], n)
      modifies this`list, this`tiles, this`lost
      ensures State() == Taken(h, i, k, prev, n)
    {
      list, lost := Relink(list, k, tiles[i].size, n), lost + if tiles[i].size - n == 64 then 1 else 0;
      tiles := Recut(tiles, i, Carve(tiles[i], n));
    }

    /** k_psram_free: tile i, whose block p points into, goes to the head of the list. */
    method Release(p: nat, ghost i: nat)
      requires Valid()
      requires p != 0 ==> i < |tiles| && tiles[i].kind.Live? && p == tiles[i].at + HDR
      modifies this
      ensures Valid()
      ensures p == 0 ==> State() == old(State())
      ensures p != 0 ==> old(tiles[i].at in hdr && tiles[i].size <= used) && State() == Freed(old(State()), i)
      ensures p != 0 ==> list == [p - HDR] + old(list) && used == old(used) - old(tiles[i].size)
      ensures p != 0 ==> tiles == old(tiles)[i := Tile(p - HDR, old(tiles[i].size), Free)]
    {
      if p == 0 {
        return;
      }
      FreedOk(State(), i);
      LiveHeader(State(), i);
      var b := p - HDR;
      used := used - Bsz(hdr[b].word);
      hdr := hdr[b := Header(WithFree(hdr[b].word), free)];
      free := b;
      list := [b] + list;
      tiles := Recut(tiles, i, [Tile(b, tiles[i].size, Free)]);
    }
  }

  /** Every byte of the region is live, free, or lost in a 64-byte remainder. */
  lemma Conservation(h: Psram)
    requires Ok(h)
    ensures h.used + Sum(h.tiles, Free) + 64 * h.lost == SIZE
  {
    SumsFill(h.tiles, BASE, END);
  }
}
