/** The blocks of the segregated-fit heap of mm/allocator.c, and what each step of malloc and free makes of them. */
module HeapModel {
  import opened BlockHeader
  import opened LinkedList
  import opened SizeClass
  import opened SegLists
  import opened Tiling

  /** ALIGN_UP(sz + BLK_HDR, HEAP_ALIGN) in 32-bit arithmetic. */
  function Rounded(sz: size_t): nat {
    (sz + HDR + 15) % WRAP / 16 * 16
  }

  /** The rounded size covers the request and its header exactly when the sum does not wrap. */
  lemma RoundedCoversIff(sz: size_t)
    ensures Rounded(sz) % 16 == 0
    ensures Rounded(sz) >= sz + HDR <==> sz < WRAP - 23
    ensures sz < WRAP - 23 ==> sz + HDR <= Rounded(sz) < sz + HDR + 16
    ensures Rounded(sz) == 0 <==> WRAP - 23 <= sz < WRAP - 7
  {
  }

  // ---------- headers, lists and tiles ----------

  ghost predicate Units(ts: seq<Tile>) {
    forall t | t in ts :: t.at % 16 == 8 && t.size % 16 == 0
  }

  ghost predicate Headed(hdr: map<nat, Header>, lists: seq<seq<nat>>, t: Tile) {
    && |lists| == CLASSES && t.size > 0 && !t.kind.Lost? && t.at in hdr
    && hdr[t.at].word == t.size + (if t.kind.Free? then 1 else 0)
    && (t.kind.Free? ==> t.at in lists[Slot(t.size)])
  }

  ghost predicate Backed(hdr: map<nat, Header>, ts: seq<Tile>, a: nat) {
    a in hdr && Tile(a, Bsz(hdr[a].word), Free) in ts
  }

  ghost predicate AllBacked(hdr: map<nat, Header>, ts: seq<Tile>, list: seq<nat>) {
    forall a {:trigger Backed(hdr, ts, a)} | a in list :: Backed(hdr, ts, a)
  }

  /** Every block carries its header; the lists hold exactly the free blocks. */
  ghost predicate Described(g: Seg, ts: seq<Tile>) {
    && |g.lists| == CLASSES
    && (forall t {:trigger Headed(g.hdr, g.lists, t)} | t in ts :: Headed(g.hdr, g.lists, t))
    && (forall q {:trigger AllBacked(g.hdr, ts, g.lists[q])} | 0 <= q < CLASSES :: AllBacked(g.hdr, ts, g.lists[q]))
  }

  ghost predicate HeapOk(g: Seg, ts: seq<Tile>, lo: nat, hi: nat) {
    0 < lo && SegLists.Ok(g) && Tiles(ts, lo, hi) && Units(ts) && Described(g, ts)
  }

  // ---------- one tile recut ----------

  ghost predicate Inside(t: Tile, a: nat) {
    t.at <= a < t.at + t.size
  }

  /** Headers outside tile t keep their sizes. */
  ghost predicate WordsKept(hdr: map<nat, Header>, hdr': map<nat, Header>, t: Tile) {
    forall a | a in hdr && !Inside(t, a) :: a in hdr' && hdr'[a].word == hdr[a].word
  }

  /** The lists of g' are those of g, but for the block of tile t and those of mid. */
  ghost predicate ListsKept(g: Seg, g': Seg, t: Tile, mid: seq<Tile>)
    requires |g.lists| == |g'.lists| == CLASSES
  {
    && (forall q, a | 0 <= q < CLASSES && a in g.lists[q] && a != t.at :: a in g'.lists[q])
    && (forall q, a | 0 <= q < CLASSES && a in g'.lists[q] :: (a in g.lists[q] && a != t.at) || Backed(g'.hdr, mid, a))
  }

  lemma RecutDescribed(g: Seg, ts: seq<Tile>, i: nat, mid: seq<Tile>, g': Seg, lo: nat, hi: nat)
    requires Tiles(ts, lo, hi) && Described(g, ts) && i < |ts| && |g'.lists| == CLASSES
    requires forall t | t in mid :: Headed(g'.hdr, g'.lists, t)
    requires WordsKept(g.hdr, g'.hdr, ts[i]) && ListsKept(g, g', ts[i], mid)
    ensures Described(g', Recut(ts, i, mid))
  {
    var ts' := Recut(ts, i, mid);
    forall t | t in ts' ensures Headed(g'.hdr, g'.lists, t) {
      RecutHeaded(g, ts, i, mid, g', lo, hi, t);
    }
    forall q | 0 <= q < CLASSES ensures AllBacked(g'.hdr, ts', g'.lists[q]) {
      forall a | a in g'.lists[q] ensures Backed(g'.hdr, ts', a) {
        RecutBacked(g, ts, i, mid, g', lo, hi, q, a);
      }
    }
  }

  lemma RecutHeaded(g: Seg, ts: seq<Tile>, i: nat, mid: seq<Tile>, g': Seg, lo: nat, hi: nat, t: Tile)
    requires Tiles(ts, lo, hi) && Described(g, ts) && i < |ts| && |g'.lists| == CLASSES && t in Recut(ts, i, mid)
    requires forall t | t in mid :: Headed(g'.hdr, g'.lists, t)
    requires WordsKept(g.hdr, g'.hdr, ts[i]) && ListsKept(g, g', ts[i], mid)
    ensures Headed(g'.hdr, g'.lists, t)
  {
    RecutMembers(ts, i, mid, lo, hi, t);
    if t !in mid {
      assert Headed(g.hdr, g.lists, t);
      OthersClear(ts, i, lo, hi, t);
      TilesSplit(ts, i, lo, hi);
      assert !Inside(ts[i], t.at);
    }
  }

  lemma RecutBacked(g: Seg, ts: seq<Tile>, i: nat, mid: seq<Tile>, g': Seg, lo: nat, hi: nat, q: nat, a: nat)
    requires Tiles(ts, lo, hi) && Described(g, ts) && i < |ts| && |g'.lists| == CLASSES
    requires WordsKept(g.hdr, g'.hdr, ts[i]) && ListsKept(g, g', ts[i], mid)
    requires q < CLASSES && a in g'.lists[q]
    ensures Backed(g'.hdr, Recut(ts, i, mid), a)
  {
    if a in g.lists[q] && a != ts[i].at {
      assert AllBacked(g.hdr, ts, g.lists[q]) && Backed(g.hdr, ts, a);
      var t := Tile(a, Bsz(g.hdr[a].word), Free);
      OthersClear(ts, i, lo, hi, t);
      assert !Inside(ts[i], a);
      RecutMembers(ts, i, mid, lo, hi, t);
    } else {
      assert Backed(g'.hdr, mid, a);
      RecutMembers(ts, i, mid, lo, hi, Tile(a, Bsz(g'.hdr[a].word), Free));
    }
  }

  /** No list holds an address inside a live tile, nor one strictly inside any tile. */
  lemma Unlisted(g: Seg, ts: seq<Tile>, lo: nat, hi: nat, i: nat, q: nat, a: nat)
    requires Tiles(ts, lo, hi) && Described(g, ts) && i < |ts| && q < CLASSES && Inside(ts[i], a)
    requires ts[i].kind.Live? || a != ts[i].at
    ensures a !in g.lists[q]
  {
    assert AllBacked(g.hdr, ts, g.lists[q]);
    if a in g.lists[q] {
      assert Backed(g.hdr, ts, a);
      OthersClear(ts, i, lo, hi, Tile(a, Bsz(g.hdr[a].word), Free));
      assert false;
    }
  }

  // ---------- a tile changes hands ----------

  function Retyped(ts: seq<Tile>, i: nat, k: Kind): seq<Tile>
    requires i < |ts|
  {
    Recut(ts, i, [Tile(ts[i].at, ts[i].size, k)])
  }

  lemma RetypedTiles(ts: seq<Tile>, i: nat, k: Kind, lo: nat, hi: nat)
    requires Tiles(ts, lo, hi) && Units(ts) && i < |ts|
    ensures Tiles(Retyped(ts, i, k), lo, hi) && Units(Retyped(ts, i, k))
  {
    var t := ts[i];
    assert t in ts;
    TilesSplit(ts, i, lo, hi);
    assert [Tile(t.at, t.size, k)][1..] == [];
    RecutTiles(ts, i, [Tile(t.at, t.size, k)], lo, hi);
  }

  lemma RetypedSums(ts: seq<Tile>, i: nat, k: Kind)
    requires i < |ts| && ts[i].kind != k && (ts[i].kind.Live? || ts[i].kind.Free?) && (k.Live? || k.Free?)
    ensures Sum(Retyped(ts, i, k), k) == Sum(ts, k) + ts[i].size
    ensures Sum(Retyped(ts, i, k), ts[i].kind) == Sum(ts, ts[i].kind) - ts[i].size
  {
    var mid := [Tile(ts[i].at, ts[i].size, k)];
    assert mid[1..] == [] && [ts[i]][1..] == [];
    RecutSum(ts, i, mid, k);
    RecutSum(ts, i, mid, ts[i].kind);
  }

  lemma SizeBits(n: nat)
    requires n % 16 == 0
    ensures Bsz(n) == n && Bsz(n + 1) == n && WithFree(n) == n + 1 && NoFree(n + 1) == n
  {
    var m := n / 16;
    Quads(4 * m, n);
    TwoOf(8 * m, n, 0);
    TwoOf(8 * m, n + 1, 1);
  }

  /** The list entry that a free tile is. */
  lemma TileListed(g: Seg, ts: seq<Tile>, lo: nat, hi: nat, i: nat) returns (k: nat)
    requires HeapOk(g, ts, lo, hi) && i < |ts| && ts[i].kind.Free?
    ensures ts[i].size > 0 && Listed(g, ts[i].at, k) && SlotOf(g.hdr, ts[i].at) == Slot(ts[i].size) &&
            Bsz(g.hdr[ts[i].at].word) == ts[i].size
    ensures k < |g.lists[Slot(ts[i].size)]| && g.lists[Slot(ts[i].size)][k] == ts[i].at
  {
    var t := ts[i];
    assert t in ts && Headed(g.hdr, g.lists, t);
    SizeBits(t.size);
    var q := Slot(t.size);
    k :| 0 <= k < |g.lists[q]| && g.lists[q][k] == t.at;
    EntryListed(g, q, k);
  }

  /** The tile that a list entry is. */
  lemma EntryTile(g: Seg, ts: seq<Tile>, lo: nat, hi: nat, q: nat, k: nat) returns (i: nat)
    requires HeapOk(g, ts, lo, hi) && q < CLASSES && k < |g.lists[q]|
    ensures i < |ts| && ts[i].at == g.lists[q][k] && ts[i].kind.Free? && ts[i].size > 0 && Slot(ts[i].size) == q
    ensures ts[i].at in g.hdr && ts[i].size == Bsz(g.hdr[ts[i].at].word)
  {
    var a := g.lists[q][k];
    assert AllBacked(g.hdr, ts, g.lists[q]) && Backed(g.hdr, ts, a);
    i :| 0 <= i < |ts| && ts[i] == Tile(a, Bsz(g.hdr[a].word), Free);
    EntryListed(g, q, k);
    TilesSplit(ts, i, lo, hi);
  }

  lemma RemListsKept(g: Seg, b: nat, k: nat, t: Tile, mid: seq<Tile>)
    requires SegLists.Ok(g) && Listed(g, b, k) && t.at == b
    ensures ListsKept(g, Removed(g, b, k), t, mid)
  {
    var q, g' := SlotOf(g.hdr, b), Removed(g, b, k);
    assert Chain(g.hdr, g.fl[q], g.lists[q], q);
    WithoutMembers(g.lists[q], k);
    forall r, a | 0 <= r < CLASSES && a in g.lists[r] && a != b ensures a in g'.lists[r] {
    }
    forall r, a | 0 <= r < CLASSES && a in g'.lists[r] ensures a in g.lists[r] && a != b {
      if r != q {
        SlotsApart(g, r, b);
      }
    }
  }

  lemma RemWords(g: Seg, b: nat, k: nat, a: nat)
    requires SegLists.Ok(g) && Listed(g, b, k) && a in g.hdr
    ensures a in RemHeaders(g.hdr, b)
    ensures RemHeaders(g.hdr, b)[a].word == if a == b then NoFree(g.hdr[b].word) else g.hdr[a].word
  {
  }

  /** rem turns a free tile into a live one. */
  lemma RemovedHeap(g: Seg, ts: seq<Tile>, lo: nat, hi: nat, i: nat, k: nat)
    requires HeapOk(g, ts, lo, hi) && i < |ts| && ts[i].kind.Free? && Listed(g, ts[i].at, k)
    ensures HeapOk(Removed(g, ts[i].at, k), Retyped(ts, i, Live), lo, hi)
  {
    var t, g' := ts[i], Removed(g, ts[i].at, k);
    var mid := [Tile(t.at, t.size, Live)];
    assert t in ts && Headed(g.hdr, g.lists, t);
    SizeBits(t.size);
    RemovedOk(g, t.at, k);
    RetypedTiles(ts, i, Live, lo, hi);
    RemListsKept(g, t.at, k, t, mid);
    forall a | a in g.hdr ensures a in g'.hdr && g'.hdr[a].word == if a == t.at then t.size else g.hdr[a].word {
      RemWords(g, t.at, k, a);
    }
    TilesSplit(ts, i, lo, hi);
    assert WordsKept(g.hdr, g'.hdr, t);
    RecutDescribed(g, ts, i, mid, g', lo, hi);
  }

  lemma InsWords(hdr: map<nat, Header>, b: nat, head: nat, a: nat)
    requires b in hdr && (head != 0 ==> head in hdr) && a in hdr
    ensures a in InsHeaders(hdr, b, head)
    ensures InsHeaders(hdr, b, head)[a].word == if a == b then WithFree(hdr[b].word) else hdr[a].word
  {
  }

  /** The block of a live tile may be inserted. */
  lemma LiveInsertable(g: Seg, ts: seq<Tile>, lo: nat, hi: nat, i: nat)
    requires HeapOk(g, ts, lo, hi) && i < |ts| && ts[i].kind.Live?
    ensures var b := ts[i].at; b in g.hdr && b != 0 && g.hdr[b].word == ts[i].size == Bsz(g.hdr[b].word) > 0
    ensures ts[i].at !in g.lists[SlotOf(g.hdr, ts[i].at)]
    ensures g.fl[SlotOf(g.hdr, ts[i].at)] != 0 ==> g.fl[SlotOf(g.hdr, ts[i].at)] in g.hdr
  {
    var t := ts[i];
    assert t in ts && Headed(g.hdr, g.lists, t);
    SizeBits(t.size);
    TileInside(ts, lo, hi, i);
    Unlisted(g, ts, lo, hi, i, SlotOf(g.hdr, t.at), t.at);
    HeadIn(g, SlotOf(g.hdr, t.at));
  }

  lemma InsListsKept(g: Seg, ts: seq<Tile>, lo: nat, hi: nat, i: nat, mid: seq<Tile>)
    requires HeapOk(g, ts, lo, hi) && i < |ts| && ts[i].kind.Live? && ts[i].at in g.hdr && Bsz(g.hdr[ts[i].at].word) > 0
    requires g.fl[SlotOf(g.hdr, ts[i].at)] != 0 ==> g.fl[SlotOf(g.hdr, ts[i].at)] in g.hdr
    requires Backed(Inserted(g, ts[i].at).hdr, mid, ts[i].at)
    ensures ListsKept(g, Inserted(g, ts[i].at), ts[i], mid)
  {
  }

  /** ins turns a live tile into a free one. */
  lemma InsertedHeap(g: Seg, ts: seq<Tile>, lo: nat, hi: nat, i: nat)
    requires HeapOk(g, ts, lo, hi) && i < |ts| && ts[i].kind.Live?
    ensures ts[i].at in g.hdr && Bsz(g.hdr[ts[i].at].word) > 0
    ensures g.fl[SlotOf(g.hdr, ts[i].at)] != 0 ==> g.fl[SlotOf(g.hdr, ts[i].at)] in g.hdr
    ensures HeapOk(Inserted(g, ts[i].at), Retyped(ts, i, Free), lo, hi)
  {
    var t := ts[i];
    LiveInsertable(g, ts, lo, hi, i);
    var g' := Inserted(g, t.at);
    var u := Tile(t.at, t.size, Free);
    var head := g.fl[SlotOf(g.hdr, t.at)];
    InsertedOk(g, t.at);
    RetypedTiles(ts, i, Free, lo, hi);
    assert t in ts;
    SizeBits(t.size);
    forall a | a in g.hdr ensures a in g'.hdr && g'.hdr[a].word == if a == t.at then t.size + 1 else g.hdr[a].word {
      InsWords(g.hdr, t.at, head, a);
    }
    assert g'.lists[Slot(t.size)][0] == t.at;
    assert Headed(g'.hdr, g'.lists, u) && [u][0] == u && Backed(g'.hdr, [u], t.at);
    TilesSplit(ts, i, lo, hi);
    InsListsKept(g, ts, lo, hi, i, [u]);
    RecutDescribed(g, ts, i, [u], g', lo, hi);
  }

  /** A live block gets size n and the rest of it a header of its own. */
  function Cut(g: Seg, b: nat, n: nat, r: nat): Seg
    requires b in g.hdr
  {
    g.(hdr := g.hdr[b + n := Header(r, 0, 0)][b := g.hdr[b].(word := n)])
  }

  lemma CutHeap(g: Seg, ts: seq<Tile>, lo: nat, hi: nat, i: nat, n: nat)
    requires HeapOk(g, ts, lo, hi) && i < |ts| && ts[i].kind.Live? && 0 < n < ts[i].size && n % 16 == 0
    ensures ts[i].at in g.hdr
    ensures HeapOk(Cut(g, ts[i].at, n, ts[i].size - n),
                   Recut(ts, i, [Tile(ts[i].at, n, Live), Tile(ts[i].at + n, ts[i].size - n, Live)]), lo, hi)
  {
    var t := ts[i];
    var r := t.size - n;
    assert t in ts && Headed(g.hdr, g.lists, t);
    var g', mid := Cut(g, t.at, n, r), [Tile(t.at, n, Live), Tile(t.at + n, r, Live)];
    forall q | 0 <= q < CLASSES ensures Chain(g'.hdr, g'.fl[q], g'.lists[q], q) {
      Unlisted(g, ts, lo, hi, i, q, t.at);
      Unlisted(g, ts, lo, hi, i, q, t.at + n);
      UnlistedWrites(g, g'.hdr, q);
    }
    CutTiles(ts, i, n, lo, hi);
    forall u | u in mid ensures Headed(g'.hdr, g'.lists, u) {
      assert u == mid[0] || u == mid[1];
    }
    forall q, a | 0 <= q < CLASSES && a in g.lists[q] ensures a != t.at {
      Unlisted(g, ts, lo, hi, i, q, t.at);
    }
    RecutDescribed(g, ts, i, mid, g', lo, hi);
  }

  /** Headers of blocks in no list may change freely. */
  lemma UnlistedWrites(g: Seg, hdr': map<nat, Header>, q: nat)
    requires Chains(g) && q < CLASSES
    requires forall a | a in g.lists[q] && a in g.hdr :: a in hdr' && hdr'[a] == g.hdr[a]
    ensures Chain(hdr', g.fl[q], g.lists[q], q)
  {
    var list := g.lists[q];
    assert Chain(g.hdr, g.fl[q], list, q);
    forall k | 0 <= k < |list| ensures list[k] in g.hdr {
      assert EntryAt(g.hdr, list, q, k);
    }
    ChainFrame(g.hdr, hdr', g.fl[q], list, q);
  }

  lemma CutTiles(ts: seq<Tile>, i: nat, n: nat, lo: nat, hi: nat)
    requires Tiles(ts, lo, hi) && Units(ts) && i < |ts| && 0 < n < ts[i].size && n % 16 == 0
    ensures var mid := [Tile(ts[i].at, n, Live), Tile(ts[i].at + n, ts[i].size - n, Live)];
      Tiles(Recut(ts, i, mid), lo, hi) && Units(Recut(ts, i, mid))
  {
    var t := ts[i];
    var mid := [Tile(t.at, n, Live), Tile(t.at + n, t.size - n, Live)];
    assert t in ts;
    assert mid[1..] == [mid[1]] && mid[1..][1..] == [];
    RecutTiles(ts, i, mid, lo, hi);
    forall u | u in mid ensures u.at % 16 == 8 && u.size % 16 == 0 {
      assert u == mid[0] || u == mid[1];
      UnitCut(t.at, t.size, n);
    }
  }

  lemma UnitCut(at: nat, size: nat, n: nat)
    requires at % 16 == 8 && size % 16 == 0 && n % 16 == 0 && n <= size
    ensures (at + n) % 16 == 8 && (size - n) % 16 == 0
  {
  }

  // ---------- malloc ----------

  /** What allocating n bytes makes of a free tile: a remainder below 24 bytes stays with the block. */
  function Carve(t: Tile, n: nat): seq<Tile>
    requires n <= t.size
  {
    if t.size - n >= HDR + 16 then [Tile(t.at, n, Live), Tile(t.at + n, t.size - n, Free)]
    else [Tile(t.at, t.size, Live)]
  }

  function Pushed(lists: seq<seq<nat>>, q: nat, b: nat): seq<seq<nat>>
    requires q < |lists|
  {
    lists[q := [b] + lists[q]]
  }

  function Popped(lists: seq<seq<nat>>, q: nat): seq<seq<nat>>
    requires q < |lists| && lists[q] != []
  {
    lists[q := lists[q][1..]]
  }

  /** The lists after tile t, the head of its list, gave n bytes: its remainder heads the list of its own class. */
  function CarvedLists(lists: seq<seq<nat>>, t: Tile, n: nat): seq<seq<nat>>
    requires |lists| == CLASSES && 0 < n <= t.size && lists[Slot(t.size)] != []
  {
    var popped := Popped(lists, Slot(t.size));
    if t.size - n >= HDR + 16 then Pushed(popped, Slot(t.size - n), t.at + n) else popped
  }

  /** The block that find picks for n bytes, if any, has n bytes. */
  ghost predicate Adequate(g: Seg, n: nat)
    requires n > 0 && |g.lists| == CLASSES
  {
    forall q: nat {:trigger Best(g.lists, n, q)} | Best(g.lists, n, q) &&
           g.lists[q][0] in g.hdr :: n <= Bsz(g.hdr[g.lists[q][0]].word)
  }

  /** A size that is the lower bound of its class only ever finds blocks that are large enough. */
  lemma BoundIsAdequate(g: Seg, ts: seq<Tile>, lo: nat, hi: nat, n: nat)
    requires HeapOk(g, ts, lo, hi) && n >= 8 && IsLowerBound(n)
    ensures Adequate(g, n)
  {
    ClassFitsIff(n);
    forall q: nat | Best(g.lists, n, q) && g.lists[q][0] in g.hdr ensures n <= Bsz(g.hdr[g.lists[q][0]].word) {
      var i := EntryTile(g, ts, lo, hi, q, 0);
      TileAtLeast(ts, lo, hi, i);
    }
  }

  lemma TileAtLeast(ts: seq<Tile>, lo: nat, hi: nat, i: nat)
    requires Tiles(ts, lo, hi) && Units(ts) && i < |ts|
    ensures ts[i].size >= 16 && lo <= ts[i].at && ts[i].at + ts[i].size <= hi
  {
    assert ts[i] in ts;
    TileInside(ts, lo, hi, i);
  }

  lemma RecutTwice(ts: seq<Tile>, i: nat, t: Tile, mid: seq<Tile>)
    requires i < |ts|
    ensures Recut(ts, i, [t])[i] == t && Recut(Recut(ts, i, [t]), i, mid) == Recut(ts, i, mid)
  {
  }

  lemma RetypeSecond(ts: seq<Tile>, i: nat, t: Tile, u: Tile, k: Kind)
    requires i < |ts|
    ensures var a := Recut(ts, i, [t, u]);
      a[i] == t && a[i + 1] == u && Retyped(a, i + 1, k) == Recut(ts, i, [t, Tile(u.at, u.size, k)])
  {
  }

  /** The rest of block b, r bytes, gets a header and is inserted; then b gets its new size. */
  function CutOff(g: Seg, b: nat, n: nat, r: nat): Seg
    requires b in g.hdr && n > 0 && Bsz(r) > 0 && |g.fl| == |g.lists| == CLASSES && |g.slbmp| == MAX_FL
    requires var h := g.fl[Slot(Bsz(r))]; h != 0 ==> h in g.hdr
  {
    var g1 := Inserted(g.(hdr := g.hdr[b + n := Header(r, 0, 0)]), b + n);
    g1.(hdr := g1.hdr[b := g1.hdr[b].(word := n)])
  }

  /** Giving block b its size after the remainder was inserted amounts to cutting first. */
  lemma CutCommutes(g: Seg, b: nat, n: nat, r: nat)
    requires b in g.hdr && n > 0 && Bsz(r) > 0 && |g.fl| == |g.lists| == CLASSES && |g.slbmp| == MAX_FL
    requires var h := g.fl[Slot(Bsz(r))]; h != 0 ==> h in g.hdr && h != b && h != b + n
    ensures CutOff(g, b, n, r) == Inserted(Cut(g, b, n, r), b + n)
  {
    var h, q, rb := g.fl[Slot(Bsz(r))], Slot(Bsz(r)), b + n;
    var hdr := g.hdr[rb := Header(r, 0, 0)];
    var ins, cut := InsHeaders(hdr, rb, h), InsHeaders(hdr[b := hdr[b].(word := n)], rb, h);
    assert Cut(g, b, n, r).hdr == hdr[b := hdr[b].(word := n)];
    assert ins[b := ins[b].(word := n)] == cut;
    assert CutOff(g, b, n, r).lists == g.lists[q := [rb] + g.lists[q]];
  }

  /** Malloc in one: remove, cut, insert the remainder. */
  lemma SplitHeap(g: Seg, ts: seq<Tile>, lo: nat, hi: nat, i: nat, n: nat)
    requires HeapOk(g, ts, lo, hi) && i < |ts| && ts[i].kind.Live? && 0 < n && n + 16 <= ts[i].size && n % 16 == 0
    ensures ts[i].at in g.hdr
    ensures var rb, c := ts[i].at + n, Cut(g, ts[i].at, n, ts[i].size - n);
      rb in c.hdr && Bsz(c.hdr[rb].word) == ts[i].size - n > 0
      && (c.fl[SlotOf(c.hdr, rb)] != 0 ==> c.fl[SlotOf(c.hdr, rb)] in c.hdr)
      && HeapOk(Inserted(c, rb), Recut(ts, i, [Tile(ts[i].at, n, Live), Tile(rb, ts[i].size - n, Free)]), lo, hi)
  {
    CutHeap(g, ts, lo, hi, i, n);
    var t, u := Tile(ts[i].at, n, Live), Tile(ts[i].at + n, ts[i].size - n, Live);
    RetypeSecond(ts, i, t, u, Free);
    var ts1, c := Recut(ts, i, [t, u]), Cut(g, ts[i].at, n, ts[i].size - n);
    LiveInsertable(c, ts1, lo, hi, i + 1);
    InsertedHeap(c, ts1, lo, hi, i + 1);
  }

  /** Live and free bytes after the free tile i gave n bytes. */
  lemma CarveSums(ts: seq<Tile>, i: nat, n: nat)
    requires i < |ts| && ts[i].kind.Free? && 0 < n <= ts[i].size
    ensures var got := Carve(ts[i], n)[0].size;
      Sum(Recut(ts, i, Carve(ts[i], n)), Live) == Sum(ts, Live) + got
      && Sum(Recut(ts, i, Carve(ts[i], n)), Free) == Sum(ts, Free) - got
  {
    var c := Carve(ts[i], n);
    RecutSum(ts, i, c, Live);
    RecutSum(ts, i, c, Free);
    assert [ts[i]][1..] == [];
    if |c| == 2 {
      assert c[1..] == [c[1]] && c[1..][1..] == [];
    } else {
      assert c[1..] == [];
    }
  }

  /**
    A live block has the bytes asked for, or sixteen more when that is all that would be left; a rest that is split off
    has a header and sixteen bytes at least.
  */
  lemma CarveSize(t: Tile, n: nat)
    requires n <= t.size && t.size % 16 == 0 && n % 16 == 0
    ensures Carve(t, n)[0] == Tile(t.at, if t.size == n + 16 then n + 16 else n, Live)
    ensures |Carve(t, n)| == 2 <==> t.size >= n + 24
    ensures |Carve(t, n)| == 2 ==> Carve(t, n)[1] == Tile(t.at + n, t.size - n, Free)
  {
  }

  // ---------- which bytes the allocator touches ----------

  /** Address a is in a free block. */
  ghost predicate InFree(ts: seq<Tile>, a: nat) {
    exists t {:trigger Inside(t, a)} :: t in ts && t.kind.Free? && Inside(t, a)
  }

  /** Address a is in the prv field of block x, the first word of its payload. */
  predicate Pocket(a: nat, x: nat) {
    x + HDR <= a < x + HDR + 4
  }

  lemma PocketInside(ts: seq<Tile>, lo: nat, hi: nat, i: nat, a: nat)
    requires Tiles(ts, lo, hi) && Units(ts) && i < |ts| && Pocket(a, ts[i].at)
    ensures Inside(ts[i], a) && (ts[i].kind.Free? ==> InFree(ts, a))
  {
    TileAtLeast(ts, lo, hi, i);
    assert ts[i] in ts && Inside(ts[i], a);
  }

  /** The prv field of a listed block lies in a free block. */
  lemma ListedPocket(g: Seg, ts: seq<Tile>, lo: nat, hi: nat, q: nat, x: nat)
    requires HeapOk(g, ts, lo, hi) && q < CLASSES && x in g.lists[q]
    ensures lo <= x && x + 16 <= hi && forall a | Pocket(a, x) :: InFree(ts, a)
  {
    var k :| 0 <= k < |g.lists[q]| && g.lists[q][k] == x;
    var i := EntryTile(g, ts, lo, hi, q, k);
    TileAtLeast(ts, lo, hi, i);
    forall a | Pocket(a, x) ensures InFree(ts, a) {
      PocketInside(ts, lo, hi, i, a);
    }
  }

  /** Bytes of a live block are in no free block. */
  lemma LiveNotFree(ts: seq<Tile>, lo: nat, hi: nat, i: nat, a: nat)
    requires Tiles(ts, lo, hi) && i < |ts| && ts[i].kind.Live? && Inside(ts[i], a)
    ensures !InFree(ts, a)
  {
    forall t | t in ts && t.kind.Free? ensures !Inside(t, a) {
      OthersClear(ts, i, lo, hi, t);
    }
  }

  /** Carving a free block makes no other byte free. */
  lemma CarvedFree(ts: seq<Tile>, lo: nat, hi: nat, j: nat, n: nat, a: nat)
    requires Tiles(ts, lo, hi) && j < |ts| && ts[j].kind.Free? && n <= ts[j].size && !InFree(ts, a)
    ensures !InFree(Recut(ts, j, Carve(ts[j], n)), a)
  {
    assert ts[j] in ts && !Inside(ts[j], a);
    forall t | t in Recut(ts, j, Carve(ts[j], n)) && t.kind.Free? ensures !Inside(t, a) {
      RecutMembers(ts, j, Carve(ts[j], n), lo, hi, t);
    }
  }

  /** Where tile i is after tile j was carved. */
  function Moved(ts: seq<Tile>, i: nat, j: nat, n: nat): nat
    requires j < |ts| && n <= ts[j].size
  {
    if i < j then i else i + |Carve(ts[j], n)| - 1
  }

  lemma MovedTile(ts: seq<Tile>, i: nat, j: nat, n: nat)
    requires i < |ts| && j < |ts| && i != j && n <= ts[j].size
    ensures var ts' := Recut(ts, j, Carve(ts[j], n));
      && Moved(ts, i, j, n) < |ts'| && ts'[Moved(ts, i, j, n)] == ts[i]
      && j + |Carve(ts[j], n)| <= |ts'| && ts'[j] == Carve(ts[j], n)[0]
  {
  }

  /**
    Block p answers a request of n bytes: tile j, the head of the first list at or above the class of n that has
    one.
  */
  ghost predicate Served(lists: seq<seq<nat>>, ts: seq<Tile>, j: nat, p: nat, n: nat)
    requires n > 0 && |lists| == CLASSES
  {
    && j < |ts| && ts[j].kind.Free? && p == ts[j].at + HDR && n <= ts[j].size
    && Best(lists, n, Slot(ts[j].size)) && lists[Slot(ts[j].size)][0] == ts[j].at
  }

  /** The tiles after tile j was carved for n bytes and live tile i freed. */
  function ReallocTiles(ts: seq<Tile>, i: nat, j: nat, n: nat): seq<Tile>
    requires i < |ts| && j < |ts| && i != j && n <= ts[j].size
  {
    MovedTile(ts, i, j, n);
    Retyped(Recut(ts, j, Carve(ts[j], n)), Moved(ts, i, j, n), Free)
  }

  // ---------- the request that finds too small a block ----------

  /** A fresh heap of n bytes: one free block in the list of its class. */
  function Blank(b: nat, n: nat): Seg {
    Seg(map[b := Header(n, 0, 0)], seq(CLASSES, _ => 0), BitWord.ZERO, seq(MAX_FL, _ => BitWord.ZERO), seq(CLASSES,
        _ => []))
  }

  lemma BlankHeap(b: nat, n: nat)
    requires b % 16 == 8 && n > 0 && n % 16 == 0
    ensures HeapOk(Blank(b, n), [Tile(b, n, Live)], b, b + n)
  {
  }

  lemma FreshHeap(b: nat, n: nat)
    requires b % 16 == 8 && n > 0 && n % 16 == 0
    ensures Bsz(n) == n && HeapOk(Inserted(Blank(b, n), b), [Tile(b, n, Free)], b, b + n)
  {
    SizeBits(n);
    BlankHeap(b, n);
    var ts := [Tile(b, n, Live)];
    assert Retyped(ts, 0, Free) == [Tile(b, n, Free)];
    InsertedHeap(Blank(b, n), ts, b, b + n, 0);
  }

  /** When the list of the request's own class has a block, its head is what find picks. */
  lemma HeadServesIff(g: Seg, ts: seq<Tile>, lo: nat, hi: nat, i: nat, n: nat)
    requires HeapOk(g, ts, lo, hi) && i < |ts| && ts[i].kind.Free? && ts[i].size > 0
    requires g.lists[Slot(ts[i].size)] != [] && g.lists[Slot(ts[i].size)][0] == ts[i].at
    requires n > 0 && Slot(n) == Slot(ts[i].size)
    ensures Adequate(g, n) <==> n <= ts[i].size
  {
    var k := TileListed(g, ts, lo, hi, i);
    var q := Slot(n);
    assert Best(g.lists, n, q) && forall r: nat {:trigger Best(g.lists, n, r)} | Best(g.lists, n, r) :: r == q;
  }

  /** A block that was just freed serves the next request of its class, large enough or not. */
  lemma FreedServesIff(g: Seg, ts: seq<Tile>, lo: nat, hi: nat, i: nat, n: nat)
    requires HeapOk(g, ts, lo, hi) && i < |ts| && ts[i].kind.Live? && ts[i].size > 0
    requires n > 0 && Slot(n) == Slot(ts[i].size)
    ensures ts[i].at in g.hdr && Bsz(g.hdr[ts[i].at].word) == ts[i].size
    ensures g.fl[Slot(ts[i].size)] != 0 ==> g.fl[Slot(ts[i].size)] in g.hdr
    ensures Adequate(Inserted(g, ts[i].at), n) <==> n <= ts[i].size
  {
    LiveInsertable(g, ts, lo, hi, i);
    InsertedHeap(g, ts, lo, hi, i);
    HeadServesIff(Inserted(g, ts[i].at), Retyped(ts, i, Free), lo, hi, i, n);
  }

  lemma LowerIsUnit(n: nat)
    requires n >= 16 && n % 16 == 0 && !IsLowerBound(n)
    ensures Lower(Slot(n)) % 16 == 0 && 0 < Lower(Slot(n)) < n && Slot(Lower(Slot(n))) == Slot(n)
  {
    SlotBounds(n);
    LowerInClass(Slot(n));
    if n < 256 {
      SmallSizesAreBounds(n);
      assert false;
    }
    MapMonotone(256, n);
    assert IsLowerBound(256) && Slot(256) == 64 by {
      SlotOf256();
    }
    HighClassUnit(Slot(n));
  }

  lemma SlotOf256()
    ensures Slot(256) == 64 && Lower(64) == 256
  {
    assert Log2(256) == 8 by {
      assert Log2(256) == 1 + Log2(128) && Log2(128) == 1 + Log2(64) && Log2(64) == 1 + Log2(32);
      assert Log2(32) == 1 + Log2(16) && Log2(16) == 1 + Log2(8) && Log2(8) == 1 + Log2(4) && Log2(4) == 1 + Log2(2);
    }
    assert Pow2(5) == 32 by {
      SmallPowers();
      NextPower(4);
    }
  }

  lemma SlotOf272()
    ensures Slot(272) == 64
  {
    SmallPowers();
    NextPower(4);
    NextPower(5);
    NextPower(6);
    NextPower(7);
    Log2Is(272, 8);
  }

  /** After a block of 256 bytes was freed, a request of 264 bytes, which rounds to 272, is given that block. */
  lemma ShortBlockFound(g: Seg, ts: seq<Tile>, lo: nat, hi: nat, i: nat)
    requires HeapOk(g, ts, lo, hi) && i < |ts| && ts[i].kind.Live? && ts[i].size == 256
    ensures ts[i].at in g.hdr && Bsz(g.hdr[ts[i].at].word) > 0 && Rounded(264) == 272
    ensures g.fl[SlotOf(g.hdr, ts[i].at)] != 0 ==> g.fl[SlotOf(g.hdr, ts[i].at)] in g.hdr
    ensures !Adequate(Inserted(g, ts[i].at), 272)
  {
    SlotOf256();
    SlotOf272();
    FreedServesIff(g, ts, lo, hi, i, 272);
  }

  lemma HighClassUnit(q: nat)
    requires q >= 64
    ensures Lower(q) % 16 == 0
  {
    var p, c := q / 8 - 3, 8 + q % 8;
    var m := PowerSplit(p);
    assert Lower(q) == c * (16 * m);
    TimesUnit(c, m);
  }

  lemma TimesUnit(c: nat, m: nat)
    ensures c * (16 * m) % 16 == 0
  {
    assert c * (16 * m) == 16 * (c * m);
  }

  lemma PowerSplit(p: nat) returns (m: nat)
    requires p >= 5
    ensures Pow2(p) == 16 * m
    decreases p
  {
    if p == 5 {
      SmallPowers();
      NextPower(4);
      m := 2;
    } else {
      var k := PowerSplit(p - 1);
      m := 2 * k;
    }
  }

  /** The heap lies where mm_heap_init can put it: not at address 0 and below 2^32. */
  predicate InMemory(lo: nat, hi: nat) {
    16 + HDR <= lo && hi + HDR <= WRAP
  }

  /** Some free block has n bytes. */
  ghost predicate HasRoom(ts: seq<Tile>, n: nat) {
    exists t :: t in ts && t.kind.Free? && t.size >= n
  }

  /** A heap of two free blocks of m and n bytes, the first of them freed last. */
  lemma TwoBlocks(m: nat, n: nat) returns (g: Seg, ts: seq<Tile>)
    requires m >= 16 && m % 16 == 0 && n >= 16 && n % 16 == 0
    ensures HeapOk(g, ts, 24, 24 + m + n) && HasRoom(ts, n)
    ensures forall k | k > 0 && Slot(k) == Slot(m) :: Adequate(g, k) <==> k <= m
  {
    var g1, ts1 := LiveAndFree(24, m, n);
    g, ts := FreedFirst(g1, ts1, 24, 24 + m + n);
    assert Tile(24 + m, n, Free) in ts by {
      assert ts[1] == ts1[1];
    }
  }

  lemma LiveAndFree(b: nat, m: nat, n: nat) returns (g: Seg, ts: seq<Tile>)
    requires b % 16 == 8 && m >= 16 && m % 16 == 0 && n >= 16 && n % 16 == 0
    ensures ts == [Tile(b, m, Live), Tile(b + m, n, Free)] && HeapOk(g, ts, b, b + m + n)
  {
    var whole := [Tile(b, m + n, Live)];
    BlankHeap(b, m + n);
    ts := [Tile(b, m, Live), Tile(b + m, n, Free)];
    assert Recut(whole, 0, ts) == ts;
    g := SplitOff(Blank(b, m + n), whole, b, b + m + n, 0, m);
  }

  lemma SplitOff(g: Seg, ts: seq<Tile>, lo: nat, hi: nat, i: nat, n: nat) returns (g': Seg)
    requires HeapOk(g, ts, lo, hi) && i < |ts| && ts[i].kind.Live? && 0 < n && n + 16 <= ts[i].size && n % 16 == 0
    ensures HeapOk(g', Recut(ts, i, [Tile(ts[i].at, n, Live), Tile(ts[i].at + n, ts[i].size - n, Free)]), lo, hi)
  {
    SplitHeap(g, ts, lo, hi, i, n);
    g' := Inserted(Cut(g, ts[i].at, n, ts[i].size - n), ts[i].at + n);
  }

  lemma FreedFirst(g: Seg, ts: seq<Tile>, lo: nat, hi: nat) returns (g': Seg, ts': seq<Tile>)
    requires HeapOk(g, ts, lo, hi) && ts != [] && ts[0].kind.Live? && ts[0].size > 0
    ensures HeapOk(g', ts', lo, hi) && ts' == Retyped(ts, 0, Free)
    ensures forall k | k > 0 && Slot(k) == Slot(ts[0].size) :: Adequate(g', k) <==> k <= ts[0].size
  {
    InsertedHeap(g, ts, lo, hi, 0);
    g', ts' := Inserted(g, ts[0].at), Retyped(ts, 0, Free);
    forall k | k > 0 && Slot(k) == Slot(ts[0].size) ensures Adequate(g', k) <==> k <= ts[0].size {
      FreedServesIff(g, ts, lo, hi, 0, k);
    }
  }

  /**
    The guard find lacks: every heap with room for n bytes serves them soundly exactly when n is the lower bound of its
    class.
  */
  lemma FindFitsIff(n: nat)
    requires n >= 16 && n % 16 == 0 && Lower(Slot(n)) + n + 32 <= WRAP
    ensures IsLowerBound(n) <==>
            forall g, ts, lo, hi | HeapOk(g, ts, lo, hi) && InMemory(lo, hi) && HasRoom(ts, n) :: Adequate(g, n)
  {
    if IsLowerBound(n) {
      forall g, ts, lo, hi | HeapOk(g, ts, lo, hi) ensures Adequate(g, n) {
        BoundIsAdequate(g, ts, lo, hi, n);
      }
    } else {
      LowerIsUnit(n);
      var g, ts := TwoBlocks(Lower(Slot(n)), n);
      assert InMemory(24, 24 + Lower(Slot(n)) + n);
    }
  }

  // ---------- a heap with one free block ----------

  /** t is the only free block. */
  ghost predicate OnlyFree(ts: seq<Tile>, t: Tile) {
    t in ts && t.kind.Free? && forall u | u in ts && u.kind.Free? :: u == t
  }

  /** When the one free block is large enough, find picks it. */
  lemma OnlyFreeServes(g: Seg, ts: seq<Tile>, lo: nat, hi: nat, t: Tile, n: nat)
    requires HeapOk(g, ts, lo, hi) && OnlyFree(ts, t) && 16 <= n <= t.size
    ensures Adequate(g, n) && !NoneFits(g.lists, n)
  {
    var i :| 0 <= i < |ts| && ts[i] == t;
    var k := TileListed(g, ts, lo, hi, i);
    MapMonotone(n, t.size);
    forall q: nat | Best(g.lists, n, q) && g.lists[q][0] in g.hdr ensures n <= Bsz(g.hdr[g.lists[q][0]].word) {
      var j := EntryTile(g, ts, lo, hi, q, 0);
      assert ts[j] in ts;
    }
  }

  /** And what it leaves is again the only free block. */
  lemma OnlyFreeCarved(ts: seq<Tile>, lo: nat, hi: nat, i: nat, n: nat)
    requires Tiles(ts, lo, hi) && i < |ts| && OnlyFree(ts, ts[i]) && n + HDR + 16 <= ts[i].size
    ensures OnlyFree(Recut(ts, i, Carve(ts[i], n)), Tile(ts[i].at + n, ts[i].size - n, Free))
  {
    var ts', u := Recut(ts, i, Carve(ts[i], n)), Tile(ts[i].at + n, ts[i].size - n, Free);
    assert Carve(ts[i], n)[1] == u;
    RecutMembers(ts, i, Carve(ts[i], n), lo, hi, u);
    forall v | v in ts' && v.kind.Free? ensures v == u {
      RecutMembers(ts, i, Carve(ts[i], n), lo, hi, v);
    }
  }

  lemma RemovedHead(g: Seg, b: nat, q: nat)
    requires SegLists.Ok(g) && Listed(g, b, 0) && q < CLASSES
    ensures var g' := Removed(g, b, 0);
      |g'.fl| == |g'.lists| == CLASSES && |g'.slbmp| == MAX_FL && (g'.fl[q] != 0 ==> g'.fl[q] in g'.hdr) && b in g'.hdr
  {
    RemovedOk(g, b, 0);
    HeadIn(Removed(g, b, 0), q);
  }

  /** The heap after k_malloc took the block b that find picked for n bytes and cut it: r wraps when b is too small. */
  function TakenAndCut(g: Seg, b: nat, n: nat): Seg
    requires SegLists.Ok(g) && Listed(g, b, 0) && 0 < n
    requires Bsz((Bsz(g.hdr[b].word) - n) % WRAP) > 0
  {
    RemovedHead(g, b, Slot(Bsz((Bsz(g.hdr[b].word) - n) % WRAP)));
    CutOff(Removed(g, b, 0), b, n, (Bsz(g.hdr[b].word) - n) % WRAP)
  }

  /**
    What k_malloc does when find picks a block of s bytes for n > s: s - n wraps to almost 2^32 bytes, so the block is
    cut, and a free block of that size is listed at b + n. Whatever lists and tiling one reads into the memory then,
    no heap below 2^32 has such a block.
  */
  lemma ShortBlockBreaksHeap(g: Seg, ts: seq<Tile>, lo: nat, hi: nat, n: nat, q: nat) returns (b: nat, r: nat)
    requires HeapOk(g, ts, lo, hi) && hi <= WRAP && n > 0 && n % 16 == 0 && Best(g.lists, n, q)
    requires g.lists[q][0] in g.hdr && Bsz(g.hdr[g.lists[q][0]].word) < n && g.lists[q][0] + n < WRAP
    ensures b == g.lists[q][0] && Listed(g, b, 0)
    ensures r == (Bsz(g.hdr[b].word) - n) % WRAP && r >= HDR + 16 && Bsz(r) == r
    ensures forall ls, ts' :: !HeapOk(TakenAndCut(g, b, n).(lists := ls), ts', lo, hi)
  {
    b, r := ShortBlock(g, ts, lo, hi, n, q);
    CutBreaks(g, TakenAndCut(g, b, n), b, n, r, lo, hi);
  }

  lemma ShortBlock(g: Seg, ts: seq<Tile>, lo: nat, hi: nat, n: nat, q: nat) returns (b: nat, r: nat)
    requires HeapOk(g, ts, lo, hi) && hi <= WRAP && n > 0 && n % 16 == 0 && Best(g.lists, n, q)
    requires g.lists[q][0] in g.hdr && Bsz(g.hdr[g.lists[q][0]].word) < n && g.lists[q][0] + n < WRAP
    ensures b == g.lists[q][0] && b > 0 && Listed(g, b, 0) && b in Removed(g, b, 0).hdr
    ensures r == (Bsz(g.hdr[b].word) - n) % WRAP && r >= HDR + 16 && Bsz(r) == r && b + n + r > WRAP
  {
    var i := EntryTile(g, ts, lo, hi, q, 0);
    TileAtLeast(ts, lo, hi, i);
    assert ts[i] in ts;
    EntryListed(g, q, 0);
    b := g.lists[q][0];
    r := WrappedRest(ts[i].size, n);
  }

  lemma CutBreaks(g: Seg, g': Seg, b: nat, n: nat, r: nat, lo: nat, hi: nat)
    requires SegLists.Ok(g) && Listed(g, b, 0) && n > 0 && r > 0 && Bsz(r) == r && r == (Bsz(g.hdr[b].word) - n) % WRAP
    requires g' == TakenAndCut(g, b, n) && hi <= WRAP && b + n + r > WRAP
    ensures forall ls, ts :: !HeapOk(g'.(lists := ls), ts, lo, hi)
  {
    RemovedHead(g, b, Slot(r));
    HugeRest(Removed(g, b, 0), b, n, r);
    forall ls, ts ensures !HeapOk(g'.(lists := ls), ts, lo, hi) {
      NoHugeBlock(g'.(lists := ls), ts, lo, hi, b + n, r);
    }
  }

  /** The remainder of s bytes after n > s were taken, modulo 2^32. */
  lemma WrappedRest(s: nat, n: nat) returns (r: nat)
    requires 16 <= s < n < WRAP && s % 16 == 0 && n % 16 == 0
    ensures r == (s - n) % WRAP == WRAP + s - n && r >= HDR + 16 && Bsz(r) == r
  {
    r := WRAP + s - n;
    SizeBits(r);
  }

  /** The remainder heads the list of its class. */
  lemma HugeRest(g: Seg, b: nat, n: nat, r: nat)
    requires b in g.hdr && n > 0 && r > 0 && Bsz(r) == r && |g.fl| == |g.lists| == CLASSES && |g.slbmp| == MAX_FL
    requires var h := g.fl[Slot(r)]; h != 0 ==> h in g.hdr
    ensures var g' := CutOff(g, b, n, r);
      |g'.fl| == CLASSES && g'.fl[Slot(r)] == b + n && b + n in g'.hdr && Bsz(g'.hdr[b + n].word) == r
  {
    BitKept(r);
  }

  /** No heap below 2^32 has a free block that reaches past 2^32. */
  lemma NoHugeBlock(g: Seg, ts: seq<Tile>, lo: nat, hi: nat, b: nat, r: nat)
    requires hi <= WRAP && 0 < r && b > 0 && b + r > WRAP && |g.fl| == CLASSES && g.fl[Slot(r)] == b && b in g.hdr
    requires Bsz(g.hdr[b].word) == r
    ensures !HeapOk(g, ts, lo, hi)
  {
    if HeapOk(g, ts, lo, hi) {
      HeadIn(g, Slot(r));
      var i := EntryTile(g, ts, lo, hi, Slot(r), 0);
      TileInside(ts, lo, hi, i);
      assert false;
    }
  }

  /** used and fre always add up to the whole heap. */
  lemma BooksBalance(g: Seg, ts: seq<Tile>, lo: nat, hi: nat)
    requires HeapOk(g, ts, lo, hi)
    ensures Sum(ts, Live) + Sum(ts, Free) == hi - lo
  {
    SumsFill(ts, lo, hi);
    forall t | t in ts ensures !t.kind.Lost? {
      assert Headed(g.hdr, g.lists, t);
    }
    NothingLost(ts);
  }

  lemma {:induction false} NothingLost(ts: seq<Tile>)
    requires forall t | t in ts :: !t.kind.Lost?
    ensures Sum(ts, Lost) == 0
    decreases |ts|
  {
    if ts == [] {
    } else {
      assert forall t | t in ts[1..] :: t in ts;
      assert ts[0] in ts;
      NothingLost(ts[1..]);
    }
  }

  /** Distinct blocks share no byte, and every payload is 16-aligned. */
  lemma BlocksApart(g: Seg, ts: seq<Tile>, lo: nat, hi: nat, i: nat, j: nat)
    requires HeapOk(g, ts, lo, hi) && i < j < |ts|
    ensures lo <= ts[i].at && ts[i].at + ts[i].size <= ts[j].at && ts[j].at + ts[j].size <= hi
    ensures (ts[i].at + HDR) % 16 == 0 && (ts[j].at + HDR) % 16 == 0
  {
    TilesOrdered(ts, lo, hi, i, j);
    assert ts[i] in ts && ts[j] in ts;
  }
}
