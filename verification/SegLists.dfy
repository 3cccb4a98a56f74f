/** The segregated free lists of mm/allocator.c: one doubly linked list per size class under two levels of bitmaps. */
module SegLists {
  import opened BitWord
  import opened BlockHeader
  import opened LinkedList
  import opened SizeClass

  /** sz with the free bit in bit 0, and the two links (0 for NULL). */
  datatype Header = Header(word: nat, nxt: nat, prv: nat)

  /** Headers, list heads by class position, both bitmap levels; the lists the links spell out. */
  datatype Seg = Seg(hdr: map<nat, Header>, fl: seq<nat>, flbmp: bits, slbmp: seq<bits>, lists: seq<seq<nat>>)

  /** Entry k is a block of class q, linked to its neighbours. */
  ghost predicate EntryAt(hdr: map<nat, Header>, list: seq<nat>, q: nat, k: nat)
    requires k < |list|
  {
    && list[k] in hdr && list[k] != 0
    && hdr[list[k]].nxt == Next(list, k) && hdr[list[k]].prv == Prev(list, k)
    && Bsz(hdr[list[k]].word) > 0 && Slot(Bsz(hdr[list[k]].word)) == q
  }

  ghost predicate Chain(hdr: map<nat, Header>, head: nat, list: seq<nat>, q: nat) {
    && head == Head(list)
    && Distinct(list)
    && forall k {:trigger EntryAt(hdr, list, q, k)} | 0 <= k < |list| :: EntryAt(hdr, list, q, k)
  }

  ghost predicate Chains(g: Seg) {
    && |g.fl| == CLASSES && |g.lists| == CLASSES
    && forall q {:trigger Chain(g.hdr, g.fl[q], g.lists[q], q)} | 0 <= q < CLASSES ::
       Chain(g.hdr, g.fl[q], g.lists[q], q)
  }

  /** Both bitmap levels agree with which lists are empty. */
  ghost predicate Bits(flbmp: bits, slbmp: seq<bits>, lists: seq<seq<nat>>) {
    && |slbmp| == MAX_FL && |lists| == CLASSES
    && (forall f, s | 0 <= f < MAX_FL && 0 <= s < MAX_SL :: slbmp[f][s] <==> lists[f * MAX_SL + s] != [])
    && (forall f, s | 0 <= f < MAX_FL && MAX_SL <= s < 32 :: !slbmp[f][s])
    && (forall f | 0 <= f < MAX_FL :: flbmp[f] <==> !IsZero(slbmp[f]))
    && (forall f | MAX_FL <= f < 32 :: !flbmp[f])
  }

  ghost predicate Ok(g: Seg) {
    Chains(g) && Bits(g.flbmp, g.slbmp, g.lists)
  }

  /** The class position of the block at b. */
  function SlotOf(hdr: map<nat, Header>, b: nat): (q: nat)
    requires b in hdr && Bsz(hdr[b].word) > 0
    ensures q < CLASSES
  {
    Slot(Bsz(hdr[b].word))
  }

  // ---------- ins ----------

  function InsHeaders(hdr: map<nat, Header>, b: nat, head: nat): map<nat, Header>
    requires b in hdr && (head != 0 ==> head in hdr)
  {
    var h := hdr[b := Header(WithFree(hdr[b].word), head, 0)];
    if head == 0 then h else h[head := h[head].(prv := b)]
  }

  /** ins: block b goes to the head of the list of its class and both bits are set. */
  function Inserted(g: Seg, b: nat): Seg
    requires b in g.hdr && Bsz(g.hdr[b].word) > 0 && |g.fl| == |g.lists| == CLASSES && |g.slbmp| == MAX_FL
    requires g.fl[SlotOf(g.hdr, b)] != 0 ==> g.fl[SlotOf(g.hdr, b)] in g.hdr
  {
    var q, c := SlotOf(g.hdr, b), Map(Bsz(g.hdr[b].word));
    Seg(InsHeaders(g.hdr, b, g.fl[q]), g.fl[q := b], Set(g.flbmp, c.f), g.slbmp[c.f := Set(g.slbmp[c.f], c.s)],
        g.lists[q := [b] + g.lists[q]])
  }

  lemma HeadIn(g: Seg, q: nat)
    requires Chains(g) && q < CLASSES
    ensures g.fl[q] != 0 ==> g.fl[q] in g.hdr
    ensures g.lists[q] == [] <==> g.fl[q] == 0
    ensures g.lists[q] != [] ==> g.fl[q] == g.lists[q][0]
  {
    assert Chain(g.hdr, g.fl[q], g.lists[q], q);
    assert g.lists[q] != [] ==> EntryAt(g.hdr, g.lists[q], q, 0);
  }

  /** What the headers of ins say of each block. */
  lemma InsHeaderAt(hdr: map<nat, Header>, b: nat, head: nat, a: nat)
    requires b in hdr && (head != 0 ==> head in hdr) && b != head && a in hdr && a != 0
    ensures a in InsHeaders(hdr, b, head)
    ensures InsHeaders(hdr, b, head)[a] ==
            if a == b then Header(WithFree(hdr[b].word), head, 0)
            else if a == head then hdr[a].(prv := b) else hdr[a]
  {
  }

  lemma InsChain(hdr: map<nat, Header>, b: nat, head: nat, list: seq<nat>, q: nat)
    requires Chain(hdr, head, list, q) && b in hdr && b != 0 && b !in list && (head != 0 ==> head in hdr)
    requires Bsz(hdr[b].word) > 0 && Slot(Bsz(hdr[b].word)) == q
    ensures Chain(InsHeaders(hdr, b, head), b, [b] + list, q)
  {
    var list', hdr' := [b] + list, InsHeaders(hdr, b, head);
    assert list != [] ==> head in list;
    forall k | 0 <= k < |list'| ensures EntryAt(hdr', list', q, k) {
      BitKept(hdr[b].word);
      if k == 0 {
        InsHeaderAt(hdr, b, head, b);
      } else {
        assert EntryAt(hdr, list, q, k - 1) && list[k - 1] in list;
        InsHeaderAt(hdr, b, head, list[k - 1]);
        assert k > 1 ==> list[k - 1] != list[0];
      }
    }
  }

  /** A list whose entries keep their headers stays a chain. */
  lemma ChainFrame(hdr: map<nat, Header>, hdr': map<nat, Header>, head: nat, list: seq<nat>, q: nat)
    requires Chain(hdr, head, list, q)
    requires forall k | 0 <= k < |list| :: list[k] in hdr && list[k] in hdr' && hdr'[list[k]] == hdr[list[k]]
    ensures Chain(hdr', head, list, q)
  {
    forall k | 0 <= k < |list| ensures EntryAt(hdr', list, q, k) {
      assert EntryAt(hdr, list, q, k);
    }
  }

  lemma InsOtherChain(g: Seg, b: nat, r: nat)
    requires Chains(g) && r < CLASSES && b != 0 && b in g.hdr && Bsz(g.hdr[b].word) > 0 && r != SlotOf(g.hdr, b)
    requires b !in g.lists[SlotOf(g.hdr, b)] && (g.fl[SlotOf(g.hdr, b)] != 0 ==> g.fl[SlotOf(g.hdr, b)] in g.hdr)
    ensures Chain(InsHeaders(g.hdr, b, g.fl[SlotOf(g.hdr, b)]), g.fl[r], g.lists[r], r)
  {
    var q := SlotOf(g.hdr, b);
    var list, head := g.lists[r], g.fl[q];
    assert Chain(g.hdr, g.fl[r], list, r);
    HeadSlot(g, q);
    assert b != head;
    var hdr' := InsHeaders(g.hdr, b, head);
    forall k | 0 <= k < |list| ensures list[k] in g.hdr && list[k] in hdr' && hdr'[list[k]] == g.hdr[list[k]] {
      assert EntryAt(g.hdr, list, r, k);
      InsHeaderAt(g.hdr, b, head, list[k]);
    }
    ChainFrame(g.hdr, hdr', g.fl[r], list, r);
  }

  lemma HeadSlot(g: Seg, q: nat)
    requires Chains(g) && q < CLASSES
    ensures g.fl[q] != 0 ==> (g.fl[q] in g.hdr && Bsz(g.hdr[g.fl[q]].word) > 0 && SlotOf(g.hdr, g.fl[q]) == q &&
            g.fl[q] in g.lists[q])
  {
    assert Chain(g.hdr, g.fl[q], g.lists[q], q);
    assert g.lists[q] != [] ==> EntryAt(g.hdr, g.lists[q], q, 0);
  }

  lemma InsBits(flbmp: bits, slbmp: seq<bits>, lists: seq<seq<nat>>, c: Class, b: nat)
    requires Bits(flbmp, slbmp, lists) && c.f < MAX_FL && c.s < MAX_SL
    ensures Bits(Set(flbmp, c.f), slbmp[c.f := Set(slbmp[c.f], c.s)], lists[Index(c) := [b] + lists[Index(c)]])
  {
    var slbmp' := slbmp[c.f := Set(slbmp[c.f], c.s)];
    assert slbmp'[c.f][c.s];
    SecondLevel(slbmp, lists, c, slbmp'[c.f], [b] + lists[Index(c)]);
    forall f | 0 <= f < MAX_FL ensures Set(flbmp, c.f)[f] <==> !IsZero(slbmp'[f]) {
    }
  }

  lemma InsertedOk(g: Seg, b: nat)
    requires Ok(g) && b in g.hdr && b != 0 && Bsz(g.hdr[b].word) > 0 && b !in g.lists[SlotOf(g.hdr, b)]
    ensures g.fl[SlotOf(g.hdr, b)] != 0 ==> g.fl[SlotOf(g.hdr, b)] in g.hdr
    ensures Ok(Inserted(g, b))
  {
    var q := SlotOf(g.hdr, b);
    HeadIn(g, q);
    var g' := Inserted(g, b);
    forall r | 0 <= r < CLASSES ensures Chain(g'.hdr, g'.fl[r], g'.lists[r], r) {
      if r == q {
        assert Chain(g.hdr, g.fl[q], g.lists[q], q);
        InsChain(g.hdr, b, g.fl[q], g.lists[q], q);
      } else {
        InsOtherChain(g, b, r);
      }
    }
    InsBits(g.flbmp, g.slbmp, g.lists, Map(Bsz(g.hdr[b].word)), b);
  }

  // ---------- rem ----------

  function RemHeaders(hdr: map<nat, Header>, b: nat): map<nat, Header>
    requires b in hdr && (hdr[b].prv != 0 ==> hdr[b].prv in hdr) && (hdr[b].nxt != 0 ==> hdr[b].nxt in hdr)
  {
    var h := if hdr[b].prv != 0 then hdr[hdr[b].prv := hdr[hdr[b].prv].(nxt := hdr[b].nxt)] else hdr;
    var h2 := if hdr[b].nxt != 0 then h[hdr[b].nxt := h[hdr[b].nxt].(prv := hdr[b].prv)] else h;
    h2[b := h2[b].(word := NoFree(h2[b].word))]
  }

  /** b is entry k of the list of its class and its links lead to headers. */
  ghost predicate Listed(g: Seg, b: nat, k: nat) {
    && |g.fl| == |g.lists| == CLASSES && |g.slbmp| == MAX_FL
    && b in g.hdr && b != 0 && Bsz(g.hdr[b].word) > 0
    && k < |g.lists[SlotOf(g.hdr, b)]| && g.lists[SlotOf(g.hdr, b)][k] == b
    && (g.hdr[b].prv != 0 ==> g.hdr[b].prv in g.hdr) && (g.hdr[b].nxt != 0 ==> g.hdr[b].nxt in g.hdr)
    && g.hdr[b].nxt == Next(g.lists[SlotOf(g.hdr, b)], k) && g.hdr[b].prv == Prev(g.lists[SlotOf(g.hdr, b)], k)
  }

  /** rem: block b leaves its list; a list left empty clears its bit, a level left empty its own. */
  function Removed(g: Seg, b: nat, k: nat): Seg
    requires Listed(g, b, k)
  {
    var q, c := SlotOf(g.hdr, b), Map(Bsz(g.hdr[b].word));
    var list := Without(g.lists[q], k);
    var sl: bits := if list == [] then Clear(g.slbmp[c.f], c.s) else g.slbmp[c.f];
    Seg(RemHeaders(g.hdr, b), g.fl[q := if k > 0 then g.fl[q] else g.hdr[b].nxt],
        if list == [] && IsZero(sl) then Clear(g.flbmp, c.f) else g.flbmp,
        g.slbmp[c.f := sl], g.lists[q := list])
  }

  lemma EntryListed(g: Seg, q: nat, k: nat)
    requires Ok(g) && q < CLASSES && k < |g.lists[q]|
    ensures Listed(g, g.lists[q][k], k) && SlotOf(g.hdr, g.lists[q][k]) == q
  {
    var list := g.lists[q];
    assert Chain(g.hdr, g.fl[q], list, q) && EntryAt(g.hdr, list, q, k);
    assert k > 0 ==> EntryAt(g.hdr, list, q, k - 1);
    assert k + 1 < |list| ==> EntryAt(g.hdr, list, q, k + 1);
  }

  lemma RemHeaderAt(hdr: map<nat, Header>, b: nat, a: nat)
    requires b in hdr && (hdr[b].prv != 0 ==> hdr[b].prv in hdr) && (hdr[b].nxt != 0 ==> hdr[b].nxt in hdr)
    requires a in hdr && a != 0 && hdr[b].prv != b && hdr[b].nxt != b
    requires hdr[b].prv != 0 ==> hdr[b].prv != hdr[b].nxt
    ensures a in RemHeaders(hdr, b)
    ensures RemHeaders(hdr, b)[a] ==
            if a == b then hdr[b].(word := NoFree(hdr[b].word))
            else if a == hdr[b].prv then hdr[a].(nxt := hdr[b].nxt)
            else if a == hdr[b].nxt then hdr[a].(prv := hdr[b].prv) else hdr[a]
  {
  }

  lemma NeighboursDiffer(g: Seg, b: nat, k: nat)
    requires Chains(g) && Listed(g, b, k)
    ensures g.hdr[b].prv != b && g.hdr[b].nxt != b && (g.hdr[b].prv != 0 ==> g.hdr[b].prv != g.hdr[b].nxt)
    ensures g.hdr[b].prv != 0 <==> k > 0
    ensures g.hdr[b].prv != 0 ==> g.hdr[b].prv in g.lists[SlotOf(g.hdr, b)]
    ensures g.hdr[b].nxt != 0 ==> g.hdr[b].nxt in g.lists[SlotOf(g.hdr, b)]
  {
    var q := SlotOf(g.hdr, b);
    var list := g.lists[q];
    assert Chain(g.hdr, g.fl[q], list, q);
    assert k > 0 ==> EntryAt(g.hdr, list, q, k - 1);
  }

  lemma RemChain(g: Seg, b: nat, k: nat)
    requires Chains(g) && Listed(g, b, k)
    ensures var q := SlotOf(g.hdr, b);
      Chain(RemHeaders(g.hdr, b), if k > 0 then g.fl[q] else g.hdr[b].nxt, Without(g.lists[q], k), q)
  {
    var q := SlotOf(g.hdr, b);
    var list := g.lists[q];
    var list', hdr' := Without(list, k), RemHeaders(g.hdr, b);
    assert Chain(g.hdr, g.fl[q], list, q);
    WithoutMembers(list, k);
    NeighboursDiffer(g, b, k);
    forall j | 0 <= j < |list'| ensures EntryAt(hdr', list', q, j) {
      var o := if j < k then j else j + 1;
      assert EntryAt(g.hdr, list, q, o) && list[o] != list[k];
      RemHeaderAt(g.hdr, b, list[o]);
      assert k > 0 && o != k - 1 ==> list[o] != list[k - 1];
      assert k + 1 < |list| && o != k + 1 ==> list[o] != list[k + 1];
    }
  }

  lemma RemOtherChain(g: Seg, b: nat, k: nat, r: nat)
    requires Chains(g) && Listed(g, b, k) && r < CLASSES && r != SlotOf(g.hdr, b)
    ensures Chain(RemHeaders(g.hdr, b), g.fl[r], g.lists[r], r)
  {
    var q, list, hdr' := SlotOf(g.hdr, b), g.lists[r], RemHeaders(g.hdr, b);
    assert Chain(g.hdr, g.fl[r], list, r);
    NeighboursDiffer(g, b, k);
    forall j | 0 <= j < |list| ensures list[j] in g.hdr && list[j] in hdr' && hdr'[list[j]] == g.hdr[list[j]] {
      assert EntryAt(g.hdr, list, r, j);
      RemHeaderAt(g.hdr, b, list[j]);
      SlotsApart(g, q, list[j]);
    }
    ChainFrame(g.hdr, hdr', g.fl[r], list, r);
  }

  lemma SlotsApart(g: Seg, q: nat, a: nat)
    requires Chains(g) && q < CLASSES && a in g.hdr && Bsz(g.hdr[a].word) > 0 && SlotOf(g.hdr, a) != q
    ensures a !in g.lists[q]
  {
    var list := g.lists[q];
    assert Chain(g.hdr, g.fl[q], list, q);
    forall j | 0 <= j < |list| ensures list[j] != a {
      assert EntryAt(g.hdr, list, q, j);
    }
  }

  lemma RemBits(flbmp: bits, slbmp: seq<bits>, lists: seq<seq<nat>>, c: Class, k: nat)
    requires Bits(flbmp, slbmp, lists) && c.f < MAX_FL && c.s < MAX_SL && k < |lists[Index(c)]|
    ensures var list := Without(lists[Index(c)], k);
      var sl: bits := if list == [] then Clear(slbmp[c.f], c.s) else slbmp[c.f];
      Bits(if list == [] && IsZero(sl) then Clear(flbmp, c.f) else flbmp, slbmp[c.f := sl], lists[Index(c) := list])
  {
    var list := Without(lists[Index(c)], k);
    assert slbmp[c.f][c.s] && flbmp[c.f];
    var sl: bits := if list == [] then Clear(slbmp[c.f], c.s) else slbmp[c.f];
    assert list != [] ==> sl[c.s];
    SecondLevel(slbmp, lists, c, sl, list);
    var slbmp' := slbmp[c.f := sl];
    forall f | 0 <= f < MAX_FL
      ensures (if list == [] && IsZero(sl) then Clear(flbmp, c.f) else flbmp)[f] <==> !IsZero(slbmp'[f])
    {
    }
  }

  lemma SecondLevel(slbmp: seq<bits>, lists: seq<seq<nat>>, c: Class, sl: bits, list: seq<nat>)
    requires |slbmp| == MAX_FL && |lists| == CLASSES && c.f < MAX_FL && c.s < MAX_SL
    requires forall f, s | 0 <= f < MAX_FL && 0 <= s < MAX_SL :: slbmp[f][s] <==> lists[f * MAX_SL + s] != []
    requires forall s | 0 <= s < MAX_SL :: sl[s] == if s == c.s then list != [] else slbmp[c.f][s]
    ensures var slbmp', lists' := slbmp[c.f := sl], lists[Index(c) := list];
      forall f, s | 0 <= f < MAX_FL && 0 <= s < MAX_SL :: slbmp'[f][s] <==> lists'[f * MAX_SL + s] != []
  {
    var slbmp', lists' := slbmp[c.f := sl], lists[Index(c) := list];
    forall f, s | 0 <= f < MAX_FL && 0 <= s < MAX_SL ensures slbmp'[f][s] <==> lists'[f * MAX_SL + s] != [] {
      if f != c.f {
        assert slbmp'[f] == slbmp[f] && f * MAX_SL + s != Index(c);
      } else if s != c.s {
        assert slbmp[f][s] <==> lists[f * MAX_SL + s] != [];
      }
    }
  }

  lemma RemovedOk(g: Seg, b: nat, k: nat)
    requires Ok(g) && Listed(g, b, k)
    ensures Ok(Removed(g, b, k))
  {
    var q, g' := SlotOf(g.hdr, b), Removed(g, b, k);
    forall r | 0 <= r < CLASSES ensures Chain(g'.hdr, g'.fl[r], g'.lists[r], r) {
      if r == q {
        RemChain(g, b, k);
      } else {
        RemOtherChain(g, b, k, r);
      }
    }
    RemBits(g.flbmp, g.slbmp, g.lists, Map(Bsz(g.hdr[b].word)), k);
  }

  // ---------- find ----------

  /** q is the first class at or above that of n whose list has a block. */
  ghost predicate Best(lists: seq<seq<nat>>, n: nat, q: nat)
    requires n > 0 && |lists| == CLASSES
  {
    Slot(n) <= q < CLASSES && lists[q] != [] && forall r | Slot(n) <= r < q :: lists[r] == []
  }

  ghost predicate NoneFits(lists: seq<seq<nat>>, n: nat)
    requires n > 0 && |lists| == CLASSES
  {
    forall r | Slot(n) <= r < CLASSES :: lists[r] == []
  }

  /** The second level of the request's own level has a bit at or above it: that bit is the best class. */
  lemma BestSameLevel(g: Seg, n: nat)
    requires Bits(g.flbmp, g.slbmp, g.lists) && n > 0 && !IsZero(From(g.slbmp[Map(n).f], Map(n).s))
    ensures var s := Lowest(From(g.slbmp[Map(n).f], Map(n).s)); s < MAX_SL && Best(g.lists, n, Map(n).f * MAX_SL + s)
  {
    var c := Map(n);
    var sm := From(g.slbmp[c.f], c.s);
    var s := Lowest(sm);
    assert g.slbmp[c.f][s] && s >= c.s;
    var q := c.f * MAX_SL + s;
    forall r | Slot(n) <= r < q ensures g.lists[r] == [] {
      var k := r - c.f * MAX_SL;
      assert c.s <= k < s && !sm[k] && !g.slbmp[c.f][k];
    }
  }

  lemma LevelEmpty(g: Seg, f: nat, r: nat)
    requires Bits(g.flbmp, g.slbmp, g.lists) && f < MAX_FL && !g.flbmp[f] && f * MAX_SL <= r < (f + 1) * MAX_SL
    ensures g.lists[r] == []
  {
    var k := r - f * MAX_SL;
    assert !g.slbmp[f][k];
  }

  lemma RestOfLevelEmpty(g: Seg, n: nat, r: nat)
    requires Bits(g.flbmp, g.slbmp, g.lists) && n > 0 && IsZero(From(g.slbmp[Map(n).f], Map(n).s))
    requires Slot(n) <= r < (Map(n).f + 1) * MAX_SL
    ensures g.lists[r] == []
  {
    var c := Map(n);
    var k := r - c.f * MAX_SL;
    assert !From(g.slbmp[c.f], c.s)[k];
    assert !g.slbmp[c.f][k];
  }

  lemma Level(r: nat)
    requires r < CLASSES
    ensures r / 8 < MAX_FL && r / 8 * MAX_SL <= r < (r / 8 + 1) * MAX_SL
  {
  }

  lemma LevelsBetweenEmpty(g: Seg, n: nat, f: nat, r: nat)
    requires Bits(g.flbmp, g.slbmp, g.lists) && n > 0 && IsZero(From(g.slbmp[Map(n).f], Map(n).s))
    requires Map(n).f < f < MAX_FL && forall j | Map(n).f < j < f :: !g.flbmp[j]
    requires Slot(n) <= r < f * MAX_SL
    ensures g.lists[r] == []
  {
    if r < (Map(n).f + 1) * MAX_SL {
      RestOfLevelEmpty(g, n, r);
    } else {
      Level(r);
      LevelEmpty(g, r / 8, r);
    }
  }

  lemma LaterIsBest(g: Seg, n: nat, f: nat, s: nat)
    requires Bits(g.flbmp, g.slbmp, g.lists) && n > 0 && IsZero(From(g.slbmp[Map(n).f], Map(n).s))
    requires Map(n).f < f < MAX_FL && forall j | Map(n).f < j < f :: !g.flbmp[j]
    requires s < MAX_SL && g.slbmp[f][s] && forall j | 0 <= j < s :: !g.slbmp[f][j]
    ensures Best(g.lists, n, f * MAX_SL + s)
  {
    forall r | Slot(n) <= r < f * MAX_SL + s ensures g.lists[r] == [] {
      if r < f * MAX_SL {
        LevelsBetweenEmpty(g, n, f, r);
      } else {
        assert !g.slbmp[f][r - f * MAX_SL];
      }
    }
  }

  /** Otherwise the first level decides: the next level with a bit, and its lowest bit. */
  lemma BestLaterLevel(g: Seg, n: nat)
    requires Bits(g.flbmp, g.slbmp, g.lists) && n > 0 && IsZero(From(g.slbmp[Map(n).f], Map(n).s))
    requires !IsZero(From(g.flbmp, Map(n).f + 1))
    ensures var f := Lowest(From(g.flbmp, Map(n).f + 1));
      f < MAX_FL && !IsZero(g.slbmp[f]) && Lowest(g.slbmp[f]) < MAX_SL &&
          Best(g.lists, n, f * MAX_SL + Lowest(g.slbmp[f]))
  {
    var fm := From(g.flbmp, Map(n).f + 1);
    var f := Lowest(fm);
    assert g.flbmp[f] && f > Map(n).f;
    forall j | Map(n).f < j < f ensures !g.flbmp[j] {
      assert !fm[j];
    }
    assert g.slbmp[f][Lowest(g.slbmp[f])];
    LaterIsBest(g, n, f, Lowest(g.slbmp[f]));
  }

  lemma NoLevelLeft(g: Seg, n: nat)
    requires Bits(g.flbmp, g.slbmp, g.lists) && n > 0 && IsZero(From(g.slbmp[Map(n).f], Map(n).s))
    requires IsZero(From(g.flbmp, Map(n).f + 1))
    ensures NoneFits(g.lists, n)
  {
    var c := Map(n);
    forall r | Slot(n) <= r < CLASSES ensures g.lists[r] == [] {
      if r < (c.f + 1) * MAX_SL {
        RestOfLevelEmpty(g, n, r);
      } else {
        Level(r);
        assert !From(g.flbmp, c.f + 1)[r / 8];
        LevelEmpty(g, r / 8, r);
      }
    }
  }

  /** The class position that find reads off the bitmaps, -1 when there is none. */
  function Picked(flbmp: bits, slbmp: seq<bits>, n: nat): int
    requires n > 0 && |slbmp| == MAX_FL
  {
    var c := Map(n);
    var sm := From(slbmp[c.f], c.s);
    if !IsZero(sm) then c.f * MAX_SL + Lowest(sm)
    else
      var fm := From(flbmp, c.f + 1);
      if IsZero(fm) || Lowest(fm) >= MAX_FL || IsZero(slbmp[Lowest(fm)]) then -1
      else Lowest(fm) * MAX_SL + Lowest(slbmp[Lowest(fm)])
  }

  /** It is the first class at or above the request's with a block. */
  lemma PickedIsBest(g: Seg, n: nat)
    requires Bits(g.flbmp, g.slbmp, g.lists) && n > 0
    ensures Picked(g.flbmp, g.slbmp, n) < 0 <==> NoneFits(g.lists, n)
    ensures Picked(g.flbmp, g.slbmp, n) >= 0 ==> Best(g.lists, n, Picked(g.flbmp, g.slbmp, n))
  {
    if !IsZero(From(g.slbmp[Map(n).f], Map(n).s)) {
      PickedSame(g, n);
    } else if IsZero(From(g.flbmp, Map(n).f + 1)) {
      NoLevelLeft(g, n);
    } else {
      PickedLater(g, n);
    }
  }

  lemma PickedSame(g: Seg, n: nat)
    requires Bits(g.flbmp, g.slbmp, g.lists) && n > 0 && !IsZero(From(g.slbmp[Map(n).f], Map(n).s))
    ensures Picked(g.flbmp, g.slbmp, n) >= 0 && Best(g.lists, n, Picked(g.flbmp, g.slbmp, n)) && !NoneFits(g.lists, n)
  {
    BestSameLevel(g, n);
    BestFits(g.lists, n, Picked(g.flbmp, g.slbmp, n));
  }

  lemma PickedLater(g: Seg, n: nat)
    requires Bits(g.flbmp, g.slbmp, g.lists) && n > 0 && IsZero(From(g.slbmp[Map(n).f], Map(n).s))
    requires !IsZero(From(g.flbmp, Map(n).f + 1))
    ensures Picked(g.flbmp, g.slbmp, n) >= 0 && Best(g.lists, n, Picked(g.flbmp, g.slbmp, n)) && !NoneFits(g.lists, n)
  {
    BestLaterLevel(g, n);
    BestFits(g.lists, n, Picked(g.flbmp, g.slbmp, n));
  }

  lemma BestFits(lists: seq<seq<nat>>, n: nat, q: nat)
    requires n > 0 && |lists| == CLASSES && Best(lists, n, q)
    ensures !NoneFits(lists, n)
  {
    assert lists[q] != [];
  }

  /** The levels that find looks up are there. */
  lemma PickedLevels(g: Seg, n: nat)
    requires Bits(g.flbmp, g.slbmp, g.lists) && n > 0
    ensures var sm, fm := From(g.slbmp[Map(n).f], Map(n).s), From(g.flbmp, Map(n).f + 1);
      IsZero(sm) && !IsZero(fm) ==> Lowest(fm) < MAX_FL && !IsZero(g.slbmp[Lowest(fm)])
  {
    if IsZero(From(g.slbmp[Map(n).f], Map(n).s)) && !IsZero(From(g.flbmp, Map(n).f + 1)) {
      BestLaterLevel(g, n);
    }
  }
}
