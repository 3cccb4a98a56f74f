/**
  The write-back block cache of fs/nfs.c over a flash whose sectors may have to be erased
  before they are written: eight slots that refine a plain array of blocks.
*/
module BlockCache {
  import opened Bytes

  const BLK_SZ: nat := 4096
  const BLKS: nat := 2048
  const CACHE_N: nat := 8

  type Block = b: seq<byte> | |b| == BLK_SZ witness seq(BLK_SZ, _ => 0)
  type uint64 = n: nat | n <= 0xFFFF_FFFF_FFFF_FFFF

  const ERASED: Block := seq(BLK_SZ, _ => 0xFF)

  function Programmed(program: (byte, byte) -> byte, was: Block, d: Block): Block {
    seq(BLK_SZ, i requires 0 <= i < BLK_SZ => program(was[i], d[i]))
  }

  class Flash {
    /** What a cell holding the first byte shows after the second one is written over it. */
    const program: (byte, byte) -> byte
    var sectors: seq<Block>

    ghost predicate Valid()
      reads this
    {
      |sectors| == BLKS && forall x {:trigger program(0xFF, x)} :: program(0xFF, x) == x
    }

    constructor (program: (byte, byte) -> byte, sectors: seq<Block>)
      requires |sectors| == BLKS && forall x {:trigger program(0xFF, x)} :: program(0xFF, x) == x
      ensures Valid() && this.program == program && this.sectors == sectors
    {
      this.program, this.sectors := program, sectors;
    }

    method EraseSector(b: nat)
      requires Valid() && b < BLKS
      modifies this
      ensures Valid() && sectors == old(sectors)[b := ERASED]
    {
      sectors := sectors[b := ERASED];
    }

    method Write(b: nat, d: Block)
      requires Valid() && b < BLKS
      modifies this
      ensures Valid()
      ensures sectors == old(sectors)[b := Programmed(program, old(sectors)[b], d)]
    {
      sectors := sectors[b := Programmed(program, sectors[b], d)];
    }
  }

  datatype Entry = Entry(blk: nat, dirty: bool, valid: bool, lu: uint64, buf: Block)

  /** How a flash_read ends: with the sector, or with an error and something else in the buffer. */
  datatype Io = Ok | Failed(left: Block)

  // ---------- what the slots stand for ----------

  predicate Holds(e: Entry, b: nat) {
    e.valid && e.blk == b
  }

  /** The slot holding block b, or -1. */
  function Slot(es: seq<Entry>, b: nat): (i: int)
    ensures -1 <= i < |es|
    ensures i >= 0 ==> Holds(es[i], b)
    ensures i < 0 ==> forall j | 0 <= j < |es| :: !Holds(es[j], b)
  {
    if es == [] then -1
    else
      var last := |es| - 1;
      if Holds(es[last], b) then last else Slot(es[..last], b)
  }

  /** The cached copy of block b if there is one, otherwise its sector. */
  function View(es: seq<Entry>, sectors: seq<Block>, b: nat): Block
    requires b < |sectors|
  {
    var i := Slot(es, b);
    if i >= 0 then es[i].buf else sectors[b]
  }

  function Views(es: seq<Entry>, sectors: seq<Block>): seq<Block> {
    seq(|sectors|, b requires 0 <= b < |sectors| => View(es, sectors, b))
  }

  /** No block is cached twice, and a clean copy is a copy. */
  ghost predicate Coherent(es: seq<Entry>, sectors: seq<Block>) {
    && |es| == CACHE_N
    && (forall i, j | 0 <= i < j < |es| && es[i].valid && es[j].valid :: es[i].blk != es[j].blk)
    && (forall i | 0 <= i < |es| && es[i].valid :: es[i].blk < |sectors|)
    && (forall i | 0 <= i < |es| && es[i].valid && !es[i].dirty :: es[i].buf == sectors[es[i].blk])
  }

  lemma ViewIs(es: seq<Entry>, sectors: seq<Block>, i: nat)
    requires Coherent(es, sectors) && i < |es| && es[i].valid
    ensures View(es, sectors, es[i].blk) == es[i].buf
  {
  }

  lemma ViewOutside(es: seq<Entry>, sectors: seq<Block>, b: nat)
    requires b < |sectors| && forall i | 0 <= i < |es| :: !Holds(es[i], b)
    ensures View(es, sectors, b) == sectors[b]
  {
  }

  /** Writing a dirty slot back changes neither what is coherent nor what any block reads as. */
  lemma WriteBackKeepsViews(es: seq<Entry>, sectors: seq<Block>, v: nat)
    requires Coherent(es, sectors) && v < |es| && es[v].valid
    ensures var es', sectors' := es[v := es[v].(dirty := false)], sectors[es[v].blk := es[v].buf];
      Coherent(es', sectors') && Views(es', sectors') == Views(es, sectors)
  {
    var es', sectors' := es[v := es[v].(dirty := false)], sectors[es[v].blk := es[v].buf];
    assert Coherent(es', sectors');
    forall b | 0 <= b < |sectors| ensures View(es', sectors', b) == View(es, sectors, b) {
      var i := Slot(es, b);
      if i >= 0 {
        ViewIs(es', sectors', i);
      } else {
        ViewOutside(es', sectors', b);
      }
    }
  }

  /**
    Putting e into slot v: either v already holds e's block, or nobody does and v may be dropped.
    Afterwards e's block reads as e's buffer and every other block as before.
  */
  lemma StoreSetsView(es: seq<Entry>, sectors: seq<Block>, v: nat, e: Entry)
    requires Coherent(es, sectors) && v < |es|
    requires e.valid && e.blk < |sectors| && (!e.dirty ==> e.buf == sectors[e.blk])
    requires Holds(es[v], e.blk) || (Slot(es, e.blk) < 0 && !(es[v].valid && es[v].dirty))
    ensures Coherent(es[v := e], sectors)
    ensures Views(es[v := e], sectors) == Views(es, sectors)[e.blk := e.buf]
  {
    var es' := es[v := e];
    assert Coherent(es', sectors);
    forall b | 0 <= b < |sectors|
      ensures View(es', sectors, b) == if b == e.blk then e.buf else View(es, sectors, b)
    {
      if b == e.blk {
        ViewIs(es', sectors, v);
      } else {
        var i := Slot(es, b);
        if i >= 0 && i != v {
          ViewIs(es', sectors, i);
        } else {
          ViewOutside(es', sectors, b);
        }
      }
    }
  }

  // ---------- the victim ----------

  ghost predicate Oldest(es: seq<Entry>, i: int) {
    && 0 <= i < |es|
    && (forall j | 0 <= j < |es| :: es[i].lu <= es[j].lu)
    && (forall j | 0 <= j < i :: es[i].lu < es[j].lu)
  }

  /** The first slot not in use, or, when all are, the first of the least recently used ones. */
  ghost predicate IsVictim(es: seq<Entry>, i: int) {
    && 0 <= i < |es|
    && if exists j :: 0 <= j < |es| && !es[j].valid
       then !es[i].valid && forall j | 0 <= j < i :: es[j].valid
       else Oldest(es, i)
  }

  lemma VictimUnique(es: seq<Entry>, i: int, j: int)
    requires IsVictim(es, i) && IsVictim(es, j)
    ensures i == j
  {
  }

  /** One slot changed: it now holds block b with time stamp now, and it held b before or was the victim. */
  ghost predicate UsedNow(es: seq<Entry>, es': seq<Entry>, b: nat, now: uint64) {
    && |es| == |es'|
    && exists i | 0 <= i < |es| ::
         Holds(es'[i], b) && es'[i].lu == now && es' == es[i := es'[i]] && (Holds(es[i], b) || IsVictim(es, i))
  }

  /** Evicting slot v writes flash: it holds a block that was changed since it was read. */
  predicate WritesBack(es: seq<Entry>, v: int) {
    0 <= v < |es| && es[v].valid && es[v].dirty
  }

  /** Flash after block b was used: only a miss writes, and only the victim's changed block. */
  ghost predicate FlashAfter(es: seq<Entry>, sectors: seq<Block>, b: nat, sectors': seq<Block>) {
    if exists i | 0 <= i < |es| :: Holds(es[i], b) then sectors' == sectors
    else forall v | IsVictim(es, v) ::
      sectors' == if WritesBack(es, v) && es[v].blk < |sectors| then sectors[es[v].blk := es[v].buf] else sectors
  }

  /** The slot of block b is marked as changed or not. */
  predicate Dirty(es: seq<Entry>, b: nat, dirty: bool) {
    forall i | 0 <= i < |es| && Holds(es[i], b) :: es[i].dirty == dirty
  }

  /** A failed read does no harm when the victim's slot was empty, or got its own contents back. */
  ghost predicate FailureHarmless(es: seq<Entry>, left: Block) {
    forall v | IsVictim(es, v) :: !es[v].valid || es[v].buf == left
  }

  lemma VictimOnly(es: seq<Entry>, v: int)
    requires IsVictim(es, v)
    ensures forall j | IsVictim(es, j) :: j == v
  {
  }

  lemma SpoiledSlot(es: seq<Entry>, sectors: seq<Block>, v: nat, left: Block)
    requires Coherent(es, sectors) && v < |es| && !(es[v].valid && es[v].dirty)
    ensures var es' := es[v := es[v].(buf := left)];
      (Coherent(es', sectors) && Views(es', sectors) == Views(es, sectors))
        <==> (!es[v].valid || es[v].buf == left)
  {
    var es' := es[v := es[v].(buf := left)];
    if es[v].valid {
      if Coherent(es', sectors) {
        ViewIs(es, sectors, v);
        ViewIs(es', sectors, v);
        assert Views(es', sectors)[es[v].blk] == left;
        assert Views(es, sectors)[es[v].blk] == es[v].buf;
      }
      if es[v].buf == left {
        assert es' == es;
      }
    } else {
      forall b | 0 <= b < |sectors| ensures View(es', sectors, b) == View(es, sectors, b) {
        var i := Slot(es, b);
        if i >= 0 {
          ViewIs(es', sectors, i);
        } else {
          ViewOutside(es', sectors, b);
        }
      }
    }
  }

  class Cache {
    const flash: Flash
    const slots: array<Entry>
    var hits: nat
    var misses: nat
    var erases: nat

    ghost predicate Valid()
      reads this, flash, slots
    {
      flash.Valid() && Coherent(slots[..], flash.sectors)
    }

    ghost function Blocks(): (v: seq<Block>)
      reads flash, slots
    {
      Views(slots[..], flash.sectors)
    }

    /** nfs_mount: every slot starts empty, whatever the buffers hold. */
    constructor (flash: Flash)
      requires flash.Valid()
      ensures Valid() && this.flash == flash && fresh(slots)
      ensures forall i | 0 <= i < CACHE_N :: !slots[i].valid
      ensures Blocks() == flash.sectors
    {
      this.flash := flash;
      slots := new Entry[CACHE_N](_ => Entry(0, false, false, 0, seq(BLK_SZ, _ => 0)));
      hits, misses, erases := 0, 0, 0;
    }

    method Find(b: nat) returns (i: int)
      requires slots.Length == CACHE_N
      ensures -1 <= i < CACHE_N
      ensures i >= 0 ==> Holds(slots[i], b)
      ensures i < 0 ==> forall j | 0 <= j < CACHE_N :: !Holds(slots[j], b)
    {
      for k := 0 to CACHE_N
        invariant forall j | 0 <= j < k :: !Holds(slots[j], b)
      {
        if slots[k].valid && slots[k].blk == b {
          return k;
        }
      }
      return -1;
    }

    method Evict() returns (best: nat)
      requires Valid()
      modifies this`erases, flash, slots
      ensures Valid() && Blocks() == old(Blocks())
      ensures IsVictim(old(slots[..]), best)
      ensures slots[..] == old(slots[..])[best := old(slots[best]).(dirty := slots[best].dirty)]
      ensures slots[best].valid ==> !slots[best].dirty
      ensures flash.sectors == if WritesBack(old(slots[..]), best)
              then old(flash.sectors)[old(slots[best].blk) := old(slots[best].buf)] else old(flash.sectors)
      ensures erases == old(erases) + if WritesBack(old(slots[..]), best) then 1 else 0
    {
      var ot: uint64 := 0xFFFF_FFFF_FFFF_FFFF;
      best := 0;
      for i := 0 to CACHE_N
        invariant forall j | 0 <= j < i :: slots[j].valid
        invariant best < CACHE_N && (i == 0 ==> best == 0)
        invariant i > 0 ==> best < i && forall j | 0 <= j < i :: slots[best].lu <= slots[j].lu
        invariant i > 0 ==> forall j | 0 <= j < best :: slots[best].lu < slots[j].lu
        invariant ot == 0xFFFF_FFFF_FFFF_FFFF || ot == slots[best].lu
        invariant i > 0 ==> ot == slots[best].lu
      {
        if !slots[i].valid {
          return i;
        }
        if slots[i].lu < ot {
          ot := slots[i].lu;
          best := i;
        }
      }
      if slots[best].dirty {
        WriteBack(best);
      }
    }

    /** Erase, then write: only an erased sector takes any bytes as they are. */
    method WriteBack(v: nat)
      requires Valid() && v < CACHE_N && slots[v].valid
      modifies this`erases, flash, slots
      ensures Valid() && Blocks() == old(Blocks())
      ensures slots[..] == old(slots[..])[v := old(slots[v]).(dirty := false)]
      ensures flash.sectors == old(flash.sectors)[old(slots[v].blk) := old(slots[v].buf)] && erases == old(erases) + 1
    {
      ghost var es, sectors := slots[..], flash.sectors;
      var b := slots[v].blk;
      flash.EraseSector(b);
      flash.Write(b, slots[v].buf);
      assert flash.sectors[b] == slots[v].buf;
      assert flash.sectors == sectors[b := es[v].buf];
      slots[v] := slots[v].(dirty := false);
      erases := erases + 1;
      WriteBackKeepsViews(es, sectors, v);
    }

    /** rblk: read a block through the cache at time now. */
    method ReadBlock(b: nat, io: Io, now: uint64) returns (ok: bool, d: Block)
      requires Valid() && b < BLKS
      modifies this, flash, slots
      ensures ok == (io.Ok? || Slot(old(slots[..]), b) >= 0)
      ensures ok ==> Valid() && d == old(Blocks())[b] && Blocks() == old(Blocks())
      ensures ok ==> UsedNow(old(slots[..]), slots[..], b, now)
      ensures FlashAfter(old(slots[..]), old(flash.sectors), b, flash.sectors)
      ensures Slot(old(slots[..]), b) >= 0 ==> Dirty(slots[..], b, old(slots[..])[Slot(old(slots[..]), b)].dirty)
      ensures ok && Slot(old(slots[..]), b) < 0 ==> Dirty(slots[..], b, false)
      ensures !ok ==> FailureHarmless(old(slots[..]), io.left) == (Valid() && Blocks() == old(Blocks()))
    {
      var i := Find(b);
      if i >= 0 {
        hits := hits + 1;
        d := slots[i].buf;
        StoreSetsView(slots[..], flash.sectors, i, slots[i].(lu := now));
        slots[i] := slots[i].(lu := now);
        assert Holds(slots[..][i], b);
        return true, d;
      }
      misses := misses + 1;
      ok, d := Fetch(b, io, now);
    }

    /** The miss: flash_read goes straight into the victim's buffer, under the victim's old tag. */
    method Fetch(b: nat, io: Io, now: uint64) returns (ok: bool, d: Block)
      requires Valid() && b < BLKS && Slot(slots[..], b) < 0
      modifies this`erases, flash, slots
      ensures ok == io.Ok?
      ensures ok ==> Valid() && d == old(Blocks())[b] && Blocks() == old(Blocks())
      ensures ok ==> UsedNow(old(slots[..]), slots[..], b, now)
      ensures FlashAfter(old(slots[..]), old(flash.sectors), b, flash.sectors)
      ensures ok ==> Dirty(slots[..], b, false)
      ensures !ok ==> FailureHarmless(old(slots[..]), io.left) == (Valid() && Blocks() == old(Blocks()))
    {
      var v := Evict();
      VictimOnly(old(slots[..]), v);
      ghost var es := slots[..];
      if io.Ok? {
        var e := Entry(b, false, true, now, flash.sectors[b]);
        ViewOutside(es, flash.sectors, b);
        StoreSetsView(es, flash.sectors, v, e);
        slots[v] := e;
        assert Holds(slots[..][v], b);
        return true, slots[v].buf;
      }
      SpoiledSlot(es, flash.sectors, v, io.left);
      d := slots[v].buf;
      slots[v] := slots[v].(buf := io.left);
      return false, d;
    }

    /** wblk: the block takes the new contents in the cache; flash hears of it on eviction. */
    method WriteBlock(b: nat, d: Block, now: uint64)
      requires Valid() && b < BLKS
      modifies this, flash, slots
      ensures Valid() && Blocks() == old(Blocks())[b := d]
      ensures UsedNow(old(slots[..]), slots[..], b, now) && Dirty(slots[..], b, true)
      ensures FlashAfter(old(slots[..]), old(flash.sectors), b, flash.sectors)
    {
      var i := Find(b);
      var v: nat;
      if i < 0 {
        v := Evict();
        VictimOnly(old(slots[..]), v);
      } else {
        v := i;
      }
      var e := Entry(b, true, true, now, d);
      StoreSetsView(slots[..], flash.sectors, v, e);
      slots[v] := e;
      assert Holds(slots[..][v], b);
    }
  }
}
