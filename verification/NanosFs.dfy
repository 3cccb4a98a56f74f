/**
  fs/nfs.c over one mounted session: format, open, read, write and close on the block cache,
  the bitmaps, the descriptor table and the inode table.
*/
module NanosFs {
  import opened Bytes
  import opened BlockCache
  import opened FileModel
  import opened NameModel

  /** The superblock as the last format left it on flash; nothing else ever writes it. */
  datatype Saved = Blank | Superblock(blkbmp: seq<bool>, inobmp: seq<bool>, fblks: nat, finodes: nat)

  /** What survives a restart. */
  class Media {
    const flash: Flash
    var table: seq<Inode>     // inode area of the flash
    var saved: Saved

    constructor (flash: Flash, table: seq<Inode>, saved: Saved)
      ensures this.flash == flash && this.table == table && this.saved == saved
    {
      this.flash, this.table, this.saved := flash, table, saved;
    }
  }

  ghost predicate SavedOk(s: Saved) {
    s.Superblock? ==>
      && |s.blkbmp| == DATA_BLKS && |s.inobmp| == INODES
      && (forall d | 0 <= d < DATA_BLKS :: !s.blkbmp[d]) && (forall i | 0 <= i < INODES :: !s.inobmp[i])
      && s.fblks == DATA_BLKS && s.finodes == INODES
  }

  class FileSystem {
    const media: Media
    const cache: Cache
    const blkbmp: array<bool>
    const inobmp: array<bool>
    const fds: array<Fd>
    var fblks: nat
    var finodes: nat
    ghost var owner: seq<Owner>

    // ---------- state ----------

    ghost predicate Shape()
      reads this
    {
      && cache.flash == media.flash && blkbmp != inobmp
      && blkbmp.Length == DATA_BLKS && inobmp.Length == INODES && fds.Length == MAX_FDS
    }

    ghost function State(): Names
      reads media, inobmp, fds
    {
      Names(inobmp[..], media.table, fds[..])
    }

    ghost function BooksWith(t: seq<Inode>): Books
      reads this, blkbmp, inobmp
    {
      Books(blkbmp[..], inobmp[..], t, owner, fblks)
    }

    /** Everything but the descriptors, reading inodes from table t. */
    ghost predicate Storage(t: seq<Inode>)
      reads this, media, media.flash, cache, cache.slots, blkbmp, inobmp
    {
      && Shape() && cache.Valid() && SavedOk(media.saved)
      && Balanced(BooksWith(t)) && finodes == CountFree(inobmp[..]) && FrontFilled(inobmp[..])
    }

    ghost predicate Valid()
      reads this, media, media.flash, cache, cache.slots, blkbmp, inobmp, fds
    {
      Storage(media.table) && Descriptors(State())
    }

    /** The bytes of an inode whose blocks are present. */
    ghost function Bytes(ino: Inode): seq<byte>
      requires Readable(ino) && cache.flash.Valid()
      reads cache.flash, cache.slots
    {
      Content(ino, cache.Blocks())
    }

    // ---------- mount and format ----------

    /** nfs_mount on a started machine: an empty cache, and the superblock as it was saved. */
    constructor Mount(media: Media)
      requires media.flash.Valid() && SavedOk(media.saved) && |media.table| == INODES
      modifies media, media.flash
      ensures Valid() && this.media == media
      ensures fresh(cache) && fresh(cache.slots) && fresh(blkbmp) && fresh(inobmp) && fresh(fds)
      ensures forall path :: Lookup(inobmp[..], media.table, path) < 0
      ensures fblks == 1967 && finodes == 512 && forall f | 0 <= f < MAX_FDS :: !fds[f].open
      ensures old(media.saved).Superblock? ==> media.table == old(media.table)
    {
      this.media := media;
      cache := new Cache(media.flash);
      blkbmp := new bool[DATA_BLKS](_ => false);
      inobmp := new bool[INODES](_ => false);
      fds := new Fd[MAX_FDS](_ => Fd(false, NewInode(0, "", 0), 0, 0));
      fblks, finodes := DATA_BLKS, INODES;
      owner := seq(DATA_BLKS, _ => Nobody);
      new;
      assert Coherent(cache.slots[..], media.flash.sectors);
      Restore();
    }

    /** The superblock as it was saved, or a new one when there is none. */
    method Restore()
      requires Shape() && cache.Valid() && CleanErased() && SavedOk(media.saved) && |media.table| == INODES
      requires owner == seq(DATA_BLKS, _ => Nobody) && forall f | 0 <= f < MAX_FDS :: !fds[f].open
      modifies this`fblks, this`finodes, this`owner, media, media.flash, blkbmp, inobmp
      ensures Valid() && fblks == DATA_BLKS && finodes == INODES
      ensures forall path :: Lookup(inobmp[..], media.table, path) < 0
      ensures old(media.saved).Superblock? ==> media.table == old(media.table)
    {
      if media.saved.Superblock? {
        Load();
        NoneOpenIff(State());
      } else {
        Format();
      }
    }

    /** The superblock as saved, before anything is allocated. */
    method Load()
      requires Shape() && media.saved.Superblock? && SavedOk(media.saved) && |media.table| == INODES
      requires owner == seq(DATA_BLKS, _ => Nobody)
      modifies this`fblks, this`finodes, blkbmp, inobmp
      ensures Shape() && media.saved == Superblock(blkbmp[..], inobmp[..], fblks, finodes)
      ensures fblks == DATA_BLKS && finodes == INODES
      ensures Balanced(BooksWith(media.table)) && finodes == CountFree(inobmp[..]) && FrontFilled(inobmp[..])
      ensures forall path :: Lookup(inobmp[..], media.table, path) < 0
      ensures forall i | 0 <= i < INODES :: !inobmp[i]
    {
      forall d | 0 <= d < DATA_BLKS {
        blkbmp[d] := media.saved.blkbmp[d];
      }
      forall i | 0 <= i < INODES {
        inobmp[i] := media.saved.inobmp[i];
      }
      fblks, finodes := media.saved.fblks, media.saved.finodes;
      assert blkbmp[..] == media.saved.blkbmp && inobmp[..] == media.saved.inobmp;
      EmptyBooks(BooksWith(media.table));
      CountFreeAll(inobmp[..]);
    }

    /** No clean cached copy differs from an erased sector. */
    ghost predicate CleanErased()
      reads cache, cache.slots
    {
      forall i | 0 <= i < cache.slots.Length && cache.slots[i].valid && !cache.slots[i].dirty ::
        cache.slots[i].buf == ERASED
    }

    /**
      nfs_format, possibly in a session: every sector is erased and an empty superblock is saved. The cache and the
      descriptors stay as they are, so the session stays sound exactly when no file is open and no clean cached copy
      differs from an erased sector.
    */
    method Format()
      requires Shape() && cache.Valid() && |media.table| == INODES
      modifies this`fblks, this`finodes, this`owner, media, media.flash, blkbmp, inobmp
      ensures Shape() && |media.table| == INODES && cache.flash.Valid()
      ensures media.flash.sectors == seq(BLKS, _ => ERASED)
      ensures media.saved == Superblock(blkbmp[..], inobmp[..], fblks, finodes) && SavedOk(media.saved)
      ensures Balanced(BooksWith(media.table)) && finodes == CountFree(inobmp[..]) && FrontFilled(inobmp[..])
      ensures fblks == DATA_BLKS && finodes == INODES
      ensures forall path :: Lookup(inobmp[..], media.table, path) < 0
      ensures cache.Valid() <==> CleanErased()
      ensures Valid() <==> CleanErased() && forall f | 0 <= f < MAX_FDS :: !fds[f].open
    {
      EraseAll();
      ClearBooks();
      media.saved := Superblock(blkbmp[..], inobmp[..], fblks, finodes);
      NoneOpenIff(State());
    }

    /** An empty superblock in memory, and an erased inode area. */
    method ClearBooks()
      requires Shape()
      modifies this`fblks, this`finodes, this`owner, media`table, blkbmp, inobmp
      ensures Shape() && |media.table| == INODES && fblks == DATA_BLKS && finodes == INODES
      ensures blkbmp[..] == seq(DATA_BLKS, _ => false) && inobmp[..] == seq(INODES, _ => false)
      ensures Balanced(BooksWith(media.table)) && finodes == CountFree(inobmp[..])
    {
      media.table := seq(INODES, _ => NewInode(0xFFFF_FFFF, "", 0));
      forall d | 0 <= d < DATA_BLKS {
        blkbmp[d] := false;
      }
      forall i | 0 <= i < INODES {
        inobmp[i] := false;
      }
      fblks, finodes := DATA_BLKS, INODES;
      owner := seq(DATA_BLKS, _ => Nobody);
      EmptyBooks(BooksWith(media.table));
      CountFreeAll(inobmp[..]);
      assert blkbmp[..] == seq(DATA_BLKS, _ => false) && inobmp[..] == seq(INODES, _ => false);
    }

    /** With no inode in use, the descriptors are in order exactly when none is open. */
    static lemma NoneOpenIff(s: Names)
      requires Wf(s) && forall i | 0 <= i < INODES :: !s.inUse[i]
      ensures Descriptors(s) <==> forall f | 0 <= f < MAX_FDS :: !s.fds[f].open
    {
    }

    method EraseAll()
      requires cache.flash == media.flash && cache.Valid()
      modifies media.flash
      ensures cache.flash.Valid() && media.flash.sectors == seq(BLKS, _ => ERASED)
      ensures cache.Valid() <==> CleanErased()
    {
      for b := 0 to BLKS
        invariant cache.flash.Valid()
        invariant forall c | 0 <= c < b :: media.flash.sectors[c] == ERASED
      {
        media.flash.EraseSector(b);
      }
      assert media.flash.sectors == seq(BLKS, _ => ERASED);
    }

    // ---------- open and close ----------

    method FindClosed() returns (fd: int)
      requires fds.Length == MAX_FDS
      ensures fd == First(Closed, fds[..])
    {
      for i := 0 to MAX_FDS
        invariant forall j | 0 <= j < i :: fds[j].open
      {
        if !fds[i].open {
          FirstIs(Closed, fds[..], i);
          return i;
        }
      }
      FirstIs(Closed, fds[..], -1);
      return -1;
    }

    method FindName(path: string) returns (inum: int)
      requires inobmp.Length == |media.table| == INODES
      ensures inum == Lookup(inobmp[..], media.table, path)
    {
      for i := 0 to INODES
        invariant forall j | 0 <= j < i :: !Match(inobmp[..][j], media.table[j], path)
      {
        if !inobmp[i] {
          continue;
        }
        if SameName(media.table[i].name, path) {
          LookupIs(inobmp[..], media.table, path, i);
          return i;
        }
      }
      LookupIs(inobmp[..], media.table, path, -1);
      return -1;
    }

    /** Take the first unused inode number, or -1. */
    method AllocInode() returns (inum: int)
      requires Shape() && finodes == CountFree(inobmp[..])
      modifies this`finodes, inobmp
      ensures inum == First(Unset, old(inobmp[..]))
      ensures inum < 0 ==> inobmp[..] == old(inobmp[..])
      ensures inum >= 0 ==> inobmp[..] == old(inobmp[..])[inum := true]
      ensures finodes == CountFree(inobmp[..])
    {
      for i := 0 to INODES
        invariant inobmp[..] == old(inobmp[..]) && finodes == old(finodes)
        invariant forall j | 0 <= j < i :: inobmp[j]
      {
        if !inobmp[i] {
          CountFreeTake(inobmp[..], i);
          FirstIs(Unset, inobmp[..], i);
          inobmp[i] := true;
          finodes := finodes - 1;
          return i;
        }
      }
      FirstIs(Unset, inobmp[..], -1);
      return -1;
    }

    /** With OpenKeepsDescriptorsIff: Valid is kept unless this opens a file that is open already. */
    method Open(path: string, flags: bv8, now: uint64) returns (fd: int)
      requires Valid()
      modifies this`finodes, media, inobmp, fds
      ensures Wf(State()) && Opened(old(State()), path, flags, now, State(), fd)
      ensures inobmp[..] != old(inobmp[..]) <==>
              (forall i :: !Named(old(State()), path, i)) && flags & 0x10 != 0 && HasClosed(old(State())) &&
              HasUnused(old(State()))
      ensures (State(), fd) == OpenSpec(old(State()), path, flags, now)
      ensures Storage(media.table) && media.saved == old(media.saved)
    {
      ghost var s := State();
      OpenSpecOpens(s, path, flags, now);
      fd := FindOrCreate(path, flags, now);
      TakenIff(s, path, flags, now, State(), fd);
    }

    /** The three searches of nfs_open and what follows each. */
    method FindOrCreate(path: string, flags: bv8, now: uint64) returns (fd: int)
      requires Valid()
      modifies this`finodes, media, inobmp, fds
      ensures (State(), fd) == OpenSpec(old(State()), path, flags, now)
      ensures Storage(media.table) && media.saved == old(media.saved)
    {
      fd := FindClosed();
      if fd < 0 {
        return;
      }
      var i := FindName(path);
      if i >= 0 {
        fds[fd] := Fd(true, media.table[i], 0, flags);
        return;
      }
      if flags & CREAT == 0 {
        return -1;
      }
      var n := CreateFile(fd, path, flags, now);
      if n < 0 {
        return -1;
      }
    }

    /** The creating tail of nfs_open, for descriptor fd. */
    method CreateFile(fd: nat, path: string, flags: bv8, now: uint64) returns (n: int)
      requires Storage(media.table) && fd < MAX_FDS
      modifies this`finodes, media`table, inobmp, fds
      ensures Storage(media.table) && n == First(Unset, old(inobmp[..]))
      ensures n < 0 ==> State() == old(State())
      ensures n >= 0 ==> var ino := NewInode(n, path, now);
        State() == Names(old(inobmp[..])[n := true], old(media.table)[n := ino],
                         old(fds[..])[fd := Fd(true, ino, 0, flags)])
    {
      ghost var books := BooksWith(media.table);
      n := AllocInode();
      if n < 0 {
        return;
      }
      var ino := NewInode(n, path, now);
      BooksCreate(books, n, ino);
      media.table := media.table[n := ino];
      fds[fd] := Fd(true, ino, 0, flags);
    }

    method Close(fd: int) returns (r: int)
      requires Valid()
      modifies fds
      ensures Valid() && State() == CloseSpec(old(State()), fd)
      ensures forall f | 0 <= f < MAX_FDS :: fds[f] == if f == fd then old(fds[f]).(open := false) else old(fds[f])
      ensures r == if 0 <= fd < 16 then 0 else -1
    {
      ghost var s := State();
      CloseKeepsDescriptors(s, fd);
      if fd < 0 || fd >= MAX_FDS {
        return -1;
      }
      fds[fd] := fds[fd].(open := false);
      assert State() == CloseSpec(s, fd);
      return 0;
    }

    // ---------- write ----------

    /** alloc_blk: the first free data block as a block number, or -1. */
    method AllocBlk() returns (nb: int)
      requires Shape() && fblks == CountFree(blkbmp[..])
      modifies this`fblks, blkbmp
      ensures nb < 0 ==> nb == -1 && fblks == old(fblks) == 0 && blkbmp[..] == old(blkbmp[..])
      ensures nb >= 0 ==> var d := First(Unset, old(blkbmp[..]));
        d >= 0 && nb == FIRST + d >= 81 && fblks == old(fblks) - 1 && blkbmp[..] == old(blkbmp[..])[d := true]
      ensures nb >= 0 ==> FIRST <= nb < BLKS && !old(blkbmp[..])[nb - FIRST]
    {
      for i := 0 to DATA_BLKS
        invariant blkbmp[..] == old(blkbmp[..]) && fblks == old(fblks)
        invariant forall j | 0 <= j < i :: blkbmp[j]
      {
        if !blkbmp[i] {
          CountFreeTake(blkbmp[..], i);
          FirstIs(Unset, blkbmp[..], i);
          blkbmp[i] := true;
          fblks := fblks - 1;
          return FIRST + i;
        }
      }
      CountFreeNone(blkbmp[..]);
      return -1;
    }

    /** The bitmaps and the free count are those of b, whose table may be ahead of the one on flash. */
    ghost predicate Matches(b: Books)
      reads this, blkbmp, inobmp
    {
      blkbmp[..] == b.used && inobmp[..] == b.inUse && owner == b.owner && fblks == b.fblks
    }

    /** A fresh block for the end of file i, to take len bytes. */
    method NewBlock(fd: nat, i: nat, bi: nat, ghost len: nat, ghost b: Books) returns (nb: int, ghost b': Books)
      requires Shape() && Matches(b) && Balanced(b) && fd < MAX_FDS && i < INODES && b.inUse[i]
      requires fds[fd].ino.db == b.table[i].db
      requires b.table[i].sz == bi * BLK_SZ < MAX_SZ && 0 < len <= BLK_SZ
      modifies this`fblks, this`owner, blkbmp, fds
      ensures Matches(b')
      ensures nb < 0 ==> b' == b && b.fblks == 0
      ensures nb >= 0 ==>
        && FIRST <= nb < BLKS && !b.used[nb - FIRST] && bi < DIRECT && b.fblks > 0
        && b' == Grown(b, i, bi, nb - FIRST, len)
      ensures fds[..] == WithDb(old(fds[..]), fd, b'.table[i].db)
    {
      b' := b;
      nb := AllocBlk();
      if nb >= 0 {
        BooksGrown(b, i, bi, nb - FIRST, len);
        b' := Grown(b, i, bi, nb - FIRST, len);
        fds[fd] := fds[fd].(ino := fds[fd].ino.(db := fds[fd].ino.db[bi := nb]));
        owner := b'.owner;
      }
    }

    /** rblk, as the file system uses it: flash reads succeed. */
    method LoadBlock(b: nat, now: uint64) returns (d: Block)
      requires cache.Valid() && b < BLKS
      modifies cache, cache.slots, cache.flash
      ensures cache.Valid() && d == old(cache.Blocks())[b] && cache.Blocks() == old(cache.Blocks())
    {
      var ok;
      ok, d := cache.ReadBlock(b, Ok, now);
    }

    /** wblk */
    method StoreBlock(b: nat, d: Block, now: uint64)
      requires cache.Valid() && b < BLKS
      modifies cache, cache.slots, cache.flash
      ensures cache.Valid() && cache.Blocks() == old(cache.Blocks())[b := d]
    {
      cache.WriteBlock(b, d, now);
    }

    /** The chunk lands in a block the file has: read it, patch it, write it. */
    method ChunkInPlace(i: nat, p: nat, n: nat, d: seq<byte>, now: uint64, ghost b: Books) returns (ghost b': Books)
      requires cache.Valid() && Balanced(b) && i < INODES && b.inUse[i]
      requires n <= b.table[i].sz && n < MAX_SZ && 0 < |d| <= BLK_SZ - n % BLK_SZ
      requires |b.table[i].db| == DIRECT && p != 0 && p == b.table[i].db[n / BLK_SZ]
      modifies cache, cache.slots, cache.flash
      ensures cache.Valid() && Wrote(b, old(cache.Blocks()), b', cache.Blocks(), i, n, d) && Balanced(b')
      ensures b' == b.(table := b.table[i := b.table[i].(sz := Max(b.table[i].sz, n + |d|))])
    {
      WroteInPlace(b, cache.Blocks(), i, n, d);
      b' := b.(table := b.table[i := b.table[i].(sz := Max(b.table[i].sz, n + |d|))]);
      var blkbuf := LoadBlock(p, now);
      StoreBlock(p, PatchBlock(blkbuf, n % BLK_SZ, d), now);
    }

    /** The descriptors after descriptor fd got new block pointers. */
    static ghost function WithDb(fs: seq<Fd>, fd: nat, db: seq<nat>): seq<Fd>
      requires fd < |fs|
    {
      fs[fd := fs[fd].(ino := fs[fd].ino.(db := db))]
    }

    static lemma WithDbTwice(fs: seq<Fd>, fd: nat, db: seq<nat>, db': seq<nat>)
      requires fd < |fs|
      ensures WithDb(WithDb(fs, fd, db), fd, db') == WithDb(fs, fd, db')
    {
    }

    /** One turn of the write loop: chunk d at position n of file i; false when no block can be had. */
    method WriteChunk(fd: nat, i: nat, n: nat, d: seq<byte>, now: uint64, ghost b: Books)
      returns (ok: bool, ghost b': Books)
      requires Shape() && cache.Valid() && Matches(b) && Balanced(b) && fd < MAX_FDS && i < INODES && b.inUse[i]
      requires fds[fd].ino.db == b.table[i].db
      requires n <= b.table[i].sz && n < MAX_SZ && 0 < |d| <= BLK_SZ - n % BLK_SZ
      modifies this`fblks, this`owner, blkbmp, fds, cache, cache.slots, cache.flash
      ensures cache.Valid() && Matches(b')
      ensures Turn(ok, b, old(cache.Blocks()), b', cache.Blocks(), i, n, d)
      ensures fds[..] == WithDb(old(fds[..]), fd, b'.table[i].db)
    {
      ghost var blocks := cache.Blocks();
      var bi := n / BLK_SZ;
      BlockIndex(n);
      if fds[fd].ino.db[bi] == 0 {
        AtEnd(b, i, n);
        SizeWithinLimit(b, i);
        var nb;
        nb, b' := NewBlock(fd, i, bi, |d|, b);
        ok := nb >= 0;
        if ok {
          WroteNewBlock(b, blocks, i, bi, nb - FIRST, ERASED, d);
          StoreBlock(nb, PatchBlock(ERASED, n % BLK_SZ, d), now);
        }
      } else {
        b' := ChunkInPlace(i, fds[fd].ino.db[bi], n, d, now, b);
        ok := true;
      }
    }

    /** The body of the write loop; stop says that it broke out. */
    method WriteStep(fd: nat, i: nat, pos: nat, wr: nat, buf: array<byte>, len: nat, now: uint64,
                     ghost data: seq<byte>, ghost b: Books, ghost blocks: seq<Block>, ghost b1: Books)
      returns (stop: bool, wr': nat, ghost b': Books)
      requires Shape() && cache.Valid() && Matches(b1) && fd < MAX_FDS && wr < len <= buf.Length && data == buf[..]
      requires Progress(b, blocks, b1, cache.Blocks(), i, pos, data[..wr])
      requires i < |b1.table| && fds[fd].ino.db == b1.table[i].db
      modifies this`fblks, this`owner, blkbmp, fds, cache, cache.slots, cache.flash
      ensures cache.Valid() && Matches(b')
      ensures if stop then wr' == wr && pos + wr == Limit(b, i) else wr < wr' <= len
      ensures Progress(b, blocks, b', cache.Blocks(), i, pos, data[..wr'])
      ensures fds[..] == WithDb(old(fds[..]), fd, b'.table[i].db)
    {
      var bi, ch := ChunkAt(pos + wr, len - wr);
      if bi >= DIRECT {
        FullAt(b, blocks, b1, cache.Blocks(), i, pos, data[..wr]);
        return true, wr, b1;
      }
      stop, wr', b' := WritePiece(fd, i, pos, wr, buf[wr..wr + ch], now, data, b, blocks, b1);
    }

    /** The block of position n and how many of the next want bytes lie in it. */
    static method ChunkAt(n: nat, want: nat) returns (bi: nat, ch: nat)
      requires want > 0
      ensures bi == n / BLK_SZ && (bi < DIRECT <==> n < MAX_SZ)
      ensures ch == Min(want, BLK_SZ - n % BLK_SZ) && 0 < ch
    {
      ChunkFits(n, want);
      bi, ch := n / BLK_SZ, Min(want, BLK_SZ - n % BLK_SZ);
    }

    /** One chunk, on top of what the loop has written before it. */
    method WritePiece(fd: nat, i: nat, pos: nat, wr: nat, d: seq<byte>, now: uint64,
                      ghost data: seq<byte>, ghost b: Books, ghost blocks: seq<Block>, ghost b1: Books)
      returns (stop: bool, wr': nat, ghost b': Books)
      requires Shape() && cache.Valid() && Matches(b1) && fd < MAX_FDS && wr + |d| <= |data| && d == data[wr..wr + |d|]
      requires pos + wr < MAX_SZ && 0 < |d| <= BLK_SZ - (pos + wr) % BLK_SZ
      requires Progress(b, blocks, b1, cache.Blocks(), i, pos, data[..wr])
      requires i < |b1.table| && fds[fd].ino.db == b1.table[i].db
      modifies this`fblks, this`owner, blkbmp, fds, cache, cache.slots, cache.flash
      ensures cache.Valid() && Matches(b')
      ensures if stop then wr' == wr && pos + wr == Limit(b, i) else wr' == wr + |d|
      ensures Progress(b, blocks, b', cache.Blocks(), i, pos, data[..wr'])
      ensures fds[..] == WithDb(old(fds[..]), fd, b'.table[i].db)
    {
      ghost var blocks1 := cache.Blocks();
      ProgressFacts(b, blocks, b1, blocks1, i, pos, data[..wr]);
      var ok;
      ok, b' := WriteChunk(fd, i, pos + wr, d, now, b1);
      stop, wr' := !ok, if ok then wr + |d| else wr;
      ProgressTurn(ok, b, blocks, b1, blocks1, b', cache.Blocks(), i, pos, data, wr, |d|, wr');
    }

    /** The write loop: as much of buf as there is room for, from position pos of file i on. */
    method WriteLoop(fd: nat, i: nat, pos: nat, buf: array<byte>, len: nat, now: uint64, ghost b: Books)
      returns (wr: nat, ghost b': Books)
      requires Shape() && cache.Valid() && Matches(b) && Balanced(b) && fd < MAX_FDS && i < INODES && b.inUse[i]
      requires fds[fd].ino.db == b.table[i].db && pos <= b.table[i].sz && len <= buf.Length
      modifies this`fblks, this`owner, blkbmp, fds, cache, cache.slots, cache.flash
      ensures cache.Valid() && Matches(b')
      ensures pos <= Limit(b, i) && wr == Min(len, Limit(b, i) - pos)
      ensures Progress(b, old(cache.Blocks()), b', cache.Blocks(), i, pos, buf[..wr])
      ensures fds[..] == WithDb(old(fds[..]), fd, b'.table[i].db)
    {
      ghost var blocks, data := cache.Blocks(), buf[..];
      wr, b' := 0, b;
      assert data[..0] == [];
      ProgressStart(b, blocks, i, pos);
      var stop := false;
      while wr < len && !stop
        invariant wr <= len && cache.Valid() && Matches(b')
        invariant stop ==> pos + wr == Limit(b, i)
        invariant Progress(b, blocks, b', cache.Blocks(), i, pos, data[..wr])
        invariant fds[..] == WithDb(old(fds[..]), fd, b'.table[i].db)
        decreases len - wr, !stop
      {
        ghost var db := b'.table[i].db;
        stop, wr, b' := WriteStep(fd, i, pos, wr, buf, len, now, data, b, blocks, b');
        WithDbTwice(old(fds[..]), fd, db, b'.table[i].db);
      }
      ProgressFacts(b, blocks, b', cache.Blocks(), i, pos, data[..wr]);
      assert buf[..wr] == data[..wr];
    }

    predicate GoodFd(fd: int)
      requires fds.Length == MAX_FDS
      reads fds
    {
      0 <= fd < MAX_FDS && fds[fd].open
    }

    /**
      The file takes the first r bytes of buf at the descriptor's position, overwriting or growing;
      r is everything asked for or what size limit and free blocks allow.
    */
    method Write(fd: int, buf: array<byte>, len: nat, now: uint64) returns (r: int)
      requires Valid() && len <= buf.Length
      modifies this`fblks, this`owner, media`table, blkbmp, fds, cache, cache.slots, cache.flash
      ensures Valid()
      ensures !old(GoodFd(fd)) ==> r == -1 && State() == old(State()) && cache.Blocks() == old(cache.Blocks())
      ensures old(GoodFd(fd)) ==>
        var b, f := old(BooksWith(media.table)), old(fds[fd]);
        && f.pos <= Limit(b, f.ino.inum) && r == Min(len, Limit(b, f.ino.inum) - f.pos)
        && WriteResult(old(State()), old(cache.Blocks()), fd, buf[..r], now, State(), cache.Blocks())
        && Budget(BooksWith(media.table), f.ino.inum) == Budget(b, f.ino.inum)
      ensures old(GoodFd(fd)) && r < len ==> old(fds[fd].pos) + r == 49152 || fblks == 0
    {
      if fd < 0 || fd >= MAX_FDS || !fds[fd].open {
        return -1;
      }
      ghost var s, b, blocks := State(), BooksWith(media.table), cache.Blocks();
      var pos, i := fds[fd].pos, fds[fd].ino.inum;
      var wr;
      ghost var b';
      wr, b' := WriteLoop(fd, i, pos, buf, len, now, b);
      Commit(fd, i, pos, wr, now, s, b, blocks, b', buf[..wr]);
      if wr < len {
        FullAtLimit(BooksWith(media.table), i);
      }
      return wr;
    }

    method Commit(fd: nat, i: nat, pos: nat, wr: nat, now: uint64,
                  ghost s: Names, ghost b: Books, ghost blocks: seq<Block>, ghost b': Books, ghost data: seq<byte>)
      requires Shape() && cache.Valid() && Matches(b') && Descriptors(s) && fd < MAX_FDS && s.fds[fd].open
      requires i == s.fds[fd].ino.inum && pos == s.fds[fd].pos && |data| == wr
      requires s.table == b.table && s.inUse == b.inUse && SavedOk(media.saved)
      requires Progress(b, blocks, b', cache.Blocks(), i, pos, data)
      requires media.table == s.table && finodes == CountFree(inobmp[..]) && FrontFilled(inobmp[..])
      requires fds[..] == s.fds[fd := s.fds[fd].(ino := s.fds[fd].ino.(db := b'.table[i].db))]
      modifies media`table, fds
      ensures Valid() && WriteResult(s, blocks, fd, data, now, State(), cache.Blocks())
      ensures Budget(BooksWith(media.table), i) == Budget(b, i)
    {
      ProgressFacts(b, blocks, b', cache.Blocks(), i, pos, data);
      WriteCommits(s, b, blocks, fd, data, now, b', cache.Blocks());
      Restamped(b', i, now);
      var ino := fds[fd].ino.(sz := Max(fds[fd].ino.sz, pos + wr), modified := now);
      fds[fd] := Fd(true, ino, pos + wr, fds[fd].flags);
      media.table := media.table[i := ino];
      assert State() == Names(s.inUse, s.table[i := ino], s.fds[fd := Fd(true, ino, pos + wr, s.fds[fd].flags)]);
      assert BooksWith(media.table) == b'.(table := b'.table[i := b'.table[i].(modified := now)]);
      WriteKeepsDescriptors(s, blocks, fd, data, now, State(), cache.Blocks());
    }

    // ---------- read ----------

    /** The read loop: len bytes of the file from position pos on, all of which exist. */
    method ReadLoop(ino: Inode, pos: nat, out: array<byte>, len: nat, now: uint64) returns (rd: nat)
      requires cache.Valid() && Readable(ino) && pos + len <= ino.sz && len <= out.Length
      modifies out, cache, cache.slots, cache.flash
      ensures cache.Valid() && cache.Blocks() == old(cache.Blocks()) && rd == len
      ensures out[..] == Content(ino, old(cache.Blocks()))[pos..pos + len] + old(out[..])[len..]
    {
      ghost var blocks := cache.Blocks();
      ghost var c := Content(ino, blocks);
      rd := 0;
      while rd < len
        invariant rd <= len && cache.Valid() && cache.Blocks() == blocks
        invariant forall k | 0 <= k < out.Length :: out[k] == if k < rd then c[pos + k] else old(out[k])
      {
        var ch := ReadChunk(ino, pos + rd, out, rd, len - rd, now);
        rd := rd + ch;
      }
    }

    /** One turn: what position n's block holds of the next want bytes, into out at rd. */
    method ReadChunk(ino: Inode, n: nat, out: array<byte>, rd: nat, want: nat, now: uint64) returns (ch: nat)
      requires cache.Valid() && Readable(ino) && n + want <= ino.sz && 0 < want && rd + want <= out.Length
      modifies out, cache, cache.slots, cache.flash
      ensures cache.Valid() && cache.Blocks() == old(cache.Blocks()) && 0 < ch <= want
      ensures forall k | 0 <= k < out.Length ::
                out[k] == if rd <= k < rd + ch then Content(ino, old(cache.Blocks()))[n + (k - rd)] else old(out[k])
    {
      var bi;
      bi, ch := ChunkAt(n, want);
      var bo := n % BLK_SZ;
      ChunkRead(ino, cache.Blocks(), n, ch);
      if bi >= DIRECT || ino.db[bi] == 0 {
        assert false;  // a block below the size is always there
      }
      var blkbuf := LoadBlock(ino.db[bi], now);
      CopyOut(out, rd, blkbuf[bo..bo + ch]);
    }

    method CopyOut(out: array<byte>, at: nat, d: seq<byte>)
      requires at + |d| <= out.Length
      modifies out
      ensures forall k | 0 <= k < out.Length :: out[k] == if at <= k < at + |d| then d[k - at] else old(out[k])
    {
      forall k | 0 <= k < |d| {
        out[at + k] := d[k];
      }
    }

    /** Exactly the bytes from the descriptor's position up to len of them or the end of the file. */
    method Read(fd: int, out: array<byte>, len: nat, now: uint64) returns (r: int)
      requires Valid() && len <= out.Length
      modifies fds, out, cache, cache.slots, cache.flash
      ensures Valid() && cache.Blocks() == old(cache.Blocks())
      ensures !old(GoodFd(fd)) ==> r == -1 && fds[..] == old(fds[..]) && out[..] == old(out[..])
      ensures old(GoodFd(fd)) ==>
        var f := old(fds[fd]);
        && r == Min(len, f.ino.sz - f.pos)
        && out[..] == Content(f.ino, old(cache.Blocks()))[f.pos..f.pos + r] + old(out[..])[r..]
        && fds[..] == old(fds[..])[fd := f.(pos := f.pos + r)]
    {
      if fd < 0 || fd >= MAX_FDS || !fds[fd].open {
        return -1;
      }
      r := ReadOpen(fd, out, len, now);
    }

    method ReadOpen(fd: nat, out: array<byte>, len: nat, now: uint64) returns (r: nat)
      requires Valid() && len <= out.Length && fd < MAX_FDS && fds[fd].open
      modifies fds, out, cache, cache.slots, cache.flash
      ensures Valid() && cache.Blocks() == old(cache.Blocks())
      ensures var f := old(fds[fd]);
        && f.pos <= f.ino.sz == |Content(f.ino, old(cache.Blocks()))| && r == Min(len, f.ino.sz - f.pos)
        && out[..] == Content(f.ino, old(cache.Blocks()))[f.pos..f.pos + r] + old(out[..])[r..]
        && fds[..] == old(fds[..])[fd := f.(pos := f.pos + r)]
    {
      var f := fds[fd];
      OpenIsReadable(BooksWith(media.table), State(), fd, cache.Blocks());
      var rem := f.ino.sz - f.pos;
      var n := if len > rem then rem else len;
      if n == 0 {
        return 0;
      }
      r := ReadSome(fd, out, n, now);
    }

    /** n bytes from the position of descriptor fd on; the position moves behind them. */
    method ReadSome(fd: nat, out: array<byte>, n: nat, now: uint64) returns (r: nat)
      requires Valid() && n <= out.Length && fd < MAX_FDS && fds[fd].open && Readable(fds[fd].ino)
      requires fds[fd].pos + n <= fds[fd].ino.sz
      modifies fds, out, cache, cache.slots, cache.flash
      ensures Valid() && cache.Blocks() == old(cache.Blocks()) && r == n
      ensures var f := old(fds[fd]);
        && out[..] == Content(f.ino, old(cache.Blocks()))[f.pos..f.pos + n] + old(out[..])[n..]
        && fds[..] == old(fds[..])[fd := f.(pos := f.pos + n)]
    {
      var f := fds[fd];
      r := ReadLoop(f.ino, f.pos, out, n, now);
      Seek(fd, f.pos + r);
    }

    /** An open descriptor's file can be read, and its position lies in it. */
    static lemma OpenIsReadable(b: Books, s: Names, fd: nat, blocks: seq<Block>)
      requires Balanced(b) && Descriptors(s) && b.table == s.table && b.inUse == s.inUse && |blocks| == BLKS
      requires fd < MAX_FDS && s.fds[fd].open
      ensures Readable(s.fds[fd].ino) && s.fds[fd].pos <= s.fds[fd].ino.sz == |Content(s.fds[fd].ino, blocks)|
    {
      OwnIsReadable(b, s.fds[fd].ino.inum);
    }

    method Seek(fd: nat, pos: nat)
      requires Valid() && fd < MAX_FDS && fds[fd].open && pos <= fds[fd].ino.sz
      modifies fds
      ensures Valid() && fds[..] == old(fds[..])[fd := old(fds[fd]).(pos := pos)]
    {
      ghost var s := State();
      fds[fd] := fds[fd].(pos := pos);
      SeekKeepsDescriptors(s, fd, pos);
      assert State() == s.(fds := s.fds[fd := s.fds[fd].(pos := pos)]);
    }
  }
}
