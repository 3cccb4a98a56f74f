/**
  Files of fs/nfs.c as values: an inode with twelve direct block pointers stands for a byte
  sequence, and every allocated block belongs to exactly one pointer of one inode.
*/
module FileModel {
  import opened Bytes
  import opened BlockCache

  const DIRECT: nat := 12
  const DATA_BLKS: nat := 1967
  const FIRST: nat := 81            // NFS_DATA_OFF / NFS_BLK_SZ
  const INODES: nat := 512
  const MAX_FDS: nat := 16
  const NAME_MAX: nat := 60
  const MAX_SZ: nat := 49152        // twelve blocks

  const JRNL_BLKS: nat := 16
  const INODE_BLKS: nat := 64
  const INODE_BYTES: nat := 152     // sizeof(inode_t)

  /**
    The superblock, the journal, the inode table and the data blocks lie one behind the other: no data block reaches
    into the record of an inode or beyond the flash, and from the first data block on every block is one.
  */
  lemma AreasApart(d: nat, i: nat)
    requires d < DATA_BLKS && i < INODES
    ensures var area, record := (1 + JRNL_BLKS) * BLK_SZ, (1 + JRNL_BLKS) * BLK_SZ + i * INODE_BYTES;
      && area <= record && record + INODE_BYTES <= area + INODE_BLKS * BLK_SZ <= (FIRST + d) * BLK_SZ
      && (FIRST + d + 1) * BLK_SZ <= BLKS * BLK_SZ == 0x80_0000
    ensures FIRST == 1 + JRNL_BLKS + INODE_BLKS && FIRST + DATA_BLKS == BLKS
  {
  }

  datatype Inode = Inode(inum: nat, sz: nat, created: uint64, modified: uint64, db: seq<nat>, name: string)

  datatype Fd = Fd(open: bool, ino: Inode, pos: nat, flags: bv8)

  // ---------- one file is a byte sequence ----------

  /** Every block below the size is present. */
  ghost predicate Readable(ino: Inode) {
    && |ino.db| == DIRECT && ino.sz <= MAX_SZ
    && forall k | 0 <= k < DIRECT && k * BLK_SZ < ino.sz :: FIRST <= ino.db[k] < BLKS
  }

  lemma BlockIndex(n: nat)
    ensures n == n / BLK_SZ * BLK_SZ + n % BLK_SZ && n / BLK_SZ * BLK_SZ <= n
    ensures n < MAX_SZ ==> n / BLK_SZ < DIRECT
  {
  }

  lemma ChunkFits(n: nat, len: nat)
    requires len > 0
    ensures n / BLK_SZ < DIRECT <==> n < MAX_SZ
    ensures 0 < Min(len, BLK_SZ - n % BLK_SZ) <= BLK_SZ - n % BLK_SZ
  {
  }

  lemma InBlock(n: nat, b: nat)
    ensures n / BLK_SZ == b <==> b * BLK_SZ <= n < (b + 1) * BLK_SZ
    ensures n / BLK_SZ == b ==> n % BLK_SZ == n - b * BLK_SZ
  {
  }

  /** Byte n of the file; files whose blocks are all present never meet the default. */
  function ByteAt(ino: Inode, blocks: seq<Block>, n: nat): byte {
    if n / BLK_SZ < |ino.db| && ino.db[n / BLK_SZ] < |blocks| then blocks[ino.db[n / BLK_SZ]][n % BLK_SZ] else 0
  }

  /** The byte sequence the file stands for. */
  function Content(ino: Inode, blocks: seq<Block>): (c: seq<byte>)
    ensures |c| == ino.sz
  {
    seq(ino.sz, n requires 0 <= n < ino.sz => ByteAt(ino, blocks, n))
  }

  /** A stretch of the file inside one block is a stretch of that block. */
  lemma ChunkRead(ino: Inode, blocks: seq<Block>, n: nat, ch: nat)
    requires Readable(ino) && |blocks| == BLKS && n + ch <= ino.sz && 0 < ch <= BLK_SZ - n % BLK_SZ
    ensures n / BLK_SZ < DIRECT && FIRST <= ino.db[n / BLK_SZ] < BLKS
    ensures Content(ino, blocks)[n..n + ch] == blocks[ino.db[n / BLK_SZ]][n % BLK_SZ..n % BLK_SZ + ch]
  {
    var bi, bo := n / BLK_SZ, n % BLK_SZ;
    BlockIndex(n);
    var x, y := Content(ino, blocks)[n..n + ch], blocks[ino.db[bi]][bo..bo + ch];
    forall m | 0 <= m < ch ensures x[m] == y[m] {
      InBlock(n + m, bi);
    }
  }

  function Max(a: nat, b: nat): nat { if a < b then b else a }
  function Min(a: nat, b: nat): nat { if a < b then a else b }

  /** c with d written at position at, growing when d reaches past the end. */
  function Patch(c: seq<byte>, at: nat, d: seq<byte>): (r: seq<byte>)
    requires at <= |c|
    ensures |r| == Max(|c|, at + |d|)
  {
    c[..at] + d + if at + |d| < |c| then c[at + |d|..] else []
  }

  lemma PatchTwice(c: seq<byte>, at: nat, d: seq<byte>, e: seq<byte>)
    requires at <= |c|
    ensures Patch(Patch(c, at, d), at + |d|, e) == Patch(c, at, d + e)
  {
  }

  function PatchBlock(b: Block, at: nat, d: seq<byte>): Block
    requires at + |d| <= BLK_SZ
  {
    b[..at] + d + b[at + |d|..]
  }

  /**
    One turn of the write loop: d goes to position n, inside block p. The block is either the one
    that already holds position n, or a new one started exactly at the end of the file.
  */
  lemma ChunkWritten(ino: Inode, blocks: seq<Block>, n: nat, d: seq<byte>, p: nat, base: Block, ino': Inode)
    requires Readable(ino) && |blocks| == BLKS && n <= ino.sz && n < MAX_SZ
    requires 0 < |d| <= BLK_SZ - n % BLK_SZ && FIRST <= p < BLKS
    requires forall k | 0 <= k < DIRECT && k != n / BLK_SZ && k * BLK_SZ < ino.sz :: ino.db[k] != p
    requires if n / BLK_SZ * BLK_SZ < ino.sz then p == ino.db[n / BLK_SZ] && base == blocks[p]
             else n == ino.sz && n % BLK_SZ == 0
    requires ino' == ino.(db := ino.db[n / BLK_SZ := p], sz := Max(ino.sz, n + |d|))
    ensures Readable(ino')
    ensures Content(ino', blocks[p := PatchBlock(base, n % BLK_SZ, d)]) == Patch(Content(ino, blocks), n, d)
  {
    var bi, bo := n / BLK_SZ, n % BLK_SZ;
    BlockIndex(n);
    var blocks' := blocks[p := PatchBlock(base, bo, d)];
    assert Readable(ino');
    var c := Patch(Content(ino, blocks), n, d);
    forall m | 0 <= m < ino'.sz ensures c[m] == ByteAt(ino', blocks', m) {
      InBlock(m, bi);
      BlockIndex(m);
      if m / BLK_SZ == bi {
        assert c[m] == PatchBlock(base, bo, d)[m % BLK_SZ];
      }
    }
  }

  /** A file none of whose blocks is p does not notice p being written. */
  lemma ContentFrame(ino: Inode, blocks: seq<Block>, p: nat, b: Block)
    requires Readable(ino) && |blocks| == BLKS && p < BLKS
    requires forall k | 0 <= k < DIRECT && k * BLK_SZ < ino.sz :: ino.db[k] != p
    ensures Content(ino, blocks[p := b]) == Content(ino, blocks)
  {
    forall m | 0 <= m < ino.sz ensures ByteAt(ino, blocks[p := b], m) == ByteAt(ino, blocks, m) {
      BlockIndex(m);
    }
  }

  // ---------- who owns which block ----------

  datatype Owner = Nobody | Pointer(inum: nat, k: nat)

  ghost predicate PtrOk(p: nat, i: nat, k: nat, owner: seq<Owner>)
    requires |owner| == DATA_BLKS
  {
    p == 0 || (FIRST <= p < BLKS && owner[p - FIRST] == Pointer(i, k))
  }

  /** Exactly the blocks below the size are present, and this inode owns them. */
  ghost predicate InodeOk(ino: Inode, i: nat, owner: seq<Owner>)
    requires |owner| == DATA_BLKS
  {
    && ino.inum == i && |ino.db| == DIRECT && ino.sz <= MAX_SZ
    && (forall k | 0 <= k < DIRECT :: PtrOk(ino.db[k], i, k, owner))
    && (forall k | 0 <= k < DIRECT :: ino.db[k] != 0 <==> k * BLK_SZ < ino.sz)
  }

  ghost predicate Ownership(used: seq<bool>, inUse: seq<bool>, table: seq<Inode>, owner: seq<Owner>) {
    && |used| == |owner| == DATA_BLKS && |inUse| == |table| == INODES
    && (forall i | 0 <= i < INODES && inUse[i] :: InodeOk(table[i], i, owner))
    && (forall d | 0 <= d < DATA_BLKS :: used[d] <==> owner[d].Pointer?)
    && (forall d | 0 <= d < DATA_BLKS && owner[d].Pointer? ::
          var i, k := owner[d].inum, owner[d].k;
          i < INODES && inUse[i] && k < DIRECT && |table[i].db| == DIRECT && table[i].db[k] == FIRST + d)
  }

  /** No two pointers of files name one block, and the blocks named are exactly the allocated ones. */
  lemma PointersDistinct(used: seq<bool>, inUse: seq<bool>, table: seq<Inode>, owner: seq<Owner>)
    requires Ownership(used, inUse, table, owner)
    ensures forall i, j, k, l | 0 <= i < INODES && 0 <= j < INODES && inUse[i] && inUse[j] &&
              0 <= k < DIRECT && 0 <= l < DIRECT && table[i].db[k] != 0 && table[i].db[k] == table[j].db[l] ::
              i == j && k == l
    ensures forall d | 0 <= d < DATA_BLKS ::
              used[d] <==> exists i, k :: 0 <= i < INODES && inUse[i] && 0 <= k < DIRECT && table[i].db[k] == FIRST + d
  {
    forall i, j, k, l | 0 <= i < INODES && 0 <= j < INODES && inUse[i] && inUse[j] &&
      0 <= k < DIRECT && 0 <= l < DIRECT && table[i].db[k] != 0 && table[i].db[k] == table[j].db[l]
      ensures i == j && k == l
    {
      assert PtrOk(table[i].db[k], i, k, owner) && PtrOk(table[j].db[l], j, l, owner);
    }
    forall d | 0 <= d < DATA_BLKS
      ensures used[d] <==> exists i, k :: 0 <= i < INODES && inUse[i] && 0 <= k < DIRECT && table[i].db[k] == FIRST + d
    {
      if used[d] {
        var i, k := owner[d].inum, owner[d].k;
        assert inUse[i] && table[i].db[k] == FIRST + d;
      }
      if i, k :| 0 <= i < INODES && inUse[i] && 0 <= k < DIRECT && table[i].db[k] == FIRST + d {
        assert PtrOk(table[i].db[k], i, k, owner);
      }
    }
  }

  /** Handing a free block to the next pointer of inode i keeps every block owned once. */
  lemma GrantBlock(used: seq<bool>, inUse: seq<bool>, table: seq<Inode>, owner: seq<Owner>,
                   i: nat, k: nat, d: nat, ino': Inode)
    requires Ownership(used, inUse, table, owner)
    requires i < INODES && inUse[i] && k < DIRECT && table[i].sz == k * BLK_SZ && d < DATA_BLKS && !used[d]
    requires table[i].sz < ino'.sz <= (k + 1) * BLK_SZ
    requires ino' == table[i].(db := table[i].db[k := FIRST + d], sz := ino'.sz)
    ensures Ownership(used[d := true], inUse, table[i := ino'], owner[d := Pointer(i, k)])
  {
    var owner', table' := owner[d := Pointer(i, k)], table[i := ino'];
    forall j | 0 <= j < INODES && inUse[j] ensures InodeOk(table'[j], j, owner') {
      forall l | 0 <= l < DIRECT ensures PtrOk(table'[j].db[l], j, l, owner') {
        assert PtrOk(table[j].db[l], j, l, owner);
      }
    }
  }

  /** Growing inside the last block changes no pointer. */
  lemma GrowInBlock(used: seq<bool>, inUse: seq<bool>, table: seq<Inode>, owner: seq<Owner>, i: nat, sz': nat)
    requires Ownership(used, inUse, table, owner) && i < INODES && inUse[i]
    requires table[i].sz <= sz' <= MAX_SZ
    requires forall k | 0 <= k < DIRECT && k * BLK_SZ < sz' :: k * BLK_SZ < table[i].sz
    ensures Ownership(used, inUse, table[i := table[i].(sz := sz')], owner)
  {
  }

  // ---------- counting ----------

  function CountFree(used: seq<bool>): nat {
    if used == [] then 0 else CountFree(used[..|used| - 1]) + if used[|used| - 1] then 0 else 1
  }

  lemma {:induction false} CountFreeTake(used: seq<bool>, d: nat)
    requires d < |used| && !used[d]
    ensures CountFree(used) > 0 && CountFree(used[d := true]) == CountFree(used) - 1
  {
    var n := |used| - 1;
    if d < n {
      CountFreeTake(used[..n], d);
      assert used[d := true][..n] == used[..n][d := true];
    } else {
      assert used[d := true][..n] == used[..n];
    }
  }

  lemma {:induction false} CountFreeNone(used: seq<bool>)
    ensures CountFree(used) == 0 <==> forall d | 0 <= d < |used| :: used[d]
  {
    if used == [] {
    } else {
      var n := |used| - 1;
      CountFreeNone(used[..n]);
      assert forall d | 0 <= d < n :: used[..n][d] == used[d];
    }
  }

  lemma {:induction false} CountFreeAll(used: seq<bool>)
    requires forall d | 0 <= d < |used| :: !used[d]
    ensures CountFree(used) == |used|
  {
    if used == [] {
    } else {
      CountFreeAll(used[..|used| - 1]);
    }
  }

  function BlocksOf(sz: nat): nat { (sz + BLK_SZ - 1) / BLK_SZ }

  /** Blocks all files take up, by their sizes. */
  function FileBlocks(inUse: seq<bool>, table: seq<Inode>): nat
    requires |inUse| == |table|
  {
    if inUse == [] then 0
    else
      var n := |inUse| - 1;
      FileBlocks(inUse[..n], table[..n]) + if inUse[n] then BlocksOf(table[n].sz) else 0
  }

  function Share(inUse: bool, ino: Inode): nat {
    if inUse then BlocksOf(ino.sz) else 0
  }

  lemma {:induction false} FileBlocksUpdate(inUse: seq<bool>, table: seq<Inode>, i: nat, u: bool, ino: Inode)
    requires |inUse| == |table| && i < |inUse|
    ensures FileBlocks(inUse[i := u], table[i := ino])
         == FileBlocks(inUse, table) - Share(inUse[i], table[i]) + Share(u, ino)
    ensures Share(inUse[i], table[i]) <= FileBlocks(inUse, table)
  {
    var n := |inUse| - 1;
    var inUse', table' := inUse[i := u], table[i := ino];
    if i < n {
      FileBlocksUpdate(inUse[..n], table[..n], i, u, ino);
      assert inUse'[..n] == inUse[..n][i := u] && table'[..n] == table[..n][i := ino];
    } else {
      assert inUse'[..n] == inUse[..n] && table'[..n] == table[..n];
    }
  }

  lemma {:induction false} FileBlocksNone(inUse: seq<bool>, table: seq<Inode>)
    requires |inUse| == |table| && forall i | 0 <= i < |inUse| :: !inUse[i]
    ensures FileBlocks(inUse, table) == 0
  {
    if inUse == [] {
    } else {
      FileBlocksNone(inUse[..|inUse| - 1], table[..|inUse| - 1]);
    }
  }

  // ---------- the books: ownership and counters together ----------

  datatype Books = Books(used: seq<bool>, inUse: seq<bool>, table: seq<Inode>, owner: seq<Owner>, fblks: nat)

  /** Free blocks are the zero bits, and together with the files' blocks they are all data blocks. */
  ghost predicate Balanced(b: Books) {
    && Ownership(b.used, b.inUse, b.table, b.owner)
    && b.fblks == CountFree(b.used)
    && b.fblks + FileBlocks(b.inUse, b.table) == DATA_BLKS
  }

  lemma EmptyBooks(b: Books)
    requires |b.used| == |b.owner| == DATA_BLKS && |b.inUse| == |b.table| == INODES && b.fblks == DATA_BLKS
    requires forall d | 0 <= d < DATA_BLKS :: !b.used[d] && b.owner[d].Nobody?
    requires forall i | 0 <= i < INODES :: !b.inUse[i]
    ensures Balanced(b)
  {
    CountFreeAll(b.used);
    FileBlocksNone(b.inUse, b.table);
  }

  /** A new, empty file owns nothing. */
  lemma BooksCreate(b: Books, i: nat, ino: Inode)
    requires Balanced(b) && i < INODES && !b.inUse[i]
    requires ino.inum == i && ino.sz == 0 && ino.db == seq(DIRECT, _ => 0)
    ensures Balanced(b.(inUse := b.inUse[i := true], table := b.table[i := ino]))
  {
    FileBlocksUpdate(b.inUse, b.table, i, true, ino);
    assert BlocksOf(0) == 0;
  }

  lemma BlocksOfBlock(sz: nat, k: nat)
    ensures k * BLK_SZ < sz <= (k + 1) * BLK_SZ ==> BlocksOf(sz) == k + 1
    ensures sz == k * BLK_SZ ==> BlocksOf(sz) == k
  {
  }

  /** A chunk that ends in a block the file already has. */
  lemma BooksInPlace(b: Books, i: nat, n: nat, len: nat)
    requires Balanced(b) && i < INODES && b.inUse[i] && n <= b.table[i].sz
    requires 0 < len <= BLK_SZ - n % BLK_SZ && n / BLK_SZ * BLK_SZ < b.table[i].sz
    ensures var ino' := b.table[i].(sz := Max(b.table[i].sz, n + len));
      Balanced(b.(table := b.table[i := ino'])) && BlocksOf(ino'.sz) == BlocksOf(b.table[i].sz)
  {
    var ino, bi := b.table[i], n / BLK_SZ;
    var ino' := ino.(sz := Max(ino.sz, n + len));
    BlockIndex(n);
    assert bi < DIRECT by {
      assert bi * BLK_SZ < MAX_SZ;
    }
    if ino.sz < n + len {
      BlocksOfBlock(ino.sz, bi);
      BlocksOfBlock(ino'.sz, bi);
    }
    GrowInBlock(b.used, b.inUse, b.table, b.owner, i, ino'.sz);
    FileBlocksUpdate(b.inUse, b.table, i, true, ino');
    assert b.inUse[i := true] == b.inUse;
  }

  /** The books after free block d became block bi of file i, which len bytes are to fill. */
  function Grown(b: Books, i: nat, bi: nat, d: nat, len: nat): Books
    requires |b.used| == |b.owner| == DATA_BLKS && |b.table| == INODES
    requires i < INODES && d < DATA_BLKS && bi < |b.table[i].db| && b.fblks > 0
  {
    var ino := b.table[i].(db := b.table[i].db[bi := FIRST + d], sz := b.table[i].sz + len);
    Books(b.used[d := true], b.inUse, b.table[i := ino], b.owner[d := Pointer(i, bi)], b.fblks - 1)
  }

  lemma BooksGrown(b: Books, i: nat, bi: nat, d: nat, len: nat)
    requires Balanced(b) && i < INODES && b.inUse[i] && d < DATA_BLKS && !b.used[d]
    requires 0 < len <= BLK_SZ && b.table[i].sz == bi * BLK_SZ < MAX_SZ
    ensures bi < DIRECT && b.fblks > 0 && Balanced(Grown(b, i, bi, d, len))
    ensures Budget(Grown(b, i, bi, d, len), i) == Budget(b, i)
  {
    var ino := b.table[i];
    CountFreeTake(b.used, d);
    var ino' := Grown(b, i, bi, d, len).table[i];
    BlocksOfBlock(ino.sz, bi);
    BlocksOfBlock(ino'.sz, bi);
    GrantBlock(b.used, b.inUse, b.table, b.owner, i, bi, d, ino');
    FileBlocksUpdate(b.inUse, b.table, i, true, ino');
    assert b.inUse[i := true] == b.inUse;
  }

  /** A missing block means that position n is the end of the file and starts that block. */
  lemma AtEnd(b: Books, i: nat, n: nat)
    requires Balanced(b) && i < INODES && b.inUse[i] && n <= b.table[i].sz && n < MAX_SZ
    requires b.table[i].db[n / BLK_SZ] == 0
    ensures n == b.table[i].sz && n % BLK_SZ == 0
  {
    BlockIndex(n);
  }

  /** Block p belongs to no file but i. */
  ghost predicate OthersAvoid(b: Books, i: nat, p: nat) {
    forall j | 0 <= j < |b.inUse| && j < |b.table| && b.inUse[j] && j != i :: p !in b.table[j].db
  }

  lemma OthersDisjoint(b: Books, i: nat, k: nat)
    requires Balanced(b) && i < INODES && b.inUse[i] && k < DIRECT && b.table[i].db[k] != 0
    ensures OthersAvoid(b, i, b.table[i].db[k])
  {
    assert PtrOk(b.table[i].db[k], i, k, b.owner);
    forall j, l | 0 <= j < INODES && b.inUse[j] && j != i && 0 <= l < DIRECT
      ensures b.table[j].db[l] != b.table[i].db[k]
    {
      assert PtrOk(b.table[j].db[l], j, l, b.owner);
    }
  }

  /** A free block is nobody's. */
  lemma FreeDisjoint(b: Books, i: nat, d: nat)
    requires Balanced(b) && i < INODES && b.inUse[i] && d < DATA_BLKS && !b.used[d]
    ensures OthersAvoid(b, i, FIRST + d) && FIRST + d !in b.table[i].db
  {
    forall j, l | 0 <= j < INODES && b.inUse[j] && 0 <= l < DIRECT ensures b.table[j].db[l] != FIRST + d {
      assert PtrOk(b.table[j].db[l], j, l, b.owner);
    }
  }

  lemma OwnIsReadable(b: Books, i: nat)
    requires Balanced(b) && i < INODES && b.inUse[i]
    ensures Readable(b.table[i])
  {
    forall k | 0 <= k < DIRECT && k * BLK_SZ < b.table[i].sz ensures FIRST <= b.table[i].db[k] < BLKS {
      assert PtrOk(b.table[i].db[k], i, k, b.owner);
    }
  }

  lemma OwnDistinct(b: Books, i: nat, k: nat)
    requires Balanced(b) && i < INODES && b.inUse[i] && k < DIRECT && b.table[i].db[k] != 0
    ensures forall l | 0 <= l < DIRECT && l != k :: b.table[i].db[l] != b.table[i].db[k]
  {
    assert PtrOk(b.table[i].db[k], i, k, b.owner);
    forall l | 0 <= l < DIRECT && l != k ensures b.table[i].db[l] != b.table[i].db[k] {
      assert PtrOk(b.table[i].db[l], i, l, b.owner);
    }
  }

  // ---------- one chunk, on books and blocks together ----------

  /** The sum that decides how far a write can go does not change while it goes on. */
  function Budget(b: Books, i: nat): nat
    requires i < |b.table|
  {
    b.fblks + BlocksOf(b.table[i].sz)
  }

  /** File i had d written at position n, and no other file changed. */
  ghost predicate Wrote(b: Books, blocks: seq<Block>, b': Books, blocks': seq<Block>, i: nat, n: nat, d: seq<byte>) {
    && |b.inUse| == |b.table| == INODES && i < INODES && n <= b.table[i].sz
    && b'.inUse == b.inUse && |b'.table| == INODES
    && b'.table == b.table[i := b.table[i].(db := b'.table[i].db, sz := Max(b.table[i].sz, n + |d|))]
    && Content(b'.table[i], blocks') == Patch(Content(b.table[i], blocks), n, d)
    && (forall j | 0 <= j < INODES && b.inUse[j] &&
       j != i :: Content(b.table[j], blocks') == Content(b.table[j], blocks))
    && Budget(b', i) == Budget(b, i)
  }

  lemma OthersKept(b: Books, blocks: seq<Block>, i: nat, p: nat, blk: Block)
    requires Balanced(b) && |blocks| == BLKS && p < BLKS && OthersAvoid(b, i, p)
    ensures forall j | 0 <= j < INODES && b.inUse[j] && j != i ::
              Content(b.table[j], blocks[p := blk]) == Content(b.table[j], blocks)
  {
    forall j | 0 <= j < INODES && b.inUse[j] && j != i
      ensures Content(b.table[j], blocks[p := blk]) == Content(b.table[j], blocks)
    {
      OwnIsReadable(b, j);
      ContentFrame(b.table[j], blocks, p, blk);
    }
  }

  /** The chunk replaces bytes of a block the file already has. */
  lemma WroteInPlace(b: Books, blocks: seq<Block>, i: nat, n: nat, d: seq<byte>)
    requires Balanced(b) && |blocks| == BLKS && i < INODES && b.inUse[i] && n <= b.table[i].sz && n < MAX_SZ
    requires 0 < |d| <= BLK_SZ - n % BLK_SZ && b.table[i].db[n / BLK_SZ] != 0
    ensures var p := b.table[i].db[n / BLK_SZ];
      var b' := b.(table := b.table[i := b.table[i].(sz := Max(b.table[i].sz, n + |d|))]);
      && p < BLKS && Balanced(b')
      && Wrote(b, blocks, b', blocks[p := PatchBlock(blocks[p], n % BLK_SZ, d)], i, n, d)
  {
    var ino, bi := b.table[i], n / BLK_SZ;
    var p, ino' := ino.db[bi], ino.(sz := Max(ino.sz, n + |d|));
    BlockIndex(n);
    OwnIsReadable(b, i);
    assert p < BLKS;
    var blk := PatchBlock(blocks[p], n % BLK_SZ, d);
    assert Content(ino', blocks[p := blk]) == Patch(Content(ino, blocks), n, d) by {
      OwnDistinct(b, i, bi);
      assert ino' == ino.(db := ino.db[bi := p], sz := ino'.sz);
      ChunkWritten(ino, blocks, n, d, p, blocks[p], ino');
    }
    OthersDisjoint(b, i, bi);
    OthersKept(b, blocks, i, p, blk);
    BooksInPlace(b, i, n, |d|);
  }

  /** The chunk starts a block that was free. */
  lemma WroteNewBlock(b: Books, blocks: seq<Block>, i: nat, bi: nat, d: nat, base: Block, chunk: seq<byte>)
    requires Balanced(b) && |blocks| == BLKS && i < INODES && b.inUse[i] && d < DATA_BLKS && !b.used[d]
    requires 0 < |chunk| <= BLK_SZ && b.table[i].sz == bi * BLK_SZ < MAX_SZ
    ensures bi < DIRECT && b.fblks > 0 && Balanced(Grown(b, i, bi, d, |chunk|))
    ensures Wrote(b, blocks, Grown(b, i, bi, d, |chunk|), blocks[FIRST + d := PatchBlock(base, 0, chunk)],
                  i, b.table[i].sz, chunk)
  {
    BooksGrown(b, i, bi, d, |chunk|);
    FreeDisjoint(b, i, d);
    var ino, p, blk := b.table[i], FIRST + d, PatchBlock(base, 0, chunk);
    var ino' := ino.(db := ino.db[bi := p], sz := ino.sz + |chunk|);
    assert Content(ino', blocks[p := blk]) == Patch(Content(ino, blocks), ino.sz, chunk) by {
      InBlock(ino.sz, bi);
      OwnIsReadable(b, i);
      ChunkWritten(ino, blocks, ino.sz, chunk, p, base, ino');
    }
    OthersKept(b, blocks, i, p, blk);
  }

  /** Chunks written one after the other are one write. */
  lemma WroteTwice(b: Books, blocks: seq<Block>, b1: Books, blocks1: seq<Block>, b2: Books, blocks2: seq<Block>,
                   i: nat, n: nat, d: seq<byte>, e: seq<byte>)
    requires Wrote(b, blocks, b1, blocks1, i, n, d) && Wrote(b1, blocks1, b2, blocks2, i, n + |d|, e)
    ensures Wrote(b, blocks, b2, blocks2, i, n, d + e)
  {
    PatchTwice(Content(b.table[i], blocks), n, d, e);
  }

  /** How long file i can get with the blocks that are free. */
  function Limit(b: Books, i: nat): nat
    requires i < |b.table|
  {
    Min(MAX_SZ, Budget(b, i) * BLK_SZ)
  }

  /** A file that reaches its limit has twelve blocks, or there is no free block left. */
  lemma FullAtLimit(b: Books, i: nat)
    requires Balanced(b) && i < INODES && b.inUse[i] && Limit(b, i) <= b.table[i].sz
    ensures Limit(b, i) == 49152 || b.fblks == 0
  {
    SizeWithinLimit(b, i);
    BlockIndex(b.table[i].sz);
  }

  lemma SizeWithinLimit(b: Books, i: nat)
    requires Balanced(b) && i < INODES && b.inUse[i]
    ensures b.table[i].sz <= Limit(b, i)
    ensures b.fblks == 0 && b.table[i].sz % BLK_SZ == 0 ==> b.table[i].sz == Limit(b, i)
  {
    var sz := b.table[i].sz;
    BlockIndex(sz);
    BlocksOfBlock(sz, sz / BLK_SZ);
  }

  /** Only the time stamp changed: the books still balance and the bytes are the same. */
  lemma Restamped(b: Books, i: nat, t: uint64)
    requires Balanced(b) && i < INODES && b.inUse[i]
    ensures Balanced(b.(table := b.table[i := b.table[i].(modified := t)]))
  {
    FileBlocksUpdate(b.inUse, b.table, i, true, b.table[i].(modified := t));
    assert b.inUse[i := true] == b.inUse;
  }

  /** A write of d at pos of file i, from the state (b, blocks) to (b', blocks'), within the file's limit. */
  ghost predicate Progress(b: Books, blocks: seq<Block>, b': Books, blocks': seq<Block>, i: nat, pos: nat,
      d: seq<byte>) {
    && Wrote(b, blocks, b', blocks', i, pos, d)
    && Balanced(b') && b'.inUse[i] && b'.table[i].sz <= Limit(b, i)
  }

  lemma ProgressStart(b: Books, blocks: seq<Block>, i: nat, pos: nat)
    requires Balanced(b) && i < INODES && b.inUse[i] && pos <= b.table[i].sz
    ensures Progress(b, blocks, b, blocks, i, pos, [])
  {
    var c := Content(b.table[i], blocks);
    assert Patch(c, pos, []) == c;
    SizeWithinLimit(b, i);
  }

  /** One turn of the write loop for chunk d at n: written, or nothing to write it to. */
  ghost predicate Turn(ok: bool, b: Books, blocks: seq<Block>, b': Books, blocks': seq<Block>, i: nat, n: nat,
      d: seq<byte>) {
    if ok then Wrote(b, blocks, b', blocks', i, n, d) && Balanced(b')
    else b' == b && blocks' == blocks && i < |b.table| && n == Limit(b, i)
  }

  lemma ProgressTurn(ok: bool, b: Books, blocks: seq<Block>, b1: Books, blocks1: seq<Block>, b2: Books,
                     blocks2: seq<Block>,
                     i: nat, pos: nat, data: seq<byte>, wr: nat, ch: nat, wr': nat)
    requires wr + ch <= |data| && wr' == (if ok then wr + ch else wr)
    requires Progress(b, blocks, b1, blocks1, i, pos, data[..wr])
    requires Turn(ok, b1, blocks1, b2, blocks2, i, pos + wr, data[wr..wr + ch])
    ensures Progress(b, blocks, b2, blocks2, i, pos, data[..wr'])
    ensures !ok ==> pos + wr == Limit(b, i)
  {
    if ok {
      WroteTwice(b, blocks, b1, blocks1, b2, blocks2, i, pos, data[..wr], data[wr..wr + ch]);
      assert data[..wr + ch] == data[..wr] + data[wr..wr + ch];
      SizeWithinLimit(b2, i);
    }
  }

  lemma ProgressFacts(b: Books, blocks: seq<Block>, b': Books, blocks': seq<Block>, i: nat, pos: nat, d: seq<byte>)
    requires Progress(b, blocks, b', blocks', i, pos, d)
    ensures Balanced(b') && i < INODES && b'.inUse == b.inUse && b'.inUse[i]
    ensures pos + |d| <= b'.table[i].sz <= MAX_SZ && |b'.table[i].db| == DIRECT
    ensures pos + |d| <= Limit(b', i) == Limit(b, i) <= MAX_SZ
  {
  }

  /** Past the last direct block a file is full. */
  lemma FullAt(b: Books, blocks: seq<Block>, b': Books, blocks': seq<Block>, i: nat, pos: nat, d: seq<byte>)
    requires Progress(b, blocks, b', blocks', i, pos, d) && pos + |d| >= MAX_SZ
    ensures i < |b.table| && pos + |d| == Limit(b, i)
  {
    ProgressFacts(b, blocks, b', blocks', i, pos, d);
  }
}
