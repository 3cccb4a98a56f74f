/** Names, descriptors and the inode table of fs/nfs.c as values: what nfs_open and nfs_close do to them. */
module NameModel {
  import opened Bytes
  import opened BlockCache
  import opened FileModel

  const CREAT: bv8 := 0x10

  // ---------- names ----------

  function Take(s: string, n: nat): string {
    if |s| < n then s else s[..n]
  }

  /** strncmp(a, b, NFS_NAME_MAX) == 0 for strings without an inner NUL. */
  predicate SameName(a: string, b: string) {
    Take(a, NAME_MAX) == Take(b, NAME_MAX)
  }

  /** strncpy(name, path, NFS_NAME_MAX - 1) into a zeroed field. */
  function Stored(path: string): string {
    Take(path, NAME_MAX - 1)
  }

  lemma StoredMatchesIff(path: string)
    ensures SameName(Stored(path), path) <==> |path| <= 59
  {
  }

  // ---------- searches ----------

  /** The first position whose element satisfies p, or -1. */
  function First<T>(p: T -> bool, s: seq<T>): (i: int)
    ensures -1 <= i < |s|
    ensures i >= 0 ==> p(s[i]) && forall j | 0 <= j < i :: !p(s[j])
    ensures i < 0 ==> forall j | 0 <= j < |s| :: !p(s[j])
  {
    if s == [] then -1
    else
      var r := First(p, s[..|s| - 1]);
      if r >= 0 then r else if p(s[|s| - 1]) then |s| - 1 else -1
  }

  predicate Match(inUse: bool, ino: Inode, path: string) {
    inUse && SameName(ino.name, path)
  }

  /** The first inode in use whose name is path's, or -1. */
  function Lookup(inUse: seq<bool>, table: seq<Inode>, path: string): (i: int)
    requires |inUse| == |table|
    ensures -1 <= i < |inUse|
    ensures i >= 0 ==> Match(inUse[i], table[i], path)
    ensures i >= 0 ==> forall j | 0 <= j < i :: !Match(inUse[j], table[j], path)
    ensures i < 0 ==> forall j | 0 <= j < |inUse| :: !Match(inUse[j], table[j], path)
  {
    if inUse == [] then -1
    else
      var n := |inUse| - 1;
      var r := Lookup(inUse[..n], table[..n], path);
      if r >= 0 then r else if Match(inUse[n], table[n], path) then n else -1
  }

  lemma FirstIs<T>(p: T -> bool, s: seq<T>, i: int)
    requires -1 <= i < |s|
    requires i >= 0 ==> p(s[i])
    requires forall j | 0 <= j < if i < 0 then |s| else i :: !p(s[j])
    ensures First(p, s) == i
  {
  }

  lemma LookupIs(inUse: seq<bool>, table: seq<Inode>, path: string, i: int)
    requires |inUse| == |table| && -1 <= i < |inUse|
    requires i >= 0 ==> Match(inUse[i], table[i], path)
    requires forall j | 0 <= j < if i < 0 then |inUse| else i :: !Match(inUse[j], table[j], path)
    ensures Lookup(inUse, table, path) == i
  {
  }

  // ---------- open and close ----------

  datatype Names = Names(inUse: seq<bool>, table: seq<Inode>, fds: seq<Fd>)

  ghost predicate Wf(s: Names) {
    |s.inUse| == |s.table| == INODES && |s.fds| == MAX_FDS
  }

  function NewInode(inum: nat, path: string, now: uint64): Inode {
    Inode(inum, 0, now, now, seq(DIRECT, _ => 0), Stored(path))
  }

  predicate Closed(f: Fd) { !f.open }

  predicate Unset(b: bool) { !b }

  function OpenSpec(s: Names, path: string, flags: bv8, now: uint64): (Names, int)
    requires Wf(s)
  {
    var fd := First(Closed, s.fds);
    if fd < 0 then (s, -1)
    else
      var i := Lookup(s.inUse, s.table, path);
      if i >= 0 then (s.(fds := s.fds[fd := Fd(true, s.table[i], 0, flags)]), fd)
      else if flags & CREAT == 0 then (s, -1)
      else
        var n := First(Unset, s.inUse);
        if n < 0 then (s, -1)
        else
          var ino := NewInode(n, path, now);
          (Names(s.inUse[n := true], s.table[n := ino], s.fds[fd := Fd(true, ino, 0, flags)]), fd)
  }

  function CloseSpec(s: Names, fd: int): Names
    requires Wf(s)
  {
    if 0 <= fd < MAX_FDS then s.(fds := s.fds[fd := s.fds[fd].(open := false)]) else s
  }

  /** The inodes whose name is path's: in use, and equal in the first 60 characters. */
  ghost predicate Named(s: Names, path: string, i: int)
    requires Wf(s)
  {
    0 <= i < INODES && s.inUse[i] && SameName(s.table[i].name, path)
  }

  ghost predicate HasClosed(s: Names)
    requires Wf(s)
  {
    exists f | 0 <= f < MAX_FDS :: !s.fds[f].open
  }

  ghost predicate HasUnused(s: Names)
    requires Wf(s)
  {
    exists i | 0 <= i < INODES :: !s.inUse[i]
  }

  /** What nfs_open answers and leaves, from what the path names, the create bit and what is free. */
  ghost predicate Opened(s: Names, path: string, flags: bv8, now: uint64, s': Names, fd: int)
    requires Wf(s) && Wf(s')
  {
    var named := exists i :: Named(s, path, i);
    && (fd == -1 <==> !HasClosed(s) || (!named && (flags & 0x10 == 0 || !HasUnused(s))))
    && (fd == -1 ==> s' == s)
    && (fd != -1 ==> OpenedAt(s, flags, s', fd))
    && (fd != -1 ==> if named then Found(s, path, s', fd) else Created(s, path, now, s', fd))
  }

  /** Descriptor fd was the first closed one and stands at the start of a file; no other descriptor changed. */
  ghost predicate OpenedAt(s: Names, flags: bv8, s': Names, fd: int)
    requires Wf(s) && Wf(s')
  {
    && 0 <= fd < MAX_FDS && !s.fds[fd].open && (forall f | 0 <= f < fd :: s.fds[f].open)
    && s'.fds == s.fds[fd := Fd(true, s'.fds[fd].ino, 0, flags)]
  }

  /** It is the first file of that name, and nothing was created. */
  ghost predicate Found(s: Names, path: string, s': Names, fd: nat)
    requires Wf(s) && Wf(s') && fd < MAX_FDS
  {
    && s'.inUse == s.inUse && s'.table == s.table
    && exists i :: Named(s, path, i) && (forall j | 0 <= j < i :: !Named(s, path, j)) && s'.fds[fd].ino == s.table[i]
  }

  /** It is a new, empty file in the first unused inode. */
  ghost predicate Created(s: Names, path: string, now: uint64, s': Names, fd: nat)
    requires Wf(s) && Wf(s') && fd < MAX_FDS
  {
    var ino := s'.fds[fd].ino;
    && ino.inum < INODES && !s.inUse[ino.inum] && (forall j | 0 <= j < ino.inum :: s.inUse[j])
    && s'.inUse == s.inUse[ino.inum := true] && s'.table == s.table[ino.inum := ino]
    && ino.sz == 0 && ino.db == seq(12, _ => 0) && ino.created == ino.modified == now
    && ino.name == if |path| < 60 then path else path[..59]
  }

  /** An inode is taken exactly when the path names none, the create bit is set and there is room for one. */
  lemma TakenIff(s: Names, path: string, flags: bv8, now: uint64, s': Names, fd: int)
    requires Wf(s) && Wf(s') && Opened(s, path, flags, now, s', fd)
    ensures s'.inUse != s.inUse <==>
            (forall i :: !Named(s, path, i)) && flags & 0x10 != 0 && HasClosed(s) && HasUnused(s)
  {
    if fd != -1 && forall i :: !Named(s, path, i) {
      var n := s'.fds[fd].ino.inum;
      assert s'.inUse[n] && !s.inUse[n];
    }
  }

  lemma OpenSpecOpens(s: Names, path: string, flags: bv8, now: uint64)
    requires Wf(s)
    ensures Wf(OpenSpec(s, path, flags, now).0)
    ensures Opened(s, path, flags, now, OpenSpec(s, path, flags, now).0, OpenSpec(s, path, flags, now).1)
  {
    var (s', fd) := OpenSpec(s, path, flags, now);
    var i := Lookup(s.inUse, s.table, path);
    if i >= 0 {
      assert Named(s, path, i) && forall j | 0 <= j < i :: !Named(s, path, j);
    } else {
      assert forall j :: !Named(s, path, j);
    }
    if First(Closed, s.fds) >= 0 {
      assert Closed(s.fds[First(Closed, s.fds)]);
      if First(Unset, s.inUse) >= 0 {
        assert Unset(s.inUse[First(Unset, s.inUse)]);
      }
    }
  }

  /** An open descriptor holds its inode as the table has it, and no two hold the same one. */
  ghost predicate Descriptors(s: Names) {
    && Wf(s)
    && (forall f | 0 <= f < MAX_FDS && s.fds[f].open ::
          var ino := s.fds[f].ino;
          ino.inum < INODES && s.inUse[ino.inum] && s.table[ino.inum] == ino && s.fds[f].pos <= ino.sz)
    && (forall f, g | 0 <= f < g < MAX_FDS && s.fds[f].open && s.fds[g].open :: s.fds[f].ino.inum != s.fds[g].ino.inum)
  }

  /** Inodes are handed out from the front and never given back. */
  ghost predicate FrontFilled(inUse: seq<bool>) {
    forall i, j | 0 <= i < j < |inUse| && inUse[j] :: inUse[i]
  }

  ghost predicate Numbered(s: Names)
    requires Wf(s)
  {
    forall i | 0 <= i < INODES && s.inUse[i] :: s.table[i].inum == i
  }

  ghost predicate AlreadyOpen(s: Names, path: string)
    requires Wf(s)
  {
    exists f | 0 <= f < MAX_FDS :: s.fds[f].open && s.fds[f].ino.inum == Lookup(s.inUse, s.table, path)
  }

  /** nfs_open keeps one descriptor per inode unless it succeeds on a file that is open already. */
  lemma OpenKeepsDescriptorsIff(s: Names, path: string, flags: bv8, now: uint64)
    requires Descriptors(s) && Numbered(s) && FrontFilled(s.inUse)
    ensures var (s', fd) := OpenSpec(s, path, flags, now);
      && Wf(s') && Numbered(s') && FrontFilled(s'.inUse)
      && (Descriptors(s') <==> fd < 0 || !AlreadyOpen(s, path))
  {
    var (s', fd) := OpenSpec(s, path, flags, now);
    if fd >= 0 {
      var i := Lookup(s.inUse, s.table, path);
      if i >= 0 && AlreadyOpen(s, path) {
        var f :| 0 <= f < MAX_FDS && s.fds[f].open && s.fds[f].ino.inum == i;
        assert s'.fds[f].open && s'.fds[fd].open && f != fd;
        assert s'.fds[f].ino.inum == s'.fds[fd].ino.inum;
      }
    }
  }

  lemma CloseKeepsDescriptors(s: Names, fd: int)
    requires Descriptors(s)
    ensures Descriptors(CloseSpec(s, fd))
  {
  }

  /** A file just created answers to its own path exactly when the path fits the name field. */
  lemma CreatedFoundIff(s: Names, path: string, flags: bv8, now: uint64)
    requires Wf(s) && Lookup(s.inUse, s.table, path) < 0
    requires OpenSpec(s, path, flags, now).1 >= 0
    ensures var (s', fd) := OpenSpec(s, path, flags, now);
      Lookup(s'.inUse, s'.table, path) == (if |path| <= 59 then s'.fds[fd].ino.inum else -1)
  {
    var n := First(Unset, s.inUse);
    StoredMatchesIff(path);
    LookupAdded(s.inUse, s.table, path, n, NewInode(n, path, now));
  }

  lemma LookupAdded(inUse: seq<bool>, table: seq<Inode>, path: string, n: nat, ino: Inode)
    requires |inUse| == |table| && n < |inUse| && Lookup(inUse, table, path) < 0
    ensures Lookup(inUse[n := true], table[n := ino], path) == if SameName(ino.name, path) then n else -1
  {
    var u, t := inUse[n := true], table[n := ino];
    forall j | 0 <= j < |u| && j != n ensures !Match(u[j], t[j], path) {
      assert !Match(inUse[j], table[j], path);
    }
    LookupIs(u, t, path, if SameName(ino.name, path) then n else -1);
  }

  /** Once a path finds an inode, opening and creating other files leaves it finding the same one. */
  lemma LookupStable(s: Names, path: string, flags: bv8, now: uint64, other: string)
    requires Wf(s) && FrontFilled(s.inUse) && Lookup(s.inUse, s.table, other) >= 0
    ensures var (s', fd) := OpenSpec(s, path, flags, now);
      Lookup(s'.inUse, s'.table, other) == Lookup(s.inUse, s.table, other)
  {
    var (s', fd) := OpenSpec(s, path, flags, now);
    var i := Lookup(s.inUse, s.table, other);
    assert forall j | 0 <= j <= i :: s'.inUse[j] == s.inUse[j] && s'.table[j] == s.table[j];
    LookupIs(s'.inUse, s'.table, other, i);
  }

  /** Closing a file and opening it again by a path that finds it brings back the same inode at position 0. */
  lemma CloseThenReopen(s: Names, fd: nat, path: string, flags: bv8, now: uint64)
    requires Descriptors(s) && Numbered(s) && FrontFilled(s.inUse)
    requires fd < MAX_FDS && s.fds[fd].open && Lookup(s.inUse, s.table, path) == s.fds[fd].ino.inum
    ensures var (s', g) := OpenSpec(CloseSpec(s, fd), path, flags, now);
      && 0 <= g < MAX_FDS && s'.fds[g] == Fd(true, s.fds[fd].ino, 0, flags)
      && s'.table == s.table && s'.inUse == s.inUse && Descriptors(s')
  {
    var c := CloseSpec(s, fd);
    CloseKeepsDescriptors(s, fd);
    assert Closed(c.fds[fd]);
    forall f | 0 <= f < MAX_FDS && c.fds[f].open ensures c.fds[f].ino.inum != s.fds[fd].ino.inum {
      assert s.fds[f].open && f != fd;
    }
    assert !AlreadyOpen(c, path);
    OpenKeepsDescriptorsIff(c, path, flags, now);
  }

  /** Two creating opens of one path of sixty characters or more make two files. */
  lemma LongPathMakesTwoFiles(s: Names, path: string, now: uint64)
    requires Wf(s) && |path| >= NAME_MAX && Lookup(s.inUse, s.table, path) < 0
    requires OpenSpec(s, path, CREAT, now).1 >= 0
    requires OpenSpec(OpenSpec(s, path, CREAT, now).0, path, CREAT, now).1 >= 0
    ensures var (s1, f) := OpenSpec(s, path, CREAT, now);
      var (s2, g) := OpenSpec(s1, path, CREAT, now);
      s2.fds[f].ino.inum != s2.fds[g].ino.inum && s2.fds[f].ino.name == s2.fds[g].ino.name
  {
    var n := First(Unset, s.inUse);
    StoredMatchesIff(path);
    LookupAdded(s.inUse, s.table, path, n, NewInode(n, path, now));
    var s1 := OpenSpec(s, path, CREAT, now).0;
    var n1 := First(Unset, s1.inUse);
    LookupAdded(s1.inUse, s1.table, path, n1, NewInode(n1, path, now));
  }

  /**
    What nfs_write leaves behind when it took data through descriptor fd at time now: the file has
    data at the descriptor's position, the position is past it, and no other file or descriptor moved.
  */
  ghost predicate WriteResult(s: Names, blocks: seq<Block>, fd: nat, data: seq<byte>, now: uint64,
                              s': Names, blocks': seq<Block>)
    requires Descriptors(s) && fd < MAX_FDS && s.fds[fd].open
  {
    var f := s.fds[fd];
    var i, ino := f.ino.inum, f.ino;
    && |s'.table| == INODES && s'.inUse == s.inUse
    && s'.table == s.table[i := ino.(db := s'.table[i].db, sz := Max(ino.sz, f.pos + |data|), modified := now)]
    && s'.fds == s.fds[fd := Fd(true, s'.table[i], f.pos + |data|, f.flags)]
    && Content(s'.table[i], blocks') == Patch(Content(ino, blocks), f.pos, data)
    && forall j | 0 <= j < INODES && s.inUse[j] && j != i :: Content(s.table[j], blocks') == Content(s.table[j], blocks)
  }

  lemma WriteKeepsDescriptors(s: Names, blocks: seq<Block>, fd: nat, data: seq<byte>, now: uint64,
                              s': Names, blocks': seq<Block>)
    requires Descriptors(s) && fd < MAX_FDS && s.fds[fd].open
    requires WriteResult(s, blocks, fd, data, now, s', blocks')
    ensures Descriptors(s')
  {
  }

  /** From the end of the write loop to the result: store size and position, stamp and save the inode. */
  lemma WriteCommits(s: Names, b: Books, blocks: seq<Block>, fd: nat, data: seq<byte>, now: uint64,
                     b': Books, blocks': seq<Block>)
    requires Descriptors(s) && fd < MAX_FDS && s.fds[fd].open && s.table == b.table && s.inUse == b.inUse
    requires Wrote(b, blocks, b', blocks', s.fds[fd].ino.inum, s.fds[fd].pos, data)
    ensures var ino := b'.table[s.fds[fd].ino.inum].(modified := now);
      WriteResult(s, blocks, fd, data, now,
        Names(s.inUse, s.table[ino.inum := ino], s.fds[fd := Fd(true, ino, s.fds[fd].pos + |data|, s.fds[fd].flags)]),
        blocks')
  {
  }

  lemma SeekKeepsDescriptors(s: Names, fd: nat, pos: nat)
    requires Descriptors(s) && fd < MAX_FDS && s.fds[fd].open && pos <= s.fds[fd].ino.sz
    ensures Descriptors(s.(fds := s.fds[fd := s.fds[fd].(pos := pos)]))
  {
  }

  /**
    Write, close, reopen: the new descriptor stands for the old content with the data at the old
    position, and reading where the data went gives it back.
  */
  lemma WriteCloseReopen(s: Names, blocks: seq<Block>, fd: nat, data: seq<byte>, now: uint64,
                         s1: Names, blocks1: seq<Block>, path: string, flags: bv8, later: uint64)
    requires Descriptors(s) && fd < MAX_FDS && s.fds[fd].open && FrontFilled(s.inUse) && Numbered(s)
    requires Lookup(s.inUse, s.table, path) == s.fds[fd].ino.inum
    requires WriteResult(s, blocks, fd, data, now, s1, blocks1)
    ensures Wf(s1)
    ensures var (s2, g) := OpenSpec(CloseSpec(s1, fd), path, flags, later);
      && 0 <= g < MAX_FDS && s2.fds[g].open && s2.fds[g].pos == 0 && Descriptors(s2)
      && var c := Content(s2.fds[g].ino, blocks1);
      && c == Patch(Content(s.fds[fd].ino, blocks), s.fds[fd].pos, data)
      && c[s.fds[fd].pos..s.fds[fd].pos + |data|] == data
  {
    WriteKeepsDescriptors(s, blocks, fd, data, now, s1, blocks1);
    LookupSameNames(s.inUse, s.table, s1.table, path);
    CloseThenReopen(s1, fd, path, flags, later);
  }

  lemma LookupSameNames(inUse: seq<bool>, t: seq<Inode>, t': seq<Inode>, path: string)
    requires |inUse| == |t| == |t'| && forall j | 0 <= j < |t| :: t'[j].name == t[j].name
    ensures Lookup(inUse, t', path) == Lookup(inUse, t, path)
  {
  }
}
