/** The descriptor layer of fs/file.c as values: the global open-file table, the
    descriptor table of a process, and what each call does to them and to the file
    system. Module FileImpl runs the same calls on arrays and is proved to leave the
    states these functions describe. */
module File {
  import opened CTypes
  import opened Fs

  const MAX_OPEN_FILES: int := 16
  /** Not defined by any header of the kernel; sixteen, like MAX_OPEN_FILES. */
  const MAX_PROCESS_FD: int := 16

  const O_RDONLY: U32 := 0x01
  const O_WRONLY: U32 := 0x02
  const O_RDWR: U32 := 0x03
  const O_CREAT: U32 := 0x04
  const O_TRUNC: U32 := 0x08
  const O_APPEND: U32 := 0x10

  const SEEK_SET: int := 0
  const SEEK_CUR: int := 1
  const SEEK_END: int := 2

  /** The bytes the twelve direct blocks cover; a write stops there. */
  const DIRECT_BYTES: int := DIRECT_BLOCKS * BLOCK_SIZE

  /** An entry of global_file_table. */
  datatype GlobalEntry = GlobalEntry(inodeNum: U32, flags: U32, position: U32, refcount: int, inUse: bool)

  /** An entry of a process's fds table. */
  datatype FdEntry = FdEntry(isOpen: bool, globalIndex: int)

  /** The file system, global_file_table, and the `initialized` flag of init_global_table. */
  datatype Files = Files(fs: FsState, table: seq<GlobalEntry>, tableReady: bool)

  predicate WellFormedFiles(s: Files)
  {
    WellFormed(s.fs) && |s.table| == MAX_OPEN_FILES
  }

  /** A descriptor table of the right size whose open descriptors name global entries. */
  predicate WellFormedFds(fds: seq<FdEntry>)
  {
    |fds| == MAX_PROCESS_FD &&
    forall i :: 0 <= i < MAX_PROCESS_FD && fds[i].isOpen ==> 0 <= fds[i].globalIndex < MAX_OPEN_FILES
  }

  /** fd names an open descriptor of the table. */
  predicate OpenFd(fds: seq<FdEntry>, fd: int)
    requires WellFormedFds(fds)
  {
    0 <= fd < MAX_PROCESS_FD && fds[fd].isOpen
  }

  // ---------------------------------------------------------------------------
  // Flags
  // ---------------------------------------------------------------------------

  /** flags & mask is not zero. */
  predicate HasFlag(flags: U32, mask: U32)
  {
    (flags as bv32) & (mask as bv32) != 0
  }

  /** The test of file_read: bit O_RDONLY or the bits of O_RDWR. */
  predicate MayRead(flags: U32)
  {
    HasFlag(flags, O_RDONLY) || HasFlag(flags, O_RDWR)
  }

  /** The test of file_write: bit O_WRONLY or the bits of O_RDWR. */
  predicate MayWrite(flags: U32)
  {
    HasFlag(flags, O_WRONLY) || HasFlag(flags, O_RDWR)
  }

  /** Because O_RDWR is O_RDONLY | O_WRONLY, the two checks are the same test: either of
      the two low bits. A write-only descriptor may read and a read-only one may write. */
  lemma PermissionChecksCoincide(flags: U32)
    ensures MayRead(flags) <==> (flags as bv32) & 3 != 0
    ensures MayWrite(flags) <==> (flags as bv32) & 3 != 0
    ensures MayRead(O_WRONLY) && MayWrite(O_RDONLY)
    ensures !MayRead(O_CREAT) && !MayWrite(O_APPEND)
  {
  }

  // ---------------------------------------------------------------------------
  // The tables
  // ---------------------------------------------------------------------------

  /** ensure_fs_initialized: fs_init when the file system is not ready. fs_init always
      succeeds here, so the error path of ensure_fs_initialized is never taken. */
  function FsReady(s: Files): (r: Files)
    requires WellFormedFiles(s)
    ensures WellFormedFiles(r) && r.fs.initialized && r.table == s.table && r.tableReady == s.tableReady
  {
    s.(fs := Init(s.fs))
  }

  /** init_global_table: the first call marks every entry free with refcount 0. */
  function TableReady(s: Files): (r: Files)
    requires WellFormedFiles(s)
    ensures WellFormedFiles(r) && r.tableReady && r.fs == s.fs
  {
    if s.tableReady then s
    else s.(table := seq(MAX_OPEN_FILES, i requires 0 <= i < MAX_OPEN_FILES => s.table[i].(inUse := false, refcount := 0)),
            tableReady := true)
  }

  /** find_free_global_entry from index i on. */
  function FirstFreeEntryFrom(table: seq<GlobalEntry>, i: nat): (r: int)
    requires i <= |table|
    ensures r == -1 || i <= r < |table|
    ensures r == -1 <==> forall j :: i <= j < |table| ==> table[j].inUse
    ensures r >= 0 ==> !table[r].inUse && forall j :: i <= j < r ==> table[j].inUse
    decreases |table| - i
  {
    if i == |table| then -1
    else if !table[i].inUse then i
    else FirstFreeEntryFrom(table, i + 1)
  }

  /** find_free_global_entry: the first entry not in use, or -1. */
  function FirstFreeEntry(table: seq<GlobalEntry>): int
  {
    FirstFreeEntryFrom(table, 0)
  }

  /** find_free_fd from index i on. */
  function FirstFreeFdFrom(fds: seq<FdEntry>, i: nat): (r: int)
    requires i <= |fds|
    ensures r == -1 || i <= r < |fds|
    ensures r == -1 <==> forall j :: i <= j < |fds| ==> fds[j].isOpen
    ensures r >= 0 ==> !fds[r].isOpen && forall j :: i <= j < r ==> fds[j].isOpen
    decreases |fds| - i
  {
    if i == |fds| then -1
    else if !fds[i].isOpen then i
    else FirstFreeFdFrom(fds, i + 1)
  }

  /** find_free_fd: the first closed descriptor, or -1. */
  function FirstFreeFd(fds: seq<FdEntry>): int
  {
    FirstFreeFdFrom(fds, 0)
  }

  // ---------------------------------------------------------------------------
  // Truncation
  // ---------------------------------------------------------------------------

  /** One turn of the O_TRUNC loop: a non-zero pointer is freed and zeroed. */
  function ReleasePointer(m: Meta, n: nat, j: nat): (r: Meta)
    requires WellFormedMeta(m) && n < MAX_FILES && j < DIRECT_BLOCKS
    ensures WellFormedMeta(r)
  {
    var ino := m.inodes[n];
    if ino.blocks[j] == 0 then m
    else SetInode(Fs.FreeBlock(m, ino.blocks[j]), n, ino.(blocks := ino.blocks[j := 0]))
  }

  /** The O_TRUNC loop after its first i turns. */
  function ReleasedUpTo(m: Meta, n: nat, i: nat): (r: Meta)
    requires WellFormedMeta(m) && n < MAX_FILES && i <= DIRECT_BLOCKS
    ensures WellFormedMeta(r)
    decreases i
  {
    if i == 0 then m else ReleasePointer(ReleasedUpTo(m, n, i - 1), n, i - 1)
  }

  /** The O_TRUNC branch of file_open: size 0, then each non-zero direct pointer and the
      indirect pointer freed and zeroed. */
  function Truncate(m: Meta, n: nat): (r: Meta)
    requires WellFormedMeta(m) && n < MAX_FILES
    ensures WellFormedMeta(r)
  {
    var m1 := ReleasedUpTo(SetInode(m, n, m.inodes[n].(size := 0)), n, DIRECT_BLOCKS);
    var ino := m1.inodes[n];
    if ino.indirect != 0 then SetInode(Fs.FreeBlock(m1, ino.indirect), n, ino.(indirect := 0)) else m1
  }

  /** What the first i turns of the O_TRUNC loop leave in r: pointers 0..i-1 are zero,
      the rest and every other field and inode are as they were, the bits of the freed
      blocks are clear and no other bit changed. */
  ghost predicate ReleasedShape(m: Meta, n: nat, i: nat, r: Meta)
    requires WellFormedMeta(m) && WellFormedMeta(r) && n < MAX_FILES && i <= DIRECT_BLOCKS
  {
    r.sb == m.sb.(freeBlocks := r.sb.freeBlocks) && r.inodeBits == m.inodeBits &&
    (forall j :: 0 <= j < MAX_FILES && j != n ==> r.inodes[j] == m.inodes[j]) &&
    r.inodes[n] == m.inodes[n].(blocks := r.inodes[n].blocks) &&
    (forall j :: 0 <= j < i ==> r.inodes[n].blocks[j] == 0) &&
    (forall j :: i <= j < DIRECT_BLOCKS ==> r.inodes[n].blocks[j] == m.inodes[n].blocks[j]) &&
    (forall j :: 0 <= j < i && 0 < m.inodes[n].blocks[j] < m.sb.totalBlocks ==> !r.blockBits[m.inodes[n].blocks[j]]) &&
    (forall b :: 0 <= b < MAX_BLOCKS && (forall j :: 0 <= j < i ==> m.inodes[n].blocks[j] != b) ==>
       r.blockBits[b] == m.blockBits[b])
  }

  /** The first i turns of the O_TRUNC loop have the effect ReleasedShape describes. */
  lemma {:induction false} ReleasedUpToEffect(m: Meta, n: nat, i: nat)
    requires WellFormedMeta(m) && n < MAX_FILES && i <= DIRECT_BLOCKS
    ensures ReleasedShape(m, n, i, ReleasedUpTo(m, n, i))
    decreases i
  {
    if i > 0 {
      ReleasedUpToEffect(m, n, i - 1);
      ReleasedTurn(m, n, i - 1, ReleasedUpTo(m, n, i - 1), ReleasedUpTo(m, n, i));
    }
  }

  /** Turn j of the O_TRUNC loop, from a state p with the shape of its first j turns,
      leaves a state r with the shape of its first j + 1 turns. */
  lemma ReleasedTurn(m: Meta, n: nat, j: nat, p: Meta, r: Meta)
    requires WellFormedMeta(m) && WellFormedMeta(p) && n < MAX_FILES && j < DIRECT_BLOCKS
    requires ReleasedShape(m, n, j, p) && r == ReleasePointer(p, n, j)
    ensures ReleasedShape(m, n, j + 1, r)
  {
    var b := p.inodes[n].blocks[j];
    assert b == m.inodes[n].blocks[j];
    if b != 0 {
      assert r.inodes[n] == p.inodes[n].(blocks := p.inodes[n].blocks[j := 0]);
    }
  }

  /** After O_TRUNC the inode is empty: size, every direct pointer and the indirect
      pointer are zero, every block it pointed to is free, and the other inodes are
      untouched. */
  lemma TruncateEmpties(m: Meta, n: nat)
    requires WellFormedMeta(m) && n < MAX_FILES
    ensures var r := Truncate(m, n);
      r.inodes[n].size == 0 && r.inodes[n].indirect == 0 &&
      (forall j :: 0 <= j < DIRECT_BLOCKS ==> r.inodes[n].blocks[j] == 0) &&
      (forall j :: 0 <= j < DIRECT_BLOCKS && 0 < m.inodes[n].blocks[j] < m.sb.totalBlocks ==>
         !r.blockBits[m.inodes[n].blocks[j]]) &&
      (0 < m.inodes[n].indirect < m.sb.totalBlocks ==> !r.blockBits[m.inodes[n].indirect]) &&
      (forall j :: 0 <= j < MAX_FILES && j != n ==> r.inodes[j] == m.inodes[j]) &&
      r.inodeBits == m.inodeBits
  {
    var m0 := SetInode(m, n, m.inodes[n].(size := 0));
    ReleasedUpToEffect(m0, n, DIRECT_BLOCKS);
  }

  // ---------------------------------------------------------------------------
  // file_open and file_close
  // ---------------------------------------------------------------------------

  /** Lines 57-63 of file_open: find the name, or with O_CREAT create a regular file and
      find it again. */
  function Lookup(s: Files, f: seq<Byte>, flags: U32): (r: (Files, Option<U32>))
    requires WellFormedFiles(s) && |f| >= MAX_FILENAME
    ensures WellFormedFiles(r.0) && r.0.table == s.table && r.0.tableReady == s.tableReady
  {
    var found := Find(s.fs, Some(f));
    if found.Some? then (s, found)
    else if !HasFlag(flags, O_CREAT) then (s, None)
    else
      var (fs1, c) := Create(s.fs, Some(f), FILE_TYPE_REGULAR);
      if c != 0 then (s.(fs := fs1), None) else (s.(fs := fs1), Find(fs1, Some(f)))
  }

  /** The entry file_open fills for inode n. */
  function NewGlobalEntry(s: Files, n: U32, flags: U32): GlobalEntry
    requires WellFormedFiles(s) && n < MAX_FILES
  {
    GlobalEntry(n, flags, if HasFlag(flags, O_APPEND) then s.fs.meta.inodes[n].size else 0, 1, true)
  }

  /** file_open from the moment global entry g and inode n are known. */
  function OpenAt(s: Files, fds: seq<FdEntry>, n: U32, g: nat, flags: U32): (r: (Files, seq<FdEntry>, int))
    requires WellFormedFiles(s) && WellFormedFds(fds) && n < MAX_FILES && g < MAX_OPEN_FILES
    ensures WellFormedFiles(r.0) && WellFormedFds(r.1)
  {
    var e := NewGlobalEntry(s, n, flags);
    var fd := FirstFreeFd(fds);
    if fd < 0 then (s.(table := s.table[g := e.(refcount := 0, inUse := false)]), fds, -1)
    else
      var s1 := s.(table := s.table[g := e]);
      var fds1 := fds[fd := FdEntry(true, g)];
      if HasFlag(flags, O_TRUNC) then (s1.(fs := s1.fs.(meta := Truncate(s1.fs.meta, n))), fds1, fd)
      else (s1, fds1, fd)
  }

  /** file_open once the file system and the table are ready, for a non-NULL name. */
  function OpenReady(s: Files, fds: seq<FdEntry>, f: seq<Byte>, flags: U32): (r: (Files, seq<FdEntry>, int))
    requires WellFormedFiles(s) && WellFormedFds(fds) && |f| >= MAX_FILENAME
    ensures WellFormedFiles(r.0) && WellFormedFds(r.1)
  {
    var (s1, found) := Lookup(s, f, flags);
    if found.None? then (s1, fds, -1)
    else
      var g := FirstFreeEntry(s1.table);
      if g < 0 || found.value >= s1.fs.meta.sb.totalInodes then (s1, fds, -1)
      else OpenAt(s1, fds, found.value, g, flags)
  }

  /** file_open for a process and a non-NULL name: the new descriptor, or -1. */
  function Open(s: Files, fds: seq<FdEntry>, f: seq<Byte>, flags: U32): (r: (Files, seq<FdEntry>, int))
    requires WellFormedFiles(s) && WellFormedFds(fds) && |f| >= MAX_FILENAME
    ensures WellFormedFiles(r.0) && WellFormedFds(r.1)
  {
    OpenReady(TableReady(FsReady(s)), fds, f, flags)
  }

  /** A name that is not there, opened without O_CREAT, gives -1; only the two
      initialisations happen. */
  lemma OpenMissing(s: Files, fds: seq<FdEntry>, f: seq<Byte>, flags: U32)
    requires WellFormedFiles(s) && WellFormedFds(fds) && |f| >= MAX_FILENAME
    requires Find(Init(s.fs), Some(f)).None? && !HasFlag(flags, O_CREAT)
    ensures Open(s, fds, f, flags) == (TableReady(FsReady(s)), fds, -1)
  {
  }

  /** A successful open takes the first free descriptor and the first free global entry,
      fills the entry with the inode, the flags, refcount 1 and the position (the size
      under O_APPEND, else 0), and changes no other descriptor or entry. So two opens of
      one file get two entries with positions of their own. */
  lemma OpenTakesFreeEntry(s: Files, fds: seq<FdEntry>, f: seq<Byte>, flags: U32)
    requires WellFormedFiles(s) && WellFormedFds(fds) && |f| >= MAX_FILENAME
    requires Open(s, fds, f, flags).2 >= 0
    ensures var s0 := TableReady(FsReady(s));
      var (s1, found) := Lookup(s0, f, flags);
      var r := Open(s, fds, f, flags);
      var fd := r.2;
      var g := FirstFreeEntry(s0.table);
      found.Some? && found.value < s1.fs.meta.sb.totalInodes &&
      fd == FirstFreeFd(fds) && 0 <= fd < MAX_PROCESS_FD && !fds[fd].isOpen &&
      0 <= g < MAX_OPEN_FILES && !s0.table[g].inUse &&
      r.1 == fds[fd := FdEntry(true, g)] &&
      r.0.table == s0.table[g := GlobalEntry(found.value, flags,
        if HasFlag(flags, O_APPEND) then s1.fs.meta.inodes[found.value].size else 0, 1, true)]
  {
  }

  /** With no free descriptor, the claimed entry is given back (refcount 0, not in use)
      and file_open answers -1 with the descriptors unchanged. */
  lemma OpenRollsBack(s: Files, fds: seq<FdEntry>, f: seq<Byte>, flags: U32)
    requires WellFormedFiles(s) && WellFormedFds(fds) && |f| >= MAX_FILENAME
    requires FirstFreeFd(fds) == -1
    ensures var r := Open(s, fds, f, flags);
      var s0 := TableReady(FsReady(s));
      var g := FirstFreeEntry(s0.table);
      r.2 == -1 && r.1 == fds &&
      (forall i :: 0 <= i < MAX_OPEN_FILES ==> r.0.table[i].inUse == s0.table[i].inUse) &&
      (g >= 0 && r.0.table != s0.table ==> r.0.table[g].refcount == 0)
  {
  }

  /** O_APPEND | O_TRUNC: the position is set from the size before the truncation runs,
      so it stays at the old size of a file that is now empty. */
  lemma OpenAppendTruncate(s: Files, fds: seq<FdEntry>, f: seq<Byte>, flags: U32)
    requires WellFormedFiles(s) && WellFormedFds(fds) && |f| >= MAX_FILENAME
    requires HasFlag(flags, O_APPEND) && HasFlag(flags, O_TRUNC)
    requires Open(s, fds, f, flags).2 >= 0
    ensures var s0 := TableReady(FsReady(s));
      var (s1, found) := Lookup(s0, f, flags);
      var r := Open(s, fds, f, flags);
      var g := r.1[r.2].globalIndex;
      found.Some? && found.value < MAX_FILES &&
      r.0.table[g].position == s1.fs.meta.inodes[found.value].size &&
      r.0.fs.meta.inodes[found.value].size == 0
  {
    var s0 := TableReady(FsReady(s));
    var (s1, found) := Lookup(s0, f, flags);
    TruncateEmpties(s1.fs.meta, found.value);
  }

  /** file_close for a process. */
  function Close(s: Files, fds: seq<FdEntry>, fd: int): (r: (Files, seq<FdEntry>, int))
    requires WellFormedFiles(s) && WellFormedFds(fds)
    ensures WellFormedFiles(r.0) && WellFormedFds(r.1)
  {
    if !OpenFd(fds, fd) then (s, fds, -1)
    else
      var g := fds[fd].globalIndex;
      var e := s.table[g];
      var rc := e.refcount - 1;
      (s.(table := s.table[g := e.(refcount := rc, inUse := if rc == 0 then false else e.inUse)]),
       fds[fd := fds[fd].(isOpen := false)], 0)
  }

  /** Closing what open just returned closes the descriptor and frees its entry: the
      descriptors are open exactly where they were before the open, and the entry is not
      in use. */
  lemma OpenThenClose(s: Files, fds: seq<FdEntry>, f: seq<Byte>, flags: U32)
    requires WellFormedFiles(s) && WellFormedFds(fds) && |f| >= MAX_FILENAME
    requires Open(s, fds, f, flags).2 >= 0
    ensures var (s1, fds1, fd) := Open(s, fds, f, flags);
      var g := fds1[fd].globalIndex;
      var (s2, fds2, c) := Close(s1, fds1, fd);
      c == 0 && !s2.table[g].inUse && s2.table[g].refcount == 0 && s2.fs == s1.fs &&
      forall i :: 0 <= i < MAX_PROCESS_FD ==> fds2[i].isOpen == fds[i].isOpen
  {
    OpenTakesFreeEntry(s, fds, f, flags);
  }

  /** file_close answers 0 exactly for an open descriptor: it closes that descriptor,
      drops one reference and frees the entry with its last reference, and touches no
      other descriptor or entry. Otherwise it answers -1 and changes nothing, so closing
      a descriptor twice fails the second time. */
  lemma CloseTwice(s: Files, fds: seq<FdEntry>, fd: int)
    requires WellFormedFiles(s) && WellFormedFds(fds)
    ensures var (s1, fds1, r1) := Close(s, fds, fd);
      (r1 == 0 <==> OpenFd(fds, fd)) &&
      (r1 != 0 ==> r1 == -1 && s1 == s && fds1 == fds) &&
      Close(s1, fds1, fd) == (s1, fds1, -1)
    ensures OpenFd(fds, fd) ==>
      var (s1, fds1, _) := Close(s, fds, fd);
      var g := fds[fd].globalIndex;
      s1.fs == s.fs && !fds1[fd].isOpen &&
      s1.table[g].refcount == s.table[g].refcount - 1 &&
      s1.table[g].inUse == (s.table[g].inUse && s.table[g].refcount != 1) &&
      (forall i :: 0 <= i < MAX_PROCESS_FD && i != fd ==> fds1[i] == fds[i]) &&
      (forall i :: 0 <= i < MAX_OPEN_FILES && i != g ==> s1.table[i] == s.table[i])
  {
  }

  // ---------------------------------------------------------------------------
  // The bytes of a file
  // ---------------------------------------------------------------------------

  /** The byte at position p of a file with these block pointers: zero past the direct
      blocks or in a hole, else the byte of the block that pointer names. */
  function FileByte(storage: seq<Byte>, blocks: seq<U32>, p: nat): Byte
    requires |storage| == STORAGE_SIZE && BlockPointers(blocks)
  {
    var bi := p / BLOCK_SIZE;
    if bi >= DIRECT_BLOCKS || blocks[bi] == 0 then 0
    else storage[blocks[bi] * BLOCK_SIZE + p % BLOCK_SIZE]
  }

  /** The byte at the uint32 position pos + k of a file. */
  function FileByteAt(s: FsState, n: nat, pos: U32, k: nat): Byte
    requires WellFormed(s) && n < MAX_FILES
  {
    FileByte(s.storage, s.meta.inodes[n].blocks, (pos + k) % U32_LIMIT)
  }

  /** The len bytes of inode n from the uint32 position pos on. */
  function FileBytes(s: FsState, n: nat, pos: U32, len: nat): (r: seq<Byte>)
    requires WellFormed(s) && n < MAX_FILES
    ensures |r| == len
  {
    seq(len, k requires 0 <= k < len => FileByteAt(s, n, pos, k))
  }

  /** uint32 addition is addition modulo 2^32. */
  lemma Add32IsMod(a: U32, b: U32)
    ensures Add32(a, b) == (a + b) % U32_LIMIT
  {
  }

  /** A position p that is pos + done modulo 2^32, read on by up to the end of its
      block: the positions stay below 2^32 and are pos + done + i modulo 2^32. */
  lemma WrapInChunk(pos: U32, done: nat, i: nat)
    requires i < BLOCK_SIZE - ((pos + done) % U32_LIMIT) % BLOCK_SIZE
    ensures (pos + done) % U32_LIMIT + i < U32_LIMIT
    ensures (pos + done + i) % U32_LIMIT == (pos + done) % U32_LIMIT + i
  {
    var p := (pos + done) % U32_LIMIT;
    assert p - p % BLOCK_SIZE <= U32_LIMIT - BLOCK_SIZE;
  }

  /** Moving a position that is pos + done modulo 2^32 by at most the rest of its block,
      in uint32, gives pos + done + len modulo 2^32. */
  lemma AdvanceInChunk(pos: U32, done: nat, len: nat)
    requires len <= BLOCK_SIZE - ((pos + done) % U32_LIMIT) % BLOCK_SIZE
    ensures Add32((pos + done) % U32_LIMIT, len) == (pos + done + len) % U32_LIMIT
  {
    var p := (pos + done) % U32_LIMIT;
    assert p - p % BLOCK_SIZE <= U32_LIMIT - BLOCK_SIZE;
    assert pos + done == (pos + done) / U32_LIMIT * U32_LIMIT + p;
  }

  // ---------------------------------------------------------------------------
  // file_read
  // ---------------------------------------------------------------------------

  /** The count file_read reads from pos (below the size): count, cut to size - pos when
      pos + count, computed in uint32, passes the size. */
  function ReadCount(pos: U32, size: U32, count: U32): (n: U32)
    requires pos < size
  {
    if Add32(pos, count) > size then size - pos else count
  }

  /** file_read for a process and a non-NULL buffer: the new state, the bytes placed in
      the buffer, and the answer. */
  function Read(s: Files, fds: seq<FdEntry>, fd: int, count: U32): (r: (Files, seq<Byte>, int))
    requires WellFormedFiles(s) && WellFormedFds(fds)
    ensures WellFormedFiles(r.0) && r.0.fs == Init(s.fs)
  {
    var s1 := FsReady(s);
    if !OpenFd(fds, fd) then (s1, [], -1)
    else
      var g := fds[fd].globalIndex;
      var e := s1.table[g];
      if !MayRead(e.flags) || e.inodeNum >= s1.fs.meta.sb.totalInodes then (s1, [], -1)
      else
        var ino := s1.fs.meta.inodes[e.inodeNum];
        if e.position >= ino.size then (s1, [], 0)
        else
          var n := ReadCount(e.position, ino.size, count);
          (s1.(table := s1.table[g := e.(position := Add32(e.position, n))]),
           FileBytes(s1.fs, e.inodeNum, e.position, n),
           ToInt32(n))
  }

  /** Unless pos + count wraps around 2^32, file_read reads min(count, size - pos) bytes,
      never past the end of the file, and the position moves by exactly that many. At or
      past the end it reads nothing and the position stays. */
  lemma ReadStaysInFile(s: Files, fds: seq<FdEntry>, fd: int, count: U32)
    requires WellFormedFiles(s) && WellFormedFds(fds) && OpenFd(fds, fd)
    requires var s1 := FsReady(s); var e := s1.table[fds[fd].globalIndex];
      MayRead(e.flags) && e.inodeNum < s1.fs.meta.sb.totalInodes
    ensures var s1 := FsReady(s); var g := fds[fd].globalIndex; var e := s1.table[g];
      var size := s1.fs.meta.inodes[e.inodeNum].size;
      var r := Read(s, fds, fd, count);
      var n := if e.position >= size then 0 else if count < size - e.position then count else size - e.position;
      (e.position >= size ==> r.0 == s1 && r.2 == 0) &&
      (e.position < size && e.position + count < U32_LIMIT ==>
         |r.1| == n && r.0.table[g].position == e.position + n <= size && r.2 == ToInt32(n))
  {
  }

  // ---------------------------------------------------------------------------
  // file_write
  // ---------------------------------------------------------------------------

  /** The disk with block b zeroed. */
  function ZeroBlock(storage: seq<Byte>, b: nat): (r: seq<Byte>)
    ensures |r| == |storage|
  {
    seq(|storage|, j requires 0 <= j < |storage| =>
      if b * BLOCK_SIZE <= j < b * BLOCK_SIZE + BLOCK_SIZE then NUL else storage[j])
  }

  /** The disk with data[from..from + len) copied to [start, start + len). */
  function Put(storage: seq<Byte>, start: nat, data: seq<Byte>, from: nat, len: nat): (r: seq<Byte>)
    requires from + len <= |data|
    ensures |r| == |storage|
  {
    seq(|storage|, j requires 0 <= j < |storage| =>
      if start <= j < start + len then data[from + (j - start)] else storage[j])
  }

  /** The bytes file_write copies in one turn of its loop: up to the end of the block,
      or what is left. */
  function ChunkLength(pos: U32, left: nat): (len: nat)
    ensures 0 < len <= BLOCK_SIZE - pos % BLOCK_SIZE || left == 0
    ensures len <= left && (len < left ==> len == BLOCK_SIZE - pos % BLOCK_SIZE)
  {
    if BLOCK_SIZE - pos % BLOCK_SIZE > left then left else BLOCK_SIZE - pos % BLOCK_SIZE
  }

  /** One turn of the loop of file_write: stop, or the new state and the bytes written. */
  datatype Chunk = Halted(stopped: FsState) | Copied(next: FsState, len: nat)

  /** One turn of the loop of file_write for inode n at position pos, with done of the
      data written: past the direct blocks it stops; a hole is filled with a fresh zeroed
      block, or it stops when none can be allocated; then the chunk is copied. */
  function WriteChunk(s: FsState, n: nat, pos: U32, data: seq<Byte>, done: nat): (r: Chunk)
    requires WellFormed(s) && n < MAX_FILES && done < |data|
    ensures var t := if r.Halted? then r.stopped else r.next;
      WellFormed(t) && Keeps(s, t, n)
    ensures r.Copied? ==> 0 < r.len <= |data| - done && pos + r.len <= DIRECT_BYTES
  {
    var bi := pos / BLOCK_SIZE;
    var off := pos % BLOCK_SIZE;
    var len := ChunkLength(pos, |data| - done);
    if bi >= DIRECT_BLOCKS then Halted(s)
    else
      var ino := s.meta.inodes[n];
      if ino.blocks[bi] != 0 then
        Copied(s.(storage := Put(s.storage, ino.blocks[bi] * BLOCK_SIZE + off, data, done, len)), len)
      else
        var (m1, b) := AllocBlock(s.meta);
        if b == 0 then Halted(s.(meta := m1))
        else
          Copied(s.(meta := SetInode(m1, n, ino.(blocks := ino.blocks[bi := b])),
                   storage := Put(ZeroBlock(s.storage, b), b * BLOCK_SIZE + off, data, done, len)), len)
  }

  /** The loop of file_write from position pos with done bytes written: the final state,
      the bytes written, and the final position. */
  function WriteChunks(s: FsState, n: nat, pos: U32, data: seq<Byte>, done: nat): (r: (FsState, nat, U32))
    requires WellFormed(s) && n < MAX_FILES && done <= |data|
    ensures WellFormed(r.0) && done <= r.1 <= |data| && r.2 == pos + (r.1 - done) && Keeps(s, r.0, n)
    ensures r.1 > done ==> r.2 <= DIRECT_BYTES
    decreases |data| - done
  {
    if done == |data| then (s, done, pos)
    else
      var c := WriteChunk(s, n, pos, data, done);
      if c.Halted? then (c.stopped, done, pos)
      else WriteChunks(c.next, n, pos + c.len, data, done + c.len)
  }

  /** file_write once the file system is ready, for a process and a non-NULL buffer
      holding data: the new state and the answer. The size becomes the final position
      when that is larger, even when nothing was written. */
  function WriteReady(s1: Files, fds: seq<FdEntry>, fd: int, data: seq<Byte>): (r: (Files, int))
    requires WellFormedFiles(s1) && WellFormedFds(fds) && |data| < U32_LIMIT
    ensures WellFormedFiles(r.0)
  {
    if !OpenFd(fds, fd) then (s1, -1) else WriteTo(s1, fds[fd].globalIndex, data)
  }

  /** file_write through global entry g, once the descriptor is known to be open. */
  function WriteTo(s1: Files, g: nat, data: seq<Byte>): (r: (Files, int))
    requires WellFormedFiles(s1) && g < MAX_OPEN_FILES && |data| < U32_LIMIT
    ensures WellFormedFiles(r.0)
  {
    var e := s1.table[g];
    if !MayWrite(e.flags) || e.inodeNum >= s1.fs.meta.sb.totalInodes then (s1, -1)
    else
      var (fs3, w, pos) := WriteOutcome(s1, e.inodeNum, e.position, data);
      (s1.(fs := fs3, table := s1.table[g := e.(position := pos)]), w as int)
  }

  /** file_write for a process and a non-NULL buffer holding data. */
  function Write(s: Files, fds: seq<FdEntry>, fd: int, data: seq<Byte>): (r: (Files, int))
    requires WellFormedFiles(s) && WellFormedFds(fds) && |data| < U32_LIMIT
    ensures WellFormedFiles(r.0)
  {
    WriteReady(FsReady(s), fds, fd, data)
  }

  /** Inode n owns its blocks: every non-zero direct pointer names a block of the disk
      marked in use, and no two name the same block. fs.c keeps this for the files it
      creates and writes, but does not check it for a loaded image. */
  predicate Owned(m: Meta, n: nat)
    requires WellFormedMeta(m) && n < MAX_FILES
  {
    var bl := m.inodes[n].blocks;
    (forall j :: 0 <= j < DIRECT_BLOCKS && bl[j] != 0 ==> bl[j] < m.sb.totalBlocks && m.blockBits[bl[j]]) &&
    (forall i, j :: 0 <= i < j < DIRECT_BLOCKS && bl[i] != 0 ==> bl[i] != bl[j])
  }

  /** What a write to inode n leaves alone: the directory, the image, the other
      inodes, and every field of inode n but its pointers. */
  predicate Keeps(s: FsState, t: FsState, n: nat)
    requires WellFormed(s) && WellFormed(t) && n < MAX_FILES
  {
    t.dir == s.dir && t.disk == s.disk && t.initialized == s.initialized &&
    t.meta.sb == s.meta.sb.(freeBlocks := t.meta.sb.freeBlocks) && t.meta.inodeBits == s.meta.inodeBits &&
    (forall j :: 0 <= j < MAX_FILES && j != n ==> t.meta.inodes[j] == s.meta.inodes[j]) &&
    t.meta.inodes[n] == s.meta.inodes[n].(blocks := t.meta.inodes[n].blocks)
  }

  /** Keeps, and each non-zero pointer of inode n is kept too. */
  predicate WriteFrame(s: FsState, t: FsState, n: nat)
    requires WellFormed(s) && WellFormed(t) && n < MAX_FILES
  {
    Keeps(s, t, n) &&
    (forall j :: 0 <= j < DIRECT_BLOCKS && s.meta.inodes[n].blocks[j] != 0 ==>
       t.meta.inodes[n].blocks[j] == s.meta.inodes[n].blocks[j])
  }

  /** The positions pos + k of one chunk all lie in the block of pos. */
  lemma InChunk(pos: nat, p: nat)
    requires pos <= p < pos + BLOCK_SIZE - pos % BLOCK_SIZE
    ensures p / BLOCK_SIZE == pos / BLOCK_SIZE && p % BLOCK_SIZE == pos % BLOCK_SIZE + (p - pos)
  {
  }

  /** The block a copying turn of the loop writes into: the existing pointer, or the
      block just allocated for the hole. */
  function ChunkBlock(s: FsState, n: nat, pos: U32): nat
    requires WellFormed(s) && n < MAX_FILES && pos < DIRECT_BYTES
  {
    var b := s.meta.inodes[n].blocks[pos / BLOCK_SIZE];
    if b != 0 then b else AllocBlock(s.meta).1
  }

  /** The pointers after a copying turn: the pointer of the chunk's block is set to a
      block no other pointer names, inode n still owns its blocks, and nothing outside
      the write frame moves. */
  lemma ChunkPointers(s: FsState, n: nat, pos: U32, data: seq<Byte>, done: nat)
    requires WellFormed(s) && n < MAX_FILES && done < |data| && Owned(s.meta, n)
    requires WriteChunk(s, n, pos, data, done).Copied?
    ensures pos < DIRECT_BYTES
    ensures var t := WriteChunk(s, n, pos, data, done).next;
      var before := s.meta.inodes[n].blocks;
      var b := ChunkBlock(s, n, pos);
      0 < b < MAX_BLOCKS && t.meta.inodes[n].blocks == before[pos / BLOCK_SIZE := b] &&
      (forall j :: 0 <= j < DIRECT_BLOCKS && j != pos / BLOCK_SIZE && before[j] != 0 ==> before[j] != b) &&
      Owned(t.meta, n) && WriteFrame(s, t, n)
  {
  }

  /** The disk after a copying turn: the chunk's block is zeroed if it is new, and the
      chunk is copied into it. */
  lemma ChunkStorage(s: FsState, n: nat, pos: U32, data: seq<Byte>, done: nat)
    requires WellFormed(s) && n < MAX_FILES && done < |data|
    requires WriteChunk(s, n, pos, data, done).Copied?
    ensures pos < DIRECT_BYTES
    ensures var c := WriteChunk(s, n, pos, data, done);
      var b := ChunkBlock(s, n, pos);
      var start := b * BLOCK_SIZE + pos % BLOCK_SIZE;
      forall j :: 0 <= j < STORAGE_SIZE ==>
        c.next.storage[j] ==
          if start <= j < start + c.len then data[done + (j - start)]
          else if s.meta.inodes[n].blocks[pos / BLOCK_SIZE] == 0 && b * BLOCK_SIZE <= j < b * BLOCK_SIZE + BLOCK_SIZE then NUL
          else s.storage[j]
  {
    var c := WriteChunk(s, n, pos, data, done);
    if s.meta.inodes[n].blocks[pos / BLOCK_SIZE] == 0 {
      var b := AllocBlock(s.meta).1;
      var zeroed := ZeroBlock(s.storage, b);
      assert c.next.storage == Put(zeroed, b * BLOCK_SIZE + pos % BLOCK_SIZE, data, done, c.len);
      assert forall j :: 0 <= j < STORAGE_SIZE ==>
        zeroed[j] == if b * BLOCK_SIZE <= j < b * BLOCK_SIZE + BLOCK_SIZE then NUL else s.storage[j];
    } else {
      var b := s.meta.inodes[n].blocks[pos / BLOCK_SIZE];
      assert c.next.storage == Put(s.storage, b * BLOCK_SIZE + pos % BLOCK_SIZE, data, done, c.len);
    }
  }

  /** A copying turn: the chunk now reads back as the data. */
  lemma ChunkReadsBack(s: FsState, n: nat, pos: U32, data: seq<Byte>, done: nat)
    requires WellFormed(s) && n < MAX_FILES && done < |data| && Owned(s.meta, n)
    requires WriteChunk(s, n, pos, data, done).Copied?
    ensures var c := WriteChunk(s, n, pos, data, done);
      forall p: nat :: pos <= p < pos + c.len ==>
        FileByte(c.next.storage, c.next.meta.inodes[n].blocks, p) == data[done + (p - pos)]
  {
    var c := WriteChunk(s, n, pos, data, done);
    ChunkPointers(s, n, pos, data, done);
    ChunkStorage(s, n, pos, data, done);
    forall p: nat | pos <= p < pos + c.len
      ensures FileByte(c.next.storage, c.next.meta.inodes[n].blocks, p) == data[done + (p - pos)]
    {
      InChunk(pos, p);
    }
  }

  /** A byte of the file outside a chunk of len bytes at pos, copied into block b that
      pointer pos / BLOCK_SIZE now names (zeroed first when that pointer was 0), reads
      as before. */
  lemma ByteOutsideChunk(st: seq<Byte>, st2: seq<Byte>, before: seq<U32>, after: seq<U32>, b: nat,
                         pos: nat, len: nat, data: seq<Byte>, done: nat, p: nat)
    requires |st| == STORAGE_SIZE && |st2| == STORAGE_SIZE && BlockPointers(before) && BlockPointers(after)
    requires pos < DIRECT_BYTES && pos % BLOCK_SIZE + len <= BLOCK_SIZE && 0 < b < MAX_BLOCKS && done + len <= |data|
    requires after == before[pos / BLOCK_SIZE := b]
    requires forall j :: 0 <= j < DIRECT_BLOCKS && j != pos / BLOCK_SIZE && before[j] != 0 ==> before[j] != b
    requires before[pos / BLOCK_SIZE] != 0 ==> before[pos / BLOCK_SIZE] == b
    requires var start := b * BLOCK_SIZE + pos % BLOCK_SIZE;
      forall j :: 0 <= j < STORAGE_SIZE ==>
        st2[j] ==
          if start <= j < start + len then data[done + (j - start)]
          else if before[pos / BLOCK_SIZE] == 0 && b * BLOCK_SIZE <= j < b * BLOCK_SIZE + BLOCK_SIZE then NUL
          else st[j]
    requires p < pos || pos + len <= p
    ensures FileByte(st2, after, p) == FileByte(st, before, p)
  {
    var bi := p / BLOCK_SIZE;
    if bi < DIRECT_BLOCKS && after[bi] != 0 {
      var j := after[bi] * BLOCK_SIZE + p % BLOCK_SIZE;
      if bi == pos / BLOCK_SIZE {
        assert p % BLOCK_SIZE < pos % BLOCK_SIZE || pos % BLOCK_SIZE + len <= p % BLOCK_SIZE;
      } else {
        assert after[bi] == before[bi] != b;
        assert !(b * BLOCK_SIZE <= j < b * BLOCK_SIZE + BLOCK_SIZE);
      }
    }
  }

  /** A copying turn: every byte of the file outside the chunk reads as before. */
  lemma ChunkKeepsRest(s: FsState, n: nat, pos: U32, data: seq<Byte>, done: nat)
    requires WellFormed(s) && n < MAX_FILES && done < |data| && Owned(s.meta, n)
    requires WriteChunk(s, n, pos, data, done).Copied?
    ensures var c := WriteChunk(s, n, pos, data, done);
      forall p: nat :: p < pos || pos + c.len <= p ==>
        FileByte(c.next.storage, c.next.meta.inodes[n].blocks, p) == FileByte(s.storage, s.meta.inodes[n].blocks, p)
  {
    var c := WriteChunk(s, n, pos, data, done);
    ChunkPointers(s, n, pos, data, done);
    ChunkStorage(s, n, pos, data, done);
    assert pos % BLOCK_SIZE + c.len <= BLOCK_SIZE;
    var b := ChunkBlock(s, n, pos);
    var before := s.meta.inodes[n].blocks;
    forall p: nat | p < pos || pos + c.len <= p
      ensures FileByte(c.next.storage, c.next.meta.inodes[n].blocks, p) == FileByte(s.storage, before, p)
    {
      ByteOutsideChunk(s.storage, c.next.storage, before, c.next.meta.inodes[n].blocks, b, pos, c.len, data, done, p);
    }
  }

  /** The bytes of inode n in t read as data[done..] over [pos, end) and as in s
      everywhere else. */
  ghost predicate Written(s: FsState, t: FsState, n: nat, pos: nat, end: nat, data: seq<Byte>, done: nat)
    requires WellFormed(s) && WellFormed(t) && n < MAX_FILES && pos <= end && done + (end - pos) <= |data|
  {
    var before := s.meta.inodes[n].blocks;
    var after := t.meta.inodes[n].blocks;
    (forall p: nat :: pos <= p < end ==> FileByte(t.storage, after, p) == data[done + (p - pos)]) &&
    (forall p: nat :: p < pos || end <= p ==> FileByte(t.storage, after, p) == FileByte(s.storage, before, p))
  }

  /** Every data block is in use. */
  predicate DiskFull(m: Meta)
    requires WellFormedMeta(m)
  {
    forall b :: m.sb.firstDataBlock <= b < m.sb.totalBlocks ==> m.blockBits[b]
  }

  /** A stretch of writing from s to t at [pos, end) of inode n with data[done..]:
      t is well formed, inode n still owns its blocks, nothing outside the write frame
      moved, and the file reads as Written says. */
  ghost predicate Stretch(s: FsState, t: FsState, n: nat, pos: nat, end: nat, data: seq<Byte>, done: nat)
    requires WellFormed(s) && n < MAX_FILES
  {
    WellFormed(t) && pos <= end && done + (end - pos) <= |data| &&
    Owned(t.meta, n) && WriteFrame(s, t, n) && Written(s, t, n, pos, end, data, done)
  }

  /** A copying turn, for an inode that owns its blocks. */
  lemma ChunkFacts(s: FsState, n: nat, pos: U32, data: seq<Byte>, done: nat)
    requires WellFormed(s) && n < MAX_FILES && done < |data|
    requires WriteChunk(s, n, pos, data, done).Copied?
    ensures var c := WriteChunk(s, n, pos, data, done);
      Owned(s.meta, n) ==> Stretch(s, c.next, n, pos, pos + c.len, data, done)
  {
    if Owned(s.meta, n) {
      ChunkPointers(s, n, pos, data, done);
      ChunkReadsBack(s, n, pos, data, done);
      ChunkKeepsRest(s, n, pos, data, done);
    }
  }

  /** A turn that stops leaves the file as it was and stops only past the direct
      blocks or when every data block is in use (for data blocks after block 0). */
  lemma HaltedFacts(s: FsState, n: nat, pos: U32, data: seq<Byte>, done: nat)
    requires WellFormed(s) && n < MAX_FILES && done < |data|
    requires WriteChunk(s, n, pos, data, done).Halted?
    ensures var t := WriteChunk(s, n, pos, data, done).stopped;
      (Owned(s.meta, n) ==> Stretch(s, t, n, pos, pos, data, done)) &&
      (s.meta.sb.firstDataBlock > 0 ==> pos >= DIRECT_BYTES || DiskFull(t.meta))
  {
  }

  /** Two stretches of writing, one after the other, make one. */
  lemma WriteComposes(s: FsState, t: FsState, u: FsState, n: nat, pos: nat, mid: nat, end: nat, data: seq<Byte>, done: nat, doneMid: nat)
    requires WellFormed(s) && n < MAX_FILES && doneMid == done + (mid - pos)
    requires Stretch(s, t, n, pos, mid, data, done) && Stretch(t, u, n, mid, end, data, doneMid)
    ensures Stretch(s, u, n, pos, end, data, done)
  {
    var before := s.meta.inodes[n].blocks;
    var between := t.meta.inodes[n].blocks;
    var after := u.meta.inodes[n].blocks;
    forall p: nat | pos <= p < end
      ensures FileByte(u.storage, after, p) == data[done + (p - pos)]
    {
      if p < mid {
        assert FileByte(u.storage, after, p) == FileByte(t.storage, between, p);
      }
    }
  }

  /** The loop of file_write, as the lemmas below follow it turn by turn. */
  function Turns(s: FsState, n: nat, pos: U32, data: seq<Byte>, done: nat): (FsState, nat, U32)
    requires WellFormed(s) && n < MAX_FILES && done <= |data|
  {
    WriteChunks(s, n, pos, data, done)
  }

  /** A last turn that stops. */
  lemma TurnsEnd(s: FsState, t: FsState, n: nat, pos: U32, data: seq<Byte>, done: nat)
    requires WellFormed(s) && n < MAX_FILES && done < |data|
    requires WriteChunk(s, n, pos, data, done) == Halted(t)
    ensures Turns(s, n, pos, data, done) == (t, done, pos)
  {
  }

  /** TurnsOn, for the outcome r of the loop from s, with the next position and count
      named. */
  lemma TurnsOnWith(s: FsState, t: FsState, n: nat, pos: U32, len: nat, data: seq<Byte>, done: nat, next: U32, doneNext: nat, r: (FsState, nat, U32))
    requires WellFormed(s) && n < MAX_FILES && done < |data|
    requires WriteChunk(s, n, pos, data, done) == Copied(t, len)
    requires next == pos + len && doneNext == done + len
    requires r == Turns(s, n, pos, data, done)
    ensures WellFormed(t) && doneNext <= |data| && r == Turns(t, n, next, data, doneNext)
  {
  }

  /** For an inode that owns its blocks, the loop of file_write keeps it so, changes
      nothing outside its frame, and leaves data[done..] over [pos, end) of the file,
      every other byte as it was. */
  lemma {:induction false} WriteChunksWritten(s: FsState, n: nat, pos: U32, data: seq<Byte>, done: nat, r: (FsState, nat, U32))
    requires WellFormed(s) && n < MAX_FILES && done <= |data| && Owned(s.meta, n)
    requires r == Turns(s, n, pos, data, done)
    ensures Stretch(s, r.0, n, pos, r.2, data, done)
    decreases |data| - done, 1
  {
    if done < |data| {
      var c := WriteChunk(s, n, pos, data, done);
      if c.Halted? {
        HaltedFacts(s, n, pos, data, done);
        TurnsEnd(s, c.stopped, n, pos, data, done);
      } else {
        ChunkFacts(s, n, pos, data, done);
        CopiedThenTurns(s, c.next, n, pos, c.len, data, done, r);
      }
    }
  }

  /** A copying turn that makes a stretch, then the rest of the turns. */
  lemma {:induction false} CopiedThenTurns(s: FsState, t: FsState, n: nat, pos: U32, len: nat, data: seq<Byte>, done: nat, r: (FsState, nat, U32))
    requires WellFormed(s) && n < MAX_FILES && done < |data|
    requires WriteChunk(s, n, pos, data, done) == Copied(t, len)
    requires Stretch(s, t, n, pos, pos + len, data, done)
    requires r == Turns(s, n, pos, data, done)
    ensures Stretch(s, r.0, n, pos, r.2, data, done)
    decreases |data| - done, 0
  {
    var next: U32, doneNext := pos + len, done + len;
    TurnsOnWith(s, t, n, pos, len, data, done, next, doneNext, r);
    StretchThenTurns(s, t, n, pos, next, data, done, doneNext, r);
  }

  /** A stretch from s to t over [pos, pos + len), then the loop from t, is a stretch. */
  lemma {:induction false} StretchThenTurns(s: FsState, t: FsState, n: nat, pos: U32, next: U32, data: seq<Byte>, done: nat, doneNext: nat, r: (FsState, nat, U32))
    requires WellFormed(s) && n < MAX_FILES && pos < next && doneNext == done + (next - pos) <= |data|
    requires Stretch(s, t, n, pos, next, data, done)
    requires r == Turns(t, n, next, data, doneNext)
    ensures Stretch(s, r.0, n, pos, r.2, data, done)
    decreases |data| - doneNext, 2
  {
    WriteChunksWritten(t, n, next, data, doneNext, r);
    WriteComposes(s, t, r.0, n, pos, next, r.2, data, done, doneNext);
  }

  /** The loop of file_write ends before the data does only past the direct blocks or
      when every data block is in use (for data blocks after block 0). */
  lemma {:induction false} WriteChunksStop(s: FsState, n: nat, pos: U32, data: seq<Byte>, done: nat, r: (FsState, nat, U32))
    requires WellFormed(s) && n < MAX_FILES && done <= |data| && s.meta.sb.firstDataBlock > 0
    requires r == Turns(s, n, pos, data, done)
    ensures WellFormed(r.0) && (r.1 < |data| ==> r.2 >= DIRECT_BYTES || DiskFull(r.0.meta))
    decreases |data| - done
  {
    if done < |data| {
      var c := WriteChunk(s, n, pos, data, done);
      if c.Halted? {
        HaltedFacts(s, n, pos, data, done);
        TurnsEnd(s, c.stopped, n, pos, data, done);
      } else {
        var next: U32, doneNext := pos + c.len, done + c.len;
        TurnsOnWith(s, c.next, n, pos, c.len, data, done, next, doneNext, r);
        WriteChunksStop(c.next, n, next, data, doneNext, r);
      }
    }
  }

  /** The state file_write leaves before its answer: the file system after the loop
      and the size update, and the final position. */
  function WriteOutcome(s1: Files, n: nat, pos: U32, data: seq<Byte>): (r: (FsState, nat, U32))
    requires WellFormedFiles(s1) && n < MAX_FILES
    ensures WellFormed(r.0)
  {
    var (fs2, w, end) := WriteChunks(s1.fs, n, pos, data, 0);
    var ino := fs2.meta.inodes[n];
    (if end > ino.size then fs2.(meta := SetInode(fs2.meta, n, ino.(size := end))) else fs2, w, end)
  }

  /** file_write writes w <= |data| bytes, at most up to the end of the direct blocks,
      and moves the position by w; the size becomes the larger of the old size and the
      new position; nothing else changes but inode n's pointers, the bitmap, the free
      count and the stored bytes. */
  lemma WriteAdvances(s: Files, fds: seq<FdEntry>, fd: int, data: seq<Byte>)
    requires WellFormedFiles(s) && WellFormedFds(fds) && |data| < U32_LIMIT && OpenFd(fds, fd)
    requires var s1 := FsReady(s); var e := s1.table[fds[fd].globalIndex];
      MayWrite(e.flags) && e.inodeNum < s1.fs.meta.sb.totalInodes
    ensures var s1 := FsReady(s); var g := fds[fd].globalIndex; var e := s1.table[g]; var n := e.inodeNum;
      var size := s1.fs.meta.inodes[n].size;
      var (t, w) := Write(s, fds, fd, data);
      0 <= w <= |data| && (w > 0 ==> e.position + w <= DIRECT_BYTES) &&
      t.table == s1.table[g := e.(position := e.position + w)] &&
      t.fs.meta.inodes[n].size == (if e.position + w > size then e.position + w else size)
  {
    var s1 := FsReady(s);
    var e := s1.table[fds[fd].globalIndex];
    var o := WriteOutcome(s1, e.inodeNum, e.position, data);
    assert Write(s, fds, fd, data).0.fs == o.0;
  }

  /** file_write changes no directory entry and no other inode, and leaves the file
      system initialised. */
  lemma WriteKeepsOthers(s: Files, fds: seq<FdEntry>, fd: int, data: seq<Byte>)
    requires WellFormedFiles(s) && WellFormedFds(fds) && |data| < U32_LIMIT && OpenFd(fds, fd)
    requires var s1 := FsReady(s); var e := s1.table[fds[fd].globalIndex];
      MayWrite(e.flags) && e.inodeNum < s1.fs.meta.sb.totalInodes
    ensures var s1 := FsReady(s); var n := s1.table[fds[fd].globalIndex].inodeNum;
      var t := Write(s, fds, fd, data).0;
      t.fs.dir == s1.fs.dir && t.fs.initialized && t.fs.meta.sb.totalInodes == s1.fs.meta.sb.totalInodes &&
      forall j :: 0 <= j < MAX_FILES && j != n ==> t.fs.meta.inodes[j] == s1.fs.meta.inodes[j]
  {
    var s1 := FsReady(s);
    var e := s1.table[fds[fd].globalIndex];
    var o := WriteOutcome(s1, e.inodeNum, e.position, data);
    assert Write(s, fds, fd, data).0.fs == o.0;
  }

  /** When inode n owns its blocks, the bytes file_write wrote read back as the data,
      every other byte of the file reads as before, and the inode still owns its
      blocks. */
  lemma WriteReadsBack(s: Files, fds: seq<FdEntry>, fd: int, data: seq<Byte>)
    requires WellFormedFiles(s) && WellFormedFds(fds) && |data| < U32_LIMIT && OpenFd(fds, fd)
    requires var s1 := FsReady(s); var e := s1.table[fds[fd].globalIndex];
      MayWrite(e.flags) && e.inodeNum < s1.fs.meta.sb.totalInodes && Owned(s1.fs.meta, e.inodeNum)
    ensures var s1 := FsReady(s); var e := s1.table[fds[fd].globalIndex]; var n := e.inodeNum;
      var (t, w) := Write(s, fds, fd, data);
      0 <= w <= |data| && e.position + w < U32_LIMIT &&
      Owned(t.fs.meta, n) && Written(s1.fs, t.fs, n, e.position, e.position + w, data, 0)
  {
    var s1 := FsReady(s);
    var e := s1.table[fds[fd].globalIndex];
    WriteChunksWritten(s1.fs, e.inodeNum, e.position, data, 0, WriteChunks(s1.fs, e.inodeNum, e.position, data, 0));
    var o := WriteOutcome(s1, e.inodeNum, e.position, data);
    assert Write(s, fds, fd, data).0.fs == o.0;
  }

  /** file_write stops short only past the twelve direct blocks or when every data
      block is in use (for a superblock whose data blocks start after block 0). */
  lemma WriteStopsShort(s: Files, fds: seq<FdEntry>, fd: int, data: seq<Byte>)
    requires WellFormedFiles(s) && WellFormedFds(fds) && |data| < U32_LIMIT && OpenFd(fds, fd)
    requires var s1 := FsReady(s); var e := s1.table[fds[fd].globalIndex];
      MayWrite(e.flags) && e.inodeNum < s1.fs.meta.sb.totalInodes && s1.fs.meta.sb.firstDataBlock > 0
    ensures var s1 := FsReady(s); var e := s1.table[fds[fd].globalIndex];
      var (t, w) := Write(s, fds, fd, data);
      w < |data| ==> e.position + w >= DIRECT_BYTES || DiskFull(t.fs.meta)
  {
    var s1 := FsReady(s);
    var e := s1.table[fds[fd].globalIndex];
    WriteChunksStop(s1.fs, e.inodeNum, e.position, data, 0, WriteChunks(s1.fs, e.inodeNum, e.position, data, 0));
    var o := WriteOutcome(s1, e.inodeNum, e.position, data);
    assert Write(s, fds, fd, data).0.fs == o.0;
  }

  /** A read of w bytes from a position pos below the size, where those bytes of the
      file are data[..w] and the position plus w is within the size, answers w and
      gives data[..w]. */
  lemma ReadGives(u: Files, fds: seq<FdEntry>, fd: int, w: U32, data: seq<Byte>)
    requires WellFormedFiles(u) && WellFormedFds(fds) && OpenFd(fds, fd) && u.fs.initialized
    requires w <= |data| && w < I32_LIMIT
    requires var e := u.table[fds[fd].globalIndex];
      MayRead(e.flags) && e.inodeNum < u.fs.meta.sb.totalInodes &&
      e.position + w <= u.fs.meta.inodes[e.inodeNum].size &&
      forall p: nat :: e.position <= p < e.position + w ==>
        FileByte(u.fs.storage, u.fs.meta.inodes[e.inodeNum].blocks, p) == data[p - e.position]
    ensures Read(u, fds, fd, w).1 == data[..w] && Read(u, fds, fd, w).2 == w
  {
    var e := u.table[fds[fd].globalIndex];
    assert FsReady(u) == u;
    var r := Read(u, fds, fd, w);
    if w > 0 {
      assert ReadCount(e.position, u.fs.meta.inodes[e.inodeNum].size, w) == w;
      assert r.1 == FileBytes(u.fs, e.inodeNum, e.position, w);
      forall k | 0 <= k < w
        ensures r.1[k] == data[k]
      {
        assert FileByteAt(u.fs, e.inodeNum, e.position, k) ==
          FileByte(u.fs.storage, u.fs.meta.inodes[e.inodeNum].blocks, e.position + k);
      }
    }
  }

  /** Seeking back to pos and reading w bytes, where the w bytes of the file from pos
      are data[..w] and lie within the size, gives data[..w] and answers w. */
  lemma SeekBackReads(t: Files, fds: seq<FdEntry>, fd: int, pos: U32, w: nat, data: seq<Byte>)
    requires WellFormedFiles(t) && WellFormedFds(fds) && OpenFd(fds, fd) && t.fs.initialized
    requires w <= |data| && w <= DIRECT_BYTES
    requires var e := t.table[fds[fd].globalIndex];
      MayRead(e.flags) && e.inodeNum < t.fs.meta.sb.totalInodes &&
      pos + w <= t.fs.meta.inodes[e.inodeNum].size &&
      forall p: nat :: pos <= p < pos + w ==>
        FileByte(t.fs.storage, t.fs.meta.inodes[e.inodeNum].blocks, p) == data[0 + (p - pos)]
    ensures var u := Seek(t, fds, fd, pos, SEEK_SET).0;
      Read(u, fds, fd, w as U32).1 == data[..w] && Read(u, fds, fd, w as U32).2 == w
  {
    var u := Seek(t, fds, fd, pos, SEEK_SET).0;
    assert u.fs == t.fs && u.table[fds[fd].globalIndex].position == pos;
    ReadGives(u, fds, fd, w as U32, data);
  }

  /** What file_write wrote, file_read gives back: after a write of w bytes, seeking
      back to where it started and reading w bytes yields the first w bytes of the data,
      and the read answers w. */
  lemma WriteSeekRead(s: Files, fds: seq<FdEntry>, fd: int, data: seq<Byte>)
    requires WellFormedFiles(s) && WellFormedFds(fds) && |data| < U32_LIMIT && OpenFd(fds, fd)
    requires var s1 := FsReady(s); var e := s1.table[fds[fd].globalIndex];
      MayWrite(e.flags) && e.inodeNum < s1.fs.meta.sb.totalInodes && Owned(s1.fs.meta, e.inodeNum)
    ensures var s1 := FsReady(s); var e := s1.table[fds[fd].globalIndex];
      var (t, w) := Write(s, fds, fd, data);
      var u := Seek(t, fds, fd, e.position, SEEK_SET).0;
      0 <= w <= |data| && Read(u, fds, fd, w as U32).1 == data[..w] && Read(u, fds, fd, w as U32).2 == w
  {
    var e := FsReady(s).table[fds[fd].globalIndex];
    WriteAdvances(s, fds, fd, data);
    WriteKeepsOthers(s, fds, fd, data);
    WriteReadsBack(s, fds, fd, data);
    PermissionChecksCoincide(e.flags);
    var tw := Write(s, fds, fd, data);
    SeekBackReads(tw.0, fds, fd, e.position, tw.1, data);
  }

  // ---------------------------------------------------------------------------
  // file_seek, file_tell and file_eof
  // ---------------------------------------------------------------------------

  /** The position file_seek computes for whence, in uint32, or None for an unknown
      whence. */
  function SeekTarget(e: GlobalEntry, size: U32, offset: U32, whence: int): Option<U32>
  {
    if whence == SEEK_SET then Some(offset)
    else if whence == SEEK_CUR then Some(Add32(e.position, offset))
    else if whence == SEEK_END then Some(Add32(size, offset))
    else None
  }

  /** file_seek for a process: the new state and the answer, the new position read as
      an int. */
  function Seek(s: Files, fds: seq<FdEntry>, fd: int, offset: U32, whence: int): (r: (Files, int))
    requires WellFormedFiles(s) && WellFormedFds(fds)
    ensures WellFormedFiles(r.0) && r.0.fs == Init(s.fs)
  {
    var s1 := FsReady(s);
    if !OpenFd(fds, fd) then (s1, -1)
    else
      var g := fds[fd].globalIndex;
      var e := s1.table[g];
      if e.inodeNum >= s1.fs.meta.sb.totalInodes then (s1, -1)
      else
        match SeekTarget(e, s1.fs.meta.inodes[e.inodeNum].size, offset, whence)
        case None => (s1, -1)
        case Some(p) => (s1.(table := s1.table[g := e.(position := p)]), ToInt32(p) as int)
  }

  /** file_tell for a process: the position read as an int, or -1. */
  function Tell(s: Files, fds: seq<FdEntry>, fd: int): int
    requires WellFormedFiles(s) && WellFormedFds(fds)
  {
    if !OpenFd(fds, fd) then -1 else ToInt32(s.table[fds[fd].globalIndex].position)
  }

  /** file_eof for a process: 1 for a bad descriptor or inode, else whether the position
      is at or past the size. */
  function Eof(s: Files, fds: seq<FdEntry>, fd: int): int
    requires WellFormedFiles(s) && WellFormedFds(fds)
  {
    if !OpenFd(fds, fd) then 1
    else
      var e := s.table[fds[fd].globalIndex];
      if e.inodeNum >= s.fs.meta.sb.totalInodes || e.position >= s.fs.meta.inodes[e.inodeNum].size then 1
      else 0
  }

  /** file_seek sets the position in uint32: SEEK_SET to the offset, SEEK_CUR and
      SEEK_END to the sum modulo 2^32; file_tell then answers the new position; an
      unknown whence answers -1 and moves nothing. */
  lemma SeekThenTell(s: Files, fds: seq<FdEntry>, fd: int, offset: U32, whence: int)
    requires WellFormedFiles(s) && WellFormedFds(fds) && OpenFd(fds, fd)
    requires FsReady(s).table[fds[fd].globalIndex].inodeNum < FsReady(s).fs.meta.sb.totalInodes
    ensures var s1 := FsReady(s); var e := s1.table[fds[fd].globalIndex];
      var size := s1.fs.meta.inodes[e.inodeNum].size;
      var (t, r) := Seek(s, fds, fd, offset, whence);
      var p := t.table[fds[fd].globalIndex].position;
      (whence == SEEK_SET ==> p == offset) &&
      (whence == SEEK_CUR ==> p == (e.position + offset) % U32_LIMIT) &&
      (whence == SEEK_END ==> p == (size + offset) % U32_LIMIT) &&
      (whence in {SEEK_SET, SEEK_CUR, SEEK_END} ==> r == Tell(t, fds, fd) && Eof(t, fds, fd) == (if p >= size then 1 else 0)) &&
      (whence !in {SEEK_SET, SEEK_CUR, SEEK_END} ==> t == s1 && r == -1)
  {
  }

  /** file_eof and file_read agree: on a readable descriptor of an initialised file
      system, file_eof says 1 exactly when a read of at least one byte answers 0. */
  lemma EofIffReadEmpty(s: Files, fds: seq<FdEntry>, fd: int, count: U32)
    requires WellFormedFiles(s) && WellFormedFds(fds) && OpenFd(fds, fd)
    requires s.fs.initialized && count > 0
    requires var e := s.table[fds[fd].globalIndex]; MayRead(e.flags) && e.inodeNum < s.fs.meta.sb.totalInodes
    ensures Eof(s, fds, fd) == 1 <==> Read(s, fds, fd, count).2 == 0
  {
  }
}
