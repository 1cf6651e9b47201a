/** The invariant fs/fs.c and fs/file.c keep for every state reachable from boot, when
    fs_init first formats the zeroed disk: the free counters agree with the bitmaps, every
    block belongs to at most one pointer, and the root directory's entries name inodes in
    use, each once. fs_format establishes it; fs_create_file, fs_delete_file,
    file_open (with O_TRUNC) and file_write keep it; file_read, file_seek and file_close
    do not touch the file system beyond fs_init. Its consequences are the hypotheses of
    CreateThenFind and DeleteThenFind. */
module Invariant {
  import opened CTypes
  import opened Fs
  import opened File

  /** Every non-zero direct pointer names a data block marked in use, no block is named
      by two pointers, and no inode has an indirect block (nothing in fs.c or file.c
      sets one). */
  predicate BlocksOwned(m: Meta)
    requires WellFormedMeta(m)
  {
    (forall i, j :: 0 <= i < MAX_FILES && 0 <= j < DIRECT_BLOCKS && m.inodes[i].blocks[j] != 0 ==>
       m.sb.firstDataBlock <= m.inodes[i].blocks[j] < m.sb.totalBlocks && m.blockBits[m.inodes[i].blocks[j]]) &&
    (forall i, j, i2, j2 ::
       (0 <= i < MAX_FILES && 0 <= j < DIRECT_BLOCKS && 0 <= i2 < MAX_FILES && 0 <= j2 < DIRECT_BLOCKS &&
        m.inodes[i].blocks[j] != 0 && m.inodes[i].blocks[j] == m.inodes[i2].blocks[j2]) ==> i == i2 && j == j2) &&
    (forall i :: 0 <= i < MAX_FILES ==> m.inodes[i].indirect == 0)
  }

  /** Every used directory entry lies in a block the root points to, names an inode in
      use, and no inode is named by two entries. */
  predicate EntriesOwned(s: FsState)
    requires WellFormed(s)
  {
    (forall b, i :: 0 <= b < MAX_BLOCKS && 0 <= i < ENTRIES_PER_BLOCK && s.dir[EntryIndex(b, i)].inodeNum != 0 ==>
       b != 0 && b in s.meta.inodes[0].blocks) &&
    (forall k :: 0 <= k < DIR_SLOTS && s.dir[k].inodeNum != 0 ==>
       s.dir[k].inodeNum < s.meta.sb.totalInodes && s.meta.inodeBits[s.dir[k].inodeNum]) &&
    (forall k, k2 ::
       (0 <= k < DIR_SLOTS && 0 <= k2 < DIR_SLOTS && s.dir[k].inodeNum != 0 &&
        s.dir[k].inodeNum == s.dir[k2].inodeNum) ==> k == k2)
  }

  /** The invariant of an initialised file system. */
  predicate Consistent(s: FsState)
    requires WellFormed(s)
  {
    RootIsDirectory(s.meta) && CountersAgree(s.meta) && BlocksOwned(s.meta) && EntriesOwned(s)
  }

  /** The invariant of any state: the file system fs_init makes of it is consistent. */
  predicate Sound(s: FsState)
    requires WellFormed(s)
  {
    Consistent(Init(s))
  }

  // ---------------------------------------------------------------------------
  // What the invariant gives
  // ---------------------------------------------------------------------------

  /** A consistent file system keeps no entry in a free block, and names each inode from
      at most one slot the directory loops reach. */
  lemma ConsistentGives(s: FsState, n: U32)
    requires WellFormed(s) && Consistent(s)
    ensures RootIsDirectory(s.meta) && CountersAgree(s.meta) && FreeBlocksEmpty(s)
    ensures n != 0 ==> NamedOnce(s.dir, s.meta.inodes[0].blocks, n)
  {
    var root := s.meta.inodes[0];
    forall b: nat, i: nat | b < MAX_BLOCKS && i < ENTRIES_PER_BLOCK && s.dir[EntryIndex(b, i)].inodeNum != 0
      ensures s.meta.blockBits[b]
    {
      var j :| 0 <= j < DIRECT_BLOCKS && root.blocks[j] == b;
    }
    if n != 0 {
      forall x: nat, y: nat, x2: nat, y2: nat |
        y < ENTRIES_PER_BLOCK && Reachable(root.blocks, x) && y2 < ENTRIES_PER_BLOCK && Reachable(root.blocks, x2) &&
        s.dir[Slot(root.blocks, x, y)].inodeNum == n && s.dir[Slot(root.blocks, x2, y2)].inodeNum == n
        ensures Slot(root.blocks, x, y) == Slot(root.blocks, x2, y2)
      {
        var k, k2 := Slot(root.blocks, x, y), Slot(root.blocks, x2, y2);
        assert s.dir[k].inodeNum != 0 && s.dir[k].inodeNum == s.dir[k2].inodeNum;
      }
    }
  }

  // ---------------------------------------------------------------------------
  // Format and boot
  // ---------------------------------------------------------------------------

  /** fs_format leaves a consistent file system, and fs_init after it loads the same. */
  lemma FormatConsistent(s: FsState)
    requires WellFormed(s)
    ensures Consistent(Format(s)) && Sound(Format(s))
  {
    var r := Format(s);
    assert Init(r).meta == r.meta && Init(r).dir == r.dir;
  }

  /** At boot, before anything else has run, the invariant holds. */
  lemma BootSound()
    ensures Sound(Boot())
  {
    FormatConsistent(Boot());
    BootFormats();
  }

  // ---------------------------------------------------------------------------
  // Steps on the metadata
  // ---------------------------------------------------------------------------

  /** The allocators keep the counters and the ownership of blocks; a block they hand
      out was free, so no pointer names it. */
  lemma AllocKeeps(m: Meta)
    requires WellFormedMeta(m) && BlocksOwned(m) && CountersAgree(m)
    ensures BlocksOwned(AllocBlock(m).0) && CountersAgree(AllocBlock(m).0)
    ensures BlocksOwned(AllocInode(m).0) && CountersAgree(AllocInode(m).0)
  {
    AllocKeepsCounters(m);
  }

  /** Pointing a zero pointer of inode i at the block fs_allocate_block hands out keeps
      the counters and the ownership of blocks. */
  lemma AttachKeeps(m: Meta, i: nat, j: nat, ino: Inode)
    requires WellFormedMeta(m) && BlocksOwned(m) && CountersAgree(m) && i < MAX_FILES && j < DIRECT_BLOCKS
    requires m.inodes[i].blocks[j] == 0 && AllocBlock(m).1 != 0
    requires ino.blocks == m.inodes[i].blocks[j := AllocBlock(m).1] && ino.indirect == 0
    ensures BlockPointers(ino.blocks)
    ensures var m1 := SetInode(AllocBlock(m).0, i, ino); BlocksOwned(m1) && CountersAgree(m1)
  {
    var (m0, b) := AllocBlock(m);
    AllocKeeps(m);
    var m1 := SetInode(m0, i, ino);
    assert m1.blockBits == m.blockBits[b := true] && m1.sb.firstDataBlock == m.sb.firstDataBlock;
    assert m1.sb.totalBlocks == m.sb.totalBlocks;
    forall i1, j1 | 0 <= i1 < MAX_FILES && 0 <= j1 < DIRECT_BLOCKS
      ensures m1.inodes[i1].blocks[j1] == if i1 == i && j1 == j then b else m.inodes[i1].blocks[j1]
    {
    }
    forall i1, j1 | 0 <= i1 < MAX_FILES && 0 <= j1 < DIRECT_BLOCKS && m.inodes[i1].blocks[j1] != 0
      ensures m.inodes[i1].blocks[j1] != b
    {
    }
    forall i1, j1 | 0 <= i1 < MAX_FILES && 0 <= j1 < DIRECT_BLOCKS && m1.inodes[i1].blocks[j1] != 0
      ensures m1.sb.firstDataBlock <= m1.inodes[i1].blocks[j1] < m1.sb.totalBlocks && m1.blockBits[m1.inodes[i1].blocks[j1]]
    {
    }
    forall i1, j1, i2, j2 |
      (0 <= i1 < MAX_FILES && 0 <= j1 < DIRECT_BLOCKS && 0 <= i2 < MAX_FILES && 0 <= j2 < DIRECT_BLOCKS &&
       m1.inodes[i1].blocks[j1] != 0 && m1.inodes[i1].blocks[j1] == m1.inodes[i2].blocks[j2])
      ensures i1 == i2 && j1 == j2
    {
    }
    assert forall i1 :: 0 <= i1 < MAX_FILES ==> m1.inodes[i1].indirect == 0;
  }

  /** No directory entry names inode n, which is in use. */
  predicate Unnamed(s: FsState, n: U32)
    requires WellFormed(s)
  {
    0 < n < s.meta.sb.totalInodes && s.meta.inodeBits[n] &&
    forall k :: 0 <= k < DIR_SLOTS ==> s.dir[k].inodeNum != n
  }

  /** Freeing an inode in use that no entry names keeps the invariant. */
  lemma FreeUnnamedKeeps(s: FsState, n: U32)
    requires WellFormed(s) && Consistent(s) && Unnamed(s, n)
    ensures Consistent(s.(meta := FreeInode(s.meta, n)))
  {
    FreeKeepsCounters(s.meta, 0, n);
  }

  /** Changing an inode's size, type, links or permissions, but not its pointers, keeps
      the counters and the ownership of blocks, and the root a directory when its type
      stays. */
  lemma RetagKeeps(m: Meta, i: nat, ino: Inode)
    requires WellFormedMeta(m) && BlocksOwned(m) && CountersAgree(m) && i < MAX_FILES
    requires ino.blocks == m.inodes[i].blocks && ino.indirect == m.inodes[i].indirect
    ensures BlockPointers(ino.blocks)
    ensures BlocksOwned(SetInode(m, i, ino)) && CountersAgree(SetInode(m, i, ino))
    ensures RootIsDirectory(m) && (i != 0 || ino.kind == m.inodes[0].kind) ==> RootIsDirectory(SetInode(m, i, ino))
  {
    var m1 := SetInode(m, i, ino);
    assert forall i1 :: 0 <= i1 < MAX_FILES ==> m1.inodes[i1].blocks == m.inodes[i1].blocks;
    assert forall i1 :: 0 <= i1 < MAX_FILES ==> m1.inodes[i1].indirect == m.inodes[i1].indirect;
  }

  // ---------------------------------------------------------------------------
  // Steps on the directory
  // ---------------------------------------------------------------------------

  /** The root keeps every block it points to. */
  predicate RootKeeps(m: Meta, m1: Meta)
    requires WellFormedMeta(m) && WellFormedMeta(m1)
  {
    forall j :: 0 <= j < DIRECT_BLOCKS && m.inodes[0].blocks[j] != 0 ==> m.inodes[0].blocks[j] in m1.inodes[0].blocks
  }

  /** No entry comes into use, the inodes in use stay in use and the root keeps its blocks:
      the entries stay owned. */
  lemma EntriesKeep(s: FsState, t: FsState)
    requires WellFormed(s) && WellFormed(t) && EntriesOwned(s)
    requires t.meta.sb.totalInodes == s.meta.sb.totalInodes && RootKeeps(s.meta, t.meta)
    requires forall x :: 0 <= x < MAX_FILES && s.meta.inodeBits[x] ==> t.meta.inodeBits[x]
    requires forall k :: 0 <= k < DIR_SLOTS && t.dir[k].inodeNum != 0 ==> t.dir[k].inodeNum == s.dir[k].inodeNum
    ensures EntriesOwned(t)
  {
    forall b, i | 0 <= b < MAX_BLOCKS && 0 <= i < ENTRIES_PER_BLOCK && t.dir[EntryIndex(b, i)].inodeNum != 0
      ensures b != 0 && b in t.meta.inodes[0].blocks
    {
      assert s.dir[EntryIndex(b, i)].inodeNum != 0;
      var j :| 0 <= j < DIRECT_BLOCKS && s.meta.inodes[0].blocks[j] == b;
    }
  }

  /** The entry at slot i of block b, which the root now points to, comes into use naming
      inode n, which no entry named; every other entry stays or is freed: the entries stay
      owned. */
  lemma EntriesAdd(s: FsState, t: FsState, b: nat, i: nat, n: U32)
    requires WellFormed(s) && WellFormed(t) && EntriesOwned(s) && Unnamed(s, n)
    requires t.meta.sb.totalInodes == s.meta.sb.totalInodes && t.meta.inodeBits == s.meta.inodeBits
    requires RootKeeps(s.meta, t.meta)
    requires 0 < b < MAX_BLOCKS && b in t.meta.inodes[0].blocks && i < ENTRIES_PER_BLOCK
    requires t.dir[EntryIndex(b, i)].inodeNum == n
    requires forall k :: (0 <= k < DIR_SLOTS && k != EntryIndex(b, i) && t.dir[k].inodeNum != 0) ==>
      t.dir[k].inodeNum == s.dir[k].inodeNum
    ensures EntriesOwned(t)
  {
    var e := EntryIndex(b, i);
    forall b1, i1 | 0 <= b1 < MAX_BLOCKS && 0 <= i1 < ENTRIES_PER_BLOCK && t.dir[EntryIndex(b1, i1)].inodeNum != 0
      ensures b1 != 0 && b1 in t.meta.inodes[0].blocks
    {
      if EntryIndex(b1, i1) == e {
        assert b1 == b;
      } else {
        assert s.dir[EntryIndex(b1, i1)].inodeNum != 0;
        var j :| 0 <= j < DIRECT_BLOCKS && s.meta.inodes[0].blocks[j] == b1;
      }
    }
    forall k, k2 | (0 <= k < DIR_SLOTS && 0 <= k2 < DIR_SLOTS && t.dir[k].inodeNum != 0 &&
                    t.dir[k].inodeNum == t.dir[k2].inodeNum)
      ensures k == k2
    {
      if k != e && k2 != e {
        assert s.dir[k].inodeNum == s.dir[k2].inodeNum;
      }
    }
  }

  // ---------------------------------------------------------------------------
  // fs_create_file
  // ---------------------------------------------------------------------------

  /** Taking a free inode keeps the invariant, and no entry names the inode taken. */
  lemma TakeInodeKeeps(s: FsState)
    requires WellFormed(s) && Consistent(s) && AllocInode(s.meta).1 != 0
    ensures var t := s.(meta := AllocInode(s.meta).0); WellFormed(t) && Consistent(t) && Unnamed(t, AllocInode(s.meta).1)
  {
    var (m1, n) := AllocInode(s.meta);
    var t := s.(meta := m1);
    AllocKeeps(s.meta);
    EntriesKeep(s, t);
  }

  /** Once the inode is taken and the root has a block, placing the entry, or releasing
      the inode when there is no room, keeps the invariant. */
  lemma PlaceEntryKeeps(s: FsState, f: seq<Byte>, kind: U32, n: U32)
    requires WellFormed(s) && |f| >= MAX_FILENAME && Consistent(s) && Unnamed(s, n)
    ensures Consistent(PlaceEntry(s, f, kind, n).0)
  {
    var root := s.meta.inodes[0];
    if Scan(s.dir, root.blocks, IsFree, 0, 0).Some? {
      PlaceInSlotKeeps(s, f, kind, n);
    } else if FirstZero(root.blocks, 0).None? {
      FreeUnnamedKeeps(s, n);
    } else if AllocBlock(s.meta).1 == 0 {
      NoBlockKeeps(s, n);
    } else {
      PlaceInBlockKeeps(s, f, kind, n);
    }
  }

  /** The entry goes into the first free slot. */
  lemma PlaceInSlotKeeps(s: FsState, f: seq<Byte>, kind: U32, n: U32)
    requires WellFormed(s) && |f| >= MAX_FILENAME && Consistent(s) && Unnamed(s, n)
    requires Scan(s.dir, s.meta.inodes[0].blocks, IsFree, 0, 0).Some?
    ensures Consistent(PlaceEntry(s, f, kind, n).0)
  {
    var root := s.meta.inodes[0];
    ScanMeaning(s.dir, root.blocks, IsFree, 0, 0);
    var loc := Scan(s.dir, root.blocks, IsFree, 0, 0).value;
    var k := Slot(root.blocks, loc.0, loc.1);
    var e := NewEntry(s.dir[k], f, kind, n);
    FillSlotKeeps(s, loc.0, loc.1, e, Add32(root.size, DIR_ENTRY_SIZE));
  }

  /** An entry naming inode n, which no entry names, written into slot i of the root's
      x-th block, with the root's size changed, keeps the invariant. */
  lemma FillSlotKeeps(s: FsState, x: nat, i: nat, e: DirEntry, size: U32)
    requires WellFormed(s) && Consistent(s) && Unnamed(s, e.inodeNum) && WellFormedEntry(e)
    requires x < DIRECT_BLOCKS && s.meta.inodes[0].blocks[x] != 0 && i < ENTRIES_PER_BLOCK
    ensures var root := s.meta.inodes[0];
      Consistent(s.(meta := SetInode(s.meta, 0, root.(size := size)),
                    dir := s.dir[EntryIndex(root.blocks[x], i) := e]))
  {
    var root := s.meta.inodes[0];
    var r := s.(meta := SetInode(s.meta, 0, root.(size := size)), dir := s.dir[EntryIndex(root.blocks[x], i) := e]);
    RetagKeeps(s.meta, 0, root.(size := size));
    assert r.meta.inodes[0].blocks == root.blocks;
    EntriesAdd(s, r, root.blocks[x], i, e.inodeNum);
  }

  /** No slot is free: the entry goes into a fresh block at the first zero root pointer. */
  lemma PlaceInBlockKeeps(s: FsState, f: seq<Byte>, kind: U32, n: U32)
    requires WellFormed(s) && |f| >= MAX_FILENAME && Consistent(s) && Unnamed(s, n)
    requires Scan(s.dir, s.meta.inodes[0].blocks, IsFree, 0, 0).None?
    requires FirstZero(s.meta.inodes[0].blocks, 0).Some? && AllocBlock(s.meta).1 != 0
    ensures Consistent(PlaceEntry(s, f, kind, n).0)
  {
    var root := s.meta.inodes[0];
    var idx := FirstZero(root.blocks, 0).value;
    FillBlockKeeps(s, idx, NewEntry(EmptyEntry(), f, kind, n), Add32(root.size, DIR_ENTRY_SIZE));
  }

  /** An entry naming inode n, which no entry names, written into the first slot of a
      fresh zeroed block that the root's zero pointer idx now names, with the root's size
      changed, keeps the invariant. */
  lemma FillBlockKeeps(s: FsState, idx: nat, e: DirEntry, size: U32)
    requires WellFormed(s) && Consistent(s) && Unnamed(s, e.inodeNum) && WellFormedEntry(e)
    requires idx < DIRECT_BLOCKS && s.meta.inodes[0].blocks[idx] == 0 && AllocBlock(s.meta).1 != 0
    ensures var root := s.meta.inodes[0]; var (m1, b) := AllocBlock(s.meta);
      Consistent(s.(meta := SetInode(m1, 0, root.(blocks := root.blocks[idx := b], size := size)),
                    dir := ClearBlock(s.dir, b)[EntryIndex(b, 0) := e]))
  {
    var root := s.meta.inodes[0];
    var (m1, b) := AllocBlock(s.meta);
    var root1 := root.(blocks := root.blocks[idx := b], size := size);
    var c := EntryIndex(b, 0);
    var r := s.(meta := SetInode(m1, 0, root1), dir := ClearBlock(s.dir, b)[c := e]);
    AttachKeeps(s.meta, 0, idx, root1);
    ConsistentGives(s, 0);
    assert r.meta.inodes[0].blocks == root1.blocks && root1.blocks[idx] == b;
    forall j | 0 <= j < DIRECT_BLOCKS && root.blocks[j] != 0
      ensures root.blocks[j] in root1.blocks
    {
      assert root1.blocks[j] == root.blocks[j];
    }
    forall k | 0 <= k < DIR_SLOTS && k != c && r.dir[k].inodeNum != 0
      ensures r.dir[k].inodeNum == s.dir[k].inodeNum
    {
    }
    EntriesAdd(s, r, b, 0, e.inodeNum);
  }

  /** Giving the root, whose first pointer is zero, the block fs_allocate_block hands out
      (without zeroing it) keeps the invariant, and inode n unnamed. */
  lemma RootBlockKeeps(s: FsState, n: U32)
    requires WellFormed(s) && Consistent(s) && Unnamed(s, n)
    requires s.meta.inodes[0].blocks[0] == 0 && AllocBlock(s.meta).1 != 0
    ensures var root := s.meta.inodes[0]; var (m1, b) := AllocBlock(s.meta);
      var t := s.(meta := SetInode(m1, 0, root.(blocks := root.blocks[0 := b], size := 0)));
      WellFormed(t) && Consistent(t) && Unnamed(t, n)
  {
    var root := s.meta.inodes[0];
    var (m1, b) := AllocBlock(s.meta);
    var root1 := root.(blocks := root.blocks[0 := b], size := 0);
    var t := s.(meta := SetInode(m1, 0, root1));
    AttachKeeps(s.meta, 0, 0, root1);
    forall j | 0 <= j < DIRECT_BLOCKS && root.blocks[j] != 0
      ensures root.blocks[j] in root1.blocks
    {
      assert root1.blocks[j] == root.blocks[j];
    }
    EntriesKeep(s, t);
  }

  /** Once inode n is taken, setting it up as an empty file and placing its entry keeps
      the invariant, whichever way it ends. */
  lemma SetUpFileKeeps(s: FsState, f: seq<Byte>, kind: U32, n: U32)
    requires WellFormed(s) && |f| >= MAX_FILENAME && Consistent(s) && Unnamed(s, n)
    ensures Consistent(SetUpFile(s, f, kind, n).0)
  {
    var ino := s.meta.inodes[n].(kind := kind, size := 0, links := 1, permissions := FILE_PERMISSIONS);
    var t := s.(meta := SetInode(s.meta, n, ino));
    FileInodeKeeps(s, n, ino);
    var root := t.meta.inodes[0];
    if root.blocks[0] == 0 {
      var (m3, b) := AllocBlock(t.meta);
      if b == 0 {
        NoBlockKeeps(t, n);
      } else {
        RootBlockKeeps(t, n);
        PlaceEntryKeeps(t.(meta := SetInode(m3, 0, root.(blocks := root.blocks[0 := b], size := 0))), f, kind, n);
      }
    } else {
      PlaceEntryKeeps(t, f, kind, n);
    }
  }

  /** Setting the type, size, links and permissions of inode n, unnamed, keeps the
      invariant. */
  lemma FileInodeKeeps(s: FsState, n: U32, ino: Inode)
    requires WellFormed(s) && Consistent(s) && Unnamed(s, n)
    requires ino.blocks == s.meta.inodes[n].blocks && ino.indirect == s.meta.inodes[n].indirect
    ensures var t := s.(meta := SetInode(s.meta, n, ino)); WellFormed(t) && Consistent(t) && Unnamed(t, n)
  {
    RetagKeeps(s.meta, n, ino);
    EntriesKeep(s, s.(meta := SetInode(s.meta, n, ino)));
  }

  /** When fs_allocate_block has nothing for the root, releasing inode n, unnamed, keeps
      the invariant. */
  lemma NoBlockKeeps(s: FsState, n: U32)
    requires WellFormed(s) && Consistent(s) && Unnamed(s, n) && AllocBlock(s.meta).1 == 0
    ensures Consistent(s.(meta := FreeInode(AllocBlock(s.meta).0, n)))
  {
    var t := s.(meta := AllocBlock(s.meta).0);
    AllocKeeps(s.meta);
    EntriesKeep(s, t);
    FreeUnnamedKeeps(t, n);
  }

  /** fs_create_file keeps the invariant. */
  lemma CreateSound(s: FsState, f: Option<seq<Byte>>, kind: U32)
    requires WellFormed(s) && (f.Some? ==> |f.value| >= MAX_FILENAME) && Sound(s)
    ensures Sound(Create(s, f, kind).0)
  {
    var s1 := Init(s);
    var r := Create(s, f, kind).0;
    assert Init(r) == r;
    if f.Some? && Find(s1, f).None? && AllocInode(s1.meta).1 != 0 {
      TakeInodeKeeps(s1);
      SetUpFileKeeps(s1.(meta := AllocInode(s1.meta).0), f.value, kind, AllocInode(s1.meta).1);
    }
  }

  // ---------------------------------------------------------------------------
  // fs_delete_file
  // ---------------------------------------------------------------------------

  /** The block loop of fs_delete_file keeps the counters when every pointer it passes
      names a data block in use and no two of them name the same block. */
  lemma {:induction false} FreeFileBlocksAgree(m: Meta, blocks: seq<U32>, j: nat)
    requires WellFormedMeta(m) && BlockPointers(blocks) && j <= DIRECT_BLOCKS && CountersAgree(m)
    requires forall x :: j <= x < DIRECT_BLOCKS && blocks[x] != 0 ==>
      m.sb.firstDataBlock <= blocks[x] < m.sb.totalBlocks && m.blockBits[blocks[x]]
    requires forall x, x2 :: (j <= x < DIRECT_BLOCKS && j <= x2 < DIRECT_BLOCKS && blocks[x] != 0 &&
                              blocks[x] == blocks[x2]) ==> x == x2
    ensures CountersAgree(FreeFileBlocks(m, blocks, j))
    decreases DIRECT_BLOCKS - j
  {
    if j < DIRECT_BLOCKS && blocks[j] != 0 {
      var m1 := FreeBlock(m, blocks[j]);
      FreeKeepsCounters(m, blocks[j], 0);
      assert m1.blockBits == m.blockBits[blocks[j] := false] && m1.sb.totalBlocks == m.sb.totalBlocks;
      forall x | j + 1 <= x < DIRECT_BLOCKS && blocks[x] != 0
        ensures m1.blockBits[blocks[x]]
      {
        assert blocks[x] != blocks[j];
      }
      FreeFileBlocksAgree(m1, blocks, j + 1);
    }
  }

  /** Releasing inode n, in use and not the root, as fs_delete_file does, keeps the
      counters and the ownership of blocks, and clears only n's bit in the inode bitmap. */
  lemma ReleaseFileKeeps(m: Meta, n: U32)
    requires WellFormedMeta(m) && BlocksOwned(m) && CountersAgree(m)
    requires 0 < n < m.sb.totalInodes && m.inodeBits[n]
    ensures var r := ReleaseFile(m, n);
      BlocksOwned(r) && CountersAgree(r) && r.inodeBits == m.inodeBits[n := false] &&
      r.sb.totalInodes == m.sb.totalInodes && r.inodes[0] == m.inodes[0]
  {
    var ino := m.inodes[n];
    var m1 := FreeFileBlocks(m, ino.blocks, 0);
    FreeFileBlocksAgree(m, ino.blocks, 0);
    assert ReleaseFile(m, n) == FreeInode(m1, n);
    FreeKeepsCounters(m1, 0, n);
    ReleaseFileOwned(m, n);
  }

  /** The ownership half of ReleaseFileKeeps: the blocks the loop frees belong to inode n
      alone, whose pointers are then zeroed. */
  lemma ReleaseFileOwned(m: Meta, n: U32)
    requires WellFormedMeta(m) && BlocksOwned(m) && 0 < n < m.sb.totalInodes
    ensures BlocksOwned(ReleaseFile(m, n))
  {
    var ino := m.inodes[n];
    var r := ReleaseFile(m, n);
    ReleaseFileBits(m, n);
    assert Freed(ino) == Run(ino.blocks, 0);
    forall i, j | 0 <= i < MAX_FILES && 0 <= j < DIRECT_BLOCKS && r.inodes[i].blocks[j] != 0
      ensures m.sb.firstDataBlock <= r.inodes[i].blocks[j] < m.sb.totalBlocks && r.blockBits[r.inodes[i].blocks[j]]
    {
      var p := m.inodes[i].blocks[j];
      assert i != n && r.inodes[i] == m.inodes[i];
      forall x | 0 <= x < |Run(ino.blocks, 0)|
        ensures Run(ino.blocks, 0)[x] != p
      {
        assert ino.blocks[x] == Run(ino.blocks, 0)[x];
      }
    }
    assert forall i :: 0 <= i < MAX_FILES && i != n ==> r.inodes[i] == m.inodes[i];
  }

  /** The entry naming inode n is freed and n's bit cleared; every other entry stays or
      is freed, and the root keeps its blocks: the entries stay owned. */
  lemma EntriesRemove(s: FsState, t: FsState, n: U32)
    requires WellFormed(s) && WellFormed(t) && EntriesOwned(s) && n < MAX_FILES
    requires t.meta.sb.totalInodes == s.meta.sb.totalInodes && t.meta.inodeBits == s.meta.inodeBits[n := false]
    requires RootKeeps(s.meta, t.meta)
    requires forall k :: 0 <= k < DIR_SLOTS && t.dir[k].inodeNum != 0 ==>
      t.dir[k].inodeNum == s.dir[k].inodeNum && t.dir[k].inodeNum != n
    ensures EntriesOwned(t)
  {
    forall b, i | 0 <= b < MAX_BLOCKS && 0 <= i < ENTRIES_PER_BLOCK && t.dir[EntryIndex(b, i)].inodeNum != 0
      ensures b != 0 && b in t.meta.inodes[0].blocks
    {
      assert s.dir[EntryIndex(b, i)].inodeNum != 0;
      var j :| 0 <= j < DIRECT_BLOCKS && s.meta.inodes[0].blocks[j] == b;
    }
  }

  /** A successful fs_delete_file keeps the invariant. */
  lemma DeleteKeeps(s: FsState, f: seq<Byte>, n: U32)
    requires WellFormed(s) && |f| >= MAX_FILENAME && Consistent(s)
    requires Find(s, Some(f)) == Some(n) && n < s.meta.sb.totalInodes
    ensures Consistent(DeleteIn(s, Some(f)).0)
  {
    var blocks := s.meta.inodes[0].blocks;
    var r := DeleteIn(s, Some(f)).0;
    DeleteUnlinks(s, f, n);
    DeleteReleases(s, f, n);
    var x: nat, y: nat :| FirstNaming(s.dir, blocks, n, x, y) &&
      r.dir == s.dir[Slot(blocks, x, y) := s.dir[Slot(blocks, x, y)].(inodeNum := 0)];
    var k := Slot(blocks, x, y);
    var m := ReleaseFile(s.meta, n);
    assert r == s.(meta := m.(inodes := m.inodes[0 := m.inodes[0].(size := Sub32(m.inodes[0].size, DIR_ENTRY_SIZE))]),
                   dir := s.dir[k := s.dir[k].(inodeNum := 0)]);
    UnlinkKeeps(s, k, n);
  }

  /** Releasing inode n, not the root, and freeing the entry at slot k, which names it,
      with the root one entry smaller, keeps the invariant. */
  lemma UnlinkKeeps(s: FsState, k: nat, n: U32)
    requires WellFormed(s) && Consistent(s) && 0 < n < s.meta.sb.totalInodes
    requires k < DIR_SLOTS && s.dir[k].inodeNum == n
    ensures var m := ReleaseFile(s.meta, n);
      Consistent(s.(meta := m.(inodes := m.inodes[0 := m.inodes[0].(size := Sub32(m.inodes[0].size, DIR_ENTRY_SIZE))]),
                    dir := s.dir[k := s.dir[k].(inodeNum := 0)]))
  {
    var m := ReleaseFile(s.meta, n);
    var ino := m.inodes[0].(size := Sub32(m.inodes[0].size, DIR_ENTRY_SIZE));
    var r := s.(meta := SetInode(m, 0, ino), dir := s.dir[k := s.dir[k].(inodeNum := 0)]);
    ReleaseFileKeeps(s.meta, n);
    RetagKeeps(m, 0, ino);
    assert r.meta.inodes[0].blocks == s.meta.inodes[0].blocks;
    forall k2 | 0 <= k2 < DIR_SLOTS && r.dir[k2].inodeNum != 0
      ensures r.dir[k2].inodeNum == s.dir[k2].inodeNum && r.dir[k2].inodeNum != n
    {
    }
    EntriesRemove(s, r, n);
  }

  /** fs_delete_file keeps the invariant. */
  lemma DeleteSound(s: FsState, f: Option<seq<Byte>>)
    requires WellFormed(s) && (f.Some? ==> |f.value| >= MAX_FILENAME) && Sound(s)
    ensures Sound(Delete(s, f).0)
  {
    var s1 := Init(s);
    var r := Delete(s, f).0;
    assert Init(r) == r;
    if f.Some? && Find(s1, f).Some? && Find(s1, f).value < s1.meta.sb.totalInodes {
      DeleteKeeps(s1, f.value, Find(s1, f).value);
    }
  }

  // ---------------------------------------------------------------------------
  // file_open with O_TRUNC
  // ---------------------------------------------------------------------------

  /** One turn of the O_TRUNC loop keeps the counters and the ownership of blocks: the
      block it frees was in use and named by that pointer alone. */
  lemma ReleasePointerKeeps(m: Meta, n: nat, j: nat)
    requires WellFormedMeta(m) && BlocksOwned(m) && CountersAgree(m) && n < MAX_FILES && j < DIRECT_BLOCKS
    ensures BlocksOwned(ReleasePointer(m, n, j)) && CountersAgree(ReleasePointer(m, n, j))
  {
    var ino := m.inodes[n];
    var b := ino.blocks[j];
    if b != 0 {
      var m1 := FreeBlock(m, b);
      FreeKeepsCounters(m, b, 0);
      var r := ReleasePointer(m, n, j);
      assert r == SetInode(m1, n, ino.(blocks := ino.blocks[j := 0]));
      assert r.blockBits == m.blockBits[b := false] && r.sb == m1.sb;
      forall i1, j1 | 0 <= i1 < MAX_FILES && 0 <= j1 < DIRECT_BLOCKS
        ensures r.inodes[i1].blocks[j1] == if i1 == n && j1 == j then 0 else m.inodes[i1].blocks[j1]
      {
      }
      forall i1, j1 | 0 <= i1 < MAX_FILES && 0 <= j1 < DIRECT_BLOCKS && r.inodes[i1].blocks[j1] != 0
        ensures r.blockBits[r.inodes[i1].blocks[j1]]
      {
        assert m.inodes[i1].blocks[j1] != b;
      }
      assert forall i1 :: 0 <= i1 < MAX_FILES ==> r.inodes[i1].indirect == m.inodes[i1].indirect;
    }
  }

  /** The first i turns of the O_TRUNC loop keep the ownership of blocks. */
  lemma {:induction false} ReleasedUpToKeeps(m: Meta, n: nat, i: nat)
    requires WellFormedMeta(m) && BlocksOwned(m) && CountersAgree(m) && n < MAX_FILES && i <= DIRECT_BLOCKS
    ensures BlocksOwned(ReleasedUpTo(m, n, i)) && CountersAgree(ReleasedUpTo(m, n, i))
    decreases i
  {
    if i > 0 {
      ReleasedUpToKeeps(m, n, i - 1);
      ReleaseStepKeeps(ReleasedUpTo(m, n, i - 1), n, i - 1, ReleasedUpTo(m, n, i));
    }
  }

  /** ReleasePointerKeeps for a state r known to be the next one. */
  lemma ReleaseStepKeeps(m: Meta, n: nat, j: nat, r: Meta)
    requires WellFormedMeta(m) && BlocksOwned(m) && CountersAgree(m) && n < MAX_FILES && j < DIRECT_BLOCKS
    requires r == ReleasePointer(m, n, j)
    ensures WellFormedMeta(r) && BlocksOwned(r) && CountersAgree(r)
  {
    ReleasePointerKeeps(m, n, j);
  }

  /** Truncating inode n keeps the counters and the ownership of blocks, and changes
      neither the root nor the inode bitmap when n is not the root. */
  lemma TruncateMetaKeeps(m: Meta, n: nat)
    requires WellFormedMeta(m) && BlocksOwned(m) && CountersAgree(m) && 0 < n < MAX_FILES
    ensures var r := Truncate(m, n);
      BlocksOwned(r) && CountersAgree(r) && r.inodes[0] == m.inodes[0] && r.inodeBits == m.inodeBits &&
      r.sb.totalInodes == m.sb.totalInodes
  {
    var m0 := SetInode(m, n, m.inodes[n].(size := 0));
    RetagKeeps(m, n, m.inodes[n].(size := 0));
    ReleasedUpToKeeps(m0, n, DIRECT_BLOCKS);
    ReleasedUpToEffect(m0, n, DIRECT_BLOCKS);
    var m1 := ReleasedUpTo(m0, n, DIRECT_BLOCKS);
    assert m1.inodes[n].indirect == 0;
  }

  /** Truncating inode n, not the root, keeps the invariant. */
  lemma TruncateKeeps(s: FsState, n: nat)
    requires WellFormed(s) && Consistent(s) && 0 < n < MAX_FILES
    ensures Consistent(s.(meta := Truncate(s.meta, n)))
  {
    TruncateMetaKeeps(s.meta, n);
    EntriesKeep(s, s.(meta := Truncate(s.meta, n)));
  }

  // ---------------------------------------------------------------------------
  // file_write
  // ---------------------------------------------------------------------------

  /** One turn of the loop of file_write keeps the invariant, whatever inode it writes. */
  lemma WriteChunkKeeps(s: FsState, n: nat, pos: U32, data: seq<Byte>, done: nat)
    requires WellFormed(s) && Consistent(s) && n < MAX_FILES && done < |data|
    ensures var c := WriteChunk(s, n, pos, data, done); Consistent(if c.Halted? then c.stopped else c.next)
  {
    var bi := pos / BLOCK_SIZE;
    var c := WriteChunk(s, n, pos, data, done);
    var t := if c.Halted? then c.stopped else c.next;
    if bi < DIRECT_BLOCKS && s.meta.inodes[n].blocks[bi] == 0 {
      var ino := s.meta.inodes[n];
      var (m1, b) := AllocBlock(s.meta);
      if b == 0 {
        assert t == s.(meta := m1);
        AllocOnlyKeeps(s);
      } else {
        assert t.meta == SetInode(m1, n, ino.(blocks := ino.blocks[bi := b])) && t.dir == s.dir;
        AttachBlockKeeps(s, n, bi);
      }
    } else {
      assert t.meta == s.meta && t.dir == s.dir;
    }
  }

  /** Taking a block that nothing points to keeps the invariant. */
  lemma AllocOnlyKeeps(s: FsState)
    requires WellFormed(s) && Consistent(s)
    ensures Consistent(s.(meta := AllocBlock(s.meta).0))
  {
    AllocKeeps(s.meta);
    EntriesKeep(s, s.(meta := AllocBlock(s.meta).0));
  }

  /** Pointing the zero pointer bi of inode n at the block fs_allocate_block hands out
      keeps the invariant, and the root keeps its blocks even when n is the root. */
  lemma AttachBlockKeeps(s: FsState, n: nat, bi: nat)
    requires WellFormed(s) && Consistent(s) && n < MAX_FILES && bi < DIRECT_BLOCKS
    requires s.meta.inodes[n].blocks[bi] == 0 && AllocBlock(s.meta).1 != 0
    ensures var ino := s.meta.inodes[n]; var (m1, b) := AllocBlock(s.meta);
      Consistent(s.(meta := SetInode(m1, n, ino.(blocks := ino.blocks[bi := b]))))
  {
    var ino := s.meta.inodes[n];
    var (m1, b) := AllocBlock(s.meta);
    var ino1 := ino.(blocks := ino.blocks[bi := b]);
    var t := s.(meta := SetInode(m1, n, ino1));
    AttachKeeps(s.meta, n, bi, ino1);
    forall j | 0 <= j < DIRECT_BLOCKS && s.meta.inodes[0].blocks[j] != 0
      ensures s.meta.inodes[0].blocks[j] in t.meta.inodes[0].blocks
    {
      assert t.meta.inodes[0].blocks[j] == s.meta.inodes[0].blocks[j];
    }
    EntriesKeep(s, t);
  }

  /** The loop of file_write keeps the invariant; r is its outcome. */
  lemma {:induction false} WriteChunksKeeps(s: FsState, n: nat, pos: U32, data: seq<Byte>, done: nat, r: (FsState, nat, U32))
    requires WellFormed(s) && Consistent(s) && n < MAX_FILES && done <= |data|
    requires r == Turns(s, n, pos, data, done)
    ensures WellFormed(r.0) && Consistent(r.0)
    decreases |data| - done
  {
    if done < |data| {
      var c := WriteChunk(s, n, pos, data, done);
      WriteChunkKeeps(s, n, pos, data, done);
      if c.Halted? {
        TurnsEnd(s, c.stopped, n, pos, data, done);
      } else {
        var next: U32, doneNext := pos + c.len, done + c.len;
        TurnsOnWith(s, c.next, n, pos, c.len, data, done, next, doneNext, r);
        WriteChunksKeeps(c.next, n, next, data, doneNext, r);
      }
    }
  }

  /** The loop of file_write, then the size update, keeps the invariant. */
  lemma WriteOutcomeKeeps(s1: Files, n: nat, pos: U32, data: seq<Byte>)
    requires WellFormedFiles(s1) && Consistent(s1.fs) && n < MAX_FILES
    ensures Consistent(WriteOutcome(s1, n, pos, data).0)
  {
    var (fs2, w, end) := WriteChunks(s1.fs, n, pos, data, 0);
    WriteChunksKeeps(s1.fs, n, pos, data, 0, Turns(s1.fs, n, pos, data, 0));
    var ino := fs2.meta.inodes[n].(size := end);
    if end > fs2.meta.inodes[n].size {
      var t := fs2.(meta := SetInode(fs2.meta, n, ino));
      assert WriteOutcome(s1, n, pos, data).0 == t;
      RetagKeeps(fs2.meta, n, ino);
      EntriesKeep(fs2, t);
    }
  }

  /** file_write keeps the invariant. */
  lemma WriteSound(s: Files, fds: seq<FdEntry>, fd: int, data: seq<Byte>)
    requires WellFormedFiles(s) && WellFormedFds(fds) && |data| < U32_LIMIT && Sound(s.fs)
    ensures Sound(Write(s, fds, fd, data).0.fs)
  {
    var s1 := FsReady(s);
    var r := Write(s, fds, fd, data).0;
    assert Init(r.fs) == r.fs;
    if OpenFd(fds, fd) {
      var e := s1.table[fds[fd].globalIndex];
      if MayWrite(e.flags) && e.inodeNum < s1.fs.meta.sb.totalInodes {
        WriteOutcomeKeeps(s1, e.inodeNum, e.position, data);
      }
    }
  }

  // ---------------------------------------------------------------------------
  // file_open, file_read, file_seek, file_close
  // ---------------------------------------------------------------------------

  /** file_open keeps the invariant: the name is found, or created (with O_CREAT), and
      with O_TRUNC the inode found, never the root, is truncated. */
  lemma OpenSound(s: Files, fds: seq<FdEntry>, f: seq<Byte>, flags: U32)
    requires WellFormedFiles(s) && WellFormedFds(fds) && |f| >= MAX_FILENAME && Sound(s.fs)
    ensures Sound(Open(s, fds, f, flags).0.fs)
  {
    var s0 := TableReady(FsReady(s));
    LookupKeeps(s0, f, flags);
    var (s1, found) := Lookup(s0, f, flags);
    var r := Open(s, fds, f, flags).0;
    if found.Some? && FirstFreeEntry(s1.table) >= 0 && found.value < s1.fs.meta.sb.totalInodes {
      FoundIsNamed(s1.fs, f, found.value);
      OpenAtKeeps(s1, fds, found.value, FirstFreeEntry(s1.table), flags);
    }
    assert Init(r.fs) == r.fs;
  }

  /** Lines 57-63 of file_open keep the invariant, and what they answer is what
      fs_find_file answers afterwards. */
  lemma LookupKeeps(s: Files, f: seq<Byte>, flags: U32)
    requires WellFormedFiles(s) && |f| >= MAX_FILENAME && s.fs.initialized && Consistent(s.fs)
    ensures var (s1, found) := Lookup(s, f, flags);
      Consistent(s1.fs) && s1.fs.initialized && (found.Some? ==> found == Find(s1.fs, Some(f)))
  {
    if Find(s.fs, Some(f)).None? && HasFlag(flags, O_CREAT) {
      CreateSound(s.fs, Some(f), FILE_TYPE_REGULAR);
      var fs1 := Create(s.fs, Some(f), FILE_TYPE_REGULAR).0;
      assert Init(fs1) == fs1;
    }
  }

  /** The rest of file_open keeps the invariant, for an inode that is not the root. */
  lemma OpenAtKeeps(s: Files, fds: seq<FdEntry>, n: U32, g: nat, flags: U32)
    requires WellFormedFiles(s) && WellFormedFds(fds) && Consistent(s.fs) && 0 < n < MAX_FILES && g < MAX_OPEN_FILES
    ensures Consistent(OpenAt(s, fds, n, g, flags).0.fs)
    ensures OpenAt(s, fds, n, g, flags).0.fs.initialized == s.fs.initialized
  {
    if FirstFreeFd(fds) >= 0 && HasFlag(flags, O_TRUNC) {
      TruncateKeeps(s.fs, n);
      assert OpenAt(s, fds, n, g, flags).0.fs == s.fs.(meta := Truncate(s.fs.meta, n));
    }
  }

  /** file_read and file_seek change the file system only by fs_init, and file_close not
      at all: they keep the invariant. */
  lemma ReadSeekCloseSound(s: Files, fds: seq<FdEntry>, fd: int, count: U32, offset: U32, whence: int)
    requires WellFormedFiles(s) && WellFormedFds(fds) && Sound(s.fs)
    ensures Sound(Read(s, fds, fd, count).0.fs)
    ensures Sound(Seek(s, fds, fd, offset, whence).0.fs)
    ensures Sound(Close(s, fds, fd).0.fs)
  {
    InitProperties(s.fs);
  }

  // ---------------------------------------------------------------------------
  // Consequences
  // ---------------------------------------------------------------------------

  /** In any sound state, after fs_create_file succeeds, fs_find_file finds the new inode
      under the name, for a name shorter than 32 characters. */
  lemma SoundCreateThenFind(s: FsState, f: seq<Byte>, kind: U32)
    requires WellFormed(s) && |f| >= MAX_FILENAME && NUL in f[..MAX_FILENAME] && Sound(s)
    requires Create(s, Some(f), kind).1 == 0
    ensures Find(Create(s, Some(f), kind).0, Some(f)) == Some(AllocInode(Init(s).meta).1)
  {
    ConsistentGives(Init(s), 0);
    CreateThenFind(s, f, kind);
  }

  /** In any sound state, after fs_delete_file removes a name that matches one entry the
      loops reach, fs_find_file no longer finds it. */
  lemma SoundDeleteThenFind(s: FsState, f: seq<Byte>)
    requires WellFormed(s) && |f| >= MAX_FILENAME && Sound(s)
    requires Find(Init(s), Some(f)).Some? && MatchedOnce(Init(s).dir, Init(s).meta.inodes[0].blocks, f)
    ensures Delete(s, Some(f)).1 == 0 && Find(Delete(s, Some(f)).0, Some(f)) == None
  {
    var s1 := Init(s);
    var n := Find(s1, Some(f)).value;
    FoundIsNamed(s1, f, n);
    var blocks := s1.meta.inodes[0].blocks;
    var x: nat, y: nat :| FirstNaming(s1.dir, blocks, n, x, y) && Scan(s1.dir, blocks, NamesInode(n), 0, 0) == Some((x, y));
    assert s1.dir[Slot(blocks, x, y)].inodeNum == n;
    ConsistentGives(s1, n);
    DeleteReleases(s1, f, n);
    DeleteThenFind(s1, f, n);
  }
}
