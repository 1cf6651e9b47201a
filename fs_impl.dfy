/** The state of fs/fs.c as it really is: static variables updated in place. The class
    FileSystem holds the superblock, the two bitmaps, the inode table, the directory entry
    view of the disk blocks, the disk's bytes and the metadata image on the disk; each of
    its methods is proved to leave the state that the function of the same operation in
    module Fs describes. */
module FsImpl {
  import opened CTypes
  import opened Fs

  class FileSystem {
    var sb: Superblock
    const blockUsed: array<bool>
    const inodeUsed: array<bool>
    const inodes: array<Inode>
    /** The directory entries the disk blocks hold, ENTRIES_PER_BLOCK to a block. */
    const dir: array<DirEntry>
    /** fs_storage: the bytes of the disk. */
    const storage: array<Byte>
    /** The metadata image kept in the first blocks of the disk. */
    var disk: Meta
    var initialized: bool

    ghost function MetaView(): Meta
      reads this, blockUsed, inodeUsed, inodes
    {
      Meta(sb, blockUsed[..], inodeUsed[..], inodes[..])
    }

    ghost function State(): FsState
      reads this, blockUsed, inodeUsed, inodes, dir, storage
    {
      FsState(MetaView(), dir[..], storage[..], disk, initialized)
    }

    ghost predicate Valid()
      reads this, blockUsed, inodeUsed, inodes, dir, storage
    {
      blockUsed != inodeUsed &&
      blockUsed as object != inodes && blockUsed as object != dir && blockUsed as object != storage &&
      inodeUsed as object != inodes && inodeUsed as object != dir && inodeUsed as object != storage &&
      inodes as object != dir && inodes as object != storage && dir as object != storage &&
      WellFormed(State())
    }

    /** The part of Valid the directory loops need. */
    ghost predicate DirValid()
      reads this, dir
    {
      WellFormedDir(dir[..])
    }

    /** The file system at boot: all static variables and the whole disk are zero. */
    constructor ()
      ensures Valid() && State() == Boot()
      ensures fresh(blockUsed) && fresh(inodeUsed) && fresh(inodes) && fresh(dir) && fresh(storage)
    {
      sb := ZeroMeta().sb;
      blockUsed := new bool[MAX_BLOCKS](_ => false);
      inodeUsed := new bool[MAX_FILES](_ => false);
      inodes := new Inode[MAX_FILES](_ => ZeroInode());
      dir := new DirEntry[DIR_SLOTS](_ => EmptyEntry());
      storage := new Byte[STORAGE_SIZE](_ => 0);
      disk := ZeroMeta();
      initialized := false;
      new;
      assert inodes[..] == ZeroMeta().inodes;
      assert dir[..] == EmptyDir();
      assert storage[..] == Zeros(STORAGE_SIZE);
    }

    /** fs_allocate_block. */
    method AllocateBlock() returns (b: U32)
      requires Valid()
      modifies this`sb, blockUsed
      ensures Valid()
      ensures (MetaView(), b) == AllocBlock(old(MetaView()))
    {
      var i: U32 := sb.firstDataBlock;
      while i < sb.totalBlocks
        invariant sb == old(sb) && blockUsed[..] == old(blockUsed[..])
        invariant sb.firstDataBlock <= i && (i <= sb.totalBlocks || i == sb.firstDataBlock)
        invariant forall j :: sb.firstDataBlock <= j < i ==> blockUsed[j]
        decreases sb.totalBlocks - i
      {
        if !blockUsed[i] {
          blockUsed[i] := true;
          sb := sb.(freeBlocks := Sub32(sb.freeBlocks, 1));
          return i;
        }
        i := i + 1;
      }
      return 0;
    }

    /** fs_free_block. */
    method FreeBlock(b: U32)
      requires Valid()
      modifies this`sb, blockUsed
      ensures Valid()
      ensures MetaView() == Fs.FreeBlock(old(MetaView()), b)
    {
      if b >= sb.totalBlocks {
        return;
      }
      blockUsed[b] := false;
      sb := sb.(freeBlocks := Add32(sb.freeBlocks, 1));
    }

    /** fs_allocate_inode. */
    method AllocateInode() returns (n: U32)
      requires Valid()
      modifies this`sb, inodeUsed
      ensures Valid()
      ensures (MetaView(), n) == AllocInode(old(MetaView()))
    {
      var i: U32 := 1;
      while i < sb.totalInodes
        invariant sb == old(sb) && inodeUsed[..] == old(inodeUsed[..])
        invariant 1 <= i && (i <= sb.totalInodes || i == 1)
        invariant forall j :: 1 <= j < i ==> inodeUsed[j]
        decreases sb.totalInodes - i
      {
        if !inodeUsed[i] {
          inodeUsed[i] := true;
          sb := sb.(freeInodes := Sub32(sb.freeInodes, 1));
          return i;
        }
        i := i + 1;
      }
      return 0;
    }

    /** fs_free_inode. */
    method FreeInode(n: U32)
      requires Valid()
      modifies this`sb, inodeUsed, inodes
      ensures Valid()
      ensures MetaView() == Fs.FreeInode(old(MetaView()), n)
    {
      if n >= sb.totalInodes || n == 0 {
        return;
      }
      inodeUsed[n] := false;
      sb := sb.(freeInodes := Add32(sb.freeInodes, 1));
      inodes[n] := ClearedInode(inodes[n]);
    }

    /** fs_get_inode: the inode when the number is below total_inodes, None (NULL)
        otherwise. The pointer the source hands out is modelled by callers writing the
        changed inode back. */
    method GetInode(n: U32) returns (r: Option<Inode>)
      requires Valid()
      ensures r.Some? <==> n < sb.totalInodes
      ensures r.Some? ==> r.value == inodes[n]
    {
      if n >= sb.totalInodes {
        return None;
      }
      return Some(inodes[n]);
    }

    /** fs_format. */
    method Format()
      requires Valid()
      modifies this, blockUsed, inodeUsed, inodes, dir, storage
      ensures Valid() && State() == Fs.Format(old(State()))
    {
      ZeroDisk();
      sb := FormattedSuperblock();
      ResetBitmaps();
      ClearInodes();
      inodes[0] := inodes[0].(kind := FILE_TYPE_DIRECTORY, size := 0, links := 1, permissions := ROOT_PERMISSIONS);
      disk := Meta(sb, blockUsed[..], inodeUsed[..], inodes[..]);
      assert blockUsed[..] == FormatMeta(old(MetaView())).blockBits;
      assert inodeUsed[..] == FormatMeta(old(MetaView())).inodeBits;
      assert inodes[..] == FormatMeta(old(MetaView())).inodes;
    }

    /** The bitmap loops of fs_format: both bitmaps are cleared, then blocks 0 to 9 and
        inode 0 are marked used. */
    method ResetBitmaps()
      requires Valid()
      modifies blockUsed, inodeUsed
      ensures Valid()
      ensures forall j :: 0 <= j < MAX_BLOCKS ==> (blockUsed[j] <==> j < RESERVED_BLOCKS)
      ensures forall j :: 0 <= j < MAX_FILES ==> (inodeUsed[j] <==> j == 0)
    {
      var i := 0;
      while i < MAX_BLOCKS
        invariant 0 <= i <= MAX_BLOCKS
        invariant forall j :: 0 <= j < i ==> !blockUsed[j]
        modifies blockUsed
      {
        blockUsed[i] := false;
        i := i + 1;
      }
      i := 0;
      while i < MAX_FILES
        invariant 0 <= i <= MAX_FILES
        invariant forall j :: 0 <= j < i ==> !inodeUsed[j]
        modifies inodeUsed
      {
        inodeUsed[i] := false;
        i := i + 1;
      }
      i := 0;
      while i < RESERVED_BLOCKS
        invariant 0 <= i <= RESERVED_BLOCKS
        invariant forall j :: 0 <= j < MAX_BLOCKS ==> (blockUsed[j] <==> j < i)
        modifies blockUsed
      {
        blockUsed[i] := true;
        i := i + 1;
      }
      inodeUsed[0] := true;
    }

    /** The first loop of fs_format: every byte of the disk becomes zero, and with it
        every directory entry becomes free. */
    method ZeroDisk()
      requires Valid()
      modifies dir, storage
      ensures Valid()
      ensures storage[..] == Zeros(STORAGE_SIZE) && dir[..] == EmptyDir()
    {
      var i := 0;
      while i < STORAGE_SIZE
        invariant 0 <= i <= STORAGE_SIZE
        invariant forall j :: 0 <= j < i ==> storage[j] == 0
        modifies storage
      {
        storage[i] := 0;
        i := i + 1;
      }
      i := 0;
      while i < DIR_SLOTS
        invariant 0 <= i <= DIR_SLOTS
        invariant forall j :: 0 <= j < i ==> dir[j] == EmptyEntry()
        invariant forall j :: 0 <= j < DIR_SLOTS ==> WellFormedEntry(dir[j])
        modifies dir
      {
        dir[i] := EmptyEntry();
        i := i + 1;
      }
      assert storage[..] == Zeros(STORAGE_SIZE);
      assert dir[..] == EmptyDir();
    }

    /** The inode loop of fs_format: size, type, links and block pointers of every inode
        are zeroed. */
    method ClearInodes()
      requires Valid()
      modifies inodes
      ensures Valid()
      ensures forall j :: 0 <= j < MAX_FILES ==> inodes[j] == ClearedInode(old(inodes[j]))
    {
      var i := 0;
      while i < MAX_FILES
        invariant 0 <= i <= MAX_FILES
        invariant forall j :: 0 <= j < i ==> inodes[j] == ClearedInode(old(inodes[j]))
        invariant forall j :: i <= j < MAX_FILES ==> inodes[j] == old(inodes[j])
        modifies inodes
      {
        inodes[i] := ClearedInode(inodes[i]);
        i := i + 1;
      }
    }

    /** The loading branch of fs_init: superblock, bitmaps and inode table are copied from
        the image on the disk. */
    method LoadImage()
      requires Valid()
      modifies this`sb, blockUsed, inodeUsed, inodes
      ensures Valid() && MetaView() == disk
    {
      sb := disk.sb;
      var i := 0;
      while i < MAX_BLOCKS
        invariant 0 <= i <= MAX_BLOCKS
        invariant forall j :: 0 <= j < i ==> blockUsed[j] == disk.blockBits[j]
        modifies blockUsed
      {
        blockUsed[i] := disk.blockBits[i];
        i := i + 1;
      }
      i := 0;
      while i < MAX_FILES
        invariant 0 <= i <= MAX_FILES
        invariant forall j :: 0 <= j < i ==> inodeUsed[j] == disk.inodeBits[j]
        modifies inodeUsed
      {
        inodeUsed[i] := disk.inodeBits[i];
        i := i + 1;
      }
      i := 0;
      while i < MAX_FILES
        invariant 0 <= i <= MAX_FILES
        invariant forall j :: 0 <= j < i ==> inodes[j] == disk.inodes[j]
        modifies inodes
      {
        inodes[i] := disk.inodes[i];
        i := i + 1;
      }
      assert blockUsed[..] == disk.blockBits;
      assert inodeUsed[..] == disk.inodeBits;
      assert inodes[..] == disk.inodes;
    }

    /** fs_init: always answers 0. */
    method Init() returns (r: I32)
      requires Valid()
      modifies this, blockUsed, inodeUsed, inodes, dir, storage
      ensures Valid() && State() == Fs.Init(old(State())) && r == 0
    {
      if initialized {
        return 0;
      }
      if disk.sb.magic == FS_MAGIC {
        LoadImage();
      } else {
        Format();
      }
      initialized := true;
      return 0;
    }

    /** fs_find_file: the two directory loops over the root's blocks and their entries. */
    method FindFile(f: Option<seq<Byte>>) returns (r: Option<U32>)
      requires Valid() && (f.Some? ==> |f.value| >= MAX_FILENAME)
      ensures r == Find(State(), f)
    {
      if f.None? {
        return None;
      }
      var root := GetInode(0);
      if root.None? || root.value.kind != FILE_TYPE_DIRECTORY {
        return None;
      }
      r := FindInRoot(f.value, root.value.blocks);
    }

    /** The two loops of fs_find_file over the root's blocks and their entries. */
    method FindInRoot(f: seq<Byte>, blocks: seq<U32>) returns (r: Option<U32>)
      requires DirValid() && |f| >= MAX_FILENAME && BlockPointers(blocks)
      ensures r == FindIn(dir[..], blocks, f)
    {
      ghost var p := Matches(f);
      var idx := 0;
      while idx < DIRECT_BLOCKS && blocks[idx] != 0
        invariant 0 <= idx <= DIRECT_BLOCKS
        invariant forall j :: 0 <= j < idx ==> blocks[j] != 0
        invariant Scan(dir[..], blocks, p, 0, 0) == Scan(dir[..], blocks, p, idx, 0)
      {
        var hit := FindInBlock(f, blocks, idx);
        if hit.Some? {
          return hit;
        }
        idx := idx + 1;
      }
      return None;
    }

    /** The inner loop of fs_find_file over the entries of one root block. */
    method FindInBlock(f: seq<Byte>, blocks: seq<U32>, idx: nat) returns (r: Option<U32>)
      requires DirValid() && |f| >= MAX_FILENAME && BlockPointers(blocks)
      requires idx < DIRECT_BLOCKS && forall j :: 0 <= j <= idx ==> blocks[j] != 0
      ensures var loc := Scan(dir[..], blocks, Matches(f), idx, 0);
        if loc.Some? && loc.value.0 == idx then r == Some(dir[Slot(blocks, idx, loc.value.1)].inodeNum)
        else r.None? && loc == Scan(dir[..], blocks, Matches(f), idx + 1, 0)
    {
      var b := blocks[idx];
      var i := 0;
      while i < ENTRIES_PER_BLOCK
        invariant 0 <= i <= ENTRIES_PER_BLOCK
        invariant Scan(dir[..], blocks, Matches(f), idx, 0) == Scan(dir[..], blocks, Matches(f), idx, i)
      {
        var e := dir[EntryIndex(b, i)];
        if e.inodeNum != 0 {
          var matched := NameMatches(f, e);
          if matched {
            return Some(e.inodeNum);
          }
        }
        i := i + 1;
      }
      ScanMeaning(dir[..], blocks, Matches(f), idx + 1, 0);
      return None;
    }

    /** The directory loops of fs_create_file and fs_delete_file: the first slot, in loop
        order, whose entry satisfies p. */
    method ScanDir(blocks: seq<U32>, p: DirEntry -> bool) returns (r: Option<(nat, nat)>)
      requires DirValid() && BlockPointers(blocks)
      ensures r == Scan(dir[..], blocks, p, 0, 0)
    {
      var idx := 0;
      while idx < DIRECT_BLOCKS && blocks[idx] != 0
        invariant 0 <= idx <= DIRECT_BLOCKS
        invariant forall j :: 0 <= j < idx ==> blocks[j] != 0
        invariant Scan(dir[..], blocks, p, 0, 0) == Scan(dir[..], blocks, p, idx, 0)
      {
        var i := ScanBlock(blocks, p, idx);
        if i.Some? {
          return Some((idx, i.value));
        }
        idx := idx + 1;
      }
      return None;
    }

    /** The inner loop of ScanDir over the entries of one root block. */
    method ScanBlock(blocks: seq<U32>, p: DirEntry -> bool, idx: nat) returns (r: Option<nat>)
      requires DirValid() && BlockPointers(blocks)
      requires idx < DIRECT_BLOCKS && forall j :: 0 <= j <= idx ==> blocks[j] != 0
      ensures var loc := Scan(dir[..], blocks, p, idx, 0);
        if loc.Some? && loc.value.0 == idx then r == Some(loc.value.1)
        else r.None? && loc == Scan(dir[..], blocks, p, idx + 1, 0)
    {
      var b := blocks[idx];
      var i := 0;
      while i < ENTRIES_PER_BLOCK
        invariant 0 <= i <= ENTRIES_PER_BLOCK
        invariant Scan(dir[..], blocks, p, idx, 0) == Scan(dir[..], blocks, p, idx, i)
      {
        if p(dir[EntryIndex(b, i)]) {
          return Some(i);
        }
        i := i + 1;
      }
      ScanMeaning(dir[..], blocks, p, idx + 1, 0);
      return None;
    }

    /** The entry fs_create_file writes into slot k for inode n. */
    method WriteEntry(k: nat, f: seq<Byte>, kind: U32, n: U32)
      requires Valid() && k < DIR_SLOTS && |f| >= MAX_FILENAME
      modifies dir
      ensures Valid()
      ensures dir[..] == old(dir[..])[k := NewEntry(old(dir[k]), f, kind, n)]
    {
      var name, len := CopyName(dir[k].name, f);
      dir[k] := DirEntry(n, name, ToByte(kind), len);
    }

    /** The loop of fs_create_file that zeroes a fresh directory block, which frees all its
        entries. */
    method ClearDirBlock(b: U32)
      requires Valid() && b < MAX_BLOCKS
      modifies dir
      ensures Valid()
      ensures dir[..] == ClearBlock(old(dir[..]), b)
    {
      var i := 0;
      while i < ENTRIES_PER_BLOCK
        invariant 0 <= i <= ENTRIES_PER_BLOCK
        invariant forall k :: 0 <= k < DIR_SLOTS ==>
          dir[k] == if EntryIndex(b, 0) <= k < EntryIndex(b, i) then EmptyEntry() else old(dir[k])
        invariant Valid()
      {
        dir[EntryIndex(b, i)] := EmptyEntry();
        i := i + 1;
      }
      assert dir[..] == ClearBlock(old(dir[..]), b);
    }

    /** The end of fs_create_file: the entry goes into the first free slot of the root;
        failing that, a new zeroed block is hung at the first zero root pointer; failing
        that, inode n is released again. */
    method PlaceEntry(f: seq<Byte>, kind: U32, n: U32) returns (r: I32)
      requires Valid() && |f| >= MAX_FILENAME
      modifies this`sb, blockUsed, inodeUsed, inodes, dir
      ensures Valid() && (State(), r) == Fs.PlaceEntry(old(State()), f, kind, n)
    {
      var root := inodes[0];
      var loc := ScanDir(root.blocks, IsFree);
      if loc.Some? {
        PlaceInSlot(f, kind, n, loc.value.0, loc.value.1);
        return 0;
      }
      var idx := 0;
      while idx < DIRECT_BLOCKS && root.blocks[idx] != 0
        invariant 0 <= idx <= DIRECT_BLOCKS
        invariant FirstZero(root.blocks, 0) == FirstZero(root.blocks, idx)
      {
        idx := idx + 1;
      }
      if idx == DIRECT_BLOCKS {
        FreeInode(n);
        return -1;
      }
      r := PlaceInNewBlock(f, kind, n, idx);
    }

    /** The free-slot branch of fs_create_file: the entry is written into the slot found,
        and the root grows by one entry. */
    method PlaceInSlot(f: seq<Byte>, kind: U32, n: U32, x: nat, y: nat)
      requires Valid() && |f| >= MAX_FILENAME
      requires Scan(dir[..], inodes[0].blocks, IsFree, 0, 0) == Some((x, y))
      modifies inodes, dir
      ensures Valid() && (State(), 0) == Fs.PlaceEntry(old(State()), f, kind, n)
    {
      ghost var s0 := State();
      var root := inodes[0];
      var k := EntryIndex(root.blocks[x], y);
      assert k == Slot(root.blocks, x, y);
      WriteEntry(k, f, kind, n);
      inodes[0] := root.(size := Add32(root.size, DIR_ENTRY_SIZE));
      assert MetaView() == SetInode(s0.meta, 0, root.(size := Add32(root.size, DIR_ENTRY_SIZE)));
      assert dir[..] == s0.dir[k := NewEntry(s0.dir[k], f, kind, n)];
    }

    /** The new-block branch of fs_create_file: a block is allocated for root pointer idx,
        zeroed, and takes the entry in its first slot; with no free block, inode n is
        released again. */
    method PlaceInNewBlock(f: seq<Byte>, kind: U32, n: U32, idx: nat) returns (r: I32)
      requires Valid() && |f| >= MAX_FILENAME
      requires Scan(dir[..], inodes[0].blocks, IsFree, 0, 0).None?
      requires FirstZero(inodes[0].blocks, 0) == Some(idx)
      modifies this`sb, blockUsed, inodeUsed, inodes, dir
      ensures Valid() && (State(), r) == Fs.PlaceEntry(old(State()), f, kind, n)
    {
      ghost var s0 := State();
      var root := inodes[0];
      var b := AllocateBlock();
      if b == 0 {
        FreeInode(n);
        return -1;
      }
      ghost var m1 := MetaView();
      FillNewBlock(b, f, kind, n);
      inodes[0] := root.(blocks := root.blocks[idx := b], size := Add32(root.size, DIR_ENTRY_SIZE));
      assert MetaView() == SetInode(m1, 0, root.(blocks := root.blocks[idx := b], size := Add32(root.size, DIR_ENTRY_SIZE)));
      return 0;
    }

    /** A fresh directory block: zeroed, then the new entry in its first slot. */
    method FillNewBlock(b: U32, f: seq<Byte>, kind: U32, n: U32)
      requires Valid() && b < MAX_BLOCKS && |f| >= MAX_FILENAME
      modifies dir
      ensures Valid()
      ensures dir[..] == ClearBlock(old(dir[..]), b)[b * ENTRIES_PER_BLOCK := NewEntry(EmptyEntry(), f, kind, n)]
    {
      ClearDirBlock(b);
      WriteEntry(EntryIndex(b, 0), f, kind, n);
    }

    /** fs_create_file once fs_init has run, for a non-NULL name. */
    method CreateInitialized(f: seq<Byte>, kind: U32) returns (r: I32)
      requires Valid() && |f| >= MAX_FILENAME
      modifies this`sb, blockUsed, inodeUsed, inodes, dir
      ensures Valid() && (State(), r) == CreateIn(old(State()), f, kind)
    {
      var existing := FindFile(Some(f));
      if existing.Some? {
        return -1;
      }
      var n := AllocateInode();
      if n == 0 {
        return -1;
      }
      r := SetUpFile(f, kind, n);
    }

    /** fs_create_file once inode n is taken. */
    method SetUpFile(f: seq<Byte>, kind: U32, n: U32) returns (r: I32)
      requires Valid() && |f| >= MAX_FILENAME && n < MAX_FILES
      modifies this`sb, blockUsed, inodeUsed, inodes, dir
      ensures Valid() && (State(), r) == Fs.SetUpFile(old(State()), f, kind, n)
    {
      inodes[n] := inodes[n].(kind := kind, size := 0, links := 1, permissions := FILE_PERMISSIONS);
      var root := inodes[0];
      if root.blocks[0] == 0 {
        var b := AllocateBlock();
        if b == 0 {
          FreeInode(n);
          return -1;
        }
        inodes[0] := root.(blocks := root.blocks[0 := b], size := 0);
      }
      r := PlaceEntry(f, kind, n);
    }

    /** fs_create_file. */
    method CreateFile(f: Option<seq<Byte>>, kind: U32) returns (r: I32)
      requires Valid() && (f.Some? ==> |f.value| >= MAX_FILENAME)
      modifies this, blockUsed, inodeUsed, inodes, dir, storage
      ensures Valid() && (State(), r) == Create(old(State()), f, kind)
    {
      if !initialized {
        var _ := Init();
      }
      if f.None? {
        return -1;
      }
      r := CreateInitialized(f.value, kind);
    }

    /** The block loop of fs_delete_file: free the direct blocks up to the first zero
        pointer. */
    method ReleaseBlocks(blocks: seq<U32>)
      requires Valid() && BlockPointers(blocks)
      modifies this`sb, blockUsed
      ensures Valid() && MetaView() == FreeFileBlocks(old(MetaView()), blocks, 0)
    {
      var i := 0;
      while i < DIRECT_BLOCKS && blocks[i] != 0
        invariant 0 <= i <= DIRECT_BLOCKS && Valid()
        invariant FreeFileBlocks(MetaView(), blocks, i) == FreeFileBlocks(old(MetaView()), blocks, 0)
      {
        FreeBlock(blocks[i]);
        i := i + 1;
      }
    }

    /** fs_delete_file once fs_init has run. */
    method DeleteInitialized(f: Option<seq<Byte>>) returns (r: I32)
      requires Valid() && (f.Some? ==> |f.value| >= MAX_FILENAME)
      modifies this`sb, blockUsed, inodeUsed, inodes, dir
      ensures Valid() && (State(), r) == DeleteIn(old(State()), f)
    {
      var found := FindFile(f);
      if found.None? {
        return -1;
      }
      var n := found.value;
      var ino := GetInode(n);
      if ino.None? {
        return -1;
      }
      ReleaseFile(n);
      UnlinkEntry(n);
      return 0;
    }

    /** The freeing half of fs_delete_file for an inode below total_inodes. */
    method ReleaseFile(n: U32)
      requires Valid() && n < sb.totalInodes
      modifies this`sb, blockUsed, inodeUsed, inodes
      ensures Valid() && MetaView() == Fs.ReleaseFile(old(MetaView()), n)
    {
      var ino := inodes[n];
      ReleaseBlocks(ino.blocks);
      if ino.indirect != 0 {
        FreeBlock(ino.indirect);
      }
      FreeInode(n);
    }

    /** The directory loop of fs_delete_file. */
    method UnlinkEntry(n: U32)
      requires Valid()
      modifies inodes, dir
      ensures Valid() && State() == Unlink(old(State()), n)
    {
      ghost var s0 := State();
      var root := inodes[0];
      var loc := ScanDir(root.blocks, NamesInode(n));
      if loc.Some? {
        var k := EntryIndex(root.blocks[loc.value.0], loc.value.1);
        assert k == Slot(root.blocks, loc.value.0, loc.value.1);
        dir[k] := dir[k].(inodeNum := 0);
        inodes[0] := root.(size := Sub32(root.size, DIR_ENTRY_SIZE));
        assert MetaView() == SetInode(s0.meta, 0, root.(size := Sub32(root.size, DIR_ENTRY_SIZE)));
        assert dir[..] == s0.dir[k := s0.dir[k].(inodeNum := 0)];
      }
    }

    /** fs_delete_file. */
    method DeleteFile(f: Option<seq<Byte>>) returns (r: I32)
      requires Valid() && (f.Some? ==> |f.value| >= MAX_FILENAME)
      modifies this, blockUsed, inodeUsed, inodes, dir, storage
      ensures Valid() && (State(), r) == Delete(old(State()), f)
    {
      if !initialized {
        var _ := Init();
      }
      r := DeleteInitialized(f);
    }

    /** fs_get_file_size. */
    method GetFileSize(f: Option<seq<Byte>>) returns (r: I32)
      requires Valid() && (f.Some? ==> |f.value| >= MAX_FILENAME)
      modifies this, blockUsed, inodeUsed, inodes, dir, storage
      ensures Valid() && (State(), r) == FileSize(old(State()), f)
    {
      if !initialized {
        var _ := Init();
      }
      var found := FindFile(f);
      if found.None? {
        return -1;
      }
      var ino := GetInode(found.value);
      if ino.None? {
        return -1;
      }
      return ToInt32(ino.value.size);
    }

    /** fs_list_directory: the used entries of the root, in loop order, are copied into
        the caller's array until max_entries of them have been copied. */
    method ListDirectory(entries: array<DirEntry>, max: U32) returns (count: int)
      requires Valid() && entries.Length >= max
      requires entries != dir && entries as object != blockUsed && entries as object != inodeUsed &&
               entries as object != inodes && entries as object != storage
      modifies this, blockUsed, inodeUsed, inodes, dir, storage, entries
      ensures Valid()
      ensures var r := List(old(State()), max);
        State() == r.0 && count == r.1 &&
        (count >= 0 ==> count == |r.2| && forall j :: 0 <= j < count ==> entries[j] == r.2[j])
      ensures forall j :: (if count < 0 then 0 else count) <= j < entries.Length ==> entries[j] == old(entries[j])
    {
      if !initialized {
        var _ := Init();
      }
      count := ListInitialized(entries, max);
    }

    /** The listing once the file system is initialized; it changes only the caller's array. */
    method ListInitialized(entries: array<DirEntry>, max: U32) returns (count: int)
      requires Valid() && entries.Length >= max
      requires entries != dir && entries as object != blockUsed && entries as object != inodeUsed &&
               entries as object != inodes && entries as object != storage
      modifies entries
      ensures Valid() && State() == old(State())
      ensures var r := ListIn(State(), max);
        count == r.0 &&
        (count >= 0 ==> count == |r.1| && forall j :: 0 <= j < count ==> entries[j] == r.1[j])
      ensures forall j :: (if count < 0 then 0 else count) <= j < entries.Length ==> entries[j] == old(entries[j])
    {
      var root := GetInode(0);
      if root.None? || root.value.kind != FILE_TYPE_DIRECTORY {
        return -1;
      }
      count := ListRoot(entries, max, root.value.blocks);
    }

    /** The two loops of fs_list_directory. */
    method ListRoot(entries: array<DirEntry>, max: U32, blocks: seq<U32>) returns (count: nat)
      requires dir.Length == DIR_SLOTS && BlockPointers(blocks) && entries.Length >= max && entries != dir
      modifies entries
      ensures var used := UsedEntries(old(dir[..]), blocks);
        count == (if max < |used| then max else |used|) &&
        forall j :: 0 <= j < count ==> entries[j] == used[j]
      ensures forall j :: count <= j < entries.Length ==> entries[j] == old(entries[j])
    {
      ghost var d := dir[..];
      // (px, pi) is the slot the loops have reached.
      ghost var px, pi := 0, 0;
      var idx := 0;
      count := 0;
      while idx < DIRECT_BLOCKS && blocks[idx] != 0 && count < max
        invariant 0 <= idx <= DIRECT_BLOCKS && count <= max
        invariant forall x :: 0 <= x < idx ==> blocks[x] != 0
        invariant Passed(blocks, px, pi)
        invariant count < max ==> px == idx && pi == 0
        invariant count == |UsedBefore(d, blocks, px, pi)|
        invariant forall j :: 0 <= j < count ==> entries[j] == UsedBefore(d, blocks, px, pi)[j]
        invariant forall j :: count <= j < entries.Length ==> entries[j] == old(entries[j])
      {
        var i;
        count, i := ListBlock(entries, max, blocks, idx, count, d);
        if count < max {
          px, pi := idx + 1, 0;
        } else {
          px, pi := idx, i;
        }
        idx := idx + 1;
      }
      ListingDone(d, blocks, idx, px, pi, count, max);
    }

    /** The inner loop of fs_list_directory over the entries of root block idx: it goes on
        from count0 copied entries until slot (idx, i), where the block or the room ends. */
    method ListBlock(entries: array<DirEntry>, max: U32, blocks: seq<U32>, idx: nat, count0: nat,
                     ghost d: seq<DirEntry>)
      returns (count: nat, i: nat)
      requires |d| == DIR_SLOTS == dir.Length && forall k :: 0 <= k < dir.Length ==> dir[k] == d[k]
      requires BlockPointers(blocks) && entries.Length >= max && entries != dir
      requires idx < DIRECT_BLOCKS && blocks[idx] != 0 && count0 < max
      requires count0 == |UsedBefore(d, blocks, idx, 0)|
      requires forall j :: 0 <= j < count0 ==> entries[j] == UsedBefore(d, blocks, idx, 0)[j]
      modifies entries
      ensures i <= ENTRIES_PER_BLOCK && count0 <= count <= max && (count < max ==> i == ENTRIES_PER_BLOCK)
      ensures count == |UsedBefore(d, blocks, idx, i)|
      ensures forall j :: 0 <= j < count ==> entries[j] == UsedBefore(d, blocks, idx, i)[j]
      ensures forall j :: count <= j < entries.Length ==> entries[j] == old(entries[j])
    {
      var b := blocks[idx];
      i := 0;
      count := count0;
      while i < ENTRIES_PER_BLOCK && count < max
        invariant i <= ENTRIES_PER_BLOCK && count0 <= count <= max
        invariant count == |UsedBefore(d, blocks, idx, i)|
        invariant forall j :: 0 <= j < count ==> entries[j] == UsedBefore(d, blocks, idx, i)[j]
        invariant forall j :: count <= j < entries.Length ==> entries[j] == old(entries[j])
      {
        var e := dir[EntryIndex(b, i)];
        if e.inodeNum != 0 {
          entries[count] := e;
          count := count + 1;
        }
        i := i + 1;
      }
    }
  }

  /** The name comparison of fs_find_file for a used entry: the names agree up to the
      first NUL in either (or 32 bytes), and the name ends where the entry's length says. */
  method NameMatches(f: seq<Byte>, e: DirEntry) returns (r: bool)
    requires |f| >= MAX_FILENAME && WellFormedEntry(e) && e.inodeNum != 0
    ensures r <==> Hit(e, f)
  {
    var matched := true;
    var j := 0;
    while j < MAX_FILENAME && f[j] != NUL && e.name[j] != NUL
      invariant 0 <= j <= MAX_FILENAME
      invariant AgreeUntilNul(f, e.name, 0) == AgreeUntilNul(f, e.name, j)
    {
      if f[j] != e.name[j] {
        matched := false;
        break;
      }
      j := j + 1;
    }
    return matched && f[e.nameLen] == NUL;
  }

  /** The name copy of fs_create_file: at most 31 characters up to the first NUL, then a
      NUL; the slot's later bytes are left as they were. */
  method CopyName(slotName: seq<Byte>, f: seq<Byte>) returns (name: seq<Byte>, len: nat)
    requires |slotName| == MAX_FILENAME && |f| >= MAX_FILENAME
    ensures name == StoredName(slotName, f) && len == NameLength(f)
  {
    name := slotName;
    var j := 0;
    while f[j] != NUL && j < MAX_FILENAME - 1
      invariant 0 <= j <= MAX_FILENAME - 1
      invariant forall k :: 0 <= k < j ==> f[k] != NUL
      invariant NameLengthFrom(f, j) == NameLength(f)
      invariant name == f[..j] + slotName[j..]
      decreases MAX_FILENAME - j
    {
      name := name[j := f[j]];
      j := j + 1;
    }
    ghost var stored := f[..j] + [NUL] + slotName[j + 1..];
    assert forall k :: 0 <= k < MAX_FILENAME && k != j ==> name[k] == stored[k];
    name := name[j := NUL];
    len := j;
    assert name == stored;
  }
}
