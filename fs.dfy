/** fs/fs.c: a flat file system kept in memory. Its state is a superblock, a block bitmap,
    an inode bitmap, a table of 64 inodes and a 512 KiB byte array that serves as the
    disk. Inode 0 is the root directory; its direct blocks hold directory entries, twelve
    to a block. Every operation is first stated as a function over a value of the whole
    state (FsState); the class FileSystem, whose methods update the arrays in place, is
    proved to follow those functions. */
module Fs {
  import opened CTypes

  const MAX_FILENAME: int := 32
  const MAX_FILES: int := 64
  const BLOCK_SIZE: int := 512
  const MAX_BLOCKS: int := 1024
  const INODE_SIZE: int := 64
  const FS_MAGIC: int := 0x1234_5678
  const FILE_TYPE_REGULAR: int := 1
  const FILE_TYPE_DIRECTORY: int := 2
  /** Direct block pointers in an inode. */
  const DIRECT_BLOCKS: int := 12
  /** sizeof(dir_entry_t): 4 + 32 + 1 + 1 bytes, padded to a multiple of 4. */
  const DIR_ENTRY_SIZE: int := 40
  /** BLOCK_SIZE / sizeof(dir_entry_t). */
  const ENTRIES_PER_BLOCK: int := 12
  /** Blocks 0 to 9 hold the metadata and are never handed out. */
  const RESERVED_BLOCKS: int := 10
  const STORAGE_SIZE: int := MAX_BLOCKS * BLOCK_SIZE
  /** Directory entry slots if every block were a directory block. */
  const DIR_SLOTS: int := MAX_BLOCKS * ENTRIES_PER_BLOCK
  const ROOT_PERMISSIONS: int := 0x1ED   // 0755
  const FILE_PERMISSIONS: int := 0x1A4   // 0644

  datatype Superblock = Superblock(
    magic: U32, totalBlocks: U32, freeBlocks: U32, totalInodes: U32,
    freeInodes: U32, firstDataBlock: U32, blockSize: U32, inodeSize: U32)

  /** inode_t. `blocks` holds the twelve direct block pointers; 0 means none. */
  datatype Inode = Inode(
    size: U32, kind: U32, blocks: seq<U32>, indirect: U32,
    created: U32, modified: U32, permissions: U32, links: U32)

  /** dir_entry_t. An entry whose inode number is 0 is free. */
  datatype DirEntry = DirEntry(inodeNum: U32, name: seq<Byte>, fileType: Byte, nameLen: Byte)

  /** The superblock, the two bitmaps (one bool per bit) and the inode table. */
  datatype Meta = Meta(sb: Superblock, blockBits: seq<bool>, inodeBits: seq<bool>, inodes: seq<Inode>)

  /** The whole file system: the metadata in memory, the directory entries stored in the
      blocks, the bytes of the blocks, the metadata image kept in the first blocks of the
      disk, and whether fs_init has run. */
  datatype FsState = FsState(meta: Meta, dir: seq<DirEntry>, storage: seq<Byte>, disk: Meta, initialized: bool)

  function NoBlocks(): (r: seq<U32>)
    ensures |r| == DIRECT_BLOCKS && forall j :: 0 <= j < DIRECT_BLOCKS ==> r[j] == 0
  {
    seq(DIRECT_BLOCKS, _ => 0)
  }

  function EmptyEntry(): (e: DirEntry)
    ensures |e.name| == MAX_FILENAME && e.nameLen < MAX_FILENAME && e.inodeNum == 0
  {
    DirEntry(0, Zeros(MAX_FILENAME), 0, 0)
  }

  /** Twelve block pointers, each naming a block of the disk. */
  predicate BlockPointers(blocks: seq<U32>)
  {
    |blocks| == DIRECT_BLOCKS && forall j :: 0 <= j < DIRECT_BLOCKS ==> blocks[j] < MAX_BLOCKS
  }

  predicate WellFormedMeta(m: Meta)
  {
    |m.blockBits| == MAX_BLOCKS && |m.inodeBits| == MAX_FILES && |m.inodes| == MAX_FILES &&
    m.sb.totalBlocks <= MAX_BLOCKS && m.sb.totalInodes <= MAX_FILES &&
    forall i :: 0 <= i < MAX_FILES ==> BlockPointers(m.inodes[i].blocks)
  }

  predicate WellFormedEntry(e: DirEntry)
  {
    |e.name| == MAX_FILENAME && e.nameLen < MAX_FILENAME
  }

  predicate WellFormedDir(dir: seq<DirEntry>)
  {
    |dir| == DIR_SLOTS && forall k :: 0 <= k < DIR_SLOTS ==> WellFormedEntry(dir[k])
  }

  /** The shape every reachable state has: the arrays have their sizes, the superblock's
      totals fit them, and every pointer names a block of the disk. */
  predicate WellFormed(s: FsState)
  {
    WellFormedMeta(s.meta) && WellFormedMeta(s.disk) && WellFormedDir(s.dir) &&
    |s.storage| == STORAGE_SIZE
  }

  // ---------------------------------------------------------------------------
  // Bitmaps
  // ---------------------------------------------------------------------------

  /** The lowest clear bit in [lo, hi), as the allocators' scan loops find it. */
  function FirstClear(bits: seq<bool>, lo: nat, hi: nat): (r: Option<nat>)
    requires hi <= |bits|
    ensures r.Some? ==> lo <= r.value < hi && !bits[r.value] &&
                        forall j :: lo <= j < r.value ==> bits[j]
    ensures r.None? ==> forall j :: lo <= j < hi ==> bits[j]
    decreases hi - lo
  {
    if lo >= hi then None
    else if !bits[lo] then Some(lo)
    else FirstClear(bits, lo + 1, hi)
  }

  /** The number of clear bits in [lo, hi). */
  function CountClear(bits: seq<bool>, lo: nat, hi: nat): nat
    requires hi <= |bits|
    decreases hi - lo
  {
    if lo >= hi then 0 else (if bits[lo] then 0 else 1) + CountClear(bits, lo + 1, hi)
  }

  /** Setting a clear bit inside the range removes one clear bit; outside it, none. */
  lemma {:induction false} CountClearSet(bits: seq<bool>, lo: nat, hi: nat, k: nat)
    requires hi <= |bits| && k < |bits|
    ensures lo <= k < hi && !bits[k] ==> CountClear(bits[k := true], lo, hi) == CountClear(bits, lo, hi) - 1
    ensures !(lo <= k < hi) || bits[k] ==> CountClear(bits[k := true], lo, hi) == CountClear(bits, lo, hi)
    decreases hi - lo
  {
    if lo < hi {
      CountClearSet(bits, lo + 1, hi, k);
    }
  }

  /** Clearing a set bit inside the range adds one clear bit; outside it, none. */
  lemma {:induction false} CountClearReset(bits: seq<bool>, lo: nat, hi: nat, k: nat)
    requires hi <= |bits| && k < |bits|
    ensures lo <= k < hi && bits[k] ==> CountClear(bits[k := false], lo, hi) == CountClear(bits, lo, hi) + 1
    ensures !(lo <= k < hi) || !bits[k] ==> CountClear(bits[k := false], lo, hi) == CountClear(bits, lo, hi)
    decreases hi - lo
  {
    if lo < hi {
      CountClearReset(bits, lo + 1, hi, k);
    }
  }

  /** A range has at most as many clear bits as it has bits, and at least one when
      FirstClear finds one. */
  lemma {:induction false} CountClearBounds(bits: seq<bool>, lo: nat, hi: nat)
    requires hi <= |bits|
    ensures lo <= hi ==> CountClear(bits, lo, hi) <= hi - lo
    ensures FirstClear(bits, lo, hi).Some? ==> CountClear(bits, lo, hi) >= 1
    decreases hi - lo
  {
    if lo < hi {
      CountClearBounds(bits, lo + 1, hi);
    }
  }

  /** A range whose bits are all clear counts every bit. */
  lemma {:induction false} CountClearAllClear(bits: seq<bool>, lo: nat, hi: nat)
    requires lo <= hi <= |bits|
    requires forall j :: lo <= j < hi ==> !bits[j]
    ensures CountClear(bits, lo, hi) == hi - lo
    decreases hi - lo
  {
    if lo < hi {
      CountClearAllClear(bits, lo + 1, hi);
    }
  }

  /** The superblock's free counters equal the number of clear bits among the data blocks
      and among the inodes after the root. */
  predicate CountersAgree(m: Meta)
    requires WellFormedMeta(m)
  {
    m.sb.freeBlocks == CountClear(m.blockBits, m.sb.firstDataBlock, m.sb.totalBlocks) &&
    m.sb.freeInodes == CountClear(m.inodeBits, 1, m.sb.totalInodes)
  }

  // ---------------------------------------------------------------------------
  // Allocators
  // ---------------------------------------------------------------------------

  /** fs_allocate_block: the lowest clear block in [first_data_block, total_blocks) is
      marked used and the free count drops by one; with none clear, 0 and no change. */
  function AllocBlock(m: Meta): (r: (Meta, U32))
    requires WellFormedMeta(m)
    ensures WellFormedMeta(r.0) && r.0.inodes == m.inodes && r.0.inodeBits == m.inodeBits
    ensures (forall b :: m.sb.firstDataBlock <= b < m.sb.totalBlocks ==> m.blockBits[b]) ==> r == (m, 0)
    ensures !(forall b :: m.sb.firstDataBlock <= b < m.sb.totalBlocks ==> m.blockBits[b]) ==>
      m.sb.firstDataBlock <= r.1 < m.sb.totalBlocks && !m.blockBits[r.1] &&
      (forall b :: m.sb.firstDataBlock <= b < r.1 ==> m.blockBits[b]) &&
      r.0.blockBits == m.blockBits[r.1 := true] &&
      r.0.sb == m.sb.(freeBlocks := Sub32(m.sb.freeBlocks, 1))
  {
    match FirstClear(m.blockBits, m.sb.firstDataBlock, m.sb.totalBlocks)
    case None => (m, 0)
    case Some(b) =>
      (m.(blockBits := m.blockBits[b := true], sb := m.sb.(freeBlocks := Sub32(m.sb.freeBlocks, 1))), b)
  }

  /** fs_free_block: out of range changes nothing; otherwise the bit is cleared and the
      free count goes up, whether or not the block was in use. */
  function FreeBlock(m: Meta, b: U32): (r: Meta)
    requires WellFormedMeta(m)
    ensures WellFormedMeta(r) && r.inodes == m.inodes && r.inodeBits == m.inodeBits
    ensures b >= m.sb.totalBlocks ==> r == m
    ensures b < m.sb.totalBlocks ==>
      r.blockBits == m.blockBits[b := false] && r.sb == m.sb.(freeBlocks := Add32(m.sb.freeBlocks, 1))
  {
    if b >= m.sb.totalBlocks then m
    else m.(blockBits := m.blockBits[b := false], sb := m.sb.(freeBlocks := Add32(m.sb.freeBlocks, 1)))
  }

  /** fs_allocate_inode: the lowest clear inode in [1, total_inodes); never inode 0, which
      is the root; 0 when none is free. */
  function AllocInode(m: Meta): (r: (Meta, U32))
    requires WellFormedMeta(m)
    ensures WellFormedMeta(r.0) && r.0.inodes == m.inodes && r.0.blockBits == m.blockBits
    ensures (forall i :: 1 <= i < m.sb.totalInodes ==> m.inodeBits[i]) ==> r == (m, 0)
    ensures !(forall i :: 1 <= i < m.sb.totalInodes ==> m.inodeBits[i]) ==>
      1 <= r.1 < m.sb.totalInodes && !m.inodeBits[r.1] &&
      (forall i :: 1 <= i < r.1 ==> m.inodeBits[i]) &&
      r.0.inodeBits == m.inodeBits[r.1 := true] &&
      r.0.sb == m.sb.(freeInodes := Sub32(m.sb.freeInodes, 1))
  {
    match FirstClear(m.inodeBits, 1, m.sb.totalInodes)
    case None => (m, 0)
    case Some(i) =>
      (m.(inodeBits := m.inodeBits[i := true], sb := m.sb.(freeInodes := Sub32(m.sb.freeInodes, 1))), i)
  }

  /** The fields fs_free_inode and fs_format reset; permissions and times are kept. */
  function ClearedInode(ino: Inode): Inode
  {
    ino.(size := 0, kind := 0, links := 0, blocks := NoBlocks(), indirect := 0)
  }

  /** fs_free_inode: inode 0 and out-of-range numbers change nothing; otherwise the bit
      is cleared, the free count goes up and the inode's size, type, links and block
      pointers are zeroed. */
  function FreeInode(m: Meta, n: U32): (r: Meta)
    requires WellFormedMeta(m)
    ensures WellFormedMeta(r) && r.blockBits == m.blockBits
    ensures n == 0 || n >= m.sb.totalInodes ==> r == m
    ensures 0 < n < m.sb.totalInodes ==>
      r.inodeBits == m.inodeBits[n := false] &&
      r.sb == m.sb.(freeInodes := Add32(m.sb.freeInodes, 1)) &&
      r.inodes == m.inodes[n := ClearedInode(m.inodes[n])]
  {
    if n >= m.sb.totalInodes || n == 0 then m
    else
      m.(inodeBits := m.inodeBits[n := false], sb := m.sb.(freeInodes := Add32(m.sb.freeInodes, 1)),
         inodes := m.inodes[n := ClearedInode(m.inodes[n])])
  }

  /** Allocation keeps the free counters equal to the bitmaps. */
  lemma AllocKeepsCounters(m: Meta)
    requires WellFormedMeta(m) && CountersAgree(m)
    ensures CountersAgree(AllocBlock(m).0)
    ensures CountersAgree(AllocInode(m).0)
  {
    var fb := FirstClear(m.blockBits, m.sb.firstDataBlock, m.sb.totalBlocks);
    if fb.Some? {
      CountClearBounds(m.blockBits, m.sb.firstDataBlock, m.sb.totalBlocks);
      CountClearSet(m.blockBits, m.sb.firstDataBlock, m.sb.totalBlocks, fb.value);
    }
    var fi := FirstClear(m.inodeBits, 1, m.sb.totalInodes);
    if fi.Some? {
      CountClearBounds(m.inodeBits, 1, m.sb.totalInodes);
      CountClearSet(m.inodeBits, 1, m.sb.totalInodes, fi.value);
    }
  }

  /** Freeing a data block that is in use, or an inode that is in use, keeps the free
      counters equal to the bitmaps. */
  lemma FreeKeepsCounters(m: Meta, b: U32, n: U32)
    requires WellFormedMeta(m) && CountersAgree(m)
    ensures m.sb.firstDataBlock <= b < m.sb.totalBlocks && m.blockBits[b] ==> CountersAgree(FreeBlock(m, b))
    ensures 0 < n < m.sb.totalInodes && m.inodeBits[n] ==> CountersAgree(FreeInode(m, n))
  {
    if m.sb.firstDataBlock <= b < m.sb.totalBlocks && m.blockBits[b] {
      CountClearReset(m.blockBits, m.sb.firstDataBlock, m.sb.totalBlocks, b);
      CountClearBounds(m.blockBits[b := false], m.sb.firstDataBlock, m.sb.totalBlocks);
    }
    if 0 < n < m.sb.totalInodes && m.inodeBits[n] {
      CountClearReset(m.inodeBits, 1, m.sb.totalInodes, n);
      CountClearBounds(m.inodeBits[n := false], 1, m.sb.totalInodes);
    }
  }

  /** fs_free_block has no double-free check: freeing a block twice counts it twice, and
      the free count no longer matches the bitmap. */
  lemma DoubleFreeBreaksCounters(m: Meta, b: U32)
    requires WellFormedMeta(m) && CountersAgree(m)
    requires m.sb.firstDataBlock <= b < m.sb.totalBlocks && m.blockBits[b]
    requires m.sb.freeBlocks + 2 < U32_LIMIT
    ensures CountersAgree(FreeBlock(m, b))
    ensures !CountersAgree(FreeBlock(FreeBlock(m, b), b))
  {
    FreeKeepsCounters(m, b, 0);
    var m1 := FreeBlock(m, b);
    CountClearReset(m1.blockBits, m.sb.firstDataBlock, m.sb.totalBlocks, b);
    assert m1.blockBits[b := false] == m1.blockBits;
  }

  // ---------------------------------------------------------------------------
  // Format and init
  // ---------------------------------------------------------------------------

  /** The superblock fs_format writes: 1024 blocks of which 10 are reserved, 64 inodes of
      which the root is taken. */
  function FormattedSuperblock(): Superblock
  {
    Superblock(FS_MAGIC, MAX_BLOCKS, MAX_BLOCKS - RESERVED_BLOCKS, MAX_FILES, MAX_FILES - 1,
               RESERVED_BLOCKS, BLOCK_SIZE, INODE_SIZE)
  }

  /** The root directory as fs_format leaves inode 0. */
  function RootInode(ino: Inode): Inode
  {
    ClearedInode(ino).(kind := FILE_TYPE_DIRECTORY, links := 1, permissions := ROOT_PERMISSIONS)
  }

  /** The metadata fs_format builds from the old inode table (whose times and, except for
      the root, permissions survive). */
  function FormatMeta(m: Meta): (r: Meta)
    requires WellFormedMeta(m)
    ensures WellFormedMeta(r) && CountersAgree(r)
    ensures r.sb.magic == FS_MAGIC && r.sb.freeBlocks == 1014 && r.sb.freeInodes == 63
    ensures forall b :: 0 <= b < MAX_BLOCKS ==> (r.blockBits[b] <==> b < RESERVED_BLOCKS)
    ensures forall i :: 0 <= i < MAX_FILES ==> (r.inodeBits[i] <==> i == 0)
    ensures r.inodes[0].kind == FILE_TYPE_DIRECTORY && r.inodes[0].size == 0 &&
            r.inodes[0].links == 1 && r.inodes[0].permissions == ROOT_PERMISSIONS
    ensures forall i :: 1 <= i < MAX_FILES ==>
      r.inodes[i].size == 0 && r.inodes[i].kind == 0 && r.inodes[i].links == 0 &&
      r.inodes[i].blocks == NoBlocks() && r.inodes[i].indirect == 0
  {
    var bits := seq(MAX_BLOCKS, b => b < RESERVED_BLOCKS);
    var ibits := seq(MAX_FILES, i => i == 0);
    CountClearAllClear(bits, RESERVED_BLOCKS, MAX_BLOCKS);
    CountClearAllClear(ibits, 1, MAX_FILES);
    Meta(FormattedSuperblock(), bits, ibits,
         seq(MAX_FILES, i requires 0 <= i < MAX_FILES =>
               if i == 0 then RootInode(m.inodes[0]) else ClearedInode(m.inodes[i])))
  }

  function EmptyDir(): (r: seq<DirEntry>)
    ensures WellFormedDir(r) && forall k :: 0 <= k < DIR_SLOTS ==> r[k] == EmptyEntry()
  {
    seq(DIR_SLOTS, _ => EmptyEntry())
  }

  /** fs_format: the disk is zeroed (so every directory entry is free), the metadata is
      rebuilt and written to the disk image. It does not mark the file system initialised. */
  function Format(s: FsState): (r: FsState)
    requires WellFormed(s)
    ensures WellFormed(r)
  {
    var m := FormatMeta(s.meta);
    FsState(m, EmptyDir(), Zeros(STORAGE_SIZE), m, s.initialized)
  }

  /** An inode of all zero bytes. */
  function ZeroInode(): Inode
  {
    Inode(0, 0, NoBlocks(), 0, 0, 0, 0, 0)
  }

  /** Metadata of all zero bytes: what the static variables hold at boot, and what an
      unwritten disk holds where the image would be. */
  function ZeroMeta(): (r: Meta)
    ensures WellFormedMeta(r)
  {
    Meta(Superblock(0, 0, 0, 0, 0, 0, 0, 0), seq(MAX_BLOCKS, _ => false), seq(MAX_FILES, _ => false),
         seq(MAX_FILES, _ => ZeroInode()))
  }

  /** The state at boot: every static variable and every byte of the disk is zero. */
  function Boot(): (r: FsState)
    ensures WellFormed(r) && !r.initialized
  {
    FsState(ZeroMeta(), EmptyDir(), Zeros(STORAGE_SIZE), ZeroMeta(), false)
  }

  /** fs_init: nothing once initialised; otherwise load the metadata image when its magic
      number is FS_MAGIC, format when it is not, and mark the file system initialised. */
  function Init(s: FsState): (r: FsState)
    requires WellFormed(s)
    ensures WellFormed(r) && r.initialized
  {
    if s.initialized then s
    else if s.disk.sb.magic == FS_MAGIC then s.(meta := s.disk, initialized := true)
    else Format(s).(initialized := true)
  }

  /** fs_init is idempotent, loads exactly the image when the magic matches, and after a
      format reload gives back what format built. */
  lemma InitProperties(s: FsState)
    requires WellFormed(s)
    ensures Init(Init(s)) == Init(s)
    ensures !s.initialized && s.disk.sb.magic == FS_MAGIC ==>
      Init(s) == s.(meta := s.disk, initialized := true)
    ensures !s.initialized && s.disk.sb.magic != FS_MAGIC ==>
      Init(s).meta == FormatMeta(s.meta) && CountersAgree(Init(s).meta)
    ensures Init(Format(s).(initialized := false)).meta == Format(s).meta
  {
  }

  /** At boot the disk holds no file system, so the first fs_init formats: it leaves an
      empty root directory, ten reserved blocks and free counters that match the bitmaps. */
  lemma BootFormats()
    ensures Init(Boot()) == Format(Boot()).(initialized := true)
    ensures var m := Init(Boot()).meta;
      RootIsDirectory(m) && CountersAgree(m) && m.inodes[0].blocks == NoBlocks() &&
      m.sb.freeBlocks == MAX_BLOCKS - RESERVED_BLOCKS && m.sb.freeInodes == MAX_FILES - 1
  {
    assert Boot().disk.sb.magic == 0;
  }

  // ---------------------------------------------------------------------------
  // Names
  // ---------------------------------------------------------------------------

  /** The comparison loop of fs_find_file: the two names agree up to the first NUL in
      either of them, or up to MAX_FILENAME. */
  predicate AgreeUntilNul(f: seq<Byte>, name: seq<Byte>, j: nat)
    requires |f| >= MAX_FILENAME && |name| == MAX_FILENAME && j <= MAX_FILENAME
    decreases MAX_FILENAME - j
  {
    j == MAX_FILENAME || f[j] == NUL || name[j] == NUL ||
    (f[j] == name[j] && AgreeUntilNul(f, name, j + 1))
  }

  /** A used entry whose name matches f: the names agree up to a NUL and f ends where the
      stored name length says. */
  predicate Hit(e: DirEntry, f: seq<Byte>)
    requires WellFormedEntry(e) && |f| >= MAX_FILENAME
  {
    e.inodeNum != 0 && AgreeUntilNul(f, e.name, 0) && f[e.nameLen] == NUL
  }

  /** The number of characters fs_create_file copies: up to the first NUL, at most 31. */
  function NameLength(f: seq<Byte>): (n: nat)
    requires |f| >= MAX_FILENAME
    ensures n < MAX_FILENAME
    ensures forall j :: 0 <= j < n ==> f[j] != NUL
    ensures n < MAX_FILENAME - 1 ==> f[n] == NUL
  {
    NameLengthFrom(f, 0)
  }

  function NameLengthFrom(f: seq<Byte>, j: nat): (n: nat)
    requires |f| >= MAX_FILENAME && j <= MAX_FILENAME - 1
    requires forall k :: 0 <= k < j ==> f[k] != NUL
    ensures j <= n < MAX_FILENAME
    ensures forall k :: 0 <= k < n ==> f[k] != NUL
    ensures n < MAX_FILENAME - 1 ==> f[n] == NUL
    decreases MAX_FILENAME - j
  {
    if f[j] == NUL || j == MAX_FILENAME - 1 then j else NameLengthFrom(f, j + 1)
  }

  /** The name bytes fs_create_file leaves in an entry: the copied characters and a NUL;
      the bytes after that keep what the slot held before. */
  function StoredName(old_name: seq<Byte>, f: seq<Byte>): (r: seq<Byte>)
    requires |old_name| == MAX_FILENAME && |f| >= MAX_FILENAME
    ensures |r| == MAX_FILENAME
  {
    var n := NameLength(f);
    f[..n] + [NUL] + old_name[n + 1..]
  }

  /** The entry fs_create_file writes for inode n into a slot that held `slot`. */
  function NewEntry(slot: DirEntry, f: seq<Byte>, kind: U32, n: U32): (r: DirEntry)
    requires WellFormedEntry(slot) && |f| >= MAX_FILENAME
    ensures WellFormedEntry(r)
  {
    DirEntry(n, StoredName(slot.name, f), ToByte(kind), NameLength(f))
  }

  lemma {:induction false} AgreeWithStored(f: seq<Byte>, name: seq<Byte>, j: nat)
    requires |f| >= MAX_FILENAME && |name| == MAX_FILENAME && j <= MAX_FILENAME
    requires j <= NameLength(f) < MAX_FILENAME && name[NameLength(f)] == NUL
    requires forall k :: j <= k < NameLength(f) ==> name[k] == f[k]
    ensures AgreeUntilNul(f, name, j)
    decreases MAX_FILENAME - j
  {
    if j < NameLength(f) {
      AgreeWithStored(f, name, j + 1);
    }
  }

  /** A name with a NUL among its first 32 bytes matches the entry created for it. */
  lemma StoredNameMatches(slot: DirEntry, f: seq<Byte>, kind: U32, n: U32)
    requires WellFormedEntry(slot) && |f| >= MAX_FILENAME && n != 0
    requires NUL in f[..MAX_FILENAME]
    ensures Hit(NewEntry(slot, f, kind, n), f)
  {
    var e := NewEntry(slot, f, kind, n);
    var len := NameLength(f);
    assert e.name[len] == NUL;
    AgreeWithStored(f, e.name, 0);
  }

  /** A name of 32 or more characters is stored cut to 31, and the stored entry never
      matches it again: fs_find_file then reads the name's 32nd byte, which is not NUL. */
  lemma LongNameNeverMatches(slot: DirEntry, f: seq<Byte>, kind: U32, n: U32)
    requires WellFormedEntry(slot) && |f| >= MAX_FILENAME
    requires NUL !in f[..MAX_FILENAME]
    ensures !Hit(NewEntry(slot, f, kind, n), f)
  {
    assert f[..MAX_FILENAME][MAX_FILENAME - 1] == f[MAX_FILENAME - 1];
  }

  // ---------------------------------------------------------------------------
  // The root directory
  // ---------------------------------------------------------------------------

  /** The directory entry slot of entry i of the block the root's pointer idx names. */
  function Slot(blocks: seq<U32>, idx: nat, i: nat): (k: nat)
    requires BlockPointers(blocks) && idx < DIRECT_BLOCKS && i < ENTRIES_PER_BLOCK
    ensures k < DIR_SLOTS
  {
    EntryIndex(blocks[idx], i)
  }

  /** Entry i of block b, in the directory entry view of the disk. */
  function EntryIndex(b: nat, i: nat): nat
  {
    b * ENTRIES_PER_BLOCK + i
  }

  /** The directory loops visit block pointer x only if it and every pointer before it are
      non-zero: they stop at the first zero pointer. */
  predicate Reachable(blocks: seq<U32>, x: nat)
    requires |blocks| == DIRECT_BLOCKS
  {
    x < DIRECT_BLOCKS && forall j :: 0 <= j <= x ==> blocks[j] != 0
  }

  /** (x, y) comes at or after (idx, i) in the order the loops visit slots. */
  predicate NotBefore(x: nat, y: nat, idx: nat, i: nat)
  {
    x > idx || (x == idx && y >= i)
  }

  /** The first slot from (idx, i) on, in the directory loops' order, whose entry satisfies
      p; the loops over root blocks and their entries in fs_find_file, fs_create_file and
      fs_delete_file all have this shape. */
  function Scan(dir: seq<DirEntry>, blocks: seq<U32>, p: DirEntry -> bool, idx: nat, i: nat): (r: Option<(nat, nat)>)
    requires WellFormedDir(dir) && BlockPointers(blocks)
    requires idx <= DIRECT_BLOCKS && i <= ENTRIES_PER_BLOCK
    ensures r.Some? ==> r.value.0 < DIRECT_BLOCKS && r.value.1 < ENTRIES_PER_BLOCK
    decreases DIRECT_BLOCKS - idx, ENTRIES_PER_BLOCK - i
  {
    if idx == DIRECT_BLOCKS || blocks[idx] == 0 then None
    else if i == ENTRIES_PER_BLOCK then Scan(dir, blocks, p, idx + 1, 0)
    else if p(dir[Slot(blocks, idx, i)]) then Some((idx, i))
    else Scan(dir, blocks, p, idx, i + 1)
  }

  /** What Scan finds: a reachable slot at or after (idx, i) whose entry satisfies p, with
      no such slot between (idx, i) and it; and None only when no reachable slot from
      (idx, i) on satisfies p. */
  lemma {:induction false} ScanMeaning(dir: seq<DirEntry>, blocks: seq<U32>, p: DirEntry -> bool, idx: nat, i: nat)
    requires WellFormedDir(dir) && BlockPointers(blocks)
    requires idx <= DIRECT_BLOCKS && i <= ENTRIES_PER_BLOCK
    requires forall j :: 0 <= j < idx ==> blocks[j] != 0
    ensures var r := Scan(dir, blocks, p, idx, i);
      r.Some? ==>
        NotBefore(r.value.0, r.value.1, idx, i) && Reachable(blocks, r.value.0) &&
        p(dir[Slot(blocks, r.value.0, r.value.1)]) &&
        forall x: nat, y: nat ::
          (NotBefore(x, y, idx, i) && !NotBefore(x, y, r.value.0, r.value.1) &&
           y < ENTRIES_PER_BLOCK && Reachable(blocks, x)) ==> !p(dir[Slot(blocks, x, y)])
    ensures Scan(dir, blocks, p, idx, i).None? ==>
      forall x: nat, y: nat :: NotBefore(x, y, idx, i) && y < ENTRIES_PER_BLOCK && Reachable(blocks, x) ==>
        !p(dir[Slot(blocks, x, y)])
    decreases DIRECT_BLOCKS - idx, ENTRIES_PER_BLOCK - i
  {
    if idx == DIRECT_BLOCKS || blocks[idx] == 0 {
    } else if i == ENTRIES_PER_BLOCK {
      ScanMeaning(dir, blocks, p, idx + 1, 0);
    } else if !p(dir[Slot(blocks, idx, i)]) {
      ScanMeaning(dir, blocks, p, idx, i + 1);
    }
  }

  /** The root inode, or None when there is none (fs_get_inode(0) with no inodes). */
  function Root(m: Meta): Option<Inode>
    requires WellFormedMeta(m)
  {
    if m.sb.totalInodes == 0 then None else Some(m.inodes[0])
  }

  predicate RootIsDirectory(m: Meta)
    requires WellFormedMeta(m)
  {
    Root(m).Some? && Root(m).value.kind == FILE_TYPE_DIRECTORY
  }

  /** The test fs_find_file applies to each entry. */
  function Matches(f: seq<Byte>): DirEntry -> bool
    requires |f| >= MAX_FILENAME
  {
    (e: DirEntry) => WellFormedEntry(e) && Hit(e, f)
  }

  /** fs_find_file: the inode number of the first used entry whose name matches; None for
      a NULL name, a missing or non-directory root, or no match. */
  function Find(s: FsState, f: Option<seq<Byte>>): Option<U32>
    requires WellFormed(s) && (f.Some? ==> |f.value| >= MAX_FILENAME)
  {
    if f.None? || !RootIsDirectory(s.meta) then None
    else FindIn(s.dir, s.meta.inodes[0].blocks, f.value)
  }

  /** The loops of fs_find_file over a root directory with the given block pointers. */
  function FindIn(dir: seq<DirEntry>, blocks: seq<U32>, f: seq<Byte>): Option<U32>
    requires WellFormedDir(dir) && BlockPointers(blocks) && |f| >= MAX_FILENAME
  {
    match Scan(dir, blocks, Matches(f), 0, 0)
    case None => None
    case Some(loc) => Some(dir[Slot(blocks, loc.0, loc.1)].inodeNum)
  }

  /** Find answers with a used entry that matches, and answers None only when no entry the
      loops reach matches. */
  lemma FindMeaning(s: FsState, f: seq<Byte>)
    requires WellFormed(s) && |f| >= MAX_FILENAME && RootIsDirectory(s.meta)
    ensures var blocks := s.meta.inodes[0].blocks;
      Find(s, Some(f)).None? <==>
        forall x: nat, y: nat :: y < ENTRIES_PER_BLOCK && Reachable(blocks, x) ==> !Hit(s.dir[Slot(blocks, x, y)], f)
    ensures var blocks := s.meta.inodes[0].blocks;
      Find(s, Some(f)).Some? ==>
        exists x: nat, y: nat :: y < ENTRIES_PER_BLOCK && Reachable(blocks, x) && Hit(s.dir[Slot(blocks, x, y)], f) &&
                       s.dir[Slot(blocks, x, y)].inodeNum == Find(s, Some(f)).value
  {
    var blocks := s.meta.inodes[0].blocks;
    var r := Scan(s.dir, blocks, Matches(f), 0, 0);
    ScanMeaning(s.dir, blocks, Matches(f), 0, 0);
    if r.Some? {
      var (x, y) := r.value;
      assert Hit(s.dir[Slot(blocks, x, y)], f);
    }
  }

  /** If slot (idx, i) holds a match for inode n and every slot the loops reach before it
      either does not match or also names n, Find answers n. */
  lemma FindFirstMatch(s: FsState, f: seq<Byte>, idx: nat, i: nat, n: U32)
    requires WellFormed(s) && |f| >= MAX_FILENAME && RootIsDirectory(s.meta)
    requires var blocks := s.meta.inodes[0].blocks;
      Reachable(blocks, idx) && i < ENTRIES_PER_BLOCK &&
      Hit(s.dir[Slot(blocks, idx, i)], f) && s.dir[Slot(blocks, idx, i)].inodeNum == n &&
      forall x: nat, y: nat ::
        (!NotBefore(x, y, idx, i) && y < ENTRIES_PER_BLOCK && Reachable(blocks, x) &&
         Hit(s.dir[Slot(blocks, x, y)], f)) ==> s.dir[Slot(blocks, x, y)].inodeNum == n
    ensures Find(s, Some(f)) == Some(n)
  {
    var blocks := s.meta.inodes[0].blocks;
    var r := Scan(s.dir, blocks, Matches(f), 0, 0);
    ScanMeaning(s.dir, blocks, Matches(f), 0, 0);
    assert r.Some?;
    var (x, y) := r.value;
    // the scan stops at the first match, which is not after (idx, i)
    assert NotBefore(idx, i, x, y);
    if x != idx || y != i {
      assert Hit(s.dir[Slot(blocks, x, y)], f);
    }
  }

  /** The first zero pointer among a root's direct blocks (fs_create_file's last loop). */
  function FirstZero(blocks: seq<U32>, j: nat): (r: Option<nat>)
    requires |blocks| == DIRECT_BLOCKS && j <= DIRECT_BLOCKS
    ensures r.Some? ==> j <= r.value < DIRECT_BLOCKS && blocks[r.value] == 0 &&
                        forall x :: j <= x < r.value ==> blocks[x] != 0
    ensures r.None? ==> forall x :: j <= x < DIRECT_BLOCKS ==> blocks[x] != 0
    decreases DIRECT_BLOCKS - j
  {
    if j == DIRECT_BLOCKS then None
    else if blocks[j] == 0 then Some(j)
    else FirstZero(blocks, j + 1)
  }

  function SetInode(m: Meta, i: nat, ino: Inode): (r: Meta)
    requires WellFormedMeta(m) && i < MAX_FILES && BlockPointers(ino.blocks)
    ensures WellFormedMeta(r)
  {
    m.(inodes := m.inodes[i := ino])
  }

  /** The directory slots of block b, all made free, as zeroing the block does. */
  function ClearBlock(dir: seq<DirEntry>, b: nat): (r: seq<DirEntry>)
    requires WellFormedDir(dir) && b < MAX_BLOCKS
    ensures WellFormedDir(r)
    ensures forall k :: 0 <= k < DIR_SLOTS ==>
      r[k] == if b * ENTRIES_PER_BLOCK <= k < b * ENTRIES_PER_BLOCK + ENTRIES_PER_BLOCK then EmptyEntry() else dir[k]
  {
    var r := seq(DIR_SLOTS, k requires 0 <= k < DIR_SLOTS =>
                   if b * ENTRIES_PER_BLOCK <= k < b * ENTRIES_PER_BLOCK + ENTRIES_PER_BLOCK then EmptyEntry() else dir[k]);
    assert forall k :: 0 <= k < DIR_SLOTS ==> WellFormedEntry(r[k]) by {
      forall k | 0 <= k < DIR_SLOTS
        ensures WellFormedEntry(r[k])
      {
        assert WellFormedEntry(dir[k]) && WellFormedEntry(EmptyEntry());
      }
    }
    r
  }

  function IsFree(e: DirEntry): bool
  {
    e.inodeNum == 0
  }

  /** The end of fs_create_file once inode n is taken and the root has a first block: the
      entry goes into the first free slot; failing that, into a fresh zeroed block at the
      first zero root pointer; failing that, the inode is released. */
  function PlaceEntry(s: FsState, f: seq<Byte>, kind: U32, n: U32): (r: (FsState, I32))
    requires WellFormed(s) && |f| >= MAX_FILENAME
    ensures WellFormed(r.0)
  {
    var root := s.meta.inodes[0];
    match Scan(s.dir, root.blocks, IsFree, 0, 0)
    case Some(loc) =>
      var k := Slot(root.blocks, loc.0, loc.1);
      (s.(meta := SetInode(s.meta, 0, root.(size := Add32(root.size, DIR_ENTRY_SIZE))),
          dir := s.dir[k := NewEntry(s.dir[k], f, kind, n)]), 0)
    case None =>
      match FirstZero(root.blocks, 0)
      case None => (s.(meta := FreeInode(s.meta, n)), -1)
      case Some(idx) =>
        var (m1, b) := AllocBlock(s.meta);
        if b == 0 then (s.(meta := FreeInode(m1, n)), -1)
        else
          var root1 := m1.inodes[0];
          (s.(meta := SetInode(m1, 0, root1.(blocks := root1.blocks[idx := b], size := Add32(root1.size, DIR_ENTRY_SIZE))),
              dir := ClearBlock(s.dir, b)[b * ENTRIES_PER_BLOCK := NewEntry(EmptyEntry(), f, kind, n)]), 0)
  }

  /** fs_create_file once fs_init has run, for a non-NULL name. */
  function CreateIn(s: FsState, f: seq<Byte>, kind: U32): (r: (FsState, I32))
    requires WellFormed(s) && |f| >= MAX_FILENAME
    ensures WellFormed(r.0)
  {
    if Find(s, Some(f)).Some? then (s, -1)
    else
      var (m1, n) := AllocInode(s.meta);
      if n == 0 then (s, -1)
      else SetUpFile(s.(meta := m1), f, kind, n)
  }

  /** fs_create_file once inode n is taken: the inode is set up as an empty file, the
      root gets a first block if it has none (without zeroing it), and the entry is
      placed; with no block for the root, the inode is released again. */
  function SetUpFile(s: FsState, f: seq<Byte>, kind: U32, n: U32): (r: (FsState, I32))
    requires WellFormed(s) && |f| >= MAX_FILENAME && n < MAX_FILES
    ensures WellFormed(r.0)
  {
    var m2 := SetInode(s.meta, n, s.meta.inodes[n].(kind := kind, size := 0, links := 1, permissions := FILE_PERMISSIONS));
    var root := m2.inodes[0];
    if root.blocks[0] == 0 then
      var (m3, b) := AllocBlock(m2);
      if b == 0 then (s.(meta := FreeInode(m3, n)), -1)
      else PlaceEntry(s.(meta := SetInode(m3, 0, root.(blocks := root.blocks[0 := b], size := 0))), f, kind, n)
    else PlaceEntry(s.(meta := m2), f, kind, n)
  }

  /** fs_create_file: fs_init first if needed; -1 for a NULL name. */
  function Create(s: FsState, f: Option<seq<Byte>>, kind: U32): (r: (FsState, I32))
    requires WellFormed(s) && (f.Some? ==> |f.value| >= MAX_FILENAME)
    ensures WellFormed(r.0) && r.0.initialized
  {
    var s1 := Init(s);
    if f.None? then (s1, -1) else CreateIn(s1, f.value, kind)
  }

  /** fs_create_file refuses a name that is already there and changes nothing but the
      initialisation. */
  lemma CreateExisting(s: FsState, f: seq<Byte>, kind: U32)
    requires WellFormed(s) && |f| >= MAX_FILENAME && Find(Init(s), Some(f)).Some?
    ensures Create(s, Some(f), kind) == (Init(s), -1)
  {
  }

  /** When fs_create_file fails, the inode bitmap is as it was: an inode taken for the new
      file is given back. */
  lemma CreateFailureKeepsInodes(s: FsState, f: seq<Byte>, kind: U32)
    requires WellFormed(s) && |f| >= MAX_FILENAME
    requires Create(s, Some(f), kind).1 != 0
    ensures Create(s, Some(f), kind).0.meta.inodeBits == Init(s).meta.inodeBits
  {
    var s1 := Init(s);
    if Find(s1, Some(f)).None? {
      var (m1, n) := AllocInode(s1.meta);
      if n != 0 {
        assert m1.inodeBits[n := false] == s1.meta.inodeBits;
        var m2 := SetInode(m1, n, m1.inodes[n].(kind := kind, size := 0, links := 1, permissions := FILE_PERMISSIONS));
        assert m2.inodeBits == m1.inodeBits;
        var root := m2.inodes[0];
        if root.blocks[0] == 0 {
          var (m3, b) := AllocBlock(m2);
          if b != 0 {
            PlaceEntryFailure(s1.(meta := SetInode(m3, 0, root.(blocks := root.blocks[0 := b], size := 0))), f, kind, n);
          }
        } else {
          PlaceEntryFailure(s1.(meta := m2), f, kind, n);
        }
      }
    }
  }

  /** fs_create_file sets the new inode up as an empty file of the given type with one
      link, permissions 0644, and marks it used. */
  lemma CreateSetsUpInode(s: FsState, f: seq<Byte>, kind: U32)
    requires WellFormed(s) && |f| >= MAX_FILENAME
    requires Create(s, Some(f), kind).1 == 0
    ensures var n := AllocInode(Init(s).meta).1; var m := Create(s, Some(f), kind).0.meta;
      1 <= n < Init(s).meta.sb.totalInodes && !Init(s).meta.inodeBits[n] && m.inodeBits[n] &&
      m.inodes[n].kind == kind && m.inodes[n].size == 0 && m.inodes[n].links == 1 &&
      m.inodes[n].permissions == FILE_PERMISSIONS
  {
    var s1 := Init(s);
    var (m1, n) := AllocInode(s1.meta);
    var m2 := SetInode(m1, n, m1.inodes[n].(kind := kind, size := 0, links := 1, permissions := FILE_PERMISSIONS));
    var root := m2.inodes[0];
    assert n != 0;
    if root.blocks[0] == 0 {
      var (m3, b) := AllocBlock(m2);
      PlaceEntryKeepsInode(s1.(meta := SetInode(m3, 0, root.(blocks := root.blocks[0 := b], size := 0))), f, kind, n);
    } else {
      PlaceEntryKeepsInode(s1.(meta := m2), f, kind, n);
    }
  }

  /** When PlaceEntry fails it releases inode n again. */
  lemma PlaceEntryFailure(s: FsState, f: seq<Byte>, kind: U32, n: U32)
    requires WellFormed(s) && |f| >= MAX_FILENAME && 0 < n < s.meta.sb.totalInodes
    requires PlaceEntry(s, f, kind, n).1 != 0
    ensures PlaceEntry(s, f, kind, n).0.meta.inodeBits == s.meta.inodeBits[n := false]
  {
  }

  /** PlaceEntry succeeds without touching any inode but the root, nor the inode bitmap. */
  lemma PlaceEntryKeepsInode(s: FsState, f: seq<Byte>, kind: U32, n: U32)
    requires WellFormed(s) && |f| >= MAX_FILENAME && 0 < n < MAX_FILES
    requires PlaceEntry(s, f, kind, n).1 == 0
    ensures PlaceEntry(s, f, kind, n).0.meta.inodes[n] == s.meta.inodes[n]
    ensures PlaceEntry(s, f, kind, n).0.meta.inodeBits == s.meta.inodeBits
  {
  }

  /** Directory slots of blocks the bitmap shows free hold no entry. (The state fs_format
      leaves has this property.) */
  predicate FreeBlocksEmpty(s: FsState)
    requires WellFormed(s)
  {
    forall b: nat, i: nat :: b < MAX_BLOCKS && i < ENTRIES_PER_BLOCK && !s.meta.blockBits[b] ==>
      s.dir[EntryIndex(b, i)].inodeNum == 0
  }

  /** Where PlaceEntry puts the entry in a free slot, Find sees it, provided no slot the
      loops reach before that one matches the name. */
  lemma PlaceInFreeSlotFinds(t: FsState, f: seq<Byte>, kind: U32, n: U32)
    requires WellFormed(t) && |f| >= MAX_FILENAME && NUL in f[..MAX_FILENAME] && n != 0
    requires RootIsDirectory(t.meta)
    requires var R := t.meta.inodes[0].blocks; var loc := Scan(t.dir, R, IsFree, 0, 0);
      loc.Some? &&
      forall x: nat, y: nat ::
        (y < ENTRIES_PER_BLOCK && Reachable(R, x) && !NotBefore(x, y, loc.value.0, loc.value.1)) ==>
          !Hit(t.dir[Slot(R, x, y)], f)
    ensures Find(PlaceEntry(t, f, kind, n).0, Some(f)) == Some(n)
  {
    var R := t.meta.inodes[0].blocks;
    var t' := PlaceEntry(t, f, kind, n).0;
    ScanMeaning(t.dir, R, IsFree, 0, 0);
    var (a, c) := Scan(t.dir, R, IsFree, 0, 0).value;
    var k := Slot(R, a, c);
    assert t'.dir == t.dir[k := NewEntry(t.dir[k], f, kind, n)];
    assert t'.meta.inodes[0].blocks == R;
    StoredNameMatches(t.dir[k], f, kind, n);
    forall x: nat, y: nat | !NotBefore(x, y, a, c) && y < ENTRIES_PER_BLOCK && Reachable(R, x)
      ensures !Hit(t'.dir[Slot(R, x, y)], f)
    {
      assert !IsFree(t.dir[Slot(R, x, y)]);
    }
    FindFirstMatch(t', f, a, c, n);
  }

  /** Where PlaceEntry puts the entry in a fresh block, Find sees it, provided no slot the
      loops reach matches the name. */
  lemma PlaceInNewBlockFinds(t: FsState, f: seq<Byte>, kind: U32, n: U32)
    requires WellFormed(t) && |f| >= MAX_FILENAME && NUL in f[..MAX_FILENAME] && n != 0
    requires RootIsDirectory(t.meta) && PlaceEntry(t, f, kind, n).1 == 0
    requires var R := t.meta.inodes[0].blocks;
      Scan(t.dir, R, IsFree, 0, 0).None? &&
      forall x: nat, y: nat :: (y < ENTRIES_PER_BLOCK && Reachable(R, x)) ==> !Hit(t.dir[Slot(R, x, y)], f)
    ensures Find(PlaceEntry(t, f, kind, n).0, Some(f)) == Some(n)
  {
    var R := t.meta.inodes[0].blocks;
    var t' := PlaceEntry(t, f, kind, n).0;
    var idx := FirstZero(R, 0).value;
    var (m1, b) := AllocBlock(t.meta);
    var R' := R[idx := b];
    assert t'.meta.inodes[0].blocks == R';
    var k := EntryIndex(b, 0);
    assert t'.dir == ClearBlock(t.dir, b)[k := NewEntry(EmptyEntry(), f, kind, n)];
    assert Slot(R', idx, 0) == k;
    StoredNameMatches(EmptyEntry(), f, kind, n);
    forall x: nat, y: nat | !NotBefore(x, y, idx, 0) && y < ENTRIES_PER_BLOCK && Reachable(R', x)
      ensures Hit(t'.dir[Slot(R', x, y)], f) ==> t'.dir[Slot(R', x, y)].inodeNum == n
    {
      assert R'[x] == R[x] && Reachable(R, x);
      var j := Slot(R', x, y);
      if j == k {
        assert t'.dir[j].inodeNum == n;
      } else if EntryIndex(b, 0) <= j < EntryIndex(b, 0) + ENTRIES_PER_BLOCK {
        assert t'.dir[j] == EmptyEntry();
      } else {
        assert t'.dir[j] == t.dir[Slot(R, x, y)];
      }
    }
    FindFirstMatch(t', f, idx, 0, n);
  }

  /** After fs_create_file succeeds, fs_find_file finds the new inode under the name, for
      a name shorter than 32 characters in a root directory whose free blocks hold no
      entries. */
  lemma CreateThenFind(s: FsState, f: seq<Byte>, kind: U32)
    requires WellFormed(s) && |f| >= MAX_FILENAME && NUL in f[..MAX_FILENAME]
    requires RootIsDirectory(Init(s).meta) && FreeBlocksEmpty(Init(s))
    requires Create(s, Some(f), kind).1 == 0
    ensures Find(Create(s, Some(f), kind).0, Some(f)) == Some(AllocInode(Init(s).meta).1)
  {
    var s1 := Init(s);
    FindMeaning(s1, f);
    var (m1, n) := AllocInode(s1.meta);
    var m2 := SetInode(m1, n, m1.inodes[n].(kind := kind, size := 0, links := 1, permissions := FILE_PERMISSIONS));
    var root := m2.inodes[0];
    assert root == s1.meta.inodes[0];
    if root.blocks[0] == 0 {
      var (m3, b) := AllocBlock(m2);
      assert b != 0;
      var R := root.blocks[0 := b];
      var t := s1.(meta := SetInode(m3, 0, root.(blocks := R, size := 0)));
      assert m2.blockBits == s1.meta.blockBits;
      assert !s1.meta.blockBits[b] && Slot(R, 0, 0) == EntryIndex(b, 0);
      assert IsFree(t.dir[Slot(R, 0, 0)]) && Reachable(R, 0);
      var loc := Scan(t.dir, R, IsFree, 0, 0);
      ScanMeaning(t.dir, R, IsFree, 0, 0);
      assert loc == Some((0, 0)) by {
        assert loc.Some? && NotBefore(0, 0, loc.value.0, loc.value.1);
      }
      PlaceInFreeSlotFinds(t, f, kind, n);
    } else {
      var t := s1.(meta := m2);
      if Scan(t.dir, root.blocks, IsFree, 0, 0).Some? {
        PlaceInFreeSlotFinds(t, f, kind, n);
      } else {
        PlaceInNewBlockFinds(t, f, kind, n);
      }
    }
  }

  // ---------------------------------------------------------------------------
  // Delete, size, list
  // ---------------------------------------------------------------------------

  /** The block loop of fs_delete_file: free the direct blocks from j on, stopping at the
      first zero pointer. */
  function FreeFileBlocks(m: Meta, blocks: seq<U32>, j: nat): (r: Meta)
    requires WellFormedMeta(m) && BlockPointers(blocks) && j <= DIRECT_BLOCKS
    ensures WellFormedMeta(r) && r.inodes == m.inodes && r.inodeBits == m.inodeBits
    ensures r.sb.totalBlocks == m.sb.totalBlocks && r.sb.firstDataBlock == m.sb.firstDataBlock && r.sb.totalInodes == m.sb.totalInodes
    ensures r.sb.freeInodes == m.sb.freeInodes
    ensures forall b :: 0 <= b < MAX_BLOCKS && r.blockBits[b] ==> m.blockBits[b]
    decreases DIRECT_BLOCKS - j
  {
    if j == DIRECT_BLOCKS || blocks[j] == 0 then m
    else FreeFileBlocks(FreeBlock(m, blocks[j]), blocks, j + 1)
  }

  /** The pointers the block loop of fs_delete_file hands to fs_free_block, from j on: the
      non-zero pointers up to the first zero one. */
  function Run(blocks: seq<U32>, j: nat): (r: seq<U32>)
    requires |blocks| == DIRECT_BLOCKS && j <= DIRECT_BLOCKS
    ensures j + |r| <= DIRECT_BLOCKS
    ensures forall x :: 0 <= x < |r| ==> r[x] == blocks[j + x] && r[x] != 0
    ensures j + |r| < DIRECT_BLOCKS ==> blocks[j + |r|] == 0
    decreases DIRECT_BLOCKS - j
  {
    if j == DIRECT_BLOCKS || blocks[j] == 0 then [] else [blocks[j]] + Run(blocks, j + 1)
  }

  /** How many of the pointers fs_free_block acts on: those below total. */
  function CountBelow(ps: seq<U32>, total: nat): (c: nat)
    ensures c <= |ps|
    ensures (forall x :: 0 <= x < |ps| ==> ps[x] < total) ==> c == |ps|
  {
    if ps == [] then 0 else (if ps[0] < total then 1 else 0) + CountBelow(ps[1..], total)
  }

  /** What the block loop of fs_delete_file does to the bitmap: exactly the bits of the
      pointers it passes that lie inside the disk are cleared. */
  lemma {:induction false} FreeFileBlocksBits(m: Meta, blocks: seq<U32>, j: nat)
    requires WellFormedMeta(m) && BlockPointers(blocks) && j <= DIRECT_BLOCKS
    ensures var r := FreeFileBlocks(m, blocks, j);
      forall b :: 0 <= b < MAX_BLOCKS ==>
        r.blockBits[b] == (m.blockBits[b] && !(b < m.sb.totalBlocks && b in Run(blocks, j)))
    decreases DIRECT_BLOCKS - j
  {
    if j < DIRECT_BLOCKS && blocks[j] != 0 {
      var m1 := FreeBlock(m, blocks[j]);
      FreeFileBlocksBits(m1, blocks, j + 1);
      var run := Run(blocks, j);
      assert run == [blocks[j]] + Run(blocks, j + 1);
      forall b | 0 <= b < MAX_BLOCKS
        ensures m1.blockBits[b] == (m.blockBits[b] && !(b < m.sb.totalBlocks && b == blocks[j]))
        ensures b in run <==> b == blocks[j] || b in Run(blocks, j + 1)
      {
      }
    }
  }

  /** A uint32 counter after k increments, each wrapping at 2^32. */
  function Bump(x: U32, k: nat): (r: U32)
    ensures x + k < U32_LIMIT ==> r == x + k
    decreases k
  {
    if k == 0 then x else Bump(Add32(x, 1), k - 1)
  }

  /** The pointer at j counts once, when it lies inside the disk, ahead of the rest of
      the run. */
  lemma RunCountStep(blocks: seq<U32>, j: nat, total: U32)
    requires BlockPointers(blocks) && j < DIRECT_BLOCKS && blocks[j] != 0
    ensures CountBelow(Run(blocks, j), total) ==
      CountBelow(Run(blocks, j + 1), total) + if blocks[j] < total then 1 else 0
  {
    assert Run(blocks, j)[1..] == Run(blocks, j + 1);
  }

  /** What the block loop of fs_delete_file does to the free count: one increment for
      each pointer it passes that lies inside the disk, whether or not the block was in
      use. */
  lemma {:induction false} FreeFileBlocksCount(m: Meta, blocks: seq<U32>, j: nat)
    requires WellFormedMeta(m) && BlockPointers(blocks) && j <= DIRECT_BLOCKS
    ensures FreeFileBlocks(m, blocks, j).sb.freeBlocks ==
      Bump(m.sb.freeBlocks, CountBelow(Run(blocks, j), m.sb.totalBlocks))
    decreases DIRECT_BLOCKS - j
  {
    if j < DIRECT_BLOCKS && blocks[j] != 0 {
      var p := blocks[j];
      var total := m.sb.totalBlocks;
      var m1 := FreeBlock(m, p);
      var inside := p < total;
      assert m1.sb.totalBlocks == total;
      assert m1.sb.freeBlocks == if inside then Add32(m.sb.freeBlocks, 1) else m.sb.freeBlocks;
      var k := CountBelow(Run(blocks, j + 1), total);
      assert FreeFileBlocks(m, blocks, j).sb.freeBlocks == Bump(m1.sb.freeBlocks, k) by {
        FreeFileBlocksCount(m1, blocks, j + 1);
        assert FreeFileBlocks(m, blocks, j) == FreeFileBlocks(m1, blocks, j + 1);
      }
      RunCountStep(blocks, j, total);
      BumpFront(m.sb.freeBlocks, m1.sb.freeBlocks, k, inside);
    }
  }

  /** The freeing half of fs_delete_file: the file's direct blocks up to the first zero
      pointer, its indirect block, then the inode itself. Nothing else of the inode table
      changes, and no block becomes used. */
  function ReleaseFile(m: Meta, n: U32): (r: Meta)
    requires WellFormedMeta(m) && n < m.sb.totalInodes
    ensures WellFormedMeta(r) && r.sb.totalInodes == m.sb.totalInodes
    ensures 0 < n ==> !r.inodeBits[n] && r.inodes == m.inodes[n := ClearedInode(m.inodes[n])]
    ensures forall b :: 0 <= b < MAX_BLOCKS && r.blockBits[b] ==> m.blockBits[b]
  {
    var ino := m.inodes[n];
    var m1 := FreeFileBlocks(m, ino.blocks, 0);
    var m2 := if ino.indirect != 0 then FreeBlock(m1, ino.indirect) else m1;
    FreeInode(m2, n)
  }

  function NamesInode(n: U32): DirEntry -> bool
  {
    (e: DirEntry) => e.inodeNum == n
  }

  /** The directory half of fs_delete_file: the first entry, in loop order, that names
      inode n is freed and the root shrinks by one entry; with none, nothing changes. */
  function Unlink(s: FsState, n: U32): (r: FsState)
    requires WellFormed(s)
    ensures WellFormed(r)
  {
    var root := s.meta.inodes[0];
    match Scan(s.dir, root.blocks, NamesInode(n), 0, 0)
    case None => s
    case Some(loc) =>
      var k := Slot(root.blocks, loc.0, loc.1);
      s.(meta := SetInode(s.meta, 0, root.(size := Sub32(root.size, DIR_ENTRY_SIZE))),
         dir := s.dir[k := s.dir[k].(inodeNum := 0)])
  }

  /** fs_delete_file once fs_init has run: -1 when the name is not found or names no
      inode; otherwise free the file's blocks up to the first zero pointer, its indirect
      block, and the inode, then free the first entry naming that inode and shrink the
      root; 0 even when no entry names it. */
  function DeleteIn(s: FsState, f: Option<seq<Byte>>): (r: (FsState, I32))
    requires WellFormed(s) && (f.Some? ==> |f.value| >= MAX_FILENAME)
    ensures WellFormed(r.0)
  {
    match Find(s, f)
    case None => (s, -1)
    case Some(n) =>
      if n >= s.meta.sb.totalInodes then (s, -1)
      else
        (Unlink(s.(meta := ReleaseFile(s.meta, n)), n), 0)
  }

  /** fs_delete_file: fs_init first if needed. */
  function Delete(s: FsState, f: Option<seq<Byte>>): (r: (FsState, I32))
    requires WellFormed(s) && (f.Some? ==> |f.value| >= MAX_FILENAME)
    ensures WellFormed(r.0) && r.0.initialized
  {
    DeleteIn(Init(s), f)
  }

  /** fs_delete_file of a name fs_find_file does not find changes nothing but the
      initialisation and answers -1. */
  lemma DeleteMissing(s: FsState, f: Option<seq<Byte>>)
    requires WellFormed(s) && (f.Some? ==> |f.value| >= MAX_FILENAME)
    requires Find(Init(s), f).None?
    ensures Delete(s, f) == (Init(s), -1)
  {
  }

  /** The pointers fs_delete_file hands to fs_free_block for an inode: the direct ones
      up to the first zero, then the indirect one when it is set. */
  function Freed(ino: Inode): (r: seq<U32>)
    requires BlockPointers(ino.blocks)
    ensures forall b :: b in r <==> b in Run(ino.blocks, 0) || (ino.indirect != 0 && b == ino.indirect)
  {
    Run(ino.blocks, 0) + (if ino.indirect != 0 then [ino.indirect] else [])
  }

  /** Counting over two parts of a list of pointers. */
  lemma {:induction false} CountBelowAppend(a: seq<U32>, c: seq<U32>, total: nat)
    ensures CountBelow(a + c, total) == CountBelow(a, total) + CountBelow(c, total)
  {
    if a != [] {
      assert (a + c)[0] == a[0] && (a + c)[1..] == a[1..] + c;
      assert CountBelow(a + c, total) == (if a[0] < total then 1 else 0) + CountBelow(a[1..] + c, total);
      CountBelowAppend(a[1..], c, total);
    } else {
      assert a + c == c;
    }
  }

  /** One pointer counts when it lies below total. */
  lemma CountBelowOne(p: U32, total: nat)
    ensures CountBelow([p], total) == if p < total then 1 else 0
  {
    assert [p][1..] == [];
  }

  /** The pointers fs_delete_file frees that count: those of the run, and the indirect
      pointer when it is set and below total. */
  lemma CountFreed(ino: Inode, total: nat)
    requires BlockPointers(ino.blocks) && ino.indirect != 0
    ensures CountBelow(Freed(ino), total) ==
      CountBelow(Run(ino.blocks, 0), total) + if ino.indirect < total then 1 else 0
  {
    var run := Run(ino.blocks, 0);
    assert Freed(ino) == run + [ino.indirect];
    CountBelowAppend(run, [ino.indirect], total);
    CountBelowOne(ino.indirect, total);
  }

  /** Incrementing j times, then k times, is incrementing j + k times. */
  /** Bumping after a first increment, or none, is bumping once more, or not. */
  lemma BumpFront(x: U32, x1: U32, k: nat, once: bool)
    requires once ==> x1 == Add32(x, 1)
    requires !once ==> x1 == x
    ensures Bump(x1, k) == Bump(x, k + if once then 1 else 0)
  {
  }

  /** One more freed pointer, or none: the count bumped once more, or left alone. */
  lemma BumpStep(x: U32, k: nat, c: nat, y: U32, z: U32, once: bool)
    requires y == Bump(x, k)
    requires once ==> c == k + 1 && z == Add32(y, 1)
    requires !once ==> c == k && z == y
    ensures z == Bump(x, c)
  {
    if once {
      BumpTwice(x, k, 1);
    }
  }

  lemma {:induction false} BumpTwice(x: U32, j: nat, k: nat)
    ensures Bump(Bump(x, j), k) == Bump(x, j + k)
    decreases j
  {
    if j > 0 {
      BumpTwice(Add32(x, 1), j - 1, k);
    }
  }

  /** The freeing half of fs_delete_file for inode n (not the root), on the bitmap: the
      bits of the blocks it passes to fs_free_block inside the disk are cleared and no
      other. */
  lemma ReleaseFileBits(m: Meta, n: U32)
    requires WellFormedMeta(m) && 0 < n < m.sb.totalInodes
    ensures var r := ReleaseFile(m, n);
      forall b :: 0 <= b < MAX_BLOCKS ==>
        r.blockBits[b] == (m.blockBits[b] && !(b < m.sb.totalBlocks && b in Freed(m.inodes[n])))
  {
    FreeFileBlocksBits(m, m.inodes[n].blocks, 0);
  }

  /** The freeing half of fs_delete_file for inode n (not the root), on the counters:
      the free block count goes up once for each pointer it passes to fs_free_block
      inside the disk, and the free inode count once. */
  lemma ReleaseFileCounts(m: Meta, n: U32)
    requires WellFormedMeta(m) && 0 < n < m.sb.totalInodes
    ensures var r := ReleaseFile(m, n);
      r.sb.freeBlocks == Bump(m.sb.freeBlocks, CountBelow(Freed(m.inodes[n]), m.sb.totalBlocks)) &&
      r.sb.freeInodes == Add32(m.sb.freeInodes, 1)
  {
    var ino := m.inodes[n];
    var m1 := FreeFileBlocks(m, ino.blocks, 0);
    FreeFileBlocksCount(m, ino.blocks, 0);
    var m2 := if ino.indirect != 0 then FreeBlock(m1, ino.indirect) else m1;
    FreedCount(m, ino, m1, m2);
  }

  /** After the block loop of fs_delete_file has left m1, freeing the indirect block
      leaves m2, whose free count has gone up once for every pointer freed inside the
      disk. */
  lemma FreedCount(m: Meta, ino: Inode, m1: Meta, m2: Meta)
    requires WellFormedMeta(m) && WellFormedMeta(m1) && BlockPointers(ino.blocks)
    requires m1.sb.totalBlocks == m.sb.totalBlocks && m1.sb.freeInodes == m.sb.freeInodes
    requires m1.sb.freeBlocks == Bump(m.sb.freeBlocks, CountBelow(Run(ino.blocks, 0), m.sb.totalBlocks))
    requires m2 == if ino.indirect != 0 then FreeBlock(m1, ino.indirect) else m1
    ensures m2.sb.freeBlocks == Bump(m.sb.freeBlocks, CountBelow(Freed(ino), m.sb.totalBlocks))
    ensures m2.sb.freeInodes == m.sb.freeInodes
  {
    var total := m.sb.totalBlocks;
    var k := CountBelow(Run(ino.blocks, 0), total);
    var c := CountBelow(Freed(ino), total);
    var inside := ino.indirect != 0 && ino.indirect < total;
    if ino.indirect != 0 {
      CountFreed(ino, total);
    } else {
      assert Freed(ino) == Run(ino.blocks, 0);
    }
    assert inside ==> m2.sb.freeBlocks == Add32(m1.sb.freeBlocks, 1);
    assert !inside ==> m2.sb.freeBlocks == m1.sb.freeBlocks;
    BumpStep(m.sb.freeBlocks, k, c, m1.sb.freeBlocks, m2.sb.freeBlocks, inside);
  }

  /** Find answers only with a used entry, which the scan for its inode number reaches. */
  lemma FoundIsNamed(s: FsState, f: seq<Byte>, n: U32)
    requires WellFormed(s) && |f| >= MAX_FILENAME && Find(s, Some(f)) == Some(n)
    ensures n != 0 && RootIsDirectory(s.meta)
    ensures var blocks := s.meta.inodes[0].blocks;
      exists x: nat, y: nat :: FirstNaming(s.dir, blocks, n, x, y) && Scan(s.dir, blocks, NamesInode(n), 0, 0) == Some((x, y))
  {
    var blocks := s.meta.inodes[0].blocks;
    var (x, y) := Scan(s.dir, blocks, Matches(f), 0, 0).value;
    assert NamesInode(n)(s.dir[Slot(blocks, x, y)]);
    ScanMeaning(s.dir, blocks, Matches(f), 0, 0);
    ScanMeaning(s.dir, blocks, NamesInode(n), 0, 0);
    var (a, c) := Scan(s.dir, blocks, NamesInode(n), 0, 0).value;
    assert FirstNaming(s.dir, blocks, n, a, c);
  }

  /** The entry at (x, y) is the first, in the directory loops' order, that names inode n. */
  ghost predicate FirstNaming(dir: seq<DirEntry>, blocks: seq<U32>, n: U32, x: nat, y: nat)
    requires WellFormedDir(dir) && BlockPointers(blocks)
  {
    y < ENTRIES_PER_BLOCK && Reachable(blocks, x) && dir[Slot(blocks, x, y)].inodeNum == n &&
    forall x2: nat, y2: nat :: y2 < ENTRIES_PER_BLOCK && Reachable(blocks, x2) && !NotBefore(x2, y2, x, y) ==>
      dir[Slot(blocks, x2, y2)].inodeNum != n
  }

  /** A successful fs_delete_file (here after fs_init has run) answers 0, releases the
      file as ReleaseFileBits and ReleaseFileCounts state, and takes one entry's size off
      the root, whose pointers stay. */
  lemma DeleteReleases(s: FsState, f: seq<Byte>, n: U32)
    requires WellFormed(s) && |f| >= MAX_FILENAME
    requires Find(s, Some(f)) == Some(n) && n < s.meta.sb.totalInodes
    ensures DeleteIn(s, Some(f)).1 == 0 && n != 0
    ensures var m := ReleaseFile(s.meta, n);
      DeleteIn(s, Some(f)).0.meta == m.(inodes := m.inodes[0 := m.inodes[0].(size := Sub32(m.inodes[0].size, DIR_ENTRY_SIZE))])
    ensures ReleaseFile(s.meta, n).inodes[0] == s.meta.inodes[0]
  {
    FoundIsNamed(s, f, n);
  }

  /** A successful fs_delete_file frees exactly the entry the loops meet first among those
      naming the file's inode, and leaves every other entry alone. */
  lemma DeleteUnlinks(s: FsState, f: seq<Byte>, n: U32)
    requires WellFormed(s) && |f| >= MAX_FILENAME
    requires Find(s, Some(f)) == Some(n) && n < s.meta.sb.totalInodes
    ensures var blocks := s.meta.inodes[0].blocks; var r := DeleteIn(s, Some(f)).0;
      exists x: nat, y: nat :: FirstNaming(s.dir, blocks, n, x, y) &&
        r.dir == s.dir[Slot(blocks, x, y) := s.dir[Slot(blocks, x, y)].(inodeNum := 0)]
  {
    FoundIsNamed(s, f, n);
    var blocks := s.meta.inodes[0].blocks;
    var x: nat, y: nat :| FirstNaming(s.dir, blocks, n, x, y) && Scan(s.dir, blocks, NamesInode(n), 0, 0) == Some((x, y));
    assert ReleaseFile(s.meta, n).inodes[0] == s.meta.inodes[0];
  }

  /** Exactly one slot the loops reach holds an entry f matches. */
  ghost predicate MatchedOnce(dir: seq<DirEntry>, blocks: seq<U32>, f: seq<Byte>)
    requires WellFormedDir(dir) && BlockPointers(blocks) && |f| >= MAX_FILENAME
  {
    forall x: nat, y: nat, x2: nat, y2: nat ::
      y < ENTRIES_PER_BLOCK && Reachable(blocks, x) && y2 < ENTRIES_PER_BLOCK && Reachable(blocks, x2) &&
      Hit(dir[Slot(blocks, x, y)], f) && Hit(dir[Slot(blocks, x2, y2)], f) ==>
        Slot(blocks, x, y) == Slot(blocks, x2, y2)
  }

  /** At most one slot the loops reach holds an entry naming inode n. */
  ghost predicate NamedOnce(dir: seq<DirEntry>, blocks: seq<U32>, n: U32)
    requires WellFormedDir(dir) && BlockPointers(blocks)
  {
    forall x: nat, y: nat, x2: nat, y2: nat ::
      y < ENTRIES_PER_BLOCK && Reachable(blocks, x) && y2 < ENTRIES_PER_BLOCK && Reachable(blocks, x2) &&
      dir[Slot(blocks, x, y)].inodeNum == n && dir[Slot(blocks, x2, y2)].inodeNum == n ==>
        Slot(blocks, x, y) == Slot(blocks, x2, y2)
  }

  /** After fs_delete_file removes a name, fs_find_file no longer finds it, provided the
      name matched one entry only and that entry was the only one naming its inode. */
  lemma DeleteThenFind(s: FsState, f: seq<Byte>, n: U32)
    requires WellFormed(s) && |f| >= MAX_FILENAME
    requires Find(s, Some(f)) == Some(n) && n < s.meta.sb.totalInodes
    requires MatchedOnce(s.dir, s.meta.inodes[0].blocks, f) && NamedOnce(s.dir, s.meta.inodes[0].blocks, n)
    ensures Find(DeleteIn(s, Some(f)).0, Some(f)) == None
  {
    var blocks := s.meta.inodes[0].blocks;
    var r := DeleteIn(s, Some(f)).0;
    FindMeaning(s, f);
    var x: nat, y: nat :| y < ENTRIES_PER_BLOCK && Reachable(blocks, x) && Hit(s.dir[Slot(blocks, x, y)], f) &&
                          s.dir[Slot(blocks, x, y)].inodeNum == n;
    DeleteUnlinks(s, f, n);
    DeleteReleases(s, f, n);
    var a: nat, c: nat :| FirstNaming(s.dir, blocks, n, a, c) &&
      r.dir == s.dir[Slot(blocks, a, c) := s.dir[Slot(blocks, a, c)].(inodeNum := 0)];
    var k := Slot(blocks, a, c);
    assert k == Slot(blocks, x, y);
    assert r.meta.inodes[0].blocks == blocks && RootIsDirectory(r.meta);
    forall x2: nat, y2: nat | y2 < ENTRIES_PER_BLOCK && Reachable(blocks, x2)
      ensures !Hit(r.dir[Slot(blocks, x2, y2)], f)
    {
      if Hit(s.dir[Slot(blocks, x2, y2)], f) {
        assert Slot(blocks, x2, y2) == k;
      }
    }
    FindMeaning(r, f);
  }

  /** fs_get_file_size: fs_init first if needed; the size (as an int) of the file the name
      finds, -1 when it is not found. */
  function FileSize(s: FsState, f: Option<seq<Byte>>): (r: (FsState, I32))
    requires WellFormed(s) && (f.Some? ==> |f.value| >= MAX_FILENAME)
    ensures r.0 == Init(s)
    ensures Find(r.0, f).None? ==> r.1 == -1
    ensures Find(r.0, f).Some? && Find(r.0, f).value < r.0.meta.sb.totalInodes ==>
      r.1 == ToInt32(r.0.meta.inodes[Find(r.0, f).value].size)
  {
    var s1 := Init(s);
    match Find(s1, f)
    case None => (s1, -1)
    case Some(n) => if n >= s1.meta.sb.totalInodes then (s1, -1) else (s1, ToInt32(s1.meta.inodes[n].size))
  }

  /** Where the directory loops stop: at the first zero pointer among the root's direct
      blocks, or after all twelve. */
  function Stop(blocks: seq<U32>): (r: nat)
    requires |blocks| == DIRECT_BLOCKS
    ensures r <= DIRECT_BLOCKS && (r < DIRECT_BLOCKS ==> blocks[r] == 0)
    ensures forall x :: 0 <= x < r ==> blocks[x] != 0
  {
    match FirstZero(blocks, 0)
    case Some(x) => x
    case None => DIRECT_BLOCKS
  }

  /** Slot (idx, i) is one the directory loops pass on their way: every block pointer before
      it, and its own once the loop is inside block idx, is non-zero. */
  predicate Passed(blocks: seq<U32>, idx: nat, i: nat)
    requires |blocks| == DIRECT_BLOCKS
  {
    idx <= DIRECT_BLOCKS && i <= ENTRIES_PER_BLOCK && (idx == DIRECT_BLOCKS ==> i == 0) &&
    (forall x :: 0 <= x < idx ==> blocks[x] != 0) && (i > 0 ==> blocks[idx] != 0)
  }

  /** The used entries the directory loops have met on reaching slot (idx, i), in loop
      order. */
  function UsedBefore(dir: seq<DirEntry>, blocks: seq<U32>, idx: nat, i: nat): seq<DirEntry>
    requires |dir| == DIR_SLOTS && BlockPointers(blocks)
    requires idx <= DIRECT_BLOCKS && i <= ENTRIES_PER_BLOCK && (idx == DIRECT_BLOCKS ==> i == 0)
    decreases idx, i
  {
    if i == 0 then (if idx == 0 then [] else UsedBefore(dir, blocks, idx - 1, ENTRIES_PER_BLOCK))
    else
      var e := dir[Slot(blocks, idx, i - 1)];
      UsedBefore(dir, blocks, idx, i - 1) + (if e.inodeNum != 0 then [e] else [])
  }

  /** All the used entries the directory loops visit, in loop order. */
  function UsedEntries(dir: seq<DirEntry>, blocks: seq<U32>): seq<DirEntry>
    requires |dir| == DIR_SLOTS && BlockPointers(blocks)
  {
    UsedBefore(dir, blocks, Stop(blocks), 0)
  }

  /** What the loops have met by an earlier slot is a prefix of what they have met by a
      later one. */
  lemma {:induction false} UsedBeforePrefix(dir: seq<DirEntry>, blocks: seq<U32>, idx: nat, i: nat, idx2: nat, i2: nat)
    requires |dir| == DIR_SLOTS && BlockPointers(blocks)
    requires idx <= DIRECT_BLOCKS && i <= ENTRIES_PER_BLOCK && (idx == DIRECT_BLOCKS ==> i == 0)
    requires idx2 <= DIRECT_BLOCKS && i2 <= ENTRIES_PER_BLOCK && (idx2 == DIRECT_BLOCKS ==> i2 == 0)
    requires NotBefore(idx2, i2, idx, i)
    ensures |UsedBefore(dir, blocks, idx, i)| <= |UsedBefore(dir, blocks, idx2, i2)|
    ensures forall j :: 0 <= j < |UsedBefore(dir, blocks, idx, i)| ==>
      UsedBefore(dir, blocks, idx, i)[j] == UsedBefore(dir, blocks, idx2, i2)[j]
    decreases idx2, i2
  {
    if idx2 == idx && i2 == i {
    } else if i2 > 0 {
      UsedBeforePrefix(dir, blocks, idx, i, idx2, i2 - 1);
    } else {
      UsedBeforePrefix(dir, blocks, idx, i, idx2 - 1, ENTRIES_PER_BLOCK);
    }
  }

  /** When the listing loops end, at slot (px, pi) with count entries copied, they have
      copied the first max used entries, or all of them when there are fewer. */
  lemma ListingDone(dir: seq<DirEntry>, blocks: seq<U32>, idx: nat, px: nat, pi: nat, count: nat, max: nat)
    requires |dir| == DIR_SLOTS && BlockPointers(blocks) && Passed(blocks, px, pi)
    requires idx <= DIRECT_BLOCKS && forall x :: 0 <= x < idx ==> blocks[x] != 0
    requires idx == DIRECT_BLOCKS || blocks[idx] == 0 || count >= max
    requires count <= max && (count < max ==> px == idx && pi == 0)
    requires count == |UsedBefore(dir, blocks, px, pi)|
    ensures var used := UsedEntries(dir, blocks);
      count == (if max < |used| then max else |used|) &&
      forall j :: 0 <= j < count ==> UsedBefore(dir, blocks, px, pi)[j] == used[j]
  {
    if count < max {
      assert Stop(blocks) == idx;
    } else {
      UsedBeforePrefix(dir, blocks, px, pi, Stop(blocks), 0);
    }
  }

  /** The loops meet at most twelve entries in each block they pass. */
  lemma {:induction false} UsedBeforeBound(dir: seq<DirEntry>, blocks: seq<U32>, idx: nat, i: nat)
    requires |dir| == DIR_SLOTS && BlockPointers(blocks)
    requires idx <= DIRECT_BLOCKS && i <= ENTRIES_PER_BLOCK && (idx == DIRECT_BLOCKS ==> i == 0)
    ensures |UsedBefore(dir, blocks, idx, i)| <= idx * ENTRIES_PER_BLOCK + i
    decreases idx, i
  {
    if i > 0 {
      UsedBeforeBound(dir, blocks, idx, i - 1);
    } else if idx > 0 {
      UsedBeforeBound(dir, blocks, idx - 1, ENTRIES_PER_BLOCK);
    }
  }

  /** Every entry the loops collect is a used, well-formed entry. */
  lemma {:induction false} UsedBeforeUsed(dir: seq<DirEntry>, blocks: seq<U32>, idx: nat, i: nat)
    requires WellFormedDir(dir) && BlockPointers(blocks)
    requires idx <= DIRECT_BLOCKS && i <= ENTRIES_PER_BLOCK && (idx == DIRECT_BLOCKS ==> i == 0)
    ensures forall e :: e in UsedBefore(dir, blocks, idx, i) ==> e.inodeNum != 0 && WellFormedEntry(e)
    decreases idx, i
  {
    if i > 0 {
      UsedBeforeUsed(dir, blocks, idx, i - 1);
    } else if idx > 0 {
      UsedBeforeUsed(dir, blocks, idx - 1, ENTRIES_PER_BLOCK);
    }
  }

  /** Every used entry in a slot the loops pass before (idx, i) is among the entries they
      have met. */
  lemma {:induction false} UsedBeforeHas(dir: seq<DirEntry>, blocks: seq<U32>, idx: nat, i: nat, x: nat, y: nat)
    requires |dir| == DIR_SLOTS && BlockPointers(blocks)
    requires idx <= DIRECT_BLOCKS && i <= ENTRIES_PER_BLOCK && (idx == DIRECT_BLOCKS ==> i == 0)
    requires y < ENTRIES_PER_BLOCK && Reachable(blocks, x) && !NotBefore(x, y, idx, i)
    requires dir[Slot(blocks, x, y)].inodeNum != 0
    ensures dir[Slot(blocks, x, y)] in UsedBefore(dir, blocks, idx, i)
    decreases idx, i
  {
    if i == 0 {
      UsedBeforeHas(dir, blocks, idx - 1, ENTRIES_PER_BLOCK, x, y);
    } else if x != idx || y != i - 1 {
      UsedBeforeHas(dir, blocks, idx, i - 1, x, y);
    }
  }

  /** The listing of an initialized file system: -1 when the root is not a directory;
      otherwise the first max used entries of the root, in loop order, and their number. */
  function ListIn(s: FsState, max: U32): (r: (int, seq<DirEntry>))
    requires WellFormed(s)
  {
    if !RootIsDirectory(s.meta) then (-1, [])
    else
      var used := UsedEntries(s.dir, s.meta.inodes[0].blocks);
      var count := if max < |used| then max else |used|;
      (count, used[..count])
  }

  /** fs_list_directory: fs_init first if needed, then the listing. */
  function List(s: FsState, max: U32): (r: (FsState, int, seq<DirEntry>))
    requires WellFormed(s)
  {
    var s1 := Init(s);
    var (count, listed) := ListIn(s1, max);
    (s1, count, listed)
  }

  /** The listing fails exactly when the root is not a directory; otherwise it holds at
      most max entries and at most the twelve direct blocks' worth, every one of them a
      used entry, and it is a prefix of the root's used entries in loop order. */
  lemma ListProperties(s: FsState, max: U32)
    requires WellFormed(s)
    ensures var r := List(s, max);
      r.0 == Init(s) &&
      (r.1 == -1 <==> !RootIsDirectory(r.0.meta)) &&
      (r.1 != -1 ==> 0 <= r.1 == |r.2| <= max && r.1 <= DIRECT_BLOCKS * ENTRIES_PER_BLOCK) &&
      (forall e :: e in r.2 ==> e.inodeNum != 0 && WellFormedEntry(e)) &&
      (r.1 != -1 ==> var used := UsedEntries(r.0.dir, r.0.meta.inodes[0].blocks);
         r.1 == (if max < |used| then max else |used|) && r.2 == used[..r.1])
  {
    var s1 := Init(s);
    if RootIsDirectory(s1.meta) {
      var blocks := s1.meta.inodes[0].blocks;
      UsedBeforeUsed(s1.dir, blocks, Stop(blocks), 0);
      UsedBeforeBound(s1.dir, blocks, Stop(blocks), 0);
      var used := UsedEntries(s1.dir, blocks);
      var count := if max < |used| then max else |used|;
      assert forall e :: e in used[..count] ==> e in used;
    }
  }

  /** A listing that max does not cut short shows every used entry the loops reach. */
  lemma ListShowsAll(s: FsState, max: U32, x: nat, y: nat)
    requires WellFormed(s) && RootIsDirectory(Init(s).meta)
    requires var s1 := Init(s); var blocks := s1.meta.inodes[0].blocks;
      y < ENTRIES_PER_BLOCK && Reachable(blocks, x) && s1.dir[Slot(blocks, x, y)].inodeNum != 0 &&
      |UsedEntries(s1.dir, blocks)| <= max
    ensures var s1 := Init(s); s1.dir[Slot(s1.meta.inodes[0].blocks, x, y)] in List(s, max).2
  {
    var s1 := Init(s);
    var blocks := s1.meta.inodes[0].blocks;
    assert x < Stop(blocks);
    UsedBeforeHas(s1.dir, blocks, Stop(blocks), 0, x, y);
    var used := UsedEntries(s1.dir, blocks);
    assert used[..|used|] == used;
  }
}
