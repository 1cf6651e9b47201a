/** The descriptor layer of fs/file.c as it really is: global_file_table and the
    descriptor table of a process are arrays updated in place, and the calls go through
    the FileSystem object of module FsImpl. Each method is proved to leave the state the
    function of the same call in module File describes. */
module FileImpl {
  import opened CTypes
  import opened Fs
  import opened FsImpl
  import opened File

  /** A process, as far as the file calls see it: its descriptor table. */
  class Process {
    const fds: array<FdEntry>

    constructor ()
      ensures fresh(fds) && WellFormedFds(fds[..])
      ensures forall i :: 0 <= i < MAX_PROCESS_FD ==> !fds[i].isOpen
    {
      fds := new FdEntry[MAX_PROCESS_FD](_ => FdEntry(false, 0));
    }
  }

  class OpenFiles {
    const fs: FileSystem
    /** global_file_table. */
    const table: array<GlobalEntry>
    /** The `initialized` flag of init_global_table. */
    var tableReady: bool

    /** The objects of the file system. */
    ghost function FsFrame(): set<object>
      reads this, fs
    {
      {fs, fs.blockUsed, fs.inodeUsed, fs.inodes, fs.dir, fs.storage}
    }

    ghost function View(): Files
      reads this, fs, fs.blockUsed, fs.inodeUsed, fs.inodes, fs.dir, fs.storage, table
    {
      Files(fs.State(), table[..], tableReady)
    }

    ghost predicate Valid()
      reads this, fs, fs.blockUsed, fs.inodeUsed, fs.inodes, fs.dir, fs.storage, table
    {
      fs.Valid() && table.Length == MAX_OPEN_FILES
    }

    /** The table at boot: zero, like every static variable. */
    constructor (fs: FileSystem)
      requires fs.Valid()
      ensures Valid() && this.fs == fs && fresh(table)
      ensures View() == Files(fs.State(), seq(MAX_OPEN_FILES, _ => GlobalEntry(0, 0, 0, 0, false)), false)
    {
      this.fs := fs;
      table := new GlobalEntry[MAX_OPEN_FILES](_ => GlobalEntry(0, 0, 0, 0, false));
      tableReady := false;
      new;
      assert table[..] == seq(MAX_OPEN_FILES, _ => GlobalEntry(0, 0, 0, 0, false));
    }

    /** ensure_fs_initialized: fs_init when the file system is not ready. */
    method EnsureFsInitialized()
      requires Valid()
      modifies FsFrame()
      ensures Valid() && View() == FsReady(old(View()))
    {
      if !fs.initialized {
        var _ := fs.Init();
      }
    }

    /** init_global_table. */
    method InitGlobalTable()
      requires Valid()
      modifies this`tableReady, table
      ensures Valid() && View() == TableReady(old(View()))
    {
      if tableReady {
        return;
      }
      for i := 0 to MAX_OPEN_FILES
        invariant forall j :: 0 <= j < i ==> table[j] == old(table[j]).(inUse := false, refcount := 0)
        invariant forall j :: i <= j < MAX_OPEN_FILES ==> table[j] == old(table[j])
      {
        table[i] := table[i].(inUse := false, refcount := 0);
      }
      tableReady := true;
    }

    /** find_free_global_entry. */
    method FindFreeGlobalEntry() returns (g: int)
      requires Valid()
      ensures g == FirstFreeEntry(table[..])
    {
      for i := 0 to MAX_OPEN_FILES
        invariant forall j :: 0 <= j < i ==> table[j].inUse
      {
        if !table[i].inUse {
          return i;
        }
      }
      return -1;
    }

    /** find_free_fd. */
    static method FindFreeFd(proc: Process) returns (fd: int)
      requires WellFormedFds(proc.fds[..])
      ensures fd == FirstFreeFd(proc.fds[..])
    {
      for i := 0 to MAX_PROCESS_FD
        invariant forall j :: 0 <= j < i ==> proc.fds[j].isOpen
      {
        if !proc.fds[i].isOpen {
          return i;
        }
      }
      return -1;
    }

    /** Lines 57-63 of file_open: find the name, or create it and find it again. */
    method LookUp(f: seq<Byte>, flags: U32) returns (found: Option<U32>)
      requires Valid() && |f| >= MAX_FILENAME
      modifies FsFrame()
      ensures Valid() && (View(), found) == Lookup(old(View()), f, flags)
    {
      found := fs.FindFile(Some(f));
      if found.None? && HasFlag(flags, O_CREAT) {
        var c := fs.CreateFile(Some(f), FILE_TYPE_REGULAR);
        if c != 0 {
          return None;
        }
        found := fs.FindFile(Some(f));
      }
    }

    /** One turn of the O_TRUNC loop of file_open: pointer j of inode n freed and zeroed. */
    method ReleaseAt(n: nat, j: nat)
      requires Valid() && n < MAX_FILES && j < DIRECT_BLOCKS
      modifies fs`sb, fs.blockUsed, fs.inodes
      ensures Valid() && fs.MetaView() == ReleasePointer(old(fs.MetaView()), n, j)
    {
      var b := fs.inodes[n].blocks[j];
      if b != 0 {
        fs.FreeBlock(b);
        var cur := fs.inodes[n];
        fs.inodes[n] := cur.(blocks := cur.blocks[j := 0]);
      }
    }

    /** The loop of the O_TRUNC branch of file_open: every direct pointer of inode n freed
        and zeroed. */
    method ReleaseAll(n: nat)
      requires Valid() && n < MAX_FILES
      modifies fs`sb, fs.blockUsed, fs.inodes
      ensures Valid() && fs.MetaView() == ReleasedUpTo(old(fs.MetaView()), n, DIRECT_BLOCKS)
    {
      ghost var m1 := fs.MetaView();
      for i := 0 to DIRECT_BLOCKS
        invariant Valid() && fs.MetaView() == ReleasedUpTo(m1, n, i)
      {
        ReleaseAt(n, i);
      }
    }

    /** The O_TRUNC branch of file_open, through the inode's pointer into the table. */
    method TruncateInode(n: U32)
      requires Valid() && n < MAX_FILES
      modifies fs`sb, fs.blockUsed, fs.inodes
      ensures Valid() && fs.MetaView() == Truncate(old(fs.MetaView()), n)
    {
      var ino := fs.inodes[n];
      fs.inodes[n] := ino.(size := 0);
      assert fs.MetaView() == SetInode(old(fs.MetaView()), n, ino.(size := 0));
      ReleaseAll(n);
      var cur := fs.inodes[n];
      if cur.indirect != 0 {
        fs.FreeBlock(cur.indirect);
        fs.inodes[n] := cur.(indirect := 0);
      }
    }

    /** file_open from the moment entry g and inode n are known. */
    method OpenAtEntry(proc: Process, n: U32, g: int, flags: U32) returns (fd: int)
      requires Valid() && WellFormedFds(proc.fds[..]) && 0 <= g < MAX_OPEN_FILES && n < fs.sb.totalInodes
      modifies table, proc.fds, fs`sb, fs.blockUsed, fs.inodes
      ensures Valid()
      ensures (View(), proc.fds[..], fd) == OpenAt(old(View()), old(proc.fds[..]), n, g, flags)
    {
      var ino := fs.GetInode(n);
      var pos := if HasFlag(flags, O_APPEND) then ino.value.size else 0;
      table[g] := GlobalEntry(n, flags, pos, 1, true);
      assert table[g] == NewGlobalEntry(old(View()), n, flags);
      fd := FindFreeFd(proc);
      if fd < 0 {
        table[g] := table[g].(refcount := 0, inUse := false);
        assert table[..] == old(table[..])[g := NewGlobalEntry(old(View()), n, flags).(refcount := 0, inUse := false)];
        return -1;
      }
      proc.fds[fd] := FdEntry(true, g);
      if HasFlag(flags, O_TRUNC) {
        TruncateInode(n);
      }
    }

    /** file_open. */
    method Open(proc: Process?, f: Option<seq<Byte>>, flags: U32) returns (fd: int)
      requires Valid() && (proc != null ==> WellFormedFds(proc.fds[..]))
      requires f.Some? ==> |f.value| >= MAX_FILENAME
      modifies this`tableReady, table, FsFrame(), if proc != null then {proc.fds} else {}
      ensures Valid() && (proc != null ==> WellFormedFds(proc.fds[..]))
      ensures proc == null || f.None? ==> View() == old(View()) && fd == -1
      ensures proc != null && f.Some? ==>
        (View(), proc.fds[..], fd) == File.Open(old(View()), old(proc.fds[..]), f.value, flags)
    {
      if proc == null || f.None? {
        return -1;
      }
      EnsureFsInitialized();
      InitGlobalTable();
      fd := OpenAfterInit(proc, f.value, flags);
    }

    /** file_open once the file system and the table are ready, for a process and a
        name. */
    method OpenAfterInit(proc: Process, f: seq<Byte>, flags: U32) returns (fd: int)
      requires Valid() && WellFormedFds(proc.fds[..]) && |f| >= MAX_FILENAME
      modifies table, FsFrame(), proc.fds
      ensures Valid() && WellFormedFds(proc.fds[..])
      ensures (View(), proc.fds[..], fd) == OpenReady(old(View()), old(proc.fds[..]), f, flags)
    {
      var found := LookUp(f, flags);
      if found.None? {
        return -1;
      }
      var g := FindFreeGlobalEntry();
      if g < 0 {
        return -1;
      }
      var ino := fs.GetInode(found.value);
      if ino.None? {
        return -1;
      }
      fd := OpenAtEntry(proc, found.value, g, flags);
    }

    /** file_close. */
    method Close(proc: Process?, fd: int) returns (r: int)
      requires Valid() && (proc != null ==> WellFormedFds(proc.fds[..]))
      modifies table, if proc != null then {proc.fds} else {}
      ensures Valid() && (proc != null ==> WellFormedFds(proc.fds[..]))
      ensures proc == null ==> View() == old(View()) && r == -1
      ensures proc != null ==> (View(), proc.fds[..], r) == File.Close(old(View()), old(proc.fds[..]), fd)
    {
      if proc == null || fd < 0 || fd >= MAX_PROCESS_FD || !proc.fds[fd].isOpen {
        return -1;
      }
      var g := proc.fds[fd].globalIndex;
      proc.fds[fd] := proc.fds[fd].(isOpen := false);
      ghost var e := table[g];
      var rc := table[g].refcount - 1;
      table[g] := table[g].(refcount := rc);
      if rc == 0 {
        table[g] := table[g].(inUse := false);
      }
      assert table[..] == old(table[..])[g := e.(refcount := rc, inUse := if rc == 0 then false else e.inUse)];
      return 0;
    }

    /** One turn of the loop of file_read: len bytes from position p, all in one block,
        into buffer[at..], zeros for a hole or a position past the direct blocks. */
    method ReadChunk(buffer: array<Byte>, at: nat, p: U32, len: nat, n: nat)
      requires Valid() && n < MAX_FILES && buffer != fs.storage
      requires at + len <= buffer.Length && p % BLOCK_SIZE + len <= BLOCK_SIZE
      modifies buffer
      ensures forall k :: at <= k < at + len ==>
        buffer[k] == FileByte(fs.storage[..], fs.inodes[n].blocks, p + (k - at))
      ensures forall k :: 0 <= k < buffer.Length && !(at <= k < at + len) ==> buffer[k] == old(buffer[k])
    {
      var bi := p / BLOCK_SIZE;
      var off := p % BLOCK_SIZE;
      var b := if bi < DIRECT_BLOCKS then fs.inodes[n].blocks[bi] else 0;
      for i := 0 to len
        invariant forall k :: at <= k < at + i ==>
          buffer[k] == FileByte(fs.storage[..], fs.inodes[n].blocks, p + (k - at))
        invariant forall k :: 0 <= k < buffer.Length && !(at <= k < at + i) ==> buffer[k] == old(buffer[k])
      {
        InChunk(p, p + i);
        if b == 0 {
          buffer[at + i] := 0;
        } else {
          buffer[at + i] := fs.storage[b * BLOCK_SIZE + off + i];
        }
      }
    }

    /** The loop of file_read: count bytes of inode n from the uint32 position pos into
        buffer, answering the position after them. */
    method ReadLoop(buffer: array<Byte>, n: nat, pos: U32, count: U32) returns (p: U32)
      requires Valid() && n < MAX_FILES && buffer != fs.storage && count <= buffer.Length
      modifies buffer
      ensures p == (pos + count) % U32_LIMIT
      ensures forall k :: 0 <= k < count ==>
        buffer[k] == FileByte(fs.storage[..], fs.inodes[n].blocks, (pos + k) % U32_LIMIT)
      ensures forall k :: count <= k < buffer.Length ==> buffer[k] == old(buffer[k])
    {
      ghost var storage := fs.storage[..];
      ghost var blocks := fs.inodes[n].blocks;
      var done := 0;
      p := pos;
      while done < count
        invariant done <= count && p == (pos + done) % U32_LIMIT
        invariant forall k :: 0 <= k < done ==> buffer[k] == FileByte(storage, blocks, (pos + k) % U32_LIMIT)
        invariant forall k :: done <= k < buffer.Length ==> buffer[k] == old(buffer[k])
        modifies buffer
      {
        var len := BLOCK_SIZE - p % BLOCK_SIZE;
        if len > count - done {
          len := count - done;
        }
        ReadChunk(buffer, done, p, len, n);
        forall k | done <= k < done + len
          ensures buffer[k] == FileByte(storage, blocks, (pos + k) % U32_LIMIT)
        {
          WrapInChunk(pos, done, k - done);
        }
        AdvanceInChunk(pos, done, len);
        done := done + len;
        p := Add32(p, len);
      }
    }

    /** file_read once entry g is known to name a readable inode whose size lies past
        the position. */
    method ReadEntry(buffer: array<Byte>, g: nat, count: U32) returns (r: int)
      requires Valid() && g < MAX_OPEN_FILES && buffer != fs.storage && count <= buffer.Length
      requires table[g].inodeNum < fs.sb.totalInodes && table[g].position < fs.inodes[table[g].inodeNum].size
      modifies buffer, table
      ensures Valid()
      ensures var e := old(table[g]);
        var n := ReadCount(e.position, fs.inodes[e.inodeNum].size, count);
        table[..] == old(table[..])[g := e.(position := Add32(e.position, n))] && r == ToInt32(n) &&
        buffer[..n] == FileBytes(fs.State(), e.inodeNum, e.position, n) && buffer[n..] == old(buffer[n..])
    {
      var e := table[g];
      var size := fs.inodes[e.inodeNum].size;
      var n := count;
      if Add32(e.position, count) > size {
        n := size - e.position;
      }
      var p := ReadLoop(buffer, e.inodeNum, e.position, n);
      Add32IsMod(e.position, n);
      table[g] := e.(position := p);
      assert buffer[..n] == FileBytes(fs.State(), e.inodeNum, e.position, n);
      return ToInt32(n);
    }

    /** file_read. */
    method Read(proc: Process?, fd: int, buffer: array?<Byte>, count: U32) returns (r: int)
      requires Valid() && (proc != null ==> WellFormedFds(proc.fds[..]))
      requires buffer != null ==> count <= buffer.Length && buffer != fs.storage
      modifies FsFrame(), table, if buffer != null then {buffer} else {}
      ensures Valid()
      ensures proc == null || buffer == null ==> View() == FsReady(old(View())) && r == -1
      ensures proc != null && buffer != null ==>
        var x := File.Read(old(View()), proc.fds[..], fd, count);
        View() == x.0 && r == x.2 &&
        buffer[..|x.1|] == x.1 && buffer[|x.1|..] == old(buffer[|x.1|..])
    {
      EnsureFsInitialized();
      if proc == null || fd < 0 || fd >= MAX_PROCESS_FD || !proc.fds[fd].isOpen || buffer == null {
        return -1;
      }
      var g := proc.fds[fd].globalIndex;
      var e := table[g];
      if !HasFlag(e.flags, O_RDONLY) && !HasFlag(e.flags, O_RDWR) {
        return -1;
      }
      var ino := fs.GetInode(e.inodeNum);
      if ino.None? {
        return -1;
      }
      if e.position >= ino.value.size {
        return 0;
      }
      r := ReadEntry(buffer, g, count);
    }

    /** Block b of the disk set to zero. */
    method ZeroBlockAt(b: nat)
      requires Valid() && b < MAX_BLOCKS
      modifies fs.storage
      ensures fs.storage[..] == ZeroBlock(old(fs.storage[..]), b)
    {
      for i := 0 to BLOCK_SIZE
        invariant forall j :: 0 <= j < fs.storage.Length ==>
          fs.storage[j] == if b * BLOCK_SIZE <= j < b * BLOCK_SIZE + i then NUL else old(fs.storage[j])
      {
        fs.storage[b * BLOCK_SIZE + i] := 0;
      }
    }

    /** buffer[from..from + len) copied to the disk at start. */
    method CopyIn(start: nat, buffer: array<Byte>, from: nat, len: nat, count: nat)
      requires Valid() && buffer != fs.storage
      requires start + len <= fs.storage.Length && from + len <= count <= buffer.Length
      modifies fs.storage
      ensures Valid() && fs.State() == old(fs.State()).(storage := Put(old(fs.State()).storage, start, buffer[..count], from, len))
    {
      for i := 0 to len
        invariant forall j :: 0 <= j < fs.storage.Length ==>
          fs.storage[j] == if start <= j < start + i then buffer[from + (j - start)] else old(fs.storage[j])
      {
        fs.storage[start + i] := buffer[from + i];
      }
    }

    /** The hole at direct pointer bi of inode n filled: a block allocated, recorded in
        the inode and zeroed; 0 and only the allocation's effect when the disk is full. */
    method FillHole(n: nat, bi: nat) returns (b: U32)
      requires Valid() && n < MAX_FILES && bi < DIRECT_BLOCKS
      modifies fs`sb, fs.blockUsed, fs.inodes, fs.storage
      ensures Valid()
      ensures var (m1, b1) := AllocBlock(old(fs.MetaView()));
        var ino := old(fs.inodes[n]);
        b == b1 &&
        (b == 0 ==> fs.State() == old(fs.State()).(meta := m1)) &&
        (b != 0 ==> fs.State() == old(fs.State()).(meta := SetInode(m1, n, ino.(blocks := ino.blocks[bi := b])),
                                                   storage := ZeroBlock(old(fs.storage[..]), b)))
    {
      b := fs.AllocateBlock();
      if b == 0 {
        return 0;
      }
      var ino := fs.inodes[n];
      fs.inodes[n] := ino.(blocks := ino.blocks[bi := b]);
      ZeroBlockAt(b);
    }

    /** A turn of the loop of file_write at a hole: the hole filled, then the chunk
        copied into the new block; a stop when no block can be allocated. */
    method FillAndCopyIn(n: nat, p: U32, buffer: array<Byte>, done: nat, count: nat) returns (stop: bool, len: nat)
      requires Valid() && n < MAX_FILES && buffer != fs.storage && done < count <= buffer.Length
      requires p / BLOCK_SIZE < DIRECT_BLOCKS && fs.inodes[n].blocks[p / BLOCK_SIZE] == 0
      modifies fs`sb, fs.blockUsed, fs.inodes, fs.storage
      ensures Valid()
      ensures WriteChunk(old(fs.State()), n, p, buffer[..count], done) ==
        if stop then Halted(fs.State()) else Copied(fs.State(), len)
    {
      len := ChunkLength(p, count - done);
      var b := FillHole(n, p / BLOCK_SIZE);
      if b == 0 {
        return true, 0;
      }
      CopyIn(b * BLOCK_SIZE + p % BLOCK_SIZE, buffer, done, len, count);
      return false, len;
    }

    /** A turn of the loop of file_write into a block the inode already has. */
    method CopyInPlace(n: nat, p: U32, buffer: array<Byte>, done: nat, count: nat) returns (len: nat)
      requires Valid() && n < MAX_FILES && buffer != fs.storage && done < count <= buffer.Length
      requires p / BLOCK_SIZE < DIRECT_BLOCKS && fs.inodes[n].blocks[p / BLOCK_SIZE] != 0
      modifies fs.storage
      ensures Valid()
      ensures WriteChunk(old(fs.State()), n, p, buffer[..count], done) == Copied(fs.State(), len)
    {
      len := ChunkLength(p, count - done);
      CopyIn(fs.inodes[n].blocks[p / BLOCK_SIZE] * BLOCK_SIZE + p % BLOCK_SIZE, buffer, done, len, count);
    }

    /** One turn of the loop of file_write for inode n at position p with done of the
        count bytes of buffer written. */
    method WriteStep(n: nat, p: U32, buffer: array<Byte>, done: nat, count: nat) returns (stop: bool, len: nat)
      requires Valid() && n < MAX_FILES && buffer != fs.storage && done < count <= buffer.Length
      modifies fs`sb, fs.blockUsed, fs.inodes, fs.storage
      ensures Valid()
      ensures WriteChunk(old(fs.State()), n, p, buffer[..count], done) ==
        if stop then Halted(fs.State()) else Copied(fs.State(), len)
    {
      var bi := p / BLOCK_SIZE;
      if bi >= DIRECT_BLOCKS {
        return true, 0;
      }
      if fs.inodes[n].blocks[bi] == 0 {
        stop, len := FillAndCopyIn(n, p, buffer, done, count);
      } else {
        len := CopyInPlace(n, p, buffer, done, count);
        stop := false;
      }
    }

    /** The loop of file_write for inode n from the uint32 position pos: the bytes
        written and the final position. */
    method WriteLoop(n: nat, pos: U32, buffer: array<Byte>, count: nat) returns (written: nat, p: U32)
      requires Valid() && n < MAX_FILES && buffer != fs.storage && count <= buffer.Length
      modifies fs`sb, fs.blockUsed, fs.inodes, fs.storage
      ensures Valid()
      ensures (fs.State(), written, p) == WriteChunks(old(fs.State()), n, pos, buffer[..count], 0)
    {
      ghost var data := buffer[..count];
      ghost var outcome := Turns(fs.State(), n, pos, data, 0);
      p := pos;
      written := 0;
      var stop := false;
      while written < count && !stop
        invariant fs.Valid() && written <= count
        invariant !stop ==> outcome == Turns(fs.State(), n, p, data, written)
        invariant stop ==> (fs.State(), written, p) == outcome
        decreases count - written, !stop
      {
        ghost var s := fs.State();
        ghost var p0, w0 := p, written;
        var len;
        stop, len := WriteStep(n, p, buffer, written, count);
        assert buffer[..count] == data;
        if stop {
          TurnsEnd(s, fs.State(), n, p, data, written);
        } else {
          written := written + len;
          p := p + len;
          TurnsOnWith(s, fs.State(), n, p0, len, data, w0, p, written, outcome);
        }
      }
    }

    /** file_write once entry g is known to name a writable inode: the loop, the size
        update and the new position. */
    method WriteEntry(buffer: array<Byte>, g: nat, count: U32) returns (r: int)
      requires Valid() && g < MAX_OPEN_FILES && buffer != fs.storage && count <= buffer.Length
      requires table[g].inodeNum < fs.sb.totalInodes
      modifies fs`sb, fs.blockUsed, fs.inodes, fs.storage, table
      ensures Valid()
      ensures var s := old(View()); var e := s.table[g];
        var o := WriteOutcome(s, e.inodeNum, e.position, buffer[..count]);
        View() == s.(fs := o.0, table := s.table[g := e.(position := o.2)]) && r == o.1
    {
      var e := table[g];
      var written, p := WriteLoop(e.inodeNum, e.position, buffer, count);
      var cur := fs.inodes[e.inodeNum];
      if p > cur.size {
        fs.inodes[e.inodeNum] := cur.(size := p);
      }
      table[g] := e.(position := p);
      return written;
    }

    /** file_write. */
    method Write(proc: Process?, fd: int, buffer: array?<Byte>, count: U32) returns (r: int)
      requires Valid() && (proc != null ==> WellFormedFds(proc.fds[..]))
      requires buffer != null ==> count <= buffer.Length && buffer != fs.storage
      modifies FsFrame(), table
      ensures Valid()
      ensures proc == null || buffer == null ==> View() == FsReady(old(View())) && r == -1
      ensures proc != null && buffer != null ==>
        (View(), r) == File.Write(old(View()), proc.fds[..], fd, buffer[..count])
    {
      EnsureFsInitialized();
      if proc == null || buffer == null {
        return -1;
      }
      r := WriteAfterInit(proc, fd, buffer, count);
    }

    /** file_write once the file system is ready, for a process and a buffer. */
    method WriteAfterInit(proc: Process, fd: int, buffer: array<Byte>, count: U32) returns (r: int)
      requires Valid() && WellFormedFds(proc.fds[..]) && count <= buffer.Length && buffer != fs.storage
      modifies fs`sb, fs.blockUsed, fs.inodes, fs.storage, table
      ensures Valid()
      ensures (View(), r) == WriteReady(old(View()), proc.fds[..], fd, buffer[..count])
    {
      if fd < 0 || fd >= MAX_PROCESS_FD || !proc.fds[fd].isOpen {
        return -1;
      }
      r := WriteTo(proc.fds[fd].globalIndex, buffer, count);
    }

    /** file_write through global entry g: the permission and inode checks, then the
        write. */
    method WriteTo(g: nat, buffer: array<Byte>, count: U32) returns (r: int)
      requires Valid() && g < MAX_OPEN_FILES && count <= buffer.Length && buffer != fs.storage
      modifies fs`sb, fs.blockUsed, fs.inodes, fs.storage, table
      ensures Valid()
      ensures (View(), r) == File.WriteTo(old(View()), g, buffer[..count])
    {
      var e := table[g];
      if !HasFlag(e.flags, O_WRONLY) && !HasFlag(e.flags, O_RDWR) {
        return -1;
      }
      var ino := fs.GetInode(e.inodeNum);
      if ino.None? {
        return -1;
      }
      r := WriteEntry(buffer, g, count);
    }

    /** file_seek. */
    method Seek(proc: Process?, fd: int, offset: U32, whence: int) returns (r: int)
      requires Valid() && (proc != null ==> WellFormedFds(proc.fds[..]))
      modifies FsFrame(), table
      ensures Valid()
      ensures proc == null ==> View() == FsReady(old(View())) && r == -1
      ensures proc != null ==> (View(), r) == File.Seek(old(View()), proc.fds[..], fd, offset, whence)
    {
      EnsureFsInitialized();
      if proc == null || fd < 0 || fd >= MAX_PROCESS_FD || !proc.fds[fd].isOpen {
        return -1;
      }
      var g := proc.fds[fd].globalIndex;
      var e := table[g];
      var ino := fs.GetInode(e.inodeNum);
      if ino.None? {
        return -1;
      }
      var newPos: U32;
      if whence == SEEK_SET {
        newPos := offset;
      } else if whence == SEEK_CUR {
        newPos := Add32(e.position, offset);
      } else if whence == SEEK_END {
        newPos := Add32(ino.value.size, offset);
      } else {
        return -1;
      }
      table[g] := e.(position := newPos);
      return ToInt32(newPos);
    }

    /** file_tell. */
    method Tell(proc: Process?, fd: int) returns (r: int)
      requires Valid() && (proc != null ==> WellFormedFds(proc.fds[..]))
      ensures proc == null ==> r == -1
      ensures proc != null ==> r == File.Tell(View(), proc.fds[..], fd)
    {
      if proc == null || fd < 0 || fd >= MAX_PROCESS_FD || !proc.fds[fd].isOpen {
        return -1;
      }
      return ToInt32(table[proc.fds[fd].globalIndex].position);
    }

    /** file_eof. */
    method Eof(proc: Process?, fd: int) returns (r: int)
      requires Valid() && (proc != null ==> WellFormedFds(proc.fds[..]))
      ensures proc == null ==> r == 1
      ensures proc != null ==> r == File.Eof(View(), proc.fds[..], fd)
    {
      if proc == null || fd < 0 || fd >= MAX_PROCESS_FD || !proc.fds[fd].isOpen {
        return 1;
      }
      var e := table[proc.fds[fd].globalIndex];
      var ino := fs.GetInode(e.inodeNum);
      if ino.None? {
        return 1;
      }
      return if e.position >= ino.value.size then 1 else 0;
    }
  }
}
