# A verified model of the os-project kernel's file system, descriptors and libraries

This project models, in Dafny, the parts of a small x86 hobby kernel that are plain
sequential logic:

- **The file system** (`fs/fs.c`). It is an in-memory disk of 1024 blocks of 512 bytes
  with a superblock, a block bitmap, an inode bitmap and 64 inodes. The first-fit
  allocators keep free counters. `fs_format` and `fs_init` set the disk up. A flat root
  directory (inode 0) holds up to 12 blocks of 12 entries, and the directory operations
  are find, create, delete, size and list.
- **The descriptor layer** (`fs/file.c`). It has a global table of open files and a
  descriptor table per process. `file_open`, `file_close`, `file_read`, `file_write`,
  `file_seek`, `file_tell` and `file_eof` run over the twelve direct blocks of an inode.
- **The two string libraries** (`kernel/string.c`, and the NULL-guarded versions in
  `kernel/stdio.c`), the number conversions `itoa`, `uitoa`, `ltoa` and `ultoa`, and the
  `vsnprintf_internal`/`snprintf` formatter.
- **The bounded stack** (`kernel/stack.c`).
- **The VGA text console** (`kernel/vga_color.c`): an 80×25 cell buffer with a cursor.

Every C routine that changes state in place is a Dafny `method` of a class:

| C state | class |
|---|---|
| the file system | `FsImpl.FileSystem` |
| the global file table | `FileImpl.OpenFiles` |
| a process | `FileImpl.Process` |
| a stack | `KStack.Stack` |
| the console | `Vga.Console` |

Loops are modelled as loops, and buffers as arrays. Each method is proved against a pure
function of its old state, for example `FsImpl.FileSystem.CreateFile` against
`Fs.Create`, or `FileImpl.OpenFiles.Write` against `File.Write`. The properties the kernel
relies on are proved as lemmas about those functions.

| file | module | what it holds |
|---|---|---|
| `ctypes.dfy` | `CTypes` | Bytes, `uint32` with its wrap-around written out, and the `int` casts |
| `cstrings.dfy` | `CStrings` | Specification functions over NUL-terminated byte sequences, and digit strings |
| `kstring.dfy` | `KString` | `kernel/string.c` |
| `kstdio.dfy` | `KStdio` | The string, memory and conversion functions of `kernel/stdio.c` |
| `kformat.dfy` | `KFormat` | `vsnprintf_internal` and `snprintf`; `va_list` becomes a sequence of `Arg` values |
| `stack.dfy` | `KStack` | `kernel/stack.c` |
| `vga.dfy` | `Vga` | `kernel/vga_color.c`; a `Screen` value and the `Console` class |
| `fs.dfy` | `Fs` | The file system as functions of an `FsState` value, and their lemmas |
| `fs_impl.dfy` | `FsImpl` | The file system as a class over arrays, proved against `Fs` |
| `file.dfy` | `File` | The descriptor layer as functions of a `Files` value, and their lemmas |
| `file_impl.dfy` | `FileImpl` | The descriptor layer as classes over arrays, proved against `File` |
| `invariant.dfy` | `Invariant` | The invariant every state reachable from boot keeps |

**What the invariant covers.** `Invariant.Sound` holds at boot. Every file system
operation and every descriptor operation keeps it. It says four things:

- the free counters equal the number of clear bits in the bitmaps;
- every block belongs to at most one pointer;
- every directory entry lies in a root block and names an inode in use;
- no inode is named twice.

From it, creating a file and then looking it up finds the new inode, and deleting a file
removes its name.

Where the kernel's headers and its C code differ, the model follows the code:

- The header `include/file.h` declares `file_open` and friends without the process
  argument, and uses a `file_descriptor_t` table. The model follows `fs/file.c`.
- `process_t`, `global_file_entry_t`, `MAX_PROCESS_FD` and `fs_is_ready` are not defined
  in any header. They are declared from their uses in `fs/file.c`.

## Model

| member | source | states |
|---|---|---|
| `CStrings.StrLen` | kernel/string.c:6-12 | the length is the index of the first NUL, and no byte before it is NUL |
| `CStrings.StrLenAt` | kernel/string.c:6-12 | a NUL at n with no NUL before it makes n the length |
| `CStrings.StrOfTerminated` | kernel/string.c:14-20 | text followed by a terminator is the C string of that text, whatever follows |
| `CStrings.Appended` | kernel/string.c:54-62 | a buffer that kept the old text and then got t and a NUL holds the old string followed by t |
| `CStrings.StrOfPrefix` | kernel/string.c:14-20 | two buffers that agree up to the first terminator hold the same string |
| `CStrings.NLen` | kernel/string.c:64-74 | strncat takes at most n bytes, none of them NUL, and stops only at n, at a NUL or at the end |
| `CStrings.NLenOfString` | kernel/string.c:22-31 | for a C string, the bytes taken are strlen capped at n |
| `CStrings.StrNCpyTerminated` | kernel/string.c:22-31 | strncpy writes exactly n bytes; the result is terminated if and only if strlen(src) < n, and then it holds src's string |
| `CStrings.CmpIndex` | kernel/string.c:33-41 | strcmp stops at the first position where the strings differ or the first one ends, and all bytes before it are equal and not NUL |
| `CStrings.StrCmpZeroIff` | kernel/string.c:33-41 | strcmp is 0 if and only if the two strings are equal |
| `CStrings.StrCmpAntisymmetric` | kernel/string.c:33-41 | swapping the arguments negates the result |
| `CStrings.NCmpIndex` | kernel/string.c:43-52 | strncmp stops at the first of n positions where the strings differ or one ends, else at n |
| `CStrings.StrNCmpZeroIff` | kernel/string.c:43-52 | strncmp is 0 if and only if the strings agree on their first n bytes up to a NUL |
| `CStrings.MemCmpIndex` | kernel/string.c:95-105 | memcmp stops at the first of the n positions where the buffers differ |
| `CStrings.MemCmpMeaning` | kernel/string.c:95-105 | memcmp is 0 if and only if the n bytes agree, and negative if and only if the first differing byte of a is smaller |
| `CStrings.Digits` | kernel/string.c:124-161 | the digit string of a value is never empty |
| `CStrings.DigitValueOfChar` | kernel/string.c:146 | a digit character ('0'-'9', 'a'-'z') reads back as its digit |
| `CStrings.FromDigitsSnoc` | kernel/string.c:143-148 | appending digit d to the digits of q reads back as q * base + d |
| `CStrings.DigitRoundTrip` | kernel/string.c:130-135 | a value below the base is one digit that reads back as the value |
| `CStrings.DigitsRoundTripStep` | kernel/string.c:143-148 | the digits of v read back as v once those of v / base read back as v / base |
| `CStrings.DigitsRoundTrip` | kernel/string.c:124-161 | reading back the digits of any value in bases 2 to 36 gives the value |
| `CStrings.DigitsWellFormed` | kernel/string.c:143-148 | every character is a digit of the base, and there is a leading '0' only for the value 0 |
| `CStrings.LsbDigitsStep` | kernel/string.c:143-148 | one turn of the conversion loop emits v % base and goes on with v / base |
| `CStrings.LsbDigitsReversed` | kernel/string.c:155-160 | the digits the loop emits, least significant first, reversed, are the digits |
| `CStrings.ReverseAt` | kernel/string.c:155-160 | position k of the reversal holds position \|s\|-1-k |
| `CStrings.ReverseAppend` | kernel/string.c:150-160 | reversing a + b gives reverse(b) + reverse(a), which puts the '-' first |
| `CStrings.DigitsLength` | kernel/stdio.c:519 | a value below base^k has at most k digits |
| `CStrings.SignedTextRoundTrip` | kernel/string.c:124-161 | the text of a signed value, '-' only for negatives in base 10, reads back as the value |
| `CStrings.SignedTextHasNoNul` | kernel/string.c:124-161 | the text holds no NUL, so the terminator ends it |
| `CStrings.SignedTextIsString` | kernel/string.c:153-154 | a buffer holding the text and a NUL is a C string that reads back as the value |
| `CStrings.ReverseRange` | kernel/string.c:155-160 | the two-pointer loop leaves a[0..n) reversed and nothing else changed |
| `CStrings.WriteLsbDigits` | kernel/string.c:143-148 | the first loop writes the digits least significant first and returns their number |
| `CStrings.WriteDigits` | kernel/string.c:137-160 | the loops leave the sign and digits, most significant first, and a NUL; the rest of the buffer is unchanged |
| `KString.Strlen` | kernel/string.c:6-12 | returns the number of bytes before the first NUL |
| `KString.Strcpy` | kernel/string.c:14-20 | dest holds src up to and including its NUL, so it holds the same string; the rest of dest is unchanged |
| `KString.CopyString` | kernel/string.c:14-20 | src with its NUL lands at dest[at..]; nothing outside changes |
| `KString.Strncpy` | kernel/string.c:22-31 | dest[0..n) is src's text cut to n, then NUL padding; the rest is unchanged |
| `KString.Strcmp` | kernel/string.c:33-41 | returns the unsigned difference at the first mismatch or NUL (0 if and only if equal, by StrCmpZeroIff) |
| `KString.Strncmp` | kernel/string.c:43-52 | returns the strncmp value over at most n positions |
| `KString.Strcat` | kernel/string.c:54-62 | dest holds the old string followed by src's string and a NUL; the tail is unchanged |
| `KString.Strncat` | kernel/string.c:64-74 | dest holds the old string followed by at most n bytes of src, always terminated |
| `KString.CopyBounded` | kernel/string.c:68-72 | the strncat loop copies NLen(src, n) bytes and nothing else |
| `KString.Memcpy` | kernel/string.c:78-85 | dest[0..n) equals src[0..n); the rest is unchanged |
| `KString.Memset` | kernel/string.c:87-93 | n bytes become (unsigned char)c; the rest is unchanged |
| `KString.Memcmp` | kernel/string.c:95-105 | returns the memcmp value (0 if and only if equal, by MemCmpMeaning) |
| `KString.Memmove` | kernel/string.c:107-122 | in one memory, dest[0..n) holds the old src[0..n) even when they overlap; nothing else changes |
| `KString.CopyForward` | kernel/string.c:111-115 | the forward loop is correct whenever dest <= src |
| `KString.CopyBackward` | kernel/string.c:116-120 | the backward loop is correct whenever dest >= src |
| `KString.Itoa` | kernel/string.c:124-161 | the buffer holds the signed digit text and a NUL, and it reads back as the value |
| `KString.Uitoa` | kernel/string.c:163-190 | the buffer holds the digits and a NUL, and it reads back as the value |
| `KStdio.Strlen` | kernel/stdio.c:234-245 | 0 for NULL, else the length |
| `KStdio.Strcpy` | kernel/stdio.c:247-256 | dest unchanged when src is NULL; otherwise the copy of string.c |
| `KStdio.Strncpy` | kernel/stdio.c:258-273 | dest unchanged when src is NULL; otherwise exactly n bytes as StrNCpy |
| `KStdio.Strcmp` | kernel/stdio.c:275-286 | 0 when either is NULL; otherwise strcmp |
| `KStdio.Strncmp` | kernel/stdio.c:288-308 | 0 when either is NULL; otherwise the same value as string.c's strncmp, although the loop differs |
| `KStdio.Strcat` | kernel/stdio.c:310-321 | dest unchanged when src is NULL; otherwise old dest string followed by src |
| `KStdio.Strncat` | kernel/stdio.c:323-339 | dest unchanged when src is NULL; otherwise old dest string followed by at most n bytes of src |
| `KStdio.Strchr` | kernel/stdio.c:341-361 | the first position holding c (compared as a signed char), the terminator's position for c = 0, or NULL exactly when c is absent |
| `KStdio.MatchLength` | kernel/stdio.c:377-386 | the inner walk ends on needle's NUL if and only if needle occurs at i |
| `KStdio.Strstr` | kernel/stdio.c:363-393 | the first position where needle occurs (0 for an empty needle), or NULL exactly when it occurs nowhere |
| `KStdio.Memset` | kernel/stdio.c:399-410 | num bytes become (unsigned char)value; the rest is unchanged |
| `KStdio.Memcpy` | kernel/stdio.c:412-426 | dest unchanged for a NULL src; otherwise num bytes copied |
| `KStdio.Memmove` | kernel/stdio.c:428-456 | nothing changes for NULL; otherwise dest[0..num) holds the old src[0..num), overlap included |
| `KStdio.Memcmp` | kernel/stdio.c:458-477 | 0 when either is NULL; otherwise memcmp |
| `KStdio.Itoa` | kernel/stdio.c:57-108 | 0 for a NULL buffer; otherwise 1 and the signed digit text that reads back as the value |
| `KStdio.Uitoa` | kernel/stdio.c:110-144 | 0 for a NULL buffer; otherwise 1 and the digits that read back as the value |
| `KStdio.Ltoa` | kernel/stdio.c:146-192 | as Itoa; long is 32 bits on this target |
| `KStdio.Ultoa` | kernel/stdio.c:194-228 | as Uitoa; unsigned long is 32 bits on this target |
| `KFormat.UpperHex` | kernel/stdio.c:564-570 | upper-casing keeps the length |
| `KFormat.UpperHexAt` | kernel/stdio.c:564-570 | each character is upper-cased on its own |
| `KFormat.UpperHexOfDigit` | kernel/stdio.c:564-570 | a hexadecimal digit becomes '0'-'9' or 'A'-'F' |
| `KFormat.UpperHexDigits` | kernel/stdio.c:558-570 | %X prints only '0'-'9' and 'A'-'F' |
| `KFormat.UpperHexInPlace` | kernel/stdio.c:564-570 | the loop upper-cases the string in num_str and leaves the bytes after it alone |
| `KFormat.RenderBounded` | kernel/stdio.c:489-631 | the output only grows and never passes size - 1 |
| `KFormat.RenderPlainText` | kernel/stdio.c:623-627 | a format with no '%' is copied, cut at the limit |
| `KFormat.DroppedConversionExample` | kernel/stdio.c:522-527 | a %s too long for the room is dropped whole, and a later %c is still written |
| `KFormat.NumberTextFits` | kernel/stdio.c:515-579 | every numeric conversion fits the 32-byte num_str with its terminator |
| `KFormat.NumberText` | kernel/stdio.c:515-579 | itoa/uitoa into a fresh num_str, upper-cased for %X, give the conversion's text |
| `KFormat.ConversionOf` | kernel/stdio.c:515-603 | the text of %d, %i, %u, %x, %X or %s, "(null)" for a NULL string |
| `KFormat.AppendWhole` | kernel/stdio.c:522-527 | text is copied only when it leaves room for the NUL; otherwise nothing is written |
| `KFormat.CopyText` | kernel/stdio.c:524-526 | strcpy at an offset: the text and a NUL, the bytes before and after unchanged |
| `KFormat.FormatDirective` | kernel/stdio.c:499-620 | one '%' directive writes exactly what Directive says and takes its arguments |
| `KFormat.FormatStep` | kernel/stdio.c:497-627 | one turn of the loop leaves the rest of the rendering unchanged |
| `KFormat.VsnprintfInternal` | kernel/stdio.c:489-631 | 0 and nothing written for NULL or size 0; otherwise str holds Render's output and a NUL, and the answer is its length |
| `KFormat.Snprintf` | kernel/stdio.c:633-640 | the same as vsnprintf_internal over the arguments that follow the format |
| `KStack.Stack.constructor` | include/core/stack.h:11-16 | an uncreated stack is valid, empty and of capacity 0 |
| `KStack.Stack.Create` | kernel/stack.c:3-16 | 0 and nothing changed for a negative size; otherwise 1, an empty stack of that capacity |
| `KStack.Stack.IsEmpty` | kernel/stack.c:50-57 | 1 if and only if there are no elements, else 0 |
| `KStack.Stack.IsFull` | kernel/stack.c:59-66 | 1 if and only if every slot is used, else 0 |
| `KStack.Stack.Count` | kernel/stack.c:68-71 | the number of elements |
| `KStack.Push` | kernel/stack.c:18-31 | -1 for NULL; -2 and nothing changed when full; otherwise 1 and the contents gain e on top |
| `KStack.Pop` | kernel/stack.c:33-48 | -1 for NULL; -2 and e unchanged when empty; otherwise 1, and the old contents are the new ones plus the element popped |
| `KStack.PushThenPop` | kernel/stack.c:18-48 | a push then a pop gives back the element and leaves the contents as they were |
| `Vga.EntryColor` | kernel/vga_color.c:33-36 | the foreground is the low four bits and the background the high four |
| `Vga.Entry` | kernel/vga_color.c:39-42 | the character is the low byte and the colour the high byte |
| `Vga.Blanks` | kernel/vga_color.c:58 | n cells, each a space in the colour |
| `Vga.Scroll` | kernel/vga_color.c:66-85 | scrolling leaves the cursor on the screen |
| `Vga.ScrollMovesRows` | kernel/vga_color.c:66-85 | rows 1 to 24 move up one row and the last row becomes blank in the current colour |
| `Vga.Settle` | kernel/vga_color.c:140-151 | wrapping past column 79 and scrolling below row 24 bring the cursor back on the screen |
| `Vga.PutPrintable` | kernel/vga_color.c:133-151 | a printable character keeps the cursor on the screen |
| `Vga.PutSpaces` | kernel/vga_color.c:107-116 | the tab's spaces keep the cursor on the screen |
| `Vga.Put` | kernel/vga_color.c:95-152 | from a cursor on the screen, every character leaves it on the screen |
| `Vga.PutString` | kernel/vga_color.c:155-165 | a string of characters leaves the cursor on the screen |
| `Vga.PrintableLandsAtCursor` | kernel/vga_color.c:133-151 | a printable character is written at the cursor, which advances, wraps or scrolls |
| `Vga.NewlineAndReturn` | kernel/vga_color.c:98-106 | '\r' only goes to column 0; '\n' goes to the next row, or scrolls at the bottom |
| `Vga.SpacesAdvance` | kernel/vga_color.c:110-114 | n spaces inside the line move the cursor n columns; reaching the end wraps |
| `Vga.TabReachesTabStop` | kernel/vga_color.c:107-116 | a tab ends on a multiple of four, on the same row when there is room |
| `Vga.PrintableThenBackspace` | kernel/vga_color.c:117-138 | backspace after a printable character returns the cursor and blanks that cell |
| `Vga.BackspaceAtOrigin` | kernel/vga_color.c:117-132 | backspace at (0, 0) does nothing |
| `Vga.ShiftRow` | kernel/vga_color.c:71-74 | the inner loop copies the row below into one row and changes nothing else |
| `Vga.ShiftRowsUp` | kernel/vga_color.c:69-75 | each cell of rows 0 to 23 takes the cell below it; the last row stays |
| `Vga.BlankLastRow` | kernel/vga_color.c:78-81 | the last row becomes blank; the others stay |
| `Vga.Console.constructor` | kernel/vga_color.c:27-30 | the cursor at (0, 0) and light grey on black |
| `Vga.Console.ClearScreen` | kernel/vga_color.c:51-63 | every cell a space in the current colour, cursor at (0, 0) |
| `Vga.Console.ScrollUp` | kernel/vga_color.c:66-85 | the screen becomes Scroll of the old one |
| `Vga.Console.SetColor` | kernel/vga_color.c:45-48 | only the colour changes |
| `Vga.Console.PutEntryAt` | kernel/vga_color.c:88-92 | exactly cell y*80+x changes, to the entry of c in that colour |
| `Vga.Console.SettleCursor` | kernel/vga_color.c:140-151 | the console becomes Settle of the old one |
| `Vga.Console.Backspace` | kernel/vga_color.c:117-132 | the console becomes Put of the old one and backspace |
| `Vga.Console.PutChar` | kernel/vga_color.c:95-152 | the console becomes Put of the old one and c, so the cursor stays on the screen |
| `Vga.Console.WriteString` | kernel/vga_color.c:155-165 | nothing for NULL; otherwise the characters before the NUL put in order |
| `Vga.Console.Initialize` | kernel/vga_color.c:168-175 | colour 0x07, cursor at (0, 0), and a cleared screen |
| `Fs.FirstClear` | fs/fs.c:150-163 | the lowest clear bit in the range, or none when all are set |
| `Fs.CountClearSet` | fs/fs.c:155-157 | setting a clear bit in the range removes exactly one clear bit |
| `Fs.CountClearReset` | fs/fs.c:174-177 | clearing a set bit in the range adds exactly one clear bit |
| `Fs.CountClearBounds` | fs/fs.c:148-164 | a range has at most as many clear bits as bits, and at least one when FirstClear finds one |
| `Fs.CountClearAllClear` | fs/fs.c:77-100 | a range of clear bits counts every bit |
| `Fs.AllocBlock` | fs/fs.c:148-164 | the lowest clear block in [first_data_block, total_blocks) becomes used and free_blocks drops by one; 0 and no change when none is clear |
| `Fs.FreeBlock` | fs/fs.c:169-179 | no change at or past total_blocks; otherwise the bit is cleared and free_blocks rises, in use or not |
| `Fs.AllocInode` | fs/fs.c:184-200 | the lowest clear inode from 1 becomes used and free_inodes drops by one; 0 and no change when none is clear |
| `Fs.FreeInode` | fs/fs.c:205-225 | no change for 0 or out of range; otherwise the bit is cleared, free_inodes rises and size, type, links and pointers are zeroed |
| `Fs.AllocKeepsCounters` | fs/fs.c:148-200 | both allocators keep the free counters equal to the bitmaps |
| `Fs.FreeKeepsCounters` | fs/fs.c:169-225 | freeing a used data block or a used inode keeps the counters equal to the bitmaps |
| `Fs.DoubleFreeBreaksCounters` | fs/fs.c:169-179 | freeing a block twice counts it twice, so the counters no longer agree |
| `Fs.FormatMeta` | fs/fs.c:65-143 | counters 1014 and 63, blocks 0-9 and inode 0 used, the root a 0755 directory of size 0 with one link, every other inode cleared |
| `Fs.EmptyDir` | fs/fs.c:67-71 | every entry of a zeroed disk is free |
| `Fs.Format` | fs/fs.c:65-143 | fs_format leaves a well-formed state |
| `Fs.ZeroMeta` | fs/fs.c:5-10 | the zeroed static variables are well formed |
| `Fs.Boot` | fs/fs.c:5-10 | the state at boot is well formed and not initialised |
| `Fs.Init` | fs/fs.c:18-60 | fs_init always leaves an initialised state |
| `Fs.InitProperties` | fs/fs.c:18-60 | fs_init is idempotent, loads exactly the image when the magic matches, formats when it does not, and reloads what a format wrote |
| `Fs.BootFormats` | fs/fs.c:18-60 | the first fs_init after boot formats: an empty root, 1014 free blocks, 63 free inodes, agreeing counters |
| `Fs.NameLength` | fs/fs.c:352-359 | at most 31 characters copied, none NUL, stopping at a NUL when there is room |
| `Fs.NameLengthFrom` | fs/fs.c:353-357 | the copy loop from j on has the same bounds |
| `Fs.StoredName` | fs/fs.c:352-358 | the stored name is 32 bytes |
| `Fs.NewEntry` | fs/fs.c:345-359 | the entry fs_create_file writes is well formed |
| `Fs.AgreeWithStored` | fs/fs.c:266-273 | a name agrees with a stored copy of itself up to the NUL |
| `Fs.StoredNameMatches` | fs/fs.c:266-274 | a name with a NUL in its first 32 bytes matches the entry created for it |
| `Fs.LongNameNeverMatches` | fs/fs.c:274 | a name of 32 or more characters is stored cut to 31 and never matches its own entry |
| `Fs.Slot` | fs/fs.c:256-262 | entry i of root block idx is a slot of the directory |
| `Fs.Scan` | fs/fs.c:254-281 | the directory loops answer a block index below 12 and an entry index below 12 |
| `Fs.ScanMeaning` | fs/fs.c:254-281 | the scan answers the first slot, in loop order and before the first zero pointer, that satisfies the test, or none when no reachable slot does |
| `Fs.FindMeaning` | fs/fs.c:242-284 | fs_find_file answers none if and only if no reachable used entry matches, and otherwise the inode of a matching entry |
| `Fs.FindFirstMatch` | fs/fs.c:254-278 | a match with no earlier match for another inode is what fs_find_file answers |
| `Fs.FirstZero` | fs/fs.c:368-371 | the first zero root pointer, or none when all twelve are set |
| `Fs.SetInode` | fs/fs.c:314-318 | writing an inode keeps the metadata well formed |
| `Fs.ClearBlock` | fs/fs.c:383-386 | zeroing a block frees its 12 entries and no others |
| `Fs.PlaceEntry` | fs/fs.c:336-407 | placing the entry leaves a well-formed state |
| `Fs.CreateIn` | fs/fs.c:296-408 | creating in an initialised state leaves a well-formed state |
| `Fs.SetUpFile` | fs/fs.c:313-407 | setting up the inode and placing the entry leaves a well-formed state |
| `Fs.Create` | fs/fs.c:289-408 | fs_create_file leaves an initialised state |
| `Fs.CreateExisting` | fs/fs.c:299-304 | a name already there gives -1 and only the initialisation |
| `Fs.CreateFailureKeepsInodes` | fs/fs.c:306-407 | on failure the inode bitmap is as before: the taken inode is given back |
| `Fs.CreateSetsUpInode` | fs/fs.c:307-318 | on success the lowest free inode is now used: the given type, size 0, one link, 0644 |
| `Fs.PlaceEntryFailure` | fs/fs.c:372-407 | a failed placement releases the inode |
| `Fs.PlaceEntryKeepsInode` | fs/fs.c:336-404 | a successful placement leaves the new inode and the inode bitmap alone |
| `Fs.PlaceInFreeSlotFinds` | fs/fs.c:337-365 | an entry placed in the first free slot is found under its name |
| `Fs.PlaceInNewBlockFinds` | fs/fs.c:368-404 | an entry placed in a fresh block is found under its name |
| `Fs.CreateThenFind` | fs/fs.c:289-408 | after a successful create, fs_find_file gives the new inode for a name under 32 characters, when the root is a directory and no free block holds an entry |
| `Fs.FreeFileBlocks` | fs/fs.c:431-434 | the block loop changes no inode and sets no bit |
| `Fs.Run` | fs/fs.c:431 | the pointers the loop passes are the non-zero ones up to the first zero |
| `Fs.CountBelow` | fs/fs.c:171-178 | at most one count per pointer, and one each when all lie inside the disk |
| `Fs.FreeFileBlocksBits` | fs/fs.c:431-434 | exactly the bits of the passed pointers that lie inside the disk are cleared |
| `Fs.Bump` | fs/fs.c:177 | k wrapping increments add k when there is no wrap |
| `Fs.RunCountStep` | fs/fs.c:431-434 | the pointer at j counts once, ahead of the rest of the run |
| `Fs.FreeFileBlocksCount` | fs/fs.c:431-434 | free_blocks rises once for each passed pointer inside the disk |
| `Fs.ReleaseFile` | fs/fs.c:430-442 | the inode's bit is cleared and its fields reset, and no block becomes used |
| `Fs.Freed` | fs/fs.c:431-439 | the pointers freed are the run and the indirect pointer when set |
| `Fs.CountBelowAppend` | fs/fs.c:431-439 | counting splits over two lists |
| `Fs.CountBelowOne` | fs/fs.c:436-439 | one pointer counts when it is inside the disk |
| `Fs.CountFreed` | fs/fs.c:431-439 | the freed pointers count as the run plus the indirect pointer |
| `Fs.BumpFront` | fs/fs.c:177 | one increment first, then k, is k + 1 increments |
| `Fs.BumpStep` | fs/fs.c:436-439 | one more freed pointer is one more increment |
| `Fs.BumpTwice` | fs/fs.c:177 | j increments then k are j + k increments |
| `Fs.ReleaseFileBits` | fs/fs.c:430-442 | exactly the bits of the freed pointers inside the disk are cleared |
| `Fs.ReleaseFileCounts` | fs/fs.c:430-442 | free_blocks rises once per freed pointer inside the disk, and free_inodes once |
| `Fs.FreedCount` | fs/fs.c:436-439 | the indirect pointer adds its count to that of the run |
| `Fs.Unlink` | fs/fs.c:445-461 | freeing the first entry naming the inode leaves a well-formed state |
| `Fs.DeleteIn` | fs/fs.c:420-463 | deleting in an initialised state leaves a well-formed state |
| `Fs.Delete` | fs/fs.c:413-464 | fs_delete_file leaves an initialised state |
| `Fs.DeleteMissing` | fs/fs.c:420-424 | a name not found gives -1 and only the initialisation |
| `Fs.FoundIsNamed` | fs/fs.c:446-458 | the inode found is named by an entry the unlink loop reaches first |
| `Fs.DeleteReleases` | fs/fs.c:426-463 | a delete answers 0; the inode is released and the root shrinks by one entry |
| `Fs.DeleteUnlinks` | fs/fs.c:445-461 | exactly the first entry, in loop order, naming the inode is freed |
| `Fs.DeleteThenFind` | fs/fs.c:413-464 | after a delete, fs_find_file no longer finds the name |
| `Fs.FileSize` | fs/fs.c:469-487 | -1 when the name is not found; otherwise the size of the inode found, as an int |
| `Fs.Stop` | fs/fs.c:510 | the loops stop at the first zero root pointer |
| `Fs.UsedBeforePrefix` | fs/fs.c:510-524 | what the loops met by an earlier slot is a prefix of what they met later |
| `Fs.ListingDone` | fs/fs.c:510-526 | when the loops end they have copied the first max used entries, or all of them |
| `Fs.UsedBeforeBound` | fs/fs.c:515-516 | at most 12 entries per block passed |
| `Fs.UsedBeforeUsed` | fs/fs.c:518 | every entry collected is used |
| `Fs.UsedBeforeHas` | fs/fs.c:510-523 | every used entry the loops passed is collected |
| `Fs.ListProperties` | fs/fs.c:492-527 | -1 if and only if the root is not a directory; otherwise min(max, used) entries, exactly the first ones in loop order |
| `Fs.ListShowsAll` | fs/fs.c:492-527 | when max does not cut the listing short, it shows every used entry the loops reach |
| `FsImpl.FileSystem.constructor` | fs/fs.c:5-10 | the file system at boot, all zero |
| `FsImpl.FileSystem.AllocateBlock` | fs/fs.c:148-164 | the scan loop does what AllocBlock says |
| `FsImpl.FileSystem.FreeBlock` | fs/fs.c:169-179 | the metadata becomes FreeBlock of the old |
| `FsImpl.FileSystem.AllocateInode` | fs/fs.c:184-200 | the scan loop does what AllocInode says |
| `FsImpl.FileSystem.FreeInode` | fs/fs.c:205-225 | the metadata becomes FreeInode of the old |
| `FsImpl.FileSystem.GetInode` | fs/fs.c:230-237 | a copy of inode n exactly when n is below total_inodes, else none |
| `FsImpl.FileSystem.Format` | fs/fs.c:65-143 | the state becomes Format of the old |
| `FsImpl.FileSystem.ResetBitmaps` | fs/fs.c:83-100 | only blocks 0-9 and inode 0 are marked used |
| `FsImpl.FileSystem.ZeroDisk` | fs/fs.c:67-71 | every byte zero and every entry free |
| `FsImpl.FileSystem.ClearInodes` | fs/fs.c:102-113 | every inode's size, type, links and pointers zeroed |
| `FsImpl.FileSystem.LoadImage` | fs/fs.c:25-50 | the metadata becomes the image on the disk |
| `FsImpl.FileSystem.Init` | fs/fs.c:18-60 | the state becomes Init of the old, and the answer is 0 |
| `FsImpl.FileSystem.FindFile` | fs/fs.c:242-284 | the loops answer Find of the state |
| `FsImpl.FileSystem.FindInRoot` | fs/fs.c:254-281 | the two loops answer FindIn |
| `FsImpl.FileSystem.FindInBlock` | fs/fs.c:260-280 | the inner loop answers the scan's hit in this block, or passes on to the next |
| `FsImpl.FileSystem.ScanDir` | fs/fs.c:337-365 | the loops answer Scan |
| `FsImpl.FileSystem.ScanBlock` | fs/fs.c:343-364 | the inner loop answers the scan's hit in this block, or passes on |
| `FsImpl.FileSystem.WriteEntry` | fs/fs.c:345-359 | exactly slot k becomes NewEntry |
| `FsImpl.FileSystem.ClearDirBlock` | fs/fs.c:383-386 | the entries become ClearBlock of the old |
| `FsImpl.FileSystem.PlaceEntry` | fs/fs.c:336-407 | state and answer are PlaceEntry of the old state |
| `FsImpl.FileSystem.PlaceInSlot` | fs/fs.c:337-365 | the free-slot branch does what PlaceEntry says and answers 0 |
| `FsImpl.FileSystem.PlaceInNewBlock` | fs/fs.c:368-404 | the fresh-block branch does what PlaceEntry says |
| `FsImpl.FileSystem.FillNewBlock` | fs/fs.c:380-399 | the block is cleared and its first slot holds the new entry |
| `FsImpl.FileSystem.CreateInitialized` | fs/fs.c:296-408 | state and answer are CreateIn of the old state |
| `FsImpl.FileSystem.SetUpFile` | fs/fs.c:313-407 | state and answer are SetUpFile of the old state |
| `FsImpl.FileSystem.CreateFile` | fs/fs.c:289-408 | state and answer are Create of the old state |
| `FsImpl.FileSystem.ReleaseBlocks` | fs/fs.c:431-434 | the metadata becomes FreeFileBlocks of the old |
| `FsImpl.FileSystem.ReleaseFile` | fs/fs.c:430-442 | the metadata becomes ReleaseFile of the old |
| `FsImpl.FileSystem.UnlinkEntry` | fs/fs.c:445-461 | the state becomes Unlink of the old |
| `FsImpl.FileSystem.DeleteInitialized` | fs/fs.c:420-463 | state and answer are DeleteIn of the old state |
| `FsImpl.FileSystem.DeleteFile` | fs/fs.c:413-464 | state and answer are Delete of the old state |
| `FsImpl.FileSystem.GetFileSize` | fs/fs.c:469-487 | state and answer are FileSize of the old state |
| `FsImpl.FileSystem.ListDirectory` | fs/fs.c:492-527 | the state and count are List of the old state; the caller's array holds the listing and nothing past it changes |
| `FsImpl.FileSystem.ListInitialized` | fs/fs.c:502-526 | the listing of an initialised state changes only the caller's array |
| `FsImpl.FileSystem.ListRoot` | fs/fs.c:508-526 | the loops copy the first min(max, used) used entries in loop order |
| `FsImpl.FileSystem.ListBlock` | fs/fs.c:516-523 | the inner loop goes on copying used entries until the block or the room ends |
| `FsImpl.NameMatches` | fs/fs.c:265-274 | the comparison loop and the length test say whether the entry matches |
| `FsImpl.CopyName` | fs/fs.c:352-359 | the copy loop gives the stored name and its length |
| `File.PermissionChecksCoincide` | fs/file.c:128 | the read check here and the write check at line 171 both accept exactly the flags with bit 0 or bit 1 set, so a write-only descriptor may read |
| `File.FsReady` | fs/file.c:23-31 | the file system is initialised and the tables unchanged |
| `File.TableReady` | fs/file.c:12-20 | the table is marked ready and the file system unchanged |
| `File.FirstFreeEntryFrom` | fs/file.c:34-39 | the first entry not in use, or -1 exactly when all are in use |
| `File.FirstFreeFdFrom` | fs/file.c:42-47 | the first closed descriptor, or -1 exactly when all are open |
| `File.ReleasePointer` | fs/file.c:94-97 | one turn of the O_TRUNC loop keeps the metadata well formed |
| `File.ReleasedUpTo` | fs/file.c:93-98 | the first turns of the O_TRUNC loop keep the metadata well formed |
| `File.Truncate` | fs/file.c:91-103 | the O_TRUNC branch keeps the metadata well formed |
| `File.ReleasedUpToEffect` | fs/file.c:93-98 | after i turns, the first i pointers are zero and their blocks clear; no other bit, pointer or inode changed |
| `File.ReleasedTurn` | fs/file.c:94-97 | one more turn extends that shape by one pointer |
| `File.TruncateEmpties` | fs/file.c:91-103 | size 0, every pointer zero, every freed block clear, other inodes and the inode bitmap untouched |
| `File.Lookup` | fs/file.c:57-63 | finding or creating the name leaves the tables alone |
| `File.OpenAt` | fs/file.c:66-105 | the rest of file_open keeps the tables well formed |
| `File.OpenReady` | fs/file.c:56-105 | file_open after the two initialisations keeps the tables well formed |
| `File.Open` | fs/file.c:50-106 | file_open keeps the tables well formed |
| `File.OpenMissing` | fs/file.c:58-62 | a missing name without O_CREAT gives -1 and only the initialisations |
| `File.OpenTakesFreeEntry` | fs/file.c:56-89 | a successful open takes the first free entry and descriptor, with the position from O_APPEND, refcount 1 and in use |
| `File.OpenRollsBack` | fs/file.c:80-85 | with no free descriptor, the entry is given back and the answer is -1 |
| `File.OpenAppendTruncate` | fs/file.c:75-103 | O_APPEND with O_TRUNC leaves the position at the old size of a now empty file |
| `File.Close` | fs/file.c:109-120 | file_close keeps the tables well formed |
| `File.CloseTwice` | fs/file.c:109-120 | file_close answers 0 exactly for an open descriptor: that descriptor is closed, its entry loses one reference and is freed with the last one, no other descriptor or entry changes; otherwise -1 with nothing changed, so a second close of the same descriptor fails |
| `File.OpenThenClose` | fs/file.c:50-120 | closing what was opened answers 0, frees the entry and restores the open descriptors |
| `File.FileBytes` | fs/file.c:142-159 | the bytes of a file from a position have the length asked for |
| `File.Add32IsMod` | fs/file.c:158 | uint32 addition (here and at line 206) is addition modulo 2^32 |
| `File.WrapInChunk` | fs/file.c:143-145 | positions inside one block stay below 2^32 |
| `File.AdvanceInChunk` | fs/file.c:158 | advancing inside a block (here and at line 206) is addition modulo 2^32 |
| `File.Read` | fs/file.c:123-163 | file_read initialises the file system and changes nothing else in it |
| `File.ReadStaysInFile` | fs/file.c:133-163 | at or past the end it reads nothing and answers 0; otherwise it reads min(count, size - position) and the position advances by that much |
| `File.ZeroBlock` | fs/file.c:193-194 | zeroing a block keeps the disk's size |
| `File.Put` | fs/file.c:200-203 | the copy keeps the disk's size |
| `File.ChunkLength` | fs/file.c:183-184 | a turn copies up to the end of the block, or what is left |
| `File.WriteChunk` | fs/file.c:180-207 | a turn changes only the disk bytes, the block bitmap, the free block count and the inode's pointers, and a copying turn stays inside the direct blocks |
| `File.WriteChunks` | fs/file.c:180-207 | the loop writes between 0 and count bytes and the position advances by them; only the disk bytes, the block bitmap, the free block count and the inode's pointers change |
| `File.WriteReady` | fs/file.c:168-212 | file_write after the initialisation keeps the tables well formed |
| `File.WriteTo` | fs/file.c:170-212 | the write through a global entry keeps the tables well formed |
| `File.Write` | fs/file.c:166-213 | file_write keeps the tables well formed |
| `File.WriteOutcome` | fs/file.c:180-210 | the loop and the size update keep the file system well formed |
| `File.InChunk` | fs/file.c:181-182 | the positions of one turn lie in one block |
| `File.ChunkPointers` | fs/file.c:186-196 | a copying turn uses the existing block or one just allocated that no pointer named |
| `File.ChunkStorage` | fs/file.c:193-203 | a copying turn zeroes a new block and copies the chunk into it, and nothing else |
| `File.ChunkReadsBack` | fs/file.c:200-203 | the chunk now reads back as the data |
| `File.ByteOutsideChunk` | fs/file.c:186-203 | a byte of the file outside the chunk reads as before |
| `File.ChunkKeepsRest` | fs/file.c:186-203 | every byte outside the chunk reads as before |
| `File.ChunkFacts` | fs/file.c:180-207 | a copying turn writes its stretch of the file |
| `File.HaltedFacts` | fs/file.c:186-198 | a turn that stops changes no byte, and stops only past the direct blocks or on a full disk |
| `File.WriteComposes` | fs/file.c:180-207 | two stretches of writing, one after the other, make one |
| `File.TurnsEnd` | fs/file.c:191-198 | a last turn that stops ends the loop |
| `File.TurnsOnWith` | fs/file.c:205-206 | a copying turn goes on at the next position |
| `File.WriteChunksWritten` | fs/file.c:180-207 | the loop writes data[0..w) at the position and leaves every other byte of the file |
| `File.CopiedThenTurns` | fs/file.c:180-207 | a copying turn, then the rest of the loop, is one stretch |
| `File.StretchThenTurns` | fs/file.c:180-207 | a stretch, then the loop, is one stretch |
| `File.WriteChunksStop` | fs/file.c:180-207 | the loop ends short only past the direct blocks or when every data block is used |
| `File.WriteAdvances` | fs/file.c:176-212 | the answer is between 0 and count, the position advances by it, and the size becomes the larger of the old size and the position |
| `File.WriteKeepsOthers` | fs/file.c:166-213 | file_write changes no entry and no other inode |
| `File.WriteReadsBack` | fs/file.c:166-213 | the bytes written read back as the data, and the rest of the file is unchanged |
| `File.WriteStopsShort` | fs/file.c:187-198 | a short write happens only past the twelve direct blocks or on a full disk |
| `File.ReadGives` | fs/file.c:123-163 | a read over bytes known to hold data gives the data and answers its length |
| `File.SeekBackReads` | fs/file.c:123-234 | seeking back and reading gives the bytes known to be there |
| `File.WriteSeekRead` | fs/file.c:166-234 | a write, a seek back and a read give back what was written |
| `File.Seek` | fs/file.c:216-234 | file_seek only initialises the file system |
| `File.SeekThenTell` | fs/file.c:216-240 | SET, CUR and END set the position to offset, position + offset and size + offset modulo 2^32, and file_tell then answers it and file_eof says whether it is at or past the size; another whence answers -1 and moves nothing |
| `File.EofIffReadEmpty` | fs/file.c:123-249 | file_eof says 1 exactly when a read of at least one byte answers 0 |
| `FileImpl.Process.constructor` | fs/file.c:42-47 | a new process has every descriptor closed |
| `FileImpl.OpenFiles.constructor` | fs/file.c:9 | the global table at boot: all zero, not yet initialised |
| `FileImpl.OpenFiles.EnsureFsInitialized` | fs/file.c:23-31 | the state becomes FsReady of the old |
| `FileImpl.OpenFiles.InitGlobalTable` | fs/file.c:12-20 | the state becomes TableReady of the old |
| `FileImpl.OpenFiles.FindFreeGlobalEntry` | fs/file.c:34-39 | the loop answers the first free entry |
| `FileImpl.OpenFiles.FindFreeFd` | fs/file.c:42-47 | the loop answers the first closed descriptor |
| `FileImpl.OpenFiles.LookUp` | fs/file.c:57-63 | state and answer are Lookup of the old state |
| `FileImpl.OpenFiles.ReleaseAt` | fs/file.c:94-97 | one turn of the O_TRUNC loop does what ReleasePointer says |
| `FileImpl.OpenFiles.ReleaseAll` | fs/file.c:93-98 | the O_TRUNC loop does what ReleasedUpTo says |
| `FileImpl.OpenFiles.TruncateInode` | fs/file.c:91-103 | the metadata becomes Truncate of the old |
| `FileImpl.OpenFiles.OpenAtEntry` | fs/file.c:66-105 | state, descriptors and answer are OpenAt of the old |
| `FileImpl.OpenFiles.Open` | fs/file.c:50-106 | -1 and no change for a NULL process or name; otherwise state, descriptors and answer are File.Open's |
| `FileImpl.OpenFiles.OpenAfterInit` | fs/file.c:56-105 | state, descriptors and answer are OpenReady of the old |
| `FileImpl.OpenFiles.Close` | fs/file.c:109-120 | -1 and no change for a NULL process; otherwise state, descriptors and answer are File.Close's |
| `FileImpl.OpenFiles.ReadChunk` | fs/file.c:143-155 | one turn fills the chunk of the buffer with the file's bytes and nothing else |
| `FileImpl.OpenFiles.ReadLoop` | fs/file.c:142-159 | the loop fills buffer[0..count) with the file's bytes from the position and answers the next position |
| `FileImpl.OpenFiles.ReadEntry` | fs/file.c:133-162 | the buffer holds the bytes read, the position advances and the answer is their number |
| `FileImpl.OpenFiles.Read` | fs/file.c:123-163 | with a NULL process or buffer, -1 after only ensure_fs_initialized; otherwise the state, the buffer and the answer are File.Read's |
| `FileImpl.OpenFiles.ZeroBlockAt` | fs/file.c:193-194 | the disk becomes ZeroBlock of the old |
| `FileImpl.OpenFiles.CopyIn` | fs/file.c:200-203 | the disk becomes Put of the old |
| `FileImpl.OpenFiles.FillHole` | fs/file.c:189-195 | a block is allocated, recorded and zeroed, or 0 and only the allocation on a full disk |
| `FileImpl.OpenFiles.FillAndCopyIn` | fs/file.c:186-203 | a turn at a hole does what WriteChunk says |
| `FileImpl.OpenFiles.CopyInPlace` | fs/file.c:186-203 | a turn into an existing block does what WriteChunk says |
| `FileImpl.OpenFiles.WriteStep` | fs/file.c:181-206 | one turn does what WriteChunk says |
| `FileImpl.OpenFiles.WriteLoop` | fs/file.c:180-207 | the loop does what WriteChunks says |
| `FileImpl.OpenFiles.WriteEntry` | fs/file.c:176-212 | the loop, the size update and the position are WriteOutcome's |
| `FileImpl.OpenFiles.Write` | fs/file.c:166-213 | with a NULL process or buffer, -1 after only ensure_fs_initialized; otherwise state and answer are File.Write's |
| `FileImpl.OpenFiles.WriteAfterInit` | fs/file.c:168-212 | state and answer are WriteReady's |
| `FileImpl.OpenFiles.WriteTo` | fs/file.c:170-212 | state and answer are File.WriteTo's |
| `FileImpl.OpenFiles.Seek` | fs/file.c:216-234 | with a NULL process, -1 after only ensure_fs_initialized; otherwise state and answer are File.Seek's |
| `FileImpl.OpenFiles.Tell` | fs/file.c:237-240 | -1 for a NULL process; otherwise File.Tell's answer |
| `FileImpl.OpenFiles.Eof` | fs/file.c:243-249 | 1 for a NULL process; otherwise File.Eof's answer |
| `Invariant.ConsistentGives` | fs/fs.c:242-284 | a consistent state has agreeing counters, a directory root, no entry in a free block, and each inode named by at most one slot the loops reach |
| `Invariant.FormatConsistent` | fs/fs.c:65-143 | fs_format leaves a consistent state, and fs_init after it too |
| `Invariant.BootSound` | fs/fs.c:18-60 | the invariant holds at boot |
| `Invariant.AllocKeeps` | fs/fs.c:148-200 | the allocators keep the counters and the ownership of blocks |
| `Invariant.AttachKeeps` | fs/file.c:189-192 | pointing a zero pointer at a freshly allocated block keeps them |
| `Invariant.FreeUnnamedKeeps` | fs/fs.c:205-225 | freeing a used inode that no entry names keeps the invariant |
| `Invariant.RetagKeeps` | fs/fs.c:314-318 | changing an inode's type, size, links or permissions keeps the counters and ownership |
| `Invariant.EntriesKeep` | fs/fs.c:336-404 | entries that only go out of use, with inodes staying used and the root keeping its blocks, stay owned |
| `Invariant.EntriesAdd` | fs/fs.c:345-359 | adding one entry for an unnamed inode in a root block keeps the entries owned |
| `Invariant.TakeInodeKeeps` | fs/fs.c:307-311 | taking a free inode keeps the invariant and no entry names it |
| `Invariant.PlaceEntryKeeps` | fs/fs.c:336-407 | placing the entry, or releasing the inode, keeps the invariant |
| `Invariant.PlaceInSlotKeeps` | fs/fs.c:337-365 | the free-slot branch keeps the invariant |
| `Invariant.FillSlotKeeps` | fs/fs.c:345-361 | writing the entry into a free slot and growing the root keeps the invariant |
| `Invariant.PlaceInBlockKeeps` | fs/fs.c:368-404 | the fresh-block branch keeps the invariant |
| `Invariant.FillBlockKeeps` | fs/fs.c:372-401 | a fresh, cleared root block holding the entry keeps the invariant |
| `Invariant.RootBlockKeeps` | fs/fs.c:324-334 | giving the root its first block keeps the invariant |
| `Invariant.SetUpFileKeeps` | fs/fs.c:313-407 | setting up the inode and placing the entry keeps the invariant |
| `Invariant.FileInodeKeeps` | fs/fs.c:314-318 | setting the new inode's fields keeps the invariant |
| `Invariant.NoBlockKeeps` | fs/fs.c:326-331 | releasing the inode when the root gets no block keeps the invariant |
| `Invariant.CreateSound` | fs/fs.c:289-408 | fs_create_file keeps the invariant |
| `Invariant.FreeFileBlocksAgree` | fs/fs.c:431-434 | freeing distinct used data blocks keeps the counters |
| `Invariant.ReleaseFileKeeps` | fs/fs.c:430-442 | releasing a used inode keeps the counters and ownership and clears only its bit |
| `Invariant.ReleaseFileOwned` | fs/fs.c:430-442 | the freed blocks belonged to that inode alone |
| `Invariant.EntriesRemove` | fs/fs.c:445-461 | freeing the entry of a released inode keeps the entries owned |
| `Invariant.DeleteKeeps` | fs/fs.c:420-463 | a successful delete keeps the invariant |
| `Invariant.UnlinkKeeps` | fs/fs.c:442-461 | releasing the inode and freeing its entry keeps the invariant |
| `Invariant.DeleteSound` | fs/fs.c:413-464 | fs_delete_file keeps the invariant |
| `Invariant.ReleasePointerKeeps` | fs/file.c:94-97 | one turn of the O_TRUNC loop keeps the counters and ownership |
| `Invariant.ReleasedUpToKeeps` | fs/file.c:93-98 | the O_TRUNC loop keeps the counters and ownership |
| `Invariant.ReleaseStepKeeps` | fs/file.c:94-97 | the same, for a state known to be the next one |
| `Invariant.TruncateMetaKeeps` | fs/file.c:91-103 | truncating keeps the counters, the ownership, the root and the inode bitmap |
| `Invariant.TruncateKeeps` | fs/file.c:91-103 | truncating a non-root inode keeps the invariant |
| `Invariant.WriteChunkKeeps` | fs/file.c:181-206 | one turn of file_write keeps the invariant |
| `Invariant.AllocOnlyKeeps` | fs/file.c:190-191 | an allocation with nothing pointing at the block keeps the invariant |
| `Invariant.AttachBlockKeeps` | fs/file.c:189-192 | attaching the allocated block keeps the invariant |
| `Invariant.WriteChunksKeeps` | fs/file.c:180-207 | the loop of file_write keeps the invariant |
| `Invariant.WriteOutcomeKeeps` | fs/file.c:180-210 | the loop and the size update keep the invariant |
| `Invariant.WriteSound` | fs/file.c:166-213 | file_write keeps the invariant |
| `Invariant.OpenSound` | fs/file.c:50-106 | file_open keeps the invariant, O_TRUNC included |
| `Invariant.LookupKeeps` | fs/file.c:57-63 | finding or creating keeps the invariant, and what it answers is what fs_find_file finds afterwards |
| `Invariant.OpenAtKeeps` | fs/file.c:66-105 | the rest of file_open keeps the invariant, for an inode other than the root |
| `Invariant.ReadSeekCloseSound` | fs/file.c:109-234 | file_read, file_seek and file_close keep the invariant |
| `Invariant.SoundCreateThenFind` | fs/fs.c:289-408 | in any reachable state, after a successful create the name finds the new inode |
| `Invariant.SoundDeleteThenFind` | fs/fs.c:413-464 | in any reachable state, deleting a name that matches one entry succeeds and the name is no longer found |

## Left out

- Port and memory-mapped I/O, the AHCI device, interrupts, the timer, the keyboard, the
  serial port and boot code are not part of this model. `putchar`, `puts`, `getchar`,
  `printf` and `sprintf` (kernel/stdio.c:27-51, 642-666) write to the console and are left
  out. The `printf` in `ensure_fs_initialized` is left out too.
- The `va_list` macros (kernel/stdio.c:484-487) become a sequence of `Arg` values. A
  missing or ill-typed argument is one of the undefined cases below.
- Fs: metadata is kept as typed values, not bytes. The directory is a view of
  `DirEntry` records, `storage` holds file bytes, and `disk` is the metadata image that
  `fs_format` writes and `fs_init` loads. The three do not overlap. In the C code the
  image lives in `fs_storage` and the inode table spills into block 10
  (fs/fs.c:121-140), so a format followed by file writes could corrupt a later load.
- Fs: timestamps and permissions are stored but never enforced. The indirect block is
  only ever freed.
- Fs: `fs_init` never fails here, because loading the typed image cannot fail. So the
  error path of `ensure_fs_initialized` (fs/file.c:25-28) is never taken.
- FsImpl.FileSystem.GetInode: returns a copy of the inode, not a pointer into the table.
  Callers that change an inode through the pointer write it back explicitly.
- Fs.Find: the name passed to the file system is a readable buffer of at least 32 bytes
  (`|f| >= MAX_FILENAME`). `fs_find_file` reads `filename[name_len]` past a shorter
  name's NUL (fs/fs.c:274), and that read is undefined in C.
- Fs.Delete: the block leak is kept. Blocks after the first zero pointer are not freed.
  `fs_free_block` has no double-free check, as `Fs.DoubleFreeBreaksCounters` shows.
- Fs.DeleteThenFind: holds when the name matches only one entry and that entry is the
  only one naming its inode (`MatchedOnce`, `NamedOnce`). Because of the prefix-match
  rule of `fs_find_file`, two entries can match one name, and the invariant does not
  rule that out.
- Invariant.SoundDeleteThenFind: keeps the `MatchedOnce` hypothesis, for the same reason.
- Invariant.Sound: proved to hold from boot, where the first `fs_init` formats.
  An arbitrary disk image that `fs_init` loads is not checked against it.
- File: `MAX_PROCESS_FD` is not defined in any header; it is 16 here, like
  `MAX_OPEN_FILES`. `refcount` is an unbounded integer.
- File: `process_t` and `global_file_entry_t` are declared from their uses in
  fs/file.c.
- File.Read: takes a non-NULL buffer. `FileImpl.OpenFiles.Read` handles NULL.
- File.ReadStaysInFile: its count and position clause covers only the case where
  position + count does not wrap past 2^32. When it wraps, the C code's count is kept
  as computed by `ReadCount`, and the lemma says nothing about it.
- File.WriteReadsBack: holds for an inode whose pointers name distinct data blocks in
  use (`Owned`). The invariant gives that for every inode of a reachable state.
- File.WriteStopsShort: holds when the data blocks start after block 0. Every formatted
  superblock has that.
- FileImpl.OpenFiles.Read: the caller's buffer must not be `fs_storage` itself.
- FileImpl.OpenFiles.Write: the caller's buffer must not be `fs_storage` itself.
- KFormat.VsnprintfInternal: inputs on which the C code has undefined behaviour are
  excluded by `requires` (`Render(...).Some?`). These are a lone '%' at the end of the
  format, a missing or ill-typed argument, `%d` of INT_MIN, a `%s` string with no
  terminator, and an unknown conversion when written == size - 2, where the C code
  writes past the limit (kernel/stdio.c:613-620).
- KStack.Stack.Create: the C code points the stack at a variable-length array local to
  `create` (kernel/stack.c:11-12). That array dies when `create` returns. The model
  gives the stack a fresh array of the requested capacity.
- KString.Itoa: requires 2 <= base <= 36, a non-negative value unless the base is 10,
  and not INT_MIN. The C code also runs for bases 37 to 41 (digits past 'z' become
  punctuation), negates INT_MIN with undefined behaviour, and produces garbage digits
  for a negative value in another base (kernel/string.c:137-148).
- KString.Uitoa: requires 2 <= base <= 36. The C code also runs for bases 37 to 41.
- KStdio.Itoa: the same bounds as KString.Itoa.
- KStdio.Uitoa: the same bounds as KString.Uitoa.
- KStdio.Ltoa: the same bounds as KString.Itoa.
- KStdio.Ultoa: the same bounds as KString.Uitoa.
- KString.Strcpy: requires dest != src. An overlapping copy is undefined in C.
- KString.Memcpy: requires dest != src. An overlapping copy is undefined in C.
- KString.Strcat: requires dest != src, for the same reason.
- KString.Strncpy: requires dest != src, for the same reason.
- KString.Strncat: requires dest != src, for the same reason.
- KStdio.Strcpy: requires dest != src for non-NULL pointers, for the same reason.
- KStdio.Memcpy: requires dest != src for non-NULL pointers, for the same reason.
- Vga: the memory-mapped VGA text buffer at 0xB8000 is a plain array of 2000 cells.
