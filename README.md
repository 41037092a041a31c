# TinyFS: formatting, mounting and opening files, in Dafny

TinyFS is a small file system kept inside one host file, the container. The
container is split into BLOCKSIZE-byte blocks. Every block starts with a type
byte, the magic number 0x44 and a link byte. This model covers the library
`libTinyFS.c` as it stands in this revision:

- the block encoders `initFreeblock` and `initSuperblock`;
- the formatter `tfs_mkfs`, which rounds the size down to whole blocks and
  writes a superblock followed by the free blocks;
- the mount session (`tfs_mount`, `tfs_unmount`) kept in the globals
  `mountedDisk`, `openFilesTable` and `openFilesLocation`;
- `tfs_openFile`, which finds an inode by name or turns the first free block
  into one;
- `tfs_closeFile`.

Modules:

- `Blocks` (blocks.dfy): the byte type, the constants, block images, the
  C string stored at offset 4, and the two encoders as methods that fill an
  `array<byte>` in a loop.
- `Errno` (errno.dfy): the status codes of `tinyFS_errno.h`.
- `Format` (format.dfy): the rounding loop and the image a format writes. As
  written, every free block but the last links to itself, so the links do not
  thread a list. A corrected image, with block k linking to k + 1, is also
  defined, and its free list is proved (see Findings).
- `TinyFS` (tinyfs.dfy): class `FileSystem`. It holds the container's blocks
  (`disk`), the device's fault model (`diskAvailable`, `badBlocks`) and the
  session fields `mounted`, `openFiles` and `locations`. Its methods are:
  - the library operations `Mkfs`, `Mount`, `Unmount`, `OpenFile` and
    `CloseFile`;
  - `OpenFileMarked`, the corrected open that also marks a created file;
  - the loops they use, `WriteFreeBlocks`, `ScanForInode` and `ScanForFree`;
  - the abstract device, `OpenDisk`, `ReadBlock` and `WriteBlock`.

  The module also holds the search functions that specify the inode and
  free-block scans, and lemmas about them.
- `Scenarios` (scenarios.dfy): call sequences proved from the method
  contracts alone:
  - format then mount;
  - open the same name twice;
  - close the same handle twice;
  - create a file then close it, once as written (the close fails) and once
    with the corrected open (it succeeds);
  - unmount then mount.

Constants: `MAGIC_NUM` = 0x44 and `MAX_FILE_NAME_LENGTH` = 8 come from
`libTinyFS.h`. `BLOCKSIZE` = 256 and `DEFAULT_DISK_SIZE` = 10240 would come
from `tinyFS.h`, which is not part of this model. Those two are the
conventional values. The proofs only need BLOCKSIZE to be at least 13, so that
an 8-byte name at offset 4 and its terminating zero fit in one block.

The block-device layer (`libDisk.c`) is abstract. The container is a sequence
of blocks. `openDisk` follows the contract in its header comment, because the
body in this revision is a stub that always succeeds. It fails when the device
is unavailable or when `nBytes` is negative or less than one block. With
`nBytes` 0 it opens the existing container. Otherwise it resizes the container
to `nBytes / BLOCKSIZE` blocks. `writeBlock` likewise follows its header
comment (libDisk.c:58-64), because its body in this revision also only returns
0 and writes nothing. A write fails for a block number in
`badBlocks` or outside the container, and a failed write changes nothing. A
read of a block outside the container returns `ERR_READ` with the buffer
unchanged. That is a choice of this abstract device: `readBlock` in libDisk.c
returns status 0 there, because a short read never makes its `readStatus < -1`
test (libDisk.c:49) true. No caller in libTinyFS.c looks at that status. A seek
failure (`ERR_SEEK` in libDisk.c:42) cannot happen on the abstract container,
so the model has no use for that code.

### How the code is read where it does not compile or is undefined

- `tfs_mkfs` writes with `write(fd, buf.mem, 1)` and compares the result with
  BLOCKSIZE (libTinyFS.c:26, 35). Taken literally, this writes one byte and
  reports failure every time. The model reads each call as "write block k",
  which may fail.
- `tfs_mount` passes `filename` where `diskname` is meant (libTinyFS.c:83, 94).
  One `FileSystem` object stands for one container, so names are not tracked.
- `tfs_mount` ignores the results of `openDisk` and `readBlock`. If either
  fails, `buf` is uninitialised. The model reports `ERR_INVALID_TFS` in that
  case, because block 0 cannot be validated.
- `openFilesTable` is declared as an array of 9 pointers but is assigned a
  `malloc` (libTinyFS.c:12, 95). It is used both as names (libTinyFS.c:98) and
  as flags (libTinyFS.c:196, 208). The model makes each slot an open flag. The
  table starts as 9 closed slots, and a mount replaces it with a fresh table
  of superblock-byte-4 slots. `tfs_unmount` frees both tables, which the model
  reads as both becoming empty.
- `tfs_openFile` uses `buff` for `buf` (libTinyFS.c:155), uses the loop-scoped
  `i` after its loop (libTinyFS.c:191), and never initialises `fileExists`,
  `fd` or `diskNum` (libTinyFS.c:122-125). The model reads these as the
  evident intent:
  - the returned handle is the block number of the inode found or created;
  - the disk read is the mounted container.
- `strcmp(name, buf + 4) == 0` is read as "the C string at offset 4 equals
  `name`" (`Blocks.NameAt`). A name is at most 8 bytes, so the comparison
  always ends inside the block.
- The scans in `tfs_openFile` stop at DEFAULT_DISK_SIZE / BLOCKSIZE, not at the
  mounted block count (libTinyFS.c:147, 166). The model keeps that bound. It
  also stops at the end of the container, because a read past the end returns
  no new block, so the outcome is unchanged.
- When no free block exists, `tfs_openFile` has no case for it. The model
  returns `ERR_INVALID_SPACE`.
- When an existing file's handle is outside the table, the source writes past
  the table's end at libTinyFS.c:196; the model skips the mark.
  `tfs_openFile` ignores the result of its `writeBlock`, and so does the model.
- `tfs_closeFile` indexes the table without a bounds check. The model treats a
  handle outside the table as not open.

This revision of the library, and so the model, has:

- no 256-block ceiling at format time;
- no check for an empty file name;
- no lookup of whether a name is already open;
- allocation of the first block whose type byte says free, not the head of the
  free list;
- no count of free blocks in the session;
- no open slot for a file that `tfs_openFile` creates: only an existing
  file's slot is set (libTinyFS.c:195-197), so closing a file just created
  fails (see Findings; `TinyFS.FileSystem.OpenFileMarked` is the open that
  marks it).

## Model

| member | source | states |
|---|---|---|
| `Blocks.InitFreeblock` | libTinyFS.c:46-54 | byte 0 is 4, byte 1 is 0x44, byte 2 is `nextFree`, every byte from 3 to BLOCKSIZE-1 is zero; the buffer equals the free-block image `FreeBlock(nextFree)` |
| `Blocks.InitSuperblock` | libTinyFS.c:56-68 | byte 0 is 1, byte 1 is 0x44, byte 2 is `firstFree`, byte 3 is 0, byte 4 is `nBytes / BLOCKSIZE` (C truncating division) converted to unsigned char, bytes 5.. are zero |
| `Blocks.CDivBlock` | libTinyFS.c:59 | C division of an `int` by BLOCKSIZE: the quotient brackets `nBytes` from below for non-negative and from above for negative sizes |
| `Blocks.UnsignedChar` | libTinyFS.c:59 | the `(unsigned char)` conversion gives the byte congruent to its argument modulo 256 |
| `Blocks.CStringReadsBack` | libTinyFS.c:155 | a run of non-zero bytes followed by a zero reads back, as a C string, as exactly that run |
| `Blocks.CreatedInodeFields` | libTinyFS.c:176-186 | turning an initFreeblock image into an inode gives type 2, keeps the magic number and the link, clears byte 3, and the name at offset 4 reads back as the name written, terminated by the free block's zero padding |
| `Format.RoundDown` | libTinyFS.c:21-23 | the rounded size is a multiple of BLOCKSIZE, not above `nBytes` and less than one block below it |
| `Format.RoundingStep` | libTinyFS.c:21-23 | decrementing a size that is not a multiple of BLOCKSIZE lowers its remainder by one and keeps its rounded value |
| `Format.RoundToBlocks` | libTinyFS.c:21-23 | the decrement loop ends at exactly the largest multiple of BLOCKSIZE not above `nBytes` |
| `Format.ChainFrom` | libTinyFS.c:29-37 | on the corrected image of 2..256 blocks (block k links to k+1; the corrected half of the libTinyFS.c:31-34 finding), following links from free block k visits k..n-1 in order and stops |
| `Format.FormattedFreeList` | libTinyFS.c:25-37 | the corrected image of 2..256 blocks (block k links to k+1; the corrected half of the libTinyFS.c:31-34 finding) has first-free 1 in its superblock, and its free list visits blocks 1..n-1 in order and ends at link 0 |
| `Format.AsWrittenFreeListLoops` | libTinyFS.c:31-34 | with the links the code writes (block k links to k), on 3 or more blocks the free list repeats block 1 forever and never reaches block 2 |
| `TinyFS.FindInodeIsFirstMatch` | libTinyFS.c:146-161 | the inode search returns a block exactly when some scanned block is a type-2 block named `name`, and then the first such block |
| `TinyFS.FindFreeIsFirstFree` | libTinyFS.c:165-174 | the free search returns a block exactly when some scanned block has type 4, and then the first such block |
| `TinyFS.CreatedInodeIsFound` | libTinyFS.c:164-191 | when no inode has the name and the first free block is an initFreeblock image, the inode created there is what a later scan for the name finds |
| `TinyFS.FirstOpenOnFormattedDisk` | libTinyFS.c:25-37 | on a freshly formatted disk of two or more blocks, whatever links its free blocks carry (the self-links tfs_mkfs writes included), no name has an inode, and the first free block found is block 1 |
| `TinyFS.FormattedFreeBlocksClean` | libTinyFS.c:29-37 | every free block of a formatted image, whatever its links, is an initFreeblock image (zero from byte 3 on) |
| `TinyFS.CreationKeepsFreeBlocksClean` | libTinyFS.c:177-191 | turning one block into an inode keeps every remaining free block an initFreeblock image |
| `TinyFS.FileSystem.constructor` | libTinyFS.c:12-14 | before any call nothing is mounted, the static table has 9 closed slots and there is no cursor array |
| `TinyFS.FileSystem.OpenDisk` | libDisk.c:8-20 | opening succeeds exactly when the device is available and `nBytes` is 0 or at least one block; 0 keeps the container, other sizes resize it to whole blocks |
| `TinyFS.FileSystem.ReadBlock` | libDisk.c:22-56 | a block inside the container is copied into the buffer with status 0; outside it, `ERR_READ` and the buffer unchanged |
| `TinyFS.FileSystem.WriteBlock` | libDisk.c:58-66 | a block that is inside the container and not rejected by the device is replaced, with status 0; otherwise `ERR_WRITE` and nothing changes |
| `TinyFS.FileSystem.Mkfs` | libTinyFS.c:16-43 | `MKFS_FAILURE` with nothing changed if the container cannot be opened; otherwise the image tfs_mkfs writes for `nBytes / BLOCKSIZE` blocks (superblock, then free blocks each linking to itself, the last to 0) is written in block order up to the first failing write, and the result is `SUCCESS` exactly when every block was written |
| `TinyFS.FileSystem.WriteFreeBlocks` | libTinyFS.c:29-38 | blocks 1..n-1 are written as free blocks in order, block k with link k and the last with link 0, stopping with `MKFS_FAILURE` at the first write that fails |
| `TinyFS.FileSystem.Mount` | libTinyFS.c:70-102 | when mounted: `ERR_TFS_MOUNT` and nothing changes; when block 0 cannot be read or lacks 0x44: `ERR_INVALID_TFS` and still unmounted; otherwise `SUCCESS`, mounted, fresh table and cursor array of superblock-byte-4 slots, all closed and all 0 |
| `TinyFS.FileSystem.Unmount` | libTinyFS.c:104-119 | when not mounted: `ERR_TFS_UNMOUNT` and nothing changes; otherwise `SUCCESS`, unmounted, both tables released |
| `TinyFS.FileSystem.ScanForInode` | libTinyFS.c:146-161 | the loop returns the block the inode search specifies |
| `TinyFS.FileSystem.ScanForFree` | libTinyFS.c:163-174 | the loop returns the block the free search specifies and leaves that block in the buffer |
| `TinyFS.FileSystem.OpenFile` | libTinyFS.c:121-200 | names over 8 bytes: `ERR_FILE_NAME_LENGTH`, checked before mounting; unmounted: `ERR_TFS_NOT_MOUNTED`; an existing inode: its block number, its slot marked open, disk unchanged; else the first free block becomes `MakeInode` of itself (unless the write fails) and its number is returned, table unchanged; no free block: `ERR_INVALID_SPACE`, nothing changes |
| `TinyFS.FileSystem.OpenFileMarked` | libTinyFS.h:42-45 | as `OpenFile`, except that a created file's slot is marked open too; every handle it returns inside the table names an open slot |
| `TinyFS.FileSystem.CloseFile` | libTinyFS.c:202-215 | an open slot is cleared with `SUCCESS`; any other handle gives `ERR_FILE_CLOSE` and the table is unchanged |
| `Scenarios.FormatThenMount` | libTinyFS.c:16-101 | formatting 1..255 whole blocks on a healthy device and mounting both succeed; the disk is the image tfs_mkfs writes (self-linked free blocks), and the table is fresh, with one closed slot per block |
| `Scenarios.OpenTwice` | libTinyFS.c:146-197 | opening a name twice returns the same handle both times; that block is an inode with the name, marked open after the second call, and free blocks stay clean |
| `Scenarios.CloseTwice` | libTinyFS.c:207-214 | closing an open handle succeeds and closing it again gives `ERR_FILE_CLOSE` |
| `Scenarios.CreateThenCloseFails` | libTinyFS.c:163-214 | on a freshly formatted and mounted disk of 2..255 blocks, opening a new name creates its inode in block 1, and closing that handle gives `ERR_FILE_CLOSE` |
| `Scenarios.CreateThenCloseSucceeds` | libTinyFS.c:163-214 | the same sequence with `OpenFileMarked`: the inode is created in block 1 and closing it succeeds, leaving the slot closed |
| `Scenarios.UnmountThenMount` | libTinyFS.c:75-113 | after an unmount, mounting a valid disk passes the already-mounted check and succeeds |

## Left out

- `tfs_writeFile`, `tfs_deleteFile`, `tfs_readByte`, `tfs_seek` (libTinyFS.c:217-229): stubs with no behaviour in this revision.
- `tfs_makeRO`, `tfs_makeRW`, `tfs_rename`, `tfs_readdir`, `tfs_defrag`, `tfs_displayFragments`, `tfs_readFileInfo`, `resetFile`, `initExtent`, `initInodeblock`, `writeByte`: declared in `libTinyFS.h` with no body.
- Timestamps (a TODO at libTinyFS.c:188) and every `perror` message.
- `tinyFsDemo.c`: console demo only.
- `libDisk.c` internals (`lseek`/`read` and byte offsets): replaced by the abstract block sequence and fault model described above.
- `openFilesLocation` beyond mount: no operation of this revision reads or moves a cursor.
- TinyFS.FileSystem.Mount: does not record which container name is mounted; one `FileSystem` object is one container.
- TinyFS.FileSystem.ReadBlock: reports `ERR_READ` for a block outside the container, where libDisk.c's `readBlock` reports 0 after a short read; no caller depends on the difference.
- TinyFS.FileSystem.Mkfs: like the source, has no block-count ceiling. The block count in superblock byte 4 wraps modulo 256, so a 256-block disk mounts with an empty open-file table; that is why `Scenarios.FormatThenMount` stops at 255 blocks. From 257 blocks on the links wrap as well, so `Format.FormattedFreeList` is stated for at most 256 blocks.

## Findings

| source | as written | input that shows it | evidently intended | confidence | as-written member | corrected member |
|---|---|---|---|---|---|---|
| libTinyFS.c:31-34 | each free block k except the last gets link `traversed`, its own number | `tfs_mkfs` with `nBytes` = 3 * BLOCKSIZE: block 1 links to 1, so the free list from the superblock never reaches block 2 and never ends | block k links to k + 1, the last to 0 | high (not executed) | `Format.AsWrittenFreeListLoops` | `Format.FormattedFreeList` |
| libTinyFS.c:163-197 | a file that `tfs_openFile` creates gets no slot in the open-file table; only an existing file's slot is set | on a freshly formatted and mounted disk, `tfs_openFile("a")` creates the inode in block 1 and returns 1; `tfs_closeFile(1)` then returns `ERR_FILE_CLOSE` | creating a file also opens it, with a table entry (libTinyFS.h:42-45), so closing it succeeds; `TinyFS.FileSystem.OpenFileMarked` opens that way | high (not executed) | `Scenarios.CreateThenCloseFails` | `Scenarios.CreateThenCloseSucceeds` |
