/**
 * The TinyFS library of libTinyFS.c: formatting a container, the mount
 * session kept in the globals mountedDisk, openFilesTable and
 * openFilesLocation, and opening and closing files by name.
 *
 * The container is held by the block-device layer (libDisk.c); here it is the
 * sequence of blocks `disk`, with a fault model saying when the layer fails.
 */
module TinyFS {
  import opened Blocks
  import opened Errno
  import opened Format

  datatype Option<T> = None | Some(value: T)

  /** `char *openFilesTable[9]`: the table's slots before the first mount. */
  const InitialTableSlots: nat := 9

  /**
   * Blocks the inode scans of tfs_openFile read: they stop at
   * DEFAULT_DISK_SIZE / BLOCKSIZE, and blocks past the end of the container
   * read back nothing new.
   */
  function ScanLimit(d: seq<Block>): (r: nat)
    ensures r <= |d| && r <= DEFAULT_DISK_SIZE / BLOCKSIZE
    ensures r == |d| || r == DEFAULT_DISK_SIZE / BLOCKSIZE
  {
    if |d| < DEFAULT_DISK_SIZE / BLOCKSIZE then |d| else DEFAULT_DISK_SIZE / BLOCKSIZE
  }

  /** `buf[0] == 2 && !strcmp(name, buf + 4)`: an inode holding `name`. */
  predicate IsInodeNamed(b: Block, name: seq<byte>)
    requires IsBlock(b)
  {
    Kind(b) == InodeType && NameAt(b) == name
  }

  /** The first block from `from` on that is an inode named `name`. */
  function FindInode(d: seq<Block>, name: seq<byte>, from: nat): (r: Option<nat>)
    requires AllBlocks(d)
    ensures r.Some? ==> from <= r.value < ScanLimit(d)
    decreases ScanLimit(d) - from
  {
    if from >= ScanLimit(d) then None
    else if IsInodeNamed(d[from], name) then Some(from)
    else FindInode(d, name, from + 1)
  }

  /** The first block from `from` on whose type byte says free. */
  function FindFree(d: seq<Block>, from: nat): (r: Option<nat>)
    requires AllBlocks(d)
    ensures r.Some? ==> from <= r.value < ScanLimit(d)
    decreases ScanLimit(d) - from
  {
    if from >= ScanLimit(d) then None
    else if Kind(d[from]) == FreeType then Some(from)
    else FindFree(d, from + 1)
  }

  /** FindInode finds a matching inode exactly when one exists, and then the first. */
  lemma {:induction false} FindInodeIsFirstMatch(d: seq<Block>, name: seq<byte>, from: nat)
    requires AllBlocks(d)
    ensures match FindInode(d, name, from)
              case Some(i) => IsInodeNamed(d[i], name) &&
                              forall k :: from <= k < i ==> !IsInodeNamed(d[k], name)
              case None => forall k :: from <= k < ScanLimit(d) ==> !IsInodeNamed(d[k], name)
    decreases ScanLimit(d) - from
  {
    if from < ScanLimit(d) && !IsInodeNamed(d[from], name) {
      FindInodeIsFirstMatch(d, name, from + 1);
    }
  }

  /** FindFree finds a free block exactly when one exists, and then the first. */
  lemma {:induction false} FindFreeIsFirstFree(d: seq<Block>, from: nat)
    requires AllBlocks(d)
    ensures match FindFree(d, from)
              case Some(i) => Kind(d[i]) == FreeType &&
                              forall k :: from <= k < i ==> Kind(d[k]) != FreeType
              case None => forall k :: from <= k < ScanLimit(d) ==> Kind(d[k]) != FreeType
    decreases ScanLimit(d) - from
  {
    if from < ScanLimit(d) && Kind(d[from]) != FreeType {
      FindFreeIsFirstFree(d, from + 1);
    }
  }

  /**
   * A file created in the first free block, when that block is as
   * initFreeblock wrote it, is the inode a later scan for the same name finds.
   */
  lemma CreatedInodeIsFound(d: seq<Block>, name: seq<byte>, b: nat)
    requires AllBlocks(d) && IsCString(name) && |name| <= MAX_FILE_NAME_LENGTH
    requires FindInode(d, name, 0).None? && FindFree(d, 0) == Some(b)
    requires d[b] == FreeBlock(Link(d[b]))
    ensures FindInode(d[b := MakeInode(d[b], name)], name, 0) == Some(b)
  {
    var d' := d[b := MakeInode(d[b], name)];
    FindInodeIsFirstMatch(d, name, 0);
    CreatedInodeFields(Link(d[b]), name);
    assert IsInodeNamed(d'[b], name);
    FindInodeIsFirstMatch(d', name, 0);
  }

  /**
   * On a freshly formatted disk of two or more blocks no name has an inode
   * yet, and the first free block is block 1; this holds whatever links the
   * free blocks carry, so for the image tfs_mkfs writes as well as the
   * corrected one.
   */
  lemma FirstOpenOnFormattedDisk(n: nat, link: int -> byte, name: seq<byte>)
    requires 2 <= n
    ensures FindInode(ImageWith(n, link), name, 0).None?
    ensures FindFree(ImageWith(n, link), 0) == Some(1)
  {
    var img := ImageWith(n, link);
    forall k | 0 <= k < |img|
      ensures Kind(img[k]) == if k == 0 then SuperType else FreeType
    {
      ImageBlock(n, link, k);
    }
    FindInodeIsFirstMatch(img, name, 0);
    FindFreeIsFirstFree(img, 0);
  }

  /** Every block whose type byte says free is as initFreeblock writes it. */
  ghost predicate FreeBlocksClean(d: seq<Block>)
    requires AllBlocks(d)
  {
    forall k :: 0 <= k < |d| && Kind(d[k]) == FreeType ==> d[k] == FreeBlock(Link(d[k]))
  }

  /** A freshly formatted disk has only clean free blocks, whatever their links. */
  lemma FormattedFreeBlocksClean(n: nat, link: int -> byte)
    ensures FreeBlocksClean(ImageWith(n, link))
  {
    var img := ImageWith(n, link);
    forall k | 0 <= k < |img| && Kind(img[k]) == FreeType
      ensures img[k] == FreeBlock(Link(img[k]))
    {
      ImageBlock(n, link, k);
    }
  }

  /** Turning a block into an inode keeps every remaining free block clean. */
  lemma CreationKeepsFreeBlocksClean(d: seq<Block>, b: nat, name: seq<byte>)
    requires AllBlocks(d) && b < |d| && |name| <= MAX_FILE_NAME_LENGTH
    requires FreeBlocksClean(d)
    ensures FreeBlocksClean(d[b := MakeInode(d[b], name)])
  {
  }

  /** Writing block t of `img` over a container formatted up to block t. */
  lemma WriteNextBlock(img: seq<Block>, c: seq<Block>, t: nat)
    requires t < |img| && t < |c|
    ensures (img[..t] + c[t..])[t := img[t]] == img[..t + 1] + c[t + 1..]
  {
  }

  /** The container as openDisk(filename, nBytes) leaves it when it succeeds. */
  function Opened(d: seq<Block>, nBytes: int): (r: seq<Block>)
    requires AllBlocks(d) && nBytes >= 0
    ensures AllBlocks(r)
  {
    if nBytes == 0 then d
    else seq(nBytes / BLOCKSIZE, k requires 0 <= k < nBytes / BLOCKSIZE =>
               if k < |d| then d[k] else ZeroBlock)
  }

  class FileSystem {
    /** The container's blocks, as the block-device layer holds them. */
    var disk: seq<Block>
    /** Whether the block-device layer can open the container. */
    const diskAvailable: bool
    /** Block numbers whose writes the block-device layer rejects. */
    const badBlocks: set<int>

    /** mountedDisk != NULL: a file system is mounted. */
    var mounted: bool
    /** openFilesTable: slot k is set while the file whose inode is block k is open. */
    var openFiles: array<bool>
    /** openFilesLocation: the byte cursor of each slot. */
    var locations: array<int>

    ghost predicate Valid()
      reads this
    {
      AllBlocks(disk)
    }

    /** The library before any call: nothing mounted, the static table all empty. */
    constructor (image: seq<Block>, available: bool, bad: set<int>)
      requires AllBlocks(image)
      ensures Valid() && disk == image && diskAvailable == available && badBlocks == bad
      ensures !mounted && fresh(openFiles) && fresh(locations)
      ensures openFiles.Length == InitialTableSlots && locations.Length == 0
      ensures forall k :: 0 <= k < openFiles.Length ==> !openFiles[k]
    {
      disk := image;
      diskAvailable := available;
      badBlocks := bad;
      mounted := false;
      openFiles := new bool[InitialTableSlots](_ => false);
      locations := new int[0];
    }

    /** openDisk succeeds: 0 opens the existing container, less than a block is refused. */
    predicate DiskOpens(nBytes: int)
    {
      diskAvailable && (nBytes == 0 || nBytes >= BLOCKSIZE)
    }

    /** A write of block k fails. */
    predicate Unwritable(d: seq<Block>, k: int)
    {
      k < 0 || k >= |d| || k in badBlocks
    }

    /** The first block number in [from, m) whose write fails, or m. */
    function FirstUnwritable(d: seq<Block>, from: nat, m: nat): (r: nat)
      requires from <= m
      ensures from <= r <= m
      ensures r < m ==> Unwritable(d, r)
      ensures forall k :: from <= k < r ==> !Unwritable(d, k)
      decreases m - from
    {
      if from == m then m
      else if Unwritable(d, from) then from
      else FirstUnwritable(d, from + 1, m)
    }

    /** The superblock can be read and carries the magic number. */
    predicate Mountable(d: seq<Block>)
      requires AllBlocks(d)
    {
      diskAvailable && |d| > 0 && Magic(d[0]) == MAGIC_NUM
    }

    /** Whether handle `fd` names an open table slot. */
    predicate IsOpen(fd: int)
      reads this, openFiles
    {
      0 <= fd < openFiles.Length && openFiles[fd]
    }

    /** openDisk (libDisk.c) as the core relies on it. */
    method OpenDisk(nBytes: int) returns (fd: int)
      requires Valid()
      modifies this`disk
      ensures Valid()
      ensures fd >= 0 <==> DiskOpens(nBytes)
      ensures disk == if DiskOpens(nBytes) then Opened(old(disk), nBytes) else old(disk)
    {
      if DiskOpens(nBytes) {
        disk := Opened(disk, nBytes);
        fd := 0;
      } else {
        fd := -1;
      }
    }

    /** readBlock (libDisk.c): copies block bNum into buf. */
    method ReadBlock(bNum: int, buf: array<byte>) returns (status: int)
      requires Valid() && buf.Length == BLOCKSIZE
      modifies buf
      ensures 0 <= bNum < |disk| ==> status == 0 && buf[..] == disk[bNum]
      ensures !(0 <= bNum < |disk|) ==> status == ERR_READ && buf[..] == old(buf[..])
    {
      if 0 <= bNum < |disk| {
        forall j | 0 <= j < BLOCKSIZE {
          buf[j] := disk[bNum][j];
        }
        status := 0;
      } else {
        status := ERR_READ;
      }
    }

    /** writeBlock (libDisk.c): replaces block bNum, unless the device rejects it. */
    method WriteBlock(bNum: int, block: Block) returns (status: int)
      requires Valid() && IsBlock(block)
      modifies this`disk
      ensures Valid()
      ensures !Unwritable(old(disk), bNum) ==> status == 0 && disk == old(disk)[bNum := block]
      ensures Unwritable(old(disk), bNum) ==> status == ERR_WRITE && disk == old(disk)
    {
      if Unwritable(disk, bNum) {
        status := ERR_WRITE;
      } else {
        disk := disk[bNum := block];
        status := 0;
      }
    }

    /**
     * tfs_mkfs: rounds nBytes down to whole blocks, then writes the superblock
     * and the free blocks in block order, stopping at the first write that fails.
     * The free blocks carry the links the code writes: each links to itself,
     * the last to 0 (see `Format.AsWrittenFreeListLoops`).
     */
    method Mkfs(nBytes: int) returns (status: int)
      requires Valid()
      modifies this`disk
      ensures Valid()
      ensures !DiskOpens(nBytes) ==> status == MKFS_FAILURE && disk == old(disk)
      ensures DiskOpens(nBytes) ==>
                var container := Opened(old(disk), nBytes);
                var img := FormattedImageAsWritten(nBytes / BLOCKSIZE);
                var j := FirstUnwritable(container, 0, |img|);
                j <= |container| && disk == img[..j] + container[j..] &&
                (status == SUCCESS || status == MKFS_FAILURE) &&
                (status == SUCCESS <==> j == |img|)
    {
      var fd := OpenDisk(nBytes);
      if fd < 0 {
        return MKFS_FAILURE;
      }
      ghost var container := disk;
      var size := RoundToBlocks(nBytes);
      ghost var n: nat := nBytes / BLOCKSIZE;
      assert size == n * BLOCKSIZE;
      var buf := new byte[BLOCKSIZE];
      InitSuperblock(buf, 1, size);
      assert CDivBlock(size) == n;
      FormattedBlockAsWritten(n, 0);
      var written := WriteBlock(0, buf[..]);
      if written < 0 {
        return MKFS_FAILURE;
      }
      WriteNextBlock(FormattedImageAsWritten(n), container, 0);
      status := WriteFreeBlocks(buf, size, n, container);
    }

    /**
     * The free-block loop of tfs_mkfs: writes blocks 1..n-1 as free blocks,
     * block k with link k and the last with link 0, stopping at the first
     * write that fails.
     */
    method WriteFreeBlocks(buf: array<byte>, size: int, ghost n: nat, ghost container: seq<Block>)
      returns (status: int)
      requires Valid() && buf.Length == BLOCKSIZE && size == n * BLOCKSIZE
      requires 1 <= |container| == |disk| && !Unwritable(container, 0)
      requires disk == FormattedImageAsWritten(n)[..1] + container[1..]
      modifies this`disk, buf
      ensures Valid()
      ensures var img := FormattedImageAsWritten(n);
              var j := FirstUnwritable(container, 0, |img|);
              j <= |container| && disk == img[..j] + container[j..] &&
              (status == SUCCESS || status == MKFS_FAILURE) &&
              (status == SUCCESS <==> j == |img|)
    {
      ghost var img := FormattedImageAsWritten(n);
      var traversed := 1;
      while traversed * BLOCKSIZE < size
        invariant Valid()
        invariant 1 <= traversed <= |img| && traversed <= |container| == |disk|
        invariant FirstUnwritable(container, 0, |img|) == FirstUnwritable(container, traversed, |img|)
        invariant disk == img[..traversed] + container[traversed..]
      {
        if (traversed + 1) * BLOCKSIZE >= size {
          InitFreeblock(buf, 0);
        } else {
          InitFreeblock(buf, UnsignedChar(traversed));
        }
        FormattedBlockAsWritten(n, traversed);
        var written := WriteBlock(traversed, buf[..]);
        if written < 0 {
          return MKFS_FAILURE;
        }
        WriteNextBlock(img, container, traversed);
        traversed := traversed + 1;
      }
      return SUCCESS;
    }

    /**
     * tfs_mount: refuses a second mount; opens the container and checks the
     * magic number of block 0; then sizes the open-file table and the cursor
     * array by superblock byte 4, every slot closed and every cursor 0.
     */
    method Mount() returns (status: int)
      requires Valid()
      modifies this
      ensures Valid() && disk == old(disk)
      ensures old(mounted) ==>
                status == ERR_TFS_MOUNT && mounted &&
                openFiles == old(openFiles) && locations == old(locations)
      ensures !old(mounted) && !Mountable(disk) ==>
                status == ERR_INVALID_TFS && !mounted &&
                openFiles == old(openFiles) && locations == old(locations)
      ensures !old(mounted) && Mountable(disk) ==>
                status == SUCCESS && mounted && fresh(openFiles) && fresh(locations) &&
                openFiles.Length == locations.Length == BlockCount(disk[0]) as int &&
                (forall k :: 0 <= k < openFiles.Length ==> !openFiles[k] && locations[k] == 0)
    {
      if mounted {
        return ERR_TFS_MOUNT;
      }
      var diskNum := OpenDisk(0);
      var buf := new byte[BLOCKSIZE];
      var read := ReadBlock(0, buf);
      if diskNum < 0 || read < 0 || buf[1] != MAGIC_NUM {
        return ERR_INVALID_TFS;
      }
      var count := buf[4] as int;
      var table := new bool[count];
      var cursors := new int[count];
      var i := 0;
      while i < count
        invariant 0 <= i <= count
        invariant forall k :: 0 <= k < i ==> !table[k] && cursors[k] == 0
        modifies table, cursors
      {
        table[i] := false;
        cursors[i] := 0;
        i := i + 1;
      }
      mounted := true;
      openFiles := table;
      locations := cursors;
      return SUCCESS;
    }

    /** tfs_unmount: fails when nothing is mounted, else ends the session and frees the tables. */
    method Unmount() returns (status: int)
      requires Valid()
      modifies this
      ensures Valid() && disk == old(disk) && !mounted
      ensures !old(mounted) ==>
                status == ERR_TFS_UNMOUNT && openFiles == old(openFiles) && locations == old(locations)
      ensures old(mounted) ==>
                status == SUCCESS && openFiles.Length == 0 && locations.Length == 0
    {
      if !mounted {
        return ERR_TFS_UNMOUNT;
      }
      mounted := false;
      openFiles := new bool[0];
      locations := new int[0];
      return SUCCESS;
    }

    /** The inode scan of tfs_openFile: the first block holding an inode named `name`. */
    method ScanForInode(name: seq<byte>) returns (found: Option<nat>)
      requires Valid()
      ensures found == FindInode(disk, name, 0)
    {
      var buf := new byte[BLOCKSIZE];
      var i := 0;
      while i < DEFAULT_DISK_SIZE / BLOCKSIZE && i < |disk|
        invariant 0 <= i <= ScanLimit(disk)
        invariant FindInode(disk, name, 0) == FindInode(disk, name, i)
      {
        var read := ReadBlock(i, buf);
        if buf[0] == InodeType && CStringFrom(buf[..], NameOffset) == name {
          return Some(i);
        }
        i := i + 1;
      }
      return None;
    }

    /** The free-block scan of tfs_openFile; `buf` is left holding the block found. */
    method ScanForFree(buf: array<byte>) returns (found: Option<nat>)
      requires Valid() && buf.Length == BLOCKSIZE
      modifies buf
      ensures found == FindFree(disk, 0)
      ensures found.Some? ==> buf[..] == disk[found.value]
    {
      var i := 0;
      while i < DEFAULT_DISK_SIZE / BLOCKSIZE && i < |disk|
        invariant 0 <= i <= ScanLimit(disk)
        invariant FindFree(disk, 0) == FindFree(disk, i)
      {
        var read := ReadBlock(i, buf);
        if buf[0] == FreeType {
          return Some(i);
        }
        i := i + 1;
      }
      return None;
    }

    /**
     * tfs_openFile: checks the name length, then that a disk is mounted; an
     * existing inode with the name is marked open and its block number
     * returned; otherwise the first free block becomes an inode holding the
     * name, and its block number is returned without marking it open.
     */
    method OpenFile(name: seq<byte>) returns (fd: int)
      requires Valid() && IsCString(name)
      modifies this`disk, openFiles
      ensures Valid()
      ensures |name| > MAX_FILE_NAME_LENGTH ==>
                fd == ERR_FILE_NAME_LENGTH && disk == old(disk) && openFiles[..] == old(openFiles[..])
      ensures |name| <= MAX_FILE_NAME_LENGTH && !mounted ==>
                fd == ERR_TFS_NOT_MOUNTED && disk == old(disk) && openFiles[..] == old(openFiles[..])
      ensures |name| <= MAX_FILE_NAME_LENGTH && mounted && FindInode(old(disk), name, 0).Some? ==>
                fd == FindInode(old(disk), name, 0).value && disk == old(disk) &&
                openFiles[..] == if fd < openFiles.Length then old(openFiles[..])[fd := true]
                                 else old(openFiles[..])
      ensures |name| <= MAX_FILE_NAME_LENGTH && mounted && FindInode(old(disk), name, 0).None? &&
              FindFree(old(disk), 0).Some? ==>
                fd == FindFree(old(disk), 0).value && openFiles[..] == old(openFiles[..]) &&
                disk == if Unwritable(old(disk), fd) then old(disk)
                        else old(disk)[fd := MakeInode(old(disk)[fd], name)]
      ensures |name| <= MAX_FILE_NAME_LENGTH && mounted && FindInode(old(disk), name, 0).None? &&
              FindFree(old(disk), 0).None? ==>
                fd == ERR_INVALID_SPACE && disk == old(disk) && openFiles[..] == old(openFiles[..])
    {
      if |name| > MAX_FILE_NAME_LENGTH {
        return ERR_FILE_NAME_LENGTH;
      }
      if !mounted {
        return ERR_TFS_NOT_MOUNTED;
      }
      var existing := ScanForInode(name);
      if existing.Some? {
        fd := existing.value;
        if fd < openFiles.Length {
          openFiles[fd] := true;
        }
        return fd;
      }
      var buf := new byte[BLOCKSIZE];
      var free := ScanForFree(buf);
      if free.None? {
        return ERR_INVALID_SPACE;
      }
      fd := free.value;
      buf[0] := InodeType;
      buf[3] := 0;
      forall j | 0 <= j < |name| {
        buf[NameOffset + j] := name[j];
      }
      assert buf[..] == MakeInode(disk[fd], name);
      // The source ignores the status of this write.
      var written := WriteBlock(fd, buf[..]);
    }

    /**
     * tfs_openFile as its interface describes it: a file it creates also gets
     * an open slot in the table, as an existing file does, so that closing it
     * later succeeds.  Everything else is as in OpenFile.
     */
    method OpenFileMarked(name: seq<byte>) returns (fd: int)
      requires Valid() && IsCString(name)
      modifies this`disk, openFiles
      ensures Valid()
      ensures 0 <= fd < openFiles.Length ==> IsOpen(fd)
      ensures |name| > MAX_FILE_NAME_LENGTH ==>
                fd == ERR_FILE_NAME_LENGTH && disk == old(disk) && openFiles[..] == old(openFiles[..])
      ensures |name| <= MAX_FILE_NAME_LENGTH && !mounted ==>
                fd == ERR_TFS_NOT_MOUNTED && disk == old(disk) && openFiles[..] == old(openFiles[..])
      ensures |name| <= MAX_FILE_NAME_LENGTH && mounted && FindInode(old(disk), name, 0).Some? ==>
                fd == FindInode(old(disk), name, 0).value && disk == old(disk) &&
                openFiles[..] == if fd < openFiles.Length then old(openFiles[..])[fd := true]
                                 else old(openFiles[..])
      ensures |name| <= MAX_FILE_NAME_LENGTH && mounted && FindInode(old(disk), name, 0).None? &&
              FindFree(old(disk), 0).Some? ==>
                fd == FindFree(old(disk), 0).value &&
                openFiles[..] == (if fd < openFiles.Length then old(openFiles[..])[fd := true]
                                  else old(openFiles[..])) &&
                disk == if Unwritable(old(disk), fd) then old(disk)
                        else old(disk)[fd := MakeInode(old(disk)[fd], name)]
      ensures |name| <= MAX_FILE_NAME_LENGTH && mounted && FindInode(old(disk), name, 0).None? &&
              FindFree(old(disk), 0).None? ==>
                fd == ERR_INVALID_SPACE && disk == old(disk) && openFiles[..] == old(openFiles[..])
    {
      fd := OpenFile(name);
      if 0 <= fd < openFiles.Length {
        openFiles[fd] := true;
      }
    }

    /** tfs_closeFile: clears an open slot; a slot that is not open is an error. */
    method CloseFile(fd: int) returns (status: int)
      modifies openFiles
      ensures old(IsOpen(fd)) ==> status == SUCCESS && openFiles[..] == old(openFiles[..])[fd := false]
      ensures !old(IsOpen(fd)) ==> status == ERR_FILE_CLOSE && openFiles[..] == old(openFiles[..])
    {
      if 0 <= fd < openFiles.Length && openFiles[fd] {
        openFiles[fd] := false;
        return SUCCESS;
      }
      return ERR_FILE_CLOSE;
    }
  }
}
