/**
 * Call sequences of the TinyFS library, proved from the contracts of its
 * operations alone.
 */
module Scenarios {
  import opened Blocks
  import opened Errno
  import opened Format
  import opened TinyFS

  /**
   * Formatting a container of 1..255 whole blocks on a healthy device and
   * mounting it succeeds, and the open-file table gets one slot per block.
   */
  method FormatThenMount(fs: FileSystem, nBytes: int) returns (formatted: int, mounting: int)
    requires fs.Valid() && !fs.mounted && fs.diskAvailable
    requires BLOCKSIZE <= nBytes < 256 * BLOCKSIZE
    requires forall k :: 0 <= k < nBytes / BLOCKSIZE ==> k !in fs.badBlocks
    modifies fs
    ensures formatted == SUCCESS && mounting == SUCCESS
    ensures fs.Valid() && fs.mounted && fs.disk == FormattedImageAsWritten(nBytes / BLOCKSIZE)
    ensures fs.openFiles.Length == fs.locations.Length == nBytes / BLOCKSIZE
    ensures fresh(fs.openFiles) && forall k :: 0 <= k < fs.openFiles.Length ==> !fs.openFiles[k]
  {
    ghost var n := nBytes / BLOCKSIZE;
    formatted := fs.Mkfs(nBytes);
    FormattedBlockAsWritten(n, 0);
    mounting := fs.Mount();
  }

  /**
   * Opening a name twice on a mounted disk whose free blocks are clean and
   * whose device accepts every write: both calls return the same handle; when
   * the first call created the file, the second finds it and marks it open.
   */
  method OpenTwice(fs: FileSystem, name: seq<byte>) returns (first: int, second: int)
    requires fs.Valid() && fs.mounted && fs.badBlocks == {}
    requires IsCString(name) && |name| <= MAX_FILE_NAME_LENGTH
    requires FreeBlocksClean(fs.disk)
    modifies fs, fs.openFiles
    ensures first == second
    ensures fs.Valid()
    ensures first != ERR_INVALID_SPACE ==> 0 <= first < |fs.disk| && IsInodeNamed(fs.disk[first], name)
    ensures first != ERR_INVALID_SPACE && first < fs.openFiles.Length ==> fs.openFiles[first]
    ensures FreeBlocksClean(fs.disk)
  {
    ghost var d0 := fs.disk;
    first := fs.OpenFile(name);
    FindInodeIsFirstMatch(d0, name, 0);
    if FindInode(d0, name, 0).None? && FindFree(d0, 0).Some? {
      var b := FindFree(d0, 0).value;
      FindFreeIsFirstFree(d0, 0);
      CreatedInodeIsFound(d0, name, b);
      CreationKeepsFreeBlocksClean(d0, b, name);
    }
    second := fs.OpenFile(name);
    FindInodeIsFirstMatch(fs.disk, name, 0);
  }

  /** Closing an open handle succeeds; closing it again fails. */
  method CloseTwice(fs: FileSystem, fd: int) returns (first: int, second: int)
    requires fs.IsOpen(fd)
    modifies fs.openFiles
    ensures first == SUCCESS && second == ERR_FILE_CLOSE
    ensures !fs.IsOpen(fd)
  {
    first := fs.CloseFile(fd);
    second := fs.CloseFile(fd);
  }

  /**
   * Creating a file on a freshly formatted and mounted disk, then closing it:
   * the file is created in block 1, but tfs_openFile leaves its slot closed,
   * so the close fails.
   */
  method CreateThenCloseFails(fs: FileSystem, nBytes: int, name: seq<byte>)
    returns (fd: int, closing: int)
    requires fs.Valid() && !fs.mounted && fs.diskAvailable
    requires 2 * BLOCKSIZE <= nBytes < 256 * BLOCKSIZE
    requires forall k :: 0 <= k < nBytes / BLOCKSIZE ==> k !in fs.badBlocks
    requires IsCString(name) && |name| <= MAX_FILE_NAME_LENGTH
    modifies fs
    ensures fs.Valid() && |fs.disk| == nBytes / BLOCKSIZE
    ensures fd == 1 && IsInodeNamed(fs.disk[1], name)
    ensures closing == ERR_FILE_CLOSE
  {
    var formatted, mounting := FormatThenMount(fs, nBytes);
    ghost var n := nBytes / BLOCKSIZE;
    FirstOpenOnFormattedDisk(n, k => SelfLink(k, n), name);
    fd := fs.OpenFile(name);
    FormattedBlockAsWritten(n, 1);
    CreatedInodeFields(SelfLink(1, n), name);
    closing := fs.CloseFile(fd);
  }

  /**
   * The same sequence with the open that marks a created file: the file is
   * created in block 1 and closing it succeeds.
   */
  method CreateThenCloseSucceeds(fs: FileSystem, nBytes: int, name: seq<byte>)
    returns (fd: int, closing: int)
    requires fs.Valid() && !fs.mounted && fs.diskAvailable
    requires 2 * BLOCKSIZE <= nBytes < 256 * BLOCKSIZE
    requires forall k :: 0 <= k < nBytes / BLOCKSIZE ==> k !in fs.badBlocks
    requires IsCString(name) && |name| <= MAX_FILE_NAME_LENGTH
    modifies fs
    ensures fs.Valid() && |fs.disk| == nBytes / BLOCKSIZE
    ensures fd == 1 && IsInodeNamed(fs.disk[1], name)
    ensures closing == SUCCESS && !fs.IsOpen(fd)
  {
    var formatted, mounting := FormatThenMount(fs, nBytes);
    ghost var n := nBytes / BLOCKSIZE;
    FirstOpenOnFormattedDisk(n, k => SelfLink(k, n), name);
    fd := fs.OpenFileMarked(name);
    FormattedBlockAsWritten(n, 1);
    CreatedInodeFields(SelfLink(1, n), name);
    closing := fs.CloseFile(fd);
  }

  /** After an unmount the already-mounted check passes: the disk mounts again. */
  method UnmountThenMount(fs: FileSystem) returns (unmounting: int, mounting: int)
    requires fs.Valid() && fs.mounted && fs.Mountable(fs.disk)
    modifies fs
    ensures unmounting == SUCCESS && mounting == SUCCESS && fs.mounted
  {
    unmounting := fs.Unmount();
    mounting := fs.Mount();
  }
}
