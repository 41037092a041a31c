/**
 * The on-disk block layout of TinyFS.
 *
 * Every block is BLOCKSIZE bytes and starts with the same header:
 * byte 0 is the block type, byte 1 the magic number, byte 2 a link to
 * another block.  The encoders of libTinyFS.c fill a `tfs_block` buffer in
 * place; the functions here give the byte image they produce.
 */
module Blocks {

  newtype byte = b: int | 0 <= b < 256

  /** Bytes per block (tinyFS.h, which is not part of this model). */
  const BLOCKSIZE: int := 256
  /** Size of the default container (tinyFS.h); it bounds the inode scans. */
  const DEFAULT_DISK_SIZE: int := 10240
  /** The byte every block carries at offset 1 (libTinyFS.h). */
  const MAGIC_NUM: byte := 0x44
  /** Longest file name accepted by tfs_openFile (libTinyFS.h). */
  const MAX_FILE_NAME_LENGTH: int := 8

  /** Block type codes stored in byte 0. */
  const SuperType: byte := 1
  const InodeType: byte := 2
  const FreeType: byte := 4

  /** Offset of an inode's zero-terminated name. */
  const NameOffset: int := 4

  type Block = seq<byte>

  predicate IsBlock(b: seq<byte>) { |b| == BLOCKSIZE }

  /** All blocks of a container image have the block size. */
  predicate AllBlocks(d: seq<Block>) { forall k :: 0 <= k < |d| ==> IsBlock(d[k]) }

  /** The bytes of a C string: none of them is the terminating zero. */
  predicate IsCString(s: seq<byte>) { forall i :: 0 <= i < |s| ==> s[i] != 0 }

  const ZeroBlock: Block := seq(BLOCKSIZE, _ => 0)

  /** C's `nBytes / BLOCKSIZE` on an `int`: division truncating toward zero. */
  function CDivBlock(nBytes: int): (r: int)
    ensures 0 <= nBytes ==> r * BLOCKSIZE <= nBytes < (r + 1) * BLOCKSIZE
    ensures nBytes < 0 ==> (r - 1) * BLOCKSIZE < nBytes <= r * BLOCKSIZE
  {
    if nBytes >= 0 then nBytes / BLOCKSIZE else -((-nBytes) / BLOCKSIZE)
  }

  /** C's `(unsigned char) x`: the one byte congruent to x modulo 256. */
  function UnsignedChar(x: int): (r: byte)
    ensures (x - r as int) % 256 == 0
  {
    (x % 256) as byte
  }

  /** Image of a free block whose link is `nextFree`: header, then zeros. */
  function FreeBlock(nextFree: byte): (b: Block)
    ensures IsBlock(b)
  {
    seq(BLOCKSIZE, i => if i == 0 then FreeType else if i == 1 then MAGIC_NUM
                        else if i == 2 then nextFree else 0)
  }

  /** Image of the superblock: first free block in byte 2, block count in byte 4. */
  function SuperBlock(firstFree: byte, blocks: byte): (b: Block)
    ensures IsBlock(b)
  {
    seq(BLOCKSIZE, i => if i == 0 then SuperType else if i == 1 then MAGIC_NUM
                        else if i == 2 then firstFree else if i == 4 then blocks else 0)
  }

  function Kind(b: Block): byte requires IsBlock(b) { b[0] }
  function Magic(b: Block): byte requires IsBlock(b) { b[1] }
  function Link(b: Block): byte requires IsBlock(b) { b[2] }
  /** Byte 4 of the superblock: the block count that sizes the open-file table. */
  function BlockCount(b: Block): byte requires IsBlock(b) { b[4] }

  /** The C string stored from offset `i`: bytes up to the first zero or the block's end. */
  function CStringFrom(b: seq<byte>, i: nat): (s: seq<byte>)
    requires i <= |b|
    decreases |b| - i
  {
    if i == |b| || b[i] == 0 then [] else [b[i]] + CStringFrom(b, i + 1)
  }

  /**
   * The name an inode block holds; `strcmp(name, buf + 4) == 0` holds exactly
   * when this equals `name` (a name of at most MAX_FILE_NAME_LENGTH bytes
   * differs from any longer run of non-zero bytes before strcmp leaves the block).
   */
  function NameAt(b: Block): seq<byte>
    requires IsBlock(b)
  {
    CStringFrom(b, NameOffset)
  }

  /**
   * What tfs_openFile makes of block `b` to create a file: type 2, byte 3
   * cleared, the name copied to offset 4, every other byte kept.
   */
  function MakeInode(b: Block, name: seq<byte>): (r: Block)
    requires IsBlock(b) && |name| <= MAX_FILE_NAME_LENGTH
    ensures IsBlock(r)
  {
    seq(BLOCKSIZE, i requires 0 <= i < BLOCKSIZE =>
                     if i == 0 then InodeType else if i == 3 then 0
                        else if NameOffset <= i < NameOffset + |name| then name[i - NameOffset]
                        else b[i])
  }

  /** A run of non-zero bytes followed by a zero reads back as that C string. */
  lemma {:induction false} CStringReadsBack(b: seq<byte>, i: nat, s: seq<byte>)
    requires IsCString(s) && i + |s| < |b|
    requires b[i..i + |s|] == s && b[i + |s|] == 0
    ensures CStringFrom(b, i) == s
    decreases |s|
  {
    if s != [] {
      assert b[i] == s[0];
      assert b[i + 1..i + 1 + |s[1..]|] == s[1..];
      CStringReadsBack(b, i + 1, s[1..]);
    }
  }

  /**
   * Creating an inode in a free block written by initFreeblock: the block
   * becomes an inode, keeps the magic number and the link, and its name reads
   * back as the name written (the zero padding of the free block terminates it).
   */
  lemma CreatedInodeFields(nextFree: byte, name: seq<byte>)
    requires IsCString(name) && |name| <= MAX_FILE_NAME_LENGTH
    ensures var b := MakeInode(FreeBlock(nextFree), name);
            Kind(b) == InodeType && Magic(b) == MAGIC_NUM && Link(b) == nextFree && b[3] == 0 &&
            NameAt(b) == name
  {
    var b := MakeInode(FreeBlock(nextFree), name);
    assert b[NameOffset..NameOffset + |name|] == name;
    CStringReadsBack(b, NameOffset, name);
  }

  /** initFreeblock: fills `buf` with the image of a free block linking to `nextFree`. */
  method InitFreeblock(buf: array<byte>, nextFree: byte)
    requires buf.Length == BLOCKSIZE
    modifies buf
    ensures buf[0] == FreeType && buf[1] == MAGIC_NUM && buf[2] == nextFree
    ensures forall i :: 3 <= i < BLOCKSIZE ==> buf[i] == 0
    ensures buf[..] == FreeBlock(nextFree)
  {
    buf[0] := FreeType;
    buf[1] := MAGIC_NUM;
    buf[2] := nextFree;
    var i := 3;
    while i < BLOCKSIZE
      invariant 3 <= i <= BLOCKSIZE
      invariant buf[0] == FreeType && buf[1] == MAGIC_NUM && buf[2] == nextFree
      invariant forall k :: 3 <= k < i ==> buf[k] == 0
    {
      buf[i] := 0;
      i := i + 1;
    }
  }

  /**
   * initSuperblock: fills `buf` with the superblock image; byte 4 is the block
   * count `nBytes / BLOCKSIZE` truncated to a byte.
   */
  method InitSuperblock(buf: array<byte>, firstFree: byte, nBytes: int)
    requires buf.Length == BLOCKSIZE
    modifies buf
    ensures buf[0] == SuperType && buf[1] == MAGIC_NUM && buf[2] == firstFree && buf[3] == 0
    ensures buf[4] == UnsignedChar(CDivBlock(nBytes))
    ensures forall i :: 5 <= i < BLOCKSIZE ==> buf[i] == 0
    ensures buf[..] == SuperBlock(firstFree, UnsignedChar(CDivBlock(nBytes)))
  {
    var blocks := UnsignedChar(CDivBlock(nBytes));
    buf[0] := SuperType;
    buf[1] := MAGIC_NUM;
    buf[2] := firstFree;
    buf[3] := 0;
    buf[4] := blocks;
    var i := 5;
    while i < BLOCKSIZE
      invariant 5 <= i <= BLOCKSIZE
      invariant buf[0] == SuperType && buf[1] == MAGIC_NUM && buf[2] == firstFree
      invariant buf[3] == 0 && buf[4] == blocks
      invariant forall k :: 5 <= k < i ==> buf[k] == 0
    {
      buf[i] := 0;
      i := i + 1;
    }
  }
}
