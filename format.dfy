/**
 * The disk image tfs_mkfs lays out: a superblock in block 0, then blocks
 * 1..n-1 as free blocks.  As written, each free block but the last links to
 * itself, so the links do not thread a list; the corrected image, in which
 * block k links to k + 1, does.
 */
module Format {
  import opened Blocks

  /**
   * The size the rounding loop of tfs_mkfs leaves: the largest multiple of
   * BLOCKSIZE not above nBytes.
   */
  function RoundDown(nBytes: int): (r: int)
    ensures r % BLOCKSIZE == 0 && r <= nBytes < r + BLOCKSIZE
  {
    nBytes - nBytes % BLOCKSIZE
  }

  /** One decrement of a size that is not a multiple of BLOCKSIZE keeps its rounded value. */
  lemma RoundingStep(x: int)
    requires x % BLOCKSIZE != 0
    ensures (x - 1) % BLOCKSIZE == x % BLOCKSIZE - 1
    ensures RoundDown(x - 1) == RoundDown(x)
  {
    var q, r := x / BLOCKSIZE, x % BLOCKSIZE;
    assert x - 1 == q * BLOCKSIZE + (r - 1) && 0 <= r - 1 < BLOCKSIZE;
  }

  /** The rounding loop of tfs_mkfs: decrements nBytes until it is a multiple of BLOCKSIZE. */
  method RoundToBlocks(nBytes: int) returns (size: int)
    ensures size == RoundDown(nBytes)
  {
    size := nBytes;
    while size % BLOCKSIZE != 0
      invariant size <= nBytes && RoundDown(size) == RoundDown(nBytes)
      decreases size % BLOCKSIZE
    {
      RoundingStep(size);
      size := size - 1;
    }
  }

  /** Link of free block k on an n-block disk, as intended: the next block, 0 after the last. */
  function FreeLink(k: int, n: int): byte
  {
    if k == n - 1 then 0 else UnsignedChar(k + 1)
  }

  /** Link of free block k on an n-block disk as tfs_mkfs writes it: the block's own number. */
  function SelfLink(k: int, n: int): byte
  {
    if k == n - 1 then 0 else UnsignedChar(k)
  }

  /**
   * Superblock (first free block 1, block count n truncated to a byte), then
   * one free block for each of 1..n-1 with the link `link` gives it.  With
   * n == 0 only the superblock is written.
   */
  function ImageWith(n: nat, link: int -> byte): (img: seq<Block>)
    ensures |img| == if n == 0 then 1 else n
    ensures AllBlocks(img)
  {
    var frees := seq(if n == 0 then 0 else n - 1, k => FreeBlock(link(k + 1)));
    assert forall k :: 0 <= k < |frees| ==> frees[k] == FreeBlock(link(k + 1));
    [SuperBlock(1, UnsignedChar(n))] + frees
  }

  /**
   * The corrected image of an n-block disk: block k links to k + 1, the last
   * to 0.  This is the corrected half of the self-link finding; tfs_mkfs
   * writes `FormattedImageAsWritten` instead.
   */
  function FormattedImage(n: nat): seq<Block>
  {
    ImageWith(n, k => FreeLink(k, n))
  }

  /** The blocks the formatter as written produces: every free block but the last links to itself. */
  function FormattedImageAsWritten(n: nat): seq<Block>
  {
    ImageWith(n, k => SelfLink(k, n))
  }

  /** Block k of the corrected image: the superblock, then free blocks. */
  lemma FormattedBlock(n: nat, k: nat)
    requires k < |FormattedImage(n)|
    ensures k == 0 ==> FormattedImage(n)[k] == SuperBlock(1, UnsignedChar(n))
    ensures k > 0 ==> FormattedImage(n)[k] == FreeBlock(FreeLink(k, n))
  {
  }

  /** Block k of the image the formatter as written produces. */
  lemma FormattedBlockAsWritten(n: nat, k: nat)
    requires k < |FormattedImageAsWritten(n)|
    ensures k == 0 ==> FormattedImageAsWritten(n)[k] == SuperBlock(1, UnsignedChar(n))
    ensures k > 0 ==> FormattedImageAsWritten(n)[k] == FreeBlock(SelfLink(k, n))
  {
  }

  /** Block k of a format image, whatever links its free blocks carry. */
  lemma ImageBlock(n: nat, link: int -> byte, k: nat)
    requires k < |ImageWith(n, link)|
    ensures k == 0 ==> ImageWith(n, link)[k] == SuperBlock(1, UnsignedChar(n))
    ensures k > 0 ==> ImageWith(n, link)[k] == FreeBlock(link(k))
  {
  }

  /**
   * The blocks reached from block `b` by following link bytes, for at most
   * `fuel` steps; the walk stops at link 0, at a number outside the image and
   * at a block that is not a free block.
   */
  function FreeChain(img: seq<Block>, b: int, fuel: nat): seq<int>
    requires AllBlocks(img)
    decreases fuel
  {
    if fuel == 0 || b <= 0 || b >= |img| || Kind(img[b]) != FreeType then []
    else [b] + FreeChain(img, Link(img[b]) as int, fuel - 1)
  }

  function Range(lo: int, hi: int): (r: seq<int>)
    requires lo <= hi
  {
    seq(hi - lo, i => lo + i)
  }

  /** One step of the free list of the corrected image: block k links to k + 1, the last to 0. */
  lemma ChainStep(n: nat, k: int, fuel: nat)
    requires 2 <= n <= 256 && 1 <= k < n && 0 < fuel
    ensures k < n - 1 ==> FreeChain(FormattedImage(n), k, fuel) == [k] + FreeChain(FormattedImage(n), k + 1, fuel - 1)
    ensures k == n - 1 ==> FreeChain(FormattedImage(n), k, fuel) == [k]
  {
    var img := FormattedImage(n);
    FormattedBlock(n, k);
    assert Kind(img[k]) == FreeType;
    assert k < n - 1 ==> Link(img[k]) as int == k + 1;
    assert k == n - 1 ==> Link(img[k]) == 0;
  }

  lemma RangeCons(lo: int, hi: int)
    requires lo < hi
    ensures Range(lo, hi) == [lo] + Range(lo + 1, hi)
  {
  }

  lemma {:induction false} ChainFrom(n: nat, k: int, fuel: nat)
    requires 2 <= n <= 256 && 1 <= k < n && n - k <= fuel
    ensures FreeChain(FormattedImage(n), k, fuel) == Range(k, n)
    decreases n - k
  {
    ChainStep(n, k, fuel);
    RangeCons(k, n);
    if k < n - 1 {
      ChainFrom(n, k + 1, fuel - 1);
    }
  }

  /**
   * On the corrected image of 2..256 blocks the free list starts at the
   * superblock's first free block and visits blocks 1..n-1 in order, then
   * stops at link 0.
   */
  lemma FormattedFreeList(n: nat, fuel: nat)
    requires 2 <= n <= 256 && n - 1 <= fuel
    ensures var img := FormattedImage(n);
            Link(img[0]) == 1 && FreeChain(img, Link(img[0]) as int, fuel) == Range(1, n)
  {
    ChainFrom(n, 1, fuel);
  }

  /**
   * On the image the formatter as written produces, with 3 or more blocks,
   * block 1 links to itself: the free list never ends and never reaches block 2.
   */
  lemma {:induction false} AsWrittenFreeListLoops(n: nat, fuel: nat)
    requires 3 <= n
    ensures var img := FormattedImageAsWritten(n);
            FreeChain(img, Link(img[0]) as int, fuel) == seq(fuel, _ => 1) &&
            2 !in FreeChain(img, Link(img[0]) as int, fuel)
    decreases fuel
  {
    var img := FormattedImageAsWritten(n);
    assert img[1] == FreeBlock(SelfLink(1, n));
    if fuel > 0 {
      AsWrittenFreeListLoops(n, fuel - 1);
    }
  }
}
