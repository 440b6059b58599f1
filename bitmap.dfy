/**
 * The block bitmap of a group: one bit per cluster in a buffer of one file
 * system block.  This module holds the buffer, the bitmap that
 * ext4_init_block_bitmap synthesises for a group whose bitmap was never
 * written (BLOCK_UNINIT), and the check ext4_valid_block_bitmap makes that
 * the group's own metadata is marked in use.
 */
module Bitmap {
  import opened Wrappers
  import opened Width
  import opened Geometry
  import opened DescTable
  import opened OverheadPass
  import opened Overhead
  import opened Errno

  /** Cluster numbers lo .. hi - 1. */
  function Interval(lo: nat, hi: nat): (s: set<nat>)
    ensures forall x: nat :: x in s <==> lo <= x < hi
    decreases hi - lo
  {
    if hi <= lo then {} else Interval(lo, hi - 1) + {hi - 1}
  }

  /**
   * A buffer head holding a block bitmap, with the state bits the allocator
   * sets and tests: BH_Uptodate, BH_BITMAP_UPTODATE, BH_Verified and BH_New.
   * csumOk stands for ext4_block_bitmap_csum_verify on the current contents.
   */
  class BitmapBuffer {
    const bits: array<bool>
    var uptodate: bool
    var bitmapUptodate: bool
    var verified: bool
    var isNew: bool
    var csumOk: bool

    /** A buffer for a block of `size` bits, as the buffer cache hands it out: nothing set. */
    constructor (size: nat)
      ensures bits.Length == size && fresh(bits)
      ensures !uptodate && !bitmapUptodate && !verified && !isNew && !csumOk
    {
      bits := new bool[size];
      uptodate, bitmapUptodate, verified, isNew, csumOk := false, false, false, false, false;
    }

    /**
     * The order in which the flags are set: a buffer is verified only once
     * its bitmap is up to date, the bitmap is up to date only once the
     * buffer is, and a new buffer whose read has completed has an up-to-date
     * bitmap (the read completion sets both).
     */
    ghost predicate Coherent()
      reads this
    {
      && (verified ==> bitmapUptodate)
      && (bitmapUptodate ==> uptodate)
      && (isNew && uptodate ==> bitmapUptodate)
    }

    /** The set bits of the buffer are exactly the clusters in s (within the buffer). */
    ghost predicate Marks(s: set<nat>)
      reads this, bits
    {
      forall k :: 0 <= k < bits.Length ==> (bits[k] <==> k in s)
    }

    /** memset(b_data, 0, size) */
    method Clear()
      modifies bits
      ensures Marks({})
    {
      var k := 0;
      while k < bits.Length
        invariant 0 <= k <= bits.Length
        invariant forall j :: 0 <= j < k ==> !bits[j]
      {
        bits[k] := false;
        k := k + 1;
      }
    }

    /** The completion of a read: the block's contents land in the buffer. */
    method Fill(contents: seq<bool>)
      requires |contents| == bits.Length
      modifies bits
      ensures bits[..] == contents
    {
      var k := 0;
      while k < bits.Length
        invariant 0 <= k <= bits.Length
        invariant forall j :: 0 <= j < k ==> bits[j] == contents[j]
      {
        bits[k] := contents[k];
        k := k + 1;
      }
    }

    /** ext4_set_bit(k, b_data) */
    method SetBit(k: nat, ghost s: set<nat>)
      requires k < bits.Length && Marks(s)
      modifies bits
      ensures Marks(s + {k})
    {
      bits[k] := true;
    }

    /** Sets bits lo .. hi - 1, one after the other. */
    method SetRange(lo: nat, hi: nat, ghost s: set<nat>)
      requires lo <= hi <= bits.Length && Marks(s)
      modifies bits
      ensures Marks(s + Interval(lo, hi))
    {
      var k := lo;
      while k < hi
        invariant lo <= k <= hi
        invariant Marks(s + Interval(lo, k))
      {
        bits[k] := true;
        k := k + 1;
      }
    }
  }

  /** The cluster of a block of group g lies inside the group. */
  lemma GroupClusterBelow(sb: SuperInfo, g: nat, b: nat)
    requires ValidSuper(sb) && InGroupRange(sb, g, b)
    ensures ClusterOf(sb, g, b) < sb.clustersPerGroup <= 8 * BlockSize(sb)
  {
    ValidSuperProducts(sb);
    assert (g + 1) * sb.blocksPerGroup == g * sb.blocksPerGroup + sb.blocksPerGroup;
    QuotientBelow(b - GroupFirstBlock(sb, g), sb.clustersPerGroup, ClusterRatio(sb));
  }

  /**
   * The cluster of a block of group g that exists in the file system lies
   * among the group's num_clusters_in_group clusters.
   */
  lemma GroupClusterInGroupCount(sb: SuperInfo, g: nat, b: nat)
    requires ValidSuper(sb) && g < sb.groupsCount && InGroupRange(sb, g, b) && b < sb.blocksCount
    ensures ClusterOf(sb, g, b) < ClustersInGroup(sb, g) <= sb.clustersPerGroup
  {
    ClustersInGroupCoversGroup(sb, g);
    QuotientBelow(b - GroupFirstBlock(sb, g), ClustersInGroup(sb, g), ClusterRatio(sb));
  }

  /**
   * Every cluster of a group's own bitmaps and inode table lies among the
   * group's clusters.
   */
  lemma MetaClusterInGroup(sb: SuperInfo, g: nat, d: GroupDesc, c: nat)
    requires ValidSuper(sb) && g < sb.groupsCount && DescValid(sb, g, d)
    requires c in BitmapClusters(sb, g, d) + TableClusters(sb, g, d)
    ensures c < ClustersInGroup(sb, g) <= sb.clustersPerGroup <= 8 * BlockSize(sb)
  {
    DescBlocksInFs(sb, g, d);
    var b: nat;
    if c in TableClusters(sb, g, d) {
      var cs := TableClusterSeq(sb, g, d);
      SetOfMember(cs, c);
      var j :| 0 <= j < |cs| && cs[j] == Some(c);
      TableClusterAt(sb, g, d, j);
      b := d.inodeTable + j;
    } else if GroupCluster(sb, g, d.blockBitmap) == Some(c) {
      b := d.blockBitmap;
    } else {
      b := d.inodeBitmap;
    }
    GroupClusterInGroupCount(sb, g, b);
  }

  /**
   * The bitmap ext4_init_block_bitmap synthesises for group g: every
   * metadata cluster of the group, and every bit from the group's last
   * cluster to the end of the block, so that the clusters past a short last
   * group are never handed out.
   */
  ghost function InitialBits(sb: SuperInfo, g: nat, d: GroupDesc): set<nat>
    requires ValidSuper(sb) && g < sb.groupsCount
  {
    MetaClusters(sb, g, d) + Interval(ClustersInGroup(sb, g), 8 * BlockSize(sb))
  }

  lemma ShrThreeBelow(n: nat, size: nat)
    requires Shr(n, 3) < size
    ensures n < 8 * size
  {
    assert Pow2(3) == 8;
    DivBracket(n, 8);
    MulMonotone(n / 8 + 1, size, 8);
  }

  /**
   * One block of ext4_init_block_bitmap's second part: its cluster's bit is
   * set without flex_bg (where the block lies in the group) and, with
   * flex_bg, only when ext4_block_in_group says it lies in the group.
   */
  method MarkGroupBlock(sb: SuperInfo, g: nat, b: nat, buf: BitmapBuffer, ghost s: set<nat>)
    requires ValidSuper(sb) && sb.firstDataBlock <= b < sb.blocksCount
    requires !sb.features.flexBg ==> InGroupRange(sb, g, b)
    requires buf.bits.Length == 8 * BlockSize(sb) && buf.Marks(s)
    modifies buf.bits
    ensures buf.Marks(s + OptSet(GroupCluster(sb, g, b)))
  {
    GroupClusterInGroup(sb, g, b);
    if !sb.features.flexBg || BlockInGroup(sb, b, g) {
      GroupClusterBelow(sb, g, b);
      buf.SetBit(B2C(sb, b - GroupFirstBlock(sb, g)), s);
    } else {
      assert s + OptSet(GroupCluster(sb, g, b)) == s;
    }
  }

  /** Block i of the inode table, in ext4_init_block_bitmap. */
  method MarkTableBlock(sb: SuperInfo, g: nat, d: GroupDesc, i: nat, buf: BitmapBuffer, ghost s: set<nat>)
    requires ValidSuper(sb) && g < sb.groupsCount && DescValid(sb, g, d) && i < sb.itbPerGroup
    requires buf.bits.Length == 8 * BlockSize(sb) && buf.Marks(s)
    modifies buf.bits
    ensures buf.Marks(s + OptSet(TableClusterSeq(sb, g, d)[i]))
  {
    DescBlocksInFs(sb, g, d);
    if !sb.features.flexBg {
      DescBlocksInOwnGroup(sb, g, d);
    }
    TableClusterAt(sb, g, d, i);
    MarkGroupBlock(sb, g, d.inodeTable + i, buf, s);
  }

  /** The inode-table loop of ext4_init_block_bitmap. */
  method MarkTableClusters(sb: SuperInfo, g: nat, d: GroupDesc, buf: BitmapBuffer, ghost s: set<nat>)
    requires ValidSuper(sb) && g < sb.groupsCount && DescValid(sb, g, d)
    requires buf.bits.Length == 8 * BlockSize(sb) && buf.Marks(s)
    modifies buf.bits
    ensures buf.Marks(s + TableClusters(sb, g, d))
  {
    ghost var cs := TableClusterSeq(sb, g, d);
    var tmp := d.inodeTable;
    assert cs[..0] == [];
    while tmp < d.inodeTable + sb.itbPerGroup
      invariant d.inodeTable <= tmp <= d.inodeTable + sb.itbPerGroup
      invariant buf.Marks(s + SetOf(cs[..tmp - d.inodeTable]))
    {
      var i := tmp - d.inodeTable;
      MarkTableBlock(sb, g, d, i, buf, s + SetOf(cs[..i]));
      SetOfStep(cs, i);
      assert s + SetOf(cs[..i]) + OptSet(cs[i]) == s + SetOf(cs[..i + 1]);
      tmp := tmp + 1;
    }
    assert cs[..sb.itbPerGroup] == cs;
  }

  /**
   * The clusters of the group's block bitmap, inode bitmap and inode-table
   * blocks, as ext4_init_block_bitmap marks them one block at a time.
   */
  method MarkOwnMetadata(sb: SuperInfo, g: nat, d: GroupDesc, buf: BitmapBuffer, ghost s: set<nat>)
    requires ValidSuper(sb) && g < sb.groupsCount && DescValid(sb, g, d)
    requires buf.bits.Length == 8 * BlockSize(sb) && buf.Marks(s)
    modifies buf.bits
    ensures buf.Marks(s + (BitmapClusters(sb, g, d) + TableClusters(sb, g, d)))
  {
    DescBlocksInFs(sb, g, d);
    if !sb.features.flexBg {
      DescBlocksInOwnGroup(sb, g, d);
    }
    MarkGroupBlock(sb, g, d.blockBitmap, buf, s);
    ghost var s1 := s + OptSet(GroupCluster(sb, g, d.blockBitmap));
    MarkGroupBlock(sb, g, d.inodeBitmap, buf, s1);
    ghost var s2 := s1 + OptSet(GroupCluster(sb, g, d.inodeBitmap));
    MarkTableClusters(sb, g, d, buf, s2);
    assert s2 + TableClusters(sb, g, d) == s + (BitmapClusters(sb, g, d) + TableClusters(sb, g, d));
  }

  /** The pieces ext4_init_block_bitmap sets make up InitialBits. */
  lemma InitialBitsPieces(sb: SuperInfo, g: nat, d: GroupDesc)
    requires ValidSuper(sb) && g < sb.groupsCount
    ensures {} + Interval(0, NumBaseMetaClusters(sb, g)) + (BitmapClusters(sb, g, d) + TableClusters(sb, g, d))
              + Interval(ClustersInGroup(sb, g), 8 * BlockSize(sb))
         == InitialBits(sb, g, d)
  {
    assert Interval(0, NumBaseMetaClusters(sb, g)) == RangeSet(NumBaseMetaClusters(sb, g));
  }

  /**
   * ext4_init_block_bitmap after the descriptor checksum has been verified:
   * the buffer is cleared; if the base metadata does not fit in the block
   * the result is -EFSCORRUPTED with nothing set; otherwise the buffer holds
   * exactly InitialBits.  (The checksums it then stores are not modelled.)
   */
  method FillInitialBitmap(sb: SuperInfo, g: nat, d: GroupDesc, buf: BitmapBuffer) returns (err: int)
    requires ValidSuper(sb) && g < sb.groupsCount && DescValid(sb, g, d)
    requires buf.bits.Length == 8 * BlockSize(sb)
    modifies buf.bits
    ensures err == 0 || err == -EFSCORRUPTED
    ensures err == -EFSCORRUPTED <==> Shr(NumBaseMetaClusters(sb, g), 3) >= BlockSize(sb)
    ensures err != 0 ==> buf.Marks({})
    ensures err == 0 ==> buf.Marks(InitialBits(sb, g, d))
  {
    buf.Clear();
    var bitMax := NumBaseMetaClusters(sb, g);
    if Shr(bitMax, 3) >= BlockSize(sb) {
      return -EFSCORRUPTED;
    }
    ShrThreeBelow(bitMax, BlockSize(sb));
    buf.SetRange(0, bitMax, {});
    ghost var s := {} + Interval(0, bitMax);
    MarkOwnMetadata(sb, g, d, buf, s);
    s := s + (BitmapClusters(sb, g, d) + TableClusters(sb, g, d));
    ClustersInGroupCoversGroup(sb, g);
    buf.SetRange(ClustersInGroup(sb, g), 8 * BlockSize(sb), s);
    InitialBitsPieces(sb, g, d);
    err := 0;
  }

  /** |a - b| for a subset b of a. */
  lemma SubsetDifferenceSize(a: set<nat>, b: set<nat>)
    requires b <= a
    ensures |a - b| == |a| - |b|
  {
    assert a == (a - b) + b;
    assert (a - b) * b == {};
  }

  /**
   * The synthesised bitmap leaves clear exactly as many clusters as
   * ext4_free_clusters_after_init reports free with the corrected overhead
   * count: the group's clusters less its metadata clusters (when the base
   * metadata fits in the group).
   */
  lemma InitialBitsFreeCount(sb: SuperInfo, g: nat, d: GroupDesc)
    requires ValidSuper(sb) && g < sb.groupsCount && DescValid(sb, g, d)
    requires NumBaseMetaClusters(sb, g) <= ClustersInGroup(sb, g)
    ensures OverheadClusters(sb, g, d) <= ClustersInGroup(sb, g)
    ensures |RangeSet(8 * BlockSize(sb)) - InitialBits(sb, g, d)|
         == ClustersInGroup(sb, g) - OverheadClusters(sb, g, d)
  {
    var cig := ClustersInGroup(sb, g);
    var m := MetaClusters(sb, g, d);
    ClustersInGroupCoversGroup(sb, g);
    forall c | c in m
      ensures c in RangeSet(cig)
    {
      if c !in RangeSet(NumBaseMetaClusters(sb, g)) {
        MetaClusterInGroup(sb, g, d, c);
      }
    }
    assert RangeSet(8 * BlockSize(sb)) - InitialBits(sb, g, d) == RangeSet(cig) - m;
    SubsetDifferenceSize(RangeSet(cig), m);
    RangeSetSize(cig);
  }

  /**
   * The bitmap marks every cluster holding the group's block bitmap, inode
   * bitmap and inode-table blocks that lie in the group.
   */
  ghost predicate MetaMarked(sb: SuperInfo, g: nat, d: GroupDesc, bm: seq<bool>)
  {
    forall c :: c in BitmapClusters(sb, g, d) + TableClusters(sb, g, d) ==> c < |bm| && bm[c]
  }

  /** A bitmap holding InitialBits marks the group's metadata. */
  lemma InitialBitsMetaMarked(sb: SuperInfo, g: nat, d: GroupDesc, bm: seq<bool>)
    requires ValidSuper(sb) && g < sb.groupsCount && DescValid(sb, g, d)
    requires |bm| == 8 * BlockSize(sb)
    requires forall k :: 0 <= k < |bm| ==> (bm[k] <==> k in InitialBits(sb, g, d))
    ensures MetaMarked(sb, g, d, bm)
  {
    forall c | c in BitmapClusters(sb, g, d) + TableClusters(sb, g, d)
      ensures c < |bm| && bm[c]
    {
      MetaClusterInGroup(sb, g, d, c);
    }
  }

  /** The same for a buffer whose bits are InitialBits. */
  lemma BufferInitialBitsMetaMarked(sb: SuperInfo, g: nat, d: GroupDesc, buf: BitmapBuffer)
    requires ValidSuper(sb) && g < sb.groupsCount && DescValid(sb, g, d)
    requires buf.bits.Length == 8 * BlockSize(sb) && buf.Marks(InitialBits(sb, g, d))
    ensures MetaMarked(sb, g, d, buf.bits[..])
  {
    InitialBitsMetaMarked(sb, g, d, buf.bits[..]);
  }

  /** The first block of the inode table, as an offset into group g. */
  function TableOffset(sb: SuperInfo, g: nat, d: GroupDesc): (off: nat)
    requires ValidSuper(sb) && g < sb.groupsCount && DescValid(sb, g, d) && !sb.features.flexBg
    ensures off + sb.itbPerGroup <= sb.blocksPerGroup
    ensures GroupFirstBlock(sb, g) + off == d.inodeTable
  {
    DescBlocksInOwnGroup(sb, g, d);
    GroupFirstBelowEnd(sb, g);
    d.inodeTable - GroupFirstBlock(sb, g)
  }

  /** The cluster ranges the two versions of the inode-table check scan end inside the group. */
  lemma TableRangeBelow(sb: SuperInfo, off: nat)
    requires ValidSuper(sb) && off + sb.itbPerGroup <= sb.blocksPerGroup
    ensures B2C(sb, off) <= B2C(sb, off + sb.itbPerGroup)
    ensures B2C(sb, off + sb.itbPerGroup) <= B2C(sb, off + sb.itbPerGroup - 1) + 1
    ensures B2C(sb, off + sb.itbPerGroup - 1) + 1 <= sb.clustersPerGroup
  {
    MulIsProduct(sb.clustersPerGroup, ClusterRatio(sb));
    RangeEnds(off, off + sb.itbPerGroup, ClusterRatio(sb), sb.clustersPerGroup);
  }

  lemma RangeEnds(off: nat, n: nat, r: nat, cpg: nat)
    requires r >= 1 && off <= n && 1 <= n <= cpg * r
    ensures off / r <= n / r <= (n - 1) / r + 1 <= cpg
  {
    DivMonotone(off, n, r);
    QuotientBelow(n - 1, cpg, r);
    var q := (n - 1) / r;
    DivBracket(n - 1, r);
    assert (q + 2) * r == (q + 1) * r + r;
    QuotientBelow(n, q + 2, r);
  }

  /**
   * Without flex_bg, the inode-table clusters of the group are exactly the
   * clusters from the one holding its first block to the one holding its
   * last block: the table is contiguous, so no cluster in between is skipped.
   */
  lemma TableClustersRange(sb: SuperInfo, g: nat, d: GroupDesc, c: nat)
    requires ValidSuper(sb) && g < sb.groupsCount && DescValid(sb, g, d) && !sb.features.flexBg
    ensures var off := TableOffset(sb, g, d);
      c in TableClusters(sb, g, d) <==> B2C(sb, off) <= c <= B2C(sb, off + sb.itbPerGroup - 1)
  {
    var off := TableOffset(sb, g, d);
    var r := ClusterRatio(sb);
    var cs := TableClusterSeq(sb, g, d);
    DescBlocksInOwnGroup(sb, g, d);
    SetOfMember(cs, c);
    forall j | 0 <= j < |cs|
      ensures cs[j] == Some(B2C(sb, off + j))
    {
      TableClusterAt(sb, g, d, j);
    }
    if c in TableClusters(sb, g, d) {
      var j :| 0 <= j < |cs| && cs[j] == Some(c);
      DivMonotone(off, off + j, r);
      DivMonotone(off + j, off + sb.itbPerGroup - 1, r);
    }
    if B2C(sb, off) <= c <= B2C(sb, off + sb.itbPerGroup - 1) {
      var j := ClusterWitness(off, sb.itbPerGroup, r, c);
      assert cs[j] == Some(c);
    }
  }

  /** Some block among off .. off + n - 1 lies in each cluster between the first and the last one. */
  lemma ClusterWitness(off: nat, n: nat, r: nat, c: nat) returns (j: nat)
    requires r >= 1 && n >= 1 && off / r <= c <= (off + n - 1) / r
    ensures j < n && (off + j) / r == c
  {
    DivBracket(off + n - 1, r);
    MulMonotone(c, (off + n - 1) / r, r);
    if c * r >= off {
      j := c * r - off;
      DivOfSum(c, 0, r);
    } else {
      j := 0;
      DivMonotone(c * r, off, r);
      DivOfSum(c, 0, r);
    }
  }

  /**
   * The clusters ext4_valid_block_bitmap tests: those of the block bitmap
   * and of the inode bitmap, and the range tableFirst .. tableEnd - 1 it
   * scans for the inode table.
   */
  datatype CheckPoints = CheckPoints(blockBitmap: nat, inodeBitmap: nat, tableFirst: nat, tableEnd: nat)

  predicate Inside(p: CheckPoints, n: nat)
  {
    p.blockBitmap < n && p.inodeBitmap < n && p.tableEnd <= n
  }

  /** bm has every cluster the check tests set. */
  predicate Passes(bm: seq<bool>, p: CheckPoints)
    requires Inside(p, |bm|)
  {
    && bm[p.blockBitmap] && bm[p.inodeBitmap]
    && forall k :: p.tableFirst <= k < p.tableEnd ==> bm[k]
  }

  /**
   * The clusters ext4_valid_block_bitmap tests, as written, without
   * flex_bg: the inode-table scan runs from the cluster of the table's first
   * block up to, but not including, the cluster of the block just past the
   * table.
   */
  function AsWrittenPoints(sb: SuperInfo, g: nat, d: GroupDesc): (p: CheckPoints)
    requires ValidSuper(sb) && g < sb.groupsCount && DescValid(sb, g, d) && !sb.features.flexBg
    ensures Inside(p, 8 * BlockSize(sb))
    ensures p.tableFirst <= p.tableEnd
  {
    DescBlocksInOwnGroup(sb, g, d);
    GroupClusterBelow(sb, g, d.blockBitmap);
    GroupClusterBelow(sb, g, d.inodeBitmap);
    var off := TableOffset(sb, g, d);
    TableRangeBelow(sb, off);
    CheckPoints(ClusterOf(sb, g, d.blockBitmap), ClusterOf(sb, g, d.inodeBitmap),
                B2C(sb, off), B2C(sb, off + sb.itbPerGroup))
  }

  /**
   * The same with the inode-table scan ending at the cluster of the table's
   * last block, inclusive.  It never ends before the as-written scan.
   */
  function CorrectedPoints(sb: SuperInfo, g: nat, d: GroupDesc): (p: CheckPoints)
    requires ValidSuper(sb) && g < sb.groupsCount && DescValid(sb, g, d) && !sb.features.flexBg
    ensures Inside(p, 8 * BlockSize(sb))
    ensures p == AsWrittenPoints(sb, g, d).(tableEnd := p.tableEnd)
    ensures AsWrittenPoints(sb, g, d).tableEnd <= p.tableEnd
  {
    var off := TableOffset(sb, g, d);
    TableRangeBelow(sb, off);
    AsWrittenPoints(sb, g, d).(tableEnd := B2C(sb, off + sb.itbPerGroup - 1) + 1)
  }

  /**
   * Without flex_bg, the corrected test accepts exactly the bitmaps that
   * mark all of the group's own metadata.
   */
  lemma CorrectedPassesMetaMarked(sb: SuperInfo, g: nat, d: GroupDesc, bm: seq<bool>)
    requires ValidSuper(sb) && g < sb.groupsCount && DescValid(sb, g, d) && !sb.features.flexBg
    requires |bm| == 8 * BlockSize(sb)
    ensures Passes(bm, CorrectedPoints(sb, g, d)) <==> MetaMarked(sb, g, d, bm)
  {
    var p := CorrectedPoints(sb, g, d);
    var off := TableOffset(sb, g, d);
    DescBlocksInOwnGroup(sb, g, d);
    assert BitmapClusters(sb, g, d) == {p.blockBitmap, p.inodeBitmap};
    assert p.tableFirst == B2C(sb, off) && p.tableEnd == B2C(sb, off + sb.itbPerGroup - 1) + 1;
    forall c: nat
      ensures c in TableClusters(sb, g, d) <==> p.tableFirst <= c < p.tableEnd
    {
      TableClustersRange(sb, g, d, c);
    }
    if Passes(bm, p) {
      forall c | c in BitmapClusters(sb, g, d) + TableClusters(sb, g, d)
        ensures c < |bm| && bm[c]
      {
      }
    }
  }

  /**
   * The test as written never rejects a bitmap that marks all of the
   * group's metadata: its inode-table scan is never longer than the
   * corrected one.
   */
  lemma AsWrittenSound(sb: SuperInfo, g: nat, d: GroupDesc, bm: seq<bool>)
    requires ValidSuper(sb) && g < sb.groupsCount && DescValid(sb, g, d) && !sb.features.flexBg
    requires |bm| == 8 * BlockSize(sb)
    ensures MetaMarked(sb, g, d, bm) ==> Passes(bm, AsWrittenPoints(sb, g, d))
  {
    CorrectedPassesMetaMarked(sb, g, d, bm);
  }

  /**
   * ext4_find_next_zero_bit(bits, size, offset): the first clear bit at or
   * after offset and below size, or size when there is none.
   */
  method FindNextZeroBit(bits: array<bool>, size: nat, offset: nat) returns (r: nat)
    requires size <= bits.Length
    ensures r <= size
    ensures r < size ==> offset <= r && !bits[r]
    ensures forall k :: offset <= k < r ==> bits[k]
  {
    if offset >= size {
      return size;
    }
    r := offset;
    while r < size && bits[r]
      invariant offset <= r <= size
      invariant forall k :: offset <= k < r ==> bits[k]
    {
      r := r + 1;
    }
  }

  /**
   * The tests of ext4_valid_block_bitmap in their order: the block bitmap's
   * cluster, the inode bitmap's cluster, then the scan for a clear bit in
   * the inode-table range.  The result is 0 when all pass and otherwise the
   * block whose test failed first.
   */
  method CheckBitmap(bits: array<bool>, p: CheckPoints, d: GroupDesc) returns (blk: nat)
    requires Inside(p, bits.Length)
    requires 0 < d.blockBitmap && 0 < d.inodeBitmap && 0 < d.inodeTable
    ensures blk == 0 <==> Passes(bits[..], p)
    ensures !bits[p.blockBitmap] ==> blk == d.blockBitmap
    ensures bits[p.blockBitmap] && !bits[p.inodeBitmap] ==> blk == d.inodeBitmap
    ensures bits[p.blockBitmap] && bits[p.inodeBitmap] ==> blk == 0 || blk == d.inodeTable
  {
    if !bits[p.blockBitmap] {
      return d.blockBitmap;
    }
    if !bits[p.inodeBitmap] {
      return d.inodeBitmap;
    }
    var next := FindNextZeroBit(bits, p.tableEnd, p.tableFirst);
    if next < p.tableEnd {
      assert bits[..][next] == bits[next];
      return d.inodeTable;
    }
    return 0;
  }

  /**
   * ext4_valid_block_bitmap, as written: with flex_bg nothing is checked;
   * without it the bitmap passes exactly when it marks the clusters of
   * AsWrittenPoints.
   */
  method ValidBlockBitmap(sb: SuperInfo, g: nat, d: GroupDesc, bits: array<bool>) returns (blk: nat)
    requires ValidSuper(sb) && g < sb.groupsCount && DescValid(sb, g, d)
    requires bits.Length == 8 * BlockSize(sb)
    ensures sb.features.flexBg ==> blk == 0
    ensures !sb.features.flexBg ==> (blk == 0 <==> Passes(bits[..], AsWrittenPoints(sb, g, d)))
    ensures blk != 0 ==> blk == d.blockBitmap || blk == d.inodeBitmap || blk == d.inodeTable
  {
    if sb.features.flexBg {
      return 0;
    }
    blk := CheckBitmap(bits, AsWrittenPoints(sb, g, d), d);
  }

  /**
   * ext4_valid_block_bitmap with the inode-table scan ending at the cluster
   * of the table's last block: it accepts exactly the bitmaps that mark all
   * of the group's own metadata (and, with flex_bg, every bitmap).
   */
  method ValidBlockBitmapCorrected(sb: SuperInfo, g: nat, d: GroupDesc, bits: array<bool>) returns (blk: nat)
    requires ValidSuper(sb) && g < sb.groupsCount && DescValid(sb, g, d)
    requires bits.Length == 8 * BlockSize(sb)
    ensures blk == 0 <==> sb.features.flexBg || MetaMarked(sb, g, d, bits[..])
    ensures blk != 0 ==> blk == d.blockBitmap || blk == d.inodeBitmap || blk == d.inodeTable
  {
    if sb.features.flexBg {
      return 0;
    }
    CorrectedPassesMetaMarked(sb, g, d, bits[..]);
    blk := CheckBitmap(bits, CorrectedPoints(sb, g, d), d);
  }

  /**
   * In the example layout the inode table fills blocks 48 .. 51, part of
   * cluster 3.  The range the test as written scans runs from B2C(48) = 3
   * up to B2C(52) = 3 and is empty, so a bitmap with cluster 3 clear passes
   * although the table's cluster is not marked.
   */
  lemma AsWrittenMissesTableCluster(sb: SuperInfo, d: GroupDesc)
    requires ExampleLayout(sb, d)
    ensures ValidSuper(sb) && DescValid(sb, 0, d) && !sb.features.flexBg && BlockSize(sb) == 1024
    ensures var bm := seq(8192, k => k != 3);
      Passes(bm, AsWrittenPoints(sb, 0, d)) && !MetaMarked(sb, 0, d, bm)
  {
    ExampleValid(sb, d);
    ExampleClusters(sb, d, 32, 2);
    ExampleClusters(sb, d, 33, 2);
    ExampleClusters(sb, d, 48, 3);
    ExampleTableClusters(sb, d);
    DivUnique(52, 16, 3);
    assert TableOffset(sb, 0, d) == 48;
  }
}
