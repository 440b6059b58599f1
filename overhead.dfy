/**
 * The metadata overhead of a block group: the clusters of the group taken
 * by the superblock copy and descriptor blocks (the base metadata), by the
 * group's own block and inode bitmaps and by its inode table.  The set of
 * those clusters, MetaClusters, is the reference; ext4_num_overhead_clusters
 * counts it with a single pass and is proved to count every cluster of it
 * once, except in one layout where it counts a cluster twice.
 */
module Overhead {
  import opened Wrappers
  import opened Width
  import opened Geometry
  import opened DescTable
  import opened OverheadPass

  /** Block b lies in the block range of group g. */
  predicate InGroupRange(sb: SuperInfo, g: nat, b: nat)
  {
    GroupFirstBlock(sb, g) <= b < GroupFirstBlock(sb, g + 1)
  }

  /** The cluster of group g holding block b: EXT4_B2C(b - group first block). */
  function ClusterOf(sb: SuperInfo, g: nat, b: nat): nat
    requires GroupFirstBlock(sb, g) <= b
  {
    B2C(sb, b - GroupFirstBlock(sb, g))
  }

  /** The cluster of group g holding block b, when b lies in group g. */
  function GroupCluster(sb: SuperInfo, g: nat, b: nat): Option<nat>
  {
    if InGroupRange(sb, g, b) then Some(ClusterOf(sb, g, b)) else None
  }

  /** For a block of the file system, ext4_block_in_group decides whether it has a cluster in the group. */
  lemma GroupClusterInGroup(sb: SuperInfo, g: nat, b: nat)
    requires ValidSuper(sb) && sb.firstDataBlock <= b < sb.blocksCount
    ensures BlockInGroup(sb, b, g) <==> GroupCluster(sb, g, b).Some?
  {
    BlockInGroupRange(sb, b, g);
  }

  /** Later blocks of a group lie in the same or later clusters. */
  lemma GroupClusterMonotone(sb: SuperInfo, g: nat, b1: nat, b2: nat)
    requires b1 <= b2 && GroupCluster(sb, g, b1).Some? && GroupCluster(sb, g, b2).Some?
    ensures GroupCluster(sb, g, b1).value <= GroupCluster(sb, g, b2).value
  {
    var s := GroupFirstBlock(sb, g);
    DivMonotone(b1 - s, b2 - s, Pow2(sb.clusterBits));
  }

  /**
   * The cluster of group g holding each block of the inode table, in
   * order, None for a block outside the group.
   */
  function TableClusterSeq(sb: SuperInfo, g: nat, d: GroupDesc): (cs: seq<Option<nat>>)
    ensures |cs| == sb.itbPerGroup
  {
    seq(sb.itbPerGroup, j requires 0 <= j < sb.itbPerGroup => GroupCluster(sb, g, d.inodeTable + j))
  }

  lemma TableClusterAt(sb: SuperInfo, g: nat, d: GroupDesc, j: nat)
    requires j < sb.itbPerGroup
    ensures TableClusterSeq(sb, g, d)[j] == GroupCluster(sb, g, d.inodeTable + j)
  {
  }

  /** The inode table is contiguous, so its clusters come in ascending order. */
  lemma TableClusterSeqAscending(sb: SuperInfo, g: nat, d: GroupDesc)
    ensures Ascending(TableClusterSeq(sb, g, d))
  {
    var cs := TableClusterSeq(sb, g, d);
    forall j, k | 0 <= j <= k < |cs| && cs[j].Some? && cs[k].Some?
      ensures cs[j].value <= cs[k].value
    {
      TableClusterAt(sb, g, d, j);
      TableClusterAt(sb, g, d, k);
      GroupClusterMonotone(sb, g, d.inodeTable + j, d.inodeTable + k);
    }
  }

  /** The clusters of group g holding the blocks of its inode table that lie in the group. */
  function TableClusters(sb: SuperInfo, g: nat, d: GroupDesc): (s: set<nat>)
    ensures |s| <= sb.itbPerGroup
  {
    SetOf(TableClusterSeq(sb, g, d))
  }

  /** The clusters of group g holding its block bitmap and its inode bitmap, where they lie in the group. */
  function BitmapClusters(sb: SuperInfo, g: nat, d: GroupDesc): (s: set<nat>)
    ensures |s| <= 2
  {
    OptSet(GroupCluster(sb, g, d.blockBitmap)) + OptSet(GroupCluster(sb, g, d.inodeBitmap))
  }

  /**
   * Every cluster of group g that holds metadata: the base metadata clusters
   * 0 .. base - 1 and the clusters of the bitmaps and inode-table blocks
   * that lie in the group.
   */
  function MetaClusters(sb: SuperInfo, g: nat, d: GroupDesc): set<nat>
  {
    RangeSet(NumBaseMetaClusters(sb, g)) + BitmapClusters(sb, g, d) + TableClusters(sb, g, d)
  }

  /**
   * The layout in which ext4_num_overhead_clusters counts a cluster twice:
   * both bitmaps lie in the group, in one and the same cluster, and that
   * cluster is not adjacent to the base metadata (possible under bigalloc,
   * where a cluster spans several blocks).
   */
  predicate DoubleCounted(sb: SuperInfo, g: nat, d: GroupDesc)
  {
    var c := GroupCluster(sb, g, d.blockBitmap);
    c.Some? && c == GroupCluster(sb, g, d.inodeBitmap) && c.value > NumBaseMetaClusters(sb, g)
  }

  /**
   * The number of metadata clusters lies between the base metadata count
   * and that count plus the two bitmaps and the inode table.
   */
  lemma MetaClustersSize(sb: SuperInfo, g: nat, d: GroupDesc)
    ensures var base := NumBaseMetaClusters(sb, g);
      base <= |MetaClusters(sb, g, d)| <= base + |BitmapClusters(sb, g, d)| + sb.itbPerGroup
    ensures DoubleCounted(sb, g, d) ==> |BitmapClusters(sb, g, d)| == 1
  {
    var base := RangeSet(NumBaseMetaClusters(sb, g));
    RangeSetSize(NumBaseMetaClusters(sb, g));
    UnionSize(base, BitmapClusters(sb, g, d));
    UnionSize(base + BitmapClusters(sb, g, d), TableClusters(sb, g, d));
  }

  /**
   * The overhead of group g, counted without the double count: the number
   * of clusters of the group holding metadata.
   */
  function OverheadClusters(sb: SuperInfo, g: nat, d: GroupDesc): (n: nat)
    ensures NumBaseMetaClusters(sb, g) <= n <= NumBaseMetaClusters(sb, g) + 2 + sb.itbPerGroup
  {
    MetaClustersSize(sb, g, d);
    |MetaClusters(sb, g, d)|
  }


  /** One bitmap's step of ext4_num_overhead_clusters (the same code serves both bitmaps). */
  method PlaceBitmapCluster(sb: SuperInfo, g: nat, blk: nat, num: nat) returns (num': nat, pend: Option<nat>)
    requires ValidSuper(sb) && sb.firstDataBlock <= blk < sb.blocksCount
    ensures BitmapPlaced(num, GroupCluster(sb, g, blk), num', pend)
  {
    num' := num;
    pend := None;
    GroupClusterInGroup(sb, g, blk);
    if BlockInGroup(sb, blk, g) {
      var c := B2C(sb, blk - GroupFirstBlock(sb, g));
      if c < num' {
      } else if c == num' {
        num' := num' + 1;
      } else {
        pend := Some(c);
      }
    }
  }

  /** One inode-table block's step of ext4_num_overhead_clusters: block i of the table. */
  method PlaceTableCluster(sb: SuperInfo, g: nat, d: GroupDesc, i: nat,
                           num: nat, bc: Option<nat>, ic: Option<nat>, tc: Option<nat>)
    returns (num': nat, tc': Option<nat>)
    requires ValidSuper(sb) && i < sb.itbPerGroup
    requires sb.firstDataBlock <= d.inodeTable && d.inodeTable + sb.itbPerGroup <= sb.blocksCount
    ensures var c := TableClusterSeq(sb, g, d)[i];
      && (c.None? ==> num' == num && tc' == tc)
      && (c.Some? ==> TablePlaced(num, bc, ic, tc, c.value, num', tc'))
  {
    num', tc' := num, tc;
    var b := d.inodeTable + i;
    TableClusterAt(sb, g, d, i);
    GroupClusterInGroup(sb, g, b);
    if BlockInGroup(sb, b, g) {
      var c := B2C(sb, b - GroupFirstBlock(sb, g));
      if c < num || Some(c) == ic || Some(c) == bc || Some(c) == tc {
      } else if c == num {
        num' := num + 1;
      } else {
        num' := num + 1;
        tc' := Some(c);
      }
    }
  }

  /**
   * The inode-table loop of ext4_num_overhead_clusters: starting from a
   * tally over the clusters `prefix`, it leaves a tally over `prefix` and the
   * inode-table clusters of the group.
   */
  method CountTableClusters(sb: SuperInfo, g: nat, d: GroupDesc, ghost prefix: set<nat>,
                            num0: nat, bc: Option<nat>, ic: Option<nat>)
    returns (num: nat, tc: Option<nat>, ghost last: nat)
    requires ValidSuper(sb)
    requires sb.firstDataBlock <= d.inodeTable && d.inodeTable + sb.itbPerGroup <= sb.blocksCount
    requires Tally(prefix, num0, bc, ic, None, 0)
    ensures Tally(prefix + TableClusters(sb, g, d), num, bc, ic, tc, last)
  {
    ghost var cs := TableClusterSeq(sb, g, d);
    TableClusterSeqAscending(sb, g, d);
    num, tc, last := num0, None, 0;
    ghost var lastIdx := 0;
    var i := 0;
    assert cs[..0] == [];
    while i < sb.itbPerGroup
      invariant 0 <= i <= |cs|
      invariant Tally(prefix + SetOf(cs[..i]), num, bc, ic, tc, last)
      invariant tc.Some? ==> lastIdx < i && cs[lastIdx] == Some(last)
    {
      ghost var num', tc' := num, tc;
      num, tc := PlaceTableCluster(sb, g, d, i, num, bc, ic, tc);
      TablePrefixStep(prefix, cs, i, num', bc, ic, tc', last, lastIdx, num, tc);
      if cs[i].Some? {
        last := cs[i].value;
        lastIdx := i;
      }
      i := i + 1;
    }
    assert cs[..i] == cs;
  }

  /** The base clusters and the two bitmaps' clusters, grouped either way. */
  lemma PrefixAssoc(sb: SuperInfo, g: nat, d: GroupDesc, base: set<nat>)
    ensures base + OptSet(GroupCluster(sb, g, d.blockBitmap)) + OptSet(GroupCluster(sb, g, d.inodeBitmap))
      == base + BitmapClusters(sb, g, d)
  {
  }

  /**
   * ext4_num_overhead_clusters, as written.  The base metadata clusters are
   * counted first; a bitmap cluster is then dropped when it is inside the
   * counted prefix, counted when it extends the prefix, and otherwise kept
   * aside; the inode-table clusters in the group are counted unless already
   * covered; the clusters kept aside are added at the end.  The result is
   * the number of metadata clusters, except that it is one more when both
   * bitmaps were kept aside in the same cluster (DoubleCounted).
   */
  method NumOverheadClusters(sb: SuperInfo, g: nat, d: GroupDesc) returns (n: nat)
    requires ValidSuper(sb) && g < sb.groupsCount && DescValid(sb, g, d)
    ensures n == |MetaClusters(sb, g, d)| + (if DoubleCounted(sb, g, d) then 1 else 0)
    ensures NumBaseMetaClusters(sb, g) <= n <= NumBaseMetaClusters(sb, g) + 2 + sb.itbPerGroup
  {
    DescBlocksInFs(sb, g, d);
    var num := NumBaseMetaClusters(sb, g);
    ghost var base := num;
    var num1, bc := PlaceBitmapCluster(sb, g, d.blockBitmap, num);
    var num2, ic := PlaceBitmapCluster(sb, g, d.inodeBitmap, num1);
    BitmapTally(base, GroupCluster(sb, g, d.blockBitmap), GroupCluster(sb, g, d.inodeBitmap), num1, bc, num2, ic);
    PrefixAssoc(sb, g, d, RangeSet(base));
    ghost var prefix := RangeSet(base) + BitmapClusters(sb, g, d);
    var tc;
    ghost var last;
    num, tc, last := CountTableClusters(sb, g, d, prefix, num2, bc, ic);
    if bc.Some? {
      num := num + 1;
    }
    if ic.Some? {
      num := num + 1;
    }
    n := num;
    MetaClustersSize(sb, g, d);
  }

  /**
   * ext4_num_overhead_clusters with the inode bitmap's cluster dropped when
   * it is the block bitmap's kept-aside cluster: every metadata cluster is
   * counted exactly once.
   */
  method NumOverheadClustersCorrected(sb: SuperInfo, g: nat, d: GroupDesc) returns (n: nat)
    requires ValidSuper(sb) && g < sb.groupsCount && DescValid(sb, g, d)
    ensures n == |MetaClusters(sb, g, d)|
    ensures n == OverheadClusters(sb, g, d)
  {
    DescBlocksInFs(sb, g, d);
    var num := NumBaseMetaClusters(sb, g);
    ghost var base := num;
    var num1, bc := PlaceBitmapCluster(sb, g, d.blockBitmap, num);
    var num2, ic := PlaceBitmapCluster(sb, g, d.inodeBitmap, num1);
    BitmapTally(base, GroupCluster(sb, g, d.blockBitmap), GroupCluster(sb, g, d.inodeBitmap), num1, bc, num2, ic);
    PrefixAssoc(sb, g, d, RangeSet(base));
    ghost var prefix := RangeSet(base) + BitmapClusters(sb, g, d);
    if ic.Some? && ic == bc {
      DropDuplicate(prefix, num2, bc);
      ic := None;
    }
    var tc;
    ghost var last;
    num, tc, last := CountTableClusters(sb, g, d, prefix, num2, bc, ic);
    if bc.Some? {
      num := num + 1;
    }
    if ic.Some? {
      num := num + 1;
    }
    n := num;
  }

  /**
   * ext4_free_clusters_after_init: the clusters of the group less its
   * metadata overhead, in unsigned 32-bit arithmetic.  It uses the
   * corrected overhead count.
   */
  method FreeClustersAfterInit(sb: SuperInfo, g: nat, d: GroupDesc) returns (free: nat)
    requires ValidSuper(sb) && g < sb.groupsCount && DescValid(sb, g, d)
    ensures free < U32
    ensures OverheadClusters(sb, g, d) <= ClustersInGroup(sb, g) ==>
      free == ClustersInGroup(sb, g) - OverheadClusters(sb, g, d)
    ensures ClustersInGroup(sb, g) < OverheadClusters(sb, g, d) < U32 ==>
      free == U32 + ClustersInGroup(sb, g) - OverheadClusters(sb, g, d)
  {
    var overhead := NumOverheadClustersCorrected(sb, g, d);
    ClustersInGroupCoversGroup(sb, g);
    ClustersPerGroupBelow(sb);
    free := Sub32(ClustersInGroup(sb, g), Trunc32(overhead));
  }

  /**
   * ext4_free_clusters_after_init as the kernel computes it, over the
   * as-written overhead count: in a DoubleCounted layout it reports one
   * free cluster fewer than the group has.
   */
  method FreeClustersAfterInitAsWritten(sb: SuperInfo, g: nat, d: GroupDesc) returns (free: nat)
    requires ValidSuper(sb) && g < sb.groupsCount && DescValid(sb, g, d)
    ensures free < U32
    ensures var extra := if DoubleCounted(sb, g, d) then 1 else 0;
      OverheadClusters(sb, g, d) + extra <= ClustersInGroup(sb, g) ==>
        free == ClustersInGroup(sb, g) - OverheadClusters(sb, g, d) - extra
    ensures var extra := if DoubleCounted(sb, g, d) then 1 else 0;
      ClustersInGroup(sb, g) < OverheadClusters(sb, g, d) + extra < U32 ==>
        free == U32 + ClustersInGroup(sb, g) - OverheadClusters(sb, g, d) - extra
  {
    var overhead := NumOverheadClusters(sb, g, d);
    ClustersInGroupCoversGroup(sb, g);
    ClustersPerGroupBelow(sb);
    free := Sub32(ClustersInGroup(sb, g), Trunc32(overhead));
  }

  /**
   * A valid layout in which ext4_num_overhead_clusters counts one cluster
   * twice: a single group of eight 16-block clusters (1 KiB blocks), one
   * descriptor block and no reserved ones, so the base metadata is cluster
   * 0; both bitmaps lie in cluster 2 and the four inode-table blocks in
   * cluster 3.
   */
  predicate ExampleLayout(sb: SuperInfo, d: GroupDesc)
  {
    && sb.firstDataBlock == 0 && sb.blocksCount == 128 && sb.blocksPerGroup == 128
    && sb.clustersPerGroup == 8 && sb.clusterBits == 4 && sb.blockSizeBits == 10
    && sb.groupsCount == 1 && sb.gdbCount == 1 && sb.reservedGdtBlocks == 0 && sb.itbPerGroup == 4
    && !sb.features.metaBg && !sb.features.flexBg && !sb.stdGroupSize
    && d.blockBitmap == 32 && d.inodeBitmap == 33 && d.inodeTable == 48
  }

  lemma ExampleValid(sb: SuperInfo, d: GroupDesc)
    requires ExampleLayout(sb, d)
    ensures ValidSuper(sb) && DescValid(sb, 0, d)
    ensures ClusterRatio(sb) == 16 && BlockSize(sb) == 1024
  {
    assert ClusterRatio(sb) == 16 by { assert Pow2(4) == 16; }
    assert BlockSize(sb) == 1024 by { assert Pow2(10) == 1024; }
    assert Mul(8, 16) == 128 by { MulIsProduct(8, 16); }
    assert Mul(1, 128) == 128 by { MulIsProduct(1, 128); }
  }

  lemma ExampleBase(sb: SuperInfo, d: GroupDesc)
    requires ExampleLayout(sb, d)
    ensures NumBaseMetaClusters(sb, 0) == 1
  {
    assert ClusterRatio(sb) == 16 by { assert Pow2(4) == 16; }
    assert NumGdb(sb, 0) == 1;
    DivUnique(2 + 16 - 1, 16, 1);
  }

  /** In the example, block b lies in cluster b / 16 of the group. */
  lemma ExampleClusters(sb: SuperInfo, d: GroupDesc, b: nat, c: nat)
    requires ExampleLayout(sb, d) && 16 * c <= b < 16 * c + 16 && b < 128
    ensures GroupCluster(sb, 0, b) == Some(c)
  {
    assert ClusterRatio(sb) == 16 by { assert Pow2(4) == 16; }
    assert InGroupRange(sb, 0, b);
    DivUnique(b, 16, c);
  }

  /** In the example, the inode table fills part of cluster 3 only. */
  lemma ExampleTableClusters(sb: SuperInfo, d: GroupDesc)
    requires ExampleLayout(sb, d)
    ensures TableClusters(sb, 0, d) == {3}
  {
    var cs := TableClusterSeq(sb, 0, d);
    forall j | 0 <= j < 4
      ensures cs[j] == Some(3)
    {
      TableClusterAt(sb, 0, d, j);
      ExampleClusters(sb, d, 48 + j, 3);
    }
    SetOfConstant(cs, 3);
  }

  /**
   * In the layout above both bitmaps share cluster 2, beyond the base
   * metadata: the group has three metadata clusters, but the as-written
   * count (NumOverheadClusters) is four.
   */
  lemma DoubleCountExample(sb: SuperInfo, d: GroupDesc)
    requires ExampleLayout(sb, d)
    ensures ValidSuper(sb) && DescValid(sb, 0, d)
    ensures DoubleCounted(sb, 0, d)
    ensures MetaClusters(sb, 0, d) == {0, 2, 3}
  {
    ExampleValid(sb, d);
    ExampleBase(sb, d);
    ExampleClusters(sb, d, 32, 2);
    ExampleClusters(sb, d, 33, 2);
    ExampleTableClusters(sb, d);
    assert RangeSet(1) == {0};
  }
}
