/**
 * Block-group geometry of fs/ext4/balloc.c: where a block lives, which
 * groups carry a superblock backup, how many group-descriptor-table blocks
 * a group carries, the size of its fixed metadata prefix and the number of
 * clusters in the group.  All of it is arithmetic over the superblock's
 * parameters, collected in SuperInfo.
 */
module Geometry {
  import opened Width

  datatype Features = Features(
    sparseSuper: bool,   // RO_COMPAT_SPARSE_SUPER
    sparseSuper2: bool,  // COMPAT_SPARSE_SUPER2
    metaBg: bool,        // INCOMPAT_META_BG
    flexBg: bool)        // INCOMPAT_FLEX_BG

  /** The superblock fields and mount state the allocator consults. */
  datatype SuperInfo = SuperInfo(
    firstDataBlock: nat,     // s_first_data_block
    blocksCount: nat,        // ext4_blocks_count()
    blocksPerGroup: nat,     // EXT4_BLOCKS_PER_GROUP
    clustersPerGroup: nat,   // EXT4_CLUSTERS_PER_GROUP
    clusterBits: nat,        // s_cluster_bits: log2 of blocks per cluster
    blockSizeBits: nat,      // EXT4_BLOCK_SIZE_BITS: log2 of the block size in bytes
    groupsCount: nat,        // ext4_get_groups_count()
    descPerBlockBits: nat,   // EXT4_DESC_PER_BLOCK_BITS
    gdbCount: nat,           // s_gdb_count: blocks of the descriptor table
    firstMetaBg: nat,        // s_first_meta_bg
    reservedGdtBlocks: nat,  // s_reserved_gdt_blocks
    backupBg0: nat,          // s_backup_bgs[0]
    backupBg1: nat,          // s_backup_bgs[1]
    itbPerGroup: nat,        // s_itb_per_group: inode-table blocks per group
    logGroupsPerFlex: nat,   // s_log_groups_per_flex
    features: Features,
    stdGroupSize: bool)      // mount flag STD_GROUP_SIZE

  function ClusterRatio(sb: SuperInfo): (r: nat)
    ensures r >= 1
  {
    Pow2(sb.clusterBits)
  }

  function BlockSize(sb: SuperInfo): (r: nat)
    ensures r >= 1
  {
    Pow2(sb.blockSizeBits)
  }

  function DescPerBlock(sb: SuperInfo): (r: nat)
    ensures r >= 1
  {
    Pow2(sb.descPerBlockBits)
  }

  /**
   * What the mount path establishes before any of this code runs (the
   * superblock checks of ext4_fill_super): a group is a whole number of
   * clusters whose bitmap fits in one block, the groups exactly cover the
   * blocks after the first data block, the counts fit their on-disk widths,
   * and STD_GROUP_SIZE is set only when a group spans 8 * cluster-size blocks.
   */
  ghost predicate ValidSuper(sb: SuperInfo)
  {
    && sb.clustersPerGroup >= 1
    && sb.blocksPerGroup >= sb.clustersPerGroup
    && sb.blocksPerGroup == Mul(sb.clustersPerGroup, ClusterRatio(sb))
    && sb.blocksPerGroup < U32
    && sb.clustersPerGroup <= 8 * BlockSize(sb)
    && sb.firstDataBlock < sb.blocksCount < U64
    && 1 <= sb.groupsCount < U32
    && Mul(sb.groupsCount - 1, sb.blocksPerGroup) < sb.blocksCount - sb.firstDataBlock
    && sb.blocksCount - sb.firstDataBlock <= Mul(sb.groupsCount, sb.blocksPerGroup)
    && sb.itbPerGroup >= 1
    && (sb.stdGroupSize ==> sb.blocksPerGroup == Pow2(sb.blockSizeBits + sb.clusterBits + 3))
  }

  /** The products in ValidSuper, as multiplications. */
  lemma ValidSuperProducts(sb: SuperInfo)
    requires ValidSuper(sb)
    ensures sb.blocksPerGroup == sb.clustersPerGroup * ClusterRatio(sb)
    ensures (sb.groupsCount - 1) * sb.blocksPerGroup < sb.blocksCount - sb.firstDataBlock
    ensures sb.blocksCount - sb.firstDataBlock <= sb.groupsCount * sb.blocksPerGroup
  {
    MulIsProduct(sb.clustersPerGroup, ClusterRatio(sb));
    MulIsProduct(sb.groupsCount - 1, sb.blocksPerGroup);
    MulIsProduct(sb.groupsCount, sb.blocksPerGroup);
  }

  /** EXT4_B2C: the cluster holding block offset `blocks`. */
  function B2C(sb: SuperInfo, blocks: nat): nat
  {
    Shr(blocks, sb.clusterBits)
  }

  /** EXT4_NUM_B2C: the number of clusters needed for `blocks` blocks. */
  function NumB2C(sb: SuperInfo, blocks: nat): nat
  {
    Shr(blocks + ClusterRatio(sb) - 1, sb.clusterBits)
  }

  /** NumB2C rounds up: its clusters cover the blocks, with less than one cluster to spare. */
  lemma NumB2CIsCeiling(sb: SuperInfo, blocks: nat)
    ensures NumB2C(sb, blocks) * ClusterRatio(sb) >= blocks
    ensures NumB2C(sb, blocks) * ClusterRatio(sb) < blocks + ClusterRatio(sb)
    ensures blocks == 0 <==> NumB2C(sb, blocks) == 0
  {
    assert NumB2C(sb, blocks) == (blocks + ClusterRatio(sb) - 1) / ClusterRatio(sb);
    CeilDiv(blocks, ClusterRatio(sb));
  }

  /** ext4_group_first_block_no */
  function GroupFirstBlock(sb: SuperInfo, g: nat): nat
  {
    g * sb.blocksPerGroup + sb.firstDataBlock
  }

  datatype Location = Location(group: nat, offset: nat)

  /**
   * ext4_get_group_no_and_offset: subtract the first data block (a 64-bit
   * subtraction), divide by the group size; the quotient is stored in a
   * 32-bit group number and the remainder, shifted by the cluster bits, is
   * the cluster offset within the group.
   */
  function LocateBlock(sb: SuperInfo, b: nat): (loc: Location)
    requires ValidSuper(sb) && b < U64
    ensures loc.group < U32
  {
    var d := Sub64(b, sb.firstDataBlock);
    DivAtMost(d, sb.blocksPerGroup);
    Location(Trunc32(d / sb.blocksPerGroup), Shr(d % sb.blocksPerGroup, sb.clusterBits))
  }

  /**
   * ext4_get_group_number: with STD_GROUP_SIZE a single shift replaces the
   * division.  The fast path always agrees with ext4_get_group_no_and_offset.
   */
  function GetGroupNumber(sb: SuperInfo, b: nat): (g: nat)
    requires ValidSuper(sb) && b < U64
    ensures g == LocateBlock(sb, b).group
  {
    if sb.stdGroupSize then
      Trunc32(Shr(Sub64(b, sb.firstDataBlock), sb.blockSizeBits + sb.clusterBits + 3))
    else
      LocateBlock(sb, b).group
  }

  /** ext4_block_in_group */
  predicate BlockInGroup(sb: SuperInfo, b: nat, g: nat)
    requires ValidSuper(sb) && b < U64
  {
    GetGroupNumber(sb, b) == g
  }

  lemma QuotientBelow(x: int, c: nat, r: nat)
    requires r >= 1 && 0 <= x < c * r
    ensures x / r < c
  {
    DivBracket(x, r);
    if x / r >= c {
      MulMonotone(c, x / r, r);
    }
  }

  /**
   * Every block of the file system lies in the group LocateBlock names, that
   * group exists, and the offset is the block's cluster within the group.
   */
  lemma LocateBlockInGroup(sb: SuperInfo, b: nat)
    requires ValidSuper(sb) && sb.firstDataBlock <= b < sb.blocksCount
    ensures var loc := LocateBlock(sb, b);
      && loc.group < sb.groupsCount
      && GroupFirstBlock(sb, loc.group) <= b < GroupFirstBlock(sb, loc.group + 1)
      && loc.offset == B2C(sb, b - GroupFirstBlock(sb, loc.group))
      && loc.offset < sb.clustersPerGroup
  {
    var d := b - sb.firstDataBlock;
    assert Sub64(b, sb.firstDataBlock) == d;
    var q := d / sb.blocksPerGroup;
    DivAtMost(d, sb.blocksPerGroup);
    ValidSuperProducts(sb);
    SplitOffset(d, sb.blocksPerGroup, sb.groupsCount, sb.clustersPerGroup, ClusterRatio(sb));
    assert Trunc32(q) == q;
  }

  /** Division of an offset into a quotient below c and a remainder of fewer than q clusters. */
  lemma SplitOffset(d: nat, bpg: nat, c: nat, cpg: nat, r: nat)
    requires r >= 1 && cpg >= 1 && bpg == cpg * r && d < c * bpg
    ensures d / bpg < c
    ensures (d / bpg) * bpg <= d < (d / bpg + 1) * bpg
    ensures (d / bpg + 1) * bpg == (d / bpg) * bpg + bpg
    ensures d % bpg == d - (d / bpg) * bpg
    ensures (d % bpg) / r < cpg
  {
    MulMonotone(1, r, cpg);
    DivBracket(d, bpg);
    QuotientBelow(d, c, bpg);
    QuotientBelow(d % bpg, cpg, r);
  }

  /**
   * The inverse direction: the block at offset o of group g is located in
   * group g at cluster o >> cluster_bits.  With LocateBlockInGroup this makes
   * block <-> (group, block offset) a bijection.
   */
  lemma LocateGroupBlock(sb: SuperInfo, g: nat, o: nat)
    requires ValidSuper(sb) && o < sb.blocksPerGroup
    requires GroupFirstBlock(sb, g) + o < sb.blocksCount
    ensures LocateBlock(sb, GroupFirstBlock(sb, g) + o) == Location(g, B2C(sb, o))
  {
    var bpg := sb.blocksPerGroup;
    var b := GroupFirstBlock(sb, g) + o;
    var d := g * bpg + o;
    ValidSuperProducts(sb);
    JoinOffset(g, o, bpg, sb.groupsCount, sb.blocksCount - sb.firstDataBlock);
    LocateBlockUnfold(sb, b, d);
  }

  /** LocateBlock of a block at distance d past the first data block. */
  lemma LocateBlockUnfold(sb: SuperInfo, b: nat, d: nat)
    requires ValidSuper(sb) && b < U64 && b == sb.firstDataBlock + d
    ensures LocateBlock(sb, b).group == Trunc32(d / sb.blocksPerGroup)
    ensures LocateBlock(sb, b).offset == Shr(d % sb.blocksPerGroup, sb.clusterBits)
  {
    assert Sub64(b, sb.firstDataBlock) == d;
  }

  /** The converse of SplitOffset: g * bpg + o with o < bpg divides back into g and o. */
  lemma JoinOffset(g: nat, o: nat, bpg: nat, c: nat, total: nat)
    requires o < bpg && g * bpg + o < total <= c * bpg
    ensures (g * bpg + o) / bpg == g && (g * bpg + o) % bpg == o
    ensures g < c
  {
    DivOfSum(g, o, bpg);
    if g >= c {
      MulMonotone(c, g, bpg);
    }
  }

  /** For blocks of the file system, ext4_block_in_group is a range test. */
  lemma BlockInGroupRange(sb: SuperInfo, b: nat, g: nat)
    requires ValidSuper(sb) && sb.firstDataBlock <= b < sb.blocksCount
    ensures BlockInGroup(sb, b, g) <==> GroupFirstBlock(sb, g) <= b < GroupFirstBlock(sb, g + 1)
  {
    LocateBlockInGroup(sb, b);
    var h := LocateBlock(sb, b).group;
    if h < g {
      MulMonotone(h + 1, g, sb.blocksPerGroup);
    } else if h > g {
      MulMonotone(g + 1, h, sb.blocksPerGroup);
    }
  }

  /** b^k */
  function Pow(b: nat, k: nat): nat
  {
    if k == 0 then 1 else b * Pow(b, k - 1)
  }

  /** a is b, b^2, b^3, ... */
  ghost predicate IsPowerOf(a: nat, b: nat)
  {
    exists k: nat :: 1 <= k && Pow(b, k) == a
  }

  /**
   * test_root: the loop divides a by b while it is a multiple of b and
   * larger than b; it succeeds when it reaches b exactly.
   */
  function TestRoot(a: nat, b: nat): bool
    requires b >= 2
    decreases a
  {
    if a < b then false
    else if a == b then true
    else if a % b != 0 then false
    else
      DivBracket(a, b);
      TestRoot(a / b, b)
  }

  lemma PowPositive(b: nat, k: nat)
    requires b >= 2
    ensures Pow(b, k) >= 1
    ensures k >= 1 ==> Pow(b, k) >= b && Pow(b, k) % b == 0
  {
    if k >= 1 {
      PowPositive(b, k - 1);
      MulMonotone(1, Pow(b, k - 1), b);
      assert Pow(b, k) == Pow(b, k - 1) * b;
      assert Pow(b, k) % b == 0 by { MultipleMod(Pow(b, k - 1), b); }
    }
  }

  lemma MultipleMod(q: nat, b: nat)
    requires b >= 1
    ensures (q * b) % b == 0 && (q * b) / b == q
  {
    DivOfSum(q, 0, b);
  }

  /** test_root(a, b) holds exactly when a is a positive power of b. */
  lemma {:induction false} TestRootIsPower(a: nat, b: nat)
    requires b >= 2
    ensures TestRoot(a, b) <==> IsPowerOf(a, b)
    decreases a
  {
    if a < b || a % b != 0 {
      NotPower(a, b);
    } else if a == b {
      assert Pow(b, 1) == a;
    } else {
      var q := a / b;
      DivShrinks(a, b);
      PowerStep(a, b);
      TestRootIsPower(q, b);
    }
  }

  /** Below b, or not a multiple of b: not a positive power of b. */
  lemma NotPower(a: nat, b: nat)
    requires b >= 2 && (a < b || a % b != 0)
    ensures !IsPowerOf(a, b)
  {
    forall k: nat | 1 <= k
      ensures Pow(b, k) != a
    {
      PowPositive(b, k);
    }
  }

  lemma PowOne(b: nat)
    ensures Pow(b, 1) == b
  {
  }

  /** A multiple of b above b is a power of b exactly when its quotient by b is. */
  lemma PowerStep(a: nat, b: nat)
    requires b >= 2 && a > b && a % b == 0
    ensures IsPowerOf(a, b) <==> IsPowerOf(a / b, b)
  {
    var q := a / b;
    DivBracket(a, b);
    assert a == q * b;
    if IsPowerOf(q, b) {
      var k: nat :| 1 <= k && Pow(b, k) == q;
      assert Pow(b, k + 1) == a;
    }
    if IsPowerOf(a, b) {
      var k: nat :| 1 <= k && Pow(b, k) == a;
      assert k != 1 by { PowOne(b); }
      assert Pow(b, k) == b * Pow(b, k - 1);
      MultipleMod(Pow(b, k - 1), b);
      assert Pow(b, k - 1) == q;
    }
  }

  /** ext4_bg_has_super: whether group g holds a superblock copy (1) or not (0). */
  function HasSuper(sb: SuperInfo, g: nat): bool
  {
    if g == 0 then true
    else if sb.features.sparseSuper2 then g == sb.backupBg0 || g == sb.backupBg1
    else if g <= 1 || !sb.features.sparseSuper then true
    else if g % 2 == 0 then false
    else TestRoot(g, 3) || TestRoot(g, 5) || TestRoot(g, 7)
  }

  /**
   * Which groups carry a superblock copy, by feature: group 0 always; under
   * sparse_super2 only the two recorded backup groups; under sparse_super
   * groups 0, 1 and the odd powers of 3, 5 and 7; otherwise every group.
   */
  lemma HasSuperCharacterised(sb: SuperInfo, g: nat)
    ensures g == 0 ==> HasSuper(sb, g)
    ensures sb.features.sparseSuper2 ==>
      (HasSuper(sb, g) <==> g == 0 || g == sb.backupBg0 || g == sb.backupBg1)
    ensures !sb.features.sparseSuper2 && sb.features.sparseSuper ==>
      (HasSuper(sb, g) <==> g <= 1 || (g % 2 == 1 && (IsPowerOf(g, 3) || IsPowerOf(g, 5) || IsPowerOf(g, 7))))
    ensures !sb.features.sparseSuper2 && !sb.features.sparseSuper ==> HasSuper(sb, g)
  {
    TestRootIsPower(g, 3);
    TestRootIsPower(g, 5);
    TestRootIsPower(g, 7);
  }

  /** ext4_bg_num_gdb_meta: in a meta_bg metagroup only its first, second and last group hold a descriptor block. */
  function NumGdbMeta(sb: SuperInfo, g: nat): nat
  {
    var metagroup := g / DescPerBlock(sb);
    var first := metagroup * DescPerBlock(sb);
    var last := first + DescPerBlock(sb) - 1;
    if g == first || g == first + 1 || g == last then 1 else 0
  }

  /** ext4_bg_num_gdb_nometa */
  function NumGdbNoMeta(sb: SuperInfo, g: nat): nat
  {
    if !HasSuper(sb, g) then 0
    else if sb.features.metaBg then sb.firstMetaBg
    else sb.gdbCount
  }

  /** ext4_bg_num_gdb: descriptor-table blocks stored in group g. */
  function NumGdb(sb: SuperInfo, g: nat): nat
  {
    var metagroup := g / DescPerBlock(sb);
    if !sb.features.metaBg || metagroup < sb.firstMetaBg then NumGdbNoMeta(sb, g)
    else NumGdbMeta(sb, g)
  }

  /**
   * ext4_num_base_meta_clusters: clusters at the start of group g taken by
   * the superblock copy, the descriptor-table copy and, outside the meta_bg
   * region, the reserved descriptor blocks.
   */
  function NumBaseMetaClusters(sb: SuperInfo, g: nat): nat
  {
    var num := if HasSuper(sb, g) then 1 else 0;
    var blocks :=
      if !sb.features.metaBg || g < sb.firstMetaBg * DescPerBlock(sb) then
        (if num != 0 then num + NumGdb(sb, g) + sb.reservedGdtBlocks else num)
      else
        num + NumGdb(sb, g);
    NumB2C(sb, blocks)
  }

  /** g / n < f exactly when g < f * n. */
  lemma MetagroupBelow(g: nat, n: nat, f: nat)
    requires n >= 1
    ensures g / n < f <==> g < f * n
  {
    DivBracket(g, n);
    if g / n < f {
      MulMonotone(g / n + 1, f, n);
    } else {
      MulMonotone(f, g / n, n);
    }
  }

  /** The first group of g's metagroup is g - g % n. */
  lemma MetagroupFirst(g: nat, n: nat)
    requires n >= 1
    ensures (g / n) * n == g - g % n
  {
    DivBracket(g, n);
  }

  /**
   * The base metadata of a group.  Outside the meta_bg region it is empty
   * for a group without a superblock copy, and otherwise the superblock, the
   * whole descriptor table (s_first_meta_bg blocks of it under meta_bg) and
   * the reserved descriptor blocks, rounded up to clusters.  Inside the
   * meta_bg region it is the superblock copy plus one descriptor block for
   * the first, second and last group of each metagroup, with no reserved blocks.
   */
  lemma BaseMetaClustersShape(sb: SuperInfo, g: nat)
    ensures var n := DescPerBlock(sb);
      !sb.features.metaBg || g / n < sb.firstMetaBg ==>
        NumBaseMetaClusters(sb, g) ==
          if HasSuper(sb, g) then
            NumB2C(sb, 1 + (if sb.features.metaBg then sb.firstMetaBg else sb.gdbCount) + sb.reservedGdtBlocks)
          else 0
    ensures var n := DescPerBlock(sb);
      sb.features.metaBg && g / n >= sb.firstMetaBg ==>
        NumBaseMetaClusters(sb, g) ==
          NumB2C(sb, (if HasSuper(sb, g) then 1 else 0)
                     + (if g % n == 0 || g % n == 1 || g % n == n - 1 then 1 else 0))
  {
    var n := DescPerBlock(sb);
    MetagroupBelow(g, n, sb.firstMetaBg);
    MetagroupFirst(g, n);
    NumB2CIsCeiling(sb, 0);
    if sb.features.metaBg && g / n >= sb.firstMetaBg {
      assert NumGdb(sb, g) == (if g % n == 0 || g % n == 1 || g % n == n - 1 then 1 else 0);
    }
  }

  /**
   * num_clusters_in_group: the last group is measured against the block
   * count of the file system; every other group is full.
   */
  function ClustersInGroup(sb: SuperInfo, g: nat): nat
    requires ValidSuper(sb) && g < sb.groupsCount
  {
    ValidSuperProducts(sb);
    var blocks :=
      if g == sb.groupsCount - 1 then sb.blocksCount - GroupFirstBlock(sb, g)
      else sb.blocksPerGroup;
    NumB2C(sb, blocks)
  }

  /**
   * Every group has between one and a full group's worth of clusters, a
   * group other than the last is full, and the group's clusters cover
   * exactly the blocks that exist from its first block up to the next
   * group's first block: all of them, with less than one cluster to spare.
   */
  lemma ClustersInGroupCoversGroup(sb: SuperInfo, g: nat)
    requires ValidSuper(sb) && g < sb.groupsCount
    ensures 1 <= ClustersInGroup(sb, g) <= sb.clustersPerGroup
    ensures g < sb.groupsCount - 1 ==> ClustersInGroup(sb, g) == sb.clustersPerGroup
    ensures var next := GroupFirstBlock(sb, g + 1);
      var end := if next < sb.blocksCount then next else sb.blocksCount;
      && GroupFirstBlock(sb, g) < end
      && end <= GroupFirstBlock(sb, g) + ClustersInGroup(sb, g) * ClusterRatio(sb)
      && GroupFirstBlock(sb, g) + (ClustersInGroup(sb, g) - 1) * ClusterRatio(sb) < end
  {
    ValidSuperProducts(sb);
    var bpg := sb.blocksPerGroup;
    var blocks := if g == sb.groupsCount - 1 then sb.blocksCount - GroupFirstBlock(sb, g) else bpg;
    assert (g + 1) * bpg == g * bpg + bpg;
    if g == sb.groupsCount - 1 {
      assert GroupFirstBlock(sb, g) == (sb.groupsCount - 1) * bpg + sb.firstDataBlock;
    } else {
      MulMonotone(g + 1, sb.groupsCount - 1, bpg);
    }
    CeilingWithin(blocks, bpg, sb.clustersPerGroup, ClusterRatio(sb));
  }

  /** A group's cluster count fits in 32 bits. */
  lemma ClustersPerGroupBelow(sb: SuperInfo)
    requires ValidSuper(sb)
    ensures sb.clustersPerGroup < U32
  {
  }

  /** Rounding 1..bpg blocks up to clusters of r blocks gives 1..cpg clusters. */
  lemma CeilingWithin(blocks: nat, bpg: nat, cpg: nat, r: nat)
    requires r >= 1 && bpg == cpg * r && 1 <= blocks <= bpg
    ensures var c := (blocks + r - 1) / r;
      && 1 <= c <= cpg
      && blocks <= c * r
      && (c - 1) * r < blocks
      && (blocks == bpg ==> c == cpg)
  {
    var c := (blocks + r - 1) / r;
    DivBracket(blocks + r - 1, r);
    DivUnique(bpg + r - 1, r, cpg);
    DivMonotone(blocks + r - 1, bpg + r - 1, r);
    assert (c - 1) * r == c * r - r;
    if c < 1 {
      MulMonotone(c + 1, 1, r);
    }
  }
}
