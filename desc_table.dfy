/**
 * Group descriptors and the in-memory descriptor table.  A descriptor is a
 * value here: the allocator reads it (where the group's bitmaps and inode
 * table are, whether the block bitmap is still uninitialised, the free
 * counts) and only rewrites its checksum, which the model treats as opaque.
 */
module DescTable {
  import opened Wrappers
  import opened Width
  import opened Geometry

  /** struct ext4_group_desc, as the allocator sees it. */
  datatype GroupDesc = GroupDesc(
    blockBitmap: nat,   // ext4_block_bitmap()
    inodeBitmap: nat,   // ext4_inode_bitmap()
    inodeTable: nat,    // ext4_inode_table(): first of s_itb_per_group blocks
    blockUninit: bool,  // bg_flags & EXT4_BG_BLOCK_UNINIT
    freeClusters: nat,  // ext4_free_group_clusters()
    freeInodes: nat,    // ext4_free_inodes_count()
    csumOk: bool)       // ext4_group_desc_csum_verify()

  /**
   * The descriptor table s_group_desc: one entry per descriptor block, None
   * for a block that is not loaded, and a loaded block holds
   * EXT4_DESC_PER_BLOCK descriptors.
   */
  type Table = seq<Option<seq<GroupDesc>>>

  /**
   * What the mount path guarantees about the table: it has a block for
   * every group (s_gdb_count is the group count divided by the descriptors
   * per block, rounded up) and every loaded block is full.
   */
  ghost predicate TableShape(sb: SuperInfo, table: Table)
  {
    && |table| * DescPerBlock(sb) >= sb.groupsCount
    && forall i :: 0 <= i < |table| && table[i].Some? ==> |table[i].value| == DescPerBlock(sb)
  }

  /** The two ways ext4_get_group_desc returns NULL. */
  datatype DescError = OutOfRange | NotLoaded

  /** Index of the descriptor block holding group g's descriptor: g >> EXT4_DESC_PER_BLOCK_BITS. */
  function DescBlock(sb: SuperInfo, g: nat): nat
  {
    Shr(g, sb.descPerBlockBits)
  }

  /**
   * Position of group g's descriptor inside its block.  The source masks
   * with EXT4_DESC_PER_BLOCK - 1, which for a power of two is the remainder.
   */
  function DescSlot(sb: SuperInfo, g: nat): nat
  {
    g % DescPerBlock(sb)
  }

  /** ext4_get_group_desc */
  function GetGroupDesc(sb: SuperInfo, table: Table, g: nat): (r: Result<GroupDesc, DescError>)
    requires TableShape(sb, table)
    ensures r == Err(OutOfRange) <==> g >= sb.groupsCount
    ensures r.Ok? ==> g < sb.groupsCount
  {
    if g >= sb.groupsCount then Err(OutOfRange)
    else
      SlotInRange(sb, table, g);
      var i := DescBlock(sb, g);
      match table[i]
      case None => Err(NotLoaded)
      case Some(block) => Ok(block[DescSlot(sb, g)])
  }

  /** Every existing group has a slot inside the table. */
  lemma SlotInRange(sb: SuperInfo, table: Table, g: nat)
    requires TableShape(sb, table) && g < sb.groupsCount
    ensures DescBlock(sb, g) < |table|
    ensures DescSlot(sb, g) < DescPerBlock(sb)
  {
    var n := DescPerBlock(sb);
    assert DescBlock(sb, g) == g / n;
    DivBracket(g, n);
    if g / n >= |table| {
      MulMonotone(|table|, g / n, n);
    }
  }

  /**
   * For an existing group, the lookup fails exactly when the group's
   * descriptor block is not loaded, and otherwise yields the descriptor in
   * the group's slot of that block.
   */
  lemma GetGroupDescLoaded(sb: SuperInfo, table: Table, g: nat)
    requires TableShape(sb, table) && g < sb.groupsCount
    ensures DescBlock(sb, g) < |table| && DescSlot(sb, g) < DescPerBlock(sb)
    ensures GetGroupDesc(sb, table, g) == Err(NotLoaded) <==> table[DescBlock(sb, g)].None?
    ensures table[DescBlock(sb, g)].Some? ==>
      GetGroupDesc(sb, table, g) == Ok(table[DescBlock(sb, g)].value[DescSlot(sb, g)])
  {
    SlotInRange(sb, table, g);
  }

  /**
   * The descriptor stored in slot j of loaded block i is the one returned
   * for group i * EXT4_DESC_PER_BLOCK + j: block and slot are the quotient
   * and remainder of the group number.
   */
  lemma GetGroupDescSlot(sb: SuperInfo, table: Table, i: nat, j: nat)
    requires TableShape(sb, table)
    requires i < |table| && table[i].Some? && j < DescPerBlock(sb)
    requires i * DescPerBlock(sb) + j < sb.groupsCount
    ensures GetGroupDesc(sb, table, i * DescPerBlock(sb) + j) == Ok(table[i].value[j])
  {
    var g := i * DescPerBlock(sb) + j;
    DivOfSum(i, j, DescPerBlock(sb));
    assert DescBlock(sb, g) == i;
    assert DescSlot(sb, g) == j;
  }

  /** Distinct groups never share a descriptor slot. */
  lemma DescSlotInjective(sb: SuperInfo, g: nat, h: nat)
    requires DescBlock(sb, g) == DescBlock(sb, h) && DescSlot(sb, g) == DescSlot(sb, h)
    ensures g == h
  {
    var n := DescPerBlock(sb);
    DivBracket(g, n);
    DivBracket(h, n);
  }

  /**
   * The location checks ext4_check_descriptors makes at mount for group g
   * (the mount path is not part of this model): without flex_bg the block
   * bitmap, the inode bitmap and the whole inode table lie inside the group
   * itself; with flex_bg they lie anywhere from the first data block to the
   * last block of the file system.  None of them is block 0, which holds the
   * boot sector or the primary superblock.
   */
  ghost predicate DescValid(sb: SuperInfo, g: nat, d: GroupDesc)
  {
    var lo := if sb.features.flexBg then sb.firstDataBlock else GroupFirstBlock(sb, g);
    var hi :=
      if sb.features.flexBg || g + 1 >= sb.groupsCount then sb.blocksCount
      else GroupFirstBlock(sb, g + 1);
    && lo <= d.blockBitmap < hi
    && lo <= d.inodeBitmap < hi
    && lo <= d.inodeTable && d.inodeTable + sb.itbPerGroup <= hi
    && 0 < d.blockBitmap && 0 < d.inodeBitmap && 0 < d.inodeTable
  }

  /** Every block a valid descriptor names lies inside the file system. */
  lemma DescBlocksInFs(sb: SuperInfo, g: nat, d: GroupDesc)
    requires ValidSuper(sb) && g < sb.groupsCount && DescValid(sb, g, d)
    ensures sb.firstDataBlock <= d.blockBitmap < sb.blocksCount
    ensures sb.firstDataBlock <= d.inodeBitmap < sb.blocksCount
    ensures sb.firstDataBlock <= d.inodeTable && d.inodeTable + sb.itbPerGroup <= sb.blocksCount
  {
    if !sb.features.flexBg {
      GroupFirstBelowEnd(sb, g);
    }
  }

  /**
   * A group starts at or after the first data block, and the group after it
   * (when there is one) starts before the end of the file system.
   */
  lemma GroupFirstBelowEnd(sb: SuperInfo, g: nat)
    requires ValidSuper(sb) && g < sb.groupsCount
    ensures sb.firstDataBlock <= GroupFirstBlock(sb, g) < sb.blocksCount
    ensures GroupFirstBlock(sb, g + 1) == GroupFirstBlock(sb, g) + sb.blocksPerGroup
    ensures g + 1 < sb.groupsCount ==> GroupFirstBlock(sb, g + 1) < sb.blocksCount
    ensures g + 1 == sb.groupsCount ==> sb.blocksCount <= GroupFirstBlock(sb, g + 1)
  {
    ValidSuperProducts(sb);
    var bpg := sb.blocksPerGroup;
    MulMonotone(0, g, bpg);
    MulMonotone(g, sb.groupsCount - 1, bpg);
    MulMonotone(g + 1, sb.groupsCount, bpg);
    assert (g + 1) * bpg == g * bpg + bpg;
    if g + 1 < sb.groupsCount {
      MulMonotone(g + 1, sb.groupsCount - 1, bpg);
    }
  }

  /**
   * Without flex_bg, every block a valid descriptor names lies in the block
   * range of its own group, so ext4_block_in_group holds for each of them.
   */
  lemma DescBlocksInOwnGroup(sb: SuperInfo, g: nat, d: GroupDesc)
    requires ValidSuper(sb) && g < sb.groupsCount && DescValid(sb, g, d) && !sb.features.flexBg
    ensures GroupFirstBlock(sb, g) <= d.blockBitmap < GroupFirstBlock(sb, g + 1)
    ensures GroupFirstBlock(sb, g) <= d.inodeBitmap < GroupFirstBlock(sb, g + 1)
    ensures GroupFirstBlock(sb, g) <= d.inodeTable
    ensures d.inodeTable + sb.itbPerGroup <= GroupFirstBlock(sb, g + 1)
  {
    GroupFirstBelowEnd(sb, g);
  }
}
