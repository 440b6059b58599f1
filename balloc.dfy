/**
 * The in-memory superblock state that fs/ext4/balloc.c updates: the
 * per-group flags that quarantine a group whose bitmaps cannot be trusted,
 * the free-cluster, free-inode and dirty-cluster counters, and the read
 * path that brings a group's block bitmap into a buffer and verifies it
 * before the allocator may use it.
 */
module Balloc {
  import opened Wrappers
  import opened Width
  import opened Errno
  import opened Geometry
  import opened DescTable
  import opened Overhead
  import opened Bitmap
  import opened FreeSpace

  /** struct ext4_group_info: bb_free and the two bitmap-corrupt bits of bb_state. */
  datatype GroupInfo = GroupInfo(bbFree: nat, bbitmapCorrupt: bool, ibitmapCorrupt: bool)

  /** The free clusters of a group that its quarantine keeps out of the free counter. */
  function Withheld(gi: GroupInfo): nat
  {
    if gi.bbitmapCorrupt then gi.bbFree else 0
  }

  /** What setting the block-bitmap-corrupt bit subtracts from the free counter. */
  function Penalty(gi: GroupInfo): nat
  {
    if gi.bbitmapCorrupt then 0 else gi.bbFree
  }

  function MarkBlockCorrupt(gi: GroupInfo): GroupInfo
  {
    gi.(bbitmapCorrupt := true)
  }

  /** Both corrupt bits set, as a descriptor whose checksum fails leaves them. */
  function MarkBothCorrupt(gi: GroupInfo): GroupInfo
  {
    gi.(bbitmapCorrupt := true, ibitmapCorrupt := true)
  }

  /**
   * The only changes the bitmap read path makes to the group records: none,
   * the block-bitmap quarantine of group g, or the quarantine of both of
   * its bitmaps.
   */
  ghost predicate QuarantineStep(gs0: seq<GroupInfo>, gs1: seq<GroupInfo>, g: nat)
  {
    || gs1 == gs0
    || (g < |gs0| && gs1 == gs0[g := MarkBlockCorrupt(gs0[g])])
    || (g < |gs0| && gs1 == gs0[g := MarkBothCorrupt(gs0[g])])
  }

  /** Two quarantine steps on the same group make one. */
  lemma QuarantineStepTransitive(gs0: seq<GroupInfo>, gs1: seq<GroupInfo>, gs2: seq<GroupInfo>, g: nat)
    requires QuarantineStep(gs0, gs1, g) && QuarantineStep(gs1, gs2, g)
    ensures QuarantineStep(gs0, gs2, g)
  {
    if gs1 != gs0 && gs2 != gs1 {
      assert gs1[g].bbitmapCorrupt;
      assert gs2 == gs0[g := MarkBothCorrupt(gs0[g])];
    }
  }

  /**
   * A quarantine step never clears a corrupt bit, never changes bb_free,
   * and leaves every other group's record alone: a group once marked
   * corrupt stays marked.
   */
  lemma QuarantineStepMonotone(gs0: seq<GroupInfo>, gs1: seq<GroupInfo>, g: nat)
    requires QuarantineStep(gs0, gs1, g)
    ensures |gs1| == |gs0|
    ensures forall h :: 0 <= h < |gs0| && h != g ==> gs1[h] == gs0[h]
    ensures forall h :: 0 <= h < |gs0| ==>
      && gs1[h].bbFree == gs0[h].bbFree
      && (gs0[h].bbitmapCorrupt ==> gs1[h].bbitmapCorrupt)
      && (gs0[h].ibitmapCorrupt ==> gs1[h].ibitmapCorrupt)
  {
  }

  /**
   * The specification of ext4_validate_block_bitmap for group g with
   * descriptor d: gs0 and free0 are the group records and the free-cluster
   * counter before, gs1 and free1 after; wasVerified is the buffer's
   * BH_Verified bit before, csumOk whether its contents match their
   * checksum, bm its contents, err the result and verified BH_Verified
   * after.  A verified buffer passes at once and a quarantined group fails
   * at once; otherwise a checksum mismatch (EFSBADCRC) or a bitmap that
   * does not mark the group's own metadata (EFSCORRUPTED) quarantines the
   * group, and any other bitmap becomes verified.
   */
  ghost predicate Validated(sb: SuperInfo, g: nat, d: GroupDesc,
                            gs0: seq<GroupInfo>, free0: int, gs1: seq<GroupInfo>, free1: int,
                            wasVerified: bool, csumOk: bool, bm: seq<bool>, err: int, verified: bool)
    requires g < |gs0|
  {
    if wasVerified then
      err == 0 && verified && gs1 == gs0 && free1 == free0
    else if gs0[g].bbitmapCorrupt then
      err == -EFSCORRUPTED && !verified && gs1 == gs0 && free1 == free0
    else if !csumOk then
      && err == -EFSBADCRC && !verified
      && gs1 == gs0[g := MarkBlockCorrupt(gs0[g])] && free1 == free0 - gs0[g].bbFree
    else if sb.features.flexBg || MetaMarked(sb, g, d, bm) then
      err == 0 && verified && gs1 == gs0 && free1 == free0
    else
      && err == -EFSCORRUPTED && !verified
      && gs1 == gs0[g := MarkBlockCorrupt(gs0[g])] && free1 == free0 - gs0[g].bbFree
  }

  /** The free clusters withheld by all quarantined groups. */
  function CorruptFree(gs: seq<GroupInfo>): (n: nat)
    ensures n <= Sum(gs)
  {
    if |gs| == 0 then 0 else CorruptFree(gs[..|gs| - 1]) + Withheld(gs[|gs| - 1])
  }

  /** bb_free over all groups. */
  function Sum(gs: seq<GroupInfo>): nat
  {
    if |gs| == 0 then 0 else Sum(gs[..|gs| - 1]) + gs[|gs| - 1].bbFree
  }

  /** Replacing one group's record changes the withheld total by the difference of the two records. */
  lemma {:induction false} CorruptFreeUpdate(gs: seq<GroupInfo>, g: nat, gi: GroupInfo)
    requires g < |gs|
    ensures CorruptFree(gs[g := gi]) == CorruptFree(gs) - Withheld(gs[g]) + Withheld(gi)
    decreases |gs|
  {
    var n := |gs| - 1;
    var gs' := gs[g := gi];
    if g == n {
      assert gs'[..n] == gs[..n];
    } else {
      assert gs'[..n] == gs[..n][g := gi];
      CorruptFreeUpdate(gs[..n], g, gi);
    }
  }

  /**
   * Quarantining a group withholds exactly what the counter loses: the
   * group's bb_free when it was not quarantined before, nothing otherwise.
   */
  lemma QuarantineWithholdsPenalty(gs: seq<GroupInfo>, g: nat)
    requires g < |gs|
    ensures CorruptFree(gs[g := MarkBlockCorrupt(gs[g])]) == CorruptFree(gs) + Penalty(gs[g])
  {
    CorruptFreeUpdate(gs, g, MarkBlockCorrupt(gs[g]));
  }

  /**
   * A bitmap the allocator may rely on: group g has a descriptor, and
   * (without flex_bg) the bitmap marks the group's own metadata.
   */
  ghost predicate Trusted(sb: SuperInfo, table: Table, g: nat, bm: seq<bool>)
    requires TableShape(sb, table)
  {
    && GetGroupDesc(sb, table, g).Ok?
    && (sb.features.flexBg || MetaMarked(sb, g, GetGroupDesc(sb, table, g).value, bm))
  }

  /** The contribution of group i to ext4_count_free_clusters. */
  function Contribution(sb: SuperInfo, table: Table, groups: seq<GroupInfo>, hasGroupInfo: bool, i: nat): nat
    requires TableShape(sb, table) && i < |groups|
  {
    match GetGroupDesc(sb, table, i)
    case Err(_) => 0
    case Ok(d) => if !hasGroupInfo || !groups[i].bbitmapCorrupt then d.freeClusters else 0
  }

  /**
   * The descriptor free counts of the first n groups, skipping groups
   * whose descriptor block is not loaded and, once the group records
   * exist, groups whose block bitmap is quarantined.
   */
  function CountedFree(sb: SuperInfo, table: Table, groups: seq<GroupInfo>, hasGroupInfo: bool, n: nat): nat
    requires TableShape(sb, table) && n <= |groups|
  {
    if n == 0 then 0
    else CountedFree(sb, table, groups, hasGroupInfo, n - 1) + Contribution(sb, table, groups, hasGroupInfo, n - 1)
  }

  /**
   * Quarantining group g removes exactly its descriptor's free count from
   * the total, when it was being counted.
   */
  lemma {:induction false} CountedFreeQuarantine(sb: SuperInfo, table: Table, groups: seq<GroupInfo>, g: nat, n: nat)
    requires TableShape(sb, table) && g < |groups| && n <= |groups|
    ensures var gs := groups[g := MarkBlockCorrupt(groups[g])];
      CountedFree(sb, table, gs, true, n)
        == CountedFree(sb, table, groups, true, n) - (if g < n then Contribution(sb, table, groups, true, g) else 0)
  {
    var gs := groups[g := MarkBlockCorrupt(groups[g])];
    if n > 0 {
      CountedFreeQuarantine(sb, table, groups, g, n - 1);
      if n - 1 != g {
        assert Contribution(sb, table, gs, true, n - 1) == Contribution(sb, table, groups, true, n - 1);
      } else {
        assert Contribution(sb, table, gs, true, n - 1) == 0;
      }
    }
  }

  /** Before the group records exist nothing is skipped for quarantine, so the total can only be larger. */
  lemma {:induction false} CountedFreeQuarantineLowers(sb: SuperInfo, table: Table, groups: seq<GroupInfo>, n: nat)
    requires TableShape(sb, table) && n <= |groups|
    ensures CountedFree(sb, table, groups, true, n) <= CountedFree(sb, table, groups, false, n)
  {
    if n > 0 {
      CountedFreeQuarantineLowers(sb, table, groups, n - 1);
    }
  }

  /**
   * struct ext4_sb_info, as far as the allocator's bookkeeping goes.  The
   * per-cpu counters are represented by their exact values; the
   * approximate reads ext4_has_free_clusters starts from are parameters of
   * the operations that use them.
   */
  class SbInfo {
    const sb: SuperInfo
    const table: Table              // s_group_desc
    const hasGroupInfo: bool        // s_group_info has been set up
    var groups: seq<GroupInfo>      // s_group_info
    var freeClusters: int           // s_freeclusters_counter
    var freeInodes: int             // s_freeinodes_counter
    var dirtyClusters: int          // s_dirtyclusters_counter
    const reserve: Reserve          // r_blocks_count, s_cluster_bits, s_resv_clusters
    const watermark: int            // EXT4_FREECLUSTERS_WATERMARK
    const hasJournal: bool          // s_journal != NULL
    const mbFreePending: bool       // s_mb_free_pending
    /** What s_freeclusters_counter would hold if no group were quarantined. */
    ghost var unquarantined: int

    /**
     * The mount-time guarantees, and the quarantine bookkeeping: every
     * quarantined group's bb_free has been taken out of the free counter
     * exactly once.
     */
    ghost predicate Valid()
      reads this
    {
      && ValidSuper(sb)
      && TableShape(sb, table)
      && |groups| == sb.groupsCount
      && reserve.clusterBits == sb.clusterBits
      && (forall g: nat :: g < sb.groupsCount && GetGroupDesc(sb, table, g).Ok? ==>
            DescValid(sb, g, GetGroupDesc(sb, table, g).value))
      && freeClusters + CorruptFree(groups) == unquarantined
    }

    /** The state after mount. */
    constructor (sb: SuperInfo, table: Table, hasGroupInfo: bool, groups: seq<GroupInfo>,
                 freeClusters: int, freeInodes: int, dirtyClusters: int,
                 reserve: Reserve, watermark: int, hasJournal: bool, mbFreePending: bool)
      requires ValidSuper(sb) && TableShape(sb, table) && |groups| == sb.groupsCount
      requires reserve.clusterBits == sb.clusterBits
      requires forall g: nat :: g < sb.groupsCount && GetGroupDesc(sb, table, g).Ok? ==>
        DescValid(sb, g, GetGroupDesc(sb, table, g).value)
      ensures Valid()
      ensures this.sb == sb && this.table == table && this.hasGroupInfo == hasGroupInfo
      ensures this.groups == groups && this.freeClusters == freeClusters
      ensures this.freeInodes == freeInodes && this.dirtyClusters == dirtyClusters
      ensures this.reserve == reserve && this.watermark == watermark
      ensures this.hasJournal == hasJournal && this.mbFreePending == mbFreePending
    {
      this.sb, this.table, this.hasGroupInfo, this.groups := sb, table, hasGroupInfo, groups;
      this.freeClusters, this.freeInodes, this.dirtyClusters := freeClusters, freeInodes, dirtyClusters;
      this.reserve, this.watermark := reserve, watermark;
      this.hasJournal, this.mbFreePending := hasJournal, mbFreePending;
      unquarantined := freeClusters + CorruptFree(groups);
    }

    /** The descriptor of a group that GetGroupDesc returns satisfies the mount checks. */
    lemma DescOfValid(g: nat, d: GroupDesc)
      requires Valid() && GetGroupDesc(sb, table, g) == Ok(d)
      ensures g < sb.groupsCount && DescValid(sb, g, d)
    {
    }

    /**
     * The block-bitmap quarantine: take the group's bb_free out of the
     * free counter unless it is already out, and set
     * EXT4_GROUP_INFO_BBITMAP_CORRUPT.
     */
    method MarkBlockBitmapCorrupt(g: nat)
      requires Valid() && g < |groups|
      modifies this
      ensures Valid()
      ensures groups == old(groups)[g := MarkBlockCorrupt(old(groups)[g])]
      ensures freeClusters == old(freeClusters) - Penalty(old(groups)[g])
      ensures freeInodes == old(freeInodes) && dirtyClusters == old(dirtyClusters)
      ensures unquarantined == old(unquarantined)
    {
      if !groups[g].bbitmapCorrupt {
        freeClusters := freeClusters - groups[g].bbFree;
      }
      QuarantineWithholdsPenalty(groups, g);
      groups := groups[g := MarkBlockCorrupt(groups[g])];
    }

    /**
     * ext4_init_block_bitmap.  A descriptor whose checksum fails
     * quarantines both of the group's bitmaps (withdrawing its free
     * clusters and free inodes from the counters, once) and leaves the
     * buffer alone; otherwise the buffer receives InitialBits, unless the
     * group's base metadata does not fit in the bitmap block.
     */
    method InitBlockBitmap(buf: BitmapBuffer, g: nat, d: GroupDesc) returns (err: int)
      requires Valid() && hasGroupInfo && GetGroupDesc(sb, table, g) == Ok(d)
      requires buf.bits.Length == 8 * BlockSize(sb)
      modifies this, buf, buf.bits
      ensures Valid()
      ensures unquarantined == old(unquarantined) && dirtyClusters == old(dirtyClusters)
      ensures buf.uptodate == old(buf.uptodate) && buf.bitmapUptodate == old(buf.bitmapUptodate)
      ensures buf.verified == old(buf.verified) && buf.isNew == old(buf.isNew)
      ensures !d.csumOk ==>
        && err == -EFSBADCRC
        && groups == old(groups)[g := MarkBothCorrupt(old(groups)[g])]
        && freeClusters == old(freeClusters) - Penalty(old(groups)[g])
        && freeInodes == old(freeInodes) - (if old(groups)[g].ibitmapCorrupt then 0 else d.freeInodes)
        && buf.csumOk == old(buf.csumOk) && buf.bits[..] == old(buf.bits[..])
      ensures d.csumOk ==>
        && groups == old(groups) && freeClusters == old(freeClusters) && freeInodes == old(freeInodes)
        && (err == 0 || err == -EFSCORRUPTED)
        && (err == -EFSCORRUPTED <==> Shr(NumBaseMetaClusters(sb, g), 3) >= BlockSize(sb))
        && (err == 0 ==> buf.Marks(InitialBits(sb, g, d)) && buf.csumOk)
        && (err != 0 ==> buf.Marks({}) && buf.csumOk == old(buf.csumOk))
    {
      DescOfValid(g, d);
      if !d.csumOk {
        MarkBlockBitmapCorrupt(g);
        if !groups[g].ibitmapCorrupt {
          freeInodes := freeInodes - d.freeInodes;
        }
        CorruptFreeUpdate(groups, g, groups[g].(ibitmapCorrupt := true));
        groups := groups[g := groups[g].(ibitmapCorrupt := true)];
        return -EFSBADCRC;
      }
      err := FillInitialBitmap(sb, g, d, buf);
      if err == 0 {
        buf.csumOk := true;
      }
    }

    /**
     * ext4_validate_block_bitmap.  A verified buffer passes at once and a
     * quarantined group fails at once; otherwise a bad checksum or a bitmap
     * that does not mark the group's metadata quarantines the group, and a
     * bitmap that passes both becomes verified.
     */
    method ValidateBlockBitmap(d: GroupDesc, g: nat, buf: BitmapBuffer) returns (err: int)
      requires Valid() && hasGroupInfo && GetGroupDesc(sb, table, g) == Ok(d)
      requires buf.bits.Length == 8 * BlockSize(sb)
      modifies this, buf
      ensures Valid()
      ensures unquarantined == old(unquarantined) && dirtyClusters == old(dirtyClusters)
      ensures freeInodes == old(freeInodes)
      ensures buf.uptodate == old(buf.uptodate) && buf.bitmapUptodate == old(buf.bitmapUptodate)
      ensures buf.isNew == old(buf.isNew) && buf.csumOk == old(buf.csumOk)
      ensures Validated(sb, g, d, old(groups), old(freeClusters), groups, freeClusters,
                        old(buf.verified), buf.csumOk, buf.bits[..], err, buf.verified)
    {
      DescOfValid(g, d);
      if buf.verified {
        return 0;
      }
      if groups[g].bbitmapCorrupt {
        return -EFSCORRUPTED;
      }
      if !buf.csumOk {
        MarkBlockBitmapCorrupt(g);
        return -EFSBADCRC;
      }
      var blk := ValidBlockBitmapCorrected(sb, g, d, buf.bits);
      if blk != 0 {
        MarkBlockBitmapCorrupt(g);
        return -EFSCORRUPTED;
      }
      buf.verified := true;
      return 0;
    }

    /**
     * ext4_read_block_bitmap_nowait.  getblkOk says whether sb_getblk
     * produced a buffer head.  A buffer whose bitmap is not yet up to date
     * is synthesised for a BLOCK_UNINIT group, adopted when the buffer
     * itself is up to date, and otherwise submitted for reading (BH_New,
     * result 0, to be completed by WaitBlockBitmap); every other path ends
     * in ValidateBlockBitmap.
     */
    method ReadBlockBitmapNowait(g: nat, buf: BitmapBuffer, getblkOk: bool) returns (err: int)
      requires Valid() && hasGroupInfo
      requires buf.bits.Length == 8 * BlockSize(sb) && buf.Coherent()
      requires buf.verified ==> Trusted(sb, table, g, buf.bits[..])
      modifies this, buf, buf.bits
      ensures Valid() && buf.Coherent()
      ensures unquarantined == old(unquarantined) && dirtyClusters == old(dirtyClusters)
      ensures buf.verified ==> Trusted(sb, table, g, buf.bits[..])
      ensures QuarantineStep(old(groups), groups, g)
      ensures freeInodes == old(freeInodes) || DescCsumQuarantine(g, getblkOk, old(buf.bitmapUptodate))
      ensures GetGroupDesc(sb, table, g).Err? || !getblkOk ==>
        && err == (if GetGroupDesc(sb, table, g).Err? then -EFSCORRUPTED else -ENOMEM)
        && groups == old(groups) && freeClusters == old(freeClusters) && freeInodes == old(freeInodes)
      ensures err == 0 ==> buf.verified || (buf.isNew && !buf.uptodate)
      ensures GetGroupDesc(sb, table, g).Ok? && getblkOk && !old(buf.bitmapUptodate) ==>
        var d := GetGroupDesc(sb, table, g).value;
        d.blockUninit && d.csumOk && !old(groups)[g].bbitmapCorrupt
        ==> (err == 0 <==> Shr(NumBaseMetaClusters(sb, g), 3) < BlockSize(sb))
            && (err == 0 ==> buf.Marks(InitialBits(sb, g, d)) && buf.verified)
      ensures GetGroupDesc(sb, table, g).Ok? && getblkOk ==>
        var d := GetGroupDesc(sb, table, g).value;
        if old(buf.bitmapUptodate) || (!d.blockUninit && old(buf.uptodate)) then
          && buf.bits[..] == old(buf.bits[..])
          && Validated(sb, g, d, old(groups), old(freeClusters), groups, freeClusters,
                       old(buf.verified), old(buf.csumOk), buf.bits[..], err, buf.verified)
        else if !d.blockUninit then
          && err == 0 && buf.isNew && !buf.uptodate && !buf.verified
          && groups == old(groups) && freeClusters == old(freeClusters)
        else if !d.csumOk then
          && err == -EFSBADCRC
          && groups == old(groups)[g := MarkBothCorrupt(old(groups)[g])]
          && freeClusters == old(freeClusters) - Penalty(old(groups)[g])
          && freeInodes == old(freeInodes) - (if old(groups)[g].ibitmapCorrupt then 0 else d.freeInodes)
        else if Shr(NumBaseMetaClusters(sb, g), 3) >= BlockSize(sb) then
          err == -EFSCORRUPTED && groups == old(groups) && freeClusters == old(freeClusters)
        else
          && buf.Marks(InitialBits(sb, g, d)) && buf.csumOk
          && Validated(sb, g, d, old(groups), old(freeClusters), groups, freeClusters,
                       false, true, buf.bits[..], err, buf.verified)
    {
      var r := GetGroupDesc(sb, table, g);
      if r.Err? {
        return -EFSCORRUPTED;
      }
      var d := r.value;
      DescOfValid(g, d);
      if !getblkOk {
        return -ENOMEM;
      }
      if !buf.bitmapUptodate {
        var submitted;
        err, submitted := LoadBlockBitmap(g, d, buf);
        if err != 0 || submitted {
          return err;
        }
      }
      ghost var gs, free := groups, freeClusters;
      err := ValidateBlockBitmap(d, g, buf);
      QuarantineStepTransitive(old(groups), gs, groups, g);
    }

    /**
     * The one path on which the bitmap read path changes the free-inode
     * counter: a BLOCK_UNINIT group, not yet up to date, whose descriptor
     * checksum fails.
     */
    ghost predicate DescCsumQuarantine(g: nat, getblkOk: bool, bitmapUptodate: bool)
      reads this
      requires TableShape(sb, table)
    {
      && GetGroupDesc(sb, table, g).Ok? && getblkOk && !bitmapUptodate
      && GetGroupDesc(sb, table, g).value.blockUninit && !GetGroupDesc(sb, table, g).value.csumOk
    }

    /**
     * The locked part of ext4_read_block_bitmap_nowait, for a buffer whose
     * bitmap is not up to date: initialise (the buffer counts as up to date
     * even when that fails), adopt an up-to-date buffer, or submit a read.
     */
    method LoadBlockBitmap(g: nat, d: GroupDesc, buf: BitmapBuffer) returns (err: int, submitted: bool)
      requires Valid() && hasGroupInfo && GetGroupDesc(sb, table, g) == Ok(d)
      requires buf.bits.Length == 8 * BlockSize(sb) && buf.Coherent() && !buf.bitmapUptodate
      modifies this, buf, buf.bits
      ensures Valid() && buf.Coherent() && !buf.verified
      ensures unquarantined == old(unquarantined) && dirtyClusters == old(dirtyClusters)
      ensures QuarantineStep(old(groups), groups, g)
      ensures submitted ==> err == 0
      ensures d.blockUninit ==> !submitted && buf.bitmapUptodate
      ensures !d.blockUninit ==> buf.bits[..] == old(buf.bits[..]) && buf.csumOk == old(buf.csumOk)
      ensures !d.blockUninit && old(buf.uptodate) ==> !submitted && err == 0
      ensures !d.blockUninit && !old(buf.uptodate) ==> submitted && buf.isNew && !buf.uptodate
      ensures err == 0 && !submitted ==> buf.bitmapUptodate
      ensures d.blockUninit && !d.csumOk ==>
        && err == -EFSBADCRC
        && groups == old(groups)[g := MarkBothCorrupt(old(groups)[g])]
        && freeClusters == old(freeClusters) - Penalty(old(groups)[g])
        && freeInodes == old(freeInodes) - (if old(groups)[g].ibitmapCorrupt then 0 else d.freeInodes)
      ensures !(d.blockUninit && !d.csumOk) ==> freeInodes == old(freeInodes)
      ensures d.blockUninit && d.csumOk ==>
        && groups == old(groups) && freeClusters == old(freeClusters)
        && (err == 0 <==> Shr(NumBaseMetaClusters(sb, g), 3) < BlockSize(sb))
        && (err == 0 ==> buf.Marks(InitialBits(sb, g, d)) && buf.csumOk && MetaMarked(sb, g, d, buf.bits[..]))
        && (err != 0 ==> err == -EFSCORRUPTED)
      ensures !d.blockUninit ==> groups == old(groups) && freeClusters == old(freeClusters)
    {
      if d.blockUninit {
        DescOfValid(g, d);
        err := InitBlockBitmap(buf, g, d);
        buf.bitmapUptodate := true;
        buf.uptodate := true;
        if d.csumOk && err == 0 {
          BufferInitialBitsMetaMarked(sb, g, d, buf);
        }
        return err, false;
      }
      if buf.uptodate {
        buf.bitmapUptodate := true;
        return 0, false;
      }
      buf.isNew := true;
      return 0, true;
    }

    /**
     * ext4_wait_block_bitmap.  A buffer not marked BH_New has nothing to
     * wait for.  Otherwise the pending read completes here: readOk says
     * whether it succeeded, disk is the block's contents and diskCsumOk
     * whether they match the descriptor's checksum.  A failed read is EIO;
     * a completed one is validated.
     */
    method WaitBlockBitmap(g: nat, buf: BitmapBuffer, readOk: bool, disk: seq<bool>, diskCsumOk: bool)
      returns (err: int)
      requires Valid() && hasGroupInfo
      requires buf.bits.Length == 8 * BlockSize(sb) && |disk| == buf.bits.Length && buf.Coherent()
      requires buf.verified ==> Trusted(sb, table, g, buf.bits[..])
      modifies this, buf, buf.bits
      ensures Valid() && buf.Coherent()
      ensures unquarantined == old(unquarantined) && dirtyClusters == old(dirtyClusters)
      ensures buf.verified ==> Trusted(sb, table, g, buf.bits[..])
      ensures QuarantineStep(old(groups), groups, g) && freeInodes == old(freeInodes)
      ensures !old(buf.isNew) ==> err == 0 && groups == old(groups) && freeClusters == old(freeClusters)
      ensures !old(buf.isNew) ==> buf.verified == old(buf.verified) && buf.bits[..] == old(buf.bits[..])
      ensures !old(buf.isNew) ==> !buf.isNew
      ensures old(buf.verified) ==> err == 0 && buf.verified && unchanged(buf.bits)
      ensures old(buf.verified) ==> groups == old(groups) && freeClusters == old(freeClusters)
      ensures GetGroupDesc(sb, table, g).Err? ==> groups == old(groups) && freeClusters == old(freeClusters)
      ensures old(buf.isNew) && GetGroupDesc(sb, table, g).Err? ==> err == -EFSCORRUPTED
      ensures old(buf.isNew) && err == 0 ==> buf.verified && !buf.isNew
      ensures old(buf.isNew) && GetGroupDesc(sb, table, g).Ok? ==>
        var d := GetGroupDesc(sb, table, g).value;
        if !old(buf.uptodate) && !readOk then
          && err == -EIO && groups == old(groups) && freeClusters == old(freeClusters)
          && buf.bits[..] == old(buf.bits[..])
        else
          && !buf.isNew && buf.uptodate
          && buf.bits[..] == (if old(buf.uptodate) then old(buf.bits[..]) else disk)
          && buf.csumOk == (if old(buf.uptodate) then old(buf.csumOk) else diskCsumOk)
          && Validated(sb, g, d, old(groups), old(freeClusters), groups, freeClusters,
                       old(buf.verified), buf.csumOk, buf.bits[..], err, buf.verified)
    {
      if !buf.isNew {
        return 0;
      }
      var r := GetGroupDesc(sb, table, g);
      if r.Err? {
        return -EFSCORRUPTED;
      }
      var d := r.value;
      DescOfValid(g, d);
      if !buf.uptodate && readOk {
        buf.Fill(disk);
        buf.uptodate, buf.bitmapUptodate, buf.csumOk := true, true, diskCsumOk;
      }
      if !buf.uptodate {
        return -EIO;
      }
      buf.isNew := false;
      err := ValidateBlockBitmap(d, g, buf);
    }

    /**
     * ext4_read_block_bitmap: the two halves one after the other.  A
     * bitmap it returns is verified, up to date, no longer new, and marks
     * the group's own metadata.  The outcome per path is that of
     * ValidateBlockBitmap on the contents the buffer ends up with: its
     * earlier contents when it was up to date, the block read from disk,
     * or the synthesised bitmap of a BLOCK_UNINIT group.
     */
    method ReadBlockBitmap(g: nat, buf: BitmapBuffer, getblkOk: bool, readOk: bool, disk: seq<bool>, diskCsumOk: bool)
      returns (err: int)
      requires Valid() && hasGroupInfo
      requires buf.bits.Length == 8 * BlockSize(sb) && |disk| == buf.bits.Length && buf.Coherent()
      requires buf.verified ==> Trusted(sb, table, g, buf.bits[..])
      modifies this, buf, buf.bits
      ensures Valid() && buf.Coherent()
      ensures unquarantined == old(unquarantined) && dirtyClusters == old(dirtyClusters)
      ensures QuarantineStep(old(groups), groups, g)
      ensures forall h :: 0 <= h < |old(groups)| && h != g ==> groups[h] == old(groups)[h]
      ensures forall h :: 0 <= h < |old(groups)| ==>
        && (old(groups)[h].bbitmapCorrupt ==> groups[h].bbitmapCorrupt)
        && (old(groups)[h].ibitmapCorrupt ==> groups[h].ibitmapCorrupt)
      ensures freeInodes == old(freeInodes) || DescCsumQuarantine(g, getblkOk, old(buf.bitmapUptodate))
      ensures GetGroupDesc(sb, table, g).Err? || !getblkOk ==>
        && err == (if GetGroupDesc(sb, table, g).Err? then -EFSCORRUPTED else -ENOMEM)
        && groups == old(groups) && freeClusters == old(freeClusters) && freeInodes == old(freeInodes)
      ensures err == 0 ==> buf.verified && buf.uptodate && !buf.isNew && Trusted(sb, table, g, buf.bits[..])
      ensures GetGroupDesc(sb, table, g).Ok? && getblkOk && !old(buf.bitmapUptodate) ==>
        var d := GetGroupDesc(sb, table, g).value;
        d.blockUninit && d.csumOk && !old(groups)[g].bbitmapCorrupt
        ==> (err == 0 <==> Shr(NumBaseMetaClusters(sb, g), 3) < BlockSize(sb))
            && (err == 0 ==> buf.Marks(InitialBits(sb, g, d)))
      ensures GetGroupDesc(sb, table, g).Ok? && getblkOk ==>
        var d := GetGroupDesc(sb, table, g).value;
        if old(buf.bitmapUptodate) || (!d.blockUninit && old(buf.uptodate)) then
          && buf.bits[..] == old(buf.bits[..])
          && Validated(sb, g, d, old(groups), old(freeClusters), groups, freeClusters,
                       old(buf.verified), old(buf.csumOk), buf.bits[..], err, buf.verified)
        else if !d.blockUninit then
          if readOk then
            && buf.bits[..] == disk && buf.csumOk == diskCsumOk
            && Validated(sb, g, d, old(groups), old(freeClusters), groups, freeClusters,
                         false, diskCsumOk, disk, err, buf.verified)
          else
            err == -EIO && groups == old(groups) && freeClusters == old(freeClusters)
        else if !d.csumOk then
          && err == -EFSBADCRC
          && groups == old(groups)[g := MarkBothCorrupt(old(groups)[g])]
          && freeClusters == old(freeClusters) - Penalty(old(groups)[g])
          && freeInodes == old(freeInodes) - (if old(groups)[g].ibitmapCorrupt then 0 else d.freeInodes)
        else if Shr(NumBaseMetaClusters(sb, g), 3) >= BlockSize(sb) then
          err == -EFSCORRUPTED && groups == old(groups) && freeClusters == old(freeClusters)
        else
          && buf.Marks(InitialBits(sb, g, d))
          && Validated(sb, g, d, old(groups), old(freeClusters), groups, freeClusters,
                       false, true, buf.bits[..], err, buf.verified)
    {
      err := ReadBlockBitmapNowait(g, buf, getblkOk);
      if err != 0 {
        QuarantineStepMonotone(old(groups), groups, g);
        return err;
      }
      ghost var gs := groups;
      err := WaitBlockBitmap(g, buf, readOk, disk, diskCsumOk);
      QuarantineStepTransitive(old(groups), gs, groups, g);
      QuarantineStepMonotone(old(groups), groups, g);
    }

    /**
     * ext4_count_free_clusters (without EXT4FS_DEBUG): the sum of the
     * descriptors' free counts, skipping unloaded descriptors and
     * quarantined groups.
     */
    method CountFreeClusters() returns (count: nat)
      requires Valid()
      ensures count == CountedFree(sb, table, groups, hasGroupInfo, sb.groupsCount)
    {
      count := 0;
      var i := 0;
      while i < sb.groupsCount
        invariant 0 <= i <= sb.groupsCount
        invariant count == CountedFree(sb, table, groups, hasGroupInfo, i)
      {
        var r := GetGroupDesc(sb, table, i);
        if r.Ok? {
          if !hasGroupInfo || !groups[i].bbitmapCorrupt {
            count := count + r.value.freeClusters;
          }
        }
        i := i + 1;
      }
    }

    /**
     * ext4_claim_free_clusters: when ext4_has_free_clusters admits the
     * request, the clusters are added to the dirty counter; otherwise
     * ENOSPC and nothing changes.  When the reads are within e of the
     * counters and the watermark covers 2e, a successful claim leaves the
     * caller's floor free.
     */
    method ClaimFreeClusters(n: int, freeRead: nat, dirtyRead: nat, who: Caller, ghost e: nat) returns (err: int)
      requires Valid()
      modifies this
      ensures Valid()
      ensures groups == old(groups) && freeClusters == old(freeClusters) && freeInodes == old(freeInodes)
      ensures unquarantined == old(unquarantined)
      ensures var ok := HasFreeClusters(Counters(freeRead, dirtyRead, old(freeClusters), old(dirtyClusters)),
                                        reserve, watermark, n, who);
        && (ok ==> err == 0 && dirtyClusters == old(dirtyClusters) + n)
        && (!ok ==> err == -ENOSPC && dirtyClusters == old(dirtyClusters))
      ensures err == 0 && n >= 1 && 2 * e <= watermark
              && old(freeClusters) - e <= freeRead <= old(freeClusters) + e
              && old(dirtyClusters) - e <= dirtyRead <= old(dirtyClusters) + e
              ==> freeClusters - dirtyClusters >= Floor(reserve, who)
    {
      var c := Counters(freeRead, dirtyRead, freeClusters, dirtyClusters);
      if HasFreeClusters(c, reserve, watermark, n, who) {
        if n >= 1 && 2 * e <= watermark
           && freeClusters - e <= freeRead <= freeClusters + e
           && dirtyClusters - e <= dirtyRead <= dirtyClusters + e {
          HasFreeRespectsFloor(c, reserve, watermark, n, who, e);
        }
        dirtyClusters := dirtyClusters + n;
        return 0;
      }
      return -ENOSPC;
    }

    /**
     * ext4_should_retry_alloc: retry after ENOSPC only while a one-cluster
     * request (with the caller's credentials but no flags) would be
     * admitted, at most four times, and only with a journal whose commit
     * may free clusters; the commit is forced when frees are pending.
     */
    method ShouldRetryAlloc(retries: int, freeRead: nat, dirtyRead: nat, privileged: bool)
      returns (retry: bool, retriesAfter: int, forceCommit: bool)
      ensures var ok := HasFreeClusters(Counters(freeRead, dirtyRead, freeClusters, dirtyClusters),
                                        reserve, watermark, 1, Caller(privileged, false, false));
        && (retry <==> ok && retries <= 3 && hasJournal)
        && retriesAfter == (if ok then retries + 1 else retries)
      ensures forceCommit <==> retry && mbFreePending
      ensures retry ==> retriesAfter <= 4
    {
      var c := Counters(freeRead, dirtyRead, freeClusters, dirtyClusters);
      retriesAfter := retries;
      forceCommit := false;
      if !HasFreeClusters(c, reserve, watermark, 1, Caller(privileged, false, false)) {
        return false, retriesAfter, forceCommit;
      }
      retriesAfter := retries + 1;
      if retries > 3 || !hasJournal {
        return false, retriesAfter, forceCommit;
      }
      forceCommit := mbFreePending;
      retry := true;
    }
  }
}
