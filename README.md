# ext4 block allocation core, modelled in Dafny

This project models the block-allocation bookkeeping of the ext4 file system
(fs/ext4/balloc.c) together with the file-type macros of
include/uapi/linux/stat.h that it relies on:

- `width.dfy` (module `Width`): the fixed-width arithmetic the kernel uses.
  It covers 32- and 64-bit wrap-around, truncation to `u32` and to a signed
  `int`, and right shifts, plus small division lemmas.
- `stat.dfy` (module `Stat`): the `S_IF*` format codes, the `S_ISx`
  predicates and the permission bits.
- `geometry.dfy` (module `Geometry`): the superblock geometry and the
  mapping between block numbers and (group, cluster offset) pairs.
  - `ext4_get_group_number`, `ext4_get_group_no_and_offset`,
    `ext4_block_in_group`
  - `test_root`, `ext4_bg_has_super`, the three `ext4_bg_num_gdb*`
    functions, `ext4_num_base_meta_clusters`, `num_clusters_in_group`
- `desc_table.dfy` (module `DescTable`): group descriptors, the in-memory
  descriptor table and `ext4_get_group_desc`.
- `overhead_pass.dfy` and `overhead.dfy` (modules `OverheadPass`,
  `Overhead`): `ext4_num_overhead_clusters` as the single pass the kernel
  makes, measured against the set of metadata clusters of a group, and
  `ext4_free_clusters_after_init`.
- `bitmap.dfy` (module `Bitmap`): the block-bitmap buffer as a class over
  an `array<bool>` with its state bits. It holds:
  - the bitmap `ext4_init_block_bitmap` synthesises for a `BLOCK_UNINIT`
    group;
  - `ext4_find_next_zero_bit`;
  - `ext4_valid_block_bitmap`.
- `free_space.dfy` (module `FreeSpace`): the admission decision
  `ext4_has_free_clusters`, with its approximate reads, its exact resync
  below the watermark and its three-tier reserve ladder.
- `balloc.dfy` (module `Balloc`): the mutable superblock information as the
  class `SbInfo`.
  - Its fields: the per-group runtime records (`bb_free` and the two
    corrupt bits), the free, free-inode and dirty cluster counters, the
    reserves, the watermark, the journal and the pending-frees flag.
  - Its methods: the quarantine of a corrupt group, the read path
    (`ext4_read_block_bitmap_nowait`, `ext4_wait_block_bitmap`,
    `ext4_read_block_bitmap`, `ext4_validate_block_bitmap`,
    `ext4_init_block_bitmap`), `ext4_count_free_clusters`,
    `ext4_claim_free_clusters` and `ext4_should_retry_alloc`.
  - Its invariant `Valid()` states that each quarantined group's free
    clusters have been taken out of the free counter exactly once.
- `goal.dfy` (module `Goal`): `ext4_inode_to_goal_block`, the
  allocation hint.

The superblock and the descriptors are values, and the mount-time checks
of `ext4_fill_super` and `ext4_check_descriptors` appear as the predicates
`ValidSuper`, `TableShape` and `DescValid`.

Two details of the code that the model follows:

- `ext4_should_retry_alloc` tests `(*retries)++ > 3`, so it grants a retry
  for counter values 0 to 3 and refuses from the fifth call on.
- `ext4_has_free_clusters` adds both the root reserve
  (`r_blocks_count >> cluster_bits`) and `s_resv_clusters` to the margin
  that decides whether to resync.

Several helper functions carry no row of their own in the table below.
Their behaviour is stated by the lemmas about them:

- `LocateBlock` by `LocateBlockInGroup` and `LocateGroupBlock`;
- `BlockInGroup` by `BlockInGroupRange`;
- `TestRoot` by `TestRootIsPower`;
- `HasSuper` by `HasSuperCharacterised`;
- the `NumGdb*` functions and `NumBaseMetaClusters` by
  `BaseMetaClustersShape`;
- `ClustersInGroup` by `ClustersInGroupCoversGroup`.

## Model

| member | source | states |
|---|---|---|
| Width.Sub64 | fs/ext4/balloc.c:59 | 64-bit unsigned subtraction: the difference when it is non-negative, otherwise the difference plus 2^64 |
| Width.Signed32 | fs/ext4/balloc.c:1071-1077 | assigning an unsigned value to the signed 32-bit colour keeps it in [-2^31, 2^31) and keeps every value below 2^31 unchanged |
| Width.Signed32Congruent | fs/ext4/balloc.c:1071-1077 | for every value, including those at or above 2^31, the signed colour differs from it by a multiple of 2^32, and it is negative exactly when bit 31 is set |
| Stat.FileTypeOf | include/uapi/linux/stat.h:7-34 | each S_ISx macro holds exactly when the mode's format bits decode to its file type, so at most one holds |
| Stat.TypeDependsOnlyOnFormatBits | include/uapi/linux/stat.h:28-34 | two modes that agree under S_IFMT agree on every S_ISx test |
| Stat.TypeCodesDistinct | include/uapi/linux/stat.h:7-14 | the seven S_IF* codes are non-zero, lie inside S_IFMT and are pairwise distinct |
| Stat.FileTypesExclusive | include/uapi/linux/stat.h:28-34 | no mode satisfies two of the S_ISx predicates |
| Stat.ModeBitsOutsideFormat | include/uapi/linux/stat.h:15-49 | the set-id, sticky and permission bits are disjoint from S_IFMT |
| Stat.NonFormatBitsPreserveType | include/uapi/linux/stat.h:7-49 | setting, clearing or toggling bits outside S_IFMT never changes the file type |
| Stat.PermissionTriples | include/uapi/linux/stat.h:36-49 | each S_IRWX* mask is the union of its read, write and execute bits, and the three masks are disjoint |
| Geometry.NumB2CIsCeiling | fs/ext4/balloc.c:1018 | EXT4_NUM_B2C rounds up: its clusters cover the blocks with less than one cluster to spare, and it is 0 only for 0 blocks |
| Geometry.GetGroupNumber | fs/ext4/balloc.c:34-46 | the STD_GROUP_SIZE shift always gives the same group as the division in ext4_get_group_no_and_offset |
| Geometry.LocateBlockInGroup | fs/ext4/balloc.c:53-71 | every block of the file system maps to an existing group, at a cluster offset within that group, and lies in that group's block range |
| Geometry.LocateGroupBlock | fs/ext4/balloc.c:53-71 | the inverse direction: the block at offset o of group g maps back to group g and cluster o >> cluster_bits, so block and (group, offset) form a bijection |
| Geometry.BlockInGroupRange | fs/ext4/balloc.c:77-85 | ext4_block_in_group(b, g) holds exactly when b lies between the first block of g and the first block of g + 1 |
| Geometry.TestRootIsPower | fs/ext4/balloc.c:876-887 | test_root(a, b) is true exactly when a is a positive power of b |
| Geometry.HasSuperCharacterised | fs/ext4/balloc.c:897-931 | group 0 always has a superblock copy; under sparse_super2 only the two backup groups do; under sparse_super groups 0, 1 and the powers of 3, 5 and 7 do; otherwise every group does |
| Geometry.BaseMetaClustersShape | fs/ext4/balloc.c:933-1019 | the base metadata of a group is the superblock copy, the descriptor blocks (the whole table, s_first_meta_bg blocks, or one block for the first, second and last group of a metagroup) and the reserved GDT blocks outside meta_bg, rounded up to clusters |
| Geometry.ClustersInGroupCoversGroup | fs/ext4/balloc.c:164-181 | every group has between 1 and clusters-per-group clusters, all groups but the last are full, and the clusters cover exactly the group's blocks that exist |
| DescTable.GetGroupDesc | fs/ext4/balloc.c:316-360 | the lookup fails with OutOfRange exactly when the group number is not below the group count |
| DescTable.GetGroupDescLoaded | fs/ext4/balloc.c:316-360 | for an existing group, the lookup fails exactly when the descriptor block is not loaded, and otherwise returns the descriptor in the group's slot of that block |
| DescTable.GetGroupDescSlot | fs/ext4/balloc.c:338-353 | the descriptor in slot j of loaded block i is the one returned for group i * DESC_PER_BLOCK + j |
| DescTable.DescSlotInjective | fs/ext4/balloc.c:338-339 | two groups never share a descriptor slot |
| DescTable.DescBlocksInOwnGroup | fs/ext4/balloc.c:254-267 | without flex_bg, the bitmaps and the inode table of a valid descriptor lie in its own group's block range |
| Overhead.GroupClusterInGroup | fs/ext4/balloc.c:118-143 | for a block of the file system, ext4_block_in_group decides whether the block has a cluster in the group |
| Overhead.MetaClustersSize | fs/ext4/balloc.c:91-162 | the number of metadata clusters lies between the base count and the base count plus two bitmaps and the inode-table blocks |
| Overhead.CountTableClusters | fs/ext4/balloc.c:140-154 | the inode-table loop extends a tally over the counted clusters with exactly the table's clusters in the group |
| Overhead.NumOverheadClusters | fs/ext4/balloc.c:91-162 | the count as written equals the number of metadata clusters of the group, plus one exactly in the double-count layout |
| Overhead.NumOverheadClustersCorrected | fs/ext4/balloc.c:91-162 | with the shared bitmap cluster counted once, the result is exactly the number of metadata clusters |
| Overhead.FreeClustersAfterInit | fs/ext4/balloc.c:284-290 | the group's clusters less its metadata clusters, as a u32, wrapping modulo 2^32 when the metadata exceeds the group |
| Overhead.FreeClustersAfterInitAsWritten | fs/ext4/balloc.c:284-290 | as the kernel computes it: the group's clusters less its metadata clusters, and one fewer in the double-count layout, as a u32, wrapping modulo 2^32 when the count exceeds the group |
| Overhead.DoubleCountExample | fs/ext4/balloc.c:118-159 | a valid bigalloc layout with three metadata clusters, in which the double-count condition holds |
| Bitmap.Interval | fs/ext4/balloc.c:236-237 | the clusters lo .. hi - 1 |
| Bitmap.BitmapBuffer.Clear | fs/ext4/balloc.c:222 | memset leaves no bit set |
| Bitmap.BitmapBuffer.SetBit | fs/ext4/balloc.c:237 | setting bit k adds k and nothing else to the set bits |
| Bitmap.BitmapBuffer.SetRange | fs/ext4/balloc.c:236-237 | the loop adds exactly the bits lo .. hi - 1 |
| Bitmap.MarkTableClusters | fs/ext4/balloc.c:262-267 | the inode-table loop marks exactly the table's clusters in the group |
| Bitmap.MarkOwnMetadata | fs/ext4/balloc.c:254-267 | the group's own bitmaps and inode-table blocks are marked where they lie in the group, with or without flex_bg |
| Bitmap.FillInitialBitmap | fs/ext4/balloc.c:222-279 | fails with EFSCORRUPTED exactly when the base metadata does not fit in the block; otherwise the buffer holds exactly the metadata clusters and every bit past the group's last cluster |
| Bitmap.InitialBitsFreeCount | fs/ext4/balloc.c:222-290 | the synthesised bitmap leaves exactly as many clusters clear as ext4_free_clusters_after_init reports free |
| Bitmap.InitialBitsMetaMarked | fs/ext4/balloc.c:222-279 | a synthesised bitmap marks every cluster of the group's own metadata |
| Bitmap.TableClustersRange | fs/ext4/balloc.c:406-414 | without flex_bg, the inode-table clusters are exactly those from the cluster of the first table block to the cluster of the last |
| Bitmap.FindNextZeroBit | fs/ext4/balloc.c:408-414 | the first clear bit from offset below size, or size when every bit there is set |
| Bitmap.CheckBitmap | fs/ext4/balloc.c:386-416 | the tests come in their order: block bitmap, inode bitmap, inode-table scan; the result is 0 exactly when all pass, otherwise the block whose test failed first |
| Bitmap.ValidBlockBitmap | fs/ext4/balloc.c:366-416 | as written: with flex_bg nothing is checked; otherwise it passes exactly the bitmaps that set the clusters of the as-written scan |
| Bitmap.AsWrittenSound | fs/ext4/balloc.c:406-414 | the check as written never rejects a bitmap that marks all of the group's metadata |
| Bitmap.CorrectedPassesMetaMarked | fs/ext4/balloc.c:386-416 | with the scan ending at the cluster of the table's last block, the check accepts exactly the bitmaps that mark the group's metadata |
| Bitmap.ValidBlockBitmapCorrected | fs/ext4/balloc.c:366-416 | returns 0 exactly under flex_bg or when the bitmap marks all of the group's own metadata |
| Bitmap.AsWrittenMissesTableCluster | fs/ext4/balloc.c:406-414 | in a valid bigalloc layout, the check as written accepts a bitmap whose inode-table cluster is clear |
| FreeSpace.HasFreeClusters | fs/ext4/balloc.c:673-724 | the three-tier ladder admits a request exactly when the free count covers the request, the dirty count and the caller's floor |
| FreeSpace.HasFreeExact | fs/ext4/balloc.c:673-724 | with reads that have not drifted, admission means free - dirty covers the request plus the caller's floor |
| FreeSpace.HasFreeRespectsFloor | fs/ext4/balloc.c:692-696 | when the reads drift by at most e and the watermark is at least 2e, an admitted request leaves the caller's floor free in the exact counts |
| FreeSpace.HasFreeAdmitsWhenExactCovers | fs/ext4/balloc.c:673-724 | the converse of the floor property: when the exact free count covers the request, the exact dirty count and the caller's floor, the request is admitted whatever the approximate reads say |
| FreeSpace.HasFreeMonotone | fs/ext4/balloc.c:673-724 | a smaller request is admitted whenever a larger one is |
| Balloc.CorruptFreeUpdate | fs/ext4/balloc.c:441-444 | replacing one group record changes the withheld total by exactly the difference of the records |
| Balloc.QuarantineWithholdsPenalty | fs/ext4/balloc.c:441-444 | marking a group corrupt withholds exactly what the free counter loses: its bb_free the first time, nothing after |
| Balloc.QuarantineStepTransitive | fs/ext4/balloc.c:197-459 | two quarantine steps on one group (nothing, the block-bitmap quarantine or the quarantine of both bitmaps) compose into one |
| Balloc.QuarantineStepMonotone | fs/ext4/balloc.c:197-459 | a quarantine step leaves every other group's record alone, never changes bb_free and never clears a corrupt bit |
| Balloc.CountedFreeQuarantine | fs/ext4/balloc.c:813-872 | quarantining a counted group lowers the free-cluster count by exactly its descriptor's free count |
| Balloc.CountedFreeQuarantineLowers | fs/ext4/balloc.c:860-872 | skipping quarantined groups can only lower the count |
| Balloc.SbInfo.MarkBlockBitmapCorrupt | fs/ext4/balloc.c:441-444 | sets the corrupt bit, subtracts the group's bb_free once, and keeps the invariant |
| Balloc.SbInfo.InitBlockBitmap | fs/ext4/balloc.c:185-279 | a bad descriptor checksum quarantines both bitmaps and leaves the buffer alone; otherwise the buffer holds the synthesised bitmap, or nothing on EFSCORRUPTED |
| Balloc.SbInfo.ValidateBlockBitmap | fs/ext4/balloc.c:422-465 | verified passes at once; a quarantined group fails with EFSCORRUPTED and no change; a bad checksum quarantines the group with EFSBADCRC, and unmarked metadata without flex_bg with EFSCORRUPTED, each taking bb_free out of the free counter; otherwise the buffer becomes verified and nothing else changes |
| Balloc.SbInfo.ReadBlockBitmapNowait | fs/ext4/balloc.c:494-599 | a missing descriptor or buffer fails without change. An up-to-date buffer is validated as it is. Otherwise a group not BLOCK_UNINIT gets a read in flight with nothing else changed; a bad descriptor checksum quarantines both bitmaps with EFSBADCRC; base metadata too large is EFSCORRUPTED; and the synthesised bitmap is validated. The only state change is one quarantine of group g, and free inodes change only on the descriptor-checksum path |
| Balloc.SbInfo.LoadBlockBitmap | fs/ext4/balloc.c:518-589 | an uninitialised group is synthesised, or quarantined on a bad descriptor checksum; an up-to-date buffer is adopted unchanged; anything else is submitted for reading unchanged |
| Balloc.SbInfo.WaitBlockBitmap | fs/ext4/balloc.c:602-627 | nothing to do without BH_New; a failed read is EIO and changes nothing; a completed read puts the disk contents and their checksum status in the buffer and is validated with ValidateBlockBitmap's outcome; free inodes never change |
| Balloc.SbInfo.ReadBlockBitmap | fs/ext4/balloc.c:634-650 | a bitmap it returns is verified, up to date and marks the group's own metadata. Every path has ValidateBlockBitmap's outcome on the contents the buffer ends up with (its earlier contents, the disk block, or the synthesised bitmap), or EIO, ENOMEM, EFSCORRUPTED or EFSBADCRC as the source returns them. A missing descriptor or buffer head fails with nothing changed. Other groups are unchanged, corrupt bits are never cleared, and free inodes change only on the descriptor-checksum path |
| Balloc.SbInfo.CountFreeClusters | fs/ext4/balloc.c:813-872 | the sum of the descriptors' free counts over loaded, unquarantined groups |
| Balloc.SbInfo.ClaimFreeClusters | fs/ext4/balloc.c:730-738 | admitted requests go to the dirty counter, refused ones return ENOSPC and change nothing, and an admitted request leaves the caller's floor free |
| Balloc.SbInfo.ShouldRetryAlloc | fs/ext4/balloc.c:752-765 | retry exactly when a one-cluster request would be admitted, the counter was at most 3 and a journal exists; the counter advances only after admission; the commit is forced exactly when retrying with frees pending |
| Goal.GoalGroup | fs/ext4/balloc.c:1041-1053 | with flex groups of at least four groups, the group is rounded down to its flex group's first group, plus one for regular files |
| Goal.InodeToGoalBlock | fs/ext4/balloc.c:1029-1078 | the goal is a 64-bit block number, and with DELALLOC it is the first block of the goal group |
| Goal.GoalInGoalGroup | fs/ext4/balloc.c:1066-1077 | the coloured goal is a block of the file system inside the goal group, fewer than a group's blocks past its start |
| Goal.DelallocGoalIsGroupStart | fs/ext4/balloc.c:1066-1067 | with DELALLOC, the goal maps to offset 0 of the goal group |
| Goal.RegularFilesSkipFirstGroup | fs/ext4/balloc.c:1041-1053 | under the directory scheme, a regular file's goal group is the one right after the flex group's first group |

## Left out

- Block I/O is not modelled. `sb_getblk` success, the read's outcome and
  the block's contents are parameters. The read completion
  (`ext4_end_bitmap_read`) is folded into `WaitBlockBitmap`, and
  `submit_bh` is the `isNew` flag.
- Locking, memory barriers and concurrency are not modelled. The model is
  sequential, and the second `bitmap_uptodate` test under the group lock
  coincides with the first.
- Checksums are booleans: `csumOk` on a descriptor and on a buffer. Their
  computation and storage (`ext4_group_desc_csum_set`,
  `ext4_block_bitmap_csum_set`) are not modelled.
- `DescValid` assumes that the bitmaps and the inode table are not block 0.
  The mount-time checks this stands for are not part of this model.
- `ext4_error`, `ext4_warning`, tracing and `jbd_debug` are left out.
  So are `ext4_new_meta_blocks` and the `EXT4FS_DEBUG` branch of
  `ext4_count_free_clusters`.
- The per-cpu counters are modelled as their exact values. The
  approximate reads are parameters of the operations that use them.
- The credential tests (`s_resuid`, `s_resgid`, `CAP_SYS_RESOURCE`) are
  one boolean, `privileged`.
- `s64` overflow of the counters in `ext4_has_free_clusters` is not
  modelled.
- The watermark is a parameter. `EXT4_FREECLUSTERS_WATERMARK` lives in
  fs/ext4/ext4.h, which is not part of this model.
- The forced journal commit of `ext4_should_retry_alloc` is the output
  `forceCommit`, not a call.
- `ext4_mark_bitmap_end` and `ext4_find_next_zero_bit` come from code that
  is not part of this model. Their effect on the buffer is written out
  directly in `FillInitialBitmap` and `FindNextZeroBit`.
- The free-inode counter is touched only by the descriptor-checksum
  quarantine of `InitBlockBitmap`. The inode bitmap itself is not
  modelled.
- `Goal.GoalInGoalGroup` requires blocks per group below 2^31, so that
  the colour fits the signed 32-bit `ext4_grpblk_t`. It also requires the
  goal group to exist.
- `Overhead.FreeClustersAfterInit` uses the corrected overhead count. The
  kernel as written reports one free cluster fewer in the double-count
  layout; `Overhead.FreeClustersAfterInitAsWritten` models that.
- `Bitmap.InitialBitsFreeCount` relates the synthesised bitmap to the
  corrected `FreeClustersAfterInit`. With the as-written count the
  descriptor's free count would be one lower than the clear bits in the
  double-count layout.
- `Balloc.SbInfo.ValidateBlockBitmap` checks the bitmap with
  `ValidBlockBitmapCorrected`, and so do `ReadBlockBitmapNowait` and
  `WaitBlockBitmap`, which validate through it. The kernel as written also
  accepts a bitmap whose last inode-table cluster is clear when the table
  ends mid-cluster (`Bitmap.AsWrittenMissesTableCluster`).
- `Balloc.SbInfo.ReadBlockBitmap` inherits that corrected check from
  `ValidateBlockBitmap`, and with it the guarantee that a returned bitmap
  marks the whole inode table.
- `Balloc.SbInfo.InitBlockBitmap` leaves the buffer's `csumOk` unchanged
  when the synthesis fails.
- The current process's pid is a parameter of `Goal.InodeToGoalBlock`.

## Findings

| source | as written | input that shows it | evidently intended | confidence | as-written member | corrected member |
|---|---|---|---|---|---|---|
| fs/ext4/balloc.c:118-159 | the inode bitmap's cluster is kept aside for the final count even when it is the block bitmap's kept-aside cluster, so that cluster is added twice | bigalloc with 16-block clusters and 1 KiB blocks, one group of 8 clusters, base metadata in cluster 0, both bitmaps in blocks 32 and 33 (cluster 2), inode table in blocks 48-51 (cluster 3): three metadata clusters, counted as four | count each metadata cluster once (skip the inode bitmap's cluster when it equals the block bitmap's) | not executed | Overhead.NumOverheadClusters, Overhead.FreeClustersAfterInitAsWritten, Overhead.DoubleCountExample | Overhead.NumOverheadClustersCorrected |
| fs/ext4/balloc.c:406-414 | the inode-table scan ends at the cluster of the block just past the table, exclusive, so the cluster of the table's last block is not checked when the table ends mid-cluster | the same layout: the scan covers B2C(48) .. B2C(52), which is 3 .. 3 and empty, so a bitmap with cluster 3 clear passes | end the scan at the cluster of the table's last block, inclusive | not executed | Bitmap.ValidBlockBitmap, Bitmap.AsWrittenMissesTableCluster | Bitmap.ValidBlockBitmapCorrected |

The rest of the model uses the corrected members. `Balloc.SbInfo.ValidateBlockBitmap`
calls `ValidBlockBitmapCorrected`, and `FreeClustersAfterInit` counts the
overhead with `NumOverheadClustersCorrected`.
